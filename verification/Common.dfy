/** What several modules need: optional results, and lists without repetition. */
module Common {

  datatype Option<T> = None | Some(value: T)

  /** The positions of a list of n members. */
  function Positions(n: nat): (r: seq<nat>)
    ensures |r| == n && forall k :: 0 <= k < n ==> r[k] == k
  {
    seq(n, k => k)
  }

  /** The list without its member at p: `std::vector::erase`. */
  function Erase(s: seq<nat>, p: nat): (r: seq<nat>)
    requires p < |s|
    ensures |r| == |s| - 1 && forall q :: 0 <= q < |r| ==> r[q] == s[if q < p then q else q + 1]
  {
    s[..p] + s[p + 1..]
  }

  /** Nothing occurs twice in the list. */
  ghost predicate Distinct<T>(s: seq<T>) {
    forall j, k :: 0 <= j < k < |s| ==> s[j] != s[k]
  }

  /** A list of numbers below n without repetition has at most n members. */
  lemma {:induction false} Pigeonhole(s: seq<nat>, n: nat)
    requires (forall j :: 0 <= j < |s| ==> s[j] < n) && Distinct(s)
    ensures |s| <= n
    decreases n
  {
    if s != [] {
      assert s[0] < n;
      if m: nat :| m < |s| && s[m] == n - 1 {
        Pigeonhole(Erase(s, m), n - 1);
      } else {
        Pigeonhole(s, n - 1);
      }
    }
  }

  /** And if it has n members, every number below n is one of them. */
  lemma {:induction false} Saturated(s: seq<nat>, x: nat)
    requires Distinct(s) && (forall j :: 0 <= j < |s| ==> s[j] < |s|) && x < |s|
    ensures x in s
  {
    if x !in s {
      Pigeonhole(s + [x], |s|);
      assert false;
    }
  }
}
