/** How many nodes and elements of a structured mesh are real and how many are ghosts (COM/src/Connectivity.C): the closed
    formulas against the set of the index tuples they are meant to count. */
module StructuredCounts {
  import opened Arithmetic

  /** A structured mesh: its numbers of nodes in one to three directions, and its layers of ghosts on every side. */
  datatype Grid = Grid(sizes: seq<int>, layers: nat) {
    predicate Valid() {
      1 <= |sizes| <= 3
    }
  }

  function Max(a: int, b: int): int {
    if a < b then b else a
  }

  /** The products that the switch statements write out: (size - off) over all directions. */
  function Times(sizes: seq<int>, off: int): int
    requires 1 <= |sizes| <= 3
  {
    match |sizes|
    case 1 => sizes[0] - off
    case 2 => (sizes[0] - off) * (sizes[1] - off)
    case _ => (sizes[0] - off) * (sizes[1] - off) * (sizes[2] - off)
  }

  function SizeOfElements(g: Grid): int
    requires g.Valid()
  {
    Max(0, Times(g.sizes, 1))
  }

  function SizeOfGhostElements(g: Grid): int
    requires g.Valid()
  {
    Max(0, if |g.sizes| == 1 then 2 * g.layers else Times(g.sizes, 1) - Times(g.sizes, 1 + 2 * g.layers))
  }

  function SizeOfRealElements(g: Grid): int
    requires g.Valid()
  {
    Max(0, Times(g.sizes, 1 + 2 * g.layers))
  }

  function SizeOfNodes(g: Grid): int
    requires g.Valid()
  {
    Times(g.sizes, 0)
  }

  function SizeOfGhostNodes(g: Grid): int
    requires g.Valid()
  {
    if |g.sizes| == 1 then 2 * g.layers else Times(g.sizes, 0) - Times(g.sizes, 2 * g.layers)
  }

  function SizeOfRealNodes(g: Grid): int
    requires g.Valid()
  {
    Times(g.sizes, 2 * g.layers)
  }

  // ---------- What is to be counted ----------

  /** The tuple lies in the box of the given widths, at least `layers` away from every face. */
  predicate Inside(widths: seq<int>, layers: nat, p: seq<int>) {
    |p| == |widths| && forall k :: 0 <= k < |p| ==> layers <= p[k] < widths[k] - layers
  }

  /** The tuples of the set with x in front. */
  ghost function WithFirst(x: int, rest: set<seq<int>>): (r: set<seq<int>>)
    ensures forall q :: q in r <==> |q| > 0 && q[0] == x && q[1..] in rest
  {
    var r := set p | p in rest :: [x] + p;
    assert forall q :: |q| > 0 && q[0] == x && q[1..] in rest ==> q in r by {
      forall q: seq<int> | |q| > 0 && q[0] == x && q[1..] in rest ensures q in r {
        assert q == [x] + q[1..];
      }
    }
    r
  }

  /** The tuples of the set with each number from lo below hi in front. */
  ghost function Prepend(lo: int, hi: int, rest: set<seq<int>>): (r: set<seq<int>>)
    ensures forall q :: q in r <==> |q| > 0 && lo <= q[0] < hi && q[1..] in rest
    decreases hi - lo
  {
    if lo < hi then Prepend(lo, hi - 1, rest) + WithFirst(hi - 1, rest) else {}
  }

  /** All tuples inside. */
  ghost function Inner(widths: seq<int>, layers: nat): set<seq<int>> {
    if widths == [] then {[]} else Prepend(layers, widths[0] - layers, Inner(widths[1..], layers))
  }

  lemma {:induction false} InnerExact(widths: seq<int>, layers: nat, p: seq<int>)
    ensures p in Inner(widths, layers) <==> Inside(widths, layers, p)
  {
    if widths != [] && p != [] {
      InnerExact(widths[1..], layers, p[1..]);
      if Inside(widths[1..], layers, p[1..]) && layers <= p[0] < widths[0] - layers {
        forall k | 0 <= k < |p| ensures layers <= p[k] < widths[k] - layers {
          assert k > 0 ==> p[k] == p[1..][k - 1] && widths[k] == widths[1..][k - 1];
        }
      }
      if Inside(widths, layers, p) {
        assert Inside(widths[1..], layers, p[1..]);
      }
    }
  }

  /** The widths of the box of elements (off = 1) or nodes (off = 0). */
  function Widths(g: Grid, off: int): (w: seq<int>)
    ensures |w| == |g.sizes| && forall k :: 0 <= k < |w| ==> w[k] == g.sizes[k] - off
  {
    seq(|g.sizes|, k requires 0 <= k < |g.sizes| => g.sizes[k] - off)
  }

  /** The real elements or nodes are those behind the ghost layers of every face; the ghosts are the others. */
  ghost function Real(g: Grid, off: int): set<seq<int>> {
    Inner(Widths(g, off), g.layers)
  }

  ghost function Ghosts(g: Grid, off: int): set<seq<int>> {
    Inner(Widths(g, off), 0) - Inner(Widths(g, off), g.layers)
  }

  // ---------- Counting ----------

  lemma {:induction false} WithFirstSize(x: int, rest: set<seq<int>>)
    ensures |WithFirst(x, rest)| == |rest|
    decreases |rest|
  {
    if p :| p in rest {
      WithFirstSize(x, rest - {p});
      assert ([x] + p)[1..] == p;
      forall q | q in WithFirst(x, rest) ensures q in WithFirst(x, rest - {p}) + {[x] + p} {
        assert q == [q[0]] + q[1..];
      }
      assert WithFirst(x, rest) == WithFirst(x, rest - {p}) + {[x] + p};
    } else {
      assert WithFirst(x, rest) == {};
    }
  }

  lemma {:induction false} PrependSize(lo: int, hi: int, rest: set<seq<int>>)
    ensures |Prepend(lo, hi, rest)| == Max(0, hi - lo) * |rest|
    decreases hi - lo
  {
    hide WithFirst;
    if lo < hi {
      var a, b := Prepend(lo, hi - 1, rest), WithFirst(hi - 1, rest);
      PrependSize(lo, hi - 1, rest);
      WithFirstSize(hi - 1, rest);
      DisjointSize(a, b);
      Distribute(hi - 1 - lo, 1, |rest|);
    }
  }

  lemma {:induction false} DisjointSize(a: set<seq<int>>, b: set<seq<int>>)
    requires a !! b
    ensures |a + b| == |a| + |b|
  {
  }

  function Product(s: seq<int>): int {
    if s == [] then 1 else s[0] * Product(s[1..])
  }

  /** What is left of every width behind the layers, nothing being left of a width that they fill. */
  function Remaining(widths: seq<int>, layers: nat): (r: seq<int>)
    ensures |r| == |widths| && forall k :: 0 <= k < |r| ==> r[k] == Max(0, widths[k] - 2 * layers)
  {
    seq(|widths|, k requires 0 <= k < |widths| => Max(0, widths[k] - 2 * layers))
  }

  lemma {:induction false} ProductOfRemaining(widths: seq<int>, layers: nat)
    requires widths != []
    ensures Product(Remaining(widths, layers)) == Max(0, widths[0] - 2 * layers) * Product(Remaining(widths[1..], layers))
  {
    assert Remaining(widths, layers)[1..] == Remaining(widths[1..], layers);
  }

  lemma {:induction false} OneMoreDirection(widths: seq<int>, layers: nat)
    requires widths != [] && |Inner(widths[1..], layers)| == Product(Remaining(widths[1..], layers))
    ensures |Inner(widths, layers)| == Product(Remaining(widths, layers))
  {
    hide Prepend, Product, Remaining, Max;
    PrependSize(layers, widths[0] - layers, Inner(widths[1..], layers));
    ProductOfRemaining(widths, layers);
  }

  /** There are as many tuples inside as the product of the remaining widths says. */
  lemma {:induction false} InnerSize(widths: seq<int>, layers: nat)
    ensures |Inner(widths, layers)| == Product(Remaining(widths, layers))
  {
    if widths != [] {
      InnerSize(widths[1..], layers);
      OneMoreDirection(widths, layers);
    }
  }

  // ---------- The formulas against the counts ----------

  /** What the formulas put in place of that: widths minus layers, of whatever sign. */
  function Left(widths: seq<int>, layers: nat): (r: seq<int>)
    ensures |r| == |widths| && forall k :: 0 <= k < |r| ==> r[k] == widths[k] - 2 * layers
  {
    seq(|widths|, k requires 0 <= k < |widths| => widths[k] - 2 * layers)
  }

  lemma {:induction false} TimesIsProduct(g: Grid, off: int)
    requires g.Valid()
    ensures Times(g.sizes, off + 2 * g.layers) == Product(Left(Widths(g, off), g.layers))
  {
    var s := Left(Widths(g, off), g.layers);
    assert Product(s) == s[0] * Product(s[1..]);
    if |s| == 1 {
      assert Product(s[1..]) == 1;
    } else {
      assert Product(s[1..]) == s[1] * Product(s[2..]) by { assert s[1..][1..] == s[2..]; }
      if |s| == 2 {
        assert Product(s[2..]) == 1;
      } else {
        assert Product(s[2..]) == s[2] by { assert s[2..] == [s[2]]; }
        assert s[0] * (s[1] * s[2]) == s[0] * s[1] * s[2];
      }
    }
  }

  /** The number of directions that are too thin for the layers on both sides. */
  function Thin(widths: seq<int>, layers: nat): nat {
    if widths == [] then 0 else (if widths[0] < 2 * layers then 1 else 0) + Thin(widths[1..], layers)
  }

  /** Some direction is filled by its layers exactly. */
  predicate Filled(widths: seq<int>, layers: nat) {
    exists k :: 0 <= k < |widths| && widths[k] == 2 * layers
  }

  lemma {:induction false} ProductOfLeft(widths: seq<int>, layers: nat)
    requires widths != []
    ensures Product(Left(widths, layers)) == (widths[0] - 2 * layers) * Product(Left(widths[1..], layers))
  {
    assert Left(widths, layers)[1..] == Left(widths[1..], layers);
  }

  lemma {:induction false} FilledFirst(widths: seq<int>, layers: nat)
    requires widths != []
    ensures Filled(widths, layers) <==> widths[0] == 2 * layers || Filled(widths[1..], layers)
  {
    var rest := widths[1..];
    assert forall k :: 0 <= k < |rest| ==> rest[k] == widths[k + 1];
    assert forall k :: 1 <= k < |widths| ==> widths[k] == rest[k - 1];
  }

  /** The sign of the product of what is left. */
  lemma {:induction false} SignOfLeft(widths: seq<int>, layers: nat)
    ensures var p := Product(Left(widths, layers));
      && (p == 0 <==> Filled(widths, layers))
      && (p > 0 <==> !Filled(widths, layers) && Thin(widths, layers) % 2 == 0)
  {
    if widths != [] {
      hide Product, Left, Filled;
      SignOfLeft(widths[1..], layers);
      ProductOfLeft(widths, layers);
      FilledFirst(widths, layers);
      SignOfProduct(widths[0] - 2 * layers, Product(Left(widths[1..], layers)));
    }
  }

  lemma {:induction false} SignOfProduct(a: int, b: int)
    ensures a * b == 0 <==> a == 0 || b == 0
    ensures a * b > 0 <==> (a > 0 && b > 0) || (a < 0 && b < 0)
  {
    if a > 0 && b < 0 {
      assert a * (-b) > 0;
    } else if a < 0 && b > 0 {
      assert (-a) * b > 0;
    } else if a < 0 && b < 0 {
      assert (-a) * (-b) > 0;
    }
  }

  /** Nothing is inside if some direction is too thin; else the formula's product is the count. */
  lemma {:induction false} RemainingProduct(widths: seq<int>, layers: nat)
    ensures Product(Remaining(widths, layers)) == if Thin(widths, layers) > 0 then 0 else Product(Left(widths, layers))
  {
    if widths != [] {
      RemainingProduct(widths[1..], layers);
      assert Remaining(widths, layers)[1..] == Remaining(widths[1..], layers);
      assert Left(widths, layers)[1..] == Left(widths[1..], layers);
    }
  }

  /** The formula for elements, which never goes below zero, counts the tuples inside unless an even number of
      directions is too thin and no direction is filled exactly: then the signs cancel. */
  lemma {:induction false} CountExact(widths: seq<int>, layers: nat)
    ensures Max(0, Product(Left(widths, layers))) == |Inner(widths, layers)| <==>
      Thin(widths, layers) == 0 || Thin(widths, layers) % 2 == 1 || Filled(widths, layers)
  {
    InnerSize(widths, layers);
    SignOfLeft(widths, layers);
    RemainingProduct(widths, layers);
  }

  lemma {:induction false} RealElementsExact(g: Grid)
    requires g.Valid()
    ensures var w := Widths(g, 1);
      SizeOfRealElements(g) == |Real(g, 1)| <==> Thin(w, g.layers) == 0 || Thin(w, g.layers) % 2 == 1 || Filled(w, g.layers)
  {
    hide Times, Product, Inner, Left, Widths, Thin, Filled;
    TimesIsProduct(g, 1);
    CountExact(Widths(g, 1), g.layers);
  }

  /** The formula for nodes may also go below zero. */
  lemma {:induction false} RealNodesExact(g: Grid)
    requires g.Valid()
    ensures var w := Widths(g, 0); SizeOfRealNodes(g) == |Real(g, 0)| <==> Thin(w, g.layers) == 0 || Filled(w, g.layers)
  {
    hide Times, Product, Inner, Left, Widths, Thin, Filled, Remaining;
    var w := Widths(g, 0);
    TimesIsProduct(g, 0);
    InnerSize(w, g.layers);
    SignOfLeft(w, g.layers);
    RemainingProduct(w, g.layers);
  }

  /** The whole mesh is the case without layers. */
  lemma {:induction false} TotalsExact(g: Grid)
    requires g.Valid()
    ensures var w := Widths(g, 1);
      SizeOfElements(g) == |Inner(w, 0)| <==> Thin(w, 0) == 0 || Thin(w, 0) % 2 == 1 || Filled(w, 0)
    ensures var w := Widths(g, 0); SizeOfNodes(g) == |Inner(w, 0)| <==> Thin(w, 0) == 0 || Filled(w, 0)
  {
    hide Times, Product, Inner, Left, Widths, Thin, Filled;
    var whole := g.(layers := 0);
    assert Widths(whole, 1) == Widths(g, 1) && Widths(whole, 0) == Widths(g, 0) by { WidthsOf(g, whole); }
    RealElementsExact(whole);
    RealNodesExact(whole);
  }

  lemma {:induction false} WidthsOf(g: Grid, h: Grid)
    requires g.sizes == h.sizes
    ensures Widths(g, 0) == Widths(h, 0) && Widths(g, 1) == Widths(h, 1)
  {
  }

  /** No number of elements is ever negative. */
  lemma {:induction false} ElementsNotNegative(g: Grid)
    requires g.Valid()
    ensures SizeOfElements(g) >= 0 && SizeOfRealElements(g) >= 0 && SizeOfGhostElements(g) >= 0
  {
  }

  /** A mesh with at least one element or node has as many ghosts as tuples in its box that are not behind all layers. */
  lemma {:induction false} GhostSize(g: Grid, off: int)
    requires g.Valid() && forall k :: 0 <= k < |g.sizes| ==> off < g.sizes[k]
    ensures var w := Widths(g, off);
      && |Inner(w, 0)| == Times(g.sizes, off) > 0
      && (Thin(w, g.layers) == 0 ==> Times(g.sizes, off + 2 * g.layers) >= 0)
      && |Ghosts(g, off)| == Times(g.sizes, off) - if Thin(w, g.layers) > 0 then 0 else Times(g.sizes, off + 2 * g.layers)
  {
    hide Times, Product, Inner, Thin, Filled, Remaining, Left, Widths;
    var w := Widths(g, off);
    var all, inner := Inner(w, 0), Inner(w, g.layers);
    TimesIsProduct(g.(layers := 0), off);
    TimesIsProduct(g, off);
    assert Widths(g.(layers := 0), off) == w;
    AllWide(w);
    InnerSize(w, 0);
    RemainingProduct(w, 0);
    SignOfLeft(w, 0);
    SignOfLeft(w, g.layers);
    InnerSize(w, g.layers);
    RemainingProduct(w, g.layers);
    forall p | p in inner ensures p in all {
      InnerExact(w, g.layers, p);
      InnerExact(w, 0, p);
    }
    assert all == inner + (all - inner);
  }

  lemma {:induction false} AllWide(widths: seq<int>)
    requires forall k :: 0 <= k < |widths| ==> 0 < widths[k]
    ensures Thin(widths, 0) == 0 && !Filled(widths, 0)
  {
    if widths != [] {
      AllWide(widths[1..]);
    }
  }

  /** The formulas for ghosts count them exactly when no direction is too thin, or some direction is filled exactly. */
  lemma {:induction false} GhostsExact(g: Grid)
    requires g.Valid()
    ensures (forall k :: 0 <= k < |g.sizes| ==> 1 < g.sizes[k]) ==>
      (SizeOfGhostElements(g) == |Ghosts(g, 1)| <==> Thin(Widths(g, 1), g.layers) == 0 || Filled(Widths(g, 1), g.layers))
    ensures (forall k :: 0 <= k < |g.sizes| ==> 0 < g.sizes[k]) ==>
      (SizeOfGhostNodes(g) == |Ghosts(g, 0)| <==> Thin(Widths(g, 0), g.layers) == 0 || Filled(Widths(g, 0), g.layers))
  {
    hide Product, Inner, Ghosts, Thin, Filled;
    forall off | 0 <= off <= 1 && forall k :: 0 <= k < |g.sizes| ==> off < g.sizes[k]
      ensures (if off == 1 then SizeOfGhostElements(g) else SizeOfGhostNodes(g)) == |Ghosts(g, off)| <==>
        Thin(Widths(g, off), g.layers) == 0 || Filled(Widths(g, off), g.layers)
    {
      GhostSize(g, off);
      TimesIsProduct(g, off);
      SignOfLeft(Widths(g, off), g.layers);
    }
  }

  /** Where the layers fit, all four counts are right, and real and ghost ones add up to the whole mesh. */
  lemma {:induction false} CountsAddUp(g: Grid)
    requires g.Valid() && forall k :: 0 <= k < |g.sizes| ==> g.sizes[k] > 1 && g.sizes[k] - 1 >= 2 * g.layers
    ensures SizeOfRealElements(g) == |Real(g, 1)| && SizeOfGhostElements(g) == |Ghosts(g, 1)|
    ensures SizeOfRealNodes(g) == |Real(g, 0)| && SizeOfGhostNodes(g) == |Ghosts(g, 0)|
    ensures SizeOfElements(g) == |Inner(Widths(g, 1), 0)| == SizeOfRealElements(g) + SizeOfGhostElements(g)
    ensures SizeOfNodes(g) == |Inner(Widths(g, 0), 0)| == SizeOfRealNodes(g) + SizeOfGhostNodes(g)
  {
    hide Times, Inner, Ghosts, Real, Thin, Filled;
    NoneThin(Widths(g, 0), g.layers);
    NoneThin(Widths(g, 1), g.layers);
    RealElementsExact(g);
    RealNodesExact(g);
    GhostsExact(g);
    GhostSize(g, 0);
    GhostSize(g, 1);
  }

  lemma {:induction false} NoneThin(widths: seq<int>, layers: nat)
    requires forall k :: 0 <= k < |widths| ==> 2 * layers <= widths[k]
    ensures Thin(widths, layers) == 0
  {
    if widths != [] {
      NoneThin(widths[1..], layers);
    }
  }

  /** Two thin directions: no element lies behind two layers, yet four are counted as real. */
  lemma {:induction false} TwoThinDirections()
    ensures var g := Grid([3, 3], 2); Real(g, 1) == {} && SizeOfRealElements(g) == 4
  {
    var g := Grid([3, 3], 2);
    forall p ensures p !in Real(g, 1) {
      InnerExact(Widths(g, 1), 2, p);
    }
  }
}
