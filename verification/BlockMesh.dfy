/** Block-structured extents (SolverUtils/include/BSMesh.H): the numbering of the nodes of a sub-extent
    and the cells of the unstructured mesh made from an extent. */
module BlockMesh {
  import opened Arithmetic

  /** One direction of an extent, both ends included. */
  datatype Range = Range(lo: int, hi: int)

  function Size(r: Range): int {
    r.hi - r.lo + 1
  }

  /** The distance in node numbers between neighbours in direction d: the product of the sizes of the lower directions. */
  function Stride(ext: seq<Range>, d: nat): int
    requires d <= |ext|
  {
    if d == 0 then 1 else Size(ext[d - 1]) * Stride(ext, d - 1)
  }

  ghost predicate Nonempty(ext: seq<Range>) {
    forall d :: 0 <= d < |ext| ==> Size(ext[d]) >= 1
  }

  /** sub lies inside ext in every direction, and is nowhere empty. */
  ghost predicate Within(sub: seq<Range>, ext: seq<Range>) {
    |sub| == |ext| && forall d :: 0 <= d < |ext| ==> ext[d].lo <= sub[d].lo <= sub[d].hi <= ext[d].hi
  }

  /** What `dir_loop` appends for the lowest nd directions. */
  function Indices(ext: seq<Range>, sub: seq<Range>, nd: nat, off: int): seq<int>
    requires nd <= |ext| == |sub|
    decreases nd, 0
  {
    if nd == 0 then [off + 1] else Slices(ext, sub, nd, off, sub[nd - 1].lo)
  }

  /** The part of the loop over direction nd - 1 that starts at dd. */
  function Slices(ext: seq<Range>, sub: seq<Range>, nd: nat, off: int, dd: int): seq<int>
    requires 0 < nd <= |ext| == |sub|
    decreases nd - 1, 1, sub[nd - 1].hi + 1 - dd
  {
    if dd > sub[nd - 1].hi then []
    else Indices(ext, sub, nd - 1, off + (dd - ext[nd - 1].lo) * Stride(ext, nd - 1)) + Slices(ext, sub, nd, off, dd + 1)
  }

  /** The slice of direction d at dd. */
  function SliceAt(ext: seq<Range>, sub: seq<Range>, d: nat, off: int, dd: int): seq<int>
    requires d < |ext| == |sub|
  {
    Indices(ext, sub, d, off + (dd - ext[d].lo) * Stride(ext, d))
  }

  lemma {:induction false} NextSlice(ext: seq<Range>, sub: seq<Range>, nd: nat, off: int, dd: int, done: seq<int>)
    requires 0 < nd <= |ext| == |sub| && dd <= sub[nd - 1].hi
    ensures done + SliceAt(ext, sub, nd - 1, off, dd) + Slices(ext, sub, nd, off, dd + 1) == done + Slices(ext, sub, nd, off, dd)
    ensures dd == sub[nd - 1].hi ==> Slices(ext, sub, nd, off, dd + 1) == []
  {
  }

  // ---------- The extent object ----------

  class BSExtent {
    var ranges: seq<Range>
    var n: seq<int>     // _N
    var np: seq<int>    // _Np

    ghost predicate Synced()
      reads this
    {
      && |n| == |np| == |ranges|
      && forall d :: 0 <= d < |ranges| ==> n[d] == Size(ranges[d]) && np[d] == Stride(ranges, d)
    }

    constructor (flat: seq<int>)
      requires |flat| >= 2 && |flat| % 2 == 0
      ensures Synced() && |ranges| == |flat| / 2
      ensures forall d :: 0 <= d < |ranges| ==> ranges[d] == Range(flat[2 * d], flat[2 * d + 1])
    {
      n, np := [], [];
      ranges := [];
      new;
      for d := 0 to |flat| / 2
        invariant |ranges| == d && forall x :: 0 <= x < d ==> ranges[x] == Range(flat[2 * x], flat[2 * x + 1])
      {
        ranges := ranges + [Range(flat[2 * d], flat[2 * d + 1])];
      }
      Sync();
    }

    /** `Sync`: the sizes and the running products, for an extent of at least one direction. */
    method Sync()
      requires |ranges| > 0
      modifies this`n, this`np
      ensures Synced()
    {
      n, np := [], [1];
      for d := 0 to |ranges|
        invariant |n| == d && forall x :: 0 <= x < d ==> n[x] == Size(ranges[x])
        invariant np == [1]
      {
        n := n + [ranges[d].hi - ranges[d].lo + 1];
      }
      for d := 1 to |ranges|
        invariant |n| == |ranges| && forall x :: 0 <= x < |n| ==> n[x] == Size(ranges[x])
        invariant |np| == d && forall x :: 0 <= x < d ==> np[x] == Stride(ranges, x)
      {
        np := np + [n[d - 1] * np[d - 1]];
      }
    }

    /** `NNodes`. */
    method NNodes() returns (r: int)
      ensures r == Stride(ranges, |ranges|)
    {
      r := 1;
      for d := 0 to |ranges|
        invariant r == Stride(ranges, d)
      {
        r := r * (ranges[d].hi - ranges[d].lo + 1);
      }
    }

    /** `dir_loop`. The product for direction 0 is never used, whatever it is. */
    method DirLoop(nd: nat, off: int, prods: seq<int>, sub: seq<Range>, indices: seq<int>) returns (r: seq<int>)
      requires 0 < nd <= |ranges| == |sub| && |prods| == |ranges|
      requires forall d :: 0 < d < nd ==> prods[d] == Stride(ranges, d)
      ensures r == indices + Indices(ranges, sub, nd, off)
      decreases nd
    {
      r := indices;
      ghost var done := [];
      var dindex := nd - 1;
      var ext := ranges;
      var dd := sub[dindex].lo;
      while dd <= sub[dindex].hi
        invariant r == indices + done && done + Slices(ext, sub, nd, off, dd) == Indices(ext, sub, nd, off)
        invariant dd <= sub[dindex].hi || Slices(ext, sub, nd, off, dd) == []
        decreases sub[dindex].hi - dd
      {
        ghost var slice := SliceAt(ext, sub, dindex, off, dd);
        if dindex == 0 {
          r := r + [dd - ext[dindex].lo + 1 + off];
        } else {
          r := DirLoop(dindex, off + (dd - ext[dindex].lo) * prods[dindex], prods, sub, r);
        }
        assert r == indices + (done + slice);
        NextSlice(ext, sub, nd, off, dd, done);
        done := done + slice;
        dd := dd + 1;
      }
    }

    /** `GetFlatIndices`. */
    method GetFlatIndices(sub: seq<Range>) returns (indices: seq<int>)
      requires 0 < |ranges| == |sub|
      ensures indices == Indices(ranges, sub, |ranges|, 0)
    {
      var prods := [1];
      for d := 1 to |ranges|
        invariant |prods| == d && forall x :: 0 <= x < d ==> prods[x] == Stride(ranges, x)
      {
        prods := prods + [(ranges[d - 1].hi - ranges[d - 1].lo + 1) * prods[d - 1]];
      }
      prods := prods[0 := 0];
      indices := DirLoop(|ranges|, 0, prods, sub, []);
      assert [] + Indices(ranges, sub, |ranges|, 0) == Indices(ranges, sub, |ranges|, 0);
    }
  }

  // ---------- Points and their numbers ----------

  /** The k-th point of an extent in dictionary order, the first direction running fastest. */
  function PointAt(sub: seq<Range>, nd: nat, k: int): (p: seq<int>)
    requires nd <= |sub| && Nonempty(sub)
    ensures |p| == nd
  {
    if nd == 0 then []
    else
      StridePositive(sub, nd - 1);
      var st := Stride(sub, nd - 1);
      PointAt(sub, nd - 1, k % st) + [sub[nd - 1].lo + k / st]
  }

  /** The node number of a point: one plus its mixed-radix value. */
  function Number(ext: seq<Range>, p: seq<int>): int
    requires |p| <= |ext|
  {
    if p == [] then 1
    else
      var d := |p| - 1;
      Number(ext, p[..d]) + (p[d] - ext[d].lo) * Stride(ext, d)
  }

  lemma {:induction false} NumberLast(ext: seq<Range>, p: seq<int>, last: int)
    requires |p| < |ext|
    ensures Number(ext, p + [last]) == Number(ext, p) + (last - ext[|p|].lo) * Stride(ext, |p|)
  {
    assert (p + [last])[..|p|] == p;
  }

  /** The k-th index is the number of the k-th point. */
  lemma {:induction false} IndexIsNumber(ext: seq<Range>, sub: seq<Range>, nd: nat, off: int, k: nat)
    requires nd <= |ext| && Within(sub, ext) && k < |Indices(ext, sub, nd, off)|
    ensures Indices(ext, sub, nd, off)[k] == off + Number(ext, PointAt(sub, nd, k))
    decreases nd, 0, 0
  {
    if nd > 0 {
      SliceIsNumber(ext, sub, nd, off, sub[nd - 1].lo, k);
    }
  }

  lemma {:induction false} SliceIsNumber(ext: seq<Range>, sub: seq<Range>, nd: nat, off: int, dd: int, k: nat)
    requires 0 < nd <= |ext| && Within(sub, ext) && sub[nd - 1].lo <= dd && k < |Slices(ext, sub, nd, off, dd)|
    ensures Stride(sub, nd - 1) > 0
    ensures Slices(ext, sub, nd, off, dd)[k] == off + Number(ext, SlicePoint(sub, nd, dd, k))
    decreases nd - 1, 1, sub[nd - 1].hi + 1 - dd
  {
    StridePositive(sub, nd - 1);
    var st := Stride(sub, nd - 1);
    var o := off + (dd - ext[nd - 1].lo) * Stride(ext, nd - 1);
    IndicesCount(ext, sub, nd - 1, o);
    if k < st {
      IndexIsNumber(ext, sub, nd - 1, o, k);
      FirstSlice(ext, sub, nd, dd, k);
    } else {
      SliceIsNumber(ext, sub, nd, off, dd + 1, k - st);
      QuotientStep(k, st);
    }
  }

  /** The k-th point of the slices from dd on. */
  function SlicePoint(sub: seq<Range>, nd: nat, dd: int, k: int): (p: seq<int>)
    requires 0 < nd <= |sub| && Nonempty(sub)
    ensures |p| == nd
  {
    StridePositive(sub, nd - 1);
    PointAt(sub, nd - 1, k % Stride(sub, nd - 1)) + [dd + k / Stride(sub, nd - 1)]
  }

  lemma {:induction false} FirstSlice(ext: seq<Range>, sub: seq<Range>, nd: nat, dd: int, k: nat)
    requires 0 < nd <= |ext| == |sub| && Nonempty(sub) && k < Stride(sub, nd - 1)
    ensures Number(ext, SlicePoint(sub, nd, dd, k))
         == Number(ext, PointAt(sub, nd - 1, k)) + (dd - ext[nd - 1].lo) * Stride(ext, nd - 1)
  {
    QuotientUnique(k, Stride(sub, nd - 1), 0, k);
    NumberLast(ext, PointAt(sub, nd - 1, k), dd);
  }

  lemma {:induction false} StridePositive(ext: seq<Range>, d: nat)
    requires d <= |ext| && Nonempty(ext)
    ensures Stride(ext, d) >= 1
  {
    if d > 0 {
      StridePositive(ext, d - 1);
      MulMono(1, Size(ext[d - 1]), Stride(ext, d - 1));
    }
  }

  // ---------- How many, how large, in which order ----------

  ghost predicate Increasing(s: seq<int>) {
    forall j, k :: 0 <= j < k < |s| ==> s[j] < s[k]
  }

  ghost predicate InRange(s: seq<int>, above: int, upTo: int) {
    forall j :: 0 <= j < |s| ==> above < s[j] <= upTo
  }

  /** There is one index for every point. */
  lemma {:induction false} IndicesCount(ext: seq<Range>, sub: seq<Range>, nd: nat, off: int)
    requires nd <= |ext| && Within(sub, ext)
    ensures |Indices(ext, sub, nd, off)| == Stride(sub, nd)
    decreases nd, 0
  {
    if nd > 0 {
      SlicesCount(ext, sub, nd, off, sub[nd - 1].lo);
    }
  }

  lemma {:induction false} SlicesCount(ext: seq<Range>, sub: seq<Range>, nd: nat, off: int, dd: int)
    requires 0 < nd <= |ext| && Within(sub, ext) && sub[nd - 1].lo <= dd <= sub[nd - 1].hi + 1
    ensures |Slices(ext, sub, nd, off, dd)| == (sub[nd - 1].hi + 1 - dd) * Stride(sub, nd - 1)
    decreases nd - 1, 1, sub[nd - 1].hi + 1 - dd
  {
    if dd <= sub[nd - 1].hi {
      IndicesCount(ext, sub, nd - 1, off + (dd - ext[nd - 1].lo) * Stride(ext, nd - 1));
      SlicesCount(ext, sub, nd, off, dd + 1);
      Distribute(sub[nd - 1].hi + 1 - (dd + 1), 1, Stride(sub, nd - 1));
    }
  }

  /** The numbers of slice dd lie just below those of slice dd + 1, and all lie below the end of the extent. */
  lemma {:induction false} WindowStep(x: int, n: int, st: int)
    requires 0 <= x < n && st >= 0
    ensures x * st + st == (x + 1) * st <= n * st
  {
    Distribute(x, 1, st);
    MulMono(x + 1, n, st);
  }

  /** The indices of the lowest nd directions lie in one window of node numbers, in increasing order. */
  lemma {:induction false} IndicesOrdered(ext: seq<Range>, sub: seq<Range>, nd: nat, off: int)
    requires nd <= |ext| && Within(sub, ext)
    ensures Increasing(Indices(ext, sub, nd, off)) && InRange(Indices(ext, sub, nd, off), off, off + Stride(ext, nd))
    decreases nd, 0
  {
    if nd > 0 {
      SlicesOrdered(ext, sub, nd, off, sub[nd - 1].lo);
      StridePositive(ext, nd - 1);
      MulMono(0, sub[nd - 1].lo - ext[nd - 1].lo, Stride(ext, nd - 1));
    }
  }

  lemma {:induction false} SlicesOrdered(ext: seq<Range>, sub: seq<Range>, nd: nat, off: int, dd: int)
    requires 0 < nd <= |ext| && Within(sub, ext) && sub[nd - 1].lo <= dd <= sub[nd - 1].hi + 1
    ensures Increasing(Slices(ext, sub, nd, off, dd))
    ensures InRange(Slices(ext, sub, nd, off, dd), off + (dd - ext[nd - 1].lo) * Stride(ext, nd - 1), off + Stride(ext, nd))
    decreases nd - 1, 1, sub[nd - 1].hi + 1 - dd
  {
    if dd <= sub[nd - 1].hi {
      var st := Stride(ext, nd - 1);
      var o := off + (dd - ext[nd - 1].lo) * st;
      StridePositive(ext, nd - 1);
      WindowStep(dd - ext[nd - 1].lo, Size(ext[nd - 1]), st);
      IndicesOrdered(ext, sub, nd - 1, o);
      SlicesOrdered(ext, sub, nd, off, dd + 1);
      JoinOrdered(Indices(ext, sub, nd - 1, o), Slices(ext, sub, nd, off, dd + 1), o, o + st, off + Stride(ext, nd));
    }
  }

  lemma {:induction false} JoinOrdered(a: seq<int>, b: seq<int>, lo: int, mid: int, hi: int)
    requires Increasing(a) && Increasing(b) && InRange(a, lo, mid) && InRange(b, mid, hi) && lo <= mid <= hi
    ensures Increasing(a + b) && InRange(a + b, lo, hi)
  {
  }

  /** An increasing list of m numbers out of m is all of them. */
  lemma {:induction false} Consecutive(s: seq<int>, off: int)
    requires Increasing(s) && InRange(s, off, off + |s|)
    ensures forall k :: 0 <= k < |s| ==> s[k] == off + k + 1
  {
    if s != [] {
      var n := |s| - 1;
      AtLeast(s, off, n);
      assert s[n] == off + n + 1;
      assert InRange(s[..n], off, off + n);
      Consecutive(s[..n], off);
    }
  }

  lemma {:induction false} AtLeast(s: seq<int>, off: int, k: nat)
    requires Increasing(s) && InRange(s, off, off + |s|) && k < |s|
    ensures s[k] >= off + k + 1
  {
    if k > 0 {
      AtLeast(s, off, k - 1);
    }
  }

  /** A sub-extent gives one index per point, in strictly increasing order, among the extent's node numbers. */
  lemma {:induction false} FlatIndicesOrdered(ext: seq<Range>, sub: seq<Range>)
    requires Within(sub, ext)
    ensures var s := Indices(ext, sub, |ext|, 0);
      Increasing(s) && InRange(s, 0, Stride(ext, |ext|)) && |s| == Stride(sub, |sub|)
  {
    IndicesOrdered(ext, sub, |ext|, 0);
    IndicesCount(ext, sub, |ext|, 0);
  }

  /** The full extent gives exactly 1, 2, ..., NNodes. */
  lemma {:induction false} FullExtentIsEverything(ext: seq<Range>)
    requires Nonempty(ext)
    ensures |Indices(ext, ext, |ext|, 0)| == Stride(ext, |ext|)
    ensures forall k :: 0 <= k < |Indices(ext, ext, |ext|, 0)| ==> Indices(ext, ext, |ext|, 0)[k] == k + 1
  {
    IndicesOrdered(ext, ext, |ext|, 0);
    IndicesCount(ext, ext, |ext|, 0);
    Consecutive(Indices(ext, ext, |ext|, 0), 0);
  }

  // ---------- Points and numbers correspond ----------

  ghost predicate InBox(sub: seq<Range>, p: seq<int>) {
    |p| <= |sub| && forall d :: 0 <= d < |p| ==> sub[d].lo <= p[d] <= sub[d].hi
  }

  lemma {:induction false} PointInside(sub: seq<Range>, nd: nat, k: nat)
    requires nd <= |sub| && Nonempty(sub) && k < Stride(sub, nd)
    ensures InBox(sub, PointAt(sub, nd, k))
  {
    if nd > 0 {
      var st := Stride(sub, nd - 1);
      StridePositive(sub, nd - 1);
      var h, r := Digits(k, Size(sub[nd - 1]), st);
      QuotientUnique(k, st, h, r);
      PointInside(sub, nd - 1, k % st);
    }
  }

  lemma {:induction false} NumberOfPoint(sub: seq<Range>, nd: nat, k: nat)
    requires nd <= |sub| && Nonempty(sub)
    ensures k < Stride(sub, nd) ==> Number(sub, PointAt(sub, nd, k)) == k + 1
  {
    if nd > 0 && k < Stride(sub, nd) {
      var st := Stride(sub, nd - 1);
      StridePositive(sub, nd - 1);
      NumberOfPoint(sub, nd - 1, k % st);
      NumberLast(sub, PointAt(sub, nd - 1, k % st), sub[nd - 1].lo + k / st);
    }
  }

  lemma {:induction false} PointAtLast(sub: seq<Range>, nd: nat, low: int, x: int)
    requires 0 < nd <= |sub| && Nonempty(sub) && 0 <= low < Stride(sub, nd - 1)
    ensures PointAt(sub, nd, low + x * Stride(sub, nd - 1)) == PointAt(sub, nd - 1, low) + [sub[nd - 1].lo + x]
  {
    QuotientUnique(low + x * Stride(sub, nd - 1), Stride(sub, nd - 1), x, low);
  }

  lemma {:induction false} BelowStride(low: int, x: int, n: int, st: int)
    requires 0 <= low < st && 0 <= x < n
    ensures 0 <= low + x * st < n * st
  {
    MulGap(x, n, st);
    MulMono(0, x, st);
  }

  lemma {:induction false} PointOfNumber(sub: seq<Range>, p: seq<int>)
    requires InBox(sub, p) && Nonempty(sub)
    ensures 0 <= Number(sub, p) - 1 < Stride(sub, |p|) && PointAt(sub, |p|, Number(sub, p) - 1) == p
  {
    if p != [] {
      hide PointAt, Number;
      var d := |p| - 1;
      var low, x := Number(sub, p[..d]) - 1, p[d] - sub[d].lo;
      assert p == p[..d] + [p[d]];
      PointOfNumber(sub, p[..d]);
      NumberLast(sub, p[..d], p[d]);
      PointAtLast(sub, d + 1, low, x);
      BelowStride(low, x, Size(sub[d]), Stride(sub, d));
    } else {
      assert Stride(sub, 0) == 1;
    }
  }

  /** Different points of an extent have different numbers. */
  lemma {:induction false} NumberInjective(ext: seq<Range>, p: seq<int>, q: seq<int>)
    requires InBox(ext, p) && InBox(ext, q) && |p| == |q| && Nonempty(ext) && Number(ext, p) == Number(ext, q)
    ensures p == q
  {
    PointOfNumber(ext, p);
    PointOfNumber(ext, q);
  }

  /** The indices of a sub-extent are the numbers of its points, and nothing else. */
  lemma {:induction false} FlatIndicesExact(ext: seq<Range>, sub: seq<Range>, x: int)
    requires Within(sub, ext)
    ensures x in Indices(ext, sub, |ext|, 0) <==> exists p :: |p| == |ext| && InBox(sub, p) && x == Number(ext, p)
  {
    hide Indices, PointAt, Number, Stride;
    var s := Indices(ext, sub, |ext|, 0);
    IndicesCount(ext, sub, |ext|, 0);
    if x in s {
      var k: nat :| k < |s| && s[k] == x;
      IndexIsNumber(ext, sub, |ext|, 0, k);
      PointInside(sub, |ext|, k);
    }
    if p :| |p| == |ext| && InBox(sub, p) && x == Number(ext, p) {
      PointOfNumber(sub, p);
      IndexIsNumber(ext, sub, |ext|, 0, Number(sub, p) - 1);
    }
  }

  // ---------- The unstructured mesh ----------

  /** The lower corners of the cells: one less point in every direction that has more than one. */
  function Lower(ext: seq<Range>): (r: seq<Range>)
    ensures |r| == |ext|
    ensures forall d :: 0 <= d < |ext| ==> r[d] == if Size(ext[d]) > 1 then Range(ext[d].lo, ext[d].hi - 1) else ext[d]
  {
    seq(|ext|, d requires 0 <= d < |ext| => if Size(ext[d]) > 1 then Range(ext[d].lo, ext[d].hi - 1) else ext[d])
  }

  /** In how many directions the mesh extends. */
  function Dimension(ext: seq<Range>): nat
    requires |ext| == 3
  {
    (if Size(ext[0]) > 1 then 1 else 0) + (if Size(ext[1]) > 1 then 1 else 0) + if Size(ext[2]) > 1 then 1 else 0
  }

  /** The number of the point reached from p by the given steps. */
  function Corner(ext: seq<Range>, p: seq<int>, i: int, j: int, k: int): int
    requires |ext| == |p| == 3
  {
    Number(ext, [p[0] + i, p[1] + j, p[2] + k])
  }

  /** The corners of a cell, given by number, in the order of the source's element nodes: a quadrilateral
      in the two directions the mesh extends in, or a hexahedron. */
  function Arrange(ext: seq<Range>, c000: int, c100: int, c010: int, c110: int, c001: int, c101: int, c011: int, c111: int): seq<int>
    requires |ext| == 3
  {
    if Size(ext[2]) <= 1 then [c000, c100, c110, c010]
    else if Size(ext[1]) <= 1 then [c000, c100, c101, c001]
    else if Size(ext[0]) <= 1 then [c000, c010, c011, c001]
    else [c000, c100, c110, c010, c001, c101, c111, c011]
  }

  /** The nodes of the cell with lower corner p. */
  function CellNodes(ext: seq<Range>, p: seq<int>): seq<int>
    requires |ext| == |p| == 3
  {
    Arrange(ext, Corner(ext, p, 0, 0, 0), Corner(ext, p, 1, 0, 0), Corner(ext, p, 0, 1, 0), Corner(ext, p, 1, 1, 0),
            Corner(ext, p, 0, 0, 1), Corner(ext, p, 1, 0, 1), Corner(ext, p, 0, 1, 1), Corner(ext, p, 1, 1, 1))
  }

  /** The nodes of one element, computed from the index of its lower corner (lines 208-218). */
  function ElementNodes(index: int, offset: int, planeoffset: int): seq<int> {
    [index, index + 1, index + 1 + offset, index + offset] +
    if planeoffset > 0 then
      [index + planeoffset, index + 1 + planeoffset, index + planeoffset + offset + 1, index + planeoffset + offset]
    else []
  }

  lemma {:induction false} NumberOfThree(ext: seq<Range>, a: int, b: int, c: int)
    requires |ext| == 3
    ensures Number(ext, [a, b, c]) == 1 + (a - ext[0].lo) + (b - ext[1].lo) * Size(ext[0])
      + (c - ext[2].lo) * (Size(ext[1]) * Size(ext[0]))
  {
    assert [] + [a] == [a] && [a] + [b] == [a, b] && [a, b] + [c] == [a, b, c];
    NumberLast(ext, [], a);
    NumberLast(ext, [a], b);
    NumberLast(ext, [a, b], c);
    assert Stride(ext, 0) == 1 && Stride(ext, 1) == Size(ext[0]) * 1 && Stride(ext, 2) == Size(ext[1]) * Stride(ext, 1);
  }

  lemma {:induction false} NumberWithStrides(ext: seq<Range>, a: int, b: int, c: int, s: int, t: int)
    requires |ext| == 3 && s == Size(ext[0]) && t == Size(ext[1]) * Size(ext[0])
    ensures Number(ext, [a, b, c]) == 1 + (a - ext[0].lo) + (b - ext[1].lo) * s + (c - ext[2].lo) * t
  {
    NumberOfThree(ext, a, b, c);
  }

  lemma {:induction false} CornerNumber(ext: seq<Range>, p: seq<int>, i: int, j: int, k: int, s: int, t: int)
    requires |ext| == |p| == 3 && s == Size(ext[0]) && t == Size(ext[1]) * Size(ext[0])
    ensures Corner(ext, p, i, j, k) == Number(ext, p) + i + j * s + k * t
  {
    var a, b, c := p[0], p[1], p[2];
    assert p == [a, b, c];
    NumberWithStrides(ext, a, b, c, s, t);
    NumberWithStrides(ext, a + i, b + j, c + k, s, t);
    ShiftedValue(Number(ext, p), Corner(ext, p, i, j, k), a - ext[0].lo, b - ext[1].lo, c - ext[2].lo, i, j, k, s, t);
  }

  lemma {:induction false} ShiftedValue(from: int, to: int, a: int, b: int, c: int, i: int, j: int, k: int, s: int, t: int)
    requires from == 1 + a + b * s + c * t && to == 1 + (a + i) + (b + j) * s + (c + k) * t
    ensures to == from + i + j * s + k * t
  {
    Distribute(b, j, s);
    Distribute(c, k, t);
  }

  /** All eight corners, by the strides of the three directions. */
  lemma {:induction false} EightCorners(ext: seq<Range>, p: seq<int>, s: int, t: int)
    requires |ext| == |p| == 3 && s == Size(ext[0]) && t == Size(ext[1]) * Size(ext[0])
    ensures var n := Number(ext, p);
      && Corner(ext, p, 0, 0, 0) == n && Corner(ext, p, 1, 0, 0) == n + 1
      && Corner(ext, p, 0, 1, 0) == n + s && Corner(ext, p, 1, 1, 0) == n + 1 + s
      && Corner(ext, p, 0, 0, 1) == n + t && Corner(ext, p, 1, 0, 1) == n + 1 + t
      && Corner(ext, p, 0, 1, 1) == n + s + t && Corner(ext, p, 1, 1, 1) == n + 1 + s + t
  {
    CornerNumber(ext, p, 0, 0, 0, s, t);
    CornerNumber(ext, p, 1, 0, 0, s, t);
    CornerNumber(ext, p, 0, 1, 0, s, t);
    CornerNumber(ext, p, 1, 1, 0, s, t);
    CornerNumber(ext, p, 0, 0, 1, s, t);
    CornerNumber(ext, p, 1, 0, 1, s, t);
    CornerNumber(ext, p, 0, 1, 1, s, t);
    CornerNumber(ext, p, 1, 1, 1, s, t);
  }

  function Offset(ext: seq<Range>): int
    requires |ext| == 3
  {
    if Size(ext[0]) > 1 then Size(ext[0]) else Size(ext[1])
  }

  function PlaneOffset(ext: seq<Range>): int
    requires |ext| == 3
  {
    if Dimension(ext) == 2 then 0 else Offset(ext) * Size(ext[1])
  }

  lemma {:induction false} OffsetsAreStrides(ext: seq<Range>, s: int, t: int)
    requires |ext| == 3 && Nonempty(ext) && Dimension(ext) > 1
    requires s == Size(ext[0]) && t == Size(ext[1]) * Size(ext[0])
    ensures Dimension(ext) == 3 ==> Offset(ext) == s && PlaneOffset(ext) == t > 0
    ensures Dimension(ext) == 2 ==> PlaneOffset(ext) == 0
    ensures Dimension(ext) == 2 && Size(ext[2]) <= 1 ==> Offset(ext) == s
    ensures Dimension(ext) == 2 && Size(ext[2]) > 1 ==> Offset(ext) == t
    ensures Size(ext[0]) <= 1 ==> s == 1
  {
    if Dimension(ext) == 3 {
      MulMono(1, Size(ext[1]), Size(ext[0]));
      assert Size(ext[0]) * Size(ext[1]) == t;
    } else if Size(ext[0]) <= 1 {
      assert t == Size(ext[1]) * 1;
    } else if Size(ext[1]) <= 1 {
      assert t == 1 * Size(ext[0]);
    }
  }

  /** The nodes of a cell, from the number n of its lower corner and the strides s and t of the upper directions. */
  function NodesByStride(ext: seq<Range>, n: int, s: int, t: int): seq<int>
    requires |ext| == 3
  {
    Arrange(ext, n, n + 1, n + s, n + 1 + s, n + t, n + 1 + t, n + s + t, n + 1 + s + t)
  }

  lemma {:induction false} ArrangedCorners(ext: seq<Range>, p: seq<int>, n: int, s: int, t: int)
    requires |ext| == |p| == 3
    requires Corner(ext, p, 0, 0, 0) == n && Corner(ext, p, 1, 0, 0) == n + 1
    requires Corner(ext, p, 0, 1, 0) == n + s && Corner(ext, p, 1, 1, 0) == n + 1 + s
    requires Corner(ext, p, 0, 0, 1) == n + t && Corner(ext, p, 1, 0, 1) == n + 1 + t
    requires Corner(ext, p, 0, 1, 1) == n + s + t && Corner(ext, p, 1, 1, 1) == n + 1 + s + t
    ensures CellNodes(ext, p) == NodesByStride(ext, n, s, t)
  {
  }

  lemma {:induction false} CellByStride(ext: seq<Range>, p: seq<int>, s: int, t: int)
    requires |ext| == |p| == 3 && s == Size(ext[0]) && t == Size(ext[1]) * Size(ext[0])
    ensures CellNodes(ext, p) == NodesByStride(ext, Number(ext, p), s, t)
  {
    EightCorners(ext, p, s, t);
    ArrangedCorners(ext, p, Number(ext, p), s, t);
  }

  lemma {:induction false} ElementByStride(ext: seq<Range>, n: int, s: int, t: int)
    requires |ext| == 3 && Nonempty(ext) && Dimension(ext) > 1
    requires s == Size(ext[0]) && t == Size(ext[1]) * Size(ext[0])
    ensures ElementNodes(n, Offset(ext), PlaneOffset(ext)) == NodesByStride(ext, n, s, t)
  {
    OffsetsAreStrides(ext, s, t);
  }

  /** The offsets used by the source lead from a lower corner to the corners of its cell. */
  lemma {:induction false} ElementIsCell(ext: seq<Range>, p: seq<int>)
    requires |ext| == |p| == 3 && Nonempty(ext) && Dimension(ext) > 1
    ensures ElementNodes(Number(ext, p), Offset(ext), PlaneOffset(ext)) == CellNodes(ext, p)
  {
    var s, t := Size(ext[0]), Size(ext[1]) * Size(ext[0]);
    CellByStride(ext, p, s, t);
    ElementByStride(ext, Number(ext, p), s, t);
  }

  // ---------- What an element looks like ----------

  /** The mesh extends in direction d. */
  predicate Extends(ext: seq<Range>, d: nat) {
    d < |ext| && Size(ext[d]) > 1
  }

  /** q is a corner of the cell at p: reached by at most one step in every direction the mesh extends in. */
  predicate CornerOf(ext: seq<Range>, p: seq<int>, q: seq<int>) {
    |ext| == |p| == |q| == 3 && forall d: nat :: d < 3 ==> q[d] == p[d] || (q[d] == p[d] + 1 && Extends(ext, d))
  }

  /** r is one step further than q in direction d. */
  predicate StepIn(q: seq<int>, r: seq<int>, d: nat) {
    d < 3 && |q| == |r| == 3 && r == q[d := q[d] + 1]
  }

  /** q and r are joined by an edge. */
  ghost predicate Joined(q: seq<int>, r: seq<int>) {
    exists d: nat :: StepIn(q, r, d) || StepIn(r, q, d)
  }

  ghost predicate AllCorners(ext: seq<Range>, p: seq<int>, pts: seq<seq<int>>) {
    forall q :: CornerOf(ext, p, q) ==> q in pts
  }

  /** The element lists the numbers of the given points: all corners of the cell at p, once each, beginning with p and its
      neighbour in the first direction, around one face; for a hexahedron this is the lower face in the third direction,
      followed by the upper one in the same order. */
  ghost predicate Lists(ext: seq<Range>, p: seq<int>, c: seq<int>, pts: seq<seq<int>>)
    requires |ext| == 3
  {
    && |c| == |pts| == (if Extends(ext, 0) && Extends(ext, 1) && Extends(ext, 2) then 8 else 4)
    && (forall a :: 0 <= a < |c| ==> CornerOf(ext, p, pts[a]) && c[a] == Number(ext, pts[a]))
    && (forall a, b :: 0 <= a < b < |c| ==> pts[a] != pts[b]) && AllCorners(ext, p, pts)
    && pts[0] == p && StepIn(p, pts[1], if Extends(ext, 0) then 0 else 1)
    && Joined(pts[0], pts[1]) && Joined(pts[1], pts[2]) && Joined(pts[2], pts[3]) && Joined(pts[3], pts[0])
    && (|c| == 8 ==> forall a :: 0 <= a < 4 ==> pts[a][2] == p[2] && StepIn(pts[a], pts[a + 4], 2))
  }

  ghost predicate ElementAt(ext: seq<Range>, p: seq<int>, c: seq<int>)
    requires |ext| == 3
  {
    exists pts :: Lists(ext, p, c, pts)
  }

  lemma {:induction false} JoinedBy(q: seq<int>, r: seq<int>, d: nat)
    requires StepIn(q, r, d)
    ensures Joined(q, r) && Joined(r, q)
  {
  }

  /** The point reached from p by the given steps. */
  function Moved(p: seq<int>, i: int, j: int, k: int): seq<int>
    requires |p| == 3
  {
    [p[0] + i, p[1] + j, p[2] + k]
  }

  lemma {:induction false} MovedIsCorner(ext: seq<Range>, p: seq<int>, i: int, j: int, k: int)
    requires |ext| == |p| == 3 && 0 <= i <= 1 && 0 <= j <= 1 && 0 <= k <= 1
    requires (i == 1 ==> Extends(ext, 0)) && (j == 1 ==> Extends(ext, 1)) && (k == 1 ==> Extends(ext, 2))
    ensures CornerOf(ext, p, Moved(p, i, j, k)) && Corner(ext, p, i, j, k) == Number(ext, Moved(p, i, j, k))
    ensures Moved(p, 0, 0, 0) == p
  {
  }

  lemma {:induction false} MovedJoined(p: seq<int>, i: int, j: int, k: int)
    requires |p| == 3
    ensures var q := Moved(p, i, j, k);
      && StepIn(q, Moved(p, i + 1, j, k), 0) && StepIn(q, Moved(p, i, j + 1, k), 1) && StepIn(q, Moved(p, i, j, k + 1), 2)
      && Joined(q, Moved(p, i + 1, j, k)) && Joined(q, Moved(p, i, j + 1, k)) && Joined(q, Moved(p, i, j, k + 1))
      && Joined(Moved(p, i + 1, j, k), q) && Joined(Moved(p, i, j + 1, k), q) && Joined(Moved(p, i, j, k + 1), q)
  {
    var q := Moved(p, i, j, k);
    JoinedBy(q, Moved(p, i + 1, j, k), 0);
    JoinedBy(q, Moved(p, i, j + 1, k), 1);
    JoinedBy(q, Moved(p, i, j, k + 1), 2);
  }

  /** The nodes of a quadrilateral, by the two directions the mesh extends in. */
  lemma {:induction false} FlatNodes(ext: seq<Range>, p: seq<int>)
    requires |ext| == |p| == 3
    ensures Extends(ext, 0) && Extends(ext, 1) && !Extends(ext, 2) ==> CellNodes(ext, p) == Numbers(ext, Square01(p))
    ensures Extends(ext, 0) && !Extends(ext, 1) && Extends(ext, 2) ==> CellNodes(ext, p) == Numbers(ext, Square02(p))
    ensures !Extends(ext, 0) && Extends(ext, 1) && Extends(ext, 2) ==> CellNodes(ext, p) == Numbers(ext, Square12(p))
  {
    hide Number;
    assert Moved(p, 0, 0, 0) == p;
  }

  function Numbers(ext: seq<Range>, pts: seq<seq<int>>): (r: seq<int>)
    requires |ext| == 3 && |pts| == 4 && forall a :: 0 <= a < 4 ==> |pts[a]| == 3
    ensures |r| == 4 && forall a :: 0 <= a < 4 ==> r[a] == Number(ext, pts[a])
  {
    [Number(ext, pts[0]), Number(ext, pts[1]), Number(ext, pts[2]), Number(ext, pts[3])]
  }

  function Square01(p: seq<int>): (pts: seq<seq<int>>)
    requires |p| == 3
    ensures |pts| == 4 && forall a :: 0 <= a < 4 ==> |pts[a]| == 3
  {
    [p, Moved(p, 1, 0, 0), Moved(p, 1, 1, 0), Moved(p, 0, 1, 0)]
  }

  lemma {:induction false} Square01All(ext: seq<Range>, p: seq<int>)
    requires |ext| == |p| == 3 && Extends(ext, 0) && Extends(ext, 1) && !Extends(ext, 2)
    ensures AllCorners(ext, p, Square01(p))
    ensures forall a, b :: 0 <= a < b < 4 ==> Square01(p)[a] != Square01(p)[b]
  {
    var pts := Square01(p);
    forall q | CornerOf(ext, p, q) ensures q in pts {
      var u, v := q[0] - p[0], q[1] - p[1];
      assert q == pts[if u == 0 then if v == 0 then 0 else 3 else if v == 0 then 1 else 2];
    }
    forall a, b | 0 <= a < b < 4 ensures pts[a] != pts[b] {
      assert pts[a][0] != pts[b][0] || pts[a][1] != pts[b][1];
    }
  }

  lemma {:induction false} FlatCell01(ext: seq<Range>, p: seq<int>)
    requires |ext| == |p| == 3 && Extends(ext, 0) && Extends(ext, 1) && !Extends(ext, 2)
    ensures Lists(ext, p, CellNodes(ext, p), Square01(p))
  {
    hide Number, CornerOf, Joined, AllCorners, CellNodes;
    FlatNodes(ext, p);
    Square01All(ext, p);
    MovedIsCorner(ext, p, 0, 0, 0);
    MovedIsCorner(ext, p, 1, 0, 0);
    MovedIsCorner(ext, p, 1, 1, 0);
    MovedIsCorner(ext, p, 0, 1, 0);
    MovedJoined(p, 0, 0, 0);
    MovedJoined(p, 1, 0, 0);
    MovedJoined(p, 0, 1, 0);
  }

  function Square02(p: seq<int>): (pts: seq<seq<int>>)
    requires |p| == 3
    ensures |pts| == 4 && forall a :: 0 <= a < 4 ==> |pts[a]| == 3
  {
    [p, Moved(p, 1, 0, 0), Moved(p, 1, 0, 1), Moved(p, 0, 0, 1)]
  }

  lemma {:induction false} Square02All(ext: seq<Range>, p: seq<int>)
    requires |ext| == |p| == 3 && Extends(ext, 0) && !Extends(ext, 1) && Extends(ext, 2)
    ensures AllCorners(ext, p, Square02(p))
    ensures forall a, b :: 0 <= a < b < 4 ==> Square02(p)[a] != Square02(p)[b]
  {
    var pts := Square02(p);
    forall q | CornerOf(ext, p, q) ensures q in pts {
      var u, v := q[0] - p[0], q[2] - p[2];
      assert q == pts[if u == 0 then if v == 0 then 0 else 3 else if v == 0 then 1 else 2];
    }
    forall a, b | 0 <= a < b < 4 ensures pts[a] != pts[b] {
      assert pts[a][0] != pts[b][0] || pts[a][2] != pts[b][2];
    }
  }

  lemma {:induction false} FlatCell02(ext: seq<Range>, p: seq<int>)
    requires |ext| == |p| == 3 && Extends(ext, 0) && !Extends(ext, 1) && Extends(ext, 2)
    ensures Lists(ext, p, CellNodes(ext, p), Square02(p))
  {
    hide Number, CornerOf, Joined, AllCorners, CellNodes;
    FlatNodes(ext, p);
    Square02All(ext, p);
    MovedIsCorner(ext, p, 0, 0, 0);
    MovedIsCorner(ext, p, 1, 0, 0);
    MovedIsCorner(ext, p, 1, 0, 1);
    MovedIsCorner(ext, p, 0, 0, 1);
    MovedJoined(p, 0, 0, 0);
    MovedJoined(p, 1, 0, 0);
    MovedJoined(p, 0, 0, 1);
  }

  function Square12(p: seq<int>): (pts: seq<seq<int>>)
    requires |p| == 3
    ensures |pts| == 4 && forall a :: 0 <= a < 4 ==> |pts[a]| == 3
  {
    [p, Moved(p, 0, 1, 0), Moved(p, 0, 1, 1), Moved(p, 0, 0, 1)]
  }

  lemma {:induction false} Square12All(ext: seq<Range>, p: seq<int>)
    requires |ext| == |p| == 3 && !Extends(ext, 0) && Extends(ext, 1) && Extends(ext, 2)
    ensures AllCorners(ext, p, Square12(p))
    ensures forall a, b :: 0 <= a < b < 4 ==> Square12(p)[a] != Square12(p)[b]
  {
    var pts := Square12(p);
    forall q | CornerOf(ext, p, q) ensures q in pts {
      var u, v := q[1] - p[1], q[2] - p[2];
      assert q == pts[if u == 0 then if v == 0 then 0 else 3 else if v == 0 then 1 else 2];
    }
    forall a, b | 0 <= a < b < 4 ensures pts[a] != pts[b] {
      assert pts[a][1] != pts[b][1] || pts[a][2] != pts[b][2];
    }
  }

  lemma {:induction false} FlatCell12(ext: seq<Range>, p: seq<int>)
    requires |ext| == |p| == 3 && !Extends(ext, 0) && Extends(ext, 1) && Extends(ext, 2)
    ensures Lists(ext, p, CellNodes(ext, p), Square12(p))
  {
    hide Number, CornerOf, Joined, AllCorners, CellNodes;
    FlatNodes(ext, p);
    Square12All(ext, p);
    MovedIsCorner(ext, p, 0, 0, 0);
    MovedIsCorner(ext, p, 0, 1, 0);
    MovedIsCorner(ext, p, 0, 1, 1);
    MovedIsCorner(ext, p, 0, 0, 1);
    MovedJoined(p, 0, 0, 0);
    MovedJoined(p, 0, 1, 0);
    MovedJoined(p, 0, 0, 1);
  }

  function Cube(p: seq<int>): (pts: seq<seq<int>>)
    requires |p| == 3
    ensures |pts| == 8
  {
    [p, Moved(p, 1, 0, 0), Moved(p, 1, 1, 0), Moved(p, 0, 1, 0),
     Moved(p, 0, 0, 1), Moved(p, 1, 0, 1), Moved(p, 1, 1, 1), Moved(p, 0, 1, 1)]
  }

  lemma {:induction false} CubeDistinct(p: seq<int>)
    requires |p| == 3
    ensures forall a, b :: 0 <= a < b < 8 ==> Cube(p)[a] != Cube(p)[b]
  {
    var pts := Cube(p);
    forall a, b | 0 <= a < b < 8 ensures pts[a] != pts[b] {
      assert pts[a][0] != pts[b][0] || pts[a][1] != pts[b][1] || pts[a][2] != pts[b][2];
    }
  }

  lemma {:induction false} CubeAll(ext: seq<Range>, p: seq<int>)
    requires |ext| == |p| == 3
    ensures AllCorners(ext, p, Cube(p))
  {
    var pts := Cube(p);
    forall q | CornerOf(ext, p, q) ensures q in pts {
      var u, v := q[0] - p[0], q[1] - p[1];
      assert q == pts[(if u == 0 then if v == 0 then 0 else 3 else if v == 0 then 1 else 2) + 4 * (q[2] - p[2])];
    }
  }

  lemma {:induction false} CubeCorners(ext: seq<Range>, p: seq<int>)
    requires |ext| == |p| == 3 && Extends(ext, 0) && Extends(ext, 1) && Extends(ext, 2)
    ensures |CellNodes(ext, p)| == 8
    ensures forall a :: 0 <= a < 8 ==> CornerOf(ext, p, Cube(p)[a]) && CellNodes(ext, p)[a] == Number(ext, Cube(p)[a])
  {
    hide Number, CornerOf;
    MovedIsCorner(ext, p, 0, 0, 0);
    MovedIsCorner(ext, p, 1, 0, 0);
    MovedIsCorner(ext, p, 1, 1, 0);
    MovedIsCorner(ext, p, 0, 1, 0);
    MovedIsCorner(ext, p, 0, 0, 1);
    MovedIsCorner(ext, p, 1, 0, 1);
    MovedIsCorner(ext, p, 1, 1, 1);
    MovedIsCorner(ext, p, 0, 1, 1);
  }

  lemma {:induction false} SolidCell(ext: seq<Range>, p: seq<int>)
    requires |ext| == |p| == 3 && Extends(ext, 0) && Extends(ext, 1) && Extends(ext, 2)
    ensures Lists(ext, p, CellNodes(ext, p), Cube(p))
  {
    hide Number, CornerOf, CellNodes, Joined, AllCorners;
    CubeCorners(ext, p);
    CubeDistinct(p);
    CubeAll(ext, p);
    MovedIsCorner(ext, p, 0, 0, 0);
    MovedJoined(p, 0, 0, 0);
    MovedJoined(p, 1, 0, 0);
    MovedJoined(p, 0, 1, 0);
    MovedJoined(p, 1, 1, 0);
  }

  /** The nodes of a cell are its corners in the order of an element. */
  lemma {:induction false} CellIsElement(ext: seq<Range>, p: seq<int>)
    requires |ext| == |p| == 3 && Dimension(ext) > 1
    ensures ElementAt(ext, p, CellNodes(ext, p))
  {
    hide Lists;
    if !Extends(ext, 2) {
      FlatCell01(ext, p);
    } else if !Extends(ext, 1) {
      FlatCell02(ext, p);
    } else if !Extends(ext, 0) {
      FlatCell12(ext, p);
    } else {
      SolidCell(ext, p);
    }
  }

  /** What `CreateUnstructuredMesh` adds for an extent of three directions: one element per lower corner, whose nodes are
      the corners of the cell there; nothing for an extent that is empty in some direction. */
  ghost predicate CellsOf(ext: seq<Range>, cells: seq<seq<int>>)
    requires |ext| == 3
  {
    if Nonempty(ext) then
      && Nonempty(Lower(ext)) && |cells| == Stride(Lower(ext), 3)
      && forall k :: 0 <= k < |cells| ==> cells[k] == CellNodes(ext, PointAt(Lower(ext), 3, k))
    else cells == []
  }

  // ---------- What the mesh consists of ----------

  /** There is a cell at p. */
  predicate LowerCorner(ext: seq<Range>, p: seq<int>) {
    |ext| == |p| == 3 && forall d: nat :: d < 3 ==> ext[d].lo <= p[d] <= if Extends(ext, d) then ext[d].hi - 1 else ext[d].hi
  }

  lemma {:induction false} CornerInside(ext: seq<Range>, p: seq<int>, q: seq<int>)
    requires LowerCorner(ext, p) && CornerOf(ext, p, q)
    ensures InBox(ext, q) && Nonempty(ext)
  {
    forall d: nat | d < 3 ensures ext[d].lo <= q[d] <= ext[d].hi {}
  }

  lemma {:induction false} ElementDistinct(ext: seq<Range>, p: seq<int>, c: seq<int>, pts: seq<seq<int>>, a: nat, b: nat)
    requires LowerCorner(ext, p) && Lists(ext, p, c, pts) && a < b < |c|
    ensures c[a] != c[b]
  {
    hide CornerOf, AllCorners, LowerCorner, Number;
    CornerInside(ext, p, pts[a]);
    CornerInside(ext, p, pts[b]);
    if c[a] == c[b] {
      NumberInjective(ext, pts[a], pts[b]);
    }
  }

  /** A number is a node of the element exactly when it is that of a corner of the cell. */
  ghost predicate IsCornerNumber(ext: seq<Range>, p: seq<int>, x: int) {
    exists q :: CornerOf(ext, p, q) && x == Number(ext, q)
  }

  lemma {:induction false} ElementNode(ext: seq<Range>, p: seq<int>, c: seq<int>, pts: seq<seq<int>>, x: int)
    requires |ext| == 3 && Lists(ext, p, c, pts)
    ensures x in c <==> IsCornerNumber(ext, p, x)
  {
    hide Number, Joined;
    if x in c {
      var a :| 0 <= a < |c| && c[a] == x;
      assert CornerOf(ext, p, pts[a]);
    }
    if IsCornerNumber(ext, p, x) {
      var q :| CornerOf(ext, p, q) && x == Number(ext, q);
      assert q in pts;
      var a :| 0 <= a < |pts| && pts[a] == q;
      assert c[a] == x;
    }
  }

  /** The nodes of an element are different, and they are the numbers of all corners of its cell. */
  lemma {:induction false} ElementHasCorners(ext: seq<Range>, p: seq<int>, c: seq<int>)
    requires LowerCorner(ext, p) && ElementAt(ext, p, c)
    ensures c != [] && c[0] == Number(ext, p)
    ensures forall a, b :: 0 <= a < b < |c| ==> c[a] != c[b]
    ensures forall x :: x in c <==> IsCornerNumber(ext, p, x)
  {
    var pts :| Lists(ext, p, c, pts);
    assert c[0] == Number(ext, pts[0]);
    hide Lists, Number, LowerCorner, IsCornerNumber;
    forall a: nat, b: nat | a < b < |c| ensures c[a] != c[b] {
      ElementDistinct(ext, p, c, pts, a, b);
    }
    forall x ensures x in c <==> IsCornerNumber(ext, p, x) {
      ElementNode(ext, p, c, pts, x);
    }
  }

  ghost predicate IsElement(ext: seq<Range>, c: seq<int>)
    requires |ext| == 3
  {
    exists p :: LowerCorner(ext, p) && ElementAt(ext, p, c)
  }

  ghost predicate HasElement(ext: seq<Range>, cells: seq<seq<int>>, p: seq<int>)
    requires |ext| == 3
  {
    exists k :: IsAt(ext, cells, p, k)
  }

  /** Every cell of the extent has one element, and there is no other element. */
  ghost predicate IsMesh(ext: seq<Range>, cells: seq<seq<int>>)
    requires |ext| == 3
  {
    && (forall k :: 0 <= k < |cells| ==> IsElement(ext, cells[k]))
    && (forall p :: LowerCorner(ext, p) ==> HasElement(ext, cells, p))
    && forall p, j, k :: LowerCorner(ext, p) && IsAt(ext, cells, p, j) && IsAt(ext, cells, p, k) ==> j == k
  }

  ghost predicate IsAt(ext: seq<Range>, cells: seq<seq<int>>, p: seq<int>, k: int)
    requires |ext| == 3
  {
    0 <= k < |cells| && ElementAt(ext, p, cells[k])
  }

  lemma {:induction false} LowerIsBox(ext: seq<Range>, p: seq<int>)
    requires |ext| == |p| == 3
    ensures LowerCorner(ext, p) <==> InBox(Lower(ext), p)
  {
    if InBox(Lower(ext), p) {
      forall d: nat | d < 3 ensures ext[d].lo <= p[d] <= if Extends(ext, d) then ext[d].hi - 1 else ext[d].hi {
        assert Lower(ext)[d].lo <= p[d] <= Lower(ext)[d].hi;
      }
    }
  }

  lemma {:induction false} EmptyHasNoCell(ext: seq<Range>, p: seq<int>)
    requires |ext| == 3 && !Nonempty(ext)
    ensures !LowerCorner(ext, p)
  {
    var d: nat :| d < 3 && Size(ext[d]) < 1;
    if |p| == 3 {
      assert ext[d].lo > ext[d].hi;
    }
  }

  /** The k-th cell has the k-th lower corner. */
  lemma {:induction false} CellAtPoint(ext: seq<Range>, cells: seq<seq<int>>, k: nat)
    requires |ext| == 3 && Dimension(ext) > 1 && Nonempty(ext) && CellsOf(ext, cells) && k < |cells|
    ensures var p := PointAt(Lower(ext), 3, k);
      LowerCorner(ext, p) && ElementAt(ext, p, cells[k]) && Number(Lower(ext), p) == k + 1
  {
    var p := PointAt(Lower(ext), 3, k);
    PointInside(Lower(ext), 3, k);
    LowerIsBox(ext, p);
    NumberOfPoint(Lower(ext), 3, k);
    CellIsElement(ext, p);
  }

  lemma {:induction false} OneCellAt(ext: seq<Range>, cells: seq<seq<int>>, p: seq<int>, k: nat)
    requires |ext| == 3 && Dimension(ext) > 1 && Nonempty(ext) && CellsOf(ext, cells) && k < |cells|
    requires LowerCorner(ext, p) && ElementAt(ext, p, cells[k])
    ensures Number(Lower(ext), p) == k + 1
  {
    var q := PointAt(Lower(ext), 3, k);
    CellAtPoint(ext, cells, k);
    ElementHasCorners(ext, p, cells[k]);
    ElementHasCorners(ext, q, cells[k]);
    CornerInside(ext, p, p);
    CornerInside(ext, q, q);
    NumberInjective(ext, p, q);
  }

  lemma {:induction false} CellsAreMesh(ext: seq<Range>, cells: seq<seq<int>>)
    requires |ext| == 3 && Dimension(ext) > 1 && CellsOf(ext, cells)
    ensures IsMesh(ext, cells)
  {
    hide ElementAt, PointAt, Number;
    if Nonempty(ext) {
      forall k | 0 <= k < |cells| ensures IsElement(ext, cells[k]) {
        CellAtPoint(ext, cells, k);
      }
      forall p | LowerCorner(ext, p) ensures HasElement(ext, cells, p) {
        LowerIsBox(ext, p);
        PointOfNumber(Lower(ext), p);
        CellAtPoint(ext, cells, Number(Lower(ext), p) - 1);
        assert IsAt(ext, cells, p, Number(Lower(ext), p) - 1);
      }
      forall p, j, k | LowerCorner(ext, p) && IsAt(ext, cells, p, j) && IsAt(ext, cells, p, k) ensures j == k {
        OneCellAt(ext, cells, p, j);
        OneCellAt(ext, cells, p, k);
      }
    } else {
      forall p ensures !LowerCorner(ext, p) {
        EmptyHasNoCell(ext, p);
      }
    }
  }

  /** The cell that has q for a corner: at q, or before it where q is the last point of its direction. */
  function CellOf(ext: seq<Range>, q: seq<int>): (p: seq<int>)
    requires |ext| == |q| == 3
    ensures |p| == 3
  {
    [if Extends(ext, 0) && q[0] == ext[0].hi then q[0] - 1 else q[0],
     if Extends(ext, 1) && q[1] == ext[1].hi then q[1] - 1 else q[1],
     if Extends(ext, 2) && q[2] == ext[2].hi then q[2] - 1 else q[2]]
  }

  lemma {:induction false} UsedNodeInRange(ext: seq<Range>, cells: seq<seq<int>>, x: int, k: nat)
    requires |ext| == 3 && IsMesh(ext, cells) && k < |cells| && x in cells[k]
    ensures 1 <= x <= Stride(ext, 3)
  {
    hide ElementAt, PointAt, Number, Stride;
    assert IsElement(ext, cells[k]);
    var p :| LowerCorner(ext, p) && ElementAt(ext, p, cells[k]);
    ElementHasCorners(ext, p, cells[k]);
    assert IsCornerNumber(ext, p, x);
    var q :| CornerOf(ext, p, q) && x == Number(ext, q);
    CornerInside(ext, p, q);
    PointOfNumber(ext, q);
  }

  lemma {:induction false} CellOfHasCorner(ext: seq<Range>, q: seq<int>)
    requires |ext| == |q| == 3 && InBox(ext, q)
    ensures LowerCorner(ext, CellOf(ext, q)) && CornerOf(ext, CellOf(ext, q), q)
  {
  }

  lemma {:induction false} NodeIsUsed(ext: seq<Range>, cells: seq<seq<int>>, x: int) returns (k: nat)
    requires |ext| == 3 && IsMesh(ext, cells) && Nonempty(ext) && 1 <= x <= Stride(ext, 3)
    ensures k < |cells| && x in cells[k]
  {
    hide ElementAt, PointAt, Number, Stride, CellOf, LowerCorner, CornerOf;
    var q := PointAt(ext, 3, x - 1);
    PointInside(ext, 3, x - 1);
    NumberOfPoint(ext, 3, x - 1);
    var p := CellOf(ext, q);
    CellOfHasCorner(ext, q);
    assert HasElement(ext, cells, p);
    k :| IsAt(ext, cells, p, k);
    ElementHasCorners(ext, p, cells[k]);
    assert IsCornerNumber(ext, p, x);
  }

  /** The elements of the mesh use exactly the nodes 1 to NNodes. */
  lemma {:induction false} EveryNodeIsUsed(ext: seq<Range>, cells: seq<seq<int>>, x: int)
    requires |ext| == 3 && IsMesh(ext, cells) && Nonempty(ext)
    ensures 1 <= x <= Stride(ext, 3) <==> exists k :: 0 <= k < |cells| && x in cells[k]
  {
    if k :| 0 <= k < |cells| && x in cells[k] {
      UsedNodeInRange(ext, cells, x, k);
    }
    if 1 <= x <= Stride(ext, 3) {
      var k := NodeIsUsed(ext, cells, x);
    }
  }

  /** The extent of the lower corners (lines 193-200), and in how many directions the mesh extends. */
  method LowerLeft(e: BSExtent) returns (lowerleft: seq<Range>, meshNd: nat)
    requires e.Synced() && |e.ranges| == 3
    ensures lowerleft == Lower(e.ranges) && meshNd == Dimension(e.ranges)
  {
    lowerleft, meshNd := e.ranges, 3;
    for i := 0 to 3
      invariant |lowerleft| == 3 && forall d :: i <= d < 3 ==> lowerleft[d] == e.ranges[d]
      invariant forall d :: 0 <= d < i ==> lowerleft[d] == Lower(e.ranges)[d]
      invariant meshNd == 3 - (if i > 0 && e.n[0] <= 1 then 1 else 0) - (if i > 1 && e.n[1] <= 1 then 1 else 0)
        - (if i > 2 && e.n[2] <= 1 then 1 else 0)
    {
      if e.n[i] > 1 {
        lowerleft := lowerleft[i := lowerleft[i].(hi := lowerleft[i].hi - 1)];
      } else {
        meshNd := meshNd - 1;
      }
    }
  }

  lemma {:induction false} LowerWithin(ext: seq<Range>)
    requires Nonempty(ext)
    ensures Within(Lower(ext), ext) && Nonempty(Lower(ext))
  {
  }

  /** The loop over the lower corners (lines 207-220). */
  method Elements(indices: seq<int>, offset: int, planeoffset: int) returns (cells: seq<seq<int>>)
    ensures |cells| == |indices|
    ensures forall k :: 0 <= k < |cells| ==> cells[k] == ElementNodes(indices[k], offset, planeoffset)
  {
    cells := [];
    for k := 0 to |indices|
      invariant |cells| == k && forall x :: 0 <= x < k ==> cells[x] == ElementNodes(indices[x], offset, planeoffset)
    {
      cells := cells + [ElementNodes(indices[k], offset, planeoffset)];
    }
  }

  lemma {:induction false} ElementOfIndex(ext: seq<Range>, k: nat)
    requires |ext| == 3 && Nonempty(ext) && Dimension(ext) > 1 && Nonempty(Lower(ext))
    requires k < |Indices(ext, Lower(ext), 3, 0)|
    ensures ElementNodes(Indices(ext, Lower(ext), 3, 0)[k], Offset(ext), PlaneOffset(ext)) == CellNodes(ext, PointAt(Lower(ext), 3, k))
  {
    LowerWithin(ext);
    IndexIsNumber(ext, Lower(ext), 3, 0, k);
    ElementIsCell(ext, PointAt(Lower(ext), 3, k));
  }

  /** A sub-extent with an empty direction has no indices. */
  lemma {:induction false} EmptyHasNoIndices(ext: seq<Range>, sub: seq<Range>, nd: nat, off: int, d: nat)
    requires nd <= |ext| == |sub| && d < nd && Size(sub[d]) <= 0
    ensures Indices(ext, sub, nd, off) == []
    decreases nd, 0
  {
    EmptyHasNoSlices(ext, sub, nd, off, sub[nd - 1].lo, d);
  }

  lemma {:induction false} EmptyHasNoSlices(ext: seq<Range>, sub: seq<Range>, nd: nat, off: int, dd: int, d: nat)
    requires 0 < nd <= |ext| == |sub| && d < nd && Size(sub[d]) <= 0 && sub[nd - 1].lo <= dd
    ensures Slices(ext, sub, nd, off, dd) == []
    decreases nd - 1, 1, sub[nd - 1].hi + 1 - dd
  {
    if dd <= sub[nd - 1].hi {
      EmptyHasNoIndices(ext, sub, nd - 1, off + (dd - ext[nd - 1].lo) * Stride(ext, nd - 1), d);
      EmptyHasNoSlices(ext, sub, nd, off, dd + 1, d);
    }
  }

  lemma {:induction false} ElementsAreCells(ext: seq<Range>, cells: seq<seq<int>>)
    requires |ext| == 3 && Dimension(ext) > 1 && |cells| == |Indices(ext, Lower(ext), 3, 0)|
    requires forall k :: 0 <= k < |cells| ==> cells[k] == ElementNodes(Indices(ext, Lower(ext), 3, 0)[k], Offset(ext), PlaneOffset(ext))
    ensures CellsOf(ext, cells) && IsMesh(ext, cells)
  {
    CellsAreGiven(ext, cells);
    CellsAreMesh(ext, cells);
  }

  lemma {:induction false} CellsAreGiven(ext: seq<Range>, cells: seq<seq<int>>)
    requires |ext| == 3 && Dimension(ext) > 1 && |cells| == |Indices(ext, Lower(ext), 3, 0)|
    requires forall k :: 0 <= k < |cells| ==> cells[k] == ElementNodes(Indices(ext, Lower(ext), 3, 0)[k], Offset(ext), PlaneOffset(ext))
    ensures CellsOf(ext, cells)
  {
    if Nonempty(ext) {
      LowerWithin(ext);
      IndicesCount(ext, Lower(ext), 3, 0);
      forall k | 0 <= k < |cells| ensures cells[k] == CellNodes(ext, PointAt(Lower(ext), 3, k)) {
        ElementOfIndex(ext, k);
      }
    } else {
      var d: nat :| d < 3 && Size(ext[d]) < 1;
      EmptyHasNoIndices(ext, Lower(ext), 3, 0, d);
    }
  }

  lemma {:induction false} TwoDirections(ext: seq<Range>)
    requires |ext| == 3
    ensures Dimension(ext) > 1 <==> exists c: nat, d: nat :: c < d && Extends(ext, c) && Extends(ext, d)
  {
    if Dimension(ext) > 1 {
      assert (Extends(ext, 0) && Extends(ext, 1)) || (Extends(ext, 0) && Extends(ext, 2)) || (Extends(ext, 1) && Extends(ext, 2));
    }
  }

  /** `CreateUnstructuredMesh`. It answers false where an assertion of the source fails: unless there are three directions
      and the mesh extends in at least two of them. */
  method CreateUnstructuredMesh(e: BSExtent) returns (ok: bool, cells: seq<seq<int>>)
    requires e.Synced()
    ensures ok <==> |e.ranges| == 3 && exists c: nat, d: nat :: c < d && Extends(e.ranges, c) && Extends(e.ranges, d)
    ensures if ok then CellsOf(e.ranges, cells) && IsMesh(e.ranges, cells) else cells == []
  {
    if |e.ranges| != 3 {
      return false, [];
    }
    var lowerleft, meshNd := LowerLeft(e);
    TwoDirections(e.ranges);
    if meshNd <= 1 {
      return false, [];
    }
    var indices := e.GetFlatIndices(lowerleft);
    var offset := if e.n[0] > 1 then e.n[0] else e.n[1];
    cells := Elements(indices, offset, if meshNd == 2 then 0 else offset * e.n[1]);
    ElementsAreCells(e.ranges, cells);
    ok := true;
  }
}
