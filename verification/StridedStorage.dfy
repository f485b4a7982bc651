/** Strided arrays of vectors (COM/src/DataItem.C): where component j of item i lies, and the three ways
    `copy_array` moves items between two layouts. Offsets count elements of the base type. */
module StridedStorage {
  import opened Arithmetic

  /** An array of vectors inside a block of memory: its first element, its stride and its capacity.
      Stride 1 stores the components one after the other, each over the whole capacity;
      any other stride stores the components of an item side by side. */
  datatype View = View(base: nat, strd: nat, cap: nat)

  function Addr(v: View, i: nat, j: nat): nat {
    v.base + if v.strd == 1 then j * v.cap + i else i * v.strd + j
  }

  /** The view can hold `rows` items of `ncomp` components in a block of `len` elements. */
  ghost predicate Holds(v: View, rows: nat, ncomp: nat, len: nat) {
    && v.base <= len
    && (if v.strd == 1 then rows <= v.cap || ncomp <= 1 else ncomp <= v.strd)
    && forall i: nat, j: nat :: i < rows && j < ncomp ==> Addr(v, i, j) < len
  }

  /** Different cells have different addresses. */
  lemma {:induction false} AddrInjective(v: View, rows: nat, ncomp: nat, len: nat, i: nat, j: nat, i': nat, j': nat)
    requires Holds(v, rows, ncomp, len)
    requires i < rows && i' < rows && j < ncomp && j' < ncomp && Addr(v, i, j) == Addr(v, i', j')
    ensures i == i' && j == j'
  {
    if v.strd != 1 {
      DigitsUnique(i, j, i', j', v.strd);
    } else if ncomp > 1 {
      DigitsUnique(j, i, j', i', v.cap);
    }
  }

  // ---------- One logical copy ----------

  /** Cell (x,y) comes before cell (i,j), item by item. */
  predicate Before(x: nat, y: nat, i: nat, j: nat) {
    x < i || (x == i && y < j)
  }

  /** Address k holds a cell of the first `rows` items. */
  ghost predicate InCells(v: View, rows: nat, ncomp: nat, k: nat) {
    exists i: nat, j: nat :: i < rows && j < ncomp && Addr(v, i, j) == k
  }

  /** Exactly the cells before (i,j) have been transferred from src to the block that was `was` and is `now`. */
  ghost predicate Progress(was: seq<int>, now: seq<int>, d: View, src: seq<int>, s: View, rows: nat, ncomp: nat, i: nat, j: nat)
    requires Holds(d, rows, ncomp, |was|) && Holds(s, rows, ncomp, |src|)
  {
    && |now| == |was|
    && (forall x: nat, y: nat :: x < rows && y < ncomp ==>
      now[Addr(d, x, y)] == if Before(x, y, i, j) then src[Addr(s, x, y)] else was[Addr(d, x, y)])
    && (forall k: nat :: k < |was| && !InCells(d, rows, ncomp, k) ==> now[k] == was[k])
  }

  /** All cells of the first `rows` items have been transferred and nothing else has changed. */
  ghost predicate Copied(was: seq<int>, now: seq<int>, d: View, src: seq<int>, s: View, rows: nat, ncomp: nat)
    requires Holds(d, rows, ncomp, |was|) && Holds(s, rows, ncomp, |src|)
  {
    && |now| == |was|
    && (forall x: nat, y: nat :: x < rows && y < ncomp ==> now[Addr(d, x, y)] == src[Addr(s, x, y)])
    && (forall k: nat :: k < |was| && !InCells(d, rows, ncomp, k) ==> now[k] == was[k])
  }

  /** The logical copy leaves no freedom: it determines the whole block. */
  lemma {:induction false} CopiedUnique(was: seq<int>, now: seq<int>, now': seq<int>, d: View, src: seq<int>, s: View, rows: nat, ncomp: nat)
    requires Holds(d, rows, ncomp, |was|) && Holds(s, rows, ncomp, |src|)
    requires Copied(was, now, d, src, s, rows, ncomp) && Copied(was, now', d, src, s, rows, ncomp)
    ensures now == now'
  {
    forall k: nat | k < |was| ensures now[k] == now'[k] {
      if InCells(d, rows, ncomp, k) {
        var i: nat, j: nat :| i < rows && j < ncomp && Addr(d, i, j) == k;
      }
    }
  }

  lemma {:induction false} OneCell(was: seq<int>, now: seq<int>, d: View, src: seq<int>, s: View, rows: nat, ncomp: nat, i: nat, j: nat)
    requires Holds(d, rows, ncomp, |was|) && Holds(s, rows, ncomp, |src|)
    requires i < rows && j < ncomp && Progress(was, now, d, src, s, rows, ncomp, i, j)
    ensures Progress(was, now[Addr(d, i, j) := src[Addr(s, i, j)]], d, src, s, rows, ncomp, i, j + 1)
  {
    var next := now[Addr(d, i, j) := src[Addr(s, i, j)]];
    forall x: nat, y: nat | x < rows && y < ncomp
      ensures next[Addr(d, x, y)] == if Before(x, y, i, j + 1) then src[Addr(s, x, y)] else was[Addr(d, x, y)]
    {
      if Addr(d, x, y) == Addr(d, i, j) {
        AddrInjective(d, rows, ncomp, |was|, x, y, i, j);
      }
    }
  }

  lemma {:induction false} NextItem(was: seq<int>, now: seq<int>, d: View, src: seq<int>, s: View, rows: nat, ncomp: nat, i: nat)
    requires Holds(d, rows, ncomp, |was|) && Holds(s, rows, ncomp, |src|)
    requires Progress(was, now, d, src, s, rows, ncomp, i, ncomp)
    ensures Progress(was, now, d, src, s, rows, ncomp, i + 1, 0)
  {
  }

  // ---------- memcpy ----------

  /** The block after n elements starting at d were replaced by those of src starting at s. */
  function Spliced(was: seq<int>, d: nat, src: seq<int>, s: nat, n: nat): (r: seq<int>)
    requires d + n <= |was| && s + n <= |src|
    ensures |r| == |was|
    ensures forall k :: 0 <= k < |was| ==> r[k] == if d <= k < d + n then src[s + (k - d)] else was[k]
  {
    was[..d] + src[s..s + n] + was[d + n..]
  }

  method MemCpy(dst: array<int>, d: nat, src: array<int>, s: nat, n: nat)
    requires dst != src && d + n <= dst.Length && s + n <= src.Length
    modifies dst
    ensures dst[..] == Spliced(old(dst[..]), d, src[..], s, n)
  {
    for k := 0 to n
      invariant dst[..] == Spliced(old(dst[..]), d, src[..], s, k)
    {
      dst[d + k] := src[s + k];
    }
  }

  lemma {:induction false} ItemAddr(v: View, i: nat, j: nat)
    requires v.strd != 1
    ensures Addr(v, i, j) == Addr(v, i, 0) + j
  {
  }

  // ---------- The three branches of copy_array ----------

  /** Both sides use the same stride, and either nothing lies between the items or both capacities are filled. */
  predicate SameLayout(d: View, s: View, n: nat, ncomp: nat) {
    d.strd == s.strd && (d.strd == ncomp || (d.strd == 1 && d.cap == n && s.cap == n))
  }

  lemma {:induction false} ContiguousCell(v: View, n: nat, ncomp: nat, i: nat, j: nat)
    requires v.strd == ncomp || (v.strd == 1 && v.cap == n)
    requires i < n && j < ncomp
    ensures v.base <= Addr(v, i, j) < v.base + n * ncomp
  {
    if v.strd == ncomp && v.strd != 1 {
      MulLe(i, n, ncomp);
    } else if ncomp == 1 {
    } else {
      MulLe(j, ncomp, n);
      assert ncomp * n == n * ncomp;
    }
  }

  lemma {:induction false} ContiguousInverse(v: View, n: nat, ncomp: nat, k: nat)
    requires v.strd == ncomp || (v.strd == 1 && v.cap == n)
    requires v.base <= k < v.base + n * ncomp
    ensures InCells(v, n, ncomp, k)
  {
    var off := k - v.base;
    if ncomp == 1 {
      assert Addr(v, off, 0) == k;
    } else if v.strd == 1 && v.cap == n {
      assert n * ncomp == ncomp * n;
      var j, i := Digits(off, ncomp, n);
      assert Addr(v, i, j) == k;
    } else {
      var i, j := Digits(off, n, ncomp);
      assert Addr(v, i, j) == k;
    }
  }

  /** The contiguous branch: one memcpy of n * ncomp elements is the logical copy of n items. */
  lemma {:induction false} ContiguousIsCopy(was: seq<int>, d: View, src: seq<int>, s: View, n: nat, ncomp: nat)
    requires Holds(d, n, ncomp, |was|) && Holds(s, n, ncomp, |src|) && SameLayout(d, s, n, ncomp)
    requires d.base + n * ncomp <= |was| && s.base + n * ncomp <= |src|
    ensures Copied(was, Spliced(was, d.base, src, s.base, n * ncomp), d, src, s, n, ncomp)
  {
    var now := Spliced(was, d.base, src, s.base, n * ncomp);
    forall i: nat, j: nat | i < n && j < ncomp ensures now[Addr(d, i, j)] == src[Addr(s, i, j)] {
      ContiguousCell(d, n, ncomp, i, j);
      ContiguousCell(s, n, ncomp, i, j);
    }
    forall k: nat | k < |was| && !InCells(d, n, ncomp, k) ensures now[k] == was[k] {
      if d.base <= k < d.base + n * ncomp {
        ContiguousInverse(d, n, ncomp, k);
      }
    }
  }

  lemma {:induction false} NothingCopied(was: seq<int>, d: View, src: seq<int>, s: View, rows: nat, ncomp: nat)
    requires Holds(d, rows, ncomp, |was|) && Holds(s, rows, ncomp, |src|)
    ensures Progress(was, was, d, src, s, rows, ncomp, 0, 0)
  {
    forall k: nat | k < |was| ensures was[k] == was[k] {}
  }

  /** memcpy of the components of item i, which lie side by side in both arrays. */
  method MemCpyItem(dst: array<int>, d: View, src: array<int>, s: View, rows: nat, ncomp: nat, i: nat, pd: nat, ps: nat, ghost was: seq<int>)
    requires dst != src && Holds(d, rows, ncomp, |was|) && Holds(s, rows, ncomp, src.Length) && d.strd > 1 && s.strd > 1
    requires i < rows && pd == Addr(d, i, 0) && ps == Addr(s, i, 0)
    requires Progress(was, dst[..], d, src[..], s, rows, ncomp, i, 0)
    modifies dst
    ensures Progress(was, dst[..], d, src[..], s, rows, ncomp, i + 1, 0)
  {
    for k := 0 to ncomp
      invariant Progress(was, dst[..], d, src[..], s, rows, ncomp, i, k)
    {
      ItemAddr(d, i, k);
      ItemAddr(s, i, k);
      OneCell(was, dst[..], d, src[..], s, rows, ncomp, i, k);
      dst[pd + k] := src[ps + k];
    }
    NextItem(was, dst[..], d, src[..], s, rows, ncomp, i);
  }

  /** The branch for items stored side by side in both arrays: one memcpy per item (lines 277-292). */
  method CopyItems(dst: array<int>, d: View, src: array<int>, s: View, ni: nat, ncomp: nat)
    requires dst != src && ncomp > 0 && d.strd > 1 && s.strd > 1
    requires Holds(d, ni, ncomp, dst.Length) && Holds(s, ni, ncomp, src.Length)
    modifies dst
    ensures Copied(old(dst[..]), dst[..], d, src[..], s, ni, ncomp)
  {
    ghost var was := dst[..];
    var pd, ps := d.base, s.base;
    NothingCopied(was, d, src[..], s, ni, ncomp);
    StepAddr(d, 0, 0);
    StepAddr(s, 0, 0);
    for i := 0 to ni
      invariant pd == Addr(d, i, 0) && ps == Addr(s, i, 0)
      invariant Progress(was, dst[..], d, src[..], s, ni, ncomp, i, 0)
    {
      MemCpyItem(dst, d, src, s, ni, ncomp, i, pd, ps, was);
      StepAddr(d, i, 0);
      StepAddr(s, i, 0);
      pd, ps := pd + d.strd, ps + s.strd;
    }
  }

  lemma {:induction false} StepAddr(v: View, i: nat, j: nat)
    ensures Addr(v, i, j + 1) == Addr(v, i, j) + if v.strd == 1 then v.cap else 1
    ensures Addr(v, i + 1, 0) == Addr(v, i, 0) + v.strd
    ensures Addr(v, 0, 0) == v.base
  {
  }

  /** The inner loop of the general branch: one memcpy per component of item i. */
  method CopyItem(dst: array<int>, d: View, src: array<int>, s: View, rows: nat, ncomp: nat, i: nat, pd: nat, ps: nat, ghost was: seq<int>)
    requires dst != src && Holds(d, rows, ncomp, |was|) && Holds(s, rows, ncomp, src.Length)
    requires i < rows && pd == Addr(d, i, 0) && ps == Addr(s, i, 0)
    requires Progress(was, dst[..], d, src[..], s, rows, ncomp, i, 0)
    modifies dst
    ensures Progress(was, dst[..], d, src[..], s, rows, ncomp, i + 1, 0)
  {
    var offD, offS := 0, 0;
    for j := 0 to ncomp
      invariant pd + offD == Addr(d, i, j) && ps + offS == Addr(s, i, j)
      invariant Progress(was, dst[..], d, src[..], s, rows, ncomp, i, j)
    {
      StepAddr(d, i, j);
      StepAddr(s, i, j);
      OneCell(was, dst[..], d, src[..], s, rows, ncomp, i, j);
      dst[pd + offD] := src[ps + offS];
      offD := offD + if d.strd == 1 then d.cap else 1;
      offS := offS + if s.strd == 1 then s.cap else 1;
    }
    NextItem(was, dst[..], d, src[..], s, rows, ncomp, i);
  }

  /** The branch for all other pairs of layouts (lines 293-314). */
  method CopyCells(dst: array<int>, d: View, src: array<int>, s: View, ni: nat, ncomp: nat)
    requires dst != src
    requires Holds(d, ni, ncomp, dst.Length) && Holds(s, ni, ncomp, src.Length)
    modifies dst
    ensures Copied(old(dst[..]), dst[..], d, src[..], s, ni, ncomp)
  {
    ghost var was := dst[..];
    var pd, ps := d.base, s.base;
    NothingCopied(was, d, src[..], s, ni, ncomp);
    StepAddr(d, 0, 0);
    StepAddr(s, 0, 0);
    for i := 0 to ni
      invariant pd == Addr(d, i, 0) && ps == Addr(s, i, 0)
      invariant Progress(was, dst[..], d, src[..], s, ni, ncomp, i, 0)
    {
      CopyItem(dst, d, src, s, ni, ncomp, i, pd, ps, was);
      StepAddr(d, i, 0);
      StepAddr(s, i, 0);
      pd, ps := pd + d.strd, ps + s.strd;
    }
  }

  /** The choice between the branches (lines 271-314), for a request to move n of at most nitems items. */
  method CopyBetween(dst: array<int>, d: View, src: array<int>, s: View, n: nat, nitems: nat, ncomp: nat)
    requires dst != src && ncomp > 0
    requires var m := Moved(d, s, n, nitems, ncomp); Holds(d, m, ncomp, dst.Length) && Holds(s, m, ncomp, src.Length)
    modifies dst
    ensures Copied(old(dst[..]), dst[..], d, src[..], s, Moved(d, s, n, nitems, ncomp), ncomp)
  {
    if SameLayout(d, s, n, ncomp) {
      ContiguousFits(d, n, ncomp, dst.Length);
      ContiguousFits(s, n, ncomp, src.Length);
      ContiguousIsCopy(dst[..], d, src[..], s, n, ncomp);
      MemCpy(dst, d.base, src, s.base, n * ncomp);
    } else if d.strd > 1 && s.strd > 1 {
      CopyItems(dst, d, src, s, if n < nitems then n else nitems, ncomp);
    } else {
      CopyCells(dst, d, src, s, if n < nitems then n else nitems, ncomp);
    }
  }

  /** How many items are moved: the contiguous branch ignores the number of items the array has. */
  function Moved(d: View, s: View, n: nat, nitems: nat, ncomp: nat): nat {
    if SameLayout(d, s, n, ncomp) || n < nitems then n else nitems
  }

  lemma {:induction false} ContiguousFits(v: View, n: nat, ncomp: nat, len: nat)
    requires ncomp > 0 && Holds(v, n, ncomp, len) && (v.strd == ncomp || (v.strd == 1 && v.cap == n))
    ensures v.base + n * ncomp <= len
  {
    if n > 0 {
      assert Addr(v, n - 1, ncomp - 1) < len;
      assert (n - 1) * ncomp + ncomp == n * ncomp;
      assert (ncomp - 1) * n + n == n * ncomp;
    }
  }

  // ---------- Round trips ----------

  /** Copying out and copying back in restores the array, whatever the two layouts and the buffer's contents. */
  lemma {:induction false} OutThenIn(blk: seq<int>, v: View, buf: seq<int>, w: View, rows: nat, ncomp: nat, buf': seq<int>, blk': seq<int>)
    requires Holds(v, rows, ncomp, |blk|) && Holds(w, rows, ncomp, |buf|)
    requires Copied(buf, buf', w, blk, v, rows, ncomp) && Copied(blk, blk', v, buf', w, rows, ncomp)
    ensures blk' == blk
  {
    forall k: nat | k < |blk| ensures blk'[k] == blk[k] {
      if InCells(v, rows, ncomp, k) {
        var i: nat, j: nat :| i < rows && j < ncomp && Addr(v, i, j) == k;
        assert buf'[Addr(w, i, j)] == blk[Addr(v, i, j)];
      }
    }
  }

  /** A smaller number of rows fits wherever a larger one does. */
  lemma {:induction false} HoldsFewer(v: View, rows: nat, fewer: nat, ncomp: nat, len: nat)
    requires Holds(v, rows, ncomp, len) && fewer <= rows
    ensures Holds(v, fewer, ncomp, len)
  {
  }

  /** The number of elements an array of this shape takes. */
  function Extent(strd: nat, cap: nat, ncomp: nat): nat {
    cap * if strd < ncomp then ncomp else strd
  }

  lemma {:induction false} ExtentHolds(strd: nat, cap: nat, ncomp: nat)
    requires strd == 1 || ncomp <= strd
    ensures Holds(View(0, strd, cap), cap, ncomp, Extent(strd, cap, ncomp))
  {
    var v := View(0, strd, cap);
    forall i: nat, j: nat | i < cap && j < ncomp ensures Addr(v, i, j) < Extent(strd, cap, ncomp) {
      if strd == 1 {
        MulLe(j, ncomp, cap);
        assert ncomp * cap == cap * ncomp;
      } else {
        MulLe(i, cap, strd);
      }
    }
  }

  /** One component of an array seen as an array of single values. */
  function Component(v: View, c: nat): View {
    View(v.base + if v.strd == 1 then c * v.cap else c, v.strd, v.cap)
  }

  lemma {:induction false} ComponentAddr(v: View, c: nat, i: nat)
    ensures Addr(Component(v, c), i, 0) == Addr(v, i, c)
  {
  }

  lemma {:induction false} ComponentHolds(v: View, rows: nat, ncomp: nat, len: nat, c: nat)
    requires Holds(v, rows, ncomp, len) && c < ncomp
    requires rows > 0
    ensures Holds(Component(v, c), rows, 1, len)
  {
    ComponentAddr(v, c, 0);
    assert Addr(v, 0, c) < len;
    forall i: nat, j: nat | i < rows && j < 1 ensures Addr(Component(v, c), i, j) < len {
      ComponentAddr(v, c, i);
    }
  }
}
