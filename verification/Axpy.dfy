/** `Rocblas::axpy_gen` on one pane (Simpal/src/axpy.C): z = a * x + y, where a may be of any kind. */
module Axpy {
  import opened Arithmetic
  import opened StridedStorage
  import opened Blas

  /** The assertions of axpy_gen that concern this pane. */
  predicate Accepts(kind: Kind, a: Operand, x: Operand, y: Operand, z: Operand) {
    z.ncomp == x.ncomp && z.ncomp == y.ncomp && SameItems(z, x) && SameItems(z, y) && YFits(kind, z, a)
  }

  /** What an operation may assume of the memory it is given. */
  ghost predicate Usable(kind: Kind, a: Operand, x: Operand, y: Operand, z: Operand) {
    && Readable(z, z.items) && Readable(x, z.items) && Readable(y, z.items) && YReadable(kind, a, z.items, z.ncomp)
    && NoClash(z, x) && NoClash(z, y) && YNoClash(kind, z, a)
  }

  /** The contents of the blocks of a, x and y. */
  datatype Memory = Memory(a: seq<int>, x: seq<int>, y: seq<int>)

  /** z(i,c) after the operation, from the contents of a, x and y before it. (The cells exist: see CellReadable.) */
  ghost function Goals(kind: Kind, a: Operand, x: Operand, y: Operand, m: Memory): (nat, nat) -> int {
    (i: nat, c: nat) =>
      if YCell(kind, a, i, c) < |m.a| && Cell(x, i, c) < |m.x| && Cell(y, i, c) < |m.y| then
        m.a[YCell(kind, a, i, c)] * m.x[Cell(x, i, c)] + m.y[Cell(y, i, c)]
      else 0
  }

  /** What a loop knows after some of its cells. */
  ghost predicate Underway(kind: Kind, a: Operand, x: Operand, y: Operand, z: Operand, was: seq<int>, m: Memory,
                           znow: seq<int>, now: Memory, o: Order)
    requires Readable(z, z.items)
  {
    && |was| == z.block.Length && |m.a| == a.block.Length && |m.x| == x.block.Length && |m.y| == y.block.Length
    && Partial(Goals(kind, a, x, y, m), z, was, znow, o)
    && Seen(z, a, was, m.a, znow, now.a) && Seen(z, x, was, m.x, znow, now.x) && Seen(z, y, was, m.y, znow, now.y)
  }

  /** The next cell is computed from a, x and y as they were. */
  lemma {:induction false} OperandsAsBefore(kind: Kind, a: Operand, x: Operand, y: Operand, z: Operand, was: seq<int>, m: Memory,
                         znow: seq<int>, now: Memory, o: Order, i: nat, c: nat)
    requires Accepts(kind, a, x, y, z) && Usable(kind, a, x, y, z) && Underway(kind, a, x, y, z, was, m, znow, now, o)
    requires i < z.items && c < z.ncomp && !Done(o, z.ncomp, i, c)
    ensures YCell(kind, a, i, c) < |now.a| && Cell(x, i, c) < |now.x| && Cell(y, i, c) < |now.y|
    ensures now.a[YCell(kind, a, i, c)] * now.x[Cell(x, i, c)] + now.y[Cell(y, i, c)] == Goals(kind, a, x, y, m)(i, c)
  {
    var goal := Goals(kind, a, x, y, m);
    YCellReadable(kind, z, a, i, c);
    CellReadable(z, x, i, c);
    CellReadable(z, y, i, c);
    YReadsOld(goal, kind, z, a, was, m.a, znow, now.a, o, i, c);
    ReadsOld(goal, z, x, was, m.x, znow, now.x, o, i, c);
    ReadsOld(goal, z, y, was, m.y, znow, now.y, o, i, c);
  }

  /** One assignment to an element of z, whichever loop makes it. */
  method Store(kind: Kind, a: Operand, x: Operand, y: Operand, z: Operand, zi: nat, value: int,
               ghost was: seq<int>, ghost m: Memory, ghost o: Order, ghost o': Order)
    requires Readable(z, z.items) && zi < z.block.Length
    requires Underway(kind, a, x, y, z, was, m, z.block[..], Memory(a.block[..], x.block[..], y.block[..]), o)
    requires Partial(Goals(kind, a, x, y, m), z, was, z.block[..][zi := value], o')
    modifies z.block
    ensures Underway(kind, a, x, y, z, was, m, z.block[..], Memory(a.block[..], x.block[..], y.block[..]), o')
  {
    ghost var next := z.block[..][zi := value];
    z.block[zi] := value;
    assert z.block[..] == next;
  }

  /** The operands are packed, so that one running index serves all of them (line 124). */
  predicate Fast(kind: Kind, a: Operand, x: Operand, y: Operand, z: Operand) {
    Packed(x) && Packed(z) && Packed(y) && YPacked(kind, z, a)
  }

  /** The k-th round of the contiguous loop writes the next cell. */
  lemma {:induction false} FastStep(kind: Kind, a: Operand, x: Operand, y: Operand, z: Operand, was: seq<int>, m: Memory, znow: seq<int>, now: Memory, k: nat)
    requires Accepts(kind, a, x, y, z) && Usable(kind, a, x, y, z) && Fast(kind, a, x, y, z) && k < z.items * z.ncomp
    requires Underway(kind, a, x, y, z, was, m, znow, now, ByItem(k))
    ensures z.view.base + k < |znow| && x.view.base + k < |now.x| && y.view.base + k < |now.y|
    ensures a.view.base + GetRef(kind, false, k, 0, 1) < |now.a|
    ensures Partial(Goals(kind, a, x, y, m), z, was, znow[z.view.base + k :=
      now.a[a.view.base + GetRef(kind, false, k, 0, 1)] * now.x[x.view.base + k] + now.y[y.view.base + k]], ByItem(k + 1))
  {
    hide Blas.Partial, Blas.Seen, Blas.YCell, Blas.GetRef, Goals;
    var i, c := NextCell(Goals(kind, a, x, y, m), z, was, znow, k);
    OperandsAsBefore(kind, a, x, y, z, was, m, znow, now, ByItem(k), i, c);
    PackedCell(z, i, c);
    PackedCell(x, i, c);
    PackedCell(y, i, c);
    YPackedCell(kind, z, a, i, c);
  }

  /** The contiguous loop (lines 126-137). */
  method FastPath(kind: Kind, a: Operand, x: Operand, y: Operand, z: Operand)
    requires Accepts(kind, a, x, y, z) && Usable(kind, a, x, y, z) && Fast(kind, a, x, y, z)
    modifies z.block
    ensures Pointwise(Goals(kind, a, x, y, Memory(old(a.block[..]), old(x.block[..]), old(y.block[..]))), z, old(z.block[..]), z.block[..])
  {
    hide Blas.Partial, Blas.Pointwise;
    ghost var was, m := z.block[..], Memory(a.block[..], x.block[..], y.block[..]);
    NothingDone(Goals(kind, a, x, y, m), z, was, ByItem(0));
    var s := z.items * z.ncomp;
    for k := 0 to s
      invariant Underway(kind, a, x, y, z, was, m, z.block[..], Memory(a.block[..], x.block[..], y.block[..]), ByItem(k))
    {
      FastStep(kind, a, x, y, z, was, m, z.block[..], Memory(a.block[..], x.block[..], y.block[..]), k);
      var value := a.block[a.view.base + GetRef(kind, false, k, 0, 1)] * x.block[x.view.base + k] + y.block[y.view.base + k];
      Store(kind, a, x, y, z, z.view.base + k, value, was, m, ByItem(k), ByItem(k + 1));
    }
    AllDone(Goals(kind, a, x, y, m), z, was, z.block[..], ByItem(s));
  }

  /** A round of the general loop for component c writes the next item's. */
  lemma {:induction false} GeneralStep(kind: Kind, a: Operand, x: Operand, y: Operand, z: Operand, was: seq<int>, m: Memory, znow: seq<int>, now: Memory,
                    j: nat, c: nat, zval: nat, aref: nat, xval: nat, yval: nat)
    requires Accepts(kind, a, x, y, z) && Usable(kind, a, x, y, z) && j < z.items && c < z.ncomp
    requires Underway(kind, a, x, y, z, was, m, znow, now, ByComponent(c, j))
    requires zval == ComponentOf(z, c).base + j * GetStride(BlasVec2D, z)
    requires aref == YBase(kind, a, c) + GetRef(kind, true, j, c, GetStride(kind, a))
    requires xval == ComponentOf(x, c).base + j * GetStride(BlasVec2D, x)
    requires yval == ComponentOf(y, c).base + j * GetStride(BlasVec2D, y)
    ensures zval < |znow| && aref < |now.a| && xval < |now.x| && yval < |now.y|
    ensures Partial(Goals(kind, a, x, y, m), z, was, znow[zval := now.a[aref] * now.x[xval] + now.y[yval]], ByComponent(c, j + 1))
  {
    GeneralCell(z, z, j, c);
    GeneralCell(x, z, j, c);
    GeneralCell(y, z, j, c);
    GeneralY(kind, a, z, j, c);
    OperandsAsBefore(kind, a, x, y, z, was, m, znow, now, ByComponent(c, j), j, c);
    WriteCell(Goals(kind, a, x, y, m), z, was, znow, ByComponent(c, j), ByComponent(c, j + 1), j, c);
  }

  /** The loop over the items for component c (lines 141-166). */
  method OneComponent(kind: Kind, a: Operand, x: Operand, y: Operand, z: Operand, c: nat, ghost was: seq<int>, ghost m: Memory)
    requires Accepts(kind, a, x, y, z) && Usable(kind, a, x, y, z) && c < z.ncomp
    requires Underway(kind, a, x, y, z, was, m, z.block[..], Memory(a.block[..], x.block[..], y.block[..]), ByComponent(c, 0))
    modifies z.block
    ensures Underway(kind, a, x, y, z, was, m, z.block[..], Memory(a.block[..], x.block[..], y.block[..]), ByComponent(c + 1, 0))
  {
    hide Blas.Partial, Blas.Seen, Blas.YCell, Blas.GetRef, Goals;
    var zstrd, xstrd, ystrd, astrd := GetStride(BlasVec2D, z), GetStride(BlasVec2D, x), GetStride(BlasVec2D, y), GetStride(kind, a);
    var zbase, xbase, ybase, abase := ComponentOf(z, c).base, ComponentOf(x, c).base, ComponentOf(y, c).base, YBase(kind, a, c);
    var zval, xval, yval := zbase, xbase, ybase;
    for j := 0 to z.items
      invariant zval == zbase + j * zstrd && xval == xbase + j * xstrd && yval == ybase + j * ystrd
      invariant Underway(kind, a, x, y, z, was, m, z.block[..], Memory(a.block[..], x.block[..], y.block[..]), ByComponent(c, j))
    {
      var aref := abase + GetRef(kind, true, j, c, astrd);
      GeneralStep(kind, a, x, y, z, was, m, z.block[..], Memory(a.block[..], x.block[..], y.block[..]), j, c, zval, aref, xval, yval);
      var value := a.block[aref] * x.block[xval] + y.block[yval];
      Store(kind, a, x, y, z, zval, value, was, m, ByComponent(c, j), ByComponent(c, j + 1));
      StepAlong(j, zstrd);
      StepAlong(j, xstrd);
      StepAlong(j, ystrd);
      zval, xval, yval := zval + zstrd, xval + xstrd, yval + ystrd;
    }
    NextComponent(Goals(kind, a, x, y, m), z, was, z.block[..], c);
  }

  /** The loops over components and items (lines 139-167). */
  method GeneralPath(kind: Kind, a: Operand, x: Operand, y: Operand, z: Operand)
    requires Accepts(kind, a, x, y, z) && Usable(kind, a, x, y, z)
    modifies z.block
    ensures Pointwise(Goals(kind, a, x, y, Memory(old(a.block[..]), old(x.block[..]), old(y.block[..]))), z, old(z.block[..]), z.block[..])
  {
    hide Blas.Partial, Blas.Pointwise;
    ghost var was, m := z.block[..], Memory(a.block[..], x.block[..], y.block[..]);
    NothingDone(Goals(kind, a, x, y, m), z, was, ByComponent(0, 0));
    for c := 0 to z.ncomp
      invariant Underway(kind, a, x, y, z, was, m, z.block[..], Memory(a.block[..], x.block[..], y.block[..]), ByComponent(c, 0))
    {
      OneComponent(kind, a, x, y, z, c, was, m);
    }
    AllDone(Goals(kind, a, x, y, m), z, was, z.block[..], ByComponent(z.ncomp, 0));
  }

  /** `axpy_gen`. It answers false where the source fails an assertion. */
  method AxpyGen(kind: Kind, a: Operand, x: Operand, y: Operand, z: Operand) returns (ok: bool)
    requires Usable(kind, a, x, y, z)
    modifies z.block
    ensures ok == Accepts(kind, a, x, y, z)
    // x, y and z have as many components, the factor has as many or one; every operand that lies on the pane has z's items
    // or stands for all of them with at most one, and one that lies on the window has one item
    ensures ok <==>
      && z.ncomp == x.ncomp == y.ncomp && (kind == BlasVoid || a.ncomp == 1 || a.ncomp == z.ncomp)
      && (x.items == z.items || x.items <= 1) && (y.items == z.items || y.items <= 1)
      && (kind in {BlasScne, BlasVec2D} ==> a.items == z.items || a.items <= 1)
      && (kind in {BlasScalar, BlasVec} ==> a.items == 1)
    ensures ok ==>
      Pointwise(Goals(kind, a, x, y, Memory(old(a.block[..]), old(x.block[..]), old(y.block[..]))), z, old(z.block[..]), z.block[..])
    ensures ok && kind == BlasVoid ==> forall i: nat, c: nat :: i < z.items && c < z.ncomp ==>
      ByValue(z, x, y, old(a.block[a.view.base]), old(x.block[..]), old(y.block[..]), z.block[..], i, c)
    ensures !ok ==> z.block[..] == old(z.block[..])
  {
    if !Accepts(kind, a, x, y, z) {
      return false;
    }
    ghost var m := Memory(a.block[..], x.block[..], y.block[..]);
    if Fast(kind, a, x, y, z) {
      FastPath(kind, a, x, y, z);
    } else {
      GeneralPath(kind, a, x, y, z);
    }
    if kind == BlasVoid {
      forall i: nat, c: nat | i < z.items && c < z.ncomp ensures ByValue(z, x, y, m.a[a.view.base], m.x, m.y, z.block[..], i, c) {
        CellReadable(z, x, i, c);
        CellReadable(z, y, i, c);
        assert z.block[..][Addr(z.view, i, c)] == Goals(kind, a, x, y, m)(i, c);
      }
    }
    return true;
  }

  /** z(i,c) is value * x(i,c) + y(i,c). */
  ghost predicate ByValue(z: Operand, x: Operand, y: Operand, value: int, xs: seq<int>, ys: seq<int>, now: seq<int>, i: nat, c: nat) {
    && Cell(x, i, c) < |xs| && Cell(y, i, c) < |ys| && Addr(z.view, i, c) < |now|
    && now[Addr(z.view, i, c)] == value * xs[Cell(x, i, c)] + ys[Cell(y, i, c)]
  }

  /** How `axpy` addresses its factor. */
  function KindOf(a: Argument): Kind {
    if a.windowed then if a.data.ncomp == 1 then BlasScalar else BlasVec
    else if a.data.ncomp == 1 then BlasScne
    else BlasVec2D
  }

  /** `axpy`: z(i,c) = a(i,c) * x(i,c) + y(i,c), whether a is a window item or lies on the panes, and whether it has
      one component or all. */
  method Axpy(a: Argument, x: Operand, y: Operand, z: Operand) returns (ok: bool)
    requires Usable(KindOf(a), a.data, x, y, z)
    modifies z.block
    ensures ok <==>
      && z.ncomp == x.ncomp == y.ncomp && (a.data.ncomp == 1 || a.data.ncomp == z.ncomp)
      && (x.items == z.items || x.items <= 1) && (y.items == z.items || y.items <= 1)
      && (if a.windowed then a.data.items == 1 else a.data.items == z.items || a.data.items <= 1)
    ensures ok ==> forall i: nat, c: nat :: i < z.items && c < z.ncomp ==>
      && ContributionCell(a, i, c) < a.data.block.Length && Cell(x, i, c) < x.block.Length && Cell(y, i, c) < y.block.Length
      && z.block[..][Addr(z.view, i, c)] == old(a.data.block[..])[ContributionCell(a, i, c)] * old(x.block[..])[Cell(x, i, c)]
        + old(y.block[..])[Cell(y, i, c)]
    ensures forall k: nat :: k < z.block.Length && (!ok || !InCells(z.view, z.items, z.ncomp, k)) ==>
      z.block[..][k] == old(z.block[..])[k]
  {
    ghost var m := Memory(a.data.block[..], x.block[..], y.block[..]);
    ok := AxpyGen(KindOf(a), a.data, x, y, z);
    if ok {
      forall i: nat, c: nat | i < z.items && c < z.ncomp
        ensures ContributionCell(a, i, c) < |m.a| && Cell(x, i, c) < |m.x| && Cell(y, i, c) < |m.y|
        ensures z.block[..][Addr(z.view, i, c)] == m.a[ContributionCell(a, i, c)] * m.x[Cell(x, i, c)] + m.y[Cell(y, i, c)]
      {
        YCellReadable(KindOf(a), z, a.data, i, c);
        CellReadable(z, x, i, c);
        CellReadable(z, y, i, c);
        assert z.block[..][Addr(z.view, i, c)] == Goals(KindOf(a), a.data, x, y, m)(i, c);
      }
    }
  }
}
