/** `Rocblas::calc` and `calcChoose` on one pane (Simpal/src/op3args.C): z = x op y. */
module Calc {
  import opened Arithmetic
  import opened StridedStorage
  import opened Blas

  /** The assertions of calc that concern this pane. */
  predicate Accepts(kind: Kind, z: Operand, x: Operand, y: Operand) {
    z.ncomp == x.ncomp && SameItems(z, x) && YFits(kind, z, y)
  }

  /** What an operation may assume of the memory it is given. */
  ghost predicate Ready(kind: Kind, z: Operand, x: Operand, y: Operand) {
    && Readable(z, z.items) && Readable(x, z.items) && YReadable(kind, y, z.items, z.ncomp)
    && NoClash(z, x) && YNoClash(kind, z, y)
  }

  /** The contents of the blocks of x and y. */
  datatype Memory = Memory(x: seq<int>, y: seq<int>)

  /** An operation, and whether its operands are exchanged. */
  datatype Operation = Operation(op: (int, int) -> int, swap: bool)

  function Apply(f: Operation, a: int, b: int): int {
    if f.swap then f.op(b, a) else f.op(a, b)
  }

  /** z(i,c) after the operation, from the contents of x and y before it. (The cells exist: see CellReadable.) */
  ghost function Goals(f: Operation, kind: Kind, x: Operand, y: Operand, m: Memory): (nat, nat) -> int {
    (i: nat, c: nat) =>
      if Cell(x, i, c) < |m.x| && YCell(kind, y, i, c) < |m.y| then Apply(f, m.x[Cell(x, i, c)], m.y[YCell(kind, y, i, c)]) else 0
  }

  /** What a loop knows after some of its cells. */
  ghost predicate Underway(f: Operation, kind: Kind, z: Operand, x: Operand, y: Operand, was: seq<int>, m: Memory,
                           znow: seq<int>, now: Memory, o: Order)
    requires Readable(z, z.items)
  {
    && |was| == z.block.Length && |m.x| == x.block.Length && |m.y| == y.block.Length
    && Partial(Goals(f, kind, x, y, m), z, was, znow, o)
    && Seen(z, x, was, m.x, znow, now.x) && Seen(z, y, was, m.y, znow, now.y)
  }

  /** The next cell is computed from x and y as they were. */
  lemma {:induction false} OperandsAsBefore(f: Operation, kind: Kind, z: Operand, x: Operand, y: Operand, was: seq<int>, m: Memory,
                         znow: seq<int>, now: Memory, o: Order, i: nat, c: nat)
    requires Accepts(kind, z, x, y) && Ready(kind, z, x, y) && Underway(f, kind, z, x, y, was, m, znow, now, o)
    requires i < z.items && c < z.ncomp && !Done(o, z.ncomp, i, c)
    ensures Cell(x, i, c) < |now.x| && YCell(kind, y, i, c) < |now.y|
    ensures Apply(f, now.x[Cell(x, i, c)], now.y[YCell(kind, y, i, c)]) == Goals(f, kind, x, y, m)(i, c)
  {
    var goal := Goals(f, kind, x, y, m);
    CellReadable(z, x, i, c);
    YCellReadable(kind, z, y, i, c);
    ReadsOld(goal, z, x, was, m.x, znow, now.x, o, i, c);
    YReadsOld(goal, kind, z, y, was, m.y, znow, now.y, o, i, c);
  }

  /** One assignment to an element of z, whichever loop makes it. */
  method Store(f: Operation, kind: Kind, z: Operand, x: Operand, y: Operand, zi: nat, value: int,
               ghost was: seq<int>, ghost m: Memory, ghost o: Order, ghost o': Order)
    requires Readable(z, z.items) && zi < z.block.Length
    requires Underway(f, kind, z, x, y, was, m, z.block[..], Memory(x.block[..], y.block[..]), o)
    requires Partial(Goals(f, kind, x, y, m), z, was, z.block[..][zi := value], o')
    modifies z.block
    ensures Underway(f, kind, z, x, y, was, m, z.block[..], Memory(x.block[..], y.block[..]), o')
  {
    ghost var next := z.block[..][zi := value];
    z.block[zi] := value;
    assert z.block[..] == next;
  }

  /** The operands are packed, so that one running index serves all of them (line 137). */
  predicate Fast(kind: Kind, z: Operand, x: Operand, y: Operand) {
    Packed(z) && Packed(x) && YPacked(kind, z, y)
  }

  /** The k-th round of the contiguous loop writes the next cell. */
  lemma {:induction false} FastStep(f: Operation, kind: Kind, z: Operand, x: Operand, y: Operand, was: seq<int>, m: Memory, znow: seq<int>, now: Memory, k: nat)
    requires Accepts(kind, z, x, y) && Ready(kind, z, x, y) && Fast(kind, z, x, y) && k < z.items * z.ncomp
    requires Underway(f, kind, z, x, y, was, m, znow, now, ByItem(k))
    ensures z.view.base + k < |znow| && x.view.base + k < |now.x| && y.view.base + GetRef(kind, false, k, 0, 1) < |now.y|
    ensures Partial(Goals(f, kind, x, y, m), z, was, znow[z.view.base + k :=
      Apply(f, now.x[x.view.base + k], now.y[y.view.base + GetRef(kind, false, k, 0, 1)])], ByItem(k + 1))
  {
    hide Blas.Partial, Blas.Seen, Blas.YCell, Blas.GetRef, Goals;
    var i, c := NextCell(Goals(f, kind, x, y, m), z, was, znow, k);
    OperandsAsBefore(f, kind, z, x, y, was, m, znow, now, ByItem(k), i, c);
    PackedCell(z, i, c);
    PackedCell(x, i, c);
    YPackedCell(kind, z, y, i, c);
  }

  /** The contiguous loop (lines 138-152). */
  method FastPath(f: Operation, kind: Kind, z: Operand, x: Operand, y: Operand)
    requires Accepts(kind, z, x, y) && Ready(kind, z, x, y) && Fast(kind, z, x, y)
    modifies z.block
    ensures Pointwise(Goals(f, kind, x, y, Memory(old(x.block[..]), old(y.block[..]))), z, old(z.block[..]), z.block[..])
  {
    hide Blas.Partial, Blas.Pointwise;
    ghost var was, m := z.block[..], Memory(x.block[..], y.block[..]);
    NothingDone(Goals(f, kind, x, y, m), z, was, ByItem(0));
    var s := z.items * z.ncomp;
    for k := 0 to s
      invariant Underway(f, kind, z, x, y, was, m, z.block[..], Memory(x.block[..], y.block[..]), ByItem(k))
    {
      FastStep(f, kind, z, x, y, was, m, z.block[..], Memory(x.block[..], y.block[..]), k);
      var value := Apply(f, x.block[x.view.base + k], y.block[y.view.base + GetRef(kind, false, k, 0, 1)]);
      Store(f, kind, z, x, y, z.view.base + k, value, was, m, ByItem(k), ByItem(k + 1));
    }
    AllDone(Goals(f, kind, x, y, m), z, was, z.block[..], ByItem(s));
  }

  /** A round of the general loop for component c writes the next item's. */
  lemma {:induction false} GeneralStep(f: Operation, kind: Kind, z: Operand, x: Operand, y: Operand, was: seq<int>, m: Memory, znow: seq<int>, now: Memory,
                    j: nat, c: nat, zval: nat, xval: nat, yref: nat)
    requires Accepts(kind, z, x, y) && Ready(kind, z, x, y) && j < z.items && c < z.ncomp
    requires Underway(f, kind, z, x, y, was, m, znow, now, ByComponent(c, j))
    requires zval == ComponentOf(z, c).base + j * GetStride(BlasVec2D, z)
    requires xval == ComponentOf(x, c).base + j * GetStride(BlasVec2D, x)
    requires yref == YBase(kind, y, c) + GetRef(kind, true, j, c, GetStride(kind, y))
    ensures zval < |znow| && xval < |now.x| && yref < |now.y|
    ensures Partial(Goals(f, kind, x, y, m), z, was, znow[zval := Apply(f, now.x[xval], now.y[yref])], ByComponent(c, j + 1))
  {
    GeneralCell(z, z, j, c);
    GeneralCell(x, z, j, c);
    GeneralY(kind, y, z, j, c);
    OperandsAsBefore(f, kind, z, x, y, was, m, znow, now, ByComponent(c, j), j, c);
    WriteCell(Goals(f, kind, x, y, m), z, was, znow, ByComponent(c, j), ByComponent(c, j + 1), j, c);
  }

  /** The loop over the items for component c (lines 156-179). */
  method OneComponent(f: Operation, kind: Kind, z: Operand, x: Operand, y: Operand, c: nat, ghost was: seq<int>, ghost m: Memory)
    requires Accepts(kind, z, x, y) && Ready(kind, z, x, y) && c < z.ncomp
    requires Underway(f, kind, z, x, y, was, m, z.block[..], Memory(x.block[..], y.block[..]), ByComponent(c, 0))
    modifies z.block
    ensures Underway(f, kind, z, x, y, was, m, z.block[..], Memory(x.block[..], y.block[..]), ByComponent(c + 1, 0))
  {
    hide Blas.Partial, Blas.Seen, Blas.YCell, Blas.GetRef, Goals;
    var zstrd, xstrd, ystrd := GetStride(BlasVec2D, z), GetStride(BlasVec2D, x), GetStride(kind, y);
    var zbase, xbase, ybase := ComponentOf(z, c).base, ComponentOf(x, c).base, YBase(kind, y, c);
    var zval, xval := zbase, xbase;
    for j := 0 to z.items
      invariant zval == zbase + j * zstrd && xval == xbase + j * xstrd
      invariant Underway(f, kind, z, x, y, was, m, z.block[..], Memory(x.block[..], y.block[..]), ByComponent(c, j))
    {
      var yref := ybase + GetRef(kind, true, j, c, ystrd);
      GeneralStep(f, kind, z, x, y, was, m, z.block[..], Memory(x.block[..], y.block[..]), j, c, zval, xval, yref);
      var value := Apply(f, x.block[xval], y.block[yref]);
      Store(f, kind, z, x, y, zval, value, was, m, ByComponent(c, j), ByComponent(c, j + 1));
      StepAlong(j, zstrd);
      StepAlong(j, xstrd);
      zval, xval := zval + zstrd, xval + xstrd;
    }
    NextComponent(Goals(f, kind, x, y, m), z, was, z.block[..], c);
  }

  /** The loops over components and items (lines 155-180). */
  method GeneralPath(f: Operation, kind: Kind, z: Operand, x: Operand, y: Operand)
    requires Accepts(kind, z, x, y) && Ready(kind, z, x, y)
    modifies z.block
    ensures Pointwise(Goals(f, kind, x, y, Memory(old(x.block[..]), old(y.block[..]))), z, old(z.block[..]), z.block[..])
  {
    hide Blas.Partial, Blas.Pointwise;
    ghost var was, m := z.block[..], Memory(x.block[..], y.block[..]);
    NothingDone(Goals(f, kind, x, y, m), z, was, ByComponent(0, 0));
    for c := 0 to z.ncomp
      invariant Underway(f, kind, z, x, y, was, m, z.block[..], Memory(x.block[..], y.block[..]), ByComponent(c, 0))
    {
      OneComponent(f, kind, z, x, y, c, was, m);
    }
    AllDone(Goals(f, kind, x, y, m), z, was, z.block[..], ByComponent(z.ncomp, 0));
  }

  /** `calc`. It answers false where the source fails an assertion. */
  method Calc(f: Operation, kind: Kind, z: Operand, x: Operand, y: Operand) returns (ok: bool)
    requires Ready(kind, z, x, y)
    modifies z.block
    ensures ok == Accepts(kind, z, x, y)
    // x has z's components and y has as many or one (a value passed by pointer has none); every operand that lies on the
    // pane has z's items or stands for all of them with at most one, and one that lies on the window has one item
    ensures ok <==>
      && z.ncomp == x.ncomp && (kind == BlasVoid || y.ncomp == 1 || y.ncomp == z.ncomp)
      && (x.items == z.items || x.items <= 1)
      && (kind in {BlasScne, BlasVec2D} ==> y.items == z.items || y.items <= 1)
      && (kind in {BlasScalar, BlasVec} ==> y.items == 1)
    ensures ok ==> Pointwise(Goals(f, kind, x, y, Memory(old(x.block[..]), old(y.block[..]))), z, old(z.block[..]), z.block[..])
    ensures ok && kind == BlasVoid ==> forall i: nat, c: nat :: i < z.items && c < z.ncomp ==>
      ByValue(f, z, x, old(x.block[..]), old(y.block[y.view.base]), z.block[..], i, c)
    ensures !ok ==> z.block[..] == old(z.block[..])
  {
    if !Accepts(kind, z, x, y) {
      return false;
    }
    ghost var m := Memory(x.block[..], y.block[..]);
    if Fast(kind, z, x, y) {
      FastPath(f, kind, z, x, y);
    } else {
      GeneralPath(f, kind, z, x, y);
    }
    if kind == BlasVoid {
      forall i: nat, c: nat | i < z.items && c < z.ncomp ensures ByValue(f, z, x, m.x, m.y[y.view.base], z.block[..], i, c) {
        CellReadable(z, x, i, c);
        assert z.block[..][Addr(z.view, i, c)] == Goals(f, kind, x, y, m)(i, c);
      }
    }
    return true;
  }

  /** z(i,c) is the operation on x(i,c) and a single value, in the order asked for. */
  ghost predicate ByValue(f: Operation, z: Operand, x: Operand, xs: seq<int>, value: int, now: seq<int>, i: nat, c: nat) {
    && Cell(x, i, c) < |xs| && Addr(z.view, i, c) < |now|
    && now[Addr(z.view, i, c)] == if f.swap then f.op(value, xs[Cell(x, i, c)]) else f.op(xs[Cell(x, i, c)], value)
  }

  /** Which operand plays the part of y, and how it is addressed. */
  function Chosen(x: Argument, y: Argument): (bool, Kind) {
    if x.windowed then (true, if x.data.ncomp == 1 then BlasScalar else BlasVec)
    else if y.windowed then (false, if y.data.ncomp == 1 then BlasScalar else BlasVec)
    else if x.data.ncomp < y.data.ncomp then (true, BlasScne)
    else (false, if y.data.ncomp == 1 then BlasScne else BlasVec2D)
  }

  ghost predicate Usable(a: Argument, z: Operand) {
    if a.windowed then a.data.ncomp > 0 && a.data.view.base + (if a.data.ncomp == 1 then 1 else z.ncomp) <= a.data.block.Length
      && a.data.block != z.block
    else Readable(a.data, z.items) && NoClash(z, a.data)
  }

  /** The shapes for which the operation is defined: at most one window item, every argument has z's number of
      items and components or a single one, and the argument that is not taken for y has all of z's components. */
  predicate Fits(z: Operand, x: Argument, y: Argument) {
    && !(x.windowed && y.windowed)
    && FitsOne(z, x) && FitsOne(z, y)
    && z.ncomp == if x.windowed then y.data.ncomp else if y.windowed || x.data.ncomp >= y.data.ncomp then x.data.ncomp else y.data.ncomp
  }

  predicate FitsOne(z: Operand, a: Argument) {
    && (a.data.ncomp == 1 || a.data.ncomp == z.ncomp)
    && (if a.windowed then a.data.items == 1 else a.data.items == z.items || a.data.items <= 1)
  }

  /** z(i,c) is op of what the two arguments contributed, in the order in which they were given. */
  ghost predicate Combined(op: (int, int) -> int, x: Argument, y: Argument, z: Operand,
                           xs: seq<int>, ys: seq<int>, now: seq<int>, i: nat, c: nat)
  {
    && ContributionCell(x, i, c) < |xs| && ContributionCell(y, i, c) < |ys| && Addr(z.view, i, c) < |now|
    && now[Addr(z.view, i, c)] == op(xs[ContributionCell(x, i, c)], ys[ContributionCell(y, i, c)])
  }

  lemma {:induction false} CellIsCombined(op: (int, int) -> int, x: Argument, y: Argument, z: Operand,
                       was: seq<int>, xs: seq<int>, ys: seq<int>, now: seq<int>, i: nat, c: nat)
    requires Readable(z, z.items) && Usable(x, z) && Usable(y, z) && !(x.windowed && y.windowed) && Fits(z, x, y)
    requires |now| == |was| == z.block.Length && |xs| == x.data.block.Length && |ys| == y.data.block.Length
    requires i < z.items && c < z.ncomp
    requires var (swap, kind) := Chosen(x, y);
      if swap then
        && Accepts(kind, z, y.data, x.data)
        && YReadable(kind, x.data, z.items, z.ncomp)
        && now[Addr(z.view, i, c)] == Goals(Operation(op, swap), kind, y.data, x.data, Memory(ys, xs))(i, c)
      else
        && Accepts(kind, z, x.data, y.data)
        && YReadable(kind, y.data, z.items, z.ncomp)
        && now[Addr(z.view, i, c)] == Goals(Operation(op, swap), kind, x.data, y.data, Memory(xs, ys))(i, c)
    ensures Combined(op, x, y, z, xs, ys, now, i, c)
  {
    var (swap, kind) := Chosen(x, y);
    if swap {
      CellReadable(z, y.data, i, c);
      YCellReadable(kind, z, x.data, i, c);
    } else {
      CellReadable(z, x.data, i, c);
      YCellReadable(kind, z, y.data, i, c);
    }
  }

  /** `calcChoose` on one pane: z(i,c) = x(i,c) op y(i,c) with the operands in that order, whichever of the two is a
      window item or has a single component. It answers false where the source fails an assertion. */
  method CalcChoose(op: (int, int) -> int, x: Argument, y: Argument, z: Operand) returns (ok: bool)
    requires Readable(z, z.items) && Usable(x, z) && Usable(y, z)
    modifies z.block
    ensures ok == Fits(z, x, y)
    ensures ok ==> forall i: nat, c: nat :: i < z.items && c < z.ncomp ==>
      Combined(op, x, y, z, old(x.data.block[..]), old(y.data.block[..]), z.block[..], i, c)
    ensures forall k: nat :: k < z.block.Length && (!ok || !InCells(z.view, z.items, z.ncomp, k)) ==> z.block[k] == old(z.block[k])
  {
    if x.windowed && y.windowed {
      return false;
    }
    var (swap, kind) := Chosen(x, y);
    var first, second := if swap then y.data else x.data, if swap then x.data else y.data;
    ghost var was := z.block[..];
    ok := Calc(Operation(op, swap), kind, z, first, second);
    if ok {
      forall i: nat, c: nat | i < z.items && c < z.ncomp
        ensures Combined(op, x, y, z, old(x.data.block[..]), old(y.data.block[..]), z.block[..], i, c)
      {
        CellIsCombined(op, x, y, z, was, old(x.data.block[..]), old(y.data.block[..]), z.block[..], i, c);
      }
      assert forall k: nat :: k < z.block.Length ==> z.block[k] == z.block[..][k] && was[k] == old(z.block[k]);
    } else {
      assert forall k: nat :: k < z.block.Length ==> z.block[k] == z.block[..][k] && was[k] == old(z.block[k]);
    }
  }
}
