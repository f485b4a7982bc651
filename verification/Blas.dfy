/** What the elementwise operations share (Simpal/include/Rocblas.h): how operands are addressed, which value every cell
    is meant to get, and how far a loop over the cells has come. One pane, integer data. */
module Blas {
  import opened Arithmetic
  import opened StridedStorage

  /** How the second operand is addressed. */
  datatype Kind = BlasVoid | BlasScalar | BlasVec | BlasScne | BlasVec2D

  /** A data item as the operations see it: its memory, its layout, and its sizes.
      For BlasVoid the block holds the one value the caller passes by pointer. */
  datatype Operand = Operand(block: array<int>, view: View, items: nat, ncomp: nat)

  /** `get_stride`. */
  function GetStride(kind: Kind, a: Operand): nat {
    match kind
    case BlasScne => if a.items > 1 then a.view.strd else 0
    case BlasVec2D => if a.items > 1 then a.view.strd else 0
    case BlasVec => 0
    case _ => 1
  }

  /** `getref`: the element that is read, counted from the pointer passed in. */
  function GetRef(kind: Kind, staggered: bool, r: nat, c: nat, nc: nat): nat {
    if kind == BlasScne || (kind == BlasVec2D && staggered) then r * nc
    else if kind == BlasVec2D then r * nc + c
    else if kind == BlasVec then c
    else 0
  }

  predicate PerItem(kind: Kind) {
    kind == BlasScne || kind == BlasVec2D
  }

  // ---------- The pointwise meaning ----------

  /** Cell (i,c) of a per-item operand: one item stands for all items, one component for all components. */
  function Cell(a: Operand, i: nat, c: nat): nat {
    Addr(a.view, if a.items == 1 then 0 else i, if a.ncomp == 1 then 0 else c)
  }

  function YCell(kind: Kind, y: Operand, i: nat, c: nat): nat {
    if PerItem(kind) then Cell(y, i, c)
    else if kind == BlasVec then y.view.base + c
    else y.view.base
  }

  /** The memory of a per-item operand covers its items, and there is an item to read if any is needed. */
  ghost predicate Readable(a: Operand, length: nat) {
    && a.ncomp > 0 && (a.view.strd == 1 || a.ncomp <= a.view.strd) && (a.items > 1 ==> a.view.strd > 0)
    && Holds(a.view, a.items, a.ncomp, a.block.Length)
    && (length > 0 ==> a.items > 0)
  }

  ghost predicate YReadable(kind: Kind, y: Operand, length: nat, ndims: nat) {
    if PerItem(kind) then Readable(y, length)
    else y.ncomp > 0 && y.view.base + (if kind == BlasVec then ndims else 1) <= y.block.Length
  }

  /** Writing z does not disturb what is still to be read: the operand lies elsewhere or is z itself. */
  predicate NoClash(z: Operand, a: Operand) {
    a.block != z.block || (a.view == z.view && a.items == z.items && a.ncomp == z.ncomp)
  }

  predicate YNoClash(kind: Kind, z: Operand, y: Operand) {
    if PerItem(kind) then NoClash(z, y) else y.block != z.block
  }

  /** The order in which cells are written is given by how many of them are done. */
  datatype Order = ByItem(k: nat) | ByComponent(comp: nat, item: nat)

  predicate Done(o: Order, ncomp: nat, i: nat, c: nat) {
    match o
    case ByItem(k) => i * ncomp + c < k
    case ByComponent(cc, ii) => c < cc || (c == cc && i < ii)
  }

  /** The written cells hold their intended values, every other element of z's block is as it was. */
  ghost predicate Partial(goal: (nat, nat) -> int, z: Operand, was: seq<int>, now: seq<int>, o: Order)
    requires Readable(z, z.items) && |was| == z.block.Length
  {
    && |now| == |was|
    && (forall i: nat, c: nat :: i < z.items && c < z.ncomp ==> CellIs(goal, z, was, now, Done(o, z.ncomp, i, c), i, c))
    && (forall k: nat :: k < |was| && !InCells(z.view, z.items, z.ncomp, k) ==> now[k] == was[k])
  }

  ghost predicate CellIs(goal: (nat, nat) -> int, z: Operand, was: seq<int>, now: seq<int>, done: bool, i: nat, c: nat)
    requires Readable(z, z.items) && |now| == |was| == z.block.Length && i < z.items && c < z.ncomp
  {
    now[Addr(z.view, i, c)] == if done then goal(i, c) else was[Addr(z.view, i, c)]
  }

  /** Every cell of z holds its intended value, and nothing else has changed. */
  ghost predicate Pointwise(goal: (nat, nat) -> int, z: Operand, was: seq<int>, now: seq<int>)
    requires Readable(z, z.items) && |was| == z.block.Length
  {
    && |now| == |was|
    && (forall i: nat, c: nat :: i < z.items && c < z.ncomp ==> now[Addr(z.view, i, c)] == goal(i, c))
    && (forall k: nat :: k < |was| && !InCells(z.view, z.items, z.ncomp, k) ==> now[k] == was[k])
  }

  /** What an operand's block, once `before`, holds while z is being written. */
  ghost predicate Seen(z: Operand, a: Operand, was: seq<int>, before: seq<int>, now: seq<int>, seen: seq<int>) {
    if a.block == z.block then before == was && seen == now else seen == before
  }

  /** A per-item operand is read as it was before z was written, even when it is z itself. */
  lemma {:induction false} ReadsOld(goal: (nat, nat) -> int, z: Operand, a: Operand, was: seq<int>, before: seq<int>, now: seq<int>, seen: seq<int>,
                 o: Order, i: nat, c: nat)
    requires Readable(z, z.items) && |was| == z.block.Length && |before| == a.block.Length && NoClash(z, a)
    requires i < z.items && c < z.ncomp && !Done(o, z.ncomp, i, c) && Cell(a, i, c) < a.block.Length
    requires Partial(goal, z, was, now, o) && Seen(z, a, was, before, now, seen)
    ensures |seen| == |before| && seen[Cell(a, i, c)] == before[Cell(a, i, c)]
  {
    if a.block == z.block {
      assert CellIs(goal, z, was, now, false, i, c);
    }
  }

  /** The same for an operand of any kind. */
  lemma {:induction false} YReadsOld(goal: (nat, nat) -> int, kind: Kind, z: Operand, y: Operand, was: seq<int>, before: seq<int>, now: seq<int>,
                  seen: seq<int>, o: Order, i: nat, c: nat)
    requires Readable(z, z.items) && |was| == z.block.Length && |before| == y.block.Length && YNoClash(kind, z, y)
    requires i < z.items && c < z.ncomp && !Done(o, z.ncomp, i, c) && YCell(kind, y, i, c) < y.block.Length
    requires Partial(goal, z, was, now, o) && Seen(z, y, was, before, now, seen)
    ensures |seen| == |before| && seen[YCell(kind, y, i, c)] == before[YCell(kind, y, i, c)]
  {
    if PerItem(kind) {
      ReadsOld(goal, z, y, was, before, now, seen, o, i, c);
    }
  }

  lemma {:induction false} WriteCell(goal: (nat, nat) -> int, z: Operand, was: seq<int>, now: seq<int>, o: Order, o': Order, i: nat, c: nat)
    requires Readable(z, z.items) && |was| == z.block.Length && i < z.items && c < z.ncomp
    requires Partial(goal, z, was, now, o)
    requires forall a: nat, b: nat :: a < z.items && b < z.ncomp ==>
      (Done(o', z.ncomp, a, b) <==> Done(o, z.ncomp, a, b) || (a == i && b == c))
    ensures Addr(z.view, i, c) < |now|
    ensures Partial(goal, z, was, now[Addr(z.view, i, c) := goal(i, c)], o')
  {
    var next := now[Addr(z.view, i, c) := goal(i, c)];
    forall a: nat, b: nat | a < z.items && b < z.ncomp
      ensures CellIs(goal, z, was, next, Done(o', z.ncomp, a, b), a, b)
    {
      assert CellIs(goal, z, was, now, Done(o, z.ncomp, a, b), a, b);
      if Addr(z.view, a, b) == Addr(z.view, i, c) {
        AddrInjective(z.view, z.items, z.ncomp, |was|, a, b, i, c);
      }
    }
  }

  lemma {:induction false} NextByItem(ncomp: nat, i: nat, c: nat, a: nat, b: nat)
    requires c < ncomp && b < ncomp
    ensures Done(ByItem(i * ncomp + c + 1), ncomp, a, b) <==> Done(ByItem(i * ncomp + c), ncomp, a, b) || (a == i && b == c)
  {
    if a * ncomp + b == i * ncomp + c {
      DigitsUnique(a, b, i, c, ncomp);
    }
  }

  lemma {:induction false} NothingDone(goal: (nat, nat) -> int, z: Operand, was: seq<int>, o: Order)
    requires Readable(z, z.items) && |was| == z.block.Length && (o == ByItem(0) || o == ByComponent(0, 0))
    ensures Partial(goal, z, was, was, o)
  {
    forall i: nat, c: nat | i < z.items && c < z.ncomp ensures CellIs(goal, z, was, was, Done(o, z.ncomp, i, c), i, c) {
      assert !Done(o, z.ncomp, i, c);
    }
  }

  lemma {:induction false} NextComponent(goal: (nat, nat) -> int, z: Operand, was: seq<int>, now: seq<int>, c: nat)
    requires Readable(z, z.items) && |was| == z.block.Length && Partial(goal, z, was, now, ByComponent(c, z.items))
    ensures Partial(goal, z, was, now, ByComponent(c + 1, 0))
  {
    var o, o' := ByComponent(c, z.items), ByComponent(c + 1, 0);
    forall a: nat, b: nat | a < z.items && b < z.ncomp ensures CellIs(goal, z, was, now, Done(o', z.ncomp, a, b), a, b) {
      assert CellIs(goal, z, was, now, Done(o, z.ncomp, a, b), a, b);
    }
  }

  lemma {:induction false} AllDone(goal: (nat, nat) -> int, z: Operand, was: seq<int>, now: seq<int>, o: Order)
    requires Readable(z, z.items) && |was| == z.block.Length
    requires o == ByItem(z.items * z.ncomp) || o == ByComponent(z.ncomp, 0)
    requires Partial(goal, z, was, now, o)
    ensures Pointwise(goal, z, was, now)
  {
    forall i: nat, c: nat | i < z.items && c < z.ncomp ensures now[Addr(z.view, i, c)] == goal(i, c) {
      MulLe(i, z.items, z.ncomp);
      assert CellIs(goal, z, was, now, Done(o, z.ncomp, i, c), i, c);
    }
  }

  /** The next cell in the order of the contiguous loop. */
  lemma {:induction false} NextCell(goal: (nat, nat) -> int, z: Operand, was: seq<int>, now: seq<int>, k: nat) returns (i: nat, c: nat)
    requires Readable(z, z.items) && |was| == z.block.Length && k < z.items * z.ncomp && Partial(goal, z, was, now, ByItem(k))
    ensures i < z.items && c < z.ncomp && k == i * z.ncomp + c && !Done(ByItem(k), z.ncomp, i, c) && Addr(z.view, i, c) < |now|
    ensures Partial(goal, z, was, now[Addr(z.view, i, c) := goal(i, c)], ByItem(k + 1))
  {
    i, c := Digits(k, z.items, z.ncomp);
    forall a: nat, b: nat | a < z.items && b < z.ncomp
      ensures Done(ByItem(k + 1), z.ncomp, a, b) <==> Done(ByItem(k), z.ncomp, a, b) || (a == i && b == c)
    {
      NextByItem(z.ncomp, i, c, a, b);
    }
    WriteCell(goal, z, was, now, ByItem(k), ByItem(k + 1), i, c);
  }

  // ---------- The shapes the operations accept ----------

  /** A per-item operand has z's number of items, or one for all. */
  predicate SameItems(z: Operand, a: Operand) {
    z.items == a.items || GetStride(BlasVec2D, a) == 0
  }

  /** The same and the number of components, for an operand of any kind. */
  predicate YFits(kind: Kind, z: Operand, y: Operand) {
    && (kind == BlasVoid || y.ncomp == 1 || y.ncomp == z.ncomp)
    && (kind == BlasScalar || kind == BlasVec ==> y.items == 1)
    && (PerItem(kind) ==> z.items == y.items || GetStride(kind, y) == 0)
  }

  lemma {:induction false} CellReadable(z: Operand, a: Operand, i: nat, c: nat)
    requires Readable(a, z.items) && SameItems(z, a) && (a.ncomp == 1 || a.ncomp == z.ncomp) && i < z.items && c < z.ncomp
    ensures Cell(a, i, c) < a.block.Length
  {
    var ai: nat := if a.items == 1 then 0 else i;
    assert Addr(a.view, ai, if a.ncomp == 1 then 0 else c) < a.block.Length;
  }

  lemma {:induction false} YCellReadable(kind: Kind, z: Operand, y: Operand, i: nat, c: nat)
    requires YFits(kind, z, y) && YReadable(kind, y, z.items, z.ncomp) && i < z.items && c < z.ncomp
    ensures YCell(kind, y, i, c) < y.block.Length
  {
    if PerItem(kind) {
      CellReadable(z, y, i, c);
    }
  }

  // ---------- Where the pointers of the two paths stand ----------

  /** Several items whose components lie side by side without a gap: one running index serves all cells. */
  predicate Packed(a: Operand) {
    GetStride(BlasVec2D, a) == a.ncomp
  }

  predicate YPacked(kind: Kind, z: Operand, y: Operand) {
    && (kind == BlasVoid || (y.ncomp == z.ncomp && y.ncomp == GetStride(kind, y)))
    && kind != BlasVec && (kind == BlasScne ==> z.ncomp == 1)
  }

  lemma {:induction false} PackedCell(a: Operand, i: nat, c: nat)
    requires Packed(a) && a.ncomp > 0 && c < a.ncomp
    ensures Cell(a, i, c) == a.view.base + (i * a.ncomp + c)
  {
  }

  lemma {:induction false} YPackedCell(kind: Kind, z: Operand, y: Operand, i: nat, c: nat)
    requires YPacked(kind, z, y) && YReadable(kind, y, z.items, z.ncomp) && i < z.items && c < z.ncomp
    ensures YCell(kind, y, i, c) == y.view.base + GetRef(kind, false, i * z.ncomp + c, 0, 1)
  {
    if PerItem(kind) {
      PackedCell(y, i, c);
    }
  }

  /** The descriptor of component c, or the item itself when it has only one. */
  function ComponentOf(a: Operand, c: nat): View {
    if a.ncomp == 1 then a.view else Component(a.view, c)
  }

  /** The pointer that is moved by the item stride reaches the cell. */
  lemma {:induction false} GeneralCell(a: Operand, z: Operand, i: nat, c: nat)
    requires Readable(a, z.items) && SameItems(z, a) && i < z.items && (a.ncomp == 1 || c < a.ncomp)
    ensures Cell(a, i, c) == ComponentOf(a, c).base + i * GetStride(BlasVec2D, a)
  {
    ComponentAddr(a.view, c, i);
    ComponentAddr(a.view, c, 0);
  }

  /** Where the pointer to an operand of any kind starts for component c. */
  function YBase(kind: Kind, y: Operand, c: nat): nat {
    if PerItem(kind) then ComponentOf(y, c).base else y.view.base
  }

  lemma {:induction false} GeneralY(kind: Kind, y: Operand, z: Operand, i: nat, c: nat)
    requires YFits(kind, z, y) && YReadable(kind, y, z.items, z.ncomp) && i < z.items && c < z.ncomp
    ensures YCell(kind, y, i, c) == YBase(kind, y, c) + GetRef(kind, true, i, c, GetStride(kind, y))
  {
    if PerItem(kind) {
      GeneralCell(y, z, i, c);
    }
  }

  lemma {:induction false} StepAlong(j: nat, stride: nat)
    ensures (j + 1) * stride == j * stride + stride
  {
  }

  // ---------- Arguments of either kind ----------

  /** An argument of an operation: a data item of a pane, or a window item, whose values are contiguous. */
  datatype Argument = Argument(data: Operand, windowed: bool)

  /** The element an argument contributes to cell (i,c), whichever part it plays: window items have one item, pane items
      one per item or one for all; a single component stands for all. */
  function ContributionCell(a: Argument, i: nat, c: nat): nat {
    if a.windowed then a.data.view.base + if a.data.ncomp == 1 then 0 else c
    else Cell(a.data, i, c)
  }
}
