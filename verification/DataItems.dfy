/** The storage of a DataItem (COM/src/DataItem.C): sizes, copying in and out, allocation and appending.
    The object is a root of use-inheritance on a pane that keeps its ghosts, and its size is its own. */
module DataItems {
  import opened Arithmetic
  import opened StridedStorage

  datatype Status = NotInitialized | Set | SetConst | Allocated

  datatype Error =
    | DataItemConst | NullPointer | InvalidStride | InvalidSize | InvalidCapacity
    | ResizeOfSetArray | AppendNotAllowed | InvalidDimension | IndexOutOfBounds

  datatype Result = Ok | Err(error: Error)

  datatype Direction = CopyIn | CopyOut

  /** Where the data live: on the window, the pane, the nodes or the elements. */
  datatype Location = Windowed | Panel | Nodal | Elemental

  /** The separate descriptor of one component: the DataItem that follows its parent in the table. */
  datatype Descriptor = Descriptor(block: array?<int>, view: View)

  function Min(a: nat, b: nat): nat {
    if a < b then a else b
  }

  function Max(a: nat, b: nat): nat {
    if a < b then b else a
  }

  class DataItem {
    const id: int
    const ncomp: nat
    const loc: Location
    var nitems: int
    var ngitems: nat
    var status: Status
    var block: array?<int>
    var view: View
    var comp: seq<Descriptor>

    predicate HasComponents() {
      ncomp > 1 && id >= 0
    }

    /** size_of_items. */
    function Size(): nat
      reads this
    {
      if nitems <= 0 then 0 else nitems
    }

    ghost predicate Valid()
      reads this, block
    {
      && ncomp > 0 && |comp| == (if HasComponents() then ncomp else 0)
      && (status == NotInitialized ==> block == null && view.cap == 0)
      && (status == Allocated ==> view.base == 0 && (block == null ==> view.cap == 0))
      && (block != null ==> Holds(view, view.cap, ncomp, block.Length))
      && (HasComponents() ==> forall c :: 0 <= c < ncomp ==>
        comp[c].block == block && (block != null ==> comp[c].view == Component(view, c)))
    }

    /** Component j of item i, at the address the layout gives it. */
    ghost function Value(i: nat, j: nat): int
      requires Valid() && block != null && i < view.cap && j < ncomp
      reads this, block
    {
      block[Addr(view, i, j)]
    }

    constructor (id: int, ncomp: nat, loc: Location)
      requires ncomp > 0
      ensures Valid() && status == NotInitialized && nitems == -1 && ngitems == 0 && view == View(0, 0, 0)
      ensures this.id == id && this.ncomp == ncomp && this.loc == loc
    {
      this.id, this.ncomp, this.loc := id, ncomp, loc;
      nitems, ngitems, status, block, view := -1, 0, NotInitialized, null, View(0, 0, 0);
      comp := if ncomp > 1 && id >= 0 then seq(ncomp, _ => Descriptor(null, View(0, 0, 0))) else [];
    }

    method SetSize(n: int, ghosts: nat)
      requires Valid()
      modifies this`nitems, this`ngitems
      ensures Valid() && nitems == n && ngitems == ghosts
    {
      nitems, ngitems := n, ghosts;
    }

    /** `get_addr` of an item that is no connectivity table: through the component's own descriptor when there is one. */
    method GetAddr(i: int, j: nat) returns (r: Result, b: array?<int>, addr: nat)
      requires Valid() && (ncomp == 1 || HasComponents())
      ensures r == if j >= ncomp then Err(InvalidDimension)
        else if i < 0 || i >= Size() then Err(IndexOutOfBounds) else Ok
      ensures r == Ok ==> b == block && (b != null ==> addr == Addr(view, i, j))
    {
      b, addr := null, 0;
      if j >= ncomp {
        return Err(InvalidDimension), b, addr;
      }
      if i < 0 || i >= Size() {
        return Err(IndexOutOfBounds), b, addr;
      }
      if ncomp > 1 {
        ComponentAddr(view, j, i);
        return Ok, comp[j].block, comp[j].view.base + i * comp[j].view.strd;
      }
      return Ok, block, view.base + i * view.strd;
    }

    /** `Connectivity::get_addr`: the layout's own formula, without a check of the component. */
    method GetTableAddr(i: int, j: nat) returns (r: Result, b: array?<int>, addr: nat)
      requires Valid()
      ensures r == if i < 0 || i >= Size() then Err(IndexOutOfBounds) else Ok
      ensures r == Ok ==> b == block && addr == Addr(view, i, j)
    {
      b, addr := null, 0;
      if i < 0 || i >= Size() {
        return Err(IndexOutOfBounds), b, addr;
      }
      return Ok, block, view.base + (if view.strd == 1 then j * view.cap else j) + i * view.strd;
    }

    // ---------- copy_array ----------

    /** The array side of a copy that starts at item `offset`: the source always steps over offset * ncomp elements. */
    function From(offset: nat): View
      reads this
    {
      Shifted(view, offset, ncomp)
    }

    /** What n and strd stand for: 0 items means all of them when copying out, stride 0 means packed items. */
    function Items(n: nat, dir: Direction): nat
      reads this
    {
      if n == 0 && dir == CopyOut then Size() else n
    }

    function BufferView(base: nat, strd: nat, n: nat): View {
      View(base, if strd == 0 then ncomp else strd, n)
    }

    /** The checks of copy_array, in the order in which the source makes them. */
    function CopyCheck(buf: array?<int>, strd: nat, n: nat, offset: int, dir: Direction): Result
      reads this
    {
      if dir == CopyIn && status == SetConst then Err(DataItemConst)
      else if dir == CopyIn && n == 0 then Ok
      else if buf == null && Items(n, dir) != 0 then Err(NullPointer)
      else if strd > 1 && strd < ncomp then Err(InvalidStride)
      else if offset < 0 || Items(n, dir) + offset > view.cap then Err(InvalidSize)
      else Ok
    }

    /** How many items the copy moves. */
    function MovedItems(bview: View, n: nat, offset: nat, dir: Direction): nat
      reads this
    {
      Moved(From(offset), bview, Items(n, dir), Size(), ncomp)
    }

    /** `copy_array`. The caller vouches for the memory on both sides. */
    method CopyArray(buf: array?<int>, base: nat, strd: nat, n: nat, offset: int, dir: Direction) returns (r: Result)
      requires Valid() && (buf != null ==> buf != block)
      requires CopyCheck(buf, strd, n, offset, dir) == Ok && Items(n, dir) > 0 ==>
        && block != null
        && var b := BufferView(base, strd, Items(n, dir)); var m := MovedItems(b, n, offset, dir);
        Holds(From(offset), m, ncomp, block.Length) && Holds(b, m, ncomp, buf.Length)
      modifies if dir == CopyIn then block else buf
      ensures Valid() && r == old(CopyCheck(buf, strd, n, offset, dir))
      ensures r == Ok && Items(n, dir) > 0 ==>
        var b := BufferView(base, strd, Items(n, dir));
        var m := MovedItems(b, n, offset, dir);
        if dir == CopyIn then Copied(old(block[..]), block[..], From(offset), buf[..], b, m, ncomp)
        else Copied(old(buf[..]), buf[..], b, block[..], From(offset), m, ncomp)
      ensures (r != Ok || Items(n, dir) == 0) && block != null ==> block[..] == old(block[..])
      ensures (r != Ok || Items(n, dir) == 0) && buf != null ==> buf[..] == old(buf[..])
      // copying out without a count moves all items, and a count moves as many, except that unless both sides have the
      // same dense layout no more are moved than the item has
      ensures r == Ok && dir == CopyOut && n == 0 && Size() > 0 ==>
        && buf != null && block != null && 0 <= offset
        && Copied(old(buf[..]), buf[..], View(base, if strd == 0 then ncomp else strd, Size()), block[..],
          Shifted(view, offset, ncomp), Size(), ncomp)
      ensures r == Ok && n > 0 ==>
        && buf != null && block != null && 0 <= offset
        && var step := if strd == 0 then ncomp else strd;
          var m := if view.strd == step && (step == ncomp || (step == 1 && n == view.cap)) then n else Min(n, Size());
          if dir == CopyIn then Copied(old(block[..]), block[..], Shifted(view, offset, ncomp), buf[..], View(base, step, n), m, ncomp)
          else Copied(old(buf[..]), buf[..], View(base, step, n), block[..], Shifted(view, offset, ncomp), m, ncomp)
      // the errors, in the order of the checks
      ensures dir == CopyIn && status == SetConst ==> r == Err(DataItemConst)
      ensures dir == CopyIn && status != SetConst && n == 0 ==> r == Ok
      ensures (dir == CopyIn ==> status != SetConst && n > 0) ==>
        var count := if n == 0 then Size() else n;
        && (buf == null && count > 0 ==> r == Err(NullPointer))
        && (buf != null || count == 0 ==>
          && (strd > 1 && strd < ncomp ==> r == Err(InvalidStride))
          && (strd <= 1 || strd >= ncomp ==> r == if offset < 0 || count + offset > view.cap then Err(InvalidSize) else Ok))
    {
      hide Copied, Holds;
      if dir == CopyIn && status == SetConst {
        return Err(DataItemConst);
      }
      var count := n;
      if n == 0 {
        if dir == CopyIn {
          return Ok;
        }
        count := Size();
      }
      var step := if strd == 0 then ncomp else strd;
      if buf == null && count != 0 {
        return Err(NullPointer);
      }
      if step != 1 && step < ncomp {
        return Err(InvalidStride);
      }
      if offset < 0 || count + offset > view.cap {
        return Err(InvalidSize);
      }
      if count > 0 {
        if dir == CopyIn {
          CopyBetween(block, From(offset), buf, View(base, step, count), count, Size(), ncomp);
        } else {
          MovedSymmetric(From(offset), View(base, step, count), count, Size(), ncomp);
          CopyBetween(buf, View(base, step, count), block, From(offset), count, Size(), ncomp);
        }
      }
      return Ok;
    }

    // ---------- set_pointer and allocate ----------

    /** The descriptors of all components are pointed into the parent's block (the loops of set_pointer and allocate). */
    method PointComponents()
      requires |comp| == if HasComponents() then ncomp else 0
      modifies this`comp
      ensures |comp| == |old(comp)| && forall c :: 0 <= c < |comp| ==> comp[c] == Descriptor(block, Component(view, c))
    {
      for c := 0 to |comp|
        invariant |comp| == |old(comp)|
        invariant forall x :: 0 <= x < c ==> comp[x] == Descriptor(block, Component(view, x))
      {
        comp := comp[c := Descriptor(block, Component(view, c))];
      }
    }

    /** `set_pointer` for a whole data item. Memory the item had allocated itself is given up. The caller vouches for the
        memory; `offset` selects a component of an array of more components. */
    method SetPointer(p: array?<int>, base: nat, strd: nat, cap: nat, offset: nat, isConst: bool) returns (r: Result)
      requires Valid()
      requires p != null && (strd == 1 || ncomp <= strd) && Size() <= cap ==>
        Holds(Component(View(base, strd, cap), offset), cap, ncomp, p.Length)
      modifies this`block, this`view, this`comp, this`status
      ensures Valid()
      ensures r == if p != null && strd != 1 && strd < ncomp then Err(InvalidStride)
        else if p != null && cap < Size() then Err(InvalidCapacity) else Ok
      ensures r != Ok ==> unchanged(this)
      ensures r == Ok ==>
        && block == p && status == (if isConst then SetConst else Set)
        && view == if p == null then View(base, strd, cap) else Component(View(base, strd, cap), offset)
    {
      if p != null && strd != 1 && strd < ncomp {
        return Err(InvalidStride);
      }
      if p != null && cap < Size() {
        return Err(InvalidCapacity);
      }
      var first := base;
      if p != null && offset != 0 {
        if strd == 1 {
          first := base + offset * cap * strd;
        } else {
          first := base + offset;
        }
      }
      block, view, status := p, View(first, strd, cap), if isConst then SetConst else Set;
      PointComponents();
      return Ok;
    }

    /** The checks of allocate, for an item of the given size. */
    function AllocCheck(strd: int, cap: int, size: nat, force: bool): Result
      reads this
    {
      if strd != 1 && strd < ncomp then Err(InvalidStride)
      else if cap < size then Err(InvalidCapacity)
      else if !force && (status == Set || status == SetConst) then Err(ResizeOfSetArray)
      else Ok
    }

    /** allocate keeps the block it has when the item owns it, its stride is right and it is big enough. */
    predicate Suffices(strd: nat, cap: nat, force: bool)
      reads this
    {
      status != NotInitialized && !force && strd == view.strd &&
      Extent(strd, cap, ncomp) <= Extent(view.strd, view.cap, ncomp)
    }

    lemma {:induction false} SufficesExactly(strd: nat, cap: nat, force: bool)
      requires Valid() && (strd == 1 || ncomp <= strd)
      ensures Suffices(strd, cap, force) <==> status != NotInitialized && !force && strd == view.strd && cap <= view.cap
    {
      if strd == view.strd {
        MulLe(cap, view.cap, if strd < ncomp then ncomp else strd);
        if Extent(strd, cap, ncomp) <= Extent(strd, view.cap, ncomp) {
          ExtentGrows(strd, cap, view.cap, ncomp);
        }
      }
    }

    /** The old array as allocate reads it: through the component descriptors when there are any; else as a whole,
        as if its capacity were the one that is kept. */
    function ReadAs(cap: nat): View
      reads this
    {
      if HasComponents() then view else Kept(view, Min(view.cap, cap))
    }

    /** How many items allocate carries over to a block of the given shape. */
    function CarriedItems(strd: nat, cap: nat, size: nat): (m: nat)
      reads this
      ensures Min(Min(view.cap, cap), size) <= m <= Min(view.cap, cap)
    {
      var n := Min(view.cap, cap);
      if HasComponents() then MovedApart(View(0, strd, cap), view, n, size)
      else Moved(View(0, strd, cap), Kept(view, n), n, size, ncomp)
    }

    /** A zeroed block of the given shape; none at all when it would be empty (lines 364-371). */
    method NewBlock(strd: nat, cap: nat) returns (b: array?<int>)
      requires ncomp > 0 && (strd == 1 || ncomp <= strd)
      ensures b == null <==> cap == 0
      ensures b != null ==> fresh(b) && AllZero(b[..]) && Holds(View(0, strd, cap), cap, ncomp, b.Length)
    {
      var size := Extent(strd, cap, ncomp);
      if size == 0 {
        ExtentGrows(if strd == 0 then 1 else strd, cap, 0, ncomp);
        return null;
      }
      ExtentHolds(strd, cap, ncomp);
      b := new int[size](_ => 0);
    }

    /** A new block of the given shape, filled with what the old block held if it is to be kept (lines 360-399). */
    method Replace(strd: nat, cap: nat, keep: bool)
      requires Valid() && (strd == 1 || ncomp <= strd) && Size() <= cap
      requires keep && view.cap > 0 ==> block != null
      modifies this`block, this`view, this`comp
      ensures view == View(0, strd, cap) && (block == null <==> cap == 0) && (block != null ==> fresh(block))
      ensures block != null ==> Holds(view, cap, ncomp, block.Length)
      ensures |comp| == |old(comp)| && forall c :: 0 <= c < |comp| ==> comp[c] == Descriptor(block, Component(view, c))
      ensures block != null ==>
        if keep && old(view).cap > 0 then
          Carried(old(block[..]), old(ReadAs(cap)), block[..], view, old(CarriedItems(strd, cap, Size())), ncomp)
        else AllZero(block[..])
    {
      var b := NewBlock(strd, cap);
      var v := View(0, strd, cap);
      if b != null && keep && view.cap > 0 {
        if HasComponents() {
          CarryComponents(b, v, block, comp, view, Size(), ncomp);
        } else {
          CarryWhole(b, v, block, view, Size(), ncomp);
        }
      }
      block, view := b, v;
      PointComponents();
    }

    /** `allocate`. What the item held is carried over; everything else in a new block is zero. */
    method Allocate(strd: int, cap: int, force: bool) returns (r: Result)
      requires Valid()
      modifies this`block, this`view, this`comp, this`status
      ensures Valid() && r == old(AllocCheck(strd, cap, Size(), force))
      // the errors, in the order of the checks
      ensures strd != 1 && strd < ncomp ==> r == Err(InvalidStride)
      ensures (strd == 1 || strd >= ncomp) && cap < Size() ==> r == Err(InvalidCapacity)
      ensures (strd == 1 || strd >= ncomp) && cap >= Size() ==>
        r == if !force && old(status) in {Set, SetConst} then Err(ResizeOfSetArray) else Ok
      ensures r != Ok ==> unchanged(this)
      // a request of the same stride within the capacity changes nothing; every other one replaces the block
      ensures r == Ok ==>
        if !force && old(status) == Allocated && strd == old(view).strd && cap <= old(view).cap then unchanged(this)
        else status == Allocated && view == View(0, strd, cap) && (block != null ==> fresh(block))
      ensures r == Ok && !(!force && old(status) == Allocated && strd == old(view).strd && cap <= old(view).cap) && block != null ==>
        if force || old(status) == NotInitialized || old(view).cap == 0 then AllZero(block[..])
        else Carried(old(block[..]), old(ReadAs(cap)), block[..], view, old(CarriedItems(strd, cap, Size())), ncomp)
    {
      if strd != 1 && strd < ncomp {
        return Err(InvalidStride);
      }
      if cap < Size() {
        return Err(InvalidCapacity);
      }
      if !force && (status == Set || status == SetConst) {
        return Err(ResizeOfSetArray);
      }
      SufficesExactly(strd, cap, force);
      if !Suffices(strd, cap, force) {
        Replace(strd, cap, status != NotInitialized && !force);
        status := Allocated;
      }
      return Ok;
    }

    /** The size with which `Pane::reinit_dataitem` works: 1 for a window item whose size is not set. */
    function SizeFor(): nat
      reads this
    {
      if nitems < 0 then 1 else nitems
    }

    /** The capacity and the stride that it puts in place of the defaults. */
    function DefaultCap(cap: nat, size: nat): nat
      reads this
    {
      if cap != 0 then cap
      else if view.cap == 0 then size
      else if size <= view.cap then view.cap
      else size + size / 5
    }

    function DefaultStride(strd: int): int
      reads this
    {
      if strd == 0 || (strd < 0 && view.strd == 0) then ncomp else if strd < 0 then view.strd else strd
    }

    /** `Pane::reinit_dataitem` for a resize, from its lines 347-375 on: the size is set. */
    method ResizeSet(strd: int, cap: nat) returns (r: Result)
      requires Valid() && nitems >= 0
      modifies this`block, this`view, this`comp, this`status
      ensures Valid() && r == old(AllocCheck(DefaultStride(strd), DefaultCap(cap, nitems), nitems, false))
      ensures r != Ok ==> unchanged(this)
      ensures r == Ok ==>
        if old(status) == Allocated && old(DefaultStride(strd)) == old(view).strd && old(DefaultCap(cap, nitems)) <= old(view).cap
        then unchanged(this) else view == View(0, old(DefaultStride(strd)), old(DefaultCap(cap, nitems)))
      ensures r == Ok ==>
        status == Allocated && view.strd == old(DefaultStride(strd)) && view.cap >= old(DefaultCap(cap, nitems)) &&
        (unchanged(this) || (view.base == 0 && (block != null ==> fresh(block))))
      ensures r == Ok && !unchanged(this) && block != null ==>
        if old(view).cap == 0 then AllZero(block[..])
        else
          Carried(old(block[..]), old(ReadAs(DefaultCap(cap, nitems))), block[..], view,
            old(CarriedItems(DefaultStride(strd), DefaultCap(cap, nitems), nitems)), ncomp)
    {
      hide Carried, AllZero, Holds, Extent, ReadAs, CarriedItems;
      var c: int := cap;
      if c == 0 {
        if view.cap == 0 {
          c := nitems;
        } else if nitems <= view.cap {
          c := view.cap;
        } else {
          c := nitems + nitems / 5;
        }
      }
      var s := if strd == 0 || (strd < 0 && view.strd == 0) then ncomp else if strd < 0 then view.strd else strd;
      r := Allocate(s, c, false);
    }

    /** `Pane::reinit_dataitem` for a resize: only a window item may come without a size, and then gets size 1. */
    method Resize(strd: int, cap: nat) returns (r: Result)
      requires Valid()
      modifies this
      ensures Valid()
      ensures r == if old(nitems) < 0 && loc != Windowed then Err(InvalidSize)
        else old(AllocCheck(DefaultStride(strd), DefaultCap(cap, SizeFor()), SizeFor(), false))
      ensures if old(nitems) < 0 && loc == Windowed then nitems == 1 && ngitems == 0
        else nitems == old(nitems) && ngitems == old(ngitems)
      ensures r != Ok ==> block == old(block) && view == old(view) && comp == old(comp) && status == old(status)
      ensures r == Ok ==> status == Allocated && view.strd == old(DefaultStride(strd)) && view.cap >= old(DefaultCap(cap, SizeFor()))
      // with the defaults written out
      ensures old(nitems) >= 0 || loc == Windowed ==>
        var size := if old(nitems) < 0 then 1 else old(nitems);
        var s := if strd == 0 || (strd < 0 && old(view).strd == 0) then ncomp else if strd < 0 then old(view).strd else strd;
        var c := if cap > 0 then cap else if old(view).cap == 0 || old(view).cap >= size then Max(size, old(view).cap) else size + size / 5;
        && (s != 1 && s < ncomp ==> r == Err(InvalidStride))
        && ((s == 1 || s >= ncomp) && c < size ==> r == Err(InvalidCapacity))
        && ((s == 1 || s >= ncomp) && c >= size ==> r == if old(status) in {Set, SetConst} then Err(ResizeOfSetArray) else Ok)
        && (r == Ok ==>
          if old(status) == Allocated && s == old(view).strd && c <= old(view).cap then block == old(block) && view == old(view)
          else view == View(0, s, c))
      ensures r == Ok && block == old(block) ==> view == old(view) || block == null
      ensures r == Ok && block != old(block) && block != null ==>
        && fresh(block)
        && if old(view).cap == 0 then AllZero(block[..])
          else
            Carried(old(block[..]), old(ReadAs(DefaultCap(cap, SizeFor()))), block[..], view,
              old(CarriedItems(DefaultStride(strd), DefaultCap(cap, SizeFor()), SizeFor())), ncomp)
    {
      hide Carried, AllZero, Holds;
      if nitems < 0 {
        if loc != Windowed {
          return Err(InvalidSize);
        }
        SetSize(1, 0);
      }
      r := ResizeSet(strd, cap);
    }

    // ---------- Appending ----------

    /** The memory covers the item's size. */
    predicate Covered()
      reads this
    {
      Size() <= view.cap && (Size() > 0 ==> block != null)
    }

    /** The items as values. */
    ghost function Contents(): (q: seq<seq<int>>)
      requires Valid() && Covered()
      reads this, block
      ensures |q| == Size()
    {
      if Size() == 0 then [] else RowsOf(block[..], view, 0, Size(), ncomp)
    }

    /** What append_array answers. */
    function AppendCheck(buf: array?<int>, strd: nat, n: nat): Result
      reads this
    {
      if loc.Nodal? || loc.Elemental? || ngitems != 0 then Err(AppendNotAllowed)
      else CopyCheck(buf, strd, n, Size(), CopyIn)
    }

    /** `append_array` of the data item itself, for any layout on both sides. */
    method AppendItems(buf: array?<int>, base: nat, strd: nat, n: nat) returns (r: Result)
      requires Valid() && (buf != null ==> buf != block)
      requires AppendCheck(buf, strd, n) == Ok && n > 0 ==>
        && block != null
        && var b := BufferView(base, strd, n); var m := MovedItems(b, n, Size(), CopyIn);
        Holds(From(Size()), m, ncomp, block.Length) && Holds(b, m, ncomp, buf.Length)
      modifies this`nitems, this`ngitems, block
      ensures Valid() && r == old(AppendCheck(buf, strd, n))
      ensures r == Ok <==>
        && loc in {Windowed, Panel} && old(ngitems) == 0 && status != SetConst
        && (n == 0 || (buf != null && (strd <= 1 || strd >= ncomp) && old(Size()) + n <= view.cap))
      ensures r == Err(AppendNotAllowed) <==> loc in {Nodal, Elemental} || old(ngitems) != 0
      ensures r != Ok ==> nitems == old(nitems) && ngitems == old(ngitems) && (block != null ==> block[..] == old(block[..]))
      ensures r == Ok ==> nitems == old(Size()) + n && ngitems == 0
      ensures r == Ok && n == 0 && block != null ==> block[..] == old(block[..])
      ensures r == Ok && n > 0 ==>
        var b := BufferView(base, strd, n);
        Copied(old(block[..]), block[..], From(old(Size())), buf[..], b, old(MovedItems(b, n, Size(), CopyIn)), ncomp)
      ensures r == Ok && n > 0 ==>
        && buf != null && block != null
        && var step := if strd == 0 then ncomp else strd;
          var m := if view.strd == step && (step == ncomp || (step == 1 && n == view.cap)) then n else Min(n, old(Size()));
          Copied(old(block[..]), block[..], Shifted(view, old(Size()), ncomp), buf[..], View(base, step, n), m, ncomp)
    {
      hide Copied, Holds;
      if loc.Nodal? || loc.Elemental? || ngitems != 0 {
        return Err(AppendNotAllowed);
      }
      var offset := Size();
      r := CopyArray(buf, base, strd, n, offset, CopyIn);
      if r == Ok {
        SetSize(offset + n, 0);
      }
    }

    /** The resizing step of `ComponentInterface::append_array`. */
    method MakeRoom(n: nat) returns (r: Result)
      requires Valid() && nitems >= 0 && view.strd in {0, ncomp} && Covered()
      modifies this
      ensures Valid() && unchanged(this`nitems) && unchanged(this`ngitems)
      ensures r == if old(status) in {Set, SetConst} then Err(ResizeOfSetArray) else Ok
      ensures r != Ok ==> unchanged(this`block) && unchanged(this`view) && unchanged(this`comp) && unchanged(this`status)
      ensures r == Ok ==> status == Allocated && view.strd == ncomp && Size() + n <= view.cap && (Size() + n > 0 ==> block != null)
      ensures block == old(block) || (block != null ==> fresh(block))
      ensures Covered() && Contents() == old(Contents())
    {
      ghost var n0, v0 := Size(), view;
      ghost var readAs := ReadAs(DefaultCap(Size() + n, Size()));
      r := Resize(view.strd, Size() + n);
      if n0 > 0 && block != old(block) {
        CarriedRows(old(block[..]), v0, readAs, block[..], view, old(CarriedItems(ncomp, DefaultCap(Size() + n, Size()), Size())), n0, ncomp);
      }
    }

    /** The items of the buffer that an append to packed items moves. */
    ghost function Appended(buf: array<int>, base: nat, strd: nat, n: nat, size: nat): (q: seq<seq<int>>)
      requires ncomp > 0 && Holds(BufferView(base, strd, n), n, ncomp, buf.Length)
      reads this, buf
    {
      var b := BufferView(base, strd, n);
      RowsOf(buf[..], b, 0, Moved(From(size), b, n, size, ncomp), ncomp)
    }

    /** `append_array` of the data item itself, when its items are packed and there is room for n more. */
    method AppendRows(buf: array<int>, base: nat, strd: nat, n: nat) returns (r: Result)
      requires Valid() && status == Allocated && buf != block && view.strd == ncomp
      requires Size() + n <= view.cap && (Size() + n > 0 ==> block != null)
      requires strd <= 1 || ncomp <= strd ==> Holds(BufferView(base, strd, n), n, ncomp, buf.Length)
      modifies this`nitems, this`ngitems, block
      ensures Valid() && ngitems == old(ngitems) && Covered()
      ensures r == if loc.Nodal? || loc.Elemental? || ngitems != 0 then Err(AppendNotAllowed)
        else if n > 0 && strd > 1 && strd < ncomp then Err(InvalidStride) else Ok
      ensures r != Ok || n == 0 ==> Contents() == old(Contents())
      ensures r == Ok && n > 0 ==> Grown(old(Contents()), Contents(), n, Appended(buf, base, strd, n, old(Size())))
    {
      hide Holds, RowsOf, Copied, Moved, Grown, Shifted;
      ghost var size, was, b := Size(), if block != null then block[..] else [], BufferView(base, strd, n);
      ghost var m := Moved(From(size), b, n, size, ncomp);
      MovedAtMost(From(size), b, n, size, ncomp);
      if n > 0 && (strd <= 1 || ncomp <= strd) {
        ShiftedHolds(view, size, m, ncomp, block.Length);
        HoldsFewer(b, n, m, ncomp, buf.Length);
      }
      r := AppendItems(buf, base, strd, n);
      if r == Ok && n > 0 {
        AppendedRows(was, block[..], view, buf[..], b, size, m, n, ncomp);
      }
    }

    /** `ComponentInterface::append_array`: make room for n more items, then copy them to the back.
        Stated for an item whose components are packed and whose memory covers its size. */
    method AppendArray(buf: array<int>, base: nat, strd: nat, n: nat) returns (r: Result)
      requires Valid() && buf != block && view.strd in {0, ncomp} && Covered()
      requires strd <= 1 || ncomp <= strd ==> Holds(BufferView(base, strd, n), n, ncomp, buf.Length)
      modifies this, block
      ensures Valid() && ngitems == (if old(nitems) < 0 then 0 else old(ngitems))
      ensures block == old(block) || (block != null ==> fresh(block))
      ensures r ==
        if old(status) in {Set, SetConst} then Err(ResizeOfSetArray)
        else if loc.Nodal? || loc.Elemental? || ngitems != 0 then Err(AppendNotAllowed)
        else if n > 0 && strd > 1 && strd < ncomp then Err(InvalidStride) else Ok
      ensures view.strd in {0, ncomp} && Covered()
      ensures r != Ok ==> Contents() == old(Contents())
      ensures r == Ok ==> status == Allocated && view.strd == ncomp
      ensures r == Ok ==>
        if n == 0 then Contents() == old(Contents())
        else Grown(old(Contents()), Contents(), n, Appended(buf, base, strd, n, old(Size())))
    {
      hide Holds, RowsOf, Grown, Appended;
      if nitems < 0 {
        SetSize(0, 0);
      }
      r := MakeRoom(n);
      if r == Ok {
        r := AppendRows(buf, base, strd, n);
      }
    }

    /** One append of packed items to an item that may be resized. */
    method AppendPacked(buf: array<int>, n: nat)
      requires Valid() && status in {NotInitialized, Allocated} && loc in {Windowed, Panel} && ngitems == 0
      requires view.strd in {0, ncomp} && Covered() && buf != block && Holds(PackedView(ncomp, n), n, ncomp, buf.Length)
      modifies this, block
      ensures Valid() && status == Allocated && ngitems == 0 && view.strd == ncomp && Covered()
      ensures block == old(block) || (block != null ==> fresh(block))
      ensures Contents() == old(Contents()) + RowsOf(buf[..], PackedView(ncomp, n), 0, n, ncomp)
    {
      hide Holds, RowsOf, Contents, Moved, Grown;
      ghost var size, was := Size(), Contents();
      var r := AppendArray(buf, 0, ncomp, n);
      MovedAtMost(From(size), BufferView(0, ncomp, n), n, size, ncomp);
      if n > 0 {
        GrownWhole(was, Contents(), n, Appended(buf, 0, ncomp, n, size));
      }
    }

    /** Any number of appends of packed items, whatever reallocations they cause, leaves exactly the old items
        followed by all the appended ones. */
    method AppendAll(bufs: seq<array<int>>, counts: seq<nat>)
      requires Valid() && status in {NotInitialized, Allocated} && loc in {Windowed, Panel} && ngitems == 0
      requires view.strd in {0, ncomp} && Covered() && |bufs| == |counts|
      requires forall x :: 0 <= x < |bufs| ==> bufs[x] != block && Holds(PackedView(ncomp, counts[x]), counts[x], ncomp, bufs[x].Length)
      modifies this, block
      ensures Valid() && Covered()
      ensures Contents() == old(Contents()) + AllRows(old(Snapshots(bufs)), counts, ncomp, |bufs|)
    {
      hide *;
      ghost var start, shots := Contents(), Snapshots(bufs);
      NoRows(start, shots, counts, ncomp);
      for k := 0 to |bufs|
        invariant Valid() && status in {NotInitialized, Allocated} && ngitems == 0
        invariant view.strd in {0, ncomp} && Covered()
        invariant block == old(block) || (block != null ==> fresh(block))
        invariant Contents() == start + AllRows(shots, counts, ncomp, k)
      {
        AppendPacked(bufs[k], counts[k]);
        MoreRows(start, shots, counts, ncomp, k);
      }
    }
  }

  function PackedView(ncomp: nat, n: nat): View {
    View(0, ncomp, n)
  }

  /** What the buffers hold. */
  ghost function Snapshots(bufs: seq<array<int>>): (r: seq<seq<int>>)
    reads bufs
    ensures |r| == |bufs| && forall k :: 0 <= k < |bufs| ==> r[k] == bufs[k][..]
  {
    if bufs == [] then [] else Snapshots(bufs[..|bufs| - 1]) + [bufs[|bufs| - 1][..]]
  }

  /** The rows of the first k buffers, one buffer after the other. */
  ghost function AllRows(shots: seq<seq<int>>, counts: seq<nat>, ncomp: nat, k: nat): seq<seq<int>>
    requires k <= |shots| == |counts|
    requires forall x :: 0 <= x < |shots| ==> Holds(PackedView(ncomp, counts[x]), counts[x], ncomp, |shots[x]|)
  {
    if k == 0 then []
    else AllRows(shots, counts, ncomp, k - 1) + RowsOf(shots[k - 1], PackedView(ncomp, counts[k - 1]), 0, counts[k - 1], ncomp)
  }

  lemma {:induction false} NoRows(start: seq<seq<int>>, shots: seq<seq<int>>, counts: seq<nat>, ncomp: nat)
    requires |shots| == |counts|
    requires forall x :: 0 <= x < |shots| ==> Holds(PackedView(ncomp, counts[x]), counts[x], ncomp, |shots[x]|)
    ensures start + AllRows(shots, counts, ncomp, 0) == start
  {
    assert start + [] == start;
  }

  lemma {:induction false} MoreRows(start: seq<seq<int>>, shots: seq<seq<int>>, counts: seq<nat>, ncomp: nat, k: nat)
    requires k < |shots| == |counts|
    requires forall x :: 0 <= x < |shots| ==> Holds(PackedView(ncomp, counts[x]), counts[x], ncomp, |shots[x]|)
    ensures start + AllRows(shots, counts, ncomp, k) + RowsOf(shots[k], PackedView(ncomp, counts[k]), 0, counts[k], ncomp)
         == start + AllRows(shots, counts, ncomp, k + 1)
  {
  }

  /** The array as copy_array addresses it from item `offset` on. */
  function Shifted(v: View, offset: nat, ncomp: nat): View {
    v.(base := v.base + offset * ncomp)
  }

  lemma {:induction false} ShiftedHolds(v: View, offset: nat, rows: nat, ncomp: nat, len: nat)
    requires Holds(v, v.cap, ncomp, len) && v.strd == ncomp > 0 && offset + rows <= v.cap && (rows > 0 || offset == 0)
    ensures Holds(Shifted(v, offset, ncomp), rows, ncomp, len)
  {
    OffsetExact(v, offset, ncomp);
    forall i: nat, j: nat | i < rows && j < ncomp ensures Addr(Shifted(v, offset, ncomp), i, j) < len {
      assert Addr(v, offset + i, j) < len;
    }
    if rows > 0 {
      assert Addr(v, offset + 0, 0) < len;
      assert Addr(Shifted(v, offset, ncomp), 0, 0) < len;
    }
  }

  lemma {:induction false} CarriedRows(was: seq<int>, s: View, readAs: View, now: seq<int>, d: View, m: nat, n: nat, ncomp: nat)
    requires Holds(s, s.cap, ncomp, |was|) && s.strd == ncomp > 0 && readAs == Kept(s, readAs.cap)
    requires n <= m <= readAs.cap <= s.cap && Carried(was, readAs, now, d, m, ncomp)
    ensures RowsOf(now, d, 0, n, ncomp) == RowsOf(was, s, 0, n, ncomp)
  {
    KeptHolds(s, readAs.cap, ncomp, |was|);
    forall i: nat | i < n ensures RowsOf(now, d, 0, n, ncomp)[i] == RowsOf(was, s, 0, n, ncomp)[i] {
      forall j: nat | j < ncomp ensures now[Addr(d, i, j)] == was[Addr(s, i, j)] {
        assert Addr(readAs, i, j) == Addr(s, i, j);
      }
    }
  }

  /** An append to packed items copies all n of them exactly when the buffer is packed too,
      or when there are no more new items than there were old ones. */
  lemma {:induction false} AppendComplete(v: View, b: View, n: nat, size: nat, ncomp: nat)
    requires v.strd == ncomp
    ensures Moved(Shifted(v, size, ncomp), b, n, size, ncomp) == n <==> b.strd == ncomp || n <= size
  {
  }

  /** n items follow the old ones, and the first of them are the given ones. */
  ghost predicate Grown(was: seq<seq<int>>, now: seq<seq<int>>, n: nat, more: seq<seq<int>>) {
    |now| == |was| + n && |more| <= n && now[..|was|] == was && now[|was|..][..|more|] == more
  }

  lemma {:induction false} GrownWhole(was: seq<seq<int>>, now: seq<seq<int>>, n: nat, more: seq<seq<int>>)
    requires Grown(was, now, n, more) && |more| == n
    ensures now == was + more
  {
    assert now == now[..|was|] + now[|was|..][..n];
  }

  /** Copying to the items from `offset` on leaves the earlier items alone. */
  lemma {:induction false} AppendedRows(was: seq<int>, now: seq<int>, v: View, buf: seq<int>, b: View, offset: nat, m: nat, n: nat, ncomp: nat)
    requires Holds(v, v.cap, ncomp, |was|) && v.strd == ncomp > 0 && offset + n <= v.cap && m <= n && |now| == |was|
    requires Holds(Shifted(v, offset, ncomp), m, ncomp, |was|) && Holds(b, m, ncomp, |buf|)
    requires Copied(was, now, Shifted(v, offset, ncomp), buf, b, m, ncomp)
    ensures Grown(RowsOf(was, v, 0, offset, ncomp), RowsOf(now, v, 0, offset + n, ncomp), n, RowsOf(buf, b, 0, m, ncomp))
  {
    OffsetExact(v, offset, ncomp);
    var w := Shifted(v, offset, ncomp);
    var rows := RowsOf(now, v, 0, offset + n, ncomp);
    forall i: nat | i < offset ensures rows[i] == RowsOf(was, v, 0, offset, ncomp)[i] {
      forall j: nat | j < ncomp ensures now[Addr(v, i, j)] == was[Addr(v, i, j)] {
        if InCells(w, m, ncomp, Addr(v, i, j)) {
          var x: nat, y: nat :| x < m && y < ncomp && Addr(w, x, y) == Addr(v, i, j);
          AddrInjective(v, v.cap, ncomp, |was|, offset + x, y, i, j);
        }
      }
    }
    forall i: nat | i < m ensures rows[offset + i] == RowsOf(buf, b, 0, m, ncomp)[i] {
      forall j: nat | j < ncomp ensures now[Addr(v, offset + i, j)] == buf[Addr(b, i, j)] {
        assert Addr(w, i, j) == Addr(v, offset + i, j);
      }
    }
  }

  /** Items from..to of an array, as values. */
  ghost function RowsOf(blk: seq<int>, v: View, from: nat, to: nat, ncomp: nat): (q: seq<seq<int>>)
    requires from <= to && Holds(v, to, ncomp, |blk|)
    ensures |q| == to - from
    ensures forall i: nat :: i < to - from ==> |q[i]| == ncomp && forall j: nat :: j < ncomp ==> q[i][j] == blk[Addr(v, from + i, j)]
  {
    seq(to - from, i requires 0 <= i < to - from => seq(ncomp, j requires 0 <= j < ncomp => blk[Addr(v, from + i, j)]))
  }

  lemma {:induction false} ExtentGrows(strd: nat, cap: nat, cap': nat, ncomp: nat)
    requires strd > 0 && Extent(strd, cap, ncomp) <= Extent(strd, cap', ncomp)
    ensures cap <= cap'
  {
    MulLe(cap', cap, if strd < ncomp then ncomp else strd);
  }

  function Zeros(n: nat): seq<int> {
    seq(n, _ => 0)
  }

  ghost predicate AllZero(blk: seq<int>) {
    blk == Zeros(|blk|)
  }

  /** The block `now` is a zeroed block into which m items of the old one have been copied, and nothing else. */
  ghost predicate Carried(was: seq<int>, s: View, now: seq<int>, d: View, m: nat, ncomp: nat) {
    && m <= d.cap && Holds(d, d.cap, ncomp, |now|) && Holds(d, m, ncomp, |now|) && Holds(s, m, ncomp, |was|)
    && Copied(Zeros(|now|), now, d, was, s, m, ncomp)
  }

  /** So the first m items have their old values, and all later ones are zero. */
  lemma {:induction false} CarriedCell(was: seq<int>, s: View, now: seq<int>, d: View, m: nat, ncomp: nat, i: nat, j: nat)
    requires Carried(was, s, now, d, m, ncomp) && i < d.cap && j < ncomp
    ensures now[Addr(d, i, j)] == if i < m then was[Addr(s, i, j)] else 0
  {
    if i >= m && InCells(d, m, ncomp, Addr(d, i, j)) {
      var x: nat, y: nat :| x < m && y < ncomp && Addr(d, x, y) == Addr(d, i, j);
      AddrInjective(d, d.cap, ncomp, |now|, x, y, i, j);
    }
  }

  /** The kept part of the old array is read at the right addresses exactly when the array is not stored component
      by component, or has one component, or all of its capacity is kept. */
  lemma {:induction false} KeptExact(s: View, n: nat, ncomp: nat)
    requires 0 < n <= s.cap && ncomp > 0
    ensures (forall i: nat, j: nat :: i < n && j < ncomp ==> Addr(Kept(s, n), i, j) == Addr(s, i, j))
      <==> ncomp == 1 || s.strd != 1 || n == s.cap
  {
    if ncomp > 1 && s.strd == 1 && n != s.cap {
      assert Addr(Kept(s, n), 0, 1) == s.base + n && Addr(s, 0, 1) == s.base + s.cap;
    }
  }

  /** copy_array with an offset reaches the items from `offset` on exactly when the items are packed (or there is
      no offset). */
  lemma {:induction false} OffsetExact(v: View, offset: nat, ncomp: nat)
    requires ncomp > 0 && (v.strd == 1 || ncomp <= v.strd)
    ensures (forall i: nat, j: nat :: j < ncomp ==> Addr(Shifted(v, offset, ncomp), i, j) == Addr(v, offset + i, j))
      <==> offset == 0 || v.strd == ncomp
  {
    var w := Shifted(v, offset, ncomp);
    if offset == 0 || v.strd == ncomp {
      forall i: nat, j: nat | j < ncomp ensures Addr(w, i, j) == Addr(v, offset + i, j) {
        assert (offset + i) * v.strd == offset * v.strd + i * v.strd;
      }
    } else {
      MulStrict(offset, ncomp, if v.strd == 1 then 1 else v.strd);
      assert Addr(w, 0, 0) != Addr(v, offset + 0, 0);
    }
  }

  lemma {:induction false} MulStrict(o: nat, a: nat, b: nat)
    requires o > 0 && a != b
    ensures o * a != o * b
  {
    if a < b {
      MulLe(a, b, o);
      assert o * a == a * o && o * b == b * o;
    } else {
      MulLe(b, a, o);
      assert o * a == a * o && o * b == b * o;
    }
  }

  // ---------- Carrying values over to a new block ----------

  /** The old array as a table that is copied as a whole sees it: with the capacity that is kept. */
  function Kept(s: View, n: nat): View {
    s.(cap := n)
  }

  lemma {:induction false} KeptAddrLe(s: View, n: nat, i: nat, j: nat)
    requires n <= s.cap
    ensures Addr(Kept(s, n), i, j) <= Addr(s, i, j)
  {
    MulLe(n, s.cap, j);
    assert n * j == j * n && s.cap * j == j * s.cap;
  }

  lemma {:induction false} KeptHolds(s: View, n: nat, ncomp: nat, len: nat)
    requires Holds(s, s.cap, ncomp, len) && n <= s.cap
    ensures Holds(Kept(s, n), n, ncomp, len)
    ensures ncomp == 1 || s.strd != 1 || n == s.cap ==> forall i: nat, j: nat :: j < ncomp ==> Addr(Kept(s, n), i, j) == Addr(s, i, j)
  {
    forall i: nat, j: nat | i < n && j < ncomp ensures Addr(Kept(s, n), i, j) < len {
      assert Addr(s, i, j) < len;
      KeptAddrLe(s, n, i, j);
    }
  }

  /** Lines 378-379: scalars and connectivity tables are copied as a whole into the zeroed block. */
  method CarryWhole(dst: array<int>, d: View, src: array<int>, s: View, nitems: nat, ncomp: nat)
    requires dst != src && ncomp > 0 && nitems <= d.cap && Holds(s, s.cap, ncomp, src.Length)
    requires Holds(d, d.cap, ncomp, dst.Length) && AllZero(dst[..])
    modifies dst
    ensures var k := Kept(s, Min(s.cap, d.cap)); Carried(src[..], k, dst[..], d, Moved(d, k, k.cap, nitems, ncomp), ncomp)
  {
    var n := Min(s.cap, d.cap);
    ghost var m := Moved(d, Kept(s, n), n, nitems, ncomp);
    KeptHolds(s, n, ncomp, src.Length);
    HoldsFewer(d, d.cap, m, ncomp, dst.Length);
    HoldsFewer(Kept(s, n), n, m, ncomp, src.Length);
    CopyBetween(dst, d, src, Kept(s, n), n, nitems, ncomp);
  }

  /** How many items are moved when every component is copied on its own: the same number for all of them. */
  function MovedApart(d: View, s: View, n: nat, nitems: nat): nat {
    Moved(Component(d, 0), Kept(Component(s, 0), n), n, nitems, 1)
  }

  /** The first components of m items have been transferred, and nothing else. */
  ghost predicate CarriedUpTo(was: seq<int>, now: seq<int>, d: View, src: seq<int>, s: View, m: nat, ncomp: nat, upTo: nat)
    requires Holds(d, m, ncomp, |was|) && Holds(s, m, ncomp, |src|)
  {
    && |now| == |was|
    && (forall i: nat, j: nat :: i < m && j < ncomp ==>
      now[Addr(d, i, j)] == if j < upTo then src[Addr(s, i, j)] else was[Addr(d, i, j)])
    && (forall k: nat :: k < |was| && !InCells(d, m, ncomp, k) ==> now[k] == was[k])
  }

  lemma {:induction false} CarryOne(was: seq<int>, mid: seq<int>, now: seq<int>, d: View, src: seq<int>, s: View, n: nat, m: nat, ncomp: nat, c: nat)
    requires Holds(d, m, ncomp, |was|) && Holds(s, m, ncomp, |src|) && c < ncomp
    requires CarriedUpTo(was, mid, d, src, s, m, ncomp, c)
    requires Holds(Component(d, c), m, 1, |mid|) && Holds(Kept(Component(s, c), n), m, 1, |src|)
    requires Copied(mid, now, Component(d, c), src, Kept(Component(s, c), n), m, 1)
    ensures CarriedUpTo(was, now, d, src, s, m, ncomp, c + 1)
  {
    var dc, sc := Component(d, c), Kept(Component(s, c), n);
    forall i: nat, j: nat | i < m && j < ncomp
      ensures now[Addr(d, i, j)] == if j < c + 1 then src[Addr(s, i, j)] else was[Addr(d, i, j)]
    {
      ComponentAddr(d, j, i);
      ComponentAddr(s, j, i);
      if j == c {
        assert now[Addr(dc, i, 0)] == src[Addr(sc, i, 0)];
      } else if InCells(dc, m, 1, Addr(d, i, j)) {
        var x: nat, y: nat :| x < m && y < 1 && Addr(dc, x, y) == Addr(d, i, j);
        ComponentAddr(d, c, x);
        AddrInjective(d, m, ncomp, |was|, x, c, i, j);
      }
    }
    forall k: nat | k < |was| && !InCells(d, m, ncomp, k) ensures now[k] == was[k] {
      if InCells(dc, m, 1, k) {
        var x: nat, y: nat :| x < m && y < 1 && Addr(dc, x, y) == k;
        ComponentAddr(d, c, x);
      }
    }
  }

  /** Lines 380-392: every component is copied into the zeroed block through its own descriptor. */
  method CarryComponents(dst: array<int>, d: View, src: array<int>, comp: seq<Descriptor>, s: View, nitems: nat, ncomp: nat)
    requires dst != src && |comp| == ncomp && nitems <= d.cap && 0 < s.cap && 0 < d.cap
    requires Holds(s, s.cap, ncomp, src.Length) && Holds(d, d.cap, ncomp, dst.Length) && AllZero(dst[..])
    requires forall c :: 0 <= c < ncomp ==> comp[c] == Descriptor(src, Component(s, c))
    modifies dst
    ensures Carried(src[..], s, dst[..], d, MovedApart(d, s, Min(s.cap, d.cap), nitems), ncomp)
  {
    var n := Min(s.cap, d.cap);
    ghost var zero, m := dst[..], MovedApart(d, s, n, nitems);
    HoldsFewer(d, d.cap, m, ncomp, dst.Length);
    HoldsFewer(s, s.cap, m, ncomp, src.Length);
    for c := 0 to ncomp
      invariant CarriedUpTo(zero, dst[..], d, src[..], s, m, ncomp, c)
    {
      ghost var mid := dst[..];
      var dc, sc := Component(d, c), Kept(comp[c].view, n);
      ComponentHolds(d, d.cap, ncomp, dst.Length, c);
      ComponentHolds(s, s.cap, ncomp, src.Length, c);
      KeptHolds(Component(s, c), n, 1, src.Length);
      HoldsFewer(dc, d.cap, m, 1, dst.Length);
      HoldsFewer(sc, n, m, 1, src.Length);
      CopyBetween(dst, dc, src, sc, n, nitems, 1);
      CarryOne(zero, mid, dst[..], d, src[..], s, n, m, ncomp, c);
    }
  }

  lemma {:induction false} MovedAtMost(d: View, s: View, n: nat, nitems: nat, ncomp: nat)
    ensures var m := Moved(d, s, n, nitems, ncomp); m <= n && (n > 0 && nitems > 0 ==> m > 0) && (d.strd == s.strd == ncomp ==> m == n)
  {
  }

  lemma {:induction false} MovedSymmetric(d: View, s: View, n: nat, nitems: nat, ncomp: nat)
    ensures Moved(d, s, n, nitems, ncomp) == Moved(s, d, n, nitems, ncomp)
  {
  }
}
