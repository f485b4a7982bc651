/** Element numbering of an unstructured pane (COM/src/Pane.C, COM/src/Connectivity.C) and the enumerators that walk it
    (COM/src/Element_accessors.C, COM/include/Element_accessors.hpp). */
module PaneElements {
  import opened Arithmetic

  /** A connectivity table: its name, nodes per element, address of its array, declared sizes and element offset. */
  datatype Table = Table(name: string, nnodes: nat, start: nat, nitems: int, ngitems: nat, offset: nat)

  /** size_of_elements of an unstructured table. */
  function Size(t: Table): nat {
    if t.nitems <= 0 then 0 else t.nitems
  }

  /** The number of elements in the tables before table k. */
  function Before(ts: seq<Table>, k: nat): nat
    requires k <= |ts|
  {
    if k == 0 then 0 else Before(ts, k - 1) + Size(ts[k - 1])
  }

  /** The number of ghost elements in the tables before table k. */
  function GhostsBefore(ts: seq<Table>, k: nat): nat
    requires k <= |ts|
  {
    if k == 0 then 0 else GhostsBefore(ts, k - 1) + ts[k - 1].ngitems
  }

  /** The declared numbers of items; a table whose size is not set counts for nothing. */
  function ItemCounts(ts: seq<Table>): (r: seq<int>)
    ensures |r| == |ts| && forall k :: 0 <= k < |ts| ==> r[k] == if ts[k].nitems < 0 then 0 else ts[k].nitems
  {
    seq(|ts|, k requires 0 <= k < |ts| => if ts[k].nitems < 0 then 0 else ts[k].nitems)
  }

  function Sum(xs: seq<int>): int {
    if xs == [] then 0 else Sum(xs[..|xs| - 1]) + xs[|xs| - 1]
  }

  function GhostCounts(ts: seq<Table>): (r: seq<int>)
    ensures |r| == |ts| && forall k :: 0 <= k < |ts| ==> r[k] == ts[k].ngitems
  {
    seq(|ts|, k requires 0 <= k < |ts| => ts[k].ngitems)
  }

  lemma {:induction false} GhostsBeforeIsSum(ts: seq<Table>, k: nat)
    requires k <= |ts|
    ensures GhostsBefore(ts, k) == Sum(GhostCounts(ts)[..k])
  {
    if k > 0 {
      GhostsBeforeIsSum(ts, k - 1);
      assert GhostCounts(ts)[..k][..k - 1] == GhostCounts(ts)[..k - 1];
    }
  }

  lemma {:induction false} BeforeIsSum(ts: seq<Table>, k: nat)
    requires k <= |ts|
    ensures Before(ts, k) == Sum(ItemCounts(ts)[..k])
  {
    if k > 0 {
      BeforeIsSum(ts, k - 1);
      assert ItemCounts(ts)[..k][..k - 1] == ItemCounts(ts)[..k - 1];
    }
  }

  lemma {:induction false} BeforeGrows(ts: seq<Table>, j: nat, k: nat)
    requires j < k <= |ts|
    ensures Before(ts, j) + Size(ts[j]) <= Before(ts, k)
  {
    if j < k - 1 {
      BeforeGrows(ts, j, k - 1);
    }
  }

  lemma {:induction false} BeforeSame(ts: seq<Table>, us: seq<Table>, k: nat)
    requires k <= |ts| && k <= |us| && forall j :: 0 <= j < k ==> Size(ts[j]) == Size(us[j])
    ensures Before(ts, k) == Before(us, k)
  {
    if k > 0 {
      BeforeSame(ts, us, k - 1);
    }
  }

  /** The non-empty tables are numbered one after the other, and the pane knows the sum. */
  ghost predicate Numbered(ts: seq<Table>, total: nat) {
    && total == Before(ts, |ts|)
    && forall k :: 0 <= k < |ts| ==> Placed(ts, k)
  }

  ghost predicate Placed(ts: seq<Table>, k: nat)
    requires k < |ts|
  {
    ts[k].nnodes > 0 && (Size(ts[k]) > 0 ==> ts[k].offset == Before(ts, k))
  }

  predicate Owns(t: Table, i: nat) {
    t.offset < i <= t.offset + Size(t)
  }

  /** Every element number up to the total belongs to one table, and no other number belongs to any. */
  lemma {:induction false} Partition(ts: seq<Table>, total: nat, i: nat)
    requires Numbered(ts, total)
    ensures 1 <= i <= total ==> exists k :: 0 <= k < |ts| && Owns(ts[k], i)
    ensures forall k :: 0 <= k < |ts| && Owns(ts[k], i) ==> 1 <= i <= total
    ensures forall j, k :: 0 <= j < |ts| && 0 <= k < |ts| && Owns(ts[j], i) && Owns(ts[k], i) ==> j == k
  {
    if 1 <= i <= total {
      var k := OwnerBelow(ts, total, i, |ts|);
    }
    forall k | 0 <= k < |ts| && Owns(ts[k], i) ensures 1 <= i <= total {
      assert Placed(ts, k);
      BeforeGrows(ts, k, |ts|);
    }
    forall j, k | 0 <= j < |ts| && 0 <= k < |ts| && Owns(ts[j], i) && Owns(ts[k], i) ensures j == k {
      assert Placed(ts, j) && Placed(ts, k);
      if j < k {
        BeforeGrows(ts, j, k);
      } else if k < j {
        BeforeGrows(ts, k, j);
      }
    }
  }

  lemma {:induction false} OwnerBelow(ts: seq<Table>, total: nat, i: nat, n: nat) returns (k: nat)
    requires Numbered(ts, total) && n <= |ts| && 1 <= i <= Before(ts, n)
    ensures k < n && Owns(ts[k], i)
  {
    assert Placed(ts, n - 1);
    if i > Before(ts, n - 1) {
      k := n - 1;
    } else {
      k := OwnerBelow(ts, total, i, n - 1);
    }
  }

  predicate HasNodes(t: Table) {
    t.nnodes > 0
  }

  /** Table k is what it was, with the running sum of the sizes as its offset. */
  ghost predicate Renewed(was: seq<Table>, ts: seq<Table>, k: nat)
    requires k < |was| == |ts|
  {
    ts[k] == was[k].(offset := Before(was, k))
  }

  /** Offsets that are the running sums of the sizes number the tables. */
  lemma {:induction false} Renumbered(was: seq<Table>, ts: seq<Table>)
    requires |was| == |ts| && forall k: nat :: k < |ts| ==> HasNodes(was[k]) && Renewed(was, ts, k)
    ensures Numbered(ts, Before(was, |was|))
  {
    forall k: nat | k < |ts| ensures Size(ts[k]) == Size(was[k]) {
      assert Renewed(was, ts, k);
    }
    BeforeSame(ts, was, |ts|);
    forall k: nat | k < |ts| ensures Placed(ts, k) {
      BeforeSame(ts, was, k);
      assert HasNodes(was[k]) && Renewed(was, ts, k);
    }
  }

  const NULL := -1

  // ---------- The pane ----------

  class Pane {
    var tables: seq<Table>
    var nelems: nat
    var ngelems: nat

    ghost predicate Valid()
      reads this
    {
      Numbered(tables, nelems)
    }

    constructor ()
      ensures Valid() && tables == [] && nelems == 0
    {
      tables, nelems, ngelems := [], 0, 0;
    }

    /** `connectivity(name, true)`: the table of that name, or a new empty one at the end. The other tables and the
        totals are not touched. nnodes is 0 for a name that is not an element type; it answers false where the source throws. */
    method Insert(name: string, nnodes: nat, start: nat) returns (ok: bool, k: nat)
      requires Valid()
      modifies this`tables
      ensures Valid() && (ok <==> nnodes > 0 || exists j :: 0 <= j < |old(tables)| && old(tables)[j].name == name)
      ensures ok ==> k < |tables| && tables[k].name == name && forall j :: 0 <= j < k ==> tables[j].name != name
      ensures tables == old(tables) || (ok && k == |old(tables)| && tables == old(tables) + [Table(name, nnodes, start, -1, 0, 0)])
    {
      k := 0;
      while k < |tables|
        invariant k <= |tables| && forall j :: 0 <= j < k ==> tables[j].name != name
      {
        if tables[k].name == name {
          return true, k;
        }
        k := k + 1;
      }
      if nnodes == 0 {
        return false, k;
      }
      ghost var ts := tables;
      tables := tables + [Table(name, nnodes, start, -1, 0, 0)];
      forall j | 0 <= j <= |ts| ensures Before(tables, j) == Before(ts, j) {
        BeforeSame(tables, ts, j);
      }
      forall j | 0 <= j < |tables| ensures Placed(tables, j) {
        assert j < |ts| ==> Placed(ts, j);
      }
      ok := true;
    }

    /** `refresh_connectivity`: offsets and totals from the sizes. */
    method Refresh()
      requires forall k :: 0 <= k < |tables| ==> HasNodes(tables[k])
      modifies this
      ensures Valid() && |tables| == |old(tables)|
      ensures forall k: nat :: k < |tables| ==> Renewed(old(tables), tables, k)
      ensures ngelems == GhostsBefore(old(tables), |tables|)
      ensures nelems == Sum(ItemCounts(old(tables))) && ngelems == Sum(GhostCounts(old(tables)))
      ensures forall k: nat :: k < |tables| ==> tables[k].offset == Sum(ItemCounts(old(tables))[..k])
    {
      nelems, ngelems := 0, 0;
      ghost var was := tables;
      for k := 0 to |tables|
        invariant |tables| == |was| && nelems == Before(was, k) && ngelems == GhostsBefore(was, k)
        invariant forall j: nat :: j < k ==> Renewed(was, tables, j)
        invariant tables[k..] == was[k..]
      {
        assert tables[k] == tables[k..][0] == was[k];
        ghost var before := tables;
        tables := tables[k := tables[k].(offset := nelems)];
        nelems := nelems + Size(tables[k]);
        ngelems := ngelems + tables[k].ngitems;
        forall j: nat | j < k + 1 ensures Renewed(was, tables, j) {
          assert j < k ==> Renewed(was, before, j);
        }
        assert tables[k + 1..] == was[k..][1..];
      }
      Renumbered(was, tables);
      BeforeIsSum(was, |was|);
      GhostsBeforeIsSum(was, |was|);
      assert ItemCounts(was)[..|was|] == ItemCounts(was) && GhostCounts(was)[..|was|] == GhostCounts(was);
      forall k: nat | k < |tables| ensures tables[k].offset == Sum(ItemCounts(was)[..k]) {
        assert Renewed(was, tables, k);
        BeforeIsSum(was, k);
      }
    }

    /** `set_size` of a table. It answers false where the source throws. */
    method SetSize(k: nat, nitems: int, ghosts: nat) returns (ok: bool)
      requires Valid() && k < |tables|
      modifies this
      ensures Valid() && ok == (nitems >= ghosts) && |tables| == |old(tables)|
      ensures !ok ==> unchanged(this)
      ensures ok ==>
        var was := old(tables)[k := old(tables)[k].(nitems := nitems, ngitems := ghosts)];
        && (forall j: nat :: j < |tables| ==> Renewed(was, tables, j)) && ngelems == GhostsBefore(was, |tables|)
        && nelems == Sum(ItemCounts(was)) && ngelems == Sum(GhostCounts(was))
    {
      if nitems < ghosts {
        return false;
      }
      forall j | 0 <= j < |tables| ensures HasNodes(tables[j]) {
        assert Placed(tables, j);
      }
      tables := tables[k := tables[k].(nitems := nitems, ngitems := ghosts)];
      Refresh();
      return true;
    }

    /** `connectivity(i)`: the table that owns element i, null one past the end; elsewhere an assertion fails. */
    method Owner(i: nat) returns (ok: bool, k: int)
      requires Valid()
      ensures ok <==> 1 <= i <= nelems + 1
      ensures ok && i == nelems + 1 ==> k == NULL
      ensures ok && i <= nelems ==> 0 <= k < |tables| && Owns(tables[k], i)
      ensures ok && i <= nelems ==> forall j :: 0 <= j < |tables| && Owns(tables[j], i) ==> j == k
    {
      if i > nelems {
        return i - 1 == nelems, NULL;
      }
      if i < 1 {
        return false, NULL;
      }
      Partition(tables, nelems, i);
      for j := 0 to |tables|
        invariant forall x :: 0 <= x < j ==> !Owns(tables[x], i)
      {
        if i > tables[j].offset && i <= tables[j].offset + Size(tables[j]) {
          return true, j;
        }
      }
      assert false;
    }
  }

  // ---------- Enumerating the elements ----------

  /** What an enumerator holds: its table, the address of the element's nodes, and how many elements the table has left. */
  datatype Position = Position(conn: int, start: int, res: int)

  const END := Position(NULL, 0, -1)

  /** The position of element i: of its owner, or the end. */
  ghost predicate At(ts: seq<Table>, total: nat, i: nat, p: Position)
    requires Numbered(ts, total)
  {
    if i == total + 1 then p == END
    else
      && 0 <= p.conn < |ts| && Owns(ts[p.conn], i)
      && p.start == ts[p.conn].start + (i - ts[p.conn].offset - 1) * ts[p.conn].nnodes
      && p.res == Size(ts[p.conn]) - (i - ts[p.conn].offset - 1)
  }

  lemma {:induction false} AtUnique(ts: seq<Table>, total: nat, i: nat, p: Position, q: Position)
    requires Numbered(ts, total) && At(ts, total, i, p) && At(ts, total, i, q)
    ensures p == q
  {
    Partition(ts, total, i);
  }

  class Enumerator {
    const pane: Pane
    var pos: Position

    /** The constructor for an element index local to the pane. Outside 1..size+1 an assertion of the source fails. */
    constructor (pane: Pane, i: nat)
      requires pane.Valid() && 1 <= i <= pane.nelems + 1
      ensures this.pane == pane && At(pane.tables, pane.nelems, i, pos)
    {
      this.pane := pane;
      var ok, k := pane.Owner(i);
      if k == NULL {
        pos := END;
      } else {
        var t := pane.tables[k];
        var local := i - (t.offset + 1);
        pos := Position(k, t.start + local * t.nnodes, Size(t) - local);
      }
    }

    /** The same for any index: it answers false where the source's assertion fails. */
    static method Create(pane: Pane, i: nat) returns (ok: bool, e: Enumerator?)
      requires pane.Valid()
      ensures ok <==> 1 <= i <= pane.nelems + 1
      ensures ok <==> e != null
      ensures ok ==> fresh(e) && e.pane == pane && At(pane.tables, pane.nelems, i, e.pos)
    {
      var k;
      ok, k := pane.Owner(i);
      e := null;
      if ok {
        e := new Enumerator(pane, i);
      }
    }

    /** The constructor for the i-th element of table k. */
    constructor InTable(pane: Pane, k: nat, i: nat)
      requires pane.Valid() && k < |pane.tables| && 1 <= i <= Size(pane.tables[k])
      ensures this.pane == pane && At(pane.tables, pane.nelems, pane.tables[k].offset + i, pos)
    {
      this.pane := pane;
      var t := pane.tables[k];
      pos := Position(k, t.start + (i - 1) * t.nnodes, Size(t) - (i - 1));
      Partition(pane.tables, pane.nelems, t.offset + i);
    }

    /** The same for any index into the table. An empty table lets index 1 through, where there is no element. */
    static method CreateInTable(pane: Pane, k: nat, i: nat) returns (ok: bool, e: Enumerator?)
      requires pane.Valid() && k < |pane.tables|
      ensures ok <==> 1 <= i <= Size(pane.tables[k]) || i == 1
      ensures e != null <==> 1 <= i <= Size(pane.tables[k])
      ensures e != null ==> fresh(e) && e.pane == pane && At(pane.tables, pane.nelems, pane.tables[k].offset + i, e.pos)
    {
      var size := Size(pane.tables[k]);
      ok, e := 1 <= i && i - 1 < (if size > 1 then size else 1), null;
      if 1 <= i <= size {
        e := new Enumerator.InTable(pane, k, i);
      }
    }

    /** `next`. */
    method Next(ghost i: nat)
      requires pane.Valid() && 1 <= i <= pane.nelems && At(pane.tables, pane.nelems, i, pos)
      modifies this`pos
      ensures At(pane.tables, pane.nelems, i + 1, pos)
    {
      var t := pane.tables[pos.conn];
      var res := pos.res - 1;
      if res == 0 {
        LastOfTable(pane.tables, pane.nelems, pos.conn, i);
        var ok, k := pane.Owner(t.offset + 1 + Size(t));
        if k == NULL {
          pos := END;
        } else {
          FirstOfTable(pane.tables, pane.nelems, pos.conn, k, i);
          pos := Position(k, pane.tables[k].start, Size(pane.tables[k]));
        }
      } else {
        Distribute(i - t.offset - 1, 1, t.nnodes);
        Partition(pane.tables, pane.nelems, i + 1);
        pos := Position(pos.conn, pos.start + t.nnodes, res);
      }
    }

    /** `id`. */
    method Id(ghost i: nat) returns (r: int)
      requires pane.Valid() && 1 <= i <= pane.nelems && At(pane.tables, pane.nelems, i, pos)
      ensures r == i
    {
      var t := pane.tables[pos.conn];
      ghost var local := i - t.offset - 1;
      assert Placed(pane.tables, pos.conn);
      QuotientUnique(pos.start - t.start, t.nnodes, local, 0);
      r := t.offset + 1 + (pos.start - t.start) / t.nnodes;
    }
  }

  lemma {:induction false} LastOfTable(ts: seq<Table>, total: nat, k: nat, i: nat)
    requires Numbered(ts, total) && k < |ts| && Owns(ts[k], i) && Size(ts[k]) == i - ts[k].offset
    ensures i == ts[k].offset + Size(ts[k]) && i <= total
  {
    Partition(ts, total, i);
  }

  /** Right after the last element of one table comes the first element of the next non-empty one. */
  lemma {:induction false} FirstOfTable(ts: seq<Table>, total: nat, k: nat, next: nat, i: nat)
    requires Numbered(ts, total) && k < |ts| && next < |ts|
    requires Owns(ts[k], i) && i == ts[k].offset + Size(ts[k]) && Owns(ts[next], i + 1)
    ensures ts[next].offset == i
  {
    assert Placed(ts, k) && Placed(ts, next);
    if next < k {
      BeforeGrows(ts, next, k);
    } else if k < next {
      BeforeGrows(ts, k, next);
    }
  }

  /** Walking a pane from its first element visits every element number once, in order: after n steps the enumerator
      reports element n + 1 and stands exactly where one constructed there would stand. */
  method Walk(pane: Pane) returns (ids: seq<int>, e: Enumerator)
    requires pane.Valid()
    ensures |ids| == pane.nelems && forall n :: 0 <= n < |ids| ==> ids[n] == n + 1
    ensures e.pane == pane && e.pos == END && fresh(e)
  {
    ids := [];
    e := new Enumerator(pane, 1);
    while e.pos.conn != NULL
      invariant e.pane == pane && |ids| <= pane.nelems && fresh(e)
      invariant At(pane.tables, pane.nelems, |ids| + 1, e.pos)
      invariant forall n :: 0 <= n < |ids| ==> ids[n] == n + 1
      decreases pane.nelems - |ids|
    {
      var r := e.Id(|ids| + 1);
      e.Next(|ids| + 1);
      ids := ids + [r];
    }
  }
}
