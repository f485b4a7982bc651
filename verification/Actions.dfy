/** The actions a scheduler is given, and the table of read and write slots that
    registering them builds (SIM/include/Action.h, SIM/src/Action.C, SIM/src/Scheduler.C). */
module Actions {
  import opened Common

  /** A piece of data an action touches: attribute name and index. */
  datatype Key = Key(attr: string, idx: int)

  datatype Intent = In | Out

  datatype ActionData = ActionData(key: Key, intent: Intent)

  /** An Action object. `id` stands for its address; the data it declares is fixed when it is made. */
  datatype Action = Action(id: nat, data: seq<ActionData>)

  /** The declarations held by one ActionItem: the address of its action and its two lists of keys. */
  datatype Item = Item(action: nat, readKeys: seq<Key>, writeKeys: seq<Key>)

  type Table = seq<Item>

  /** The first position at or after `from` that holds `k`, or -1. */
  function FirstFrom(keys: seq<Key>, k: Key, from: nat): (r: int)
    requires from <= |keys|
    ensures r == -1 <==> k !in keys[from..]
    ensures r != -1 ==> from <= r < |keys| && keys[r] == k && k !in keys[from..r]
    decreases |keys| - from
  {
    if from == |keys| then -1
    else if keys[from] == k then from
    else FirstFrom(keys, k, from + 1)
  }

  /** `hasInput` on the read keys and `hasOutput` on the write keys. */
  function FirstIndex(keys: seq<Key>, k: Key): (r: int)
    ensures r == -1 <==> k !in keys
    ensures r != -1 ==> 0 <= r < |keys| && keys[r] == k && k !in keys[..r]
  {
    var r := FirstFrom(keys, k, 0);
    assert keys[0..] == keys;
    r
  }

  /** The loop of `hasInput` / `hasOutput`. */
  method IndexOf(keys: seq<Key>, k: Key) returns (r: int)
    ensures r == FirstIndex(keys, k)
  {
    for i := 0 to |keys|
      invariant FirstIndex(keys, k) == FirstFrom(keys, k, i)
    {
      if keys[i] == k {
        return i;
      }
    }
    return -1;
  }

  /** No action names the same key twice on the same side. */
  ghost predicate NoRepeat(t: Table) {
    forall a :: 0 <= a < |t| ==> Distinct(t[a].readKeys) && Distinct(t[a].writeKeys)
  }

  /** Position of the first item of the given action (the linear search of `reads` and `writes`). */
  function Locate(t: Table, id: nat): (r: int)
    ensures r == -1 <==> forall p :: 0 <= p < |t| ==> t[p].action != id
    ensures r != -1 ==> 0 <= r < |t| && t[r].action == id && forall p :: 0 <= p < r ==> t[p].action != id
  {
    if t == [] then -1
    else
      var r := Locate(t[..|t| - 1], id);
      assert t == t[..|t| - 1] + [t[|t| - 1]];
      if r != -1 then r
      else if t[|t| - 1].action == id then |t| - 1
      else -1
  }

  /** `Action::declare`: the keys of each side go to the back of the item's list for that side. */
  function Keys(data: seq<ActionData>, side: Intent): (r: seq<Key>) {
    if data == [] then []
    else if data[0].intent == side then [data[0].key] + Keys(data[1..], side)
    else Keys(data[1..], side)
  }

  /** A side gets every key as often as it is declared for that side. */
  lemma {:induction false} KeysCount(data: seq<ActionData>, side: Intent, k: Key)
    ensures multiset(Keys(data, side))[k] == multiset(data)[ActionData(k, side)]
  {
    if data != [] {
      KeysCount(data[1..], side, k);
      assert data == [data[0]] + data[1..];
    }
  }

  /** And in the order of declaration. */
  lemma {:induction false} KeysInOrder(before: seq<ActionData>, d: ActionData, after: seq<ActionData>, side: Intent)
    ensures Keys(before + [d] + after, side) == Keys(before, side) + (if d.intent == side then [d.key] else []) + Keys(after, side)
  {
    var data := before + [d] + after;
    if before == [] {
      assert data[1..] == after;
    } else {
      KeysInOrder(before[1..], d, after, side);
      assert data[1..] == before[1..] + [d] + after;
    }
  }

  function Declared(item: Item, data: seq<ActionData>): Item {
    Item(item.action, item.readKeys + Keys(data, In), item.writeKeys + Keys(data, Out))
  }

  /** `Scheduler::add_action`: a new empty item, then the declarations, which go to the
      first item registered for the same action. */
  function Registered(t: Table, a: Action): (r: Table)
    ensures |r| == |t| + 1
  {
    var t1 := t + [Item(a.id, [], [])];
    assert t1[|t|].action == a.id;
    var p := Locate(t1, a.id);
    t1[p := Declared(t1[p], a.data)]
  }

  function TableOf(acts: seq<Action>): (r: Table)
    ensures |r| == |acts|
  {
    if acts == [] then [] else Registered(TableOf(acts[..|acts| - 1]), acts[|acts| - 1])
  }

  // ---------- The same action registered twice ----------

  /** Two registrations of one address are registrations of one object. */
  ghost predicate SameObject(acts: seq<Action>) {
    forall p, q :: 0 <= p < |acts| && 0 <= q < |acts| && acts[p].id == acts[q].id ==> acts[p] == acts[q]
  }

  /** Item p is the first item of its action. */
  ghost predicate First(acts: seq<Action>, p: nat)
    requires p < |acts|
  {
    forall q :: 0 <= q < p ==> acts[q].id != acts[p].id
  }

  /** How many times an address was registered. */
  function Count(acts: seq<Action>, id: nat): nat {
    if acts == [] then 0
    else Count(acts[..|acts| - 1], id) + if acts[|acts| - 1].id == id then 1 else 0
  }

  function Repeated(once: seq<Key>, m: nat): seq<Key> {
    if m == 0 then [] else Repeated(once, m - 1) + once
  }

  /** What every item of a registered table looks like: the first item of an action holds
      the action's declarations once per registration, every later item holds none. */
  ghost predicate ItemShape(acts: seq<Action>, t: Table, p: nat)
    requires |t| == |acts| && p < |acts|
  {
    var m := if First(acts, p) then Count(acts, acts[p].id) else 0;
    t[p] == Item(acts[p].id, Repeated(Keys(acts[p].data, In), m), Repeated(Keys(acts[p].data, Out), m))
  }

  lemma {:induction false} CountZero(acts: seq<Action>, id: nat)
    requires forall q :: 0 <= q < |acts| ==> acts[q].id != id
    ensures Count(acts, id) == 0
  {
    if acts != [] {
      CountZero(acts[..|acts| - 1], id);
    }
  }

  lemma {:induction false} CountTwo(acts: seq<Action>, p: nat, q: nat)
    requires p < q < |acts| && acts[p].id == acts[q].id
    ensures Count(acts, acts[p].id) >= 2
  {
    var n := |acts| - 1;
    if q < n {
      CountTwo(acts[..n], p, q);
    } else {
      CountOne(acts[..n], p);
    }
  }

  lemma {:induction false} CountOne(acts: seq<Action>, p: nat)
    requires p < |acts|
    ensures Count(acts, acts[p].id) >= 1
  {
    var n := |acts| - 1;
    if p < n {
      CountOne(acts[..n], p);
    }
  }

  lemma {:induction false} RegisterShape(pre: seq<Action>, t: Table, a: Action, p: nat)
    requires SameObject(pre + [a]) && |t| == |pre|
    requires forall q :: 0 <= q < |pre| ==> ItemShape(pre, t, q)
    requires p <= |pre|
    ensures ItemShape(pre + [a], Registered(t, a), p)
  {
    var n, acts := |pre|, pre + [a];
    var t1 := t + [Item(a.id, [], [])];
    assert acts[..n] == pre;
    assert forall q :: 0 <= q < n ==> t1[q].action == acts[q].id by {
      forall q | 0 <= q < n ensures t1[q].action == acts[q].id { assert ItemShape(pre, t, q); }
    }
    assert t1[n].action == a.id;
    var f := Locate(t1, a.id);
    assert acts[f].id == a.id && First(acts, f);
    assert acts[f] == a by { assert acts[n] == a; }
    if p < n {
      assert ItemShape(pre, t, p);
      assert First(pre, p) == First(acts, p);
    } else if First(acts, n) {
      CountZero(pre, a.id);
    }
    if p == f {
      assert First(acts, p);
    } else if acts[p].id == a.id {
      assert !First(acts, p);
    }
  }

  lemma {:induction false} TableShape(acts: seq<Action>)
    requires SameObject(acts)
    ensures forall p :: 0 <= p < |acts| ==> ItemShape(acts, TableOf(acts), p)
  {
    if acts != [] {
      var n := |acts| - 1;
      TableShape(acts[..n]);
      assert acts == acts[..n] + [acts[n]];
      forall p | 0 <= p <= n
        ensures ItemShape(acts, TableOf(acts), p)
      {
        RegisterShape(acts[..n], TableOf(acts[..n]), acts[n], p);
      }
    }
  }

  lemma {:induction false} RepeatedRepeats(once: seq<Key>, m: nat)
    requires m >= 2 && once != []
    ensures !Distinct(Repeated(once, m))
    decreases m
  {
    var keys := Repeated(once, m);
    if m == 2 {
      assert Repeated(once, 0) == [] && Repeated(once, 1) == [] + once;
      assert keys[0] == keys[|once|];
    } else {
      RepeatedRepeats(once, m - 1);
      var less := Repeated(once, m - 1);
      var i, j :| 0 <= i < |less| && 0 <= j < |less| && less[i] == less[j] && i != j;
      assert keys[i] == keys[j];
    }
  }

  lemma {:induction false} RepeatedNothing(m: nat)
    ensures Repeated([], m) == []
  {
    if m > 0 {
      RepeatedNothing(m - 1);
    }
  }

  lemma {:induction false} TwiceDeclaresNothing(acts: seq<Action>, p: nat, q: nat)
    requires SameObject(acts) && NoRepeat(TableOf(acts))
    requires p < q < |acts| && acts[p].id == acts[q].id
    ensures TableOf(acts)[p].readKeys == [] && TableOf(acts)[p].writeKeys == []
    ensures TableOf(acts)[q].readKeys == [] && TableOf(acts)[q].writeKeys == []
  {
    var t := TableOf(acts);
    TableShape(acts);
    assert ItemShape(acts, t, p) && ItemShape(acts, t, q);
    CountTwo(acts, p, q);
    assert !First(acts, q);
    if First(acts, p) {
      var m := Count(acts, acts[p].id);
      NothingRepeated(Keys(acts[p].data, In), m);
      NothingRepeated(Keys(acts[p].data, Out), m);
    }
  }

  lemma {:induction false} NothingRepeated(once: seq<Key>, m: nat)
    requires m >= 2 && Distinct(Repeated(once, m))
    ensures Repeated(once, m) == []
  {
    if once != [] {
      RepeatedRepeats(once, m);
      assert false;
    }
    RepeatedNothing(m);
  }

  /** When no action names a key twice, an item that declares anything is the only item of its action.
      (Registering an action twice would have declared its keys twice on the first item.) */
  lemma {:induction false} UsedItemIsOnlyItem(acts: seq<Action>, p: nat, q: nat)
    requires SameObject(acts) && NoRepeat(TableOf(acts))
    requires p < |acts| && q < |acts|
    requires TableOf(acts)[p].readKeys != [] || TableOf(acts)[p].writeKeys != []
    ensures TableOf(acts)[p].action == TableOf(acts)[q].action <==> p == q
  {
    TableShape(acts);
    assert ItemShape(acts, TableOf(acts), p) && ItemShape(acts, TableOf(acts), q);
    if acts[p].id == acts[q].id && p != q {
      TwiceDeclaresNothing(acts, if p < q then p else q, if p < q then q else p);
      assert false;
    }
  }
}
