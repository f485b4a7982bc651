/** What `DDGScheduler::schedule` guarantees, stated on the declarations of the registered actions alone. */
module ScheduleTheorems {
  import opened Actions
  import opened Common
  import opened DataDependency
  import LinkFailures
  import opened LinkTheorems
  import Topo = TopologicalOrder

  /** The links as the topological sort sees them. */
  function GraphOf(t: Table, l: Links): (g: Topo.Graph)
    requires Shaped(t, l) && SanityCheck(t, l)
    ensures Topo.Valid(g) && |g.input| == |t|
    ensures forall x :: 0 <= x < |t| ==> g.action[x] == t[x].action
    ensures forall x :: 0 <= x < |t| ==> g.input[x] == l.input[x]
  {
    assert forall x :: 0 <= x < |t| ==> |ReadSide(t)[x]| == |t[x].readKeys|;
    Topo.Graph(seq(|t|, x requires 0 <= x < |t| => t[x].action),
               seq(|t|, x requires 0 <= x < |t| =>
                 seq(|l.input[x]|, i requires 0 <= i < |l.input[x]| => l.input[x][i])))
  }

  /** A fresh scheduler holding these items is scheduled without aborting or looping for ever. */
  ghost predicate Schedulable(t: Table) {
    exists l :: Returns(t, l) && Shaped(t, l) && SanityCheck(t, l) && Topo.Complete(GraphOf(t, l))
  }

  /** Action b writes something action a reads. */
  ghost predicate Feeds(t: Table, b: nat, a: nat)
    requires a < |t| && b < |t|
  {
    exists k :: k in t[b].writeKeys && k in t[a].readKeys
  }

  /** A closed chain of actions, each fed by the next. */
  ghost predicate DependencyLoop(t: Table, c: seq<nat>) {
    && |c| >= 2 && (forall j :: 0 <= j < |c| ==> c[j] < |t|) && c[0] == c[|c| - 1]
    && forall j :: 0 <= j < |c| - 1 ==> Feeds(t, c[j + 1], c[j])
  }

  /** In a matched table the slot of key k points at the only action that has k on the other side. */
  lemma {:induction false} LinkOfKey(t: Table, l: Links, a: nat, i: nat, b: nat, k: Key)
    requires WellLinked(t) && Matched(t, l) && a < |t| && b < |t|
    requires i < |t[a].readKeys| && t[a].readKeys[i] == k && k in t[b].writeKeys
    ensures |l.input[a]| == |t[a].readKeys| && l.input[a][i] == b
  {
    var rs, ws := ReadSide(t), WriteSide(t);
    assert rs[a][i] == k && l.input[a][i] != NULL;
    var c := l.input[a][i];
    var x :| 0 <= x < |ws[c]| && ws[c][x] == k;
    var o :| 0 <= o < |t[b].writeKeys| && t[b].writeKeys[o] == k;
    assert ws[b][o] == k;
  }

  lemma {:induction false} LinkedFeeds(t: Table, l: Links, a: nat, i: nat)
    requires Matched(t, l) && a < |t| && i < |t[a].readKeys|
    ensures |l.input[a]| == |t[a].readKeys| && 0 <= l.input[a][i] < |t| && Feeds(t, l.input[a][i], a)
  {
    var rs, ws := ReadSide(t), WriteSide(t);
    assert rs[a][i] == t[a].readKeys[i] && l.input[a][i] != NULL;
    assert rs[a][i] in ws[l.input[a][i]];
  }

  lemma {:induction false} FeedsIsLinked(t: Table, l: Links, b: nat, a: nat)
    requires WellLinked(t) && Matched(t, l) && a < |t| && b < |t|
    ensures Feeds(t, b, a) <==> b in l.input[a]
  {
    assert |ReadSide(t)[a]| == |l.input[a]|;
    if Feeds(t, b, a) {
      var k :| k in t[b].writeKeys && k in t[a].readKeys;
      var i :| 0 <= i < |t[a].readKeys| && t[a].readKeys[i] == k;
      LinkOfKey(t, l, a, i, b, k);
    }
    if b in l.input[a] {
      var i :| 0 <= i < |l.input[a]| && l.input[a][i] == b;
      LinkedFeeds(t, l, a, i);
    }
  }

  lemma {:induction false} LoopsAreCycles(t: Table, l: Links, c: seq<nat>)
    requires WellLinked(t) && Matched(t, l) && SanityCheck(t, l)
    ensures DependencyLoop(t, c) <==> Topo.IsCycle(GraphOf(t, l), c)
  {
    var g := GraphOf(t, l);
    if forall j :: 0 <= j < |c| ==> c[j] < |t| {
      forall j | 0 <= j < |c| - 1
        ensures Feeds(t, c[j + 1], c[j]) <==> c[j + 1] in g.input[c[j]]
      {
        FeedsIsLinked(t, l, c[j + 1], c[j]);
      }
    } else {
      assert !Topo.InRange(g, c);
    }
  }

  /** Items that feed others are unique for their action, so that comparing actions compares items. */
  lemma {:induction false} RegisteredFeedersUnique(acts: seq<Action>, l: Links)
    requires SameObject(acts) && NoRepeat(TableOf(acts)) && Matched(TableOf(acts), l) && SanityCheck(TableOf(acts), l)
    ensures Topo.FeedersUnique(GraphOf(TableOf(acts), l))
  {
    var t := TableOf(acts);
    var g := GraphOf(t, l);
    forall x, i, y | 0 <= x < |g.input| && 0 <= i < |g.input[x]| && 0 <= y < |g.input| &&
      g.action[y] == g.action[g.input[x][i]]
      ensures y == g.input[x][i]
    {
      var b := l.input[x][i];
      assert |ReadSide(t)[x]| == |l.input[x]|;
      assert ReadSide(t)[x][i] in WriteSide(t)[b];
      UsedItemIsOnlyItem(acts, b, y);
    }
  }

  lemma {:induction false} ReturnsUnique(t: Table, l: Links, m: Links)
    requires Returns(t, l) && Returns(t, m)
    ensures l == m
  {
    hide Step;
    var n: nat :| Run(t, Start(t), n) == Done(l);
    var k: nat :| Run(t, Start(t), k) == Done(m);
    RunMore(t, Start(t), Done(l), n, n + k);
    RunMore(t, Start(t), Done(m), k, n + k);
  }

  /** When no action names a key twice on one side, scheduling succeeds exactly when every key has one reader
      and one writer and no action depends on itself through a chain of others. */
  lemma {:induction false} ScheduleExact(acts: seq<Action>)
    requires SameObject(acts) && NoRepeat(TableOf(acts))
    ensures Schedulable(TableOf(acts)) <==>
      WellLinked(TableOf(acts)) && forall c :: !DependencyLoop(TableOf(acts), c)
  {
    var t := TableOf(acts);
    BuildExact(t);
    if WellLinked(t) {
      var l :| Returns(t, l);
      ReturnsMatched(t, l);
      SanityCheckPasses(t, l);
      RegisteredFeedersUnique(acts, l);
      var g := GraphOf(t, l);
      Topo.SortExact(g);
      forall c ensures DependencyLoop(t, c) <==> Topo.IsCycle(g, c) {
        LoopsAreCycles(t, l, c);
      }
      if Schedulable(t) {
        var m :| Returns(t, m) && Shaped(t, m) && SanityCheck(t, m) && Topo.Complete(GraphOf(t, m));
        ReturnsUnique(t, l, m);
      }
    }
  }

  /** A fresh scheduler holding these items is scheduled, with the given sorted list. */
  ghost predicate ScheduledAs(t: Table, s: seq<nat>) {
    exists l :: Returns(t, l) && Shaped(t, l) && SanityCheck(t, l) && Topo.Complete(GraphOf(t, l)) && s == Topo.Sort(GraphOf(t, l))
  }

  ghost predicate Writes(acts: seq<Action>, a: int, k: Key) {
    0 <= a < |acts| && k in TableOf(acts)[a].writeKeys
  }

  ghost predicate Reads(acts: seq<Action>, a: int, k: Key) {
    0 <= a < |acts| && k in TableOf(acts)[a].readKeys
  }

  lemma {:induction false} WriterBeforeReader(t: Table, l: Links, s: seq<nat>, k: Key, p: nat, q: nat)
    requires WellLinked(t) && Matched(t, l) && SanityCheck(t, l) && Topo.IsOrder(GraphOf(t, l), s)
    requires p < |s| && q < |s| && k in t[s[p]].writeKeys && k in t[s[q]].readKeys
    ensures p < q
  {
    var g := GraphOf(t, l);
    assert Topo.FedBy(g, s[..q], s[q]);
    assert Feeds(t, s[p], s[q]);
    FeedsIsLinked(t, l, s[p], s[q]);
    assert s[p] in s[..q];
  }

  /** The links behind a successful scheduling. */
  lemma {:induction false} LinksOf(acts: seq<Action>, s: seq<nat>) returns (l: Links)
    requires SameObject(acts) && NoRepeat(TableOf(acts)) && ScheduledAs(TableOf(acts), s)
    ensures var t := TableOf(acts);
      WellLinked(t) && Matched(t, l) && SanityCheck(t, l) && Topo.IsOrder(GraphOf(t, l), s)
  {
    hide Returns;
    var t := TableOf(acts);
    l :| Returns(t, l) && Shaped(t, l) && SanityCheck(t, l) && Topo.Complete(GraphOf(t, l)) && s == Topo.Sort(GraphOf(t, l));
    BuildExact(t);
    RegisteredFeedersUnique(acts, l);
    Topo.SortExact(GraphOf(t, l));
  }

  /** On success the sorted list holds every action once, and every action that writes a key stands
      before the action that reads it. */
  lemma {:induction false} WritersRunFirst(acts: seq<Action>, s: seq<nat>)
    requires SameObject(acts) && NoRepeat(TableOf(acts)) && ScheduledAs(TableOf(acts), s)
    ensures |s| == |acts| && Distinct(s) && forall j :: 0 <= j < |s| ==> s[j] < |acts|
    ensures forall k, p, q :: 0 <= p < |s| && 0 <= q < |s| && Writes(acts, s[p], k) && Reads(acts, s[q], k) ==> p < q
  {
    hide ScheduledAs;
    var l := LinksOf(acts, s);
    forall k, p, q | 0 <= p < |s| && 0 <= q < |s| && Writes(acts, s[p], k) && Reads(acts, s[q], k)
      ensures p < q
    {
      WriterBeforeReader(TableOf(acts), l, s, k, p, q);
    }
  }

  // ---------- The order in which actions are added ----------

  /** Every action declares distinct keys, and an action added twice declares nothing. */
  ghost predicate DeclaresOnce(acts: seq<Action>) {
    forall p :: 0 <= p < |acts| ==> DeclaresOnceAt(acts, p)
  }

  ghost predicate DeclaresOnceAt(acts: seq<Action>, p: nat)
    requires p < |acts|
  {
    && Distinct(Keys(acts[p].data, In)) && Distinct(Keys(acts[p].data, Out))
    && forall q :: 0 <= q < |acts| && q != p && acts[q].id == acts[p].id ==>
      Keys(acts[p].data, In) == [] && Keys(acts[p].data, Out) == []
  }

  function Plain(a: Action): Item {
    Item(a.id, Keys(a.data, In), Keys(a.data, Out))
  }

  lemma {:induction false} CountAlone(acts: seq<Action>, p: nat)
    requires p < |acts| && forall q :: 0 <= q < |acts| && q != p ==> acts[q].id != acts[p].id
    ensures Count(acts, acts[p].id) == 1
  {
    var n := |acts| - 1;
    if p < n {
      CountAlone(acts[..n], p);
    } else {
      CountZero(acts[..n], acts[n].id);
    }
  }

  lemma {:induction false} RepeatedOnce(keys: seq<Key>)
    ensures Repeated(keys, 1) == keys
  {
    assert Repeated(keys, 0) == [];
  }

  lemma {:induction false} PlainItem(acts: seq<Action>, p: nat)
    requires SameObject(acts) && p < |acts|
    requires DeclaresOnceAt(acts, p) || NoRepeat(TableOf(acts))
    ensures TableOf(acts)[p] == Plain(acts[p]) && DeclaresOnceAt(acts, p)
  {
    var t, a := TableOf(acts), acts[p];
    var ins, outs := Keys(a.data, In), Keys(a.data, Out);
    TableShape(acts);
    assert ItemShape(acts, t, p);
    RepeatedOnce(ins);
    RepeatedOnce(outs);
    if q :| 0 <= q < |acts| && q != p && acts[q].id == a.id {
      CountTwo(acts, if p < q then p else q, if p < q then q else p);
      var m := Count(acts, a.id);
      if NoRepeat(t) {
        FirstOf(acts, p);
        var f: nat :| f <= p && acts[f] == a && First(acts, f);
        assert ItemShape(acts, t, f);
        NothingTwice(ins, m);
        NothingTwice(outs, m);
      }
      RepeatedNothing(m);
    } else {
      CountAlone(acts, p);
    }
  }

  lemma {:induction false} FirstOf(acts: seq<Action>, p: nat)
    requires SameObject(acts) && p < |acts|
    ensures exists f: nat :: f <= p && acts[f] == acts[p] && First(acts, f)
  {
    if !First(acts, p) {
      var q: nat :| q < p && acts[q].id == acts[p].id;
      FirstOf(acts, q);
    }
  }

  lemma {:induction false} NothingTwice(once: seq<Key>, m: nat)
    requires m >= 2 && Distinct(Repeated(once, m))
    ensures once == []
  {
    if once != [] {
      RepeatedRepeats(once, m);
      assert false;
    }
  }

  /** The condition on the registered table says the same about the actions themselves. */
  lemma {:induction false} NoRepeatIsDeclaresOnce(acts: seq<Action>)
    requires SameObject(acts)
    ensures NoRepeat(TableOf(acts)) <==> DeclaresOnce(acts)
    ensures DeclaresOnce(acts) ==> forall p :: 0 <= p < |acts| ==> TableOf(acts)[p] == Plain(acts[p])
  {
    if NoRepeat(TableOf(acts)) || DeclaresOnce(acts) {
      forall p | 0 <= p < |acts|
        ensures TableOf(acts)[p] == Plain(acts[p]) && DeclaresOnceAt(acts, p)
      {
        PlainItem(acts, p);
      }
    }
  }

  /** bs are the actions of acts, added in the order p. */
  ghost predicate AddedInOrder(acts: seq<Action>, bs: seq<Action>, p: seq<nat>, q: seq<nat>) {
    && |bs| == |acts| == |p| == |q|
    && (forall a :: 0 <= a < |acts| ==> p[a] < |acts| && q[a] < |acts| && q[p[a]] == a && p[q[a]] == a)
    && (forall a :: 0 <= a < |acts| ==> bs[a] == acts[p[a]])
  }

  lemma {:induction false} OrderKeepsDeclaresOnce(acts: seq<Action>, bs: seq<Action>, p: seq<nat>, q: seq<nat>)
    requires AddedInOrder(acts, bs, p, q) && DeclaresOnce(acts) && SameObject(acts)
    ensures DeclaresOnce(bs) && SameObject(bs)
  {
    forall a | 0 <= a < |bs| ensures DeclaresOnceAt(bs, a) {
      assert DeclaresOnceAt(acts, p[a]);
    }
  }

  lemma {:induction false} LoopReordered(t: Table, u: Table, p: seq<nat>, q: seq<nat>, c: seq<nat>)
    requires Reordered(t, u, p, q) && DependencyLoop(t, c)
    ensures exists d :: DependencyLoop(u, d)
  {
    var d := seq(|c|, j requires 0 <= j < |c| => q[c[j]]);
    forall j | 0 <= j < |d| - 1 ensures Feeds(u, d[j + 1], d[j]) {
      assert Feeds(t, c[j + 1], c[j]);
    }
    assert DependencyLoop(u, d);
  }

  /** The order in which actions are added does not decide whether they can be scheduled,
      provided no action names a key twice on one side. */
  lemma {:induction false} OrderDoesNotMatter(acts: seq<Action>, bs: seq<Action>, p: seq<nat>, q: seq<nat>)
    requires AddedInOrder(acts, bs, p, q) && SameObject(acts) && NoRepeat(TableOf(acts))
    ensures SameObject(bs) && NoRepeat(TableOf(bs))
    ensures Schedulable(TableOf(acts)) <==> Schedulable(TableOf(bs))
  {
    NoRepeatIsDeclaresOnce(acts);
    OrderKeepsDeclaresOnce(acts, bs, p, q);
    NoRepeatIsDeclaresOnce(bs);
    if Schedulable(TableOf(acts)) {
      SchedulableReordered(acts, bs, p, q);
    }
    if Schedulable(TableOf(bs)) {
      AddedBack(acts, bs, p, q);
      SchedulableReordered(bs, acts, q, p);
    }
  }

  /** The actions can be scheduled in whatever order they are added. */
  ghost predicate SchedulableInAnyOrder(acts: seq<Action>) {
    forall bs, p, q :: AddedInOrder(acts, bs, p, q) ==> Schedulable(TableOf(bs))
  }

  lemma {:induction false} RepeatStays(once: seq<Key>, m: nat)
    requires m >= 1 && !Distinct(once)
    ensures !Distinct(Repeated(once, m))
  {
    var i, j :| 0 <= i < j < |once| && once[i] == once[j];
    var n := |Repeated(once, m - 1)|;
    assert Repeated(once, m)[n + i] == Repeated(once, m)[n + j];
  }

  /** An action that does not declare every key once repeats one in its item when it is added first. */
  lemma {:induction false} FirstItemRepeats(acts: seq<Action>)
    requires SameObject(acts) && acts != [] && !DeclaresOnceAt(acts, 0)
    ensures var it := TableOf(acts)[0]; !Distinct(it.readKeys) || !Distinct(it.writeKeys)
  {
    var a := acts[0];
    var ins, outs, m := Keys(a.data, In), Keys(a.data, Out), Count(acts, a.id);
    TableShape(acts);
    assert ItemShape(acts, TableOf(acts), 0);
    CountOne(acts, 0);
    if !Distinct(ins) {
      RepeatStays(ins, m);
    } else if !Distinct(outs) {
      RepeatStays(outs, m);
    } else {
      var q: nat :| q < |acts| && q != 0 && acts[q].id == a.id;
      CountTwo(acts, 0, q);
      RepeatedRepeats(if ins != [] then ins else outs, m);
    }
  }

  lemma {:induction false} AddedFirst(acts: seq<Action>, a: nat) returns (bs: seq<Action>, p: seq<nat>)
    requires a < |acts|
    ensures AddedInOrder(acts, bs, p, p) && bs[0] == acts[a] && p[0] == a
  {
    p := LinkFailures.Exchanged(|acts|, a);
    bs := seq(|acts|, k requires 0 <= k < |acts| => acts[p[k]]);
  }

  lemma {:induction false} FirstAsBad(acts: seq<Action>, bs: seq<Action>, p: seq<nat>, a: nat)
    requires AddedInOrder(acts, bs, p, p) && a < |acts| && bs[0] == acts[a] && p[0] == a && SameObject(acts)
    requires !DeclaresOnceAt(acts, a)
    ensures SameObject(bs) && !DeclaresOnceAt(bs, 0)
  {
    if r: nat :| r < |acts| && r != a && acts[r].id == acts[a].id {
      assert bs[p[r]] == acts[r];
    }
  }

  /** If some action does not declare every key once, there is an order in which scheduling fails. */
  lemma {:induction false} SomeOrderFails(acts: seq<Action>, a: nat) returns (bs: seq<Action>, p: seq<nat>)
    requires SameObject(acts) && a < |acts| && !DeclaresOnceAt(acts, a)
    ensures AddedInOrder(acts, bs, p, p) && !Schedulable(TableOf(bs))
  {
    bs, p := AddedFirst(acts, a);
    FirstAsBad(acts, bs, p, a);
    FirstItemRepeats(bs);
    forall l ensures !Returns(TableOf(bs), l) {
      LinkFailures.FirstRepeats(TableOf(bs), l);
    }
  }

  /** The documentation's promise, exactly: scheduling succeeds whatever the order in which the actions are added if and
      only if every key has one reader and one writer and no action depends on itself through others. */
  lemma {:induction false} AnyOrderExact(acts: seq<Action>)
    requires SameObject(acts)
    ensures SchedulableInAnyOrder(acts) <==>
      WellLinked(TableOf(acts)) && forall c :: !DependencyLoop(TableOf(acts), c)
  {
    if NoRepeat(TableOf(acts)) {
      ScheduleExact(acts);
      assert AddedInOrder(acts, acts, Positions(|acts|), Positions(|acts|));
      forall bs, p, q | AddedInOrder(acts, bs, p, q)
        ensures Schedulable(TableOf(acts)) <==> Schedulable(TableOf(bs))
      {
        OrderDoesNotMatter(acts, bs, p, q);
      }
    } else {
      NoRepeatIsDeclaresOnce(acts);
      var a: nat :| a < |acts| && !DeclaresOnceAt(acts, a);
      var bs, p := SomeOrderFails(acts, a);
      if WellLinked(TableOf(acts)) {
        WellLinkedNoRepeat(TableOf(acts));
      }
    }
  }

  /** For actions that can be scheduled in the order in which they were added, the order matters exactly when some action
      does not declare every key once. */
  lemma {:induction false} OrderMattersExactly(acts: seq<Action>)
    requires SameObject(acts) && Schedulable(TableOf(acts))
    ensures SchedulableInAnyOrder(acts) <==> DeclaresOnce(acts)
  {
    AnyOrderExact(acts);
    NoRepeatIsDeclaresOnce(acts);
    if DeclaresOnce(acts) {
      ScheduleExact(acts);
    }
    if WellLinked(TableOf(acts)) {
      WellLinkedNoRepeat(TableOf(acts));
    }
  }

  lemma {:induction false} AddedBack(acts: seq<Action>, bs: seq<Action>, p: seq<nat>, q: seq<nat>)
    requires AddedInOrder(acts, bs, p, q)
    ensures AddedInOrder(bs, acts, q, p)
  {
  }

  /** Actions that declare every key once are registered as the same items in another order. */
  lemma {:induction false} ItemsReordered(acts: seq<Action>, bs: seq<Action>, p: seq<nat>, q: seq<nat>)
    requires AddedInOrder(acts, bs, p, q) && SameObject(acts) && SameObject(bs)
    requires NoRepeat(TableOf(acts)) && NoRepeat(TableOf(bs))
    ensures Reordered(TableOf(acts), TableOf(bs), p, q)
  {
    NoRepeatIsDeclaresOnce(acts);
    NoRepeatIsDeclaresOnce(bs);
  }

  lemma {:induction false} LoopFreeReordered(t: Table, u: Table, p: seq<nat>, q: seq<nat>)
    requires Reordered(t, u, p, q) && forall c :: !DependencyLoop(t, c)
    ensures forall d :: !DependencyLoop(u, d)
  {
    hide DependencyLoop;
    ReorderedBack(t, u, p, q);
    forall d ensures !DependencyLoop(u, d) {
      if DependencyLoop(u, d) {
        LoopReordered(u, t, q, p, d);
        assert false;
      }
    }
  }

  lemma {:induction false} SchedulableReordered(acts: seq<Action>, bs: seq<Action>, p: seq<nat>, q: seq<nat>)
    requires AddedInOrder(acts, bs, p, q) && SameObject(acts) && SameObject(bs)
    requires NoRepeat(TableOf(acts)) && NoRepeat(TableOf(bs)) && Schedulable(TableOf(acts))
    ensures Schedulable(TableOf(bs))
  {
    hide Schedulable, DependencyLoop, WellLinked, Reordered;
    ScheduleExact(acts);
    ScheduleExact(bs);
    ItemsReordered(acts, bs, p, q);
    ReorderedSides(TableOf(acts), TableOf(bs), p, q);
    LoopFreeReordered(TableOf(acts), TableOf(bs), p, q);
  }
}
