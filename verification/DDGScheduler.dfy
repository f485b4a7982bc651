/** The data-dependency scheduler as it runs: registration, linking and sorting update the object in place
    (SIM/src/Scheduler.C, SIM/src/DDGScheduler.C). Each method is tied to the function it computes. */
module DDGSchedulers {
  import opened Actions
  import opened Common
  import opened DataDependency
  import LinkTheorems
  import opened ScheduleTheorems
  import Topo = TopologicalOrder

  /** How a call ends: it returns, it stops the program, or it is still going round its loop. */
  datatype Ending = Returned | Stopped | StillLooping

  /** An ending, with the links that are then set, tells what became of a run. */
  ghost predicate Reports(end: Ending, l: Links, r: Outcome) {
    match r
    case Done(m) => end == Returned && l == m
    case Aborted => end == Stopped
    case Running(s) => end == StillLooping && l == s.links
  }

  class DDGScheduler {
    var actions: Table
    var input: seq<seq<int>>
    var output: seq<seq<int>>
    var sort: seq<nat>
    var scheduled: bool

    function CurrentLinks(): Links
      reads this
    {
      Links(input, output)
    }

    ghost predicate Valid()
      reads this
    {
      Shaped(actions, CurrentLinks())
    }

    /** No slot has been linked yet. */
    ghost predicate Unset()
      reads this
    {
      && (forall a, i :: 0 <= a < |input| && 0 <= i < |input[a]| ==> input[a][i] == NULL)
      && (forall a, i :: 0 <= a < |output| && 0 <= i < |output[a]| ==> output[a][i] == NULL)
    }

    constructor ()
      ensures Valid() && actions == [] && sort == [] && !scheduled && Unset()
    {
      actions, input, output, sort, scheduled := [], [], [], [], false;
    }

    /** The linear search for the item of an action; -1 when the action is not registered. */
    method ItemOf(id: nat) returns (p: int)
      ensures p == Locate(actions, id)
    {
      for i := 0 to |actions|
        invariant forall q :: 0 <= q < i ==> actions[q].action != id
      {
        if actions[i].action == id {
          return i;
        }
      }
      return -1;
    }

    /** `Scheduler::reads`: a declared key and an open link go to the first item of the action. It answers false where the
        source aborts. */
    method Reads(id: nat, k: Key) returns (ok: bool)
      requires Valid()
      modifies this`actions, this`input
      ensures Valid() && ok == (Locate(old(actions), id) != -1)
      ensures !ok ==> unchanged(this)
      ensures ok ==> var p := Locate(old(actions), id); actions == old(actions)[p := WithRead(old(actions)[p], k)]
      ensures ok ==> var p := Locate(old(actions), id);
        && actions[p].readKeys == old(actions)[p].readKeys + [k] && input[p] == old(input)[p] + [NULL]
        && forall q :: 0 <= q < |input| && q != p ==> input[q] == old(input)[q]
      ensures old(Unset()) ==> Unset()
    {
      var p := ItemOf(id);
      if p == -1 {
        return false;
      }
      ReadShaped(actions, CurrentLinks(), p, k);
      actions := actions[p := WithRead(actions[p], k)];
      input := input[p := input[p] + [NULL]];
      ok := true;
    }

    /** `Scheduler::writes`. */
    method Writes(id: nat, k: Key) returns (ok: bool)
      requires Valid()
      modifies this`actions, this`output
      ensures Valid() && ok == (Locate(old(actions), id) != -1)
      ensures !ok ==> unchanged(this)
      ensures ok ==> var p := Locate(old(actions), id); actions == old(actions)[p := WithWrite(old(actions)[p], k)]
      ensures ok ==> var p := Locate(old(actions), id);
        && actions[p].writeKeys == old(actions)[p].writeKeys + [k] && output[p] == old(output)[p] + [NULL]
        && forall q :: 0 <= q < |output| && q != p ==> output[q] == old(output)[q]
      ensures old(Unset()) ==> Unset()
    {
      var p := ItemOf(id);
      if p == -1 {
        return false;
      }
      WriteShaped(actions, CurrentLinks(), p, k);
      actions := actions[p := WithWrite(actions[p], k)];
      output := output[p := output[p] + [NULL]];
      ok := true;
    }

    /** One declaration of an action. */
    method Declare(id: nat, d: ActionData) returns (ok: bool)
      requires Valid()
      modifies this`actions, this`input, this`output
      ensures Valid() && ok == (Locate(old(actions), id) != -1)
      ensures ok ==> var p := Locate(old(actions), id); actions == old(actions)[p := WithData(old(actions)[p], d)]
      ensures old(Unset()) ==> Unset()
    {
      match d.intent {
        case In => ok := Reads(id, d.key);
        case Out => ok := Writes(id, d.key);
      }
    }

    /** `Action::declare`, called back from `add_action` when the action has an item. */
    method DeclareAll(a: Action)
      requires Valid() && Locate(actions, a.id) != -1
      modifies this`actions, this`input, this`output
      ensures Valid()
      ensures var p := Locate(old(actions), a.id); actions == old(actions)[p := Declared(old(actions)[p], a.data)]
      ensures old(Unset()) ==> Unset()
    {
      hide Shaped, Keys;
      ghost var t, p := actions, Locate(actions, a.id);
      DeclaredNone(t[p]);
      for i := 0 to |a.data|
        invariant Valid() && actions == t[p := Declared(t[p], a.data[..i])]
        invariant old(Unset()) ==> Unset()
      {
        SameLocation(t, p, Declared(t[p], a.data[..i]), a.id);
        var ok := Declare(a.id, a.data[i]);
        DeclaredMore(t[p], a.data[..i], a.data[i]);
        assert a.data[..i] + [a.data[i]] == a.data[..i + 1];
      }
      assert a.data[..|a.data|] == a.data;
    }

    /** `Scheduler::add_action`. */
    method AddAction(a: Action)
      requires Valid()
      modifies this`actions, this`input, this`output
      ensures Valid() && actions == Registered(old(actions), a)
      ensures old(Unset()) ==> Unset()
    {
      actions, input, output := actions + [Item(a.id, [], [])], input + [[]], output + [[]];
      assert actions[|actions| - 1].action == a.id;
      DeclareAll(a);
    }

    // ---------- buildDDG ----------

    /** The search for the writer of one read slot (lines 58-83). */
    method FindWriter(pool: seq<nat>, a: nat, i: nat) returns (ok: bool)
      requires Valid() && InPool(actions, CurrentLinks(), pool) && a < |actions| && i < |actions[a].readKeys|
      modifies this`input, this`output
      ensures ok ==> Valid()
      ensures ScanWriters(actions, old(CurrentLinks()), pool, a, i, 0) == if ok then Some(CurrentLinks()) else None
    {
      for p := 0 to |pool|
        invariant Valid()
        invariant ScanWriters(actions, old(CurrentLinks()), pool, a, i, 0)
               == ScanWriters(actions, CurrentLinks(), pool, a, i, p)
      {
        var b := pool[p];
        var o := IndexOf(actions[b].writeKeys, actions[a].readKeys[i]);
        if o != -1 {
          JoinShaped(actions, CurrentLinks(), a, i, b, o);
          if input[a][i] != NULL {
            return false;
          }
          input := input[a := input[a][i := b]];
          if output[b][o] != NULL {
            return false;
          }
          output := output[b := output[b][o := a]];
        }
      }
      return true;
    }

    /** The read slots of an action (lines 55-93). */
    method LinkInputs(pool: seq<nat>, a: nat) returns (ok: bool)
      requires Valid() && InPool(actions, CurrentLinks(), pool) && a < |actions|
      modifies this`input, this`output
      ensures ok ==> Valid()
      ensures LinkReads(actions, old(CurrentLinks()), pool, a, 0) == if ok then Some(CurrentLinks()) else None
    {
      for i := 0 to |actions[a].readKeys|
        invariant Valid()
        invariant LinkReads(actions, old(CurrentLinks()), pool, a, 0) == LinkReads(actions, CurrentLinks(), pool, a, i)
      {
        if input[a][i] == NULL {
          ok := FindWriter(pool, a, i);
          if !ok || input[a][i] == NULL {
            return false;
          }
        }
      }
      return true;
    }

    /** The search for the reader of one write slot (lines 98-125). */
    method FindReader(pool: seq<nat>, a: nat, i: nat) returns (ok: bool)
      requires Valid() && InPool(actions, CurrentLinks(), pool) && a < |actions| && i < |actions[a].writeKeys|
      requires InPool(MirrorTable(actions), MirrorLinks(CurrentLinks()), pool)
      modifies this`input, this`output
      ensures ok ==> Valid()
      ensures ScanWriters(MirrorTable(actions), MirrorLinks(old(CurrentLinks())), pool, a, i, 0)
           == if ok then Some(MirrorLinks(CurrentLinks())) else None
    {
      ghost var m := MirrorTable(actions);
      for p := 0 to |pool|
        invariant Valid() && Shaped(m, MirrorLinks(CurrentLinks()))
        invariant ScanWriters(m, MirrorLinks(old(CurrentLinks())), pool, a, i, 0)
               == ScanWriters(m, MirrorLinks(CurrentLinks()), pool, a, i, p)
      {
        var b := pool[p];
        var o := IndexOf(actions[b].readKeys, actions[a].writeKeys[i]);
        if o != -1 {
          JoinShaped(m, MirrorLinks(CurrentLinks()), a, i, b, o);
          MirrorShaped(actions, MirrorLinks(Join(MirrorLinks(CurrentLinks()), a, i, b, o)));
          if output[a][i] != NULL {
            return false;
          }
          output := output[a := output[a][i := b]];
          if input[b][o] != NULL {
            return false;
          }
          input := input[b := input[b][o := a]];
        }
      }
      return true;
    }

    /** The write slots of an action that only writes (lines 94-136). */
    method LinkOutputs(pool: seq<nat>, a: nat) returns (ok: bool)
      requires Valid() && InPool(actions, CurrentLinks(), pool) && a < |actions|
      modifies this`input, this`output
      ensures ok ==> Valid()
      ensures LinkWrites(actions, old(CurrentLinks()), pool, a, 0) == if ok then Some(CurrentLinks()) else None
    {
      ghost var m := MirrorTable(actions);
      MirrorShaped(actions, CurrentLinks());
      for i := 0 to |actions[a].writeKeys|
        invariant Valid() && Shaped(m, MirrorLinks(CurrentLinks()))
        invariant LinkReads(m, MirrorLinks(old(CurrentLinks())), pool, a, 0)
               == LinkReads(m, MirrorLinks(CurrentLinks()), pool, a, i)
      {
        if output[a][i] == NULL {
          ok := FindReader(pool, a, i);
          if !ok || output[a][i] == NULL {
            return false;
          }
          MirrorShaped(actions, CurrentLinks());
        }
      }
      return true;
    }

    /** One round of the outer loop (lines 54-155). */
    method Round(pool: seq<nat>, act: nat) returns (end: Ending, pool': seq<nat>, act': nat)
      requires Valid() && ValidSweep(actions, Sweep(CurrentLinks(), pool, act)) && pool != []
      modifies this`input, this`output
      ensures end != Stopped ==> Valid()
      ensures Step(actions, Sweep(old(CurrentLinks()), pool, act)) ==
        match end
        case Stopped => Aborted
        case Returned => Done(CurrentLinks())
        case StillLooping => Running(Sweep(CurrentLinks(), pool', act'))
    {
      pool', act' := pool, act;
      var ok;
      if |actions[pool[act]].readKeys| > 0 {
        ok := LinkInputs(pool, pool[act]);
      } else {
        ok := LinkOutputs(pool, pool[act]);
      }
      if !ok {
        return Stopped, pool, act;
      }
      var last := act == |pool| - 1;
      if Fulfilled(CurrentLinks(), pool[act]) {
        if |pool| == 1 {
          return Returned, pool, act;
        }
        return StillLooping, Erase(pool, act), if last then 0 else act;
      }
      return StillLooping, pool, if last then 0 else act + 1;
    }

    /** `buildDDG`, observed for at most the given number of rounds of its outer loop.
        On `Stopped` the source has called COM_abort_msg and the links no longer matter. */
    method BuildDDG(rounds: nat) returns (end: Ending)
      requires Valid()
      modifies this`input, this`output
      ensures end != Stopped ==> Valid()
      ensures Reports(end, CurrentLinks(), Run(actions, Sweep(old(CurrentLinks()), Positions(|actions|), 0), rounds))
    {
      hide DataDependency.Step;
      var pool, act := Positions(|actions|), 0;
      var left := rounds;
      ghost var t, now := actions, Sweep(CurrentLinks(), pool, 0);
      ghost var outcome := Run(t, now, rounds);
      while pool != [] && left > 0
        invariant Valid() && actions == t && now == Sweep(CurrentLinks(), pool, act)
        invariant ValidSweep(t, now) && outcome == Run(t, now, left)
        decreases left
      {
        LinkTheorems.RunOnce(t, now, Step(t, now), left);
        end, pool, act := Round(pool, act);
        if end != StillLooping {
          return;
        }
        now := Sweep(CurrentLinks(), pool, act);
        left := left - 1;
      }
      LinkTheorems.RunEnds(t, now, left);
      return if pool == [] then Returned else StillLooping;
    }

    /** `sanityCheck`. */
    method CheckSanity() returns (ok: bool)
      requires Valid()
      ensures ok == LinkTheorems.SanityCheck(actions, CurrentLinks())
    {
      for a := 0 to |actions|
        invariant forall x :: 0 <= x < a ==>
          |input[x]| == |actions[x].readKeys| && Filled(input[x]) &&
          |output[x]| == |actions[x].writeKeys| && Filled(output[x])
      {
        if |actions[a].readKeys| != |input[a]| {
          return false;
        }
        for i := 0 to |actions[a].readKeys|
          invariant forall x :: 0 <= x < i ==> input[a][x] != NULL
        {
          if input[a][i] == NULL {
            return false;
          }
        }
        if |actions[a].writeKeys| != |output[a]| {
          return false;
        }
        for i := 0 to |actions[a].writeKeys|
          invariant forall x :: 0 <= x < i ==> output[a][x] != NULL
        {
          if output[a][i] == NULL {
            return false;
          }
        }
      }
      return true;
    }

    /** Whether every feeder of item x is found in the sorted list (lines 199-216). */
    method InputsSorted(x: nat) returns (ok: bool)
      requires Valid() && LinkTheorems.SanityCheck(actions, CurrentLinks()) && x < |actions|
      requires forall s :: 0 <= s < |sort| ==> sort[s] < |actions|
      ensures ok == Topo.Ready(GraphOf(actions, CurrentLinks()), sort, x)
    {
      ghost var g := GraphOf(actions, CurrentLinks());
      for i := 0 to |actions[x].readKeys|
        invariant forall j :: 0 <= j < i ==> Topo.Found(g, sort, g.input[x][j])
      {
        var y := input[x][i];
        assert y == g.input[x][i];
        var s := 0;
        while s < |sort| && actions[sort[s]].action != actions[y].action
          invariant 0 <= s <= |sort|
          invariant forall r :: 0 <= r < s ==> actions[sort[r]].action != actions[y].action
        {
          s := s + 1;
        }
        if s == |sort| {
          assert !Topo.Found(g, sort, g.input[x][i]);
          return false;
        }
        assert g.action[sort[s]] == g.action[y];
      }
      return true;
    }

    /** The first member of the pool whose feeders are all sorted (lines 195-217), or the length of the pool. */
    method NextReady(pool: seq<nat>) returns (p: nat)
      requires Valid() && LinkTheorems.SanityCheck(actions, CurrentLinks())
      requires Topo.InRange(GraphOf(actions, CurrentLinks()), pool)
      requires Topo.InRange(GraphOf(actions, CurrentLinks()), sort)
      ensures p == Topo.FirstReady(GraphOf(actions, CurrentLinks()), pool, sort, 0)
    {
      ghost var g := GraphOf(actions, CurrentLinks());
      p := 0;
      while p < |pool|
        invariant p <= |pool|
        invariant Topo.FirstReady(g, pool, sort, 0) == Topo.FirstReady(g, pool, sort, p)
      {
        if |actions[pool[p]].readKeys| == 0 {
          assert |g.input[pool[p]]| == 0;
          return;
        }
        var ready := InputsSorted(pool[p]);
        if ready {
          return;
        }
        p := p + 1;
      }
    }

    /** `topological_sort`. */
    method TopologicalSort() returns (ok: bool)
      requires Valid() && LinkTheorems.SanityCheck(actions, CurrentLinks())
      requires forall s :: 0 <= s < |sort| ==> sort[s] < |actions|
      modifies this`sort
      ensures sort == Topo.SortFrom(GraphOf(actions, CurrentLinks()), Positions(|actions|), old(sort))
      ensures ok <==> |sort| == |old(sort)| + |actions|
    {
      ghost var g := GraphOf(actions, CurrentLinks());
      var pool := Positions(|actions|);
      while pool != []
        invariant Topo.InRange(g, pool) && Topo.InRange(g, sort)
        invariant |sort| + |pool| == |old(sort)| + |actions|
        invariant Topo.SortFrom(g, pool, sort) == Topo.SortFrom(g, Positions(|actions|), old(sort))
        decreases |pool|
      {
        var p := NextReady(pool);
        if p == |pool| {
          return false;
        }
        sort := sort + [pool[p]];
        pool := Erase(pool, p);
      }
      return true;
    }

    /** `schedule`, with the loop of `buildDDG` observed for at most the given number of rounds.
        Scheduling of nested schedulers is the subject of SchedulerLifecycle. */
    method Schedule(rounds: nat) returns (end: Ending)
      requires Valid() && (!scheduled ==> Unset() && sort == [])
      modifies this`input, this`output, this`sort, this`scheduled
      ensures end != Stopped ==> Valid()
      ensures old(scheduled) ==> end == Stopped && unchanged(this)
      ensures !old(scheduled) ==>
        match Run(actions, Start(actions), rounds)
        case Running(_) => end == StillLooping && !scheduled
        case Aborted => end == Stopped && !scheduled
        case Done(l) =>
          && LinkTheorems.SanityCheck(actions, l) && CurrentLinks() == l
          && sort == Topo.Sort(GraphOf(actions, l))
          && end == (if Topo.Complete(GraphOf(actions, l)) then Returned else Stopped)
          && scheduled == (end == Returned)
    {
      if scheduled {
        return Stopped;
      }
      UnsetIsUnlinked(actions, CurrentLinks());
      assert Sweep(CurrentLinks(), Positions(|actions|), 0) == Start(actions);
      end := BuildDDG(rounds);
      if end != Returned {
        return;
      }
      assert Run(actions, Start(actions), rounds) == Done(CurrentLinks());
      LinkTheorems.SanityCheckPasses(actions, CurrentLinks());
      var ok := CheckSanity();
      if !ok {
        return Stopped;
      }
      ok := TopologicalSort();
      if !ok {
        return Stopped;
      }
      scheduled := true;
    }
  }

  lemma {:induction false} UnsetIsUnlinked(t: Table, l: Links)
    requires Shaped(t, l)
    requires forall a, i :: 0 <= a < |l.input| && 0 <= i < |l.input[a]| ==> l.input[a][i] == NULL
    requires forall a, i :: 0 <= a < |l.output| && 0 <= i < |l.output[a]| ==> l.output[a][i] == NULL
    ensures l == Unlinked(t)
  {
    var u := Unlinked(t);
    assert forall a :: 0 <= a < |t| ==> |ReadSide(t)[a]| == |t[a].readKeys| && |WriteSide(t)[a]| == |t[a].writeKeys|;
    assert forall a :: 0 <= a < |t| ==> l.input[a] == u.input[a];
    assert forall a :: 0 <= a < |t| ==> l.output[a] == u.output[a];
  }

  lemma {:induction false} JoinShaped(t: Table, l: Links, a: nat, i: nat, b: nat, o: nat)
    requires Shaped(t, l) && a < |t| && i < |t[a].readKeys| && b < |t| && o < |t[b].writeKeys|
    ensures i < |l.input[a]| && o < |l.output[b]| && Shaped(t, Join(l, a, i, b, o))
  {
    assert ReadSide(t)[a] == t[a].readKeys && WriteSide(t)[b] == t[b].writeKeys;
  }

  lemma {:induction false} SameLocation(t: Table, p: nat, it: Item, id: nat)
    requires Locate(t, id) == p < |t| && it.action == id
    ensures Locate(t[p := it], id) == p
  {
    var u := t[p := it];
    assert u[p].action == id && forall q :: 0 <= q < |t| && q != p ==> u[q] == t[q];
  }

  function WithRead(it: Item, k: Key): Item {
    Item(it.action, it.readKeys + [k], it.writeKeys)
  }

  function WithWrite(it: Item, k: Key): Item {
    Item(it.action, it.readKeys, it.writeKeys + [k])
  }

  lemma {:induction false} ReadShaped(t: Table, l: Links, p: nat, k: Key)
    requires Shaped(t, l) && p < |t|
    ensures Shaped(t[p := WithRead(t[p], k)], Links(l.input[p := l.input[p] + [NULL]], l.output))
  {
    var u := t[p := WithRead(t[p], k)];
    assert ReadSide(u) == ReadSide(t)[p := t[p].readKeys + [k]];
    assert WriteSide(u) == WriteSide(t);
  }

  lemma {:induction false} WriteShaped(t: Table, l: Links, p: nat, k: Key)
    requires Shaped(t, l) && p < |t|
    ensures Shaped(t[p := WithWrite(t[p], k)], Links(l.input, l.output[p := l.output[p] + [NULL]]))
  {
    var u := t[p := WithWrite(t[p], k)];
    assert WriteSide(u) == WriteSide(t)[p := t[p].writeKeys + [k]];
    assert ReadSide(u) == ReadSide(t);
  }

  lemma {:induction false} KeysAppend(xs: seq<ActionData>, ys: seq<ActionData>, side: Intent)
    ensures Keys(xs + ys, side) == Keys(xs, side) + Keys(ys, side)
  {
    if xs == [] {
      assert xs + ys == ys;
    } else {
      assert (xs + ys)[1..] == xs[1..] + ys;
      KeysAppend(xs[1..], ys, side);
    }
  }

  lemma {:induction false} OneKey(d: ActionData, side: Intent)
    ensures Keys([d], side) == if d.intent == side then [d.key] else []
  {
    assert Keys([d][1..], side) == [];
  }

  lemma {:induction false} DeclaredNone(it: Item)
    ensures Declared(it, []) == it
  {
  }

  function WithData(it: Item, d: ActionData): Item {
    if d.intent == In then WithRead(it, d.key) else WithWrite(it, d.key)
  }

  /** One more declaration goes to the back of the list of its side. */
  lemma {:induction false} DeclaredMore(it: Item, xs: seq<ActionData>, d: ActionData)
    ensures Declared(it, xs + [d]) == WithData(Declared(it, xs), d)
  {
    KeysAppend(xs, [d], In);
    KeysAppend(xs, [d], Out);
    OneKey(d, In);
    OneKey(d, Out);
  }

  // ---------- The object and the declarations ----------

  /** When two rounds per action are enough, and what an ended loop says. */
  lemma {:induction false} OutcomeExact(acts: seq<Action>, rounds: nat)
    requires SameObject(acts) && NoRepeat(TableOf(acts)) && rounds >= 2 * |acts|
    ensures var t := TableOf(acts); var r := Run(t, Start(t), rounds);
      Schedulable(t) <==> r.Done? && LinkTheorems.SanityCheck(t, r.links) && Topo.Complete(GraphOf(t, r.links))
  {
    hide Step;
    var t := TableOf(acts);
    var r := Run(t, Start(t), rounds);
    if Schedulable(t) {
      ScheduleExact(acts);
      LinkTheorems.BuildCompletes(t, rounds);
      var l :| Returns(t, l) && Shaped(t, l) && LinkTheorems.SanityCheck(t, l) && Topo.Complete(GraphOf(t, l));
      assert Returns(t, r.links);
      ReturnsUnique(t, l, r.links);
    }
    if r.Done? {
      assert Returns(t, r.links);
    }
  }

  /** A new scheduler is given the actions and scheduled. When no action names a key twice on one side and the loop of
      `buildDDG` is watched for two rounds per action, `schedule` returns exactly when every key has one reader and one
      writer and no action depends on itself through others. */
  method AddAndSchedule(acts: seq<Action>, rounds: nat) returns (s: DDGScheduler, end: Ending)
    ensures fresh(s) && s.actions == TableOf(acts)
    ensures SameObject(acts) && NoRepeat(TableOf(acts)) && rounds >= 2 * |acts| ==>
      (end == Returned <==> LinkTheorems.WellLinked(TableOf(acts)) && forall c :: !DependencyLoop(TableOf(acts), c))
    ensures end == Returned ==> ScheduledAs(TableOf(acts), s.sort)
  {
    hide Run;
    s := new DDGScheduler();
    for k := 0 to |acts|
      invariant fresh(s) && s.Valid() && s.actions == TableOf(acts[..k]) && s.sort == [] && !s.scheduled && s.Unset()
    {
      assert acts[..k + 1][..k] == acts[..k];
      s.AddAction(acts[k]);
    }
    assert acts[..|acts|] == acts;
    end := s.Schedule(rounds);
    ghost var t := TableOf(acts);
    if SameObject(acts) && NoRepeat(t) && rounds >= 2 * |acts| {
      OutcomeExact(acts, rounds);
      ScheduleExact(acts);
    }
    if end == Returned {
      assert Returns(t, s.CurrentLinks());
    }
  }
}
