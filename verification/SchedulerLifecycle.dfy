/** The life cycle of a scheduler and of the schedulers nested in it (SIM/src/Scheduler.C, SIM/src/SchedulerAction.C,
    SIM/src/UserScheduler.C): what is called on every action, in which order, over every sequence of operations. */
module SchedulerLifecycle {
  import opened Common
  import Topo = TopologicalOrder

  /** An action of a scheduler, as a value: an ordinary one, or one that holds a scheduler. */
  datatype Node = Leaf(id: nat) | Sub(sched: Sched)

  /** A scheduler as a value. `plan` is the order in which its `schedule` puts its actions: the order of registration
      for a UserScheduler, the topological order for a DDGScheduler, nothing where that one aborts. */
  datatype Sched = Sched(nodes: seq<Node>, plan: Option<seq<nat>>, sort: seq<nat>, scheduled: bool, inited: bool)

  /** A call made on an ordinary action. */
  datatype Event = Inited(id: nat) | Ran(id: nat) | Finalized(id: nat)

  ghost predicate Permutes(order: seq<nat>, n: nat) {
    && |order| == n
    && (forall k :: 0 <= k < n ==> order[k] < n)
    && (forall j, k :: 0 <= j < n && 0 <= k < n && order[j] == order[k] ==> j == k)
    && (forall p: nat :: p < n ==> p in order)
  }

  /** A topological order is a plan. */
  lemma {:induction false} OrderPermutes(g: Topo.Graph, order: seq<nat>)
    requires Topo.Valid(g) && Topo.IsOrder(g, order)
    ensures Permutes(order, |g.input|)
  {
    forall p: nat | p < |order| ensures p in order {
      Saturated(order, p);
    }
  }

  /** So is the order of registration, which a UserScheduler keeps. */
  lemma {:induction false} RegistrationPermutes(n: nat)
    ensures Permutes(Positions(n), n)
  {
    forall p: nat | p < n ensures p in Positions(n) {
      assert Positions(n)[p] == p;
    }
  }

  ghost predicate Proper(s: Sched) {
    && (s.plan.Some? ==> Permutes(s.plan.value, |s.nodes|))
    && (if s.scheduled then s.plan == Some(s.sort) else s.sort == [] && !s.inited)
    && forall k :: 0 <= k < |s.nodes| && s.nodes[k].Sub? ==> Proper(s.nodes[k].sched)
  }

  // ---------- What the operations do ----------

  ghost predicate ScheduleFails(s: Sched) {
    s.scheduled || s.plan.None? || exists k :: 0 <= k < |s.nodes| && s.nodes[k].Sub? && ScheduleFails(s.nodes[k].sched)
  }

  ghost function ScheduledNode(n: Node): Node {
    match n
    case Leaf(_) => n
    case Sub(s) => Sub(ScheduleAfter(s))
  }

  ghost function ScheduleAfter(s: Sched): Sched {
    s.(nodes := seq(|s.nodes|, k requires 0 <= k < |s.nodes| => ScheduledNode(s.nodes[k])),
       sort := if s.plan.Some? then s.sort + s.plan.value else s.sort, scheduled := true)
  }

  /** `init_actions` aborts here or in a nested scheduler; where everything is initialized already it does nothing. */
  ghost predicate InitFails(s: Sched) {
    !s.scheduled
    || (!s.inited && exists k :: 0 <= k < |s.nodes| && s.nodes[k].Sub? && InitFails(s.nodes[k].sched))
  }

  ghost function InitNode(n: Node): Node {
    match n
    case Leaf(_) => n
    case Sub(s) => Sub(InitAfter(s))
  }

  ghost function InitAfter(s: Sched): Sched {
    if s.inited then s
    else s.(nodes := seq(|s.nodes|, k requires 0 <= k < |s.nodes| => InitNode(s.nodes[k])), inited := true)
  }

  ghost function InitNodeLog(n: Node): seq<Event>
    decreases n, 0
  {
    match n
    case Leaf(id) => [Inited(id)]
    case Sub(s) => if s.inited then [] else InitLogs(s, |s.sort|)
  }

  /** The calls made for the first n sorted actions. */
  ghost function InitLogs(s: Sched, n: nat): seq<Event>
    requires n <= |s.sort|
    decreases s, n
  {
    if n == 0 then []
    else InitLogs(s, n - 1) + if s.sort[n - 1] < |s.nodes| then InitNodeLog(s.nodes[s.sort[n - 1]]) else []
  }

  ghost function InitLog(s: Sched): seq<Event> {
    InitNodeLog(Sub(s))
  }

  /** `run_actions` and `finalize_actions` abort here or in a nested scheduler. */
  ghost predicate RunFails(s: Sched) {
    !s.inited || exists k :: 0 <= k < |s.nodes| && s.nodes[k].Sub? && RunFails(s.nodes[k].sched)
  }

  /** The actions of the tree, depth first, every scheduler's in its sorted order. */
  ghost function NodeLeaves(n: Node): seq<nat>
    decreases n, 0
  {
    match n
    case Leaf(id) => [id]
    case Sub(s) => LeavesUpTo(s, |s.sort|)
  }

  ghost function LeavesUpTo(s: Sched, n: nat): seq<nat>
    requires n <= |s.sort|
    decreases s, n
  {
    if n == 0 then []
    else LeavesUpTo(s, n - 1) + if s.sort[n - 1] < |s.nodes| then NodeLeaves(s.nodes[s.sort[n - 1]]) else []
  }

  ghost function Leaves(s: Sched): seq<nat> {
    NodeLeaves(Sub(s))
  }

  function RunAll(ids: seq<nat>): (r: seq<Event>)
    ensures |r| == |ids| && forall k :: 0 <= k < |ids| ==> r[k] == Ran(ids[k])
  {
    seq(|ids|, k requires 0 <= k < |ids| => Ran(ids[k]))
  }

  /** The actions finalized, last to first. */
  function FinalizeAll(ids: seq<nat>): (r: seq<Event>)
    ensures |r| == |ids| && forall k :: 0 <= k < |ids| ==> r[k] == Finalized(ids[|ids| - 1 - k])
  {
    seq(|ids|, k requires 0 <= k < |ids| => Finalized(ids[|ids| - 1 - k]))
  }

  // ---------- Which calls are made, in which order ----------

  datatype Op = Schedule | Init | Run | Finalize | Restart

  /** The call that an operation makes on an ordinary action. */
  function CallOf(op: Op, id: nat): Event {
    match op
    case Run => Ran(id)
    case Finalize => Finalized(id)
    case _ => Inited(id)
  }

  /** The action whose turn is k-th. */
  function Turn(op: Op, s: Sched, k: nat): nat
    requires k < |s.sort|
  {
    if op == Finalize then s.sort[|s.sort| - 1 - k] else s.sort[k]
  }

  /** The log is what the operation calls for a node of the tree: one call for an ordinary action; for a scheduler one
      uninterrupted piece after the other, each sorted action's own, from the last to the first when finalizing. */
  ghost predicate Visits(op: Op, n: Node, log: seq<Event>)
    decreases n, 0, 0
  {
    match n
    case Leaf(id) => log == [CallOf(op, id)]
    case Sub(s) => if op == Init && s.inited then log == [] else exists cuts :: VisitsInTurn(op, s, |s.sort|, log, cuts)
  }

  /** The first m turns. */
  ghost predicate VisitsInTurn(op: Op, s: Sched, m: nat, log: seq<Event>, cuts: seq<nat>)
    decreases s, m, 1
  {
    && m <= |s.sort| && |cuts| == m + 1 && cuts[0] == 0 && cuts[m] == |log|
    && forall k: nat :: k < m ==> Piece(op, s, log, cuts, k)
  }

  ghost predicate Piece(op: Op, s: Sched, log: seq<Event>, cuts: seq<nat>, k: nat)
    decreases s, 0, 0
  {
    && k < |s.sort| && k + 1 < |cuts| && cuts[k] <= cuts[k + 1] <= |log| && Turn(op, s, k) < |s.nodes|
    && Visits(op, s.nodes[Turn(op, s, k)], log[cuts[k]..cuts[k + 1]])
  }

  lemma {:induction false} VisitMore(op: Op, s: Sched, m: nat, log: seq<Event>, cuts: seq<nat>, more: seq<Event>)
    requires m < |s.sort| && VisitsInTurn(op, s, m, log, cuts)
    requires Turn(op, s, m) < |s.nodes| && Visits(op, s.nodes[Turn(op, s, m)], more)
    ensures VisitsInTurn(op, s, m + 1, log + more, cuts + [|log + more|])
  {
    hide Visits;
    var now, all := cuts + [|log + more|], log + more;
    forall k: nat | k < m + 1 ensures Piece(op, s, all, now, k) {
      if k < m {
        assert Piece(op, s, log, cuts, k);
        assert all[now[k]..now[k + 1]] == log[cuts[k]..cuts[k + 1]];
      } else {
        assert all[now[k]..now[k + 1]] == more;
      }
    }
  }

  lemma {:induction false} RunVisits(n: Node)
    requires n.Sub? ==> Proper(n.sched) && !RunFails(n.sched)
    ensures Visits(Run, n, RunAll(NodeLeaves(n)))
    decreases n, 0
  {
    if n.Sub? {
      var cuts := RunVisitsInTurn(n.sched, |n.sched.sort|);
    }
  }

  lemma {:induction false} RunVisitsInTurn(s: Sched, m: nat) returns (cuts: seq<nat>)
    requires Proper(s) && !RunFails(s) && m <= |s.sort|
    ensures VisitsInTurn(Run, s, m, RunAll(LeavesUpTo(s, m)), cuts)
    decreases s, m
  {
    if m == 0 {
      cuts := [0];
    } else {
      var node := s.nodes[s.sort[m - 1]];
      var before := RunVisitsInTurn(s, m - 1);
      RunVisits(node);
      var log, more := RunAll(LeavesUpTo(s, m - 1)), RunAll(NodeLeaves(node));
      VisitMore(Run, s, m - 1, log, before, more);
      assert log + more == RunAll(LeavesUpTo(s, m));
      cuts := before + [|log + more|];
    }
  }

  lemma {:induction false} FinalizeVisits(n: Node)
    requires n.Sub? ==> Proper(n.sched) && !RunFails(n.sched)
    ensures Visits(Finalize, n, FinalizeAll(NodeLeaves(n)))
    decreases n, 0
  {
    if n.Sub? {
      var s := n.sched;
      var log, cuts := FinalizeVisitsInTurn(s, |s.sort|);
      assert FinalizeAll(LeavesUpTo(s, 0)) == [];
      assert log == FinalizeAll(NodeLeaves(n));
    }
  }

  lemma {:induction false} FinalizeVisitsInTurn(s: Sched, m: nat) returns (log: seq<Event>, cuts: seq<nat>)
    requires Proper(s) && !RunFails(s) && m <= |s.sort|
    ensures VisitsInTurn(Finalize, s, m, log, cuts)
    ensures log + FinalizeAll(LeavesUpTo(s, |s.sort| - m)) == FinalizeAll(LeavesUpTo(s, |s.sort|))
    decreases s, m
  {
    hide Visits, Proper, RunFails, NodeLeaves, LeavesUpTo, FinalizeAll;
    if m == 0 {
      log, cuts := [], [0];
    } else {
      var i := |s.sort| - m;
      FinalizeEnds(s);
      RunMeets(s, i);
      var node := s.nodes[s.sort[i]];
      var l, before := FinalizeVisitsInTurn(s, m - 1);
      FinalizeVisits(node);
      var more := FinalizeAll(NodeLeaves(node));
      VisitMore(Finalize, s, m - 1, l, before, more);
      FinalizeBackwards(s, i, l, more, FinalizeAll(LeavesUpTo(s, |s.sort|)));
      log, cuts := l + more, before + [|l + more|];
    }
  }

  lemma {:induction false} InitVisits(n: Node)
    requires n.Sub? ==> Proper(n.sched) && !InitFails(n.sched)
    ensures Visits(Init, n, InitNodeLog(n))
    decreases n, 0
  {
    if n.Sub? && !n.sched.inited {
      var cuts := InitVisitsInTurn(n.sched, |n.sched.sort|);
    }
  }

  lemma {:induction false} InitVisitsInTurn(s: Sched, m: nat) returns (cuts: seq<nat>)
    requires Proper(s) && !InitFails(s) && !s.inited && m <= |s.sort|
    ensures VisitsInTurn(Init, s, m, InitLogs(s, m), cuts)
    decreases s, m
  {
    if m == 0 {
      cuts := [0];
    } else {
      var node := s.nodes[s.sort[m - 1]];
      var before := InitVisitsInTurn(s, m - 1);
      InitVisits(node);
      VisitMore(Init, s, m - 1, InitLogs(s, m - 1), before, InitNodeLog(node));
      cuts := before + [|InitLogs(s, m - 1) + InitNodeLog(node)|];
    }
  }

  // ---------- How far a loop has come ----------

  /** The first n registered actions have been scheduled. */
  ghost predicate ScheduleProgress(was: Sched, now: Sched, n: nat) {
    && now == was.(nodes := now.nodes) && |now.nodes| == |was.nodes| && n <= |was.nodes|
    && (forall k :: 0 <= k < |was.nodes| ==> now.nodes[k] == if k < n then ScheduledNode(was.nodes[k]) else was.nodes[k])
    && (forall k :: 0 <= k < n && was.nodes[k].Sub? ==> !ScheduleFails(was.nodes[k].sched))
  }

  lemma {:induction false} ScheduleDone(was: Sched, now: Sched)
    requires ScheduleProgress(was, now, |was.nodes|) && !was.scheduled && was.plan.Some?
    ensures !ScheduleFails(was) && now.(sort := now.sort + was.plan.value, scheduled := true) == ScheduleAfter(was)
  {
  }

  /** The first n sorted actions have been initialized. */
  ghost predicate InitProgress(was: Sched, now: Sched, n: nat) {
    && now == was.(nodes := now.nodes) && |now.nodes| == |was.nodes| && n <= |was.sort|
    && (forall x :: 0 <= x < |was.sort| ==> was.sort[x] < |was.nodes|)
    && (forall x :: 0 <= x < |was.sort| ==>
      now.nodes[was.sort[x]] == if x < n then InitNode(was.nodes[was.sort[x]]) else was.nodes[was.sort[x]])
    && (forall x :: 0 <= x < n && was.nodes[was.sort[x]].Sub? ==> !InitFails(was.nodes[was.sort[x]].sched))
  }

  lemma {:induction false} InitBegin(s: Sched)
    requires Proper(s) && s.scheduled
    ensures InitProgress(s, s, 0)
  {
  }

  /** When there is nothing to do for `init_actions`, and where its loop begins and ends. */
  lemma {:induction false} InitEnds(s: Sched)
    ensures !s.scheduled ==> InitFails(s)
    ensures s.scheduled && s.inited ==> !InitFails(s) && InitAfter(s) == s && InitLog(s) == []
    ensures InitLogs(s, 0) == [] && (!s.inited ==> InitLogs(s, |s.sort|) == InitLog(s))
    ensures Proper(s) && s.scheduled ==> Permutes(s.sort, |s.nodes|)
  {
  }

  /** What the loop meets at the next sorted action, and what it means that this one cannot be initialized. */
  lemma {:induction false} InitMeets(was: Sched, now: Sched, n: nat)
    requires Proper(was) && was.scheduled && !was.inited && InitProgress(was, now, n) && n < |was.sort|
    ensures was.sort[n] < |was.nodes| == |now.nodes| && now.nodes[was.sort[n]] == was.nodes[was.sort[n]]
    ensures var node := was.nodes[was.sort[n]];
      && InitLogs(was, n + 1) == InitLogs(was, n) + InitNodeLog(node)
      && (node.Sub? ==> Proper(node.sched) && (InitFails(node.sched) ==> InitFails(was)))
  {
  }

  lemma {:induction false} InitNext(was: Sched, now: Sched, n: nat, next: Sched)
    requires Permutes(was.sort, |was.nodes|) && InitProgress(was, now, n) && n < |was.sort|
    requires next == now.(nodes := now.nodes[was.sort[n] := InitNode(now.nodes[was.sort[n]])])
    requires now.nodes[was.sort[n]].Sub? ==> !InitFails(now.nodes[was.sort[n]].sched)
    ensures InitProgress(was, next, n + 1)
  {
  }

  lemma {:induction false} InitDone(was: Sched, now: Sched)
    requires Permutes(was.sort, |was.nodes|) && InitProgress(was, now, |was.sort|) && was.scheduled && !was.inited
    ensures !InitFails(was) && now.(inited := true) == InitAfter(was)
  {
    forall p: nat | p < |was.nodes|
      ensures now.nodes[p] == InitNode(was.nodes[p]) && (was.nodes[p].Sub? ==> !InitFails(was.nodes[p].sched))
    {
      assert p in was.sort;
      var x :| 0 <= x < |was.sort| && was.sort[x] == p;
    }
    assert now.nodes == InitAfter(was).nodes;
  }

  /** No nested scheduler among the sorted actions from n to m would abort a run. */
  ghost predicate NoneFails(s: Sched, n: nat, m: nat) {
    && n <= m <= |s.sort|
    && forall x :: n <= x < m && s.sort[x] < |s.nodes| && s.nodes[s.sort[x]].Sub? ==> !RunFails(s.nodes[s.sort[x]].sched)
  }

  /** What the loops meet at a sorted action, and what it means that this one cannot be run. */
  lemma {:induction false} RunMeets(s: Sched, n: nat)
    requires Proper(s) && s.inited && n < |s.sort|
    ensures s.sort[n] < |s.nodes|
    ensures var node := s.nodes[s.sort[n]]; node.Sub? ==> Proper(node.sched) && (RunFails(node.sched) ==> RunFails(s))
  {
  }

  lemma {:induction false} NoneMore(s: Sched, n: nat)
    requires n < |s.sort| && s.sort[n] < |s.nodes| && NoneFails(s, n + 1, |s.sort|)
    requires s.nodes[s.sort[n]].Sub? ==> !RunFails(s.nodes[s.sort[n]].sched)
    ensures NoneFails(s, n, |s.sort|)
  {
  }

  /** Where the loop over the actions from the last to the first begins and ends. */
  lemma {:induction false} FinalizeEnds(s: Sched)
    ensures FinalizeAll(LeavesUpTo(s, 0)) == [] && LeavesUpTo(s, |s.sort|) == Leaves(s)
    ensures NoneFails(s, |s.sort|, |s.sort|) && (!s.inited ==> RunFails(s))
    ensures Proper(s) && s.inited ==> Permutes(s.sort, |s.nodes|)
  {
  }

  lemma {:induction false} RunDone(s: Sched)
    requires Permutes(s.sort, |s.nodes|) && NoneFails(s, 0, |s.sort|) && s.inited
    ensures !RunFails(s)
  {
    forall p: nat | p < |s.nodes| && s.nodes[p].Sub? ensures !RunFails(s.nodes[p].sched) {
      assert p in s.sort;
      var x :| 0 <= x < |s.sort| && s.sort[x] == p;
    }
  }

  lemma {:induction false} InitVisitsIfDone(s: Sched)
    requires Proper(s)
    ensures !InitFails(s) ==> Visits(Init, Sub(s), InitLog(s))
  {
    if !InitFails(s) {
      InitVisits(Sub(s));
    }
  }

  lemma {:induction false} RunVisitsIfDone(s: Sched)
    requires Proper(s)
    ensures !RunFails(s) ==> Visits(Run, Sub(s), RunAll(Leaves(s))) && Visits(Finalize, Sub(s), FinalizeAll(Leaves(s)))
  {
    if !RunFails(s) {
      RunVisits(Sub(s));
      FinalizeVisits(Sub(s));
    }
  }

  // ---------- The objects ----------

  /** An Action or a SchedulerAction. */
  datatype Action = Act(id: nat) | SchedulerAction(sub: Scheduler)

  class Scheduler {
    var actions: seq<Action>
    var sort: seq<nat>
    var scheduled: bool
    var inited: bool
    const plan: Option<seq<nat>>
    ghost const repr: set<Scheduler>

    /** The nested schedulers are objects of their own. */
    ghost predicate Valid()
      reads this, repr
      decreases repr
    {
      && this in repr
      && (forall k :: 0 <= k < |actions| && actions[k].SchedulerAction? ==>
        var s := actions[k].sub; s in repr && s.repr < repr && this !in s.repr && s.Valid())
      && (forall j, k :: 0 <= j < k < |actions| && actions[j].SchedulerAction? && actions[k].SchedulerAction? ==>
        actions[j].sub.repr !! actions[k].sub.repr)
    }

    ghost function NodeAt(k: nat): Node
      requires Valid() && k < |actions|
      reads this, repr
      decreases repr, 0
    {
      match actions[k]
      case Act(id) => Leaf(id)
      case SchedulerAction(s) => Sub(s.Value())
    }

    ghost function Nodes(n: nat): (r: seq<Node>)
      requires Valid() && n <= |actions|
      reads this, repr
      ensures |r| == n && forall k: nat :: k < n ==> r[k] == NodeAt(k)
      decreases repr, n
    {
      if n == 0 then [] else Nodes(n - 1) + [NodeAt(n - 1)]
    }

    /** The scheduler as a value. */
    ghost function Value(): (r: Sched)
      requires Valid()
      reads this, repr
      ensures |r.nodes| == |actions| && forall k: nat :: k < |actions| ==> r.nodes[k] == NodeAt(k)
      decreases repr, |actions| + 1
    {
      Sched(Nodes(|actions|), plan, sort, scheduled, inited)
    }

    /** A scheduler with the given actions, registered and not yet scheduled. */
    constructor (actions: seq<Action>, plan: Option<seq<nat>>)
      requires forall k :: 0 <= k < |actions| && actions[k].SchedulerAction? ==> actions[k].sub.Valid()
      requires forall j, k :: 0 <= j < k < |actions| && actions[j].SchedulerAction? && actions[k].SchedulerAction? ==>
        actions[j].sub.repr !! actions[k].sub.repr
      ensures Valid() && this.actions == actions && this.plan == plan && sort == [] && !scheduled && !inited
      ensures forall k :: 0 <= k < |actions| && actions[k].SchedulerAction? ==> NodeAt(k) == Sub(actions[k].sub.Value())
    {
      this.actions, this.plan, sort, scheduled, inited := actions, plan, [], false, false;
      repr := {this} + set k, s | 0 <= k < |actions| && actions[k].SchedulerAction? && s in actions[k].sub.repr :: s;
    }

    /** `schedule` of one action. */
    method ScheduleAction(p: nat) returns (ok: bool)
      requires Valid() && p < |actions| && (Value().nodes[p].Sub? ==> Proper(Value().nodes[p].sched))
      modifies repr
      ensures Valid() && unchanged(this)
      ensures var n := old(Value()).nodes[p];
        ok == !(n.Sub? && ScheduleFails(n.sched)) &&
        (ok ==> Value() == old(Value()).(nodes := old(Value()).nodes[p := ScheduledNode(n)]))
      decreases repr, 0
    {
      match actions[p] {
        case Act(_) => ok := true;
        case SchedulerAction(s) => ok := s.Schedule();
      }
      assert ok ==> Value().nodes == old(Value()).nodes[p := ScheduledNode(old(Value()).nodes[p])];
    }

    /** `schedule`, the scheduler's own order being given. */
    method Schedule() returns (ok: bool)
      requires Valid() && Proper(Value())
      modifies repr
      ensures Valid() && ok == !ScheduleFails(old(Value()))
      ensures ok ==> Value() == ScheduleAfter(old(Value()))
      decreases repr, 1
    {
      ghost var v := Value();
      if scheduled {
        return false;
      }
      for i := 0 to |actions|
        invariant Valid() && unchanged(this) && ScheduleProgress(v, Value(), i)
      {
        ok := ScheduleAction(i);
        if !ok {
          return;
        }
      }
      if plan.None? {
        return false;
      }
      ScheduleDone(v, Value());
      ghost var nodes := Value().nodes;
      sort := sort + plan.value;
      scheduled := true;
      assert Value().nodes == nodes;
      ok := true;
    }

    /** The assignments to the flag `inited`. */
    method SetInited(flag: bool)
      requires Valid()
      modifies this`inited
      ensures Valid() && Value() == old(Value()).(inited := flag)
    {
      inited := flag;
    }

    /** `init` of one action. */
    method InitAction(p: nat) returns (ok: bool, log: seq<Event>)
      requires Valid() && p < |actions| && (Value().nodes[p].Sub? ==> Proper(Value().nodes[p].sched))
      modifies repr
      ensures Valid() && unchanged(this)
      ensures var n := old(Value()).nodes[p];
        ok == !(n.Sub? && InitFails(n.sched)) &&
        (ok ==> Value() == old(Value()).(nodes := old(Value()).nodes[p := InitNode(n)]) && log == InitNodeLog(n) && Visits(Init, n, log))
      decreases repr, 0
    {
      match actions[p] {
        case Act(id) => ok, log := true, [Inited(id)];
        case SchedulerAction(s) => ok, log := s.InitActions();
      }
      assert ok ==> Value().nodes == old(Value()).nodes[p := InitNode(old(Value()).nodes[p])];
    }

    /** `init_actions`. */
    method InitActions() returns (ok: bool, log: seq<Event>)
      requires Valid() && Proper(Value())
      modifies repr
      ensures Valid() && ok == !InitFails(old(Value()))
      ensures ok ==> Value() == InitAfter(old(Value())) && log == InitLog(old(Value())) && Visits(Init, Sub(old(Value())), log)
      decreases repr, 1
    {
      hide Visits, Proper, InitProgress, InitFails, InitNode, InitAfter, InitNodeLog, InitLogs, InitLog;
      ghost var v := Value();
      InitVisitsIfDone(v);
      InitEnds(v);
      log := [];
      if !scheduled {
        return false, log;
      }
      if inited {
        return true, log;
      }
      InitBegin(v);
      for i := 0 to |sort|
        invariant Valid() && unchanged(this) && InitProgress(v, Value(), i) && log == InitLogs(v, i)
      {
        ghost var now := Value();
        InitMeets(v, now, i);
        var more;
        ok, more := InitAction(sort[i]);
        if !ok {
          return;
        }
        InitNext(v, now, i, Value());
        log := log + more;
      }
      InitDone(v, Value());
      SetInited(true);
      ok := true;
    }

    /** `run` of one action. */
    method RunAction(p: nat) returns (ok: bool, log: seq<Event>)
      requires Valid() && p < |actions| && (Value().nodes[p].Sub? ==> Proper(Value().nodes[p].sched))
      ensures var n := Value().nodes[p];
        ok == !(n.Sub? && RunFails(n.sched)) && (ok ==> log == RunAll(NodeLeaves(n)) && Visits(Run, n, log))
      decreases repr, 0
    {
      match actions[p] {
        case Act(id) => ok, log := true, [Ran(id)];
        case SchedulerAction(s) => ok, log := s.RunActions();
      }
    }

    /** `run_actions`. */
    method RunActions() returns (ok: bool, log: seq<Event>)
      requires Valid() && Proper(Value())
      ensures ok == !RunFails(Value())
      ensures ok ==> log == RunAll(Leaves(Value())) && Visits(Run, Sub(Value()), log)
      decreases repr, 1
    {
      ghost var v := Value();
      hide Visits;
      RunVisitsIfDone(v);
      ok, log := true, [];
      if !inited {
        return false, log;
      }
      for i := 0 to |sort|
        invariant ok && log == RunAll(LeavesUpTo(v, i)) && NoneFails(v, 0, i)
      {
        hide Proper, RunFails, NodeLeaves, LeavesUpTo;
        RunMeets(v, i);
        var more;
        ok, more := RunAction(sort[i]);
        if !ok {
          return;
        }
        RunForwards(v, i, log, more);
        log := log + more;
      }
      RunDone(v);
    }

    /** `finalize` of one action. */
    method FinalizeAction(p: nat) returns (ok: bool, log: seq<Event>)
      requires Valid() && p < |actions| && (Value().nodes[p].Sub? ==> Proper(Value().nodes[p].sched))
      ensures var n := Value().nodes[p];
        ok == !(n.Sub? && RunFails(n.sched)) && (ok ==> log == FinalizeAll(NodeLeaves(n)) && Visits(Finalize, n, log))
      decreases repr, 0
    {
      match actions[p] {
        case Act(id) => ok, log := true, [Finalized(id)];
        case SchedulerAction(s) => ok, log := s.FinalizeActions();
      }
    }

    /** `finalize_actions`: last to first. */
    method FinalizeActions() returns (ok: bool, log: seq<Event>)
      requires Valid() && Proper(Value())
      ensures ok == !RunFails(Value())
      ensures ok ==> log == FinalizeAll(Leaves(Value())) && Visits(Finalize, Sub(Value()), log)
      decreases repr, 1
    {
      hide Visits, Proper, RunFails, NodeLeaves, LeavesUpTo, Leaves, FinalizeAll, NoneFails;
      ghost var v := Value();
      RunVisitsIfDone(v);
      FinalizeEnds(v);
      ok, log := true, [];
      if !inited {
        return false, log;
      }
      if sort == [] {
        RunDone(v);
        return;
      }
      var i := |sort|;
      ghost var all := FinalizeAll(Leaves(v));
      while i > 0
        invariant ok && 0 <= i <= |sort| && log + FinalizeAll(LeavesUpTo(v, i)) == all && NoneFails(v, i, |sort|)
      {
        i := i - 1;
        RunMeets(v, i);
        var more;
        ok, more := FinalizeAction(sort[i]);
        if !ok {
          return;
        }
        FinalizeBackwards(v, i, log, more, all);
        NoneMore(v, i);
        log := log + more;
      }
      RunDone(v);
    }

    /** `restarting`. */
    method Restarting()
      requires Valid()
      modifies this`inited
      ensures Valid() && Value() == old(Value()).(inited := false)
    {
      SetInited(false);
    }

    /** One operation. */
    method PerformOne(op: Op) returns (ok: bool, log: seq<Event>)
      requires Valid() && Proper(Value())
      modifies repr
      ensures Valid() && ok == !Fails(op, old(Value()))
      ensures ok ==> Value() == After(op, old(Value())) && log == Log(op, old(Value()))
    {
      log := [];
      match op {
        case Schedule => ok := this.Schedule();
        case Init => ok, log := InitActions();
        case Run => ok, log := RunActions();
        case Finalize => ok, log := FinalizeActions();
        case Restart =>
          Restarting();
          ok := true;
      }
    }

    /** Any operations on a scheduler that has just been set up, up to the first one that aborts. */
    method PerformAll(ops: seq<Op>) returns (ok: bool, log: seq<Event>)
      requires Valid() && Fresh(Value())
      modifies repr
      ensures Valid() && ok == Perform(old(Value()), ops).Some?
      ensures ok ==> Perform(old(Value()), ops) == Some((Value(), log))
    {
      ghost var v := Value();
      ok, log := true, [];
      for i := 0 to |ops|
        invariant Valid() && ok && Perform(v, ops[..i]) == Some((Value(), log))
      {
        hide Fails, After, Log, Fresh;
        PerformSettles(v, ops[..i]);
        SettledIsProper(Value(), log);
        PerformMore(v, ops, i);
        var more;
        ok, more := PerformOne(ops[i]);
        if !ok {
          PerformStops(v, ops, i + 1);
          return;
        }
        log := log + more;
      }
      assert ops[..|ops|] == ops;
    }
  }

  lemma {:induction false} RunForwards(s: Sched, i: nat, log: seq<Event>, more: seq<Event>)
    requires i < |s.sort| && s.sort[i] < |s.nodes|
    requires log == RunAll(LeavesUpTo(s, i)) && more == RunAll(NodeLeaves(s.nodes[s.sort[i]]))
    ensures log + more == RunAll(LeavesUpTo(s, i + 1))
  {
  }

  /** Finalizing from the last action down lists the leaves from last to first. */
  lemma {:induction false} FinalizeBackwards(s: Sched, i: nat, log: seq<Event>, more: seq<Event>, all: seq<Event>)
    requires i < |s.sort| && s.sort[i] < |s.nodes| && more == FinalizeAll(NodeLeaves(s.nodes[s.sort[i]]))
    requires log + FinalizeAll(LeavesUpTo(s, i + 1)) == all
    ensures log + more + FinalizeAll(LeavesUpTo(s, i)) == all
  {
    FinalizeTwo(LeavesUpTo(s, i), NodeLeaves(s.nodes[s.sort[i]]));
  }

  lemma {:induction false} FinalizeTwo(a: seq<nat>, b: seq<nat>)
    ensures FinalizeAll(a + b) == FinalizeAll(b) + FinalizeAll(a)
  {
  }

  // ---------- Every sequence of operations ----------

  ghost predicate Fails(op: Op, s: Sched) {
    match op
    case Schedule => ScheduleFails(s)
    case Init => InitFails(s)
    case Run => RunFails(s)
    case Finalize => RunFails(s)
    case Restart => false
  }

  ghost function After(op: Op, s: Sched): Sched {
    match op
    case Schedule => ScheduleAfter(s)
    case Init => InitAfter(s)
    case Run => s
    case Finalize => s
    case Restart => s.(inited := false)
  }

  ghost function Log(op: Op, s: Sched): seq<Event> {
    match op
    case Schedule => []
    case Init => InitLog(s)
    case Run => RunAll(Leaves(s))
    case Finalize => FinalizeAll(Leaves(s))
    case Restart => []
  }

  /** The outermost scheduler after the given operations on it, and all the calls made; nothing if one of them aborts. */
  ghost function Perform(s: Sched, ops: seq<Op>): Option<(Sched, seq<Event>)> {
    if ops == [] then Some((s, []))
    else
      match Perform(s, ops[..|ops| - 1])
      case None => None
      case Some((t, h)) =>
        var op := ops[|ops| - 1];
        if Fails(op, t) then None else Some((After(op, t), h + Log(op, t)))
  }

  lemma {:induction false} PerformMore(s: Sched, ops: seq<Op>, n: nat)
    requires n < |ops| && Perform(s, ops[..n]).Some?
    ensures var (t, h) := Perform(s, ops[..n]).value;
      Perform(s, ops[..n + 1]) == if Fails(ops[n], t) then None else Some((After(ops[n], t), h + Log(ops[n], t)))
  {
    assert ops[..n + 1][..n] == ops[..n];
  }

  /** After an abort nothing more happens. */
  lemma {:induction false} PerformStops(s: Sched, ops: seq<Op>, n: nat)
    requires n <= |ops| && Perform(s, ops[..n]).None?
    ensures Perform(s, ops).None?
    decreases |ops|
  {
    if n == |ops| {
      assert ops[..n] == ops;
    } else {
      assert ops[..|ops| - 1][..n] == ops[..n];
      PerformStops(s, ops[..|ops| - 1], n);
    }
  }

  /** Nothing has been scheduled or initialized yet. */
  ghost predicate Fresh(s: Sched) {
    && !s.scheduled && !s.inited && s.sort == []
    && (s.plan.Some? ==> Permutes(s.plan.value, |s.nodes|))
    && forall k :: 0 <= k < |s.nodes| && s.nodes[k].Sub? ==> Fresh(s.nodes[k].sched)
  }

  /** What holds of a scheduler in the tree after the calls h: its flags agree with those of the nested ones,
      and where it is initialized, its actions are. */
  ghost predicate Settled(s: Sched, h: seq<Event>) {
    && (s.plan.Some? ==> Permutes(s.plan.value, |s.nodes|))
    && (if s.scheduled then s.plan == Some(s.sort) else s.sort == [] && !s.inited)
    && forall k :: 0 <= k < |s.nodes| ==> SettledNode(s, s.nodes[k], h)
  }

  ghost predicate SettledNode(s: Sched, n: Node, h: seq<Event>)
    decreases n
  {
    match n
    case Leaf(id) => s.inited ==> Inited(id) in h
    case Sub(t) => t.scheduled == s.scheduled && (s.inited ==> t.inited) && Settled(t, h)
  }

  lemma {:induction false} SettledIsProper(s: Sched, h: seq<Event>)
    requires Settled(s, h)
    ensures Proper(s)
  {
    forall k | 0 <= k < |s.nodes| && s.nodes[k].Sub? ensures Proper(s.nodes[k].sched) {
      assert SettledNode(s, s.nodes[k], h);
      SettledIsProper(s.nodes[k].sched, h);
    }
  }

  lemma {:induction false} FreshIsSettled(s: Sched)
    requires Fresh(s)
    ensures Settled(s, [])
  {
    forall k | 0 <= k < |s.nodes| ensures SettledNode(s, s.nodes[k], []) {
      if s.nodes[k].Sub? {
        FreshIsSettled(s.nodes[k].sched);
      }
    }
  }

  lemma {:induction false} SettledGrows(s: Sched, h: seq<Event>, g: seq<Event>)
    requires Settled(s, h) && forall e :: e in h ==> e in g
    ensures Settled(s, g)
  {
    forall k | 0 <= k < |s.nodes| ensures SettledNode(s, s.nodes[k], g) {
      assert SettledNode(s, s.nodes[k], h);
      if s.nodes[k].Sub? {
        SettledGrows(s.nodes[k].sched, h, g);
      }
    }
  }

  lemma {:induction false} ScheduleSettles(s: Sched, h: seq<Event>)
    requires Settled(s, h) && !ScheduleFails(s)
    ensures Settled(ScheduleAfter(s), h) && ScheduleAfter(s).scheduled && !ScheduleAfter(s).inited
  {
    var t := ScheduleAfter(s);
    assert t.sort == [] + s.plan.value == s.plan.value;
    forall k | 0 <= k < |t.nodes| ensures SettledNode(t, t.nodes[k], h) {
      assert SettledNode(s, s.nodes[k], h);
      assert t.nodes[k] == ScheduledNode(s.nodes[k]);
      if s.nodes[k].Sub? {
        ScheduleSettles(s.nodes[k].sched, h);
      }
    }
  }

  /** Every call made for a sorted action is among the calls made for the scheduler. */
  lemma {:induction false} InitLogsContain(s: Sched, n: nat, i: nat, e: Event)
    requires i < n <= |s.sort| && s.sort[i] < |s.nodes| && e in InitNodeLog(s.nodes[s.sort[i]])
    ensures e in InitLogs(s, n)
  {
    if i < n - 1 {
      InitLogsContain(s, n - 1, i, e);
    }
  }

  lemma {:induction false} InitSettles(s: Sched, h: seq<Event>)
    requires Settled(s, h) && !InitFails(s)
    ensures Settled(InitAfter(s), h + InitLog(s)) && InitAfter(s).inited && InitAfter(s).scheduled
  {
    var t, g := InitAfter(s), h + InitLog(s);
    if s.inited {
      assert g == h;
    } else {
      forall k | 0 <= k < |t.nodes| ensures SettledNode(t, t.nodes[k], g) {
        assert SettledNode(s, s.nodes[k], h);
        assert t.nodes[k] == InitNode(s.nodes[k]);
        var p: nat := k;
        assert p in s.sort;
        var i: nat :| i < |s.sort| && s.sort[i] == k;
        forall e | e in InitNodeLog(s.nodes[k]) ensures e in g {
          InitLogsContain(s, |s.sort|, i, e);
        }
        if s.nodes[k].Sub? {
          var u := s.nodes[k].sched;
          InitSettles(u, h);
          SettledGrows(InitAfter(u), h + InitLog(u), g);
        } else {
          var e := Inited(s.nodes[k].id);
          assert InitNodeLog(s.nodes[k]) == [e] && e in InitNodeLog(s.nodes[k]);
        }
      }
    }
  }

  lemma {:induction false} PerformSettles(s: Sched, ops: seq<Op>)
    requires Fresh(s) && Perform(s, ops).Some?
    ensures Settled(Perform(s, ops).value.0, Perform(s, ops).value.1)
  {
    if ops == [] {
      FreshIsSettled(s);
    } else {
      var n := |ops| - 1;
      PerformSettles(s, ops[..n]);
      var (t, h) := Perform(s, ops[..n]).value;
      OpSettles(ops[n], t, h);
    }
  }

  lemma {:induction false} OpSettles(op: Op, s: Sched, h: seq<Event>)
    requires Settled(s, h) && !Fails(op, s)
    ensures Settled(After(op, s), h + Log(op, s))
  {
    match op
    case Schedule => ScheduleSettles(s, h); assert h + [] == h;
    case Init => InitSettles(s, h);
    case Run => SettledGrows(s, h, h + Log(op, s));
    case Finalize => SettledGrows(s, h, h + Log(op, s));
    case Restart =>
      assert h + [] == h;
      forall k | 0 <= k < |s.nodes| ensures SettledNode(After(op, s), s.nodes[k], h) {
        assert SettledNode(s, s.nodes[k], h);
      }
  }

  lemma {:induction false} LeavesInited(s: Sched, h: seq<Event>, n: nat, id: nat)
    requires Settled(s, h) && s.inited && n <= |s.sort| && id in LeavesUpTo(s, n)
    ensures Inited(id) in h
    decreases s, n
  {
    if id in LeavesUpTo(s, n - 1) {
      LeavesInited(s, h, n - 1, id);
    } else {
      var node := s.nodes[s.sort[n - 1]];
      assert SettledNode(s, node, h);
      if node.Sub? {
        LeavesInited(node.sched, h, |node.sched.sort|, id);
      }
    }
  }

  /** Whatever is done with a tree of schedulers, short of an abort, no action is run or finalized before it was itself
      initialized. */
  lemma {:induction false} InitComesFirst(s: Sched, ops: seq<Op>, p: nat)
    requires Fresh(s) && Perform(s, ops).Some? && p < |Perform(s, ops).value.1|
    requires !Perform(s, ops).value.1[p].Inited?
    ensures Inited(Perform(s, ops).value.1[p].id) in Perform(s, ops).value.1[..p]
  {
    var n := |ops| - 1;
    var (t, h) := Perform(s, ops[..n]).value;
    var g := Perform(s, ops).value.1;
    assert g == h + Log(ops[n], t);
    if p < |h| {
      InitComesFirst(s, ops[..n], p);
      assert g[..p] == h[..p];
    } else {
      PerformSettles(s, ops[..n]);
      OpLog(ops[n], t, h, p - |h|);
      assert forall e :: e in h ==> e in g[..p] by { assert g[..p] == h + g[|h|..p]; }
    }
  }

  lemma {:induction false} OpLog(op: Op, s: Sched, h: seq<Event>, q: nat)
    requires Settled(s, h) && !Fails(op, s) && q < |Log(op, s)| && !Log(op, s)[q].Inited?
    ensures Inited(Log(op, s)[q].id) in h
  {
    if op.Init? {
      InitLogsOnlyInit(s, |s.sort|, q);
    } else {
      LeavesInited(s, h, |s.sort|, Log(op, s)[q].id);
    }
  }

  lemma {:induction false} InitLogsOnlyInit(s: Sched, n: nat, q: nat)
    requires n <= |s.sort| && q < |InitLogs(s, n)|
    ensures InitLogs(s, n)[q].Inited?
    decreases s, n
  {
    if q < |InitLogs(s, n - 1)| {
      InitLogsOnlyInit(s, n - 1, q);
    } else {
      var node := s.nodes[s.sort[n - 1]];
      if node.Sub? {
        InitLogsOnlyInit(node.sched, |node.sched.sort|, q - |InitLogs(s, n - 1)|);
      }
    }
  }

  // ---------- When an operation aborts ----------

  /** Every scheduler of the tree can order its actions. */
  ghost predicate Planned(s: Sched) {
    s.plan.Some? && forall k :: 0 <= k < |s.nodes| && s.nodes[k].Sub? ==> Planned(s.nodes[k].sched)
  }

  /** What the flags of the outermost scheduler say about an operation. */
  predicate FlagsForbid(op: Op, scheduled: bool, inited: bool) {
    match op
    case Schedule => scheduled
    case Init => !scheduled
    case Run => !inited
    case Finalize => !inited
    case Restart => false
  }

  lemma {:induction false} ScheduleFailsExactly(s: Sched, h: seq<Event>)
    requires Settled(s, h) && Planned(s)
    ensures ScheduleFails(s) <==> s.scheduled
  {
    forall k | 0 <= k < |s.nodes| && s.nodes[k].Sub? ensures ScheduleFails(s.nodes[k].sched) <==> s.scheduled {
      assert SettledNode(s, s.nodes[k], h);
      ScheduleFailsExactly(s.nodes[k].sched, h);
    }
  }

  lemma {:induction false} InitFailsExactly(s: Sched, h: seq<Event>)
    requires Settled(s, h)
    ensures InitFails(s) <==> !s.scheduled
  {
    forall k | 0 <= k < |s.nodes| && s.nodes[k].Sub? ensures InitFails(s.nodes[k].sched) <==> !s.scheduled {
      assert SettledNode(s, s.nodes[k], h);
      InitFailsExactly(s.nodes[k].sched, h);
    }
  }

  lemma {:induction false} RunFailsExactly(s: Sched, h: seq<Event>)
    requires Settled(s, h)
    ensures RunFails(s) <==> !s.inited
  {
    forall k | 0 <= k < |s.nodes| && s.nodes[k].Sub? && s.inited ensures !RunFails(s.nodes[k].sched) {
      assert SettledNode(s, s.nodes[k], h);
      RunFailsExactly(s.nodes[k].sched, h);
    }
  }

  lemma {:induction false} PlannedStays(op: Op, s: Sched)
    requires Planned(s)
    ensures Planned(After(op, s))
  {
    var t := After(op, s);
    if op.Schedule? || (op.Init? && !s.inited) {
      forall k | 0 <= k < |s.nodes| && s.nodes[k].Sub? ensures Planned(After(op, s.nodes[k].sched)) {
        PlannedStays(op, s.nodes[k].sched);
      }
      assert forall k :: 0 <= k < |s.nodes| ==> t.nodes[k] == if op.Init? then InitNode(s.nodes[k]) else ScheduledNode(s.nodes[k]);
    } else {
      assert t.nodes == s.nodes;
    }
  }

  lemma {:induction false} PerformPlanned(s: Sched, ops: seq<Op>)
    requires Planned(s) && Perform(s, ops).Some?
    ensures Planned(Perform(s, ops).value.0)
  {
    if ops != [] {
      PerformPlanned(s, ops[..|ops| - 1]);
      PlannedStays(ops[|ops| - 1], Perform(s, ops[..|ops| - 1]).value.0);
    }
  }

  /** A nested scheduler never causes an abort: after any operations on a tree whose schedulers can all be ordered,
      the next one aborts exactly when the outermost scheduler's own flags forbid it. */
  lemma {:induction false} OuterFlagsDecide(s: Sched, ops: seq<Op>, op: Op)
    requires Fresh(s) && Planned(s) && Perform(s, ops).Some?
    ensures var t := Perform(s, ops).value.0; Fails(op, t) <==> FlagsForbid(op, t.scheduled, t.inited)
  {
    var (t, h) := Perform(s, ops).value;
    PerformSettles(s, ops);
    PerformPlanned(s, ops);
    ScheduleFailsExactly(t, h);
    InitFailsExactly(t, h);
    RunFailsExactly(t, h);
  }

  // ---------- Restarting ----------

  /** The ordinary actions of the scheduler itself, in sorted order. */
  ghost function OwnLeaves(s: Sched, n: nat): seq<Event>
    requires n <= |s.sort|
  {
    if n == 0 then []
    else
      OwnLeaves(s, n - 1) +
      if s.sort[n - 1] < |s.nodes| && s.nodes[s.sort[n - 1]].Leaf? then [Inited(s.nodes[s.sort[n - 1]].id)] else []
  }

  lemma {:induction false} NestedSayNothing(s: Sched, h: seq<Event>, n: nat)
    requires Settled(s, h) && s.inited && n <= |s.sort|
    ensures InitLogs(s.(inited := false), n) == OwnLeaves(s, n)
  {
    if n > 0 {
      NestedSayNothing(s, h, n - 1);
      assert SettledNode(s, s.nodes[s.sort[n - 1]], h);
    }
  }

  lemma {:induction false} ReinitOf(s: Sched, h: seq<Event>)
    requires Settled(s, h) && s.inited
    ensures InitLog(After(Restart, s)) == OwnLeaves(s, |s.sort|)
  {
    NestedSayNothing(s, h, |s.sort|);
  }

  /** `restarting` clears one flag only: the next `init_actions` initializes the scheduler's own actions again,
      and no action of a nested scheduler. */
  lemma {:induction false} RestartIsShallow(s: Sched, ops: seq<Op>)
    requires Fresh(s) && Perform(s, ops).Some? && Perform(s, ops).value.0.inited
    ensures var t := Perform(s, ops).value.0; InitLog(After(Restart, t)) == OwnLeaves(t, |t.sort|)
  {
    PerformSettles(s, ops);
    ReinitOf(Perform(s, ops).value.0, Perform(s, ops).value.1);
  }
}
