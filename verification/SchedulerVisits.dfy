/** How often the operations on a tree of schedulers call every action of it (SIM/src/Scheduler.C): counted over the tree
    as it was registered, without regard to any order. */
module SchedulerVisits {
  import opened Common
  import opened SchedulerLifecycle

  // ---------- The tree ----------

  /** How many ordinary actions of the tree have the given id. */
  ghost function Occurs(n: Node, id: nat): nat
    decreases n, 0
  {
    match n
    case Leaf(x) => if x == id then 1 else 0
    case Sub(s) => OccursUpTo(s, |s.nodes|, id)
  }

  ghost function OccursUpTo(s: Sched, n: nat, id: nat): nat
    requires n <= |s.nodes|
    decreases s, n
  {
    if n == 0 then 0 else OccursUpTo(s, n - 1, id) + Occurs(s.nodes[n - 1], id)
  }

  /** How often the log holds the event. */
  ghost function Times(log: seq<Event>, e: Event): nat {
    multiset(log)[e]
  }

  // ---------- Sums in any order ----------

  ghost function Sum(w: seq<nat>): nat {
    if w == [] then 0 else Sum(w[..|w| - 1]) + w[|w| - 1]
  }

  ghost predicate Within(order: seq<nat>, n: nat) {
    forall k :: 0 <= k < |order| ==> order[k] < n
  }

  ghost function SumIn(w: seq<nat>, order: seq<nat>): nat
    requires Within(order, |w|)
  {
    if order == [] then 0 else SumIn(w, order[..|order| - 1]) + w[order[|order| - 1]]
  }

  lemma {:induction false} SumWithout(w: seq<nat>, order: seq<nat>, p: nat)
    requires Within(order, |w|) && p < |order|
    ensures SumIn(w, order) == SumIn(w, Erase(order, p)) + w[order[p]]
  {
    var n := |order| - 1;
    if p == n {
      assert Erase(order, p) == order[..n];
    } else {
      SumWithout(w, order[..n], p);
      assert Erase(order, p)[..n - 1] == Erase(order[..n], p);
    }
  }

  lemma {:induction false} SumOfFewer(w: seq<nat>, order: seq<nat>)
    requires w != [] && Within(order, |w| - 1)
    ensures SumIn(w, order) == SumIn(w[..|w| - 1], order)
  {
    if order != [] {
      SumOfFewer(w, order[..|order| - 1]);
    }
  }

  lemma {:induction false} WithoutLast(order: seq<nat>, n: nat, p: nat)
    requires Permutes(order, n + 1) && p <= n && order[p] == n
    ensures Permutes(Erase(order, p), n)
  {
    var rest := Erase(order, p);
    forall x: nat | x < n ensures x in rest {
      assert x in order;
      var k :| 0 <= k < |order| && order[k] == x;
      assert rest[if k < p then k else k - 1] == x;
    }
  }

  /** A sum does not depend on the order of its terms. */
  lemma {:induction false} PermutedSum(w: seq<nat>, order: seq<nat>)
    requires Permutes(order, |w|)
    ensures SumIn(w, order) == Sum(w)
    decreases |w|
  {
    if w != [] {
      var n := |w| - 1;
      assert n in order;
      var p: nat :| p < |order| && order[p] == n;
      SumWithout(w, order, p);
      WithoutLast(order, n, p);
      SumOfFewer(w, Erase(order, p));
      PermutedSum(w[..n], Erase(order, p));
    }
  }

  // ---------- Counting the calls of one operation ----------

  ghost function Weights(s: Sched, id: nat): (w: seq<nat>)
    ensures |w| == |s.nodes| && forall k :: 0 <= k < |w| ==> w[k] == Occurs(s.nodes[k], id)
  {
    seq(|s.nodes|, k requires 0 <= k < |s.nodes| => Occurs(s.nodes[k], id))
  }

  lemma {:induction false} SumOfWeights(s: Sched, n: nat, id: nat)
    requires n <= |s.nodes|
    ensures Sum(Weights(s, id)[..n]) == OccursUpTo(s, n, id)
  {
    if n > 0 {
      SumOfWeights(s, n - 1, id);
      assert Weights(s, id)[..n][..n - 1] == Weights(s, id)[..n - 1];
    }
  }

  lemma {:induction false} LeavesCount(n: Node, id: nat)
    requires n.Sub? ==> Proper(n.sched) && !RunFails(n.sched)
    ensures multiset(NodeLeaves(n))[id] == Occurs(n, id)
    decreases n, 0
  {
    if n.Sub? {
      var s, w := n.sched, Weights(n.sched, id);
      LeavesUpToCount(s, |s.sort|, id);
      PermutedSum(w, s.sort);
      SumOfWeights(s, |s.nodes|, id);
      assert s.sort[..|s.sort|] == s.sort && w[..|s.nodes|] == w;
    }
  }

  lemma {:induction false} LeavesUpToCount(s: Sched, m: nat, id: nat)
    requires Proper(s) && !RunFails(s) && m <= |s.sort|
    ensures Within(s.sort, |s.nodes|)
    ensures multiset(LeavesUpTo(s, m))[id] == SumIn(Weights(s, id), s.sort[..m])
    decreases s, m
  {
    if m > 0 {
      LeavesUpToCount(s, m - 1, id);
      LeavesCount(s.nodes[s.sort[m - 1]], id);
      assert s.sort[..m][..m - 1] == s.sort[..m - 1];
    }
  }

  lemma {:induction false} RunAllCount(ids: seq<nat>, id: nat)
    ensures Times(RunAll(ids), Ran(id)) == multiset(ids)[id]
  {
    if ids != [] {
      var n := |ids| - 1;
      RunAllCount(ids[..n], id);
      assert ids == ids[..n] + [ids[n]] && RunAll(ids) == RunAll(ids[..n]) + [Ran(ids[n])];
    }
  }

  lemma {:induction false} FinalizeAllCount(ids: seq<nat>, id: nat)
    ensures Times(FinalizeAll(ids), Finalized(id)) == multiset(ids)[id]
  {
    if ids != [] {
      var n := |ids| - 1;
      FinalizeAllCount(ids[..n], id);
      assert ids == ids[..n] + [ids[n]] && FinalizeAll(ids) == [Finalized(ids[n])] + FinalizeAll(ids[..n]);
    }
  }

  // ---------- The operations change no action ----------

  lemma {:induction false} OccursAfter(op: Op, s: Sched, id: nat)
    ensures Occurs(Sub(After(op, s)), id) == Occurs(Sub(s), id)
    decreases s, |s.nodes| + 1
  {
    if op == Schedule || (op == Init && !s.inited) {
      OccursAfterUpTo(op, s, |s.nodes|, id);
    } else {
      OccursSame(s, After(op, s), |s.nodes|, id);
    }
  }

  lemma {:induction false} OccursSame(s: Sched, t: Sched, n: nat, id: nat)
    requires s.nodes == t.nodes && n <= |s.nodes|
    ensures OccursUpTo(s, n, id) == OccursUpTo(t, n, id)
  {
    if n > 0 {
      OccursSame(s, t, n - 1, id);
    }
  }

  lemma {:induction false} OccursAfterUpTo(op: Op, s: Sched, n: nat, id: nat)
    requires (op == Schedule || (op == Init && !s.inited)) && n <= |s.nodes|
    ensures |After(op, s).nodes| == |s.nodes| && OccursUpTo(After(op, s), n, id) == OccursUpTo(s, n, id)
    decreases s, n
  {
    if n > 0 {
      OccursAfterUpTo(op, s, n - 1, id);
      var node := s.nodes[n - 1];
      assert After(op, s).nodes[n - 1] == if op == Schedule then ScheduledNode(node) else InitNode(node);
      if node.Sub? {
        OccursAfter(op, node.sched, id);
      }
    }
  }

  lemma {:induction false} OccursStays(s: Sched, ops: seq<Op>, id: nat)
    requires Perform(s, ops).Some?
    ensures Occurs(Sub(Perform(s, ops).value.0), id) == Occurs(Sub(s), id)
  {
    if ops != [] {
      OccursStays(s, ops[..|ops| - 1], id);
      OccursAfter(ops[|ops| - 1], Perform(s, ops[..|ops| - 1]).value.0, id);
    }
  }

  /** Whatever was done with a tree before, a run or a finalization that does not abort calls every action of it, and
      calls it as often as it occurs in the tree as registered. */
  lemma {:induction false} EveryActionIsCalled(s: Sched, ops: seq<Op>, op: Op, id: nat)
    requires Fresh(s) && Perform(s, ops).Some? && op in {Run, Finalize} && !Fails(op, Perform(s, ops).value.0)
    ensures Times(Log(op, Perform(s, ops).value.0), CallOf(op, id)) == Occurs(Sub(s), id)
  {
    var (t, h) := Perform(s, ops).value;
    PerformSettles(s, ops);
    SettledIsProper(t, h);
    OccursStays(s, ops, id);
    LeavesCount(Sub(t), id);
    RunAllCount(Leaves(t), id);
    FinalizeAllCount(Leaves(t), id);
  }

  // ---------- The first initialization ----------

  /** Neither the scheduler nor any nested one is initialized. */
  ghost predicate NoneInited(s: Sched) {
    !s.inited && forall k :: 0 <= k < |s.nodes| && s.nodes[k].Sub? ==> NoneInited(s.nodes[k].sched)
  }

  function InitAll(ids: seq<nat>): (r: seq<Event>)
    ensures |r| == |ids| && forall k :: 0 <= k < |ids| ==> r[k] == Inited(ids[k])
  {
    seq(|ids|, k requires 0 <= k < |ids| => Inited(ids[k]))
  }

  lemma {:induction false} InitTwo(a: seq<nat>, b: seq<nat>)
    ensures InitAll(a + b) == InitAll(a) + InitAll(b)
  {
  }

  lemma {:induction false} NodeInitIsLeaves(n: Node)
    requires n.Sub? ==> Proper(n.sched) && NoneInited(n.sched)
    ensures InitNodeLog(n) == InitAll(NodeLeaves(InitNode(n)))
    decreases n, 0
  {
    if n.Sub? {
      InitLogsAreLeaves(n.sched, |n.sched.sort|);
    }
  }

  lemma {:induction false} InitLogsAreLeaves(s: Sched, m: nat)
    requires Proper(s) && NoneInited(s) && m <= |s.sort|
    ensures InitLogs(s, m) == InitAll(LeavesUpTo(InitAfter(s), m))
    decreases s, m
  {
    if m > 0 {
      hide InitNodeLog, NodeLeaves, InitAll;
      var t, node := InitAfter(s), s.nodes[s.sort[m - 1]];
      InitLogsAreLeaves(s, m - 1);
      NodeInitIsLeaves(node);
      assert t.nodes[s.sort[m - 1]] == InitNode(node);
      InitTwo(LeavesUpTo(t, m - 1), NodeLeaves(InitNode(node)));
    } else {
      assert InitAll([]) == [];
    }
  }

  /** The first call initializes the action that the second one runs. */
  predicate SameAction(first: Event, second: Event) {
    first.Inited? && second == Ran(first.id)
  }

  /** The first initialization of a tree calls the same actions in the same order as the runs after it. */
  lemma {:induction false} RunRepeatsInit(s: Sched)
    requires Proper(s) && NoneInited(s) && !InitFails(s)
    ensures |Log(Init, s)| == |Log(Run, After(Init, s))|
    ensures forall k :: 0 <= k < |Log(Init, s)| ==>
      SameAction(Log(Init, s)[k], Log(Run, After(Init, s))[k])
  {
    InitLogsAreLeaves(s, |s.sort|);
  }

  lemma {:induction false} NoneInitedAfter(op: Op, s: Sched)
    requires NoneInited(s) && op != Init
    ensures NoneInited(After(op, s))
  {
    var t := After(op, s);
    forall k | 0 <= k < |t.nodes| && t.nodes[k].Sub? ensures NoneInited(t.nodes[k].sched) {
      if op == Schedule {
        assert t.nodes[k] == ScheduledNode(s.nodes[k]);
        NoneInitedAfter(op, s.nodes[k].sched);
      }
    }
  }

  lemma {:induction false} NoneInitedYet(s: Sched, ops: seq<Op>)
    requires NoneInited(s) && Perform(s, ops).Some? && Init !in ops
    ensures NoneInited(Perform(s, ops).value.0)
  {
    if ops != [] {
      var n := |ops| - 1;
      assert ops[n] != Init && Init !in ops[..n];
      NoneInitedYet(s, ops[..n]);
      NoneInitedAfter(ops[n], Perform(s, ops[..n]).value.0);
    }
  }

  lemma {:induction false} FreshIsNotInited(s: Sched)
    requires Fresh(s)
    ensures NoneInited(s)
  {
    forall k | 0 <= k < |s.nodes| && s.nodes[k].Sub? ensures NoneInited(s.nodes[k].sched) {
      FreshIsNotInited(s.nodes[k].sched);
    }
  }

  lemma {:induction false} SameCounts(inits: seq<Event>, runs: seq<Event>, id: nat)
    requires |inits| == |runs|
    requires forall k :: 0 <= k < |inits| ==> SameAction(inits[k], runs[k])
    ensures Times(inits, Inited(id)) == Times(runs, Ran(id))
  {
    if inits != [] {
      var n := |inits| - 1;
      SameCounts(inits[..n], runs[..n], id);
      assert inits == inits[..n] + [inits[n]] && runs == runs[..n] + [runs[n]];
    }
  }

  /** The first initialization of a tree, whatever came before it, initializes every action as often as it occurs in the
      tree as registered. */
  lemma {:induction false} EveryActionIsInitialized(s: Sched, ops: seq<Op>, id: nat)
    requires Fresh(s) && Perform(s, ops).Some? && Init !in ops && !Fails(Init, Perform(s, ops).value.0)
    ensures Times(Log(Init, Perform(s, ops).value.0), Inited(id)) == Occurs(Sub(s), id)
  {
    var (t, h) := Perform(s, ops).value;
    PerformSettles(s, ops);
    SettledIsProper(t, h);
    FreshIsNotInited(s);
    NoneInitedYet(s, ops);
    RunRepeatsInit(t);
    assert (ops + [Init])[..|ops|] == ops;
    assert Perform(s, ops + [Init]) == Some((After(Init, t), h + Log(Init, t)));
    PerformSettles(s, ops + [Init]);
    RunFailsExactly(After(Init, t), h + Log(Init, t));
    EveryActionIsCalled(s, ops + [Init], Run, id);
    SameCounts(Log(Init, t), Log(Run, After(Init, t)), id);
  }
}
