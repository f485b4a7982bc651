/** The command queue between client threads and the I/O thread (`HDF4::PostCommand` and `HDF4::Entry`,
    SimIO/src/HDF4.C), as an interleaving of any number of calls with the one server.
    The semaphores are counters here; Semaphores shows that the waits and posts that succeed act on their count in this
    way. A wait that fails, whose result `PostCommand` ignores, is not a step of this model. */
module IoThread {
  import opened Common

  /** Where a call of `PostCommand` stands. */
  datatype CallPc =
    | NotCalled
    | WantLock     // about to lock sm_cs
    | InLock       // about to push
    | Pushed       // about to unlock
    | Unlocked     // about to post sm_pending
    | Waiting      // about to wait on the command's own semaphore
    | Returned

  /** Where the I/O thread stands in its loop. */
  datatype ServerPc =
    | AtWait       // about to wait on sm_pending
    | Woken        // about to test whether the queue is empty
    | WantFront    // about to lock sm_cs
    | AtFront      // about to take the front of the queue
    | Popped       // about to unlock
    | Acting       // about to perform the command
    | Acted        // about to post the command's semaphore
    | Testing      // about to test the loop condition on the current command
    | Exited
    | Crashed      // read the front of an empty list, or the command through a null pointer

  const FREE := -1
  const SERVER := -2
  const NULL := -1

  /** `terminate[c]` says whether call c posts a Terminate command. `pushed`, `popped` and `done` record,
      in order, the calls whose commands were pushed, popped and performed. */
  datatype State = State(
    terminate: seq<bool>, pc: seq<CallPc>, lock: int, queue: seq<nat>, pending: nat, sem: seq<nat>,
    server: ServerPc, current: int, pushed: seq<nat>, popped: seq<nat>, done: seq<nat>)

  ghost predicate Init(s: State) {
    && |s.terminate| == |s.pc| == |s.sem|
    && (forall c :: 0 <= c < |s.pc| ==> s.pc[c] == NotCalled && s.sem[c] == 0)
    && s.lock == FREE && s.queue == [] && s.pending == 0
    && s.server == AtWait && s.current == NULL && s.pushed == [] && s.popped == [] && s.done == []
  }

  function Move(s: State, c: nat, p: CallPc): State
    requires c < |s.pc|
  {
    s.(pc := s.pc[c := p])
  }

  /** Call c makes one step. */
  ghost predicate CallStep(s: State, s': State, c: nat)
    requires c < |s.pc| == |s.sem|
  {
    match s.pc[c]
    case NotCalled => s' == Move(s, c, WantLock)
    case WantLock => s.lock == FREE && s' == Move(s, c, InLock).(lock := c)
    case InLock => s' == Move(s, c, Pushed).(queue := s.queue + [c], pushed := s.pushed + [c])
    case Pushed => s' == Move(s, c, Unlocked).(lock := FREE)
    case Unlocked => s' == Move(s, c, Waiting).(pending := s.pending + 1)
    case Waiting => s.sem[c] > 0 && s' == Move(s, c, Returned).(sem := s.sem[c := s.sem[c] - 1])
    case Returned => false
  }

  predicate IsCall(s: State, c: int) {
    0 <= c < |s.sem| && c < |s.terminate|
  }

  /** The I/O thread makes one step. */
  ghost predicate ServerStep(s: State, s': State) {
    match s.server
    case AtWait => s.pending > 0 && s' == s.(pending := s.pending - 1, server := Woken)
    case Woken => s' == s.(server := if s.queue == [] then Testing else WantFront)
    case WantFront => s.lock == FREE && s' == s.(lock := SERVER, server := AtFront)
    case AtFront =>
      if s.queue == [] then s' == s.(server := Crashed)
      else s' == s.(current := s.queue[0], queue := s.queue[1..], popped := s.popped + [s.queue[0]], server := Popped)
    case Popped => s' == s.(lock := FREE, server := Acting)
    case Acting => IsCall(s, s.current) && s' == s.(done := s.done + [s.current], server := Acted)
    case Acted => IsCall(s, s.current) && s' == s.(sem := s.sem[s.current := s.sem[s.current] + 1], server := Testing)
    case Testing =>
      if s.current == NULL then s' == s.(server := Crashed)
      else IsCall(s, s.current) && s' == s.(server := if s.terminate[s.current] then Exited else AtWait)
    case Exited => false
    case Crashed => false
  }

  ghost predicate Shape(s: State) {
    |s.terminate| == |s.pc| == |s.sem|
  }

  ghost predicate Next(s: State, s': State)
    requires Shape(s)
  {
    ServerStep(s, s') || exists c: nat :: c < |s.pc| && CallStep(s, s', c)
  }

  ghost predicate StepAt(run: seq<State>, i: nat)
    requires i + 1 < |run|
  {
    Shape(run[i]) && Next(run[i], run[i + 1])
  }

  ghost predicate IsRun(run: seq<State>) {
    run != [] && Init(run[0]) && forall i: nat :: i + 1 < |run| ==> StepAt(run, i)
  }

  // ---------- The invariant, in five parts ----------

  predicate InQueueCode(p: CallPc) {
    p.InLock? || p.Pushed?
  }

  predicate HasPushed(p: CallPc) {
    p.Pushed? || p.Unlocked? || p.Waiting? || p.Returned?
  }

  ghost predicate LockInv(s: State) {
    && SERVER <= s.lock < |s.pc|
    && (forall c :: 0 <= c < |s.pc| ==> (InQueueCode(s.pc[c]) <==> s.lock == c))
    && (s.server.AtFront? || s.server.Popped? <==> s.lock == SERVER)
  }

  /** Calls that have pushed but not yet posted sm_pending. */
  function Owed(s: State): nat {
    multiset(s.pc)[Pushed] + multiset(s.pc)[Unlocked]
  }

  /** 1 while the server has taken a unit of sm_pending and not yet the command it stands for. */
  function Taken(s: State): nat {
    if s.server.Woken? || s.server.WantFront? || s.server.AtFront? then 1 else 0
  }

  ghost predicate CountInv(s: State) {
    |s.queue| == s.pending + Owed(s) + Taken(s)
  }

  ghost predicate HistoryInv(s: State) {
    && s.pushed == s.popped + s.queue && Distinct(s.pushed)
    && (forall j :: 0 <= j < |s.pushed| ==> s.pushed[j] < |s.pc|)
    && (forall c: nat :: c < |s.pc| ==> (c in s.pushed <==> HasPushed(s.pc[c])))
    && s.current == (if s.popped == [] then NULL else s.popped[|s.popped| - 1])
    && (s.server.Popped? || s.server.Acting? || s.server.Acted? || s.server.Testing? || s.server.Exited? ==> s.popped != [])
    && s.popped == if s.server.Popped? || s.server.Acting? then s.done + [s.current] else s.done
  }

  /** The server has performed call c and posted its semaphore. */
  ghost predicate Answered(s: State, c: nat) {
    c in s.done && !(s.server.Acted? && s.current == c)
  }

  ghost predicate AnswerInv(s: State)
    requires Shape(s)
  {
    forall c: nat :: c < |s.pc| ==>
      s.sem[c] == (if Answered(s, c) && s.pc[c] != Returned then 1 else 0) && (s.pc[c].Returned? ==> Answered(s, c))
  }

  ghost predicate EndInv(s: State)
    requires Shape(s)
  {
    && s.server != Crashed
    && (forall j :: 0 <= j < |s.popped| ==> s.popped[j] < |s.terminate|)
    && (forall j :: 0 <= j < |s.popped| - 1 ==> !s.terminate[s.popped[j]])
    && (s.popped != [] && (s.server.AtWait? || s.server.Woken? || s.server.WantFront? || s.server.AtFront?) ==>
        !s.terminate[s.popped[|s.popped| - 1]])
    && (s.server.Exited? ==> s.popped != [] && s.terminate[s.popped[|s.popped| - 1]])
  }

  ghost predicate Inv(s: State) {
    Shape(s) && LockInv(s) && CountInv(s) && HistoryInv(s) && AnswerInv(s) && EndInv(s)
  }

  lemma {:induction false} MoveCounts(s: State, c: nat, p: CallPc)
    requires c < |s.pc|
    ensures Owed(Move(s, c, p)) == Owed(s)
      - (if s.pc[c].Pushed? || s.pc[c].Unlocked? then 1 else 0) + if p.Pushed? || p.Unlocked? then 1 else 0
  {
  }

  lemma {:induction false} CallKeepsLock(s: State, s': State, c: nat)
    requires Shape(s) && LockInv(s) && c < |s.pc| && CallStep(s, s', c)
    ensures Shape(s') && LockInv(s')
  {
    assert InQueueCode(s.pc[c]) <==> s.lock == c;
  }

  lemma {:induction false} CallKeepsCount(s: State, s': State, c: nat)
    requires Inv(s) && c < |s.pc| && CallStep(s, s', c)
    ensures CountInv(s')
  {
    MoveCounts(s, c, s'.pc[c]);
  }

  lemma {:induction false} CallKeepsEnd(s: State, s': State, c: nat)
    requires Inv(s) && c < |s.pc| && CallStep(s, s', c)
    ensures Shape(s') && EndInv(s')
  {
    assert s'.popped == s.popped && s'.server == s.server && s'.terminate == s.terminate;
  }

  lemma {:induction false} PushKeepsHistory(s: State, s': State, c: nat)
    requires Shape(s) && HistoryInv(s) && c < |s.pc| && s.pc[c].InLock? && CallStep(s, s', c)
    ensures HistoryInv(s')
  {
    assert c !in s.pushed;
    assert s'.pushed == s'.popped + s'.queue;
    forall d: nat | d < |s.pc| ensures d in s'.pushed <==> HasPushed(s'.pc[d]) {
      assert d in s'.pushed <==> d in s.pushed || d == c;
      assert d in s.pushed <==> HasPushed(s.pc[d]);
    }
  }

  lemma {:induction false} CallKeepsHistory(s: State, s': State, c: nat)
    requires Shape(s) && HistoryInv(s) && c < |s.pc| && !s.pc[c].InLock? && CallStep(s, s', c)
    ensures HistoryInv(s')
  {
    assert s'.pushed == s.pushed && s'.popped == s.popped && s'.queue == s.queue;
    forall d: nat | d < |s.pc| ensures d in s'.pushed <==> HasPushed(s'.pc[d]) {
      assert d in s.pushed <==> HasPushed(s.pc[d]);
    }
  }

  lemma {:induction false} CallKeepsAnswer(s: State, s': State, c: nat)
    requires Inv(s) && c < |s.pc| && CallStep(s, s', c) && Shape(s')
    ensures AnswerInv(s')
  {
    forall d: nat | d < |s.pc|
      ensures s'.sem[d] == (if Answered(s', d) && s'.pc[d] != Returned then 1 else 0)
      ensures s'.pc[d].Returned? ==> Answered(s', d)
    {
      assert Answered(s', d) == Answered(s, d);
      assert s.sem[d] == if Answered(s, d) && s.pc[d] != Returned then 1 else 0;
    }
  }

  lemma {:induction false} ServerKeepsLock(s: State, s': State)
    requires Inv(s) && ServerStep(s, s')
    ensures Shape(s') && LockInv(s') && CountInv(s')
  {
  }

  lemma {:induction false} PopKeepsHistory(s: State, s': State)
    requires Shape(s) && HistoryInv(s) && s.server.AtFront? && s.queue != []
    requires s' == s.(current := s.queue[0], queue := s.queue[1..], popped := s.popped + [s.queue[0]], server := Popped)
    ensures HistoryInv(s')
  {
    assert s'.pushed == s'.popped + s'.queue;
  }

  lemma {:induction false} ServerKeepsHistory(s: State, s': State)
    requires Shape(s) && HistoryInv(s) && !s.server.AtFront? && ServerStep(s, s')
    requires (s.server.Testing? ==> s.current != NULL) && (s.server.Woken? ==> s.queue != [])
    ensures HistoryInv(s') && s'.server != Crashed
  {
    assert s'.pushed == s.pushed && s'.popped == s.popped && s'.queue == s.queue && s'.pc == s.pc;
  }

  lemma {:induction false} ServerKeepsAnswer(s: State, s': State)
    requires Inv(s) && ServerStep(s, s') && Shape(s') && HistoryInv(s')
    ensures AnswerInv(s')
  {
    forall d: nat | d < |s.pc|
      ensures s'.sem[d] == (if Answered(s', d) && s'.pc[d] != Returned then 1 else 0)
      ensures s'.pc[d].Returned? ==> Answered(s', d)
    {
      assert s.sem[d] == if Answered(s, d) && s.pc[d] != Returned then 1 else 0;
      if s.server.Acting? {
        CurrentIsNew(s);
      } else if s.server.Acted? {
        assert s.current in s.done;
      }
    }
  }

  lemma {:induction false} CurrentIsNew(s: State)
    requires HistoryInv(s) && s.server.Acting?
    ensures s.current !in s.done
  {
    assert s.pushed == s.done + [s.current] + s.queue;
    assert forall j :: 0 <= j < |s.done| ==> s.pushed[j] == s.done[j];
    assert s.pushed[|s.done|] == s.current;
  }

  lemma {:induction false} FrontIsCall(s: State)
    requires Shape(s) && HistoryInv(s) && s.queue != []
    ensures s.queue[0] < |s.terminate|
  {
    assert s.pushed[|s.popped|] == s.queue[0];
  }

  lemma {:induction false} PopKeepsEnd(s: State, s': State)
    requires Shape(s) && EndInv(s) && s.server.AtFront? && s.queue != [] && s.queue[0] < |s.terminate|
    requires s' == s.(current := s.queue[0], queue := s.queue[1..], popped := s.popped + [s.queue[0]], server := Popped)
    ensures EndInv(s')
  {
    var n := |s.popped|;
    assert s'.popped[n] == s.queue[0] && forall j :: 0 <= j < n ==> s'.popped[j] == s.popped[j];
  }

  lemma {:induction false} ServerKeepsEnd(s: State, s': State)
    requires Shape(s) && EndInv(s) && HistoryInv(s)
    requires !s.server.AtFront? && ServerStep(s, s') && s'.server != Crashed
    ensures Shape(s') && EndInv(s')
  {
    assert s'.popped == s.popped && s'.terminate == s.terminate;
  }

  lemma {:induction false} NextKeeps(s: State, s': State)
    requires Inv(s) && Next(s, s')
    ensures Inv(s') && s'.terminate == s.terminate
  {
    if ServerStep(s, s') {
      ServerKeepsLock(s, s');
      if s.server.AtFront? {
        assert s.queue != [];
        PopKeepsHistory(s, s');
      } else {
        ServerKeepsHistory(s, s');
      }
      ServerKeepsAnswer(s, s');
      if s.server.AtFront? {
        assert s.queue != [];
        FrontIsCall(s);
        PopKeepsEnd(s, s');
      } else {
        ServerKeepsEnd(s, s');
      }
    } else {
      var c: nat :| c < |s.pc| && CallStep(s, s', c);
      CallKeepsLock(s, s', c);
      CallKeepsCount(s, s', c);
      CallKeepsEnd(s, s', c);
      if s.pc[c].InLock? {
        PushKeepsHistory(s, s', c);
      } else {
        CallKeepsHistory(s, s', c);
      }
      CallKeepsAnswer(s, s', c);
    }
  }

  lemma {:induction false} InitInv(s: State)
    requires Init(s)
    ensures Inv(s)
  {
  }

  lemma {:induction false} RunInv(run: seq<State>, i: nat)
    requires IsRun(run) && i < |run|
    ensures Inv(run[i]) && run[i].terminate == run[0].terminate
  {
    if i == 0 {
      InitInv(run[0]);
    } else {
      RunInv(run, i - 1);
      assert StepAt(run, i - 1);
      NextKeeps(run[i - 1], run[i]);
    }
  }

  // ---------- Safety over whole runs ----------

  /** The queue holds one command for every unit of sm_pending, every call between its push and its post,
      and the server between its wait and its pop. */
  lemma {:induction false} QueueIsAccountedFor(run: seq<State>, i: nat)
    requires IsRun(run) && i < |run|
    ensures |run[i].queue| == run[i].pending + Owed(run[i]) + Taken(run[i])
  {
    RunInv(run, i);
  }

  /** After its wait the server always finds a command: the early `continue` is never taken, the list is never
      read while empty, and the command pointer is never null when it is used. */
  lemma {:induction false} ServerAlwaysFindsWork(run: seq<State>, i: nat)
    requires IsRun(run) && i < |run|
    ensures run[i].server.Woken? || run[i].server.WantFront? || run[i].server.AtFront? ==> run[i].queue != []
    ensures run[i].server != Crashed
    ensures run[i].server.Acting? || run[i].server.Acted? || run[i].server.Testing? ==> IsCall(run[i], run[i].current)
  {
    RunInv(run, i);
    var s := run[i];
    assert forall j :: 0 <= j < |s.popped| ==> s.popped[j] == s.pushed[j];
  }

  /** Commands are performed at most once, in the order in which they were pushed. */
  lemma {:induction false} OnceAndInOrder(run: seq<State>, i: nat)
    requires IsRun(run) && i < |run|
    ensures run[i].done <= run[i].pushed && Distinct(run[i].pushed)
  {
    RunInv(run, i);
    var s := run[i];
    assert s.popped <= s.pushed;
    assert s.done <= s.popped;
  }

  /** A call of PostCommand returns only after its own command was performed, and it pushed its command. */
  lemma {:induction false} ReturnsAfterItsCommand(run: seq<State>, i: nat, c: nat)
    requires IsRun(run) && i < |run| && c < |run[i].pc| && run[i].pc[c] == Returned
    ensures c in run[i].done
  {
    RunInv(run, i);
  }

  /** Nothing is performed after a Terminate command; when the server has exited it has performed exactly
      the commands pushed up to and including the first Terminate. */
  lemma {:induction false} TerminateIsLast(run: seq<State>, i: nat, j: nat)
    requires IsRun(run) && i < |run| && j < |run[i].done|
    ensures run[i].done[j] < |run[i].terminate|
    ensures run[i].terminate[run[i].done[j]] ==> j == |run[i].done| - 1
    ensures run[i].server == Exited ==>
      |run[i].done| > 0 && (run[i].terminate[run[i].done[j]] <==> j == |run[i].done| - 1)
  {
    RunInv(run, i);
    assert run[i].done[j] == run[i].popped[j];
  }

  // ---------- Every run ends, and where ----------

  function CallRank(p: CallPc): nat {
    match p
    case NotCalled => 6
    case WantLock => 5
    case InLock => 4
    case Pushed => 3
    case Unlocked => 2
    case Waiting => 1
    case Returned => 0
  }

  function RankSum(pcs: seq<CallPc>): nat {
    if pcs == [] then 0 else RankSum(pcs[..|pcs| - 1]) + CallRank(pcs[|pcs| - 1])
  }

  lemma {:induction false} RankUpdate(pcs: seq<CallPc>, c: nat, p: CallPc)
    requires c < |pcs|
    ensures RankSum(pcs[c := p]) == RankSum(pcs) - CallRank(pcs[c]) + CallRank(p)
  {
    var n := |pcs| - 1;
    if c < n {
      RankUpdate(pcs[..n], c, p);
      assert pcs[c := p][..n] == pcs[..n][c := p];
    } else {
      assert pcs[c := p][..n] == pcs[..n];
    }
  }

  lemma {:induction false} RankBound(pcs: seq<CallPc>)
    ensures RankSum(pcs) <= 6 * |pcs|
  {
    if pcs != [] {
      RankBound(pcs[..|pcs| - 1]);
    }
  }

  /** Steps left in the current round of the server loop; below zero before the command is taken,
      when the round is paid for by the command itself. */
  function ServerRank(p: ServerPc): int {
    match p
    case Popped => 4
    case Acting => 3
    case Acted => 2
    case Testing => 1
    case AtWait => 0
    case Woken => -1
    case WantFront => -2
    case AtFront => -3
    case Exited => -4
    case Crashed => -4
  }

  function Measure(s: State): int {
    RankSum(s.pc) + 8 * (|s.pc| - |s.popped|) + ServerRank(s.server) + 4
  }

  lemma {:induction false} MeasureBound(s: State)
    requires Inv(s)
    ensures 0 <= Measure(s) <= 14 * |s.pc| + 8
  {
    Pigeonhole(s.pushed, |s.pc|);
    RankBound(s.pc);
  }

  lemma {:induction false} CallStepDescends(s: State, s': State, c: nat)
    requires Inv(s) && c < |s.pc| && CallStep(s, s', c)
    ensures Measure(s') < Measure(s)
  {
    RankUpdate(s.pc, c, s'.pc[c]);
    assert s'.pc == s.pc[c := s'.pc[c]];
  }

  lemma {:induction false} StepDescends(s: State, s': State)
    requires Inv(s) && Next(s, s')
    ensures Measure(s') < Measure(s) && |s'.pc| == |s.pc|
  {
    if !ServerStep(s, s') {
      var c: nat :| c < |s.pc| && CallStep(s, s', c);
      CallStepDescends(s, s', c);
    } else if s.server.Woken? {
      assert s.queue != [];
    }
  }

  lemma {:induction false} RunDescends(run: seq<State>, i: nat)
    requires IsRun(run) && i < |run|
    ensures Measure(run[i]) + i <= Measure(run[0]) && |run[i].pc| == |run[0].pc|
  {
    if i > 0 {
      RunDescends(run, i - 1);
      RunInv(run, i - 1);
      assert StepAt(run, i - 1);
      StepDescends(run[i - 1], run[i]);
    }
  }

  lemma {:induction false} SpanBound(first: State, last: State, n: nat)
    requires Inv(first) && Inv(last) && Measure(last) + n <= Measure(first)
    ensures n <= 14 * |first.pc| + 8
  {
    MeasureBound(first);
    MeasureBound(last);
  }

  /** n calls and the server make at most 14n + 8 steps: the protocol cannot go on for ever without new calls. */
  lemma {:induction false} RunsAreFinite(run: seq<State>)
    requires IsRun(run)
    ensures |run| <= 14 * |run[0].pc| + 9
  {
    hide Inv, Measure;
    RunDescends(run, |run| - 1);
    RunInv(run, 0);
    RunInv(run, |run| - 1);
    SpanBound(run[0], run[|run| - 1], |run| - 1);
  }

  ghost predicate Stuck(s: State)
    requires Shape(s)
  {
    forall s' :: !Next(s, s')
  }

  lemma {:induction false} CallCanStep(s: State, c: nat)
    requires Inv(s) && c < |s.pc| && !s.pc[c].Returned?
    requires s.pc[c].WantLock? ==> s.lock == FREE
    requires s.pc[c].Waiting? ==> s.sem[c] > 0
    ensures !Stuck(s)
  {
    var m := match s.pc[c]
      case NotCalled => Move(s, c, WantLock)
      case WantLock => Move(s, c, InLock).(lock := c)
      case InLock => Move(s, c, Pushed).(queue := s.queue + [c], pushed := s.pushed + [c])
      case Pushed => Move(s, c, Unlocked).(lock := FREE)
      case Unlocked => Move(s, c, Waiting).(pending := s.pending + 1)
      case Waiting => Move(s, c, Returned).(sem := s.sem[c := s.sem[c] - 1])
      case Returned => s;
    assert CallStep(s, m, c);
    assert Next(s, m);
  }

  lemma {:induction false} ServerCanStep(s: State)
    requires Inv(s) && s.server != Exited
    requires s.server.AtWait? ==> s.pending > 0
    requires s.server.WantFront? ==> s.lock == FREE
    ensures !Stuck(s)
  {
    assert forall j :: 0 <= j < |s.popped| ==> s.popped[j] == s.pushed[j];
    var m := match s.server
      case AtWait => s.(pending := s.pending - 1, server := Woken)
      case Woken => s.(server := if s.queue == [] then Testing else WantFront)
      case WantFront => s.(lock := SERVER, server := AtFront)
      case AtFront => s.(current := s.queue[0], queue := s.queue[1..], popped := s.popped + [s.queue[0]], server := Popped)
      case Popped => s.(lock := FREE, server := Acting)
      case Acting => s.(done := s.done + [s.current], server := Acted)
      case Acted => s.(sem := s.sem[s.current := s.sem[s.current] + 1], server := Testing)
      case Testing => s.(server := if s.terminate[s.current] then Exited else AtWait)
      case Exited => s
      case Crashed => s;
    assert ServerStep(s, m);
    assert Next(s, m);
  }

  lemma {:induction false} StuckIsQuiet(s: State)
    requires Inv(s) && Stuck(s)
    ensures s.server.Exited? || (s.server.AtWait? && s.pending == 0)
    ensures forall c :: 0 <= c < |s.pc| ==> s.pc[c].Returned? || (s.pc[c].Waiting? && s.sem[c] == 0)
  {
    if s.lock == SERVER {
      ServerCanStep(s);
      assert false;
    }
    if s.lock != FREE {
      CallCanStep(s, s.lock);
      assert false;
    }
    if !s.server.Exited? && !(s.server.AtWait? && s.pending == 0) {
      ServerCanStep(s);
      assert false;
    }
    forall c: nat | c < |s.pc| ensures s.pc[c].Returned? || (s.pc[c].Waiting? && s.sem[c] == 0) {
      if !(s.pc[c].Returned? || (s.pc[c].Waiting? && s.sem[c] == 0)) {
        CallCanStep(s, c);
        assert false;
      }
    }
  }

  lemma {:induction false} NotInBoth(a: seq<nat>, b: seq<nat>, x: nat)
    requires Distinct(a + b) && x in a
    ensures x !in b
  {
    var j :| 0 <= j < |a| && a[j] == x;
    forall k | 0 <= k < |b| ensures b[k] != x {
      assert (a + b)[j] != (a + b)[|a| + k];
    }
  }

  /** Where everyone stands when no step is possible. */
  ghost predicate Quiet(s: State) {
    && Inv(s)
    && (s.server.Exited? || (s.server.AtWait? && s.pending == 0))
    && forall c :: 0 <= c < |s.pc| ==> s.pc[c].Returned? || (s.pc[c].Waiting? && s.sem[c] == 0)
  }

  lemma {:induction false} QuietCall(s: State, c: nat)
    requires Quiet(s) && c < |s.pc|
    ensures if s.server == Exited then
        if c in s.done then s.pc[c] == Returned else s.pc[c] == Waiting && c in s.queue
      else s.pc[c] == Returned && c in s.done && s.queue == []
  {
    assert s.pc[c].Returned? || (s.pc[c].Waiting? && s.sem[c] == 0);
    assert c in s.pushed;
    assert s.popped == s.done && s.pushed == s.done + s.queue;
    if s.server.AtWait? {
      QuietQueueIsEmpty(s);
    }
    if c in s.done {
      NotInBoth(s.done, s.queue, c);
    }
  }

  /** Where a run that cannot be continued has got to: every command pushed before the server stopped was performed
      and its caller has returned; if no Terminate was performed that is every call there is; after a Terminate,
      the callers queued behind it are still waiting, and will wait for ever. */
  lemma {:induction false} WhereRunsEnd(run: seq<State>, c: nat)
    requires IsRun(run) && Shape(run[|run| - 1]) && Stuck(run[|run| - 1]) && c < |run[0].pc|
    ensures |run[|run| - 1].pc| == |run[0].pc|
    ensures var s := run[|run| - 1];
      if s.server == Exited then
        if c in s.done then s.pc[c] == Returned else s.pc[c] == Waiting && c in s.queue
      else s.pc[c] == Returned && c in s.done
  {
    hide Stuck, Inv;
    RunInv(run, |run| - 1);
    RunDescends(run, |run| - 1);
    StuckIsQuiet(run[|run| - 1]);
    QuietCall(run[|run| - 1], c);
  }

  /** In push order, nothing behind a Terminate command has been performed, and at the end of a run everything before it
      has. */
  lemma {:induction false} DoneUpToTerminate(s: State, x: nat)
    requires Inv(s) && x < |s.pushed| && (s.server.Exited? || (s.server.AtWait? && s.queue == []))
    ensures x < |s.done| <==> forall j :: 0 <= j < x ==> !Terminates(s, j)
  {
    assert s.pushed == s.done + s.queue && s.popped == s.done;
    assert forall j :: 0 <= j < |s.done| ==> s.pushed[j] == s.done[j];
    if s.server.Exited? {
      assert Terminates(s, |s.done| - 1);
    }
  }

  /** The j-th pushed command is a Terminate. */
  predicate Terminates(s: State, j: nat) {
    j < |s.pushed| && s.pushed[j] < |s.terminate| && s.terminate[s.pushed[j]]
  }

  /** When the server waits at an empty count and every caller has returned or waits, the queue is empty. */
  lemma {:induction false} QuietQueueIsEmpty(s: State)
    requires CountInv(s) && s.server.AtWait? && s.pending == 0
    requires forall c :: 0 <= c < |s.pc| ==> s.pc[c].Returned? || s.pc[c].Waiting?
    ensures s.queue == []
  {
    assert Pushed !in s.pc && Unlocked !in s.pc;
  }

  /** Which callers come back: at the end of every run, the caller of the x-th pushed command has returned exactly when no
      Terminate was pushed before it. */
  lemma {:induction false} ReturnsUnlessBehindTerminate(run: seq<State>, x: nat)
    requires IsRun(run) && Shape(run[|run| - 1]) && Stuck(run[|run| - 1]) && x < |run[|run| - 1].pushed|
    ensures var s := run[|run| - 1];
      s.pushed[x] < |s.pc| && (s.pc[s.pushed[x]] == Returned <==> forall j :: 0 <= j < x ==> !Terminates(s, j))
  {
    hide Stuck, LockInv, CountInv, AnswerInv, EndInv, Terminates;
    var s := run[|run| - 1];
    RunInv(run, |run| - 1);
    RunDescends(run, |run| - 1);
    StuckIsQuiet(s);
    QuietCall(s, s.pushed[x]);
    WhereRunsEnd(run, s.pushed[x]);
    DoneUpToTerminate(s, x);
    DoneIsPrefix(s, x);
  }

  lemma {:induction false} DoneIsPrefix(s: State, x: nat)
    requires HistoryInv(s) && x < |s.pushed|
    ensures s.pushed[x] in s.done <==> x < |s.done|
  {
    assert s.done <= s.popped <= s.pushed;
    if s.pushed[x] in s.done {
      var y :| 0 <= y < |s.done| && s.done[y] == s.pushed[x];
      assert s.pushed[y] == s.pushed[x];
    }
  }

  /** At any moment of any run, and so however the run goes on, the caller of a command pushed behind a Terminate has
      not returned. */
  lemma {:induction false} BehindTerminateNeverReturns(run: seq<State>, i: nat, j: nat, x: nat)
    requires IsRun(run) && i < |run| && j < x < |run[i].pushed| && Terminates(run[i], j)
    ensures run[i].pushed[x] < |run[i].pc| && run[i].pc[run[i].pushed[x]] != Returned
  {
    var s := run[i];
    RunInv(run, i);
    DoneIsPrefix(s, x);
    if s.pc[s.pushed[x]] == Returned {
      ReturnsAfterItsCommand(run, i, s.pushed[x]);
      assert s.done[j] == s.pushed[j];
      TerminateIsLast(run, i, j);
      assert false;
    }
  }

  // ---------- A blocked caller ----------

  lemma {:induction false} Longer(run: seq<State>, s: State)
    requires IsRun(run) && Shape(run[|run| - 1]) && Next(run[|run| - 1], s)
    ensures IsRun(run + [s])
  {
    var more := run + [s];
    forall i: nat | i + 1 < |more| ensures StepAt(more, i) {
      if i + 1 < |run| {
        assert StepAt(run, i);
      }
    }
  }

  /** Every run can be continued until no step is possible. */
  lemma {:induction false} RunsToTheEnd(run: seq<State>) returns (full: seq<State>)
    requires IsRun(run)
    ensures IsRun(full) && run <= full && Shape(full[|full| - 1]) && Stuck(full[|full| - 1])
    decreases 14 * |run[0].pc| + 9 - |run|
  {
    RunInv(run, |run| - 1);
    RunsAreFinite(run);
    if Stuck(run[|run| - 1]) {
      full := run;
    } else {
      var s :| Next(run[|run| - 1], s);
      Longer(run, s);
      RunsAreFinite(run + [s]);
      full := RunsToTheEnd(run + [s]);
    }
  }

  lemma {:induction false} StepKeepsPushed(s: State, s': State)
    requires Shape(s) && Next(s, s')
    ensures s.pushed <= s'.pushed && s'.terminate == s.terminate
  {
    if !ServerStep(s, s') {
      var c: nat :| c < |s.pc| && CallStep(s, s', c);
    }
  }

  lemma {:induction false} PushedStays(run: seq<State>, i: nat, j: nat)
    requires IsRun(run) && i <= j < |run|
    ensures run[i].pushed <= run[j].pushed && run[j].terminate == run[i].terminate
  {
    if i < j {
      PushedStays(run, i, j - 1);
      assert StepAt(run, j - 1);
      StepKeepsPushed(run[j - 1], run[j]);
    }
  }

  /** A call pushes its command: four steps while nobody else moves. */
  lemma {:induction false} PushAlone(run: seq<State>, c: nat) returns (more: seq<State>)
    requires IsRun(run) && Shape(run[|run| - 1]) && c < |run[|run| - 1].pc|
    requires run[|run| - 1].pc[c] == NotCalled && run[|run| - 1].lock == FREE
    ensures IsRun(more) && run <= more
    ensures var s := run[|run| - 1];
      more[|more| - 1] == s.(pc := s.pc[c := Unlocked], queue := s.queue + [c], pushed := s.pushed + [c])
  {
    var s := run[|run| - 1];
    var s1 := s.(pc := s.pc[c := WantLock]);
    var s2 := s.(pc := s.pc[c := InLock], lock := c);
    var s3 := s.(pc := s.pc[c := Pushed], lock := c, queue := s.queue + [c], pushed := s.pushed + [c]);
    var s4 := s.(pc := s.pc[c := Unlocked], queue := s.queue + [c], pushed := s.pushed + [c]);
    OneCallStep(s, s1, c);
    Longer(run, s1);
    OneCallStep(s1, s2, c);
    Longer(run + [s1], s2);
    OneCallStep(s2, s3, c);
    Longer(run + [s1] + [s2], s3);
    OneCallStep(s3, s4, c);
    Longer(run + [s1] + [s2] + [s3], s4);
    more := run + [s1] + [s2] + [s3] + [s4];
  }

  lemma {:induction false} OneCallStep(s: State, s': State, c: nat)
    requires Shape(s) && c < |s.pc| && CallStep(s, s', c)
    ensures Next(s, s')
  {
  }

  /** Two calls have pushed, the first of them a Terminate. */
  lemma {:induction false} TerminateAndAnother() returns (run: seq<State>)
    ensures IsRun(run) && run[0].terminate == [true, false] && run[|run| - 1].pushed == [0, 1]
  {
    hide Next, Inv;
    var first := State([true, false], [NotCalled, NotCalled], FREE, [], 0, [0, 0], AtWait, NULL, [], [], []);
    var one := PushAlone([first], 0);
    run := PushAlone(one, 1);
  }

  lemma {:induction false} SecondWaits(run: seq<State>)
    requires IsRun(run) && run[0].terminate == [true, false] && |run[0].pc| == 2
    requires Shape(run[|run| - 1]) && Stuck(run[|run| - 1]) && [0, 1] <= run[|run| - 1].pushed
    ensures run[|run| - 1].pc == [Returned, Waiting]
  {
    hide Stuck, Inv;
    var s := run[|run| - 1];
    PushedStays(run, 0, |run| - 1);
    WhereRunsEnd(run, 0);
    WhereRunsEnd(run, 1);
    assert s.pushed[0] == 0 && s.pushed[1] == 1 && Terminates(s, 0);
    ReturnsUnlessBehindTerminate(run, 0);
    ReturnsUnlessBehindTerminate(run, 1);
  }

  /** Two calls, the first of which posts a Terminate, can run so that the second waits for ever. */
  lemma {:induction false} SomeCallerIsBlocked() returns (run: seq<State>)
    ensures IsRun(run) && run[0].terminate == [true, false] && Shape(run[|run| - 1]) && Stuck(run[|run| - 1])
    ensures run[|run| - 1].pc == [Returned, Waiting]
  {
    hide Next, Stuck, Inv;
    var begun := TerminateAndAnother();
    run := RunsToTheEnd(begun);
    PushedStays(run, |begun| - 1, |run| - 1);
    SecondWaits(run);
  }
}
