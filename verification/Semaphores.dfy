/** `Semaphore::Wait`, `TryWait` and `Post` (SimIO/src/Sync.C) as an interleaving of any number of threads,
    one step per access to the mutex, the condition variable or the count. */
module Semaphores {

  /** Where a thread stands. Between `...Test` and `...Leave` it holds the mutex. */
  datatype Pc =
    | Idle
    | WaitEnter              // about to lock
    | WaitTest               // about to test the loop condition
    | Asleep                 // inside pthread_cond_wait, mutex given up
    | Awake                  // woken up, about to take the mutex back
    | WaitTake               // past the loop, about to decrement
    | WaitLeave(ok: bool)    // about to unlock and return ok
    | TryEnter
    | TryTest
    | TryTake
    | TryLeave(ok: bool)
    | PostEnter
    | PostTest
    | PostSignal             // incremented, about to signal
    | PostLeave(ok: bool)

  const FREE := -1

  /** `posts` and `waits` count the increments and decrements made so far. */
  datatype State = State(count: int, maxcount: int, holder: int, pc: seq<Pc>, posts: nat, waits: nat)

  ghost predicate Init(s: State, initial: int) {
    && 0 <= initial && 0 <= s.maxcount && (s.maxcount > 0 ==> initial <= s.maxcount)
    && s.count == initial && s.holder == FREE && s.posts == 0 && s.waits == 0
    && forall t :: 0 <= t < |s.pc| ==> s.pc[t] == Idle
  }

  predicate Holding(p: Pc) {
    p.WaitTest? || p.WaitTake? || p.WaitLeave? || p.TryTest? || p.TryTake? || p.TryLeave?
    || p.PostTest? || p.PostSignal? || p.PostLeave?
  }

  function Move(s: State, t: nat, p: Pc): State
    requires t < |s.pc|
  {
    s.(pc := s.pc[t := p])
  }

  ghost predicate Lock(s: State, s': State, t: nat, p: Pc)
    requires t < |s.pc|
  {
    s.holder == FREE && s' == Move(s, t, p).(holder := t)
  }

  /** Thread t makes one step. A sleeper may be woken without a signal; a signal wakes one sleeper, and since
      any sleeper may also wake by itself this covers signals that wake several. */
  ghost predicate Step(s: State, s': State, t: nat)
    requires t < |s.pc|
  {
    match s.pc[t]
    case Idle => s' == Move(s, t, WaitEnter) || s' == Move(s, t, TryEnter) || s' == Move(s, t, PostEnter)
    case WaitEnter => Lock(s, s', t, WaitTest)
    case WaitTest =>
      if s.count == 0 then s' == Move(s, t, Asleep).(holder := FREE) || s' == Move(s, t, WaitLeave(false))
      else s' == Move(s, t, WaitTake)
    case Asleep => s' == Move(s, t, Awake)
    case Awake => Lock(s, s', t, WaitTest)
    case WaitTake => s' == Move(s, t, WaitLeave(true)).(count := s.count - 1, waits := s.waits + 1)
    case WaitLeave(_) => s' == Move(s, t, Idle).(holder := FREE)
    case TryEnter => Lock(s, s', t, TryTest)
    case TryTest => s' == Move(s, t, if s.count == 0 then TryLeave(false) else TryTake)
    case TryTake => s' == Move(s, t, TryLeave(true)).(count := s.count - 1, waits := s.waits + 1)
    case TryLeave(_) => s' == Move(s, t, Idle).(holder := FREE)
    case PostEnter => Lock(s, s', t, PostTest)
    case PostTest =>
      if s.maxcount > 0 && s.count == s.maxcount then s' == Move(s, t, PostLeave(false))
      else s' == Move(s, t, PostSignal).(count := s.count + 1, posts := s.posts + 1)
    case PostSignal =>
      if Asleep in s.pc then
        exists w :: 0 <= w < |s.pc| && s.pc[w] == Asleep && s' == Move(Move(s, w, Awake), t, PostLeave(true))
      else s' == Move(s, t, PostLeave(true))
    case PostLeave(_) => s' == Move(s, t, Idle).(holder := FREE)
  }

  ghost predicate Next(s: State, s': State) {
    exists t: nat :: t < |s.pc| && Step(s, s', t)
  }

  ghost predicate StepAt(run: seq<State>, i: nat)
    requires i + 1 < |run|
  {
    Next(run[i], run[i + 1])
  }

  /** A run of the system. */
  ghost predicate IsRun(run: seq<State>, initial: int) {
    run != [] && Init(run[0], initial) && forall i: nat :: i + 1 < |run| ==> StepAt(run, i)
  }

  // ---------- The invariant ----------

  ghost predicate MutexHeldByOne(s: State) {
    && FREE <= s.holder < |s.pc|
    && forall t :: 0 <= t < |s.pc| ==> (Holding(s.pc[t]) <==> s.holder == t)
  }

  /** 1 if the thread inside the critical section is going to take a unit or to signal, else 0. */
  function Inside(s: State): nat {
    if 0 <= s.holder < |s.pc| && var p := s.pc[s.holder]; p.WaitTest? || p.WaitTake? || p.PostSignal? then 1 else 0
  }

  /** Threads that were woken and have not come back yet. */
  function Woken(s: State): nat {
    multiset(s.pc)[Awake]
  }

  ghost predicate Inv(s: State, initial: int) {
    && MutexHeldByOne(s)
    && 0 <= s.count && s.count == initial + s.posts - s.waits
    && 0 <= s.maxcount && (s.maxcount > 0 ==> s.count <= s.maxcount)
    && (s.holder != FREE && (s.pc[s.holder].WaitTake? || s.pc[s.holder].TryTake?) ==> s.count > 0)
    && (Asleep in s.pc ==> Woken(s) + Inside(s) >= s.count)
  }

  lemma {:induction false} InitInv(s: State, initial: int)
    requires Init(s, initial)
    ensures Inv(s, initial)
  {
  }

  lemma {:induction false} MoveCounts(s: State, t: nat, p: Pc)
    requires t < |s.pc|
    ensures Woken(Move(s, t, p)) == Woken(s) - (if s.pc[t].Awake? then 1 else 0) + if p.Awake? then 1 else 0
    ensures Asleep in Move(s, t, p).pc ==> Asleep in s.pc || p == Asleep
  {
  }

  lemma {:induction false} SignalKeeps(s: State, s': State, t: nat, w: nat, initial: int)
    requires t < |s.pc| && w < |s.pc| && Inv(s, initial) && s.pc[t] == PostSignal && s.pc[w] == Asleep
    requires s' == Move(Move(s, w, Awake), t, PostLeave(true))
    ensures Inv(s', initial)
  {
    MoveCounts(s, w, Awake);
    MoveCounts(Move(s, w, Awake), t, PostLeave(true));
    assert s.holder == t;
  }

  lemma {:induction false} StepKeepsMutex(s: State, s': State, t: nat, initial: int)
    requires t < |s.pc| && Inv(s, initial) && Step(s, s', t) && !(s.pc[t] == PostSignal && Asleep in s.pc)
    ensures |s'.pc| == |s.pc| && s'.maxcount == s.maxcount && s' == s.(pc := s.pc[t := s'.pc[t]], holder := s'.holder,
      count := s'.count, posts := s'.posts, waits := s'.waits)
    ensures MutexHeldByOne(s')
  {
    assert Holding(s.pc[t]) <==> s.holder == t;
  }

  lemma {:induction false} StepKeepsCount(s: State, s': State, t: nat, initial: int)
    requires t < |s.pc| && Inv(s, initial) && Step(s, s', t) && !(s.pc[t] == PostSignal && Asleep in s.pc)
    ensures 0 <= s'.count && s'.count == initial + s'.posts - s'.waits
    ensures s.maxcount > 0 ==> s'.count <= s.maxcount
    ensures s'.holder != FREE && s'.holder < |s'.pc| && (s'.pc[s'.holder].WaitTake? || s'.pc[s'.holder].TryTake?) ==> s'.count > 0
  {
    assert Holding(s.pc[t]) <==> s.holder == t;
    StepKeepsMutex(s, s', t, initial);
  }

  lemma {:induction false} StepKeepsWoken(s: State, s': State, t: nat, initial: int)
    requires t < |s.pc| && Inv(s, initial) && Step(s, s', t) && !(s.pc[t] == PostSignal && Asleep in s.pc)
    ensures Asleep in s'.pc ==> Woken(s') + Inside(s') >= s'.count
  {
    assert Holding(s.pc[t]) <==> s.holder == t;
    StepKeepsMutex(s, s', t, initial);
    MoveCounts(s, t, s'.pc[t]);
  }

  lemma {:induction false} StepKeeps(s: State, s': State, t: nat, initial: int)
    requires t < |s.pc| && Inv(s, initial) && Step(s, s', t)
    ensures Inv(s', initial) && |s'.pc| == |s.pc| && s'.maxcount == s.maxcount
  {
    if s.pc[t] == PostSignal && Asleep in s.pc {
      var w: nat :| w < |s.pc| && s.pc[w] == Asleep && s' == Move(Move(s, w, Awake), t, PostLeave(true));
      SignalKeeps(s, s', t, w, initial);
    } else {
      StepKeepsMutex(s, s', t, initial);
      StepKeepsCount(s, s', t, initial);
      StepKeepsWoken(s, s', t, initial);
    }
  }

  lemma {:induction false} RunInv(run: seq<State>, initial: int, i: nat)
    requires IsRun(run, initial) && i < |run|
    ensures Inv(run[i], initial) && |run[i].pc| == |run[0].pc| && run[i].maxcount == run[0].maxcount
  {
    if i == 0 {
      InitInv(run[0], initial);
    } else {
      RunInv(run, initial, i - 1);
      assert StepAt(run, i - 1);
      var t: nat :| t < |run[i - 1].pc| && Step(run[i - 1], run[i], t);
      StepKeeps(run[i - 1], run[i], t, initial);
    }
  }

  // ---------- Main results ----------

  /** At every moment of every run the count is what was posted less what was taken, within its bounds. */
  lemma {:induction false} CountIsConserved(run: seq<State>, initial: int, i: nat)
    requires IsRun(run, initial) && i < |run|
    ensures run[i].count == initial + run[i].posts - run[i].waits
    ensures 0 <= run[i].count && (run[0].maxcount > 0 ==> run[i].count <= run[0].maxcount)
  {
    RunInv(run, initial, i);
  }

  /** No wake-up is lost: whenever the mutex is free and someone sleeps, at least as many threads
      are on their way back from a wake-up as there are units to take. */
  lemma {:induction false} NoLostWakeup(run: seq<State>, initial: int, i: nat)
    requires IsRun(run, initial) && i < |run|
    requires run[i].holder == FREE && Asleep in run[i].pc
    ensures Woken(run[i]) >= run[i].count
  {
    RunInv(run, initial, i);
  }

  /** A thread that only a signal (or a spurious wake-up) can move, or that has nothing to do. */
  predicate AtRest(p: Pc) {
    p.Idle? || p.Asleep?
  }

  /** If nobody who is neither idle nor asleep can move, then everyone is idle or asleep,
      and someone sleeps only if there is nothing to take. */
  lemma {:induction false} StuckOnlyWhenEmpty(run: seq<State>, initial: int, i: nat)
    requires IsRun(run, initial) && i < |run|
    requires forall t: nat, s' :: t < |run[i].pc| && Step(run[i], s', t) ==> AtRest(run[i].pc[t])
    ensures forall t :: 0 <= t < |run[i].pc| ==> AtRest(run[i].pc[t])
    ensures Asleep in run[i].pc ==> run[i].count == 0
  {
    var s := run[i];
    RunInv(run, initial, i);
    if s.holder != FREE {
      var s' := HolderCanMove(s, initial);
      assert false;
    }
    forall t: nat | t < |s.pc| ensures AtRest(s.pc[t]) {
      if !AtRest(s.pc[t]) {
        var s' := CanLock(s, initial, t);
        assert false;
      }
    }
    assert Awake !in s.pc;
  }

  lemma {:induction false} HolderCanMove(s: State, initial: int) returns (s': State)
    requires Inv(s, initial) && s.holder != FREE
    ensures Step(s, s', s.holder)
  {
    var t: nat := s.holder;
    assert Holding(s.pc[t]);
    match s.pc[t]
    case WaitTest => s' := if s.count == 0 then Move(s, t, Asleep).(holder := FREE) else Move(s, t, WaitTake);
    case WaitTake => s' := Move(s, t, WaitLeave(true)).(count := s.count - 1, waits := s.waits + 1);
    case TryTest => s' := Move(s, t, if s.count == 0 then TryLeave(false) else TryTake);
    case TryTake => s' := Move(s, t, TryLeave(true)).(count := s.count - 1, waits := s.waits + 1);
    case PostTest =>
      s' := if s.maxcount > 0 && s.count == s.maxcount then Move(s, t, PostLeave(false))
            else Move(s, t, PostSignal).(count := s.count + 1, posts := s.posts + 1);
    case PostSignal =>
      if Asleep in s.pc {
        var w: nat :| w < |s.pc| && s.pc[w] == Asleep;
        s' := Move(Move(s, w, Awake), t, PostLeave(true));
      } else {
        s' := Move(s, t, PostLeave(true));
      }
    case WaitLeave(_) => s' := Move(s, t, Idle).(holder := FREE);
    case TryLeave(_) => s' := Move(s, t, Idle).(holder := FREE);
    case PostLeave(_) => s' := Move(s, t, Idle).(holder := FREE);
  }

  lemma {:induction false} CanLock(s: State, initial: int, t: nat) returns (s': State)
    requires Inv(s, initial) && s.holder == FREE && t < |s.pc| && !AtRest(s.pc[t])
    ensures Step(s, s', t)
  {
    assert !Holding(s.pc[t]);
    s' := Move(s, t, if s.pc[t].TryEnter? then TryTest else if s.pc[t].PostEnter? then PostTest else WaitTest).(holder := t);
  }

  // ---------- The calls as single events ----------

  /** What a counting semaphore does, one call at a time. */
  datatype Event = Nothing | Took | Added

  function Effect(e: Event, n: int): int {
    match e
    case Nothing => n
    case Took => n - 1
    case Added => n + 1
  }

  /** What the step of thread t does to the count. */
  function EventOf(s: State, s': State, t: nat): Event
    requires t < |s.pc| && t < |s'.pc|
  {
    if s.pc[t].WaitTake? || s.pc[t].TryTake? then Took
    else if s.pc[t].PostTest? && s'.pc[t].PostSignal? then Added
    else Nothing
  }

  /** Every step is a step of the plain counter: units are taken only while there are some and added only below the
      maximum, and TryWait and Post give up only when the counter is empty or full. */
  lemma {:induction false} StepIsAtomic(run: seq<State>, initial: int, i: nat, t: nat)
    requires IsRun(run, initial) && i < |run| - 1 && t < |run[i].pc| && Step(run[i], run[i + 1], t)
    ensures |run[i + 1].pc| == |run[i].pc|
    ensures var e := EventOf(run[i], run[i + 1], t);
      && run[i + 1].count == Effect(e, run[i].count)
      && (e == Took ==> run[i].count > 0)
      && (e == Added ==> run[i].maxcount == 0 || run[i].count < run[i].maxcount)
    ensures run[i + 1].pc[t] == TryLeave(false) && run[i].pc[t] == TryTest ==> run[i].count == 0
    ensures run[i + 1].pc[t] == PostLeave(false) && run[i].pc[t] == PostTest ==> run[i].count == run[i].maxcount > 0
  {
    RunInv(run, initial, i);
    StepKeeps(run[i], run[i + 1], t, initial);
    assert Holding(run[i].pc[t]) <==> run[i].holder == t;
  }

  // ---------- What the calls answer ----------

  /** What the critical section that thread t entered in state s has done by state s', whichever call it belongs to.
      Leaving it tells the caller what happened: true if and only if a unit was taken or added, and false only when
      there was none to take or no room for one. */
  ghost predicate Served(s: State, s': State, t: nat)
    requires t < |s.pc| == |s'.pc|
  {
    match s'.pc[t]
    case WaitTest => s.pc[t].WaitTest? && Unchanged(s, s')
    case WaitTake => s.pc[t].WaitTest? && Unchanged(s, s') && s.count > 0
    case WaitLeave(ok) => s.pc[t].WaitTest? && if ok then TookOne(s, s') && s.count > 0 else Unchanged(s, s') && s.count == 0
    case TryTest => s.pc[t].TryTest? && Unchanged(s, s')
    case TryTake => s.pc[t].TryTest? && Unchanged(s, s') && s.count > 0
    case TryLeave(ok) => s.pc[t].TryTest? && if ok then TookOne(s, s') && s.count > 0 else Unchanged(s, s') && s.count == 0
    case PostTest => s.pc[t].PostTest? && Unchanged(s, s')
    case PostSignal => s.pc[t].PostTest? && AddedOne(s, s') && !Full(s)
    case PostLeave(ok) => s.pc[t].PostTest? && if ok then AddedOne(s, s') && !Full(s) else Unchanged(s, s') && Full(s)
    case _ => false
  }

  predicate Full(s: State) {
    s.count == s.maxcount > 0
  }

  predicate Unchanged(s: State, s': State) {
    s'.count == s.count && s'.waits == s.waits && s'.posts == s.posts
  }

  predicate TookOne(s: State, s': State) {
    s'.count == s.count - 1 && s'.waits == s.waits + 1 && s'.posts == s.posts
  }

  predicate AddedOne(s: State, s': State) {
    s'.count == s.count + 1 && s'.waits == s.waits && s'.posts == s.posts + 1
  }

  /** A thread outside the critical section changes no count. */
  lemma {:induction false} OthersChangeNothing(s: State, s': State, t: nat, u: nat, initial: int)
    requires Inv(s, initial) && t < |s.pc| && u < |s.pc| && t != u && Holding(s.pc[t]) && Step(s, s', u)
    ensures |s'.pc| == |s.pc| && Unchanged(s, s') && s'.pc[t] == s.pc[t] && s'.maxcount == s.maxcount
  {
    assert s.holder == t && !Holding(s.pc[u]);
  }

  lemma {:induction false} OwnStepServes(from: State, s: State, s': State, t: nat)
    requires t < |from.pc| == |s.pc| && from.maxcount == s.maxcount && Served(from, s, t) && Holding(s.pc[t])
    requires Step(s, s', t) && t < |s'.pc| && Holding(s'.pc[t]) && 0 <= s.count
    ensures |s'.pc| == |s.pc| && Served(from, s', t)
  {
    match s.pc[t]
    case PostSignal =>
      assert s'.pc[t] == PostLeave(true) && Unchanged(s, s') && |s'.pc| == |s.pc|;
    case _ =>
  }

  lemma {:induction false} OtherStepServes(from: State, s: State, s': State, t: nat)
    requires t < |from.pc| == |s.pc| == |s'.pc| && Served(from, s, t) && Unchanged(s, s') && s'.pc[t] == s.pc[t]
    ensures Served(from, s', t)
  {
  }

  lemma {:induction false} EntryServes(s: State, t: nat)
    requires t < |s.pc| && (s.pc[t].WaitTest? || s.pc[t].TryTest? || s.pc[t].PostTest?)
    ensures Served(s, s, t)
  {
  }

  /** While thread t is in the critical section, its state tells what it has done there. */
  lemma {:induction false} SectionServes(run: seq<State>, initial: int, t: nat, i: nat, j: nat)
    requires IsRun(run, initial) && i <= j < |run| && t < |run[0].pc|
    requires forall k :: i <= k <= j ==> t < |run[k].pc| && Holding(run[k].pc[t])
    requires run[i].pc[t].WaitTest? || run[i].pc[t].TryTest? || run[i].pc[t].PostTest?
    ensures |run[i].pc| == |run[j].pc| && Served(run[i], run[j], t)
    decreases j
  {
    hide Step, Inv, Served, Init, Unchanged;
    RunInv(run, initial, i);
    EntryServes(run[i], t);
    if i < j {
      SectionServes(run, initial, t, i, j - 1);
      RunInv(run, initial, j - 1);
      RunInv(run, initial, j);
      var s, s' := run[j - 1], run[j];
      assert StepAt(run, j - 1);
      var u: nat :| u < |s.pc| && Step(s, s', u);
      CountIsConserved(run, initial, j - 1);
      if u == t {
        OwnStepServes(run[i], s, s', t);
      } else {
        OthersChangeNothing(s, s', t, u, initial);
        OtherStepServes(run[i], s, s', t);
      }
    }
  }

  /** A call that ran through the critical section without sleeping in it, from the moment i at which it tested the count to
      the moment j at which it leaves: it answers true exactly when it took or added a unit, the count changed by that unit
      and by nothing else, and it answers false exactly when there was nothing to take or no room. */
  lemma {:induction false} AnswerIsTrue(run: seq<State>, initial: int, t: nat, i: nat, j: nat)
    requires IsRun(run, initial) && i <= j < |run| && t < |run[0].pc|
    requires forall k :: i <= k <= j ==> t < |run[k].pc| && Holding(run[k].pc[t])
    requires run[i].pc[t].WaitTest? || run[i].pc[t].TryTest? || run[i].pc[t].PostTest?
    ensures forall ok :: run[j].pc[t] == WaitLeave(ok) || run[j].pc[t] == TryLeave(ok) ==>
      && (ok <==> run[j].waits == run[i].waits + 1) && (ok <==> run[i].count > 0)
      && run[j].count == run[i].count - (if ok then 1 else 0) && run[j].posts == run[i].posts
    ensures forall ok :: run[j].pc[t] == PostLeave(ok) ==>
      && (ok <==> run[j].posts == run[i].posts + 1) && (ok <==> run[i].maxcount == 0 || run[i].count < run[i].maxcount)
      && run[j].count == run[i].count + (if ok then 1 else 0) && run[j].waits == run[i].waits
  {
    SectionServes(run, initial, t, i, j);
    RunInv(run, initial, i);
  }

  // ---------- The count by the answers ----------

  /** Some thread comes to p between the moments i and i + 1. */
  ghost predicate Comes(run: seq<State>, i: nat, p: Pc)
    requires i + 1 < |run|
  {
    exists t :: 0 <= t < |run[i].pc| && t < |run[i + 1].pc| && run[i].pc[t] != p && run[i + 1].pc[t] == p
  }

  /** How often some thread has come to p up to moment i. */
  ghost function Arrivals(run: seq<State>, i: nat, p: Pc): nat
    requires i < |run|
  {
    if i == 0 then 0 else Arrivals(run, i - 1, p) + if Comes(run, i - 1, p) then 1 else 0
  }

  /** 1 while some thread has added its unit and has not yet signalled. */
  ghost function Signalling(s: State): nat {
    if PostSignal in s.pc then 1 else 0
  }

  lemma {:induction false} OnlyMover(s: State, s': State, t: nat, u: nat, initial: int)
    requires Inv(s, initial) && t < |s.pc| && u < |s.pc| && t != u && Step(s, s', t)
    ensures |s'.pc| == |s.pc| && (s'.pc[u] == s.pc[u] || s'.pc[u] == Awake)
  {
    StepKeeps(s, s', t, initial);
  }

  /** Only the thread that moves can come to a place other than `Awake`. */
  lemma {:induction false} MoverComes(run: seq<State>, initial: int, i: nat, t: nat, p: Pc)
    requires IsRun(run, initial) && i + 1 < |run| && t < |run[i].pc| && Step(run[i], run[i + 1], t) && p != Awake
    ensures |run[i + 1].pc| == |run[i].pc|
    ensures Comes(run, i, p) <==> run[i].pc[t] != p && run[i + 1].pc[t] == p
  {
    hide Step, Inv;
    RunInv(run, initial, i);
    StepKeeps(run[i], run[i + 1], t, initial);
    forall u: nat | u < |run[i].pc| && u != t ensures run[i + 1].pc[u] == run[i].pc[u] || run[i + 1].pc[u] == Awake {
      OnlyMover(run[i], run[i + 1], t, u, initial);
    }
  }

  /** A thread signals only while it holds the mutex. */
  lemma {:induction false} SignallingOf(s: State, initial: int)
    requires Inv(s, initial)
    ensures Signalling(s) == if s.holder != FREE && s.pc[s.holder].PostSignal? then 1 else 0
  {
    forall u | 0 <= u < |s.pc| && s.pc[u] == PostSignal ensures s.holder == u {
      assert Holding(s.pc[u]);
    }
  }

  /** What a step of thread t does, by where it leads from and to. */
  lemma {:induction false} StepCounts(s: State, s': State, t: nat, initial: int)
    requires Inv(s, initial) && t < |s.pc| && Step(s, s', t)
    ensures |s'.pc| == |s.pc|
    ensures s'.waits - s.waits == if s'.pc[t] == WaitLeave(true) || s'.pc[t] == TryLeave(true) then 1 else 0
    ensures Signalling(s') - Signalling(s) + (if s'.pc[t] == PostLeave(true) then 1 else 0) == s'.posts - s.posts
    ensures forall ok :: s.pc[t] == WaitLeave(ok) || s.pc[t] == TryLeave(ok) || s.pc[t] == PostLeave(ok) ==> s'.pc[t] == Idle
  {
    assert Holding(s.pc[t]) <==> s.holder == t;
    StepKeeps(s, s', t, initial);
    SignallingOf(s, initial);
    SignallingOf(s', initial);
  }

  /** Seen from outside, by the answers alone: at every moment of every run the count is the initial count, plus the calls
      of Post that answered true and the one that is about to, less the calls of Wait and TryWait that answered true. */
  lemma {:induction false} CountByAnswers(run: seq<State>, initial: int, i: nat)
    requires IsRun(run, initial) && i < |run|
    ensures run[i].posts == Arrivals(run, i, PostLeave(true)) + Signalling(run[i])
    ensures run[i].waits == Arrivals(run, i, WaitLeave(true)) + Arrivals(run, i, TryLeave(true))
    ensures run[i].count == initial + Arrivals(run, i, PostLeave(true)) + Signalling(run[i])
      - Arrivals(run, i, WaitLeave(true)) - Arrivals(run, i, TryLeave(true))
  {
    RunInv(run, initial, i);
    if i == 0 {
      SignallingOf(run[0], initial);
    } else {
      CountByAnswers(run, initial, i - 1);
      RunInv(run, initial, i - 1);
      assert StepAt(run, i - 1);
      var t: nat :| t < |run[i - 1].pc| && Step(run[i - 1], run[i], t);
      hide Step, Signalling, Comes;
      StepCounts(run[i - 1], run[i], t, initial);
      MoverComes(run, initial, i - 1, t, WaitLeave(true));
      MoverComes(run, initial, i - 1, t, TryLeave(true));
      MoverComes(run, initial, i - 1, t, PostLeave(true));
    }
  }
}
