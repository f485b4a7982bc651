/** How `buildDDG` fails: when it aborts, when it never ends, and when the order of registration decides. */
module LinkFailures {
  import opened Actions
  import opened Common
  import opened DataDependency
  import opened LinkTheorems

  // ---------- One slot per key and side: three outcomes ----------

  ghost predicate UniqueKeys(t: Table) {
    AtMostOneSlotPerKey(ReadSide(t)) && AtMostOneSlotPerKey(WriteSide(t))
  }

  /** Action a reads something nobody writes, or only writes and writes something nobody reads. */
  ghost predicate Unservable(t: Table, a: nat)
    requires a < |t|
  {
    if t[a].readKeys != [] then exists x :: 0 <= x < |t[a].readKeys| && !HasSlot(WriteSide(t), t[a].readKeys[x])
    else exists x :: 0 <= x < |t[a].writeKeys| && !HasSlot(ReadSide(t), t[a].writeKeys[x])
  }

  lemma {:induction false} NotVisitable(t: Table) returns (a: nat)
    requires UniqueKeys(t) && !Visitable(t)
    ensures a < |t| && Unservable(t, a)
  {
    var rs := ReadSide(t);
    if !Covers(rs, WriteSide(t)) {
      var b, x :| 0 <= b < |rs| && 0 <= x < |rs[b]| && !HasSlot(WriteSide(t), rs[b][x]);
      assert rs[b] == t[b].readKeys;
      a := b;
    } else {
      var b, x :| 0 <= b < |t| && t[b].readKeys == [] && 0 <= x < |t[b].writeKeys| && !HasSlot(rs, t[b].writeKeys[x]);
      a := b;
    }
  }

  /** A read slot without a partner makes the visit of its action abort. */
  lemma {:induction false} LinkReadsFails(t: Table, l: Links, pool: seq<nat>, a: nat, i: nat, x: nat)
    requires NoRepeat(t) && Inv(t, l) && Erased(t, l, pool)
    requires a < |t| && i <= x < |t[a].readKeys| && !HasSlot(WriteSide(t), t[a].readKeys[x])
    ensures LinkReads(t, l, pool, a, i) == None
    decreases x - i
  {
    LinkReadHasPartner(t, l, pool, a, i);
    var r := LinkRead(t, l, pool, a, i);
    if r.Some? {
      LinkReadKeeps(t, l, pool, a, i);
      LinkReadsFails(t, r.value, pool, a, i + 1, x);
    }
  }

  lemma {:induction false} LinkedHasPartner(t: Table, l: Links, a: nat, x: nat)
    requires Inv(t, l) && a < |t| && x < |t[a].readKeys| && l.input[a][x] != NULL
    ensures HasSlot(WriteSide(t), t[a].readKeys[x])
  {
    var rs, ws := ReadSide(t), WriteSide(t);
    assert Backed(rs, ws, l.input, l.output, a, x);
    assert ws[l.input[a][x]][FirstIndex(ws[l.input[a][x]], rs[a][x])] == rs[a][x];
  }

  lemma {:induction false} LinkReadHasPartner(t: Table, l: Links, pool: seq<nat>, a: nat, x: nat)
    requires NoRepeat(t) && Inv(t, l) && Erased(t, l, pool) && a < |t| && x < |t[a].readKeys|
    ensures LinkRead(t, l, pool, a, x).Some? ==> HasSlot(WriteSide(t), t[a].readKeys[x])
  {
    if LinkRead(t, l, pool, a, x).Some? {
      LinkReadKeeps(t, l, pool, a, x);
      LinkedHasPartner(t, LinkRead(t, l, pool, a, x).value, a, x);
    }
  }

  lemma {:induction false} VisitFails(t: Table, l: Links, pool: seq<nat>, a: nat)
    requires NoRepeat(t) && Inv(t, l) && Erased(t, l, pool) && a < |t| && Unservable(t, a)
    ensures Visit(t, l, pool, a) == None
  {
    if t[a].readKeys != [] {
      var x :| 0 <= x < |t[a].readKeys| && !HasSlot(WriteSide(t), t[a].readKeys[x]);
      LinkReadsFails(t, l, pool, a, 0, x);
    } else {
      var x :| 0 <= x < |t[a].writeKeys| && !HasSlot(ReadSide(t), t[a].writeKeys[x]);
      MirrorInv(t, l);
      MirrorErased(t, l, pool);
      assert WriteSide(MirrorTable(t)) == ReadSide(t);
      LinkReadsFails(MirrorTable(t), MirrorLinks(l), pool, a, 0, x);
    }
  }

  /** An unservable action is still ahead of the iterator, at position b of the pool. */
  ghost predicate Ahead(t: Table, s: Sweep, b: nat) {
    SweepInv(t, s) && s.act <= b < |s.pool| && Unservable(t, s.pool[b])
  }

  lemma {:induction false} StepNearer(t: Table, s: Sweep, b: nat) returns (c: nat)
    requires NoRepeat(t) && Ahead(t, s, b)
    ensures var r := Step(t, s);
      r.Aborted? || (r.Running? && Ahead(t, r.sweep, c) && |r.sweep.pool| - r.sweep.act < |s.pool| - s.act)
  {
    c := b;
    if s.act == b {
      VisitFails(t, s.links, s.pool, s.pool[b]);
    } else {
      StepKeeps(t, s);
      var v := Visit(t, s.links, s.pool, s.pool[s.act]);
      if v.Some? && Fulfilled(v.value, s.pool[s.act]) {
        c := b - 1;
      }
    }
  }

  lemma {:induction false} RunAborts(t: Table, s: Sweep, b: nat, n: nat)
    requires NoRepeat(t) && Ahead(t, s, b) && n >= |s.pool| - s.act
    ensures Run(t, s, n) == Aborted
    decreases n
  {
    hide Step;
    var r := Step(t, s);
    var c := StepNearer(t, s, b);
    RunOnce(t, s, r, n);
    if r.Running? {
      RunAborts(t, r.sweep, c, n - 1);
    }
  }

  /** With at most one reader and one writer per key, `buildDDG` aborts, within one round per action, exactly when an
      action reads what nobody writes or only writes and writes what nobody reads. */
  lemma {:induction false} AbortsExactly(t: Table, n: nat)
    requires UniqueKeys(t) && n >= |t|
    ensures Run(t, Start(t), n).Aborted? <==> !Visitable(t)
  {
    StartInv(t);
    UniqueNoRepeat(t);
    if Visitable(t) {
      NeverAborts(t, Start(t), n);
    } else {
      var a := NotVisitable(t);
      RunAborts(t, Start(t), a, n);
    }
  }

  /** And it is still running then exactly when all of that is in order, but an action that also reads has a write
      nobody reads. */
  lemma {:induction false} HangsExactly(t: Table, n: nat)
    requires UniqueKeys(t) && n >= 2 * |t|
    ensures Run(t, Start(t), n).Running? <==> Visitable(t) && !Covers(WriteSide(t), ReadSide(t))
  {
    AbortsExactly(t, n);
    if Visitable(t) {
      UnreadWriteHangs(t, n);
    }
  }

  /** The three outcomes: two rounds per action decide which. */
  lemma {:induction false} ReturnsAbortsOrHangs(t: Table, n: nat)
    requires UniqueKeys(t) && n >= 2 * |t|
    ensures Run(t, Start(t), n).Done? <==> WellLinked(t)
    ensures Run(t, Start(t), n).Aborted? <==> !Visitable(t)
    ensures Run(t, Start(t), n).Running? <==> Visitable(t) && !WellLinked(t)
  {
    AbortsExactly(t, n);
    HangsExactly(t, n);
    if WellLinked(t) {
      WellLinkedVisitable(t);
    }
  }

  // ---------- A key named twice on one side ----------

  /** The key of read slot j is already taken: its only writer in the pool feeds somebody. */
  ghost predicate Taken(t: Table, l: Links, pool: seq<nat>, a: nat, j: nat, q: nat)
    requires InPool(t, l, pool) && a < |t| && j < |t[a].readKeys|
  {
    OnlyWriter(t, pool, t[a].readKeys[j], 0, q) && l.output[pool[q]][FirstIndex(t[pool[q]].writeKeys, t[a].readKeys[j])] != NULL
  }

  lemma {:induction false} TakenSlotFails(t: Table, l: Links, pool: seq<nat>, a: nat, j: nat, q: nat)
    requires InPool(t, l, pool) && a < |t| && j < |t[a].readKeys| && l.input[a][j] == NULL && Taken(t, l, pool, a, j, q)
    ensures LinkRead(t, l, pool, a, j) == None
  {
    LinkReadCases(t, l, pool, a, j);
    forall p: nat | OnlyWriter(t, pool, t[a].readKeys[j], 0, p) ensures p == q {
    }
  }

  lemma {:induction false} TakenFails(t: Table, l: Links, pool: seq<nat>, a: nat, x: nat, j: nat, q: nat)
    requires InPool(t, l, pool) && a < |t| && x <= j < |t[a].readKeys| && Taken(t, l, pool, a, j, q)
    requires forall y :: x <= y < |t[a].readKeys| ==> l.input[a][y] == NULL
    ensures LinkReads(t, l, pool, a, x) == None
    decreases j - x
  {
    if x == j {
      TakenSlotFails(t, l, pool, a, j, q);
    } else {
      LinkReadCases(t, l, pool, a, x);
      var r := LinkRead(t, l, pool, a, x);
      if r.Some? {
        var p: nat :| OnlyWriter(t, pool, t[a].readKeys[x], 0, p);
        TakenFails(t, r.value, pool, a, x + 1, j, q);
      }
    }
  }

  /** A visit of an action that reads one key twice aborts. */
  lemma {:induction false} RepeatFails(t: Table, l: Links, pool: seq<nat>, a: nat, x: nat, i: nat, j: nat)
    requires InPool(t, l, pool) && a < |t| && x <= i < j < |t[a].readKeys| && t[a].readKeys[i] == t[a].readKeys[j]
    requires forall y :: x <= y < |t[a].readKeys| ==> l.input[a][y] == NULL
    ensures LinkReads(t, l, pool, a, x) == None
    decreases i - x
  {
    LinkReadCases(t, l, pool, a, x);
    var r := LinkRead(t, l, pool, a, x);
    if r.Some? {
      var q: nat :| OnlyWriter(t, pool, t[a].readKeys[x], 0, q);
      if x == i {
        TakenFails(t, r.value, pool, a, x + 1, j, q);
      } else {
        RepeatFails(t, r.value, pool, a, x + 1, i, j);
      }
    }
  }

  /** When the first action repeats a key on the side by which it is visited, the first round aborts. */
  lemma {:induction false} FirstVisitFails(t: Table)
    requires t != [] && !Distinct(if t[0].readKeys != [] then t[0].readKeys else t[0].writeKeys)
    ensures Step(t, Start(t)) == Aborted
  {
    var s := Start(t);
    if t[0].readKeys != [] {
      var i: nat, j: nat :| i < j < |t[0].readKeys| && t[0].readKeys[i] == t[0].readKeys[j];
      RepeatFails(t, s.links, s.pool, 0, 0, i, j);
    } else {
      var i: nat, j: nat :| i < j < |t[0].writeKeys| && t[0].writeKeys[i] == t[0].writeKeys[j];
      MirrorShaped(t, s.links);
      RepeatFails(MirrorTable(t), MirrorLinks(s.links), s.pool, 0, 0, i, j);
    }
  }

  lemma {:induction false} AbortedNeverReturns(t: Table, l: Links)
    requires t != [] && Step(t, Start(t)) == Aborted
    ensures !Returns(t, l)
  {
    hide Step;
    forall n: nat ensures Run(t, Start(t), n) != Done(l) {
      if n > 0 {
        RunOnce(t, Start(t), Aborted, n);
      } else {
        RunEnds(t, Start(t), 0);
      }
    }
  }

  /** Write slot j of b is not the first one with its key. */
  ghost predicate Later(t: Table, b: nat, j: nat) {
    b < |t| && j < |t[b].writeKeys| && exists i :: 0 <= i < j && t[b].writeKeys[i] == t[b].writeKeys[j]
  }

  lemma {:induction false} ScanLeavesLater(t: Table, l: Links, pool: seq<nat>, a: nat, i: nat, p: nat, b: nat, j: nat)
    requires InPool(t, l, pool) && a < |t| && i < |t[a].readKeys| && p <= |pool| && Later(t, b, j)
    ensures var r := ScanWriters(t, l, pool, a, i, p); r.Some? ==> r.value.output[b][j] == l.output[b][j]
    decreases |pool| - p
  {
    if p < |pool| {
      var c, o := pool[p], FirstIndex(t[pool[p]].writeKeys, t[a].readKeys[i]);
      if o == -1 {
        ScanLeavesLater(t, l, pool, a, i, p + 1, b, j);
      } else if l.input[a][i] == NULL && l.output[c][o] == NULL {
        assert !(c == b && o == j);
        ScanLeavesLater(t, Join(l, a, i, c, o), pool, a, i, p + 1, b, j);
      }
    }
  }

  lemma {:induction false} ReadsLeaveLater(t: Table, l: Links, pool: seq<nat>, a: nat, i: nat, b: nat, j: nat)
    requires InPool(t, l, pool) && a < |t| && i <= |t[a].readKeys| && Later(t, b, j)
    ensures var r := LinkReads(t, l, pool, a, i); r.Some? ==> r.value.output[b][j] == l.output[b][j]
    decreases |t[a].readKeys| - i
  {
    if i < |t[a].readKeys| {
      ScanLeavesLater(t, l, pool, a, i, 0, b, j);
      var r := LinkRead(t, l, pool, a, i);
      if r.Some? {
        ReadsLeaveLater(t, r.value, pool, a, i + 1, b, j);
      }
    }
  }

  /** Linking the reads of a sets inputs of a only. */
  lemma {:induction false} ScanLeavesInputs(t: Table, l: Links, pool: seq<nat>, a: nat, i: nat, p: nat, b: nat)
    requires InPool(t, l, pool) && a < |t| && i < |t[a].readKeys| && p <= |pool| && b < |t| && b != a
    ensures var r := ScanWriters(t, l, pool, a, i, p); r.Some? ==> r.value.input[b] == l.input[b]
    decreases |pool| - p
  {
    if p < |pool| {
      var c, o := pool[p], FirstIndex(t[pool[p]].writeKeys, t[a].readKeys[i]);
      if o == -1 {
        ScanLeavesInputs(t, l, pool, a, i, p + 1, b);
      } else if l.input[a][i] == NULL && l.output[c][o] == NULL {
        ScanLeavesInputs(t, Join(l, a, i, c, o), pool, a, i, p + 1, b);
      }
    }
  }

  lemma {:induction false} ReadsLeaveInputs(t: Table, l: Links, pool: seq<nat>, a: nat, i: nat, b: nat)
    requires InPool(t, l, pool) && a < |t| && i <= |t[a].readKeys| && b < |t| && b != a
    ensures var r := LinkReads(t, l, pool, a, i); r.Some? ==> r.value.input[b] == l.input[b]
    decreases |t[a].readKeys| - i
  {
    if i < |t[a].readKeys| {
      ScanLeavesInputs(t, l, pool, a, i, 0, b);
      var r := LinkRead(t, l, pool, a, i);
      if r.Some? {
        ReadsLeaveInputs(t, r.value, pool, a, i + 1, b);
      }
    }
  }

  lemma {:induction false} VisitLeavesLater(t: Table, l: Links, pool: seq<nat>, a: nat, b: nat, j: nat)
    requires InPool(t, l, pool) && a < |t| && Later(t, b, j) && t[b].readKeys != []
    ensures var r := Visit(t, l, pool, a); r.Some? ==> r.value.output[b][j] == l.output[b][j]
  {
    if t[a].readKeys != [] {
      ReadsLeaveLater(t, l, pool, a, 0, b, j);
    } else {
      MirrorShaped(t, l);
      ReadsLeaveInputs(MirrorTable(t), MirrorLinks(l), pool, a, 0, b);
    }
  }

  /** The later slot is still open. */
  ghost predicate Open(t: Table, s: Sweep, b: nat, j: nat) {
    ValidSweep(t, s) && Later(t, b, j) && s.links.output[b][j] == NULL
  }

  ghost predicate EndsOpen(t: Table, r: Outcome, b: nat, j: nat) {
    r.Done? ==> Shaped(t, r.links) && Later(t, b, j) && r.links.output[b][j] == NULL
  }

  lemma {:induction false} StepLeavesLater(t: Table, s: Sweep, b: nat, j: nat)
    requires Open(t, s, b, j) && t[b].readKeys != [] && s.pool != []
    ensures var r := Step(t, s); if r.Running? then Open(t, r.sweep, b, j) else EndsOpen(t, r, b, j)
  {
    VisitLeavesLater(t, s.links, s.pool, s.pool[s.act], b, j);
  }

  ghost predicate EndsFull(t: Table, r: Outcome) {
    r.Done? ==> Shaped(t, r.links) && AllFulfilled(t, r.links)
  }

  lemma {:induction false} OpenNotFull(t: Table, r: Outcome, b: nat, j: nat)
    ensures EndsOpen(t, r, b, j) && EndsFull(t, r) ==> !r.Done?
  {
    if r.Done? && EndsOpen(t, r, b, j) {
      assert !Fulfilled(r.links, b);
    }
  }

  lemma {:induction false} RunLeavesLater(t: Table, b: nat, j: nat, n: nat)
    requires Later(t, b, j) && t[b].readKeys != []
    ensures EndsOpen(t, Run(t, Start(t), n), b, j)
  {
    hide Step;
    var p := x => Open(t, x, b, j);
    var e := (r: Outcome) => EndsOpen(t, r, b, j);
    forall x | p(x) && x.pool != [] ensures RoundOk(p, e, Step(t, x)) {
      StepLeavesLater(t, x, b, j);
    }
    RunByInvariant(t, p, e, Start(t), n);
  }

  /** An action that also reads and writes one key twice never gets its second slot filled, so there is no return. */
  lemma {:induction false} LaterNeverReturns(t: Table, b: nat, j: nat, l: Links)
    requires Later(t, b, j) && t[b].readKeys != []
    ensures !Returns(t, l)
  {
    forall n: nat ensures Run(t, Start(t), n) != Done(l) {
      StartInv(t);
      RunFills(t, Start(t), n);
      RunLeavesLater(t, b, j, n);
      OpenNotFull(t, Run(t, Start(t), n), b, j);
    }
  }

  /** When the first action names a key twice on one side, there is no return. */
  lemma {:induction false} FirstRepeats(t: Table, l: Links)
    requires t != [] && (!Distinct(t[0].readKeys) || !Distinct(t[0].writeKeys))
    ensures !Returns(t, l)
  {
    if !Distinct(t[0].readKeys) || t[0].readKeys == [] {
      FirstVisitFails(t);
      AbortedNeverReturns(t, l);
    } else {
      var i: nat, j: nat :| i < j < |t[0].writeKeys| && t[0].writeKeys[i] == t[0].writeKeys[j];
      assert Later(t, 0, j);
      LaterNeverReturns(t, 0, j, l);
    }
  }

  // ---------- The order of registration ----------

  /** The positions 0 to n - 1 with 0 and a exchanged. */
  function Exchanged(n: nat, a: nat): (p: seq<nat>)
    requires a < n
    ensures |p| == n && p[0] == a && p[a] == 0 && forall k :: 0 < k < n && k != a ==> p[k] == k
    ensures forall k :: 0 <= k < n ==> p[k] < n && p[p[k]] == k
  {
    Positions(n)[0 := a][a := 0]
  }

  /** `buildDDG` returns in whatever order the items are listed. */
  ghost predicate ReturnsInAnyOrder(t: Table) {
    forall u, p, q :: Reordered(t, u, p, q) ==> exists l :: Returns(u, l)
  }

  lemma {:induction false} RepeatFirst(t: Table, a: nat) returns (u: Table, p: seq<nat>)
    requires a < |t|
    ensures Reordered(t, u, p, p) && u[0] == t[a]
  {
    p := Exchanged(|t|, a);
    u := seq(|t|, k requires 0 <= k < |t| => t[p[k]]);
  }

  lemma {:induction false} AsListed(t: Table)
    ensures Reordered(t, t, Positions(|t|), Positions(|t|))
  {
  }

  /** The documentation's promise, exactly: `buildDDG` returns whatever the order of the actions if and only if every key
      has one reader and one writer. */
  lemma {:induction false} AnyOrderExact(t: Table)
    ensures ReturnsInAnyOrder(t) <==> WellLinked(t)
  {
    if WellLinked(t) {
      forall u, p, q | Reordered(t, u, p, q) ensures exists l :: Returns(u, l) {
        ReorderedSides(t, u, p, q);
        BuildExact(u);
      }
    }
    if ReturnsInAnyOrder(t) {
      AsListed(t);
      if !NoRepeat(t) {
        var a: nat :| a < |t| && !(Distinct(t[a].readKeys) && Distinct(t[a].writeKeys));
        var u, p := RepeatFirst(t, a);
        var l :| Returns(u, l);
        FirstRepeats(u, l);
        assert false;
      }
      BuildExact(t);
    }
  }

  /** For items that `buildDDG` links as they are listed, the order matters exactly when some action names a key twice
      on one side. */
  lemma {:induction false} OrderMattersExactly(t: Table)
    requires exists l :: Returns(t, l)
    ensures ReturnsInAnyOrder(t) <==> NoRepeat(t)
  {
    AnyOrderExact(t);
    BuildExact(t);
    if WellLinked(t) {
      WellLinkedNoRepeat(t);
    }
  }
}
