/** What `DDGScheduler::buildDDG` computes (SIM/src/DDGScheduler.C), as functions on values, and when it succeeds.
    A pointer to an ActionItem is the item's position in the table; the null pointer is -1. */
module DataDependency {
  import opened Actions
  import opened Common

  const NULL := -1

  /** The `input` and `output` vectors of all items. */
  datatype Links = Links(input: seq<seq<int>>, output: seq<seq<int>>)

  ghost predicate SideShaped(n: nat, keys: seq<seq<Key>>, side: seq<seq<int>>) {
    && |side| == |keys| == n
    && forall a :: 0 <= a < n ==>
      |side[a]| == |keys[a]| && forall i :: 0 <= i < |side[a]| ==> NULL <= side[a][i] < n
  }

  function ReadSide(t: Table): (r: seq<seq<Key>>)
    ensures |r| == |t| && forall a :: 0 <= a < |t| ==> r[a] == t[a].readKeys
  {
    seq(|t|, a requires 0 <= a < |t| => t[a].readKeys)
  }

  function WriteSide(t: Table): (r: seq<seq<Key>>)
    ensures |r| == |t| && forall a :: 0 <= a < |t| ==> r[a] == t[a].writeKeys
  {
    seq(|t|, a requires 0 <= a < |t| => t[a].writeKeys)
  }

  ghost predicate Shaped(t: Table, l: Links) {
    SideShaped(|t|, ReadSide(t), l.input) && SideShaped(|t|, WriteSide(t), l.output)
  }

  /** The double link that connects read slot i of a to write slot o of b. */
  function Join(l: Links, a: nat, i: nat, b: nat, o: nat): Links
    requires a < |l.input| && i < |l.input[a]| && b < |l.output| && o < |l.output[b]|
  {
    Links(l.input[a := l.input[a][i := b]], l.output[b := l.output[b][o := a]])
  }

  ghost predicate InPool(t: Table, l: Links, pool: seq<nat>) {
    Shaped(t, l) && forall q :: 0 <= q < |pool| ==> pool[q] < |t|
  }

  /** The loop over the pool that looks for a writer of read slot i of a (lines 58-83).
      None is an abort: a second writer, or a writer that already feeds another reader. */
  function ScanWriters(t: Table, l: Links, pool: seq<nat>, a: nat, i: nat, p: nat): (r: Option<Links>)
    requires InPool(t, l, pool) && a < |t| && i < |t[a].readKeys| && p <= |pool|
    ensures r.Some? ==> Shaped(t, r.value)
    decreases |pool| - p
  {
    if p == |pool| then Some(l)
    else
      var b := pool[p];
      var o := FirstIndex(t[b].writeKeys, t[a].readKeys[i]);
      if o == -1 then ScanWriters(t, l, pool, a, i, p + 1)
      else if l.input[a][i] != NULL || l.output[b][o] != NULL then None
      else ScanWriters(t, Join(l, a, i, b, o), pool, a, i, p + 1)
  }

  /** One read slot (lines 56-92); a read without a matching write aborts. */
  function LinkRead(t: Table, l: Links, pool: seq<nat>, a: nat, i: nat): (r: Option<Links>)
    requires InPool(t, l, pool) && a < |t| && i < |t[a].readKeys|
    ensures r.Some? ==> Shaped(t, r.value)
  {
    if l.input[a][i] != NULL then Some(l)
    else
      var r := ScanWriters(t, l, pool, a, i, 0);
      if r.Some? && r.value.input[a][i] == NULL then None else r
  }

  /** The read slots of a from i on. */
  function LinkReads(t: Table, l: Links, pool: seq<nat>, a: nat, i: nat): (r: Option<Links>)
    requires InPool(t, l, pool) && a < |t| && i <= |t[a].readKeys|
    ensures r.Some? ==> Shaped(t, r.value)
    decreases |t[a].readKeys| - i
  {
    if i == |t[a].readKeys| then Some(l)
    else
      var r := LinkRead(t, l, pool, a, i);
      if r.None? then None else LinkReads(t, r.value, pool, a, i + 1)
  }

  // The branch for actions that only write (lines 94-136) is the same code with the two sides exchanged.

  function MirrorTable(t: Table): (r: Table)
    ensures |r| == |t| && forall a :: 0 <= a < |t| ==> r[a] == Item(t[a].action, t[a].writeKeys, t[a].readKeys)
  {
    seq(|t|, a requires 0 <= a < |t| => Item(t[a].action, t[a].writeKeys, t[a].readKeys))
  }

  function MirrorLinks(l: Links): Links {
    Links(l.output, l.input)
  }

  lemma {:induction false} MirrorShaped(t: Table, l: Links)
    ensures Shaped(t, l) <==> Shaped(MirrorTable(t), MirrorLinks(l))
  {
    assert ReadSide(MirrorTable(t)) == WriteSide(t);
    assert WriteSide(MirrorTable(t)) == ReadSide(t);
  }

  function LinkWrites(t: Table, l: Links, pool: seq<nat>, a: nat, i: nat): (r: Option<Links>)
    requires InPool(t, l, pool) && a < |t| && i <= |t[a].writeKeys|
    ensures r.Some? ==> Shaped(t, r.value)
  {
    MirrorShaped(t, l);
    var r := LinkReads(MirrorTable(t), MirrorLinks(l), pool, a, i);
    if r.Some? then MirrorShaped(t, MirrorLinks(r.value)); Some(MirrorLinks(r.value)) else None
  }

  function Visit(t: Table, l: Links, pool: seq<nat>, a: nat): (r: Option<Links>)
    requires InPool(t, l, pool) && a < |t|
    ensures r.Some? ==> Shaped(t, r.value)
  {
    if |t[a].readKeys| > 0 then LinkReads(t, l, pool, a, 0) else LinkWrites(t, l, pool, a, 0)
  }

  predicate Filled(slots: seq<int>) {
    forall i :: 0 <= i < |slots| ==> slots[i] != NULL
  }

  predicate Fulfilled(l: Links, a: nat)
    requires a < |l.input| && a < |l.output|
  {
    Filled(l.input[a]) && Filled(l.output[a])
  }

  datatype Sweep = Sweep(links: Links, pool: seq<nat>, act: nat)

  datatype Outcome = Running(sweep: Sweep) | Done(links: Links) | Aborted

  ghost predicate ValidSweep(t: Table, s: Sweep) {
    InPool(t, s.links, s.pool) && (s.pool != [] ==> s.act < |s.pool|)
  }

  /** The second half of a round (lines 138-155): an action with all its slots filled leaves the pool. */
  function Advance(t: Table, s: Sweep, l: Links): (r: Outcome)
    requires ValidSweep(t, s) && s.pool != [] && Shaped(t, l)
    ensures r.Running? ==> ValidSweep(t, r.sweep) && r.sweep.pool != []
    ensures r.Done? ==> Shaped(t, r.links)
  {
    var last := s.act == |s.pool| - 1;
    if Fulfilled(l, s.pool[s.act]) then
      if |s.pool| == 1 then Done(l)
      else Running(Sweep(l, Erase(s.pool, s.act), if last then 0 else s.act))
    else Running(Sweep(l, s.pool, if last then 0 else s.act + 1))
  }

  /** One round of the outer loop (lines 54-155). */
  function Step(t: Table, s: Sweep): (r: Outcome)
    requires ValidSweep(t, s) && s.pool != []
    ensures r.Running? ==> ValidSweep(t, r.sweep) && r.sweep.pool != []
    ensures r.Done? ==> Shaped(t, r.links)
  {
    match Visit(t, s.links, s.pool, s.pool[s.act])
    case None => Aborted
    case Some(l) => Advance(t, s, l)
  }

  /** At most n rounds of the loop. `Running` means that n rounds did not end it. */
  function Run(t: Table, s: Sweep, n: nat): (r: Outcome)
    requires ValidSweep(t, s)
    ensures r.Running? ==> ValidSweep(t, r.sweep)
    ensures r.Done? ==> Shaped(t, r.links)
    decreases n
  {
    if s.pool == [] then Done(s.links)
    else if n == 0 then Running(s)
    else
      match Step(t, s)
      case Running(s1) => Run(t, s1, n - 1)
      case r => r
  }

  function Blank(n: nat): (r: seq<int>)
    ensures |r| == n && forall i :: 0 <= i < n ==> r[i] == NULL
  {
    seq(n, _ => NULL)
  }

  function Unlinked(t: Table): (l: Links)
    ensures Shaped(t, l)
    ensures forall a, i :: 0 <= a < |t| && 0 <= i < |l.input[a]| ==> l.input[a][i] == NULL
    ensures forall a, i :: 0 <= a < |t| && 0 <= i < |l.output[a]| ==> l.output[a][i] == NULL
  {
    Links(seq(|t|, a requires 0 <= a < |t| => Blank(|t[a].readKeys|)),
          seq(|t|, a requires 0 <= a < |t| => Blank(|t[a].writeKeys|)))
  }

  function Start(t: Table): (s: Sweep)
    ensures ValidSweep(t, s)
  {
    Sweep(Unlinked(t), Positions(|t|), 0)
  }

  /** `buildDDG` returns, having set the links l. */
  ghost predicate Returns(t: Table, l: Links) {
    exists n: nat :: Run(t, Start(t), n) == Done(l)
  }
}
