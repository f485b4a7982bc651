/** When `buildDDG` succeeds and what it leaves behind. */
module LinkTheorems {
  import opened Actions
  import opened Common
  import opened DataDependency

  // ---------- What the scheduler's documentation asks of the declarations ----------

  ghost predicate HasSlot(keys: seq<seq<Key>>, k: Key) {
    exists a, i :: 0 <= a < |keys| && 0 <= i < |keys[a]| && keys[a][i] == k
  }

  ghost predicate AtMostOneSlotPerKey(keys: seq<seq<Key>>) {
    forall a, i, b, j ::
      0 <= a < |keys| && 0 <= i < |keys[a]| && 0 <= b < |keys| && 0 <= j < |keys[b]| && keys[a][i] == keys[b][j]
      ==> a == b && i == j
  }

  ghost predicate Covers(from: seq<seq<Key>>, to: seq<seq<Key>>) {
    forall a, i :: 0 <= a < |from| && 0 <= i < |from[a]| ==> HasSlot(to, from[a][i])
  }

  /** Every key that is read or written is read in exactly one slot and written in exactly one slot. */
  ghost predicate WellLinked(t: Table) {
    && Covers(ReadSide(t), WriteSide(t)) && Covers(WriteSide(t), ReadSide(t))
    && AtMostOneSlotPerKey(ReadSide(t)) && AtMostOneSlotPerKey(WriteSide(t))
  }

  lemma {:induction false} WellLinkedNoRepeat(t: Table)
    requires WellLinked(t)
    ensures NoRepeat(t)
  {
    forall a | 0 <= a < |t|
      ensures Distinct(t[a].readKeys) && Distinct(t[a].writeKeys)
    {
      assert ReadSide(t)[a] == t[a].readKeys && WriteSide(t)[a] == t[a].writeKeys;
    }
  }

  // ---------- The invariant of the sweep ----------

  /** Only one action of the table has key k on the given side. */
  ghost predicate Sole(keys: seq<seq<Key>>, k: Key) {
    forall a, b :: 0 <= a < |keys| && 0 <= b < |keys| && k in keys[a] && k in keys[b] ==> a == b
  }

  /** Every filled slot of `from` points at an action that has its key in `to`, and that points back;
      and its key has one owner on one of the two sides. */
  ghost predicate HalfInv(from: seq<seq<Key>>, to: seq<seq<Key>>, fl: seq<seq<int>>, tl: seq<seq<int>>)
    requires |from| == |to| && SideShaped(|from|, from, fl) && SideShaped(|from|, to, tl)
  {
    forall a, i :: 0 <= a < |from| && 0 <= i < |from[a]| && fl[a][i] != NULL ==>
      Backed(from, to, fl, tl, a, i)
  }

  ghost predicate Backed(from: seq<seq<Key>>, to: seq<seq<Key>>, fl: seq<seq<int>>, tl: seq<seq<int>>, a: nat, i: nat)
    requires |from| == |to| && SideShaped(|from|, from, fl) && SideShaped(|from|, to, tl)
    requires a < |from| && i < |from[a]| && fl[a][i] != NULL
  {
    var k := from[a][i];
    var b := fl[a][i];
    var o := FirstIndex(to[b], k);
    o != -1 && tl[b][o] == a && (Sole(from, k) || Sole(to, k))
  }

  ghost predicate Inv(t: Table, l: Links) {
    && Shaped(t, l)
    && HalfInv(ReadSide(t), WriteSide(t), l.input, l.output)
    && HalfInv(WriteSide(t), ReadSide(t), l.output, l.input)
  }

  lemma {:induction false} MirrorInv(t: Table, l: Links)
    ensures Inv(t, l) <==> Inv(MirrorTable(t), MirrorLinks(l))
    ensures NoRepeat(t) ==> NoRepeat(MirrorTable(t))
    ensures WellLinked(t) ==> WellLinked(MirrorTable(t))
  {
    MirrorShaped(t, l);
    assert ReadSide(MirrorTable(t)) == WriteSide(t);
    assert WriteSide(MirrorTable(t)) == ReadSide(t);
  }

  /** An action that has left the pool has all its slots filled. */
  ghost predicate Erased(t: Table, l: Links, pool: seq<nat>)
    requires Shaped(t, l)
  {
    && (forall q :: 0 <= q < |pool| ==> pool[q] < |t|)
    && (forall q, r :: 0 <= q < r < |pool| ==> pool[q] != pool[r])
    && (forall a: nat :: a < |t| && a !in pool ==> Fulfilled(l, a))
  }

  lemma {:induction false} MirrorErased(t: Table, l: Links, pool: seq<nat>)
    requires Shaped(t, l)
    ensures Shaped(MirrorTable(t), MirrorLinks(l))
    ensures Erased(t, l, pool) <==> Erased(MirrorTable(t), MirrorLinks(l), pool)
  {
    MirrorShaped(t, l);
    forall a | 0 <= a < |t| ensures Fulfilled(l, a) == Fulfilled(MirrorLinks(l), a) {}
  }

  /** Links are only ever added. */
  ghost predicate Extends(l: Links, m: Links) {
    && |m.input| == |l.input| && |m.output| == |l.output|
    && (forall a :: 0 <= a < |l.input| ==> |m.input[a]| == |l.input[a]|)
    && (forall a :: 0 <= a < |l.output| ==> |m.output[a]| == |l.output[a]|)
    && (forall a, i :: 0 <= a < |l.input| && 0 <= i < |l.input[a]| && l.input[a][i] != NULL ==> m.input[a][i] == l.input[a][i])
    && (forall a, i :: 0 <= a < |l.output| && 0 <= i < |l.output[a]| && l.output[a][i] != NULL ==> m.output[a][i] == l.output[a][i])
  }

  lemma {:induction false} ExtendsTwice(l: Links, h: Links, m: Links)
    requires Extends(l, h) && Extends(h, m)
    ensures Extends(l, m)
  {
  }

  lemma {:induction false} ExtendsSelf(l: Links)
    ensures Extends(l, l)
  {
  }

  lemma {:induction false} JoinExtends(t: Table, l: Links, a: nat, i: nat, b: nat, o: nat)
    requires Shaped(t, l) && a < |t| && i < |t[a].readKeys| && b < |t| && o < |t[b].writeKeys|
    requires l.input[a][i] == NULL && l.output[b][o] == NULL
    ensures Extends(l, Join(l, a, i, b, o))
  {
  }

  lemma {:induction false} ExtendsErased(t: Table, l: Links, m: Links, pool: seq<nat>)
    requires Shaped(t, l) && Shaped(t, m) && Erased(t, l, pool) && Extends(l, m)
    ensures Erased(t, m, pool)
  {
    forall a: nat | a < |t| && a !in pool ensures Fulfilled(m, a) { assert Fulfilled(l, a); }
  }

  // ---------- One read slot ----------

  /** From p on, exactly the pool member at q writes k. */
  ghost predicate OnlyWriter(t: Table, pool: seq<nat>, k: Key, p: nat, q: nat)
    requires forall x :: 0 <= x < |pool| ==> pool[x] < |t|
  {
    && p <= q < |pool| && k in t[pool[q]].writeKeys
    && forall r :: p <= r < |pool| && r != q ==> k !in t[pool[r]].writeKeys
  }

  lemma {:induction false} ScanNone(t: Table, l: Links, pool: seq<nat>, a: nat, i: nat, p: nat)
    requires InPool(t, l, pool) && a < |t| && i < |t[a].readKeys| && p <= |pool|
    requires l.input[a][i] != NULL || forall r :: p <= r < |pool| ==> t[a].readKeys[i] !in t[pool[r]].writeKeys
    ensures var r := ScanWriters(t, l, pool, a, i, p);
      if forall r :: p <= r < |pool| ==> t[a].readKeys[i] !in t[pool[r]].writeKeys then r == Some(l) else r == None
    decreases |pool| - p
  {
    if p < |pool| {
      ScanNone(t, l, pool, a, i, p + 1);
    }
  }

  lemma {:induction false} ScanOnly(t: Table, l: Links, pool: seq<nat>, a: nat, i: nat, p: nat, q: nat)
    requires InPool(t, l, pool) && a < |t| && i < |t[a].readKeys| && p <= |pool|
    requires l.input[a][i] == NULL && OnlyWriter(t, pool, t[a].readKeys[i], p, q)
    ensures var b, o := pool[q], FirstIndex(t[pool[q]].writeKeys, t[a].readKeys[i]);
      ScanWriters(t, l, pool, a, i, p) == if l.output[b][o] == NULL then Some(Join(l, a, i, b, o)) else None
    decreases |pool| - p
  {
    if p == q {
      var b, o := pool[q], FirstIndex(t[pool[q]].writeKeys, t[a].readKeys[i]);
      if l.output[b][o] == NULL {
        ScanNone(t, Join(l, a, i, b, o), pool, a, i, p + 1);
      }
    } else {
      ScanOnly(t, l, pool, a, i, p + 1, q);
    }
  }

  lemma {:induction false} ScanMany(t: Table, l: Links, pool: seq<nat>, a: nat, i: nat, p: nat, q: nat, r: nat)
    requires InPool(t, l, pool) && a < |t| && i < |t[a].readKeys|
    requires p <= q < r < |pool| && l.input[a][i] == NULL
    requires t[a].readKeys[i] in t[pool[q]].writeKeys && t[a].readKeys[i] in t[pool[r]].writeKeys
    ensures ScanWriters(t, l, pool, a, i, p) == None
    decreases |pool| - p
  {
    var b, o := pool[p], FirstIndex(t[pool[p]].writeKeys, t[a].readKeys[i]);
    if o == -1 {
      ScanMany(t, l, pool, a, i, p + 1, q, r);
    } else if l.output[b][o] == NULL {
      ScanNone(t, Join(l, a, i, b, o), pool, a, i, p + 1);
    }
  }

  /** An open read slot is linked exactly when one pool member writes its key and that write slot is open. */
  lemma {:induction false} LinkReadCases(t: Table, l: Links, pool: seq<nat>, a: nat, i: nat)
    requires InPool(t, l, pool) && a < |t| && i < |t[a].readKeys| && l.input[a][i] == NULL
    ensures LinkRead(t, l, pool, a, i).Some? <==>
      exists q: nat :: OnlyWriter(t, pool, t[a].readKeys[i], 0, q) &&
        l.output[pool[q]][FirstIndex(t[pool[q]].writeKeys, t[a].readKeys[i])] == NULL
    ensures forall q: nat :: OnlyWriter(t, pool, t[a].readKeys[i], 0, q) && LinkRead(t, l, pool, a, i).Some? ==>
      LinkRead(t, l, pool, a, i).value == Join(l, a, i, pool[q], FirstIndex(t[pool[q]].writeKeys, t[a].readKeys[i]))
  {
    var k := t[a].readKeys[i];
    if q: nat :| OnlyWriter(t, pool, k, 0, q) {
      ScanOnly(t, l, pool, a, i, 0, q);
    } else if r: nat :| r < |pool| && k in t[pool[r]].writeKeys {
      assert !OnlyWriter(t, pool, k, 0, r);
      var s: nat :| s < |pool| && k in t[pool[s]].writeKeys && s != r;
      ScanMany(t, l, pool, a, i, 0, if r < s then r else s, if r < s then s else r);
    } else {
      ScanNone(t, l, pool, a, i, 0);
    }
  }

  // ---------- Every link keeps the invariant ----------

  lemma {:induction false} BackedKept(from: seq<seq<Key>>, to: seq<seq<Key>>, fl: seq<seq<int>>, tl: seq<seq<int>>,
                   fm: seq<seq<int>>, tm: seq<seq<int>>, x: nat, y: nat)
    requires |from| == |to| && SideShaped(|from|, from, fl) && SideShaped(|from|, to, tl)
    requires SideShaped(|from|, from, fm) && SideShaped(|from|, to, tm)
    requires x < |from| && y < |from[x]| && fl[x][y] != NULL && fm[x][y] == fl[x][y]
    requires Backed(from, to, fl, tl, x, y)
    requires tm[fl[x][y]][FirstIndex(to[fl[x][y]], from[x][y])] == tl[fl[x][y]][FirstIndex(to[fl[x][y]], from[x][y])]
    ensures Backed(from, to, fm, tm, x, y)
  {
  }

  ghost predicate Joined(l: Links, m: Links, a: nat, i: nat, b: nat, o: nat)
    requires a < |l.input| && i < |l.input[a]| && b < |l.output| && o < |l.output[b]|
  {
    m == Join(l, a, i, b, o)
  }

  lemma {:induction false} JoinHalf(t: Table, l: Links, m: Links, a: nat, i: nat, b: nat, o: nat)
    requires NoRepeat(t) && Inv(t, l) && Shaped(t, m)
    requires a < |t| && i < |t[a].readKeys| && l.input[a][i] == NULL
    requires b < |t| && o < |t[b].writeKeys| && l.output[b][o] == NULL
    requires t[a].readKeys[i] == t[b].writeKeys[o] && Sole(WriteSide(t), t[a].readKeys[i])
    requires Joined(l, m, a, i, b, o)
    ensures HalfInv(ReadSide(t), WriteSide(t), m.input, m.output)
  {
    var rs, ws := ReadSide(t), WriteSide(t);
    assert Distinct(t[b].writeKeys) && Distinct(t[a].readKeys);
    forall x, y | 0 <= x < |rs| && 0 <= y < |rs[x]| && m.input[x][y] != NULL
      ensures Backed(rs, ws, m.input, m.output, x, y)
    {
      if x == a && y == i {
        assert FirstIndex(ws[b], rs[a][i]) == o;
      } else {
        assert Backed(rs, ws, l.input, l.output, x, y);
        BackedKept(rs, ws, l.input, l.output, m.input, m.output, x, y);
      }
    }
  }

  lemma {:induction false} JoinOtherHalf(t: Table, l: Links, m: Links, a: nat, i: nat, b: nat, o: nat)
    requires NoRepeat(t) && Inv(t, l) && Shaped(t, m)
    requires a < |t| && i < |t[a].readKeys| && l.input[a][i] == NULL
    requires b < |t| && o < |t[b].writeKeys| && l.output[b][o] == NULL
    requires t[a].readKeys[i] == t[b].writeKeys[o] && Sole(WriteSide(t), t[a].readKeys[i])
    requires Joined(l, m, a, i, b, o)
    ensures HalfInv(WriteSide(t), ReadSide(t), m.output, m.input)
  {
    var rs, ws := ReadSide(t), WriteSide(t);
    assert Distinct(t[b].writeKeys) && Distinct(t[a].readKeys);
    forall x, y | 0 <= x < |ws| && 0 <= y < |ws[x]| && m.output[x][y] != NULL
      ensures Backed(ws, rs, m.output, m.input, x, y)
    {
      if x == b && y == o {
        assert FirstIndex(rs[a], ws[b][o]) == i;
      } else {
        assert Backed(ws, rs, l.output, l.input, x, y);
        BackedKept(ws, rs, l.output, l.input, m.output, m.input, x, y);
      }
    }
  }

  lemma {:induction false} JoinKeeps(t: Table, l: Links, pool: seq<nat>, a: nat, i: nat, b: nat)
    requires NoRepeat(t) && Inv(t, l) && Erased(t, l, pool)
    requires a < |t| && i < |t[a].readKeys| && l.input[a][i] == NULL
    requires b < |t| && t[a].readKeys[i] in t[b].writeKeys
    requires Sole(WriteSide(t), t[a].readKeys[i])
    requires l.output[b][FirstIndex(t[b].writeKeys, t[a].readKeys[i])] == NULL
    ensures var m := Join(l, a, i, b, FirstIndex(t[b].writeKeys, t[a].readKeys[i]));
      Inv(t, m) && Extends(l, m) && Erased(t, m, pool)
  {
    hide HalfInv, Extends, Erased, NoRepeat, Sole;
    var o := FirstIndex(t[b].writeKeys, t[a].readKeys[i]);
    var m := Join(l, a, i, b, o);
    JoinHalf(t, l, m, a, i, b, o);
    JoinOtherHalf(t, l, m, a, i, b, o);
    JoinExtends(t, l, a, i, b, o);
    ExtendsErased(t, l, m, pool);
  }

  /** The pool member that is the only writer of an open read slot's key in the pool is the only one in the table. */
  lemma {:induction false} SoleInPool(t: Table, l: Links, pool: seq<nat>, a: nat, i: nat, q: nat)
    requires NoRepeat(t) && Inv(t, l) && Erased(t, l, pool)
    requires a < |t| && i < |t[a].readKeys| && l.input[a][i] == NULL
    requires OnlyWriter(t, pool, t[a].readKeys[i], 0, q)
    ensures Sole(WriteSide(t), t[a].readKeys[i])
  {
    var k := t[a].readKeys[i];
    var rs, ws := ReadSide(t), WriteSide(t);
    forall b | 0 <= b < |t| && k in ws[b]
      ensures b == pool[q]
    {
      if b !in pool {
        var o := FirstIndex(ws[b], k);
        assert Fulfilled(l, b);
        assert Backed(ws, rs, l.output, l.input, b, o);
        var c := l.output[b][o];
        if Sole(rs, k) {
          assert false;
        }
        assert Sole(ws, k) && k in ws[pool[q]] && k in ws[b];
      }
    }
  }

  lemma {:induction false} LinkReadKeeps(t: Table, l: Links, pool: seq<nat>, a: nat, i: nat)
    requires NoRepeat(t) && Inv(t, l) && Erased(t, l, pool)
    requires a < |t| && i < |t[a].readKeys| && LinkRead(t, l, pool, a, i).Some?
    ensures var m := LinkRead(t, l, pool, a, i).value;
      Inv(t, m) && Extends(l, m) && Erased(t, m, pool) && m.input[a][i] != NULL
  {
    if l.input[a][i] == NULL {
      LinkReadCases(t, l, pool, a, i);
      var q: nat :| OnlyWriter(t, pool, t[a].readKeys[i], 0, q);
      SoleInPool(t, l, pool, a, i, q);
      JoinKeeps(t, l, pool, a, i, pool[q]);
    }
  }

  /** The read slots of a from i on are filled, and nothing else about the links got worse. */
  ghost predicate ReadsKept(t: Table, l: Links, m: Links, pool: seq<nat>, a: nat, i: nat)
    requires a < |t|
  {
    && Inv(t, m) && Extends(l, m) && Erased(t, m, pool)
    && forall x :: i <= x < |t[a].readKeys| ==> m.input[a][x] != NULL
  }

  lemma {:induction false} ReadsKeptTwice(t: Table, l: Links, h: Links, m: Links, pool: seq<nat>, a: nat, i: nat)
    requires a < |t| && i < |t[a].readKeys| && Shaped(t, h)
    requires Extends(l, h) && h.input[a][i] != NULL && ReadsKept(t, h, m, pool, a, i + 1)
    ensures ReadsKept(t, l, m, pool, a, i)
  {
    ExtendsTwice(l, h, m);
  }

  lemma {:induction false} LinkReadsKeeps(t: Table, l: Links, m: Links, pool: seq<nat>, a: nat, i: nat)
    requires NoRepeat(t) && Inv(t, l) && Erased(t, l, pool)
    requires a < |t| && i <= |t[a].readKeys| && LinkReads(t, l, pool, a, i) == Some(m)
    ensures ReadsKept(t, l, m, pool, a, i)
    decreases |t[a].readKeys| - i
  {
    if i < |t[a].readKeys| {
      LinkReadKeeps(t, l, pool, a, i);
      var h := LinkRead(t, l, pool, a, i).value;
      LinkReadsKeeps(t, h, m, pool, a, i + 1);
      ReadsKeptTwice(t, l, h, m, pool, a, i);
    }
  }

  /** After a visit, a reader has all its inputs; an action that only writes has all its outputs. */
  ghost predicate Served(t: Table, l: Links, a: nat)
    requires Shaped(t, l) && a < |t|
  {
    Filled(if |t[a].readKeys| > 0 then l.input[a] else l.output[a])
  }

  lemma {:induction false} VisitKeeps(t: Table, l: Links, pool: seq<nat>, a: nat)
    requires NoRepeat(t) && Inv(t, l) && Erased(t, l, pool) && a < |t| && Visit(t, l, pool, a).Some?
    ensures var m := Visit(t, l, pool, a).value;
      Inv(t, m) && Extends(l, m) && Erased(t, m, pool) && Served(t, m, a)
  {
    if |t[a].readKeys| > 0 {
      LinkReadsKeeps(t, l, Visit(t, l, pool, a).value, pool, a, 0);
    } else {
      MirrorInv(t, l);
      MirrorErased(t, l, pool);
      var m := LinkReads(MirrorTable(t), MirrorLinks(l), pool, a, 0).value;
      LinkReadsKeeps(MirrorTable(t), MirrorLinks(l), m, pool, a, 0);
      MirrorInv(t, MirrorLinks(m));
      MirrorErased(t, MirrorLinks(m), pool);
    }
  }

  lemma {:induction false} EraseKeeps(t: Table, l: Links, pool: seq<nat>, p: nat)
    requires Shaped(t, l) && Erased(t, l, pool) && p < |pool| && Fulfilled(l, pool[p])
    ensures Erased(t, l, Erase(pool, p))
  {
    assert pool == pool[..p] + [pool[p]] + pool[p + 1..];
    forall a: nat | a < |t| && a !in Erase(pool, p)
      ensures Fulfilled(l, a)
    {
      assert a in pool ==> a == pool[p];
    }
  }

  ghost predicate SweepInv(t: Table, s: Sweep) {
    ValidSweep(t, s) && Inv(t, s.links) && Erased(t, s.links, s.pool)
  }

  ghost predicate Kept(t: Table, s: Sweep, r: Outcome) {
    && (r.Running? ==> SweepInv(t, r.sweep) && Extends(s.links, r.sweep.links))
    && (r.Done? ==> Ended(t, r.links))
  }

  lemma {:induction false} AdvanceKeeps(t: Table, s: Sweep, l: Links)
    requires ValidSweep(t, s) && s.pool != []
    requires Inv(t, l) && Erased(t, l, s.pool) && Extends(s.links, l)
    ensures Kept(t, s, Advance(t, s, l))
  {
    if Fulfilled(l, s.pool[s.act]) {
      EraseKeeps(t, l, s.pool, s.act);
      assert |s.pool| == 1 ==> Erase(s.pool, s.act) == [];
    }
  }

  lemma {:induction false} StepKeeps(t: Table, s: Sweep)
    requires NoRepeat(t) && SweepInv(t, s) && s.pool != []
    ensures Kept(t, s, Step(t, s))
  {
    var v := Visit(t, s.links, s.pool, s.pool[s.act]);
    if v.Some? {
      VisitKeeps(t, s.links, s.pool, s.pool[s.act]);
      AdvanceKeeps(t, s, v.value);
    }
  }

  ghost predicate Ended(t: Table, l: Links) {
    Inv(t, l) && Erased(t, l, [])
  }

  // ---------- Induction over the rounds of a run ----------

  /** A run of n rounds is one round and then a run of n - 1. */
  lemma {:induction false} RunOnce(t: Table, s: Sweep, r: Outcome, n: nat)
    requires ValidSweep(t, s) && s.pool != [] && n > 0 && r == Step(t, s)
    ensures Run(t, s, n) == if r.Running? then Run(t, r.sweep, n - 1) else r
  {
  }

  /** A run that makes no round. */
  lemma {:induction false} RunEnds(t: Table, s: Sweep, n: nat)
    requires ValidSweep(t, s) && (s.pool == [] || n == 0)
    ensures Run(t, s, n) == if s.pool == [] then Done(s.links) else Running(s)
  {
  }

  /** A round keeps the property p of states, or ends with the property e of endings. */
  ghost predicate RoundOk(p: Sweep -> bool, e: Outcome -> bool, r: Outcome) {
    if r.Running? then p(r.sweep) else e(r)
  }

  /** What every round keeps, every run keeps. */
  lemma {:induction false} RunByInvariant(t: Table, p: Sweep -> bool, e: Outcome -> bool, s: Sweep, n: nat)
    requires p(s) && forall x :: p(x) ==> ValidSweep(t, x)
    requires forall x :: p(x) && x.pool == [] ==> e(Done(x.links))
    requires forall x {:trigger Step(t, x)} :: p(x) && ValidSweep(t, x) && x.pool != [] ==> RoundOk(p, e, Step(t, x))
    ensures !Run(t, s, n).Running? ==> e(Run(t, s, n))
    decreases n
  {
    hide Step;
    if s.pool != [] && n > 0 {
      var r := Step(t, s);
      assert RoundOk(p, e, r);
      RunOnce(t, s, r, n);
      if r.Running? {
        RunByInvariant(t, p, e, r.sweep, n - 1);
      }
    }
  }

  /** A round ends in a return, or keeps p and takes m below the bound. */
  ghost predicate RoundLowers(p: Sweep -> bool, m: Sweep -> int, bound: int, r: Outcome) {
    r.Done? || (r.Running? && p(r.sweep) && m(r.sweep) < bound)
  }

  /** A measure that every round lowers bounds the number of rounds. */
  lemma {:induction false} RunByMeasure(t: Table, p: Sweep -> bool, m: Sweep -> int, s: Sweep, n: nat)
    requires p(s) && n >= m(s) && forall x :: p(x) ==> ValidSweep(t, x) && x.pool != [] && m(x) > 0
    requires forall x {:trigger Step(t, x)} :: p(x) && ValidSweep(t, x) && x.pool != [] ==>
      RoundLowers(p, m, m(x), Step(t, x))
    ensures Run(t, s, n).Done?
    decreases n
  {
    hide Step;
    var r := Step(t, s);
    assert RoundLowers(p, m, m(s), r);
    RunOnce(t, s, r, n);
    if r.Running? {
      RunByMeasure(t, p, m, r.sweep, n - 1);
    }
  }

  lemma {:induction false} RunKeeps(t: Table, s: Sweep, n: nat)
    requires NoRepeat(t) && SweepInv(t, s)
    ensures Run(t, s, n).Done? ==> Ended(t, Run(t, s, n).links)
  {
    var p := x => SweepInv(t, x);
    var e := (r: Outcome) => r.Done? ==> Ended(t, r.links);
    forall x | p(x) && x.pool != [] ensures RoundOk(p, e, Step(t, x)) {
      StepKeeps(t, x);
    }
    RunByInvariant(t, p, e, s, n);
  }

  lemma {:induction false} StartInv(t: Table)
    ensures SweepInv(t, Start(t))
  {
    forall a: nat | a < |t| ensures a in Positions(|t|) {
      assert Positions(|t|)[a] == a;
    }
  }

  // ---------- Success means that the declarations were good ----------

  /** Every slot points at an action that has the same key on the other side, and is pointed back at from there. */
  ghost predicate SideMatched(from: seq<seq<Key>>, to: seq<seq<Key>>, fl: seq<seq<int>>, tl: seq<seq<int>>)
    requires |from| == |to| && SideShaped(|from|, from, fl) && SideShaped(|from|, to, tl)
  {
    forall a, i :: 0 <= a < |from| && 0 <= i < |from[a]| ==>
      fl[a][i] != NULL && exists o :: 0 <= o < |to[fl[a][i]]| && to[fl[a][i]][o] == from[a][i] && tl[fl[a][i]][o] == a
  }

  ghost predicate Matched(t: Table, l: Links) {
    && Shaped(t, l)
    && SideMatched(ReadSide(t), WriteSide(t), l.input, l.output)
    && SideMatched(WriteSide(t), ReadSide(t), l.output, l.input)
  }

  lemma {:induction false} InvMatched(t: Table, l: Links)
    requires Inv(t, l) && Erased(t, l, [])
    ensures SideMatched(ReadSide(t), WriteSide(t), l.input, l.output)
  {
    var rs, ws := ReadSide(t), WriteSide(t);
    forall a, i | 0 <= a < |t| && 0 <= i < |rs[a]|
      ensures l.input[a][i] != NULL
      ensures exists o :: 0 <= o < |ws[l.input[a][i]]| && ws[l.input[a][i]][o] == rs[a][i] && l.output[l.input[a][i]][o] == a
    {
      assert Fulfilled(l, a);
      assert Backed(rs, ws, l.input, l.output, a, i);
      var o := FirstIndex(ws[l.input[a][i]], rs[a][i]);
      assert ws[l.input[a][i]][o] == rs[a][i];
    }
  }

  /** Two filled read slots with one key are the same slot. */
  lemma {:induction false} SameReadSlot(t: Table, l: Links, a: nat, i: nat, b: nat, j: nat)
    requires NoRepeat(t) && Inv(t, l) && Erased(t, l, [])
    requires a < |t| && i < |t[a].readKeys| && b < |t| && j < |t[b].readKeys| && t[a].readKeys[i] == t[b].readKeys[j]
    ensures a == b && i == j
  {
    var rs, ws := ReadSide(t), WriteSide(t);
    assert Fulfilled(l, a) && Fulfilled(l, b);
    assert Backed(rs, ws, l.input, l.output, a, i);
    assert Backed(rs, ws, l.input, l.output, b, j);
    assert a == b;
  }

  lemma {:induction false} InvCovers(t: Table, l: Links)
    requires Inv(t, l) && Erased(t, l, [])
    ensures Covers(ReadSide(t), WriteSide(t))
  {
    var rs, ws := ReadSide(t), WriteSide(t);
    InvMatched(t, l);
    forall a, i | 0 <= a < |rs| && 0 <= i < |rs[a]| ensures HasSlot(ws, rs[a][i]) {
      assert l.input[a][i] != NULL;
    }
  }

  lemma {:induction false} InvSingleReader(t: Table, l: Links)
    requires NoRepeat(t) && Inv(t, l) && Erased(t, l, [])
    ensures Covers(ReadSide(t), WriteSide(t)) && AtMostOneSlotPerKey(ReadSide(t))
  {
    hide NoRepeat, Inv, Erased;
    var rs := ReadSide(t);
    InvCovers(t, l);
    forall a, i, b, j | 0 <= a < |rs| && 0 <= i < |rs[a]| && 0 <= b < |rs| && 0 <= j < |rs[b]| && rs[a][i] == rs[b][j]
      ensures a == b && i == j
    {
      SameReadSlot(t, l, a, i, b, j);
    }
  }

  lemma {:induction false} DoneIsWellLinked(t: Table, n: nat)
    requires NoRepeat(t) && Run(t, Start(t), n).Done?
    ensures WellLinked(t) && Matched(t, Run(t, Start(t), n).links)
  {
    var l := Run(t, Start(t), n).links;
    StartInv(t);
    RunKeeps(t, Start(t), n);
    InvMatched(t, l);
    InvSingleReader(t, l);
    MirrorInv(t, l);
    MirrorErased(t, l, []);
    InvMatched(MirrorTable(t), MirrorLinks(l));
    InvSingleReader(MirrorTable(t), MirrorLinks(l));
    assert ReadSide(MirrorTable(t)) == WriteSide(t);
    assert WriteSide(MirrorTable(t)) == ReadSide(t);
  }

  // ---------- Good declarations are always linked ----------

  /** One reader and one writer at most per key, every read has a writer, and so has every write of an
      action that only writes: nothing here makes a visit abort. */
  ghost predicate Visitable(t: Table) {
    && AtMostOneSlotPerKey(ReadSide(t)) && AtMostOneSlotPerKey(WriteSide(t))
    && Covers(ReadSide(t), WriteSide(t))
    && forall a, i :: 0 <= a < |t| && t[a].readKeys == [] && 0 <= i < |t[a].writeKeys| ==>
      HasSlot(ReadSide(t), t[a].writeKeys[i])
  }

  lemma {:induction false} UniqueNoRepeat(t: Table)
    requires AtMostOneSlotPerKey(ReadSide(t)) && AtMostOneSlotPerKey(WriteSide(t))
    ensures NoRepeat(t)
  {
    forall a | 0 <= a < |t|
      ensures Distinct(t[a].readKeys) && Distinct(t[a].writeKeys)
    {
      assert ReadSide(t)[a] == t[a].readKeys && WriteSide(t)[a] == t[a].writeKeys;
    }
  }

  lemma {:induction false} OpenTogether(t: Table, l: Links, a: nat, i: nat, b: nat, o: nat)
    requires AtMostOneSlotPerKey(ReadSide(t)) && Inv(t, l)
    requires a < |t| && i < |t[a].readKeys| && b < |t| && o < |t[b].writeKeys| && t[a].readKeys[i] == t[b].writeKeys[o]
    ensures l.output[b][o] != NULL ==> l.input[a][i] != NULL
  {
    var rs, ws := ReadSide(t), WriteSide(t);
    if l.output[b][o] != NULL {
      assert Backed(ws, rs, l.output, l.input, b, o);
      assert rs[l.output[b][o]][FirstIndex(rs[l.output[b][o]], ws[b][o])] == rs[a][i];
    }
  }

  lemma {:induction false} LinkReadSucceeds(t: Table, l: Links, pool: seq<nat>, a: nat, i: nat)
    requires AtMostOneSlotPerKey(ReadSide(t)) && AtMostOneSlotPerKey(WriteSide(t))
    requires Inv(t, l) && Erased(t, l, pool)
    requires a < |t| && i < |t[a].readKeys| && HasSlot(WriteSide(t), t[a].readKeys[i])
    ensures LinkRead(t, l, pool, a, i).Some?
  {
    if l.input[a][i] == NULL {
      var rs, ws, k := ReadSide(t), WriteSide(t), t[a].readKeys[i];
      assert rs[a][i] == k;
      var b, o :| 0 <= b < |ws| && 0 <= o < |ws[b]| && ws[b][o] == k;
      assert FirstIndex(t[b].writeKeys, k) == o;
      OpenTogether(t, l, a, i, b, o);
      assert !Fulfilled(l, b);
      var q: nat :| q < |pool| && pool[q] == b;
      assert OnlyWriter(t, pool, k, 0, q) by {
        forall r | 0 <= r < |pool| && r != q ensures k !in t[pool[r]].writeKeys {
          assert pool[r] != pool[q];
          assert ws[pool[r]] == t[pool[r]].writeKeys;
        }
      }
      LinkReadCases(t, l, pool, a, i);
    }
  }

  lemma {:induction false} LinkReadsSucceed(t: Table, l: Links, pool: seq<nat>, a: nat, i: nat)
    requires AtMostOneSlotPerKey(ReadSide(t)) && AtMostOneSlotPerKey(WriteSide(t))
    requires Inv(t, l) && Erased(t, l, pool) && a < |t| && i <= |t[a].readKeys|
    requires forall x :: i <= x < |t[a].readKeys| ==> HasSlot(WriteSide(t), t[a].readKeys[x])
    ensures LinkReads(t, l, pool, a, i).Some?
    decreases |t[a].readKeys| - i
  {
    if i < |t[a].readKeys| {
      UniqueNoRepeat(t);
      LinkReadSucceeds(t, l, pool, a, i);
      LinkReadKeeps(t, l, pool, a, i);
      LinkReadsSucceed(t, LinkRead(t, l, pool, a, i).value, pool, a, i + 1);
    }
  }

  lemma {:induction false} VisitSucceeds(t: Table, l: Links, pool: seq<nat>, a: nat)
    requires Visitable(t) && Inv(t, l) && Erased(t, l, pool) && a < |t|
    ensures Visit(t, l, pool, a).Some?
  {
    if t[a].readKeys != [] {
      assert ReadSide(t)[a] == t[a].readKeys;
      LinkReadsSucceed(t, l, pool, a, 0);
    } else {
      MirrorInv(t, l);
      MirrorErased(t, l, pool);
      assert ReadSide(MirrorTable(t)) == WriteSide(t);
      assert WriteSide(MirrorTable(t)) == ReadSide(t);
      LinkReadsSucceed(MirrorTable(t), MirrorLinks(l), pool, a, 0);
    }
  }

  ghost predicate AllServed(t: Table, l: Links)
    requires Shaped(t, l)
  {
    forall a :: 0 <= a < |t| ==> Served(t, l, a)
  }

  ghost predicate AllFulfilled(t: Table, l: Links)
    requires Shaped(t, l)
  {
    forall a :: 0 <= a < |t| ==> Fulfilled(l, a)
  }

  /** Once every action has been visited, every slot is filled. */
  lemma {:induction false} ServedIsFulfilled(t: Table, l: Links)
    requires WellLinked(t) && Inv(t, l) && AllServed(t, l)
    ensures AllFulfilled(t, l)
  {
    var rs, ws := ReadSide(t), WriteSide(t);
    forall b, o | 0 <= b < |t| && 0 <= o < |l.output[b]|
      ensures l.output[b][o] != NULL
    {
      assert HasSlot(rs, ws[b][o]);
      var a, i :| 0 <= a < |rs| && 0 <= i < |rs[a]| && rs[a][i] == ws[b][o];
      assert Served(t, l, a);
      assert Backed(rs, ws, l.input, l.output, a, i);
      var c := l.input[a][i];
      var x := FirstIndex(ws[c], rs[a][i]);
      assert ws[c][x] == ws[b][o];
    }
    forall a | 0 <= a < |t| ensures Fulfilled(l, a) {
      assert Served(t, l, a);
      assert |l.input[a]| == |rs[a]|;
    }
  }

  /** A round of the second pass takes one action out of the pool. */
  ghost predicate Shrinks(t: Table, s: Sweep, r: Outcome) {
    if |s.pool| == 1 then r.Done?
    else r.Running? && SweepInv(t, r.sweep) && AllFulfilled(t, r.sweep.links) && |r.sweep.pool| == |s.pool| - 1
  }

  lemma {:induction false} StepFulfilled(t: Table, s: Sweep)
    requires Visitable(t) && SweepInv(t, s) && AllFulfilled(t, s.links) && s.pool != []
    ensures Shrinks(t, s, Step(t, s))
  {
    var a := s.pool[s.act];
    UniqueNoRepeat(t);
    VisitSucceeds(t, s.links, s.pool, a);
    VisitKeeps(t, s.links, s.pool, a);
    ExtendsFulfilled(t, s.links, Visit(t, s.links, s.pool, a).value);
    StepKeeps(t, s);
  }

  lemma {:induction false} ExtendsFulfilled(t: Table, l: Links, m: Links)
    requires Shaped(t, l) && Shaped(t, m) && AllFulfilled(t, l) && Extends(l, m)
    ensures AllFulfilled(t, m)
  {
    forall a | 0 <= a < |t| ensures Fulfilled(m, a) { assert Fulfilled(l, a); }
  }

  /** The pool members before the current one have been visited. */
  ghost predicate Passed(t: Table, s: Sweep)
    requires ValidSweep(t, s)
  {
    forall q :: 0 <= q < |s.pool| && q < s.act ==> Served(t, s.links, s.pool[q])
  }

  lemma {:induction false} PoolServed(t: Table, l: Links, pool: seq<nat>)
    requires Shaped(t, l) && Erased(t, l, pool) && forall q :: 0 <= q < |pool| ==> Served(t, l, pool[q])
    ensures AllServed(t, l)
  {
    forall a: nat | a < |t| ensures Served(t, l, a) {
      if a in pool {
        var q :| 0 <= q < |pool| && pool[q] == a;
      } else {
        assert Fulfilled(l, a);
      }
    }
  }

  lemma {:induction false} ServedStays(t: Table, l: Links, m: Links, a: nat)
    requires Shaped(t, l) && Shaped(t, m) && Extends(l, m) && a < |t| && Served(t, l, a)
    ensures Served(t, m, a)
  {
  }

  lemma {:induction false} VisitPasses(t: Table, s: Sweep, m: Links)
    requires NoRepeat(t) && SweepInv(t, s) && s.pool != [] && Passed(t, s)
    requires Visit(t, s.links, s.pool, s.pool[s.act]) == Some(m)
    ensures forall q :: 0 <= q <= s.act ==> Served(t, m, s.pool[q])
  {
    hide Visit, NoRepeat, Inv, Served;
    VisitKeeps(t, s.links, s.pool, s.pool[s.act]);
    forall q | 0 <= q < s.act ensures Served(t, m, s.pool[q]) {
      ServedStays(t, s.links, m, s.pool[q]);
    }
  }

  /** The first pass is on its way, or it is over and every slot is filled. */
  ghost predicate OnItsWay(t: Table, s: Sweep) {
    SweepInv(t, s) && s.pool != [] && (AllFulfilled(t, s.links) || Passed(t, s))
  }

  /** How many rounds are left at most: one per action of the pool, and what is left of the first pass. */
  ghost function RoundsLeft(t: Table, s: Sweep): int {
    if ValidSweep(t, s) && AllFulfilled(t, s.links) then |s.pool| else 2 * |s.pool| - s.act
  }

  /** A round of the first pass goes on to the next action, or is the last one and has filled every slot. */
  ghost predicate Passes(t: Table, s: Sweep, r: Outcome) {
    r.Done? || (r.Running? && SweepInv(t, r.sweep) && r.sweep.pool != [] && |r.sweep.pool| <= |s.pool| &&
      if s.act == |s.pool| - 1 then AllFulfilled(t, r.sweep.links)
      else Passed(t, r.sweep) && 2 * |r.sweep.pool| - r.sweep.act < 2 * |s.pool| - s.act)
  }

  lemma {:induction false} LastPasses(t: Table, s: Sweep, r: Sweep)
    requires WellLinked(t) && SweepInv(t, r) && Shaped(t, s.links) && Erased(t, s.links, s.pool)
    requires forall q :: 0 <= q < |s.pool| ==> Served(t, r.links, s.pool[q])
    requires Extends(s.links, r.links)
    ensures AllFulfilled(t, r.links)
  {
    ExtendsErased(t, s.links, r.links, s.pool);
    PoolServed(t, r.links, s.pool);
    ServedIsFulfilled(t, r.links);
  }

  lemma {:induction false} AdvancePasses(t: Table, s: Sweep, l: Links)
    requires WellLinked(t) && ValidSweep(t, s) && s.pool != [] && Erased(t, s.links, s.pool)
    requires Shaped(t, l) && Extends(s.links, l) && Kept(t, s, Advance(t, s, l))
    requires forall q :: 0 <= q <= s.act ==> Served(t, l, s.pool[q])
    ensures Passes(t, s, Advance(t, s, l))
  {
    var r := Advance(t, s, l);
    if r.Running? && s.act == |s.pool| - 1 {
      LastPasses(t, s, r.sweep);
    }
  }

  lemma {:induction false} StepPasses(t: Table, s: Sweep)
    requires WellLinked(t) && Visitable(t) && SweepInv(t, s) && s.pool != [] && Passed(t, s)
    ensures Passes(t, s, Step(t, s))
  {
    UniqueNoRepeat(t);
    VisitSucceeds(t, s.links, s.pool, s.pool[s.act]);
    VisitKeeps(t, s.links, s.pool, s.pool[s.act]);
    var l := Visit(t, s.links, s.pool, s.pool[s.act]).value;
    VisitPasses(t, s, l);
    AdvanceKeeps(t, s, l);
    AdvancePasses(t, s, l);
  }

  lemma {:induction false} StepOnItsWay(t: Table, s: Sweep)
    requires WellLinked(t) && Visitable(t) && OnItsWay(t, s)
    ensures var r := Step(t, s);
      r.Done? || (r.Running? && OnItsWay(t, r.sweep) && RoundsLeft(t, r.sweep) < RoundsLeft(t, s))
  {
    if AllFulfilled(t, s.links) {
      StepFulfilled(t, s);
    } else {
      StepPasses(t, s);
    }
  }

  /** Good declarations are linked within two rounds per action, in whatever order they were added. */
  lemma {:induction false} BuildCompletes(t: Table, n: nat)
    requires WellLinked(t) && n >= 2 * |t|
    ensures Run(t, Start(t), n).Done?
  {
    WellLinkedVisitable(t);
    StartInv(t);
    if t != [] {
      var p, m := x => OnItsWay(t, x), x => RoundsLeft(t, x);
      forall x | p(x)
        ensures RoundLowers(p, m, m(x), Step(t, x))
      {
        StepOnItsWay(t, x);
      }
      RunByMeasure(t, p, m, Start(t), n);
    }
  }

  lemma {:induction false} WellLinkedVisitable(t: Table)
    requires WellLinked(t)
    ensures Visitable(t)
  {
    forall a, i | 0 <= a < |t| && t[a].readKeys == [] && 0 <= i < |t[a].writeKeys|
      ensures HasSlot(ReadSide(t), t[a].writeKeys[i])
    {
      assert WriteSide(t)[a][i] == t[a].writeKeys[i];
    }
  }

  /** Exactly when a return from `buildDDG` means what the documentation says it means. */
  lemma {:induction false} BuildExact(t: Table)
    ensures WellLinked(t) <==> NoRepeat(t) && exists l :: Returns(t, l)
    ensures NoRepeat(t) ==> forall l :: Returns(t, l) ==> Matched(t, l)
  {
    if WellLinked(t) {
      WellLinkedNoRepeat(t);
      BuildCompletes(t, 2 * |t|);
      assert Returns(t, Run(t, Start(t), 2 * |t|).links);
    }
    if NoRepeat(t) {
      forall l | Returns(t, l) ensures WellLinked(t) && Matched(t, l) {
        var n: nat :| Run(t, Start(t), n) == Done(l);
        DoneIsWellLinked(t, n);
      }
    }
  }

  // ---------- Declarations that make the loop run forever ----------

  lemma {:induction false} NeverAborts(t: Table, s: Sweep, n: nat)
    requires Visitable(t) && SweepInv(t, s)
    ensures !Run(t, s, n).Aborted?
  {
    var p := x => SweepInv(t, x);
    var e := (r: Outcome) => !r.Aborted?;
    UniqueNoRepeat(t);
    forall x | p(x) && x.pool != [] ensures RoundOk(p, e, Step(t, x)) {
      VisitSucceeds(t, x.links, x.pool, x.pool[x.act]);
      StepKeeps(t, x);
    }
    RunByInvariant(t, p, e, s, n);
  }

  /** An unread write of an action that also reads is not reported: when nothing else is wrong,
      the loop neither returns nor aborts. */
  lemma {:induction false} UnreadWriteHangs(t: Table, n: nat)
    requires Visitable(t)
    ensures Run(t, Start(t), n).Running? <== !WellLinked(t)
    ensures n >= 2 * |t| ==> (Run(t, Start(t), n).Running? <==> !Covers(WriteSide(t), ReadSide(t)))
  {
    StartInv(t);
    UniqueNoRepeat(t);
    NeverAborts(t, Start(t), n);
    if Run(t, Start(t), n).Done? {
      DoneIsWellLinked(t, n);
    }
    if WellLinked(t) && n >= 2 * |t| {
      BuildCompletes(t, n);
    }
  }

  // ---------- sanityCheck ----------

  lemma {:induction false} ScanExtends(t: Table, l: Links, pool: seq<nat>, a: nat, i: nat, p: nat)
    requires InPool(t, l, pool) && a < |t| && i < |t[a].readKeys| && p <= |pool|
    ensures var r := ScanWriters(t, l, pool, a, i, p); r.Some? ==> Extends(l, r.value)
    decreases |pool| - p
  {
    hide Extends;
    ExtendsSelf(l);
    if p < |pool| {
      var b, o := pool[p], FirstIndex(t[pool[p]].writeKeys, t[a].readKeys[i]);
      if o == -1 {
        ScanExtends(t, l, pool, a, i, p + 1);
      } else if l.input[a][i] == NULL && l.output[b][o] == NULL {
        var m := Join(l, a, i, b, o);
        JoinExtends(t, l, a, i, b, o);
        ScanExtends(t, m, pool, a, i, p + 1);
        var r := ScanWriters(t, m, pool, a, i, p + 1);
        if r.Some? {
          ExtendsTwice(l, m, r.value);
        }
      }
    }
  }

  lemma {:induction false} LinkReadsExtend(t: Table, l: Links, pool: seq<nat>, a: nat, i: nat)
    requires InPool(t, l, pool) && a < |t| && i <= |t[a].readKeys|
    ensures var r := LinkReads(t, l, pool, a, i); r.Some? ==> Extends(l, r.value)
    decreases |t[a].readKeys| - i
  {
    hide ScanWriters, Extends;
    ExtendsSelf(l);
    if i < |t[a].readKeys| {
      ScanExtends(t, l, pool, a, i, 0);
      var r := LinkRead(t, l, pool, a, i);
      if r.Some? {
        LinkReadsExtend(t, r.value, pool, a, i + 1);
        var m := LinkReads(t, r.value, pool, a, i + 1);
        if m.Some? {
          ExtendsTwice(l, r.value, m.value);
        }
      }
    }
  }

  lemma {:induction false} VisitExtends(t: Table, l: Links, pool: seq<nat>, a: nat)
    requires InPool(t, l, pool) && a < |t|
    ensures var r := Visit(t, l, pool, a); r.Some? ==> Extends(l, r.value)
  {
    if |t[a].readKeys| > 0 {
      LinkReadsExtend(t, l, pool, a, 0);
    } else {
      MirrorShaped(t, l);
      LinkReadsExtend(MirrorTable(t), MirrorLinks(l), pool, a, 0);
    }
  }

  ghost predicate ErasedSweep(t: Table, s: Sweep) {
    ValidSweep(t, s) && Erased(t, s.links, s.pool)
  }

  lemma {:induction false} StepFills(t: Table, s: Sweep)
    requires ErasedSweep(t, s) && s.pool != []
    ensures var r := Step(t, s);
      && (r.Running? ==> ErasedSweep(t, r.sweep))
      && (r.Done? ==> Shaped(t, r.links) && AllFulfilled(t, r.links))
  {
    var a := s.pool[s.act];
    VisitExtends(t, s.links, s.pool, a);
    var v := Visit(t, s.links, s.pool, a);
    if v.Some? {
      ExtendsErased(t, s.links, v.value, s.pool);
      if Fulfilled(v.value, a) {
        EraseKeeps(t, v.value, s.pool, s.act);
      }
    }
  }

  lemma {:induction false} RunFills(t: Table, s: Sweep, n: nat)
    requires ErasedSweep(t, s)
    ensures Run(t, s, n).Done? ==> AllFulfilled(t, Run(t, s, n).links)
  {
    var p := x => ErasedSweep(t, x);
    var e := (r: Outcome) => r.Done? ==> Shaped(t, r.links) && AllFulfilled(t, r.links);
    forall x | p(x) && x.pool != [] ensures RoundOk(p, e, Step(t, x)) {
      StepFills(t, x);
    }
    RunByInvariant(t, p, e, s, n);
  }

  /** `sanityCheck` on the links that `buildDDG` leaves. */
  predicate SanityCheck(t: Table, l: Links) {
    forall a :: 0 <= a < |t| ==>
      && a < |l.input| && |l.input[a]| == |t[a].readKeys| && Filled(l.input[a])
      && a < |l.output| && |l.output[a]| == |t[a].writeKeys| && Filled(l.output[a])
  }

  /** Whatever was declared, `sanityCheck` never finds anything after `buildDDG` has returned. */
  lemma {:induction false} SanityCheckPasses(t: Table, l: Links)
    requires Returns(t, l)
    ensures SanityCheck(t, l)
  {
    var n: nat :| Run(t, Start(t), n) == Done(l);
    StartInv(t);
    RunFills(t, Start(t), n);
    forall a | 0 <= a < |t|
      ensures |l.input[a]| == |t[a].readKeys| && |l.output[a]| == |t[a].writeKeys| && Fulfilled(l, a)
    {
      assert ReadSide(t)[a] == t[a].readKeys && WriteSide(t)[a] == t[a].writeKeys;
    }
  }

  /** A run that has ended stays ended. */
  lemma {:induction false} RunMore(t: Table, s: Sweep, o: Outcome, n: nat, m: nat)
    requires ValidSweep(t, s) && n <= m && Run(t, s, n) == o && !o.Running?
    ensures Run(t, s, m) == o
    decreases n
  {
    hide Step;
    if s.pool != [] && n > 0 {
      var r := Step(t, s);
      RunOnce(t, s, r, n);
      RunOnce(t, s, r, m);
      if r.Running? {
        RunMore(t, r.sweep, o, n - 1, m - 1);
      }
    }
  }

  // ---------- The order of registration ----------

  /** p and q are inverse renumberings of the items, and u lists the items of t in the order p. */
  ghost predicate Reordered(t: Table, u: Table, p: seq<nat>, q: seq<nat>) {
    && |u| == |t| == |p| == |q|
    && (forall a :: 0 <= a < |t| ==> p[a] < |t| && q[a] < |t| && q[p[a]] == a && p[q[a]] == a)
    && (forall a :: 0 <= a < |t| ==> u[a] == t[p[a]])
  }

  lemma {:induction false} ReorderedBack(t: Table, u: Table, p: seq<nat>, q: seq<nat>)
    requires Reordered(t, u, p, q)
    ensures Reordered(u, t, q, p)
  {
  }

  lemma {:induction false} ReorderedSides(t: Table, u: Table, p: seq<nat>, q: seq<nat>)
    requires Reordered(t, u, p, q) && WellLinked(t)
    ensures WellLinked(u)
  {
    var rs, ws, ru, wu := ReadSide(t), WriteSide(t), ReadSide(u), WriteSide(u);
    assert forall a :: 0 <= a < |u| ==> ru[a] == rs[p[a]] && wu[a] == ws[p[a]];
    SideReordered(rs, ru, p, q);
    SideReordered(ws, wu, p, q);
    CoversReordered(rs, ws, ru, wu, p, q);
    CoversReordered(ws, rs, wu, ru, p, q);
  }

  lemma {:induction false} SideReordered(keys: seq<seq<Key>>, moved: seq<seq<Key>>, p: seq<nat>, q: seq<nat>)
    requires |moved| == |keys| == |p| == |q|
    requires forall a :: 0 <= a < |keys| ==> p[a] < |keys| && q[a] < |keys| && q[p[a]] == a && p[q[a]] == a
    requires forall a :: 0 <= a < |keys| ==> moved[a] == keys[p[a]]
    ensures AtMostOneSlotPerKey(keys) ==> AtMostOneSlotPerKey(moved)
    ensures forall k :: HasSlot(keys, k) ==> HasSlot(moved, k)
  {
    forall k | HasSlot(keys, k) ensures HasSlot(moved, k) {
      var a, i :| 0 <= a < |keys| && 0 <= i < |keys[a]| && keys[a][i] == k;
      assert moved[q[a]] == keys[a] && moved[q[a]][i] == k;
    }
  }

  lemma {:induction false} CoversReordered(from: seq<seq<Key>>, to: seq<seq<Key>>, fromMoved: seq<seq<Key>>, toMoved: seq<seq<Key>>,
                        p: seq<nat>, q: seq<nat>)
    requires |fromMoved| == |toMoved| == |from| == |to| == |p| == |q|
    requires forall a :: 0 <= a < |from| ==> p[a] < |from| && q[a] < |from| && q[p[a]] == a && p[q[a]] == a
    requires forall a :: 0 <= a < |from| ==> fromMoved[a] == from[p[a]] && toMoved[a] == to[p[a]]
    requires Covers(from, to)
    ensures Covers(fromMoved, toMoved)
  {
    SideReordered(to, toMoved, p, q);
    forall a, i | 0 <= a < |fromMoved| && 0 <= i < |fromMoved[a]| ensures HasSlot(toMoved, fromMoved[a][i]) {
      assert HasSlot(to, from[p[a]][i]);
    }
  }

  /** The same links, with every item renumbered by p. */
  ghost predicate Renumbered(moved: seq<seq<int>>, orig: seq<seq<int>>, p: seq<nat>) {
    && |moved| == |orig| == |p|
    && forall a :: 0 <= a < |p| ==>
      && p[a] < |p|
      && |moved[a]| == |orig[p[a]]|
      && forall i :: 0 <= i < |moved[a]| ==> 0 <= moved[a][i] < |p| && p[moved[a][i]] == orig[p[a]][i]
  }

  /** Well-linked declarations are linked however they are ordered, and the links are the same up to renumbering. */
  lemma {:induction false} SameLinksInAnyOrder(t: Table, u: Table, p: seq<nat>, q: seq<nat>, l: Links, m: Links)
    requires Reordered(t, u, p, q) && WellLinked(t) && Returns(t, l) && Returns(u, m)
    ensures WellLinked(u) && Renumbered(m.input, l.input, p) && Renumbered(m.output, l.output, p)
  {
    ReorderedSides(t, u, p, q);
    ReturnsMatched(t, l);
    ReturnsMatched(u, m);
    var rs, ws, ru, wu := ReadSide(t), WriteSide(t), ReadSide(u), WriteSide(u);
    assert forall a :: 0 <= a < |u| ==> ru[a] == rs[p[a]] && wu[a] == ws[p[a]];
    SideSame(rs, ws, l.input, l.output, ru, wu, m.input, m.output, p);
    SideSame(ws, rs, l.output, l.input, wu, ru, m.output, m.input, p);
  }

  lemma {:induction false} ReturnsMatched(t: Table, l: Links)
    requires WellLinked(t) && Returns(t, l)
    ensures Matched(t, l)
  {
    WellLinkedNoRepeat(t);
    var n: nat :| Run(t, Start(t), n) == Done(l);
    DoneIsWellLinked(t, n);
  }

  lemma {:induction false} SideSame(from: seq<seq<Key>>, to: seq<seq<Key>>, fl: seq<seq<int>>, tl: seq<seq<int>>,
                 fromMoved: seq<seq<Key>>, toMoved: seq<seq<Key>>, fm: seq<seq<int>>, tm: seq<seq<int>>, p: seq<nat>)
    requires |from| == |to| == |fromMoved| == |toMoved| == |p|
    requires SideShaped(|from|, from, fl) && SideShaped(|from|, to, tl)
    requires SideShaped(|from|, fromMoved, fm) && SideShaped(|from|, toMoved, tm)
    requires forall a :: 0 <= a < |from| ==> p[a] < |from| && fromMoved[a] == from[p[a]] && toMoved[a] == to[p[a]]
    requires AtMostOneSlotPerKey(to) && SideMatched(from, to, fl, tl) && SideMatched(fromMoved, toMoved, fm, tm)
    ensures Renumbered(fm, fl, p)
  {
    forall a, i | 0 <= a < |from| && 0 <= i < |fromMoved[a]|
      ensures fm[a][i] != NULL && p[fm[a][i]] == fl[p[a]][i]
    {
      assert fm[a][i] != NULL && fl[p[a]][i] != NULL;
      var o :| 0 <= o < |toMoved[fm[a][i]]| && toMoved[fm[a][i]][o] == fromMoved[a][i] && tm[fm[a][i]][o] == a;
      var x :| 0 <= x < |to[fl[p[a]][i]]| && to[fl[p[a]][i]][x] == from[p[a]][i] && tl[fl[p[a]][i]][x] == p[a];
      assert to[p[fm[a][i]]][o] == to[fl[p[a]][i]][x];
    }
  }
}
