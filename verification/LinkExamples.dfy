/** Declarations on which `buildDDG` does not do what its documentation says. */
module LinkExamples {
  import opened Actions
  import opened Common
  import opened DataDependency
  import opened LinkTheorems

  /** Two readers of k, and between them an action that declares k twice as output. */
  function Between(k: Key): (t: Table)
    ensures |t| == 3
  {
    [Item(0, [k], []), Item(1, [], [k, k]), Item(2, [k], [])]
  }

  /** The same three actions with the writer added last. */
  function WriterLast(k: Key): (t: Table)
    ensures |t| == 3
  {
    [Item(0, [k], []), Item(2, [k], []), Item(1, [], [k, k])]
  }

  lemma {:induction false} Three(s: seq<seq<int>>, a: seq<int>, b: seq<int>, c: seq<int>)
    requires |s| == 3 && s[0] == a && s[1] == b && s[2] == c
    ensures s == [a, b, c]
  {
  }

  lemma {:induction false} BetweenVisit(k: Key, l: Links)
    requires l == Links([[-1], [], [-1]], [[], [-1, -1], []])
    ensures Visit(Between(k), l, [0, 1, 2], 0) == Some(Links([[1], [], [-1]], [[], [0, -1], []]))
  {
    var t, l1 := Between(k), Links([[1], [], [-1]], [[], [0, -1], []]);
    assert FirstIndex([k, k], k) == 0;
    assert OnlyWriter(t, [0, 1, 2], k, 0, 1);
    ScanOnly(t, l, [0, 1, 2], 0, 0, 0, 1);
    Three(Join(l, 0, 0, 1, 0).input, [1], [], [-1]);
    Three(Join(l, 0, 0, 1, 0).output, [], [0, -1], []);
    assert LinkReads(t, l, [0, 1, 2], 0, 0) == LinkReads(t, l1, [0, 1, 2], 0, 1) == Some(l1);
  }

  lemma {:induction false} BetweenFirst(k: Key)
    ensures Step(Between(k), Start(Between(k))) == Running(Sweep(Links([[1], [], [-1]], [[], [0, -1], []]), [1, 2], 0))
  {
    var s0 := Start(Between(k));
    assert s0.pool == [0, 1, 2];
    Three(s0.links.input, [-1], [], [-1]);
    Three(s0.links.output, [], [-1, -1], []);
    BetweenVisit(k, s0.links);
    assert Erase([0, 1, 2], 0) == [1, 2];
  }

  lemma {:induction false} BetweenWrites(k: Key, l: Links)
    requires l == Links([[1], [], [-1]], [[], [0, -1], []])
    ensures Visit(Between(k), l, [1, 2], 1) == Some(Links([[1], [], [1]], [[], [0, 2], []]))
  {
    var t := Between(k);
    var m, ml, pool := MirrorTable(t), MirrorLinks(l), [1, 2];
    MirrorShaped(t, l);
    assert m[0] == Item(0, [], [k]) && m[1] == Item(1, [k, k], []) && m[2] == Item(2, [], [k]);
    assert FirstIndex([k], k) == 0;
    assert OnlyWriter(m, pool, k, 0, 1);
    ScanOnly(m, ml, pool, 1, 1, 0, 1);
    var done := Links([[], [0, 2], []], [[1], [], [1]]);
    Three(Join(ml, 1, 1, 2, 0).input, [], [0, 2], []);
    Three(Join(ml, 1, 1, 2, 0).output, [1], [], [1]);
    assert LinkReads(m, ml, pool, 1, 0) == LinkReads(m, ml, pool, 1, 1) == LinkReads(m, done, pool, 1, 2) == Some(done);
  }

  lemma {:induction false} BetweenSecond(k: Key)
    ensures Step(Between(k), Sweep(Links([[1], [], [-1]], [[], [0, -1], []]), [1, 2], 0))
         == Running(Sweep(Links([[1], [], [1]], [[], [0, 2], []]), [2], 0))
  {
    hide Visit;
    BetweenWrites(k, Links([[1], [], [-1]], [[], [0, -1], []]));
    assert Erase([1, 2], 0) == [2];
  }

  lemma {:induction false} BetweenThird(k: Key)
    ensures Step(Between(k), Sweep(Links([[1], [], [1]], [[], [0, 2], []]), [2], 0))
         == Done(Links([[1], [], [1]], [[], [0, 2], []]))
  {
    var t, l := Between(k), Links([[1], [], [1]], [[], [0, 2], []]);
    assert LinkReads(t, l, [2], 2, 0) == LinkReads(t, l, [2], 2, 1) == Some(l);
  }

  lemma {:induction false} BetweenReturns(k: Key)
    ensures Returns(Between(k), Links([[1], [], [1]], [[], [0, 2], []]))
  {
    hide Step;
    var t := Between(k);
    BetweenFirst(k);
    BetweenSecond(k);
    BetweenThird(k);
    var s1 := Step(t, Start(t)).sweep;
    var s2 := Step(t, s1).sweep;
    RunOnce(t, Start(t), Running(s1), 3);
    RunOnce(t, s1, Running(s2), 2);
    RunOnce(t, s2, Step(t, s2), 1);
  }

  lemma {:induction false} WriterLastVisit(k: Key, l: Links)
    requires l == Links([[-1], [-1], []], [[], [], [-1, -1]])
    ensures Visit(WriterLast(k), l, [0, 1, 2], 0) == Some(Links([[2], [-1], []], [[], [], [0, -1]]))
  {
    var t, l1 := WriterLast(k), Links([[2], [-1], []], [[], [], [0, -1]]);
    assert FirstIndex([k, k], k) == 0;
    assert OnlyWriter(t, [0, 1, 2], k, 0, 2);
    ScanOnly(t, l, [0, 1, 2], 0, 0, 0, 2);
    Three(Join(l, 0, 0, 2, 0).input, [2], [-1], []);
    Three(Join(l, 0, 0, 2, 0).output, [], [], [0, -1]);
    assert LinkReads(t, l, [0, 1, 2], 0, 0) == LinkReads(t, l1, [0, 1, 2], 0, 1) == Some(l1);
  }

  lemma {:induction false} WriterLastFirst(k: Key)
    ensures Step(WriterLast(k), Start(WriterLast(k)))
         == Running(Sweep(Links([[2], [-1], []], [[], [], [0, -1]]), [1, 2], 0))
  {
    var s0 := Start(WriterLast(k));
    assert s0.pool == [0, 1, 2];
    Three(s0.links.input, [-1], [-1], []);
    Three(s0.links.output, [], [], [-1, -1]);
    WriterLastVisit(k, s0.links);
    assert Erase([0, 1, 2], 0) == [1, 2];
  }

  lemma {:induction false} WriterLastSecond(k: Key)
    ensures Step(WriterLast(k), Sweep(Links([[2], [-1], []], [[], [], [0, -1]]), [1, 2], 0)) == Aborted
  {
    var t, l := WriterLast(k), Links([[2], [-1], []], [[], [], [0, -1]]);
    assert FirstIndex([k, k], k) == 0;
    assert OnlyWriter(t, [1, 2], k, 0, 1);
    ScanOnly(t, l, [1, 2], 1, 0, 0, 1);
    assert LinkReads(t, l, [1, 2], 1, 0) == None;
  }

  lemma {:induction false} WriterLastAborts(k: Key, n: nat)
    requires n >= 2
    ensures Run(WriterLast(k), Start(WriterLast(k)), n) == Aborted
  {
    WriterLastFirst(k);
    WriterLastSecond(k);
  }

  lemma {:induction false} WriterLastNever(k: Key, l: Links)
    ensures !Returns(WriterLast(k), l)
  {
    forall n: nat ensures Run(WriterLast(k), Start(WriterLast(k)), n) != Done(l) {
      WriterLastAborts(k, n + 2);
      var r := Run(WriterLast(k), Start(WriterLast(k)), n);
      if !r.Running? {
        RunMore(WriterLast(k), Start(WriterLast(k)), r, n, n + 2);
      }
    }
  }

  /** Adding actions in another order can turn a successful build into an abort.
      The declarations break NoRepeat, without which BuildExact promises nothing. */
  lemma {:induction false} OrderMatters(k: Key)
    ensures Reordered(Between(k), WriterLast(k), [0, 2, 1], [0, 2, 1]) && !NoRepeat(Between(k))
    ensures exists l :: Returns(Between(k), l)
    ensures forall l :: !Returns(WriterLast(k), l)
  {
    BetweenReturns(k);
    assert !Distinct(Between(k)[1].writeKeys) by {
      assert Between(k)[1].writeKeys[0] == Between(k)[1].writeKeys[1];
    }
    forall l ensures !Returns(WriterLast(k), l) {
      WriterLastNever(k, l);
    }
  }

  /** A source of x, and an action that reads x and writes y, which nobody reads:
      `buildDDG` goes round for ever instead of reporting the dangling output. */
  lemma {:induction false} DanglingOutputHangs(x: Key, y: Key, n: nat)
    requires x != y
    ensures Run([Item(0, [], [x]), Item(1, [x], [y])], Start([Item(0, [], [x]), Item(1, [x], [y])]), n).Running?
  {
    var t := [Item(0, [], [x]), Item(1, [x], [y])];
    var rs, ws := ReadSide(t), WriteSide(t);
    assert rs == [[], [x]] && ws == [[x], [y]];
    assert ws[0][0] == x && rs[1][0] == x;
    assert !HasSlot(rs, ws[1][0]);
    UnreadWriteHangs(t, n);
  }
}
