/** The profile that `COM_base::call_function` keeps of nested calls (COM/src/COM_base.C): a stack of timers that charges
    every call with its own time. Times are exact numbers. */
module Profiler {

  /** One call: the function called, the clock before it, the calls it makes, and the clock after it. */
  datatype Call = Call(fn: nat, start: real, body: seq<Call>, stop: real)

  function Duration(c: Call): real {
    c.stop - c.start
  }

  /** The time spent in the given calls, one after the other. */
  function Spent(cs: seq<Call>): real {
    if cs == [] then 0.0 else Spent(cs[..|cs| - 1]) + Duration(cs[|cs| - 1])
  }

  /** The columns of the profile. */
  datatype Column = Self | Tree | Count

  /** What one call is worth in a column: its duration less that of the calls it makes, its duration, or one. */
  function Worth(col: Column, c: Call): real {
    match col
    case Self => Duration(c) - Spent(c.body)
    case Tree => Duration(c)
    case Count => 1.0
  }

  /** What call c and all the calls below it add to column col of function f. */
  function Charge(col: Column, f: nat, c: Call): real
    decreases c
  {
    (if c.fn == f then Worth(col, c) else 0.0) + Charges(col, f, c.body)
  }

  function Charges(col: Column, f: nat, cs: seq<Call>): real
    decreases cs
  {
    if cs == [] then 0.0 else Charges(col, f, cs[..|cs| - 1]) + Charge(col, f, cs[|cs| - 1])
  }

  /** The functions called are among 1 to n - 1; handle 0 is not a function. */
  predicate Known(c: Call, n: nat)
    decreases c
  {
    0 < c.fn < n && forall k :: 0 <= k < |c.body| ==> Known(c.body[k], n)
  }

  /** The entry of the timer stack at the given depth; what is not there counts as zero. */
  function TimerAt(timer: seq<real>, d: nat): real {
    if d < |timer| then timer[d] else 0.0
  }

  /** `std::vector::resize(n, 0)`. */
  function Resized(timer: seq<real>, n: nat): (r: seq<real>)
    ensures |r| == n && forall d :: 0 <= d < n ==> r[d] == TimerAt(timer, d)
  {
    seq(n, d requires 0 <= d < n => TimerAt(timer, d))
  }

  class Profile {
    var depth: nat
    var timer: seq<real>
    var wtimesSelf: seq<real>
    var wtimesTree: seq<real>
    var counts: seq<real>

    ghost predicate Valid()
      reads this
    {
      |wtimesSelf| == |wtimesTree| == |counts| > 0 && |timer| <= depth
    }

    function Entry(col: Column, f: nat): real
      requires |wtimesSelf| == |wtimesTree| == |counts| && f < |counts|
      reads this`wtimesSelf, this`wtimesTree, this`counts
    {
      match col
      case Self => wtimesSelf[f]
      case Tree => wtimesTree[f]
      case Count => counts[f]
    }

    /** A profile of n functions in which nothing has been called. */
    constructor (n: nat)
      ensures Valid() && depth == 0 && timer == [] && |counts| == n + 1
      ensures forall col: Column, f: nat :: f <= n ==> Entry(col, f) == 0.0
    {
      depth, timer := 0, [];
      wtimesSelf, wtimesTree, counts := seq(n + 1, _ => 0.0), seq(n + 1, _ => 0.0), seq(n + 1, _ => 0.0);
    }

    /** The accounting after a call of the given length (lines 1917-1930). */
    method Account(fn: nat, sec: real)
      requires |wtimesSelf| == |wtimesTree| == |counts| && 0 < fn < |counts| && |timer| <= depth + 1
      modifies this
      ensures depth == old(depth) && |timer| == depth && |counts| == old(|counts|)
      ensures forall d: nat :: d < depth ==> timer[d] == TimerAt(old(timer), d) + if d == depth - 1 then sec else 0.0
      ensures counts == old(counts)[fn := old(counts[fn]) + 1.0]
      ensures wtimesSelf == old(wtimesSelf)[fn := old(wtimesSelf[fn]) + (sec - TimerAt(old(timer), depth))]
      ensures wtimesTree == old(wtimesTree)
        [0 := old(wtimesTree[0]) + if depth == 0 then sec else 0.0][fn := old(wtimesTree[fn]) + sec]
    {
      counts := counts[fn := counts[fn] + 1.0];
      wtimesTree := wtimesTree[fn := wtimesTree[fn] + sec];
      wtimesSelf := wtimesSelf[fn := wtimesSelf[fn] + sec];
      if |timer| > depth {
        wtimesSelf := wtimesSelf[fn := wtimesSelf[fn] - timer[depth]];
      }
      timer := Resized(timer, depth);
      if depth > 0 {
        timer := timer[depth - 1 := timer[depth - 1] + sec];
      }
      if depth == 0 {
        wtimesTree := wtimesTree[0 := wtimesTree[0] + sec];
      }
    }

    /** One call (lines 1884-1931), the calls inside it included. The profile grows by the worth of all of them,
        the timer stack only by the length of this one, in the entry of the call around it. */
    method Invoke(c: Call)
      requires Valid() && Known(c, |counts|)
      modifies this
      ensures Valid() && depth == old(depth) && |counts| == old(|counts|)
      ensures |timer| == depth
      ensures forall d: nat :: d < depth ==>
        timer[d] == TimerAt(old(timer), d) + if d == depth - 1 then Duration(c) else 0.0
      ensures forall col: Column, f: nat :: 0 < f < |counts| ==> Entry(col, f) == old(Entry(col, f)) + Charge(col, f, c)
      ensures Entry(Self, 0) == old(Entry(Self, 0)) && Entry(Count, 0) == old(Entry(Count, 0))
      ensures Entry(Tree, 0) == old(Entry(Tree, 0)) + if depth == 0 then Duration(c) else 0.0
      decreases c
    {
      var t := c.start;
      depth := depth + 1;
      InvokeAll(c.body, c);
      depth := depth - 1;
      assert forall col: Column :: Entry(col, 0) == old(Entry(col, 0));
      assert TimerAt(timer, depth) == Spent(c.body);
      label Inside:
      Account(c.fn, c.stop - t);
      forall col: Column, f: nat | 0 < f < |counts|
        ensures Entry(col, f) == old@Inside(Entry(col, f)) + if f == c.fn then Worth(col, c) else 0.0
      {
      }
    }

    /** The calls made while another one is running, in order. */
    method InvokeAll(cs: seq<Call>, ghost within: Call)
      requires Valid() && depth > 0 && |timer| < depth && cs == within.body && Known(within, |counts|)
      modifies this
      ensures Valid() && depth == old(depth) && |counts| == old(|counts|)
      ensures forall d: nat :: d < depth ==>
        TimerAt(timer, d) == TimerAt(old(timer), d) + if d == depth - 1 then Spent(cs) else 0.0
      ensures forall col: Column, f: nat :: 0 < f < |counts| ==> Entry(col, f) == old(Entry(col, f)) + Charges(col, f, cs)
      ensures forall col: Column :: Entry(col, 0) == old(Entry(col, 0))
      decreases within, 0
    {
      assert cs[..0] == [] && Spent(cs[..0]) == 0.0;
      for k := 0 to |cs|
        invariant Valid() && depth == old(depth) && |counts| == old(|counts|)
        invariant forall d: nat :: d < depth ==>
          TimerAt(timer, d) == TimerAt(old(timer), d) + if d == depth - 1 then Spent(cs[..k]) else 0.0
        invariant forall col: Column, f: nat :: 0 < f < |counts| ==>
          Entry(col, f) == old(Entry(col, f)) + Charges(col, f, cs[..k])
        invariant forall col: Column :: Entry(col, 0) == old(Entry(col, 0))
      {
        assert cs[..k + 1][..k] == cs[..k];
        Invoke(cs[k]);
      }
      assert cs[..|cs|] == cs;
    }

    /** Any number of calls made from outside any other call. */
    method Session(cs: seq<Call>)
      requires Valid() && depth == 0 && forall k :: 0 <= k < |cs| ==> Known(cs[k], |counts|)
      modifies this
      ensures Valid() && depth == 0 && |counts| == old(|counts|) && timer == []
      ensures forall col: Column, f: nat :: 0 < f < |counts| ==> Entry(col, f) == old(Entry(col, f)) + Charges(col, f, cs)
      ensures Entry(Self, 0) == old(Entry(Self, 0)) && Entry(Tree, 0) == old(Entry(Tree, 0)) + Spent(cs)
    {
      assert cs[..0] == [];
      for k := 0 to |cs|
        invariant Valid() && depth == 0 && |counts| == old(|counts|) && timer == []
        invariant forall col: Column, f: nat :: 0 < f < |counts| ==>
          Entry(col, f) == old(Entry(col, f)) + Charges(col, f, cs[..k])
        invariant Entry(Self, 0) == old(Entry(Self, 0)) && Entry(Tree, 0) == old(Entry(Tree, 0)) + Spent(cs[..k])
      {
        assert cs[..k + 1][..k] == cs[..k];
        Invoke(cs[k]);
      }
      assert cs[..|cs|] == cs;
    }
  }

  // ---------- Conservation ----------

  /** The own times of functions 1 to n - 1 in the given calls. */
  function Total(n: nat, cs: seq<Call>): real {
    if n <= 1 then 0.0 else Total(n - 1, cs) + Charges(Self, n - 1, cs)
  }

  lemma {:induction false} TotalOfNone(n: nat)
    ensures Total(n, []) == 0.0
  {
    if n > 1 {
      TotalOfNone(n - 1);
    }
  }

  lemma {:induction false} TotalOfLast(n: nat, cs: seq<Call>)
    requires cs != []
    ensures var c := cs[|cs| - 1];
      Total(n, cs) == Total(n, cs[..|cs| - 1]) + Total(n, c.body) + if 0 < c.fn < n then Worth(Self, c) else 0.0
  {
    if n > 1 {
      var c := cs[|cs| - 1];
      TotalOfLast(n - 1, cs);
      assert Charges(Self, n - 1, cs) == Charges(Self, n - 1, cs[..|cs| - 1]) + Charge(Self, n - 1, c);
      assert Charge(Self, n - 1, c) == (if c.fn == n - 1 then Worth(Self, c) else 0.0) + Charges(Self, n - 1, c.body);
    }
  }

  /** Whatever was called, the functions' own times add up to the time spent in the outermost calls. */
  lemma {:induction false} OwnTimesAddUp(n: nat, cs: seq<Call>)
    requires forall k :: 0 <= k < |cs| ==> Known(cs[k], n)
    ensures Total(n, cs) == Spent(cs)
    decreases cs
  {
    if cs == [] {
      TotalOfNone(n);
    } else {
      var c := cs[|cs| - 1];
      OwnTimesAddUp(n, cs[..|cs| - 1]);
      OwnTimesAddUp(n, c.body);
      TotalOfLast(n, cs);
    }
  }

  /** The times are those of a clock that never goes back: the calls inside a call follow one another within it. */
  predicate Timed(c: Call)
    decreases c
  {
    && c.start <= c.stop
    && (forall k :: 0 <= k < |c.body| ==> Timed(c.body[k]))
    && InOrder(c.body, c.start, c.stop)
  }

  predicate InOrder(cs: seq<Call>, from: real, to: real) {
    if cs == [] then from <= to
    else cs[|cs| - 1].stop <= to && InOrder(cs[..|cs| - 1], from, cs[|cs| - 1].start)
  }

  lemma {:induction false} SpentFits(cs: seq<Call>, from: real, to: real)
    requires InOrder(cs, from, to)
    ensures Spent(cs) <= to - from
  {
    if cs != [] {
      SpentFits(cs[..|cs| - 1], from, cs[|cs| - 1].start);
    }
  }

  /** Then no function is ever charged a negative time, nor more for itself than for its whole tree. */
  lemma {:induction false} ChargesInBounds(f: nat, cs: seq<Call>)
    requires forall k :: 0 <= k < |cs| ==> Timed(cs[k])
    ensures 0.0 <= Charges(Self, f, cs) <= Charges(Tree, f, cs)
    ensures Spent(cs) >= 0.0
    decreases cs
  {
    if cs != [] {
      var c := cs[|cs| - 1];
      ChargesInBounds(f, cs[..|cs| - 1]);
      ChargesInBounds(f, c.body);
      SpentFits(c.body, c.start, c.stop);
    }
  }

  function Sum(xs: seq<real>): real {
    if xs == [] then 0.0 else Sum(xs[..|xs| - 1]) + xs[|xs| - 1]
  }

  lemma {:induction false} SumIsTotal(xs: seq<real>, cs: seq<Call>)
    requires xs != [] && xs[0] == 0.0 && forall f: nat :: 0 < f < |xs| ==> xs[f] == Charges(Self, f, cs)
    ensures Sum(xs) == Total(|xs|, cs)
    decreases |xs|
  {
    if |xs| == 1 {
      assert xs[..0] == [];
      assert Sum(xs[..0]) == 0.0;
    } else {
      SumIsTotal(xs[..|xs| - 1], cs);
    }
  }

  /** From a new profile, the column of own times always adds up to the entry that holds the total time. */
  method Conserved(n: nat, cs: seq<Call>) returns (p: Profile)
    requires forall k :: 0 <= k < |cs| ==> Known(cs[k], n + 1)
    ensures p.Valid() && p.timer == [] && |p.wtimesSelf| == n + 1
    ensures Sum(p.wtimesSelf) == p.wtimesTree[0] == Spent(cs)
  {
    p := new Profile(n);
    p.Session(cs);
    forall f: nat | 0 < f < |p.wtimesSelf| ensures p.wtimesSelf[f] == Charges(Self, f, cs) {
      assert p.Entry(Self, f) == Charges(Self, f, cs);
    }
    assert p.Entry(Self, 0) == 0.0 && p.Entry(Tree, 0) == Spent(cs);
    SumIsTotal(p.wtimesSelf, cs);
    OwnTimesAddUp(n + 1, cs);
  }
}
