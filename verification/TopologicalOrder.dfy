/** `DDGScheduler::topological_sort` (SIM/src/DDGScheduler.C): which orders it produces and when it fails. */
module TopologicalOrder {
  import opened Common

  /** What the sort looks at: the action of each item, and the item that feeds each read slot. */
  datatype Graph = Graph(action: seq<nat>, input: seq<seq<nat>>)

  ghost predicate Valid(g: Graph) {
    && |g.action| == |g.input|
    && forall x, i :: 0 <= x < |g.input| && 0 <= i < |g.input[x]| ==> g.input[x][i] < |g.input|
  }

  /** The feeding items are found in the sorted list by comparing actions, not items. */
  predicate Found(g: Graph, sorted: seq<nat>, y: nat)
    requires y < |g.action| && forall s :: 0 <= s < |sorted| ==> sorted[s] < |g.action|
  {
    exists s :: 0 <= s < |sorted| && g.action[sorted[s]] == g.action[y]
  }

  ghost predicate InRange(g: Graph, items: seq<nat>) {
    forall s :: 0 <= s < |items| ==> items[s] < |g.input|
  }

  predicate Ready(g: Graph, sorted: seq<nat>, x: nat)
    requires Valid(g) && InRange(g, sorted) && x < |g.input|
  {
    forall i :: 0 <= i < |g.input[x]| ==> Found(g, sorted, g.input[x][i])
  }

  /** The first pool position, from p on, whose item is ready; |pool| if there is none. */
  function FirstReady(g: Graph, pool: seq<nat>, sorted: seq<nat>, p: nat): (r: nat)
    requires Valid(g) && InRange(g, pool) && InRange(g, sorted) && p <= |pool|
    ensures p <= r <= |pool|
    ensures r < |pool| ==> Ready(g, sorted, pool[r])
    ensures forall q :: p <= q < r ==> !Ready(g, sorted, pool[q])
    decreases |pool| - p
  {
    if p == |pool| || Ready(g, sorted, pool[p]) then p else FirstReady(g, pool, sorted, p + 1)
  }

  /** The outer loop: the final `sort`, which is complete exactly when the pool ran empty. */
  function SortFrom(g: Graph, pool: seq<nat>, sorted: seq<nat>): (r: seq<nat>)
    requires Valid(g) && InRange(g, pool) && InRange(g, sorted)
    ensures |sorted| <= |r| <= |sorted| + |pool|
    decreases |pool|
  {
    var p := FirstReady(g, pool, sorted, 0);
    if p == |pool| then sorted else SortFrom(g, Erase(pool, p), sorted + [pool[p]])
  }

  function Sort(g: Graph): (r: seq<nat>)
    requires Valid(g)
    ensures |r| <= |g.input|
  {
    SortFrom(g, Positions(|g.input|), [])
  }

  ghost predicate Complete(g: Graph)
    requires Valid(g)
  {
    |Sort(g)| == |g.input|
  }

  // ---------- Orders and cycles ----------

  /** An item that feeds another is the only item of its action. */
  ghost predicate FeedersUnique(g: Graph)
    requires Valid(g)
  {
    forall x, i, y | 0 <= x < |g.input| && 0 <= i < |g.input[x]| && 0 <= y < |g.input| ::
      g.action[y] == g.action[g.input[x][i]] ==> y == g.input[x][i]
  }

  /** Every item once, and after everything that feeds it. */
  ghost predicate IsOrder(g: Graph, order: seq<nat>)
    requires Valid(g)
  {
    && |order| == |g.input| && InRange(g, order) && Distinct(order)
    && forall k :: 0 <= k < |order| ==> FedBy(g, order[..k], order[k])
  }

  ghost predicate FedBy(g: Graph, before: seq<nat>, x: nat)
    requires Valid(g) && x < |g.input|
  {
    forall i :: 0 <= i < |g.input[x]| ==> g.input[x][i] in before
  }

  /** A closed walk along input links. */
  ghost predicate IsCycle(g: Graph, c: seq<nat>)
    requires Valid(g)
  {
    && |c| >= 2 && InRange(g, c) && c[0] == c[|c| - 1]
    && forall j :: 0 <= j < |c| - 1 ==> c[j + 1] in g.input[c[j]]
  }

  ghost predicate Acyclic(g: Graph)
    requires Valid(g)
  {
    forall c :: !IsCycle(g, c)
  }

  lemma {:induction false} ReadyIsFed(g: Graph, sorted: seq<nat>, x: nat)
    requires Valid(g) && FeedersUnique(g) && InRange(g, sorted) && x < |g.input|
    ensures Ready(g, sorted, x) <==> FedBy(g, sorted, x)
  {
    forall i | 0 <= i < |g.input[x]|
      ensures Found(g, sorted, g.input[x][i]) <==> g.input[x][i] in sorted
    {
    }
  }

  // ---------- The loop invariant ----------

  /** Pool and sorted list split the items; the pool keeps insertion order; every sorted item was,
      when it was taken, fed, and the first item in insertion order that was. */
  ghost predicate Progress(g: Graph, pool: seq<nat>, sorted: seq<nat>) {
    && Valid(g) && InRange(g, pool) && InRange(g, sorted) && Distinct(sorted)
    && |pool| + |sorted| == |g.input|
    && (forall p, q :: 0 <= p < q < |pool| ==> pool[p] < pool[q])
    && (forall x: nat :: x < |g.input| ==> (x in pool <==> x !in sorted))
    && (forall k :: 0 <= k < |sorted| ==> FedBy(g, sorted[..k], sorted[k]))
    && (forall k, x: nat :: 0 <= k < |sorted| && x < sorted[k] && FedBy(g, sorted[..k], x) ==> x in sorted[..k])
  }

  lemma {:induction false} TakeSplits(g: Graph, pool: seq<nat>, sorted: seq<nat>, p: nat)
    requires Progress(g, pool, sorted) && p < |pool|
    ensures Distinct(sorted + [pool[p]])
    ensures forall x: nat :: x < |g.input| ==> (x in Erase(pool, p) <==> x !in sorted + [pool[p]])
  {
    var rest := Erase(pool, p);
    assert pool == pool[..p] + [pool[p]] + pool[p + 1..];
    assert pool[p] in pool;
    assert forall x :: x in pool <==> x in rest || x == pool[p];
    assert pool[p] !in rest;
  }

  lemma {:induction false} TakeFed(g: Graph, sorted: seq<nat>, next: nat)
    requires Valid(g) && InRange(g, sorted) && next < |g.input| && FedBy(g, sorted, next)
    requires forall k :: 0 <= k < |sorted| ==> FedBy(g, sorted[..k], sorted[k])
    ensures forall k :: 0 <= k < |sorted| + 1 ==> FedBy(g, (sorted + [next])[..k], (sorted + [next])[k])
  {
    var more := sorted + [next];
    forall k | 0 <= k < |more| ensures FedBy(g, more[..k], more[k]) {
      assert more[..k] == sorted[..k];
    }
  }

  lemma {:induction false} TakeFirst(g: Graph, pool: seq<nat>, sorted: seq<nat>, p: nat, k: nat, x: nat)
    requires Progress(g, pool, sorted) && FeedersUnique(g)
    requires p == FirstReady(g, pool, sorted, 0) < |pool| && k <= |sorted|
    requires x < (sorted + [pool[p]])[k] && FedBy(g, sorted[..k], x)
    ensures x in sorted[..k]
  {
    if k == |sorted| {
      assert sorted[..k] == sorted;
      ReadyIsFed(g, sorted, x);
      assert forall q :: p <= q < |pool| ==> pool[p] <= pool[q];
      assert x !in pool;
    }
  }

  lemma {:induction false} TakeNext(g: Graph, pool: seq<nat>, sorted: seq<nat>)
    requires Progress(g, pool, sorted) && FeedersUnique(g)
    requires FirstReady(g, pool, sorted, 0) < |pool|
    ensures var p := FirstReady(g, pool, sorted, 0); Progress(g, Erase(pool, p), sorted + [pool[p]])
  {
    var p := FirstReady(g, pool, sorted, 0);
    var more := sorted + [pool[p]];
    TakeSplits(g, pool, sorted, p);
    ReadyIsFed(g, sorted, pool[p]);
    TakeFed(g, sorted, pool[p]);
    forall k, x: nat | 0 <= k < |more| && x < more[k] && FedBy(g, more[..k], x)
      ensures x in more[..k]
    {
      assert more[..k] == sorted[..k];
      TakeFirst(g, pool, sorted, p, k, x);
    }
  }

  lemma {:induction false} SortKeeps(g: Graph, pool: seq<nat>, sorted: seq<nat>) returns (rest: seq<nat>)
    requires Progress(g, pool, sorted) && FeedersUnique(g)
    ensures Progress(g, rest, SortFrom(g, pool, sorted))
    ensures forall x: nat :: x < |g.input| && x in rest ==> !FedBy(g, SortFrom(g, pool, sorted), x)
    decreases |pool|
  {
    var p := FirstReady(g, pool, sorted, 0);
    if p == |pool| {
      rest := pool;
      forall x: nat | x < |g.input| && x in rest ensures !FedBy(g, sorted, x) {
        ReadyIsFed(g, sorted, x);
      }
    } else {
      TakeNext(g, pool, sorted);
      rest := SortKeeps(g, Erase(pool, p), sorted + [pool[p]]);
    }
  }

  lemma {:induction false} SortProgress(g: Graph) returns (rest: seq<nat>)
    requires Valid(g) && FeedersUnique(g)
    ensures Progress(g, rest, Sort(g))
    ensures forall x: nat :: x < |g.input| && x in rest ==> !FedBy(g, Sort(g), x)
  {
    forall x: nat | x < |g.input| ensures x in Positions(|g.input|) {
      assert Positions(|g.input|)[x] == x;
    }
    rest := SortKeeps(g, Positions(|g.input|), []);
  }

  // ---------- A stuck pool contains a cycle ----------

  ghost predicate IsWalk(g: Graph, w: seq<nat>)
    requires Valid(g)
  {
    InRange(g, w) && forall j :: 0 <= j < |w| - 1 ==> w[j + 1] in g.input[w[j]]
  }

  /** Everyone in the pool waits for a pool member. */
  ghost predicate AllWait(g: Graph, pool: seq<nat>)
    requires Valid(g)
  {
    forall x: nat :: x < |g.input| && x in pool ==> exists i :: 0 <= i < |g.input[x]| && g.input[x][i] in pool
  }

  /** A walk of m steps that never leaves the pool. */
  lemma {:induction false} WalkInPool(g: Graph, pool: seq<nat>, m: nat) returns (w: seq<nat>)
    requires Valid(g) && pool != [] && InRange(g, pool) && AllWait(g, pool)
    ensures |w| == m + 1 && IsWalk(g, w) && w[m] in pool
  {
    if m == 0 {
      w := [pool[0]];
    } else {
      var v := WalkInPool(g, pool, m - 1);
      var i :| 0 <= i < |g.input[v[m - 1]]| && g.input[v[m - 1]][i] in pool;
      w := v + [g.input[v[m - 1]][i]];
    }
  }

  lemma {:induction false} StuckWaits(g: Graph, pool: seq<nat>, sorted: seq<nat>)
    requires Progress(g, pool, sorted)
    requires forall x: nat :: x < |g.input| && x in pool ==> !FedBy(g, sorted, x)
    ensures AllWait(g, pool)
  {
    forall x: nat | x < |g.input| && x in pool
      ensures exists i :: 0 <= i < |g.input[x]| && g.input[x][i] in pool
    {
      var i :| 0 <= i < |g.input[x]| && g.input[x][i] !in sorted;
      assert g.input[x][i] in pool;
    }
  }

  lemma {:induction false} Repeats(w: seq<nat>, n: nat) returns (j: nat, k: nat)
    requires |w| > n && forall x :: 0 <= x < |w| ==> w[x] < n
    ensures j < k < |w| && w[j] == w[k]
  {
    if Distinct(w) {
      Pigeonhole(w, n);
    }
    j, k :| 0 <= j < k < |w| && w[j] == w[k];
  }

  lemma {:induction false} LoopIsCycle(g: Graph, w: seq<nat>, j: nat, k: nat)
    requires Valid(g) && IsWalk(g, w) && j < k < |w| && w[j] == w[k]
    ensures IsCycle(g, w[j..k + 1])
  {
    var c := w[j..k + 1];
    forall x | 0 <= x < |c| - 1 ensures c[x + 1] in g.input[c[x]] {
      assert w[j + x + 1] in g.input[w[j + x]];
    }
  }

  lemma {:induction false} StuckHasCycle(g: Graph, pool: seq<nat>, sorted: seq<nat>) returns (c: seq<nat>)
    requires Progress(g, pool, sorted) && pool != []
    requires forall x: nat :: x < |g.input| && x in pool ==> !FedBy(g, sorted, x)
    ensures IsCycle(g, c)
  {
    StuckWaits(g, pool, sorted);
    var w := WalkInPool(g, pool, |g.input|);
    var j, k := Repeats(w, |g.input|);
    LoopIsCycle(g, w, j, k);
    c := w[j..k + 1];
  }

  // ---------- An order excludes cycles ----------

  lemma {:induction false} WalkGoesBack(g: Graph, order: seq<nat>, c: seq<nat>, k: nat, j: nat) returns (r: nat)
    requires Valid(g) && IsOrder(g, order) && IsCycle(g, c)
    requires k < |order| && order[k] == c[0] && j < |c|
    ensures r < |order| && order[r] == c[j] && r + j <= k
  {
    if j == 0 {
      r := k;
    } else {
      var s := WalkGoesBack(g, order, c, k, j - 1);
      assert FedBy(g, order[..s], order[s]);
      assert c[j - 1 + 1] in g.input[c[j - 1]];
      r :| 0 <= r < s && order[..s][r] == c[j];
    }
  }

  lemma {:induction false} OrderExcludesCycles(g: Graph, order: seq<nat>)
    requires Valid(g) && IsOrder(g, order)
    ensures Acyclic(g)
  {
    forall c ensures !IsCycle(g, c) {
      if IsCycle(g, c) {
        Saturated(order, c[0]);
        var k :| 0 <= k < |order| && order[k] == c[0];
        var r := WalkGoesBack(g, order, c, k, |c| - 1);
        assert false;
      }
    }
  }

  // ---------- Main results ----------

  /** The sort succeeds exactly when the input links contain no cycle, and then it is a topological order. */
  lemma {:induction false} SortExact(g: Graph)
    requires Valid(g) && FeedersUnique(g)
    ensures Complete(g) <==> Acyclic(g)
    ensures Complete(g) ==> IsOrder(g, Sort(g))
  {
    var rest := SortProgress(g);
    if rest == [] {
      OrderExcludesCycles(g, Sort(g));
    } else {
      var c := StuckHasCycle(g, rest, Sort(g));
    }
  }

  /** s comes before or is o, in the dictionary order of insertion indices. */
  ghost predicate NoLater(s: seq<nat>, o: seq<nat>) {
    s == o || exists k :: 0 <= k < |s| && k < |o| && s[..k] == o[..k] && s[k] < o[k]
  }

  /** The sort is the first of all topological orders in the dictionary order of insertion indices. */
  lemma {:induction false} SortIsFirstOrder(g: Graph, order: seq<nat>)
    requires Valid(g) && FeedersUnique(g) && IsOrder(g, order)
    ensures NoLater(Sort(g), order)
  {
    OrderExcludesCycles(g, order);
    SortExact(g);
    var rest := SortProgress(g);
    FirstDifference(g, rest, Sort(g), order, 0);
  }

  lemma {:induction false} FirstDifference(g: Graph, rest: seq<nat>, s: seq<nat>, order: seq<nat>, k: nat)
    requires Progress(g, rest, s) && IsOrder(g, order) && |s| == |order|
    requires k <= |s| && s[..k] == order[..k]
    ensures NoLater(s, order)
    decreases |s| - k
  {
    if k == |s| {
      assert s[..k] == s && order[..k] == order;
    } else if s[k] == order[k] {
      assert s[..k + 1] == s[..k] + [s[k]] && order[..k + 1] == order[..k] + [order[k]];
      FirstDifference(g, rest, s, order, k + 1);
    } else {
      assert FedBy(g, s[..k], order[k]);
      assert order[k] !in order[..k];
      assert s[k] < order[k];
    }
  }
}
