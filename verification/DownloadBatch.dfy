/**
  `download_all_concurrent` (`download/manager.rs`) as a step system: tasks are spawned in input order
  as permits come free, finish in any order, and are joined in the order in which they finished.
  */
module DownloadBatch {
  import opened Words

  /**
    `next` tasks have been spawned, those in `running` hold a permit, `finished` lists the others in the
    order in which they ended, and the first `joined` of these have been collected.
    */
  datatype Batch = Batch(next: nat, running: set<nat>, finished: seq<nat>, joined: nat)

  const START := Batch(0, {}, [], 0)

  datatype Action = Spawn | Finish(i: nat) | Join

  /** How many downloads may be in flight. */
  function Limit(maxBatch: nat): nat { Max(maxBatch, 1) }

  predicate Enabled(n: nat, limit: nat, b: Batch, a: Action) {
    match a
    case Spawn => b.next < n && |b.running| < limit
    case Finish(i) => i in b.running
    case Join => b.next == n && b.joined < |b.finished|
  }

  function Apply(b: Batch, a: Action): Batch {
    match a
    case Spawn => b.(next := b.next + 1, running := b.running + {b.next})
    case Finish(i) => b.(running := b.running - {i}, finished := b.finished + [i])
    case Join => b.(joined := b.joined + 1)
  }

  predicate Next(n: nat, limit: nat, b: Batch, a: Action, b': Batch) {
    Enabled(n, limit, b, a) && b' == Apply(b, a)
  }

  ghost predicate IsRun(n: nat, limit: nat, bs: seq<Batch>, actions: seq<Action>) {
    && |bs| == |actions| + 1
    && forall k | 0 <= k < |actions| :: Next(n, limit, bs[k], actions[k], bs[k + 1])
  }

  lemma NextInRun(n: nat, limit: nat, bs: seq<Batch>, actions: seq<Action>, k: nat)
    requires IsRun(n, limit, bs, actions) && k < |actions|
    ensures Next(n, limit, bs[k], actions[k], bs[k + 1])
  {
  }

  lemma StepThenRun(n: nat, limit: nat, b: Batch, a: Action, bs: seq<Batch>, actions: seq<Action>)
    requires IsRun(n, limit, bs, actions) && Next(n, limit, b, a, bs[0])
    ensures IsRun(n, limit, [b] + bs, [a] + actions)
  {
    var bs', actions' := [b] + bs, [a] + actions;
    forall k | 0 <= k < |actions'| ensures Next(n, limit, bs'[k], actions'[k], bs'[k + 1]) {
      if k > 0 { NextInRun(n, limit, bs, actions, k - 1); }
    }
  }

  // ---------- what every step keeps ----------

  /** Each spawned task is running or finished, not both, and finished once. */
  ghost predicate Tracked(n: nat, limit: nat, b: Batch) {
    && b.next <= n && |b.running| <= limit && b.joined <= |b.finished|
    && (forall i | i in b.running :: i < b.next && i !in b.finished)
    && (forall k | 0 <= k < |b.finished| :: b.finished[k] < b.next)
    && (forall i: nat | i < b.next :: i in b.running || i in b.finished)
    && (forall j, k | 0 <= j < k < |b.finished| :: b.finished[j] != b.finished[k])
  }

  lemma StepKeeps(n: nat, limit: nat, b: Batch, a: Action)
    requires Tracked(n, limit, b) && Enabled(n, limit, b, a)
    ensures Tracked(n, limit, Apply(b, a))
  {
    match a
    case Spawn =>
    case Finish(i) =>
      var b' := Apply(b, a);
      assert b'.finished[|b.finished|] == i;
      forall j: nat | j < b'.next ensures j in b'.running || j in b'.finished {
        if j !in b.running { assert j in b.finished; }
      }
    case Join =>
  }

  lemma {:induction false} RunsKeep(n: nat, limit: nat, bs: seq<Batch>, actions: seq<Action>, k: nat)
    requires IsRun(n, limit, bs, actions) && Tracked(n, limit, bs[0]) && k < |bs|
    ensures Tracked(n, limit, bs[k])
  {
    if k > 0 {
      RunsKeep(n, limit, bs, actions, k - 1);
      NextInRun(n, limit, bs, actions, k - 1);
      StepKeeps(n, limit, bs[k - 1], actions[k - 1]);
    }
  }

  /** A run of the whole batch: every task spawned, ended and joined. */
  ghost predicate IsComplete(n: nat, limit: nat, bs: seq<Batch>, actions: seq<Action>) {
    && IsRun(n, limit, bs, actions) && bs[0] == START && AllJoined(n, bs[|actions|])
  }

  predicate AllJoined(n: nat, b: Batch) {
    b.next == n && b.running == {} && b.joined == |b.finished|
  }

  /** The order in which the tasks of a complete run ended. */
  function Order(bs: seq<Batch>): seq<nat>
    requires bs != []
  {
    bs[|bs| - 1].finished
  }

  /** Every index below `n`, exactly once. */
  ghost predicate Permutes(n: nat, order: seq<nat>) {
    && |order| == n
    && (forall k | 0 <= k < n :: order[k] < n)
    && (forall i: nat | i < n :: i in order)
    && (forall j, k | 0 <= j < k < n :: order[j] != order[k])
  }

  lemma {:induction false} DistinctBelow(n: nat, s: seq<nat>)
    requires forall k | 0 <= k < |s| :: s[k] < n
    requires forall i: nat | i < n :: i in s
    requires forall j, k | 0 <= j < k < |s| :: s[j] != s[k]
    ensures |s| == n
  {
    if n > 0 {
      var last: nat := n - 1;
      assert last in s;
      var at :| 0 <= at < |s| && s[at] == n - 1;
      var rest := s[..at] + s[at + 1..];
      forall i: nat | i < n - 1 ensures i in rest {
        assert i in s;
        var k :| 0 <= k < |s| && s[k] == i;
        assert rest[if k < at then k else k - 1] == i;
      }
      DistinctBelow(n - 1, rest);
    }
  }

  /** In every run at most `limit` downloads are in flight, and a complete one has ended each task once. */
  lemma EachTaskEndsOnce(n: nat, limit: nat, bs: seq<Batch>, actions: seq<Action>)
    requires IsComplete(n, limit, bs, actions)
    ensures forall k | 0 <= k < |bs| :: |bs[k].running| <= limit
    ensures Permutes(n, Order(bs))
  {
    forall k | 0 <= k < |bs| ensures Tracked(n, limit, bs[k]) { RunsKeep(n, limit, bs, actions, k); }
    DistinctBelow(n, bs[|actions|].finished);
  }

  // ---------- the list of results ----------

  /** What has been collected: the results of the joined tasks, as they were joined. */
  function Collected<R>(results: seq<R>, b: Batch): (out: seq<R>)
    requires b.joined <= |b.finished| && forall k | 0 <= k < b.joined :: b.finished[k] < |results|
  {
    seq(b.joined, k requires 0 <= k < b.joined => results[b.finished[k]])
  }

  /** The list returned is the results in the order in which the tasks ended: none lost, none doubled. */
  lemma ResultsArePermuted<R>(n: nat, limit: nat, bs: seq<Batch>, actions: seq<Action>, results: seq<R>)
    requires IsComplete(n, limit, bs, actions) && |results| == n
    ensures var b := bs[|actions|];
      && Permutes(n, b.finished) && b.joined == n
      && |Collected(results, b)| == n && forall k | 0 <= k < n :: Collected(results, b)[k] == results[b.finished[k]]
  {
    EachTaskEndsOnce(n, limit, bs, actions);
  }

  predicate InOrder(order: seq<nat>) {
    forall k | 0 <= k < |order| :: order[k] == k
  }

  /** The list is the results in input order, whatever the results are. */
  ghost predicate KeepsOrder<R(!new)>(n: nat, b: Batch)
    requires b.joined == |b.finished| == n && forall k | 0 <= k < n :: b.finished[k] < n
  {
    forall results: seq<R> | |results| == n :: Collected(results, b) == results
  }

  /** That is so exactly when the tasks ended in the order in which they were spawned. */
  lemma OrderKeptExactly<R(!new)>(n: nat, b: Batch, r: R, r': R)
    requires r != r' && b.joined == |b.finished| == n && forall k | 0 <= k < n :: b.finished[k] < n
    ensures KeepsOrder<R>(n, b) <==> InOrder(b.finished)
  {
    if !InOrder(b.finished) {
      var k :| 0 <= k < n && b.finished[k] != k;
      var results := seq(n, i => if i == k then r else r');
      assert Collected(results, b)[k] == r' && results[k] == r;
      assert Collected(results, b) != results;
    }
  }

  // ---------- one permit keeps the order ----------

  /** With one permit the tasks run one after the other. */
  ghost predicate OneByOne(b: Batch) {
    InOrder(b.finished) && b.next == |b.finished| + |b.running| && forall i | i in b.running :: i == |b.finished|
  }

  lemma OneByOneStep(n: nat, b: Batch, a: Action)
    requires OneByOne(b) && Enabled(n, 1, b, a)
    ensures OneByOne(Apply(b, a))
  {
    match a
    case Spawn => assert b.running == {};
    case Finish(i) => assert b.running - {i} == {} by { assert b.running == {i}; }
    case Join =>
  }

  lemma {:induction false} RunsOneByOne(n: nat, bs: seq<Batch>, actions: seq<Action>, k: nat)
    requires IsRun(n, 1, bs, actions) && bs[0] == START && k < |bs|
    ensures OneByOne(bs[k])
  {
    if k > 0 {
      RunsOneByOne(n, bs, actions, k - 1);
      NextInRun(n, 1, bs, actions, k - 1);
      OneByOneStep(n, bs[k - 1], actions[k - 1]);
    }
  }

  // ---------- two permits do not ----------

  lemma {:induction false} CanComplete(n: nat, limit: nat, b: Batch) returns (bs: seq<Batch>, actions: seq<Action>)
    requires limit > 0 && Tracked(n, limit, b) && (b.joined > 0 ==> b.next == n)
    ensures IsRun(n, limit, bs, actions) && bs[0] == b && AllJoined(n, bs[|actions|])
    ensures b.finished <= bs[|actions|].finished
    decreases n - b.next, |b.running|, |b.finished| - b.joined
  {
    if AllJoined(n, b) {
      bs, actions := [b], [];
    } else {
      var a := SomeStep(n, limit, b);
      StepKeeps(n, limit, b, a);
      bs, actions := CanComplete(n, limit, Apply(b, a));
      StepThenRun(n, limit, b, a, bs, actions);
      bs, actions := [b] + bs, [a] + actions;
    }
  }

  lemma SomeStep(n: nat, limit: nat, b: Batch) returns (a: Action)
    requires limit > 0 && Tracked(n, limit, b) && !AllJoined(n, b)
    ensures Enabled(n, limit, b, a)
  {
    if i :| i in b.running {
      a := Finish(i);
    } else if b.next < n {
      assert b.running == {};
      a := Spawn;
    } else {
      assert b.running == {};
      a := Join;
    }
  }

  /** With two permits the second task can end first. */
  lemma OutOfOrder(n: nat, limit: nat) returns (bs: seq<Batch>, actions: seq<Action>)
    requires n >= 2 && limit >= 2
    ensures IsComplete(n, limit, bs, actions) && !InOrder(Order(bs))
  {
    var one, two := Batch(1, {0}, [], 0), Batch(2, {0, 1}, [], 0);
    var second := Batch(2, {0}, [1], 0);
    assert Apply(START, Spawn) == one && Apply(one, Spawn) == two && Apply(two, Finish(1)) == second;
    bs, actions := CanComplete(n, limit, second);
    StepThenRun(n, limit, two, Finish(1), bs, actions);
    bs, actions := [two] + bs, [Finish(1)] + actions;
    StepThenRun(n, limit, one, Spawn, bs, actions);
    bs, actions := [one] + bs, [Spawn] + actions;
    StepThenRun(n, limit, START, Spawn, bs, actions);
    bs, actions := [START] + bs, [Spawn] + actions;
    assert Order(bs)[0] == 1;
  }

  /** The run returns the results in input order, whatever they are. */
  ghost predicate ReturnsInOrder<R(!new)>(n: nat, bs: seq<Batch>) {
    bs != [] &&
    var b := bs[|bs| - 1];
    && b.joined == |b.finished| == n && (forall k | 0 <= k < n :: b.finished[k] < n)
    && KeepsOrder<R>(n, b)
  }

  /**
    Results come back in input order, as documented, in every run exactly when no two downloads can be
    in flight: at most one permit, or at most one task.
    */
  lemma KeepsInputOrderExactly<R(!new)>(n: nat, maxBatch: nat, r: R, r': R)
    requires r != r'
    ensures (forall bs: seq<Batch>, actions: seq<Action> | IsComplete(n, Limit(maxBatch), bs, actions) ::
               ReturnsInOrder<R>(n, bs))
      <==> maxBatch <= 1 || n <= 1
  {
    var limit := Limit(maxBatch);
    if maxBatch <= 1 || n <= 1 {
      forall bs: seq<Batch>, actions: seq<Action> | IsComplete(n, limit, bs, actions)
        ensures ReturnsInOrder<R>(n, bs)
      {
        EachTaskEndsOnce(n, limit, bs, actions);
        if maxBatch <= 1 { RunsOneByOne(n, bs, actions, |actions|); }
        OrderKeptExactly(n, bs[|actions|], r, r');
      }
    } else {
      var bs, actions := OutOfOrder(n, limit);
      EachTaskEndsOnce(n, limit, bs, actions);
      OrderKeptExactly(n, bs[|actions|], r, r');
      assert !ReturnsInOrder<R>(n, bs);
    }
  }
}
