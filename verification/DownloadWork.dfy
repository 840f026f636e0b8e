/**
  The structure of a download at work, whatever the disk holds: which chunks are loaded, pending and
  done, how many requests were made, how much work is left, and what `downloaded` counts.
  */
module DownloadWork {
  import opened Wrappers
  import opened ChunkPlan
  import opened Download

  // ---- Structure ----

  ghost predicate TaskShape(p: Process, i: nat)
    requires p.Working? && i in p.tasks && i in p.requests
  {
    && p.requests[i] <= p.cfg.maxRetries + 1
    && match p.tasks[i]
       case Fetching(failures) => i !in p.completed && p.requests[i] == failures <= p.cfg.maxRetries
       case Fetched => i !in p.completed
       case Persisting(snapshot) => i in p.completed && snapshot <= p.completed
       case Failed => true
       case _ => i in p.completed
  }

  ghost predicate TasksShaped(p: Process)
    requires p.Working?
  {
    p.tasks.Keys == p.requests.Keys && forall i | i in p.tasks :: TaskShape(p, i)
  }

  /** Every chunk up to the next one is loaded or has a task, and no chunk is both. */
  ghost predicate Covered(total: nat, p: Process)
    requires p.Working?
  {
    && 0 < p.cfg.chunkSize && p.next <= ChunkCount(total, p.cfg.chunkSize)
    && p.tasks.Keys !! p.loaded
    && (forall i | i in p.tasks :: i < p.next)
    && (forall i: nat | i < p.next :: i in p.loaded || i in p.tasks)
    && p.loaded <= p.completed <= p.loaded + p.tasks.Keys
  }

  ghost predicate Structured(total: nat, p: Process)
    requires p.Working?
  {
    Covered(total, p) && TasksShaped(p) && |Live(p.tasks)| <= Permits(p.cfg)
  }

  /** What is being flushed lists every chunk of the plan. */
  ghost predicate AllDone(total: nat, p: Process)
    requires p.Flushing?
  {
    0 < p.cfg.chunkSize && forall i: nat | i < ChunkCount(total, p.cfg.chunkSize) :: i in p.listed
  }

  ghost predicate Formed(src: Bytes, w: World) {
    && (w.proc.Working? ==> w.part.Some? && |w.part.value| == |src| && Structured(|src|, w.proc))
    && (w.proc.Flushing? ==> w.part.Some? && |w.part.value| == |src| && AllDone(|src|, w.proc))
    && (w.proc.Flushed? ==> w.part.Some? && |w.part.value| == |src|)
  }

  // ---- Every step keeps it, from any disk ----

  lemma LiveAfter(tasks: map<nat, Task>, i: nat, t: Task)
    requires i in tasks && tasks[i].HoldsPermit()
    ensures |Live(tasks[i := t])| <= |Live(tasks)|
  {
    assert Live(tasks[i := t]) <= Live(tasks);
    SubsetSize(Live(tasks[i := t]), Live(tasks));
  }

  lemma {:induction false} SubsetSize(a: set<nat>, b: set<nat>)
    requires a <= b
    ensures |a| <= |b|
    decreases a
  {
    if x :| x in a {
      SubsetSize(a - {x}, b - {x});
    }
  }

  /** What one step of task `i` may change: the task, its request count, and its place among the done. */
  ghost predicate OnlyTask(p: Process, p': Process, i: nat) {
    && p.Working? && p'.Working? && i in p.tasks && i in p.requests && i in p'.tasks && i in p'.requests
    && p'.cfg == p.cfg && p'.loaded == p.loaded && p'.next == p.next
    && p'.tasks == p.tasks[i := p'.tasks[i]] && p'.requests == p.requests[i := p'.requests[i]]
    && (p'.completed == p.completed || p'.completed == p.completed + {i})
  }

  lemma OnlyTaskShapes(p: Process, p': Process, i: nat)
    requires OnlyTask(p, p', i) && TasksShaped(p) && TaskShape(p', i)
    ensures TasksShaped(p')
  {
    forall j | j in p'.tasks ensures TaskShape(p', j) {
      if j != i { assert TaskShape(p, j); }
    }
  }

  lemma OnlyTaskStructures(total: nat, p: Process, p': Process, i: nat)
    requires OnlyTask(p, p', i) && Structured(total, p) && p.tasks[i].HoldsPermit() && TaskShape(p', i)
    ensures Structured(total, p')
  {
    OnlyTaskShapes(p, p', i);
    LiveAfter(p.tasks, i, p'.tasks[i]);
  }

  predicate IsTaskStep(a: Action) {
    || a.RequestFails? || a.RequestSucceeds? || a.TaskIoFails? || a.Mark? || a.PassGate?
    || a.TakeSnapshot? || a.PersistLands? || a.PersistFails?
  }

  lemma TaskStepChanges(src: Bytes, w: World, a: Action)
    requires Formed(src, w) && IsTaskStep(a) && Enabled(src, w, a)
    ensures var p' := Apply(src, w, a).proc;
      OnlyTask(w.proc, p', a.i) && w.proc.tasks[a.i].HoldsPermit() && TaskShape(p', a.i)
  {
    assert TaskShape(w.proc, a.i);
  }

  /** A request leaves the temp file as long as the source. */
  lemma WriteKeepsLength(src: Bytes, part: Bytes, size: nat, i: nat, len: nat)
    requires |part| == |src| && 0 < size && i < ChunkCount(|src|, size) && len <= ChunkLen(i, |src|, size)
    ensures |WriteAt(part, ChunkStart(i, size), Delivered(src, ChunkStart(i, size), len))| == |src|
  {
    ChunkBounds(i, |src|, size);
  }

  lemma TaskStepForms(src: Bytes, w: World, a: Action)
    requires Formed(src, w) && IsTaskStep(a) && Enabled(src, w, a)
    ensures Formed(src, Apply(src, w, a))
  {
    TaskStepChanges(src, w, a);
    OnlyTaskStructures(|src|, w.proc, Apply(src, w, a).proc, a.i);
    var size := w.proc.cfg.chunkSize;
    if a.RequestFails? { WriteKeepsLength(src, w.part.value, size, a.i, a.written); }
    if a.RequestSucceeds? { WriteKeepsLength(src, w.part.value, size, a.i, ChunkLen(a.i, |src|, size)); }
  }

  lemma StartForms(src: Bytes, w: World, cfg: Config)
    requires Enabled(src, w, Start(cfg))
    ensures Formed(src, Apply(src, w, Start(cfg)))
  {
    assert Live(map[]) == {};
  }

  lemma SpawnForms(src: Bytes, w: World)
    requires Formed(src, w) && Enabled(src, w, Spawn)
    ensures Formed(src, Apply(src, w, Spawn))
  {
    var p, p' := w.proc, Apply(src, w, Spawn).proc;
    assert p.next !in p.tasks;
    assert Live(p'.tasks) == Live(p.tasks) + {p.next};
    forall i | i in p'.tasks ensures TaskShape(p', i) {
      if i != p.next { assert TaskShape(p, i); }
    }
  }

  lemma SkipForms(src: Bytes, w: World)
    requires Formed(src, w) && Enabled(src, w, SkipDone)
    ensures Formed(src, Apply(src, w, SkipDone))
  {
    var p, p' := w.proc, Apply(src, w, SkipDone).proc;
    forall i | i in p'.tasks ensures TaskShape(p', i) { assert TaskShape(p, i); }
  }

  lemma PlanReached(src: Bytes, w: World)
    requires Formed(src, w) && Enabled(src, w, BeginFlush)
    ensures w.proc.next == ChunkCount(|src|, w.proc.cfg.chunkSize)
  {
    if |src| == 0 { assert ChunkCount(0, w.proc.cfg.chunkSize) == 0; }
  }

  /** When the flush begins, every chunk of the plan is done. */
  lemma FlushCovers(src: Bytes, w: World, i: nat)
    requires Formed(src, w) && Enabled(src, w, BeginFlush) && i < ChunkCount(|src|, w.proc.cfg.chunkSize)
    ensures i in w.proc.completed
  {
    PlanReached(src, w);
    if i in w.proc.tasks { assert TaskShape(w.proc, i); }
  }

  lemma BeginForms(src: Bytes, w: World)
    requires Formed(src, w) && Enabled(src, w, BeginFlush)
    ensures Formed(src, Apply(src, w, BeginFlush))
  {
    forall i: nat | i < ChunkCount(|src|, w.proc.cfg.chunkSize) ensures i in w.proc.completed { FlushCovers(src, w, i); }
  }

  lemma StepForms(src: Bytes, w: World, a: Action)
    requires Formed(src, w) && Enabled(src, w, a)
    ensures Formed(src, Apply(src, w, a))
  {
    if IsTaskStep(a) {
      TaskStepForms(src, w, a);
    } else {
      match a
      case Start(cfg) => StartForms(src, w, cfg);
      case SkipDone => SkipForms(src, w);
      case Spawn => SpawnForms(src, w);
      case BeginFlush => BeginForms(src, w);
      case _ =>
    }
  }

  /** In every run, whatever the disk holds when it begins. */
  lemma {:induction false} RunsAreFormed(src: Bytes, ws: seq<World>, actions: seq<Action>, k: nat)
    requires IsRun(src, ws, actions) && Formed(src, ws[0]) && k < |ws|
    ensures Formed(src, ws[k])
  {
    if k > 0 {
      RunsAreFormed(src, ws, actions, k - 1);
      NextInRun(src, ws, actions, k - 1);
      StepForms(src, ws[k - 1], actions[k - 1]);
    }
  }

  // ---- How much work is left ----

  /** Steps a task can still take. */
  function TaskRank(cfg: Config, t: Task): nat {
    match t
    case Fetching(failures) => 5 + if failures <= cfg.maxRetries then cfg.maxRetries - failures else 0
    case Fetched => 4
    case Marked => 3
    case MustPersist => 2
    case Persisting(_) => 1
    case _ => 0
  }

  /** Steps chunk `i` can still cause, its spawning or skipping included. */
  function ChunkRank(p: Process, i: nat): nat
    requires p.Working?
  {
    if i in p.tasks then TaskRank(p.cfg, p.tasks[i]) else if i < p.next then 0 else 6 + p.cfg.maxRetries
  }

  function WorkLeft(p: Process, n: nat): nat
    requires p.Working?
  {
    if n == 0 then 0 else WorkLeft(p, n - 1) + ChunkRank(p, n - 1)
  }

  lemma {:induction false} WorkDrops(p: Process, q: Process, n: nat, i: nat)
    requires p.Working? && q.Working?
    requires forall j: nat | j < n && j != i :: ChunkRank(q, j) <= ChunkRank(p, j)
    requires i < n ==> ChunkRank(q, i) < ChunkRank(p, i)
    ensures WorkLeft(q, n) <= WorkLeft(p, n)
    ensures i < n ==> WorkLeft(q, n) < WorkLeft(p, n)
  {
    if n > 0 { WorkDrops(p, q, n - 1, i); }
  }

  /** The work left and the abandoned writes still to land. */
  function Measure(src: Bytes, w: World): nat
    requires w.proc.Working? && 0 < w.proc.cfg.chunkSize
  {
    WorkLeft(w.proc, ChunkCount(|src|, w.proc.cfg.chunkSize)) + |w.orphans|
  }

  lemma TaskStepDrops(src: Bytes, w: World, a: Action)
    requires Formed(src, w) && IsTaskStep(a) && Enabled(src, w, a)
    ensures Apply(src, w, a).proc.Working? && Measure(src, Apply(src, w, a)) < Measure(src, w)
  {
    var p, p' := w.proc, Apply(src, w, a).proc;
    TaskStepChanges(src, w, a);
    assert TaskShape(p, a.i);
    TaskRankDrops(src, w, a);
    WorkDrops(p, p', ChunkCount(|src|, p.cfg.chunkSize), a.i);
  }

  lemma TaskRankDrops(src: Bytes, w: World, a: Action)
    requires Formed(src, w) && IsTaskStep(a) && Enabled(src, w, a)
    ensures var p' := Apply(src, w, a).proc;
      p'.Working? && a.i in p'.tasks && TaskRank(w.proc.cfg, p'.tasks[a.i]) < TaskRank(w.proc.cfg, w.proc.tasks[a.i])
  {
    assert TaskShape(w.proc, a.i);
  }

  lemma PlanStepDrops(src: Bytes, w: World, a: Action)
    requires Formed(src, w) && (a.Spawn? || a.SkipDone?) && Enabled(src, w, a)
    ensures Apply(src, w, a).proc.Working? && Measure(src, Apply(src, w, a)) < Measure(src, w)
  {
    var p, p' := w.proc, Apply(src, w, a).proc;
    assert p.next !in p.tasks;
    WorkDrops(p, p', ChunkCount(|src|, p.cfg.chunkSize), p.next);
  }

  /** Every step of a working session brings its end nearer, failures and late writes included. */
  lemma SessionStepDrops(src: Bytes, w: World, a: Action)
    requires Formed(src, w) && w.proc.Working? && Enabled(src, w, a)
    ensures var w' := Apply(src, w, a); w'.proc.Working? ==> Measure(src, w') < Measure(src, w)
  {
    if IsTaskStep(a) {
      TaskStepDrops(src, w, a);
    } else if a.Spawn? || a.SkipDone? {
      PlanStepDrops(src, w, a);
    }
  }

  /** The session is at work, with at most `bound` steps still to take. */
  ghost predicate WorkingWithin(src: Bytes, w: World, bound: int) {
    w.proc.Working? && 0 < w.proc.cfg.chunkSize && Measure(src, w) <= bound
  }

  lemma SessionNext(src: Bytes, ws: seq<World>, actions: seq<Action>, k: nat, bound: int)
    requires IsRun(src, ws, actions) && Formed(src, ws[0]) && k < |actions|
    requires WorkingWithin(src, ws[k], bound) && ws[k + 1].proc.Working?
    ensures WorkingWithin(src, ws[k + 1], bound - 1)
  {
    RunsAreFormed(src, ws, actions, k);
    RunsAreFormed(src, ws, actions, k + 1);
    NextInRun(src, ws, actions, k);
    SessionStepDrops(src, ws[k], actions[k]);
  }

  /** So a session that is working takes at most so many more steps before it flushes or stops. */
  lemma {:induction false} SessionsEnd(src: Bytes, ws: seq<World>, actions: seq<Action>, n: nat, m: nat, bound: nat)
    requires IsRun(src, ws, actions) && Formed(src, ws[0]) && n <= m < |ws|
    requires forall k | n <= k <= m :: ws[k].proc.Working?
    requires WorkingWithin(src, ws[n], bound)
    ensures WorkingWithin(src, ws[m], bound - (m - n)) && m - n <= bound
  {
    if n < m {
      var k := m - 1;
      var left := bound - (k - n);
      SessionsEnd(src, ws, actions, n, k, bound);
      SessionNext(src, ws, actions, k, left);
    }
  }

  // ---- Moving on ----

  /** The steps by which work gets done. */
  predicate MovesOn(a: Action) {
    || a.SkipDone? || a.Spawn? || a.RequestSucceeds? || a.Mark? || a.PassGate? || a.TakeSnapshot?
    || a.PersistLands? || a.BeginFlush?
  }

  lemma LiveTaskMoves(src: Bytes, w: World, i: nat) returns (a: Action)
    requires Formed(src, w) && w.proc.Working? && i in w.proc.tasks && w.proc.tasks[i].HoldsPermit()
    ensures MovesOn(a) && Enabled(src, w, a)
  {
    match w.proc.tasks[i]
    case Fetching(_) => a := RequestSucceeds(i);
    case Fetched => a := Mark(i);
    case Marked => a := PassGate(i);
    case MustPersist => a := TakeSnapshot(i);
    case Persisting(_) => a := PersistLands(i);
  }

  predicate NoneFailed(p: Process) {
    p.Working? && forall i | i in p.tasks :: !p.tasks[i].Failed?
  }

  /** No deadlock: while it works and no task has given up, a download can always move on. */
  lemma NeverStuck(src: Bytes, w: World) returns (a: Action)
    requires Formed(src, w) && NoneFailed(w.proc)
    ensures MovesOn(a) && Enabled(src, w, a)
  {
    if live :| live in Live(w.proc.tasks) {
      a := LiveTaskMoves(src, w, live);
    } else if HasNext(src, w) {
      a := if w.proc.next in w.proc.loaded then SkipDone else Spawn;
      assert Live(w.proc.tasks) == {};
    } else {
      a := BeginFlush;
      forall i | i in w.proc.tasks ensures w.proc.tasks[i].Finished? {
        assert i !in Live(w.proc.tasks);
      }
    }
  }

  lemma MovingOnFailsNothing(src: Bytes, w: World, a: Action)
    requires Formed(src, w) && NoneFailed(w.proc) && MovesOn(a) && Enabled(src, w, a)
    ensures var w' := Apply(src, w, a); w'.orphans == w.orphans && (NoneFailed(w'.proc) || w'.proc.Flushing?)
  {
  }

  /** The steps of a session whose requests and writes all succeed. */
  predicate Succeeds(a: Action) {
    MovesOn(a) || a.Flush? || a.Rename? || a == RemoveMeta(true)
  }

  /** A run of successes from `w` that leaves the abandoned writes alone. */
  ghost predicate SucceedsFrom(src: Bytes, w: World, ws: seq<World>, actions: seq<Action>) {
    && IsRun(src, ws, actions) && ws[0] == w
    && (forall k | 0 <= k < |actions| :: Succeeds(actions[k]))
    && (forall k | 0 <= k < |ws| :: ws[k].orphans == w.orphans)
  }

  lemma SuccessAfter(src: Bytes, w: World, a: Action, ws: seq<World>, actions: seq<Action>)
    requires Enabled(src, w, a) && Succeeds(a) && Apply(src, w, a).orphans == w.orphans
    requires SucceedsFrom(src, Apply(src, w, a), ws, actions)
    ensures SucceedsFrom(src, w, [w] + ws, [a] + actions)
  {
    StepThenRun(src, w, a, ws, actions);
  }

  /** From every working state without a failed task, success up to the flush is possible. */
  lemma {:induction false} CanReachFlush(src: Bytes, w: World) returns (ws: seq<World>, actions: seq<Action>)
    requires Formed(src, w) && NoneFailed(w.proc)
    ensures SucceedsFrom(src, w, ws, actions)
    ensures Enabled(src, ws[|actions|], BeginFlush) && ws[|actions|].proc.cfg == w.proc.cfg
    decreases Measure(src, w)
  {
    var a := NeverStuck(src, w);
    if a.BeginFlush? {
      ws, actions := [w], [];
    } else {
      var w' := Apply(src, w, a);
      StepForms(src, w, a);
      MovingOnFailsNothing(src, w, a);
      SessionStepDrops(src, w, a);
      ws, actions := CanReachFlush(src, w');
      SuccessAfter(src, w, a, ws, actions);
      ws, actions := [w] + ws, [a] + actions;
    }
  }

  lemma RenameThenDone(src: Bytes, w: World) returns (ws: seq<World>, actions: seq<Action>)
    requires w.proc.Flushed? && w.part.Some?
    ensures SucceedsFrom(src, w, ws, actions)
    ensures ws[|actions|].proc.ReturnedOk? && ws[|actions|].part == None
  {
    var renamed := Apply(src, w, Rename);
    var done := Apply(src, renamed, RemoveMeta(true));
    assert SucceedsFrom(src, renamed, [renamed, done], [RemoveMeta(true)]);
    SuccessAfter(src, w, Rename, [renamed, done], [RemoveMeta(true)]);
    ws, actions := [w] + [renamed, done], [Rename] + [RemoveMeta(true)];
  }

  lemma FlushThenDone(src: Bytes, w: World) returns (ws: seq<World>, actions: seq<Action>)
    requires Enabled(src, w, BeginFlush) && w.part.Some?
    ensures SucceedsFrom(src, w, ws, actions)
    ensures ws[|actions|].proc.ReturnedOk? && ws[|actions|].part == None
  {
    var flushing := Apply(src, w, BeginFlush);
    ws, actions := RenameThenDone(src, Apply(src, flushing, Flush));
    SuccessAfter(src, flushing, Flush, ws, actions);
    ws, actions := [flushing] + ws, [Flush] + actions;
    SuccessAfter(src, w, BeginFlush, ws, actions);
    ws, actions := [w] + ws, [BeginFlush] + actions;
  }

  lemma SuccessThenSuccess(src: Bytes, w: World, xs: seq<World>, before: seq<Action>, ys: seq<World>, after: seq<Action>)
    requires SucceedsFrom(src, w, xs, before) && SucceedsFrom(src, xs[|before|], ys, after)
    ensures SucceedsFrom(src, w, xs + ys[1..], before + after)
    ensures (xs + ys[1..])[|before + after|] == ys[|after|]
  {
    RunThenRun(src, xs, before, ys, after);
  }

  lemma CanBeginFlush(src: Bytes, w: World) returns (ws: seq<World>, actions: seq<Action>)
    requires Formed(src, w) && NoneFailed(w.proc)
    ensures SucceedsFrom(src, w, ws, actions)
    ensures ws[|actions|].proc.Flushing? && ws[|actions|].proc.cfg == w.proc.cfg
  {
    var xs, before := CanReachFlush(src, w);
    var ready := xs[|before|];
    var flushing := Apply(src, ready, BeginFlush);
    assert SucceedsFrom(src, ready, [ready, flushing], [BeginFlush]);
    SuccessThenSuccess(src, w, xs, before, [ready, flushing], [BeginFlush]);
    ws, actions := xs + [ready, flushing][1..], before + [BeginFlush];
  }

  lemma CanFinish(src: Bytes, w: World) returns (ws: seq<World>, actions: seq<Action>)
    requires Formed(src, w) && NoneFailed(w.proc)
    ensures SucceedsFrom(src, w, ws, actions)
    ensures ws[|actions|].proc.ReturnedOk? && ws[|actions|].part == None
  {
    var xs, before := CanReachFlush(src, w);
    RunsAreFormed(src, xs, before, |before|);
    var ys, after := FlushThenDone(src, xs[|before|]);
    SuccessThenSuccess(src, w, xs, before, ys, after);
    ws, actions := xs + ys[1..], before + after;
  }

  /** A session that starts on `w` and succeeds all the way. */
  ghost predicate Downloads(src: Bytes, w: World, cfg: Config, ws: seq<World>, actions: seq<Action>) {
    && IsRun(src, ws, actions) && ws[0] == w && |actions| > 0 && actions[0] == Start(cfg)
    && ws[|actions|].proc.ReturnedOk? && ws[|actions|].part == None
    && (forall k | 0 < k < |actions| :: Succeeds(actions[k]))
    && (forall k | 0 <= k < |ws| :: ws[k].orphans == w.orphans)
  }

  /** From every state in which a session may start, one can start and return Ok. */
  lemma CanDownload(src: Bytes, w: World, cfg: Config) returns (ws: seq<World>, actions: seq<Action>)
    requires Enabled(src, w, Start(cfg))
    ensures Downloads(src, w, cfg, ws, actions)
  {
    StartForms(src, w, cfg);
    var ws', actions' := CanFinish(src, Apply(src, w, Start(cfg)));
    StepThenRun(src, w, Start(cfg), ws', actions');
    ws, actions := [w] + ws', [Start(cfg)] + actions';
  }

  // ---- Accounting, from meta files that list chunks of the plan once each ----

  predicate ListsChunks(total: nat, m: Meta) {
    m.total == total && 0 < m.chunkSize ==>
      Distinct(m.completed) && forall i | i in m.completed :: i < ChunkCount(total, m.chunkSize)
  }

  ghost predicate Accounted(total: nat, p: Process)
    requires p.Working? && 0 < p.cfg.chunkSize
  {
    && (forall i | i in p.completed :: i < ChunkCount(total, p.cfg.chunkSize))
    && p.downloaded == Weight(p.completed, ChunkCount(total, p.cfg.chunkSize), total, p.cfg.chunkSize)
  }

  ghost predicate Metas(src: Bytes, w: World) {
    && (w.meta.Holds? ==> ListsChunks(|src|, w.meta.m))
    && (forall m | m in w.orphans :: ListsChunks(|src|, m))
  }

  ghost predicate Counted(src: Bytes, w: World) {
    && Formed(src, w) && Metas(src, w)
    && (w.proc.Working? ==> Accounted(|src|, w.proc))
    && (w.proc.Flushing? ==>
          w.proc.downloaded == |src| && ListsChunks(|src|, MetaOf(|src|, w.proc.cfg, w.proc.listed)))
    && (w.proc.Flushed? ==> w.proc.downloaded == |src|)
  }

  lemma SnapshotLists(total: nat, p: Process, s: set<nat>)
    requires p.Working? && 0 < p.cfg.chunkSize && Accounted(total, p) && s <= p.completed
    ensures ListsChunks(total, MetaOf(total, p.cfg, s))
  {
    forall i | i in Sorted(s) ensures i < ChunkCount(total, p.cfg.chunkSize) { assert i in Elements(Sorted(s)); }
  }

  lemma {:induction false} InFlightIsSnapshot(src: Bytes, p: Process, ids: set<nat>, m: Meta) returns (i: nat)
    requires p.Working? && forall i | i in ids :: i in p.tasks && p.tasks[i].Persisting?
    requires m in InFlight(src, p, ids)
    ensures i in ids && m == MetaOf(|src|, p.cfg, p.tasks[i].snapshot)
    decreases ids
  {
    i :| i in ids && InFlight(src, p, ids)
                     == InFlight(src, p, ids - {i}) + multiset{MetaOf(|src|, p.cfg, p.tasks[i].snapshot)};
    if m != MetaOf(|src|, p.cfg, p.tasks[i].snapshot) {
      i := InFlightIsSnapshot(src, p, ids - {i}, m);
    }
  }

  lemma StopCounts(src: Bytes, w: World, inFlight: set<nat>)
    requires Counted(src, w) && Enabled(src, w, Stop(inFlight))
    ensures Counted(src, Apply(src, w, Stop(inFlight)))
  {
    var w' := Apply(src, w, Stop(inFlight));
    forall m | m in w'.orphans ensures ListsChunks(|src|, m) {
      if m !in w.orphans {
        var i := InFlightIsSnapshot(src, w.proc, inFlight, m);
        assert TaskShape(w.proc, i);
        SnapshotLists(|src|, w.proc, w.proc.tasks[i].snapshot);
      }
    }
  }

  lemma StartCounts(src: Bytes, w: World, cfg: Config)
    requires Counted(src, w) && Enabled(src, w, Start(cfg))
    ensures Counted(src, Apply(src, w, Start(cfg)))
  {
    StartForms(src, w, cfg);
    var loaded := Loaded(w.meta, |src|, cfg);
    BytesOfDistinct(loaded, |src|, cfg.chunkSize);
    forall i | i in Elements(loaded) ensures i < ChunkCount(|src|, cfg.chunkSize) { assert i in loaded; }
  }

  lemma MarkCounts(src: Bytes, w: World, i: nat)
    requires Counted(src, w) && Enabled(src, w, Mark(i))
    ensures Accounted(|src|, Apply(src, w, Mark(i)).proc)
  {
    assert TaskShape(w.proc, i);
    WeightAdd(w.proc.completed, i, ChunkCount(|src|, w.proc.cfg.chunkSize), |src|, w.proc.cfg.chunkSize);
  }

  lemma PersistCounts(src: Bytes, w: World, i: nat)
    requires Counted(src, w) && Enabled(src, w, PersistLands(i))
    ensures Metas(src, Apply(src, w, PersistLands(i)))
  {
    assert TaskShape(w.proc, i);
    SnapshotLists(|src|, w.proc, w.proc.tasks[i].snapshot);
  }

  lemma TaskStepCounts(src: Bytes, w: World, a: Action)
    requires Counted(src, w) && IsTaskStep(a) && Enabled(src, w, a)
    ensures Counted(src, Apply(src, w, a))
  {
    TaskStepForms(src, w, a);
    if a.Mark? { MarkCounts(src, w, a.i); }
    if a.PersistLands? { PersistCounts(src, w, a.i); }
  }

  lemma BeginCounts(src: Bytes, w: World)
    requires Counted(src, w) && Enabled(src, w, BeginFlush)
    ensures Counted(src, Apply(src, w, BeginFlush))
  {
    var p := w.proc;
    BeginForms(src, w);
    SnapshotLists(|src|, p, p.completed);
    forall i: nat | i < ChunkCount(|src|, p.cfg.chunkSize) ensures i in p.completed { FlushCovers(src, w, i); }
    WeightBound(p.completed, |src|, p.cfg.chunkSize);
  }

  lemma StepCounts(src: Bytes, w: World, a: Action)
    requires Counted(src, w) && Enabled(src, w, a)
    ensures Counted(src, Apply(src, w, a))
  {
    if IsTaskStep(a) {
      TaskStepCounts(src, w, a);
    } else {
      StepForms(src, w, a);
      match a
      case Start(cfg) => StartCounts(src, w, cfg);
      case Stop(inFlight) => StopCounts(src, w, inFlight);
      case BeginFlush => BeginCounts(src, w);
      case _ =>
    }
  }

  lemma {:induction false} RunsCount(src: Bytes, ws: seq<World>, actions: seq<Action>, k: nat)
    requires IsRun(src, ws, actions) && Counted(src, ws[0]) && k < |ws|
    ensures Counted(src, ws[k])
  {
    if k > 0 {
      RunsCount(src, ws, actions, k - 1);
      NextInRun(src, ws, actions, k - 1);
      StepCounts(src, ws[k - 1], actions[k - 1]);
    }
  }

  /**
    Exact accounting in every state of every run, any number of sessions and publications included:
    `downloaded` is the weight of the completed chunks, never more than the total, and the total once
    all is flushed; only chunks missing from the loaded meta are fetched, each with at most
    `maxRetries + 1` requests, and at most `max(1, concurrency)` tasks hold a permit.
    */
  lemma DownloadIsAccounted(src: Bytes, ws: seq<World>, actions: seq<Action>, k: nat)
    requires IsRun(src, ws, actions) && ws[0].proc.Idle? && Metas(src, ws[0]) && k < |ws|
    ensures ws[k].proc.Flushing? || ws[k].proc.Flushed? ==> ws[k].proc.downloaded == |src|
    ensures ws[k].proc.Working? ==>
      var p := ws[k].proc;
      && 0 < p.cfg.chunkSize
      && p.downloaded == Weight(p.completed, ChunkCount(|src|, p.cfg.chunkSize), |src|, p.cfg.chunkSize) <= |src|
      && p.requests.Keys !! p.loaded
      && (forall i | i in p.requests :: p.requests[i] <= p.cfg.maxRetries + 1)
      && |Live(p.tasks)| <= (if p.cfg.concurrency == 0 then 1 else p.cfg.concurrency)
  {
    RunsCount(src, ws, actions, k);
    if ws[k].proc.Working? {
      var p := ws[k].proc;
      WeightBound(p.completed, |src|, p.cfg.chunkSize);
      forall i | i in p.requests ensures p.requests[i] <= p.cfg.maxRetries + 1 { assert TaskShape(p, i); }
    }
  }
}
