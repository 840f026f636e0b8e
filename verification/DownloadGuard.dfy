/**
  The guard of `DownloadRuns` is exact, and without it a download can lose the source: each untidy
  publication leads to a session that returns Ok on wrong bytes.
  */
module DownloadGuard {
  import opened Wrappers
  import opened ChunkPlan
  import opened Download
  import opened DownloadWork
  import opened DownloadRuns

  // ---- From an unsound disk to a wrong Ok ----

  ghost predicate TidyFrom(src: Bytes, w: World, ws: seq<World>, actions: seq<Action>) {
    IsRun(src, ws, actions) && ws[0] == w && AllTidy(src, ws, actions)
  }

  /** The run ends with an Ok whose destination is not the source. */
  ghost predicate EndsWrong(src: Bytes, ws: seq<World>) {
    ws != [] && ws[|ws| - 1].proc.ReturnedOk? && ws[|ws| - 1].dest != Some(src)
  }

  lemma TidyAfter(src: Bytes, w: World, a: Action, ws: seq<World>, actions: seq<Action>)
    requires Enabled(src, w, a) && TidyStep(src, w, a) && TidyFrom(src, Apply(src, w, a), ws, actions)
    ensures TidyFrom(src, w, [w] + ws, [a] + actions)
    ensures EndsWrong(src, ws) ==> EndsWrong(src, [w] + ws)
  {
    StepThenRun(src, w, a, ws, actions);
  }

  /** Any session with the chunk size of an unsound meta file that returns Ok has published wrong bytes. */
  lemma UnsoundSessionIsWrong(src: Bytes, w: World, m: Meta, cfg: Config, ws: seq<World>, actions: seq<Action>)
    requires Downloads(src, w, cfg, ws, actions) && w.meta == Holds(m) && !MetaSound(src, w.part, m)
    requires cfg.chunkSize == m.chunkSize && (w.proc.Idle? || w.proc.ReturnedOk?)
    ensures ws[|actions|].dest != Some(src)
  {
    forall k | 0 < k < |actions| ensures Undisturbed(actions[k]) { assert Succeeds(actions[k]); }
    PublishesSourceExactlyWhenResumeIsSound(src, ws, actions, 0, |actions|);
  }

  /** With an unsound meta file and nothing at work, a tidy run to a wrong Ok exists. */
  lemma UnsoundDiskEndsWrong(src: Bytes, w: World, m: Meta) returns (ws: seq<World>, actions: seq<Action>)
    requires (w.proc.Idle? || w.proc.ReturnedOk?) && w.meta == Holds(m) && !MetaSound(src, w.part, m)
    ensures TidyFrom(src, w, ws, actions) && EndsWrong(src, ws)
  {
    var restarted := Apply(src, w, Crash(false));
    var cfg := Config(m.chunkSize, 1, 0, 1);
    ws, actions := CanDownload(src, restarted, cfg);
    UnsoundSessionIsWrong(src, restarted, m, cfg, ws, actions);
    forall k | 0 <= k < |actions| ensures TidyStep(src, ws[k], actions[k]) {
      if k > 0 { assert Succeeds(actions[k]); }
      assert ws[k].orphans == multiset{};
    }
    TidyAfter(src, w, Crash(false), ws, actions);
    ws, actions := [w] + ws, [Crash(false)] + actions;
  }

  // ---- The guard is exact ----

  lemma LateWriteEndsWrong(src: Bytes, w: World, m: Meta) returns (ws: seq<World>, actions: seq<Action>)
    requires w.proc.Renamed? && w.part == None && m in w.orphans && !MetaSound(src, None, m)
    ensures TidyFrom(src, w, ws, actions) && EndsWrong(src, ws)
  {
    var done := Apply(src, w, RemoveMeta(true));
    var landed := Apply(src, done, OrphanLands(m));
    ws, actions := UnsoundDiskEndsWrong(src, landed, m);
    TidyAfter(src, done, OrphanLands(m), ws, actions);
    ws, actions := [done] + ws, [OrphanLands(m)] + actions;
    TidyAfter(src, w, RemoveMeta(true), ws, actions);
    ws, actions := [w] + ws, [RemoveMeta(true)] + actions;
  }

  /** After an untidy step, steps that are all tidy can still end in a wrong Ok. */
  lemma UntidyStepEndsWrong(src: Bytes, w: World, a: Action) returns (ws: seq<World>, actions: seq<Action>)
    requires Inv(src, w) && Enabled(src, w, a) && !TidyStep(src, w, a)
    ensures TidyFrom(src, Apply(src, w, a), ws, actions) && EndsWrong(src, ws)
  {
    var w' := Apply(src, w, a);
    if a.Rename? {
      var m :| m in w.orphans && !MetaSound(src, None, m);
      ws, actions := LateWriteEndsWrong(src, w', m);
    } else {
      ws, actions := UnsoundDiskEndsWrong(src, w', w.meta.m);
    }
  }

  /**
    The guard is exact: a step is tidy precisely when every run that goes on from it with tidy steps
    publishes nothing but the source.
    */
  lemma GuardIsExact(src: Bytes, w: World, a: Action)
    requires Inv(src, w) && Enabled(src, w, a)
    ensures TidyStep(src, w, a) <==>
      forall ws, actions | TidyFrom(src, Apply(src, w, a), ws, actions) :: OnlySource(src, ws)
  {
    if TidyStep(src, w, a) {
      StepKeeps(src, w, a);
      forall ws, actions | TidyFrom(src, Apply(src, w, a), ws, actions) ensures OnlySource(src, ws) {
        forall k | 0 <= k < |ws| ensures Inv(src, ws[k]) { TidyRunsKeepInv(src, ws, actions, k); }
      }
    } else {
      var ws, actions := UntidyStepEndsWrong(src, w, a);
      assert ws[|ws| - 1].proc.ReturnedOk?;
    }
  }

  // ---- A wrong Ok from a clean disk: the write of a stopped session lands after the next one ----

  const CLEAN: World := World(None, Absent, None, Idle, multiset{})

  /** One chunk, written down at once. */
  function OneChunk(src: Bytes): Config { Config(|src|, 1, 0, 1) }

  lemma OneChunkPlan(n: nat)
    requires 0 < n
    ensures ChunkCount(n, n) == 1 && ChunkStart(0, n) == 0 && ChunkLen(0, n, n) == n && |PlanChunks(n, n)| == 1
  {
    ChunkBounds(0, n, n);
    ChunkBounds(1, n, n);
  }

  /** A session on one chunk, with its single task at `t`. */
  function AtWork(src: Bytes, part: Bytes, completed: set<nat>, downloaded: nat, gate: nat, t: Task, requests: nat): World {
    World(Some(part), Absent, None,
      Working(OneChunk(src), {}, completed, downloaded, gate, 1, map[0 := t], map[0 := requests]), multiset{})
  }

  lemma WholeWritten(src: Bytes)
    ensures WriteAt(Zeros(|src|), 0, Delivered(src, 0, |src|)) == src
  {
  }

  lemma StartOnClean(src: Bytes)
    requires src != []
    ensures Enabled(src, CLEAN, Start(OneChunk(src)))
    ensures Apply(src, CLEAN, Start(OneChunk(src))) ==
      World(Some(Zeros(|src|)), Absent, None,
        Working(OneChunk(src), {}, {}, 0, 0, 0, map[], map[]), multiset{})
  {
    assert Loaded(Absent, |src|, OneChunk(src)) == [];
    assert Elements([]) == {};
    assert BytesOf([], |src|, |src|) == 0;
  }

  lemma SpawnOnly(src: Bytes, w: World)
    requires src != []
    requires w == World(Some(Zeros(|src|)), Absent, None,
      Working(OneChunk(src), {}, {}, 0, 0, 0, map[], map[]), multiset{})
    ensures Next(src, w, Spawn, AtWork(src, Zeros(|src|), {}, 0, 0, Fetching(0), 0))
  {
    OneChunkPlan(|src|);
    assert Live(map[]) == {};
  }

  lemma FetchAndMark(src: Bytes)
    requires src != []
    ensures Next(src, AtWork(src, Zeros(|src|), {}, 0, 0, Fetching(0), 0), RequestSucceeds(0),
      AtWork(src, src, {}, 0, 0, Fetched, 1))
    ensures Next(src, AtWork(src, src, {}, 0, 0, Fetched, 1), Mark(0), AtWork(src, src, {0}, |src|, 0, Marked, 1))
  {
    OneChunkPlan(|src|);
    WholeWritten(src);
    assert map[0 := Fetching(0)][0 := Fetched] == map[0 := Fetched] && map[0 := 0][0 := 1] == map[0 := 1];
    assert map[0 := Fetched][0 := Marked] == map[0 := Marked] && {} + {0} == {0};
  }

  lemma GateAndSnapshot(src: Bytes)
    requires src != []
    ensures Next(src, AtWork(src, src, {0}, |src|, 0, Marked, 1), PassGate(0),
      AtWork(src, src, {0}, |src|, 1, MustPersist, 1))
    ensures Next(src, AtWork(src, src, {0}, |src|, 1, MustPersist, 1), TakeSnapshot(0),
      AtWork(src, src, {0}, |src|, 1, Persisting({0}), 1))
  {
    assert map[0 := Marked][0 := MustPersist] == map[0 := MustPersist];
    assert map[0 := MustPersist][0 := Persisting({0})] == map[0 := Persisting({0})];
  }

  /** The write abandoned when the session is stopped. */
  ghost function Abandoned(src: Bytes): Meta { MetaOf(|src|, OneChunk(src), {0}) }

  lemma StopMidWrite(src: Bytes)
    requires src != []
    ensures Next(src, AtWork(src, src, {0}, |src|, 1, Persisting({0}), 1), Stop({0}),
      World(Some(src), Absent, None, Idle, multiset{Abandoned(src)}))
  {
    var p := AtWork(src, src, {0}, |src|, 1, Persisting({0}), 1).proc;
    var i :| i in {0} && InFlight(src, p, {0})
                         == InFlight(src, p, {0} - {i}) + multiset{MetaOf(|src|, p.cfg, p.tasks[i].snapshot)};
    assert {0} - {i} == {};
  }

  lemma StoppedSession(src: Bytes) returns (ws: seq<World>, actions: seq<Action>)
    requires src != []
    ensures IsRun(src, ws, actions) && ws[0] == CLEAN
    ensures ws[|actions|] == World(Some(src), Absent, None, Idle, multiset{Abandoned(src)})
  {
    StartOnClean(src);
    var started := Apply(src, CLEAN, Start(OneChunk(src)));
    SpawnOnly(src, started);
    FetchAndMark(src);
    GateAndSnapshot(src);
    StopMidWrite(src);
    ws := [CLEAN, started, AtWork(src, Zeros(|src|), {}, 0, 0, Fetching(0), 0),
      AtWork(src, src, {}, 0, 0, Fetched, 1), AtWork(src, src, {0}, |src|, 0, Marked, 1),
      AtWork(src, src, {0}, |src|, 1, MustPersist, 1), AtWork(src, src, {0}, |src|, 1, Persisting({0}), 1),
      World(Some(src), Absent, None, Idle, multiset{Abandoned(src)})];
    actions := [Start(OneChunk(src)), Spawn, RequestSucceeds(0), Mark(0), PassGate(0), TakeSnapshot(0), Stop({0})];
  }

  predicate AllZero(src: Bytes) {
    forall k | 0 <= k < |src| :: src[k] == 0
  }

  lemma AbandonedIsUnsound(src: Bytes)
    requires !AllZero(src)
    ensures !MetaSound(src, None, Abandoned(src))
  {
    assert 0 in Elements(Sorted({0}));
    var k :| 0 <= k < |src| && src[k] != 0;
    assert k / |src| == 0 && Zeros(|src|)[k] == 0;
    assert !ChunkRight(src, Zeros(|src|), |src|, 0);
  }

  /**
    A run of the listed steps only, from a clean disk: a session is stopped while a meta write is in
    flight, the next one publishes and removes the meta, the write lands, and a third session takes
    the recreated file for complete.
    */
  lemma LateWriteLosesSource(src: Bytes) returns (ws: seq<World>, actions: seq<Action>)
    requires !AllZero(src)
    ensures IsRun(src, ws, actions) && ws[0] == CLEAN && ConsistentStart(src, ws[0]) && EndsWrong(src, ws)
  {
    ws, actions := StoppedSession(src);
    var stopped := ws[|actions|];
    var ys, bs := CanDownload(src, stopped, OneChunk(src));
    RunThenRun(src, ws, actions, ys, bs);
    ws, actions := ws + ys[1..], actions + bs;
    var published := ys[|bs|];
    AbandonedIsUnsound(src);
    var landed := Apply(src, published, OrphanLands(Abandoned(src)));
    assert IsRun(src, [published, landed], [OrphanLands(Abandoned(src))]);
    RunThenRun(src, ws, actions, [published, landed], [OrphanLands(Abandoned(src))]);
    ws, actions := ws + [published, landed][1..], actions + [OrphanLands(Abandoned(src))];
    ys, bs := UnsoundDiskEndsWrong(src, landed, Abandoned(src));
    RunThenRun(src, ws, actions, ys, bs);
    ws, actions := ws + ys[1..], actions + bs;
  }

  lemma ZerosAreAlwaysTidy(src: Bytes, w: World, a: Action)
    requires AllZero(src)
    ensures TidyStep(src, w, a)
  {
    forall m ensures MetaSound(src, None, m) {}
  }

  /** From a clean disk a wrong Ok can be reached exactly when the source is not all zeros. */
  lemma WrongOkReachableExactly(src: Bytes)
    ensures (exists ws, actions :: IsRun(src, ws, actions) && ws[0] == CLEAN && EndsWrong(src, ws)) <==> !AllZero(src)
  {
    if AllZero(src) {
      forall ws, actions | IsRun(src, ws, actions) && ws[0] == CLEAN ensures !EndsWrong(src, ws) {
        forall k | 0 <= k < |actions| ensures TidyStep(src, ws[k], actions[k]) {
          ZerosAreAlwaysTidy(src, ws[k], actions[k]);
        }
        DownloadIsSafe(src, ws, actions);
      }
    } else {
      var ws, actions := LateWriteLosesSource(src);
    }
  }

  // ---- A publication whose meta file stays behind ----

  /** The flush lists every chunk of the plan. */
  lemma FlushListsEveryChunk(src: Bytes, w: World, k: nat)
    requires Formed(src, w) && w.proc.Flushing? && k < |src|
    ensures k / w.proc.cfg.chunkSize in MetaOf(|src|, w.proc.cfg, w.proc.listed).completed
  {
    ByteInChunk(k, k / w.proc.cfg.chunkSize, |src|, w.proc.cfg.chunkSize);
    assert k / w.proc.cfg.chunkSize in Elements(Sorted(w.proc.listed));
  }

  lemma FullMetaWithoutFile(src: Bytes, w: World, cfg: Config, m: Meta)
    requires 0 < cfg.chunkSize && w.part == None && w.meta == Holds(m)
    requires m.total == |src| && m.chunkSize == cfg.chunkSize
    requires forall k | 0 <= k < |src| :: k / cfg.chunkSize in m.completed
    ensures ResumeIsSound(src, w, cfg) <==> AllZero(src)
  {
    RecreatedFileNeedsZeros(src, w, cfg);
    var loaded := Loaded(w.meta, |src|, cfg);
    if ResumeIsSound(src, w, cfg) {
      forall k | 0 <= k < |src| ensures src[k] == 0 {
        var i := k / cfg.chunkSize;
        assert i in loaded && 0 <= k < |src| && k / cfg.chunkSize == i;
      }
    }
  }

  /** The meta file stays behind: a crash or an abandoned call before its removal, or one that fails unnoticed. */
  predicate LeavesMeta(a: Action) {
    a == Crash(false) || a == Abandon || a == RemoveMeta(false)
  }

  /** At action `n` a session flushes and publishes, its meta stays behind, and the next one starts. */
  predicate MetaLeftBehind(ws: seq<World>, actions: seq<Action>, n: nat) {
    && n + 3 < |actions| < |ws| && ws[n].proc.Flushing?
    && actions[n].Flush? && actions[n + 1].Rename? && LeavesMeta(actions[n + 2])
    && actions[n + 3].Start? && actions[n + 3].cfg.chunkSize == ws[n].proc.cfg.chunkSize
  }

  lemma LeftBehindDisk(src: Bytes, ws: seq<World>, actions: seq<Action>, n: nat)
    requires IsRun(src, ws, actions) && Formed(src, ws[0]) && MetaLeftBehind(ws, actions, n)
    ensures ws[n + 3].part == None && 0 < ws[n].proc.cfg.chunkSize
    ensures ws[n + 3].meta == Holds(MetaOf(|src|, ws[n].proc.cfg, ws[n].proc.listed))
    ensures ws[n + 3].dest == ws[n].part
  {
    RunsAreFormed(src, ws, actions, n);
    NextInRun(src, ws, actions, n);
    NextInRun(src, ws, actions, n + 1);
    NextInRun(src, ws, actions, n + 2);
  }

  /**
    End to end: from a consistent start a session publishes the source and leaves its meta behind;
    when the next session returns Ok, the destination is the source exactly when it is all zeros.
    */
  lemma MetaLeftBehindLosesSource(src: Bytes, ws: seq<World>, actions: seq<Action>, n: nat, m: nat)
    requires IsRun(src, ws, actions) && ConsistentStart(src, ws[0]) && MetaLeftBehind(ws, actions, n)
    requires forall j | 0 <= j < n :: TidyStep(src, ws[j], actions[j])
    requires IsSession(src, ws, actions, n + 3, m) && ws[m].proc.ReturnedOk?
    ensures ws[n + 3].dest == Some(src)
    ensures ws[m].dest == Some(src) <==> AllZero(src)
  {
    LeftBehindDisk(src, ws, actions, n);
    RunsAreFormed(src, ws, actions, n);
    PublishedBefore(src, ws, actions, n);
    NextInRun(src, ws, actions, n);
    var full := MetaOf(|src|, ws[n].proc.cfg, ws[n].proc.listed);
    forall k | 0 <= k < |src| ensures k / ws[n].proc.cfg.chunkSize in full.completed {
      FlushListsEveryChunk(src, ws[n], k);
    }
    FullMetaWithoutFile(src, ws[n + 3], actions[n + 3].cfg, full);
    PublishesSourceExactlyWhenResumeIsSound(src, ws, actions, n + 3, m);
  }

  lemma PublishedBefore(src: Bytes, ws: seq<World>, actions: seq<Action>, n: nat)
    requires IsRun(src, ws, actions) && ConsistentStart(src, ws[0]) && n < |actions| && actions[n].Flush?
    requires forall j | 0 <= j < n :: TidyStep(src, ws[j], actions[j])
    ensures ws[n].part == Some(src)
  {
    TidyRunsKeepInv(src, ws, actions, n);
    NextInRun(src, ws, actions, n);
  }

  lemma PublishingSteps(src: Bytes, w: World) returns (flushed: World, renamed: World)
    requires Formed(src, w) && w.proc.Flushing?
    ensures Next(src, w, Flush, flushed) && Next(src, flushed, Rename, renamed) && renamed.proc.Renamed?
  {
    flushed := Apply(src, w, Flush);
    renamed := Apply(src, flushed, Rename);
  }

  lemma LeavingStep(src: Bytes, w: World, leave: Action) returns (left: World)
    requires w.proc.Renamed? && LeavesMeta(leave)
    ensures Next(src, w, leave, left) && (left.proc.Idle? || left.proc.ReturnedOk?)
  {
    left := Apply(src, w, leave);
  }

  lemma DownloadsUndisturbed(src: Bytes, w: World, cfg: Config, ws: seq<World>, actions: seq<Action>)
    requires Downloads(src, w, cfg, ws, actions)
    ensures forall j | 0 < j < |actions| :: Undisturbed(actions[j])
  {
    forall j | 0 < j < |actions| ensures Undisturbed(actions[j]) { assert Succeeds(actions[j]); }
  }

  /** From a state at its flush: publish, leave the meta behind, and download again. */
  lemma LeaveAndDownload(src: Bytes, w: World, leave: Action) returns (ws: seq<World>, actions: seq<Action>)
    requires Formed(src, w) && w.proc.Flushing? && w.orphans == multiset{} && LeavesMeta(leave)
    ensures IsRun(src, ws, actions) && ws[0] == w && |actions| > 3
    ensures actions[..3] == [Flush, Rename, leave] && actions[3] == Start(w.proc.cfg)
    ensures forall j | 3 < j < |actions| :: Undisturbed(actions[j])
    ensures ws[|actions|].proc.ReturnedOk?
  {
    var flushed, renamed := PublishingSteps(src, w);
    var left := LeavingStep(src, renamed, leave);
    var cfg := w.proc.cfg;
    ws, actions := CanDownload(src, left, cfg);
    DownloadsUndisturbed(src, left, cfg, ws, actions);
    ws, actions := Behind(src, w, flushed, renamed, leave, left, ws, actions);
  }

  /** A run behind the three publishing steps. */
  lemma Behind(src: Bytes, w: World, flushed: World, renamed: World, leave: Action, left: World,
               xs: seq<World>, after: seq<Action>)
    returns (ws: seq<World>, actions: seq<Action>)
    requires Next(src, w, Flush, flushed) && Next(src, flushed, Rename, renamed) && Next(src, renamed, leave, left)
    requires IsRun(src, xs, after) && xs[0] == left
    ensures IsRun(src, ws, actions) && ws == [w, flushed, renamed] + xs && actions == [Flush, Rename, leave] + after
  {
    StepThenRun(src, renamed, leave, xs, after);
    StepThenRun(src, flushed, Rename, [renamed] + xs, [leave] + after);
    StepThenRun(src, w, Flush, [flushed] + ([renamed] + xs), [Rename] + ([leave] + after));
    ws, actions := [w] + ([flushed] + ([renamed] + xs)), [Flush] + ([Rename] + ([leave] + after));
  }

  lemma SuccessIsTidy(src: Bytes, w: World, ws: seq<World>, actions: seq<Action>)
    requires SucceedsFrom(src, w, ws, actions) && w.orphans == multiset{}
    ensures TidyFrom(src, w, ws, actions)
  {
    forall j | 0 <= j < |actions| ensures TidyStep(src, ws[j], actions[j]) {
      assert Succeeds(actions[j]) && ws[j].orphans == multiset{};
    }
  }

  /** A first session up to where it can flush, nothing pending. */
  lemma ReadyToFlush(src: Bytes, cfg: Config) returns (ws: seq<World>, actions: seq<Action>)
    requires 0 < cfg.chunkSize
    ensures IsRun(src, ws, actions) && ws[0] == CLEAN && AllTidy(src, ws, actions)
    ensures var w := ws[|actions|];
      Formed(src, w) && w.proc.Flushing? && w.proc.cfg == cfg && w.orphans == multiset{}
  {
    var started := Apply(src, CLEAN, Start(cfg));
    StartForms(src, CLEAN, cfg);
    ws, actions := CanBeginFlush(src, started);
    RunsAreFormed(src, ws, actions, |actions|);
    SuccessIsTidy(src, started, ws, actions);
    TidyAfter(src, CLEAN, Start(cfg), ws, actions);
    ws, actions := [CLEAN] + ws, [Start(cfg)] + actions;
  }

  /** Such runs exist, from a clean disk, for either way of leaving the meta behind. */
  lemma MetaCanBeLeftBehind(src: Bytes, cfg: Config, leave: Action)
    returns (ws: seq<World>, actions: seq<Action>, n: nat)
    requires 0 < cfg.chunkSize && LeavesMeta(leave)
    ensures IsRun(src, ws, actions) && ws[0] == CLEAN && ConsistentStart(src, ws[0])
    ensures MetaLeftBehind(ws, actions, n) && actions[n + 2] == leave
    ensures forall j | 0 <= j < n :: TidyStep(src, ws[j], actions[j])
    ensures IsSession(src, ws, actions, n + 3, |actions|) && ws[|actions|].proc.ReturnedOk?
  {
    var xs, before := ReadyToFlush(src, cfg);
    var ready := xs[|before|];
    var ys, after := LeaveAndDownload(src, ready, leave);
    RunThenRun(src, xs, before, ys, after);
    ws, actions, n := xs + ys[1..], before + after, |before|;
    assert after[0] == after[..3][0] && after[1] == after[..3][1] && after[2] == after[..3][2];
    forall j | 0 <= j < n ensures TidyStep(src, ws[j], actions[j]) {
      assert TidyStep(src, xs[j], before[j]);
    }
    forall j | n + 3 < j < |actions| ensures Undisturbed(actions[j]) { assert actions[j] == after[j - n]; }
  }

  // ---- Single-shot downloads ----

  /** The file `retry_fetch_into` leaves: what each failed attempt wrote, then the whole source. */
  function SingleShot(src: Bytes, failed: seq<nat>): Bytes
    requires forall k | 0 <= k < |failed| :: failed[k] <= |src|
  {
    if failed == [] then src else src[..failed[0]] + SingleShot(src, failed[1..])
  }

  /** The writer is never rewound: the result is the source exactly when no failed attempt wrote. */
  lemma {:induction false} SingleShotExactly(src: Bytes, failed: seq<nat>)
    requires forall k | 0 <= k < |failed| :: failed[k] <= |src|
    ensures |SingleShot(src, failed)| >= |src|
    ensures SingleShot(src, failed) == src <==> forall k | 0 <= k < |failed| :: failed[k] == 0
  {
    if failed != [] {
      var rest := failed[1..];
      SingleShotExactly(src, rest);
      assert forall k | 0 <= k < |rest| :: rest[k] == failed[k + 1];
      if failed[0] == 0 {
        assert src[..0] + SingleShot(src, rest) == SingleShot(src, rest);
        if forall k | 0 <= k < |rest| :: rest[k] == 0 {
          forall k | 0 <= k < |failed| ensures failed[k] == 0 { if k > 0 { assert rest[k - 1] == 0; } }
        }
      }
    }
  }
}
