/**
  The chunked resumable download as a step system. The disk (`.part`, `.part.meta`, destination)
  survives a crash, the process does not; chunk tasks, snapshots of the completed set and the
  writes of those snapshots interleave freely. A task that has failed so often that it gives up
  makes the whole download stop, and a caller may abandon the download between its last steps.

  Assumed of the environment: the source is immutable; a request writes at most the requested
  range, in correct bytes, as a prefix when it fails; a file write has happened when it returns.
  */
module Download {
  import opened Wrappers
  import opened Words
  import opened ChunkPlan

  type Bytes = seq<u8>

  datatype Config = Config(chunkSize: nat, concurrency: nat, maxRetries: nat, persistEvery: nat)

  /** The persisted resume state. */
  datatype Meta = Meta(total: nat, chunkSize: nat, completed: seq<nat>)

  datatype MetaFile = Absent | Corrupt | Holds(m: Meta)

  /** Where one chunk task is. All but `Finished` and `Failed` hold a permit. */
  datatype Task =
    | Fetching(failures: nat)
    | Fetched
    | Marked
    | MustPersist
    | Persisting(snapshot: set<nat>)
    | Finished
    | Failed
  {
    predicate HoldsPermit() { !Finished? && !Failed? }
  }

  datatype Process =
    | Idle
    | Working(cfg: Config, loaded: set<nat>, completed: set<nat>, downloaded: nat, gate: nat,
              next: nat, tasks: map<nat, Task>, requests: map<nat, nat>)
    | Flushing(cfg: Config, listed: set<nat>, downloaded: nat)
    | Flushed(downloaded: nat)
    | Renamed
    | ReturnedOk

  /** `orphans` are meta writes whose tasks were aborted: they may still land, in any order. */
  datatype World = World(
    part: Option<Bytes>, meta: MetaFile, dest: Option<Bytes>, proc: Process, orphans: multiset<Meta>)

  // ---- Pieces of a step ----

  function Zeros(n: nat): Bytes { seq(n, _ => 0) }

  /** The pre-sized temp file: kept when its length is right, else recreated. */
  function PreSized(part: Option<Bytes>, total: nat): (b: Bytes)
    ensures |b| == total
  {
    if part.Some? && |part.value| == total then part.value else Zeros(total)
  }

  /** The resume state a run starts from: the persisted one when it matches, else an empty one. */
  function Loaded(meta: MetaFile, total: nat, cfg: Config): seq<nat> {
    if meta.Holds? && meta.m.total == total && meta.m.chunkSize == cfg.chunkSize then meta.m.completed else []
  }

  /** What a write leaves in a file: it overwrites, and extends the file when it runs past its end. */
  function WriteAt(part: Bytes, at: nat, data: Bytes): Bytes {
    (if at <= |part| then part[..at] else part + Zeros(at - |part|))
    + data
    + (if at + |data| <= |part| then part[at + |data|..] else [])
  }

  /** The bytes a request for `len` bytes at `at` delivers. */
  function Delivered(src: Bytes, at: nat, len: nat): Bytes {
    if at + len <= |src| then src[at..at + len] else []
  }

  function Live(tasks: map<nat, Task>): set<nat> { set i | i in tasks && tasks[i].HoldsPermit() }

  function Permits(cfg: Config): nat { Max(cfg.concurrency, 1) }

  ghost function MetaOf(total: nat, cfg: Config, completed: set<nat>): Meta {
    Meta(total, cfg.chunkSize, Sorted(completed))
  }

  // ---- Actions ----

  datatype Action =
    | Start(cfg: Config)
    | SkipDone
    | Spawn
    | RequestFails(i: nat, written: nat)
    | RequestSucceeds(i: nat)
    | TaskIoFails(i: nat)
    | Mark(i: nat)
    | PassGate(i: nat)
    | TakeSnapshot(i: nat)
    | PersistLands(i: nat)
    | PersistFails(i: nat, torn: bool)
    | Stop(inFlight: set<nat>)
    | OrphanLands(m: Meta)
    | BeginFlush
    | Flush
    | FlushFails(torn: bool)
    | Abandon
    | VerifyFails
    | Rename
    | RemoveMeta(removed: bool)
    | Crash(torn: bool)

  ghost predicate TaskIs(w: World, i: nat, p: Task -> bool) {
    w.proc.Working? && i in w.proc.tasks && p(w.proc.tasks[i])
  }

  /** The spawning loop has a chunk of the plan left. */
  predicate HasNext(src: Bytes, w: World) {
    w.proc.Working? && w.proc.next < |PlanChunks(|src|, w.proc.cfg.chunkSize)|
  }

  ghost predicate Enabled(src: Bytes, w: World, a: Action) {
    match a
    case Start(cfg) => (w.proc.Idle? || w.proc.ReturnedOk?) && 0 < cfg.chunkSize
    case SkipDone =>
      HasNext(src, w) && w.proc.next in w.proc.loaded
    case Spawn =>
      && HasNext(src, w) && w.proc.next !in w.proc.loaded
      && |Live(w.proc.tasks)| < Permits(w.proc.cfg)
    case RequestFails(i, written) =>
      TaskIs(w, i, (t: Task) => t.Fetching?) && w.part.Some? && written <= ChunkLen(i, |src|, w.proc.cfg.chunkSize)
    case RequestSucceeds(i) => TaskIs(w, i, (t: Task) => t.Fetching?) && w.part.Some?
    case TaskIoFails(i) => TaskIs(w, i, (t: Task) => t.Fetching?)
    case Mark(i) => TaskIs(w, i, (t: Task) => t.Fetched?)
    case PassGate(i) => TaskIs(w, i, (t: Task) => t.Marked?)
    case TakeSnapshot(i) => TaskIs(w, i, (t: Task) => t.MustPersist?)
    case PersistLands(i) => TaskIs(w, i, (t: Task) => t.Persisting?)
    case PersistFails(i, _) => TaskIs(w, i, (t: Task) => t.Persisting?)
    case Stop(inFlight) =>
      w.proc.Working? && forall i | i in inFlight :: i in w.proc.tasks && w.proc.tasks[i].Persisting?
    case OrphanLands(m) => m in w.orphans
    case BeginFlush =>
      && w.proc.Working? && !HasNext(src, w)
      && forall i | i in w.proc.tasks :: w.proc.tasks[i].Finished?
    case Flush => w.proc.Flushing?
    case FlushFails(_) => w.proc.Flushing?
    case Abandon => w.proc.Flushing? || w.proc.Flushed? || w.proc.Renamed?
    case VerifyFails => w.proc.Flushed?
    case Rename => w.proc.Flushed? && w.part.Some?
    case RemoveMeta(_) => w.proc.Renamed?
    case Crash(_) => true
  }

  function SetTask(w: World, i: nat, t: Task): World
    requires w.proc.Working?
  {
    w.(proc := w.proc.(tasks := w.proc.tasks[i := t]))
  }

  /** The task after one more failed attempt. */
  function AfterFailure(cfg: Config, failures: nat): Task {
    if failures + 1 > cfg.maxRetries then Failed else Fetching(failures + 1)
  }

  /** One more request for chunk `i`, and the bytes it left in the temp file. */
  function Requested(src: Bytes, w: World, i: nat, written: nat, t: Task): World
    requires w.proc.Working? && w.part.Some?
  {
    var at := ChunkStart(i, w.proc.cfg.chunkSize);
    var count := if i in w.proc.requests then w.proc.requests[i] + 1 else 1;
    w.(part := Some(WriteAt(w.part.value, at, Delivered(src, at, written))),
       proc := w.proc.(tasks := w.proc.tasks[i := t], requests := w.proc.requests[i := count]))
  }

  /** The metas of a set of tasks that are being written. */
  ghost function InFlight(src: Bytes, p: Process, ids: set<nat>): multiset<Meta>
    requires p.Working? && forall i | i in ids :: i in p.tasks && p.tasks[i].Persisting?
  {
    if ids == {} then multiset{}
    else
      var i :| i in ids;
      InFlight(src, p, ids - {i}) + multiset{MetaOf(|src|, p.cfg, p.tasks[i].snapshot)}
  }

  ghost function Apply(src: Bytes, w: World, a: Action): World
    requires Enabled(src, w, a)
  {
    match a
    case Start(cfg) =>
      var loaded := Loaded(w.meta, |src|, cfg);
      w.(part := Some(PreSized(w.part, |src|)),
         proc := Working(
           cfg, Elements(loaded), Elements(loaded), BytesOf(loaded, |src|, cfg.chunkSize), 0, 0, map[], map[]))
    case SkipDone => w.(proc := w.proc.(next := w.proc.next + 1))
    case Spawn =>
      w.(proc := w.proc.(next := w.proc.next + 1, tasks := w.proc.tasks[w.proc.next := Fetching(0)],
                         requests := w.proc.requests[w.proc.next := 0]))
    case RequestFails(i, written) =>
      Requested(src, w, i, written, AfterFailure(w.proc.cfg, w.proc.tasks[i].failures))
    case RequestSucceeds(i) => Requested(src, w, i, ChunkLen(i, |src|, w.proc.cfg.chunkSize), Fetched)
    case TaskIoFails(i) => SetTask(w, i, Failed)
    case Mark(i) =>
      SetTask(w.(proc := w.proc.(completed := w.proc.completed + {i},
                                 downloaded := w.proc.downloaded + ChunkLen(i, |src|, w.proc.cfg.chunkSize))),
              i, Marked)
    case PassGate(i) =>
      SetTask(w.(proc := w.proc.(gate := w.proc.gate + 1)),
              i, if (w.proc.gate + 1) % Max(w.proc.cfg.persistEvery, 1) == 0 then MustPersist else Finished)
    case TakeSnapshot(i) => SetTask(w, i, Persisting(w.proc.completed))
    case PersistLands(i) =>
      SetTask(w.(meta := Holds(MetaOf(|src|, w.proc.cfg, w.proc.tasks[i].snapshot))), i, Finished)
    case PersistFails(i, torn) => SetTask(w.(meta := if torn then Corrupt else w.meta), i, Failed)
    case Stop(inFlight) => w.(proc := Idle, orphans := w.orphans + InFlight(src, w.proc, inFlight))
    case OrphanLands(m) => w.(meta := Holds(m), orphans := w.orphans - multiset{m})
    case BeginFlush => w.(proc := Flushing(w.proc.cfg, w.proc.completed, w.proc.downloaded))
    case Flush => w.(meta := Holds(MetaOf(|src|, w.proc.cfg, w.proc.listed)), proc := Flushed(w.proc.downloaded))
    case FlushFails(torn) => w.(meta := if torn then Corrupt else w.meta, proc := Idle)
    case Abandon =>
      w.(proc := Idle,
         orphans := if w.proc.Flushing? then w.orphans + multiset{MetaOf(|src|, w.proc.cfg, w.proc.listed)}
                    else w.orphans)
    case VerifyFails => w.(proc := Idle)
    case Rename => w.(part := None, dest := w.part, proc := Renamed)
    case RemoveMeta(removed) => w.(meta := if removed then Absent else w.meta, proc := ReturnedOk)
    case Crash(torn) => w.(meta := if torn then Corrupt else w.meta, proc := Idle, orphans := multiset{})
  }

  // ---- Runs ----

  ghost predicate Next(src: Bytes, w: World, a: Action, w': World) {
    Enabled(src, w, a) && w' == Apply(src, w, a)
  }

  /** A run: the states it passes through, and the action taken in each but the last. */
  ghost predicate IsRun(src: Bytes, ws: seq<World>, actions: seq<Action>) {
    |ws| == |actions| + 1 && forall k | 0 <= k < |actions| :: Next(src, ws[k], actions[k], ws[k + 1])
  }

  lemma NextInRun(src: Bytes, ws: seq<World>, actions: seq<Action>, k: nat)
    requires IsRun(src, ws, actions) && k < |actions|
    ensures Next(src, ws[k], actions[k], ws[k + 1])
  {
  }

  /** One more action in front of a run. */
  lemma StepThenRun(src: Bytes, w: World, a: Action, ws: seq<World>, actions: seq<Action>)
    requires IsRun(src, ws, actions) && Next(src, w, a, ws[0])
    ensures IsRun(src, [w] + ws, [a] + actions)
  {
    var ws', actions' := [w] + ws, [a] + actions;
    forall k | 0 <= k < |actions'| ensures Next(src, ws'[k], actions'[k], ws'[k + 1]) {
      if k > 0 { NextInRun(src, ws, actions, k - 1); }
    }
  }

  /** One run after another. */
  lemma RunThenRun(src: Bytes, xs: seq<World>, before: seq<Action>, ys: seq<World>, bs: seq<Action>)
    requires IsRun(src, xs, before) && IsRun(src, ys, bs) && xs[|xs| - 1] == ys[0]
    ensures IsRun(src, xs + ys[1..], before + bs)
    ensures (xs + ys[1..])[|xs + ys[1..]| - 1] == ys[|ys| - 1]
  {
    var ws, actions := xs + ys[1..], before + bs;
    forall k | 0 <= k < |actions| ensures Next(src, ws[k], actions[k], ws[k + 1]) {
      if k < |before| {
        NextInRun(src, xs, before, k);
      } else {
        NextInRun(src, ys, bs, k - |before|);
      }
    }
  }
}
