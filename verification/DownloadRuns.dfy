/**
  What a download publishes: the bytes behind every run of sessions, with their stops, crashes and
  late meta writes; the guard under which every Ok publishes the source; and what happens without it.
  */
module DownloadRuns {
  import opened Wrappers
  import opened ChunkPlan
  import opened Download
  import opened DownloadWork

  // ---- Right bytes ----

  /** Chunk `i` of the temp file holds the source's bytes. */
  ghost predicate ChunkRight(src: Bytes, part: Bytes, size: nat, i: nat)
    requires |part| == |src| && 0 < size
  {
    forall k | 0 <= k < |src| && k / size == i :: part[k] == src[k]
  }

  /** The chunks a meta lists are right in the file a session would start on. */
  ghost predicate MetaSound(src: Bytes, part: Option<Bytes>, m: Meta) {
    m.total == |src| && 0 < m.chunkSize ==>
      forall i | i in m.completed :: ChunkRight(src, PreSized(part, |src|), m.chunkSize, i)
  }

  ghost predicate OrphansSound(src: Bytes, part: Option<Bytes>, orphans: multiset<Meta>) {
    forall m | m in orphans :: MetaSound(src, part, m)
  }

  ghost predicate BytesRight(src: Bytes, part: Bytes, p: Process)
    requires p.Working? && |part| == |src| && 0 < p.cfg.chunkSize
  {
    && (forall i | i in p.completed :: ChunkRight(src, part, p.cfg.chunkSize, i))
    && (forall i | i in p.tasks && p.tasks[i].Fetched? :: ChunkRight(src, part, p.cfg.chunkSize, i))
  }

  /** What a tidy run keeps. Between the rename and the removal the meta file speaks of a file that is gone. */
  ghost predicate Inv(src: Bytes, w: World) {
    && Formed(src, w)
    && OrphansSound(src, w.part, w.orphans)
    && (!w.proc.Renamed? && w.meta.Holds? ==> MetaSound(src, w.part, w.meta.m))
    && (w.proc.Working? ==> BytesRight(src, w.part.value, w.proc))
    && (w.proc.Flushing? || w.proc.Flushed? ==> w.part == Some(src))
    && (w.proc.Renamed? ==> w.part == None)
    && (w.proc.Renamed? || w.proc.ReturnedOk? ==> w.dest == Some(src))
  }

  /** Where a run may begin: nothing running, and files and abandoned writes that agree. */
  ghost predicate ConsistentStart(src: Bytes, w: World) {
    && w.proc.Idle? && OrphansSound(src, w.part, w.orphans)
    && (w.meta.Holds? ==> MetaSound(src, w.part, w.meta.m))
  }

  /**
    The guard: a publication takes away the temp file, so what is still to be written, and what the
    meta file says when it is left behind, must be sound without it.
    */
  ghost predicate TidyStep(src: Bytes, w: World, a: Action) {
    match a
    case Rename => OrphansSound(src, None, w.orphans)
    case RemoveMeta(removed) => removed || (w.meta.Holds? ==> MetaSound(src, None, w.meta.m))
    case Abandon => w.proc.Renamed? && w.meta.Holds? ==> MetaSound(src, None, w.meta.m)
    case Crash(torn) => w.proc.Renamed? && !torn && w.meta.Holds? ==> MetaSound(src, None, w.meta.m)
    case _ => true
  }

  /** What a caller can see to: no abandoned write is pending at a publication, and its meta is removed. */
  lemma QuietStepsAreTidy(src: Bytes, w: World, a: Action)
    requires a.Rename? ==> w.orphans == multiset{}
    requires a.RemoveMeta? ==> a.removed
    requires a.Crash? || a.Abandon? ==> !w.proc.Renamed?
    ensures TidyStep(src, w, a)
  {
  }

  ghost predicate AllTidy(src: Bytes, ws: seq<World>, actions: seq<Action>)
    requires |ws| >= |actions|
  {
    forall k | 0 <= k < |actions| :: TidyStep(src, ws[k], actions[k])
  }

  // ---- Every tidy step keeps the invariant ----

  /** A change of the temp file that only ever makes bytes right. */
  ghost predicate Improves(src: Bytes, before: Bytes, after: Bytes) {
    && |before| == |after| == |src|
    && forall k | 0 <= k < |src| && before[k] == src[k] :: after[k] == src[k]
  }

  lemma WritingSourceImproves(src: Bytes, part: Bytes, at: nat, len: nat)
    requires |part| == |src| && at + len <= |src|
    ensures Improves(src, part, WriteAt(part, at, Delivered(src, at, len)))
    ensures forall k | 0 <= k < |src| ::
      WriteAt(part, at, Delivered(src, at, len))[k] == if at <= k < at + len then src[k] else part[k]
  {
  }

  /** A request writes into its own chunk only. */
  lemma RequestKeepsOthers(src: Bytes, part: Bytes, size: nat, i: nat, len: nat)
    requires |part| == |src| && 0 < size && i < ChunkCount(|src|, size) && len <= ChunkLen(i, |src|, size)
    ensures var at := ChunkStart(i, size);
      var after := WriteAt(part, at, Delivered(src, at, len));
      && Improves(src, part, after)
      && (forall k | 0 <= k < |src| && k / size != i :: after[k] == part[k])
      && (len == ChunkLen(i, |src|, size) ==> ChunkRight(src, after, size, i))
  {
    var at := ChunkStart(i, size);
    ChunkBounds(i, |src|, size);
    WritingSourceImproves(src, part, at, len);
    forall k | 0 <= k < |src| && (at <= k < at + len || k / size == i)
      ensures k / size == i && (at <= k < ChunkEnd(i, |src|, size))
    {
      ByteInChunk(k, i, |src|, size);
    }
  }

  lemma ChunkStaysRight(src: Bytes, before: Bytes, after: Bytes, size: nat, i: nat)
    requires Improves(src, before, after) && 0 < size && ChunkRight(src, before, size, i)
    ensures ChunkRight(src, after, size, i)
  {
  }

  lemma MetaStaysSound(src: Bytes, before: Bytes, after: Bytes, m: Meta)
    requires Improves(src, before, after) && MetaSound(src, Some(before), m)
    ensures MetaSound(src, Some(after), m)
  {
    if m.total == |src| && 0 < m.chunkSize {
      forall i | i in m.completed ensures ChunkRight(src, after, m.chunkSize, i) {
        ChunkStaysRight(src, before, after, m.chunkSize, i);
      }
    }
  }

  /** Pre-sizing changes nothing a meta file could be judged by. */
  lemma PreSizingKeepsSound(src: Bytes, part: Option<Bytes>, m: Meta)
    ensures MetaSound(src, Some(PreSized(part, |src|)), m) <==> MetaSound(src, part, m)
  {
  }

  lemma SnapshotSound(src: Bytes, part: Bytes, p: Process, s: set<nat>)
    requires p.Working? && |part| == |src| && 0 < p.cfg.chunkSize && BytesRight(src, part, p) && s <= p.completed
    ensures MetaSound(src, Some(part), MetaOf(|src|, p.cfg, s))
  {
    forall i | i in Sorted(s) ensures ChunkRight(src, part, p.cfg.chunkSize, i) { assert i in Elements(Sorted(s)); }
  }

  lemma StartKeeps(src: Bytes, w: World, cfg: Config)
    requires Inv(src, w) && Enabled(src, w, Start(cfg))
    ensures Inv(src, Apply(src, w, Start(cfg)))
  {
    StartForms(src, w, cfg);
    forall m ensures MetaSound(src, Some(PreSized(w.part, |src|)), m) <==> MetaSound(src, w.part, m) {
      PreSizingKeepsSound(src, w.part, m);
    }
  }

  /** The bytes after a request of task `i`, which then is either fetched in full or still to be fetched. */
  lemma RequestKeepsBytes(src: Bytes, part: Bytes, p: Process, p': Process, i: nat, len: nat)
    requires p.Working? && |part| == |src| && 0 < p.cfg.chunkSize && BytesRight(src, part, p)
    requires OnlyTask(p, p', i) && p'.completed == p.completed && i < ChunkCount(|src|, p.cfg.chunkSize)
    requires len <= ChunkLen(i, |src|, p.cfg.chunkSize)
    requires p'.tasks[i].Fetched? ==> len == ChunkLen(i, |src|, p.cfg.chunkSize)
    ensures var at := ChunkStart(i, p.cfg.chunkSize);
      var after := WriteAt(part, at, Delivered(src, at, len));
      Improves(src, part, after) && BytesRight(src, after, p')
  {
    var size := p.cfg.chunkSize;
    var after := WriteAt(part, ChunkStart(i, size), Delivered(src, ChunkStart(i, size), len));
    RequestKeepsOthers(src, part, size, i, len);
    forall j | j in p'.completed ensures ChunkRight(src, after, size, j) { ChunkStaysRight(src, part, after, size, j); }
    forall j | j in p'.tasks && p'.tasks[j].Fetched? ensures ChunkRight(src, after, size, j) {
      if j != i { ChunkStaysRight(src, part, after, size, j); }
    }
  }

  lemma ImprovedDisk(src: Bytes, w: World, w': World)
    requires w.part.Some? && w'.part.Some? && Improves(src, w.part.value, w'.part.value)
    requires w'.meta == w.meta && w'.orphans == w.orphans && OrphansSound(src, w.part, w.orphans)
    requires w.meta.Holds? ==> MetaSound(src, w.part, w.meta.m)
    ensures OrphansSound(src, w'.part, w'.orphans) && (w'.meta.Holds? ==> MetaSound(src, w'.part, w'.meta.m))
  {
    if w.meta.Holds? { MetaStaysSound(src, w.part.value, w'.part.value, w.meta.m); }
    forall m | m in w'.orphans ensures MetaSound(src, w'.part, m) {
      MetaStaysSound(src, w.part.value, w'.part.value, m);
    }
  }

  lemma RequestKeeps(src: Bytes, w: World, a: Action)
    requires Inv(src, w) && (a.RequestFails? || a.RequestSucceeds?) && Enabled(src, w, a)
    ensures Inv(src, Apply(src, w, a))
  {
    var w' := Apply(src, w, a);
    var len := if a.RequestFails? then a.written else ChunkLen(a.i, |src|, w.proc.cfg.chunkSize);
    TaskStepChanges(src, w, a);
    TaskStepForms(src, w, a);
    RequestKeepsBytes(src, w.part.value, w.proc, w'.proc, a.i, len);
    ImprovedDisk(src, w, w');
  }

  lemma MarkKeeps(src: Bytes, w: World, i: nat)
    requires Inv(src, w) && Enabled(src, w, Mark(i))
    ensures Inv(src, Apply(src, w, Mark(i)))
  {
    TaskStepForms(src, w, Mark(i));
  }

  lemma PersistKeeps(src: Bytes, w: World, i: nat)
    requires Inv(src, w) && Enabled(src, w, PersistLands(i))
    ensures Inv(src, Apply(src, w, PersistLands(i)))
  {
    TaskStepForms(src, w, PersistLands(i));
    assert TaskShape(w.proc, i);
    SnapshotSound(src, w.part.value, w.proc, w.proc.tasks[i].snapshot);
  }

  /** The other steps of a task touch neither files nor the completed set. */
  lemma OtherTaskStepKeeps(src: Bytes, w: World, a: Action)
    requires Inv(src, w) && Enabled(src, w, a)
    requires a.TaskIoFails? || a.PassGate? || a.TakeSnapshot? || a.PersistFails?
    ensures Inv(src, Apply(src, w, a))
  {
    TaskStepForms(src, w, a);
  }

  lemma StopKeeps(src: Bytes, w: World, inFlight: set<nat>)
    requires Inv(src, w) && Enabled(src, w, Stop(inFlight))
    ensures Inv(src, Apply(src, w, Stop(inFlight)))
  {
    var w' := Apply(src, w, Stop(inFlight));
    forall m | m in w'.orphans ensures MetaSound(src, w'.part, m) {
      if m !in w.orphans {
        var i := InFlightIsSnapshot(src, w.proc, inFlight, m);
        assert TaskShape(w.proc, i);
        SnapshotSound(src, w.part.value, w.proc, w.proc.tasks[i].snapshot);
      }
    }
  }

  /** When every chunk is right, the file is the source. */
  lemma AllChunksRight(src: Bytes, part: Bytes, size: nat)
    requires |part| == |src| && 0 < size
    requires forall i: nat | i < ChunkCount(|src|, size) :: ChunkRight(src, part, size, i)
    ensures part == src
  {
    forall k | 0 <= k < |src| ensures part[k] == src[k] {
      ByteInChunk(k, k / size, |src|, size);
      assert ChunkRight(src, part, size, k / size);
    }
  }

  lemma BeginKeeps(src: Bytes, w: World)
    requires Inv(src, w) && Enabled(src, w, BeginFlush)
    ensures Inv(src, Apply(src, w, BeginFlush))
  {
    var p := w.proc;
    BeginForms(src, w);
    forall i: nat | i < ChunkCount(|src|, p.cfg.chunkSize) ensures ChunkRight(src, w.part.value, p.cfg.chunkSize, i) {
      FlushCovers(src, w, i);
    }
    AllChunksRight(src, w.part.value, p.cfg.chunkSize);
  }

  /** In front of the source itself every meta is sound. */
  lemma SoundOnSource(src: Bytes, m: Meta)
    ensures MetaSound(src, Some(src), m)
  {
  }

  lemma FlushKeeps(src: Bytes, w: World)
    requires Inv(src, w) && Enabled(src, w, Flush)
    ensures Inv(src, Apply(src, w, Flush))
  {
    SoundOnSource(src, MetaOf(|src|, w.proc.cfg, w.proc.listed));
  }

  lemma AbandonKeeps(src: Bytes, w: World)
    requires Inv(src, w) && Enabled(src, w, Abandon) && TidyStep(src, w, Abandon)
    ensures Inv(src, Apply(src, w, Abandon))
  {
    if w.proc.Flushing? { SoundOnSource(src, MetaOf(|src|, w.proc.cfg, w.proc.listed)); }
  }

  lemma PlanStepKeeps(src: Bytes, w: World, a: Action)
    requires Inv(src, w) && (a.Spawn? || a.SkipDone?) && Enabled(src, w, a)
    ensures Inv(src, Apply(src, w, a))
  {
    StepForms(src, w, a);
  }

  lemma PublishingKeeps(src: Bytes, w: World, a: Action)
    requires Inv(src, w) && Enabled(src, w, a) && TidyStep(src, w, a) && (a.Rename? || a.RemoveMeta?)
    ensures Inv(src, Apply(src, w, a))
  {
  }

  lemma CrashKeeps(src: Bytes, w: World, torn: bool)
    requires Inv(src, w) && TidyStep(src, w, Crash(torn))
    ensures Inv(src, Apply(src, w, Crash(torn)))
  {
  }

  /** The other steps that touch no task. */
  lemma DiskStepKeeps(src: Bytes, w: World, a: Action)
    requires Inv(src, w) && Enabled(src, w, a) && (a.OrphanLands? || a.FlushFails? || a.VerifyFails?)
    ensures Inv(src, Apply(src, w, a))
  {
  }

  /** Every tidy step keeps the invariant. */
  lemma StepKeeps(src: Bytes, w: World, a: Action)
    requires Inv(src, w) && Enabled(src, w, a) && TidyStep(src, w, a)
    ensures Inv(src, Apply(src, w, a))
  {
    match a
    case Start(cfg) => StartKeeps(src, w, cfg);
    case SkipDone => PlanStepKeeps(src, w, a);
    case Spawn => PlanStepKeeps(src, w, a);
    case RequestFails(_, _) => RequestKeeps(src, w, a);
    case RequestSucceeds(_) => RequestKeeps(src, w, a);
    case Mark(i) => MarkKeeps(src, w, i);
    case PersistLands(i) => PersistKeeps(src, w, i);
    case TaskIoFails(_) => OtherTaskStepKeeps(src, w, a);
    case PassGate(_) => OtherTaskStepKeeps(src, w, a);
    case TakeSnapshot(_) => OtherTaskStepKeeps(src, w, a);
    case PersistFails(_, _) => OtherTaskStepKeeps(src, w, a);
    case Stop(inFlight) => StopKeeps(src, w, inFlight);
    case BeginFlush => BeginKeeps(src, w);
    case Flush => FlushKeeps(src, w);
    case Abandon => AbandonKeeps(src, w);
    case Rename => PublishingKeeps(src, w, a);
    case RemoveMeta(_) => PublishingKeeps(src, w, a);
    case Crash(torn) => CrashKeeps(src, w, torn);
    case _ => DiskStepKeeps(src, w, a);
  }

  lemma {:induction false} TidyRunsKeepInv(src: Bytes, ws: seq<World>, actions: seq<Action>, k: nat)
    requires IsRun(src, ws, actions) && Inv(src, ws[0]) && k < |ws|
    requires forall j | 0 <= j < k :: TidyStep(src, ws[j], actions[j])
    ensures Inv(src, ws[k])
  {
    if k > 0 {
      TidyRunsKeepInv(src, ws, actions, k - 1);
      NextInRun(src, ws, actions, k - 1);
      StepKeeps(src, ws[k - 1], actions[k - 1]);
    }
  }

  ghost predicate OnlySource(src: Bytes, ws: seq<World>) {
    forall k | 0 <= k < |ws| && ws[k].proc.ReturnedOk? :: ws[k].dest == Some(src)
  }

  /**
    Over every interleaving of chunk tasks, late or reordered meta writes, aborts, crashes and
    restarts, through any number of sessions and publications, as long as publications are tidy:
    each index in memory or in `.part.meta` marks a chunk whose bytes in `.part` are the source's,
    and whenever a session has returned Ok the destination is the source, byte for byte.
    */
  lemma DownloadIsSafe(src: Bytes, ws: seq<World>, actions: seq<Action>)
    requires IsRun(src, ws, actions) && ConsistentStart(src, ws[0]) && AllTidy(src, ws, actions)
    ensures OnlySource(src, ws)
    ensures forall k | 0 <= k < |ws| && !ws[k].proc.Renamed? && ws[k].meta.Holds? ::
      MetaSound(src, ws[k].part, ws[k].meta.m)
    ensures forall k | 0 <= k < |ws| && ws[k].proc.Working? ::
      var part, p := ws[k].part, ws[k].proc;
      && part.Some? && |part.value| == |src| && 0 < p.cfg.chunkSize
      && forall i | i in p.completed :: ChunkRight(src, part.value, p.cfg.chunkSize, i)
  {
    forall k | 0 <= k < |ws| ensures Inv(src, ws[k]) { TidyRunsKeepInv(src, ws, actions, k); }
  }

  // ---- Up to the first publication no guard is needed ----

  lemma {:induction false} BeforeAnyRename(src: Bytes, ws: seq<World>, actions: seq<Action>, k: nat)
    requires IsRun(src, ws, actions) && ConsistentStart(src, ws[0]) && k < |ws|
    requires forall j | 0 <= j < k :: !actions[j].Rename?
    ensures Inv(src, ws[k]) && !ws[k].proc.Renamed? && !ws[k].proc.ReturnedOk?
  {
    if k > 0 {
      BeforeAnyRename(src, ws, actions, k - 1);
      NextInRun(src, ws, actions, k - 1);
      StepKeeps(src, ws[k - 1], actions[k - 1]);
    }
  }

  lemma {:induction false} OnlyRenamePublishes(src: Bytes, ws: seq<World>, actions: seq<Action>, n: nat, k: nat)
    requires IsRun(src, ws, actions) && n <= k < |ws|
    requires forall j | n <= j < k :: !actions[j].Rename?
    ensures ws[k].dest == ws[n].dest
  {
    if n < k {
      OnlyRenamePublishes(src, ws, actions, n, k - 1);
      NextInRun(src, ws, actions, k - 1);
    }
  }

  /** The first publication of any run from a consistent start, tidy or not, is the source. */
  lemma FirstPublicationIsTheSource(src: Bytes, ws: seq<World>, actions: seq<Action>, r: nat, k: nat)
    requires IsRun(src, ws, actions) && ConsistentStart(src, ws[0]) && r < k < |ws|
    requires actions[r].Rename? && forall j | 0 <= j < k && j != r :: !actions[j].Rename?
    ensures ws[k].dest == Some(src)
  {
    BeforeAnyRename(src, ws, actions, r);
    NextInRun(src, ws, actions, r);
    OnlyRenamePublishes(src, ws, actions, r + 1, k);
  }

  // ---- What one session publishes, whatever it starts on ----

  /** The bytes of the chunks a session skips are those it found, and the others become the source's. */
  ghost predicate KeepsLoaded(src: Bytes, found: Bytes, part: Bytes, p: Process)
    requires p.Working?
  {
    && 0 < p.cfg.chunkSize && |part| == |src| == |found|
    && (forall k | 0 <= k < |src| && k / p.cfg.chunkSize in p.loaded :: part[k] == found[k])
    && (forall i | i in p.tasks && !p.tasks[i].Fetching? && !p.tasks[i].Failed? ::
          ChunkRight(src, part, p.cfg.chunkSize, i))
  }

  /** The steps of one session after its start: no second start, no stop, no crash, no failing end. */
  predicate Undisturbed(a: Action) {
    !a.Start? && !a.Stop? && !a.Crash? && !a.Abandon? && !a.FlushFails? && !a.VerifyFails?
  }

  lemma RequestKeepsLoaded(src: Bytes, found: Bytes, w: World, a: Action)
    requires Formed(src, w) && (a.RequestFails? || a.RequestSucceeds?) && Enabled(src, w, a)
    requires KeepsLoaded(src, found, w.part.value, w.proc)
    ensures var w' := Apply(src, w, a); w'.part.Some? && KeepsLoaded(src, found, w'.part.value, w'.proc)
  {
    var p, w' := w.proc, Apply(src, w, a);
    var size := p.cfg.chunkSize;
    RequestKeepsOthers(src, w.part.value, size, a.i, if a.RequestFails? then a.written else ChunkLen(a.i, |src|, size));
    forall j | j in w'.proc.tasks && !w'.proc.tasks[j].Fetching? && !w'.proc.tasks[j].Failed?
      ensures ChunkRight(src, w'.part.value, size, j)
    {
      if j != a.i { ChunkStaysRight(src, w.part.value, w'.part.value, size, j); }
    }
  }

  lemma TaskStepKeepsLoaded(src: Bytes, found: Bytes, w: World, a: Action)
    requires Formed(src, w) && IsTaskStep(a) && !a.RequestFails? && !a.RequestSucceeds? && Enabled(src, w, a)
    requires KeepsLoaded(src, found, w.part.value, w.proc)
    ensures var w' := Apply(src, w, a); w'.part == w.part && KeepsLoaded(src, found, w.part.value, w'.proc)
  {
    TaskStepChanges(src, w, a);
  }

  lemma PlanStepKeepsLoaded(src: Bytes, found: Bytes, w: World, a: Action)
    requires Formed(src, w) && (a.Spawn? || a.SkipDone?) && Enabled(src, w, a)
    requires KeepsLoaded(src, found, w.part.value, w.proc)
    ensures var w' := Apply(src, w, a); w'.part == w.part && KeepsLoaded(src, found, w.part.value, w'.proc)
  {
  }

  lemma WorkKeepsLoaded(src: Bytes, found: Bytes, w: World, a: Action)
    requires Formed(src, w) && w.proc.Working? && KeepsLoaded(src, found, w.part.value, w.proc)
    requires Undisturbed(a) && Enabled(src, w, a) && !a.BeginFlush?
    ensures var w' := Apply(src, w, a);
      w'.proc.Working? && w'.part.Some? && KeepsLoaded(src, found, w'.part.value, w'.proc)
      && w'.proc.loaded == w.proc.loaded && w'.proc.cfg == w.proc.cfg
  {
    if a.RequestFails? || a.RequestSucceeds? {
      RequestKeepsLoaded(src, found, w, a);
    } else if IsTaskStep(a) {
      TaskStepKeepsLoaded(src, found, w, a);
      TaskStepChanges(src, w, a);
    } else if a.Spawn? || a.SkipDone? {
      PlanStepKeepsLoaded(src, found, w, a);
    }
  }

  /** `b` is the source, except that the chunks of `loaded` are those of `found`. */
  ghost predicate IsPatched(src: Bytes, found: Bytes, b: Bytes, size: nat, loaded: set<nat>) {
    && 0 < size && |b| == |src| == |found|
    && forall k | 0 <= k < |src| :: b[k] == if k / size in loaded then found[k] else src[k]
  }

  /** What a session has done so far, whatever pair of files it was started on. */
  ghost predicate SessionState(src: Bytes, found: Bytes, w: World, size: nat, loaded: set<nat>) {
    if w.proc.Working? then
      && w.proc.loaded == loaded && w.proc.cfg.chunkSize == size
      && w.part.Some? && KeepsLoaded(src, found, w.part.value, w.proc)
    else if w.proc.Flushing? || w.proc.Flushed? then w.part.Some? && IsPatched(src, found, w.part.value, size, loaded)
    else !w.proc.Idle? && w.dest.Some? && IsPatched(src, found, w.dest.value, size, loaded)
  }

  lemma FlushIsPatched(src: Bytes, found: Bytes, w: World)
    requires Formed(src, w) && Enabled(src, w, BeginFlush) && KeepsLoaded(src, found, w.part.value, w.proc)
    ensures IsPatched(src, found, w.part.value, w.proc.cfg.chunkSize, w.proc.loaded)
  {
    var p := w.proc;
    PlanReached(src, w);
    forall k | 0 <= k < |src|
      ensures w.part.value[k] == if k / p.cfg.chunkSize in p.loaded then found[k] else src[k]
    {
      ByteInChunk(k, k / p.cfg.chunkSize, |src|, p.cfg.chunkSize);
      if k / p.cfg.chunkSize !in p.loaded {
        assert ChunkRight(src, w.part.value, p.cfg.chunkSize, k / p.cfg.chunkSize);
      }
    }
  }

  lemma SessionStep(src: Bytes, found: Bytes, w: World, a: Action, size: nat, loaded: set<nat>)
    requires Formed(src, w) && SessionState(src, found, w, size, loaded) && Undisturbed(a) && Enabled(src, w, a)
    ensures SessionState(src, found, Apply(src, w, a), size, loaded)
  {
    if w.proc.Working? {
      if a.BeginFlush? { FlushIsPatched(src, found, w); } else { WorkKeepsLoaded(src, found, w, a); }
    }
  }

  /** From action `n`, a start, up to state `k` nothing ends the session but itself. */
  ghost predicate IsSession(src: Bytes, ws: seq<World>, actions: seq<Action>, n: nat, k: nat) {
    && IsRun(src, ws, actions) && Formed(src, ws[0]) && n < k < |ws| && actions[n].Start?
    && forall j | n < j < k :: Undisturbed(actions[j])
  }

  lemma {:induction false} SessionSoFar(src: Bytes, ws: seq<World>, actions: seq<Action>, n: nat, k: nat)
    requires IsSession(src, ws, actions, n, k)
    ensures var cfg := actions[n].cfg;
      SessionState(src, PreSized(ws[n].part, |src|), ws[k], cfg.chunkSize, Elements(Loaded(ws[n].meta, |src|, cfg)))
  {
    NextInRun(src, ws, actions, k - 1);
    if k > n + 1 {
      var cfg := actions[n].cfg;
      SessionSoFar(src, ws, actions, n, k - 1);
      RunsAreFormed(src, ws, actions, k - 1);
      SessionStep(src, PreSized(ws[n].part, |src|), ws[k - 1], actions[k - 1], cfg.chunkSize,
        Elements(Loaded(ws[n].meta, |src|, cfg)));
    }
  }

  /** What the resume logic takes for granted about the two files it finds. */
  ghost predicate ResumeIsSound(src: Bytes, w: World, cfg: Config)
    requires 0 < cfg.chunkSize
  {
    forall i | i in Loaded(w.meta, |src|, cfg) :: ChunkRight(src, PreSized(w.part, |src|), cfg.chunkSize, i)
  }

  lemma PatchedIsSource(src: Bytes, found: Bytes, b: Bytes, size: nat, loaded: seq<nat>)
    requires IsPatched(src, found, b, size, Elements(loaded))
    ensures b == src <==> forall i | i in loaded :: ChunkRight(src, found, size, i)
  {
    if forall i | i in loaded :: ChunkRight(src, found, size, i) {
      forall k | 0 <= k < |src| ensures b[k] == src[k] {
        if k / size in Elements(loaded) { assert ChunkRight(src, found, size, k / size); }
      }
    }
    if b == src {
      forall i | i in loaded ensures ChunkRight(src, found, size, i) { assert i in Elements(loaded); }
    }
  }

  /**
    The code trusts the meta file even when it has just recreated the temp file. Exactly when the
    loaded chunks of the pre-sized file are the source's, a session that returns Ok has published
    the source.
    */
  lemma PublishesSourceExactlyWhenResumeIsSound(src: Bytes, ws: seq<World>, actions: seq<Action>, n: nat, m: nat)
    requires IsSession(src, ws, actions, n, m) && ws[m].proc.ReturnedOk?
    ensures 0 < actions[n].cfg.chunkSize
    ensures ws[m].dest == Some(src) <==> ResumeIsSound(src, ws[n], actions[n].cfg)
  {
    var cfg := actions[n].cfg;
    SessionSoFar(src, ws, actions, n, m);
    PatchedIsSource(src, PreSized(ws[n].part, |src|), ws[m].dest.value, cfg.chunkSize, Loaded(ws[n].meta, |src|, cfg));
  }

  lemma StaysAtWork(src: Bytes, w: World, a: Action)
    requires Enabled(src, w, a) && !Apply(src, w, a).proc.Idle?
    ensures a.Start? || (!w.proc.Idle? && Undisturbed(a))
  {
  }

  /** Whatever is at work in a run belongs to a session that began in it. */
  lemma {:induction false} SessionOf(src: Bytes, ws: seq<World>, actions: seq<Action>, m: nat) returns (n: nat)
    requires IsRun(src, ws, actions) && ws[0].proc.Idle? && m < |ws| && !ws[m].proc.Idle?
    ensures IsSession(src, ws, actions, n, m)
  {
    NextInRun(src, ws, actions, m - 1);
    StaysAtWork(src, ws[m - 1], actions[m - 1]);
    if actions[m - 1].Start? {
      n := m - 1;
    } else {
      n := SessionOf(src, ws, actions, m - 1);
    }
  }

  /**
    So for every Ok in every run, however many sessions came before: it published the source exactly
    when the files its own session started on were sound.
    */
  lemma EveryOkAnswersForItsSession(src: Bytes, ws: seq<World>, actions: seq<Action>, m: nat) returns (n: nat)
    requires IsRun(src, ws, actions) && ws[0].proc.Idle? && m < |ws| && ws[m].proc.ReturnedOk?
    ensures n < m && actions[n].Start? && 0 < actions[n].cfg.chunkSize
    ensures ws[m].dest == Some(src) <==> ResumeIsSound(src, ws[n], actions[n].cfg)
  {
    n := SessionOf(src, ws, actions, m);
    PublishesSourceExactlyWhenResumeIsSound(src, ws, actions, n, m);
  }

  /** When the temp file had to be recreated, only chunks of zeros may be listed as done. */
  lemma RecreatedFileNeedsZeros(src: Bytes, w: World, cfg: Config)
    requires 0 < cfg.chunkSize && (w.part.None? || |w.part.value| != |src|)
    ensures ResumeIsSound(src, w, cfg) <==>
      forall i, k | i in Loaded(w.meta, |src|, cfg) && 0 <= k < |src| && k / cfg.chunkSize == i :: src[k] == 0
  {
    var found := PreSized(w.part, |src|);
    if ResumeIsSound(src, w, cfg) {
      forall i, k | i in Loaded(w.meta, |src|, cfg) && 0 <= k < |src| && k / cfg.chunkSize == i ensures src[k] == 0 {
        assert ChunkRight(src, found, cfg.chunkSize, i);
        assert found[k] == 0;
      }
    }
  }
}
