/**
  What goes wrong in a download and what it leaves behind: requests that break off, files that cannot be
  opened or written, and sessions that end without a result.
  */
module DownloadFailures {
  import opened ChunkPlan
  import opened Download
  import opened DownloadWork

  // ---- requests ----

  /** From `at` on, `n` bytes are those of the source; all others are as they were. */
  ghost predicate Written(src: Bytes, before: Bytes, after: Bytes, at: nat, n: nat) {
    && |before| == |after| == |src| && at + n <= |src|
    && forall k | 0 <= k < |src| :: after[k] == if at <= k < at + n then src[k] else before[k]
  }

  lemma WriteIsWritten(src: Bytes, part: Bytes, at: nat, n: nat)
    requires |part| == |src| && at + n <= |src|
    ensures Written(src, part, WriteAt(part, at, Delivered(src, at, n)), at, n)
  {
  }

  /** A request that breaks off after `written` bytes leaves those, and one that succeeds the whole chunk. */
  lemma RequestLeaves(src: Bytes, w: World, i: nat, written: nat)
    requires Formed(src, w) && Enabled(src, w, RequestFails(i, written))
    ensures Written(src, w.part.value, Apply(src, w, RequestFails(i, written)).part.value, i * w.proc.cfg.chunkSize, written)
    ensures Enabled(src, w, RequestSucceeds(i))
    ensures var size := w.proc.cfg.chunkSize;
      var len := if (i + 1) * size <= |src| then size else |src| - i * size;
      Written(src, w.part.value, Apply(src, w, RequestSucceeds(i)).part.value, i * size, len)
  {
    var size := w.proc.cfg.chunkSize;
    ChunkBounds(i, |src|, size);
    WriteIsWritten(src, w.part.value, i * size, written);
    WriteIsWritten(src, w.part.value, i * size, ChunkLen(i, |src|, size));
  }

  // ---- files ----

  /** While a chunk is fetched its file may fail to open, and a write of the resume state may fail. */
  lemma FilesMayFail(src: Bytes, w: World, i: nat, torn: bool)
    requires w.proc.Working? && i in w.proc.tasks
    ensures w.proc.tasks[i].Fetching? ==>
      && Enabled(src, w, TaskIoFails(i)) && Apply(src, w, TaskIoFails(i)).proc.tasks[i].Failed?
      && Apply(src, w, TaskIoFails(i)).part == w.part
    ensures w.proc.tasks[i].Persisting? ==>
      && Enabled(src, w, PersistFails(i, torn)) && Apply(src, w, PersistFails(i, torn)).proc.tasks[i].Failed?
      && Apply(src, w, PersistFails(i, torn)).meta == if torn then Corrupt else w.meta
  {
  }

  /** A write cut short leaves a meta nobody can read; any other failure leaves the one there was. */
  lemma TornWritesCorrupt(src: Bytes, w: World, torn: bool)
    ensures Enabled(src, w, Crash(torn)) && Apply(src, w, Crash(torn)).meta == if torn then Corrupt else w.meta
    ensures w.proc.Flushing? ==>
      && Enabled(src, w, FlushFails(torn)) && Apply(src, w, FlushFails(torn)).proc.Idle?
      && Apply(src, w, FlushFails(torn)).meta == if torn then Corrupt else w.meta
  {
  }

  /** A corrupt meta, or one of another plan, is as good as none. */
  lemma UnreadableIsIgnored(src: Bytes, w: World, cfg: Config)
    requires Enabled(src, w, Start(cfg))
    requires !w.meta.Holds? || w.meta.m.total != |src| || w.meta.m.chunkSize != cfg.chunkSize
    ensures var p := Apply(src, w, Start(cfg)).proc; p.Working? && p.loaded == {} && p.completed == {} && p.downloaded == 0
  {
  }

  // ---- a task that gave up ----

  ghost predicate SomeFailed(p: Process) {
    p.Working? && exists i | i in p.tasks :: p.tasks[i].Failed?
  }

  lemma FailureStays(src: Bytes, w: World, a: Action)
    requires Formed(src, w) && Enabled(src, w, a) && SomeFailed(w.proc)
    ensures a != BeginFlush
    ensures var p' := Apply(src, w, a).proc; SomeFailed(p') || p'.Idle?
  {
    var i :| i in w.proc.tasks && w.proc.tasks[i].Failed?;
    if IsTaskStep(a) {
      TaskStepChanges(src, w, a);
      OthersStayFailed(w.proc, Apply(src, w, a).proc, a.i, i);
    } else {
      PlanStepKeepsTask(src, w, a, i);
    }
  }

  lemma OthersStayFailed(p: Process, p': Process, j: nat, i: nat)
    requires OnlyTask(p, p', j) && p.tasks[j].HoldsPermit() && i in p.tasks && p.tasks[i].Failed?
    ensures SomeFailed(p')
  {
    assert i in p'.tasks && p'.tasks[i].Failed?;
  }

  lemma PlanStepKeepsTask(src: Bytes, w: World, a: Action, i: nat)
    requires Formed(src, w) && w.proc.Working? && Enabled(src, w, a) && !IsTaskStep(a)
    requires i in w.proc.tasks && w.proc.tasks[i].Failed?
    ensures var p' := Apply(src, w, a).proc; a != BeginFlush && (SomeFailed(p') || p'.Idle?)
  {
    var p' := Apply(src, w, a).proc;
    if p'.Working? {
      assert a.Spawn? ==> w.proc.next !in w.proc.tasks;
      assert i in p'.tasks && p'.tasks[i].Failed?;
    }
  }

  lemma IdleStays(src: Bytes, w: World, a: Action)
    requires Enabled(src, w, a) && w.proc.Idle? && !a.Start?
    ensures Apply(src, w, a).proc.Idle?
  {
  }

  /**
    In every run, a session in which some task has given up never flushes and never returns Ok: until
    it stops, or the process dies, that task stays as it is, and then nothing happens before the next start.
    */
  lemma {:induction false} FailedSessionOnlyStops(src: Bytes, ws: seq<World>, actions: seq<Action>, n: nat, k: nat)
    requires IsRun(src, ws, actions) && ws[0].proc.Idle? && n <= k < |ws| && SomeFailed(ws[n].proc)
    requires forall j | n <= j < k :: !actions[j].Start?
    ensures SomeFailed(ws[k].proc) || ws[k].proc.Idle?
  {
    if n < k {
      var j := k - 1;
      FailedSessionOnlyStops(src, ws, actions, n, j);
      NextInRun(src, ws, actions, j);
      if SomeFailed(ws[j].proc) {
        RunsAreFormed(src, ws, actions, j);
        FailureStays(src, ws[j], actions[j]);
      } else {
        IdleStays(src, ws[j], actions[j]);
      }
    }
  }
}
