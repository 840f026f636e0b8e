/**
  What a download session writes down for the next one, read off its actions: every so many chunks the
  ones done so far, which a later session of the same plan does not ask for again.
  */
module DownloadPersistence {
  import opened ChunkPlan
  import opened Download
  import opened DownloadWork
  import opened DownloadRetries

  /** The chunks marked complete. */
  function MarkedIn(actions: seq<Action>): set<nat> {
    set k: nat | k < |actions| && actions[k].Mark? :: actions[k].i
  }

  /** How many chunks passed the gate. */
  function Passed(actions: seq<Action>): nat {
    if actions == [] then 0
    else Passed(actions[..|actions| - 1]) + (if actions[|actions| - 1].PassGate? then 1 else 0)
  }

  /** The chunks marked complete before task `i` last took its snapshot. */
  function MarkedAtSnapshot(actions: seq<Action>, i: nat): set<nat> {
    if actions == [] then {}
    else if actions[|actions| - 1] == TakeSnapshot(i) then MarkedIn(actions[..|actions| - 1])
    else MarkedAtSnapshot(actions[..|actions| - 1], i)
  }

  lemma OneMoreStep(actions: seq<Action>, a: Action, i: nat)
    ensures MarkedIn(actions + [a]) == MarkedIn(actions) + (if a.Mark? then {a.i} else {})
    ensures Passed(actions + [a]) == Passed(actions) + (if a.PassGate? then 1 else 0)
    ensures MarkedAtSnapshot(actions + [a], i) == if a == TakeSnapshot(i) then MarkedIn(actions) else MarkedAtSnapshot(actions, i)
  {
    var all := actions + [a];
    assert all[..|actions|] == actions;
    forall j | j in MarkedIn(actions) ensures j in MarkedIn(all) {
      var k: nat :| k < |actions| && actions[k].Mark? && actions[k].i == j;
      assert all[k].Mark?;
    }
    if a.Mark? { assert all[|actions|].Mark?; }
  }

  /** The completed set, the gate and the snapshots, as the actions of the session tell them. */
  ghost predicate ActionsKeep(p: Process, actions: seq<Action>)
    requires p.Working?
  {
    && p.completed == p.loaded + MarkedIn(actions) && p.gate == Passed(actions)
    && forall i | i in p.tasks && p.tasks[i].Persisting? :: p.tasks[i].snapshot == p.loaded + MarkedAtSnapshot(actions, i)
  }

  lemma StepKeeps(src: Bytes, w: World, actions: seq<Action>, a: Action)
    requires w.proc.Working? && Enabled(src, w, a) && ActionsKeep(w.proc, actions)
    ensures var p' := Apply(src, w, a).proc; p'.Working? ==> ActionsKeep(p', actions + [a])
  {
    var p, p' := w.proc, Apply(src, w, a).proc;
    if p'.Working? {
      OneMoreStep(actions, a, 0);
      forall i | i in p'.tasks && p'.tasks[i].Persisting?
        ensures p'.tasks[i].snapshot == p'.loaded + MarkedAtSnapshot(actions + [a], i)
      {
        OneMoreStep(actions, a, i);
      }
    }
  }

  lemma {:induction false} RunsKeep(src: Bytes, ws: seq<World>, actions: seq<Action>, k: nat)
    requires IsRun(src, ws, actions) && ws[0].proc.Idle? && k < |ws| && ws[k].proc.Working?
    ensures ActionsKeep(ws[k].proc, SinceStart(actions[..k]))
  {
    var a := actions[k - 1];
    assert actions[..k] == actions[..k - 1] + [a];
    NextInRun(src, ws, actions, k - 1);
    OneMoreAction(actions[..k - 1], a, 0);
    if !a.Start? {
      RunsKeep(src, ws, actions, k - 1);
      StepKeeps(src, ws[k - 1], SinceStart(actions[..k - 1]), a);
    }
  }

  /** Every `max(1, persistEvery)`-th chunk of the session is to write the resume state, and no other. */
  lemma PersistsEveryNth(src: Bytes, ws: seq<World>, actions: seq<Action>, k: nat, i: nat)
    requires IsRun(src, ws, actions) && ws[0].proc.Idle? && k < |actions| && actions[k] == PassGate(i)
    requires ws[k].proc.Working? && i in ws[k].proc.tasks
    ensures var every := if ws[k].proc.cfg.persistEvery == 0 then 1 else ws[k].proc.cfg.persistEvery;
      && ws[k + 1].proc.Working? && i in ws[k + 1].proc.tasks
      && ((Passed(SinceStart(actions[..k])) + 1) % every == 0 ==> ws[k + 1].proc.tasks[i] == MustPersist)
      && ((Passed(SinceStart(actions[..k])) + 1) % every != 0 ==> ws[k + 1].proc.tasks[i] == Finished)
  {
    NextInRun(src, ws, actions, k);
    RunsKeep(src, ws, actions, k);
  }

  /** The meta names this plan and lists exactly these chunks. */
  ghost predicate Lists(w: World, total: nat, chunkSize: nat, chunks: set<nat>) {
    w.meta.Holds? && w.meta.m.total == total && w.meta.m.chunkSize == chunkSize && Elements(w.meta.m.completed) == chunks
  }

  /** What lands in the meta: the chunks found there at the start and those done when the snapshot was taken. */
  lemma PersistedIsWhatWasDone(src: Bytes, ws: seq<World>, actions: seq<Action>, k: nat, i: nat)
    requires IsRun(src, ws, actions) && ws[0].proc.Idle? && k < |actions| && actions[k] == PersistLands(i)
    requires ws[k].proc.Working?
    ensures var p := ws[k].proc;
      Lists(ws[k + 1], |src|, p.cfg.chunkSize, p.loaded + MarkedAtSnapshot(SinceStart(actions[..k]), i))
  {
    NextInRun(src, ws, actions, k);
    RunsKeep(src, ws, actions, k);
  }

  /** What the flush lists: every chunk found at the start and every chunk done in the session. */
  lemma FlushedIsWhatWasDone(src: Bytes, ws: seq<World>, actions: seq<Action>, k: nat)
    requires IsRun(src, ws, actions) && ws[0].proc.Idle? && k + 1 < |actions|
    requires actions[k] == BeginFlush && actions[k + 1] == Flush && ws[k].proc.Working?
    ensures var p := ws[k].proc;
      Lists(ws[k + 2], |src|, p.cfg.chunkSize, p.loaded + MarkedIn(SinceStart(actions[..k])))
  {
    NextInRun(src, ws, actions, k);
    NextInRun(src, ws, actions, k + 1);
    RunsKeep(src, ws, actions, k);
  }

  lemma StartResumes(src: Bytes, w: World, cfg: Config, chunks: set<nat>)
    requires Enabled(src, w, Start(cfg)) && Lists(w, |src|, cfg.chunkSize, chunks)
    ensures var p := Apply(src, w, Start(cfg)).proc; p.Working? && p.loaded == chunks && p.completed == chunks
  {
  }

  ghost predicate SameSession(ws: seq<World>, actions: seq<Action>, n: nat, k: nat) {
    n < k < |ws| && |ws| == |actions| + 1 && actions[n].Start? && forall j | n < j <= k :: ws[j].proc.Working?
  }

  lemma LoadedStep(src: Bytes, w: World, a: Action)
    requires Enabled(src, w, a) && w.proc.Working? && Apply(src, w, a).proc.Working?
    ensures Apply(src, w, a).proc.loaded == w.proc.loaded
  {
  }

  lemma LoadedNext(src: Bytes, ws: seq<World>, actions: seq<Action>, k: nat)
    requires IsRun(src, ws, actions) && k < |actions| && ws[k].proc.Working? && ws[k + 1].proc.Working?
    ensures ws[k + 1].proc.loaded == ws[k].proc.loaded
  {
    NextInRun(src, ws, actions, k);
    LoadedStep(src, ws[k], actions[k]);
  }

  ghost predicate SameLoaded(ws: seq<World>, n: nat, k: nat)
    requires n < k < |ws|
  {
    && (forall j | n < j <= k :: ws[j].proc.Working?)
    && forall j | n < j < k :: ws[j + 1].proc.loaded == ws[j].proc.loaded
  }

  lemma {:induction false} LoadedAlong(ws: seq<World>, n: nat, k: nat)
    requires n < k < |ws| && SameLoaded(ws, n, k)
    ensures ws[k].proc.loaded == ws[n + 1].proc.loaded
  {
    if k > n + 1 { LoadedAlong(ws, n, k - 1); }
  }

  lemma LoadedStays(src: Bytes, ws: seq<World>, actions: seq<Action>, n: nat, k: nat)
    requires IsRun(src, ws, actions) && SameSession(ws, actions, n, k)
    ensures ws[k].proc.loaded == ws[n + 1].proc.loaded
  {
    forall j | n < j < k ensures ws[j + 1].proc.loaded == ws[j].proc.loaded { LoadedNext(src, ws, actions, j); }
    LoadedAlong(ws, n, k);
  }

  /**
    Resume: a session that finds a meta of its plan, whatever process wrote it, never asks for a chunk
    listed there, and asks once for every other chunk it spawns.
    */
  lemma ListedIsNotFetchedAgain(src: Bytes, ws: seq<World>, actions: seq<Action>, n: nat, k: nat, chunks: set<nat>)
    requires IsRun(src, ws, actions) && ws[0].proc.Idle? && SameSession(ws, actions, n, k)
    requires Lists(ws[n], |src|, actions[n].cfg.chunkSize, chunks)
    ensures forall i | i in chunks :: i !in ws[k].proc.tasks && i in ws[k].proc.completed
    ensures forall i: nat | i < ws[k].proc.next && i !in chunks :: i in ws[k].proc.tasks
  {
    NextInRun(src, ws, actions, n);
    StartResumes(src, ws[n], actions[n].cfg, chunks);
    LoadedStays(src, ws, actions, n, k);
    RunsAreFormed(src, ws, actions, k);
  }

  /** A flush that is abandoned may still be written, and then lists what it was to list. */
  lemma AbandonedFlushMayLand(src: Bytes, w: World)
    requires w.proc.Flushing? && 0 < w.proc.cfg.chunkSize
    ensures Enabled(src, w, Abandon)
    ensures var late, w' := MetaOf(|src|, w.proc.cfg, w.proc.listed), Apply(src, w, Abandon);
      && w'.proc.Idle? && Enabled(src, w', OrphanLands(late))
      && Lists(Apply(src, w', OrphanLands(late)), |src|, w.proc.cfg.chunkSize, w.proc.listed)
  {
  }
}
