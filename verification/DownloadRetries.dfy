/**
  What a download session asks of the server, read off its actions alone: a failed request is made
  again until the retries are used up, and every number of failures within them can still end well.
  */
module DownloadRetries {
  import opened Wrappers
  import opened ChunkPlan
  import opened Download
  import opened DownloadWork

  // ---- Reading the actions ----

  /** What happened since the session began. */
  function SinceStart(actions: seq<Action>): seq<Action> {
    if actions == [] then []
    else
      var front, a := actions[..|actions| - 1], actions[|actions| - 1];
      if a.Start? then [] else SinceStart(front) + [a]
  }

  /** How much each failed request for chunk `i` had written. */
  function FailuresOf(actions: seq<Action>, i: nat): seq<nat> {
    if actions == [] then []
    else
      var front, a := actions[..|actions| - 1], actions[|actions| - 1];
      FailuresOf(front, i) + (if a.RequestFails? && a.i == i then [a.written] else [])
  }

  function SuccessesOf(actions: seq<Action>, i: nat): nat {
    if actions == [] then 0
    else
      var front, a := actions[..|actions| - 1], actions[|actions| - 1];
      SuccessesOf(front, i) + (if a == RequestSucceeds(i) then 1 else 0)
  }

  /** The temp file could not be opened for chunk `i`, or the resume state not written. */
  predicate FileFailed(actions: seq<Action>, i: nat) {
    exists k | 0 <= k < |actions| :: actions[k] == TaskIoFails(i) || (actions[k].PersistFails? && actions[k].i == i)
  }

  lemma OneMoreAction(actions: seq<Action>, a: Action, i: nat)
    ensures SinceStart(actions + [a]) == if a.Start? then [] else SinceStart(actions) + [a]
    ensures FailuresOf(actions + [a], i) == FailuresOf(actions, i) + (if a.RequestFails? && a.i == i then [a.written] else [])
    ensures SuccessesOf(actions + [a], i) == SuccessesOf(actions, i) + (if a == RequestSucceeds(i) then 1 else 0)
    ensures FileFailed(actions + [a], i) <==>
      FileFailed(actions, i) || a == TaskIoFails(i) || (a.PersistFails? && a.i == i)
  {
    var all := actions + [a];
    assert all[..|actions|] == actions;
    if FileFailed(actions, i) {
      var k :| 0 <= k < |actions| && (actions[k] == TaskIoFails(i) || (actions[k].PersistFails? && actions[k].i == i));
      assert all[k] == actions[k];
    }
    assert all[|actions|] == a;
  }

  // ---- A task and what was asked for its chunk ----

  ghost predicate TaskTells(p: Process, actions: seq<Action>, i: nat)
    requires p.Working? && i in p.tasks && i in p.requests
  {
    && p.requests[i] == |FailuresOf(actions, i)| + SuccessesOf(actions, i)
    && (FileFailed(actions, i) ==> p.tasks[i].Failed?)
    && match p.tasks[i]
       case Fetching(failures) =>
         failures == |FailuresOf(actions, i)| <= p.cfg.maxRetries && SuccessesOf(actions, i) == 0
       case Failed =>
         FileFailed(actions, i) || (|FailuresOf(actions, i)| == p.cfg.maxRetries + 1 && SuccessesOf(actions, i) == 0)
       case _ => |FailuresOf(actions, i)| <= p.cfg.maxRetries && SuccessesOf(actions, i) == 1
  }

  ghost predicate NotAsked(actions: seq<Action>, i: nat) {
    FailuresOf(actions, i) == [] && SuccessesOf(actions, i) == 0 && !FileFailed(actions, i)
  }

  /** The state of every task, as the actions of its session tell it. */
  ghost predicate ActionsTell(p: Process, actions: seq<Action>)
    requires p.Working?
  {
    && p.tasks.Keys == p.requests.Keys
    && (forall i | i in p.tasks :: TaskTells(p, actions, i))
    && (forall i: nat | i !in p.tasks :: NotAsked(actions, i))
  }

  lemma AskedTaskTells(src: Bytes, w: World, actions: seq<Action>, a: Action)
    requires Formed(src, w) && IsTaskStep(a) && Enabled(src, w, a) && ActionsTell(w.proc, actions)
    ensures var p' := Apply(src, w, a).proc;
      p'.Working? && a.i in p'.tasks && a.i in p'.requests && TaskTells(p', actions + [a], a.i)
  {
    OneMoreAction(actions, a, a.i);
    assert TaskShape(w.proc, a.i) && TaskTells(w.proc, actions, a.i);
  }

  lemma OtherTaskTells(p: Process, p': Process, actions: seq<Action>, a: Action, i: nat)
    requires IsTaskStep(a) && OnlyTask(p, p', a.i) && i != a.i && i in p.tasks && i in p.requests
    requires TaskTells(p, actions, i)
    ensures i in p'.tasks && i in p'.requests && TaskTells(p', actions + [a], i)
  {
    OneMoreAction(actions, a, i);
  }

  lemma TaskStepTells(src: Bytes, w: World, actions: seq<Action>, a: Action)
    requires Formed(src, w) && IsTaskStep(a) && Enabled(src, w, a) && ActionsTell(w.proc, actions)
    ensures var p' := Apply(src, w, a).proc; p'.Working? && ActionsTell(p', actions + [a])
  {
    var p, p' := w.proc, Apply(src, w, a).proc;
    TaskStepChanges(src, w, a);
    AskedTaskTells(src, w, actions, a);
    forall i | i in p'.tasks ensures TaskTells(p', actions + [a], i) {
      if i != a.i { OtherTaskTells(p, p', actions, a, i); }
    }
    forall i: nat | i !in p'.tasks ensures NotAsked(actions + [a], i) {
      OneMoreAction(actions, a, i);
      assert NotAsked(actions, i);
    }
  }

  lemma OtherStepTells(src: Bytes, w: World, actions: seq<Action>, a: Action)
    requires Formed(src, w) && w.proc.Working? && !IsTaskStep(a) && Enabled(src, w, a) && ActionsTell(w.proc, actions)
    ensures var p' := Apply(src, w, a).proc; p'.Working? ==> ActionsTell(p', actions + [a])
  {
    var p' := Apply(src, w, a).proc;
    if p'.Working? {
      assert a.Spawn? ==> w.proc.next !in w.proc.tasks;
      forall i | i in p'.tasks ensures TaskTells(p', actions + [a], i) {
        OneMoreAction(actions, a, i);
        if i in w.proc.tasks { assert TaskTells(w.proc, actions, i); } else { assert NotAsked(actions, i); }
      }
      forall i: nat | i !in p'.tasks ensures NotAsked(actions + [a], i) {
        OneMoreAction(actions, a, i);
        assert NotAsked(actions, i);
      }
    }
  }

  lemma {:induction false} RunsTell(src: Bytes, ws: seq<World>, actions: seq<Action>, k: nat)
    requires IsRun(src, ws, actions) && ws[0].proc.Idle? && k < |ws| && ws[k].proc.Working?
    ensures ActionsTell(ws[k].proc, SinceStart(actions[..k]))
  {
    var a := actions[k - 1];
    assert actions[..k] == actions[..k - 1] + [a];
    NextInRun(src, ws, actions, k - 1);
    OneMoreAction(actions[..k - 1], a, 0);
    if a.Start? {
      forall i: nat ensures NotAsked([], i) {}
    } else {
      RunsTell(src, ws, actions, k - 1);
      RunsAreFormed(src, ws, actions, k - 1);
      if IsTaskStep(a) {
        TaskStepTells(src, ws[k - 1], SinceStart(actions[..k - 1]), a);
      } else {
        OtherStepTells(src, ws[k - 1], SinceStart(actions[..k - 1]), a);
      }
    }
  }

  /**
    In every run a chunk task gives up exactly when `maxRetries + 1` requests for its chunk have failed
    in this session, or a file could not be opened or written for it.
    */
  lemma GivesUpExactly(src: Bytes, ws: seq<World>, actions: seq<Action>, k: nat, i: nat)
    requires IsRun(src, ws, actions) && ws[0].proc.Idle? && k < |ws|
    requires ws[k].proc.Working? && i in ws[k].proc.tasks
    ensures var p, session := ws[k].proc, SinceStart(actions[..k]);
      && (p.tasks[i].Failed? <==> FileFailed(session, i) || |FailuresOf(session, i)| == p.cfg.maxRetries + 1)
      && i in p.requests && p.requests[i] == |FailuresOf(session, i)| + SuccessesOf(session, i) <= p.cfg.maxRetries + 1
  {
    RunsTell(src, ws, actions, k);
    RunsAreFormed(src, ws, actions, k);
    TellsOf(src, ws[k], SinceStart(actions[..k]), i);
  }

  lemma TellsOf(src: Bytes, w: World, session: seq<Action>, i: nat)
    requires Formed(src, w) && w.proc.Working? && i in w.proc.tasks && ActionsTell(w.proc, session)
    ensures var p := w.proc;
      && (p.tasks[i].Failed? <==> FileFailed(session, i) || |FailuresOf(session, i)| == p.cfg.maxRetries + 1)
      && i in p.requests && p.requests[i] == |FailuresOf(session, i)| + SuccessesOf(session, i) <= p.cfg.maxRetries + 1
  {
    assert TaskTells(w.proc, session, i) && TaskShape(w.proc, i);
  }

  /** As long as retries are left, a failed request can be made again: it can succeed, and it can fail again. */
  lemma FailedRequestIsRetried(src: Bytes, ws: seq<World>, actions: seq<Action>, k: nat, i: nat)
    requires IsRun(src, ws, actions) && ws[0].proc.Idle? && k < |actions| && ws[k].proc.Working?
    requires actions[k].RequestFails? && actions[k].i == i
    requires |FailuresOf(SinceStart(actions[..k]), i)| + 1 <= ws[k].proc.cfg.maxRetries
    ensures Enabled(src, ws[k + 1], RequestSucceeds(i))
    ensures forall written: nat | written <= ChunkLen(i, |src|, ws[k].proc.cfg.chunkSize) ::
      Enabled(src, ws[k + 1], RequestFails(i, written))
  {
    NextInRun(src, ws, actions, k);
    RunsTell(src, ws, actions, k);
    RetryIsEnabled(src, ws[k], SinceStart(actions[..k]), actions[k]);
  }

  lemma RetryIsEnabled(src: Bytes, w: World, session: seq<Action>, a: Action)
    requires w.proc.Working? && ActionsTell(w.proc, session) && a.RequestFails? && Enabled(src, w, a)
    requires |FailuresOf(session, a.i)| + 1 <= w.proc.cfg.maxRetries
    ensures Enabled(src, Apply(src, w, a), RequestSucceeds(a.i))
    ensures forall written: nat | written <= ChunkLen(a.i, |src|, w.proc.cfg.chunkSize) ::
      Enabled(src, Apply(src, w, a), RequestFails(a.i, written))
  {
    assert TaskTells(w.proc, session, a.i);
  }

  // ---- Every choice of failures within the retries can end well ----

  /** `fails[i]` lists what each failed request for chunk `i` is to write. */
  ghost predicate Affordable(total: nat, cfg: Config, fails: seq<seq<nat>>)
    requires 0 < cfg.chunkSize
  {
    && |fails| == ChunkCount(total, cfg.chunkSize)
    && forall i | 0 <= i < |fails| ::
      |fails[i]| <= cfg.maxRetries && forall n | n in fails[i] :: n <= ChunkLen(i, total, cfg.chunkSize)
  }

  /** The failures chunk `i` still has before it. */
  function StillToFail(p: Process, fails: seq<seq<nat>>, i: nat): seq<nat>
    requires p.Working? && i < |fails|
  {
    if i in p.tasks then
      if p.tasks[i].Fetching? && p.tasks[i].failures <= |fails[i]| then fails[i][p.tasks[i].failures..] else []
    else if i < p.next || i in p.loaded then []
    else fails[i]
  }

  ghost predicate WithinFails(p: Process, fails: seq<seq<nat>>)
    requires p.Working?
  {
    forall i | i in p.tasks :: i < |fails| && (p.tasks[i].Fetching? ==> p.tasks[i].failures <= |fails[i]|)
  }

  /** A request fails as chosen, and succeeds only when no failure is left. */
  ghost predicate AsChosen(p: Process, fails: seq<seq<nat>>, a: Action)
    requires p.Working?
  {
    if a.RequestFails? then a.i < |fails| && StillToFail(p, fails, a.i) != [] && StillToFail(p, fails, a.i)[0] == a.written
    else MovesOn(a) && (a.RequestSucceeds? ==> a.i < |fails| && StillToFail(p, fails, a.i) == [])
  }

  /** A failure some chunk has before it, or else the step by which work gets done. */
  lemma NextAsChosen(src: Bytes, w: World, fails: seq<seq<nat>>) returns (a: Action)
    requires Formed(src, w) && NoneFailed(w.proc) && Affordable(|src|, w.proc.cfg, fails) && WithinFails(w.proc, fails)
    ensures Enabled(src, w, a) && AsChosen(w.proc, fails, a)
    ensures a.BeginFlush? ==> forall i: nat | i < |fails| :: StillToFail(w.proc, fails, i) == []
  {
    if i: nat :| i in w.proc.tasks && w.proc.tasks[i].Fetching? && w.proc.tasks[i].failures < |fails[i]| {
      var written := fails[i][w.proc.tasks[i].failures];
      assert written in fails[i];
      a := RequestFails(i, written);
    } else {
      a := NeverStuck(src, w);
      if a.BeginFlush? { PlanReached(src, w); }
    }
  }

  lemma OneFewer(s: seq<nat>, f: nat)
    requires f < |s|
    ensures s[f..] == [s[f]] + s[f + 1..]
  {
  }

  /** What the next action takes off the failures still to come. */
  lemma ChosenStep(src: Bytes, w: World, fails: seq<seq<nat>>, a: Action, i: nat)
    requires Formed(src, w) && NoneFailed(w.proc) && Affordable(|src|, w.proc.cfg, fails) && WithinFails(w.proc, fails)
    requires Enabled(src, w, a) && AsChosen(w.proc, fails, a) && !a.BeginFlush? && i < |fails|
    ensures Apply(src, w, a).proc.Working?
    ensures StillToFail(w.proc, fails, i) ==
      (if a.RequestFails? && a.i == i then [a.written] else []) + StillToFail(Apply(src, w, a).proc, fails, i)
  {
    if a.RequestFails? { OneFewer(fails[a.i], w.proc.tasks[a.i].failures); }
  }

  lemma ChosenStepKeeps(src: Bytes, w: World, fails: seq<seq<nat>>, a: Action)
    requires Formed(src, w) && NoneFailed(w.proc) && Affordable(|src|, w.proc.cfg, fails) && WithinFails(w.proc, fails)
    requires Enabled(src, w, a) && AsChosen(w.proc, fails, a) && !a.BeginFlush?
    ensures var w' := Apply(src, w, a);
      w'.orphans == w.orphans && NoneFailed(w'.proc) && w'.proc.cfg == w.proc.cfg && WithinFails(w'.proc, fails)
  {
    if a.RequestFails? { assert !AfterFailure(w.proc.cfg, w.proc.tasks[a.i].failures).Failed?; }
    if a.Spawn? { PlanHolds(src, w); }
  }

  lemma PlanHolds(src: Bytes, w: World)
    requires Formed(src, w) && Enabled(src, w, Spawn)
    ensures w.proc.next < ChunkCount(|src|, w.proc.cfg.chunkSize)
  {
  }

  lemma {:induction false} OneActionBefore(a: Action, actions: seq<Action>, i: nat)
    ensures FailuresOf([a] + actions, i) == (if a.RequestFails? && a.i == i then [a.written] else []) + FailuresOf(actions, i)
  {
    var all := [a] + actions;
    if actions == [] {
      assert all[..0] == [];
    } else {
      var front := actions[..|actions| - 1];
      assert all[..|all| - 1] == [a] + front;
      OneActionBefore(a, front, i);
    }
  }

  /** A run of successes and chosen failures. */
  ghost predicate GoesAsChosen(src: Bytes, w: World, ws: seq<World>, actions: seq<Action>) {
    && IsRun(src, ws, actions) && ws[0] == w
    && (forall k | 0 <= k < |actions| :: Succeeds(actions[k]) || actions[k].RequestFails?)
    && (forall k | 0 <= k < |ws| :: ws[k].orphans == w.orphans)
  }

  lemma {:induction false} CanReachFlushAsChosen(src: Bytes, w: World, fails: seq<seq<nat>>)
    returns (ws: seq<World>, actions: seq<Action>)
    requires Formed(src, w) && NoneFailed(w.proc) && Affordable(|src|, w.proc.cfg, fails) && WithinFails(w.proc, fails)
    ensures GoesAsChosen(src, w, ws, actions) && Enabled(src, ws[|actions|], BeginFlush)
    ensures forall i: nat | i < |fails| :: FailuresOf(actions, i) == StillToFail(w.proc, fails, i)
    decreases Measure(src, w)
  {
    var a := NextAsChosen(src, w, fails);
    if a.BeginFlush? {
      ws, actions := [w], [];
    } else {
      var w' := Apply(src, w, a);
      StepForms(src, w, a);
      ChosenStepKeeps(src, w, fails, a);
      SessionStepDrops(src, w, a);
      var ws', actions' := CanReachFlushAsChosen(src, w', fails);
      StepThenRun(src, w, a, ws', actions');
      forall i: nat | i < |fails| ensures FailuresOf([a] + actions', i) == StillToFail(w.proc, fails, i) {
        OneActionBefore(a, actions', i);
        ChosenStep(src, w, fails, a, i);
      }
      ws, actions := [w] + ws', [a] + actions';
    }
  }

  lemma {:induction false} SuccessesHaveNoFailure(actions: seq<Action>, i: nat)
    requires forall k | 0 <= k < |actions| :: Succeeds(actions[k])
    ensures FailuresOf(actions, i) == []
  {
    if actions != [] { SuccessesHaveNoFailure(actions[..|actions| - 1], i); }
  }

  lemma {:induction false} OneAfterAnother(a: seq<Action>, b: seq<Action>, i: nat)
    ensures FailuresOf(a + b, i) == FailuresOf(a, i) + FailuresOf(b, i)
  {
    if b == [] {
      assert a + b == a;
    } else {
      var front, last := b[..|b| - 1], b[|b| - 1];
      assert a + b == (a + front) + [last] && b == front + [last];
      OneAfterAnother(a, front, i);
      OneMoreAction(a + front, last, i);
      OneMoreAction(front, last, i);
    }
  }

  lemma ThenSuccesses(src: Bytes, w: World, xs: seq<World>, before: seq<Action>, ys: seq<World>, after: seq<Action>)
    requires GoesAsChosen(src, w, xs, before) && SucceedsFrom(src, xs[|before|], ys, after)
    ensures GoesAsChosen(src, w, xs + ys[1..], before + after)
    ensures (xs + ys[1..])[|before + after|] == ys[|after|]
    ensures forall i: nat :: FailuresOf(before + after, i) == FailuresOf(before, i)
  {
    RunThenRun(src, xs, before, ys, after);
    forall i: nat ensures FailuresOf(before + after, i) == FailuresOf(before, i) {
      OneAfterAnother(before, after, i);
      SuccessesHaveNoFailure(after, i);
    }
  }

  lemma CanFinishAsChosen(src: Bytes, w: World, fails: seq<seq<nat>>) returns (ws: seq<World>, actions: seq<Action>)
    requires Formed(src, w) && NoneFailed(w.proc) && Affordable(|src|, w.proc.cfg, fails) && WithinFails(w.proc, fails)
    ensures GoesAsChosen(src, w, ws, actions) && ws[|actions|].proc.ReturnedOk? && ws[|actions|].part == None
    ensures forall i: nat | i < |fails| :: FailuresOf(actions, i) == StillToFail(w.proc, fails, i)
  {
    var xs, before := CanReachFlushAsChosen(src, w, fails);
    RunsAreFormed(src, xs, before, |before|);
    var ys, after := FlushThenDone(src, xs[|before|]);
    ThenSuccesses(src, w, xs, before, ys, after);
    ws, actions := xs + ys[1..], before + after;
  }

  /** A session whose requests fail exactly as chosen, and which returns Ok. */
  ghost predicate DownloadsDespite(src: Bytes, w: World, cfg: Config, fails: seq<seq<nat>>,
      ws: seq<World>, actions: seq<Action>)
  {
    && IsRun(src, ws, actions) && ws[0] == w && |actions| > 0 && actions[0] == Start(cfg)
    && ws[|actions|].proc.ReturnedOk? && ws[|actions|].part == None
    && (forall k | 0 < k < |actions| :: Succeeds(actions[k]) || actions[k].RequestFails?)
    && (forall k | 0 <= k < |ws| :: ws[k].orphans == w.orphans)
    && forall i: nat | i < |fails| ::
      FailuresOf(actions, i) == if i in Loaded(w.meta, |src|, cfg) then [] else fails[i]
  }

  /**
    From every state in which a session may start, and for every choice of at most `maxRetries` failures
    of each chunk, writing any part of what was asked, some session has exactly those failures and
    returns Ok.
    */
  lemma CanDownloadDespiteFailures(src: Bytes, w: World, cfg: Config, fails: seq<seq<nat>>)
    returns (ws: seq<World>, actions: seq<Action>)
    requires Enabled(src, w, Start(cfg)) && Affordable(|src|, cfg, fails)
    ensures DownloadsDespite(src, w, cfg, fails, ws, actions)
  {
    var started := Apply(src, w, Start(cfg));
    StartForms(src, w, cfg);
    var ws', actions' := CanFinishAsChosen(src, started, fails);
    StepThenRun(src, w, Start(cfg), ws', actions');
    ws, actions := [w] + ws', [Start(cfg)] + actions';
    forall i: nat | i < |fails|
      ensures FailuresOf(actions, i) == if i in Loaded(w.meta, |src|, cfg) then [] else fails[i]
    {
      OneActionBefore(Start(cfg), actions', i);
    }
  }
}
