/**
  What a background job publishes, told from the actions alone (`jobs.rs`): which job it is, how many
  steps were asked of it, where it was to fail, and whether a cancellation found it.
  */
module JobOutcomes {
  import opened Wrappers
  import opened Words
  import opened EventBus
  import opened JobRunner
  import opened JobObjects
  import opened JobCancellation

  /** The jobs asked for, in order; an empty scope is refused. */
  function Asked(actions: seq<Action>): seq<Action> {
    if actions == [] then []
    else
      var a := actions[|actions| - 1];
      Asked(actions[..|actions| - 1]) + (if a.Spawn? && a.scope != "" then [a] else [])
  }

  /** A job does what the spawn said: no steps count as one. */
  predicate DoesWhatWasAsked(job: Job, spawn: Action) {
    && spawn.Spawn? && job.scope == spawn.scope && job.failAt == spawn.failAt
    && job.steps == (if spawn.steps == 0 then 1 else spawn.steps)
  }

  ghost predicate AllAsked(w: World, asked: seq<Action>) {
    |w.jobs| == |asked| && forall j | 0 <= j < |asked| :: DoesWhatWasAsked(w.jobs[j], asked[j])
  }

  lemma AskedStep(actions: seq<Action>, a: Action)
    ensures Asked(actions + [a]) == Asked(actions) + (if a.Spawn? && a.scope != "" then [a] else [])
  {
    assert (actions + [a])[..|actions|] == actions;
  }

  lemma StepKeepsAsked(w: World, asked: seq<Action>, a: Action)
    requires AllAsked(w, asked)
    ensures AllAsked(Apply(w, a), asked + (if a.Spawn? && a.scope != "" then [a] else []))
  {
    var w', asked' := Apply(w, a), asked + (if a.Spawn? && a.scope != "" then [a] else []);
    forall j | 0 <= j < |asked'| ensures DoesWhatWasAsked(w'.jobs[j], asked'[j]) {
      if j < |asked| { assert DoesWhatWasAsked(w.jobs[j], asked[j]); }
    }
  }

  /** In every run job `j` is the `j`-th spawn with a scope, and does what that spawn asked. */
  lemma {:induction false} JobsAreTheSpawns(ws: seq<World>, actions: seq<Action>, n: nat)
    requires IsRun(ws, actions) && n <= |actions|
    ensures AllAsked(ws[n], Asked(actions[..n]))
  {
    if n > 0 {
      JobsAreTheSpawns(ws, actions, n - 1);
      assert Next(ws[n - 1], actions[n - 1], ws[n - 1 + 1]);
      assert actions[..n] == actions[..n - 1] + [actions[n - 1]];
      AskedStep(actions[..n - 1], actions[n - 1]);
      StepKeepsAsked(ws[n - 1], Asked(actions[..n - 1]), actions[n - 1]);
    }
  }

  function StepsAsked(spawn: Action): nat
    requires spawn.Spawn?
  {
    if spawn.steps == 0 then 1 else spawn.steps
  }

  /** A finished job has published what its loop returns for the steps and the failure that were asked for. */
  lemma FinishedAsAsked(ws: seq<World>, actions: seq<Action>, n: nat, j: nat) returns (spawn: Action, k: nat, end: Kind)
    requires IsRun(ws, actions) && n <= |actions| && j < |ws[n].jobs| && ws[n].jobs[j].pc.Done?
    ensures j < |Asked(actions[..n])| && spawn == Asked(actions[..n])[j] && spawn.Spawn?
    ensures Outcome(StepsAsked(spawn), spawn.failAt, PollsOf(ws[n].jobs[j]), EventsOf(ws[n].log, j), k, end)
  {
    var job := ws[n].jobs[j];
    JobsAreTheSpawns(ws, actions, n);
    RunsKeepInv(ws, actions, n);
    EventsAre(ws[n], j);
    DoneIsOutcome(job);
    spawn, k, end := Asked(actions[..n])[j], EndStep(job.pc), job.pc.kind;
    assert DoesWhatWasAsked(job, spawn);
  }

  // ---------- no cancellation found it ----------

  /** No cancellation up to `n` found job `j`. */
  ghost predicate NeverHit(ws: seq<World>, actions: seq<Action>, n: nat, j: nat)
    requires |ws| == |actions| + 1 && n <= |actions|
  {
    forall m | 0 <= m < n :: !Hits(ws[m], actions[m], j)
  }

  lemma NeverHitIsDown(ws: seq<World>, actions: seq<Action>, n: nat, j: nat)
    requires IsRun(ws, actions) && n <= |actions| && j < |ws[n].jobs| && NeverHit(ws, actions, n, j)
    ensures !ws[n].jobs[j].flag
  {
    if ws[n].jobs[j].flag {
      var m := FlagNeedsCancel(ws, actions, n, j);
    }
  }

  lemma {:induction false} RunningIs(k: nat)
    ensures |Running(k)| == k + 1 && Running(k)[0] == Started
    ensures forall i | 1 <= i <= k :: Running(k)[i] == Progress(i)
  {
    if k > 0 { RunningIs(k - 1); }
  }

  lemma NotCancelled(w: World, j: nat)
    requires Inv(w) && j < |w.jobs| && w.jobs[j].pc.Done? && !w.jobs[j].flag
    ensures !w.jobs[j].pc.kind.Cancelled?
  {
    EventsAre(w, j);
  }

  /** How a job ends that no cancellation found: at its failing step, or else after all its steps. */
  lemma EndWithoutCancellation(ws: seq<World>, actions: seq<Action>, n: nat, j: nat) returns (spawn: Action, k: nat, end: Kind)
    requires IsRun(ws, actions) && n <= |actions| && j < |ws[n].jobs| && ws[n].jobs[j].pc.Done?
    requires NeverHit(ws, actions, n, j)
    ensures j < |Asked(actions[..n])| && spawn == Asked(actions[..n])[j] && spawn.Spawn?
    ensures EventsOf(ws[n].log, j) == Running(k) + [end] && k <= StepsAsked(spawn)
    ensures forall i | 1 <= i <= k :: spawn.failAt != Some(i)
    ensures
      || (end == Completed && k == StepsAsked(spawn))
      || (end == Failed(k + 1) && k < StepsAsked(spawn) && spawn.failAt == Some(k + 1))
  {
    spawn, k, end := FinishedAsAsked(ws, actions, n, j);
    RunsKeepInv(ws, actions, n);
    NeverHitIsDown(ws, actions, n, j);
    NotCancelled(ws[n], j);
    LastEventIsEnd(ws[n], j);
    assert EventsOf(ws[n].log, j)[|EventsOf(ws[n].log, j)| - 1] == end;
  }

  /**
    A job no cancellation found, and that was not to fail at one of its steps, has published exactly one
    start, one progress event a step, and the completion.
    */
  lemma UncancelledJobCompletes(ws: seq<World>, actions: seq<Action>, n: nat, j: nat)
    requires IsRun(ws, actions) && n <= |actions| && j < |ws[n].jobs| && ws[n].jobs[j].pc.Done?
    requires NeverHit(ws, actions, n, j)
    requires j < |Asked(actions[..n])| && Asked(actions[..n])[j].Spawn?
    requires var spawn := Asked(actions[..n])[j];
      spawn.failAt.Some? ==> spawn.failAt.value == 0 || spawn.failAt.value > StepsAsked(spawn)
    ensures var steps, events := StepsAsked(Asked(actions[..n])[j]), EventsOf(ws[n].log, j);
      && |events| == steps + 2 && events[0] == Started && events[steps + 1] == Completed
      && forall i | 1 <= i <= steps :: events[i] == Progress(i)
  {
    var spawn, k, end := EndWithoutCancellation(ws, actions, n, j);
    RunningIs(k);
  }

  /** One that was to fail at step `f` has published the progress of the steps before, and the failure at `f`. */
  lemma UncancelledJobFails(ws: seq<World>, actions: seq<Action>, n: nat, j: nat, f: nat)
    requires IsRun(ws, actions) && n <= |actions| && j < |ws[n].jobs| && ws[n].jobs[j].pc.Done?
    requires NeverHit(ws, actions, n, j)
    requires j < |Asked(actions[..n])| && Asked(actions[..n])[j].Spawn?
    requires var spawn := Asked(actions[..n])[j]; spawn.failAt == Some(f) && 1 <= f <= StepsAsked(spawn)
    ensures var events := EventsOf(ws[n].log, j);
      && |events| == f + 1 && events[0] == Started && events[f] == Failed(f)
      && forall i | 1 <= i < f :: events[i] == Progress(i)
  {
    var spawn, k, end := EndWithoutCancellation(ws, actions, n, j);
    RunningIs(k);
  }

  // ---------- every job ends ----------

  /** How many steps of its own a job can still take. */
  function StepsToGo(job: Job): nat {
    match job.pc
    case Poll(i) => 3 * Max(job.steps - i, 0) + 6
    case Number(kind, i) => ToGoBehind(job, kind, i) + 2
    case Deliver(kind, i, _, _) => ToGoBehind(job, kind, i) + 1
    case Release(_, _) => 1
    case Done(_, _) => 0
  }

  /** What is left once the event of this kind is delivered. */
  function ToGoBehind(job: Job, kind: Kind, i: nat): nat {
    match kind
    case Started => 3 * job.steps + 3
    case Progress(_) => 3 * Max(job.steps - i, 0) + 3
    case _ => 1
  }

  lemma OwnStepCounts(w: World, j: nat)
    requires Inv(w) && j < |w.jobs|
    ensures var job, job' := w.jobs[j], AfterRun(w, j);
      job'.steps == job.steps && (StepsToGo(job') < StepsToGo(job) || job.pc.Done?)
  {
    EventsAre(w, j);
  }

  lemma OthersLeaveIt(w: World, a: Action, j: nat)
    requires j < |w.jobs| && a != Run(j)
    ensures j < |Apply(w, a).jobs|
    ensures var job, job' := w.jobs[j], Apply(w, a).jobs[j]; job'.pc == job.pc && job'.steps == job.steps
  {
  }

  /** What job `j` can still take, if there is one. */
  function Left(w: World, j: nat): nat {
    if j < |w.jobs| then StepsToGo(w.jobs[j]) else 0
  }

  lemma LeftStep(ws: seq<World>, actions: seq<Action>, m: nat, j: nat)
    requires IsRun(ws, actions) && m < |actions| && j < |ws[m].jobs|
    ensures j < |ws[m + 1].jobs| && Left(ws[m + 1], j) <= Max(Left(ws[m], j) - (if actions[m] == Run(j) then 1 else 0), 0)
  {
    RunsKeepInv(ws, actions, m);
    assert Next(ws[m], actions[m], ws[m + 1]);
    if actions[m] == Run(j) { OwnStepCounts(ws[m], j); } else { OthersLeaveIt(ws[m], actions[m], j); }
  }

  /** What goes down by one at each step of job `j` and never up. */
  ghost predicate CountsDown(left: seq<int>, actions: seq<Action>, n: nat, m: nat, j: nat)
    requires |left| == |actions| + 1 && n <= m <= |actions|
  {
    forall k | n <= k < m :: left[k + 1] <= Max(left[k] - (if actions[k] == Run(j) then 1 else 0), 0)
  }

  lemma {:induction false} Countdown(left: seq<int>, actions: seq<Action>, n: nat, m: nat, j: nat)
    requires |left| == |actions| + 1 && n <= m <= |actions| && CountsDown(left, actions, n, m, j)
    ensures left[m] <= Max(left[n] - OwnSteps(actions, n, m, j), 0)
  {
    if n < m { Countdown(left, actions, n, m - 1, j); }
  }

  lemma {:induction false} JobStays(ws: seq<World>, actions: seq<Action>, n: nat, m: nat, j: nat)
    requires IsRun(ws, actions) && n <= m <= |actions| && j < |ws[n].jobs|
    ensures j < |ws[m].jobs|
  {
    if n < m {
      JobStays(ws, actions, n, m - 1, j);
      LeftStep(ws, actions, m - 1, j);
    }
  }

  function LeftIn(ws: seq<World>, j: nat): (left: seq<int>)
    ensures |left| == |ws| && forall k | 0 <= k < |ws| :: left[k] == Left(ws[k], j)
  {
    seq(|ws|, k requires 0 <= k < |ws| => Left(ws[k], j))
  }

  lemma LeftCountsDown(ws: seq<World>, actions: seq<Action>, n: nat, m: nat, j: nat)
    requires IsRun(ws, actions) && n <= m <= |actions| && j < |ws[n].jobs|
    ensures CountsDown(LeftIn(ws, j), actions, n, m, j)
  {
    var left := LeftIn(ws, j);
    forall k | n <= k < m ensures left[k + 1] <= Max(left[k] - (if actions[k] == Run(j) then 1 else 0), 0) {
      JobStays(ws, actions, n, k, j);
      LeftStep(ws, actions, k, j);
    }
  }

  lemma UsedUp(left: seq<int>, actions: seq<Action>, n: nat, m: nat, j: nat)
    requires |left| == |actions| + 1 && n <= m <= |actions| && CountsDown(left, actions, n, m, j)
    requires OwnSteps(actions, n, m, j) >= left[n]
    ensures left[m] <= 0
  {
    Countdown(left, actions, n, m, j);
  }

  lemma SpawnedLeft(w: World, spawn: Action)
    requires spawn.Spawn? && spawn.scope != ""
    ensures |w.jobs| < |Apply(w, spawn).jobs| && Left(Apply(w, spawn), |w.jobs|) == 3 * StepsAsked(spawn) + 5
  {
    assert Apply(w, spawn).jobs[|w.jobs|].pc == Number(Started, 1);
  }

  lemma SpawnedIn(ws: seq<World>, actions: seq<Action>, n: nat)
    requires IsRun(ws, actions) && n < |actions| && actions[n].Spawn? && actions[n].scope != ""
    ensures |ws[n].jobs| < |ws[n + 1].jobs| && LeftIn(ws, |ws[n].jobs|)[n + 1] == 3 * StepsAsked(actions[n]) + 5
  {
    assert Next(ws[n], actions[n], ws[n + 1]);
    SpawnedLeft(ws[n], actions[n]);
  }

  lemma DoneIn(ws: seq<World>, m: nat, j: nat)
    requires m < |ws| && j < |ws[m].jobs| && LeftIn(ws, j)[m] <= 0
    ensures ws[m].jobs[j].pc.Done?
  {
  }

  lemma EndsWhenUsedUp(ws: seq<World>, actions: seq<Action>, n: nat, m: nat, j: nat)
    requires IsRun(ws, actions) && n <= m <= |actions| && j < |ws[n].jobs| && LeftIn(ws, j)[m] <= 0
    ensures j < |ws[m].jobs| && ws[m].jobs[j].pc.Done?
  {
    JobStays(ws, actions, n, m, j);
    DoneIn(ws, m, j);
  }

  /** Whatever others do, a job of `steps` steps has ended after `3 * steps + 5` steps of its own. */
  lemma EveryJobEnds(ws: seq<World>, actions: seq<Action>, n: nat, m: nat, spawn: Action)
    requires IsRun(ws, actions) && n < m <= |actions| && actions[n] == spawn && spawn.Spawn? && spawn.scope != ""
    requires OwnSteps(actions, n + 1, m, |ws[n].jobs|) >= 3 * StepsAsked(spawn) + 5
    ensures |ws[n].jobs| < |ws[m].jobs| && ws[m].jobs[|ws[n].jobs|].pc.Done?
  {
    var j := |ws[n].jobs|;
    var left := LeftIn(ws, j);
    SpawnedIn(ws, actions, n);
    LeftCountsDown(ws, actions, n + 1, m, j);
    UsedUp(left, actions, n + 1, m, j);
    EndsWhenUsedUp(ws, actions, n + 1, m, j);
  }

  // ---------- the bus ----------

  /** Who listens, told from the subscriptions. */
  function Listener(actions: seq<Action>): Option<nat> {
    if actions == [] then None
    else
      match actions[|actions| - 1]
      case Subscribe(id) => Some(id)
      case Unsubscribe => None
      case _ => Listener(actions[..|actions| - 1])
  }

  /** What the other publishers have said. */
  function SaidByOthers(actions: seq<Action>): seq<Kind> {
    if actions == [] then []
    else
      var a := actions[|actions| - 1];
      SaidByOthers(actions[..|actions| - 1]) + (if a.Other? then [a.kind] else [])
  }

  /** The events of the log that belong to no job. */
  function OfNoJob(log: seq<Event>): seq<Kind> {
    if log == [] then []
    else
      var last := log[|log| - 1];
      OfNoJob(log[..|log| - 1]) + (if last.job == None then [last.kind] else [])
  }

  lemma OfNoJobStep(log: seq<Event>, e: Event)
    ensures OfNoJob(log + [e]) == OfNoJob(log) + (if e.job == None then [e.kind] else [])
  {
    assert (log + [e])[..|log|] == log;
  }

  lemma BusStep(w: World, a: Action, listener: Option<nat>, said: seq<Kind>)
    requires w.sink == listener && OfNoJob(w.log) == said
    ensures Apply(w, a).sink == match a case Subscribe(id) => Some(id) case Unsubscribe => None case _ => listener
    ensures OfNoJob(Apply(w, a).log) == said + (if a.Other? then [a.kind] else [])
  {
    match a
    case Other(kind) => OfNoJobStep(w.log, Event(w.next, None, kind));
    case Run(j) =>
      if j < |w.jobs| && w.jobs[j].pc.Number? { OfNoJobStep(w.log, Event(w.next, Some(j), w.jobs[j].pc.kind)); }
    case _ =>
  }

  lemma ListenerStep(actions: seq<Action>, a: Action)
    ensures Listener(actions + [a]) == match a case Subscribe(id) => Some(id) case Unsubscribe => None case _ => Listener(actions)
    ensures SaidByOthers(actions + [a]) == SaidByOthers(actions) + (if a.Other? then [a.kind] else [])
  {
    assert (actions + [a])[..|actions|] == actions;
  }

  /** In every run the sink is the latest one subscribed, none once it is unsubscribed, and the log has what others published. */
  lemma {:induction false} BusIsShared(ws: seq<World>, actions: seq<Action>, n: nat)
    requires IsRun(ws, actions) && n <= |actions|
    ensures ws[n].sink == Listener(actions[..n]) && OfNoJob(ws[n].log) == SaidByOthers(actions[..n])
  {
    if n > 0 {
      var front, a := actions[..n - 1], actions[n - 1];
      BusIsShared(ws, actions, n - 1);
      assert Next(ws[n - 1], a, ws[n - 1 + 1]);
      assert actions[..n] == front + [a];
      ListenerStep(front, a);
      BusStep(ws[n - 1], a, Listener(front), SaidByOthers(front));
    }
  }
}
