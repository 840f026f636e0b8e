/** What a cancellation that finds a job leads to (`jobs.rs`): how and when the job then ends. */
module JobCancellation {
  import opened Words
  import opened EventBus
  import opened JobRunner

  /** The job has a poll of its flag to come before it ends. */
  predicate PollAhead(job: Job) {
    match job.pc
    case Poll(_) => true
    case Number(kind, _) => LeadsToPoll(job, kind)
    case Deliver(kind, _, _, _) => LeadsToPoll(job, kind)
    case _ => false
  }

  /** After this event the loop goes on to another step. */
  predicate LeadsToPoll(job: Job, kind: Kind) {
    kind.Started? || (kind.Progress? && kind.step < job.steps)
  }

  /** The job is ending, or has ended, as cancelled. */
  predicate EndsCancelled(job: Job) {
    match job.pc
    case Poll(_) => false
    case Number(kind, _) => kind.Cancelled?
    case Deliver(kind, _, _, _) => kind.Cancelled?
    case Release(kind, _) => kind.Cancelled?
    case Done(kind, _) => kind.Cancelled?
  }

  /** How many steps of its own a job with a raised flag still takes. */
  function StepsLeft(job: Job): nat {
    match job.pc
    case Done(_, _) => 0
    case Release(_, _) => 1
    case Deliver(kind, _, _, _) => AfterNumber(job, kind)
    case Number(kind, _) => AfterNumber(job, kind) + 1
    case Poll(_) => 4
  }

  function AfterNumber(job: Job, kind: Kind): nat {
    if LeadsToPoll(job, kind) then 5 else if kind.Progress? then 4 else 2
  }

  /** Whether the job is to end as cancelled, and in how many steps of its own at most. */
  ghost predicate Fated(w: World, j: nat, cancelled: bool, left: int) {
    && j < |w.jobs| && w.jobs[j].flag
    && (PollAhead(w.jobs[j]) || EndsCancelled(w.jobs[j]) <==> cancelled)
    && StepsLeft(w.jobs[j]) <= Max(left, 0)
  }

  function AfterRun(w: World, j: nat): Job
    requires j < |w.jobs|
  {
    RunJob(w, j).jobs[j]
  }

  lemma PollIsCancelled(job: Job)
    requires PcRight(job) && job.flag && job.pc.Poll?
    ensures AfterPoll(job, job.pc.step) == Number(Cancelled, job.pc.step)
  {
  }

  /** One step of a flagged job: its fate stays, and a step is used up. */
  lemma OwnStep(w: World, j: nat)
    requires Inv(w) && j < |w.jobs| && w.jobs[j].flag
    ensures var job, job' := w.jobs[j], AfterRun(w, j);
      && job'.flag && job'.steps == job.steps
      && (PollAhead(job') || EndsCancelled(job') <==> PollAhead(job) || EndsCancelled(job))
      && StepsLeft(job') <= Max(StepsLeft(job) - 1, 0)
  {
    EventsAre(w, j);
    if w.jobs[j].pc.Poll? { PollIsCancelled(w.jobs[j]); }
  }

  /** Whatever others do, the job stands where it stood, with its flag up. */
  lemma OthersStep(w: World, a: Action, j: nat)
    requires Inv(w) && j < |w.jobs| && w.jobs[j].flag && a != Run(j)
    ensures var w' := Apply(w, a);
      && j < |w'.jobs| && w'.jobs[j].flag
      && w'.jobs[j].pc == w.jobs[j].pc && w'.jobs[j].steps == w.jobs[j].steps
  {
  }

  /** How often job `j` moves from action `n` up to action `m`. */
  function OwnSteps(actions: seq<Action>, n: nat, m: nat, j: nat): nat
    requires n <= m <= |actions|
  {
    if n == m then 0 else OwnSteps(actions, n, m - 1, j) + if actions[m - 1] == Run(j) then 1 else 0
  }

  lemma FatedNext(ws: seq<World>, actions: seq<Action>, m: nat, j: nat, cancelled: bool, left: int)
    requires IsRun(ws, actions) && m < |actions| && Fated(ws[m], j, cancelled, left)
    ensures Fated(ws[m + 1], j, cancelled, left - if actions[m] == Run(j) then 1 else 0)
  {
    RunsKeepInv(ws, actions, m);
    assert Next(ws[m], actions[m], ws[m + 1]);
    if actions[m] == Run(j) { OwnStep(ws[m], j); } else { OthersStep(ws[m], actions[m], j); }
  }

  lemma {:induction false} FatedRun(ws: seq<World>, actions: seq<Action>, n: nat, m: nat, j: nat, cancelled: bool, left: int)
    requires IsRun(ws, actions) && n <= m <= |actions| && Fated(ws[n], j, cancelled, left)
    ensures Fated(ws[m], j, cancelled, left - OwnSteps(actions, n, m, j))
  {
    if n < m {
      var k := m - 1;
      FatedRun(ws, actions, n, k, j, cancelled, left);
      FatedNext(ws, actions, k, j, cancelled, left - OwnSteps(actions, n, k, j));
    }
  }

  /** A cancellation that finds job `j` raises its flag and seals its fate. */
  lemma HitSeals(ws: seq<World>, actions: seq<Action>, n: nat, j: nat)
    requires IsRun(ws, actions) && n < |actions| && Hits(ws[n], actions[n], j)
    ensures var job := ws[n].jobs[j];
      Fated(ws[n + 1], j, PollAhead(job) || EndsCancelled(job), StepsLeft(job))
  {
    assert Next(ws[n], actions[n], ws[n + 1]);
  }

  lemma DownCannotEndCancelled(w: World, j: nat)
    requires Inv(w) && j < |w.jobs| && !w.jobs[j].flag
    ensures !EndsCancelled(w.jobs[j])
  {
    EventsAre(w, j);
  }

  /** The last event of a finished job is its end. */
  lemma LastEventIsEnd(w: World, j: nat)
    requires Inv(w) && j < |w.jobs| && w.jobs[j].pc.Done?
    ensures var events := EventsOf(w.log, j); events != [] && events[|events| - 1] == w.jobs[j].pc.kind
  {
    EventsAre(w, j);
  }

  /**
    From a cancellation that reports success for a job whose flag was down: the job's last event is
    cancelled exactly when, at that moment, it still had a poll to come.
    */
  lemma CancelDecidesTheEnd(ws: seq<World>, actions: seq<Action>, n: nat, m: nat, j: nat)
    requires IsRun(ws, actions) && n < m <= |actions| && Hits(ws[n], actions[n], j) && !ws[n].jobs[j].flag
    requires j < |ws[m].jobs| && ws[m].jobs[j].pc.Done?
    ensures var events := EventsOf(ws[m].log, j);
      events != [] && (events[|events| - 1] == Cancelled <==> PollAhead(ws[n].jobs[j]))
  {
    var job := ws[n].jobs[j];
    RunsKeepInv(ws, actions, n);
    RunsKeepInv(ws, actions, m);
    DownCannotEndCancelled(ws[n], j);
    HitSeals(ws, actions, n, j);
    FatedRun(ws, actions, n + 1, m, j, PollAhead(job) || EndsCancelled(job), StepsLeft(job));
    LastEventIsEnd(ws[m], j);
  }

  /** And it has ended after at most six steps of its own, however others move. */
  lemma CancelledJobEnds(ws: seq<World>, actions: seq<Action>, n: nat, m: nat, j: nat)
    requires IsRun(ws, actions) && n < m <= |actions| && Hits(ws[n], actions[n], j)
    requires OwnSteps(actions, n + 1, m, j) >= 6
    ensures j < |ws[m].jobs| && ws[m].jobs[j].pc.Done?
  {
    var job := ws[n].jobs[j];
    HitSeals(ws, actions, n, j);
    FatedRun(ws, actions, n + 1, m, j, PollAhead(job) || EndsCancelled(job), StepsLeft(job));
  }

  /** A job on its own that has delivered its end but not dropped its guard is found, and ends completed. */
  lemma CancelTooLate() returns (ws: seq<World>, actions: seq<Action>, n: nat)
    ensures IsRun(ws, actions) && n < |actions| && Hits(ws[n], actions[n], 0) && !ws[n].jobs[0].flag
    ensures !PollAhead(ws[n].jobs[0])
    ensures var w := ws[|actions|]; |w.jobs| == 1 && w.jobs[0].pc == Done(Completed, 1)
  {
    var log, delivered;
    ws, actions, log, delivered := AloneToItsEnd();
    n := |actions|;
    var w := Alone(Release(Completed, 1), [false], log, delivered);
    var found, ended := Apply(w, Cancel("a")), Apply(Apply(w, Cancel("a")), Run(0));
    RunThenStep(ws, actions, w, Cancel("a"), found);
    RunThenStep(ws + [found], actions + [Cancel("a")], found, Run(0), ended);
    ws, actions := ws + [found] + [ended], actions + [Cancel("a")] + [Run(0)];
  }

  lemma RunThenStep(ws: seq<World>, actions: seq<Action>, w: World, a: Action, w': World)
    requires IsRun(ws, actions) && ws[|actions|] == w && Next(w, a, w')
    ensures IsRun(ws + [w'], actions + [a])
  {
    var ws', actions' := ws + [w'], actions + [a];
    forall n | 0 <= n < |actions'| ensures Next(ws'[n], actions'[n], ws'[n + 1]) {
      if n < |actions| { assert Next(ws[n], actions[n], ws[n + 1]); }
    }
  }
}
