/**
  Background jobs on the shared event bus (`jobs.rs`, `event.rs`) as a step system: every lock section
  and every atomic access is one step, and steps of different jobs, cancellations, subscriptions and
  other publishers interleave freely.
  */
module JobRunner {
  import opened Wrappers
  import opened EventBus

  predicate Terminal(k: Kind) {
    k.Completed? || k.Failed? || k.Cancelled?
  }

  /**
    Where a job stands. A publication takes a number and copies the sink in one step and delivers in
    another; `step` is the loop counter the job is at.
    */
  datatype Pc =
    | Number(kind: Kind, step: nat)
    | Deliver(kind: Kind, step: nat, number: nat, sink: Option<nat>)
    | Poll(step: nat)
    | Release(kind: Kind, step: nat)
    | Done(kind: Kind, step: nat)

  /** `polled` records what each poll of the flag has read. */
  datatype Job = Job(scope: string, steps: nat, failAt: Option<nat>, pc: Pc, flag: bool, polled: seq<bool>)

  datatype Delivery = Delivery(sink: nat, event: Event)

  datatype World = World(
    jobs: seq<Job>,
    cancels: map<string, nat>,
    next: nat,
    sink: Option<nat>,
    log: seq<Event>,
    delivered: seq<Delivery>)

  const INIT := World([], map[], 0, None, [], [])

  datatype Action =
    | Spawn(scope: string, steps: nat, failAt: Option<nat>)
    | Run(job: nat)
    | Cancel(scope: string)
    | Subscribe(id: nat)
    | Unsubscribe
    | Other(kind: Kind)

  // ---------- the steps ----------

  /** What the job does once an event of its own is delivered. */
  function AfterDelivery(job: Job, kind: Kind, step: nat): Pc {
    match kind
    case Started => Poll(1)
    case Progress(i) => if i < job.steps then Poll(i + 1) else Number(Completed, i)
    case _ => Release(kind, step)
  }

  function AfterPoll(job: Job, step: nat): Pc {
    if job.flag then Number(Cancelled, step)
    else if job.failAt == Some(step) then Number(Failed(step), step)
    else Number(Progress(step), step)
  }

  function RunJob(w: World, j: nat): World
    requires j < |w.jobs|
  {
    var job := w.jobs[j];
    match job.pc
    case Number(kind, step) =>
      w.(jobs := w.jobs[j := job.(pc := Deliver(kind, step, w.next, w.sink))],
        next := w.next + 1,
        log := w.log + [Event(w.next, Some(j), kind)])
    case Deliver(kind, step, number, sink) =>
      w.(jobs := w.jobs[j := job.(pc := AfterDelivery(job, kind, step))],
        delivered := w.delivered +
          (if sink.Some? then [Delivery(sink.value, Event(number, Some(j), kind))] else []))
    case Poll(step) =>
      w.(jobs := w.jobs[j := job.(pc := AfterPoll(job, step), polled := job.polled + [job.flag])])
    case Release(kind, step) =>
      w.(jobs := w.jobs[j := job.(pc := Done(kind, step))], cancels := w.cancels - {job.scope})
    case Done(_, _) => w
  }

  /** `cancel_job`: raises the flag the registry holds for the scope, if any. */
  function CancelScope(w: World, scope: string): World {
    if scope in w.cancels && w.cancels[scope] < |w.jobs| then
      var j := w.cancels[scope];
      w.(jobs := w.jobs[j := w.jobs[j].(flag := true)])
    else w
  }

  function Apply(w: World, a: Action): World {
    match a
    case Spawn(scope, steps, failAt) =>
      if scope == "" then w
      else
        w.(jobs := w.jobs + [Job(scope, if steps == 0 then 1 else steps, failAt, Number(Started, 1), false, [])],
          cancels := w.cancels[scope := |w.jobs|])
    case Run(j) => if j < |w.jobs| then RunJob(w, j) else w
    case Cancel(scope) => CancelScope(w, scope)
    case Subscribe(id) => w.(sink := Some(id))
    case Unsubscribe => w.(sink := None)
    case Other(kind) => w.(next := w.next + 1, log := w.log + [Event(w.next, None, kind)])
  }

  ghost predicate IsRun(ws: seq<World>, actions: seq<Action>) {
    && |ws| == |actions| + 1
    && ws[0] == INIT
    && forall n | 0 <= n < |actions| :: Next(ws[n], actions[n], ws[n + 1])
  }

  predicate Next(w: World, a: Action, w': World) {
    w' == Apply(w, a)
  }

  // ---------- the events of one job ----------

  function EventsOf(log: seq<Event>, j: nat): seq<Kind> {
    if log == [] then []
    else
      var last := log[|log| - 1];
      EventsOf(log[..|log| - 1], j) + if last.job == Some(j) then [last.kind] else []
  }

  /** A job under way: started, then `k` progress events counting from one. */
  function Running(k: nat): seq<Kind> {
    if k == 0 then [Started] else Running(k - 1) + [Progress(k)]
  }

  /** What a job must have published when it stands at `pc`. */
  function History(pc: Pc): seq<Kind> {
    match pc
    case Poll(i) => if i == 0 then [] else Running(i - 1)
    case Number(kind, i) =>
      (match kind
       case Started => []
       case Completed => Running(i)
       case _ => if i == 0 then [] else Running(i - 1))
    case Deliver(kind, i, _, _) => Published(kind, i)
    case Release(kind, i) => Published(kind, i)
    case Done(kind, i) => Published(kind, i)
  }

  function Published(kind: Kind, i: nat): seq<Kind> {
    match kind
    case Started => [Started]
    case Progress(k) => Running(k)
    case Completed => Running(i) + [Completed]
    case _ => if i == 0 then [] else Running(i - 1) + [kind]
  }

  /** The job polled at every step up to `i` and neither failed there. */
  predicate PassedUpTo(job: Job, i: nat) {
    forall k | 1 <= k <= i :: job.failAt != Some(k)
  }

  /** The first `i` polls read a flag that was down. */
  predicate Clear(polled: seq<bool>, i: nat) {
    i <= |polled| && forall k | 0 <= k < i :: !polled[k]
  }

  /** The kind published at loop counter `i` is one the loop can choose there. */
  predicate Chosen(job: Job, kind: Kind, i: nat) {
    && 1 <= i <= job.steps
    && (if kind.Started? then job.polled == [] else |job.polled| == i && Clear(job.polled, i - 1))
    && match kind
       case Started => i == 1
       case Progress(k) => k == i && PassedUpTo(job, i) && !job.polled[i - 1]
       case Completed => i == job.steps && PassedUpTo(job, i) && !job.polled[i - 1]
       case Failed(k) => k == i && job.failAt == Some(i) && PassedUpTo(job, i - 1) && !job.polled[i - 1]
       case Cancelled => job.flag && PassedUpTo(job, i - 1) && job.polled[i - 1]
  }

  predicate PcRight(job: Job) {
    job.scope != "" &&
    match job.pc
    case Poll(i) =>
      1 <= i <= job.steps && PassedUpTo(job, i - 1) && |job.polled| == i - 1 && Clear(job.polled, i - 1)
    case Number(kind, i) => Chosen(job, kind, i)
    case Deliver(kind, i, _, _) => Chosen(job, kind, i)
    case Release(kind, i) => Chosen(job, kind, i) && Terminal(kind)
    case Done(kind, i) => Chosen(job, kind, i) && Terminal(kind)
  }

  // ---------- the invariant ----------

  ghost predicate Numbered(log: seq<Event>) {
    forall k | 0 <= k < |log| :: log[k].number == k
  }

  ghost predicate JobsRight(w: World) {
    forall j | 0 <= j < |w.jobs| :: PcRight(w.jobs[j]) && EventsOf(w.log, j) == History(w.jobs[j].pc)
  }

  /** No event belongs to a job that was never spawned. */
  ghost predicate KnownJobs(w: World) {
    forall k | 0 <= k < |w.log| && w.log[k].job.Some? :: w.log[k].job.value < |w.jobs|
  }

  ghost predicate RegistryRight(w: World) {
    forall scope | scope in w.cancels :: w.cancels[scope] < |w.jobs| && w.jobs[w.cancels[scope]].scope == scope
  }

  ghost predicate Inv(w: World) {
    w.next == |w.log| && Numbered(w.log) && JobsRight(w) && KnownJobs(w) && RegistryRight(w)
  }

  lemma EventsStep(log: seq<Event>, e: Event, j: nat)
    ensures EventsOf(log + [e], j) == EventsOf(log, j) + if e.job == Some(j) then [e.kind] else []
  {
    assert (log + [e])[..|log|] == log;
  }

  lemma {:induction false} NoEventsYet(log: seq<Event>, j: nat)
    requires forall k | 0 <= k < |log| && log[k].job.Some? :: log[k].job.value < j
    ensures EventsOf(log, j) == []
  {
    if log != [] { NoEventsYet(log[..|log| - 1], j); }
  }

  /** Numbering a publication extends the history by its kind. */
  lemma NumberExtends(job: Job, number: nat, sink: Option<nat>)
    requires job.pc.Number? && PcRight(job)
    ensures History(Deliver(job.pc.kind, job.pc.step, number, sink)) == History(job.pc) + [job.pc.kind]
  {
  }

  /** Delivering and polling publish nothing, and lead where the loop may stand. */
  lemma DeliveryLeads(job: Job)
    requires PcRight(job) && job.pc.Deliver?
    ensures var pc := AfterDelivery(job, job.pc.kind, job.pc.step);
      PcRight(job.(pc := pc)) && History(pc) == History(job.pc)
  {
  }

  lemma PollLeads(job: Job)
    requires PcRight(job) && job.pc.Poll?
    ensures var pc := AfterPoll(job, job.pc.step);
      PcRight(job.(pc := pc, polled := job.polled + [job.flag])) && History(pc) == History(job.pc)
  {
  }

  lemma NumberKeeps(w: World, j: nat)
    requires Inv(w) && j < |w.jobs| && w.jobs[j].pc.Number?
    ensures Inv(RunJob(w, j))
  {
    var job, w' := w.jobs[j], RunJob(w, j);
    NumberExtends(job, w.next, w.sink);
    forall i | 0 <= i < |w'.jobs|
      ensures PcRight(w'.jobs[i]) && EventsOf(w'.log, i) == History(w'.jobs[i].pc)
    {
      assert PcRight(w.jobs[i]) && EventsOf(w.log, i) == History(w.jobs[i].pc);
      EventsStep(w.log, Event(w.next, Some(j), job.pc.kind), i);
    }
  }

  /** A step of job `j` that publishes nothing and registers nothing. */
  lemma SilentKeeps(w: World, j: nat, job: Job, w': World)
    requires Inv(w) && j < |w.jobs| && PcRight(job) && History(job.pc) == History(w.jobs[j].pc)
    requires job.scope == w.jobs[j].scope && w'.jobs == w.jobs[j := job]
    requires w'.next == w.next && w'.log == w.log
    requires forall scope | scope in w'.cancels :: scope in w.cancels && w'.cancels[scope] == w.cancels[scope]
    ensures Inv(w')
  {
    forall i | 0 <= i < |w'.jobs|
      ensures PcRight(w'.jobs[i]) && EventsOf(w'.log, i) == History(w'.jobs[i].pc)
    {
      EventsAre(w, i);
    }
  }

  lemma EventsAre(w: World, j: nat)
    requires Inv(w) && j < |w.jobs|
    ensures PcRight(w.jobs[j]) && EventsOf(w.log, j) == History(w.jobs[j].pc)
  {
  }

  lemma RunKeeps(w: World, j: nat)
    requires Inv(w) && j < |w.jobs|
    ensures Inv(RunJob(w, j))
  {
    var job, w' := w.jobs[j], RunJob(w, j);
    EventsAre(w, j);
    match job.pc
    case Number(_, _) => NumberKeeps(w, j);
    case Deliver(_, _, _, _) =>
      DeliveryLeads(job);
      SilentKeeps(w, j, w'.jobs[j], w');
    case Poll(_) =>
      PollLeads(job);
      SilentKeeps(w, j, w'.jobs[j], w');
    case Release(_, _) => SilentKeeps(w, j, w'.jobs[j], w');
    case Done(_, _) =>
  }

  lemma SpawnKeeps(w: World, scope: string, steps: nat, failAt: Option<nat>)
    requires Inv(w) && scope != ""
    ensures Inv(Apply(w, Spawn(scope, steps, failAt)))
  {
    var w' := Apply(w, Spawn(scope, steps, failAt));
    NoEventsYet(w.log, |w.jobs|);
    forall i | 0 <= i < |w'.jobs|
      ensures PcRight(w'.jobs[i]) && EventsOf(w'.log, i) == History(w'.jobs[i].pc)
    {
      if i < |w.jobs| { assert PcRight(w.jobs[i]) && EventsOf(w.log, i) == History(w.jobs[i].pc); }
    }
  }

  lemma CancelKeeps(w: World, scope: string)
    requires Inv(w)
    ensures Inv(CancelScope(w, scope))
  {
    var w' := CancelScope(w, scope);
    forall i | 0 <= i < |w'.jobs|
      ensures PcRight(w'.jobs[i]) && EventsOf(w'.log, i) == History(w'.jobs[i].pc)
    {
      assert PcRight(w.jobs[i]) && EventsOf(w.log, i) == History(w.jobs[i].pc);
    }
  }

  lemma OtherKeeps(w: World, kind: Kind)
    requires Inv(w)
    ensures Inv(Apply(w, Other(kind)))
  {
    var w' := Apply(w, Other(kind));
    forall i | 0 <= i < |w'.jobs|
      ensures PcRight(w'.jobs[i]) && EventsOf(w'.log, i) == History(w'.jobs[i].pc)
    {
      assert PcRight(w.jobs[i]) && EventsOf(w.log, i) == History(w.jobs[i].pc);
      EventsStep(w.log, Event(w.next, None, kind), i);
    }
  }

  /** Every step of every actor keeps the invariant. */
  lemma StepKeeps(w: World, a: Action)
    requires Inv(w)
    ensures Inv(Apply(w, a))
  {
    match a
    case Spawn(scope, steps, failAt) => if scope != "" { SpawnKeeps(w, scope, steps, failAt); }
    case Run(j) => if j < |w.jobs| { RunKeeps(w, j); }
    case Cancel(scope) => CancelKeeps(w, scope);
    case Subscribe(id) =>
    case Unsubscribe =>
    case Other(kind) => OtherKeeps(w, kind);
  }

  lemma {:induction false} RunsKeepInv(ws: seq<World>, actions: seq<Action>, n: nat)
    requires IsRun(ws, actions) && n <= |actions|
    ensures Inv(ws[n])
  {
    if n > 0 {
      RunsKeepInv(ws, actions, n - 1);
      assert Next(ws[n - 1], actions[n - 1], ws[n - 1 + 1]);
      StepKeeps(ws[n - 1], actions[n - 1]);
    }
  }

  // ---------- what a listener sees of one job ----------

  /** The end of a job after `k` progress events. */
  predicate EndRight(job: Job, k: nat, end: Kind) {
    match end
    case Completed => k == job.steps && PassedUpTo(job, job.steps)
    case Failed(step) => step == k + 1 <= job.steps && job.failAt == Some(step)
    case Cancelled => k < job.steps && job.flag
    case _ => false
  }

  /** Nothing yet, or started and progress one to `k` and then at most one end. */
  ghost predicate WellShaped(job: Job, events: seq<Kind>) {
    || events == []
    || exists k: nat :: k <= job.steps && PassedUpTo(job, k) && ShapedAt(job, events, k)
  }

  ghost predicate ShapedAt(job: Job, events: seq<Kind>, k: nat) {
    events == Running(k) || exists end :: EndRight(job, k, end) && events == Running(k) + [end]
  }

  lemma RunningShape(job: Job, k: nat)
    requires k <= job.steps && PassedUpTo(job, k)
    ensures WellShaped(job, Running(k))
  {
    assert ShapedAt(job, Running(k), k);
  }

  lemma PublishedShape(job: Job, kind: Kind, i: nat)
    requires Chosen(job, kind, i)
    ensures WellShaped(job, Published(kind, i))
  {
    match kind
    case Started =>
      assert Running(0) == [Started];
      RunningShape(job, 0);
    case Progress(k) => RunningShape(job, k);
    case Completed => EndShape(job, Published(kind, i), i, Completed);
    case _ => EndShape(job, Published(kind, i), i - 1, kind);
  }

  lemma HistoryShape(job: Job)
    requires PcRight(job)
    ensures WellShaped(job, History(job.pc))
  {
    match job.pc
    case Poll(i) => RunningShape(job, i - 1);
    case Number(kind, i) =>
      if kind.Completed? { RunningShape(job, i); }
      else if !kind.Started? { RunningShape(job, i - 1); }
    case Deliver(kind, i, _, _) => PublishedShape(job, kind, i);
    case Release(kind, i) => PublishedShape(job, kind, i);
    case Done(kind, i) => PublishedShape(job, kind, i);
  }

  lemma EndShape(job: Job, events: seq<Kind>, k: nat, end: Kind)
    requires k <= job.steps && PassedUpTo(job, k) && EndRight(job, k, end) && events == Running(k) + [end]
    ensures WellShaped(job, events)
  {
    assert ShapedAt(job, events, k);
  }

  /**
    In every interleaving each job's events are started, progress 1 to k, then at most one end:
    completed only after all steps, failed only at the failing step, cancelled only with the flag up.
    */
  lemma JobEventsAreWellShaped(ws: seq<World>, actions: seq<Action>, n: nat, j: nat)
    requires IsRun(ws, actions) && n <= |actions| && j < |ws[n].jobs|
    ensures WellShaped(ws[n].jobs[j], EventsOf(ws[n].log, j))
  {
    RunsKeepInv(ws, actions, n);
    assert PcRight(ws[n].jobs[j]) && EventsOf(ws[n].log, j) == History(ws[n].jobs[j].pc);
    HistoryShape(ws[n].jobs[j]);
  }

  // ---------- cancellation ----------

  /** A cancellation that finds the flag of job `j`. */
  predicate Hits(w: World, a: Action, j: nat) {
    && a.Cancel? && a.scope in w.cancels && w.cancels[a.scope] == j
    && j < |w.jobs| && w.jobs[j].scope == a.scope
  }

  lemma FlagStep(w: World, a: Action, j: nat)
    requires Inv(w) && j < |Apply(w, a).jobs| && Apply(w, a).jobs[j].flag
    ensures j < |w.jobs| && (w.jobs[j].flag || Hits(w, a, j))
  {
  }

  /** A flag is only ever raised by a cancellation of the job's own scope that found the job. */
  lemma {:induction false} FlagNeedsCancel(ws: seq<World>, actions: seq<Action>, n: nat, j: nat) returns (m: nat)
    requires IsRun(ws, actions) && n <= |actions| && j < |ws[n].jobs| && ws[n].jobs[j].flag
    ensures m < n && Hits(ws[m], actions[m], j)
  {
    RunsKeepInv(ws, actions, n - 1);
    assert Next(ws[n - 1], actions[n - 1], ws[n - 1 + 1]);
    FlagStep(ws[n - 1], actions[n - 1], j);
    if Hits(ws[n - 1], actions[n - 1], j) {
      m := n - 1;
    } else {
      m := FlagNeedsCancel(ws, actions, n - 1, j);
    }
  }

  /** A cancelled event means an earlier cancellation that reported success. */
  lemma CancelledNeedsCancel(ws: seq<World>, actions: seq<Action>, n: nat, j: nat) returns (m: nat)
    requires IsRun(ws, actions) && n <= |actions| && j < |ws[n].jobs| && Cancelled in EventsOf(ws[n].log, j)
    ensures m < n && Hits(ws[m], actions[m], j)
  {
    RunsKeepInv(ws, actions, n);
    var job := ws[n].jobs[j];
    assert PcRight(job) && EventsOf(ws[n].log, j) == History(job.pc);
    CancelledInHistory(job);
    m := FlagNeedsCancel(ws, actions, n, j);
  }

  lemma {:induction false} NoEndInRunning(k: nat, end: Kind)
    requires Terminal(end)
    ensures end !in Running(k)
  {
    if k > 0 { NoEndInRunning(k - 1, end); }
  }

  lemma CancelledInHistory(job: Job)
    requires PcRight(job) && Cancelled in History(job.pc)
    ensures job.flag
  {
    var i := job.pc.step;
    NoEndInRunning(i, Cancelled);
    NoEndInRunning(i - 1, Cancelled);
  }

  function CountProgress(events: seq<Kind>): nat {
    if events == [] then 0
    else CountProgress(events[..|events| - 1]) + if events[|events| - 1].Progress? then 1 else 0
  }

  lemma CountStep(events: seq<Kind>, kind: Kind)
    ensures CountProgress(events + [kind]) == CountProgress(events) + if kind.Progress? then 1 else 0
  {
    assert (events + [kind])[..|events|] == events;
  }

  /** Progress published, plus one when a progress publication is already decided. */
  function ProgressDue(pc: Pc): nat {
    CountProgress(History(pc)) + if pc.Number? && pc.kind.Progress? then 1 else 0
  }

  /** A raised flag turns the next poll into a cancellation. */
  lemma FlaggedPoll(job: Job)
    requires PcRight(job) && job.pc.Poll? && job.flag
    ensures ProgressDue(AfterPoll(job, job.pc.step)) == ProgressDue(job.pc)
  {
    PollLeads(job);
  }

  lemma DeliveryDue(job: Job)
    requires PcRight(job) && job.pc.Deliver?
    ensures ProgressDue(AfterDelivery(job, job.pc.kind, job.pc.step)) == ProgressDue(job.pc)
  {
    DeliveryLeads(job);
  }

  lemma NumberingDue(job: Job, number: nat, sink: Option<nat>)
    requires PcRight(job) && job.pc.Number?
    ensures ProgressDue(Deliver(job.pc.kind, job.pc.step, number, sink)) == ProgressDue(job.pc)
  {
    NumberExtends(job, number, sink);
    CountStep(History(job.pc), job.pc.kind);
  }

  lemma FlaggedRunStep(w: World, j: nat)
    requires Inv(w) && j < |w.jobs| && w.jobs[j].flag
    ensures ProgressDue(RunJob(w, j).jobs[j].pc) <= ProgressDue(w.jobs[j].pc)
  {
    var job := w.jobs[j];
    EventsAre(w, j);
    match job.pc
    case Number(_, _) => NumberingDue(job, w.next, w.sink);
    case Deliver(_, _, _, _) => DeliveryDue(job);
    case Poll(_) => FlaggedPoll(job);
    case _ =>
  }

  /** The flag of job `j` is up, and its progress, published or decided, is within the bound. */
  ghost predicate FlaggedWithin(w: World, j: nat, bound: nat) {
    j < |w.jobs| && w.jobs[j].flag && ProgressDue(w.jobs[j].pc) <= bound
  }

  lemma FlaggedStep(w: World, a: Action, j: nat, bound: nat)
    requires Inv(w) && FlaggedWithin(w, j, bound)
    ensures FlaggedWithin(Apply(w, a), j, bound)
  {
    if a == Run(j) { FlaggedRunStep(w, j); }
  }

  lemma FlaggedNext(ws: seq<World>, actions: seq<Action>, n: nat, j: nat, bound: nat)
    requires IsRun(ws, actions) && n < |actions| && FlaggedWithin(ws[n], j, bound)
    ensures FlaggedWithin(ws[n + 1], j, bound)
  {
    RunsKeepInv(ws, actions, n);
    FlaggedStep(ws[n], actions[n], j, bound);
    assert Next(ws[n], actions[n], ws[n + 1]);
  }

  lemma {:induction false} FlaggedRun(ws: seq<World>, actions: seq<Action>, n: nat, m: nat, j: nat, bound: nat)
    requires IsRun(ws, actions) && n <= m <= |actions| && FlaggedWithin(ws[n], j, bound)
    ensures FlaggedWithin(ws[m], j, bound)
  {
    if n < m {
      var k := m - 1;
      FlaggedRun(ws, actions, n, k, j, bound);
      FlaggedNext(ws, actions, k, j, bound);
    }
  }

  /** Once its flag is up, a job publishes at most one more progress event, however long the run. */
  lemma AtMostOneMoreProgress(ws: seq<World>, actions: seq<Action>, n: nat, m: nat, j: nat)
    requires IsRun(ws, actions) && n <= m <= |actions| && j < |ws[n].jobs| && ws[n].jobs[j].flag
    ensures CountProgress(EventsOf(ws[m].log, j)) <= CountProgress(EventsOf(ws[n].log, j)) + 1
  {
    FlaggedRun(ws, actions, n, m, j, ProgressDue(ws[n].jobs[j].pc));
    RunsKeepInv(ws, actions, n);
    RunsKeepInv(ws, actions, m);
    EventsAre(ws[n], j);
    EventsAre(ws[m], j);
  }

  // ---------- when cancellation reaches a job ----------

  predicate Live(job: Job) {
    !job.pc.Done?
  }

  /** The registry holds every live job under its scope. */
  ghost predicate LiveRegistered(w: World) {
    forall j | 0 <= j < |w.jobs| && Live(w.jobs[j]) ::
      w.jobs[j].scope in w.cancels && w.cancels[w.jobs[j].scope] == j
  }

  ghost predicate RegisteredLive(w: World) {
    forall scope | scope in w.cancels ::
      w.cancels[scope] < |w.jobs| && Live(w.jobs[w.cancels[scope]]) && w.jobs[w.cancels[scope]].scope == scope
  }

  /** A job is spawned only into a scope without a live job. */
  ghost predicate NoOverlap(w: World, a: Action) {
    a.Spawn? && a.scope != "" ==> forall j | 0 <= j < |w.jobs| && w.jobs[j].scope == a.scope :: !Live(w.jobs[j])
  }

  lemma SpawnRegisters(w: World, scope: string, steps: nat, failAt: Option<nat>)
    requires LiveRegistered(w) && RegisteredLive(w) && NoOverlap(w, Spawn(scope, steps, failAt))
    ensures var w' := Apply(w, Spawn(scope, steps, failAt)); LiveRegistered(w') && RegisteredLive(w')
  {
  }

  lemma RunRegisters(w: World, i: nat)
    requires LiveRegistered(w) && RegisteredLive(w) && i < |w.jobs|
    ensures LiveRegistered(RunJob(w, i)) && RegisteredLive(RunJob(w, i))
  {
    var w' := RunJob(w, i);
    if w.jobs[i].pc.Release? {
      forall j | 0 <= j < |w'.jobs| && Live(w'.jobs[j])
        ensures w'.jobs[j].scope in w'.cancels && w'.cancels[w'.jobs[j].scope] == j
      {
        assert Live(w.jobs[i]) && Live(w.jobs[j]);
      }
    }
  }

  lemma RegistryStep(w: World, a: Action)
    requires LiveRegistered(w) && RegisteredLive(w) && NoOverlap(w, a)
    ensures LiveRegistered(Apply(w, a)) && RegisteredLive(Apply(w, a))
  {
    match a
    case Spawn(scope, steps, failAt) => SpawnRegisters(w, scope, steps, failAt);
    case Run(i) => if i < |w.jobs| { RunRegisters(w, i); }
    case _ =>
  }

  lemma {:induction false} RegistryAlongRun(ws: seq<World>, actions: seq<Action>, n: nat)
    requires IsRun(ws, actions) && n <= |actions|
    requires forall m | 0 <= m < n :: NoOverlap(ws[m], actions[m])
    ensures LiveRegistered(ws[n]) && RegisteredLive(ws[n])
  {
    if n > 0 {
      RegistryAlongRun(ws, actions, n - 1);
      assert Next(ws[n - 1], actions[n - 1], ws[n - 1 + 1]);
      RegistryStep(ws[n - 1], actions[n - 1]);
    }
  }

  lemma OverlapHidesAJob(w: World, a: Action)
    requires !NoOverlap(w, a)
    ensures !LiveRegistered(Apply(w, a))
  {
    var w' := Apply(w, a);
    var j :| 0 <= j < |w.jobs| && w.jobs[j].scope == a.scope && Live(w.jobs[j]);
    assert Live(w'.jobs[j]) && w'.cancels[w'.jobs[j].scope] == |w.jobs|;
  }

  /**
    Every live job can be cancelled at every moment of a run exactly when no job is ever spawned into
    a scope that still has a live one.
    */
  lemma CancellableExactlyWithoutOverlap(ws: seq<World>, actions: seq<Action>)
    requires IsRun(ws, actions)
    ensures (forall n | 0 <= n <= |actions| :: LiveRegistered(ws[n])) <==>
      (forall n | 0 <= n < |actions| :: NoOverlap(ws[n], actions[n]))
  {
    if forall n | 0 <= n < |actions| :: NoOverlap(ws[n], actions[n]) {
      forall n | 0 <= n <= |actions| ensures LiveRegistered(ws[n]) { RegistryAlongRun(ws, actions, n); }
    } else {
      var n :| 0 <= n < |actions| && !NoOverlap(ws[n], actions[n]);
      assert Next(ws[n], actions[n], ws[n + 1]);
      OverlapHidesAJob(ws[n], actions[n]);
    }
  }

  /** A job is spawned only into a scope for which `cancel_job` would say that there is nothing to cancel. */
  predicate IntoFreeScope(w: World, a: Action) {
    a.Spawn? ==> a.scope !in w.cancels
  }

  lemma {:induction false} FreeScopesDoNotOverlap(ws: seq<World>, actions: seq<Action>, n: nat)
    requires IsRun(ws, actions) && n <= |actions|
    requires forall m | 0 <= m < n :: IntoFreeScope(ws[m], actions[m])
    ensures forall m | 0 <= m < n :: NoOverlap(ws[m], actions[m])
  {
    if n > 0 {
      FreeScopesDoNotOverlap(ws, actions, n - 1);
      RegistryAlongRun(ws, actions, n - 1);
    }
  }

  lemma RegisteredIsNamed(w: World, scope: string)
    requires Inv(w) && scope in w.cancels
    ensures scope != ""
  {
    assert PcRight(w.jobs[w.cancels[scope]]);
  }

  /**
    Every live job can be cancelled at every moment of a run exactly when every job is spawned into a
    scope for which `cancel_job` would at that moment return false.
    */
  lemma CancellableExactlyInFreeScopes(ws: seq<World>, actions: seq<Action>)
    requires IsRun(ws, actions)
    ensures (forall n | 0 <= n <= |actions| :: LiveRegistered(ws[n])) <==>
      (forall n | 0 <= n < |actions| :: IntoFreeScope(ws[n], actions[n]))
  {
    if forall n | 0 <= n < |actions| :: IntoFreeScope(ws[n], actions[n]) {
      FreeScopesDoNotOverlap(ws, actions, |actions|);
      CancellableExactlyWithoutOverlap(ws, actions);
    }
    if forall n | 0 <= n <= |actions| :: LiveRegistered(ws[n]) {
      CancellableExactlyWithoutOverlap(ws, actions);
      forall n | 0 <= n < |actions| ensures IntoFreeScope(ws[n], actions[n]) {
        assert NoOverlap(ws[n], actions[n]);
        RegistryAlongRun(ws, actions, n);
        RunsKeepInv(ws, actions, n);
        if actions[n].Spawn? && actions[n].scope in ws[n].cancels { RegisteredIsNamed(ws[n], actions[n].scope); }
      }
    }
  }

  /** Then a cancellation succeeds exactly when the scope has a live job, and raises that job's flag only. */
  lemma CancelFindsTheLiveJob(w: World, scope: string)
    requires LiveRegistered(w) && RegisteredLive(w)
    ensures scope in w.cancels <==> exists j :: 0 <= j < |w.jobs| && Live(w.jobs[j]) && w.jobs[j].scope == scope
    ensures forall j | 0 <= j < |w.jobs| && Live(w.jobs[j]) && w.jobs[j].scope == scope ::
      CancelScope(w, scope).jobs == w.jobs[j := w.jobs[j].(flag := true)]
  {
  }

  /**
    With overlap the first job to end takes the other's flag out of the registry: cancelling the scope
    then reports failure and changes nothing, though the other job is still live.
    */
  lemma EndedJobTakesTheFlag(w: World, i: nat, j: nat)
    requires i < |w.jobs| && j < |w.jobs| && i != j && w.jobs[i].pc.Release? && Live(w.jobs[j])
    requires w.jobs[i].scope == w.jobs[j].scope
    ensures var w' := Apply(w, Run(i)); Live(w'.jobs[j]) && Apply(w', Cancel(w.jobs[j].scope)) == w'
  {
  }

  // ---------- waiting for the terminal event is not enough ----------

  /** The job's terminal event has been handed to the sink. */
  predicate EndDelivered(job: Job) { job.pc.Release? || job.pc.Done? }

  /** A caller that reuses a scope once every job in it has delivered its terminal event. */
  predicate WaitsForEnds(w: World, a: Action) {
    a.Spawn? ==> forall j | 0 <= j < |w.jobs| && w.jobs[j].scope == a.scope :: EndDelivered(w.jobs[j])
  }

  /** The guard of the ended job, dropped after the scope is reused, takes the new job's flag away. */
  lemma LateGuardHidesNewJob(w: World, j: nat, steps: nat, failAt: Option<nat>)
    requires Inv(w) && j < |w.jobs| && w.jobs[j].pc.Release?
    ensures var scope := w.jobs[j].scope;
      var w' := Apply(Apply(w, Spawn(scope, steps, failAt)), Run(j));
      |w'.jobs| == |w.jobs| + 1 && Live(w'.jobs[|w.jobs|]) && w'.jobs[|w.jobs|].scope == scope
      && scope !in w'.cancels && Apply(w', Cancel(scope)) == w'
  {
    assert PcRight(w.jobs[j]);
  }

  /** Job `0` of one step on its own, from its start to its delivered end. */
  function Alone(pc: Pc, polled: seq<bool>, log: seq<Event>, delivered: seq<Delivery>): World {
    World([Job("a", 1, None, pc, false, polled)], map["a" := 0], |log|, Some(0), log, delivered)
  }

  function Said(number: nat, kind: Kind): Event { Event(number, Some(0), kind) }

  lemma AloneNumbers(kind: Kind, step: nat, polled: seq<bool>, log: seq<Event>, delivered: seq<Delivery>)
    ensures Next(Alone(Number(kind, step), polled, log, delivered), Run(0),
      Alone(Deliver(kind, step, |log|, Some(0)), polled, log + [Said(|log|, kind)], delivered))
  {
  }

  lemma AloneDelivers(kind: Kind, step: nat, number: nat, polled: seq<bool>, log: seq<Event>, delivered: seq<Delivery>)
    ensures Next(Alone(Deliver(kind, step, number, Some(0)), polled, log, delivered), Run(0),
      Alone(AfterDelivery(Job("a", 1, None, Poll(1), false, []), kind, step), polled, log,
        delivered + [Delivery(0, Said(number, kind))]))
  {
  }

  lemma AlonePolls(log: seq<Event>, delivered: seq<Delivery>)
    ensures Next(Alone(Poll(1), [], log, delivered), Run(0), Alone(Number(Progress(1), 1), [false], log, delivered))
  {
    assert [] + [false] == [false];
  }

  /** A run to `w` in which every caller waits for ends. */
  ghost predicate PatientRun(ws: seq<World>, actions: seq<Action>, w: World) {
    && IsRun(ws, actions) && ws[|actions|] == w
    && forall n | 0 <= n < |actions| :: WaitsForEnds(ws[n], actions[n])
  }

  lemma PatientStep(ws: seq<World>, actions: seq<Action>, w: World, a: Action, w': World)
    returns (ws': seq<World>, actions': seq<Action>)
    requires PatientRun(ws, actions, w) && WaitsForEnds(w, a) && Next(w, a, w')
    ensures PatientRun(ws', actions', w')
  {
    ws', actions' := ws + [w'], actions + [a];
    forall n | 0 <= n < |actions'| ensures Next(ws'[n], actions'[n], ws'[n + 1]) && WaitsForEnds(ws'[n], actions'[n]) {
      if n < |actions| { assert Next(ws[n], actions[n], ws[n + 1]) && WaitsForEnds(ws[n], actions[n]); }
    }
  }

  /** What a job says at its next publication, numbered and delivered. */
  lemma AloneSpeaks(ws: seq<World>, actions: seq<Action>, kind: Kind, polled: seq<bool>,
                    log: seq<Event>, delivered: seq<Delivery>)
    returns (ws': seq<World>, actions': seq<Action>)
    requires PatientRun(ws, actions, Alone(Number(kind, 1), polled, log, delivered))
    ensures PatientRun(ws', actions',
      Alone(AfterDelivery(Job("a", 1, None, Poll(1), false, []), kind, 1), polled, log + [Said(|log|, kind)],
        delivered + [Delivery(0, Said(|log|, kind))]))
  {
    AloneNumbers(kind, 1, polled, log, delivered);
    var numbered := Alone(Deliver(kind, 1, |log|, Some(0)), polled, log + [Said(|log|, kind)], delivered);
    ws', actions' := PatientStep(ws, actions, Alone(Number(kind, 1), polled, log, delivered), Run(0), numbered);
    AloneDelivers(kind, 1, |log|, polled, log + [Said(|log|, kind)], delivered);
    ws', actions' := PatientStep(ws', actions', numbered, Run(0),
      Alone(AfterDelivery(Job("a", 1, None, Poll(1), false, []), kind, 1), polled, log + [Said(|log|, kind)],
        delivered + [Delivery(0, Said(|log|, kind))]));
  }

  lemma AloneStarts() returns (ws: seq<World>, actions: seq<Action>)
    ensures PatientRun(ws, actions, Alone(Number(Started, 1), [], [], []))
  {
    ws, actions := [INIT], [];
    var heard := INIT.(sink := Some(0));
    ws, actions := PatientStep(ws, actions, INIT, Subscribe(0), heard);
    ws, actions := PatientStep(ws, actions, heard, Spawn("a", 1, None), Alone(Number(Started, 1), [], [], []));
  }

  lemma AloneToItsEnd() returns (ws: seq<World>, actions: seq<Action>, log: seq<Event>, delivered: seq<Delivery>)
    ensures PatientRun(ws, actions, Alone(Release(Completed, 1), [false], log, delivered))
    ensures |log| == 3 && delivered != [] && delivered[|delivered| - 1] == Delivery(0, Said(2, Completed))
  {
    ws, actions := AloneStarts();
    ws, actions := AloneSpeaks(ws, actions, Started, [], [], []);
    log, delivered := [] + [Said(0, Started)], [] + [Delivery(0, Said(0, Started))];
    AlonePolls(log, delivered);
    ws, actions := PatientStep(ws, actions, Alone(Poll(1), [], log, delivered), Run(0),
      Alone(Number(Progress(1), 1), [false], log, delivered));
    ws, actions := AloneSpeaks(ws, actions, Progress(1), [false], log, delivered);
    log, delivered := log + [Said(|log|, Progress(1))], delivered + [Delivery(0, Said(|log|, Progress(1)))];
    ws, actions := AloneSpeaks(ws, actions, Completed, [false], log, delivered);
    log, delivered := log + [Said(|log|, Completed)], delivered + [Delivery(0, Said(|log|, Completed))];
  }

  /**
    So waiting for the terminal event is not enough: in some run every caller waits for it, and a live
    job ends up out of reach.
    */
  lemma WaitingForEndsIsNotEnough() returns (ws: seq<World>, actions: seq<Action>)
    ensures IsRun(ws, actions) && forall n | 0 <= n < |actions| :: WaitsForEnds(ws[n], actions[n])
    ensures !LiveRegistered(ws[|actions|])
  {
    var log, delivered;
    ws, actions, log, delivered := AloneToItsEnd();
    var w := Alone(Release(Completed, 1), [false], log, delivered);
    RunsKeepInv(ws, actions, |actions|);
    LateGuardHidesNewJob(w, 0, 1, None);
    var reused := Apply(w, Spawn("a", 1, None));
    var hidden := Apply(reused, Run(0));
    ws, actions := PatientStep(ws, actions, w, Spawn("a", 1, None), reused);
    ws, actions := PatientStep(ws, actions, reused, Run(0), hidden);
    assert Live(hidden.jobs[1]) && hidden.jobs[1].scope !in hidden.cancels;
  }

  // ---------- numbers and deliveries ----------

  /** Deliveries come from the log, and each job's arrive in the order of their numbers. */
  ghost predicate DeliveriesRight(w: World) {
    && (forall d | 0 <= d < |w.delivered| :: FromLog(w, w.delivered[d].event))
    && (forall c, d | 0 <= c < d < |w.delivered| && w.delivered[c].event.job == w.delivered[d].event.job ::
         w.delivered[c].event.number < w.delivered[d].event.number)
    && (forall j | 0 <= j < |w.jobs| :: PendingRight(w, j))
  }

  ghost predicate FromLog(w: World, e: Event) {
    e.number < |w.log| && w.log[e.number] == e && e.job.Some? && e.job.value < |w.jobs|
  }

  /** A publication under way is in the log, after everything of the job already delivered. */
  ghost predicate PendingRight(w: World, j: nat)
    requires j < |w.jobs|
  {
    w.jobs[j].pc.Deliver? ==>
      && FromLog(w, Event(w.jobs[j].pc.number, Some(j), w.jobs[j].pc.kind))
      && forall d | 0 <= d < |w.delivered| && w.delivered[d].event.job == Some(j) ::
           w.delivered[d].event.number < w.jobs[j].pc.number
  }

  lemma DeliverKeepsOrder(w: World, j: nat)
    requires Inv(w) && DeliveriesRight(w) && j < |w.jobs| && w.jobs[j].pc.Deliver?
    ensures DeliveriesRight(RunJob(w, j))
  {
    var w' := RunJob(w, j);
    var n := |w.delivered|;
    assert PendingRight(w, j);
    forall i | 0 <= i < |w'.jobs| ensures PendingRight(w', i) { assert PendingRight(w, i); }
    forall d | 0 <= d < |w'.delivered| ensures FromLog(w', w'.delivered[d].event) {
      if d < n { assert FromLog(w, w.delivered[d].event); }
    }
  }

  lemma NumberKeepsOrder(w: World, j: nat)
    requires Inv(w) && DeliveriesRight(w) && j < |w.jobs| && w.jobs[j].pc.Number?
    ensures DeliveriesRight(RunJob(w, j))
  {
    var w' := RunJob(w, j);
    forall d | 0 <= d < |w'.delivered| ensures FromLog(w', w'.delivered[d].event) {
      assert FromLog(w, w.delivered[d].event);
    }
    forall i | 0 <= i < |w'.jobs| ensures PendingRight(w', i) { assert PendingRight(w, i); }
  }

  /** A step that neither numbers nor delivers: the same log and deliveries, and no new publication. */
  lemma QuietKeepsOrder(w: World, w': World)
    requires DeliveriesRight(w) && w'.log == w.log && w'.delivered == w.delivered && |w.jobs| <= |w'.jobs|
    requires forall i | 0 <= i < |w'.jobs| && w'.jobs[i].pc.Deliver? :: i < |w.jobs| && w.jobs[i].pc == w'.jobs[i].pc
    ensures DeliveriesRight(w')
  {
    forall d | 0 <= d < |w'.delivered| ensures FromLog(w', w'.delivered[d].event) {
      assert FromLog(w, w.delivered[d].event);
    }
    forall i | 0 <= i < |w'.jobs| ensures PendingRight(w', i) {
      if i < |w.jobs| { assert PendingRight(w, i); }
    }
  }

  lemma OtherKeepsOrder(w: World, kind: Kind)
    requires DeliveriesRight(w)
    ensures DeliveriesRight(Apply(w, Other(kind)))
  {
    var w' := Apply(w, Other(kind));
    forall d | 0 <= d < |w'.delivered| ensures FromLog(w', w'.delivered[d].event) {
      assert FromLog(w, w.delivered[d].event);
    }
    forall i | 0 <= i < |w'.jobs| ensures PendingRight(w', i) { assert PendingRight(w, i); }
  }

  lemma OrderStep(w: World, a: Action)
    requires Inv(w) && DeliveriesRight(w)
    ensures DeliveriesRight(Apply(w, a))
  {
    if a.Other? {
      OtherKeepsOrder(w, a.kind);
    } else if a.Run? && a.job < |w.jobs| && w.jobs[a.job].pc.Deliver? {
      DeliverKeepsOrder(w, a.job);
    } else if a.Run? && a.job < |w.jobs| && w.jobs[a.job].pc.Number? {
      NumberKeepsOrder(w, a.job);
    } else {
      QuietKeepsOrder(w, Apply(w, a));
    }
  }

  lemma {:induction false} OrderAlongRun(ws: seq<World>, actions: seq<Action>, n: nat)
    requires IsRun(ws, actions) && n <= |actions|
    ensures DeliveriesRight(ws[n])
  {
    if n > 0 {
      OrderAlongRun(ws, actions, n - 1);
      RunsKeepInv(ws, actions, n - 1);
      assert Next(ws[n - 1], actions[n - 1], ws[n - 1 + 1]);
      OrderStep(ws[n - 1], actions[n - 1]);
    }
  }

  /**
    Numbers are handed out without gap or repetition over all publishers; no event is delivered twice,
    and what one job delivers arrives in the order of its numbers.
    */
  lemma NumbersAreGapFree(ws: seq<World>, actions: seq<Action>, n: nat)
    requires IsRun(ws, actions) && n <= |actions|
    ensures forall k | 0 <= k < |ws[n].log| :: ws[n].log[k].number == k
    ensures var got := ws[n].delivered; forall c, d | 0 <= c < d < |got| ::
      && got[c].event.number != got[d].event.number
      && (got[c].event.job == got[d].event.job ==> got[c].event.number < got[d].event.number)
  {
    RunsKeepInv(ws, actions, n);
    OrderAlongRun(ws, actions, n);
    var w := ws[n];
    forall c, d | 0 <= c < d < |w.delivered| ensures w.delivered[c].event.number != w.delivered[d].event.number {
      assert FromLog(w, w.delivered[c].event) && FromLog(w, w.delivered[d].event);
    }
  }
}
