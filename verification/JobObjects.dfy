/**
  The code behind the steps of `JobRunner`: the loop of a job, the table of cancellation flags and the
  bus as objects, each tied to the step system.
  */
module JobObjects {
  import opened Wrappers
  import opened EventBus
  import opened JobRunner

  // ---------- the loop ----------

  /** How a job ends whose poll before step `i` reads `polls(i)`: at step `k`, with `end`. */
  predicate Outcome(steps: nat, failAt: Option<nat>, polls: nat -> bool, events: seq<Kind>, k: nat, end: Kind) {
    && k <= steps && events == Running(k) + [end]
    && (forall i | 1 <= i <= k :: !polls(i) && failAt != Some(i))
    && match end
       case Completed => k == steps
       case Cancelled => k < steps && polls(k + 1)
       case Failed(step) => k < steps && !polls(k + 1) && step == k + 1 && failAt == Some(k + 1)
       case _ => false
  }

  /** The body of a job: it stops at the first raised flag or failing step, and completes when there is none. */
  method RunSteps(steps: nat, failAt: Option<nat>, polls: nat -> bool)
    returns (events: seq<Kind>, k: nat, end: Kind)
    requires steps >= 1
    ensures Outcome(steps, failAt, polls, events, k, end)
  {
    events, k := [Started], 0;
    for i := 1 to steps + 1
      invariant k == i - 1 && events == Running(k)
      invariant forall m | 1 <= m < i :: !polls(m) && failAt != Some(m)
    {
      if polls(i) {
        end := Cancelled;
        return events + [end], k, end;
      }
      if failAt == Some(i) {
        end := Failed(i);
        return events + [end], k, end;
      }
      events := events + [Progress(i)];
      k := i;
    }
    end := Completed;
    events := events + [end];
  }

  /** What the polls of a job have read. */
  function PollsOf(job: Job): nat -> bool {
    i => 1 <= i <= |job.polled| && job.polled[i - 1]
  }

  lemma ClearPolls(job: Job, k: nat)
    requires Clear(job.polled, k) && PassedUpTo(job, k)
    ensures forall i | 1 <= i <= k :: !PollsOf(job)(i) && job.failAt != Some(i)
  {
  }

  /** The step of the loop at which a job ended. */
  function EndStep(pc: Pc): nat
    requires pc.Done?
  {
    if pc.kind.Completed? || pc.step == 0 then pc.step else pc.step - 1
  }

  lemma DoneIsOutcome(job: Job)
    requires PcRight(job) && job.pc.Done?
    ensures Outcome(job.steps, job.failAt, PollsOf(job), History(job.pc), EndStep(job.pc), job.pc.kind)
  {
    ClearPolls(job, EndStep(job.pc));
    match job.pc.kind
    case Completed =>
    case Failed(_) => assert PollsOf(job)(job.pc.step) == job.polled[job.pc.step - 1];
    case Cancelled => assert PollsOf(job)(job.pc.step) == job.polled[job.pc.step - 1];
    case _ =>
  }

  lemma OutcomeIsUnique(steps: nat, failAt: Option<nat>, polls: nat -> bool,
                        events: seq<Kind>, k: nat, end: Kind, events': seq<Kind>, k': nat, end': Kind)
    requires Outcome(steps, failAt, polls, events, k, end) && Outcome(steps, failAt, polls, events', k', end')
    ensures events == events'
  {
  }

  /** In every interleaving, a finished job has published what the loop returns for the polls it read. */
  lemma FinishedJobRanSteps(ws: seq<World>, actions: seq<Action>, n: nat, j: nat, events: seq<Kind>, k: nat, end: Kind)
    requires IsRun(ws, actions) && n <= |actions| && j < |ws[n].jobs| && ws[n].jobs[j].pc.Done?
    requires var job := ws[n].jobs[j]; Outcome(job.steps, job.failAt, PollsOf(job), events, k, end)
    ensures EventsOf(ws[n].log, j) == events
  {
    var job := ws[n].jobs[j];
    RunsKeepInv(ws, actions, n);
    EventsAre(ws[n], j);
    DoneIsOutcome(job);
    OutcomeIsUnique(job.steps, job.failAt, PollsOf(job), events, k, end,
      History(job.pc), EndStep(job.pc), job.pc.kind);
  }

  // ---------- the registry ----------

  class Flag {
    var raised: bool

    constructor ()
      ensures !raised
    {
      raised := false;
    }
  }

  /** The process-wide table of cancellation flags; `issued` holds the flag of every job ever spawned. */
  class Registry {
    var flags: map<string, Flag>
    ghost var issued: seq<Flag>

    /** The table and the flags are those of `w`. */
    ghost predicate Shows(w: World)
      reads this, issued
    {
      && |issued| == |w.jobs|
      && (forall i, j | 0 <= i < j < |issued| :: issued[i] != issued[j])
      && (forall j | 0 <= j < |issued| :: issued[j].raised == w.jobs[j].flag)
      && flags.Keys == w.cancels.Keys
      && (forall scope | scope in flags :: w.cancels[scope] < |issued| && flags[scope] == issued[w.cancels[scope]])
    }

    constructor ()
      ensures Shows(INIT)
    {
      flags, issued := map[], [];
    }

    /** The part of `spawn_job` under the lock: a fresh flag replaces whatever the scope had. */
    method Register(scope: string, ghost w: World, ghost steps: nat, ghost failAt: Option<nat>)
      returns (r: Option<Flag>)
      requires Shows(w)
      modifies this
      ensures r.None? <==> scope == ""
      ensures r.None? ==> flags == old(flags) && issued == old(issued)
      ensures r.Some? ==> fresh(r.value) && flags == old(flags)[scope := r.value] && issued == old(issued) + [r.value]
      ensures Shows(Apply(w, Spawn(scope, steps, failAt)))
    {
      if scope == "" { return None; }
      var flag := new Flag();
      flags := flags[scope := flag];
      issued := issued + [flag];
      r := Some(flag);
    }

    method CancelJob(scope: string, ghost w: World) returns (found: bool)
      requires Shows(w)
      modifies if scope in flags then {flags[scope]} else {}
      ensures found <==> scope in flags
      ensures found ==> flags[scope].raised
      ensures Shows(Apply(w, Cancel(scope)))
    {
      if scope in flags {
        flags[scope].raised := true;
        return true;
      }
      found := false;
    }

    /** Dropping the guard of job `j`. */
    method Release(scope: string, ghost w: World, ghost j: nat)
      requires Shows(w) && j < |w.jobs| && w.jobs[j].pc.Release? && w.jobs[j].scope == scope
      modifies this
      ensures flags == old(flags) - {scope} && issued == old(issued)
      ensures Shows(Apply(w, Run(j)))
    {
      flags := flags - {scope};
    }

    /** What job `j` reads when it polls is the flag it was spawned with. */
    method IsCancelled(flag: Flag, ghost w: World, ghost j: nat) returns (raised: bool)
      requires Shows(w) && j < |w.jobs| && flag == issued[j] && w.jobs[j].pc.Poll?
      ensures Shows(Apply(w, Run(j))) && Apply(w, Run(j)).jobs[j].polled == w.jobs[j].polled + [raised]
    {
      raised := flag.raised;
    }
  }

  // ---------- the bus ----------

  /** What sink `id` has been handed. */
  function Received(delivered: seq<Delivery>, id: nat): seq<Event> {
    if delivered == [] then []
    else
      var last := delivered[|delivered| - 1];
      Received(delivered[..|delivered| - 1], id) + if last.sink == id then [last.event] else []
  }

  lemma ReceivedStep(delivered: seq<Delivery>, d: Delivery, id: nat)
    ensures Received(delivered + [d], id) == Received(delivered, id) + if d.sink == id then [d.event] else []
  {
    assert (delivered + [d])[..|delivered|] == delivered;
  }

  /** The bus and every sink there has been are those of `w`. */
  ghost predicate BusShows(bus: Bus, sinks: seq<Sink>, w: World)
    reads bus, sinks
  {
    && bus.next == w.next
    && (match w.sink case None => bus.sink == null case Some(id) => id < |sinks| && bus.sink == sinks[id])
    && (forall i, j | 0 <= i < j < |sinks| :: sinks[i] != sinks[j])
    && forall id | 0 <= id < |sinks| :: sinks[id].received == Received(w.delivered, id)
  }

  lemma PublicationSteps(w: World, j: nat)
    requires j < |w.jobs| && w.jobs[j].pc.Number?
    ensures var w' := RunJob(RunJob(w, j), j);
      && w'.next == w.next + 1 && w'.sink == w.sink
      && w'.delivered == if w.sink.None? then w.delivered
                         else w.delivered + [Delivery(w.sink.value, Event(w.next, Some(j), w.jobs[j].pc.kind))]
  {
  }

  /** A publication of job `j` on the bus is its numbering and its delivery, one after the other. */
  method PublishFor(bus: Bus, kind: Kind, j: nat, ghost sinks: seq<Sink>, ghost w: World)
    requires BusShows(bus, sinks, w) && j < |w.jobs| && w.jobs[j].pc.Number? && w.jobs[j].pc.kind == kind
    modifies bus, bus.sink
    ensures BusShows(bus, sinks, RunJob(RunJob(w, j), j))
  {
    PublicationSteps(w, j);
    ghost var event := Event(w.next, Some(j), kind);
    if w.sink.Some? {
      forall id | 0 <= id < |sinks|
        ensures Received(w.delivered + [Delivery(w.sink.value, event)], id)
             == Received(w.delivered, id) + if w.sink.value == id then [event] else []
      {
        ReceivedStep(w.delivered, Delivery(w.sink.value, event), id);
      }
    }
    bus.Publish(Event(0, Some(j), kind));
  }
}
