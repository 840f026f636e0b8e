/** The event bus (`event.rs`): one counter, at most one subscriber. */
module EventBus {
  import opened Wrappers

  /** What an event says; its message text and payload are left out. */
  datatype Kind = Started | Progress(step: nat) | Completed | Failed(step: nat) | Cancelled

  /** A numbered event; `job` is `None` for publishers that are not jobs. */
  datatype Event = Event(number: nat, job: Option<nat>, kind: Kind)

  /** Whatever delivers events to the outside world; here it remembers what it got. */
  class Sink {
    var received: seq<Event>

    constructor ()
      ensures received == []
    {
      received := [];
    }

    method Emit(event: Event)
      modifies this
      ensures received == old(received) + [event]
    {
      received := received + [event];
    }
  }

  class Bus {
    var sink: Sink?
    var next: nat

    constructor ()
      ensures sink == null && next == 0
    {
      sink, next := null, 0;
    }

    /** Replaces the sink; says whether there was one. */
    method Subscribe(s: Sink) returns (replaced: bool)
      modifies this
      ensures sink == s && next == old(next) && replaced == (old(sink) != null)
    {
      replaced := sink != null;
      sink := s;
    }

    method Unsubscribe()
      modifies this
      ensures sink == null && next == old(next)
    {
      sink := null;
    }

    /** Takes the next number, then delivers to the sink if there is one; the number is used up either way. */
    method Publish(event: Event)
      modifies this, sink
      ensures next == old(next) + 1 && sink == old(sink)
      ensures sink != null ==> sink.received == old(sink.received) + [event.(number := old(next))]
    {
      var numbered := event.(number := next);
      next := next + 1;
      if sink != null {
        sink.Emit(numbered);
      }
    }
  }
}
