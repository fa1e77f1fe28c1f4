/** The closable container between the producer and the consumers
    (`ConcurrentQueue`). Its mutex and condition variable are not modelled:
    each method here is one critical section, run to completion. */
module EventQueue {
  import opened Events

  class ConcurrentQueue {
    /** The pending events; the back of the vector is the end of the sequence. */
    var events: seq<BrowsingEvent>
    /** Set once by `CloseQueue`; nothing clears it. */
    var closed: bool

    constructor()
      ensures events == [] && !closed
    {
      events := [];
      closed := false;
    }

    /** Mark the queue closed; the pending events stay. Closing a closed queue changes nothing. */
    method CloseQueue()
      modifies this
      ensures closed
      ensures events == old(events)
    {
      closed := true;
    }

    /** Take the most recently pushed event, or report that the queue is closed
        and empty. On failure the caller's slot keeps its old value.
        A pull on an empty open queue would wait for another thread to push or
        close; a sequential caller must not make one. */
    method PullOne(slot: BrowsingEvent) returns (ok: bool, event: BrowsingEvent)
      requires closed || events != []
      modifies this
      ensures closed == old(closed)
      ensures ok <==> old(events) != []
      ensures ok ==> event == old(events)[|old(events)| - 1] && events == old(events)[..|old(events)| - 1]
      ensures !ok ==> event == slot && events == old(events)
    {
      if events != [] {
        event := events[|events| - 1];
        events := events[..|events| - 1];
        ok := true;
      } else {
        // The wait ends at once: the queue is closed, and nobody pushed meanwhile.
        event := slot;
        ok := false;
      }
    }

    /** Append an event at the back. */
    method Push(event: BrowsingEvent)
      modifies this
      ensures events == old(events) + [event]
      ensures closed == old(closed)
    {
      events := events + [event];
    }
  }

  /** Two pushes followed by pulls: the second event pushed comes out first,
      and once the queue is closed and drained a pull fails and keeps the slot. */
  method LastInFirstOut(r1: BrowsingEvent, r2: BrowsingEvent)
    returns (first: BrowsingEvent, second: BrowsingEvent, drained: bool)
    ensures first == r2 && second == r1
    ensures !drained
  {
    var queue := new ConcurrentQueue();
    queue.Push(r1);
    queue.Push(r2);
    var ok;
    ok, first := queue.PullOne(EMPTY_EVENT);
    ok, second := queue.PullOne(first);
    queue.CloseQueue();
    var slot;
    drained, slot := queue.PullOne(second);
    assert slot == second;
  }
}
