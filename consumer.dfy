/** A consumer (`Consumer`): it pulls events until the queue reports that it
    is closed and empty, and adds one to the shared count for every
    questionable event it receives. */
module EventConsumer {
  import opened Events
  import opened Classifier
  import opened EventQueue
  import opened Counter

  /** How many of `events` satisfy `marked`. */
  function CountWhere(events: seq<BrowsingEvent>, marked: BrowsingEvent -> bool): (n: nat)
    ensures n <= |events|
    decreases |events|
  {
    if events == [] then 0
    else
      var rest := CountWhere(events[..|events| - 1], marked);
      if marked(events[|events| - 1]) then rest + 1 else rest
  }

  /** How many of `events` are questionable: what the consumers add to the count. */
  function CountQuestionable(events: seq<BrowsingEvent>): nat {
    CountWhere(events, IsQuestionable)
  }

  /** The count of a concatenation is the sum of the counts. */
  lemma {:induction false} CountAppend(a: seq<BrowsingEvent>, b: seq<BrowsingEvent>, marked: BrowsingEvent -> bool)
    ensures CountWhere(a + b, marked) == CountWhere(a, marked) + CountWhere(b, marked)
    decreases |b|
  {
    if b == [] {
      assert a + b == a;
    } else {
      var ab := a + b;
      var front := b[..|b| - 1];
      assert ab[..|ab| - 1] == a + front;
      assert ab[|ab| - 1] == b[|b| - 1];
      CountAppend(a, front, marked);
    }
  }

  /** Taking out the event at `j` takes one copy of it out of the multiset. */
  lemma MultisetWithout(y: seq<BrowsingEvent>, j: nat)
    requires j < |y|
    ensures multiset(y[..j] + y[j + 1..]) == multiset(y) - multiset{y[j]}
  {
    assert y == y[..j] + [y[j]] + y[j + 1..];
    assert multiset(y) == multiset(y[..j]) + multiset{y[j]} + multiset(y[j + 1..]);
  }

  /** A single event counts by its mark alone. */
  lemma CountOne(e: BrowsingEvent, marked: BrowsingEvent -> bool)
    ensures CountWhere([e], marked) == if marked(e) then 1 else 0
  {
    assert [e][..0] == [];
  }

  /** Taking one event out of a sequence takes its mark out of the count. */
  lemma CountWithout(pre: seq<BrowsingEvent>, e: BrowsingEvent, post: seq<BrowsingEvent>, marked: BrowsingEvent -> bool)
    ensures CountWhere(pre + [e] + post, marked) == CountWhere(pre + post, marked) + (if marked(e) then 1 else 0)
  {
    CountAppend(pre + [e], post, marked);
    CountAppend(pre, [e], marked);
    CountOne(e, marked);
    CountAppend(pre, post, marked);
  }

  /** Some copy of `e` in `y` can be taken out, leaving the rest of `y`. */
  lemma TakeOut(y: seq<BrowsingEvent>, e: BrowsingEvent, marked: BrowsingEvent -> bool) returns (rest: seq<BrowsingEvent>)
    requires e in multiset(y)
    ensures multiset(rest) == multiset(y) - multiset{e}
    ensures CountWhere(y, marked) == CountWhere(rest, marked) + (if marked(e) then 1 else 0)
  {
    var j :| 0 <= j < |y| && y[j] == e;
    assert y == y[..j] + [e] + y[j + 1..];
    MultisetWithout(y, j);
    CountWithout(y[..j], e, y[j + 1..], marked);
    rest := y[..j] + y[j + 1..];
  }

  /** The count does not depend on the order of the events: whatever order the
      pulls deliver them in, the same number is counted. */
  lemma {:induction false} CountIgnoresOrder(x: seq<BrowsingEvent>, y: seq<BrowsingEvent>, marked: BrowsingEvent -> bool)
    requires multiset(x) == multiset(y)
    ensures CountWhere(x, marked) == CountWhere(y, marked)
    decreases |x|
  {
    if x != [] {
      var n := |x| - 1;
      var e := x[n];
      assert x == x[..n] + [e];
      assert multiset(x[..n]) == multiset(x) - multiset{e};
      var rest := TakeOut(y, e, marked);
      CountIgnoresOrder(x[..n], rest, marked);
    } else {
      assert |y| == |multiset(y)| == 0;
    }
  }

  /** However the events of a queue are shared out between consumers, the
      counts they add up to are the count of all of them. */
  lemma CountSplit(taken1: seq<BrowsingEvent>, taken2: seq<BrowsingEvent>, events: seq<BrowsingEvent>)
    requires multiset(taken1) + multiset(taken2) == multiset(events)
    ensures CountQuestionable(taken1) + CountQuestionable(taken2) == CountQuestionable(events)
  {
    CountAppend(taken1, taken2, IsQuestionable);
    CountIgnoresOrder(taken1 + taken2, events, IsQuestionable);
  }

  class Consumer {
    const storage: Storage
    const queue: ConcurrentQueue

    constructor(storage: Storage, queue: ConcurrentQueue)
      ensures this.storage == storage && this.queue == queue
    {
      this.storage := storage;
      this.queue := queue;
    }

    /** Drain a closed queue, counting the questionable events. Each pull takes
        the newest event, so the events are examined newest first. */
    method Run()
      requires queue.closed
      modifies storage, queue
      ensures queue.events == [] && queue.closed
      ensures storage.count == old(storage.count) + CountQuestionable(old(queue.events))
    {
      var event := EMPTY_EVENT;
      while true
        invariant queue.closed
        invariant storage.count + CountQuestionable(queue.events)
                  == old(storage.count) + CountQuestionable(old(queue.events))
        decreases |queue.events|
      {
        var ok;
        ok, event := queue.PullOne(event);
        if !ok {
          break;
        }
        var questionable := CheckQuestionable(event);
        if questionable {
          storage.IncreaseCount();
        }
      }
    }
  }
}
