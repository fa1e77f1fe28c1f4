/** The whole program (`main`): one queue, one counter, a producer over the
    input lines and two consumers. The threads are replaced by one schedule:
    the producer runs to completion, then each consumer in turn. The count
    printed at the end is returned instead. */
module Pipeline {
  import opened Events
  import opened Validation
  import opened Classifier
  import opened EventQueue
  import opened Counter
  import opened EventProducer
  import opened EventConsumer

  /** Run the pipeline over `input` and report the final count: the number of
      published events that are questionable. */
  method RunPipeline(input: seq<string>) returns (count: nat)
    ensures count == CountQuestionable(Parse(input))
  {
    var communicator := new ConcurrentQueue();
    var storage := new Storage();
    var producer := new Producer(input, communicator);
    var consumer1 := new Consumer(storage, communicator);
    var consumer2 := new Consumer(storage, communicator);
    producer.Run();
    assert communicator.events == Parse(input) && storage.count == 0;
    consumer1.Run();
    assert storage.count == CountQuestionable(Parse(input));
    consumer2.Run();
    assert storage.count == CountQuestionable(Parse(input));
    count := storage.GetCount();
  }

  /** Two consumers drain a closed queue, taking turns as `schedule` says: at
      turn `i` the first consumer pulls when `schedule[i]` holds or the schedule
      has run out, the second otherwise. Both add to the shared `storage`; the
      counts returned are what each of them added. Every event goes to exactly
      one consumer, so the two shares add up to the count of all the events. */
  method DrainInTurns(queue: ConcurrentQueue, storage: Storage, schedule: seq<bool>)
    returns (count1: nat, count2: nat, ghost taken1: seq<BrowsingEvent>, ghost taken2: seq<BrowsingEvent>)
    requires queue.closed
    modifies queue, storage
    ensures queue.events == [] && queue.closed
    ensures multiset(taken1) + multiset(taken2) == multiset(old(queue.events))
    ensures count1 == CountQuestionable(taken1) && count2 == CountQuestionable(taken2)
    ensures count1 + count2 == CountQuestionable(old(queue.events))
    ensures storage.count == old(storage.count) + count1 + count2
  {
    count1, count2 := 0, 0;
    taken1, taken2 := [], [];
    var turn := 0;
    var event := EMPTY_EVENT;
    while true
      invariant queue.closed
      invariant multiset(taken1) + multiset(taken2) + multiset(queue.events) == multiset(old(queue.events))
      invariant count1 == CountQuestionable(taken1) && count2 == CountQuestionable(taken2)
      invariant storage.count == old(storage.count) + count1 + count2
      decreases |queue.events|
    {
      ghost var before := queue.events;
      var ok;
      ok, event := queue.PullOne(event);
      if !ok {
        break;
      }
      assert before == queue.events + [event];
      var questionable := CheckQuestionable(event);
      if turn >= |schedule| || schedule[turn] {
        assert (taken1 + [event])[..|taken1|] == taken1;
        taken1 := taken1 + [event];
        if questionable {
          count1 := count1 + 1;
          storage.IncreaseCount();
        }
      } else {
        assert (taken2 + [event])[..|taken2|] == taken2;
        taken2 := taken2 + [event];
        if questionable {
          count2 := count2 + 1;
          storage.IncreaseCount();
        }
      }
      turn := turn + 1;
    }
    CountSplit(taken1, taken2, old(queue.events));
  }

  // ---------------------------------------------------------------------------
  // Worked inputs
  // ---------------------------------------------------------------------------

  /** A complete record followed by the empty line after the last newline
      publishes that one event. */
  lemma OneRecord(device: string, url: string, timestamp: string)
    requires IsValidDevice(device) && IsValidUrl(url) && IsValidTimestamp(timestamp)
    ensures Parse([device, url, timestamp, ""]) == [BrowsingEvent(device, url, timestamp)]
  {
    assert [device, url, timestamp, ""] == [device, url, timestamp] + [""];
    RecordIsPublished(device, url, timestamp, [""]);
    EmptyLineIsInvalid();
    assert Parse([""]) == Parse([""][1..]);
  }

  /** One questionable record: the count is 1. */
  lemma QuestionableRecordCounts(device: string, url: string, timestamp: string)
    requires device == "device: ab-cd-ef-12-34-56"
    requires url == "url: http://www.xxxsite.com/page"
    requires timestamp == "timestamp: 1700000000"
    ensures CountQuestionable(Parse([device, url, timestamp, ""])) == 1
  {
    SampleDeviceIsValid(device);
    XxxSiteDomain(url);
    SampleTimestampIsValid(timestamp);
    OneRecord(device, url, timestamp);
    var event := BrowsingEvent(device, url, timestamp);
    QuestionableExample(event);
    CountOne(event, IsQuestionable);
  }

  /** One record with an innocuous domain: the count is 0. */
  lemma InnocuousRecordDoesNotCount(device: string, url: string, timestamp: string)
    requires device == "device: ab-cd-ef-12-34-56"
    requires url == "url: http://example.com/page"
    requires timestamp == "timestamp: 1700000000"
    ensures Parse([device, url, timestamp, ""]) != []
    ensures CountQuestionable(Parse([device, url, timestamp, ""])) == 0
  {
    SampleDeviceIsValid(device);
    ExampleDomain(url);
    SampleTimestampIsValid(timestamp);
    OneRecord(device, url, timestamp);
    var event := BrowsingEvent(device, url, timestamp);
    NotQuestionableExample(event);
    CountOne(event, IsQuestionable);
  }

  /** The URL line is missing: nothing is published and the count is 0, whether
      or not the stream ends with a newline (the empty last line). */
  lemma MissingUrlCountsNothing(device: string, timestamp: string)
    requires device == "device: ab-cd-ef-12-34-56"
    requires timestamp == "timestamp: 1700000000"
    ensures Parse([device, timestamp]) == [] && Parse([device, timestamp, ""]) == []
    ensures CountQuestionable(Parse([device, timestamp])) == 0
    ensures CountQuestionable(Parse([device, timestamp, ""])) == 0
  {
    SampleDeviceIsValid(device);
    SampleTimestampIsValid(timestamp);
    MissingUrlLinePublishesNothing(device, timestamp);
    GrammarsAreDisjoint(timestamp);
    assert [device, timestamp, ""] == [device, timestamp] + [""];
    FailedUrlLineIsConsumed(device, timestamp, [""]);
    EmptyLineIsInvalid();
    assert Parse([""]) == Parse([""][1..]);
  }
}
