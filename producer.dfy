/** The single producer (`Producer`): a resynchronising line parser that reads
    a device line, a URL line and a timestamp line, publishes them as one event
    when all three pass their grammar, and otherwise drops what it has read and
    starts again with the next line. At the end of input it closes the queue.
    The input stream is the sequence of its lines. */
module EventProducer {
  import opened Events
  import opened Validation
  import opened EventQueue

  /** The line at `pos`, or an empty line once the input has ended: a read past
      the end yields nothing that any grammar accepts (`EmptyLineIsInvalid`). */
  function LineAt(lines: seq<string>, pos: nat): string {
    if pos < |lines| then lines[pos] else ""
  }

  /** The events the producer publishes for `lines`, in publication order.
      Where a read would run past the end, the empty line it yields fails its
      grammar, so the record is dropped and nothing follows it. */
  function Parse(lines: seq<string>): (events: seq<BrowsingEvent>)
    decreases |lines|
  {
    if lines == [] then []
    else if !IsValidDevice(lines[0]) then Parse(lines[1..])
    else if |lines| < 2 then []
    else if !IsValidUrl(lines[1]) then Parse(lines[2..])
    else if |lines| < 3 then []
    else if !IsValidTimestamp(lines[2]) then Parse(lines[3..])
    else [BrowsingEvent(lines[0], lines[1], lines[2])] + Parse(lines[3..])
  }

  /** Each published event uses three input lines. */
  lemma {:induction false} ParseIsBounded(lines: seq<string>)
    ensures 3 * |Parse(lines)| <= |lines|
    decreases |lines|
  {
    if lines == [] {
    } else if !IsValidDevice(lines[0]) {
      ParseIsBounded(lines[1..]);
    } else if |lines| < 2 {
    } else if !IsValidUrl(lines[1]) {
      ParseIsBounded(lines[2..]);
    } else if |lines| < 3 {
    } else {
      ParseIsBounded(lines[3..]);
    }
  }

  /** Lines `i`, `i + 1` and `i + 2` of `lines` make up `event`. */
  predicate TripleAt(lines: seq<string>, i: nat, event: BrowsingEvent) {
    i + 2 < |lines| && event == BrowsingEvent(lines[i], lines[i + 1], lines[i + 2])
  }

  /** A triple found after the first `shift` lines is a triple of the whole input. */
  lemma TripleInSuffix(lines: seq<string>, shift: nat, event: BrowsingEvent)
    requires shift <= |lines|
    requires exists i: nat :: TripleAt(lines[shift..], i, event)
    ensures exists i: nat :: TripleAt(lines, i, event)
  {
    var i: nat :| TripleAt(lines[shift..], i, event);
    assert TripleAt(lines, i + shift, event);
  }

  /** Every published event is three consecutive input lines: device, URL, timestamp. */
  lemma {:induction false} ParseFromConsecutiveLines(lines: seq<string>, k: nat)
    requires k < |Parse(lines)|
    ensures exists i: nat :: TripleAt(lines, i, Parse(lines)[k])
    decreases |lines|
  {
    var shift: nat, j: nat;
    if !IsValidDevice(lines[0]) {
      shift, j := 1, k;
    } else if !IsValidUrl(lines[1]) {
      shift, j := 2, k;
    } else if !IsValidTimestamp(lines[2]) {
      shift, j := 3, k;
    } else if k == 0 {
      assert TripleAt(lines, 0, Parse(lines)[0]);
      return;
    } else {
      shift, j := 3, k - 1;
    }
    assert Parse(lines)[k] == Parse(lines[shift..])[j];
    ParseFromConsecutiveLines(lines[shift..], j);
    TripleInSuffix(lines, shift, Parse(lines)[k]);
  }

  /** Every published event passed all three grammars. */
  lemma {:induction false} ParseIsSound(lines: seq<string>, k: nat)
    requires k < |Parse(lines)|
    ensures IsValidDevice(Parse(lines)[k].device)
    ensures IsValidUrl(Parse(lines)[k].url)
    ensures IsValidTimestamp(Parse(lines)[k].timestamp)
    decreases |lines|
  {
    var shift: nat, j: nat;
    if !IsValidDevice(lines[0]) {
      shift, j := 1, k;
    } else if !IsValidUrl(lines[1]) {
      shift, j := 2, k;
    } else if !IsValidTimestamp(lines[2]) {
      shift, j := 3, k;
    } else if k == 0 {
      return;
    } else {
      shift, j := 3, k - 1;
    }
    assert Parse(lines)[k] == Parse(lines[shift..])[j];
    ParseIsSound(lines[shift..], j);
  }

  function Min(a: nat, b: nat): nat {
    if a < b then a else b
  }

  // One pass of the loop in `Producer.Run`, on the lines not yet read.

  /** A line that is not a device line is dropped on its own. */
  lemma ParseDropsNonDeviceLine(rest: seq<string>)
    requires rest != [] && !IsValidDevice(rest[0])
    ensures Parse(rest) == Parse(rest[1..])
  {
  }

  /** A device line followed by a line that fails the URL grammar (or by the end
      of input) is dropped together with that line. */
  lemma ParseDropsBadUrlLine(rest: seq<string>)
    requires rest != [] && IsValidDevice(rest[0]) && !IsValidUrl(LineAt(rest, 1))
    ensures Parse(rest) == Parse(rest[Min(2, |rest|)..])
  {
  }

  /** A device line and a URL line followed by a line that fails the timestamp
      grammar (or by the end of input) are dropped together with that line. */
  lemma ParseDropsBadTimestampLine(rest: seq<string>)
    requires rest != [] && IsValidDevice(rest[0]) && IsValidUrl(LineAt(rest, 1))
    requires !IsValidTimestamp(LineAt(rest, 2))
    ensures Parse(rest) == Parse(rest[Min(3, |rest|)..])
  {
    EmptyLineIsInvalid();
  }

  /** Three lines that pass their grammars are published as one event. */
  lemma ParsePublishesRecord(rest: seq<string>)
    requires rest != [] && IsValidDevice(rest[0]) && IsValidUrl(LineAt(rest, 1))
    requires IsValidTimestamp(LineAt(rest, 2))
    ensures |rest| >= 3
    ensures Parse(rest) == [BrowsingEvent(rest[0], rest[1], rest[2])] + Parse(rest[3..])
  {
    EmptyLineIsInvalid();
  }

  /** A read past the end of input yields a line no grammar accepts. */
  lemma ReadPastEndIsInvalid(lines: seq<string>, pos: nat)
    requires |lines| <= pos
    ensures !IsValidDevice(LineAt(lines, pos))
    ensures !IsValidUrl(LineAt(lines, pos)) && !IsValidTimestamp(LineAt(lines, pos))
  {
    EmptyLineIsInvalid();
  }

  /** Lines that are not device lines are dropped one at a time, and scanning
      resumes right after them. */
  lemma {:induction false} SkipsNonDeviceLines(junk: seq<string>, rest: seq<string>)
    requires forall i :: 0 <= i < |junk| ==> !IsValidDevice(junk[i])
    ensures Parse(junk + rest) == Parse(rest)
    decreases |junk|
  {
    if junk != [] {
      var lines := junk + rest;
      assert lines[0] == junk[0] && lines[1..] == junk[1..] + rest;
      assert !IsValidDevice(lines[0]);
      assert Parse(lines) == Parse(lines[1..]);
      SkipsNonDeviceLines(junk[1..], rest);
    } else {
      assert junk + rest == rest;
    }
  }

  /** A device, URL and timestamp line in a row become one event, and scanning
      resumes at the line after them. */
  lemma RecordIsPublished(device: string, url: string, timestamp: string, rest: seq<string>)
    requires IsValidDevice(device) && IsValidUrl(url) && IsValidTimestamp(timestamp)
    ensures Parse([device, url, timestamp] + rest) == [BrowsingEvent(device, url, timestamp)] + Parse(rest)
  {
    assert ([device, url, timestamp] + rest)[3..] == rest;
  }

  /** A line that fails the URL grammar is consumed with the device line before
      it; it is not examined again as a device line. */
  lemma FailedUrlLineIsConsumed(device: string, line: string, rest: seq<string>)
    requires IsValidDevice(device) && !IsValidUrl(line)
    ensures Parse([device, line] + rest) == Parse(rest)
  {
    assert ([device, line] + rest)[2..] == rest;
  }

  /** A line that fails the timestamp grammar is consumed with the two lines before it. */
  lemma FailedTimestampLineIsConsumed(device: string, url: string, line: string, rest: seq<string>)
    requires IsValidDevice(device) && IsValidUrl(url) && !IsValidTimestamp(line)
    ensures Parse([device, url, line] + rest) == Parse(rest)
  {
    assert ([device, url, line] + rest)[3..] == rest;
  }

  /** Lines of one kind never pass another kind's grammar: their prefixes differ. */
  lemma GrammarsAreDisjoint(line: string)
    ensures IsValidUrl(line) ==> !IsValidDevice(line) && !IsValidTimestamp(line)
    ensures IsValidDevice(line) ==> !IsValidTimestamp(line)
  {
    if IsValidUrl(line) {
      var a: nat, b: nat, c: nat :| a < |line| && a < b <= |line| && b <= c <= |line|
        && UrlSplitAt(line, a, b, c);
      assert line[0] == line[..|URL_PREFIX|][0] == 'u';
    }
    if IsValidDevice(line) {
      assert line[0] == line[..|DEVICE_PREFIX|][0] == 'd';
    }
    if IsValidTimestamp(line) {
      assert line[0] == line[..|TIMESTAMP_PREFIX|][0] == 't';
    }
  }

  /** A second device line where the URL line belongs is lost together with the
      first, and so is the record it starts: nothing is published. */
  lemma DeviceLineInUrlSlotIsLost(d1: string, d2: string, url: string, timestamp: string)
    requires IsValidDevice(d1) && IsValidDevice(d2) && IsValidUrl(url) && IsValidTimestamp(timestamp)
    ensures Parse([d1, d2, url, timestamp]) == []
  {
    GrammarsAreDisjoint(d2);
    GrammarsAreDisjoint(url);
    GrammarsAreDisjoint(timestamp);
    assert !IsValidDevice([url, timestamp][0]) && !IsValidDevice([url, timestamp][1]);
    assert [d1, d2, url, timestamp] == [d1, d2] + [url, timestamp];
    FailedUrlLineIsConsumed(d1, d2, [url, timestamp]);
    SkipsNonDeviceLines([url, timestamp], []);
    assert [url, timestamp] + [] == [url, timestamp];
  }

  /** A device line followed by a timestamp line and the end of input publishes nothing. */
  lemma MissingUrlLinePublishesNothing(device: string, timestamp: string)
    requires IsValidDevice(device) && IsValidTimestamp(timestamp)
    ensures Parse([device, timestamp]) == []
  {
    GrammarsAreDisjoint(timestamp);
    assert !IsValidUrl(timestamp) by {
      if IsValidUrl(timestamp) {
        GrammarsAreDisjoint(timestamp);
      }
    }
    assert [device, timestamp] == [device, timestamp] + [];
    FailedUrlLineIsConsumed(device, timestamp, []);
  }

  class Producer {
    const input: seq<string>
    const queue: ConcurrentQueue

    constructor(input: seq<string>, queue: ConcurrentQueue)
      ensures this.input == input && this.queue == queue
    {
      this.input := input;
      this.queue := queue;
    }

    method Publish(device: string, url: string, timestamp: string)
      modifies queue
      ensures queue.events == old(queue.events) + [BrowsingEvent(device, url, timestamp)]
      ensures queue.closed == old(queue.closed)
    {
      queue.Push(BrowsingEvent(device, url, timestamp));
    }

    /** Read all of the input, publish every complete record, then close the queue. */
    method Run()
      modifies queue
      ensures queue.events == old(queue.events) + Parse(input)
      ensures queue.closed
    {
      var pos := 0;
      while pos < |input|
        invariant pos <= |input|
        invariant queue.events + Parse(input[pos..]) == old(queue.events) + Parse(input)
      {
        ghost var rest := input[pos..];
        var first := input[pos];
        pos := pos + 1;
        if !IsValidDevice(first) {
          ParseDropsNonDeviceLine(rest);
          assert rest[1..] == input[pos..];
          continue;
        }
        var second := LineAt(input, pos);
        if pos < |input| {
          pos := pos + 1;
        }
        assert second == LineAt(rest, 1) && rest[Min(2, |rest|)..] == input[pos..];
        if !IsValidUrl(second) {
          ParseDropsBadUrlLine(rest);
          continue;
        }
        var third := LineAt(input, pos);
        if pos < |input| {
          pos := pos + 1;
        }
        assert third == LineAt(rest, 2) && rest[Min(3, |rest|)..] == input[pos..];
        if !IsValidTimestamp(third) {
          ParseDropsBadTimestampLine(rest);
          continue;
        }
        ParsePublishesRecord(rest);
        Publish(first, second, third);
      }
      queue.CloseQueue();
    }
  }
}
