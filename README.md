# Browsing-event pipeline (single producer, multiple consumers)

This project models the sequential core of `spmc_101.cpp` in Dafny and proves
properties of it. The program reads browsing records from standard input,
three lines per record:

- a device line;
- a URL line;
- a timestamp line.

A producer checks each line against its grammar. It publishes every complete
record into a closable queue and closes the queue at the end of input.
Consumers pull the events and take the domain out of each URL. They count the
events whose domain contains a blocklisted word ("porn", "xxx", "sex",
"Bieber", ignoring ASCII case). The program prints the final count.

The modules follow the program's structure:

- `Events` (events.dfy): the `BrowsingEvent` record.
- `EventQueue` (queue.dfy): `ConcurrentQueue`, a class over a `seq` of events
  and a `closed` flag. `Push` appends at the back. `PullOne` takes from the
  back, so delivery is last-in first-out. `CloseQueue` is one-way.
- `Counter` (storage.dfy): `Storage`, a counter that only goes up.
- `Text` (text.dfy): ASCII character classes, `tolower` and a first-occurrence
  search.
- `Validation` (validation.dfy): the three line grammars. Each regular
  expression is written as a predicate over the positions where its parts meet.
- `EventProducer` (producer.dfy): `Parse` is the specification of what the
  producer publishes for a sequence of input lines. `Producer.Run` is the
  loop, proved to publish exactly `Parse(input)` and then close the queue.
- `Classifier` (classifier.dfy): `get_domain` has two stages. The first
  pattern takes the authority. The second takes the host, with ECMAScript's
  first-match order: the `userinfo@` alternative is tried first.
  `is_questionable` is defined with `exists` and also written as the source's
  early-exit search loop.
- `EventConsumer` (consumer.dfy): `CountQuestionable`, plus `Consumer.Run`,
  which drains a closed queue and raises the count by exactly the number of
  questionable events it held.
- `Pipeline` (pipeline.dfy): `main` as one sequential schedule (the producer,
  then each consumer), plus worked inputs.

Input is a sequence of lines: the text of the stream split at each `'\n'`. A
stream that ends with a newline therefore ends with an empty line, which
`getline` reads before it reports end of file. Reading past the last line
yields an empty line, and no grammar accepts it.

## Model

| member | source | states |
|---|---|---|
| EventQueue.ConcurrentQueue.constructor | spmc_101.cpp:30-33 | a new queue is empty and open |
| EventQueue.ConcurrentQueue.CloseQueue | spmc_101.cpp:35-41 | the queue is closed afterwards and its events are untouched, so closing twice changes nothing more |
| EventQueue.ConcurrentQueue.PullOne | spmc_101.cpp:43-66 | succeeds iff the queue held an event; then it yields the last event and removes only that one; on failure (closed and empty) the caller's slot and the queue are unchanged; `closed` never changes |
| EventQueue.ConcurrentQueue.Push | spmc_101.cpp:68-74 | the new events are the old ones plus the given event at the back; `closed` is unchanged |
| EventQueue.LastInFirstOut | spmc_101.cpp:49-52 | after pushing R1 then R2, the first pull gives R2 and the second gives R1; once the queue is closed and drained, a pull fails |
| Counter.Storage.constructor | spmc_101.cpp:86-89 | a new counter is zero |
| Counter.Storage.GetCount | spmc_101.cpp:91-95 | returns the current count and changes nothing |
| Counter.Storage.IncreaseCount | spmc_101.cpp:97-100 | the count grows by exactly one |
| Validation.IsValidDevice | spmc_101.cpp:150-156 | the device grammar, read position by position: "device: " and then exactly 17 more characters, six ASCII alphanumeric pairs with a hyphen between neighbouring pairs, 25 characters in all; `DeviceLayoutAgrees` proves it equal to the pattern read group by group, and `GrammarsAreDisjoint` separates it from the other two |
| Validation.IsValidTimestamp | spmc_101.cpp:158-164 | the timestamp grammar: "timestamp: " and then one or more ASCII digits up to the end of the line; `SampleTimestampIsValid` and `GrammarsAreDisjoint` are about it |
| Validation.IsValidUrl | spmc_101.cpp:166-172 | the URL grammar, as the existence of the positions where its parts meet; `UrlGrammarsAgree` proves it accepts the same lines as the first split pattern of `get_domain` |
| Validation.HyphenPairsLayout | spmc_101.cpp:152 | `(\-[[:alnum:]]{2}){n}` matches exactly the strings of length 3n with '-' at every position divisible by 3 and alphanumerics elsewhere |
| Validation.DeviceLayoutAgrees | spmc_101.cpp:150-156 | the device grammar, read character by character, accepts the same lines as the pattern read group by group |
| Validation.EmptyLineIsInvalid | spmc_101.cpp:150-172 | no grammar accepts the empty line |
| Validation.SampleDeviceIsValid | spmc_101.cpp:152 | "device: ab-cd-ef-12-34-56" is a valid device line |
| Validation.SampleTimestampIsValid | spmc_101.cpp:160 | "timestamp: 1700000000" is a valid timestamp line |
| Text.ToLower | spmc_101.cpp:204 | the result is never an ASCII capital; a character changes iff it is an ASCII capital, and then it moves to the matching small letter |
| Text.FindFrom | spmc_101.cpp:168 | returns the first position at or after the start that holds the character, or the end; this is where a greedy `[^c]+` run ends |
| EventProducer.Parse | spmc_101.cpp:118-147 | the events the producer loop publishes for the input lines, in order; `Producer.Run` is proved to publish exactly these, and `ParseIsBounded`, `ParseFromConsecutiveLines` and `ParseIsSound` state what they are |
| EventProducer.ParseIsBounded | spmc_101.cpp:123-143 | at most one event is published per three input lines |
| EventProducer.ParseFromConsecutiveLines | spmc_101.cpp:123-143 | every published event is three consecutive input lines (device, URL, timestamp) |
| EventProducer.ParseIsSound | spmc_101.cpp:126-143 | every published event passed the device, URL and timestamp grammars |
| EventProducer.ParseDropsNonDeviceLine | spmc_101.cpp:124-128 | a line that is not a device line is dropped alone, and scanning resumes at the next line |
| EventProducer.ParseDropsBadUrlLine | spmc_101.cpp:130-135 | a device line followed by a bad URL line (or by the end of input) is dropped together with that line |
| EventProducer.ParseDropsBadTimestampLine | spmc_101.cpp:137-141 | a device and URL line followed by a bad timestamp line (or by the end of input) are dropped together with that line |
| EventProducer.ParsePublishesRecord | spmc_101.cpp:124-143 | three lines that pass their grammars are published as one event, and scanning resumes after them |
| EventProducer.ReadPastEndIsInvalid | spmc_101.cpp:130-137 | a read past the last line yields a line that no grammar accepts |
| EventProducer.SkipsNonDeviceLines | spmc_101.cpp:124-128 | any run of non-device lines in front of the input changes nothing that is published |
| EventProducer.RecordIsPublished | spmc_101.cpp:124-143 | a valid device, URL and timestamp line in a row publish exactly that event, followed by what the rest of the input publishes |
| EventProducer.FailedUrlLineIsConsumed | spmc_101.cpp:130-135 | a line that fails the URL grammar is consumed with its device line and never examined again as a device line |
| EventProducer.FailedTimestampLineIsConsumed | spmc_101.cpp:137-141 | a line that fails the timestamp grammar is consumed with the two lines before it |
| EventProducer.GrammarsAreDisjoint | spmc_101.cpp:150-172 | no line passes two of the three grammars: a device line starts with 'd', a URL line with 'u', a timestamp line with 't' |
| EventProducer.DeviceLineInUrlSlotIsLost | spmc_101.cpp:124-135 | two device lines in a row, then a URL and a timestamp line, publish nothing |
| EventProducer.MissingUrlLinePublishesNothing | spmc_101.cpp:130-135 | a device line followed directly by a timestamp line, then the end of input, publishes nothing |
| EventProducer.Producer.constructor | spmc_101.cpp:108-111 | the producer reads the given input and publishes into the given queue |
| EventProducer.Producer.Publish | spmc_101.cpp:113-116 | appends the event built from the three lines to the queue |
| EventProducer.Producer.Run | spmc_101.cpp:118-147 | the queue gains exactly `Parse(input)`, in order, after what it already held, and ends closed |
| Classifier.SplitAuthority | spmc_101.cpp:231-241 | returns a value iff the first pattern matches; the value is the pattern's group 1 for the (only) split; it is non-empty and holds no '/' |
| Classifier.HostEnd | spmc_101.cpp:233 | gives the end of `[^:]+` starting at a position iff the rest is `host[:digits]`, and that end is the only one |
| Classifier.AuthorityHost | spmc_101.cpp:232-246 | returns a value iff the second pattern matches; the host after the first '@' wins when it fits; otherwise the whole authority is read as `host[:digits]`; the host is non-empty, holds no ':' and only characters of the authority |
| Classifier.GetDomain | spmc_101.cpp:230-251 | the host of the URL's authority, or the empty string when a pattern fails; `GetDomainNonEmpty`, `GetDomainIsBareHost` and `GetDomainOfUrlLine` state what it returns |
| Classifier.GetDomainNonEmpty | spmc_101.cpp:230-251 | the domain is non-empty iff both patterns match |
| Classifier.GetDomainIsBareHost | spmc_101.cpp:230-251 | the domain holds no ':' (no port) and no '/' (no path) |
| Classifier.UrlGrammarsAgree | spmc_101.cpp:166-172 | the producer's URL grammar and the first split pattern accept the same lines, so every published event has an authority |
| Classifier.SplitAuthorityOfUrlLine | spmc_101.cpp:231-241 | the first stage takes back exactly the authority a URL line was built with |
| Classifier.AuthorityHostOfAuthority | spmc_101.cpp:232-246 | the second stage takes back exactly the host of an authority built from userinfo, host and port |
| Classifier.GetDomainOfUrlLine | spmc_101.cpp:230-251 | the domain of a URL line built from scheme, userinfo, host, port and path is that host |
| Classifier.HttpUrlOfHost | spmc_101.cpp:230-251 | an `http` URL line with a bare host passes the URL grammar, and its domain is that host |
| Classifier.UserinfoAlternativeWins | spmc_101.cpp:232-246 | the domain of "url: http://u@h@k:8/p" is "h@k": the userinfo alternative is taken first |
| Classifier.WholeAuthorityFallback | spmc_101.cpp:232-246 | the domain of "url: http://a@:80/" is "a@": when the userinfo alternative does not fit, the whole authority is the host |
| Classifier.HasOffendingWord | spmc_101.cpp:188-212 | some blocklisted word occurs in the domain under ASCII case folding; `SearchOffendingWords` is the source's loop, proved equal to it |
| Classifier.IsQuestionable | spmc_101.cpp:186-215 | an event is questionable iff its URL's domain holds a blocklisted word; `CheckQuestionable` computes it as the source does |
| Classifier.Search | spmc_101.cpp:202-206 | returns the first position from the start where the word occurs under case folding, or the end of the domain |
| Classifier.SearchOffendingWords | spmc_101.cpp:199-212 | the early-exit loop over the blocklist returns true iff some blocklisted word occurs in the domain under ASCII case folding |
| Classifier.CheckQuestionable | spmc_101.cpp:186-215 | `is_questionable` as the source computes it agrees with its definition by `exists` |
| Classifier.QuestionableWhenOccurs | spmc_101.cpp:199-212 | one occurrence of a blocklisted word in the domain is enough |
| Classifier.QuestionableDependsOnlyOnUrl | spmc_101.cpp:197 | two events with the same URL line are classified alike |
| Classifier.EmptyDomainNotQuestionable | spmc_101.cpp:197-215 | an event whose URL yields no domain is not questionable |
| Classifier.QuestionableExample | spmc_101.cpp:186-215 | an event whose URL is "url: http://www.xxxsite.com/page" is questionable |
| Classifier.XxxSiteDomain | spmc_101.cpp:230-251 | "url: http://www.xxxsite.com/page" is a valid URL line with domain "www.xxxsite.com" |
| Classifier.ExampleDomain | spmc_101.cpp:230-251 | "url: http://example.com/page" is a valid URL line with domain "example.com" |
| Classifier.NoOffendingWordInExample | spmc_101.cpp:188-193 | no blocklisted word occurs in "example.com" in any case |
| Classifier.NotQuestionableExample | spmc_101.cpp:186-215 | an event whose URL is "url: http://example.com/page" is not questionable |
| EventConsumer.CountQuestionable | spmc_101.cpp:219-226 | the number of questionable events, which is what the consumers add to the count; `Consumer.Run`, `CountIgnoresOrder` and `CountSplit` are about it |
| EventConsumer.CountWhere | spmc_101.cpp:221-226 | the number of marked events is at most the number of events |
| EventConsumer.CountAppend | spmc_101.cpp:221-226 | the count of a concatenation is the sum of the counts |
| EventConsumer.CountWithout | spmc_101.cpp:221-226 | taking one event out of a sequence takes its mark out of the count |
| EventConsumer.CountIgnoresOrder | spmc_101.cpp:221-226 | two sequences holding the same events in any order have the same count |
| EventConsumer.CountSplit | spmc_101.cpp:221-226 | however the events are shared out between two consumers, their counts add up to the count of all the events |
| EventConsumer.Consumer.constructor | spmc_101.cpp:181-184 | the consumer counts into the given storage from the given queue |
| EventConsumer.Consumer.Run | spmc_101.cpp:217-227 | on a closed queue: the queue ends empty and closed, and the count grows by exactly the number of questionable events it held |
| Pipeline.RunPipeline | spmc_101.cpp:258-276 | the count reported at the end is the number of questionable events among those the producer publishes for the input |
| Pipeline.DrainInTurns | spmc_101.cpp:217-271 | two consumers draining a closed queue in any order of turns: the queue ends empty, each event goes to exactly one of them, each one's share is the count of questionable events it took, the shares add up to the count of all the events, and the shared counter grows by that sum |
| Pipeline.OneRecord | spmc_101.cpp:123-146 | a complete record followed by the empty line after the last newline publishes exactly that event |
| Pipeline.QuestionableRecordCounts | spmc_101.cpp:258-276 | a device line, "url: http://www.xxxsite.com/page" and a timestamp line give a count of 1 |
| Pipeline.InnocuousRecordDoesNotCount | spmc_101.cpp:258-276 | the same record with "url: http://example.com/page" is published and gives a count of 0 |
| Pipeline.MissingUrlCountsNothing | spmc_101.cpp:258-276 | a device line followed by a timestamp line publishes nothing and gives a count of 0, with or without a final newline |

## Left out

- Threads, the mutex and the condition variable of `ConcurrentQueue` are left out. Each method is one critical section, run to completion.
- EventQueue.ConcurrentQueue.PullOne: requires the queue to be closed or non-empty. On an open, empty queue the source blocks until another thread pushes or closes, and a sequential model cannot wait.
- Pipeline.RunPipeline: runs the producer to completion, then the first consumer, then the second. The threads in `main` may interleave pulls with pushes. `CountIgnoresOrder` and `CountSplit` show that the total does not depend on which consumer takes which event or in which order.
- Counter.Storage.IncreaseCount: the count is an unbounded `nat`, so the wrap-around of the 64-bit atomic counter after 2^64 increments is not modelled. The atomicity of `++` is implicit in the sequential model.
- The 50 ms sleep after each questionable event in `Consumer::run` is timing only and is left out.
- Writing the count to standard output is left out. `RunPipeline` returns the count instead.
- EventProducer.Parse / EventProducer.Producer.Run: a read past the end of input is modelled as an empty line, which no grammar accepts, so an unfinished last record is dropped. The source differs when the stream ends without a final newline in the middle of a record. After end of file a failed `std::getline` leaves its target string as it was, so the missing URL or timestamp line is whatever the previous record left in that variable (spmc_101.cpp:120-143). For "d1\nu1\nt1\nd2" the source publishes (d1, u1, t1) and then (d2, u1, t1): the last device line paired with the old URL and timestamp lines. For "d1\nu1\nt1\nd2\nu2" it publishes (d1, u1, t1) and then (d2, u2, t1). In both cases `Parse` publishes only (d1, u1, t1). When the stream ends with a newline, or the stale lines fail their grammars, the two agree.
- `std::regex` is not modelled as an engine. The five patterns are written by hand as position predicates over `seq<char>`. ECMAScript's `.` excludes `'\n'` and `'\r'`. `[[:alnum:]]`, `[[:digit:]]` and `tolower` use the ASCII "C" locale.
- `atomic_101.cpp` is not part of this model. It is an unrelated pair of printer threads whose only content is thread interleaving.
