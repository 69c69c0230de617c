# noqms messaging core in Dafny

noqms is a small Java framework for microservices that exchange messages as
UDP datagrams, with no broker in between. A service announces itself by a
multicast heartbeat, finds its peers through a service finder, and hands
requests and responses to a dispatcher thread (`Processor`). The dispatcher
sends each outbound message through the datagram transport (`ServiceUdp`),
correlates every response with the call it answers, and hands inbound
requests to worker threads. It also expires calls and requests whose
deadline has passed.

This project is a sequential model of that core, with proofs about the model:

- `service_udp.dfy` (module `ServiceUdp`): the datagram framing. A frame is a
  10-digit zero-padded header length, then the JSON header, then the payload.
  The model covers the chain of guards the receive loop applies to each
  datagram, and `send`, which fills the datagram buffer in place.
- `processor.dfy` (module `Dispatcher`): the dispatcher as a class.
  - Its fields are the three queues, the two pending tables, the two deadline
    lists and the one id generator.
  - Its methods are the three send calls, `acceptMessageToMe`, and the five
    steps of one loop iteration: back pressure, outbound drain, inbound drain,
    outbound expiry, inbound expiry.
  - One invariant, `Valid`, covers the whole object. It says:
    - every id in use was issued by the generator and sits in one table only;
    - every pending entry has a deadline;
    - every queued or pending call owns an unresolved future of its own.
- `stats.dfy` (module `Stats`): the per-minute counters, with the fastest and
  slowest processing time recorded.
- `response_future.dfy` (module `ResponseFutures`): the single-slot handle
  returned by `sendRequestExpectResponse`.
- `emitter.dfy` (module `Emitter`): the heartbeat announcer's pause/unpause/die
  flags, and one turn of its loop with the jittered sleep.
- `registry.dfy`, `framework_finder.dfy`, `multicast_finder.dfy`: the two
  multicast service finders.
  - Both keep the same table, modelled as `Registry.ServiceRegistry`: service
    name to an insertion-ordered sequence of instances, keyed by address and
    port.
  - Each finder has its own heartbeat validation, group filter, send-size
    limit and port formula.
- `config.dfy` (module `Configuration`): `Config.createFromProperties`, with
  `loadInt` / `loadString`, the defaults and the validation chain.
- `micro_service.dfy` (module `MicroServiceApi`): the argument guards of the
  three `MicroService` calls.
- `args.dfy` (module `Args`): `argsToProps`. `framework/Util.java` and
  `framework/FrameworkUtil.java` contain the same method, and this module
  models both.
- `java_lang.dfy` (module `JavaLang`): the Java library behaviour the core
  relies on:
  - 32-bit wrap-around, the overflowing `Math.abs`, and the truncating `%`;
  - `String.hashCode` over UTF-16 code units, so a character above the Basic
    Multilingual Plane counts as its two surrogates;
  - `isBlank`, `trim` and `indexOf`;
  - `Integer.valueOf` and `%0wd` formatting, both over the ASCII digits only
    (see "Left out").
- `messages.dfy` and `wrappers.dfy`: the shared datatypes (header,
  `ServiceInfo`, an inbound message, `Option`, `Result`).

The model replaces these with parameters:

- Gson: `toJson` and `fromJson`. A `fromJson` result is `Malformed`,
  `JsonNull` or `Parsed`.
- The socket's verdict on a send: `socketAccepts`.
- The clock: `now`. One loop iteration reads it once.
- The random draw of the emitter.
- What the pluggable finder returned for a lookup: a `Lookup` value.
- The back-pressure threshold.

## Model

| member | source | states |
|---|---|---|
| JavaLang.Wrap32 | src/com/noqms/finder/multicast/ServiceFinderMulticast.java:57 | the result is an `int`, congruent to the input modulo 2^32, and equal to the input when the input already fits |
| JavaLang.Abs32 | src/com/noqms/framework/ServiceFinderMulticast.java:73 | `Math.abs` is non-negative and equals x or -x for every int except `Integer.MIN_VALUE`, where it stays negative |
| JavaLang.Rem | src/com/noqms/framework/ServiceFinderMulticast.java:73 | Java's `%` by a positive divisor lies in [0, b) for a non-negative dividend and in (-b, 0] for a negative one |
| JavaLang.HashCode | src/com/noqms/finder/multicast/ServiceFinderMulticast.java:57 | `String.hashCode` is always a 32-bit int; it runs over UTF-16 code units, so a character above the Basic Multilingual Plane contributes its two surrogates |
| JavaLang.HashCodeSnoc | src/com/noqms/framework/ServiceFinderMulticast.java:73 | appending a character of the Basic Multilingual Plane gives hash 31*h + c, wrapped to 32 bits; appending one above it takes that step for its high surrogate and then for its low one |
| JavaLang.MinHashName | src/com/noqms/framework/ServiceFinderMulticast.java:73 | the group name "GydZG_" hashes to `Integer.MIN_VALUE` |
| JavaLang.SupplementaryHash | src/com/noqms/finder/multicast/ServiceFinderMulticast.java:57 | the one-character string U+1F600 hashes as its surrogates 0xD83D and 0xDE00, to 1772899 |
| JavaLang.TrimStart | src/com/noqms/framework/Config.java:125 | drops exactly a prefix of characters at or below U+0020, and what is left does not start with one |
| JavaLang.TrimEnd | src/com/noqms/framework/Config.java:136 | drops exactly a suffix of characters at or below U+0020, and what is left does not end with one |
| JavaLang.Trim | src/com/noqms/framework/Config.java:136 | the trimmed text is the middle of the input: a contiguous part of it, with only characters at or below U+0020 dropped before and after it, and neither starting nor ending with one |
| JavaLang.IndexOf | src/com/noqms/framework/Util.java:39 | the first position holding the character, or -1 when no position holds it |
| JavaLang.ParseInt | src/com/noqms/framework/ServiceUdp.java:94 | a value parsed by `Integer.valueOf` always fits in 32 bits (ASCII digits only; see "Left out") |
| JavaLang.ZeroPadded | src/com/noqms/framework/ServiceUdp.java:162 | `%0wd` text is exactly w decimal digits (ASCII digits; see "Left out") |
| JavaLang.ZeroPaddedValue | src/com/noqms/framework/ServiceUdp.java:162 | the zero-padded digits of n read back as n when n has at most w digits |
| JavaLang.ParseZeroPadded | src/com/noqms/framework/ServiceUdp.java:162 | `Integer.valueOf` of the zero-padded text gives n back |
| ServiceUdp.AsciiText | src/com/noqms/framework/ServiceUdp.java:91 | decoding the length bytes as text keeps one character per byte when every byte is ASCII; any other byte is rejected (see "Left out") |
| ServiceUdp.LengthField | src/com/noqms/framework/ServiceUdp.java:162 | the header length field is exactly 10 bytes (ASCII digits; see "Left out") |
| ServiceUdp.EncodeFrame | src/com/noqms/framework/ServiceUdp.java:161-166 | a frame is 10 + header length + payload length bytes long |
| ServiceUdp.Split | src/com/noqms/framework/ServiceUdp.java:84-117 | a datagram under 10 bytes is too small; unparsable length bytes are an invalid length; too few bytes for the header, a payload over the limit and a negative length are each rejected exactly when their guard is the first to fail; a datagram is accepted exactly when it passes every guard, and then it is the length field followed by a header of length h and a payload within the limit |
| ServiceUdp.CheckHeader | src/com/noqms/framework/ServiceUdp.java:122-131 | a header passes exactly when sender and destination names are present and not blank, any id is positive, and the destination is this service; the wrong-service rejection is exactly the case where only the last condition fails |
| ServiceUdp.PayloadData | src/com/noqms/framework/ServiceUdp.java:134-136 | the payload handed on holds the remaining bytes, and is null exactly when there are none |
| ServiceUdp.Decode | src/com/noqms/framework/ServiceUdp.java:84-138 | a datagram is accepted exactly when its frame passes the guards, its header deserializes to a value and that header passes the checks; the message then has the frame's payload and the sender's address and port; otherwise the first failing guard, a malformed header, a `null` header (the corrected case) or the failing header check gives the rejection |
| ServiceUdp.DecodeAsWritten | src/com/noqms/framework/ServiceUdp.java:113-138 | the loop as written accepts exactly what `Decode` accepts, and its thread ends exactly when the header text deserializes to null |
| ServiceUdp.Run | src/com/noqms/framework/ServiceUdp.java:70-139 | the corrected receive loop hands on exactly the messages of `Received`: every datagram that `Decode` accepts, in arrival order; a null header is skipped here, where the loop as written ends (`ReceivedAsWritten`) |
| ServiceUdp.ReceivedAppend | src/com/noqms/framework/ServiceUdp.java:70-139 | what is accepted from two runs of datagrams is what each run gives, concatenated |
| ServiceUdp.RejectionSkipsOnlyThatPacket | src/com/noqms/framework/ServiceUdp.java:84-131 | a rejected datagram is skipped and the datagrams before and after it are received as if it were not there |
| ServiceUdp.NullHeaderStopsReceiver | src/com/noqms/framework/ServiceUdp.java:122 | as written, once a header deserializes to null, no later datagram is handed on |
| ServiceUdp.NullHeaderDatagramKillsReceiver | src/com/noqms/framework/ServiceUdp.java:113-122 | the 14-byte datagram `0000000004null` ends the receive loop as written, and `Decode` rejects it as a null header |
| ServiceUdp.AsciiRoundTrip | src/com/noqms/framework/ServiceUdp.java:162 | ASCII text encoded to bytes decodes back to the same text |
| ServiceUdp.LengthFieldParses | src/com/noqms/framework/ServiceUdp.java:89-98 | the length field `send` writes for a header of at most 500 bytes parses back as that length, whatever follows it |
| ServiceUdp.FrameRoundTrip | src/com/noqms/framework/ServiceUdp.java:161-166 | the receive guards cut a frame built by `send` back into the same header bytes and payload when the payload fits the inbound limit |
| ServiceUdp.DecodeRoundTrip | src/com/noqms/framework/ServiceUdp.java:145-176 | a header and payload sent by one service are accepted by the service they name, with the same header, the same bytes (null when empty) and the sender's address and port, given that Gson reads back what it wrote |
| ServiceUdp.ArrayCopy | src/com/noqms/framework/ServiceUdp.java:161-166 | `System.arraycopy` writes the source bytes at the offset and leaves every other cell of the buffer as it was |
| ServiceUdp.OutgoingFrame | src/com/noqms/framework/ServiceUdp.java:145-166 | nothing is framed exactly when the payload exceeds `maxMessageOutBytes` or the header exceeds 500 bytes; otherwise the frame is the length field, then the header, then the payload |
| ServiceUdp.Send | src/com/noqms/framework/ServiceUdp.java:145-176 | the buffer filled in place is the frame `OutgoingFrame` describes; `send` returns true exactly when there was a frame and the socket took it |
| ResponseFutures.TimedOutResponse | src/com/noqms/framework/Processor.java:285 | a timed-out response is flagged, has code 0, and carries no sender, data or messages |
| ResponseFutures.ResponseFuture.constructor | src/com/noqms/ResponseFuture.java:32-34 | a new future has its status and no response |
| ResponseFutures.ResponseFuture.GetRequestStatus | src/com/noqms/ResponseFuture.java:39-41 | returns the status fixed at construction |
| ResponseFutures.ResponseFuture.Get | src/com/noqms/ResponseFuture.java:46-48 | returns the response slot as it is: null before `set` |
| ResponseFutures.ResponseFuture.Await | src/com/noqms/ResponseFuture.java:56-68 | returns null at once for a failed request, returns the response once one is set, and otherwise waits |
| ResponseFutures.ResponseFuture.Set | src/com/noqms/ResponseFuture.java:96-101 | after `set(r)` the slot holds r |
| ResponseFutures.FutureLifecycle | src/com/noqms/ResponseFuture.java:32-101 | a fresh Ok future reads empty and `await` would block; after `set(r)` both `get` and `await` give r; a failed request's future returns null from `await` at once |
| Emitter.JitteredSleep | src/com/noqms/framework/ServiceInfoEmitter.java:62-83 | with w = interval / 5 and a draw in [0, 2w), the sleep lies in [interval - w, interval + w - 1] and is positive |
| Emitter.ServiceInfoEmitter.constructor | src/com/noqms/framework/ServiceInfoEmitter.java:29-35 | a new emitter is neither paused nor dead |
| Emitter.ServiceInfoEmitter.Die | src/com/noqms/framework/ServiceInfoEmitter.java:37-40 | `die` sets the die flag and clears pause |
| Emitter.ServiceInfoEmitter.Pause | src/com/noqms/framework/ServiceInfoEmitter.java:42-44 | `pause` returns the previous flag and leaves the emitter paused |
| Emitter.ServiceInfoEmitter.Unpause | src/com/noqms/framework/ServiceInfoEmitter.java:46-53 | `unpause` returns the previous flag and leaves the emitter unpaused |
| Emitter.ServiceInfoEmitter.Step | src/com/noqms/framework/ServiceInfoEmitter.java:65-85 | once dead, the loop stops; while paused, it waits; otherwise it announces the own service name, receive port and timeout (nothing when the own address cannot be found) and sleeps the jittered time |
| Emitter.PauseAndDie | src/com/noqms/framework/ServiceInfoEmitter.java:37-85 | a paused emitter waits instead of announcing; `unpause` reports it was paused and the next turn announces the own service; after `pause` and `die` the loop stops and the emitter is no longer paused |
| Registry.IndexOfKey | src/com/noqms/framework/ServiceFinderMulticast.java:133 | finds the position of the instance with the key, or -1 exactly when no instance has that key |
| Registry.Refreshed | src/com/noqms/framework/ServiceFinderMulticast.java:125-142 | a heartbeat refreshes a known instance's timeout and last-heard time where it stands and appends an unknown one; no address or port changes, and every other instance is untouched |
| Registry.RefreshedKeepsKeysDistinct | src/com/noqms/framework/ServiceFinderMulticast.java:132-137 | an instance never appears twice under one service name |
| Registry.FreshestAfterHeartbeat | src/com/noqms/framework/ServiceFinderMulticast.java:178-183 | with a clock that does not run backwards, the instance chosen after a heartbeat was heard at that moment, and it is the sender when every other instance was heard earlier |
| Registry.ServiceRegistry.constructor | src/com/noqms/framework/ServiceFinderMulticast.java:44 | the table starts empty |
| Registry.ServiceRegistry.Upsert | src/com/noqms/finder/multicast/ServiceFinderMulticast.java:112-128 | only the heartbeat's service changes, to its refreshed instance list, and the table keeps every list non-empty and free of duplicate keys |
| Registry.ServiceRegistry.FindService | src/com/noqms/finder/multicast/ServiceFinderMulticast.java:158-175 | null exactly for an unknown name; else a copy of the instance heard most recently, the earliest inserted on a tie |
| FrameworkFinder.MulticastPort | src/com/noqms/framework/ServiceFinderMulticast.java:73 | the corrected port is always in 1890 to 31889 |
| FrameworkFinder.PortAsWrittenAgrees | src/com/noqms/framework/ServiceFinderMulticast.java:73 | for every group name whose hash is not `Integer.MIN_VALUE`, the formula as written gives the corrected port, which is in range |
| FrameworkFinder.PortAsWrittenNegative | src/com/noqms/framework/ServiceFinderMulticast.java:73 | for "GydZG_" the formula as written gives -21758, and the corrected one gives 25538 |
| FrameworkFinder.Classify | src/com/noqms/framework/ServiceFinderMulticast.java:108-123 | a heartbeat is registered exactly when it deserializes, has a non-blank service name, an address, a positive port, a positive timeout and this group; another group's valid heartbeat is ignored; undeserializable text is skipped |
| FrameworkFinder.ClassifyAsWritten | src/com/noqms/framework/ServiceFinderMulticast.java:108-116 | as written, the reader thread ends exactly when the text deserializes to null; on every other datagram it agrees with `Classify` |
| FrameworkFinder.NullHeartbeatStopsReader | src/com/noqms/framework/ServiceFinderMulticast.java:108-116 | the datagram `null` ends the reader as written and is discarded by the corrected reader |
| FrameworkFinder.Announcement | src/com/noqms/framework/ServiceFinderMulticast.java:147-163 | the own heartbeat goes out exactly when its serialized form is at most 300 bytes, and then it goes out unchanged |
| FrameworkFinder.AnnouncementRegisters | src/com/noqms/framework/ServiceFinderMulticast.java:147-163 | a well-formed heartbeat an instance sends is registered by a finder of the same group, given that Gson reads back what it wrote |
| FrameworkFinder.ServiceFinderMulticast.constructor | src/com/noqms/framework/ServiceFinderMulticast.java:65-73 | the finder starts with an empty table on the port of the corrected formula `MulticastPort`, not the one as written |
| FrameworkFinder.ServiceFinderMulticast.Receive | src/com/noqms/framework/ServiceFinderMulticast.java:98-143 | the corrected read step: a heartbeat the corrected `Classify` registers upserts its instance under its service name; any other datagram, a `null` one included, leaves the table unchanged |
| FrameworkFinder.ServiceFinderMulticast.FindService | src/com/noqms/framework/ServiceFinderMulticast.java:173-189 | null exactly when no instance of the name is known; else a copy of the freshest instance, the first inserted on a tie |
| MulticastFinder.MulticastPort | src/com/noqms/finder/multicast/ServiceFinderMulticast.java:39-40 | the corrected port is always one of 1890 to 1989 |
| MulticastFinder.PortAsWrittenAgrees | src/com/noqms/finder/multicast/ServiceFinderMulticast.java:57 | for every group name whose hash is not `Integer.MIN_VALUE`, the formula as written gives the corrected port, which is in 1890 to 1989 |
| MulticastFinder.PortAsWrittenOutOfRange | src/com/noqms/finder/multicast/ServiceFinderMulticast.java:57 | for "GydZG_" the formula as written gives 1842, outside the documented range, and the corrected one gives 1938 |
| MulticastFinder.Classify | src/com/noqms/finder/multicast/ServiceFinderMulticast.java:95-110 | a heartbeat is registered exactly when it deserializes, has a non-blank service name, a positive timeout and this group; address and port are not checked |
| MulticastFinder.ClassifyAsWritten | src/com/noqms/finder/multicast/ServiceFinderMulticast.java:95-103 | as written, the reader thread ends exactly when the text deserializes to null; on every other datagram it agrees with `Classify` |
| MulticastFinder.NullHeartbeatStopsReader | src/com/noqms/finder/multicast/ServiceFinderMulticast.java:95-103 | the datagram `null` ends the reader as written and is discarded by the corrected reader |
| MulticastFinder.AddresslessHeartbeatAccepted | src/com/noqms/finder/multicast/ServiceFinderMulticast.java:103-104 | a heartbeat with no address and port 0 is registered by this finder |
| MulticastFinder.Announcement | src/com/noqms/finder/multicast/ServiceFinderMulticast.java:134-149 | the own heartbeat goes out exactly when its serialized form is at most `ModelMulticast.MAX_BYTES` (300), and then it goes out unchanged |
| MulticastFinder.AnnouncementRegisters | src/com/noqms/finder/multicast/ServiceFinderMulticast.java:134-149 | a heartbeat an instance sends with a non-blank name and a positive timeout is registered by a finder of the same group, given that Gson reads back what it wrote |
| MulticastFinder.ServiceFinderMulticast.constructor | src/com/noqms/finder/multicast/ServiceFinderMulticast.java:50-57 | the finder starts with an empty table on the port of the corrected formula `MulticastPort`, not the one as written |
| MulticastFinder.ServiceFinderMulticast.Receive | src/com/noqms/finder/multicast/ServiceFinderMulticast.java:85-129 | the corrected read step: a heartbeat the corrected `Classify` registers upserts its instance under its service name; any other datagram, a `null` one included, leaves the table unchanged |
| MulticastFinder.ServiceFinderMulticast.FindService | src/com/noqms/finder/multicast/ServiceFinderMulticast.java:158-175 | null exactly when no instance of the name is known; else a copy of the freshest instance, the first inserted on a tie |
| Configuration.LoadInt | src/com/noqms/framework/Config.java:117-126 | a missing value gives its default, or an error when there is none; a present value is trimmed and parsed, and unparsable text is an error |
| Configuration.LoadString | src/com/noqms/framework/Config.java:128-137 | a missing or blank value gives its default, or an error when there is none; a present value is trimmed |
| Configuration.RequiredStringMayTrimToEmpty | src/com/noqms/framework/Config.java:128-137 | a required value made of U+0001 alone is not blank, so it is accepted, and trimming leaves it empty |
| Configuration.Load | src/com/noqms/framework/Config.java:47-62 | absent optional keys give interval 2 s, unavailability 5 s, port 0, the multicast finder and no log listener; a missing `threads` is the first error reported |
| Configuration.Validate | src/com/noqms/framework/Config.java:64-115 | the loaded values are accepted exactly when every check holds; a non-positive thread count is reported first; a timeout below the typical time is rejected while equal is accepted; an accepted configuration carries the values unchanged and the seconds as milliseconds |
| Configuration.CreateFromProperties | src/com/noqms/framework/Config.java:47-96 | a configuration is created exactly when every value loads and passes the checks; a load error is reported as it is; every created configuration has positive threads, 0 < typical <= timeout, names of at most 100 characters, non-negative byte limits, an interval of at least 1 s, unavailability no shorter than the interval, and a port in [0, 65535] |
| Configuration.Defaults | src/com/noqms/framework/Config.java:30-31 | with only the required keys set, the configuration has a 2000 ms interval, 5000 ms unavailability, port 0, the multicast finder and no log listener |
| Args.SplitArg | src/com/noqms/framework/Util.java:39-43 | an arg is malformed exactly when it has no '=' or starts with one; otherwise the key is the non-empty text before the first '=', and key, '=' and value rebuild the arg |
| Args.SplitArgExamples | src/com/noqms/framework/FrameworkUtil.java:40-41 | the value may be empty or contain '='; a leading '=' or a missing '=' is malformed |
| Args.PropsFailsIff | src/com/noqms/framework/Util.java:38-41 | the parse succeeds exactly when every arg has a key and an '=' |
| Args.FirstMalformedReported | src/com/noqms/framework/FrameworkUtil.java:36-39 | the error names the first malformed arg, whatever follows it |
| Args.PropsSnoc | src/com/noqms/framework/Util.java:44 | a well-formed arg at the end puts its key and value over the table of the args before it |
| Args.PropsKeys | src/com/noqms/framework/FrameworkUtil.java:34-45 | the keys of a successful parse are exactly the keys of the args |
| Args.PropsLastWins | src/com/noqms/framework/FrameworkUtil.java:42 | each key holds the value of the last arg that names it |
| Args.LastWinsAt | src/com/noqms/framework/Util.java:44 | an arg no later arg overrides has its value in the table |
| Args.ArgsToProps | src/com/noqms/framework/Util.java:36-47 | the loop builds exactly `Props`, failing at the first malformed arg |
| Args.PropsFailureExtends | src/com/noqms/framework/Util.java:38-41 | once a prefix of the args fails, the whole parse fails with the same error |
| MicroServiceApi.SendResponse | src/com/noqms/MicroService.java:63-73 | the call is forwarded exactly when the id is present and positive, both messages are null or at most 100 characters, and the data is null or at most 64000 bytes; it is forwarded unchanged; a missing or non-positive id is the reported error |
| MicroServiceApi.RequestGuards | src/com/noqms/MicroService.java:83-88 | a destination passes exactly when it is present, not blank and at most 100 characters and the data is null or at most 64000 bytes; a missing or blank destination is the reported error |
| MicroServiceApi.SendRequest | src/com/noqms/MicroService.java:82-90 | forwarded unchanged exactly when the guards pass |
| MicroServiceApi.SendRequestExpectResponse | src/com/noqms/MicroService.java:101-109 | forwarded unchanged exactly when the guards pass |
| MicroServiceApi.LimitsInclusive | src/com/noqms/MicroService.java:64-71 | exactly 100 characters and exactly 64000 bytes pass, and 101 characters do not |
| Stats.MinClamped | src/com/noqms/framework/Processor.java:458-462 | the smallest clamped observation: no observation is smaller, and one equals it |
| Stats.MaxClamped | src/com/noqms/framework/Processor.java:458-464 | the largest clamped observation: no observation is larger, and one equals it |
| Stats.LowZeroOnlyWhenEmpty | src/com/noqms/framework/Processor.java:458-462 | the low mark is 0 exactly when nothing was observed, since 0 ms counts as 1 ms |
| Stats.MarksBracket | src/com/noqms/framework/Processor.java:458-465 | for non-negative times, the marks are at least 1, low is at most high, and every observation lies between them |
| Stats.MarksSnoc | src/com/noqms/framework/Processor.java:458-465 | the extremes of one more observation are what `processRequestMillis` computes from the previous marks |
| Stats.PerMinuteStats.constructor | src/com/noqms/framework/Processor.java:425-436 | all counters and both marks start at zero, with nothing observed |
| Stats.PerMinuteStats.ProcessRequestMillis | src/com/noqms/framework/Processor.java:458-465 | after a report, the marks are the lowest and highest clamped time reported since the last reset |
| Stats.PerMinuteStats.GetAndReset | src/com/noqms/framework/Processor.java:452-456 | returns the counters as they were and leaves all of them cleared |
| Stats.PerMinuteStats.Clear | src/com/noqms/framework/Processor.java:438-450 | every counter and both marks are back at their starting values |
| Dispatcher.Route | src/com/noqms/framework/Processor.java:108-126 | a lookup routes exactly when the finder found an instance heard from no longer ago than `serviceUnavailableMillis` (equal still routes); a finder that throws or finds nothing gives ServiceNotFound, and a stale instance gives ServiceNotResponsive |
| Dispatcher.IdsOfMembers | src/com/noqms/framework/Processor.java:58-59 | an id has a deadline exactly when some entry of the list carries it |
| Dispatcher.ExpiredIdsMembers | src/com/noqms/framework/Processor.java:278-281 | polling drains exactly the ids of entries whose deadline is at or before now |
| Dispatcher.UnexpiredMembers | src/com/noqms/framework/Processor.java:278-281 | the drain keeps exactly the entries whose deadline is after now |
| Dispatcher.SurvivorsKeepDeadline | src/com/noqms/framework/Processor.java:278-302 | every id with a deadline is either drained or still has one afterwards |
| Dispatcher.ResponseToMe | src/com/noqms/framework/Processor.java:247-258 | a response resolves a pending call exactly when it carries the id of one; for every response with an id this is the code as written; it never stops the dispatcher |
| Dispatcher.IdlessResponseStopsDispatcher | src/com/noqms/framework/Processor.java:249 | a response without an id passes the transport's checks, stops the dispatcher as written, and is dropped by the corrected dispatcher |
| Dispatcher.Delivered | src/com/noqms/framework/Processor.java:218-221 | one send puts at most one datagram on the wire: the frame to that address and port, exactly when there is a frame, the address is not null and the socket takes it; a send to a null address (a peer announced without one) always fails |
| Dispatcher.WorkerQueueExtends | src/com/noqms/framework/Processor.java:269-274 | a request at the front of the rest takes the next id and goes first, behind the requests already queued |
| Dispatcher.Processor.constructor | src/com/noqms/framework/Processor.java:64-85 | a new dispatcher has empty queues and tables, a zero generator, cleared statistics and the invariant |
| Dispatcher.Processor.Die | src/com/noqms/framework/Processor.java:91-96 | sets the die flag |
| Dispatcher.Processor.AcceptMessageToMe | src/com/noqms/framework/Processor.java:100-106 | the message joins the tail of the inbound queue |
| Dispatcher.Processor.SendRequestExpectResponse | src/com/noqms/framework/Processor.java:108-136 | on a routing failure, only `failedRequests` moves and the future carries that status; otherwise the generator moves by one and a call with that id, the caller's data and a fresh unresolved Ok future joins the tail of the outbound queue |
| Dispatcher.Processor.QueueCall | src/com/noqms/framework/Processor.java:127-135 | a routed call gets the next id and a fresh unresolved Ok future and is queued at the tail with both |
| Dispatcher.Processor.SendRequest | src/com/noqms/framework/Processor.java:138-165 | on a routing failure, only `failedRequests` moves; otherwise a request without an id joins the tail of the outbound queue and the status is Ok |
| Dispatcher.Processor.SendResponse | src/com/noqms/framework/Processor.java:167-179 | a response with my name, the response fields and the internal id of its request joins the tail of the outbound queue, with no destination yet |
| Dispatcher.Processor.PollRequestToMe | src/com/noqms/framework/RequestToMeThread.java:66 | workers take requests from the head of the queue, in arrival order |
| Dispatcher.Processor.ProcessRequestMillis | src/com/noqms/framework/Processor.java:420-422 | the statistics record one more processing time |
| Dispatcher.Processor.BackPressure | src/com/noqms/framework/Processor.java:186-198 | the emitter is paused exactly when the backlog exceeds the threshold; "Applying" is logged only on a change to paused and "Removing" only on a change to unpaused |
| Dispatcher.Processor.PollFromMe | src/com/noqms/framework/Processor.java:200-206 | the message at the head of the outbound queue is taken off, in order |
| Dispatcher.Processor.RespondFromMe | src/com/noqms/framework/Processor.java:208-222 | the new state is `RespondStep` of the old one: the request's entry is removed; when it was pending, the response goes to the request's address and port with `serviceNameTo` and id taken from the request, `responsesSent` grows by one and a failed send adds to `failedResponses`; when it was not pending, nothing is sent or counted |
| Dispatcher.Processor.FileCall | src/com/noqms/framework/Processor.java:226-231 | a call is filed under its id with its future, and gets a deadline of the peer's timeout |
| Dispatcher.Processor.FileIfCall | src/com/noqms/framework/Processor.java:226-231 | only a request with an id is filed as pending |
| Dispatcher.Processor.RequestFromMe | src/com/noqms/framework/Processor.java:224-236 | the new state is `RequestStep` of the old one: `requestsSent` grows by one and the datagram goes to the peer; a call is filed under its id with its future and a deadline of the peer's timeout before the send, and stays filed when the send fails, which only adds one to `failedRequests` |
| Dispatcher.Processor.OutboundStepKeepsPending | src/com/noqms/framework/Processor.java:200-237 | one outbound message keeps every pending call unchanged, files a call under its own id with its own future, and only ever removes requests to me |
| Dispatcher.Processor.DrainOneFromMe | src/com/noqms/framework/Processor.java:200-237 | the head of the outbound queue is taken off and the new state is `OutboundStep` of the old one: sent as a response (`RespondStep`) or as a request (`RequestStep`), with its datagram, counters and any new pending call and deadline |
| Dispatcher.Processor.DrainOutbound | src/com/noqms/framework/Processor.java:200-237 | afterwards the outbound queue is empty and the new state is `OutboundAfter` of the old state and the old queue, head first: every datagram, counter, pending call and deadline as the steps make them; every queued call is pending with its own future, and no pending call was lost or changed |
| Dispatcher.Processor.OutboundAccounting | src/com/noqms/framework/Processor.java:200-237 | over the outbound drain, the wire only grows, `requestsSent` grows by the number of requests queued, at most one response is counted per queued response, and every counted send either put a datagram on the wire or was counted as failed |
| Dispatcher.Processor.ResponseToMeArrives | src/com/noqms/framework/Processor.java:246-258 | a response naming a pending call removes its entry, resolves its future (not timed out) with the sender, data, code and messages, records that future in `resolved`, and is counted; under the corrected verdict `ResponseToMe`, any other response, one with no id included, changes nothing; as written (`ResponseToMeAsWritten`) a response with no id ends the dispatcher |
| Dispatcher.Processor.ReceiveResponse | src/com/noqms/framework/Processor.java:246-258 | the new state is `ReceiveResponseStep` of the old one, and no future becomes pending; responses are judged by the corrected verdict `ResponseToMe`, where as written (`ResponseToMeAsWritten`) a response with no id ends the dispatcher |
| Dispatcher.Processor.RequestToMeArrives | src/com/noqms/framework/Processor.java:259-275 | every request to me is counted and joins the tail of the worker queue under the next internal id; only one carrying an id is filed as waiting, with a deadline of my own timeout |
| Dispatcher.Processor.ReceiveRequest | src/com/noqms/framework/Processor.java:259-275 | the new state is `ReceiveRequestStep` of the old one |
| Dispatcher.Processor.IssueId | src/com/noqms/framework/Processor.java:261-262 | `requestsReceived` grows by one; the new id is the old generator plus one, positive, and used nowhere yet |
| Dispatcher.Processor.FileRequestToMe | src/com/noqms/framework/Processor.java:263-268 | the request is filed under its internal id with a deadline of my own timeout |
| Dispatcher.Processor.FileIfExpecting | src/com/noqms/framework/Processor.java:263-268 | only a request whose sender expects a response is filed, with a deadline of my own timeout; any other leaves the table and the deadline list unchanged |
| Dispatcher.Processor.EnqueueRequestToMe | src/com/noqms/framework/Processor.java:269-274 | the request joins the tail of the worker queue, which stays in id order |
| Dispatcher.Processor.DrainOneToMe | src/com/noqms/framework/Processor.java:239-276 | the head of the inbound queue is taken off and the new state is `InboundStep` of the old one: a response as `ReceiveResponseStep` describes, a request as `ReceiveRequestStep` does; no future becomes pending; responses are judged by the corrected verdict `ResponseToMe`, where as written (`ResponseToMeAsWritten`) a response with no id ends the dispatcher |
| Dispatcher.Processor.PollToMe | src/com/noqms/framework/Processor.java:240-243 | the message at the head of the inbound queue is taken off, in order |
| Dispatcher.Processor.DrainInbound | src/com/noqms/framework/Processor.java:239-276 | afterwards the inbound queue is empty and the new state is `InboundAfter` of the old state and the old queue, head first; the worker queue is the old one followed by one request per inbound request, in arrival order, with consecutive fresh ids; pending calls only leave the table, unchanged; responses are judged by the corrected verdict `ResponseToMe`, where as written (`ResponseToMeAsWritten`) a response with no id ends the dispatcher |
| Dispatcher.Processor.InboundRequestsInOrder | src/com/noqms/framework/Processor.java:259-275 | over the inbound drain, the generator and `requestsReceived` grow by the number of inbound requests, and the worker queue gets exactly those requests, in arrival order, with the ids that follow the old generator |
| Dispatcher.Processor.InboundResponsesAccounted | src/com/noqms/framework/Processor.java:246-258 | over the inbound drain, pending calls only leave the table, unchanged, and `responsesReceived` grows by exactly the number that left; responses are judged by the corrected verdict `ResponseToMe`, where as written (`ResponseToMeAsWritten`) a response with no id ends the dispatcher |
| Dispatcher.Processor.DropCall | src/com/noqms/framework/Processor.java:282-284 | a drained call id is removed; when it was pending, it is counted as dropped by the peer and its future is returned |
| Dispatcher.Processor.DropStepFromMe | src/com/noqms/framework/Processor.java:278-290 | one deadline: a due one drops its call if still pending, counted once; one not yet due is kept |
| Dispatcher.Processor.DrainDeadlinesFromMe | src/com/noqms/framework/Processor.java:278-290 | every due deadline is drained and the rest kept in order; exactly the pending calls they name are dropped, each counted once, and their futures collected |
| Dispatcher.Processor.DropExpiredCalls | src/com/noqms/framework/Processor.java:278-290 | the outbound deadline list keeps only deadlines still ahead, and exactly the due pending calls are dropped and counted |
| Dispatcher.Processor.TimeOut | src/com/noqms/framework/Processor.java:285-286 | a dropped call's future is resolved as timed out |
| Dispatcher.Processor.TimeOutCalls | src/com/noqms/framework/Processor.java:283-286 | every dropped call's future is resolved as timed out |
| Dispatcher.Processor.ExpireOutbound | src/com/noqms/framework/Processor.java:278-290 | only due deadlines are drained; each pending call they name is removed, counted once as dropped by the peer and resolved as timed out |
| Dispatcher.Processor.KeepDeadlinesFromMe | src/com/noqms/framework/Processor.java:279 | the outbound deadline list becomes the kept deadlines, and every pending call still has one |
| Dispatcher.Processor.ExpireRequestToMe | src/com/noqms/framework/Processor.java:296-298 | a drained internal id is removed, and counted as dropped by me exactly when it was waiting |
| Dispatcher.Processor.ExpireStepToMe | src/com/noqms/framework/Processor.java:292-302 | one deadline: a due one expires its request if still waiting, counted once; one not yet due is kept |
| Dispatcher.Processor.DrainDeadlinesToMe | src/com/noqms/framework/Processor.java:292-302 | every due deadline is drained and the rest kept in order; exactly the waiting requests they name are removed, each counted once |
| Dispatcher.Processor.ExpireInbound | src/com/noqms/framework/Processor.java:292-302 | only due deadlines are drained; each waiting request they name is removed and counted once as dropped by me |
| Dispatcher.Processor.KeepDeadlinesToMe | src/com/noqms/framework/Processor.java:293 | the inbound deadline list becomes the kept deadlines, and every waiting request still has one |
| Dispatcher.Processor.DrainQueues | src/com/noqms/framework/Processor.java:200-276 | both message queues end empty, and the new state is `InboundAfter` of `OutboundAfter` of the old state: the outbound queue first, then the inbound one, each head first; responses are judged by the corrected verdict `ResponseToMe`, where as written (`ResponseToMeAsWritten`) a response with no id ends the dispatcher |
| Dispatcher.Processor.ExpireDeadlines | src/com/noqms/framework/Processor.java:278-302 | the new state is `Expired` of the old one: the outbound expiry and then the inbound one, with the removed entries, the counters and the timed-out futures as `ExpiredFromMe` and `ExpiredToMe` give them; the message queues are untouched, and every deadline left is still ahead |
| Dispatcher.Processor.ExpireFromMe | src/com/noqms/framework/Processor.java:278-290 | the new state is `ExpiredFromMe` of the old one: due entries are drained, each pending call they name is removed, counted against the peer and its future resolved as timed out; every outbound deadline left is still ahead |
| Dispatcher.Processor.ExpireCalls | src/com/noqms/framework/Processor.java:278-290 | the futures of exactly the due pending calls join `resolved` with the timed-out response; the outbound deadlines keep only those still ahead, the due calls leave the table, and each is counted once |
| Dispatcher.Processor.TimedOutSettled | src/com/noqms/framework/Processor.java:282-286 | once the due calls have left the table and their futures hold the timed-out response, those futures join the ones already settled |
| Dispatcher.Processor.ExpireToMe | src/com/noqms/framework/Processor.java:292-302 | the new state is `ExpiredToMe` of the old one: due entries are drained, each waiting request they name is removed and counted against me; every inbound deadline left is still ahead |
| Dispatcher.Processor.RunIteration | src/com/noqms/framework/Processor.java:185-302 | one iteration pauses the emitter exactly when the backlog at its start exceeds the threshold, records back pressure, and logs only changes; its new state is `Expired` of `InboundAfter` of `OutboundAfter` of the old state, so both message queues end empty and only future deadlines are left, with the invariant kept; responses are judged by the corrected verdict `ResponseToMe`, where as written (`ResponseToMeAsWritten`) a response with no id ends the dispatcher |
| Dispatcher.Processor.DrainAndExpire | src/com/noqms/framework/Processor.java:200-302 | both queues are drained as `InboundAfter` of `OutboundAfter` describes and end empty, then both deadline lists are expired as `Expired` describes; responses are judged by the corrected verdict `ResponseToMe`, where as written (`ResponseToMeAsWritten`) a response with no id ends the dispatcher |
| Dispatcher.Processor.TransmitRequest | src/com/noqms/framework/Processor.java:225-235 | `requestsSent` grows by one, the request's datagram goes on the wire if sent, and `failedRequests` grows by one exactly when nothing was sent |
| Dispatcher.Processor.TransmitResponse | src/com/noqms/framework/Processor.java:218-221 | the response's datagram goes on the wire if sent, and `failedResponses` grows by one exactly when nothing was sent |
| Dispatcher.Processor.Transmit | src/com/noqms/framework/ServiceUdp.java:145-176 | the socket receives what `send` frames, and the result says whether it took it |

## Left out

- Threads and their coordination: `synchronized`, `wait` / `notify`, daemon
  flags, the atomics and the concurrent maps. Each operation is modelled as
  one sequential step. Interleavings of the dispatcher with the caller
  threads, the transport thread and the workers are not modelled.
- The blocking of `ResponseFuture.await` appears only as the `Blocks`
  outcome.
- `RequestToMeThread` appears only as its `pollFirst` on the worker queue.
  Running the service's `processRequest` is not part of this model.
- Sockets: `DatagramSocket` and `MulticastSocket` creation, `joinGroup`,
  buffer sizes and `receive`.
  - A received datagram is a parameter.
  - A send is the `socketAccepts` verdict for its address and port. An
    exception from `send` is a refusal, and a send to a null address is
    always one.
- Gson: serialization and deserialization are parameters. The header and
  heartbeat JSON formats are not modelled.
- Clocks and randomness: `System.currentTimeMillis` is `now`, and
  `Random.nextInt` is the emitter's `draw`. A `DelayQueue` entry is due when
  its deadline is at or before `now`. The deadline lists are drained in list
  order rather than deadline order, since nothing in the loop depends on
  that order.
- Dispatcher.Processor.ExpireOutbound: the source resolves each timed-out
  future inside the drain loop. The model first drops every due call, then
  resolves their futures. With one thread the two orders give the same state.
- The back-pressure threshold `1 + (int)(threads * ((float)timeout/typical))`
  (`Processor.java:187-188`) is a parameter. Its float rounding is not modelled.
- Processor.java:122 reads `service.elapsedMillis`, but `ServiceInfo` only
  has `lastHeardFromTimeMillis`. Elapsed time is modelled as `now` minus
  that time.
- The one-minute statistics report (`Processor.java:304-309`), `RunningStats`
  and all logging. The `BackPressureLog` result stands for the two
  back-pressure log lines.
- Dispatcher.Processor.Die: sets the flag only. Stopping the worker threads is
  not modelled.
- Dispatcher.Processor.constructor: does not model loading the microservice by
  reflection or starting the worker threads (`Processor.java:69-82`).
- Java `int` / `long` overflow in `1000 * seconds`, in the id generator and
  in the counters. These use unbounded integers.
- Header lengths near 2^31 overflow `10 + h` in the receive guards. The model
  computes the sum without overflow.
- JavaLang.ParseInt: accepts only the ASCII digits 0-9. `Integer.valueOf`
  goes through `Character.digit`, which also accepts the other Unicode decimal
  digits (Arabic-Indic, fullwidth and so on); the model reads those as not a
  digit and fails.
- Configuration.LoadInt: inherits the ASCII-only digits of `ParseInt`, so a
  property value written in other Unicode decimal digits is rejected here and
  accepted by Java.
- ServiceUdp.AsciiText: the 10 length bytes are decoded as ASCII, and any
  byte at or above 0x80 makes the length invalid. Java decodes them as UTF-8,
  so a datagram whose length field holds a multi-byte digit (the bytes
  EF BC 94 are U+FF14, the fullwidth 4) is accepted by Java and rejected by
  the model. `HeaderLength` and `Decode` inherit this.
- JavaLang.ZeroPadded: `String.format("%0wd")` uses the digits of the default
  locale. The model assumes a locale whose digits are the ASCII ones, as
  `ServiceUdp.LengthField`, `FrameRoundTrip` and `DecodeRoundTrip` do.
- `DispatchState`, `StateOf` and the `resolved` map of futures are ghost
  state of the model only. They name the dispatcher's fields as one value,
  and the futures resolved so far, so that each step can be stated as a
  function of the state before it.
- Dispatcher.Processor.IssueId and Dispatcher.Processor.TransmitRequest: the
  `requestsReceived` and `requestsSent` increments happen inside these
  helpers rather than on their own source lines. With one thread the order
  of the increment and the id or the send cannot be observed.
- Character counts are code points. Java's `length()` counts UTF-16 units,
  which differ from code points outside the Basic Multilingual Plane.
- An instance key is the (address, port) pair. The source uses the string
  `address + "~" + port`, which is equal for equal pairs.
- The header fields `serviceAddressFrom` and `servicePortFrom`
  (`MessageHeader.java:40-41`) are not modelled. The core never sets or
  reads them.
- `Runner.ARG_APP_DATA_PORT`, read at `Config.java:62`, is not defined in
  `Runner.java`. The model names the key `appDataPort`.
- `findMyInetAddress`, `sleepMillis`, memory statistics, bootstrap and wiring
  (Framework, Harness, Runner, Starter, SimpleRunner), the logger classes and
  the finder and listener interfaces are not part of this model.
- Emitter.ServiceInfoEmitter.Step: a `sendMyServiceInfo` exception caught at
  `ServiceInfoEmitter.java:79-81` appears only as the `None` announcement
  when the own address is not found.

## Findings

| source | as written | input that shows it | evidently intended | confidence | as-written member | corrected member |
|---|---|---|---|---|---|---|
| src/com/noqms/framework/ServiceUdp.java:113-122 | Gson returns null for header text `null`. The null header reaches the field checks outside the try block, and the NullPointerException ends the receive thread. | the datagram `0000000004null` | reject the datagram and keep receiving | high, not executed | ServiceUdp.NullHeaderDatagramKillsReceiver | ServiceUdp.Decode |
| src/com/noqms/framework/Processor.java:249 | A response without an id passes the transport's checks. `requestsFromMeByRequestId.remove(null)` on a ConcurrentHashMap then throws, and the dispatcher thread ends. | a response header from "peer" to "svc" with response fields and no id | log the response as unmatched and drop it | high, not executed | Dispatcher.IdlessResponseStopsDispatcher | Dispatcher.ResponseToMe |
| src/com/noqms/framework/ServiceFinderMulticast.java:73 | `Math.abs(Integer.MIN_VALUE)` is negative. The port becomes 1890 - 23648 = -21758, and the socket cannot be created. | group name "GydZG_" | a port in 1890 to 31889 (25538 here) | high, not executed | FrameworkFinder.PortAsWrittenNegative | FrameworkFinder.MulticastPort |
| src/com/noqms/finder/multicast/ServiceFinderMulticast.java:57 | The same overflow gives port 1842, outside the range 1890 to 1989 given at line 40. | group name "GydZG_" | a port in 1890 to 1989 (1938 here) | high, not executed | MulticastFinder.PortAsWrittenOutOfRange | MulticastFinder.MulticastPort |
| src/com/noqms/framework/ServiceFinderMulticast.java:108-116 | Gson returns null for the text `null`. `message.serviceName` then throws outside any try, and the heartbeat reader ends. | the multicast datagram `null` | discard it as a bad heartbeat | high, not executed | FrameworkFinder.NullHeartbeatStopsReader | FrameworkFinder.Classify |
| src/com/noqms/finder/multicast/ServiceFinderMulticast.java:95-103 | The same null dereference ends the read thread. | the multicast datagram `null` | discard it as a bad heartbeat | high, not executed | MulticastFinder.NullHeartbeatStopsReader | MulticastFinder.Classify |
