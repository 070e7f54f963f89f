# SniffIt, verified

SniffIt listens to RabbitMQ traffic.  A probe reassembles TCP streams, cuts them
into AMQP 0-9-1 frames, decodes the methods and turns each into an alert; a
control plane keeps, per tenant, a picture of queues, exchanges, consumers and
connections built from those alerts, streams the alerts to browsers and limits
the rate of API requests; an analyst component condenses alerts for a language
model and takes its answer apart again.

This project models the parts of SniffIt that carry state or parse text, and
proves what they are for:

- `ratelimit.dfy` — the sliding-window limiter: what pruning forgets never
  matters, no minute holds more than the limit, keys do not influence each other,
  and no other policy under the same limit admits more.
- `connections.dfy`, `topology.dfy`, `history.dfy`, `server.dfy` — the topology
  cache: a value-level account of one alert, the questions the cache answers asked
  of the alert history instead, and the server's mutable object graph tied to both.
- `sse.dfy` — live delivery over bounded client channels as a step protocol, and
  the server's map of channels tied to it.
- `bytes.dfy`, `frames.dfy`, `decoder.dfy`, `arguments.dfy`, `sniffer.dfy` — the byte
  pipeline, with the encodings of the AMQP 0-9-1 specification (sections 4.2.2 to 4.2.5)
  as its inverse, and byte by byte without them, over a source that delivers its bytes in
  arbitrary chunks.
- `methods.dfy`, `engine.dfy`, `dispatch.dfy`, `channel.dfy`, `consumers.dfy` — the method
  names, the rule engine, what it makes of any argument bytes, and the text channel by
  which flags, types and tags travel from it to the cache inside a human-readable message.
- `sessions.dfy`, `utf8.dfy`, `travel.dfy`, `pipeline.dfy`, `wire.dfy`, `streams.dfy` —
  the whole way, from the bytes of any captured stream through the JSON trip to the
  cache, and what the cache then says of queues, exchanges, consumers and connections,
  asked of the methods on the wire.
- `management.dfy`, `sections.dfy`, `answers.dfy`, `severity.dfy`, `placeholders.dfy` — the
  text and list algorithms with loops of their own.
- `text.dfy`, `alerts.dfy`, `wrappers.dfy` — Go's `strings` functions, the alert
  record, optional values.

Code that updates state in place is a class or a method with loops, each tied by
its `ensures` to a function on values; the theorems are lemmas about those
functions.  `dafny verify dfyconfig.toml` checks everything.

Reading notes:

- Times are integers.  The limiter's clock is a parameter that never runs
  backwards, as Go's monotonic clock does under the limiter's lock.  An alert
  without a timestamp is recorded under a clock value passed in.
- Strings hold one char per byte.  The quoting of `fmt`'s `%q` is a parameter; all
  that is assumed of it is that a quoted name stands between quotes, in valid UTF-8,
  and for names that need no escapes that it stands there unchanged.
- On their way to the control plane alerts travel as JSON, which replaces bytes that
  are not UTF-8.  Results from the bytes of a stream to the cache therefore ask that the
  names the cache uses are valid UTF-8 (`Utf8Stream`); `TripsUnchangedIff` shows that
  this is exactly what survives, and `InvalidNamesMerge` that other names can merge.
  Lemmas that begin at one finding or one method (`Observe`) are before that trip.
- A probe's clock is a function from the number of a frame to the time read while it
  is evaluated; the lemmas about recorded times assume that it never shows Go's zero
  time, which stands for an unset timestamp.
- Where a property fails, the lemma states when it holds, as an equivalence:
  `QueueDeclareSurvives`, `DeclaredQueueIsShown`, `ExchangeTypeSurvives`,
  `ExchangeDeclareSurvives`, `ConsumerTagSurvives`, `ConsumeSurvives` and
  `RewriteMeetsTheGrammar` on everything of their shape, and `SectionsAreRecovered` behind
  a preface that holds no label itself.
- Three properties one might expect do not hold of the code.  An exchange's durability
  never reaches the cache, because the engine prints ` durable` while the control plane
  looks for `durable=true` (`ExchangeDurabilityIsLost`).
  Sessions need not leave the number of connections shown as active as it was: both
  `connection.open` and `connection.open-ok` count as an open, a close with a rule of its
  own counts as none, and a full list of fifty drops entries that are still active.
  `SessionsBalance` gives the condition, evictions included, and `FullListLosesOne` an
  input on which an open and its close do not balance.  By `OneSession` a clean session
  captured in both directions adds one, and one captured in the direction of its open
  and its close alone adds none, each less the active entries it pushes out of a full
  list; by `CleanSessionsSaturate` exactly twenty-five are shown after twenty-five or
  more clean sessions in both directions, whatever happened before.
  And an acknowledgement timeout is never reported for a channel: the channel rules
  contain a branch for it (rule 4.1), but code 406 is answered by rule 3.1 before it
  (`TimeoutsAreSeenOnConnectionsOnly`); the model keeps the branch where the code has it.

## Model

| member | source | states |
|---|---|---|
| RateLimit.SlidingWindowLimiter.Allow | internal/auth/ratelimit.go:23-45 | The answer is yes exactly when fewer than `limit` admissions of this key, counted over its complete history, lie in the trailing minute; the key's history grows by the admission and no other key's changes; the stored lists are the pruned ones. |
| RateLimit.PruningIsInvisible | internal/auth/ratelimit.go:30-44 | For every cutoff a later request can use, the pruned list and the complete admission history filter to the same times. |
| RateLimit.RefusedIffWindowFull | internal/auth/ratelimit.go:38-41 | In any run a request is refused iff its key already has `limit` admissions in the request's trailing minute. |
| RateLimit.NoMinuteExceedsTheLimit | internal/auth/ratelimit.go:21-45 | With a fixed limit for a key, no window of one minute, wherever it ends, holds more admissions of that key than the limit. |
| RateLimit.StoredIsInWindow | internal/auth/ratelimit.go:30-44 | After a request the stored list holds only times inside the trailing minute. |
| RateLimit.KeysAreIndependent | internal/auth/ratelimit.go:30-44 | In any interleaving a key gets the answers, the stored list and the history it would get alone. |
| RateLimit.GreedyIsOptimal | internal/auth/ratelimit.go:27-44 | On every prefix of every run the limiter has admitted at least as many requests as any choice that keeps every minute within the limit. |
| RateLimit.GreedyIsOptimalPerKey | internal/auth/ratelimit.go:27-44 | The same for each key of a run shared by many keys. |
| Connections.CloseCommutesWithDrop | internal/controlplane/server.go:530-542 | Closing the newest open entry commutes with forgetting the oldest ones, also when the entry to close is among those forgotten. |
| Connections.BoundedListRefinesTheLog | internal/controlplane/server.go:524-542 | After any events the bounded list is exactly the newest fifty entries of the log that never evicts, status and closing times included. |
| Connections.LogFollowsBrackets | internal/controlplane/server.go:534-542 | An entry of the log is inactive iff some stretch of events after its open has more closes than opens; it then carries the time of the close that first made it so, and otherwise none. |
| Connections.ListFollowsBrackets | internal/controlplane/server.go:524-542 | Every open among the newest fifty is in the served list, with the status bracket matching gives it. |
| Topology.ReplayIsFoldSinceClear | internal/controlplane/server.go:429-442 | A tenant has a state iff it had an alert since its last clear, and the state depends on those alerts only. |
| Topology.TenantsAreIsolated | internal/controlplane/server.go:433-442 | A tenant's state after any history is the state after replaying only that tenant's events. |
| TopologyHistory.QueuesAgreeWithHistory | internal/controlplane/server.go:452-476 | A queue is shown iff it was declared under a non-empty name; first and last seen are its first and last declaration; it is active iff its latest declaration or deletion is a declaration; each flag is set iff some declaration carried its marker. |
| TopologyHistory.ExchangesAgreeWithHistory | internal/controlplane/server.go:478-502 | The same for exchanges, whose type is the latest one announced. |
| TopologyHistory.ConsumersAgreeWithHistory | internal/controlplane/server.go:504-522 | A consumer entry shows the latest registration under its key and is active iff no cancellation of that key followed. |
| TopologyHistory.ConnectionsAgreeWithHistory | internal/controlplane/server.go:524-542 | The connection list is the newest fifty entries of the log built from the same alerts without eviction. |
| TopologyHistory.CacheAgreesWithHistory | internal/controlplane/server.go:429-544 | All four for any tenant after any history of alerts and clears, and the update time is that of the tenant's latest alert. |
| TopologyHistory.RecordedWhen | internal/controlplane/server.go:444-449 | An alert is recorded under its own time, or under the clock's where that is the zero time. |
| TopologyHistory.RulesByName | internal/controlplane/server.go:451-542 | Which alerts change an entry, by the ten rule names; all others change the update time only. |
| TopologyHistory.ClearForgets | internal/controlplane/server.go:417-427 | A clear forgets its tenant and leaves every other one as it was. |
| TopologyServer.Server.UpdateTopologyFromAlert | internal/controlplane/server.go:429-447 | On the object graph: after the call the cache represents the replay of the history extended by this alert; no object is shared between tenants. |
| TopologyServer.Server.Lookup | internal/controlplane/server.go:433-442 | The tenant's state is found, or created empty, and nothing else changes. |
| TopologyServer.TopologyState.Update | internal/controlplane/server.go:444-543 | One alert changes the tenant's objects as the value-level account says. |
| TopologyServer.TopologyState.DeclareQueue | internal/controlplane/server.go:452-471 | In place: only the named queue's object changes, or one new object is added. |
| TopologyServer.TopologyState.DeclareExchange | internal/controlplane/server.go:478-497 | In place: only the named exchange's object changes, or one new object is added. |
| TopologyServer.TopologyState.RegisterConsumer | internal/controlplane/server.go:504-517 | A registration replaces the object under its key by a new one. |
| TopologyServer.TopologyState.OpenConnection | internal/controlplane/server.go:524-532 | Appending and cutting the slice to fifty. |
| TopologyServer.TopologyState.CloseConnection | internal/controlplane/server.go:534-542 | The backward loop closes, in place, exactly the newest entry still active, if there is one. |
| TopologyServer.Server.ClearTopology | internal/controlplane/server.go:417-427 | Clearing removes the tenant's state and keeps every other tenant's. |
| EventStream.DeliveryHasNoGaps | internal/controlplane/server.go:326-393 | What a client received followed by what waits in its channel is exactly its tenant's broadcasts, in order, from its registration up to now, up to the first broadcast that found its buffer of 100 full, or up to its unregistration. |
| EventStream.NoForeignAlerts | internal/controlplane/server.go:330-335 | No alert of another tenant is ever received or buffered. |
| EventStream.Flags | internal/controlplane/server.go:334-340 | A dropped or ended client is not registered, and no buffer ever holds more than 100 alerts. |
| EventStream.ServedIffKeepingUp | internal/controlplane/server.go:326-363 | A client that does not unregister stays registered through any trace iff at each of its tenant's broadcasts since its registration fewer than 100 of the earlier ones were not yet received; the unread ones are then what waits in its channel. |
| EventStream.HundredWait | internal/controlplane/server.go:334-359 | 100 alerts wait for a client that receives nothing; the next one drops it. |
| EventStream.EventHub.Broadcast | internal/controlplane/server.go:326-342 | The loop over the client map, in whatever order, amounts to one atomic broadcast step, the step ServedIffKeepingUp is about. |
| EventStream.EventHub.Register | internal/controlplane/server.go:358-363 | A new channel joins the map with an empty buffer. |
| EventStream.EventHub.Receive | internal/controlplane/server.go:387-393 | The handler receives the oldest buffered alert, or learns that the channel is closed and drained. |
| EventStream.EventHub.Unregister | internal/controlplane/server.go:365-368 | The channel leaves the map. |
| Frames.ParseEncoded | internal/amqp/parser.go:30-69 | Parsing an encoded frame of at most 1 MiB returns it and leaves exactly the bytes behind it. |
| Frames.EncodeParsed | internal/amqp/parser.go:30-69 | Every successful parse returned a valid frame and consumed exactly its encoding. |
| Frames.ParsedOnWire | internal/amqp/parser.go:30-69 | For any bytes and without the encoder: when the first frame is parsed, which one, and which error is returned otherwise, with the limit and the end byte written out. |
| Frames.FrameFromBytes | internal/amqp/frame.go:8-22 | The bytes of a frame of any type, channel and payload of at most 1,048,576 bytes, ended by 0xCE, parse to that frame, whatever follows. |
| Frames.ParseConcatenation | internal/capture/sniffer.go:252-264 | The frames of concatenated encodings are those frames, followed by the frames of whatever comes next. |
| Frames.ParseEncodedStream | internal/capture/sniffer.go:256-263 | A stream of whole frames yields exactly those and then a clean end of stream. |
| Frames.StreamIsItsFrames | internal/amqp/parser.go:30-69 | Any byte stream is the encoding of its frames followed by bytes that hold no further frame. |
| Frames.EncodingIsInjective | internal/amqp/parser.go:37-68 | Frame sequences with equal bytes are equal. |
| Frames.LoopIsBounded | internal/capture/sniffer.go:256-264 | At most one frame per eight bytes, so the loop ends on every input. |
| Frames.TruncationIsSafe | internal/amqp/parser.go:31-61 | A stream cut anywhere yields a prefix of the frames of the whole, and every frame contained completely in the part. |
| Frames.TruncatedStreamIsSafe | internal/capture/sniffer.go:230-264 | The same through the sniffing, for client and server streams, and for cuts inside the first eight bytes. |
| Frames.Reader.ReadFull | internal/amqp/parser.go:31-55 | However the source cuts its data, the bytes read are the next ones of the concatenation, all or as many as there are. |
| Frames.Parser.NextFrame | internal/amqp/parser.go:30-69 | A frame is returned iff the concatenated bytes begin with one (seven header bytes, a size of at most 1,048,576, the payload, and the byte 0xCE), which frame it is, and what is left; the error kinds and the bytes consumed depend on those bytes only. |
| Frames.SniffedOnWire | internal/capture/sniffer.go:230-249 | Byte by byte: a stream is read behind its first eight bytes iff these begin with 41 4D 51 50; fewer than eight bytes yield nothing. |
| Frames.ServerStreamsAreUntouched | internal/capture/sniffer.go:230-249 | A stream that does not begin with AMQP, of any length, yields the frames of the raw stream. |
| Frames.ClientStreamsLoseOnlyTheHeader | internal/capture/sniffer.go:230-241 | A protocol header followed by frames yields exactly those frames. |
| Frames.RawLoopDecodesNothingFromClients | internal/capture/sniffer.go:221-226 | Without the sniffing a client stream yields no frame at all, since its header reads as an oversized frame. |
| Frames.FramesAreNoClientStream | internal/capture/sniffer.go:237-246 | No stream that starts with a valid frame is taken for a client stream. |
| Sniffer.RunFrameLoop | internal/capture/sniffer.go:252-286 | The loop counts the frames up to the first error and dispatches what the engine says about the methods among them, in order, each at its own time. |
| Sniffer.Run | internal/capture/sniffer.go:215-250 | On any bytes, however cut: sniffing eight bytes and pushing them back dispatches what the engine says about the methods of the stream's own frames, and the stream is drained on every exit. |
| Sniffer.CarriedFrames | internal/capture/sniffer.go:230-249 | A client's stream of whole frames behind a protocol header, and a server's without one, yield exactly those frames. |
| Sniffer.MethodsReachTheEngine | internal/capture/sniffer.go:266-284 | A method frame anywhere in either kind of stream, among frames of any type and channel, dispatches the engine's verdict on its method between what the frames around it dispatch. |
| Sniffer.MethodsOnWire | internal/amqp/frame.go:32-44 | A frame adds a method iff its type is 1 and its payload holds four bytes, which are the class and the number, most significant byte first; the rest are the arguments. |
| Sniffer.OtherFramesAreSilent | internal/capture/sniffer.go:266-276 | A frame that is no method frame, or too short for a method, changes nothing. |
| Decoder.UnmarshalIff | internal/amqp/frame.go:32-44 | A frame unmarshals to a method iff it is a method frame carrying that method's encoding. |
| Decoder.ShortStrAt | internal/amqp/decoder.go:105-115 | A short string reads back wherever it stands, with the offset behind it. |
| Decoder.ShortStrBack | internal/amqp/decoder.go:105-115 | On arbitrary bytes, what is read as a short string stands there in its encoding. |
| Decoder.ParseShortStr | internal/amqp/decoder.go:105-115 | A successful read ends inside the buffer, behind its length byte and its text. |
| Decoder.NamedMethodsRoundTrip | internal/amqp/decoder.go:225-412 | queue.declare, queue.delete, queue.purge, exchange.declare, exchange.delete, basic.publish and basic.consume decode to the encoded fields, whatever bytes follow. |
| Decoder.CloseRoundTrip | internal/amqp/decoder.go:140-172 | connection.close and channel.close decode to the encoded fields. |
| Decoder.BasicReturnRoundTrip | internal/amqp/decoder.go:202-223 | basic.return decodes to the encoded fields. |
| Decoder.ConnectionTuneRoundTrip | internal/amqp/decoder.go:191-200 | connection.tune decodes to the encoded fields. |
| Decoder.DeliveryTagRoundTrip | internal/amqp/decoder.go:285-313 | basic.nack and basic.reject decode to the encoded 64-bit tag and bits. |
| Decoder.LeadingStringRoundTrip | internal/amqp/decoder.go:174-189 | connection.blocked and channel.flow decode to the encoded field, as does basic.cancel's tag. |
| Decoder.NamesAreThere | internal/amqp/decoder.go:225-412 | On arbitrary bytes, a ticket and one name, or two, are accepted iff the buffer holds them, and then stand there in their encoding. |
| Decoder.ClosesAreThere | internal/amqp/decoder.go:140-172 | On arbitrary bytes, a close is accepted iff code and text are there; class and method are read iff they are there too, and are 0 otherwise. |
| Decoder.ReturnsAreThere | internal/amqp/decoder.go:202-223 | On arbitrary bytes, a return is accepted iff code and all three strings are there, and then stands there in its encoding. |
| Decoder.NumbersAreThere | internal/amqp/decoder.go:174-200 | On arbitrary bytes, the 64-bit tag of a nack or reject, the numbers of a tune and a leading string are accepted iff they are there, and then stand there in their encoding. |
| Arguments.EncodedArguments | internal/amqp/decoder.go:105-122 | Two bytes and up to three texts behind their lengths are read as those, whatever follows. |
| Arguments.NamesOnWire | internal/amqp/decoder.go:225-412 | For any bytes: whether a method with a ticket and names can be read, and from which bytes each name and each flag is taken. |
| Arguments.NumbersOnWire | internal/amqp/decoder.go:174-315 | The same for the numbers of a tune, the 64-bit tag and the bits of a nack and a reject, a leading text and a flow. |
| Arguments.ClosesOnWire | internal/amqp/decoder.go:140-172 | The same for a close; class and method are 0 when the bytes behind the text are missing. |
| Arguments.ReturnsOnWire | internal/amqp/decoder.go:202-223 | The same for a returned message. |
| Engine.TimeoutsAreSeenOnConnectionsOnly | internal/rules/engine.go:455-485 | Over all methods, rule 4.1 is raised iff a connection.close reports an acknowledgement timeout; the same report on a channel.close raises rule 3.1. |
| Dispatch.BlockedConnections | internal/rules/engine.go:441-453 | For any bytes of a connection.blocked: memory is looked for before disk, in letters of either case, and anything else, unreadable reasons included, is rule 2.0. |
| Dispatch.ClosedConnections | internal/rules/engine.go:385-429 | For any bytes of a connection.close: severity, rule and name by reply code and words of the text in either case, in the order the rules take precedence. |
| Dispatch.ConnectionSteps | internal/rules/engine.go:66-106 | What the other methods of the class dispatch; a tune is a warning iff its heartbeat is there and above 60. |
| Dispatch.ClosedChannels | internal/rules/engine.go:455-504 | For any bytes of a channel.close: what is dispatched by reply code; the text never matters. |
| Dispatch.ChannelSteps | internal/rules/engine.go:108-132 | What the other methods of the class dispatch; a flow is an error iff its byte is 0. |
| Dispatch.DeclaredExchanges | internal/rules/engine.go:139-152 | For any bytes of an exchange.declare: the entity and the message the cache reads, with the flags that are printed. |
| Dispatch.ExchangeSteps | internal/rules/engine.go:154-171 | What the other methods of the class dispatch; a deletion names its exchange iff the name can be read. |
| Dispatch.DeclaredQueues | internal/rules/engine.go:177-189 | For any bytes of a queue.declare: the entity and the message the cache reads, passive or not. |
| Dispatch.QueueSteps | internal/rules/engine.go:191-219 | What the other methods of the class dispatch; a purge and a deletion name their queue iff the name can be read. |
| Dispatch.RegisteredConsumers | internal/rules/engine.go:228-238 | For any bytes of a basic.consume: the entity and the message the cache reads. |
| Dispatch.ConsumerSteps | internal/rules/engine.go:225-249 | What qos, consume-ok and cancel dispatch; a cancellation names its tag iff it can be read. |
| Dispatch.PublishedMessages | internal/rules/engine.go:251-275 | For any bytes of a basic.publish or basic.return: exchange and key as the entity; a return is unroutable iff its code is 312 or 313, and an error iff it cannot be read. |
| Dispatch.RefusedMessages | internal/rules/engine.go:277-303 | A reject or nack is a warning, whatever its bytes. |
| Dispatch.TransactionSteps | internal/rules/engine.go:317-326 | What the methods of transactions dispatch. |
| Dispatch.SilentIff | internal/rules/engine.go:60-331 | Nothing is dispatched exactly for the classes and numbers not listed, whatever the arguments. |
| Dispatch.ErrorsAre | internal/rules/engine.go:60-331 | Over all methods and bytes, an error is dispatched exactly for a close whose code is at least 500 or, by class, one of the named codes and words, for a stopped flow and for a return that cannot be read. |
| Dispatch.StreamErrors | internal/capture/sniffer.go:252-286 | For any bytes of a stream, an error is dispatched iff one of its frames is of type 1 and holds such a method. |
| Dispatch.SeveritiesAreRanked | internal/ai/agent.go:426-434 | The alert of a finding is chosen among the first iff it is an error, among the second iff it is a warning. |
| TextChannel.QueueFlagsRead | internal/rules/engine.go:177-188 | For every name, the cache reads each flag of a declaration as declared, or as set when the quoted name itself contains the marker; a passive declaration sets none of its own. |
| TextChannel.QueueDeclareSurvives | internal/controlplane/server.go:452-471 | From the bytes of a non-passive queue.declare to any state that does not show the queue: exactly one queue is added, with exactly the declared flags iff the quoted name contains no marker of an unset flag. |
| TextChannel.MarkerInTheNameMisleads | internal/controlplane/server.go:462-464 | A transient queue named like the marker is shown as durable. |
| TextChannel.ExchangeTypeSurvives | internal/controlplane/server.go:486-492 | For every name: which type the cache reads, if any. It is the declared one iff that is not empty and is what the quoted name says behind its first "type=", up to a blank, comma or full stop; without such words in the name, iff it is free of blanks, commas and full stops. |
| TextChannel.ExchangeDurabilityIsLost | internal/rules/engine.go:144-152 | The recorded durability does not depend on the declared one; with markers aside it is right iff the exchange is transient. |
| TextChannel.ExchangeDeclareSurvives | internal/controlplane/server.go:478-497 | From the bytes of an exchange.declare to any state that does not show the exchange, for every name and type: what is shown, and that it is what was declared iff the type can be read back and the durable marker stands in name or type exactly when durable was declared. |
| TextChannel.DeletionsDeactivate | internal/rules/engine.go:210-216 | From the bytes of a queue.delete or exchange.delete to any cache: the entry of that name becomes inactive, if there is one, and no other changes. |
| ConsumerChannel.KeyIsTheTag | internal/controlplane/server.go:504-509 | For any message and entity: the key is the text behind the first "tag=" up to a comma or the end, without blanks and then quotes around it, and a name made of the entity where that is empty. |
| ConsumerChannel.ConsumerTagSurvives | internal/controlplane/server.go:504-509 | For every queue and tag: the key is the text behind the first "tag=" of the quoted queue, or else the quoted tag, up to a comma, without blanks and quotes. With names that need no escapes and no "tag=" in the queue's, it is the tag iff the tag has no comma. |
| ConsumerChannel.ConsumerExclusivityRead | internal/controlplane/server.go:510-510 | Exclusivity is read as declared, or as set when a quoted name contains the marker. |
| ConsumerChannel.ConsumeSurvives | internal/rules/engine.go:228-238 | From the bytes of a basic.consume to any cache, for every queue and tag: one consumer is recorded under the key read; it is the decoded one under its own tag iff that key is the tag and no name holds the exclusive marker of a consumer that is not exclusive. |
| ConsumerChannel.CancelDeactivates | internal/controlplane/server.go:519-522 | A later basic.cancel for that tag deactivates that consumer and changes no other entry. |
| ConsumerChannel.CancelledStaysInactive | internal/controlplane/server.go:504-522 | A cancelled consumer stays inactive through any alerts until a registration is recorded under its key. |
| ConsumerChannel.ConfirmationsShareOneKey | internal/rules/engine.go:230-241 | Every consume-ok and every unparseable basic.consume is filed under one and the same key, replacing its predecessor. |
| Sessions.BaseOfMethodName | internal/amqp/methods.go:6-144 | For every class and method number, the name is its own base, so the source shown for a connection is the name of the method that opened it. |
| Sessions.BaseIs | internal/controlplane/server.go:526-526 | For every path: the base is the word before its trailing slashes, "/" for slashes only, "." for nothing. |
| Sessions.WhatCounts | internal/rules/engine.go:67-104 | Of all methods, open and open-ok count as opens under their own names, a close counts as one iff it has no rule of its own or cannot be parsed, and nothing else counts. |
| Connections.ActiveAfter | internal/controlplane/server.go:534-542 | In the log that never evicts, and from any entry on: further events leave their opens minus their closes active, on top of what was active or of what they closed in vain. |
| Connections.ServedAfter | internal/controlplane/server.go:524-542 | In the served list of fifty, after any events and for any further ones: the recent among them, those that open at most fifty, leave their opens minus their closes active, on top of what was active among the entries they leave in the list or of what they closed in vain. |
| Connections.FullListLosesOne | internal/controlplane/server.go:530-542 | An input on which the served number changes though opens and closes balance: fifty open entries, one open, one close. |
| Connections.DeficitIsLargest | internal/controlplane/server.go:534-542 | What is closed in vain is measured by the largest surplus of closes over opens in any prefix. |
| Sessions.SessionsBalance | internal/controlplane/server.go:524-542 | After any events, any methods leave the served number of active connections as it was iff their recent closes that count and the active entries pushed out of the list equal their recent opens that count and their closes in vain; nothing is pushed out of a list with room, nothing is closed in vain when no prefix closes more than it opens, and all methods are recent unless more than fifty opens count. |
| Sessions.OneSession | internal/rules/engine.go:79-93 | In the served list, after any events, one session captured in both directions adds one active entry, or two when its close has a rule of its own, less the active entries it pushes out; in the direction of its open and close alone, none, or one, less those. |
| Sessions.CleanSessionsSaturate | internal/controlplane/server.go:524-542 | Clean sessions captured in both directions add one active entry each, less what they push out; after twenty-five or more of them exactly twenty-five are shown as active, whatever happened before. |
| Utf8.TripsUnchangedIff | internal/alerting/dispatcher.go:65-65 | A text survives its trip as JSON iff it is valid UTF-8, and any text survives a second trip. |
| Utf8.ValidIff | internal/alerting/dispatcher.go:65-65 | The texts that survive are exactly the encodings (section 3 of RFC 3629) of sequences of Unicode scalar values. |
| Utf8.TripByCharacters | internal/alerting/dispatcher.go:65-65 | A character arrives as it was; a byte at which none starts is replaced by U+FFFD. |
| Travel.NamesTravel | internal/alerting/dispatcher.go:40-76 | When the names a method gives to the cache are valid UTF-8, its alert has the same effect on any state after the trip as before. |
| Travel.InvalidNamesMerge | internal/controlplane/server.go:452-471 | Two queues whose names differ in a byte outside UTF-8 are shown as one. |
| Pipeline.StreamsCarryTheMethods | internal/capture/sniffer.go:215-286 | For any bytes whose names are valid UTF-8 and any earlier history, posting what the probe dispatches changes the tenant's state as the methods in the stream do, in order and at their own times, and changes no other tenant's. |
| Pipeline.RequestsLeaveTheCache | internal/rules/engine.go:366-377 | What is found in requests to the management API never changes an entry of the cache. |
| WireHistory.QueuesAgreeWithTheWire | internal/controlplane/server.go:452-476 | After any methods a queue is shown iff one of them declared it; first and last seen, activity and each flag are given by the declarations and deletions on the wire. |
| WireHistory.ExchangesAgreeWithTheWire | internal/controlplane/server.go:478-502 | The same for exchanges; the type is the latest one read from a declaration, durable is set iff a name or type of some declaration reads so. |
| WireHistory.ConsumersAgreeWithTheWire | internal/controlplane/server.go:504-522 | A consumer entry is the latest registration under its key on the wire, confirmations and unparseable ones included, and active iff no cancellation of that key followed. |
| WireHistory.ConnectionsAgreeWithTheWire | internal/controlplane/server.go:524-542 | After any methods the connection list is the newest fifty entries of the log their opens and closes amount to. |
| Streams.StreamIsShown | internal/controlplane/server.go:429-544 | All four, from the bytes of any stream whose names are valid UTF-8 to the state of a tenant that had none. |
| Streams.DeclaredQueueIsShown | internal/controlplane/server.go:452-471 | A non-passive declaration anywhere in a client's or a server's stream whose names are valid UTF-8, among frames of any type and channel whose other methods do not concern that queue, is shown after any earlier history exactly as declared and at its own time, iff no marker of an unset flag stands in the quoted name. |
| Management.EvaluateHTTPRequest | internal/rules/engine.go:348-381 | For every HTTP method and path, which finding is made and about which segment, or none, asked of the segments of the path; the replacement loop ends after exactly as many rounds as halve the longest run of slashes down to one. |
| Management.WhatIsReported | internal/rules/engine.go:348-381 | The same for the verdict on the normalised path: rule 5.3 iff PUT or POST and the segments api and queues stand side by side, behind a slash and with a segment after them; else 5.4 iff POST, api and exchanges stand so, and the last segment is publish; none otherwise, so none for any other HTTP method. |
| Management.HalvingHalves | internal/rules/engine.go:351-353 | One replacement halves every run of slashes, rounding up. |
| Management.NormalIsJoinedSegments | internal/rules/engine.go:350-354 | The normalised path is the non-empty segments of the path, joined by single slashes, with the leading slash kept. |
| Management.SlashesDoNotMatter | internal/rules/engine.go:350-378 | Paths that differ only in repeated or trailing slashes get the same verdict and entity. |
| Management.QueueCreationReportsTheName | internal/rules/engine.go:356-366 | PUT or POST below /api/queues/ reports the last segment, with or without a virtual host before it. |
| Management.PublicationReportsTheExchange | internal/rules/engine.go:368-378 | POST to .../publish below /api/exchanges/ reports the segment before the last, with or without a virtual host before it, unless the path also contains /api/queues/, whose rule goes first. |
| Management.DefaultVhostQueue | internal/rules/engine.go:349-366 | Under the default virtual host, an empty segment, every queue name is still reported. |
| Sections.ExtractSection | internal/ai/agent.go:464-480 | For every text, start marker and list of stop markers: the text between the first start marker and the earliest stop marker behind it, or the end if none follows, trimmed; "" if the start marker is missing. |
| Sections.OneSection | internal/ai/agent.go:464-480 | There is one such section only, and it is not blank iff the start marker is there and something other than blanks stands between the markers. |
| Sections.ParseAnalysis | internal/ai/agent.go:153-162 | For every response each field is the section of its label, the whole response standing for the first if the first two are blank. Given an answer in the requested form, behind a label-free preface and with no body holding a label that ends its section, the result is the trimmed bodies. |
| Sections.NoStraddle | internal/ai/agent.go:464-480 | No label is found across the boundary between a body and a printed label. |
| Sections.SectionsAreRecovered | internal/ai/agent.go:464-480 | Behind a label-free preface the four trimmed bodies come back iff none holds a label that ends its section and the first two are not both blank. |
| Answers.SectionOfParts | internal/ai/agent.go:464-480 | In an answer made of labelled parts, labels missing, repeated or in any order: a section is the trimmed text from the first part of its label up to the next part with a stop label, or the end. |
| Answers.MissingLabels | internal/ai/agent.go:153-162 | An answer in which any of the labels are missing, the others in order, gives the bodies under those that are there, up to the end of the answer for the last. |
| Severity.FilterSignificant | internal/ai/agent.go:424-446 | The result is the first maxCount alerts of the order by severity. |
| Severity.BySeverityIsAStableSort | internal/ai/agent.go:426-437 | That order is a sorted permutation that keeps the order within each severity. |
| Severity.StableSortIsUnique | internal/ai/agent.go:426-437 | It is the only such order. |
| Severity.NothingImportantIsOmitted | internal/ai/agent.go:436-445 | No alert left out outranks one shown: with an error left out only errors are shown, with a warning left out only errors and warnings; and none is lost or repeated. |
| Placeholders.ReplacePlaceholders | internal/store/store.go:176-191 | The nested loops compute the recursive rewriting. |
| Placeholders.RewriteMeetsTheGrammar | internal/store/store.go:175-191 | For dollar-free literals separated by numbered placeholders, the output is the literals separated by question marks iff no literal after a placeholder starts with a digit. |
| Placeholders.DollarsBecomeQuestionMarks | internal/store/store.go:179-188 | For every input no dollar sign is left, and the question marks grow by exactly the number of dollar signs. |
| Placeholders.RewriteIsIdempotent | internal/store/store.go:176-191 | Rewriting a rewritten text changes nothing. |

## Left out

- Packet capture, TCP reassembly, HTTP parsing, the dispatcher and its JSON, the language model calls, SQL, migrations, the Kubernetes webhook, TLS and the user interface: libraries and I/O.
- Authentication middleware, key hashing and handler wiring: thin code over such libraries.
- GenerateHealthSummary and heuristicHealth: a count and a clamped linear score.
- EvaluateHTTPResponse: a threshold on the status code.
- Engine.EvaluateMethod: the message text is modelled for queue.declare, exchange.declare, basic.consume and their confirmations only; no code reads the other texts back, those of findings in management requests included.
- Failing requests of the dispatcher and failing inserts of the store: each finding is taken to be posted once, in order, and to reach the cache; a stream's loop waits for each post before it goes on.
- The escapes of `%q`: quoting is a parameter; where a name needs escapes, the results speak of the quoted name.
- Unicode beyond bytes: TrimSpace knows the ASCII white space and ToLower the ASCII letters; a char stands for a byte.
- Concurrency inside a broadcast: the client map is changed under a read lock in the source, and concurrent broadcasts may interleave between clients; here a broadcast is one atomic step.
- The second close of a dropped client's channel by the handler's deferred function: delivery is modelled up to the drop, and unregistering afterwards only removes the channel from the map.
- Reads of a tenant's state outside the lock by the topology handler: its snapshot is not modelled.
- skipTable and parseLongUint: nothing uses them.
- Partially filled results that some decoders return next to an error: every caller ignores them, so an error is None here.
- Size limits of Go's int, and time values outside a range of integers.
