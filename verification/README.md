# Verified model of rexa's CapTP sessions and locators

rexa implements OCapN's CapTP: two nodes exchange start messages, then send each other operations
over a byte stream, export objects to each other by position, and answer each other's calls through
one-shot resolvers. Nodes are named by locators that print as `ocapn:` URIs. This project models that
behaviour in Dafny and proves what it promises, or exactly when it keeps the promise.

| file | what it models |
|---|---|
| `Wrappers.dfy`, `Messages.dfy` | result types, 64-bit keys, the operations and how a resolver reads them |
| `KeyMap.dfy` | the export table: keys from a wrapping counter, reservations, exports that export again |
| `Promise.dfy` | `Resolver`, its one-shot channel, and the answer |
| `Protocol.dfy` | two peers as a step system: many calling, replying and receiving tasks on each side |
| `History.dfy`, `Progress.dfy` | what the steps of a run asked for, against the state they lead to; what can always still be done |
| `Session.dfy` | one session object: abort flags, checked sends, the `recv_event` loop |
| `Codec.dfy`, `Wire.dfy` | frames on a byte stream: concurrent writers, the writer lock, aborts, the reader |
| `Reader.dfy` | `consume_syrup` over a buffered reader |
| `PercentCodec.dfy`, `Uri.dfy`, `Locator.dfy` | percent-encoding, URI text, node and sturdyref locators |
| `Handshake.dfy`, `Manager.dfy` | the start-session handshake and the session registry |

## Main results

* **Answers never cross** (`Protocol`). In every run of two peers, with any interleaving of calls,
  replies and receivers, a call is answered through one of its own reply handles exactly when no
  application wrote a resolver's position by hand, and then with what the other peer asked that handle
  to fulfill, unchanged (`AnswersNeverCross`). `Tame` is the caller's side of that condition: positions
  and descriptors the application supplies name the bootstrap object or stored application objects.
  Under it every answer is the call's own and no call is ever broken (`TameAnswersAreTheCallsOwn`).
  It is needed: in every reachable state a fulfillment written by hand to the position of an open
  call's resolver can be delivered and becomes that call's answer (`HandWrittenAnswers`), and a
  descriptor written by hand can have the same effect (`AnswersCanCrossByHand`). Replies always find
  their target, and serving one settles its call and no other.
* **What is sent is what was asked** (`Histories`, `Wires`). In every run the frame of a call, wherever it
  has got to, carries the target and arguments the application gave and the position of the call's own
  resolver (`CallFramesCarryTheCall`); it is sent once or, if its send failed, never
  (`EachCallIsSentOnce`). As multisets, what waits and what was written is what was sent, and what is in
  hand and what was dispatched is what was read (`BooksAgree`). In every reachable state a new call to an
  object that is there can be made, served and answered (`CallsCanBeAnswered`). On the byte stream each
  logged message is that of one `send_msg`, different ones of different calls (`LogIsWhatWasSent`).
* **Framing** (`Wires`, `Readers`). For every prefix code the wire is whole frames in lock order plus a
  part of the holder's frame, and the reader recovers a prefix of that sequence. A reader that refills
  its buffer only when it is empty, as `fill_buf` is documented, recovers a stream exactly when every
  refill boundary is a frame boundary; otherwise `consume_syrup` peeks for ever.
* **Receiving** (`Sessions`). One receive call serves the maximal run of deliveries whose positions are
  in the table when their turn comes, each handed to the object stored there; the first unknown
  position, or other reason to stop, ends it and leaves the rest of the inbox untouched.
* **Aborts** (`Wires`, `Sessions`). Once a session is aborted from either side only senders that had
  passed their checks can still write, each its one message; with one sender the op:abort frame is the
  last. An abort sets the flag whether or not its op:abort could be sent, and never ends: from any state,
  whatever is used before or after, `AbortEndsTheSession` gives all that follows.
* **Export positions** (`KeyMaps`). Positions are distinct and non-zero exactly up to 2^64 - 1
  reservations, and a stored position keeps its object, also when the export callback exports again.
  `ExportLayout` says which of the objects exported together gets which position.
* **Locators** (`Locators`). A locator survives printing and parsing, for every order of its hint map,
  if and only if its port hint is digits, designator and transport need no escaping, the transport has
  no dot, and no other hint has '&' or '=' in its key or '&' in its value. A sturdyref survives, with
  any bytes as its swiss number, exactly when its node locator does.
  A hint with '&' in it can even replace the port or the userinfo; `OverrideExactly` says when, and
  `PortCanBeOverridden` gives an instance.
* **Handshake** (`Handshakes`). Ends that finalize over honest channels agree; over any channel a
  finalized end holds a checked message. The reader is that of `Readers`. With one that refills only
  when empty, as `fill_buf` is documented, the first refill decides: the end accepts the other's start
  message if that refill holds all of it, and otherwise peeks for ever (`FirstRefillDecides`). Roles and
  sizes then settle what becomes of a pairing, whatever the order of steps (`StuckExactly`). It never
  finishes when both ends accept, when both connect and neither message fits its pipe, or, with that
  reader, when either message does not fit; every other pairing always can finish. Only a growing
  reader, which the code does not have, gets past a message larger than the pipe. So over the mock pipes one start message above 1024 bytes is enough to hang (`MockPairing`), and
  over a transport that may split a write anywhere any message longer than one byte is (`SplitWritesHang`).
* **Registry** (`Managers`). After any sequence of handshakes each entry is the latest session that was
  finalized under its designator, and rests on a message its remote key signed; failures leave no trace.

## Where the code and its documentation differ

* `GenericResolver::break_promise` sends op:deliver-only, while `Resolver` declares `break` under op:deliver.
  The model keeps both, so a break sent by a handle never reaches the remote answer.
* The methods that `impl_object` generates are unfinished stubs (`lib/rexa-proc/src/lib.rs:465-475`).
  Dispatch to a `Resolver` follows its declared attributes: the leading symbol names the method.
* Parsing does not decode the host, and queries leave '&' and '=' unescaped; hence the locator condition.
* `bootstrap_deliver` and the client's `fetch` disagree on the type of a swiss number; the model follows
  `bootstrap_deliver`, for which it is a symbol.
* `fill_buf` returns what is buffered without reading more, so `consume_syrup`, whose loop retries on an
  incomplete token, cannot complete one that arrived in parts (`RefillWhenEmptySticks`).

## Model

| member | source | states |
|---|---|---|
| `KeyMaps.KeyMap.WithInitial` | src/captp/session/keymap.rs:29-34 | a new table is empty and starts at the given key |
| `KeyMaps.KeyMap.NextKey` | src/captp/session/keymap.rs:35-38 | hands out the current key; the counter wraps at 2^64; entries are untouched |
| `KeyMaps.KeyMap.Reserve` | src/captp/session/keymap.rs:39-44 | a reservation of the current key for this table; nothing is stored yet |
| `KeyMaps.Reservation.Finalize` | src/captp/session/keymap.rs:16-19 | stores the value under the reserved key and returns it |
| `KeyMaps.KeyMap.Push` | src/captp/session/keymap.rs:46-50 | reserve and store in one call |
| `KeyMaps.KeyMap.Remove` | src/captp/session/keymap.rs:51-53 | removes exactly the key and returns what was there |
| `KeyMaps.KeysDistinctExactly` | src/captp/session/keymap.rs:35-44 | in every interleaving the keys handed out are distinct and non-zero if and only if there are fewer than 2^64 of them |
| `KeyMaps.RunFaithful` | src/captp/session/keymap.rs:10-50 | below that bound the table holds exactly what filled each reservation, abandoned ones leaving no entry |
| `KeyMaps.FinalizedForever` | src/captp/session/keymap.rs:16-19 | a finalize never overwrites, and its entry is there in every later state |
| `KeyMaps.ExportManager.constructor` | src/captp/session/internal.rs:29-37 | exports start at position 1, leaving 0 to the bootstrap object |
| `KeyMaps.ExportManager.ExportObject` | src/captp/session/internal.rs:39-46 | the object lands under the position reserved before its callback ran, after whatever the callback exported |
| `KeyMaps.ExportManager.Exported` | src/captp/object.rs:68-70 | the callback's own exports, one after another |
| `KeyMaps.ExportAppends` | src/captp/session/internal.rs:39-46 | an export that exports again fills one new position per object, overwrites nothing older, and keeps its own position |
| `KeyMaps.ExportLayout` | src/captp/session/internal.rs:39-46 | positions of one export in order: the object first, then each object its callback exports with what that one exports in turn |
| `Messages.ReadResolution` | src/captp/object.rs:112-143 | popping the symbol inverts inserting it; only "fulfill" and "break" with an argument resolve |
| `Messages.FetchExactly` | src/captp/session/internal.rs:209-246 | the operations on the bootstrap object that the source finishes: op:deliver of "fetch" and a swiss number that is a symbol |
| `Messages.GenericResolver.FulfillOp` | src/captp/session/resolver.rs:64-85 | an op:deliver to the handle's position that a resolver reads as a fulfillment with exactly the given arguments |
| `Messages.GenericResolver.BreakOp` | src/captp/session/resolver.rs:102-118 | an op:deliver-only to the handle's position whose arguments read as broken, with the given reason |
| `Promises.Oneshot.Send` | src/captp/object.rs:95-108 | delivers to a living receiver, otherwise hands the value back |
| `Promises.Resolver.New` | src/captp/object.rs:145-155 | resolver and answer share one fresh channel |
| `Promises.Resolver.Resolve` | src/captp/object.rs:104-109 | the first resolution takes the sender; any other gets its value back |
| `Promises.Resolver.Fulfill` | src/captp/object.rs:114-127 | resolves, or attempts one break on the delivery's own resolver |
| `Promises.Resolver.BreakPromise` | src/captp/object.rs:129-142 | the same with a broken result |
| `Promises.Answer.Drop` | src/captp/session/traits.rs:112-116 | the caller stops awaiting; what had been delivered stays |
| `Promises.DroppedIsNeverAnswered` | src/captp/session/traits.rs:112-116 | a call that failed to send has dropped its answer: nothing is ever delivered to it, and each resolution is refused |
| `Promises.SettledRefusesAll` | src/captp/object.rs:104-142 | a settled promise keeps its answer and refuses every later resolution, one break each |
| `Promises.FirstResolutionWins` | src/captp/object.rs:104-142 | over any sequence of deliveries the answer is the first resolution; every later one attempts exactly one break, in order |
| `Promises.Refusals` | src/captp/object.rs:104-142 | each refused resolution is answered with an op:deliver-only to its own reply position that reads as broken, "promise already resolved" |
| `Promises.ResolutionsAndRefusals` | src/captp/object.rs:104-142 | conservation: recognised deliveries = resolutions + refusals, also when the receiver is gone |
| `Protocol.RunKeeps` | src/captp/session/traits.rs:105-118 | the invariant of every reachable state: calls, table entries, handles and frames in flight agree, a frame of a call with that call in target, arguments and resolver position |
| `Protocol.AnswersNeverCross` | src/captp/session/traits.rs:105-118 | a call is answered through its own handle if and only if no position was written by hand, and then the peer fulfilled that handle with exactly the answer |
| `Protocol.TameAnswersAreTheCallsOwn` | src/captp/session/resolver.rs:64-99 | when applications only name objects shown to them every answer is the call's own and none is a break |
| `Protocol.HandWrittenAnswers` | src/captp/session/internal.rs:300-318 | in every reachable state a hand-written fulfillment to an open call's resolver has a continuation that delivers it and makes it the answer, through no handle of the call |
| `Protocol.AnswersCanCrossByHand` | src/captp/object.rs:219-233 | a ten-step run in which the reply to a fetch with a hand-written descriptor answers a call that was never sent |
| `Protocol.RepliesAnswerTheirCall` | src/captp/session/internal.rs:300-318 | serving a fulfillment sent through a call's handle settles that call with those arguments and changes no other |
| `Protocol.RepliesAlwaysFindTheirTarget` | src/captp/session/internal.rs:301-320 | no frame sent through a handle of a `deliver_and` call ends in `UnknownTarget` |
| `Protocol.NothingIsTakenBack` | src/captp/session/keymap.rs:16-60 | along a run positions, table entries and answers only accumulate |
| `Protocol.FramesArriveInOrder` | src/captp/session/internal.rs:127-133 | what a peer has read plus what is on the wire is what the other wrote, in order |
| `Histories.BooksAgree` | src/captp/session/traits.rs:91-118 | after every run calls have the targets and arguments they were begun with, positions the objects they were handed out for, and the frames waiting, written, in hand, refused and the handles made are exactly those the steps gave rise to |
| `Histories.CallFramesCarryTheCall` | src/captp/session/traits.rs:105-118 | the frame of a call, waiting, written, on the wire, read or in hand, is an op:deliver with the target and arguments the caller passed and the position of its own resolver |
| `Histories.HandedWasRead` | src/captp/session/internal.rs:300-318 | what a peer takes up for dispatch it has read, so the previous row holds of it |
| `Histories.EachCallIsSentOnce` | src/captp/session/traits.rs:113-115 | a call whose send succeeded has been sent exactly once, any other never |
| `Histories.BreaksReadAsBroken` | src/captp/session/resolver.rs:102-118 | every break sent through a handle, asked for or refusing, goes to the handle's position and reads as broken with one reason |
| `Histories.HandleSends` | src/captp/object.rs:114-142 | a dispatch sends exactly one break, on its own handle, when it resolves a settled or abandoned promise, and nothing otherwise |
| `Histories.DroppedCallsStayUnanswered` | src/captp/session/traits.rs:112-116 | after a send that failed, or a cancellation, the call's answer never changes |
| `Progress.CallsCanBeAnswered` | src/captp/session/traits.rs:105-118 | every reachable state can be continued by a new call to a fetch or an exported object that is served and answered with any arguments |
| `Progress.HandleCanAnswer` | src/captp/session/resolver.rs:64-85 | a call still open can be answered through any handle its peer holds for it |
| `Sessions.Session.constructor` | src/captp/session/internal.rs:87-107 | a new session has no exports and is not aborted |
| `Sessions.Session.SendMsg` | src/captp/session/internal.rs:110-134 | refuses with the local error first, then the remote reason; otherwise appends exactly the message |
| `Sessions.Session.LocalAbort` | src/captp/session/internal.rs:175-178 | sets the local flag and nothing else |
| `Sessions.Session.SetRemoteAbort` | src/captp/session/internal.rs:180-182 | records the reason and nothing else |
| `Sessions.Session.IsAborted` | src/captp/session/internal.rs:184-188 | true if and only if either side has aborted |
| `Sessions.Session.Abort` | src/captp/session.rs:115-122 | attempts the send, then sets the flag whether or not it succeeded |
| `Sessions.Session.RecvEvent` | src/captp/session/internal.rs:254-328 | the loop computes the recursive specification, state included |
| `Sessions.Session.Serve` | src/captp/session/internal.rs:300-318 | serving a delivery performs exactly the object's exports, checked sends and abort, and reads nothing |
| `Sessions.OneCall` | src/captp/session/internal.rs:254-328 | one call serves the maximal run of deliveries whose positions are in the table when their turn comes, each once, in inbox order, by the object stored there; it ends for the stated reason, on the first unknown target among others, with the rest untouched |
| `Sessions.EachMessageOnce` | src/captp/session.rs:140-148 | over any number of calls every message read has exactly one fate, in order: served by the object exported at its position, or the end of a call; the served list is those served |
| `Sessions.AbortedReadsAtMostOne` | src/captp/session/internal.rs:154-169 | on an aborted session a new call reads nothing, and a call already waiting at most one message |
| `Sessions.SendOutcome` | src/captp/session/internal.rs:117-133 | a send goes through if and only if neither side has aborted; which error otherwise |
| `Sessions.ReceiveOutcome` | src/captp/session/internal.rs:154-162 | a receive may read if and only if neither side has aborted; which error otherwise |
| `Sessions.AbortAborts` | src/captp/session.rs:115-122 | after an abort the local flag is set and sends and receives fail locally; the op:abort was sent if and only if the session was not aborted; all else is unchanged |
| `Sessions.ServeSends` | src/captp/session/internal.rs:300-318 | serving appends what the object sends and then its op:abort, or nothing on an aborted session, and an object that aborts leaves the session aborted |
| `Sessions.ExportedIsServed` | src/captp/session/internal.rs:39-46 | a delivery to the position an object was exported to is handed to that object |
| `Sessions.AbortIsFinal` | src/captp/session/internal.rs:117-188 | after an abort no use of the session reads, sends, serves or clears the abort |
| `Sessions.AbortEndsTheSession` | src/captp/session.rs:115-122 | from any state, any uses with an abort among them leave the outbox as it was at the abort plus at most its op:abort, nothing more read or served, and every later send and receive failing |
| `Sessions.RemoteAbortIsSticky` | src/captp/session/internal.rs:323-326 | after an abort event with a reason every receive and send fails with it, or with the local error once aborted locally |
| `Codecs.NextFrame` | src/captp/io.rs:106-117 | any prefix of a stream of frames tokenizes to its first frame, or is incomplete |
| `Codecs.ShortIsPrefixCode` | src/captp/io.rs:106-117 | a length-prefixed code meets the contract the framing results assume |
| `Wires.Framing` | src/captp/session/internal.rs:117-133 | for all interleavings and chunkings the wire is whole frames in lock order plus a part of the holder's, and the reader has a prefix of them |
| `Wires.LogIsWhatWasSent` | src/captp/session/internal.rs:127-133 | each message on the wire is the argument of one call of `send_msg`, different ones of different calls, in each task's order |
| `Wires.CompletedSendIsLogged` | src/captp/session/internal.rs:127-133 | a send that completes has its message on the wire exactly once |
| `Wires.LiveSendGoesThrough` | src/captp/session/internal.rs:117-133 | on a live session with a free lock a send can run to its end and writes its message whole |
| `Wires.RefusedSend` | src/captp/session/internal.rs:117-126 | a send that meets a flag writes nothing |
| `Wires.NothingIsLost` | src/captp/io.rs:106-137 | a reader that has pulled everything waits if and only if it has every message |
| `Wires.ReaderCatchesUp` | src/captp/io.rs:106-137 | with the lock free, a reader that pulls what is there and goes on reading gets every message |
| `Wires.OnlyInFlightAfterAbort` | src/captp/session/internal.rs:117-133 | after either flag is set each further frame is the one message of a distinct sender that had passed its checks |
| `Wires.RemoteAbortStopsSends` | src/captp/session/internal.rs:180-182 | once the remote's reason is set and no sender waits for the lock, nothing more is sent |
| `Wires.SingleSenderAbortIsLast` | src/captp/session.rs:115-122 | with one sender nothing follows its abort, and a written abort frame is the last |
| `Readers.BufReader.FillBuf` | src/captp/io.rs:54-59 | an empty buffer is refilled; a non-empty one only by a growing reader |
| `Readers.BufReader.ConsumeBytes` | src/captp/io.rs:60-63 | drops exactly that many bytes |
| `Readers.BufReader.TryConsumeSyrup` | src/captp/io.rs:100-118 | one peek; bytes are consumed only by a complete token |
| `Readers.BufReader.ConsumeSyrup` | src/captp/io.rs:120-138 | the retry loop, for a given number of peeks, computes the recursive specification |
| `Readers.ReadsNextOrNothing` | src/captp/io.rs:100-138 | a read takes exactly the next message off the stream or nothing at all |
| `Readers.RetriesWhileIncomplete` | src/captp/io.rs:120-138 | on any bytes the loop retries exactly while a peek shows part of a token, and ends with the first other peek's token or lexical error |
| `Readers.GrowingReaderReads` | src/captp/io.rs:120-138 | if every peek shows more, the loop ends within as many peeks as bytes are missing |
| `Readers.RefillWhenEmptySticks` | src/captp/io.rs:54-63 | a reader that refills only when empty never gets past part of a message |
| `Readers.RefillWhenEmptyExactly` | src/captp/io.rs:54-138 | it recovers all messages if and only if every refill boundary is a message boundary |
| `PercentCodec.DecodeEncode` | src/locator.rs:171-210 | decoding undoes encoding for every table without '%' (RFC 3986 section 2.1) |
| `PercentCodec.EncodeByteExactly` | src/locator.rs:171-210 | a byte outside the table is printed as '%' and its two upper-case digits |
| `PercentCodec.DecodeExactly` | src/locator.rs:86-102 | decoding yields what the text spells: triplets of hexadecimal digits of either case, every other byte as itself (RFC 3986 section 2.1) |
| `PercentCodec.CaseDoesNotMatter` | src/locator.rs:86-102 | upper-case and lower-case triplets decode alike |
| `PercentCodec.TablesExactly` | src/locator.rs:171-210 | which bytes each component escapes (RFC 3986 sections 3.2 to 3.4) |
| `PercentCodec.EncodeWellFormed` | src/locator.rs:171-210 | encoded text is table bytes and well-formed triplets |
| `PercentCodec.EncodeIdentityExactly` | src/locator.rs:204-210 | encoding changes nothing if and only if every byte is in the table |
| `PercentCodec.SplitEncode` | src/locator.rs:95-102 | cutting an encoded text at a byte that stands for itself is encoding the cut parts |
| `PercentCodec.JoinSplit` | src/locator.rs:95-97 | the pieces of a cut text, joined again, are the text |
| `Uris.ParsePrinted` | src/locator.rs:248-265 | a valid URI with scheme and named host is what its own text parses to (RFC 3986 section 5.3, appendix B) |
| `Uris.PrintParsed` | src/locator.rs:66-109 | what any text parses to prints as that text |
| `Uris.CharactersExactly` | src/locator.rs:248-265 | which schemes and ports are valid, in characters (RFC 3986 sections 3.1 and 3.2.3) |
| `Locators.EncodedQuery` | src/locator.rs:171-194 | the loop prints one encoding of the '&'-joined pairs, the separator exactly between pairs, and nothing for authority hints |
| `Locators.ParseNodeLocator` | src/locator.rs:66-109 | the loop computes the recursive specification, errors included |
| `Locators.LocatorExactly` | src/locator.rs:66-109 | which URIs are locators, which error each other one gets, and each hint: its last decoding in the query, else the authority's |
| `Locators.SchemeExactly` | src/locator.rs:68-72 | `UnrecognizedScheme` if and only if there is a scheme that is not the five letters of "ocapn" in either case |
| `Locators.SchemeInstances` | src/locator.rs:68-72 | "https" is refused and "OCAPN" accepted |
| `Locators.ValidUtf8Exactly` | src/locator.rs:86-102 | a decoded part is a string exactly when it encodes a sequence of scalar values (RFC 3629 section 3) |
| `Locators.PrintedText` | src/locator.rs:248-265 | the text of a locator, component by component |
| `Locators.PrintsExactly` | src/locator.rs:248-265 | a locator prints if and only if its port hint, where it has one, is decimal digits |
| `Locators.PrintedQueryDecodes` | src/locator.rs:171-194 | the query of a locator always parses, whatever its hints contain |
| `Locators.HostRoundTrip` | src/locator.rs:77-83 | the printed host is cut back into designator and transport exactly when neither needs escaping and the transport has no dot |
| `Locators.HintsRoundTrip` | src/locator.rs:85-102 | hints read back are the hints exactly when those printed in the query are clean |
| `Locators.OverrideExactly` | src/locator.rs:85-102 | port and userinfo read back unchanged unless some piece of the joined pairs, cut at '&' and '=', has that key, and then as the last such piece |
| `Locators.CleanHintsNeverOverride` | src/locator.rs:85-102 | with clean hints no printed piece has the key of the port or the userinfo |
| `Locators.PortCanBeOverridden` | src/locator.rs:95-102 | the hints "&port" = "1" and "port" = "2" read back with port "1" |
| `Locators.RoundTripExactly` | src/locator.rs:248-265 | the exact condition under which a locator survives print and parse, for every enumeration order |
| `Locators.OrderIndependent` | src/locator.rs:171-194 | for a printable locator two enumeration orders print URIs with the same meaning |
| `Locators.SturdyRoundTripExactly` | src/locator.rs:300-337 | a sturdyref survives, for every swiss number, exactly when its node locator does |
| `Locators.SturdyPathDecides` | src/locator.rs:318-337 | the prefix test applies after decoding, and the swiss number is the rest |
| `Locators.SturdyExactly` | src/locator.rs:318-337 | which URIs are sturdyrefs, and which error each other one gets |
| `Handshakes.FinalizedIsVerified` | src/captp/session/builder.rs:150-173 | on an arbitrary channel whatever was accepted is version "1.0" with a valid signature by its key over its location |
| `Handshakes.FailureIsFinal` | src/captp/session/builder.rs:150-173 | an end that has failed keeps its error and never finalizes |
| `Handshakes.ChannelErrorIsFinal` | src/captp/session/builder.rs:85-133 | an end whose channel breaks has failed with an I/O error for good |
| `Handshakes.VerifiedIsAccepted` | src/captp/session/builder.rs:150-173 | over any channel a whole version "1.0" message that verifies is accepted, the converse of `FinalizedIsVerified` |
| `Handshakes.JudgedExactly` | src/captp/session/builder.rs:150-173 | which start message is accepted, and which error each other token gets |
| `Handshakes.PeekJudges` | src/captp/session/builder.rs:150-173 | on any channel a peek leads to acceptance or to the error that what it shows gives |
| `Handshakes.PeekIs` | src/captp/io.rs:100-118 | a peek accepts the other end's message exactly when it shows all of it, and otherwise only refills |
| `Handshakes.Agreement` | src/captp/session/builder.rs:71-148 | over honest channels a finalized end holds the other's verifying key and location |
| `Handshakes.FinalizedHasSpoken` | src/captp/session/builder.rs:85-133 | an end finalizes only when all of its start message has reached the other end, its buffer or its pipe |
| `Handshakes.StepDecreases` | src/captp/session/builder.rs:85-133 | each step brings the handshake nearer its end, except a peek at part of a message by a reader that does not refill, which changes nothing |
| `Handshakes.FirstRefillDecides` | src/captp/io.rs:120-138 | with a reader that refills only when empty an end has accepted the start message after any continuation if and only if its first refill held all of it |
| `Handshakes.PeeksForEver` | src/captp/io.rs:120-138 | an end that shows only part of a message peeks again and again and nothing changes |
| `Handshakes.StuckExactly` | src/captp/session/builder.rs:85-133 | which pairings never finish, for each kind of reader: no run of them finishes and each leads to a stuck state; no run of any other is ever stuck and each leads to both ends finalized |
| `Handshakes.SplitWritesHang` | src/captp/io.rs:54-138 | where writes may be split, some run hangs if and only if both ends accept or some start message is longer than one byte |
| `Handshakes.MockPairing` | lib/rexa-netlayer-mock/src/lib.rs:125-145 | over the mock pipes two connecting ends get stuck if and only if either start message exceeds 1024 bytes |
| `Managers.SessionManager.FinalizeSession` | src/captp/session/manager.rs:43-62 | the session is registered under the remote designator; other entries are unchanged |
| `Managers.SessionManager.constructor` | src/captp/session/manager.rs:24-29 | a new manager has no sessions |
| `Managers.SessionManager.Handshakes` | src/captp/session/builder.rs:86-132 | successive handshakes on one manager register exactly the ends that finalized, from the messages they accepted, in order |
| `Managers.RegistryHoldsLatest` | src/captp/session/manager.rs:31-62 | after any handshakes each entry is the latest session finalized with that designator |
| `Managers.EntriesAreVerified` | src/captp/session/builder.rs:86-173 | over any channels each entry names the node it is filed under and comes from a finalized handshake whose version "1.0" message its remote key signed over its remote location |
| `Managers.EntriesAreThePeers` | src/captp/session/builder.rs:86-148 | over honest channels each entry holds the key and location of the node the handshake was with |
| `Managers.FailuresLeaveNoTrace` | src/captp/session/builder.rs:86-173 | a handshake whose end failed, or has not finalized, leaves the registry as if it had not been, anywhere in the sequence |

## Left out

- Syrup: tokenizing and derived encodings live in another crate; framing is proved for every prefix code, and messages elsewhere are values.
- Ed25519 and key generation: the handshake is proved for every scheme in which what is signed verifies; the signed bytes stand for the location they encode.
- fluent-uri: replaced by the grammar of RFC 3986. A port hint that is not digits counts as refused by the builder, IP literals are checked by their characters only, and a missing scheme is accepted as in the source.
- Bootstrap `deposit-gift`, `withdraw-gift` and the other branches in which the source panics: a receive call ends there as `Unfinished`, and in `Protocol` such a frame is never served. Serving a fetch is the application's.
- Operations on a `Resolver` other than "fulfill" and "break" under op:deliver: the source has no finished behaviour for them; the model leaves the promise as it is.
- `rexa-proc` code generation, tracing, diagnostics and `Display`/`Debug`: not modelled.
- TCP, Unix and Onion netlayers, socket addresses, and the swiss registry: plumbing around the modelled parts.
- The mock netlayer's name registry (`bind`, `close`, lookups in `connect`): map bookkeeping; only its pairing of two connecting ends over bounded pipes is modelled.
- Handshakes.StuckExactly: stated for readers that grow and for pipes whose writes take all that fits; `SplitWritesHang` covers the rest. A refill takes all the pipe holds, so the reader's own buffer is at least as large as the pipe (8 KiB against 1024 bytes in the mock). An end of file, and session traffic behind a start message, are not part of the handshake.
- I/O errors in the middle of a write, and cancellation of a send that holds the lock: a write that starts completes.
- `imports`, `into_remote_object` and the `answers` table: the source inserts nothing into them.
- Protocol.AnswersNeverCross: stated for runs that hand out fewer than 2^64 positions per peer, the range in which `KeyMaps.KeysDistinctExactly` makes positions distinct; frames travel whole and in order, which `Wires.Framing` establishes, and an aborted session appears as calls that fail and frames that are not sent.
- Histories.BooksAgree: within the same key space, as are the results built on it; dispatch to an application object ends with its reply handle, what the object does being its own steps.
- `deliver_and`, `and_accept` and `and_connect` as methods: they suspend between their parts, so each is modelled as the steps it takes (`BeginCall`, `Finalize`, `SendCall` and `FailCall`; `Write` and `Peek`), which other callers may interleave.
- Sessions.Session.RecvEvent: an object's handler is a function of the operations served before, the object and the operation, and runs to its end before the next message; other tasks' sends between two messages are covered in `Protocol` and `Wires`.
- Readers.BufReader.ConsumeSyrup: the loop in the source need not end, so the model bounds the number of peeks and the results hold for every bound.
- Promises.Resolver.Fulfill: the break it attempts is returned as a value; whether the session still accepts it is `Sessions.Session.SendMsg`.
