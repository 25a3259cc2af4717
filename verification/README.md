# The HomeKit accessory core over Bluetooth LE, verified

This project models the part of the HomeKit Accessory Development Kit that talks to controllers over Bluetooth LE, and
the arithmetic and lifecycles beside it, and proves what they are for. To verify it with Dafny 4.11:

    dafny verify dfyconfig.toml

Code that the accessory runs step by step is a class or a method with loops over arrays here, proved against functions
on values; what the code promises is then proved about those functions, for every input, every reachable state or every
run.

## How it is organized

**Packets and transactions.** `Pdu` is the packet format with its two parsers and its serializer. `TransactionModel` is
the five-state machine that reassembles a request and fragments a response, `BleTransaction` the class that does it on a
buffer. `Fragmentation` proves that both directions are lossless for every split and every sequence of capacities, and
that reading ends.

**Procedures.** `ProcedureModel` and `BleProcedure` put transactions together: a Timed Write stays in the scratch buffer
across transactions until it is executed, and a body is parsed in place where it lies. `TimedWrites` proves over every
run that exactly the deferred body is executed, at most once and within the time to live that it states, and that
nothing touches it in between; `TimedWriteCompletion` for which bodies, however they are split, the exchange succeeds;
`TimedWriteConnections` both over whole connections. `ProcedureAnswers` says, over characteristic, session and request
alone, what every request is answered and who may read and write, and `ProcedureExchanges` what a controller reassembles
from the packets of a whole exchange. `ManagerModel`, `PeripheralManager` and `Fallbacks` are the attachment of the one
full procedure and the fallback procedures that answer for all other characteristics; a fallback is shown to accept,
count and wait exactly as a full transaction would, although it is written independently.

**Advertising.** `GlobalStateNumber` is the cyclic number and the key's expiration, `AdvertisingModel` and
`AdvertisingServer` the state machine of connections, events, broadcasts and timers, `AdvertisingRuns` its theorems over
runs with restarts, updates and failing stores: no assertion fails, the number advances once per period, and no key ever
seals two contents under one number, nor more than 32766 in all. `AdvertisingEvents` says what every event does, and
what is in the air over every run.

**Memory.** `RawBuffer` is the overlap-safe copy. `BroadcastTable` and `BroadcastStore` are the sorted byte array that
behaves as a finite map. `TlvFormat`, `TlvReader` and `TlvWriter` are the fragmented items, merged and produced inside
the buffer they are in. `WriteFields` says what a write request means, `WriteRequest` parses it and slides its value and
authorization data to their new places. `ValueFormats` are the formats of values, and `Utf8` the validation of texts by
bit patterns, which is shown to accept exactly the encodings of Unicode scalar values.

**Arithmetic.** `Base36` is the exact division by shifts, `SetupCode` and `SetupPayload` the code and the payload that
carries it, `ConfigurationNumber` the 32-bit number and the two that are derived from it, `ServiceIndex` the numbering
of services.

**Lifecycles.** `SetupInfoModel`, `SetupInfo` and `SetupInfoRuns` are the setup code from drawing to discarding,
`SessionModel` and `BleSession` the timers of a session and its disconnection. `SetupInfoEvents` and `SessionEvents` say
what every event does to them.

## Where the code and its promises differ

The model follows the code. Each of these is a theorem, with the exact condition under which the promise holds.

- A write request's value and authorization data are moved to where the request ends, because the reader has advanced
  past every item by then (`HAP/HAPTLVReader.c:116-119`). The comment promises free space and intact terminators; that
  holds if and only if both texts fit behind the request (`WriteRequest.RelocatesIff`). `WriteRequest.CrampedWindow` is
  a request of nine bytes for which it does not, `TimedWriteCompletion.CrampedRun` what the procedure makes of such
  requests, and a buffer of twice the request's length is always enough (`WriteFields.HalfFreeSuffices`).
- A payload with a setup code must not be made for a paired accessory (`HAP/HAPAccessorySetupInfo.c:122`). Between the
  message that adds the pairing and the one that ends the attempt the code is still there, so leaving NFC pairing mode
  in that time reaches the assertion, on accessories that also have a display (`SetupInfoRuns.AssertionsHoldIff`).
- A session is documented to count as terminal soon, so that no transaction is started shortly before the timeout, and
  the code means to do that for 200 ms (`HAP/HAPBLESession.c:162`). The difference is taken the other way round, so that
  it does so only from the deadline on (`SessionModel.TerminalSoonIff`).
- A terminal connection goes down by itself unless the safety timer cannot be registered again
  (`SessionModel.GoingDownFailsIff`, and `SessionModel.StrandingRun` as an instance).
- With a Timed Write pending the transaction has no buffer, and a first fragment with an explicit body length of 0
  reaches the assertion at `HAP/HAPBLETransaction.c:43` (`TransactionModel.WriteAbortsIff`, `TimedWrites.AbortsIff`, and
  `TimedWriteCompletion.EmptyBodyRun` as the run).
- Broadcast parameters are purged when no administrator is left (`HAP/HAPAccessoryServer.c:1029-1040`), which over the
  other transport can happen during a broadcast; the broadcast is then without a key, which is fatal
  (`AdvertisingRuns.PurgeLosesKeyIff`, and `AdvertisingRuns.BroadcastRun` as a run). Restoring factory settings while
  the event timer runs leaves the timer running without an incremented number, which the next event asserts not to be so
  (`AdvertisingRuns.ResetIsConsistentIff`).
- The configuration number is refused when its stored value is too short, but incremented without looking at the length
  (`ConfigurationNumber.Store.IncrementCN`).
- An explicitly empty response body needs five bytes, although the test before it asks for three
  (`Fragmentation.ReadSucceedsIff`).
- The comment on the broadcast configurations speaks of 42 entries; the 42nd is refused (`BroadcastStore.Store.Enable`).
- While a request is being handled, late fragments are compared with the request's opcode, which lies where the
  response's transaction identifier will be (`HAP/HAPBLETransaction.c:113-132`). `LateTid` models the overlay; that
  state is entered and left within one read.

## Model

| member | source | states |
|---|---|---|
| RawBuffer.CopyBytes | PAL/HAPBase+RawBuffer.c:20-36 | a copy inside one buffer is a move even when source and destination overlap: afterwards the destination holds the bytes that the source held before, and every other byte is unchanged |
| RawBuffer.ZeroBytes | PAL/HAPBase+RawBuffer.c:10-18 | exactly the given range becomes zero |
| Pdu.ControlFieldRoundTrip | HAP/HAPBLEPDU.c:257-307 | the control field is accepted exactly for the four combinations of fragment status and type that the serializer can produce |
| Pdu.FirstFragmentCodec | HAP/HAPBLEPDU.c:310-401 | the parser of first fragments accepts a byte string with a result if and only if it is the encoding of that well-formed request or response; an absent body and a body of declared length 0 stay different |
| Pdu.ContinuationCodec | HAP/HAPBLEPDU.c:404-475 | given the running totals, the continuation parser accepts exactly the encodings of continuations of the expected type that fit into the missing part of the body |
| Pdu.EncodeInjective | HAP/HAPBLEPDU.c:587-690 | no two different PDUs, first fragments or continuations, have the same encoding |
| Pdu.PacketBytes | HAP/HAPBLEPDU.c:587-690 | the bytes on the wire: control field, opcode, identifier, little-endian instance ID and length, and the fragment |
| Pdu.RejectionsAreInvalidData | HAP/HAPBLEPDU.c:310-475 | whatever is not accepted is rejected as invalid data |
| Pdu.Deserialize | HAP/HAPBLEPDU.c:310-401 | the pointer-moving parser computes the function that FirstFragmentCodec characterizes, for every byte string |
| Pdu.DeserializeContinuation | HAP/HAPBLEPDU.c:404-475 | the pointer-moving parser computes the function that ContinuationCodec characterizes |
| Pdu.Serialize | HAP/HAPBLEPDU.c:587-690 | succeeds exactly when the encoding fits, leaves the encoding at the start of the buffer and nothing behind it changed; when it fails, nothing behind the capacity is changed |
| TransactionModel.WriteKeepsValid | HAP/HAPBLETransaction.c:51-141 | no write, accepted or not, takes a transaction out of its consistent states; a late write changes nothing |
| TransactionModel.WriteAbortsIff | HAP/HAPBLETransaction.c:36-47 | the assertion on the missing buffer is reached exactly by a first fragment with an explicit body length of 0, in a transaction without a buffer |
| TransactionModel.WriteSucceedsIff | HAP/HAPBLETransaction.c:51-141 | in each of the five states, the packets that are accepted: first fragments, continuations with the identifier of the request that fit into what is missing, and late empty ones; the error of any other |
| TransactionModel.ReadKeepsValid | HAP/HAPBLETransaction.c:211-314 | no read takes a transaction out of its consistent states, and no packet is longer than its capacity |
| BleTransaction.Transaction.HandleWrite | HAP/HAPBLETransaction.c:51-141 | on the buffer itself: the new state and the new buffer contents are those of the specified write, in each of the five states, with the opcode byte standing in for the transaction identifier while a request is handled |
| BleTransaction.Transaction.TryAppendBodyFragment | HAP/HAPBLETransaction.c:29-48 | a fragment is stored at the offset only if the whole body fits, is counted in any case, and a missing buffer is noticed only if a fragment is present |
| BleTransaction.Transaction.GetRequest | HAP/HAPBLETransaction.c:152-176 | the request is handed over once, and refused if its body was too large for the buffer |
| BleTransaction.Transaction.SetResponse | HAP/HAPBLETransaction.c:178-208 | the response takes the place of the request and keeps its transaction identifier |
| BleTransaction.Transaction.HandleRead | HAP/HAPBLETransaction.c:211-314 | on the buffer itself: packet, final flag and new state are those of the specified read; the body is not changed |
| Fragmentation.RequestIsReassembled | HAP/HAPBLETransaction.c:29-149 | after any accepted sequence of writes the buffer starts with exactly the concatenation of the fragments if the declared length fits, and is untouched if it does not; the request is available exactly when the declared length has arrived (section 7.3.3.5 of HAP Specification R14) |
| Fragmentation.EverySplitIsAccepted | HAP/HAPBLETransaction.c:58-112 | every split of every body into fragments, empty ones included, is accepted if and only if there is a buffer or the declared length is not 0 |
| Fragmentation.ReadSucceedsIff | HAP/HAPBLETransaction.c:211-314 | a read succeeds exactly when the headers of its packet fit; for an empty body that was set explicitly that takes two bytes more than the source's own header test asks for |
| Fragmentation.ResponseIsReassembled | HAP/HAPBLETransaction.c:211-306 | for every body and every sequence of capacities, a controller that parses the packets gets exactly the body up to the offset, and the final flag is set exactly on completion |
| Fragmentation.ReadFailsHow | HAP/HAPBLETransaction.c:211-314 | the three ways in which a read fails, and when; it sends nothing then |
| Fragmentation.ContinuationMakesProgress | HAP/HAPBLETransaction.c:262-306 | a continuation with room for more than its header strictly shortens what is left, and is filled up unless it is the last |
| Fragmentation.ResponseTerminates | HAP/HAPBLETransaction.c:211-314 | with room for a body byte in every packet, some read among the first length + 1 ones is final |
| Fragmentation.ResponseAnswersRequest | HAP/HAPBLETransaction.c:152-306 | from the first write to the last read: the response that the controller reassembles has the identifier from the first fragment of its request, the status that was set and the body that was set |
| ProcedureModel.PrepareKeepsValid | HAP/HAPBLEProcedure.c:170-1059 | processing a request keeps every offset inside the scratch buffer |
| TimedWrites.NextKeepsValid | HAP/HAPBLEProcedure.c:1062-1328 | every event, from any consistent state, keeps all offsets and lengths inside the scratch buffer |
| TimedWrites.EveryRunIsGood | HAP/HAPBLEProcedure.c:1062-1328 | over every run: the transaction owns the scratch buffer exactly when no Timed Write is pending; a pending body is still what was sent; a procedure without its timer is pristine |
| TimedWrites.ExecutedBodyIsTheDeferredOne | HAP/HAPBLEProcedure.c:683-750 | over every run: an executed Timed Write hands over exactly the reassembled body of the last deferred one, and at most once (section 7.3.5.4 of HAP Specification R14) |
| TimedWrites.WrittenBodyIsTheSentOne | HAP/HAPBLEProcedure.c:751-937 | over every run: a plain write hands over exactly the body of its own request, and the fields that it parses to |
| TimedWrites.PendingBodyIsUntouched | HAP/HAPBLEProcedure.c:1204-1222 | while a Timed Write is pending the procedure timer runs, and no write, response or handler changes the scratch buffer until the Timed Write is consumed |
| TimedWrites.ExpiredIff | HAP/HAPBLECharacteristicParseAndWriteValue.c:258-269 | the guarded unsigned subtraction means: later than start time plus time to live |
| TimedWrites.HandedInTime | HAP/HAPBLECharacteristicParseAndWriteValue.c:257-277 | over every run: a Timed Write that reaches the application parses to the fields that are handed over, its value is not longer than 64000 bytes and has the format of the characteristic, and it is handed over not later than the time it was deferred plus the non-zero time to live in its own bytes |
| TimedWrites.AbortsIff | HAP/HAPBLEProcedure.c:683-758 | in a live session a procedure aborts in exactly two situations: an explicitly empty body starts the request after a Timed Write, or the texts of a write, plain or executed, do not fit behind its body in the scratch buffer |
| TimedWrites.TransientSessionsHaveNothingPending | HAP/HAPBLEProcedure.c:725-750 | over every run: a Timed Write is never pending over a transient session, since only reading a pairing characteristic makes a session transient and a request for one drops the session, so the assertion on that cannot fail |
| TimedWriteCompletion.SplitIsDeferred | HAP/HAPBLEProcedure.c:683-724 | however the body is split into fragments: after the answer to the Timed Write the whole body is in the scratch buffer and recorded, pending since that moment, and the next transaction has no buffer |
| TimedWriteCompletion.TimedWriteCompletesIff | HAP/HAPBLEProcedure.c:683-758 | for every body, every split and every buffer it fits into, secured or not: the exchange defers the body, and hands its fields to the application if and only if the characteristic may be written, the body parses, its texts have room, its value is not longer than 64000 bytes, has the format of the characteristic and keeps its constraints, and it states a time to live that is not over |
| TimedWriteCompletion.EncodedFieldsArrive | HAP/HAPBLECharacteristicParseAndWriteValue.c:219-592 | whatever fields with a time to live a controller encodes and splits, the application gets exactly these fields if the value is not longer than 64000 bytes, has the format of the characteristic and keeps its constraints, the body takes up at most half of the buffer, and it is executed in time |
| TimedWriteCompletion.EmptyBodyRun | HAP/HAPBLETransaction.c:36-47 | a run for the first situation of AbortsIff: after any Timed Write, in any split, a first fragment with an explicitly empty body aborts |
| TimedWriteCompletion.CrampedRun | HAP/HAPBLECharacteristicParseAndWriteValue.c:161-216 | runs for the second situation: any body, in any split, whose texts do not fit behind it |
| TimedWriteCompletion.SmallRun | HAP/HAPBLECharacteristicParseAndWriteValue.c:161-216 | an instance: nine bytes in a buffer of eleven |
| TimedWriteConnections.EveryHistoryIsGood | HAP/HAPBLEPeripheralManager.c:678-1437 | over every connection, with attachment to ever other characteristics, takeover by pairing, fallbacks and timeouts: the invariant of the runs of a procedure holds, and everything recorded is justified |
| TimedWriteConnections.ConnectionHandsOverInTime | HAP/HAPBLEPeripheralManager.c:678-1437 | over every connection: what an Execute Write hands over is the Timed Write sent last, to the same characteristic, byte for byte, in its format, at most once, and within its own time to live |
| TimedWriteConnections.PendingBodyOutlastsOthers | HAP/HAPBLEPeripheralManager.c:678-1437 | over every connection: as long as a Timed Write stays pending, no event for any characteristic changes its bytes or its start |
| TimedWriteConnections.ConnectionAbortsIff | HAP/HAPBLEPeripheralManager.c:678-1437 | over every connection: a request aborts if and only if it is for the attached characteristic and meets one of the two situations there |
| BleProcedure.Procedure.Attach | HAP/HAPBLEProcedure.c:14-44 | attaching forgets everything but the session |
| BleProcedure.Procedure.ProcedureTimerExpired | HAP/HAPBLEProcedure.c:78-110 | the timeout makes the session terminal and resets the procedure |
| BleProcedure.Procedure.StartProcedure | HAP/HAPBLEProcedure.c:1084-1150 | the first write of a procedure starts its timer or is refused, and drops the security session on a pairing characteristic |
| BleProcedure.Procedure.HandleGATTWrite | HAP/HAPBLEProcedure.c:1062-1189 | status, state and scratch buffer after a GATT write are those of the specification that the theorems on runs are about |
| BleProcedure.Procedure.ProcessTransaction | HAP/HAPBLEProcedure.c:170-1059 | the dispatch over all opcodes leaves state, buffer and handed-over bodies as specified |
| BleProcedure.Procedure.ParseBody | HAP/HAPBLECharacteristicParseAndWriteValue.c:36-217 | parsing a body in place in the scratch buffer gives the fields of the body as it was sent, read from where their texts were moved |
| BleProcedure.Procedure.ExecuteWrite | HAP/HAPBLEProcedure.c:725-750 | consumes the pending Timed Write: its body is parsed in place and handed over as specified, and the pending mark is gone whatever the outcome |
| BleProcedure.Procedure.CompleteTransaction | HAP/HAPBLEProcedure.c:1196-1224 | a finished transaction ends the procedure, or, with a Timed Write pending, is followed by one without a buffer |
| BleProcedure.Procedure.HandleGATTRead | HAP/HAPBLEProcedure.c:1227-1328 | status, state, scratch buffer and packet after a GATT read are those of the specification |
| ProcedureExchanges.ReadIsAnswered | HAP/HAPBLEProcedure.c:938-1057 | for every Characteristic-Read, in any fragments and packets, secured or not: the controller reassembles a message with its identifier that carries the value exactly if the session may read it and the handler succeeds, and otherwise a status that says why, without a body |
| ProcedureExchanges.WriteIsAnswered | HAP/HAPBLEProcedure.c:751-937 | for every Characteristic-Write, likewise: success exactly if the session may write, the body is in order and the application took the value, 0x03 exactly if it refused, and the response value exactly if the request wanted it |
| ProcedureExchanges.AnswerArrives | HAP/HAPBLEProcedure.c:1062-1328 | for every complete request: what was answered is what is reassembled from the packets of all successful reads, and it is complete when the transaction is |
| ProcedureAnswers.ReadOutcomeIff | HAP/HAPBLEProcedure.c:938-1057 | a read succeeds if and only if the session may read the value and its handler succeeds; the buffer and the transience of the session afterwards |
| ProcedureAnswers.ReadRefusedIff | HAP/HAPBLEProcedure.c:958-1017 | which refusal a read gets, over security, permissions and transience: 0x05 where another session could read, 0x01 where none could |
| ProcedureAnswers.HandedOverIff | HAP/HAPBLEProcedure.c:751-878 | the application is called if and only if the session may write the value, timed if that is required, and the body is in order |
| ProcedureAnswers.OnlyPermittedWritesAreHanded | HAP/HAPBLEProcedure.c:683-878 | whatever is processed in whatever state: a body that is handed over is the one that was stored, and its session was allowed to write it |
| ProcedureAnswers.ForbiddenWriteAnswers | HAP/HAPBLEProcedure.c:758-857 | which refusal a write gets before its body is looked at, over security, permissions, transience and the Timed Write requirement |
| ProcedureAnswers.MalformedWriteAnswers | HAP/HAPBLEProcedure.c:869-914 | which refusal a permitted write gets for its body: 0x01 exactly when its time to live is over |
| ProcedureAnswers.TakenValueAnswers | HAP/HAPBLEProcedure.c:915-1057 | the answer after the application took the value, with and without a response that is wanted or supported |
| ProcedureAnswers.RefusedValueAnswers | HAP/HAPBLEProcedure.c:882-904 | the answer after the application refused the value |
| ProcedureAnswers.DispatchOutcome | HAP/HAPBLEProcedure.c:245-758 | what each of the eleven opcodes leads to while nothing is pending: permissions, status, response body and buffer |
| ProcedureAnswers.PendingOutcome | HAP/HAPBLEProcedure.c:245-758 | while a Timed Write is pending every request but its execution ends the session |
| ProcedureAnswers.RejectionOutcome | HAP/HAPBLEProcedure.c:183-243 | the three refusals before dispatch, in their order, and the exception for service signatures |
| ProcedureAnswers.OverrunsIff | HAP/HAPBLECharacteristicParseAndWriteValue.c:161-216 | texts are moved astray if and only if the write is permitted and they do not fit behind the body |
| ProcedureAnswers.StartIff | HAP/HAPBLEProcedure.c:1084-1150 | when a procedure starts, what it forgets, and whether it and its session go on |
| ProcedureAnswers.GattWriteSucceedsIff | HAP/HAPBLEProcedure.c:1062-1189 | a write to a procedure in progress succeeds if and only if the session is alive, the packet decrypts and its plaintext is expected; any failure ends the session |
| ProcedureAnswers.GattReadRefusedIff | HAP/HAPBLEProcedure.c:1227-1262 | a read over a dead session, or without room for the authentication tag, fails and ends it |
| ProcedureAnswers.SendIff | HAP/HAPBLEProcedure.c:1262-1328 | when a packet is sent, whether the procedure and its session end with it |
| ProcedureAnswers.CompletionAbortsIff | HAP/HAPBLEProcedure.c:1196-1224 | the assertion on the timer at the end of a transaction |
| ProcedureAnswers.TimeoutOutcome | HAP/HAPBLEProcedure.c:78-110 | the timeout resets everything but the buffer and ends the session |
| ProcedureAnswers.FirstGattWriteOutcome | HAP/HAPBLEProcedure.c:1084-1150 | the first write of a procedure starts it and is then like any other, or fails as starting does |
| ProcedureAnswers.GattWriteOutcome | HAP/HAPBLEProcedure.c:1152-1189 | what an accepted packet changes: the transaction, and the buffer if the transaction has it |
| ProcedureAnswers.GattReadOutcome | HAP/HAPBLEProcedure.c:1227-1328 | the first read after a request is complete processes it and sends the beginning of what was answered |
| ProcedureAnswers.LaterReadOutcome | HAP/HAPBLEProcedure.c:1227-1328 | later reads send the rest and process nothing, and a read without a request fails |
| Fallbacks.HandleKeepsValid | HAP/HAPBLEPeripheralManager.c:930-1117 | no event takes the table out of its consistent states: the attached characteristic never has a fallback at the same time |
| Fallbacks.ProcedureInProgressIsKept | HAP/HAPBLEPeripheralManager.c:1011-1117 | requests for other characteristics leave a procedure in progress and its attachment untouched and get a fallback, unless they write to a characteristic that drops the security session, which takes the procedure over |
| Fallbacks.AttachmentIff | HAP/HAPBLEPeripheralManager.c:930-1117 | which write gets the full procedure, a new or an old fallback, or nothing, and what becomes of the table and the session |
| Fallbacks.FallbackReadIff | HAP/HAPBLEPeripheralManager.c:742-832 | a fallback answers if and only if its request is complete, the packet fits and can be encrypted; otherwise the session ends |
| Fallbacks.FullRequestIsStep | HAP/HAPBLEPeripheralManager.c:678-1437 | a request that is attached to the full procedure is a step of it and changes nothing else |
| Fallbacks.FallbackWriteIff | HAP/HAPBLEPeripheralManager.c:1120-1437 | what a fallback takes, and with which error anything else ends the session |
| Fallbacks.ManagerTimers | HAP/HAPBLEPeripheralManager.c:500-542 | the two timers end the session and what they are for, if they are pending |
| Fallbacks.StrayReadEndsSession | HAP/HAPBLEPeripheralManager.c:833-860 | a read that no write preceded fails and ends the session |
| Fallbacks.FailedWriteEndsSession | HAP/HAPBLEPeripheralManager.c:1120-1437 | a write that fails ends the session, and one that a fallback takes was decrypted if the session is secured |
| Fallbacks.FirstFragmentsAgree | HAP/HAPBLEPeripheralManager.c:1211-1313 | the fallback's own parser accepts a first fragment exactly when a full transaction would, then waits for the same number of bytes, and notes the error that opcode and instance ID call for |
| Fallbacks.ContinuationsAgree | HAP/HAPBLEPeripheralManager.c:1314-1364 | likewise for continuations |
| Fallbacks.EveryConnectionIsShadowed | HAP/HAPBLEPeripheralManager.c:1120-1437 | over every connection: each active fallback waits for exactly what a transaction given the same writes waits for |
| Fallbacks.FallbackAnswersWholeRequest | HAP/HAPBLEPeripheralManager.c:742-832 | over every connection: a fallback answers only after as many body bytes as the first fragment declared were sent, and its answer parses to the error for that opcode and instance ID, with the request's identifier |
| Fallbacks.FallbackResponseParses | HAP/HAPBLEPeripheralManager.c:752-812 | the hand-assembled error packets are well-formed single-packet responses |
| PeripheralManager.Manager.AbortAllFallbackProcedures | HAP/HAPBLEPeripheralManager.c:153-183 | no fallback is left |
| PeripheralManager.Manager.AttachProcedure | HAP/HAPBLEPeripheralManager.c:930-1117 | a write gets the fallback its characteristic already has, the full procedure if that is its own or idle, and a new fallback otherwise; nothing is attached on a terminal session or a stopping server |
| PeripheralManager.Manager.HandleWriteRequest | HAP/HAPBLEPeripheralManager.c:1120-1437 | table, procedure and status after a write are those of the specification that the theorems on connections are about |
| PeripheralManager.Manager.HandleReadRequest | HAP/HAPBLEPeripheralManager.c:678-914 | table, procedure, packet and status after a read are those of the specification |
| PeripheralManager.Manager.SkipFragment | HAP/HAPBLEPeripheralManager.c:1211-1364 | the byte-by-byte skipping of a fragment computes the function that FirstFragmentsAgree and ContinuationsAgree characterize |
| PeripheralManager.Manager.FullTimerExpires | HAP/HAPBLEProcedure.c:78-110 | the expiry of a pending procedure timer makes the session terminal and resets the procedure, as in the theorems on connections |
| PeripheralManager.Manager.FallbackProcedureTimerExpires | HAP/HAPBLEPeripheralManager.c:500-542 | the expiry of a pending fallback timer ends that fallback and no other, and makes the session terminal |
| GlobalStateNumber.AdvanceIsCyclic | HAP/HAPBLEAccessoryServer+Advertising.c:672-678 | n increments lead to (start - 1 + n) mod 65535 + 1 |
| GlobalStateNumber.KeyExpiresExactly | HAP/HAPBLEAccessoryServer+Broadcast.c:126-131 | from every starting number, the key is gone after n increments if and only if n >= 32767 (section 7.4.7.4 of HAP Specification R14) |
| GlobalStateNumber.KeyIsUsableExactly | HAP/HAPBLEAccessoryServer+Advertising.c:764-790 | from every starting number, a broadcast is possible after n increments if and only if n < 32766 |
| AdvertisingRuns.StepIsConsistent | HAP/HAPBLEAccessoryServer+Advertising.c:451-1144 | no event breaks the invariant of timers, broadcast, number and key, no assertion fails, and the number changes exactly by the increments that the outcome names, also when the key-value store fails and the accessory restarts |
| AdvertisingRuns.BroadcastHasKey | HAP/HAPBLEAccessoryServer+Advertising.c:95-175 | a connected accessory does not advertise; an encrypted advertisement is made exactly while an event is broadcast, and never without a valid key |
| AdvertisingRuns.NothingAborts | HAP/HAPBLEAccessoryServer+Advertising.c:451-1144 | over every run from factory state, with restarts, firmware updates and failing stores, none of the assertions on timers and broadcasts can fail |
| AdvertisingRuns.PurgeLosesKeyIff | HAP/HAPAccessoryServer.c:1029-1040 | purging the broadcast parameters leaves a broadcast without a key, which is fatal, if and only if one is in progress |
| AdvertisingRuns.ResetIsConsistentIff | HAP/HAPAccessoryServer+Reset.c:10-30 | restoring factory settings without a restart makes the assertion on the event timer fail if and only if that timer runs |
| AdvertisingRuns.BroadcastRun | HAP/HAPBLEAccessoryServer+Advertising.c:698-1090 | a run of six events that seals an advertisement; purging the parameters then leaves the broadcast without a key, and restoring factory settings makes the next event abort |
| AdvertisingRuns.NumberAdvancesOncePerPeriod | HAP/HAPBLEAccessoryServer+Advertising.c:1024-1141 | over every run: the number stays in 1..65535, advances at most once per connection, and in a disconnected period, restarts included, at most once for an event, every further increment being a broadcast (sections 7.4.6.1 to 7.4.6.3 of HAP Specification R14) |
| AdvertisingRuns.KeyIsYoung | HAP/HAPBLEAccessoryServer+Advertising.c:663-678 | over every run: a key that is still stored is the last generated one and has seen fewer than 32767 increments |
| AdvertisingRuns.EpochSealsOncePerNumber | HAP/HAPBLEAccessoryServer+Advertising.c:95-175 | over every run, without any premise on keys: what is sealed after one generation of a key is sealed once per number and age, authenticated data included, and the ages are in 1..32766 |
| AdvertisingRuns.SealedContentsAreUnique | HAP/HAPBLEAccessoryServer+Advertising.c:95-175 | over every run in which different connections lead to different keys: one key and one number seal one instance ID, value and advertising identifier, although the key may be generated repeatedly within a connection |
| AdvertisingRuns.RepeatedKeyRun | HAP/HAPBLEAccessoryServer+Broadcast.c:160-173 | a run in which one connection generates the same key twice; the premise on keys holds in it |
| AdvertisingRuns.KeySealsAtMost | HAP/HAPBLEAccessoryServer+Advertising.c:95-175 | over the same runs: the set of all that one key has sealed has at most 32766 elements |
| AdvertisingEvents.AdvertisementTellsTheNumber | HAP/HAPBLEAccessoryServer+Advertising.c:48-310 | over every run: nothing is in the air during a connection; a broadcast carries instance ID and value of the event that was broadcast last, sealed with the last key; anything else carries the number of the period, and is fast exactly around boot, events and disconnections |
| AdvertisingEvents.EventIsAnnounced | HAP/HAPBLEAccessoryServer+Advertising.c:1024-1080 | after any run, an event of a characteristic with disconnected events leaves the number advanced in its period, whether it was broadcast or not |
| AdvertisingEvents.SuccessfulEventCounts | HAP/HAPBLEAccessoryServer+Advertising.c:698-1090 | an event that is to advance the number and succeeds advances it by one in its period |
| AdvertisingEvents.EventAdvancesIff | HAP/HAPBLEAccessoryServer+Advertising.c:698-1090 | which events advance the number: those that are broadcast with a value, and the first other one of a period; to the successor, nothing else in between |
| AdvertisingEvents.RaisingFailsIff | HAP/HAPBLEAccessoryServer+Advertising.c:698-1090 | raising an event fails if and only if an access to the store that it needs fails, and the number stays then |
| AdvertisingEvents.DisconnectedEventOutcome | HAP/HAPBLEAccessoryServer+Advertising.c:1024-1080 | an event that is not broadcast starts the event timer exactly while disconnected |
| AdvertisingEvents.BroadcastEventOutcome | HAP/HAPBLEAccessoryServer+Advertising.c:760-1022 | an event that is broadcast replaces the broadcast in progress, and without value, number or timer ends it |
| AdvertisingEvents.KeyAfterEvent | HAP/HAPBLEAccessoryServer+Advertising.c:663-670 | an increment discards the key at its expiration number and at no other |
| AdvertisingEvents.NotificationOutcome | HAP/HAPBLEAccessoryServer+Advertising.c:1093-1144 | the first event that is sent in a connection advances the number to its successor, with every point at which the store can fail |
| AdvertisingEvents.ConnectionOutcome | HAP/HAPBLEAccessoryServer+Advertising.c:520-572 | a connection ends timers and broadcast, and opens a period; with a failing store it does not |
| AdvertisingEvents.DisconnectionOutcome | HAP/HAPBLEAccessoryServer+Advertising.c:575-630 | a disconnection opens a period and starts fast advertising |
| AdvertisingEvents.StartOutcome | HAP/HAPBLEAccessoryServer+Advertising.c:496-517 | fast advertising starts once after boot |
| AdvertisingEvents.TimerOutcome | HAP/HAPBLEAccessoryServer+Advertising.c:451-494 | a broadcast whose time is over goes on as an event, with the event timer started anew |
| AdvertisingEvents.KeyOutcome | HAP/HAPBLEAccessoryServer+Broadcast.c:99-212 | a new key, its expiration 32766 increments from now, and the identifier if one is given |
| AdvertisingEvents.IdentifierOutcome | HAP/HAPBLEAccessoryServer+Broadcast.c:215-254 | the identifier changes and nothing else |
| AdvertisingEvents.RestartOutcome | HAP/HAPAccessoryServer+Reset.c:51-95 | what a restart keeps, and what a firmware update takes |
| AdvertisingEvents.ResetOutcome | HAP/HAPAccessoryServer+Reset.c:10-30 | what purging and restoring take |
| AdvertisingEvents.AssertionsFailIff | HAP/HAPBLEAccessoryServer+Advertising.c:451-1144 | in which states, consistent or not, each of the assertions fails |
| AdvertisingEvents.EventAssertionsFailIff | HAP/HAPBLEAccessoryServer+Advertising.c:698-1090 | the same for the event timer and the broadcast when an event is raised |
| AdvertisingServer.Server.DidStartAdvertising | HAP/HAPBLEAccessoryServer+Advertising.c:496-517 | keeps the invariant and starts the fast-advertising timer once |
| AdvertisingServer.Server.DidConnect | HAP/HAPBLEAccessoryServer+Advertising.c:520-572 | keeps the invariant unless the store fails, which is fatal: timers and broadcast end, and the connected period may advance the number again |
| AdvertisingServer.Server.DidDisconnect | HAP/HAPBLEAccessoryServer+Advertising.c:575-630 | keeps the invariant, also when the store fails; none of its assertions can fail |
| AdvertisingServer.Server.TimerExpired | HAP/HAPBLEAccessoryServer+Advertising.c:451-494 | keeps the invariant: an expired broadcast becomes a disconnected event |
| AdvertisingServer.Server.IncrementGSN | HAP/HAPBLEAccessoryServer+Advertising.c:641-695 | one increment, with the key discarded first if it expires, for every point at which the store can fail |
| AdvertisingServer.Server.DidRaiseEvent | HAP/HAPBLEAccessoryServer+Advertising.c:698-1090 | keeps the invariant on every path, including failing stores and unreadable values |
| AdvertisingServer.Server.DidSendEventNotification | HAP/HAPBLEAccessoryServer+Advertising.c:1093-1144 | keeps the invariant, also when the store fails, and changes nothing once the number has advanced in the connection |
| AdvertisingServer.Server.BroadcastGenerateKey | HAP/HAPBLEAccessoryServer+Broadcast.c:99-212 | a new key expires 32766 increments from now, with a failing store nothing changes |
| AdvertisingServer.Server.BroadcastSetAdvertisingID | HAP/HAPBLEAccessoryServer+Broadcast.c:215-254 | changes the identifier and neither key nor expiration, with a failing store nothing |
| AdvertisingServer.Server.GetAdvertisingParameters | HAP/HAPBLEAccessoryServer+Advertising.c:48-449 | what is put into the air, which is never a broadcast without a key |
| BroadcastTable.Lookup | HAP/HAPBLECharacteristic+Broadcast.c:176-204 | the search that stops at the first entry that is not smaller decides membership in the map |
| BroadcastTable.InsertInPlace | HAP/HAPBLECharacteristic+Broadcast.c:302-305 | moving the tail of the byte array up by three bytes and writing an entry inserts that entry into the sequence of entries |
| BroadcastTable.Insert | HAP/HAPBLECharacteristic+Broadcast.c:302-306 | inserting at the found position is a map update of a new key |
| BroadcastTable.DeleteInPlace | HAP/HAPBLECharacteristic+Broadcast.c:377-379 | moving the tail down by three bytes removes one entry |
| BroadcastTable.Delete | HAP/HAPBLECharacteristic+Broadcast.c:377-390 | removing an entry removes its key from the map |
| BroadcastTable.TablesAreCanonical | HAP/HAPBLECharacteristic+Broadcast.c:255-313 | two tables in order that represent the same map are the same table |
| BroadcastStore.Store.GetBroadcastConfiguration | HAP/HAPBLECharacteristic+Broadcast.c:100-132 | a stored value is rejected exactly if its length is not that of a table |
| BroadcastStore.Store.GetConfiguration | HAP/HAPBLECharacteristic+Broadcast.c:135-205 | is the lookup in the map, and fails exactly for malformed values and invalid intervals |
| BroadcastStore.Store.Enable | HAP/HAPBLECharacteristic+Broadcast.c:208-314 | is the update of the map; a new characteristic is refused exactly when 41 are stored; other entries, order and accessory ID are kept; on failure nothing is stored |
| BroadcastStore.Store.Disable | HAP/HAPBLECharacteristic+Broadcast.c:317-395 | is the removal from the map, for present and absent characteristics; on failure nothing is stored |
| TlvFormat.ParseIffEncoded | HAP/HAPTLVReader.c:36-123 | a byte string parses to a list of items if and only if it is the printed form of that list and no two neighbours have the same type: merging of 255-byte fragments, the ban on empty and short inner fragments and truncation are all in it |
| TlvFormat.AppendedIsParsed | HAP/HAPTLVWriter.c:25-80 | what the writer produces by appending an item is parsed to the list with that item appended |
| TlvFormat.RepeatedIff | HAP/HAPTLVReader.c:126-179 | a body is refused for repetition exactly if a requested type occurs at least twice; other types may |
| TlvReader.Reader.GetNext | HAP/HAPTLVReader.c:36-123 | merges the fragments of the first item inside the buffer: the value stands at the old read position followed by zero bytes only, everything else is unchanged, and it fails exactly if the item is malformed |
| TlvReader.Reader.GetAll | HAP/HAPTLVReader.c:126-179 | finds exactly the requested items, each terminated by a zero byte and all of them apart, and fails exactly for malformed input or a repeated requested type |
| TlvWriter.Writer.Append | HAP/HAPTLVWriter.c:25-80 | succeeds exactly when the printed item fits; the output grows by exactly that item, be the value absent, in other memory or anywhere in the same array, even in the area that is written to, where it is moved once per fragment |
| WriteFields.RequestRoundTrip | HAP/HAPBLECharacteristicParseAndWriteValue.c:36-159 | every combination of value, authorization data, origin, time to live and response flag is recovered from the request that carries it |
| WriteFields.FieldsIff | HAP/HAPBLECharacteristicParseAndWriteValue.c:76-159 | which bodies are accepted, item by item, and what each item means |
| WriteRequest.RelocatesInWindow | HAP/HAPBLECharacteristicParseAndWriteValue.c:161-216 | for any two disjoint terminated regions in the window, in either order, the two overlapping moves keep all bytes and terminators, leave the regions disjoint, and the capacity claimed for the value ends before the authorization data |
| WriteRequest.RelocatesIff | HAP/HAPBLECharacteristicParseAndWriteValue.c:161-216 | for regions in front of the window, which is where the reader leaves them, the same holds if and only if both texts with their terminators fit into the window |
| WriteRequest.CrampedWindow | HAP/HAPBLECharacteristicParseAndWriteValue.c:179-194 | a request of nine bytes that parses, with two bytes to spare: the regions that the reader finds are moved to the same place, and the authorization data reads as the value |
| WriteFields.HalfFreeSuffices | HAP/HAPBLECharacteristicParseAndWriteValue.c:161-216 | a request in a buffer of twice its length always has the room |
| WriteRequest.CheckOptions | HAP/HAPBLECharacteristicParseAndWriteValue.c:80-159 | the checks of lengths and values accept exactly what the specification of the fields accepts |
| WriteRequest.ParseRequest | HAP/HAPBLECharacteristicParseAndWriteValue.c:36-217 | end to end on the buffer: malformed requests are refused exactly, and all fields are delivered if and only if there is room; nothing outside the reader's buffer changes |
| ValueFormats.CheckFormat | HAP/HAPBLECharacteristicParseAndWriteValue.c:278-592 | accepts exactly the values that have the format of the characteristic: the length of numbers, 0 or 1 for truth values, texts without null bytes |
| ValueFormats.ConformsIff | HAP/HAPBLECharacteristicParseAndWriteValue.c:278-592 | what each format other than that of texts admits |
| ValueFormats.TextsConformIff | HAP/HAPBLECharacteristicParseAndWriteValue.c:522-545 | a value has the text format if and only if it is the UTF-8 encoding of a sequence of Unicode scalar values other than zero |
| Utf8.IsValidData | PAL/HAPBase+UTF8.c:9-57 | the branch-free loop over bit patterns accepts exactly the encodings of sequences of Unicode scalar values, for byte strings of every length |
| Utf8.AcceptsIff | Tests/HAPExhaustiveUTF8Test.c:9-117 | the table of well-formed sequences that the reference decoder walks through, row by row, describes exactly these encodings |
| Utf8.ErrorMeans | PAL/HAPBase+UTF8.c:33-46 | for every state and every byte, the error bit is set exactly if the table does not allow the byte there |
| Utf8.StateFollows | PAL/HAPBase+UTF8.c:48-50 | the shifted state goes on counting the missing continuations, and the prefix remembers which second bytes are allowed |
| Utf8.EncodeIsInjective | PAL/HAPBase+UTF8.c:9-53 | no two sequences of scalar values have the same encoding |
| Base36.ChainIsExact | HAP/HAPAccessorySetup.c:149-153 | for every 64-bit number, no addition of the chain wraps around |
| Base36.ChainBounds | HAP/HAPAccessorySetup.c:149-154 | the chain ends within 37/9 of 8/9 of the number and below 8/9 of its successor |
| Base36.EstimateQuotient | HAP/HAPAccessorySetup.c:144-158 | the remainder that the estimate leaves is in 0..71 |
| Base36.DivideBy36 | HAP/HAPAccessorySetup.c:144-163 | exactly quotient and remainder by 36 for every 64-bit number, although the remainder is computed in 32 bits |
| Base36.BranchFreeIsDigit | HAP/HAPAccessorySetup.c:167-172 | the branch-free step gives the character of the intended alphabet, and that character gives the digit back |
| Base36.DigitsRoundTrip | HAP/HAPAccessorySetup.c:143-177 | n digits give the number back if and only if it is below 36^n |
| SetupCode.CheckSetupCode | HAP/HAPAccessorySetup.c:10-39 | accepts exactly the codes of the form XXX-XX-XXX that are not eight equal digits, 123-45-678 or 876-54-321 |
| SetupCode.ValidIff | Tests/HAPAccessorySetupTest.c:9-24 | the accepted codes are those of three, two and three digits without the twelve that section 4.2.1.2 of HAP Specification R14 lists |
| SetupPayload.PackedIsSum | HAP/HAPAccessorySetup.c:123-141 | the disjunction of the shifted fields is their sum: no two fields share a bit |
| SetupPayload.PackedHasNineDigits | HAP/HAPAccessorySetup.c:143-177 | nine digits suffice for every category, set of flags and code |
| SetupPayload.PayloadRoundTrip | HAP/HAPAccessorySetup.c:102-193 | reading the nine characters of any payload recovers category, flags and setup code, and the setup ID follows them |
| SetupPayload.CodeRoundTrip | HAP/HAPAccessorySetup.c:132-141 | the number in the payload determines the setup code with its dashes |
| SetupPayload.GetSetupPayload | HAP/HAPAccessorySetup.c:102-193 | the character array ends up with exactly that payload and its terminator, digits being written from the last one to the first |
| SetupInfoRuns.StepIsConsistent | HAP/HAPAccessorySetupInfo.c:186-559 | every event keeps: the refresh timer runs exactly while a drawn code is not locked, then the accessory is not paired; an attempt implies a locked, available code; the display shows the code in effect |
| SetupInfoRuns.EveryRunHolds | HAP/HAPAccessorySetupInfo.c:186-559 | the same over every run |
| SetupInfoRuns.LockedCodeChangesIff | HAP/HAPAccessorySetupInfo.c:298-450 | a locked drawn code is replaced if and only if the server stops, the attempt ends without keeping it, or a fetch finds a kept code that is not to be restored |
| SetupInfoRuns.LockedCodeStays | HAP/HAPAccessorySetupInfo.c:372-534 | no refresh, NFC event, state update or other fetch changes a locked code or the verifier that belongs to it |
| SetupInfoRuns.FetchReturns | HAP/HAPAccessorySetupInfo.c:298-337 | in an attempt a fetch gives the verifier of the code in effect, after replacing a kept code that is not wanted |
| SetupInfoRuns.AttemptUsesOneCode | HAP/HAPAccessorySetupInfo.c:298-534 | over every run of an attempt: from the first fetch that does not restore a code to the end, one code and one verifier are used |
| SetupInfoRuns.KeptCodeReturns | HAP/HAPAccessorySetupInfo.c:409-434 | over every run: a kept code is what the next attempt restores, also when the attempt was abandoned and restarted |
| SetupInfoRuns.NextAttemptUsesNewCode | HAP/HAPAccessorySetupInfo.c:419-433 | over every run: a drawn code that an attempt did not keep is never used again |
| SetupInfoRuns.StepFailsIff | HAP/HAPAccessorySetupInfo.c:111-127 | an assertion fails exactly when NFC pairing mode is left while the accessory is paired and its code is still locked, on accessories that show codes elsewhere too and have a setup ID |
| SetupInfoRuns.AssertionsHoldIff | HAP/HAPAccessorySetupInfo.c:77-180 | the assertions hold in every run if and only if the accessory does not combine the programmable tag with another way to show codes, or has no setup ID |
| SetupInfoRuns.FailingRun | HAP/HAPAccessorySetupInfo.c:372-390 | a run of five events that reaches the assertion on every other accessory |
| SetupInfoEvents.PreparedIs | HAP/HAPAccessorySetupInfo.c:186-274 | a code that is available stays and is locked if asked to; otherwise one is drawn for a display, or the provisioned one is loaded, and shown |
| SetupInfoEvents.StartOutcome | HAP/HAPAccessorySetupInfo.c:341-352 | a starting server prepares a code exactly for an unpaired display |
| SetupInfoEvents.StopOutcome | HAP/HAPAccessorySetupInfo.c:354-370 | a stopped server has no code, flag or timer, and shows nothing |
| SetupInfoEvents.UpdatedOutcome | HAP/HAPAccessorySetupInfo.c:372-390 | a state update prepares a code, leaves NFC pairing mode or does nothing, and when |
| SetupInfoEvents.BeginPairingOutcome | HAP/HAPAccessorySetupInfo.c:392-407 | an attempt locks the code that is there, or a fresh one |
| SetupInfoEvents.EndPairingOutcome | HAP/HAPAccessorySetupInfo.c:409-434 | an attempt leaves its code kept, or none, and a display then gets a fresh one |
| SetupInfoEvents.AbandonOutcome | HAP/HAPPairingPairSetup.c:1244-1250 | an abandoned attempt leaves everything but the attempt |
| SetupInfoEvents.FetchOutcome | HAP/HAPAccessorySetupInfo.c:298-337 | a fetch derives the verifier, and replaces exactly a kept code that is not wanted |
| SetupInfoEvents.RefreshOutcome | HAP/HAPAccessorySetupInfo.c:438-451 | exactly a code that is about to expire is refreshed |
| SetupInfoEvents.RefreshTimeoutOutcome | HAP/HAPAccessorySetupInfo.c:276-294 | an expired code is gone, and replaced on a display |
| SetupInfoEvents.NfcEnteredOutcome | HAP/HAPAccessorySetupInfo.c:479-518 | entering NFC pairing mode prepares a code exactly on an unpaired accessory |
| SetupInfoEvents.NfcLeftOutcome | HAP/HAPAccessorySetupInfo.c:455-534 | leaving it, on request or by timeout, clears exactly a code that only the tag used |
| SetupInfoEvents.LegacyOutcome | HAP/HAPAccessorySetupInfo.c:536-559 | the legacy mode prepares a code exactly outside of attempts and while not paired |
| SetupInfoEvents.PairingsOutcome | HAP/HAPAccessorySetupInfo.c:372-390 | pairings change nothing but whether the accessory is paired |
| SetupInfo.AccessorySetup.SynchronizeDisplayAndNFC | HAP/HAPAccessorySetupInfo.c:77-180 | the display gets the code in effect; the assertion is that of the specification |
| SetupInfo.AccessorySetup.PrepareSetupInfo | HAP/HAPAccessorySetupInfo.c:201-274 | a code is drawn or loaded only if none is available, and locked if asked to |
| SetupInfo.AccessorySetup.FetchSetupInfo | HAP/HAPAccessorySetupInfo.c:298-337 | in an attempt no assertion fails and the verifier of the code in effect is returned, which is the code from before unless a kept code is not wanted |
| SetupInfo.AccessorySetup.DynamicSetupInfoExpired | HAP/HAPAccessorySetupInfo.c:276-294 | keeps the invariant and no assertion fails; the expired code is gone, and replaced by another one that is shown if there is a display |
| SetupInfo.AccessorySetup.HandleStateUpdate | HAP/HAPAccessorySetupInfo.c:372-390 | keeps the invariant; an unpaired display shows a code, NFC pairing mode is over once the accessory is paired, and a locked code stays; the assertion fails exactly as StepFailsIff says |
| SetupInfo.AccessorySetup.HandlePairingStart | HAP/HAPAccessorySetupInfo.c:392-407 | keeps the invariant and no assertion fails; a code is available, locked and does not expire, and a code that was available is the one that is used |
| SetupInfo.AccessorySetup.HandlePairingStop | HAP/HAPAccessorySetupInfo.c:409-434 | keeps the invariant and no assertion fails; a code that is kept stays with its verifier, one that is not is gone, and an unpaired display shows a code |
| SetupInfo.AccessorySetup.AbandonPairing | HAP/HAPPairingPairSetup.c:1244-1250 | keeps the invariant and no assertion fails; the broken-off attempt leaves its code and verifier locked for the one that replaces it |
| SetupInfo.AccessorySetup.EnterNFCPairingMode | HAP/HAPAccessorySetupInfo.c:479-518 | keeps the invariant and no assertion fails; nothing happens on a paired accessory, otherwise a code is available for the tag, and one that was available is the same, locked or not |
| SetupInfo.AccessorySetup.CompleteExitingNFCPairingMode | HAP/HAPAccessorySetupInfo.c:455-466 | the code is cleared exactly if nothing but the tag used it |
| SetupInfoRuns.DiscardedCodeNeverReturns | HAP/HAPAccessorySetupInfo.c:186-274 | over every run from a state without a code: whatever code comes into use was drawn after that |
| SetupInfo.AccessorySetup.HandleServerStart | HAP/HAPAccessorySetupInfo.c:341-352 | keeps the invariant and no assertion fails; an unpaired accessory with a display shows an expiring code from the start |
| SetupInfo.AccessorySetup.HandleServerStop | HAP/HAPAccessorySetupInfo.c:354-370 | keeps the invariant and no assertion fails; timers and code are gone, also from the display |
| SetupInfo.AccessorySetup.RefreshSetupPayload | HAP/HAPAccessorySetupInfo.c:438-451 | keeps the invariant and no assertion fails; exactly a code that expires anyway is replaced, by another one |
| SetupInfo.AccessorySetup.ExitNFCPairingMode | HAP/HAPAccessorySetupInfo.c:520-534 | keeps the invariant; afterwards a code remains exactly if something else uses it; a mode that is not active is left alone; the assertion fails exactly as StepFailsIff says |
| SetupInfo.AccessorySetup.NFCPairingModeExpired | HAP/HAPAccessorySetupInfo.c:468-477 | the expiry keeps and clears what a request to leave does |
| SetupInfo.AccessorySetup.EnterLegacyPairingMode | HAP/HAPAccessorySetupInfo.c:536-559 | keeps the invariant and no assertion fails; outside of attempts and while not paired a code is available, otherwise nothing changes |
| SessionModel.StepIsConsistent | HAP/HAPBLESession.c:24-355 | a terminal session stays terminal, unsecured and without link or pairing timer; not safe to disconnect means exactly that the safety timer is pending; a released session has no timer |
| SessionModel.GoingDownFailsIff | HAP/HAPBLESession.c:182-209 | a connection that must go down has been asked to or has the safety timer pending, and the only event that breaks this is a response whose safety timer cannot be registered |
| SessionModel.StrandingRun | HAP/HAPBLESession.c:182-209 | a run of three events after which a stopping server keeps a connection that nothing will end |
| SessionModel.EveryRunHolds | HAP/HAPBLESession.c:24-355 | both over every run, the second as long as safety timers can be registered |
| SessionModel.LinkGoesDown | HAP/HAPBLESession.c:43-68 | over every run of a new session in which safety timers can be registered: a connection that must go down has been asked to, or its safety timer is pending and asks it when it expires |
| SessionModel.TimeoutTerminates | HAP/HAPBLESession.c:24-40 | either timeout makes the session terminal and gets the link disconnected as soon as that is safe |
| SessionModel.TerminalSoonIff | HAP/HAPBLESession.c:153-166 | with its link timer pending, a session counts as terminal soon if and only if the deadline is reached |
| SessionModel.NoLookAhead | HAP/HAPBLESession.c:153-166 | a session 100 ms before its deadline does not count as terminal soon |
| SessionEvents.CreatedOutcome | HAP/HAPBLESession.c:70-105 | a new session has ten seconds and may be taken down |
| SessionEvents.InvalidationOutcome | HAP/HAPBLESession.c:125-150 | what an invalidation ends, with and without the link |
| SessionEvents.TimeoutOutcome | HAP/HAPBLESession.c:24-40 | both timeouts terminate the session in the same way |
| SessionEvents.SafeOutcome | HAP/HAPBLESession.c:43-68 | the safety timer asks the link to go down exactly if it must |
| SessionEvents.ResponseOutcome | HAP/HAPBLESession.c:182-209 | a response makes the link unsafe for as long as its timer runs, and changes nothing else |
| SessionEvents.ProcedureOutcome | HAP/HAPBLESession.c:211-265 | thirty seconds for a secured session, none for an unsecured one, and the end without a timer |
| SessionEvents.PairingOutcome | HAP/HAPBLESession.c:267-306 | one timeout per pairing procedure, from its first message on |
| SessionEvents.PairedOutcome | HAP/HAPBLESession.c:308-355 | the end of a pairing procedure, and the thirty seconds of a verified session |
| SessionEvents.StopOutcome | HAP/HAPBLEAccessoryServer.c:117-145 | a stopping server asks at once exactly if that is safe |
| SessionEvents.ReleaseOutcome | HAP/HAPBLESession.c:107-123 | what is left of a session whose central is gone |
| SessionEvents.SecuredOutcome | HAP/HAPBLESession.c:211-265 | securing a session changes nothing else |
| SessionEvents.DeadlineOutcome | HAP/HAPBLESession.c:125-150 | the deadline is cleared together with its timer |
| BleSession.BleSession.constructor | HAP/HAPBLESession.c:70-105 | a new session satisfies both invariants |
| BleSession.BleSession.InvalidateSession | HAP/HAPBLESession.c:125-150 | keeps both invariants; timers end, and a link that is to be terminated has been asked to go down or the safety timer will ask it |
| BleSession.BleSession.ReleaseSession | HAP/HAPBLESession.c:107-123 | keeps both invariants; the session is terminal and no timer is left |
| BleSession.BleSession.LinkTimerOrPairingProcedureTimerExpired | HAP/HAPBLESession.c:24-40 | keeps both invariants; the session is terminal, and its link goes down at once or by the safety timer |
| BleSession.BleSession.SafeToDisconnectTimerExpired | HAP/HAPBLESession.c:43-68 | keeps both invariants; the disconnection of a terminal session or a stopping server is requested |
| BleSession.BleSession.DidSendGATTResponse | HAP/HAPBLESession.c:182-209 | keeps the invariant of the timers, and the one of going down exactly if the safety timer starts, the disconnection was requested or the link may stay |
| BleSession.BleSession.DidStartBLEProcedure | HAP/HAPBLESession.c:211-265 | keeps both invariants; a secured session gets 30 seconds, or becomes terminal and goes down if no timer is available; an unsecured one has no link timer |
| BleSession.BleSession.DidStartPairingProcedure | HAP/HAPBLESession.c:267-306 | keeps both invariants; a pairing timeout runs, or the session is terminal and goes down |
| BleSession.BleSession.DidCompletePairingProcedure | HAP/HAPBLESession.c:308-355 | keeps both invariants; the pairing timeout is over, and a session that is verified and still secured has 30 seconds |
| BleSession.BleSession.TryStopServer | HAP/HAPBLEAccessoryServer.c:117-145 | keeps the invariant of the timers; the link has been asked to go down, or the safety timer will ask it |
| ConfigurationNumber.IncrementStepsIff | HAP/HAPAccessoryServer.c:1134-1144 | an increment of the stored number, its overflow included, is one cyclic step of the 16-bit number in 1..65535 and of the 8-bit number in 1..255 if and only if the stored number is not 0 |
| ConfigurationNumber.DerivedNumbersCount | HAP/HAPAccessoryServer.c:1052-1062 | after n increments of a new number, for every n, the derived numbers are n mod 65535 + 1 and n mod 255 + 1 |
| ConfigurationNumber.ReadAfterWrite32 | HAP/HAPAccessoryServer.c:1136-1142 | the stored bytes give the number back |
| ConfigurationNumber.Store.GetCN | HAP/HAPAccessoryServer.c:1046-1105 | reads or initializes the stored number, with all error conditions: exactly stored values of fewer than four bytes are refused |
| ConfigurationNumber.Store.IncrementCN | HAP/HAPAccessoryServer.c:1108-1159 | advances the number in effect, also on first access, and stores nothing on failure; missing bytes of a stored value that is too short are those that the buffer held before |
| ServiceIndex.IndexResolves | HAP/HAPAccessoryServer.c:1561-1660 | looking up the index of a service finds that service in that accessory, and the index is below the number of services of its type |
| ServiceIndex.ResolvesIff | HAP/HAPAccessoryServer.c:1610-1660 | an index resolves if and only if it is below that number, and to a service of that type |
| ServiceIndex.ResolvedHasIndex | HAP/HAPAccessoryServer.c:1561-1660 | if no accessory lists a service twice, every index is the index of the service it resolves to |
| ServiceIndex.GetNumServiceInstances | HAP/HAPAccessoryServer.c:1522-1558 | the number of services of a type over the primary and all bridged accessories; its overflow assertion fails exactly above 65535 |
| ServiceIndex.GetServiceTypeIndex | HAP/HAPAccessoryServer.c:1561-1608 | the index in the database, with the fatal error exactly for services that are not in it or have 65536 before them |
| ServiceIndex.GetServiceFromServiceTypeIndex | HAP/HAPAccessoryServer.c:1610-1660 | the service at an index, with the fatal error exactly for indices that are not below the count |

## Left out

- TimedWrites.EveryRunIsGood: once an event fails, the peripheral manager makes the session terminal; from then on only the record of the past is claimed, because every further request is refused.
- Fragmentation.RequestIsReassembled: is about accepted writes. After a rejected first write the transaction counts an empty request as available, and the session is terminal.
- BleProcedure.Procedure.ProcessTransaction: what the request handlers for signatures, configurations, tokens and values serialize, how they use the scratch buffer, whether a value keeps its constraints on range, step and length, and what the application says to it are parameters, so the proofs hold for all of it.
- TimedWrites.AbortsIff: when texts do not fit behind their request, the library overwrites them or what lies behind the buffer and goes on; here the run ends as aborted, and nothing is claimed about it.
- TimedWrites.TransientSessionsHaveNothingPending: that a session becomes transient only while a pairing characteristic is read is how the model represents Pair Setup; the pairing procedures themselves are not modelled.
- TimedWrites.HandedInTime: times are numbers; an overflow of start time plus time to live does not occur.
- AdvertisingRuns.NothingAborts: a central connects only after advertising has started; parameters are not purged during a broadcast and factory settings are restored only while no event is advertised, since PurgeLosesKeyIff and ResetIsConsistentIff say what happens otherwise. A failing write leaves the store as it was.
- AdvertisingRuns.SealedContentsAreUnique: encryption is represented by the key, the number and the contents it seals; that keys of different connections differ is the premise on sessions and key derivation.
- AdvertisingServer.Server.BroadcastGenerateKey: the key is a number, its derivation from session secret and controller key is not modelled, and neither is fetching the controller key from the pairings.
- AdvertisingServer.Server.DidDisconnect: proceeding with a shutdown that was requested is not modelled.
- AdvertisingServer.Server.GetAdvertisingParameters: models which kind of advertisement is made, not its bytes, intervals and device identifiers.
- BroadcastStore.Store.GetBroadcastConfiguration: the domain of the key-value store that holds the configurations is modelled by the one entry of the accessory, and so is its enumeration.
- WriteRequest.ParseRequest: stops at a move that would leave the reader's buffer and reports it, since what lies behind the buffer is not modelled; the claimed capacity is a difference of integers, which is not wrapped around when it is negative.
- SetupPayload.GetSetupPayload: takes a setup code in the form that its type stands for; for other characters the differences to the digit zero wrap around.
- SetupInfoRuns.AssertionsHoldIff: a pairing is added only during an attempt, attempts do not overlap, and the server is not stopped during one. A timer that cannot be registered is fatal and ends the run.
- SetupInfo.AccessorySetup.FetchSetupInfo: the verifier is represented by the code it is derived from; codes are drawn with increasing serial numbers instead of at random, so that theorems can tell one draw from another.
- SetupInfo.AccessorySetup.SynchronizeDisplayAndNFC: the display is modelled; what is written to the tag and given to the legacy callbacks is not, except for the assertion on making it.
- SessionModel.EveryRunHolds: pairing and security state around the session are flags; clearing them on invalidation is modelled, the pairing procedures are not.
- ServiceIndex.GetServiceTypeIndex: services and accessories are values with identities instead of pointers.
- Cryptography (ChaCha20-Poly1305, HKDF, SRP, SHA-512, Ed25519) appears only as the success or failure of a decryption or encryption.
- Platform services (peripheral manager, clock, timers, random numbers, displays, tags) appear as results and pending-timer flags.
- The switches over characteristic formats for reading and subscribing, and the serializers of signatures and descriptors: long but repetitive.
- The non-sequential access and the struct decoding of the TLV reader, and the value encoders of the TLV writer.
- HAP/HAPSession.c, Pair Setup, Pair Verify, the IP transport, accessory validation, GATT registration and event notifications.
- The loops that draw random bytes until a setup code is acceptable: they end only with probability one. What they accept is SetupCode.CheckSetupCode.
- The version-string parser, bit sets, floating-point values and advertising intervals: they would only add easy members.
- Logging and description strings.
