# A model of the virtual CCID reader, with proofs

The repository exports a smart-card reader over USB/IP that does not exist as
hardware: a CCID transport takes the host's bulk, interrupt and control requests, a
bridge turns CCID commands into calls on an NFC reader, and a PN532 on a serial line
talks to the card. This project models those three layers in Dafny and proves what
they keep over whole runs.

Each stateful part appears twice. As a **value** (`Transport`, `Bridge`, `Reader`,
`Pn532`) it has a function for every operation; as a **class** (`CcidTransport`,
`CcidBridge`, `Pn532UartReader`, `ScriptedReader`, `SerialPort`) it has the fields of the
original, updated in place, and every method ensures that the new state and the answer
are those of the function. The theorems are about the functions.

Two of these functions are deliberately not written the way the code is:

* Bulk-OUT. The class drains a buffer in a loop with a cached frame length. Its
  specification `Deliver` first parses the whole stream with `FrameStream.Parse`, which
  has no cache and no memory, and then lets the frames take effect in order. The cache
  and the transport phase are not even part of the value: `Valid` says they are
  functions of the queues.
* PN532 frames. The class reads a port piece by piece. `ReceiveExactly` says which byte
  strings it accepts in terms of the two frame formats.

What is outside comes in as data. An arbitrary reader is a script of answers
(`NfcReader.Script`). The PN532 device is a tape: clock readings, outcomes of the RF-field
command, and for each command the bytes on the serial line or a link error. Error
strings are dropped. Histories are ordinary fields: `Bridge.calls` (every reader call with
its answer), `Core.delivered` (notifications fetched), `Core.queueLog` (everything that
happened to the response queue), `Device.sent` (requests to the device); in the classes
they are ghost.

| file | content |
|---|---|
| `Bytes.dfy`, `Nfc.dfy` | bytes, words, checksums; the values of the reader interface |
| `CcidProtocol.dfy` | the CCID codec and the host's side of it |
| `FrameStream.dfy` | the reference parser of the bulk-OUT stream |
| `Pn532Frame.dfy`, `Pn532Reader.dfy`, `NfcReader.dfy` | PN532 frames, the PN532 reader, readers in general |
| `CcidBridge.dfy`, `BridgeRuns.dfy`, `Coherence.dfy`, `PseudoAtr.dfy` | the bridge, its runs, its agreement with the PN532 reader, the ATR |
| `CcidTransport.dfy` | the transport |
| `Packetisation.dfy`, `AbortHandshake.dfy`, `BulkInFraming.dfy` | bulk-OUT, aborts, bulk-IN |
| `TransportRuns.dfy`, `EndToEnd.dfy` | runs of the whole stack, commands to responses |
| `Counterexamples.dfy` | concrete runs that reach the limits listed below |

Where a natural claim is false of the code, the code is modelled as it is, the exact
condition is proved, and a run that fails is given:

* A packet boundary matters when the first part completes a pending abort or carries an
  oversized header, because both drop the rest of the buffer
  (`Packetisation.PacketBoundaryExactly`; `Counterexamples.BoundaryAfterAbort`,
  `Counterexamples.BoundaryAfterOversizedHeader`).
* The host loses track of message boundaries when a half-sent response is thrown away,
  or when it asks for zero bytes while an empty last packet is due
  (`BulkInFraming.AdvanceExactly`; `Counterexamples.AbortMidMessage`,
  `Counterexamples.EmptyPacketMissed`).
* The host does not get an answer to every command: the 33rd unfetched response empties
  the queue, and a response equal to the one before it is dropped
  (`EndToEnd.AllAnswersQueuedExactly`, `EndToEnd.LastAnswersKept`;
  `Counterexamples.ThirtyThreeEnquiries`, `Counterexamples.TwoEnquiriesOneAnswer`).
* De-duplication compares with the remainder of a half-sent response and can drop a
  response the host never got (`BulkInFraming.DroppedRepeatsExactly`;
  `BulkInFraming.RemainderSwallowsResponse`, `Counterexamples.AnswerSwallowed`).
* Four error branches report an inactive card whatever the slot holds
  (`BridgeRuns.IccFaithfulExactly`; `Counterexamples.FourMisreports`).
* A failed RF-off command makes bridge and reader disagree in two situations
  (`Coherence.StepCoherentExactly`; `Coherence.FailedOffBreaksCoherence`,
  `Coherence.FailedOffAfterAbsenceBreaksCoherence`).
* A power session does not keep its card through a power-off that fails: the session
  goes on, the reader has let the card go, and the next transfer may reach another one
  (`Coherence.SessionStepHolds`; `Coherence.FailedOffSwitchesCards`).
* Notifications lag: each command leaves one, and only a poll whose refresh fails
  shortens the line, so a poll may show the slot as it was
  (`TransportRuns.BacklogExactly`, `TransportRuns.PollShowsNowExactly`;
  `Counterexamples.StaleNotice`).
* After a lost target the next poll may still be answered from the cache, when the
  exchange itself had found no target (`Pn532Reader.LostTargetAskedExactly`;
  `Pn532Reader.AbsenceIsNotAskedAgain`).
* A single wrong byte can go unnoticed in extended PN532 frames from length D500 on
  (`Pn532Frame.SingleByteErrors`; `Pn532Frame.HugeFrameMisread`).
* The bulk half of an abort is accepted for any slot when it comes first
  (`AbortHandshake.AbortOrderExactly`; `Counterexamples.BulkSlotIgnoredWhenFirst`).
* Historical bytes that look like an ATR are passed through unchanged
  (`PseudoAtr.AtrRoundTripExactly`; `Counterexamples.DummyAtrPassesThrough`).

## Model

| member | source | states |
|---|---|---|
| Bytes.WrapSumIsSum | src/nfc/pn532.rs:474-476 | the wrapping fold is the sum of the bytes modulo 256 |
| Bytes.XorSumIsParity | src/ccid/bridge.rs:369-372 | the exclusive-or fold is even parity, bit by bit |
| CcidProtocol.DecodeHostFrame | src/ccid/protocol.rs:141-194 | every command built by a host decodes to itself |
| CcidProtocol.DecodeExactly | src/ccid/protocol.rs:141-158 | decoding succeeds exactly on frames of at least 10 bytes whose length is the declared one; slot and number are bytes 5 and 6 |
| CcidProtocol.DecodedFields | src/ccid/protocol.rs:141-194 | which command a frame is, by its first byte, and where its fields stand, byte by byte |
| CcidProtocol.HeaderFields | src/ccid/protocol.rs:253-261 | each header field is found at its place; the length is kept modulo 2^32 |
| CcidProtocol.ParseEncoded | src/ccid/protocol.rs:197-250 | a response whose payload fits the length field is read back exactly, status byte included |
| CcidProtocol.EncodeInjective | src/ccid/protocol.rs:197-250 | equal bytes come from equal responses, for payloads of any length |
| CcidProtocol.SplitEncoded | src/ccid/protocol.rs:198-261 | a concatenation of encoded responses has one reading, by the length fields alone |
| FrameStream.ParseSound | src/ccid/transport.rs:291-332 | no byte of the stream is lost or invented, all frames are whole, the rest holds none |
| FrameStream.ParseUnique | src/ccid/transport.rs:291-332 | the reading is the only one: any split into whole frames and a rest without one is it |
| FrameStream.ParseAppend | src/ccid/transport.rs:99-106 | later bytes continue the rest and leave earlier frames alone |
| FrameStream.ParseBlocked | src/ccid/transport.rs:309-316 | an oversized header blocks whatever follows it |
| FrameStream.HostFramesComeOut | src/ccid/transport.rs:99-106 | host frames of at most 3082 bytes come out unchanged, in order, and decode to their commands |
| CcidTransport.CcidTransport.TryTakeCompleteFrame | src/ccid/transport.rs:291-332 | with the cache unset or right: takes exactly the first whole frame, or drops an oversized buffer with an error, or waits with the cache set to the declared length |
| CcidTransport.CcidTransport.HandleBulkOut | src/ccid/transport.rs:99-140 | the loop refines "parse the stream, then act on the frames", result and full state; cache and phase end up as functions of the queues |
| CcidTransport.CcidTransport.HandleBulkIn | src/ccid/transport.rs:142-164 | packet and new state are those of the queue function `Fetch` |
| CcidTransport.CcidTransport.HandleInterruptIn | src/ccid/transport.rs:166-182 | answer and new state are those of `InterruptIn`; what the host is handed over a run is `TransportRuns.HostHearsTruth` |
| CcidTransport.CcidTransport.HandleControlRequest | src/ccid/transport.rs:74-97 | answer and new state are those of `Control`, which `AbortHandshake.ControlExactly` and `AbortHandshake.ControlAbortExactly` pin down |
| CcidTransport.CcidTransport.CompleteAbort | src/ccid/transport.rs:215-234 | flags, buffer, cached length and queue are cleared before the bridge's answer is queued |
| CcidTransport.CcidTransport.QueueAbortedResponse | src/ccid/transport.rs:236-261 | one refusal is queued and the slot reported, nothing else changes |
| CcidTransport.CcidTransport.PushInFrame | src/ccid/transport.rs:269-289 | drop a repeat of the last entry, start over at 32 entries, append |
| CcidTransport.CcidTransport.UpdateSlotPresence | src/ccid/transport.rs:184-198 | one notification, flagged as a change exactly when the slot changed |
| CcidTransport.CcidTransport.UpdateState | src/ccid/transport.rs:334-343 | the phase is a function of the two queues; the cache is dropped when both are empty |
| CcidTransport.PushFrame | src/ccid/transport.rs:269-289 | after a push the pushed frame is at the back |
| Packetisation.PacketBoundaryExactly | src/ccid/transport.rs:99-140 | two deliveries leave the whole stack as one does if and only if the first discards nothing, or the second is: empty or an oversized header, after a completed abort; also bulk aborts repeating the number noted, after an oversized header |
| Counterexamples.BoundaryAfterAbort | src/ccid/transport.rs:215-219 | a command sharing a packet with the bulk half of an awaited abort is dropped, in its own packet it is not |
| Counterexamples.BoundaryAfterOversizedHeader | src/ccid/transport.rs:309-316 | the same behind an oversized header |
| Packetisation.AnyPacketsLikeOne | src/ccid/transport.rs:99-140 | any split of a byte stream into packets behaves like one delivery, if nothing is discarded before the last packet |
| Packetisation.NoEffectExactly | src/ccid/transport.rs:118-124 | which bytes leave a transport with an empty buffer as it was |
| Packetisation.FinishedExactly | src/ccid/transport.rs:108-116 | a batch stops early exactly when one of its frames matches the pending abort |
| Packetisation.BytesConserved | src/ccid/transport.rs:99-106 | frames plus leftover equal old buffer plus payload; every frame decodes; in all cases fewer than 3082 bytes remain; it fails exactly for an oversized header not preceded by a completed abort |
| Packetisation.CommandsArrive | src/ccid/transport.rs:99-140 | commands cut into packets anywhere are handled one by one, in order, leaving the buffer empty |
| BulkInFraming.PacketsShape | src/ccid/transport.rs:150-163 | a frame of length L takes L/m + 1 packets, full but for the last, which has L mod m bytes |
| BulkInFraming.FetchFrame | src/ccid/transport.rs:142-164 | that many fetches deliver exactly that frame and leave the frames behind it |
| BulkInFraming.AdvanceExactly | src/ccid/transport.rs:142-164 | one event keeps host and queue agreed on message boundaries exactly when it does not throw away a message under way or its empty last packet |
| Counterexamples.AbortMidMessage | src/ccid/transport.rs:215-220 | an abort with a response half fetched puts host and queue out of step |
| Counterexamples.EmptyPacketMissed | src/ccid/transport.rs:150-157 | a request for no bytes takes the empty last packet away unnoticed |
| BulkInFraming.HostGetsResponses | src/ccid/transport.rs:142-164 | messages completed, then those owed, are the responses kept, in order, for fetches of any sizes between pushes |
| BulkInFraming.LosslessDelivery | src/ccid/transport.rs:269-289 | without clears and overflows the host gets every accepted response, whole and in order |
| BulkInFraming.DroppedRepeatsExactly | src/ccid/transport.rs:270-273 | a dropped response repeats the last one owed, except when only the remainder of a message is queued |
| BulkInFraming.AcceptedAreOffers | src/ccid/transport.rs:269-289 | what is accepted is what is offered, in order; what is left out are exactly the frames that repeated the last in line, so it is all of it if and only if none did |
| BulkInFraming.RemainderSwallowsResponse | src/ccid/transport.rs:270-273 | that exception loses a genuine response |
| Counterexamples.AnswerSwallowed | src/ccid/transport.rs:269-273 | a run of five host requests in which it does |
| AbortHandshake.QuarantineHolds | src/ccid/transport.rs:108-116 | while an abort is pending, bytes without the matching bulk abort touch neither bridge nor reader; one refusal and one notification per frame |
| AbortHandshake.RefusalReadsBack | src/ccid/transport.rs:236-261 | a refusal carries the frame's own slot and number, failed, error ff |
| AbortHandshake.AbortCompletes | src/ccid/transport.rs:215-234 | the matching abort clears both flags and the buffer and leaves exactly one, successful, response |
| AbortHandshake.ControlExactly | src/ccid/transport.rs:74-97 | clock frequency, data rate and the control half of an abort are supported, with these bytes; every other request is refused and changes nothing |
| AbortHandshake.ControlAbortExactly | src/ccid/transport.rs:200-234 | the control half does nothing for another slot, completes an abort whose bulk half is noted, and is otherwise only noted itself |
| AbortHandshake.AbortOrderExactly | src/ccid/transport.rs:108-124 | the two halves commute exactly when the control half is for another slot or both name slot 0 and one number |
| Counterexamples.BulkSlotIgnoredWhenFirst | src/ccid/transport.rs:120-123 | a bulk half for slot 5 is accepted when it comes first and refused when second |
| AbortHandshake.AbortHalvesCommute | src/ccid/transport.rs:200-213 | both halves of an abort for slot 0 reach the same full state in either order |
| TransportRuns.HandleUrb | src/usbip/device.rs:221-249 | dispatch on endpoint number, direction and address: control, 01, 81 and 82 reach their handlers, any other address changes nothing and gets an empty answer |
| TransportRuns.UrbExactly | src/usbip/device.rs:221-249 | which of the operations each endpoint address reaches, and that no other address does anything |
| TransportRuns.RunOk | src/ccid/transport.rs:74-344 | every run keeps: at most 32 responses, those behind the head whole and unlike their neighbour, the head a remainder; truthful notifications; presence flag equal to the bridge's; consistent abort flags; fewer than one message buffered |
| TransportRuns.NoticesInOrder | src/ccid/transport.rs:166-198 | notifications fetched and pending extend everything queued before, in order |
| TransportRuns.EncodedLength | src/ccid/protocol.rs:253-261 | a whole queued response has the length it declares |
| TransportRuns.RunLogged | src/ccid/transport.rs:108-136 | in every run exactly the encodings of the bridge's answers, refusals and abort answers that the frames call for are offered to the queue, one each, in order |
| TransportRuns.RunHeard | src/ccid/transport.rs:142-164 | in every run the messages the host puts together from the replies to its bulk-IN requests are those that the history of the queue accounts for |
| TransportRuns.HostReadsKept | src/ccid/transport.rs:142-164 | in a run that never disrupts a message under way, those messages and the ones still queued are exactly the responses kept, in order |
| TransportRuns.HostReadsResponses | src/ccid/transport.rs:142-164 | in a run without losses the messages put together from the replies, with those still queued, are those encodings in order, without exactly the ones that repeated the last in line; all of them if and only if none did |
| TransportRuns.HostHearsTruth | src/ccid/transport.rs:166-198 | in every run the notifications the host is handed, followed by those pending, flag a change exactly where they differ from the one before and end in the slot's state |
| TransportRuns.BacklogExactly | src/ccid/transport.rs:166-198 | in every run the notifications pending number the responses called for, less the polls that found one while their refresh failed: a poll that succeeds never shortens the line |
| TransportRuns.PollShowsNowExactly | src/ccid/transport.rs:166-182 | after any run a poll shows the slot as it is then exactly when nothing was pending and the refresh succeeds, or the oldest notification happens to show the same |
| Counterexamples.StaleNotice | src/ccid/transport.rs:166-182 | one command, then a poll that finds a card and is told of an empty slot |
| TransportRuns.ServeAllRuns | src/ccid/transport.rs:126-136 | behind the transport the bridge lives through exactly the operations the host's bytes stand for |
| TransportRuns.IssuedApduGate | src/ccid/transport.rs:99-140 | each operation the host's bytes issue, when issued, exchanges an APDU exactly when it is a transfer in an open power session; the bridge then names that session's card |
| TransportRuns.IssuedReachesCard | src/ccid/transport.rs:99-140 | on any PN532, failures included: while no power-off has been issued since its session began, the reader has that session's card at hand and an issued transfer goes straight to it |
| TransportRuns.StackApduGate | src/ccid/transport.rs:99-140 | in the reader call history of any run, an entry is an exchange exactly when an issued transfer in an open power session made it, and it carries that transfer's APDU |
| TransportRuns.NextApduGate | src/ccid/transport.rs:99-140 | the same gate, and the card the bridge names, for any operation that follows a run |
| TransportRuns.StackCoherent | src/ccid/transport.rs:126-198 | after any run on a PN532 with a reliable RF field, transport, bridge and reader agree about the card |
| EndToEnd.CommandsAnswered | src/ccid/transport.rs:99-164 | commands sent in packets cut anywhere and read back in packets of any size: the host gets exactly the responses queued, whole and in order; transport at rest again, bridge after the commands |
| EndToEnd.ConversationAnswered | src/ccid/transport.rs:99-164 | any number of such rounds, with the bridge carried from round to round |
| EndToEnd.PushAllExactly | src/ccid/transport.rs:269-289 | an empty queue takes in all frames pushed exactly when there are at most 32 and no two neighbours are equal |
| EndToEnd.AllAnswersQueuedExactly | src/ccid/transport.rs:269-289 | the queue takes in every answer exactly when there are at most 32 and no two neighbouring answers are equal |
| EndToEnd.EveryCommandAnswered | src/ccid/transport.rs:269-289 | for commands whose neighbours differ in number, none an abort, the host gets the answer to every one exactly when there are at most 32 |
| EndToEnd.PushAllKeeps | src/ccid/transport.rs:269-289 | whatever is pushed, the queue ends up with the last 1 to 32 frames of the line without repeats, the number being fixed by its length alone |
| EndToEnd.LastAnswersKept | src/ccid/transport.rs:269-289 | for any commands, the responses kept are those last answers |
| EndToEnd.OverflowKeepsLast | src/ccid/transport.rs:275-288 | of n answers to commands whose neighbours differ in number, exactly the last (n - 1) mod 32 + 1 are kept |
| EndToEnd.OverflowKeepsOne | src/ccid/transport.rs:275-288 | of 33 such answers only the last is kept |
| Counterexamples.ThirtyThreeEnquiries | src/ccid/transport.rs:275-288 | 33 enquiries sent to a freshly plugged reader leave one answer |
| Counterexamples.TwoEnquiriesOneAnswer | src/ccid/transport.rs:270-273 | two enquiries under one number leave one answer |
| EndToEnd.ReadQueue | src/ccid/transport.rs:142-164 | reading the packets of a queue puts together exactly its frames |
| CcidBridge.CcidBridge.HandleCommand | src/ccid/bridge.rs:40-301 | response and new state are those of `Handle`, for every command and reader; what they are is said by the rows below |
| CcidBridge.CcidBridge.RefreshCardPresence | src/ccid/bridge.rs:307-318 | response and new state are those of `Refresh` |
| BridgeRuns.SucceedsExactly | src/ccid/bridge.rs:40-301 | a command succeeds, with error 0, exactly when the slot and the reader's answer allow it; otherwise it fails with error ff |
| BridgeRuns.AnswerCarries | src/ccid/bridge.rs:40-343 | data is sent exactly for a power-on or transfer that succeeded: the ATR or the card's own reply; parameter commands are answered with the parameters, all else with a bare status |
| BridgeRuns.ParametersExactly | src/ccid/bridge.rs:144-174 | the parameters a command leaves: those accepted, the seven defaults, or the old ones |
| BridgeRuns.StepCallsExactly | src/ccid/bridge.rs:40-318 | an operation makes exactly the one reader call it needs, or none; only the answer to it changes what is known of the card |
| BridgeRuns.RunKnows | src/ccid/bridge.rs:40-318 | over every run the card named is the one the reader's answers leave |
| BridgeRuns.ResponseFaithful | src/ccid/bridge.rs:40-343 | one response per command, same slot and number, error 0 exactly on success; a success reports the slot as it is |
| BridgeRuns.IccFaithfulExactly | src/ccid/bridge.rs:80-207 | the ICC status of any response is the slot's, except in exactly four error branches, which report an inactive card |
| Counterexamples.FourMisreports | src/ccid/bridge.rs:80-207 | each of the four branches reached from a fresh bridge |
| BridgeRuns.ParametersRemembered | src/ccid/bridge.rs:144-174 | parameters accepted or reset are read back until set or reset again, whatever happens in between |
| BridgeRuns.NormalizedApdu | src/ccid/bridge.rs:389-395 | only the class byte of a GET RESPONSE changes, to 00; all other bytes and APDUs are kept |
| BridgeRuns.PoweredExactly | src/ccid/bridge.rs:42-115 | the slot is powered exactly when a power session is open, and the bridge names that session's card |
| BridgeRuns.ExchangesExactly | src/ccid/bridge.rs:191-239 | an operation calls the APDU exchange exactly when it is a transfer on a powered slot; it then makes that one call, with the normalised APDU |
| BridgeRuns.ApduGate | src/ccid/bridge.rs:191-270 | over whole runs an APDU is handed to the reader exactly inside a session opened by a power-on and not ended since, and the bridge still names the card that power-on found |
| BridgeRuns.ExchangeHistory | src/ccid/bridge.rs:191-270 | exchanges in the history of reader calls correspond to the transfers made inside open power sessions |
| TransportRuns.RefreshReports | src/ccid/bridge.rs:303-318 | a refresh reports the card it leaves; one that fails leaves the card as it was |
| Coherence.StepCoherentExactly | src/ccid/bridge.rs:40-318 | a step keeps bridge and PN532 reader agreed exactly when it is not one of two failures of the RF-off command |
| Coherence.RunCoherent | src/nfc/pn532.rs:142-302 | with a reliable RF field every run keeps them agreed: same card, and an active slot has an active target with the field on |
| Coherence.ActiveTransferIsDirect | src/nfc/pn532.rs:244-276 | a transfer on an active slot sends one data exchange to the active target and never polls |
| Coherence.SessionStepHolds | src/nfc/pn532.rs:238-302 | inside a session, on any device: the reader keeps the session's card at hand after a step if and only if the step is not a power-off; once gone, it comes back if and only if a transfer's own poll meets that card |
| Coherence.SessionHoldsCard | src/nfc/pn532.rs:142-302 | over whole runs on any device, RF failures included: in a session with no power-off asked for since it began, the reader has the session's card at hand |
| Coherence.SessionTransferIsDirect | src/nfc/pn532.rs:244-276 | a transfer in such a session sends one data exchange to that card's target and never polls |
| Coherence.TransferOnWire | src/nfc/pn532.rs:274-301 | for a card at hand, PN532 status 00 on the wire gives the host the card's bytes and leaves the slot active; any other status gives a failure and an empty slot |
| Coherence.FailedOffSwitchesCards | src/nfc/pn532.rs:238-262 | a concrete run: after a failed power-off the next transfer polls and exchanges its APDU with another card, in the same session |
| Coherence.FailedOffBreaksCoherence | src/nfc/pn532.rs:238-242 | a concrete run in which a failed power-off leaves the slot active without a target |
| Coherence.FailedOffAfterAbsenceBreaksCoherence | src/nfc/pn532.rs:177-183 | a concrete run in which a refresh that finds the card gone leaves it with the bridge only |
| Coherence.FailedPollKeepsCard | src/nfc/pn532.rs:177-183 | a failed poll keeps the cached card, except when RF-off fails after an absence |
| PseudoAtr.AtrRoundTrip | src/ccid/bridge.rs:345-375 | the ATR parses back to the first 15 historical bytes; T0 to TCK cancel out |
| PseudoAtr.AtrRoundTripExactly | src/ccid/bridge.rs:346-352 | up to 15 bytes: it does so exactly when they do not look like an ATR themselves |
| Counterexamples.DummyAtrPassesThrough | src/nfc/dummy.rs:14-14 | the dummy reader's historical bytes are an ATR and are passed through |
| PseudoAtr.LongHistoryAccident | src/ccid/bridge.rs:346-359 | beyond 15 bytes an ATR passed through can parse back to its own start |
| PseudoAtr.AtsExactly | src/nfc/pn532.rs:325-362 | what is accepted as an ATS is exactly TL, T0, the announced interface bytes and historical bytes |
| PseudoAtr.AtsHistory | src/nfc/pn532.rs:342-361 | the historical bytes of an ATS are found, with any of TA, TB, TC present |
| PseudoAtr.ParseTargetExactly | src/nfc/pn532.rs:177-226 | a poll reply is taken for a given target exactly when it has the documented layout, with a well-formed ATS or none |
| PseudoAtr.HistoricalBytesSurvive | src/ccid/bridge.rs:42-67 | from the card's ATS over the PN532 wire into the power-on response, the first 15 historical bytes survive |
| Pn532Frame.ReceiveDynamicResponseFrom | src/nfc/pn532.rs:426-482 | result and bytes left unread are those of `Receive` |
| Pn532Frame.ReceiveExactly | src/nfc/pn532.rs:426-482 | a payload is accepted exactly when the port holds its normal or extended frame; exactly that frame is consumed |
| Pn532Frame.OutcomeIsFinal | src/nfc/pn532.rs:426-482 | every outcome but a short read stays the same, and consumes the same bytes, whatever bytes follow |
| Pn532Frame.SyntaxExactly | src/nfc/pn532.rs:460-462 | a syntax error is exactly an intact header that declares one byte, in either format |
| Pn532Frame.BodyErrorsExactly | src/nfc/pn532.rs:464-479 | behind an intact header: short read, malformed frame and checksum error, each exactly when |
| Pn532Frame.HeaderErrorsExactly | src/nfc/pn532.rs:430-455 | without an intact header: short read, malformed frame and checksum error, each exactly when |
| Pn532Frame.FormatsDisjoint | src/nfc/pn532.rs:437-455 | the two formats are never confused |
| Pn532Frame.SingleByteErrors | src/nfc/pn532.rs:437-480 | changing one byte of a frame is noticed, except in exactly one described case |
| Pn532Frame.ShortFramesDetectErrors | src/nfc/pn532.rs:437-480 | below frame length D500 every single-byte change is noticed |
| Pn532Frame.HugeFrameMisread | src/nfc/pn532.rs:437-455 | the bound is needed: an extended frame of length D541 that is misread |
| Pn532Reader.Pn532UartReader.PollCard | src/nfc/pn532.rs:142-236 | answer and new state are those of `Poll`, for any device; what they are is said by the rows below |
| Pn532Reader.Pn532UartReader.ExchangeApdu | src/nfc/pn532.rs:244-302 | answer and new state are those of `Exchange`, for any device; what they are is said by the rows below |
| Pn532Reader.Pn532UartReader.SetRfField | src/nfc/pn532.rs:492-508 | no request when the field is already so; a failure leaves the flag |
| Pn532Reader.CachedPollExactly | src/nfc/pn532.rs:142-164 | within the interval, unless a card is cached whose target is gone, a poll repeats the cached answer and touches only the clock |
| Pn532Reader.FieldlessPollExactly | src/nfc/pn532.rs:167-167 | a poll that cannot switch the field on fails and remembers nothing, not even the time |
| Pn532Reader.AskedPollExactly | src/nfc/pn532.rs:167-235 | result and whole new state of any other poll, from the device's answers alone: a failure of its class leaves card and target, a reply listing no target empties the reader, a target described becomes the active one |
| Pn532Reader.NoCardExactly | src/nfc/pn532.rs:142-187 | "no card" is reported exactly when that is cached, or the device lists none and the field goes off |
| Pn532Reader.AbsenceOnWire | src/nfc/pn532.rs:170-183 | the same from the bytes on the wire, in either frame format |
| Pn532Reader.ActiveExchangeExactly | src/nfc/pn532.rs:252-301 | result and whole new state of an exchange with an active target: status 00 alone is a success, with the bytes behind it; any other status forgets card, target and time |
| Pn532Reader.ExchangeFinds | src/nfc/pn532.rs:245-262 | without a target an exchange is its poll followed by an exchange with the target found; an APDU over 310 bytes is refused at once |
| Pn532Reader.ExchangeOnWire | src/nfc/pn532.rs:274-301 | the status byte and reply on the wire, in either frame format, decide the result |
| Pn532Reader.PowerOffExactly | src/nfc/pn532.rs:238-242 | a power-off lets the target go and keeps the card, whatever the device says |
| Pn532Reader.ErrorClasses | src/nfc/pn532.rs:364-387 | silence is a transport error, a broken port an I/O error, anything not understood a protocol error |
| Pn532Reader.PollAgrees | src/nfc/pn532.rs:142-236 | a card reported is cached and its target active with the field on; no card reported means neither; a poll never fails with a lost target |
| Pn532Reader.RunReaderConsistent | src/nfc/pn532.rs:142-302 | over every run, failures included, an active target has its card cached and the field on |
| Pn532Reader.FallbackUnused | src/nfc/pn532.rs:252-262 | the fallback target number is never used |
| Pn532Reader.ExchangeOutcome | src/nfc/pn532.rs:244-302 | a lost target leaves neither card nor target; a success went to the active target with the APDU given |
| Pn532Reader.FreshAnswerIsRepeated | src/nfc/pn532.rs:143-164 | within one second (two without a card) a poll repeats the answer without asking the device; later it asks |
| Pn532Reader.LostTargetAskedExactly | src/nfc/pn532.rs:244-302 | after a lost target the next poll asks the device whenever it comes exactly when a target was active before or was found by the exchange's own poll |
| Pn532Reader.PowerOffAskedExactly | src/nfc/pn532.rs:238-242 | after a power-off it does exactly when there was a card or nothing was ever polled |
| Pn532Reader.AbsenceIsNotAskedAgain | src/nfc/pn532.rs:252-262 | a lost target after which a poll is answered from the cache |

## Left out

- `src/usbip/`: descriptors, feature requests and the USB/IP server; only the dispatch of requests to the transport is modelled. Number and direction of an endpoint are read off its address, as USB 2.0 lays down; the library that does it is not part of this model.
- Locks: the bridge has one user at a time and no lock is ever poisoned, so the branches for a poisoned lock are not modelled.
- Serial port opening, wake-up, SAM set-up, sending of commands and acknowledgements, timeouts: each command's outcome is one entry of the device tape.
- Real time: clock readings come from the tape and need not even increase.
- `src/nfc/dummy.rs`: the canned applet; only the effect of the reader name "dummy" on the status query is modelled.
- Log output, hexadecimal formatting and the AID extraction that feeds it; the text of error messages.
- The `Err` that `handle_bulk_out` would return for an undecodable frame: frames that were taken always decode (`Packetisation.BytesConserved`), so the class has no such branch.
- The `usize` of a 32-bit platform: lengths are unbounded integers; the 32-bit length field is modelled with its truncation.
- `read_exact` on a port with too few bytes leaves an unspecified number unread in the original; here the port is drained.
- CcidProtocol.ParseEncoded: asks for payloads under 2^32 bytes, because the length field holds no more.
- EndToEnd.EveryCommandAnswered: concerns commands whose neighbours differ in number, without aborts; for all commands the exact condition is `EndToEnd.AllAnswersQueuedExactly`.
- PseudoAtr.AtrRoundTripExactly: covers up to 15 historical bytes; beyond 15 the forward direction is `PseudoAtr.AtrRoundTrip`, and the converse is false (`PseudoAtr.LongHistoryAccident`).
- FIDO and CTAPHID paths, command line, configuration and start-up.
