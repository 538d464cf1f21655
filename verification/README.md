# ThingSet++ in Dafny

This project models the parts of ThingSet++ whose correctness is hardest to see by reading, and proves what they are
for. `dafny verify dfyconfig.toml` checks all of it.

**ISO-TP over CAN** (`src/can/zephyr/isotp/isotp_fast.c`; PCI bytes as in section 9.6 of ISO 15765-2:2016). `IsoTpFrame`
is the wire format, `IsoTpSender` and `IsoTpReceiver` are the handlers of the two contexts as functions, and `IsoTpLink`
joins them by two frame channels into one transition system. Its actions are the handlers, the timers, the completion
callbacks (a step of their own, before the peer can react) and the loss of any frame; a run is any sequence of enabled
actions, for `CAN_MAX_DLEN` 8 or 64 and any block size that both peers use. `IsoTpSafety`, `IsoTpLockstep`,
`IsoTpWindow`, `IsoTpAccounting` and `IsoTpDelivery` prove what holds in every run, and `IsoTpEnding` that every run
ends, and when with a report; `IsoTpErrors` relates errors to their causes in both directions, and `IsoTpPacing` is
about the separation time. `IsoTpConservation` puts the receiver alone against arbitrary frames. `IsoTpContext` holds
the contexts as classes that the handlers update in place, and `IsoTpPair` puts two of these objects on one bus and
proves that every run of theirs is a run of the link, so that the theorems hold of them. `IsoTpNode` is one endpoint
with its lists of contexts: sending, the handlers that free a context, flow control demultiplexing and unbinding.
`CanId` is the address arithmetic.

**The sliding-window codec.** `StreamingEncoder` and `StreamingDecoder` are the two windows with their `memmove`s,
`Framing` is the flat specification of how a report is cut into frames, `ReportRoundTrip` puts them together,
`Subscription` is the reassembly per sender, and `Eeprom` the device form with its header and running checksum (`Crc32`
has the bit-by-bit division of section 3.2.9 of IEEE 802.3 beside the half-byte table).

**The text codec.** `Jsmn` is the tokeniser as a function of its state (RFC 8259, section 2, in the non-strict form the
repository builds) and `JsmnParser` the same in place on a token array. `JsonTokens` defines JSON text and its tokens by
the values they stand for and proves that the tokeniser finds exactly these. `TextEncoder` prints nested lists of
integers into a fixed buffer, `TextDecoder` reads them with a token cursor and a character cursor, and `TextRoundTrip`
proves that this gives the value back. `TextShape` proves when a text decodes into variables of another shape.

**The registry.** `IntrusiveLinkedList` and `FlatteningIterator` are the containers, on links in the heap.
`RegistryLists` says what each operation on one list leaves of all the others and when a node can be threaded into a
list of children without harm. `RegistryHistory` says who is whose child after any sequence of registering and
unregistering, and when that is what the nodes themselves say. `Registry` proves that the eight buckets always agree
with the set of registered nodes and the tree with the history, and `RecordMembers` follows the repository's own test of
nested records.

## What the code does otherwise than one would expect

These came out of the proofs. Each is stated as an exact condition or shown by a run.

- An empty message in CAN FD mode looks like the escape for longer single frames, and the receiver delivers a byte
  that was never sent (`IsoTpSafety.EmptyFdMessageIsGarbled`). It is the only such message
  (`IsoTpSafety.SafeExactlyIfSendable`).
- Sequence numbers keep consecutive frames in order exactly for block sizes 1 to 16, or messages of at most sixteen of
  them (`IsoTpWindow.InOrderExactlyIfNumbersSuffice`). With block size 0, or more than 16, sixteen losses in a row let
  the seventeenth frame pass for the first (`IsoTpWindow.Overtake`). A wrong message is never delivered even then,
  because the bytes then do not add up (`IsoTpSafety.DeliversOnlyTheMessage`).
- A consecutive frame that the driver refuses when the work handler sends it puts the sender into the error state with
  nothing left that would run its handler again, so that its context is never freed and its callback never made. Nothing
  else does this (`IsoTpEnding.AbandonedExactlyIf`), and it does lead to a dead end (`IsoTpEnding.DeadEnd`).
- The receiver counts the waits it asks for in eight bits: with a limit above 255 it asks for ever
  (`IsoTpEnding.WaitsForEver`). With a lower one every transfer ends (`IsoTpEnding.EveryRunEnds`).
- With block size 0, a message longer than the receive buffers is refused and never delivered
  (`IsoTpDelivery.RefusedIsNeverDelivered`).
- The address swap for flow control drops the message type bits, so it agrees with `CanID::getReplyId` exactly on
  request and response identifiers (`CanId.SwapsAgree`).
- The EEPROM encoder declares a second `err` inside its retry loop, so `write` reports success even when every attempt
  failed, and it does not look at the result of writing the header (`Eeprom.Writer.Write`). The chunk is on the device
  exactly if an attempt succeeded, or the last one that was not refused stored it all the same, or all were refused and it
  had been there before (`Eeprom.StoredExactlyIf`); `Eeprom.LoseByte` loses one.
- A number printed on its own that fills the text buffer to the last byte loses its last digit to the NUL that
  `snprintf` writes, and encoding still succeeds. In a list this cannot happen. A 64-bit signed integer is read with
  `strtol`, so it is clamped where `long` has 32 bits (`TextRoundTrip.RoundTrip` has both as its condition).
- The text decoder never counts elements: a list has ended where the character cursor happens to be at a bracket. This
  tells every wrong shape from the right one, for all values, exactly if no closing bracket is left in the buffer right
  behind the text (`TextShape.DecodesExactlyTheMatchingShapes`). If one is, `[[],1]` can be taken for `[[1]]`.
- Appending the tail of an intrusive list to the list once more makes the tail its own successor; nothing else that is
  appended breaks that list (`IntrusiveLinkedList.List.PushBack`). The tail of another list is accepted, and then belongs
  to both: lists of children stay proper exactly if the child is the last of none
  (`RegistryLists.AppendingKeepsTree`).
- Record members with the same id count as duplicates if the ids of their records are the same modulo 255, and a member
  whose record's id is a multiple of 255 also if an ordinary node has the next id (`RegistryNode.DuplicatesExactlyIf`).
  Such a member can be taken for its own parent as well (`RegistryNode.OwnParentExactlyIf`).
- A record member that can have children, such as an array of records, is never found as a parent. Its children are those
  nodes that name it and were registered before it, for good: later ones are never added and those that go are never
  removed (`RegistryHistory.MembersAgreeExactlyIf`). If it is unregistered and registered again while its last child is
  registered and nobody new names it, the list of its children becomes a cycle (`Registry.ProperExactlyIf`,
  `RecordMembers.BuildTwice`): this is what happens to a record that is destroyed and built again.
- Sending to a recipient for whom a message is outstanding takes over that message's context
  (`IsoTpNode.Node.Send`), which keeps the addresses of the contexts distinct but not the message.

## Model

| member | source | states |
|---|---|---|
| IsoTpFrame.SingleFrameIsSingle | src/can/zephyr/isotp/isotp_fast.c:1247-1263 | the receiver reads a single frame back as the message, in nibble or escape form, exactly unless the message is empty in CAN FD mode |
| IsoTpFrame.FirstFrameIsFirst | src/can/zephyr/isotp/isotp_fast.c:763-802 | a first frame declares the message's length and carries its first bytes |
| IsoTpFrame.ConsecutiveFrameIsConsecutive | src/can/zephyr/isotp/isotp_fast.c:804-837 | the j-th consecutive frame carries exactly the j-th slice of the message and j mod 16, and every slice is a step forward |
| IsoTpLink.NextTyped | src/can/zephyr/isotp/isotp_fast.c:596-633 | every enabled action of sender, receiver and bus leads to a state all handlers can run in |
| IsoTpSafety.CfEmits | src/can/zephyr/isotp/isotp_fast.c:804-878 | the sender's position after emitting, refused or not, follows from the number of frames emitted, and what it emits is the slice that is due |
| IsoTpSafety.AcceptKeeps | src/can/zephyr/isotp/isotp_fast.c:517-566 | a frame with the expected number, whichever it is, keeps the receiver's byte count and bounds what can still be missing |
| IsoTpSafety.CompleteIsWhole | src/can/zephyr/isotp/isotp_fast.c:540-552 | a receiver that is complete by its count has taken every frame in order and holds the message |
| IsoTpSafety.StepKeepsCore | src/can/zephyr/isotp/isotp_fast.c:351-462 | every action of either end or of the bus keeps the safety invariant |
| IsoTpSafety.DeliversOnlyTheMessage | src/can/zephyr/isotp/isotp_fast.c:517-566 | in every run, with any losses, refusals and timeouts and any block size, the receiver's callback has been given nothing or the message once |
| IsoTpSafety.EmptyFdMessageIsGarbled | src/can/zephyr/isotp/isotp_fast.c:261-273 | a run in which an empty message in CAN FD mode arrives as one byte |
| IsoTpSafety.SafeExactlyIfSendable | src/can/zephyr/isotp/isotp_fast.c:1244-1298 | among the messages that are accepted for sending, delivery is safe exactly unless the message is empty in CAN FD mode |
| IsoTpLockstep.StepStaysInStep | src/can/zephyr/isotp/isotp_fast.c:825-868 | every action keeps both countdowns tied to the frames emitted, appended and granted |
| IsoTpLockstep.EndsAgree | src/can/zephyr/isotp/isotp_fast.c:533-565 | in every reachable state the k-th consecutive frame carries k mod 16, at most a block has been emitted since the last grant, at most a block has not been appended, both countdowns are exact, and no flow control is sent for a block behind the end of the message |
| IsoTpWindow.ReachableInOrder | src/can/zephyr/isotp/isotp_fast.c:527-536 | under the condition on block size or length every frame appended is the next one |
| IsoTpWindow.Overtake | src/can/zephyr/isotp/isotp_fast.c:527-536 | otherwise there is a run in which the seventeenth frame is appended first |
| IsoTpWindow.InOrderExactlyIfNumbersSuffice | src/can/zephyr/isotp/isotp_fast.c:390-412 | frames are appended in order in every run if and only if the block size is 1 to 16, the message has at most sixteen consecutive frames, or it is refused |
| IsoTpAccounting.CompletedAccounted | src/can/zephyr/isotp/isotp_fast.c:742-761 | a completion callback takes one frame off the count, and ends a single-frame transfer |
| IsoTpAccounting.FlowTakenAccounted | src/can/zephyr/isotp/isotp_fast.c:659-713 | flow control resets the backlog only when nothing is outstanding, so no callback is lost from the count |
| IsoTpAccounting.CallbacksAccountedFor | src/can/zephyr/isotp/isotp_fast.c:822-905 | in every run pending_cb of the live context is the number of accepted frames whose completion has not run, and success is reported at most once, for a long message only with every byte sent and every frame completed |
| IsoTpDelivery.StepStaysSmooth | src/can/zephyr/isotp/isotp_fast.c:839-911 | without loss or delay every action keeps the transfer free of errors and going |
| IsoTpEnding.TheLiveCanAct | src/can/zephyr/isotp/isotp_fast.c:575-594 | in every reachable state, whatever got lost: a live receiver has work or a running timer, a live sender can act if and only if it is not abandoned in the error state, and exactly one result has been reported if the sender is gone, none before |
| IsoTpEnding.AbandonedExactlyIf | src/can/zephyr/isotp/isotp_fast.c:845-859 | the action that abandons the sender is exactly a work handler's run in which the driver refuses the consecutive frame |
| IsoTpEnding.WithoutRefusal | src/can/zephyr/isotp/isotp_fast.c:839-911 | in a run without such a refusal a live sender can always act |
| IsoTpEnding.DeadEnd | src/can/zephyr/isotp/isotp_fast.c:845-859 | a reachable state with a live sender, no result and no action possible, for every message of several frames (unless block size 0 lets it overrun the buffers) |
| IsoTpErrors.TxFaultIsReported | src/can/zephyr/isotp/isotp_fast.c:849-931 | whatever goes wrong for the sender (a timer, a refusal inside the loop, an overflow frame, flow control after a failure), its next work, whatever happens before but flow control, reports exactly that, once, and frees the context |
| IsoTpErrors.RxFaultIsReported | src/can/zephyr/isotp/isotp_fast.c:517-594 | the same for the receiver: a timeout, a wrong sequence number, a flow control frame that could not be sent; nothing is delivered |
| IsoTpErrors.TimeoutBsIsReported | src/can/zephyr/isotp/isotp_fast.c:920-931 | a sender that waits for flow control has its timer running, and once that expires it ends with this report |
| IsoTpErrors.TimeoutCrIsReported | src/can/zephyr/isotp/isotp_fast.c:575-594 | so does a receiver that waits for a consecutive frame |
| IsoTpErrors.FlowControlComesInTurn | src/can/zephyr/isotp/isotp_fast.c:659-713 | flow control that reaches a live sender finds it waiting or failed, never in the middle of a block, and a wait is never one too many |
| IsoTpErrors.ErrorsHaveCauses | src/can/zephyr/isotp/isotp_fast.c:351-594 | in every run the sender reports only success, timeouts, refusals, or an overflow that the receiver has reported too, or an unexpected frame; the receiver reports a wrong sequence number only if an earlier frame was not appended, and without flow control an overflow only if the message does not fit |
| IsoTpErrors.OverflowIsPassedOn | src/can/zephyr/isotp/isotp_fast.c:421-442 | a receiver that reports an overflow sends an overflow frame to a sender that is waiting or has failed |
| IsoTpErrors.WaitsTolerated | src/can/zephyr/isotp/isotp_fast.c:659-713 | since its last clear-to-send frame a sender accepts exactly as many waits as the limit says, or any number if the limit exceeds its eight-bit counter |
| IsoTpPacing.SeparationTimeIsKept | src/can/zephyr/isotp/isotp_fast.c:863-886 | with a separation time, over any part of any run: consecutive frames are at most one more than blocks granted and timer expiries |
| IsoTpEnding.StepUsesWeight | src/can/zephyr/isotp/isotp_fast.c:839-911 | every action, losses, refusals and timeouts included, uses up some of a measure of bytes, frames, work, timers and waits left |
| IsoTpEnding.EveryRunEnds | src/can/zephyr/isotp/isotp_fast.c:839-931 | every run is bounded in length, and where nothing can happen any more the receiver is gone and the sender has reported one result and is gone, or was abandoned |
| IsoTpEnding.WaitsForEver | src/can/zephyr/isotp/isotp_fast.c:412-430 | with a limit on waits above 255, from any state in which the receiver has asked for a wait there are runs of any length in which it asks again and again |
| IsoTpDelivery.StuckMeansDone | src/can/zephyr/isotp/isotp_fast.c:880-911 | where no prompt action is possible the message has been delivered, success reported and both contexts freed |
| IsoTpDelivery.SomethingToDo | src/can/zephyr/isotp/isotp_fast.c:839-911 | until then some prompt action is possible |
| IsoTpDelivery.PromptRunsDeliver | src/can/zephyr/isotp/isotp_fast.c:1244-1298 | prompt runs are bounded in length and end only with the message delivered, for every length from one byte (or none, in classic CAN) to 4095 and every block size, unless block size 0 overruns the buffers |
| IsoTpDelivery.RefusedIsNeverDelivered | src/can/zephyr/isotp/isotp_fast.c:390-412 | a message that block size 0 lets overrun the receive buffers is delivered in no run |
| IsoTpDelivery.RefusalIsReported | src/can/zephyr/isotp/isotp_fast.c:373-442 | prompt runs with such a message are bounded and end only with the overflow, and nothing else, reported by both ends and both contexts freed |
| IsoTpConservation.FirstFrameConserves | src/can/zephyr/isotp/isotp_fast.c:464-508 | bytes buffered and bytes missing add up to the declared length exactly if the first frame's declaration covers its own payload |
| IsoTpConservation.ReceiverConserves | src/can/zephyr/isotp/isotp_fast.c:136-157 | against any sequence of frames, bytes buffered and missing add up to the declared length until an error, no fragment exceeds its buffer, and a message of several frames is dispatched only whole |
| IsoTpPair.Pair.TxComplete | src/can/zephyr/isotp/isotp_fast.c:742-761 | a completion callback of the sending object, single or not, is the link's transition, and the object is gone if it freed itself |
| IsoTpPair.Pair.TxWork | src/can/zephyr/isotp/isotp_fast.c:839-911 | a run of the sending object's work handler is the link's transition: its frame goes out, its result is reported, and the object is gone if it freed itself |
| IsoTpPair.Pair.TxFlow | src/can/zephyr/isotp/isotp_fast.c:659-713 | a flow control frame does to the sending object what the link says, and nothing if there is none |
| IsoTpPair.Pair.RxFrame | src/can/zephyr/isotp/isotp_fast.c:596-633 | a data frame that arrives creates the receiving object, feeds it or is dropped, as the link says |
| IsoTpPair.Pair.RxWork | src/can/zephyr/isotp/isotp_fast.c:351-462 | a run of the receiving object's work handler is the link's transition: flow control, callbacks and freeing |
| IsoTpPair.Pair.Drive | src/can/zephyr/isotp/isotp_fast.c:351-911 | any sequence of events takes the two objects to the state in which that run of the link ends |
| IsoTpPair.Transfer | src/can/zephyr/isotp/isotp_fast.c:1244-1298 | the receiving object's callback is given nothing or the message once; if nothing goes wrong the run is bounded, and either another event is due or the message has been delivered, success reported and both objects freed; in any case one result has been reported if and only if the sender is gone, the run is bounded if at most 255 waits are allowed, a live receiver can act, and so can a live sender unless a consecutive frame was refused |
| IsoTpNode.Node.Find | src/can/zephyr/isotp/isotp_fast.c:62-99 | the context found is the only one with the address, and null means there is none |
| IsoTpNode.Node.Send | src/can/zephyr/isotp/isotp_fast.c:1244-1298 | for any recipient: too long, no context left, refused or sent; a new recipient gets one context that starts as the link does, a known one has its context taken over; addresses stay distinct; the driver is handed one single frame that reads back as the message if a short message is accepted, and nothing otherwise |
| IsoTpNode.Node.Work | src/can/zephyr/isotp/isotp_fast.c:839-911 | a context that its state machine frees is taken off the list, wherever it is, and reported; the rest of the list is untouched; the driver is handed the first or the next consecutive frame of the context's message if it takes one, and nothing else |
| IsoTpNode.Node.Resume | src/can/zephyr/isotp/isotp_fast.c:869-878 | the same when the sender goes round its loop again |
| IsoTpSender.WorkCarries | src/can/zephyr/isotp/isotp_fast.c:763-837 | the work handler hands over the message's first frame, or the slice and sequence number that come next, or nothing |
| IsoTpSender.NextIsConsecutive | src/can/zephyr/isotp/isotp_fast.c:804-837 | at the j-th place of the message that is its j-th consecutive frame |
| IsoTpNode.Node.SingleSent | src/can/zephyr/isotp/isotp_fast.c:1232-1242 | the completion of a single frame reports it, frees its context and takes it off the list |
| IsoTpNode.Node.OnFlowControl | src/can/zephyr/isotp/isotp_fast.c:715-740 | flow control that answers a message on request or response identifier a reaches exactly the context with address a, for any number of concurrent transfers, and leaves all others as they are |
| IsoTpNode.Node.UnbindSends | src/can/zephyr/isotp/isotp_fast.c:1073-1126 | contexts without pending callbacks are freed and reported once each, all others are orphaned in the error state once each, in order |
| IsoTpNode.Node.UnbindReceives | src/can/zephyr/isotp/isotp_fast.c:1048-1126 | the same for receive contexts, the orphans inert, without reports |
| IsoTpNode.Node.Unbind | src/can/zephyr/isotp/isotp_fast.c:1073-1126 | both lists are empty afterwards and every context is accounted for |
| IsoTpNode.PickedOnce | src/can/zephyr/isotp/isotp_fast.c:1084-1126 | freed and orphaned contexts together are exactly those there were |
| CanId.SettingSource | src/can/CanID.cpp:61-66 | setting the source stores it and leaves the target alone |
| CanId.SettingTarget | src/can/CanID.cpp:73-78 | setting the target stores it and leaves the source alone |
| CanId.ReplyIdIsAnInvolution | src/can/CanID.cpp:28-33 | the reply to a reply has the original identifier, with source and target exchanged |
| CanId.SwapsAgree | src/can/zephyr/isotp/isotp_fast.c:1310-1320 | the transport's swap is the reply identifier, and undoes itself, if and only if the identifier is one of a request or response |
| CanId.RepliesAreDistinct | src/can/zephyr/isotp/isotp_fast.c:715-740 | different request or response identifiers are answered on different ones |
| CanId.CanID.GetReplyId | src/can/CanID.cpp:28-33 | the class method builds the reply identifier and marks both fields in its mask |
| Framing.FramesAreFlat | include/thingset++/StreamingThingSetBinaryEncoder.hpp:46-101 | the payloads of a report's frames, joined, are the report |
| Framing.FramesAreFinished | src/can/StreamingCanThingSetBinaryEncoder.cpp:19-35 | types read single, or first, consecutive and last; numbers count modulo 16; all frames but the last are full, and the last is neither empty nor too long |
| Framing.BegunEnds | include/thingset++/StreamingThingSetBinaryEncoder.hpp:46-61 | full frames sent so far and one last frame with the rest are exactly the frames of the whole report |
| StreamingEncoder.Encoder.Write | include/thingset++/ip/StreamingUdpThingSetBinaryEncoder.hpp:38-45 | a write types and numbers one frame with the bytes behind the header, or none if refused |
| StreamingEncoder.Encoder.WriteIfNecessary | include/thingset++/StreamingThingSetBinaryEncoder.hpp:85-101 | at most a frame's worth stays in the window and the stream is unchanged |
| StreamingEncoder.Encoder.Encode | include/thingset++/StreamingThingSetBinaryEncoder.hpp:69-101 | an item is appended to the stream, whole, or the frame that had to go was refused |
| StreamingEncoder.Encoder.Flush | include/thingset++/StreamingThingSetBinaryEncoder.hpp:46-61 | after a flush the frames sent are the specified frames of the whole stream |
| StreamingDecoder.Decoder.Enqueue | include/thingset++/StreamingQueuingThingSetBinaryDecoder.hpp:27-39 | frames are queued until the last one, which fills the window |
| StreamingDecoder.Decoder.Read | include/thingset++/StreamingQueuingThingSetBinaryDecoder.hpp:50-68 | what is copied and what stays queued are together what was queued, and something stays only if the window is full |
| StreamingDecoder.Decoder.EnsureLength | include/thingset++/StreamingThingSetBinaryDecoder.hpp:94-106 | the read position is at most Size afterwards and nothing is skipped or repeated |
| StreamingDecoder.Decoder.Decode | include/thingset++/StreamingThingSetBinaryDecoder.hpp:65-69 | an item of at most Size bytes is the next part of the stream |
| ReportRoundTrip.EncodeReport | include/thingset++/StreamingThingSetBinaryEncoder.hpp:46-101 | for any header size, encoding items and flushing sends the specified frames of all items |
| ReportRoundTrip.Receive | include/thingset++/StreamingQueuingThingSetBinaryDecoder.hpp:27-68 | a report's frames, the last one possibly padded with zeros, put the report's bytes in front of the decoder |
| ReportRoundTrip.ReadReport | include/thingset++/StreamingQueuingThingSetBinaryDecoder.hpp:27-68 | given the frames and the lengths to ask for, the items that the frames were made of are read back byte for byte and in order |
| ReportRoundTrip.RoundTrip | include/thingset++/StreamingQueuingThingSetBinaryDecoder.hpp:27-68 | whatever the items, each at most a frame long, they are read back byte for byte and in order |
| Crc32.HalfBytes | examples/eeprom/main.cpp:125-143 | two table lookups divide by the polynomial like eight single steps |
| Crc32.Crc32IeeeUpdate | examples/eeprom/main.cpp:125-143 | the table-driven loop computes the bit-by-bit CRC for every string and starting value |
| Crc32.Residue | examples/eeprom/main.cpp:125-143 | any data followed by their CRC, low byte first, have the CRC 0x2144DF1C |
| Crc32.CrcOfZero | examples/eeprom/main.cpp:125-143 | the CRC of a zero byte is 0xD202EF8D |
| Crc32.CrcOfChunks | include/thingset++/zephyr/StreamingZephyrEepromThingSetBinaryEncoder.hpp:67 | updating by two strings in turn is updating by their concatenation |
| Crc32.OneWrongByteIsRejected | include/thingset++/zephyr/StreamingZephyrEepromThingSetBinaryDecoder.hpp:41-49 | data that differs in one byte has another checksum |
| Eeprom.HeaderIsRead | include/thingset++/zephyr/StreamingZephyrEepromThingSetBinaryEncoder.hpp:69-75 | the header reads back as written, version and length modulo 65536 |
| Eeprom.Writer.Write | include/thingset++/zephyr/StreamingZephyrEepromThingSetBinaryEncoder.hpp:36-79 | whatever the attempts come to, write succeeds, and the device holds what they left there; flushing writes the header if the driver takes it |
| Eeprom.StoredExactlyIf | include/thingset++/zephyr/StreamingZephyrEepromThingSetBinaryEncoder.hpp:40-61 | the device holds the chunk if and only if an attempt succeeded, or the last attempt not refused was one that could not be read back or only looked wrong, or all were refused and the chunk had been there before |
| Eeprom.LoseByte | include/thingset++/zephyr/StreamingZephyrEepromThingSetBinaryEncoder.hpp:36-79 | write reports success and neither the byte nor the header is on the device |
| Eeprom.Load | include/thingset++/zephyr/StreamingZephyrEepromThingSetBinaryDecoder.hpp:26-84 | given the device and the lengths to ask for, the saved items are read back, all read once the last is decoded, and verified |
| Eeprom.Loader.Read | include/thingset++/zephyr/StreamingZephyrEepromThingSetBinaryDecoder.hpp:76-84 | what is read is the next part of the data and the running CRC covers exactly what has been read |
| Eeprom.Loader.EnsureLength | include/thingset++/StreamingThingSetBinaryDecoder.hpp:94-106 | the window moves on without skipping, and the reader stays a full window ahead or at the end |
| Eeprom.Loader.Verify | include/thingset++/zephyr/StreamingZephyrEepromThingSetBinaryDecoder.hpp:41-49 | once all has been decoded, verify succeeds if and only if the header has the CRC of exactly the saved bytes |
| Eeprom.Save | include/thingset++/zephyr/StreamingZephyrEepromThingSetBinaryEncoder.hpp:36-79 | saving stores the items one after the other behind a header with their length and CRC |
| Eeprom.SaveAndLoad | include/thingset++/zephyr/StreamingZephyrEepromThingSetBinaryDecoder.hpp:26-84 | fewer than 65536 bytes in items of at most a chunk are loaded back and verified |
| Subscription.Listener.OnFrame | include/thingset++/ThingSetSubscriptionTransport.hpp:42-60 | the map of decoders in place does what the handling function says |
| Subscription.SendersDoNotInterfere | include/thingset++/ThingSetSubscriptionTransport.hpp:42-60 | for any interleaving, what a sender's frames lead to is what they lead to on their own |
| Subscription.ReportedExactly | include/thingset++/ThingSetSubscriptionTransport.hpp:42-60 | whatever frames of a sender arrive in whatever order, among any others, the callback is given exactly the stretches from an opening frame to a closing one with no other opening in between |
| Subscription.FinishedIsComplete | src/can/StreamingCanThingSetBinaryEncoder.cpp:29-35 | the frames of an encoded report open and close it |
| Subscription.EachReportOnce | include/thingset++/ThingSetSubscriptionTransport.hpp:42-60 | a sender of complete reports has the callback run once for each, in its order, with exactly its frames |
| Jsmn.ParseStaysNested | include/thingset++/internal/jsmn.h:268-453 | every step keeps the tokens placed in the text read so far, ordered, and nested or disjoint |
| Jsmn.NothingLeftOpen | include/thingset++/internal/jsmn.h:443-450 | a successful parse leaves no container open |
| Jsmn.TokensAreWellNested | include/thingset++/internal/jsmn.h:268-453 | the tokens of a successful parse fit the array, lie in the text, start in increasing order, are nested or disjoint, and containers begin and end with their brackets |
| Jsmn.NoMemIsResumable | include/thingset++/internal/jsmn.h:106-119 | going on with a larger array from where the small one ran out gives what one parse with the larger array gives |
| Jsmn.RoomIsAllThatMatters | include/thingset++/internal/jsmn.h:268-290 | any other outcome does not depend on the size of the array |
| Jsmn.StepStaysSane | include/thingset++/internal/jsmn.h:268-453 | only containers are ever open, whatever the text |
| JsmnParser.JsmnParser.ParsePrimitive | include/thingset++/internal/jsmn.h:135-188 | scans, allocates and fills one primitive in place, or restores the position |
| JsmnParser.JsmnParser.ParseString | include/thingset++/internal/jsmn.h:193-263 | the same for a string with its escapes |
| JsmnParser.JsmnParser.FindQuote | include/thingset++/internal/jsmn.h:203-262 | finds the closing quote behind escapes and hex digits |
| JsmnParser.JsmnParser.OpenContainer | include/thingset++/internal/jsmn.h:281-307 | opens a container below its superior, or leaves everything as it was for lack of room |
| JsmnParser.JsmnParser.CloseContainer | include/thingset++/internal/jsmn.h:308-360 | closes the innermost open container if the bracket matches, and finds the next one out |
| JsmnParser.JsmnParser.Comma | include/thingset++/internal/jsmn.h:379-396 | returns to the innermost open container behind a key's value |
| JsmnParser.JsmnParser.Round | include/thingset++/internal/jsmn.h:275-441 | one round of the loop in place is one step of the specification, failures included, and counts the token that was allocated |
| JsmnParser.JsmnParser.Parse | include/thingset++/internal/jsmn.h:268-453 | the parser in place ends with the specified tokens, position and failure, and what it has counted is the number of tokens, also when it goes on after running out of room |
| TextEncoder.Encoder.AppendFormat | include/thingset++/ThingSetTextEncoder.hpp:122-154 | the text is appended whole if a byte is left for the NUL, and loses its last character if none is |
| TextEncoder.Encoder.EncodeListEnd | src/ThingSetTextEncoder.cpp:209-217 | a trailing separator is replaced by the bracket |
| TextEncoder.Encoder.EncodeArray | include/thingset++/ThingSetEncoder.hpp:244-255 | encoding a list succeeds if and only if its text fits, and then appends exactly that text |
| TextEncoder.Encoder.Encode | src/ThingSetTextEncoder.cpp:80-158 | the same for any value, and the text written is the value's exactly unless it is a number that fills the buffer |
| JsonTokens.PrimitiveFoundExactlyIf | include/thingset++/internal/jsmn.h:135-188 | a primitive is found to end at n if and only if printable characters up to n are followed by a delimiter or the end |
| JsonTokens.StringFoundExactlyIf | include/thingset++/internal/jsmn.h:193-263 | a string is found to end at q if and only if a sequence of characters, plain, escaped or of four hex digits, stands up to the quote at q |
| JsonTokens.ParseEntries | include/thingset++/internal/jsmn.h:308-396 | the members or elements of a container, with keys, colons, commas and white space, add their tokens, and the bracket closes the container with their number as its size |
| JsonTokens.ParseJson | include/thingset++/internal/jsmn.h:268-453 | tokenising any JSON value anywhere adds exactly its tokens, and one child to what is around it |
| JsonTokens.JsonIsTokenised | include/thingset++/internal/jsmn.h:268-453 | the text of any value of objects, arrays, strings and primitives, with any white space, is tokenised into exactly the value's tokens: kinds, starts, ends, and sizes that count keys and elements |
| TextTokens.BufferIsTokenised | include/thingset++/internal/jsmn.h:268-453 | the encoder's text of a value, at the end of the text or before a NUL, gives exactly the value's tokens |
| TextTokens.TextIsTokenised | include/thingset++/ThingSetTextDecoder.hpp:98-104 | the whole text of a value is tokenised into exactly the value's tokens |
| TextDecoder.ParsingOnChangesNothing | include/thingset++/ThingSetTextDecoder.hpp:98-104 | repeating a parse that ended makes no difference, so the decoder may ignore its result |
| TextDecoder.Decoder.GetTokens | include/thingset++/ThingSetTextDecoder.hpp:98-104 | the token array is filled on first use |
| TextDecoder.Decoder.ExpectType | src/ThingSetTextDecoder.cpp:224-241 | both cursors move to the token if it has the type and stay otherwise |
| TextDecoder.Decoder.DecodeListEnd | src/ThingSetTextDecoder.cpp:157-165 | the character cursor passes a closing bracket and nothing else |
| TextDecoder.Decoder.DecodePrimitive | include/thingset++/ThingSetTextDecoder.hpp:76-88 | reads one number at its token and moves behind its last digit |
| TextDecoder.Decoder.DecodeArray | include/thingset++/ThingSetDecoder.hpp:102-121 | reads elements one by one up to the first failure |
| TextDecoder.Decoder.Decode | src/ThingSetTextDecoder.cpp:75-137 | decoding into any shape, from any tokens, does what the specification says |
| TextRoundTrip.DecimalIsRead | src/ThingSetTextDecoder.cpp:123-137 | digits printed are read back as the number |
| TextRoundTrip.ValueDecodes | src/ThingSetTextDecoder.cpp:152-241 | wherever a value's text and tokens stand, decoding its shape consumes exactly these and yields the value |
| TextRoundTrip.AnyNumberDecodes | src/ThingSetTextDecoder.cpp:75-137 | any number, for any integer type, reads as the value of the type that is congruent to what the conversion function can say of it |
| TextRoundTrip.LongIsRead | src/ThingSetTextDecoder.cpp:131-137 | a 64-bit signed integer reads as itself if it fits a long, and as the nearest end of its range otherwise |
| TextRoundTrip.ReadBackExactlyIfLongsFit | src/ThingSetTextDecoder.cpp:131-137 | what is read back is the value if and only if its 64-bit signed integers fit a long |
| TextRoundTrip.CutOffIsNotReadBack | include/thingset++/ThingSetTextEncoder.hpp:143-154 | a number cut off by the end of the buffer is never read back as itself |
| TextRoundTrip.RoundTrip | include/thingset++/ThingSetEncoder.hpp:244-255 | encoding succeeds if and only if the text fits, and then the value is read back if and only if it is a list or leaves a byte free, and its 64-bit signed integers fit a long |
| TextShape.ValueIsLaid | include/thingset++/internal/jsmn.h:268-453 | the tokens of a value are in order in its text and end where their digits end; from each of them on there are as many closing brackets as arrays, and as many in all |
| TextShape.JumpingSkips | src/ThingSetTextDecoder.cpp:224-241 | jumping to the next token never adds to the closing brackets left over, and loses one if the cursor stood at one |
| TextShape.ValueKeepsSlack | include/thingset++/ThingSetDecoder.hpp:102-121 | decoding into any shape that succeeds never adds to the closing brackets left over, counted from where its first token starts |
| TextShape.RestTakesSlack | src/ThingSetTextDecoder.cpp:157-165 | decoding the rest of an array and its bracket uses up at least one closing bracket |
| TextShape.NumberIsReadToItsEnd | src/ThingSetTextDecoder.cpp:123-137 | every integer type consumes exactly the text of a number |
| TextShape.UnskippedValueMatches | include/thingset++/ThingSetDecoder.hpp:102-121 | a decode that succeeds and skips no closing bracket had the value's shape and ends right behind the value |
| TextShape.MatchingValueDecodes | include/thingset++/ThingSetDecoder.hpp:102-121 | wherever a value stands, a shape with its lengths decodes, whatever the integer types, and ends right behind it |
| TextShape.BracketBehindMisleads | src/ThingSetTextDecoder.cpp:157-165 | with a closing bracket behind the text, some text decodes into a shape that is not its value's |
| TextShape.DecodesExactlyTheMatchingShapes | src/ThingSetTextDecoder.cpp:152-165 | decoding every text into every shape succeeds if and only if the lengths match, exactly if no closing bracket follows the text in memory |
| IntrusiveLinkedList.List.PushBack | include/thingset++/internal/IntrusiveLinkedList.hpp:143-158 | a link without successor that is not in the list is appended and one with a successor is ignored; the list is proper afterwards if and only if the link was not its tail, and appending another link repairs it |
| IntrusiveLinkedList.List.Remove | include/thingset++/internal/IntrusiveLinkedList.hpp:165-191 | exactly that link leaves the list, if it was there, and the tail is right again |
| IntrusiveLinkedList.WithoutIsExact | include/thingset++/internal/IntrusiveLinkedList.hpp:165-191 | removing one element of distinct ones removes that one only |
| FlatteningIterator.FlatteningIterator.constructor | include/thingset++/FlatteningIterator.hpp:23-31 | everything in all lists is still to be visited, in order |
| FlatteningIterator.FlatteningIterator.Advance | include/thingset++/FlatteningIterator.hpp:38-44 | one step leaves all but the current element to be visited |
| FlatteningIterator.FlatteningIterator.AdvancePastEmpty | include/thingset++/FlatteningIterator.hpp:68-75 | empty lists are skipped without losing an element |
| FlatteningIterator.FlatteningIterator.EndsWhenAllVisited | include/thingset++/FlatteningIterator.hpp:51-60 | the end is reached if and only if nothing is left |
| RegistryNode.MembersAreElsewhere | src/ThingSetRegistry.cpp:14-18 | a record member is never in the bucket of its own id |
| RegistryNode.DuplicatesExactlyIf | src/ThingSetRegistry.cpp:20-30 | exactly which pairs of nodes count as duplicates |
| RegistryNode.OwnParentExactlyIf | src/ThingSetRegistry.cpp:54-60 | exactly which nodes the check keeps from their parent |
| RegistryLists.PushToBucket | src/ThingSetRegistry.cpp:66-78 | a new node is in the bucket of its effective id and no other; all other lists are as they were |
| RegistryLists.RemoveFromBucket | src/ThingSetRegistry.cpp:90-95 | a node leaves its bucket; all other lists are as they were |
| RegistryLists.AppendingKeepsTree | src/ThingSetParentNode.cpp:23-27 | appending a child leaves all lists of children proper and disjoint if and only if it was the last child of nobody, not even of this parent |
| RegistryLists.AddChild | src/ThingSetParentNode.cpp:23-27 | what appending a child does whatever lists it is in; the index is as it was |
| RegistryLists.RemoveChild | src/ThingSetParentNode.cpp:29-33 | exactly this child leaves its parent; all other lists are as they were |
| RegistryLists.FindById | src/ThingSetRegistry.cpp:120-155 | finds a node exactly if a scan of all nodes would, and never a record member |
| RegistryLists.EachNodeIsVisitedOnce | src/ThingSetRegistry.cpp:157-180 | iterating over the buckets visits every node exactly once |
| RegistryLists.AdoptAll | src/ThingSetRegistry.cpp:79-87 | whoever names the new parent and had no successor is its child afterwards, in addition to those it still had; its list is proper unless its old last child was met and nobody new was |
| RegistryLists.AdoptingKeepsTree | src/ThingSetRegistry.cpp:79-87 | adopting leaves all lists of children proper if and only if they were, no adopted node was the last child of another, and if the parent's own old last child is among them so is a node that was nobody's child |
| RegistryLists.AdoptedAgain | src/ThingSetRegistry.cpp:79-87 | if all who name the parent still are its children from an earlier time, its list becomes a cycle |
| RegistryHistory.OrdinaryNodesAgree | src/ThingSetRegistry.cpp:50-95 | in any order of registering, with parents leaving after their children, the children of a node that is no record member are exactly the registered nodes that name it |
| RegistryHistory.MembersKeepWhomTheyMet | src/ThingSetRegistry.cpp:79-107 | a record member's children are exactly those that name it and were registered when it was |
| RegistryHistory.MembersAgreeExactlyIf | src/ThingSetRegistry.cpp:79-107 | they are the registered nodes that name it if and only if whoever names it and was there then is there now, and the reverse |
| Registry.FindParentById | src/ThingSetRegistry.cpp:97-107 | the one node with the id that is no record member and can have children |
| Registry.FindMember | src/ThingSetRegistry.cpp:131-149 | finds exactly the record member with this id in this record, if the record is registered |
| Registry.IsDuplicate | src/ThingSetRegistry.cpp:67-76 | looking into one bucket finds a duplicate exactly if there is one anywhere |
| Registry.Attach | src/ThingSetRegistry.cpp:50-88 | a registered node becomes the last child of its parent if that is found, and whoever names it its child; all lists stay proper if and only if a condition on the lists before holds |
| Registry.ProperExactlyIf | src/ThingSetRegistry.cpp:79-87 | with distinct parents, and ordinary nodes leaving after their children, registering keeps the lists proper if and only if the node's last child from an earlier time is not registered or somebody new names it, hence always for ordinary nodes |
| Registry.Registry.constructor | src/ThingSetRegistry.cpp:32-37 | root and _Metadata are indexed and nobody's children |
| Registry.Registry.RegisterNode | src/ThingSetRegistry.cpp:63-88 | exactly duplicates are refused; the index agrees with the registered nodes in any case, and the tree stays proper and follows the history if and only if nothing was in the way |
| Registry.Registry.UnregisterNode | src/ThingSetRegistry.cpp:90-95 | any registered node can be unregistered, children registered or not: index and tree follow the history |
| RecordMembers.BuildTwice | tests/TestRecordMembers.cpp:13-21 | built once, the array of records has exactly one child; destroyed and built again, the list of its children is a cycle |
| RecordMembers.BuildLate | tests/TestRecordMembers.cpp:13-21 | registered in the other order, the array never gets its child although both are registered |

## Left out

- The 32-bit first-frame length escape is modelled only as far as the receiver truncates it to its 12-bit counter; extended and custom addressing, blocking receive, the receive queue and per-frame dispatch are not modelled.
- zephyr/canbus/isotp.h and the CAN driver are not part of this model; their constants are taken from ISO 15765-2:2016.
- A flow control frame that the driver refuses is left out: it re-enters the state machine from inside itself.
- IsoTpPair.Transfer: one message, with a context of its own; several at a time to one recipient share a context in the code (IsoTpNode.Node.Send says how), and their delivery is not claimed.
- IsoTpNode.Node.SingleSent frees the context even if it has been taken over by another message, as the code does; a callback or work item that then finds a freed context is not modelled.
- IsoTpAccounting.CallbacksAccountedFor: says nothing about a context that has been freed; the error path frees without looking at pending_cb.
- IsoTpEnding.EveryRunEnds: for a limit on waits up to 255, as Zephyr's configuration allows; Zephyr's Kconfig files are not part of this model.
- IsoTpDelivery.PromptRunsDeliver: needs no loss, no refusal, enough buffers and timers that fire only when waited for, as the design promises nothing otherwise.
- Fields that the code leaves uninitialised, and bytes of a frame behind its payload, are arbitrary parameters (`noise`, `pad`).
- zcbor is not part of this model: an item is a byte string that is put into the window or taken from it whole, and what zcbor is told of the payload's end is not claimed.
- StreamingEncoder.Encoder.Encode: items are at most `Size` minus the header long, which is what the window is made for; a longer one would overrun it in the code.
- StreamingDecoder.Decoder.EnsureLength: for header size 0 only; with the UDP header the shift keeps fewer bytes than may have been loaded.
- StreamingDecoder.Decoder.Enqueue: frames before the last are full, as the encoder sends them.
- Eeprom.SaveAndLoad: on a device without faults; with faults, Eeprom.Writer.Write says what is stored.
- Text: floats, booleans, strings, maps and array abbreviation are left out, as their texts do not read back in general.
- TextDecoder.Decoder.ExpectType: a token behind those the parser filled in counts as one of no type, and memory behind the buffer as holding no digit and no bracket, where the code reads whatever is there.
- TextDecoder.Strto leaves out leading white space, which no token starts with.
- JsonTokens.JsonIsTokenised: for JSON; the non-strict tokeniser also accepts other texts, of which only the nesting of their tokens is claimed (Jsmn.TokensAreWellNested).
- jsmn with a null token array, in strict mode or with parent links is not modelled, as the repository does not build these.
- Registry.Registry.RegisterNode: a duplicate stops at the assertion; in a build without assertions the code goes on to add the node to its parent's children. That the tree follows the history is claimed if no two nodes that can have children share an id; that the lists stay proper is not limited to this.
- Once a list of children is a cycle, nothing further is claimed of it: removing a child that is not in it would not end.
- The history and the set of all nodes are ghost parameters of the registry's methods; the registry itself has only its lists, as in the code. The order of a node's children is not claimed.
- Search by name, subsets, request dispatch, address claiming, sockets, threads and logging are not modelled.
