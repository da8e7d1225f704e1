# Reliable frame transport over a raw socket — a verified model

The tool moves commands and files between two hosts over a raw Ethernet
socket. Its protocol engine sits below the command layer and has four parts:

- **Frames** (`Message`). A frame has a 6-bit size, a 4-bit sequence id, a
  6-bit type, up to 59 payload bytes and an XOR parity byte. It is packed
  behind a delimiter byte and zero-filled to 64 bytes on the wire.
  Receiving bytes decodes them back into a frame and raises an error flag
  when the size field or the parity is wrong.
- **Fragmentation.** A long text becomes frames of at most 59 payload
  bytes with consecutive sequence ids, followed by an END frame. The
  receiver concatenates the payloads up to END.
- **The receiver's window step.** It drops noise, corrupted frames and
  an immediate repeat of the last frame. It buffers up to four frames and
  sorts them with a comparator that is aware of the wrap from 15 to 0. It
  then accepts the run of ids that starts at the expected one, and answers
  with an ACK of the last id accepted or a NACK of the expected id.
- **The sender's window step.** It sends up to four frames, stopping after
  END. It moves its queue index and its window start on the answer, and
  erases the sent prefix of the queue once its END frame is acknowledged.

The project has six modules:

| module | role |
|---|---|
| `Wrappers` | the `Option` type |
| `Frame` | constants, type codes, header packing, parity, the building constructors, the getters, equality |
| `Codec` | the byte vector, the 64-byte wire vector, the parity loop, the decoder, round trips, single-bit corruption |
| `Fragmentation` | `fromLongString` and the concatenation of payloads |
| `RingOrder` | the sort comparator, the sort and the receiver's walk |
| `Node` | the `NetworkNode` class, which holds the send queue, the received queue, the receive buffer, the last frame accepted and the counters of both window loops |

How the source's state and loops are modelled:

- Each loop of the source is a method with loop invariants, proved equal
  to a function. The lemmas are stated on those functions.
- The engine's queues are `seq` fields of a class. Its methods modify only
  the fields they name.
- The locals of `sendSequence` (`queueIdx`, `seqStart`) and of
  `receiveSequence` (`startSeq`) are fields. One round of either loop is
  one method call.
- The socket is a parameter. A received datagram arrives as the byte
  count and the bytes `recv` would return, a sent frame is returned to
  the caller, and a timeout is the absence of an answer (`None`).

Four behaviours of the code a reader might not expect:

- The decoder keeps any 6-bit type code. A code that is not in the
  enumeration is accepted, not rejected (`Codec.NonEnumeratedTypeAccepted`).
- The chunking test in `fromLongString` compares the whole text length,
  not the remaining length, with 59. This still produces the correct
  chunks: the other branch is reached only for texts shorter than 59,
  where the loop runs once (`Fragmentation.CopyChunks`).
- The decoder's only way to reject an oversized payload is a size field
  below 4. The subtraction then wraps around in `size_t`
  (`Codec.OversizeOnlyFromSmallSize`).
- A payload over 59 bytes is not truncated to 59 bytes. See Findings.

## Model

| member | source | states |
|---|---|---|
| Frame.HeaderUnpacks | src/Message/Message.cpp:97-104 | unpacking the two header bytes as the decoder does gives back exactly the size, sequence id and type they were packed from |
| Frame.HeaderRepacks | src/Message/Message.cpp:45-50 | any two header bytes are the packing of the three fields the decoder reads from them, so decoding loses no header bit |
| Frame.Parity | src/Message/Message.cpp:71-83 | the parity byte is the check byte of the two header bytes and the payload: the XOR of all of them together with it is zero |
| Frame.Seal | src/Message/Message.cpp:71-83 | recomputing the parity keeps size, id, type and payload and stores the parity of the frame |
| Frame.StoredSequenceId | src/Message/Message.h:109 | the 4-bit field keeps the given `int` id mod 16 (negative ids included) |
| Frame.Truncated | src/Message/Message.h:51-55 | the intended truncation keeps the leading min(n, 59) bytes of the payload |
| Frame.Build | src/Message/Message.h:48-58 | a built frame is well formed (payload at most 59 bytes, size 4 + payload length, correct parity), has the given type, keeps the truncated payload and stores the id mod 16 |
| Frame.BuildAsWritten | src/Message/Message.h:51-56 | as written, a payload over 59 bytes is cut at index 64 and the size 4 + 64 is stored mod 64 |
| Frame.BuildAsWrittenAgrees | src/Message/Message.h:48-58 | a payload of at most 59 bytes is stored unchanged, and the constructor as written equals the intended one |
| Frame.TruncationBreaksFrame | src/Message/Message.h:54-56 | as written, a payload of 64 or more bytes leaves 64 bytes with a size field of 4, which is not a well-formed frame |
| Frame.BuildNumeric | src/Message/Message.h:60-65 | the numeric constructor stores the single byte value mod 256, with size 5 |
| Frame.BuildEmpty | src/Message/Message.h:67-70 | the type-only constructor gives size 4 and an empty payload |
| Frame.GetSize | src/Message/Message.h:86 | the size read back is below 64 (a 6-bit field), and for a well-formed frame it is 4 + payload length |
| Frame.GetSequenceId | src/Message/Message.h:87 | a sequence id read back is below 16 |
| Frame.GetDataAsUl | src/Message/Message.h:93 | the numeric reading is one byte: below 256 |
| Frame.NumericRoundTrip | src/Message/Message.h:93 | the number a numeric frame is built from reads back mod 256, and a frame with no payload reads 0 |
| Frame.Equals | src/Message/Message.cpp:149-152 | `operator==` holds exactly when the two frames are equal values |
| Frame.NotEquals | src/Message/Message.cpp:154-156 | `operator!=` holds exactly when the two frames differ |
| Codec.ByteVector | src/Message/Message.cpp:85-113 | the byte vector is delimiter, header byte 1, header byte 2, payload, parity byte, of length 4 + payload length |
| Codec.ToByteVector | src/Message/Message.cpp:85-113 | the pushing loop builds exactly that byte vector |
| Codec.ParityFoldsFrame | src/Message/Message.cpp:71-83 | the fold that starts at the delimiter and runs over the vector with a zero parity byte cancels the delimiter: it is the XOR of both header bytes and the payload |
| Codec.CalculateParity | src/Message/Message.cpp:71-83 | the accumulator loop computes the frame's parity |
| Codec.CharVector | src/Message/Message.cpp:115-130 | the wire vector is the byte vector followed by zeros up to 64 bytes |
| Codec.ToCharVector | src/Message/Message.cpp:115-130 | the copying and filling loop builds exactly that wire vector |
| Codec.WireFrameLength | src/Message/Message.cpp:125-127 | a well-formed frame takes exactly 64 wire bytes, zero past the parity byte |
| Codec.CharVectorLayout | src/Message/Message.cpp:115-130 | in the wire vector of a frame with at most 59 payload bytes, the header bytes, payload and parity byte sit at positions 1, 2, 3.. and 3 + n |
| Codec.OversizeOnlyFromSmallSize | src/Message/Message.cpp:52-56 | the `size_t` payload length exceeds 59 exactly when the size field is below 4; otherwise it is size − 4 |
| Codec.Decode | src/Message/Message.cpp:42-69 | the decoded size, sequence id and type are the fields unpacked from bytes 1 and 2 |
| Codec.DecodeChecks | src/Message/Message.cpp:52-68 | a size field below 4 is rejected with no payload read; a frame accepted is well formed and its parity byte follows the payload |
| Codec.DecodeReadsMaxSize | src/Message/Message.cpp:42-69 | the decoder reads nothing past the first 63 bytes |
| Codec.DecodeFrame | src/Message/Message.cpp:42-69 | the decoding constructor with its `messageIdx` cursor computes `Decode` |
| Codec.DecodeFrameBytes | src/Message/Message.cpp:42-69 | bytes that carry a well-formed frame's header, payload and parity decode to that frame, without error |
| Codec.RoundTrip | src/Message/Message.cpp:42-69 | decoding the wire vector of a well-formed frame gives a frame `==` to it, with the error flag clear |
| Codec.BuildRoundTrip | src/Message/Message.h:48-58 | every frame the building constructor makes survives the wire with its type, its truncated payload and its id mod 16 |
| Codec.TruncationLosesPayload | src/Message/Message.h:51-56 | as written, the frame built from a payload of 64 or more bytes decodes with an empty payload and differs from the frame sent |
| Codec.NonEnumeratedTypeAccepted | src/Message/Message.cpp:50 | type code 4 is not in the enumeration, and a frame carrying it is still decoded without error |
| Codec.FlipBreaksCheck | src/Message/Message.cpp:64-68 | inverting any one bit of the header bytes, payload or parity byte of a passing frame makes the parity test fail |
| Codec.FailedCheckRejected | src/Message/Message.cpp:64-68 | bytes whose size field names n payload bytes and that fail the parity test raise the error flag |
| Codec.SingleBitFlipDetected | src/Message/Message.cpp:64-68 | a well-formed frame with one sequence, type, payload or parity bit inverted is rejected |
| Fragmentation.Chunks | src/Message/Message.cpp:158-179 | a text always yields at least one chunk |
| Fragmentation.ChunksLength | src/Message/Message.cpp:165-177 | the number of chunks is ceil(n / 59), and 1 for the empty text |
| Fragmentation.ChunkAt | src/Message/Message.cpp:165-177 | chunk k is the text from 59k up to min(59k + 59, n) |
| Fragmentation.ChunkFits | src/Message/Message.cpp:165-177 | every chunk fits in one frame, and a chunk is empty only for the empty text |
| Fragmentation.ChunksConcat | src/Message/Message.cpp:165-177 | the chunks put back together are the text |
| Fragmentation.RoundPayloadIsChunk | src/Message/Message.cpp:167-172 | the payload a round copies, whichever branch of the whole-length test it takes, is chunk k |
| Fragmentation.FragmentAt | src/Message/Message.cpp:165-177 | frame k is the frame built from text[59k .. min(59k + 59, n)) under sequence number `sequence + k` |
| Fragmentation.FragmentWellFormed | src/Message/Message.cpp:165-177 | every frame has the given type, is well formed, carries its chunk whole, has id (sequence + k) mod 16, and has an empty payload only for the empty text |
| Fragmentation.FragmentsReassemble | src/Message/Message.cpp:158-179 | the payloads of the frames concatenate to the text, and there are ceil(n / 59) frames (1 for the empty text) |
| Fragmentation.CopyChunks | src/Message/Message.cpp:165-177 | the copying loop makes one frame per chunk, numbered up from `sequence` |
| Fragmentation.FromLongString | src/Message/Message.cpp:158-179 | `fromLongString` returns the fragments of the text; the empty text gives the single type-only frame |
| RingOrder.ComparatorIsRingOrder | src/Network/NetworkNode.cpp:164-172 | for ids inside one window of four ring values, the comparator puts a before b exactly when a is fewer ring steps from the window's start |
| RingOrder.ComparatorNotTransitive | src/Network/NetworkNode.cpp:164-172 | outside one window the comparator is no order: 12 before 2, 2 before 5, 5 before 12 |
| RingOrder.Insert | src/Network/NetworkNode.cpp:164 | inserting adds exactly the one frame |
| RingOrder.SortById | src/Network/NetworkNode.cpp:164 | the sorted buffer is a permutation of the buffer |
| RingOrder.SortIsRingOrder | src/Network/NetworkNode.cpp:164-172 | on a buffer within one window, the sorted buffer is in ring order from the window's start and in comparator order |
| RingOrder.Walk | src/Network/NetworkNode.cpp:174-182 | the walk accepts no more frames than the buffer holds |
| RingOrder.WalkAccepts | src/Network/NetworkNode.cpp:174-182 | the accepted frames have ids start, start + 1, ... mod 16, and the frame after them, if any, breaks that run |
| RingOrder.NextExpected | src/Network/NetworkNode.cpp:181-185 | the id returned is a sequence id: below 16 |
| Node.EndIndex | src/Network/NetworkNode.cpp:317 | the index found holds an END frame, or is the queue's length, and no END comes before it |
| Node.Filter | src/Network/NetworkNode.cpp:142-160 | a frame passes only from at least 4 bytes behind the delimiter, decoded without error, as the decoded frame, and not equal to the last frame accepted; a decoded, delimited frame of at least 4 bytes is dropped only when it equals the last one |
| Node.FilterAccepts | src/Network/NetworkNode.cpp:142-156 | an accepted frame is the decoded frame, well formed, behind the delimiter, from at least 4 bytes, and not the last frame accepted |
| Node.ReplayIsDropped | src/Network/NetworkNode.cpp:151-159 | the same datagram received right after it was accepted is dropped |
| Node.WireFrameAccepted | src/Network/NetworkNode.cpp:139-156 | the wire bytes of a well-formed frame are accepted as that same frame, unless it is the last one accepted |
| Node.CorruptedFrameDropped | src/Network/NetworkNode.cpp:146-149 | the wire bytes of a well-formed frame with one sequence, type, payload or parity bit inverted are dropped |
| Node.Feedback | src/Network/NetworkNode.cpp:106-114 | the answer is a well-formed one-byte frame, an ACK when the walk moved the expected id and a NACK otherwise |
| Node.FeedbackCarries | src/Network/NetworkNode.cpp:106-114 | on progress the answer is an ACK of (next + 15) mod 16, otherwise a NACK of the expected id; either is a well-formed frame |
| Node.ProgressIffAccepted | src/Network/NetworkNode.cpp:107 | the next expected id differs from the start exactly when the walk accepted a frame |
| Node.EnqueuedTextReassembles | src/Network/NetworkNode.cpp:315-328 | in the queue built from a text, the first END is the one after the fragments, and the payloads before it are the text |
| Node.EndFollowsLastFragment | src/Network/NetworkNode.cpp:327 | the END frame numbered one past the last fragment is numbered (sequence + number of fragments) mod 16 |
| Node.AckAdvance | src/Network/NetworkNode.cpp:46-51 | the ACK step as written always moves the queue index on, by at most 16 for an id below 16 |
| Node.NackAdvance | src/Network/NetworkNode.cpp:56-61 | the NACK step as written stays put for a NACK of the window start, and moves fewer than 16 for an id below 16 |
| Node.RingAckAdvance | src/Network/NetworkNode.cpp:44-53 | the intended ACK step moves 1 to 16 frames on |
| Node.RingNackAdvance | src/Network/NetworkNode.cpp:54-63 | the intended NACK step moves fewer than 16 frames on |
| Node.AckAdvanceIsRingDistance | src/Network/NetworkNode.cpp:46-51 | the ACK arithmetic as written moves by the ring distance plus one exactly when the id did not wrap, or the window started at 7 or 15 |
| Node.NackAdvanceIsRingDistance | src/Network/NetworkNode.cpp:56-61 | the NACK arithmetic as written moves by the ring distance exactly when the id did not wrap, or the window started at 8 |
| Node.AckWrapSkipsFrames | src/Network/NetworkNode.cpp:50 | a window starting at 13 whose ACK names id 0 moves the queue index by 16 instead of 4 |
| Node.NackWrapSkipsFrames | src/Network/NetworkNode.cpp:60 | a window starting at 13 whose NACK names id 0 moves the queue index by 13 instead of 3 |
| Node.RingAdvanceReachesFrame | src/Network/NetworkNode.cpp:44-63 | the intended steps move past the d-th frame of the window on an ACK of it and up to it on a NACK, and the new window start is that frame's successor's id |
| Node.NetworkNode.constructor | src/Network/NetworkNode.h:35-37 | a new node has empty queues and buffer, no last frame, and zero counters |
| Node.NetworkNode.EnqueueLongStringMessageData | src/Network/NetworkNode.cpp:324-328 | the send queue gains the fragments of the text followed by an END frame with id (last fragment + 1) mod 16 |
| Node.NetworkNode.GetLongStringMessageData | src/Network/NetworkNode.cpp:315-322 | the result is the concatenated payloads before the first END, those frames are popped, and the END is left at the front |
| Node.NetworkNode.PopEndMessage | src/Network/NetworkNode.cpp:330-335 | the front frame is popped if and only if it is END; otherwise nothing changes |
| Node.NetworkNode.ReceiveMessage | src/Network/NetworkNode.cpp:139-161 | true exactly when the filter accepts; then the frame is appended to the buffer and remembered, otherwise both are unchanged |
| Node.NetworkNode.HandleReceivedBuffer | src/Network/NetworkNode.cpp:163-186 | the received queue gains the walked prefix of the sorted buffer, the next expected id is returned, and the buffer is emptied |
| Node.NetworkNode.AnswerWindow | src/Network/NetworkNode.cpp:106-114 | after the walk the reply is the ACK or NACK the walk calls for, and `startSeq` moves to the next expected id |
| Node.NetworkNode.ReceiveStep | src/Network/NetworkNode.cpp:100-117 | the frame goes through the filter; the node answers exactly when the buffer then holds four frames or ends with END, and then delivers the walked prefix of the sorted buffer, moves `startSeq` to the next expected id and replies with the ACK or NACK for that walk; otherwise it changes only the buffer and the last frame |
| Node.NetworkNode.TimeoutStep | src/Network/NetworkNode.cpp:119-133 | on a timeout an empty buffer gives no answer and no change; a non-empty one has its walked prefix delivered, `startSeq` moved to the next expected id, the ACK or NACK for that walk as the reply, and is emptied |
| Node.NetworkNode.BeginReceiveSequence | src/Network/NetworkNode.cpp:94 | a receive sequence starts expecting id 0 |
| Node.NetworkNode.BeginSendSequence | src/Network/NetworkNode.cpp:24-28 | a send sequence starts at queue index 0 and window start 0 with no last frame remembered |
| Node.NetworkNode.SendWindow | src/Network/NetworkNode.cpp:30-35 | the frames sent are the queue's frames from `queueIdx` on, one to four of them, with END only last, and four unless an END stopped them |
| Node.NetworkNode.ApplyFeedback | src/Network/NetworkNode.cpp:44-63 | an ACK or NACK moves `queueIdx` by the arithmetic as written and sets `seqStart` to the id after the acknowledged one, or to the refused one; a timeout changes neither; `queueIdx` never decreases |
| Node.NetworkNode.FinishRound | src/Network/NetworkNode.cpp:74-78 | the sequence is done exactly when the frame before `queueIdx` is END, and then exactly the first `queueIdx` frames are erased, the rest in order |
| Node.NetworkNode.SendRound | src/Network/NetworkNode.cpp:29-79 | one round sends the window, moves `queueIdx` and `seqStart` on the answer (`seqStart` to the id after an ACKed one, to a NACKed id, unchanged on a timeout) and erases the acknowledged sequence |

## Left out

- Socket plumbing is left out: opening the socket, `setsockopt`, `send` and `recv`. Frames go in and out as parameters.
- `recv` writes up to 64 bytes into a 63-byte array. This is memory behaviour; the model hands the filter the first 63 bytes.
- The −1 that `recv` returns on a timeout is compared as `size_t`, so the length test lets it through. The model does compare the count as `size_t` (`Node.Filter`), but it takes the bytes as given, not as left over from an earlier datagram.
- Wall-clock timeouts are left out. A timeout is an absent answer (`ApplyFeedback(None)`) or the `TimeoutStep` method. The outer `while` loops of `sendSequence`, `receiveSequence` and `waitSequence` are left out: whether they end depends on the peer.
- Node.NetworkNode.SendRound: the sender's wait loop reads the answer through `receiveMessage`, which in the source also updates `lastMessageReceived` and the receive buffer during `sendSequence`. The model takes the answer as a parameter and leaves both fields alone.
- The command layer is left out: `handleReceivedQueue`, the `handle*` methods, the client, the server, file handling, logging and the `main` programs.
- The inverted delimiter used with the loopback device is not modelled. The delimiter is fixed to 0x7E.
- `toString` and `operator<<` are left out; they only format text.
- Frame.BuildAsWritten: payloads of 60 to 63 bytes are excluded by its precondition. For them the source erases from past the end of the vector, which is undefined behaviour.
- RingOrder.SortById: `std::sort` is modelled as an insertion sort with the same comparator. The order it leaves among frames with equal ids is not modelled. Outside one window of four ring values the comparator is not a strict weak order, and `std::sort` is then undefined; the ordering lemmas require the window.
- Codec.SingleBitFlipDetected: a flip of one of the six size bits is not covered. Such a flip changes how many bytes the decoder reads, so the parity argument does not apply to it.
- Node.NetworkNode.SendWindow: it requires that the window lies inside the queue, or that an END stops it first. Otherwise the source reads past the end of the vector.
- Node.NetworkNode.FinishRound: it requires `queueIdx` to be at most the queue's length. A larger index, which the wrap arithmetic can produce, makes the source read past the end of the vector.
- Node.NetworkNode.GetLongStringMessageData: it requires an END in the received queue. Without one the source reads the front of an empty queue.
- Node.NetworkNode.ApplyFeedback: an answer of any type other than ACK or NACK leaves both counters alone. In the source such a frame is consumed and the wait goes on, which belongs to the timing loop that is left out.
- Node.NetworkNode.AnswerWindow: it requires `startSeq` below 16. The engine keeps that invariant: it is set to 0 and then only to ids returned by the walk.

## Findings

| source | as written | input that shows it | evidently intended | confidence | as-written member | corrected member |
|---|---|---|---|---|---|---|
| src/Message/Message.h:51-56 | a payload over 59 bytes is erased from index 64, and the size 4 + 64 wraps to 4 in the 6-bit field | a 64-byte payload: the frame keeps all 64 bytes with size field 4, and the receiver decodes an empty payload | keep the first 59 bytes, with size 63 | high; not executed | Frame.BuildAsWritten, Frame.TruncationBreaksFrame, Codec.TruncationLosesPayload | Frame.Build, Codec.BuildRoundTrip |
| src/Network/NetworkNode.cpp:50 | after a wrapped ACK, `queueIdx` moves by `(seqStart + a + 2) % 16 + 1` | seqStart 13, frames 13, 14, 15 and 0 accepted, ACK of 0: the index moves 16 frames instead of 4 | move by the ring distance from `seqStart` to `a`, plus one | high; not executed | Node.AckAdvance, Node.AckWrapSkipsFrames, Node.AckAdvanceIsRingDistance | Node.RingAckAdvance, Node.RingAdvanceReachesFrame |
| src/Network/NetworkNode.cpp:60 | after a wrapped NACK, `queueIdx` moves by `(seqStart + a) % 16` | seqStart 13 and a NACK of id 0, three ring steps on: the index moves 13 frames instead of 3 | move by the ring distance from `seqStart` to `a` | medium; not executed | Node.NackAdvance, Node.NackWrapSkipsFrames, Node.NackAdvanceIsRingDistance | Node.RingNackAdvance, Node.RingAdvanceReachesFrame |

How the corrections are used:

- Fragmentation builds its frames with the intended `Frame.Build`. A chunk is never longer than 59 bytes, so the two constructors agree there (`Frame.BuildAsWrittenAgrees`).
- The sender's `ApplyFeedback` keeps the source's arithmetic, so that the engine behaves as the code does.
- The ring steps are proved beside the engine. `AckAdvanceIsRingDistance` and `NackAdvanceIsRingDistance` state exactly when the engine's steps agree with them.
