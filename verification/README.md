# Media transport of the web player

A Dafny model of how a media frame travels from the server's file to the client's decoder, and
proofs that it arrives. The model follows the source's own shape: the server's writers, parsers
and timer handlers and the client's reassembler and queue are classes and methods with loops and
in-place updates, each proved against a function that says what it computes; the theorems are
about those functions and about whole runs.

The chain, in the order in which data flows:

1. **From the file.** A raw H.264 or H.265 stream is cut at its start codes (`AnnexB`), grouped
   into access units (`AccessUnits`), and its parameter set is searched for the frame rate:
   emulation prevention bytes are removed (`EmulationPrevention`), a bit reader with Exp-Golomb
   codes (`BitReader`) drives the parser (`SpsSyntax`, `SpsParser`); `NalParser` loads the file.
   `SpsPrinter` packs a printed parameter set into bytes.
   Each layer has a printer after ITU-T H.264, and each is shown to read its printer back.
2. **Playback.** `Scheduler` and `MediaServer` hold the 10 ms tick over packets sorted by time and
   the raw mode that sends one access unit a tick. `Session`, `Server` and `EventLoop` are the
   connections: the receive loop, negotiation, the timer, and all interleavings of their events;
   `RunDelivery` follows whole runs of events to the bytes and to the clients.
3. **On the wire.** A frame becomes one message or a run of 16 KiB fragments (`FrameFormat`,
   `FrameEncoder`), each in a binary WebSocket frame (`WebSocket`, RFC 6455 sections 5.2 and 5.3).
4. **At the client.** A bounded queue that drops its oldest packet (`DataBufferQueue`,
   `QueuedDelivery`), then the sixteen-slot reassembler (`FrameParser`), which refines a map from
   frame ids to partly received frames (`Reassembly`); `Eviction` tells which frame a full table
   gives up.

The main results:

- `Delivery.EveryFrameExactlyOnce`: every fragment of a set of frames fed once, in any order and
  interleaving with at most sixteen frames open: each frame comes out once, intact, with its last
  fragment, and nothing is left in the table.
- `FrameDelivery.DeliveredExactly` and `StreamDelivery.StreamFromAnyTable`: from any well-formed
  table, whatever rests its entries hold, of one earlier frame or of several, exactly when the
  frames sent come out as sent; `EndToEnd.SendStream` is the same for a parser object.
  `LossyStream.OrderedLossyStream`: exact outcomes over an ordered channel that loses
  messages while ids repeat; `QueuedDelivery.ReceiveQueued` puts the browser's queue there, over
  any number of calls of its loop.
- `Delivery.NoCorruption`: under loss, duplication, reordering and eviction, a delivered frame is
  the one sent under its id. `EndToEnd` states these for the parser class.
- `RunDelivery.RunReachesClient`: for every run of events and every connection, from the bytes
  the run puts on the socket, offer, pongs and close frames among them, through any splitting of
  the byte stream and reassembly: exactly what the client gets. `MediaServer.ClientHoldsDuePackets`
  and `RawPlayback.ClientHoldsFile` say it for the methods that write the bytes, from the packets
  or the file, also when the sixteen-bit frame counter wraps.
- `MediaServer.VideoServer.OnTimerMp4`: each tick terminates and leaves exactly the due packets
  sent.
- `Session.ChunkingIndependent`: a connection does not depend on how its input is split;
  `ProcessTakesFrames`, `ReceiveFollowsAnswer` and `PingsAreAnswered` say what it does with it.
- `Server.MediaOnlyAfterNegotiation`, `StateRankNeverFalls`, `TimerClosesOverdue`: over every run
  of events on any number of connections.
- `NalParser.StreamRoundTrip` over `SpsParser.PrintedSpsIsRead` and `SpsSyntax.SpsBack`: every
  printed stream is loaded back, with the frame rate its parameter set announces.
- `AccessUnits.FewestAccessUnits`: the greedy grouping is minimal.

What every operation computes is also stated without the model's own functions, on bytes, bits and
times, with the numbers of the source or of the standards written out: `FrameEncoder.WholeBytes` and
`FragmentWire`, `FrameFormat.VerdictBytes` and `FieldBytes`, `WebSocket.ParsedBytes` and
`PrintedBytes`, `AccessUnits.StreamGrouped`, `Scheduler.DueTimeGap`, `Server.TimerExactly`,
`EmulationPrevention.KeepsAllBut`, `BitReader.AnyCode`, `RunDelivery.ControlBytes` and others below.
The parameter set syntax of `SpsSyntax` is likewise written without the parser's functions.

Where the code does not do what one would expect of it, there is an input and the exact condition:

| expected | input | exact condition |
|---|---|---|
| a frame is delivered as sent although its id was used before | `FrameDelivery.StaleFragmentMixes`, `FrameDelivery.MixedRestArises` | `FrameDelivery.DeliveredExactly`, `FrameDelivery.ComesOutExactly`, `StreamDelivery.StreamFromAnyTable` |
| a full table gives up its oldest entry | `Eviction.EighteenFrames`, `Eviction.SecondEvictionLosesNewest` | `Eviction.EvictsOldestExactly` |
| frames of any size arrive | `FrameFormat.BadTotalRejected` | `StreamDelivery.StreamExactly`, `RawPlayback.ClientGetsFileExactly` |
| malformed extension regions are discarded | `FrameFormat.OversizedCommonLengthIsNotDiscarded`, `FrameFormat.ShortTypePartIsNotDiscarded` | `FrameFormat.DiscardsExactly`, `FrameFormat.WellFormedExactly` |
| a message shorter than it announces is refused | `FrameFormat.ShortMessagePasses` | `FrameFormat.ShortMessagePassesExactly` |
| bytes from a client do not end the server | `Server.TenBytesEndTheServer` | `Server.CrashExactly`, `Session.FailsExactly` |
| the frame rate of every H.264 parameter set is found | `SpsSyntax.UnknownHighProfileMisread` | `SpsSyntax.ReadBackExactly` |
| the queue keeps its byte limit | `DataBufferQueue.ByteLimitCanBeExceeded` | `DataBufferQueue.ByteLimitAfterEnqueue` |
| removing emulation prevention undoes inserting it | `EmulationPrevention.OneZeroIsNotRestored` | `EmulationPrevention.RoundTripWithTrailing` |
| the server and the checking tool find the same start codes | `AnnexB.ToolFindsOneMore` | `AnnexB.SplittersAgree` |

## Code and documentation

Where the protocol document (docs/websocket_frame_protocol.md) and the code differ, the model
follows the code:

- The document's heading gives the fixed header 13 bytes (line 31), its own table adds up to 20;
  code writes and reads 20.
- The document caches fragments under (stream_id, msg_type, frame_id) (line 205); the code looks
  them up by frame_id alone.
- The document drops a frame after 500 ms (line 207); the code defines the constant and never uses
  it. A stale fragment stays until its frame is complete or its slot is evicted.
- The document discards messages whose extension region has no room for the fragment or common
  part, whose common_length exceeds it, or whose type-specific part is shorter than the minimum
  for its type, later fragments excepted (lines 266-270). The code discards only fragments
  without a usable fragment part; otherwise it skips the layer, or goes on at an offset kept in
  eight bits (`FrameFormat.DiscardsExactly`).
- The document's audio extension has three bytes (line 328 counts 13 with the common one); the
  code's has four, and of three it reads nothing (`FrameFormat.DocumentedAudioPartIsIgnored`).
- A comment in the code (src/wasm/frame_protocol.c:111) calls the entry it evicts the oldest; it
  evicts slot 0, whichever frame that holds (`Eviction`).
- After a rejected answer the receive loop goes on taking frames from the buffer until it is
  empty; what they would send goes nowhere. Bytes that arrive together with the HTTP request are
  discarded.

## Model

| member | source | states |
|---|---|---|
| `Bytes.ReadWrite16` | src/wasm/frame_protocol.c:53-55 | the client's 16-bit read inverts the server's 16-bit write |
| `Bytes.ReadWrite32` | src/wasm/frame_protocol.c:57-60 | the same for 32 bits |
| `Bytes.ReadWrite64` | src/wasm/frame_protocol.c:62-68 | the same for signed 64-bit numbers, through the unsigned cast |
| `Bytes.BEOfFromBE` | src/wasm/frame_protocol.c:62-68 | the other way round: writing what was read gives the bytes back |
| `Bytes.BEIsOctets` | src/server/frame_protocol.cpp:7-24 | byte i of an n-byte number is the number divided by 256 to the power n - 1 - i, modulo 256 |
| `Bytes.ReadEight` | src/wasm/frame_protocol.c:62-68 | what eight bytes denote, as a signed number, written out; ReadTwo and ReadFour are the shorter ones |
| `Bytes.ByteBuffer.WriteBE16` | src/server/frame_protocol.cpp:7-10 | appends the two bytes, most significant first |
| `Bytes.ByteBuffer.WriteBE32` | src/server/frame_protocol.cpp:12-17 | appends the four bytes |
| `Bytes.ByteBuffer.WriteBE64` | src/server/frame_protocol.cpp:19-24 | the shifting loop appends the eight bytes of the two's complement |
| `FrameFormat.LayoutReadBack` | src/wasm/frame_protocol.c:154-205 | every well-formed extension region is read back exactly, with unknown common fields, free flag bits and trailing bytes |
| `FrameFormat.ForwardCompatible` | src/wasm/frame_protocol.c:176-204 | new common bits with their bytes and a longer type-specific part change no decoded field |
| `FrameFormat.OversizedCommonLengthIsNotDiscarded` | src/wasm/frame_protocol.c:189-198 | a concrete family: a common_length beyond the region is accepted and video fields are read out of the fragment header |
| `FrameFormat.DiscardsExactly` | src/wasm/frame_protocol.c:251-310 | which complete messages are discarded: exactly the fragments without room for a fragment part or with a total of 0 or above 256; so of the messages that the document's four rules (docs/websocket_frame_protocol.md:266-270) want discarded only those are, and neither a malformed common part nor a short type-specific part is ever a reason |
| `FrameFormat.ShortTypePartIsNotDiscarded` | src/wasm/frame_protocol.c:193-204 | an input: a video message with two bytes of type-specific part is delivered without video fields |
| `FrameFormat.DocumentedAudioPartIsIgnored` | src/wasm/frame_protocol.c:193-204 | an input family: an audio part of the three bytes the document gives it is accepted and its fields are ignored |
| `FrameFormat.OversizedCommonLengthExactly` | src/wasm/frame_protocol.c:189-204 | what becomes of the others with a common_length beyond the region: type-specific fields are read if and only if the wrapped eight-bit offset leaves four bytes, and which ones |
| `FrameFormat.WellFormedExactly` | src/wasm/frame_protocol.c:154-205 | a region is one that a sender can print under these flags if and only if its parts fit; with LayoutReadBack, exactly then are the decoded fields the ones meant |
| `FrameFormat.ShortMessagePassesExactly` | src/wasm/frame_protocol.c:251-254 | the signed size check lets a message pass that is shorter than it announces if and only if the announced size is 2^31 or more and, less 2^32, at most the size |
| `FrameFormat.ShortMessagePasses` | src/wasm/frame_protocol.c:251-254 | an input: a bare header announcing 2^31 bytes |
| `FrameFormat.HeaderReadBack` | src/wasm/frame_protocol.c:232-257 | each field of a printed fixed header is found where the parser looks for it |
| `FrameFormat.MessageReadBack` | src/wasm/frame_protocol.c:221-310 | a printed message decodes to what was printed, whole or fragment |
| `FrameFormat.BadTotalRejected` | src/wasm/frame_protocol.c:307-310 | a fragment with total 0 or above 256 is an error |
| `FrameFormat.HeaderBytes` | src/server/frame_protocol.cpp:26-49 | the twenty bytes of the fixed header, written out |
| `FrameFormat.VerdictBytes` | src/wasm/frame_protocol.c:221-310 | which messages are errors, which skipped, which whole and which fragments, for all messages and told from their bytes |
| `FrameFormat.FieldBytes` | src/wasm/frame_protocol.c:154-310 | and for those taken every field, the eight-bit offset included, told from their bytes |
| `FrameEncoder.WriteFixedHeader` | src/server/frame_protocol.cpp:26-49 | appends the 20-byte header of the format |
| `FrameEncoder.WriteCommonExtHeader` | src/server/frame_protocol.cpp:51-59 | appends a common part holding abs_time |
| `FrameEncoder.WriteVideoExtHeader` | src/server/frame_protocol.cpp:61-70 | appends the video part with resolution 0 |
| `FrameEncoder.WriteFragmentExtHeader` | src/server/frame_protocol.cpp:72-79 | appends frame id, index and total |
| `FrameEncoder.WriteAudioExtHeader` | src/server/frame_protocol.cpp:158-166 | appends the four-byte audio part |
| `FrameEncoder.TakeChunk` | src/server/frame_protocol.cpp:117-121 | cuts out chunk i, of 1 to 16384 bytes |
| `FrameEncoder.EncodeVideoFragment` | src/server/frame_protocol.cpp:123-149 | one fragment, its announced sizes those of its parts; only fragment 0 carries common and type parts |
| `FrameEncoder.EncodeVideoFrame` | src/server/frame_protocol.cpp:81-156 | the list of messages of a frame, whole or fragmented, in index order |
| `FrameEncoder.EncodeAudioFragment` | src/server/frame_protocol.cpp:218-242 | the same for audio |
| `FrameEncoder.EncodeAudioFrame` | src/server/frame_protocol.cpp:178-249 | the same for audio |
| `FrameEncoder.FragmentsCarryPayload` | src/server/frame_protocol.cpp:113-121 | the chunks join to the payload if and only if it is at most 65535 * 16384 bytes, the count being kept in sixteen bits |
| `FrameEncoder.WireLength` | src/server/frame_protocol.cpp:96-155 | total wire length L + 26 N + 14 for N fragments, L + 34 for a whole frame |
| `FrameEncoder.WholeBytes` | src/server/frame_protocol.cpp:81-111 | the one message of a frame of at most 16384 bytes, byte for byte |
| `FrameEncoder.FragmentWire` | src/server/frame_protocol.cpp:113-156 | how many fragments a longer one has, and each of them, byte for byte |
| `FrameEncoder.WireReadBack` | src/server/frame_protocol.cpp:81-156 | every message the server emits decodes at the client to the fragment or frame it was made from, or is rejected if there are more than 256 |
| `Reassembly.SeatKeepsTable` | src/wasm/frame_protocol.c:100-129 | making room keeps the table within sixteen unfinished entries |
| `Reassembly.StepKeepsTable` | src/wasm/frame_protocol.c:307-378 | every message keeps it: at most 16 entries, none full, totals 1 to 256, indices below the total |
| `Reassembly.StepTouchesLittle` | src/wasm/frame_protocol.c:100-129 | a message changes no entry but its own and the victim, and the victim is lost only if the table is full and the frame new |
| `FrameParser.FullWhenCounted` | src/wasm/frame_protocol.c:346-347 | received_count reaches the total exactly when every fragment is present |
| `FrameParser.WriteSlot` | src/wasm/frame_protocol.c:117-128 | writing one slot changes one entry of the map the slots stand for |
| `FrameParser.SlotsGiveTable` | src/wasm/frame_protocol.c:21-45 | slots with distinct ids and exact counts stand for a well-formed table; when it is full, slot 0 holds one of its entries |
| `FrameParser.Parser.constructor` | src/wasm/frame_protocol.c:207-219 | sixteen free slots stand for the empty table |
| `FrameParser.Parser.FindFragmentEntry` | src/wasm/frame_protocol.c:91-98 | finds the active slot of an id, and fails only if the table has none |
| `FrameParser.Parser.AllocFragmentEntry` | src/wasm/frame_protocol.c:100-129 | opens an empty entry, losing the frame in slot 0 if and only if all sixteen are active; it gets slot 0 if that was free or is taken away |
| `FrameParser.Parser.CopyInto` | src/wasm/frame_protocol.c:145 | the copy extends what is already in the buffer by the chunk |
| `FrameParser.Parser.ReassembleFragments` | src/wasm/frame_protocol.c:131-151 | the buffer is the chunks joined in index order, whatever order they came in |
| `FrameParser.Parser.StoreFragment` | src/wasm/frame_protocol.c:321-378 | files a fragment, ignoring duplicates and out-of-range indices, and delivers and frees the entry, and with it the slot, exactly when it is full |
| `FrameParser.Parser.ParseExtHeaders` | src/wasm/frame_protocol.c:154-205 | for every region and flags: all reads stay inside, and the fields are those of the layers |
| `FrameParser.Parser.ParseTypeExt` | src/wasm/frame_protocol.c:193-204 | the type-specific fields at any offset, absent if fewer than four bytes are left |
| `FrameParser.Parser.ParseFragment` | src/wasm/frame_protocol.c:307-378 | one fragment is one step of the abstract table, the victim being slot 0 |
| `FrameParser.Parser.Parse` | src/wasm/frame_protocol.c:221-379 | refinement: each call, its signed size check included, is one step of the abstract table on the decoded message, and moves the frame in slot 0 as the abstract step does |
| `FrameParser.Parser.ParseAll` | src/worker/decode-worker.ts:76-92 | a sequence of calls is a run of the abstract table, and at every step of it the frame a full table would lose is one of its own |
| `Eviction.AfterIsOk` | src/wasm/frame_protocol.c:100-129 | after any messages: the opening order is known of exactly the open frames and is one to one, at most sixteen are open, and when sixteen are, one of them has slot 0 |
| `Eviction.EvictsOldestExactly` | src/wasm/frame_protocol.c:111-115 | any messages to a fresh parser: the frame in slot 0 is the oldest one if and only if every other frame that was open when it was opened has been delivered since |
| `Eviction.SecondEvictionLosesNewest` | src/wasm/frame_protocol.c:111-115 | the failing family: from any full table, a second eviction without a delivery in between loses the frame just opened and keeps fifteen older ones |
| `Eviction.EighteenFrames` | src/wasm/frame_protocol.c:111-115 | an input: the first fragments of eighteen frames |
| `Eviction.ParseFresh` | src/wasm/frame_protocol.c:221-379 | a fresh parser object keeps its table and its slot 0 as these theorems have them |
| `Delivery.MessagesAreDecoded` | src/wasm/frame_protocol.c:221-310 | any selection of the encoder's messages, as bytes, decodes to the intended fragments |
| `Delivery.NoCorruption` | src/wasm/frame_protocol.c:312-376 | any sequence of the encoder's messages, with loss, repeats, reordering and any evictions: every entry holds only its own frame's chunks and every delivered frame is the one sent under its id |
| `Delivery.CarriedIsExpected` | src/server/frame_protocol.cpp:113-121 | what the fragments carry is the frame itself if and only if its count fits sixteen bits |
| `Delivery.DeliveredFramesAreIntact` | src/wasm/frame_protocol.c:346-376 | the same on the bytes of the wire: payload, timestamps and codec fields equal the original's |
| `Delivery.ExactDelivery` | src/wasm/frame_protocol.c:307-379 | at every point of a loss-free interleaving the table is determined by what has arrived, and each outcome by whether its frame is complete |
| `Delivery.EveryFrameExactlyOnce` | src/wasm/frame_protocol.c:307-379 | any order and interleaving with at most 16 frames open: each frame is delivered once, intact, with its last message, and the table ends empty |
| `FrameDelivery.FrameMessagesAreTheWire` | src/server/frame_protocol.cpp:81-156 | the encoder's output for one frame, decoded |
| `FrameDelivery.FrameRun` | src/wasm/frame_protocol.c:307-378 | the fragments of a frame in order, from any table: the entry grows until it is full, is delivered, and what comes behind opens a new one |
| `FrameDelivery.AcceptedFrame` | src/wasm/frame_protocol.c:307-378 | at most one frame is delivered of it, and the table left behind |
| `FrameDelivery.MixtureExactly` | src/wasm/frame_protocol.c:334-351 | an old entry, its chunks cut as senders cut, filled up with the fragments of a new frame gives that frame if and only if it is for as many fragments and its chunks agree |
| `FrameDelivery.FillsExactly` | src/wasm/frame_protocol.c:312-376 | an accepted frame sent in order to any well-formed table, whatever its entries hold, comes out with a given payload if and only if the rest under its id, its empty places filled with the frame's fragments, is full and joins to that payload |
| `FrameDelivery.CarriedExactly` | src/wasm/frame_protocol.c:312-376 | a frame sent in order, with nothing under its id or a rest cut as senders cut, comes out as carried if and only if the rest agrees with it |
| `FrameDelivery.FreshFrame` | src/wasm/frame_protocol.c:312-376 | with nothing under its id, in a table however full, it is delivered and the table is left as it was, less at most the victim |
| `FrameDelivery.RestIsRenewed` | src/wasm/frame_protocol.c:312-376 | a rest that holds the last chunk is delivered early and leaves a new rest under the id |
| `FrameDelivery.UnfiledFrame` | src/wasm/frame_protocol.c:278-310 | whole frames are delivered and frames of too many fragments rejected without touching the table |
| `FrameDelivery.DeliveredExactly` | src/wasm/frame_protocol.c:307-379 | any frame, any well-formed table: it reaches the client intact if and only if it is sent whole or its fragments, filled into what is left under its id, join to its payload |
| `FrameDelivery.ComesOutExactly` | src/wasm/frame_protocol.c:307-379 | where nothing is left under the id, or a rest cut as senders cut, that comes to: at most 4 MiB and, if fragmented, no rest that disagrees |
| `FrameDelivery.HarmlessComesOut` | src/wasm/frame_protocol.c:307-379 | and for any rest whatever, agreeing is enough |
| `FrameDelivery.MixedRestArises` | src/wasm/frame_protocol.c:312-344 | an input family: a whole frame of two fragments is swallowed by the rest of one of four, and what is left is no rest of any one frame |
| `FrameDelivery.ZerosFillDisagreeing` | src/wasm/frame_protocol.c:131-151 | an input: such a rest that does not agree and yet fills up to the frame sent, all bytes being zero |
| `FrameDelivery.StaleFragmentMixes` | src/wasm/frame_protocol.c:312-344 | an input family: after the second of two fragments alone has arrived, a later frame under the id is mixed or cut short unless it has two fragments and the same second chunk |
| `FrameDelivery.GoodKeepsClean` | src/wasm/frame_protocol.c:307-379 | where every entry holds chunks of one frame only, a frame that comes out as sent leaves it so |
| `StreamDelivery.OrderedStream` | src/server/main.cpp:471-481 | any number of frames of any size under any ids, also wrapped ones: exactly what comes out, with the table empty after each |
| `StreamDelivery.AllArriveExactly` | src/wasm/frame_protocol.c:307-310 | what comes out is all that went in if and only if every frame is at most 4 MiB |
| `StreamDelivery.StreamExactly` | src/server/main.cpp:471-481 | the client's frames are the server's if and only if each is at most 4 MiB |
| `StreamDelivery.StreamFromAnyTable` | src/wasm/frame_protocol.c:312-376 | a stream sent to any well-formed table: its frames come out as sent, all of them, if and only if each does at its turn by the condition of DeliveredExactly; and as long as they do, no entry gets mixed |
| `StreamDelivery.GoodMeansAgreeing` | src/wasm/frame_protocol.c:312-376 | after losses alone, where each entry holds chunks of one frame, that comes to: each is at most 4 MiB and meets at its turn nothing under its id but what agrees with it |
| `LossyStream.LossyRun` | src/wasm/frame_protocol.c:307-379 | messages lost but in order, ids repeating, any starting table: while nothing is left under its id when a frame begins, it is delivered if and only if all its messages arrive, with the last, as sent; and only frames cut short leave an entry |
| `LossyStream.LossySafely` | src/wasm/frame_protocol.c:312-376 | losses, repeating ids and rests at once: while every frame meets only rests it could have left itself, whatever is delivered is the frame whose message completes it |
| `LossyStream.NothingLeftUpTo` | src/wasm/frame_protocol.c:312-319 | that holds if no id is used again after a frame under it was cut short |
| `LossyStream.SurvivorsAreDecoded` | src/wasm/frame_protocol.c:221-310 | the messages that get through, as bytes, decode to what they were made from |
| `LossyStream.OrderedLossyStream` | src/wasm/frame_protocol.c:221-379 | both together on the bytes of the wire, from a fresh parser |
| `LossyStream.OutcomeIsFaithful` | src/wasm/frame_protocol.c:346-376 | whatever is delivered in such a run is the frame sent |
| `LossyStream.BeforeTheCounterWraps` | src/server/main.cpp:481 | one counter serves all connections, so a connection sees ids with gaps: within 65536 frames sent by the server no id comes twice and losses do no harm |
| `LossyStream.CounterIsSafe` | src/server/main.cpp:481 | beyond that they do none as long as nothing arrives 65536 or more frames after a frame that was cut short |
| `EndToEnd.ReceiveEachOnce` | src/wasm/frame_protocol.c:221-379 | exact delivery for a parser object fed the wire bytes, its table empty again at the end |
| `EndToEnd.ReceiveAnything` | src/wasm/frame_protocol.c:221-379 | no corruption for a fresh parser object behind a faulty channel |
| `EndToEnd.ReceiveInOrder` | src/wasm/frame_protocol.c:221-379 | exact outcomes for a fresh parser object behind an ordered lossy channel with repeating ids |
| `EndToEnd.Encode` | src/server/main.cpp:454-469 | a video or audio frame goes to its encoder |
| `EndToEnd.SendAndReceive` | src/server/frame_protocol.cpp:81-249 | encoder method into parser method, whatever the parser has been through: the frame is delivered if and only if the condition of DeliveredExactly holds of the table before, and surely if it is at most 4 MiB and no rest under the id disagrees |
| `EndToEnd.SendStream` | src/server/frame_protocol.cpp:81-249 | the same for any number of frames under any ids, one after the other |
| `DataBufferQueue.Queue.constructor` | src/js/buffer/DataBufferQueue.ts:33-45 | an empty queue satisfies the queue law; a limit of 0 means the default |
| `DataBufferQueue.Queue.Push` | src/js/buffer/DataBufferQueue.ts:47-74 | keeps the queue law (contents, byte count and every figure follow from the history) and drops at most the oldest packet |
| `DataBufferQueue.Queue.Pop` | src/js/buffer/DataBufferQueue.ts:76-87 | hands out the oldest packet waiting: the entered packet at position dequeued + overflows |
| `DataBufferQueue.HandedOutInOrder` | src/js/buffer/DataBufferQueue.ts:47-87 | the packets handed out are an ordered subsequence of those put in |
| `DataBufferQueue.HandedOutNext` | src/js/buffer/DataBufferQueue.ts:47-87 | only dequeuing hands out, and it hands out the oldest packet waiting |
| `DataBufferQueue.DropsExactly` | src/js/buffer/DataBufferQueue.ts:47-74 | a packet is dropped for a new one, the oldest, if and only if maxSize packets wait or the bytes are more than maxBytes |
| `DataBufferQueue.LengthBound` | src/js/buffer/DataBufferQueue.ts:50-60 | the length never exceeds maxSize |
| `DataBufferQueue.ByteLimitAfterEnqueue` | src/js/buffer/DataBufferQueue.ts:50-60 | exactly when the byte limit holds after an enqueue, told from the state before |
| `DataBufferQueue.ByteLimitCanBeExceeded` | src/js/buffer/DataBufferQueue.ts:50-60 | three packets after which it does not hold |
| `QueuedDelivery.QueueNeverCorrupts` | src/js/stream/StreamInstance.ts:309-335 | server, queue with overflow, parser, packets entering in any order under distinct ids: every completed frame is one the server sent |
| `QueuedDelivery.QueueKeepsOrder` | src/js/buffer/DataBufferQueue.ts:47-87 | of a stream that enters in order, what is handed out is, byte for byte, messages of the stream in order |
| `QueuedDelivery.QueueDeliversInOrder` | src/js/stream/StreamInstance.ts:309-335 | with ids that repeat: the datagrams handed out give exactly the frames handed out completely, while no id is used again after a loss |
| `QueuedDelivery.EnqueueAll` | src/js/buffer/DataBufferQueue.ts:47-74 | a batch enters in order and hands nothing out |
| `QueuedDelivery.TakeOne` | src/js/stream/StreamInstance.ts:313-327 | one packet is handed out and a batch enters while it is decoded |
| `QueuedDelivery.ProcessQueue` | src/js/stream/StreamInstance.ts:309-335 | while packets keep entering and overflowing at each wait, the parser sees exactly what the queue hands out, as one run, until the queue is empty |
| `QueuedDelivery.ReceiveQueued` | src/js/stream/StreamInstance.ts:309-335 | queue object and parser object together, over any number of calls of processQueue: a stream that enters in order gives, all calls taken together, the outcomes that the packets handed out call for |
| `WebSocket.TooLongExactly` | src/server/websocket.cpp:124-129 | when the length sum wraps, so that a payload buffer is asked for that cannot be made: the eight-byte form with a length that, the header added, exceeds 64 bits |
| `WebSocket.TooLongInput` | src/server/websocket.cpp:124-129 | an input of ten bytes |
| `WebSocket.LengthReadBack` | src/server/websocket.cpp:94-112 | the three length forms are read back |
| `WebSocket.MaskTwice` | src/server/websocket.cpp:132-136 | unmasking inverts masking |
| `WebSocket.RoundTrip` | src/server/websocket.cpp:83-166 | a printed frame, masked with any key or not, is parsed back whatever follows, consuming exactly its bytes, unless header and payload do not fit 64 bits, and then the length sum wraps |
| `WebSocket.MaskedBit` | src/server/websocket.cpp:132-136 | a bit of the payload is set if and only if its own bit and that of the key byte differ |
| `WebSocket.ParsedBytes` | src/server/websocket.cpp:83-140 | for all bytes: when the parser waits, when its sum wraps, and otherwise every field, a masked payload bit by bit |
| `WebSocket.PrintedBytes` | src/server/websocket.cpp:142-166 | what the server prints, byte for byte |
| `WebSocket.PrintedIsShortest` | src/server/websocket.cpp:148-160 | the printed form is never longer than any byte string that parses to the frame |
| `WebSocket.MoreBytes` | src/server/websocket.cpp:83-140 | a verdict reached stays when more bytes arrive |
| `WebSocket.StrictPrefixIncomplete` | src/server/websocket.cpp:124-126 | no strict prefix of a frame is taken for a frame |
| `WebSocket.CutConcat` | src/server/main.cpp:249-262 | cutting a part, then the remainder with what follows, cuts the whole |
| `WebSocket.ChunkingIndependent` | src/server/main.cpp:249-262 | append-then-cut over any chunks equals cutting the stream at once, frames and remainder |
| `WebSocket.PrintedStreamReadBack` | src/server/websocket.cpp:142-166 | a printed stream is cut into exactly the frames printed |
| `WebSocket.ParseFrame` | src/server/websocket.cpp:83-140 | the parser, its running offset and 64-bit length sum included |
| `WebSocket.ReadLength64` | src/server/websocket.cpp:107-110 | the shifting loop gives the big-endian number without overflow |
| `WebSocket.Unmask` | src/server/websocket.cpp:132-136 | the in-place exclusive-or loop |
| `WebSocket.EncodeFrame` | src/server/websocket.cpp:142-166 | prints a final, unmasked frame |
| `WebSocket.PushLength64` | src/server/websocket.cpp:157-159 | the eight length bytes |
| `Session.ProcessMore` | src/server/main.cpp:249-291 | bytes later or at once: the same frames are taken, up to the one that closes |
| `Session.ProcessSettles` | src/server/main.cpp:249-262 | a connection that goes on receiving has no complete frame left in its buffer |
| `Session.ProcessTakesFrames` | src/server/main.cpp:249-262 | the frames taken are the first ones in the stream, and all of them while the connection is receiving |
| `Session.ChunkingIndependent` | src/server/main.cpp:203-291 | any splitting of the input gives the same state, frames and replies, and the same buffer while receiving |
| `Session.FailsExactly` | src/server/main.cpp:249-291 | the exception comes if and only if such a header stands behind all complete frames, none of them a close |
| `Session.ReceiveFollowsAnswer` | src/server/main.cpp:357-376 | the state is Streaming if and only if the first answer among the frames taken accepts, and never receiving after a refusal |
| `Session.OpenExactly` | src/server/main.cpp:249-291 | the socket is open after the loop if and only if there is no close among the frames in the buffer and, while it negotiates, the first answer does not refuse |
| `Session.PingsAreAnswered` | src/server/main.cpp:278-282 | every ping taken is answered once, in order, with its payload, a refusal by a close frame last, and nothing else is sent |
| `Scheduler.DueTimeMonotone` | src/server/main.cpp:504-507 | effective times never decrease, across cycles too |
| `Scheduler.DueTimeFirst` | src/server/main.cpp:491-507 | the first packet is due at once |
| `Scheduler.DueTimeGap` | src/server/main.cpp:491-507 | from packet to packet, by their times alone: the gap inside a cycle is theirs, and between cycles there is none, or a millisecond if all times are equal |
| `Scheduler.LaterThan` | src/server/main.cpp:497-517 | packet n (T + 1) is due after T: what makes the endless loop end |
| `Scheduler.CountFromEnds` | src/server/main.cpp:509-516 | the first undue packet tells that exactly those before it are due |
| `Scheduler.CountsAgree` | src/server/main.cpp:509-516 | the number of packets due by a time is unique |
| `Scheduler.LessThanOneTickLate` | src/server/main.cpp:509-520 | a packet is sent in the tick at T if and only if it is due in (T - 10, T] milliseconds |
| `Scheduler.EachPacketOncePerCycle` | src/server/main.cpp:498-507 | every cycle has exactly one position for each packet, due at its own time behind the cycles before |
| `MediaServer.NewConnection` | src/server/connection.cpp:10-30 | a new connection satisfies the invariants of both playback modes |
| `MediaServer.VideoServer.SendPacket` | src/server/main.cpp:447-482 | writes exactly the encoder's messages in binary frames and counts the frame id modulo 65536 |
| `MediaServer.VideoServer.SendControl` | src/server/main.cpp:278-282 | offer, pongs and close frames go over the same socket and leave the frames sent and both playback invariants as they are |
| `MediaServer.VideoServer.WriteMessages` | src/server/main.cpp:471-479 | the binary frames on the socket are those of the frames sent so far, byte for byte |
| `MediaServer.VideoServer.SendNext` | src/server/main.cpp:498-516 | frame k of a connection is packet k modulo n |
| `MediaServer.VideoServer.OnTimerMp4` | src/server/main.cpp:484-521 | terminates, and after the tick at T exactly the packets with effective time at most T have been sent, in order |
| `MediaServer.VideoServer.OnTimer` | src/server/main.cpp:574-594 | the same for all connections, which share the frame counter |
| `MediaServer.VideoServer.MergeNalUnits` | src/server/main.cpp:536-540 | the payload is the unit's NAL units joined |
| `MediaServer.VideoServer.DetectFrameType` | src/server/main.cpp:378-410 | the first NAL unit with a known type decides |
| `MediaServer.VideoServer.OnTimerRaw` | src/server/main.cpp:523-566 | one access unit a tick, in order and cyclically, frame id modulo 65536 |
| `MediaServer.UnitTimeExactly` | src/server/main.cpp:545 | access unit k is timed at k / rate seconds, in whole milliseconds |
| `MediaServer.KindOnBytes` | src/server/main.cpp:378-410 | what the first byte behind either start code says about the frame |
| `MediaServer.UnitKindOnBytes` | src/server/main.cpp:378-410 | an access unit is of the kind of its first NAL unit that says something, and a P frame if none does |
| `MediaServer.PacketKindOnBytes` | src/server/main.cpp:413-445 | the same for a packet, by the byte behind its start code or length |
| `MediaServer.FrameFields` | src/server/main.cpp:447-469 | codec, times, kind and payload of the frame that a packet or an access unit becomes |
| `MediaServer.MessagesDecode` | src/server/main.cpp:471-479 | the messages sent decode to the stream of the frames sent |
| `MediaServer.ClientReceivesWhatWasSent` | src/server/main.cpp:447-521 | bytes written, with any other frames between the binary ones, split anyhow, cut and reassembled: exactly the frames that can arrive, in order, for any number of frames, and all of them if and only if each is at most 4 MiB |
| `MediaServer.ClientHoldsDuePackets` | src/server/main.cpp:484-521 | between ticks, for every connection: the client holds exactly what arrives of the packets due by the last tick, and that is all of them if and only if none is larger than 4 MiB |
| `RawPlayback.CyclePlaysFile` | src/server/main.cpp:523-566 | the payloads of each cycle join to the file from its first start code |
| `RawPlayback.ClientGetsFile` | src/server/main.cpp:523-566 | file to client: what arrives of a cycle stands in its place and gives the file back if and only if each access unit sent in that cycle is at most 4 MiB |
| `RawPlayback.ClientGetsFileExactly` | src/server/main.cpp:523-566 | after c cycles the client holds the file c times over if and only if every access unit sent is at most 4 MiB |
| `RawPlayback.ClientHoldsFile` | src/server/main.cpp:523-566 | the same of a connection between ticks, told from the file's access units |
| `Server.StepOk` | src/server/main.cpp:203-376 | every event keeps the invariant, never lets a connection fall back, and gives new connections new ids |
| `Server.RunOk` | src/server/connection.cpp:10-40 | the invariant holds after every run of connect, disconnect, data and timer events; the replies in the log are those of the sessions |
| `Server.MediaOnlyAfterNegotiation` | src/server/main.cpp:347-376 | in every run, of either mode, media goes only to a connection that was sent the offer and then accepted, as packets or access units 0, 1, 2 and so on |
| `Server.MediaSentIsDue` | src/server/main.cpp:484-521 | in every run of packet playback the number of packets a connection was sent is the number due |
| `Server.TimerClosesOverdue` | src/server/main.cpp:568-603 | after a timer event of a living server nobody negotiates an offer found older than 5 s |
| `Server.TimerExactly` | src/server/main.cpp:568-603 | every run, every timer event: a connection is closed, and its timeout logged once, if and only if it is visited while it negotiates an offer more than 5000 ms old; streaming ones advance 10 ms or one access unit with each visit; and nothing else changes |
| `Server.TimerOfNobody` | src/server/main.cpp:568-603 | no timeout is logged for a connection that is not there |
| `Server.OfferIsTimed` | src/server/main.cpp:220-247 | the time of the offer is that of the data which completed the handshake, for as long as the connection is there |
| `Server.ComingAndGoing` | src/server/connection.cpp:10-40 | connects and disconnects touch one connection, a new one begins with nothing, and a process that has ended does nothing |
| `Server.EarlyData` | src/server/main.cpp:203-247 | data for nobody or for a closed socket do nothing; before the handshake they wait, close, or bring the offer |
| `Server.StateRankNeverFalls` | src/server/main.cpp:203-376 | over any run a connection's state never goes back |
| `Server.CrashExactly` | src/server/websocket.cpp:124-129 | which events make a handler end the process for all connections: data that make the frame parser throw, and of the handlers' other work none |
| `Server.TenBytesEndTheServer` | src/server/main.cpp:249-262 | an input: a run that ends it |
| `EventLoop.EventServer.OnConnect` | src/server/connection.cpp:10-30 | one step of the state machine |
| `EventLoop.EventServer.OnDisconnect` | src/server/connection.cpp:32-40 | one step |
| `EventLoop.EventServer.OnData` | src/server/main.cpp:203-218 | one step |
| `EventLoop.EventServer.HandleWebSocketFrame` | src/server/main.cpp:249-291 | the loop over the buffer, which ends: the whole new state, and a log entry for every acceptance and every reply where it is made |
| `EventLoop.EventServer.TakeFrame` | src/server/main.cpp:264-289 | one frame by opcode |
| `EventLoop.EventServer.HandleNegotiation` | src/server/main.cpp:357-376 | one text message while negotiating: accepts, refuses with a close frame, or ignores it |
| `EventLoop.EventServer.HandleHandshake` | src/server/main.cpp:220-247 | waits, closes, or sends the offer with an empty buffer and the clock noted |
| `EventLoop.EventServer.StreamingTick` | src/server/main.cpp:497-520 | the loop sends exactly the packets that are due, in order |
| `EventLoop.EventServer.RawTick` | src/server/main.cpp:523-566 | one access unit a tick |
| `EventLoop.EventServer.Visit` | src/server/main.cpp:574-598 | one connection's tick in either mode; a timed-out one stays open for the moment |
| `EventLoop.EventServer.OnTimer` | src/server/main.cpp:568-603 | visiting all and closing the timed-out ones afterwards is the same step as closing them at once |
| `RunDelivery.WireCarriesSent` | src/server/main.cpp:447-482 | what a run puts on a socket: the media frames of its log in binary frames, each under the number of media frames sent before modulo 65536, and between them the offer, pongs and close frames |
| `RunDelivery.SentIsPlayed` | src/server/main.cpp:484-566 | frame k of a connection is packet or access unit k of its playback |
| `RunDelivery.ControlBytes` | src/server/main.cpp:278-585 | the bytes of offer, pong, refusal and timeout |
| `RunDelivery.MediaBytes` | src/server/main.cpp:471-474 | each message of a media frame is one binary WebSocket frame, byte for byte |
| `RunDelivery.IdsCountUp` | src/server/main.cpp:481 | the first media frame of a run has id 0 and each the id behind the one before, modulo 65536, whichever connections they are for |
| `RunDelivery.RunPlaysAlways` | src/server/main.cpp:278-282 | every pong and every other frame of a run can be printed and read back, while raw timestamps fit 64 bits |
| `RunDelivery.RunReachesClient` | src/server/main.cpp:203-603 | every run of events, every connection: its client gets exactly what arrives of frames 0, 1, 2 and so on of its playback, in order, and all of them if and only if none is larger than 4 MiB |
| `RunDelivery.RunSendsDuePackets` | src/server/main.cpp:484-521 | and in packet playback these are, between ticks, exactly the packets due |
| `AnnexB.CutsComplete` | src/server/nal_parser.cpp:71-94 | every start code that counts is among the cuts |
| `AnnexB.StartCodeAt` | src/server/nal_parser.cpp:72-79 | the loop's two tests find exactly the 4-byte codes and the 3-byte ones not at 0 and not behind a zero |
| `AnnexB.ParseNalUnits` | src/server/nal_parser.cpp:61-102 | the loop, with its skips, yields the pieces between the cuts |
| `AnnexB.SplitCovers` | src/server/nal_parser.cpp:82-101 | the NAL units join to the buffer from its first cut |
| `AnnexB.SplitOfPrinted` | src/server/nal_parser.cpp:61-102 | splitting a printed stream returns its units, save a first one with a 3-byte start code |
| `AnnexB.FindStartCodes` | tools/hevc_nal_check.py:7-23 | the tool's loop finds the cuts, counting also a 3-byte code at 0 |
| `AnnexB.SplittersAgree` | tools/hevc_nal_check.py:7-23 | tool and server agree if and only if the data does not begin with a 3-byte start code |
| `AnnexB.ToolFindsOneMore` | tools/hevc_nal_check.py:7-23 | an input of four bytes on which they differ |
| `AccessUnits.ScanForVcl` | src/server/nal_parser.cpp:167-176 | finds whether the current unit has a slice |
| `AccessUnits.GroupIntoAccessUnits` | src/server/nal_parser.cpp:142-213 | the accumulating loop |
| `AccessUnits.AccumulateIsGrouping` | src/server/nal_parser.cpp:151-212 | groups join to the list, none empty, at most one slice each, a delimiter only in front |
| `AccessUnits.FewestAccessUnits` | src/server/nal_parser.cpp:142-213 | and no grouping with these properties has fewer groups |
| `AccessUnits.KindOnBytes` | src/server/nal_parser.cpp:119-140 | a unit behind either start code is a slice or a delimiter by its first byte: types 1 and 5, and 9; of H.265 up to 31, and 35 |
| `AccessUnits.AccumulateCutsLate` | src/server/nal_parser.cpp:151-212 | a new group begins only with a delimiter, or with a slice when the group before has one |
| `AccessUnits.StreamGrouped` | src/server/nal_parser.cpp:142-213 | all this of a printed stream, on the first bytes of its units, with the fewest groups |
| `EmulationPrevention.RemoveEmulationPrevention` | src/server/sps_parser.cpp:11-24 | the loop keeps all but a 3 behind two zeros of the data as received |
| `EmulationPrevention.KeepsAllBut` | src/server/sps_parser.cpp:11-24 | what is kept is everything, in order, but each 3 right behind two zeros of the data as received |
| `EmulationPrevention.RoundTrip` | src/server/sps_parser.cpp:11-24 | removing undoes the standard's insertion for every byte string |
| `EmulationPrevention.RoundTripWithTrailing` | src/server/sps_parser.cpp:11-24 | with the extra byte behind a trailing zero it does so if and only if the zeros at the end are even in number |
| `EmulationPrevention.OneZeroIsNotRestored` | src/server/sps_parser.cpp:11-24 | an input for which it does not: a single zero |
| `EmulationPrevention.InsertIsSafe` | src/server/sps_parser.cpp:16-19 | the inserted form has no 00 00 00, 00 00 01 or 00 00 02 |
| `EmulationPrevention.InsertedIsBody` | src/server/nal_parser.cpp:61-102 | so it can stand between start codes: the precondition of the splitter's round trip |
| `EmulationPrevention.InsertBehindHeader` | src/server/sps_parser.cpp:42-44 | a nonzero NAL header in front changes nothing |
| `BitReader.BitstreamReader.constructor` | src/server/bitstream_reader.cpp:5-7 | the cursor stands before all bits |
| `BitReader.BitstreamReader.ReadBit` | src/server/bitstream_reader.cpp:17-31 | the cursor refines a position in a bit string; zeros behind the end |
| `BitReader.BitstreamReader.ReadBits` | src/server/bitstream_reader.cpp:9-15 | the big-endian value of the next n bits, modulo 2^32 |
| `BitReader.BitstreamReader.SkipBits` | src/server/bitstream_reader.cpp:59-63 | drops n bits |
| `BitReader.BitstreamReader.ReadUE` | src/server/bitstream_reader.cpp:33-47 | terminates on every input and reads one code |
| `BitReader.BitstreamReader.ReadSE` | src/server/bitstream_reader.cpp:49-57 | the signed mapping |
| `BitReader.BitstreamReader.HasMoreData` | src/server/bitstream_reader.cpp:65-67 | true if and only if bits are left |
| `BitReader.UEReadBack` | src/server/bitstream_reader.cpp:33-47 | inverts the code of section 9.1 of ITU-T H.264 for up to 30 leading zeros, consuming exactly its bits |
| `BitReader.SEReadBack` | src/server/bitstream_reader.cpp:49-57 | inverts the mapping of section 9.1.1 |
| `BitReader.CodableMeans` | src/server/bitstream_reader.cpp:45 | the numbers concerned are exactly those with at most 30 leading zeros |
| `BitReader.BitOfUnpack` | src/server/bitstream_reader.cpp:17-31 | bit k of byte i is its value divided by 2 to the power 7 - k, modulo 2 |
| `BitReader.CodeIsBinary` | src/server/bitstream_reader.cpp:33-47 | the code of v is v + 1 in binary behind as many zeros as it has digits after the first |
| `BitReader.SignedInOrder` | src/server/bitstream_reader.cpp:49-57 | the codes stand for 0, 1, -1, 2, -2 and so on |
| `BitReader.AnyCode` | src/server/bitstream_reader.cpp:33-47 | what is read from any bits at all, also from zeros to the end |
| `SpsSyntax.ScalingListsBack` | src/server/sps_parser.cpp:76-92 | scaling lists, also those cut short by a zero scale, are skipped exactly |
| `SpsSyntax.HighBack` | src/server/sps_parser.cpp:64-93 | the chroma and scaling block is skipped exactly |
| `SpsSyntax.PicOrderBack` | src/server/sps_parser.cpp:98-110 | picture order count syntax of all three types, cycle loop included |
| `SpsSyntax.PictureBack` | src/server/sps_parser.cpp:112-137 | sizes, field flag and cropping |
| `SpsSyntax.VuiBack` | src/server/sps_parser.cpp:139-191 | the VUI yields the announced rate through all its branches |
| `SpsSyntax.SpsBack` | src/server/sps_parser.cpp:55-191 | a whole printed parameter set is parsed to time_scale / (2 num_units_in_tick), or 25 without usable timing |
| `SpsSyntax.UnknownHighProfileMisread` | src/server/sps_parser.cpp:63-67 | a family of parameter sets of profiles 138, 139, 134 and 135 that parse to 25 whatever they announce |
| `SpsSyntax.ReadBackExactly` | src/server/sps_parser.cpp:63-67 | the parser is right on all parameter sets of a profile if and only if the profile is not one of those four |
| `SpsParser.SkipScalingListBits` | src/server/sps_parser.cpp:80-89 | the inner loop over lastScale and nextScale |
| `SpsParser.SkipScalingMatrix` | src/server/sps_parser.cpp:76-92 | the loop over the lists |
| `SpsParser.SkipHighProfile` | src/server/sps_parser.cpp:67-92 | moves the cursor behind the block |
| `SpsParser.SkipPicOrderCount` | src/server/sps_parser.cpp:98-110 | moves the cursor behind it |
| `SpsParser.SkipPictureFields` | src/server/sps_parser.cpp:112-137 | moves the cursor behind them |
| `SpsParser.SkipAspectAndOverscan` | src/server/sps_parser.cpp:145-157 | moves the cursor behind them |
| `SpsParser.SkipVideoSignal` | src/server/sps_parser.cpp:159-168 | moves the cursor behind it |
| `SpsParser.ReadTiming` | src/server/sps_parser.cpp:176-191 | the rate, or the default |
| `SpsParser.ReadVuiFps` | src/server/sps_parser.cpp:139-191 | the rate the VUI holds, or the default |
| `SpsParser.ReadProfile` | src/server/sps_parser.cpp:55-61 | the profile, with the cursor behind the parameter set's id |
| `SpsParser.ReadFromFrameNum` | src/server/sps_parser.cpp:95-191 | the rate found from log2_max_frame_num on |
| `SpsParser.ReadSpsFps` | src/server/sps_parser.cpp:55-191 | the rate found in the bits behind the NAL header |
| `SpsParser.ParseH264Fps` | src/server/sps_parser.cpp:26-197 | the rate found in a NAL unit; the default for one without start code or too short |
| `SpsPrinter.PayloadIsSyntax` | src/server/sps_parser.cpp:51-58 | the bits of a printed payload are the parameter set's fields, then its trailing bits; its last byte is not zero |
| `SpsParser.FpsRoundTrip` | src/server/sps_parser.cpp:26-197 | any NAL unit whose payload begins with a parameter set's bits is parsed to the announced rate |
| `SpsParser.PrintedSpsIsRead` | src/server/sps_parser.cpp:26-197 | every parameter set, printed with stop bit, emulation prevention and start code, is parsed to the rate it announces |
| `NalParser.NalParser.LoadFile` | src/server/nal_parser.cpp:10-58 | false and the default rate if the file cannot be read; else the NAL units, a minimal grouping of them, and the rate of the first parameter set |
| `NalParser.RateOnBytes` | src/server/nal_parser.cpp:31-42 | of a printed stream, the rate of the first unit whose first byte says parameter set, type 7 or of H.265 33, and 25 without one |
| `NalParser.StreamRoundTrip` | src/server/nal_parser.cpp:10-44 | every printed stream with a parameter set among its units is loaded back: the NAL units and the rate the first parameter set announces |

## Left out

- FrameParser.Parser.Parse: takes no message that passes the signed size check although it is shorter than it announces, since the source then reads beyond the message; ShortMessagePassesExactly says which messages these are.
- FrameParser.Parser.ReassembleFragments: sums the chunk sizes without the source's 32 bits; a sum of 2^32 needs more bytes of stored fragments than a 32-bit memory holds.
- Allocation failures and zero-length allocations.
- frame_protocol_destroy and the result record's own memory; NULL arguments.
- The 500 ms fragment timeout, which the code does not implement.
- Delivery.NoCorruption: ids are distinct within a run there, since the channel may reorder; for ordered channels FrameDelivery, StreamDelivery and LossyStream have repeating ids.
- DataBufferQueue: `clear`, `peek`, the usage figures, and negative limits.
- The HTTP part of the handshake (SHA-1, Base64, header text) and the JSON scanners: both are parameters, a function from the bytes received to need more, bad request or upgrade, and from a text message to no answer, accepted or refused.
- WebSocket continuation frames and control frame rules, which the code does not handle.
- Session.ChunkingIndependent: after a refusal or close it does not compare exceptions, because frames behind a refusal are looked at only if they came in the same batch.
- TLS, sockets, epoll and the timer device. Sends are appended to logs. When the server closes a connection its table entry stays until the descriptor is used again; the client disconnecting is an event of its own.
- Server.CrashExactly: is about the handlers above the TLS layer; a close inside the read callback of that layer erases the map entry its loop still uses (src/server/tls_server.cpp:103-131), which is undefined behaviour outside this model.
- Event order: Server takes events one at a time, as the single-threaded event loop does. Its log names packets and access units; RunDelivery gives them their bytes and frame ids, and the methods of MediaServer.VideoServer write such bytes for a connection of their own.
- The source's connection record is split over MediaServer.Connection (playback and socket) and Server.Conn (state, receive buffer and negotiation, as values in a map as in the source).
- EventLoop.EventServer.OnData: for a receive buffer that stays below 2^64 bytes, the source's size_t.
- MediaServer.VideoServer.OnTimerRaw: the timestamp is an exact fraction rounded down, where the source multiplies doubles and truncates.
- Playback times are integers: the code's doubles hold whole milliseconds in packet playback; the raw mode's frame time is an exact fraction.
- FFmpeg and MP4 demuxing: only that packets are sorted by time (src/server/mp4_demuxer.cpp:186-190).
- Wall-clock claims: missed timer expirations and the connection statistics.
- SpsSyntax.SpsBack: for parameter sets whose Exp-Golomb numbers have at most 30 leading zeros, since beyond that the code's shift is undefined; the model computes modulo 2^32 there.
- NalParser.NalParser.LoadFile: the H.265 parameter set parser is a parameter. That code knowingly simplifies inter-predicted and long-term reference sets, so it reads back only parameter sets with neither.
- Frame rates are fractions, not floating-point numbers.
- split_nalus of the checking tool and its statistics.
- Access units as the standard defines them: parameter sets after a slice join the unit before them, and pictures of several slices are split.
- Server shutdown, logging, command line, decoding, rendering, audio and video synchronisation, the user interface.
