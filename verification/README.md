# Verified model of the message transport

The repository is a C++ communication library: transports deliver byte buffers, an assembler turns
them into framed messages, worker threads dispatch the messages, and clients match responses to pending
requests. This project models the receive path and the shared structures around it in Dafny 4.11, and
proves what they are relied on for. `dafny verify dfyconfig.toml` checks all of it.

| file | what it holds |
|---|---|
| `Bytes.dfy` | integers on the wire in host and in network byte order (Appendix B of RFC 791), error codes |
| `PatternSearch.dfy` | the border table and the Knuth-Morris-Pratt search |
| `SegmentedView.dfy`, `SegmentedSearch.dfy`, `SearchLanding.dfy` | what a list of buffers with an offset means, what searching it finds, and where the search leaves it |
| `SegmentedInputStream.dfy` | the linked list itself, proved equal to that meaning |
| `FixedStreams.dfy` | streams over one fixed buffer |
| `MsgHeaders.dfy`, `Msg.dfy` | the 40-byte header, its layout in memory and its two decoders, and messages in memory |
| `AssemblyMachine.dfy`, `MsgAssembler.dfy` | the framing state machine, and the class proved equal to it |
| `Delivery.dfy`, `Resync.dfy` | what is delivered, over every way of cutting the incoming bytes, and what resynchronisation recovers |
| `AsWritten.dfy` | the receive path with the size, the offset and the loop exactly as the source has them, and a connection slot that is used again |
| `Batches.dfy`, `Frames.dfy` | batches of buffers in one payload, and frames around them |
| `EndToEnd.dfy` | from batches handed to a client to the calls at a server's listener |
| `HashTable.dfy`, `ConcurrentInserts.dfy` | the open-addressing table, used by one thread and by many |
| `Multiplexer.dfy` | per-connection event queues drained by workers |
| `RequestSlots.dfy`, `RequestPool.dfy` | request slots under concurrent use, and the pool used by one thread |
| `Backlog.dfy` | the backlog of pending requests with its three indices |

Code that changes state is a class whose methods are proved against specification functions; what the
source promises is then proved about those functions. Code shared by threads is also a state machine
whose steps are the single loads, swaps, stores and locked sections, and its theorems hold for every
interleaving.

The assembler is modelled three times, each proved against the next. The class stops its loop where the
source's loop goes on without changing anything, and keeps its size exact where a search drops a whole
buffer, which the source does not. The machine's `SourceLoop` goes on as the source does, still with an
exact size: `SourceLoopSettles` proves that it comes to the state in which the class stops, and `Returns`
and `AllReturn` say whether it ends. `AsWritten.dfy` keeps size and offset as they are. On a connection
that starts with offset 0, `SolidStep`, `SolidArrive` and `SolidSizes` prove that no search it comes to
drops a whole buffer, and `LoopAsWritten` and `RunAsWritten` that the two loops go through the same
states. That leaves the offset a reset may leave behind: `ReusedConnectionExactly` says what it does.

Where the code departs from its documentation or its evident intent, the model follows the code, states
for all inputs exactly when they agree, and shows an input on which they differ:

| what the documentation or the design promises | when the code keeps it | where it does not |
|---|---|---|
| the string search treats zero bytes like others (src/commutil_common.h:29-40) | exactly if the first occurrence, when there is one, ends before the first zero byte: `DocumentedExactly` | `ZeroByteHidesMatch` |
| searching segments finds a pattern that is there | over zero-free bytes, exactly if a pattern that occurs at all occurs in the buffers up to and including the first one shorter than the pattern: `AgreesWithFlatSearch` | `ShortHeadBlocksSearch` |
| a successful search stands at the first occurrence in the bytes left | with nothing of the first buffer consumed, or a match behind it, exactly if the first occurrence left is one the search can see past zero bytes; otherwise exactly if the first occurrence left happens to lie as far behind the offset as the match lies behind the start of the buffer: `LandsOnFirstExactly` | `HitInConsumedBytes`, `OffsetMisplacesSearch`, `ZeroByteHidesFirst` |
| a failed search leaves a suffix from which searching can go on (inc/io/input_stream.h:73-74) | over zero-free bytes, exactly if it drops its first buffer or no match could start among the `offset` bytes it skips too many; with nothing consumed there are none: `FailsWithoutLossExactly` | `SuffixLostBehindOffset` |
| the stream's size is the number of bytes left after a search | exactly if the search ends at its first buffer: `SizeStaysExact` | `DroppedHeadStaysInSize` |
| resetting leaves an empty, well-formed stream | exactly if the offset was 0: `SegmentedInputStream.Reset` | `ResetInMidBuffer` |
| after a successful resync the next header check passes | exactly if nothing of the first buffer was consumed, or the magic word seen first lies behind it, or it also occurs `offset` bytes further on: `HeaderAfterResyncExactly` | `ConsumedMagicDisplacesResync` |
| the assembly loop runs until it is stuck and then returns (src/msg/msg_assembler.cpp:84) | in step with frames, exactly if the unfinished tail is empty or holds a whole header: `ChunkReturnsExactly` | `OneByteNeverReturns` |
| the same in resync, where the search finds a magic word | undisplaced, exactly if the tail of the bytes from the magic word on is such a tail: `ResyncChunkReturnsExactly`; displaced, with the magic word at index `h` of its buffer and none met by coincidence, exactly if the number of bytes left modulo `h + 40` is 0 or from 8 to `h`: `DisplacedReturnsExactly` | `MagicAloneNeverReturns` |
| the same in resync, where it finds none | never in front of a short buffer: `ResyncSpins`; otherwise, over zero-free bytes, exactly if no non-empty proper prefix of the magic word ends the chunk: `GarbageReturnsExactly`; with zero bytes, a magic word at the very end is kept and drained, and bytes consumed before count too: `MissReturnsExactly` | `KeptByteNeverReturns`, `HiddenMagicIsDrained` |
| a new connection delivers its frames | with an offset of 0 after the last reset, the state the loop settles in does exactly if the very first buffer holds eight bytes: `FreshConnectionDeliversExactly`; the loop as written, from any offset, gets through all chunks and delivers exactly if each of them ends with a whole tail and, unless no byte arrives, the offset is 0 and the first buffer not empty: `ReusedConnectionExactly` | `ShortFirstBufferLosesFrame`, `StaleOffsetLosesFrame` |
| a message without payload is delivered | exactly if a byte behind it has already arrived: `EmptyPayloadExactly` | `HeaderAloneBreaks` |
| a batch frame reads back | exactly if the batch flag is set and the last buffer is not empty: `ReadsBackExactly` | `EmptyLastRecord`, `LosesEmptyLast` |
| setting a key overwrites its value (inc/transport/concurrent_hash_table.h:56) | exactly if no hole precedes the key on its probe path: `SetKeepsUniqueExactly` | `HoleDuplicatesKey` |
| a response to a replaced request is not installed | exactly if it has not passed its check yet and the older request's id store is not outstanding: `LateResponseExactly` | `InstallOvertaken`, `StoreOvertaken` |
| an installed response reaches the request it answers | exactly if that request held the slot at the check and the slot did not return to idle until the installation: `InstallLandsExactly` | `InstallOvertaken`, `InstallIntoNextGrab` |
| stopping makes a worker leave | exactly if the stop event is the last event of its queue: `WorkerStopsExactly` | `EventBehindStop` |
| the backlog knows whether some request is ready (inc/msg/msg_backlog.h:42-48) | for every barrier exactly if the oldest request is also the one resent longest ago: `ReadyCheckExactly` | `ReadyRequestMissed` |

## Model

| member | source | states |
|---|---|---|
| `Bytes.NetworkOrderIsBigEndian` | inc/io/serializable.h:68-101 | writing the byte-swapped value on a little-endian host puts the most significant byte first, for every width |
| `Bytes.IntRoundTrip` | inc/io/serializable.h:211-273 | an integer that fits its width is read back as written, in either byte order |
| `Bytes.IntInverse` | inc/io/serializable.h:211-273 | every byte string is the encoding of the integer read from it, and that integer fits its width |
| `PatternSearch.KmpBorders` | src/commutil_common.cpp:29-46 | entry i is the length of the longest proper border of the first i bytes, entry 0 is -1 |
| `PatternSearch.ShiftNeedle` | src/commutil_common.cpp:69-72 | sliding the needle keeps the text position and skips no alignment that could still match |
| `PatternSearch.KmpSearch` | src/commutil_common.cpp:48-76 | the smallest index at which the needle occurs before the first zero byte, -1 exactly if there is none, all reads in bounds |
| `PatternSearch.Strnstr` | src/commutil_common.cpp:78-93 | the same for every haystack and needle, needles longer than the haystack included |
| `PatternSearch.IndexOfIsFirst` | src/commutil_common.cpp:78-93 | the value the search is specified by is the first occurrence, or -1 exactly if there is none |
| `PatternSearch.DocumentedExactly` | src/commutil_common.h:29-40 | the documented result on haystacks with zero bytes is given if and only if the first occurrence ends before the first zero byte |
| `PatternSearch.ZeroByteHidesMatch` | src/commutil_common.cpp:54-62 | an input on which the documented result is not given |
| `SegmentedView.FlatAppend` | src/io/segmented_input_stream.cpp:25-36 | appending a buffer appends its bytes to the flat string, an empty or partly read stream included |
| `SegmentedView.FlatConsume` | src/io/segmented_input_stream.cpp:163-195 | consuming n bytes from the list takes the first n off the flat string and drops buffers off the front only |
| `SegmentedView.ConsumeTwice` | src/io/segmented_input_stream.cpp:163-195 | two reads in a row leave the same list as one read of both lengths |
| `SegmentedView.SearchConsumes` | src/io/segmented_input_stream.cpp:85-161 | found or not, from any offset, the search leaves a suffix of the bytes and of the buffers |
| `SegmentedSearch.RunsRefineFlatString` | src/io/segmented_input_stream.cpp:25-83 | every run of append, peek, read and skip returns the bytes and sizes that one flat string would |
| `SegmentedSearch.SearchIsFaithful` | src/io/segmented_input_stream.cpp:85-161 | over zero-free bytes, a match is reported exactly if the pattern occurs up to the first short buffer, it is the first flat occurrence even across buffers, and nothing dropped could start a match with any bytes still to come |
| `SegmentedSearch.SearchPositionsStream` | src/io/segmented_input_stream.cpp:85-161 | found, the stream stands at the first flat occurrence; not found, no dropped position starts one in any extension |
| `SegmentedSearch.AgreesWithFlatSearch` | src/io/segmented_input_stream.cpp:85-90 | over zero-free bytes, agreement with the flat search if and only if an occurring pattern occurs in the buffers up to and including the first one shorter than it; always, if no buffer but the last is shorter than the pattern |
| `SegmentedSearch.ShortHeadBlocksSearch` | src/io/segmented_input_stream.cpp:85-90 | an input on which a pattern that is all there is never found |
| `SegmentedSearch.SizeStaysExact` | src/io/segmented_input_stream.cpp:157-158 | the size the source keeps is off after a search if and only if a whole head was dropped |
| `SegmentedSearch.DroppedHeadStaysInSize` | src/io/segmented_input_stream.cpp:157-158 | an input on which it is off by two |
| `SearchLanding.SearchSees` | src/io/segmented_input_stream.cpp:85-161 | from offset 0 and over any bytes, zeros included: the search finds the first occurrence it can see, and fails only if it sees none |
| `SearchLanding.SeenOccurs` | src/io/segmented_input_stream.cpp:85-161 | what the search sees is an occurrence in the flat bytes |
| `SearchLanding.SeesEverything` | src/io/segmented_input_stream.cpp:85-161 | over zero-free bytes, every occurrence up to the first short buffer is seen |
| `SearchLanding.FailsExactly` | src/io/segmented_input_stream.cpp:85-161 | for every stream and any offset, the search succeeds exactly if it sees an occurrence |
| `SearchLanding.LandsOnPatternExactly` | src/io/segmented_input_stream.cpp:85-161 | for every stream, a successful search leaves it at the pattern if and only if nothing of the first buffer was consumed, or the match lies behind that buffer, or the pattern also occurs `offset` bytes behind the match |
| `SegmentedSearch.OffsetMisplacesSearch` | src/io/segmented_input_stream.cpp:87-102 | a successful search that leaves a stream, one byte of whose first buffer was consumed, behind the pattern instead of at it |
| `SearchLanding.LandsOnFirstExactly` | src/io/segmented_input_stream.cpp:85-161 | for every stream, a successful search stands at the first occurrence in the bytes left under exactly the condition given above, border matches and dropped heads included |
| `SearchLanding.LandsOnFirstWithoutZeros` | src/io/segmented_input_stream.cpp:85-161 | over zero-free bytes, exactly if nothing of the first buffer was consumed, or the match lies behind it, or by coincidence |
| `SearchLanding.FoundIsPattern` | src/io/segmented_input_stream.cpp:85-161 | for arbitrary bytes, from offset 0, a reported match of a zero-free pattern is one |
| `SearchLanding.KeepsLongest` | src/io/segmented_input_stream.cpp:109-115 | what a failed search keeps of its last buffer is the longest suffix that is a prefix of the pattern, over any bytes |
| `SearchLanding.FailsWithoutLossExactly` | inc/io/input_stream.h:73-74 | over zero-free bytes and from any offset, a failed search leaves every byte at which a match could start, now or with bytes to come, if and only if it drops its first buffer or none could start among the `offset` bytes it skips too many |
| `SearchLanding.SuffixLostBehindOffset` | src/io/segmented_input_stream.cpp:109-121 | a failed search at offset 3 that throws away the byte the next one would complete to a match |
| `SearchLanding.HitInConsumedBytes` | src/io/segmented_input_stream.cpp:87-102 | an input on which the search succeeds although the bytes left do not hold the pattern |
| `SearchLanding.ZeroByteHidesFirst` | src/io/segmented_input_stream.cpp:92-102 | an input on which a zero byte hides the first occurrence and the search stops at the second |
| `SegmentedInputStreams.SegmentedInputStream.constructor` | src/io/segmented_input_stream.cpp:14-23 | a new stream is empty and well formed |
| `SegmentedInputStreams.SegmentedInputStream.AppendBuffer` | src/io/segmented_input_stream.cpp:25-36 | the list gains one node at the tail, stays well formed, and every appended buffer stays accounted for |
| `SegmentedInputStreams.SegmentedInputStream.Reset` | src/io/segmented_input_stream.cpp:14-23 | every buffer ever appended has now been deallocated exactly once, in order; the stream is well formed if and only if the offset was 0 |
| `SegmentedInputStreams.ResetInMidBuffer` | src/io/segmented_input_stream.cpp:14-23 | a stream reset in the middle of a buffer, which is not |
| `SegmentedInputStreams.SegmentedInputStream.RemoveHead` | src/io/segmented_input_stream.cpp:197-209 | the first node is unlinked and its buffer deallocated, the tail is kept up to date |
| `SegmentedInputStreams.SegmentedInputStream.PeekBytes` | src/io/segmented_input_stream.cpp:38-64 | the first bytes of the flat string across any number of buffers, with nothing changed |
| `SegmentedInputStreams.SegmentedInputStream.CopyBytes` | src/io/segmented_input_stream.cpp:163-195 | the first bytes of the flat string are returned and consumed, used-up buffers are deallocated once, size and links stay right |
| `SegmentedInputStreams.SegmentedInputStream.ReadBytes` | src/io/segmented_input_stream.cpp:66-74 | reads what is asked for or what is left, whichever is less |
| `SegmentedInputStreams.SegmentedInputStream.SkipBytes` | src/io/segmented_input_stream.cpp:76-83 | skips as many bytes as reading would return |
| `SegmentedInputStreams.SegmentedInputStream.ReadInt` | inc/io/input_stream.h:111-125 | an integer that is not complete yet is not touched; otherwise it is decoded, even across buffers |
| `SegmentedInputStreams.SegmentedInputStream.SearchBytes` | src/io/segmented_input_stream.cpp:85-161 | the loop over the list computes the search of the flat meaning, from any offset, and records how far the source's size is off |
| `SegmentedInputStreams.SegmentedInputStream.SearchHead` | src/io/segmented_input_stream.cpp:86-160 | one round of the loop ends with the result of the search, or drops the head and leaves the search to the rest |
| `SegmentedInputStreams.SegmentedInputStream.FindKept` | src/io/segmented_input_stream.cpp:109-115 | the suffix loop of the last buffer keeps the specified tail |
| `SegmentedInputStreams.SegmentedInputStream.ScanBorder` | src/io/segmented_input_stream.cpp:126-155 | the borderline loop finds the specified match, shortage or absence |
| `FixedStreams.FixedOutputStream.WriteBytes` | inc/io/fixed_output_stream.h:48-55 | bytes that do not fit write nothing; bytes that fit extend what is written and nothing before it changes |
| `FixedStreams.FixedInputStream.SkipBytes` | src/io/fixed_input_stream.cpp:41-52 | an exhausted stream reports its end even for a skip of nothing, any other skip is cut short at the end |
| `FixedStreams.FixedInputStream.ReadInt` | inc/io/input_stream.h:111-125 | an integer is decoded from the bytes at the offset, or the offset does not move |
| `MsgHeaders.NoPaddingExactly` | inc/msg/msg_header.h:87-116 | for any struct, the compiler's layout is that of the stream if and only if every field of the stream lies at a multiple of its alignment |
| `MsgHeaders.HeaderLayout` | inc/msg/msg_header.h:87-116 | by size and natural alignment of its members, the header lies in memory as on the wire: nine offsets and 40 bytes, no padding |
| `MsgHeaders.OverlayReadsFields` | src/msg/msg_assembler.cpp:127-139 | copying the raw bytes over the struct gives each member the bytes of its wire field |
| `MsgHeaders.DecodersAgree` | src/msg/msg_header.cpp:52-75 | overlaying the raw bytes and then swapping the fields of a network-order stream equals reading field by field |
| `MsgHeaders.HeaderRoundTrip` | src/msg/msg_header.cpp:39-63 | every header is read back as it was written, in either byte order |
| `MsgHeaders.HeaderInverse` | src/msg/msg_header.cpp:39-63 | every 40 bytes are the wire form of the header read from them |
| `MsgHeaders.SerializeHeader` | src/msg/msg_header.cpp:39-50 | succeeds exactly if 40 bytes are left, and then writes exactly the wire form |
| `Msgs.DeserializeHeader` | src/msg/msg_header.cpp:52-63 | nine reads from any list of buffers give the header in the first 40 flat bytes and consume exactly those |
| `Msgs.Msg.Alloc` | src/msg/msg.cpp:27-39 | a new message has the magic word, a length that counts header and payload, the id, flags, request id and index it was given, and a batch size of 1 |
| `Msgs.Msg.For` | src/msg/msg.cpp:41-45 | a message for an announced header has exactly the announced room, and its id, flags, request id and index |
| `Msgs.Msg.Serialize` | src/msg/msg.cpp:11-17 | succeeds exactly if the whole message fits, and writes header and payload behind what was written |
| `Msgs.Msg.Deserialize` | src/msg/msg.cpp:19-25 | header and payload are those at the front of the stream, and exactly the announced length is consumed, unless no buffer is left behind the header |
| `AssemblyMachine.StepProgress` | src/msg/msg_assembler.cpp:86-105 | every round keeps the state consistent and delivers in order; a round that changes anything lowers (bytes left, resync over header over body) |
| `AssemblyMachine.Assemble` | src/msg/msg_assembler.cpp:84-105 | the rounds end in a state in which a further round does nothing |
| `AssemblyMachine.SourceLoopSettles` | src/msg/msg_assembler.cpp:86-105 | whether it ends or not, the source's loop with an exact size comes to exactly that state and stays in it |
| `AssemblyMachine.SourceLoopEndsExactly` | src/msg/msg_assembler.cpp:86-105 | the source's loop with an exact size ends if and only if it settles with an empty stream or waiting for a body; the theorems on single chunks turn this into conditions on the bytes |
| `AssemblyMachine.LoopIsRounds` | src/msg/msg_assembler.cpp:86-105 | the loop as written is at any time a number of single rounds |
| `AssemblyMachine.SpinsForever` | src/msg/msg_assembler.cpp:122-124 | a state in which nothing is left to do is kept for ever, whether the loop notices or not |
| `MsgAssemblers.MsgStream.constructor` | inc/msg/msg_assembler.h:87-88 | a new stream is empty and waits for a header |
| `MsgAssemblers.MsgStream.Reset` | inc/msg/msg_assembler.h:94-97 | all bytes are dropped and deallocated and the magic word is looked for, with the offset left as it was: the state `ReusedConnectionExactly` starts from; well formed if and only if the offset was 0 |
| `MsgAssemblers.MsgStream.OnWaitHeader` | src/msg/msg_assembler.cpp:119-166 | the handler is the machine's header step, and reports progress exactly if it made some |
| `MsgAssemblers.MsgStream.OnWaitBody` | src/msg/msg_assembler.cpp:168-211 | the handler is the machine's body step, and reports progress exactly if it made some |
| `MsgAssemblers.MsgStream.OnResync` | src/msg/msg_assembler.cpp:213-237 | the handler is the machine's resync step, and reports progress exactly if it made some |
| `MsgAssemblers.MsgStream.Round` | src/msg/msg_assembler.cpp:87-104 | one round of the loop is one step of the machine |
| `MsgAssemblers.MsgStream.AssembleMessages` | src/msg/msg_assembler.cpp:85-105 | the loop of rounds reaches the machine's settled state, and drops buffers only |
| `MsgAssemblers.MsgStream.OnBytesReceived` | src/msg/msg_assembler.cpp:73-109 | appending a buffer and looping until stuck is the machine's receive, and every buffer stays accounted for |
| `MsgAssemblers.ReceiveBuffers` | src/msg/msg_assembler.cpp:73-109 | a run over any list of buffers is the machine's run, so the theorems on delivery hold for the class |
| `Delivery.ParseResumes` | src/msg/msg_assembler.cpp:73-109 | parsing bytes in two parts gives the messages and the rest of parsing them at once |
| `Delivery.AssembleParses` | src/msg/msg_assembler.cpp:86-211 | the loop delivers the messages a parser of the flat bytes finds, and keeps its rest |
| `Delivery.AssembleMeetsBadMagic` | src/msg/msg_assembler.cpp:155-164 | where any bytes run into a header without the magic word, everything in front of it is delivered and the loop goes on in resync behind its forty bytes |
| `Delivery.AssembleMeetsShortLength` | src/msg/msg_assembler.cpp:168-209 | where they run into a header that announces less than forty bytes, everything in front of it is delivered and the source leaves its own memory |
| `Delivery.ChunkingDoesNotMatter` | src/msg/msg_assembler.cpp:73-211 | every cut of the same bytes delivers the same messages and keeps the same rest |
| `Delivery.ParseWire` | src/msg/msg_assembler.cpp:119-211 | parsing any prefix of a list of frames finds exactly the complete frames and the unfinished tail |
| `Delivery.FramesAreDelivered` | src/msg/msg_assembler.cpp:73-211 | for every list of frames with payload and every cut of any prefix of their bytes: exactly the complete frames, in order, with identical contents, and exactly the unfinished tail is held |
| `Delivery.BufferLeftExactly` | src/io/segmented_input_stream.cpp:163-195 | among non-empty buffers, reading leaves a buffer behind exactly if it leaves a byte behind |
| `Delivery.EmptyPayloadExactly` | src/msg/msg_assembler.cpp:190-209 | a message without payload is delivered if and only if a byte behind it has arrived |
| `Delivery.HeaderAloneBreaks` | src/msg/msg_assembler.cpp:190-209 | a header without payload that arrives on its own, which breaks the stream |
| `Delivery.ChunkReturnsExactly` | src/msg/msg_assembler.cpp:84-105 | in step with frames, the loop as written returns from a chunk if and only if the unfinished tail is empty or holds a whole header |
| `Delivery.OneByteNeverReturns` | src/msg/msg_assembler.cpp:119-124 | one byte in front of which it never returns |
| `Resynchronisation.ResyncRecovers` | src/msg/msg_assembler.cpp:213-237 | after zero-free garbage in the buffer of the first magic word, all later frames are delivered for every cut of the rest |
| `Resynchronisation.ResyncSucceedsExactly` | src/msg/msg_assembler.cpp:213-237 | from any state, a round in resync succeeds if and only if eight bytes are there and the search sees a magic word |
| `Resynchronisation.ResyncLandsExactly` | src/msg/msg_assembler.cpp:213-237 | from any state, a successful resync stands at a magic word if and only if nothing of the first buffer was consumed, or the match lies behind it, or the magic word also occurs `offset` bytes further on |
| `Resynchronisation.HeaderAfterResyncExactly` | src/msg/msg_assembler.cpp:119-237 | under exactly that condition the next header check passes; otherwise the stream is back in resync with nothing delivered |
| `Resynchronisation.ConsumedMagicDisplacesResync` | src/msg/msg_assembler.cpp:155-164 | a run from a bad header to a second resync without a delivery |
| `Resynchronisation.SyncedStep` | src/msg/msg_assembler.cpp:119-211 | at a magic word the header check passes, and the only way on is a delivery or the end of the model |
| `Resynchronisation.NoResyncWithoutDelivery` | src/msg/msg_assembler.cpp:119-237 | from a magic word on, over every sequence of single rounds and arriving buffers, the stream is never in resync before another message is delivered |
| `Resynchronisation.ResyncSpins` | src/msg/msg_assembler.cpp:213-224 | in resync in front of a buffer shorter than the magic word, a round changes nothing, and the loop as written returns exactly if the stream is empty |
| `Resynchronisation.ResyncChunkReturnsExactly` | src/msg/msg_assembler.cpp:84-105 | where a resync succeeds undisplaced and drops no whole buffer, the loop as written returns if and only if the tail of the bytes from the magic word on is empty or holds a whole header |
| `Resynchronisation.MissReturnsExactly` | src/io/segmented_input_stream.cpp:105-121 | in resync over one buffer of any bytes, read up to any offset, in which no magic word is seen: the loop as written returns if and only if no prefix of the magic word longer than the offset ends the buffer, or the whole word does, hidden behind a zero byte, in an untouched buffer of at least 16 bytes |
| `Resynchronisation.GarbageReturnsExactly` | src/msg/msg_assembler.cpp:213-224 | for an untouched chunk of zero-free garbage: if and only if no non-empty proper prefix of the magic word ends it |
| `Resynchronisation.KeptByteNeverReturns` | src/msg/msg_assembler.cpp:213-224 | eight bytes of garbage and a C, from which it never returns |
| `Resynchronisation.HiddenMagicIsDrained` | src/io/segmented_input_stream.cpp:105-121 | a magic word behind a zero byte, kept by one round and cut short by the next |
| `Resynchronisation.DisplacedReturnsExactly` | src/msg/msg_assembler.cpp:155-164 | a resync that hits the magic word at index h of a partly consumed buffer, with none met by coincidence: the loop as written returns if and only if the number of bytes left modulo h + 40 is 0 or from 8 to h |
| `Resynchronisation.RecoveryReturnsExactly` | src/msg/msg_assembler.cpp:84-105 | over whole runs that recover in their first buffer, the loop as written returns from every chunk if and only if each of them ends with such a tail |
| `Resynchronisation.ShortHeadNeverSyncs` | src/io/segmented_input_stream.cpp:85-90 | in resync with a first buffer shorter than the magic word, nothing is ever delivered, and the loop as written returns from all chunks only if no byte arrives |
| `Resynchronisation.FreshConnectionDeliversExactly` | src/msg/msg_assembler.cpp:51-59 | on a newly accepted connection whose last reset left offset 0, the states the loop settles in deliver the frames if and only if the first buffer holds at least eight bytes |
| `Resynchronisation.FreshConnectionReturnsExactly` | src/msg/msg_assembler.cpp:51-109 | on a newly accepted connection whose last reset left offset 0, the loop as written returns from every chunk if and only if each ends with an empty tail or a whole header and the first buffer is not empty unless all are; it then has delivered exactly the complete frames |
| `Resynchronisation.ShortFirstBufferLosesFrame` | src/msg/msg_assembler.cpp:51-59 | a frame that is lost because its first buffer holds four bytes |
| `Resynchronisation.MagicAloneNeverReturns` | src/msg/msg_assembler.cpp:119-124 | a first buffer of eight bytes from which the loop as written never returns |
| `AsWritten.StepAsWritten` | src/msg/msg_assembler.cpp:86-237 | where the size is exact and the search drops no whole buffer, a round with the source's own size and offset is a round of the machine |
| `AsWritten.SearchAsWritten` | src/io/segmented_input_stream.cpp:85-161 | from any stream with an exact size, the search as written finds and leaves what the modelled one does, and its size is then too large by exactly the bytes of the buffers it dropped |
| `AsWritten.SolidStep` | src/msg/msg_assembler.cpp:119-237 | every round keeps the invariant that bytes wait in front of the last buffer only while a body is awaited, and fewer than it needs |
| `AsWritten.SolidArrive` | src/msg/msg_assembler.cpp:73-84 | so does a buffer that arrives after the loop has returned |
| `AsWritten.SolidSizes` | src/io/segmented_input_stream.cpp:157-158 | under that invariant no search in resync drops a whole buffer, so the size stays exact |
| `AsWritten.LoopAsWritten` | src/msg/msg_assembler.cpp:86-105 | from every such state, the loop with the source's own size is, round by round, the machine's loop, and ends when it does |
| `AsWritten.RunAsWritten` | src/msg/msg_assembler.cpp:73-109 | over whole runs, it returns from every chunk exactly if the machine's loop does, and then ends in the same state |
| `AsWritten.StepCarries` | src/msg/msg_assembler.cpp:86-237 | for any size and any stale offset, no round adds to the bytes delivered and left |
| `AsWritten.WrongSizeLeavesMemory` | src/io/segmented_input_stream.cpp:38-64 | a size that promises a header or a body that is not there makes the handler read outside the source's memory |
| `AsWritten.ReusedConnectionExactly` | src/msg/msg_assembler.cpp:51-109 | for any offset left by the last reset: the loop as written returns from every chunk and delivers exactly the complete frames if and only if each chunk ends with a whole tail and, unless no byte arrives, the offset is 0 and the first buffer is not empty |
| `AsWritten.StaleOffsetInGarbage` | src/io/segmented_input_stream.cpp:163-195 | garbage in resync behind a stale offset: with the offset behind the buffer, the loop returns exactly if no non-empty proper prefix of the magic word ends the garbage, with the buffer still listed and a size of 0; with the offset inside it, it never returns, and leaves its memory exactly if it keeps fewer bytes than the offset counts |
| `AsWritten.StaleOffsetLeavesMemory` | src/io/segmented_input_stream.cpp:38-64 | a frame of which a stale offset leaves fewer than forty bytes makes the second round read outside the source's memory |
| `AsWritten.StaleOffsetLosesFrame` | src/io/segmented_input_stream.cpp:14-23 | any frame that arrives whole, in one buffer, is lost to any offset other than 0 that the last connection left |
| `Batches.ComputePayloadSize` | src/msg/msg_batch_writer.cpp:5-13 | the sum of the batch, wrapped to 32 bits as the code computes it |
| `Batches.WriteBatch` | src/msg/msg_batch_writer.cpp:15-21 | succeeds exactly if the whole batch fits the room left, and then writes exactly the batch |
| `Batches.SizeIsBytesWritten` | src/msg/msg_batch_writer.cpp:5-21 | the computed size is the number of bytes written, modulo 4 GiB always and exactly for a batch that fits |
| `Batches.WritingSucceedsExactly` | src/msg/msg_batch_writer.cpp:5-21 | a payload of the computed size has room for the batch if and only if the batch is below 4 GiB |
| `Batches.MsgBatchReader.ReadBatchSize` | inc/msg/msg_batch_reader.h:22-25 | the count at the front is read, or nothing moves |
| `Batches.MsgBatchReader.ReadMsg` | inc/msg/msg_batch_reader.h:28-33 | one record off the front, if more than its length field is left: the claimed length, and as many of the bytes behind it as are there; else the end of the stream |
| `Batches.RecordRoundTrip` | inc/msg/msg_batch_reader.h:28-33 | a record that is not both empty and last is read back with the rest untouched, in either byte order |
| `Batches.EmptyLastRecord` | src/io/fixed_input_stream.cpp:41-45 | an empty record at the very end is written but cannot be read |
| `Frames.PrepareMsgFrame` | src/msg/msg_frame_writer.cpp:14-40 | payload and every header field of a frame for one body: the message id, the flags with only the compressed bit added, and the uncompressed length if it is compressed |
| `Frames.PrepareMsgBatchFrame` | src/msg/msg_frame_writer.cpp:42-99 | never runs out of room; the payload is the batch, compressed or not, and every header field is stated, with the number of buffers as its batch size |
| `Frames.ReadMsgFrame` | src/msg/msg_frame_reader.cpp:12-94 | for any header, payload and listener: a compressed payload without the announced length, a batch without a count and a count that is not the announced one are each reported once, with their codes, and nothing is dispatched; a single message is handed over whole; a batch record by record, up to the first refusal or the first record that is not there, reported once |
| `Frames.RecordsAreUnpacked` | src/msg/msg_frame_reader.cpp:71-94 | for any payload, the calls hand over its records one behind the other, each with the claimed length and the bytes behind it, cut short only by the end |
| `Frames.FrameRoundTrip` | src/msg/msg_frame_reader.cpp:44-94 | a prepared batch frame dispatches exactly its buffers in order, only the final one marked last, or exactly the prefix up to the first refusal, with its result |
| `Frames.ReadsBackExactly` | src/msg/msg_sender.cpp:92-94 | with an accepting listener, a batch frame reads back if and only if the batch flag is set and the last buffer is not empty |
| `Frames.LosesEmptyLast` | src/msg/msg_frame_reader.cpp:71-94 | an empty last buffer costs exactly that buffer, with one error reported |
| `Frames.SingleReadsBackExactly` | src/msg/msg_frame_reader.cpp:44-48 | a frame for one body reads back as that message, whatever the listener answers, if and only if the batch flag is not set |
| `EndToEnd.SendBatch` | src/msg/msg_client.cpp:98-123 | the bytes handed to the transport are a header and the batch, compressed or not; decoded, the header has the message id, request id and request index it was sent with, the batch bit, the compressed bit exactly if compressed, and the other flags unchanged |
| `EndToEnd.Serve` | src/msg/msg_server.cpp:176-198 | buffers taken by a server stream lead to the calls that unpacking the delivered messages one by one specifies |
| `EndToEnd.BatchesReachListener` | src/msg/msg_server.cpp:176-198 | for any batches, compressed or not, any prefix of their bytes and any cut of it, an accepting listener is called for exactly the buffers of the complete batches, in order, without an error |
| `EndToEnd.BatchesReachListenerAsWritten` | src/msg/msg_assembler.cpp:73-109 | the same for the loop as written, on a connection slot whose offset is 0, if every chunk ends with a whole tail |
| `HashTables.MaskIsMod` | inc/transport/concurrent_hash_table.h:62-63 | masking with the size less one is taking the remainder, for every power of two |
| `HashTables.ProbingIsBijective` | inc/transport/concurrent_hash_table.h:62-63 | a full round of probes visits every slot exactly once, from any hash |
| `HashTables.HashTable.Initialize` | inc/transport/concurrent_hash_table.h:31-46 | the size is the least power of two that holds what was asked for, the table stands for the empty map, and a second call changes nothing |
| `HashTables.HashTable.GetItem` | inc/transport/concurrent_hash_table.h:92-111 | a key is found exactly if some entry holds it, wherever it is, with its value |
| `HashTables.HashTable.SetItem` | inc/transport/concurrent_hash_table.h:57-89 | the entry written is the first on the probe path that is free or holds the key, all others are unchanged; the invalid id if there is none |
| `HashTables.HashTable.RemoveAt` | inc/transport/concurrent_hash_table.h:160 | only the key of the one entry is cleared; its value and all other entries stay |
| `HashTables.HashTable.RemoveItem` | inc/transport/concurrent_hash_table.h:163-187 | the entry of a held key is cleared, nothing is changed for a key that is not held |
| `HashTables.MissMeansAbsent` | inc/transport/concurrent_hash_table.h:92-111 | a full round without a hit happens exactly if no entry holds the key |
| `HashTables.NoPlaceMeansFull` | inc/transport/concurrent_hash_table.h:87-88 | no place is found exactly if every entry is taken by another key |
| `HashTables.SetAfterMiss` | src/transport/udp_server.cpp:165-184 | setting a missing key adds exactly that mapping, and fails exactly if every entry is taken |
| `HashTables.ClearRemoves` | inc/transport/concurrent_hash_table.h:160 | clearing an entry removes exactly its key from the map |
| `HashTables.SetKeepsUniqueExactly` | inc/transport/concurrent_hash_table.h:56-89 | setting a key keeps one entry per key if and only if no hole precedes the key on its probe path; then it maps the key to the new value and leaves all others, unless the key is new and every entry is taken |
| `HashTables.HoleDuplicatesKey` | inc/transport/concurrent_hash_table.h:56-89 | a table on which it does not |
| `HashTables.StepRefinesMap` | inc/transport/concurrent_hash_table.h:57-187 | get, remove and set-after-miss each change the map, and answer, as a finite map would |
| `HashTables.HashTable.Perform` | src/transport/udp_server.cpp:165-184 | get, remove and set-after-miss by the methods of the table answer, and change its map, as stated key by key, and are one step of the runs below |
| `HashTables.RunsRefineMap` | inc/transport/concurrent_hash_table.h:57-187 | over all runs, with any hash and despite holes, the answers are those of a finite map with as much room as the table |
| `ConcurrentInserts.StepKeepsInv` | inc/transport/concurrent_hash_table.h:57-111 | every load, swap and store of every thread keeps the invariant |
| `ConcurrentInserts.RunKeepsInv` | inc/transport/concurrent_hash_table.h:57-111 | so does every interleaving, and no claimed entry changes its key on the way |
| `ConcurrentInserts.OneSlot` | inc/transport/concurrent_hash_table.h:73-79 | no key sits in two entries |
| `ConcurrentInserts.ConcurrentInsertsAreSafe` | inc/transport/concurrent_hash_table.h:57-111 | in every interleaving of inserts of distinct keys and lookups: claimed keys stay, keys are unique, returned inserts hold their value, a lookup that starts after one has returned does not miss it, and full is reported only when it is |
| `ConcurrentInserts.AloneIsSetItem` | inc/transport/concurrent_hash_table.h:57-89 | the loads, swaps and the store of an undisturbed thread come to the call of setItem that a single thread sees |
| `ConcurrentInserts.AloneIsGetItem` | inc/transport/concurrent_hash_table.h:92-111 | the loads of an undisturbed lookup end with the value the map of the table holds for the key, or with a miss if it holds none |
| `ConcurrentInserts.EqualKeysDuplicate` | inc/transport/concurrent_hash_table.h:73-77 | an interleaving in which two inserts of one key claim two entries |
| `Multiplexers.MsgMultiplexer.AssignQueueId` | src/msg/msg_multiplexer.cpp:84-88 | queues are handed out in turn, and only the connection's own assignment changes |
| `Multiplexers.MsgMultiplexer.Assign` | src/msg/msg_multiplexer.cpp:84-88 | the assignment of the next queue in turn, which takes no lock, is one step of the machine |
| `Multiplexers.MsgMultiplexer.LookUp` | src/msg/msg_multiplexer.cpp:90-92 | reading the connection's queue, which takes no lock, is one step of the machine |
| `Multiplexers.MsgMultiplexer.PushTo` | src/msg/msg_multiplexer.cpp:94-96 | pushing the event to the queue that was read is another: the event becomes the newest of that queue, in the order its worker will see |
| `Multiplexers.MsgMultiplexer.PushEvent` | src/msg/msg_multiplexer.cpp:90-97 | an undisturbed push of a connect, a message or a disconnect is these two steps, so every theorem on runs holds for the fields |
| `Multiplexers.MsgMultiplexer.OnConnect` | src/msg/msg_multiplexer.cpp:61-68 | an undisturbed connect is the assignment and the push, and opens the next epoch on the next queue in turn |
| `Multiplexers.MsgMultiplexer.StopQueue` | src/msg/msg_multiplexer.cpp:48-53 | pushing the stop event to a queue is one step of the machine |
| `Multiplexers.MsgMultiplexer.HandleOldest` | src/msg/msg_multiplexer.cpp:109-113 | handling and dropping the oldest event of a queue is one step of the machine |
| `Multiplexers.MsgMultiplexer.DrainQueue` | src/msg/msg_multiplexer.cpp:103-114 | the events are handled oldest first, each once, and the worker leaves exactly if the newest was the stop event; the loop takes the worker as far as the machine's steps do |
| `Multiplexers.StepKeepsInv` | src/msg/msg_multiplexer.cpp:61-115 | every assignment, look-up, push and worker step keeps queues in order, epochs on one queue and workers consistent; a queue once looked up stays the one of its event's epoch |
| `Multiplexers.EpochsAreHandledInOrder` | src/msg/msg_multiplexer.cpp:61-115 | in every interleaving of assignments, look-ups and pushes, with threads racing on the next queue, what is handled for a connection between two connects is a prefix, in order, of what was pushed, all by one worker |
| `Multiplexers.WorkerStopsExactly` | src/msg/msg_multiplexer.cpp:46-59 | in every schedule without further pushes to its queue, a worker takes a bounded number of steps, and once it has none left it has handled every event exactly once and has left if and only if the last one pushed is the stop event |
| `Multiplexers.EventBehindStop` | src/msg/msg_multiplexer.cpp:46-59 | a run in which an event looked up before and pushed behind the stop event keeps the worker |
| `RequestSlots.OneGrabAtATime` | src/msg/msg_request.cpp:12-23 | in every interleaving, at most one grab of a slot succeeds between two returns to idle |
| `RequestSlots.ReplacedIsRefused` | src/msg/msg_request_pool.cpp:107-127 | once another request's id has replaced a stored one, no response to the old request is accepted in any continuation |
| `RequestSlots.LateResponseExactly` | src/msg/msg_request_pool.cpp:107-127 | a response to a replaced request can still be installed if and only if it has passed its check, or is unchecked while the older grab's own id store is outstanding |
| `RequestSlots.InstallLandsExactly` | src/msg/msg_request_pool.cpp:114-121 | in every interleaving, each installation was checked; the slot still carries the checked id if and only if no id was stored in between, and it still is held by the answered request if and only if it was at the check and did not return to idle since |
| `RequestSlots.InstallOvertaken` | src/msg/msg_request_pool.cpp:116-121 | a run in which a checked response is installed in the slot of the next request |
| `RequestSlots.InstallIntoNextGrab` | src/msg/msg_request.cpp:17-20 | a run in which the next request holds the slot and the id check still passes for the old one |
| `RequestSlots.StoreOvertaken` | src/msg/msg_request.cpp:17-20 | an interleaving in which the slot is held by one request and answers to another |
| `RequestSlots.GrabAlone` | src/msg/msg_request.cpp:12-23 | the load, swap and store of an undisturbed grab take an idle slot for its request and leave any other as it is |
| `RequestSlots.ResponseAlone` | src/msg/msg_request_pool.cpp:107-127 | undisturbed, a response is installed exactly if it carries the id of the slot, and is refused otherwise with the slot as it was |
| `RequestSlots.AcceptedIsLastStored` | src/msg/msg_request_pool.cpp:107-127 | every response accepted in a run carries the id stored last before it |
| `RequestPools.MsgRequest.TryGrab` | src/msg/msg_request.cpp:12-23 | an idle slot is taken for the request, any other is left as it is; as the steps of an undisturbed grab of the concurrent machine |
| `RequestPools.MsgRequest.SetResponse` | src/msg/msg_request.cpp:116-121 | the response is installed whatever the status was |
| `RequestPools.MsgRequest.AbortResponse` | src/msg/msg_request.cpp:128-135 | a pending request is aborted, any other is left as it is; as the step of the concurrent machine |
| `RequestPools.MsgRequest.ClearResponse` | src/msg/msg_request.cpp:137-143 | the slot is idle and forgets everything but its request id; as the step of the concurrent machine |
| `RequestPools.MsgRequestPool.GetVacantRequest` | src/msg/msg_request_pool.cpp:15-27 | from the slot the low 32 bits of the request id point to, going round once, the first idle slot is taken and nothing else of the pool changes; null exactly if none is idle |
| `RequestPools.MsgRequestPool.SetResponse` | src/msg/msg_request_pool.cpp:107-127 | accepted exactly if the slot at the index carries the id, an invalid argument exactly if there is no such slot, corrupt data otherwise; a refused response changes nothing, an accepted one only status and response of its slot; check and installation, or check and refusal, of the concurrent machine |
| `RequestPools.MsgRequestPool.ClearPendingRequest` | src/msg/msg_request_pool.cpp:86-105 | under exactly the same condition, with the same error codes, the slot returns to idle and forgets request, response and request time; no other slot changes in any field |
| `RequestPools.MsgRequestPool.AbortPendingRequests` | src/msg/msg_request_pool.cpp:47-51 | exactly the pending slots are aborted |
| `Backlogs.InsertKeepsOrder` | inc/msg/msg_backlog.h:75-89 | an entry with a new request id has one place in the ordered set, equal request times included |
| `Backlogs.OrderIsByTimeThenId` | inc/msg/msg_backlog.h:75-89 | of two entries of the ordered set the one with the smaller request time comes first, and of two equal times the one with the smaller request id |
| `Backlogs.MsgBacklog.AddPendingRequest` | src/msg/msg_backlog.cpp:13-50 | not found exactly if the slot the header names does not carry the id, already there exactly if the id is stored, and else map, set and heap gain the same entry and the size its payload; a failure changes nothing |
| `Backlogs.MsgBacklog.RemovePendingRequest` | src/msg/msg_backlog.cpp:52-102 | not found exactly if the id is not stored, corrupt exactly if another message is stored under it, and else map, set and heap lose that entry and the size its payload; a failure changes nothing |
| `Backlogs.MsgBacklog.FindRequestByTime` | src/msg/msg_backlog.cpp:173-204 | a found entry is the request; if none is found, no entry of that time is |
| `Backlogs.MsgBacklog.UpdateReadyResendRequest` | src/msg/msg_backlog.cpp:165-171 | erasing and inserting the oldest entry puts it back where it was |
| `Backlogs.MsgBacklog.HasReadyResendRequest` | src/msg/msg_backlog.cpp:158-161 | it reports exactly whether the oldest request was resent before the barrier; a reported request is ready; and if no request was resent longer ago than the oldest one, the report is right either way |
| `Backlogs.MsgBacklog.RegrabSlot` | src/msg/msg_request.cpp:12-30 | a slot that serves no stored request is cleared and taken for the next one without disturbing the indices |
| `Backlogs.MsgBacklog.Replay` | src/msg/msg_backlog.cpp:13-171 | over every run of adds, removes and updates, with free slots taken for new requests and resend times touched in between, the indices agree and the answers are those of a map by request id |
| `Backlogs.StoredAfterRun` | src/msg/msg_backlog.cpp:13-102 | over every run, a request is stored in the end exactly if it was before the run or was added in it successfully, and no later removal of its id succeeded |
| `Backlogs.ReadyCheckExactly` | inc/msg/msg_backlog.h:42-48 | the ready check gives the documented answer for every barrier if and only if no request was resent longer ago than the oldest one |
| `Backlogs.ReadyRequestMissed` | src/msg/msg_backlog.cpp:158-161 | a backlog in which a ready request is not reported |

## Left out

- AssemblyMachine.Assemble, MsgAssemblers.MsgStream.AssembleMessages, MsgAssemblers.MsgStream.OnBytesReceived, MsgAssemblers.ReceiveBuffers: stop when a round changes nothing, where the loop at src/msg/msg_assembler.cpp:86-105 goes on in the same state without end; `Returns`, `AllReturn` and `RawAllReturn` speak of the loop that goes on.
- AssemblyMachine.SourceLoopSettles, AssemblyMachine.SourceLoopEndsExactly: keep an exact size; AsWritten.LoopAsWritten shows that the source's loop is the same from every state that a connection with offset 0 at its start can come to. For a connection with another offset ReusedConnectionExactly, StaleOffsetInGarbage, StaleOffsetLeavesMemory and StepCarries speak of the source's loop.
- SegmentedInputStreams.SegmentedInputStream.SearchBytes, SegmentedInputStreams.SegmentedInputStream.SearchHead, MsgAssemblers.MsgStream.OnResync: lower the size by the heads they drop, which src/io/segmented_input_stream.cpp:158 does not. `unaccounted` records the difference, SizeStaysExact says when there is one, and AsWritten.SolidSizes that no connection with offset 0 at its start comes to it; a wrong size is modelled in AsWritten only.
- Resynchronisation.MissReturnsExactly, Resynchronisation.DisplacedReturnsExactly: over one buffer, which is all that can hold bytes in resync on a connection with offset 0 at its start (AsWritten.SolidStep); empty buffers beside it, and a displaced stream that comes upon a magic word by coincidence, are followed by the theorems on single rounds.
- Resynchronisation.FreshConnectionDeliversExactly, Resynchronisation.FreshConnectionReturnsExactly: start from offset 0; AsWritten.ReusedConnectionExactly is the statement for every offset.
- SegmentedSearch.SearchIsFaithful: that nothing dropped could start a match with bytes still to come is proved from offset 0 and over zero-free bytes; FailsWithoutLossExactly says when it holds from other offsets, and over other bytes only SearchConsumes and SearchLanding say what a search does.
- SearchLanding.LandsOnFirstExactly: the pattern is free of zero bytes, as the magic word, the only pattern searched for, is.
- SegmentedInputStreams.SegmentedInputStream.PeekBytes, CopyBytes, ReadBytes, SkipBytes: need a first buffer, because the source dereferences it without a check.
- MsgAssemblers.MsgStream.Reset: keeps the stale offset as the source does, so a stream reset in the middle of a buffer is not well formed and the methods of the class cannot be called on it; its further use is modelled in AsWritten.
- Delivery.FramesAreDelivered: needs frames with a payload. A length below 40, and an empty payload with no buffer behind its header, make the source leave its own memory; both end the model in the mode `Broken`, and EmptyPayloadExactly says when the second happens.
- Resynchronisation.ResyncRecovers: needs the garbage and the first magic word in one buffer; a magic word cut across buffers is covered by SearchPositionsStream, and a first buffer below eight bytes by ShortHeadNeverSyncs.
- MsgHeaders.HeaderLayout: assumes the common rule that a member is placed at the next multiple of its alignment and that an integer is aligned to its size.
- EndToEnd.BatchesReachListener, EndToEnd.BatchesReachListenerAsWritten: batches with an empty last buffer, which ReadsBackExactly shows to fail, and a compressor that yields no bytes are excluded; a listener that refuses is covered frame by frame by FrameRoundTrip. Replies take the same path back.
- Frames.PrepareMsgFrame, Frames.PrepareMsgBatchFrame: need header and payload below 4 GiB; beyond, the source's 32-bit length wraps. Batches.WritingSucceedsExactly covers the wrap of the batch size alone.
- Frames.FrameRoundTrip, Frames.ReadsBackExactly, Frames.SingleReadsBackExactly, EndToEnd.BatchesReachListener: exclude a caller who sets the compressed flag by hand on an uncompressed frame, since what the library makes of such bytes is not known.
- HashTables.HashTable.Initialize: at most 2^31 entries, since slot ids are 32 bits wide and the top one marks failure.
- HashTables.RunsRefineMap: key 0 marks a free entry and is not a key; single-thread use only.
- ConcurrentInserts.ConcurrentInsertsAreSafe: no removals, and no two inserts of one key, for which EqualKeysDuplicate shows the failure; lookups that overlap the insert of their key may miss it.
- Multiplexers.MsgMultiplexer.Assign: hands out the queues in turn when no other thread assigns at the same time; in the machine the queue of an assignment is any, which covers threads racing on `m_nextQueue`. The machine takes a worker's wake-up, draining and release as holding the queue's lock, so pushing is blocked meanwhile.
- Multiplexers.MsgMultiplexer.LookUp, Multiplexers.MsgMultiplexer.PushEvent: need a connection that was assigned a queue; the source indexes its array with whatever is there.
- RequestSlots.InstallLandsExactly: request ids are distinct, and a slot's fields other than status, id and history are left out.
- Backlogs.MsgBacklog.Replay: a slot is taken for a new request only while no stored request uses it, and header fields, request times and payload sizes of stored requests do not change, which the source relies on for its ordered set. An update of an empty backlog, which the source would not survive, is left out.
- Backlogs.MsgBacklog.AddPendingRequest: the rollback branches at src/msg/msg_backlog.cpp:32-46 are not modelled; with distinct request ids no insertion into set or heap can fail. The heap's order by resend time is never used by the code and is not modelled.
- The 32-bit offsets and sizes of the streams are unbounded here, as are the `int` indices of the string search; streams of 4 GiB and haystacks of 2 GiB are outside the model.
- The host is taken to be little-endian; on a big-endian host the conversions would do nothing.
- A buffer is a value with a handle: sharing its memory with the transport, and the bytes changing underneath, are not captured.
- The assembler's array of streams by connection index, and the listener's answer whether it keeps a message.
- Compression is a pair of functions of which only losslessness is used; exceptions of the compression library are left out.
- `FixedInputStream::searchBytes`, `peek` and `readUntil`: not on the receive path.
- `getOrSetItem`, `getAt`, `setAt`, the mixing of the hash, and memory orderings weaker than sequential consistency.
- `pruneBacklog`: it subtracts each pruned size twice (src/msg/msg_backlog.cpp:126 and 100), so its bound does not hold as written.
- The sender's resend and response scans, timeouts, condition variables, request flags and listeners of the request pool.
- The UDP server's array of connections, which it indexes with a connection id (src/transport/udp_server.cpp:179, 188); only its set-after-miss discipline is used.
- A failed connect, which the multiplexer ignores (src/msg/msg_multiplexer.cpp:63), and a message it may not keep (lines 76-79).
- Allocation failures, sockets, pipes, event loops, timers, TLS and logging.
