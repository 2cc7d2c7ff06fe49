# Ladder: verified core

A Dafny model of the parts of the Ladder network library whose correctness is
algorithmic or protocol-like, and proofs about them.

| file | component |
|---|---|
| `Search.dfy`, `Splitting.dfy` | substring search with the optimised Knuth-Morris-Pratt table, and string splitting on top of it |
| `HttpTables.dfy`, `Http.dfy`, `HttpLaws.dfy`, `HttpRoundTrip.dfy`, `HttpStream.dfy`, `HttpOutcome.dfy`, `HttpCodec.dfy` | the HTTP request parser and printer, and requests as a byte stream |
| `Stepping.dfy` | a reader that takes at most one item off its buffer per read event |
| `Buffer.dfy` | the byte buffer, and the kernel that it reads from and writes to |
| `Checksum.dfy`, `CheckValues.dfy`, `Framing.dfy`, `Codec.dfy` | words on the wire, CRC-32, the length-and-checksum framing, the type-name frame |
| `Output.dfy`, `Connection.dfy` | the file buffer and the connection's output handlers |
| `ThreadPool.dfy` | the worker pool as a state machine over all interleavings |
| `MemoryPool.dfy` | the block allocator and its wrapper |
| `Backoff.dfy` | the retry delays and the timer |
| `Basics.dfy` | what several components share |

Check everything with `dafny verify dfyconfig.toml`.

## How to read it

- A method of the source that changes an object is a method with a `modifies`
  clause; its contract equates the new state with a function of the old one, and
  the properties are proved of that function.
- The kernel is a `Kernel.Socket`: an arbitrary finite script of answers, each a
  count or an error, after which every call would block. Since the script is
  arbitrary, what is proved holds for every sequence of partial writes, partial
  `sendfile` counts and EAGAINs. What a flush leaves is a function of the sizes
  waiting and of the script (`Buffers.Flushed`, `FileBuffers.FlushedFiles`), so
  the conditions below can be evaluated before the call. The script's length is
  the termination measure of the flush loops.
- The checksum is a parameter of the framing proofs. It is CRC-32 (section 8 of
  RFC 1952) where it matters which one it is: `Codecs.AlteredPacketRejected`.
- A C++ exception, or undefined behaviour that the source does not exclude, is a
  value of the result (`Exception`, `OutOfRange`, `Malformed`), not a
  precondition of the parser.

## Where the code falls short of the obvious property

Each of these is kept as the code has it, and the exact condition is proved.

- `FindSubstr` reads the string terminator as if it were the character after the
  pattern. It lists all occurrences in every text if and only if the character
  after the pattern's longest border is not NUL (`Search.ExactIff`,
  `Search.NulPatternExample`).
- `SplitString` and joining restore every string if and only if the separator
  cannot be reported twice within its own length (`Splitting.AllSurviveIff`,
  `Splitting.OverlapExample`).
- A decided HTTP message is unaffected by further bytes if and only if its
  Content-Length is not negative (`HttpStream.StableIff`,
  `HttpStream.NegativeLengthExample`).
- The parser throws if and only if a known header name with nothing behind its
  colon comes before any header line without one (`HttpStream.ThrowsIff`,
  `HttpStream.ThrowExample`).
- A decided HTTP message, one that makes the parser throw included, is never taken
  off the buffer if and only if it has a header line of one of these two kinds, or
  a Content-Length that cancels the length of its head in 32 bits
  (`HttpStream.SticksIff`, `HttpStream.ThrowExample`, `HttpStream.BadLineExample`,
  `HttpStream.WrapExample`).
- The server takes one request per read event, so a request can be whole and
  still wait. None ever does if and only if no chunk completes a second request,
  and how many have been decoded is known for every cut
  (`HttpStream.RequestsInPieces`, `HttpStream.SecondWaits`).
- A packet with a wrong checksum ends the call of `OnMessage`, so what follows it
  waits for the next read. A stream is handed over in full however it is cut if
  and only if no sound packet comes behind its first corrupt one
  (`Framing.AnyCutIff`, `Framing.CorruptPacketStalls`).
- The bound check of the type-name frame wraps in 32 bits (`Codecs.ThrowsIff`,
  `Codecs.ThrowingPacket`).
- `OnWriteCallback` uses the flush's result after the user's callback. The
  poll-out bit is wrong if and only if the kernel takes everything and the
  callback then adds something, so it is right for every kernel if and only if
  the callback adds nothing (`Connections.Connection.OnWriteCallback`,
  `Connections.Connection.AlwaysMatchesIff`, `Connections.CallbackStrandsByte`).
- A connection that is shutting down closes when its queue is empty, but a file
  buffer's queue can be empty with bytes in its inner buffer. The close loses
  bytes if and only if the flush leaves that, and no kernel can bring it about
  if and only if what is sent last is not a text in a file buffer
  (`Connections.Connection.OnWriteCallback`,
  `Connections.Connection.NeverLosesIff`, `Connections.CloseLosesByte`).
- The 16-bit retry delay reaches zero, which disarms the timer, exactly when the
  base is divisible by the matching power of two, and always from the seventeenth
  retry on (`Backoff.DisarmedIff`, `Backoff.DisarmedExample`).

## Model

| member | source | states |
|---|---|---|
| Search.Failure | ladder/src/utils.cpp:41-52 | the table's entry for i is the longest proper border of the first i characters whose next character differs from the i-th (the terminator at the end), -1 if there is none |
| Search.ShortcutSkipsNothing | ladder/src/utils.cpp:50-51 | replacing the border t by its own entry skips no border that the next character could extend |
| Search.ExtensionIsLongest | ladder/src/utils.cpp:43-45 | when the characters agree, t + 1 is the longest proper border of the first i + 1 characters |
| Search.OneStepSuffices | ladder/src/utils.cpp:45-49 | the entry for i is its longest border or, if that is unusable, the entry of that border, which is usable again |
| Search.NextEntry | ladder/src/utils.cpp:45-49 | the inner loop yields the entry, and its body runs at most once |
| Search.BuildTable | ladder/src/utils.cpp:41-52 | every entry of the table, filled in place while it is read, is right, within 2 * len2 iterations |
| Search.MismatchSkipsNothing | ladder/src/utils.cpp:54-63 | after a mismatch the pattern occurs nowhere before the new window |
| Search.FindSubstr | ladder/src/utils.cpp:33-68 | for every text and pattern, what is reported: each occurrence at least one shift after the one before; all occurrences when the pattern is NUL-safe; at most 2 * len1 - len2 + 1 iterations |
| Search.OccurrencesAreAll | ladder/src/utils.cpp:53-64 | the list of occurrences is strictly ascending and holds exactly the positions where the pattern occurs, overlapping ones included |
| Search.SafeMeansAll | ladder/src/utils.cpp:53-64 | for a NUL-safe pattern the shift skips no occurrence |
| Search.UnsafeMisses | ladder/src/utils.cpp:46 | every pattern that is not NUL-safe has a text in which an adjacent or overlapping occurrence is missed |
| Search.NulFreeIsSafe | ladder/src/utils.cpp:46 | a pattern without NUL is NUL-safe |
| Search.ExactIff | ladder/src/utils.cpp:33-68 | all occurrences are reported in every text if and only if the pattern is NUL-safe |
| Search.NulPatternExample | ladder/src/utils.cpp:46 | the pattern NUL is found at one of two positions |
| Search.EmptyPatternEverywhere | ladder/src/utils.cpp:54-64 | the empty pattern is reported exactly at 0 to the length of the text |
| Splitting.SplitString | examples/http/HttpCodec.cpp:15-31 | the pieces cut at the reported positions; for a separator without a border they are the one way to take the string apart |
| Splitting.JoinPieces | examples/http/HttpCodec.cpp:22-28 | joining gives the string back, or a longer one if two cuts overlap |
| Splitting.SurvivesIff | examples/http/HttpCodec.cpp:15-31 | one string survives splitting and joining if and only if no two cuts overlap |
| Splitting.AllSurviveIff | examples/http/HttpCodec.cpp:15-31 | every string survives if and only if the separator's shift is at least its length |
| Splitting.OverlapExample | examples/http/HttpCodec.cpp:15-31 | the separator "aa" has shift 1 and "aaa" does not survive it |
| Splitting.PiecesAreSplit | examples/http/HttpCodec.cpp:15-31 | for a separator without a border no piece holds it and joining restores the string |
| Splitting.SplitUnique | examples/http/HttpCodec.cpp:15-31 | a string can be taken apart in one way only |
| Splitting.SplitJoin | examples/http/HttpCodec.cpp:15-31 | splitting undoes joining |
| Splitting.FirstStable | examples/http/HttpCodec.cpp:58-62 | appending to a string does not move its first occurrence |
| Decimal.AtoiToString | examples/http/HttpCodec.cpp:101-123 | what to_string prints atoi reads back, for every integer |
| Decimal.AtoiReads | examples/http/HttpCodec.cpp:101 | atoi skips leading white space, heeds a sign and stops behind the digits |
| Decimal.AtoiOfNone | examples/http/HttpCodec.cpp:101 | what is no number is read as 0 |
| HttpTables.MethodTables | examples/http/http_defs.h:76-96 | the two method tables are inverse to one another |
| HttpTables.FieldTables | examples/http/http_defs.h:98-116 | the two header tables are inverse to one another |
| HttpLaws.HeadEnds | examples/http/HttpCodec.cpp:58-65 | the first CRLFCRLF of a printed message is the one that ends its head, and what precedes it is the joined lines |
| HttpLaws.HeadersRoundTrip | examples/http/HttpCodec.cpp:69-94 | printed header lines are read back as the known headers with their values |
| HttpLaws.PrintedInOrder | examples/http/HttpCodec.cpp:125-131 | each known header is printed once, as name, colon, space and value, in the order of the field numbers, and nothing else is |
| HttpRoundTrip.LinesWellFormed | examples/http/HttpCodec.cpp:118-136 | the printed lines hold no line break and none is empty |
| HttpRoundTrip.HandlePrinted | examples/http/HttpCodec.cpp:143-192 | a printed start line is handled with 200 and the same method, version and uri without its slash |
| HttpRoundTrip.AcceptedIff | examples/http/HttpCodec.cpp:143-182 | 200 exactly for a known method, a uri with a leading slash and a version, separated by single spaces |
| HttpRoundTrip.StartLinePrintsBack | examples/http/HttpCodec.cpp:143-192 | parse, then print: an accepted start line comes back once the slash is put in front of the uri again |
| HttpRoundTrip.EncodingIff | examples/http/HttpCodec.cpp:167-179 | gzip is chosen exactly if it is listed and identity is not listed before it; otherwise identity is |
| HttpRoundTrip.RoundTrip | examples/http/HttpCodec.cpp:56-136 | print, then parse with anything behind it: 200, the same request, and a length of exactly head plus body |
| HttpRoundTrip.CutIsIncomplete | examples/http/HttpCodec.cpp:58-104 | every strict prefix of a printed request is incomplete and nothing of it is taken |
| HttpStream.UndecidedIff | examples/http/HttpCodec.cpp:56-109 | -1 exactly if the empty line or part of the declared body has not arrived |
| HttpStream.Stable | examples/http/HttpCodec.cpp:56-116 | once decided, more bytes change neither status nor context nor length |
| HttpStream.StableIff | examples/http/HttpCodec.cpp:99-113 | that holds for all further bytes if and only if the Content-Length is not negative |
| HttpStream.NegativeLengthExample | examples/http/HttpCodec.cpp:99-113 | a printed request with Content-Length -1 is decided and changes with a further byte |
| HttpStream.Pipelined | examples/http/HttpCodec.cpp:252-268 | any number of requests and a strict prefix of another: each is decoded in order, the prefix is reported incomplete and stays untouched |
| HttpStream.BadLineSticks | examples/http/HttpCodec.cpp:84-86 | a line without a colon is answered 400 with length 0 whatever arrives later, and is never taken off |
| HttpStream.SticksIff | examples/http/HttpCodec.cpp:84-115 | a decided message, or one that throws, is never taken off the buffer, whatever arrives later, if and only if it has a bad header line or head and declared length cancel in 32 bits |
| HttpStream.BadLineExample | examples/http/HttpCodec.cpp:84-86 | a request whose second line is "Host" is answered 400 and sticks |
| HttpStream.ThrowsIff | examples/http/HttpCodec.cpp:69-94 | the parser throws if and only if a known name with nothing behind its colon comes before any line without one |
| HttpStream.ThrowExample | examples/http/HttpCodec.cpp:91-92 | a request whose second line is "Host:" makes the parser throw and sticks |
| HttpStream.WrapExample | examples/http/HttpCodec.cpp:101-113 | a request of 39 bytes with Content-Length -39 is accepted and sticks |
| HttpOutcomes.AllReadIff | examples/http/HttpCodec.cpp:69-94 | all header lines are read exactly if each has a colon and none is a known name with nothing behind it; 400 exactly if a line without a colon comes first |
| HttpOutcomes.NeverNamed | examples/http/HttpCodec.cpp:88-93 | a field that no line names keeps its value, whatever unknown names the lines hold |
| HttpOutcomes.LastNamed | examples/http/HttpCodec.cpp:88-93 | a field has what is behind the colon and the space of the last line that names it |
| HttpOutcomes.StatusIff | examples/http/HttpCodec.cpp:143-182 | 405 exactly for three fields with an unknown method; with `HttpRoundTrip.AcceptedIff` for 200, everything else is 400 |
| HttpOutcomes.VerbNoted | examples/http/HttpCodec.cpp:151-157 | a known method is noted even if the uri is then refused |
| HttpOutcomes.NotThreeFields | examples/http/HttpCodec.cpp:147-149 | a start line without exactly three fields is answered 400 and changes nothing |
| HttpOutcomes.HandleKeeps | examples/http/HttpCodec.cpp:143-182 | start line, headers and payload are never changed by the handler, and a refusal changes at most the method |
| HttpOutcomes.EncodingOfAccepted | examples/http/HttpCodec.cpp:167-179 | an accepted request gets gzip exactly if its Accept-Encoding lists gzip with no identity before it, and identity otherwise |
| HttpOutcomes.DecidedRequest | examples/http/HttpCodec.cpp:56-116 | a decided message with readable headers: the lines are the split of the head, the payload is the declared part behind it (all of it for a negative length), the length is head plus declared length, status and context are the handler's |
| HttpOutcomes.DecidedBadLine | examples/http/HttpCodec.cpp:84-86 | for a line without a colon: 400, length 0, no payload, and the headers read before it |
| HttpOutcomes.NoContentLength | examples/http/HttpCodec.cpp:99-113 | without a Content-Length line the length is the head and the payload is empty |
| HttpOutcomes.ContentLengthLine | examples/http/HttpCodec.cpp:99-101 | the last Content-Length line declares the length |
| HttpOutcomes.StepTakesExactly | examples/http/HttpCodec.cpp:262-268 | whatever the status, one step takes exactly head and declared body, in 32 bits, or nothing |
| Stepping.ArrivingInOrder | examples/http/HttpCodec.cpp:252-268 | one step per read event, any cut: items are taken in order, none lost and none twice, and what is left is the rest of the stream |
| Stepping.ArrivingCounted | examples/http/HttpCodec.cpp:252-268 | the number of items taken is the least, over every j, of what is whole after j chunks plus one per later chunk (one per chunk for j = 0); it is all that is whole if no chunk completes two |
| Stepping.TakenCount | examples/http/HttpCodec.cpp:252-268 | that least bound, in sizes alone |
| Stepping.PromptIff | examples/http/HttpCodec.cpp:252-268 | no whole item waits after an event if and only if no chunk completes a second one |
| HttpStream.RequestsInPieces | examples/http/HttpCodec.cpp:252-268 | order, number and waiting, as above, for printed requests and the server's step |
| HttpStream.SecondWaits | examples/http/HttpCodec.cpp:252-268 | of two requests in one chunk the second stays in the buffer |
| HttpCodec.FindColon | examples/http/HttpCodec.cpp:76-82 | the position of the first colon, -1 if there is none |
| HttpCodec.ChooseEncoding | examples/http/HttpCodec.cpp:170-178 | the first listed encoding that is known and supported, identity if there is none |
| HttpCodec.HttpRequest.HandleMessage | examples/http/HttpCodec.cpp:143-182 | status and context are those of `Handle`, error cases included, which `HttpOutcomes.StatusIff`, `HandleKeeps`, `VerbNoted` and `EncodingOfAccepted` describe |
| HttpCodec.HttpRequest.ReadHeaders | examples/http/HttpCodec.cpp:69-94 | start line and headers as `ReadLines` has them, up to the first bad line, which `HttpOutcomes.NeverNamed` and `LastNamed` describe field by field |
| HttpCodec.HttpRequest.ReadBody | examples/http/HttpCodec.cpp:96-115 | body, length and status as `Body` has them |
| HttpCodec.HttpRequest.ParseMessage | examples/http/HttpCodec.cpp:56-116 | the call does what `Parse` says: status, length, context, or the exception; `HttpOutcomes.DecidedRequest` says what that is |
| HttpCodec.HttpRequest.PrepareMessage | examples/http/HttpCodec.cpp:184-192 | false exactly for a method without a name, otherwise the start line is filled in |
| HttpCodec.HttpRequest.ComposeHeaders | examples/http/HttpCodec.cpp:118-136 | the head that `HttpRoundTrip.RoundTrip` parses back is appended, and the context is the prepared one |
| HttpCodec.ClientStep | examples/http/HttpCodec.cpp:252-268 | one Peek, Parse, HaveRead step returns the outcome of `Parse` and takes off the buffer exactly what `HttpStream.StepTakes` says |
| HttpCodec.ClientSteps | examples/http/HttpCodec.cpp:252-268 | the step repeated with new request objects is `HttpStream.Drained`, and the last one takes nothing |
| HttpCodec.ReadPipelined | examples/http/HttpCodec.cpp:252-268 | over a buffer with requests and part of another: all are decoded in order, the last step reports -1, the part stays |
| HttpCodec.ServeChunks | examples/http/HttpCodec.cpp:252-268 | one step per chunk written into the buffer is `Stepping.Arriving`, and an exception is thrown exactly if it has one |
| HttpCodec.ServeRequests | examples/http/HttpCodec.cpp:252-268 | requests that arrive at an empty buffer in any chunks are decoded in order without an exception, as many as there are whole ones and read events for, and the buffer holds the rest |
| Buffers.Buffer.constructor | ladder/src/Buffer.cpp:20 | a new buffer is valid and empty |
| Buffers.Buffer.Peek | ladder/src/Buffer.cpp:29-40 | the first bytes, as many as asked for in 32 bits and available |
| Buffers.Buffer.HaveRead | ladder/src/Buffer.cpp:42-48 | that many bytes leave the front, also across an index reset |
| Buffers.Buffer.Read | ladder/src/Buffer.cpp:22-27 | what is returned followed by what remains is what was there |
| Buffers.Buffer.ReadAll | ladder/src/Buffer.cpp:50 | everything is returned and the buffer is empty |
| Buffers.Buffer.Write | ladder/src/Buffer.cpp:71-83 | the bytes are appended although they are inserted in front of stale ones; the backing vector holds every byte ever written |
| Buffers.Buffer.ReadBufferFromFd | ladder/src/Buffer.cpp:92-116 | buffer and unread input together stay the same stream; how much is read, the result and the answers used up are what the kernel's script decides (`Buffers.FetchedTakesGiven`, `Buffers.FetchedResult`) |
| Buffers.FetchedTakesGiven | ladder/src/Buffer.cpp:92-116 | everything that arrived is read, up to what the kernel gives before its first refusal or 0, 1024 bytes at a time |
| Buffers.FetchedResult | ladder/src/Buffer.cpp:96-115 | the loop ends at the first call that gives nothing, and returns -1 exactly if that call is refused, 0 if it is answered |
| Buffers.Buffer.WriteSome | ladder/src/Buffer.cpp:120-141 | one round: one kernel call for at most 1024 bytes, and what it took leaves the buffer |
| Buffers.Buffer.WriteBufferToFd | ladder/src/Buffer.cpp:118-143 | wire and buffer together stay the same stream; what is left and the answers used up are what the kernel's script decides; 0 exactly if drained, otherwise -1 |
| Buffers.FlushedUsesCapacity | ladder/src/Buffer.cpp:118-143 | what a flush leaves is what exceeds the capacity that the kernel has before its first refusal |
| Buffers.FlushedStops | ladder/src/Buffer.cpp:118-143 | a flush gives up at a refusal and nowhere else |
| Buffers.Run | ladder/src/Buffer.cpp:22-83 | every run of writes, peeks and reads yields what a plain queue yields, and the vector grows by exactly what was written |
| Buffers.QueueConserves | ladder/src/Buffer.cpp:22-83 | first in, first out: what was read followed by what is left is what was written |
| Words.WireOrder | ladder/src/codec/Codec.cpp:36-48 | htonl and memcpy put the most significant byte first on hosts of either byte order, and memcpy and ntohl undo it |
| Words.MostSignificantFirst | ladder/src/codec/Codec.cpp:36-48 | the four bytes of a word on the wire count 2^24, 2^16, 2^8 and 1 |
| Checksums.UpdateInjective | ladder/src/codec/Codec.cpp:39-42 | two running checksums that differ stay different over equal data |
| Checksums.UpdateFeeds | ladder/src/codec/Codec.cpp:39-42 | the bytewise loop is the division of the data's bits one by one |
| Checksums.FeedAtOnce | ladder/src/codec/Codec.cpp:39-42 | up to 32 bits of data may as well enter the register at once |
| Checksums.BurstDetected | ladder/src/codec/Codec.cpp:39-43 | two texts that differ only within 32 adjacent bits, wherever they begin, have the same checksum if and only if they are equal |
| Checksums.BytesAreBurst | ladder/src/codec/Codec.cpp:39-43 | changes to adjacent bytes are such a burst |
| Checksums.ByteChangeDetected | ladder/src/codec/Codec.cpp:39-43 | the checksum changes if and only if the one altered byte did |
| CheckValues.CheckValue | ladder/src/codec/Codec.cpp:39-43 | the bytes FF FF FF 7F have the checksum 12477CDF |
| CheckValues.Residue | ladder/src/codec/Codec.cpp:39-43 | a text and four bytes behind it leave one and the same value if and only if these are the text's checksum, least significant byte first |
| Framing.AttemptStable | ladder/src/codec/Codec.cpp:53-83 | more bytes change nothing that one attempt has decided |
| Framing.PacketLayout | ladder/src/codec/Codec.cpp:32-51 | the packet is its own length, the message's checksum and the message |
| Framing.PumpSplitsStream | ladder/src/codec/Codec.cpp:25-30 | what one call hands over and what it leaves make up the stream, whatever follows |
| Framing.ReceiveSplitsStream | ladder/src/codec/Codec.cpp:25-30 | for every stream and every cut: sound packets are handed over in order, none twice, none skipped but those still buffered |
| Framing.PacketDelivered | ladder/src/codec/Codec.cpp:32-83 | an encapsulated message is delivered and exactly its packet is consumed |
| Framing.PumpPackets | ladder/src/codec/Codec.cpp:25-30 | one call hands over exactly the messages that have fully arrived and keeps the rest |
| Framing.Fragmentation | ladder/src/codec/Codec.cpp:25-83 | however the packets are cut, after any number of chunks exactly the fully arrived messages were handed over and the buffer holds the remainder |
| Framing.ReceiveClean | ladder/src/codec/Codec.cpp:25-83 | a stream without corrupt packets is handed over in full, however it is cut |
| Framing.PumpAllIff | ladder/src/codec/Codec.cpp:25-30 | one call hands over all sound packets if and only if none comes behind the first corrupt one |
| Framing.AnyCutIff | ladder/src/codec/Codec.cpp:25-83 | every cut of a stream hands over all its sound packets if and only if none comes behind the first corrupt one |
| Framing.CorruptPacketStalls | ladder/src/codec/Codec.cpp:76-78 | after a corrupt packet the cut decides whether the next message is handed over |
| Codecs.Decapsulate | ladder/src/codec/Codec.cpp:53-83 | one attempt on the buffer: delivered, corrupt or incomplete, and what is left in each case |
| Codecs.OnMessage | ladder/src/codec/Codec.cpp:25-30 | the loop hands over and leaves what `Pump` says |
| Codecs.ReceiveChunks | ladder/src/codec/Codec.cpp:25-30 | writing and calling `OnMessage` once per chunk is `Receive` |
| Codecs.Encapsulated | ladder/src/codec/Codec.cpp:32-51 | length of the packet in its first four bytes, checksum in the next four, most significant byte first on hosts of either byte order, then the message |
| Codecs.PacketsReadableInChunks | ladder/src/codec/Codec.cpp:25-83 | a stream of packets never leads to the undefined behaviour, however it is cut |
| Codecs.ReceiveMessages | ladder/src/codec/Codec.cpp:25-83 | over an empty buffer and any chunks, `OnMessage` hands over exactly the fully arrived messages and the buffer holds the remainder |
| Codecs.AlteredPacketRejected | ladder/src/codec/Codec.cpp:67-78 | a packet whose message was altered within 32 adjacent bits is never handed over |
| Codecs.ComposeMessage | ladder/src/codec/ProtobufCodec.cpp:36-49 | name length in the first four bytes, then the name, then the message |
| Codecs.ParseIffComposed | ladder/src/codec/ProtobufCodec.cpp:51-84 | a packet is accepted as this name and message if and only if it is composed of them and the name is known |
| Codecs.ThrowsIff | ladder/src/codec/ProtobufCodec.cpp:60-76 | the exception is thrown exactly for the four name lengths whose bound check wraps, when the rest is a known name |
| Codecs.ThrowingPacket | ladder/src/codec/ProtobufCodec.cpp:60-76 | FF FF FF FC followed by a known name throws |
| Codecs.TwoLayersRoundTrip | ladder/src/codec/Codec.cpp:32-83 | through composing, encapsulating, the buffer, decapsulating and parsing, on hosts of any byte orders: name and message come out and what follows stays in the buffer |
| Codecs.ReceiveNamed | ladder/src/codec/Codec.cpp:25-90 | the packets of any named messages in any chunks: exactly the fully arrived ones come out of both layers, in order |
| Codecs.AllArrived | ladder/src/codec/Codec.cpp:25-30 | once every byte has arrived all messages have been handed over and the buffer is empty |
| FileBuffers.FileBuffer.constructor | ladder/src/FileBuffer.cpp:15-16 | a new file buffer is valid and drained |
| FileBuffers.FileBuffer.AddFile | ladder/src/FileBuffer.cpp:31-33 | the header, followed by the file's content if it can be read, is added at the end of what is to be sent |
| FileBuffers.FileBuffer.Write | ladder/src/FileBuffer.cpp:35-41 | the bytes are added at the end of what is to be sent |
| FileBuffers.FileBuffer.StartEntry | ladder/src/FileBuffer.cpp:51-67 | moving a header and opening a file changes nothing of what is to be sent; an unreadable file adds only its header |
| FileBuffers.FileBuffer.SendSome | ladder/src/FileBuffer.cpp:89-117 | one sendfile for the rest of the open file, and what it took leaves the file |
| FileBuffers.FileBuffer.WriteBufferToFd | ladder/src/FileBuffer.cpp:44-121 | wire, inner buffer, rest of the open file and later entries together stay the same stream; what is left where, and the answers used up, are what the kernel's script decides; 0 exactly if all is sent, otherwise -1 |
| FileBuffers.FlushedFilesStops | ladder/src/FileBuffer.cpp:44-121 | a flush gives up at a refusal and nowhere else: a short write or sendfile does not stop it |
| FileBuffers.FileBuffer.PendingIsUnsent | ladder/src/FileBuffer.cpp:44-121 | the backlog in sizes counts exactly the bytes that are not sent |
| FileBuffers.Drainable | ladder/src/FileBuffer.cpp:44-121 | for every backlog there are answers that drain it |
| FileBuffers.CanStarveIff | ladder/src/FileBuffer.cpp:44-125 | some answers leave the queue empty and bytes in the inner buffer if and only if the last thing to be sent is a text |
| FileBuffers.RunActions | ladder/src/FileBuffer.cpp:31-121 | over every interleaving of queueing and flushing: what is on the wire, then what is unsent, is what was queued, in order and once |
| Connections.Channel.EnableWrite | ladder/src/Channel.cpp:144-151 | the poll-out bit is set as asked and no other bit changes |
| Connections.Connection.constructor | ladder/src/Connection.cpp:30-49 | a new connection has nothing to send and its poll-out bit set |
| Connections.Connection.WriteBuffer | ladder/src/Connection.cpp:327-329 | the stream is unchanged; what is left is what the kernel's script decides; 0 exactly if drained |
| Connections.Connection.EnableWrite | ladder/src/Connection.cpp:332-341 | the poll-out bit is set exactly for a negative result |
| Connections.Connection.Send | ladder/src/Connection.cpp:80-88 | the bytes join the stream, what is left is what a flush leaves of them and the backlog, and the poll-out bit is set exactly if something is left; nothing happens after shutdown |
| Connections.Connection.SendFile | ladder/src/Connection.cpp:270-274 | the same for a header and a file; nothing happens on a plain connection |
| Connections.Connection.OnWriteCallback | ladder/src/Connection.cpp:309-321 | what is left is what the flush leaves and the callback's writes, however many, add; the poll-out bit is right if and only if the kernel's script does not take everything or the callback adds nothing; a connection that is shutting down closes exactly if its queue is then empty, and loses bytes exactly if the flush leaves them in the inner buffer |
| Connections.Connection.AlwaysMatchesIff | ladder/src/Connection.cpp:309-321 | the poll-out bit is right whatever the kernel answers if and only if the callback adds nothing |
| Connections.Connection.NeverLosesIff | ladder/src/Connection.cpp:309-318 | no kernel makes the close lose bytes if and only if it is not a text in a file buffer that is sent last |
| Connections.Connection.Serve | ladder/src/Connection.cpp:80-88 | over every run of the handlers: the stream is what was sent, in order and once, and the poll-out bit is set exactly if something is left |
| Connections.CallbackStrandsByte | ladder/src/Connection.cpp:309-321 | a callback that writes after a complete flush leaves its byte without interest in writing |
| Connections.CloseLosesByte | ladder/src/Connection.cpp:309-318 | a file connection that is shutting down closes with a byte unsent when the kernel refuses it |
| ThreadPools.StepKeepsHistory | ladder/src/ThreadPool.cpp:13-25 | dequeue order is enqueue order, and dequeued tasks are finished or being run |
| ThreadPools.StepKeepsCounts | ladder/src/ThreadPool.cpp:13-48 | while a worker sleeps every queued task has a ready worker or a pending notification; after stop nobody sleeps unless the broadcast is pending |
| ThreadPools.RunKeepsInv | ladder/src/ThreadPool.cpp:9-48 | the invariant holds after every interleaving |
| ThreadPools.ExactlyOnce | ladder/src/ThreadPool.cpp:9-48 | once all n workers have exited the queue is empty and every task handed to emplace during the run has been run exactly once, started in that order |
| ThreadPools.AcceptsAll | ladder/src/ThreadPool.cpp:40-48 | the tasks accepted are exactly those handed to emplace, in order |
| ThreadPools.NoLostWakeup | ladder/src/ThreadPool.cpp:13-48 | in every reachable state queued work means an awake worker or a pending notification |
| ThreadPools.CanProceed | ladder/src/ThreadPool.cpp:13-48 | with work queued, or stopped and not all exited, some productive step is enabled |
| ThreadPools.StuckMeansDone | ladder/src/ThreadPool.cpp:13-48 | in a reachable state without a productive step every task handed in has been run exactly once and, once stopped, every worker has exited |
| ThreadPools.ProductiveRunsEnd | ladder/src/ThreadPool.cpp:13-48 | every run of productive steps, from any state, is bounded |
| ThreadPools.ComesToRest | ladder/src/ThreadPool.cpp:13-48 | from every state that keeps the invariant, productive steps lead to one in which everything accepted has been run exactly once |
| ThreadPools.EveryTaskRuns | ladder/src/ThreadPool.cpp:13-48 | after every run of n workers, productive steps lead to a state in which every task handed to emplace has been run exactly once |
| ThreadPools.StoppedRunsEnd | ladder/src/ThreadPool.cpp:29-38 | after stop the length of every run is bounded by the work left and the tasks emplaced, so the join ends |
| MemoryPools.MemoryPool.constructor | ladder/src/MemoryPool.cpp:19-27 | the loop builds an acyclic list of exactly the requested number of distinct blocks |
| MemoryPools.MemoryPool.AllocateBlock | ladder/src/MemoryPool.cpp:43-54 | the front block moves from the free list to the outstanding ones; null exactly if the list is empty |
| MemoryPools.MemoryPool.Allocate | ladder/src/MemoryPool.cpp:56-61 | fails exactly if the request exceeds a block or no block is free |
| MemoryPools.MemoryPool.Free | ladder/src/MemoryPool.cpp:63-71 | an outstanding block goes to the front of the free list and the partition is kept |
| MemoryPools.PartitionCounts | ladder/src/MemoryPool.cpp:19-71 | free and outstanding blocks add up to all blocks and no block is on the free list twice |
| MemoryPools.MemoryWrapper.constructor | ladder/include/MemoryPool.h:99-105 | a block of the pool if one fits and is free, otherwise memory that the pool does not know |
| MemoryPools.MemoryWrapper.Destroy | ladder/include/MemoryPool.h:107-116 | a block goes back to the pool; heap memory never does |
| MemoryPools.NestedLifetimes | ladder/include/MemoryPool.h:99-116 | nested lifetimes of any sizes and depth leave free list and outstanding set as they were |
| MemoryPools.RunPool | ladder/src/MemoryPool.cpp:43-71 | over every interleaving of allocations and frees: free list and held blocks are those of a stack, the partition is kept, and what others hold is untouched |
| Backoff.SetInterval | ladder_client/src/Timer.cpp:89-104 | seconds and nanoseconds are exactly the interval, with nanoseconds in range |
| Backoff.Connector.constructor | ladder_client/src/Connector.cpp:10-26 | the first delay is the initial one, at least 5 ms |
| Backoff.Connector.Retry | ladder_client/src/Connector.cpp:133-145 | exactly the first max_retry calls arm the timer, the k-th with base * 2^(k-1) in 16 bits; the others report failure |
| Backoff.DelaysDouble | ladder_client/src/Connector.cpp:138-139 | while the last delay fits 16 bits the delays are non-zero, double, and add up to base * (2^n - 1) |
| Backoff.DisarmedIff | ladder_client/src/Connector.cpp:138-139 | a retry's timer never fires if and only if the base is divisible by the matching power of two or it is the seventeenth or later |
| Backoff.DisarmedExample | ladder_client/src/Connector.cpp:138-139 | with a base of 32768 ms the second retry's timer never fires |

## Left out

- Sockets, epoll, kqueue, IOCP, the acceptor, the poller and the event loop: system-call plumbing; their answers enter as the kernel's script.
- A fatal errno, on which the process exits, and everything compiled for Windows only.
- TLS, GZip and the reflection calls of protobuf: wrappers over libraries; whether a type name is known is a parameter.
- `HttpResponse::HandleMessage`: it looks up the status line's first field among the request methods, so there is no response round trip.
- The response that the HTTP server composes after a request was read, and its callback.
- The read handler of a connection, and what closing one does beyond being noted.
- Threads that use one buffer or one connection at the same time; the handlers are atomic steps.
- Sizes of strings, vectors and file descriptors beyond the ranges of `int` and `uint32_t`: stated as preconditions of the buffers, and left unbounded elsewhere; so is `atoi` outside the range of `int`.
- Files that change while they are sent, and an `open` that returns descriptor 0.
- Buffers.Buffer.Write: requires that the write index does not pass 2^32, where the source would wrap.
- Codecs.Decapsulate: requires that the declared length is not below the header's own, where the source has undefined behaviour.
- HttpCodec.HttpRequest.ComposeHeaders: walks the header fields in the order of their numbers, which is the order of the source's map; keys without a name print nothing.
- MemoryPools.MemoryPool.Free: requires an outstanding block, which the source does not check.
- Emplacing an empty function object, which the pool ignores.
- ThreadPools.Apply: a running task that has pushed may finish before its own notification, so the model has more interleavings than the source.
- Singleton creation and release, logging, argument parsing, the choice of event loops, the test framework and the demo servers: they would only add easy members.
