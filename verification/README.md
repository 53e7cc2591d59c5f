# EasyNetwork: stream framing, datagram scheduling, deferred connection

This project models three parts of EasyNetwork and proves what they promise.

**Stream framing.** Bytes arrive in chunks of any size. Serializers are generators that are resumed with
each chunk until a packet is complete; consumers keep what is left over. The reference is one-shot: `Framing.Split`
says what a serializer makes of *all* the bytes it has been given (separated frames, fixed-size packets, raw
JSON), and `BufferParser.SplitBuffer` says the same for the first bytes of a receive buffer. The resumable
parsers are classes whose fields are the locals that survive a `yield`: a search offset, the JSON counters, the
bytearray with its in-place shift. Each `Send` is proved to compute the one-shot function of everything
received, the consumer classes are proved against an abstract consumer (`View`, `Feed`, `Emit`), and the theorems
about whole runs are about any sequence of `next(chunk)` and `next(None)`.

- `Bytes`, `Resync`: first-occurrence search; the remainder kept by `LimitOverrunError`.
- `JsonScan`: the one-pass scan of a JSON document, and the token search that carries state across chunks.
- `JsonBalance`: the same scan by counting brackets, quotation marks and backslashes, in the bytes of RFC 8259.
- `Framing`, `ChunkParser`, `StreamConsumer`, `Receiver`: the chunked path up to `receive()`.
- `BufferParser`, `BufferedConsumer`, `BufferedStream`, `BufferedReceiver`: the path where the transport writes into the parser's buffer.
- `StaleByte`: what a byte of the buffer that has not been received does to the resynchronisation.
- `RoundTrip`, `Draining`, `JsonText`, `JsonLimit`, `JsonStream`, `JsonChunks`, `Separator`, `SeparatorStream`,
  `FixedSizeStream`, `Resynchronisation`, `BufferedResynchronisation`: theorems over whole streams.

**Datagram scheduling.** `ClientData` is the object that the tasks of one client address share. `DatagramServer` is a
state machine of any number of handler tasks and client coroutines, and a class with the code of these tasks
between two `await`s, each of whose methods is proved to be one step of the state machine.

**Deferred connection.** `DeferredConnect`: any number of `connect()` calls racing with `aclose()`, again a state machine
and a class that executes it.

Some properties one could expect do not hold for all inputs. The code is modelled as it is, and each comes with a
concrete input or run, and with the exact condition:

- The remainder after a JSON overrun contains bytes a second time if and only if the buffer started with whitespace
  (`JsonStream.OverrunKeepsUnexaminedIff`, `JsonStream.OverrunReadsTwice`).
- The remainder after an overrun of `_buffered_readuntil` is cut from the whole buffer and not from its valid bytes, so a
  separator can be lost. It is not lost if and only if the buffer is full, the separator is a single byte, or the
  one stale byte does not change how much of a separator has begun: for CRLF, if the last valid byte is a carriage
  return if and only if the stale one is (`BufferedStream.OverrunResynchronisesIff`, `StaleByte.CrlfNoHarmIff`,
  `BufferedStream.StaleByteLosesSeparator`).
- `get_write_buffer()` can raise "The start position is set to the end of the buffer": it never does if and only if the
  separator is no longer than the limit, which no constructor checks (`BufferedStream.AlwaysRoomIff`,
  `BufferedStream.CrlfWithLimitOne`).
- The buffered path does not take every frame that the chunked path takes: it does for all sizes of the reads if and
  only if the frame is empty or |frame| + |separator| < limit (`BufferedStream.FitsBufferIff`).
- A separator that does not occur in a payload marks its end, for all payloads, if and only if it has no border
  (`Separator.CleanPayloadsEndIffBorderFree`). `AutoSeparatedPacketSerializer` accepts any separator: with `aa`, the packet
  `a` is lost (`SeparatorStream.BorderedSeparatorLosesPacket`).
- Packets sent with a separator come back as they were sent, for every separator and with or without the check of the
  sender, if and only if each payload is within the limit and ends at the first separator of payload and separator
  (`SeparatorStream.RoundTripIff`). For separators without border, such as LF, CR and CRLF, this means for an
  unchecked sender such as `StringLineSerializer` that no line contains the separator or exceeds the limit
  (`SeparatorStream.UncheckedRoundTripIff`), and for a checked one that none exceeds the limit.
- A JSON value arrives whatever the chunks if and only if its text is within the limit, and below it for a bare scalar
  without lines. A bare scalar of exactly `limit` bytes is delivered or refused depending on the chunks
  (`JsonLimit.DeliveredIffFits`, `JsonText.ScalarAtLimitDependsOnChunks`).
- What is framed of an arbitrary JSON stream depends on the chunks unless every document is regular: it does not start
  with an unprintable byte and is no bare scalar of exactly `limit` bytes. Both directions are proved, for the first
  report and for the whole stream (`JsonChunks.RegularIff`, `JsonChunks.WholeStreamIff`,
  `JsonChunks.UnprintableDependsOnChunks`).
- A `connect()` that failed cannot be tried again, although waiting for the connection is documented as safe to repeat
  (src/easynetwork/clients/async_tcp.py:356): the cancel scope of the connector can be entered only once. Whoever gets
  the lock starts the factory if and only if it has never been started and `aclose()` has not been called; after the
  factory has raised, no call ever succeeds (`DeferredConnect.FactoryStartsIff`, `DeferredConnect.FailedConnectIsFinal`,
  `DeferredConnect.SecondConnectRaises`).

The documentation of `read_until` says that after an overrun the data is left in the reader's buffer; the reader
belongs to the abandoned generator, and what goes on is the remainder of the exception, which is what is modelled.

## Model

| member | source | states |
|---|---|---|
| Bytes.FindResumes | src/easynetwork/serializers/tools.py:175-181 | without an occurrence so far, a search that starts only \|separator\| - 1 bytes before the end misses nothing |
| Resync.LimitOverrunError | src/easynetwork/exceptions.py:107-116 | the shrinking loop computes the specified remainder for any buffer, cut and separator |
| Resync.LongestCandidate | src/easynetwork/exceptions.py:112-114 | what the loop keeps is the longest suffix at whose first byte the separator may start |
| Resync.LoopKeepsFirstSeparator | src/easynetwork/exceptions.py:112-114 | the loop drops no separator, whatever it is given and whatever follows |
| Resync.RemainingKeepsFirstSeparator | src/easynetwork/exceptions.py:107-116 | for every continuation, the first separator of the kept bytes is the first one of the stream, also when it straddles the cut |
| JsonScan.DocumentEndStable | src/easynetwork/serializers/json.py:457-490 | the end of a document does not depend on later bytes |
| JsonScan.DocumentEndLater | src/easynetwork/serializers/json.py:457-490 | an unfinished document ends behind the bytes seen so far |
| JsonScan.BackUp | src/easynetwork/serializers/json.py:489-490 | stepping back over a trailing backslash keeps depth and quotes, so scanning it again has no effect |
| JsonScan.OverToken | src/easynetwork/serializers/json.py:465-485 | going from token to token is going from byte to byte: nothing between two tokens counts |
| JsonScan.AfterLastToken | src/easynetwork/serializers/json.py:487-488 | behind the last token only a dangling backslash can be pending |
| JsonScan.Scanner.Search | src/easynetwork/serializers/json.py:439-490 | the resumed search finds the end that one pass over the whole document finds |
| JsonScan.Scanner.SearchEnclosed | src/easynetwork/serializers/json.py:464-490 | the token loop on a chunk, with the counters of earlier chunks |
| JsonScan.Scanner.StepBack | src/easynetwork/serializers/json.py:487-490 | the search goes on at a place where no escape is pending, with the right counters |
| JsonScan.Scanner.Count | src/easynetwork/serializers/json.py:466-476 | one token changes the counters as the one-pass scan does |
| JsonBalance.EndIsBalance | src/easynetwork/serializers/json.py:372-386 | for all bytes: an object, array or string ends where the unescaped brackets outside of strings, or the unescaped quotation marks, balance for the first time |
| JsonBalance.EndOfScalar | src/easynetwork/serializers/json.py:439-455 | anything else ends at the first byte outside of 20 to 7E (hexadecimal) |
| JsonBalance.BlanksAre | src/easynetwork/serializers/json.py:430-432 | exactly space, tab, line feed and carriage return are skipped |
| JsonBalance.ObjectExample | src/easynetwork/serializers/json.py:372-386 | ten literal bytes, with a brace inside a string |
| Framing.SplitConsumes | src/easynetwork/lowlevel/_stream.py:92-100 | every packet and every error uses up at least one byte |
| Framing.MoreAgain | src/easynetwork/serializers/json.py:399-408 | what a starving parser keeps is as good as everything it received |
| ChunkParser.Parser.Send | src/easynetwork/protocol.py:286-300 | each resumption yields the one-shot outcome of all bytes received |
| ChunkParser.Parser.ReadUntil | src/easynetwork/serializers/tools.py:166-200 | chunk invariance of `read_until`: frame, remainder and overruns are a function of the bytes received |
| ChunkParser.Parser.SearchSeparator | src/easynetwork/serializers/tools.py:170-181 | the carried offset never skips the first occurrence |
| ChunkParser.Parser.TakeFrame | src/easynetwork/serializers/tools.py:189-198 | with the separator in sight: the frame and exactly the bytes behind it, or an overrun that drops the separator |
| ChunkParser.Parser.ReadExactly | src/easynetwork/serializers/tools.py:114-124 | one packet of the given size, or more is asked for |
| ChunkParser.Parser.RawParse | src/easynetwork/serializers/json.py:395-410 | the JSON generator on a growing bytearray yields the one-shot outcome |
| ChunkParser.Parser.SkipBlank | src/easynetwork/serializers/json.py:430-437 | the shift over leading whitespace: document at the front, same length, last bytes left over |
| ChunkParser.Parser.SplitFinalBuffer | src/easynetwork/serializers/json.py:492-513 | document, following whitespace dropped, rest; or the overrun with everything behind it |
| ChunkParser.Parser.Starving | src/easynetwork/serializers/tools.py:181-187 | a suspended parser holds no complete frame |
| StreamConsumer.StreamDataConsumer.Next | src/easynetwork/lowlevel/_stream.py:69-105 | packet, error or starvation, and the bytes held afterwards; an active parser implies an empty buffer |
| StreamConsumer.InterpretMeans | src/easynetwork/lowlevel/_stream.py:91-105 | a packet is returned if and only if `deserialize` accepts the frame, with that packet; a parse error is raised if and only if it does not, a limit overrun if and only if one is reported, `StopIteration` otherwise |
| StreamConsumer.StreamDataConsumer.Clear | src/easynetwork/lowlevel/_stream.py:110-114 | nothing is held any more |
| StreamConsumer.FeedKeepsValid | src/easynetwork/lowlevel/_stream.py:75-105 | after every call an active parser is starving |
| RoundTrip.RunDelivers | src/easynetwork/lowlevel/_stream.py:69-105 | over any calls on an encoded stream: delivered frames are a prefix of those sent, what is held and to come encodes the rest, a starving consumer holds no whole frame |
| RoundTrip.RetentionIsBounded | src/easynetwork/serializers/tools.py:170-187 | after any calls, whatever the stream, a starving consumer holds at most limit + \|separator\| - 1 bytes, fewer than limit (JSON), fewer than one packet (fixed size) |
| RoundTrip.StreamRoundTrip | src/easynetwork/lowlevel/_stream.py:69-105 | any encodable frames, JSON documents with any blanks between them, any chunking, any `next(None)` in between: exactly these frames, in order |
| RoundTrip.DeliveriesAre | src/easynetwork/serializers/tools.py:189-198 | the i-th delivery is the i-th frame, with the separator behind it if and only if it is kept |
| RoundTrip.WireCarries | src/easynetwork/serializers/json.py:184-187 | what the serializer writes is such an encoding |
| RoundTrip.StepSeparated | src/easynetwork/serializers/base_stream.py:136-150 | on a stream of separated frames a call takes the first frame or waits for it |
| RoundTrip.StepJson | src/easynetwork/serializers/json.py:389-455 | the same for JSON documents with any blanks between them |
| JsonText.NeutralString | src/easynetwork/serializers/json.py:466-470 | inside a frame a string changes nothing, whatever brackets, quotes and backslashes it encodes |
| JsonText.NeutralText | src/easynetwork/serializers/json.py:472-478 | by structural induction, every nested JSON text leaves depth and quotes as they were and never closes the frame |
| JsonText.EnclosedText | src/easynetwork/serializers/json.py:457-485 | the scan of an object, array or string ends with its last byte and not before |
| JsonText.SerializedAs | src/easynetwork/serializers/json.py:184-187 | a line feed follows every text in line mode, and bare scalars otherwise |
| JsonText.TextExample | src/easynetwork/serializers/json.py:166-187 | a nested value and its text, byte by byte |
| JsonLimit.DeliveredIffFits | src/easynetwork/serializers/json.py:420-455 | with and without lines, a value is delivered under every chunking if and only if its text is within the limit, below it for bare scalars without lines |
| JsonText.FramedByLines | src/easynetwork/serializers/json.py:266-270 | in line mode, if and only if its text is within the limit; no text contains a newline |
| JsonText.JsonRoundTrip | src/easynetwork/serializers/json.py:184-275 | any list of values that fit, serialized, cut anywhere: exactly their texts are framed, in order, in both modes |
| JsonText.ScalarAtLimitDependsOnChunks | src/easynetwork/serializers/json.py:439-455 | the witness at the limit: delivered with its newline, an overrun before it |
| JsonStream.ChunkedScanIsOnePass | src/easynetwork/serializers/json.py:419-490 | for every stream that starts with a regular document and every chunking the first report is the verdict of one pass: delivered if and only if its length is within the limit |
| JsonStream.WholeStreamIsOnePass | src/easynetwork/serializers/json.py:389-525 | for every regular stream and every chunking: document by document, up to the first overrun, what one pass over the whole stream frames; a starving consumer has framed all of it |
| JsonChunks.RegularIff | src/easynetwork/serializers/json.py:439-455 | the first report is the same for any two chunkings if and only if the stream starts with a regular document or is a single byte |
| JsonChunks.WholeStreamIff | src/easynetwork/serializers/json.py:389-525 | every drained chunking frames what one pass frames, if and only if all documents up to the first overrun are regular |
| JsonChunks.UnprintableDependsOnChunks | src/easynetwork/serializers/json.py:439-455 | three bytes that are one frame in one chunk, and two in two |
| JsonStream.OverrunKeepsUnexaminedIff | src/easynetwork/serializers/json.py:434-437 | the consumer goes on at the right byte after a JSON overrun if and only if the buffer did not start with whitespace |
| JsonStream.OverrunReadsTwice | src/easynetwork/serializers/json.py:515-522 | a three-byte buffer whose last byte is read again |
| Draining.DrainingTerminates | src/easynetwork/lowlevel/_stream.py:69-105 | `next(None)` repeated more often than there are bytes held ends in starvation |
| Separator.IncrementalSerialize | src/easynetwork/serializers/base_stream.py:102-115 | the stripping loop and the branches yield what the specification says |
| Separator.CheckedSends | src/easynetwork/serializers/base_stream.py:104-115 | a packet `d` with any number of separators behind it is refused if and only if the separator occurs in `d`, yields nothing if and only if `d` is empty, and is sent as `d` with one separator otherwise |
| Separator.UncheckedSends | src/easynetwork/serializers/base_stream.py:109-115 | a packet is sent as it is, with a separator unless it ends with one; an empty one is not sent |
| Separator.TrimEndLeaves | src/easynetwork/serializers/base_stream.py:105-106 | only whole separators at the end are dropped |
| Separator.CleanPayloadsEndIffBorderFree | src/easynetwork/serializers/base_stream.py:104-115 | a payload without the separator ends where the first separator is found, for all payloads, if and only if the separator has no border |
| Separator.NewlinesAreBorderFree | src/easynetwork/serializers/line.py:76-83 | LF, CR and CRLF have no border |
| Separator.CheckedPayload | src/easynetwork/serializers/base_stream.py:104-115 | checked sender: separators at the end, empty packets and packets with a separator inside are not sent |
| SeparatorStream.SeparatorRoundTrip | src/easynetwork/serializers/base_stream.py:102-150 | checked sender, separator without border: what is sent comes back, in order, under any chunking, if and only if it is within the limit |
| SeparatorStream.RoundTripIff | src/easynetwork/serializers/base_stream.py:102-150 | any separator, checked or not, any packets, any chunking: the payloads sent are the packets received if and only if each is within the limit and ends at the first separator |
| SeparatorStream.UncheckedRoundTripIff | src/easynetwork/serializers/line.py:135-209 | unchecked sender, separator without border: the lines sent are the packets received if and only if none contains the separator or exceeds the limit |
| SeparatorStream.SeveralPacketsIff | src/easynetwork/serializers/line.py:135-141 | with a separator without border, an unchecked packet comes back as several if and only if it contains a separator apart from one at its end |
| SeparatorStream.BorderedSeparatorLosesPacket | src/easynetwork/serializers/base_stream.py:75-115 | with the separator `aa`, the packet `a` is sent, an empty one received |
| Resynchronisation.OneCall | src/easynetwork/lowlevel/_stream.py:92-105 | each report is fair to the first frame of the stream, and no separator is dropped with it |
| Resynchronisation.StreamAccounts | src/easynetwork/serializers/tools.py:166-200 | every stream, every chunking: frames within the limit are delivered intact, longer ones are reported as overruns, every separator received is passed exactly once; what is held is the end of the frame that has not ended, at most limit + \|separator\| - 1 bytes, and more than that is reported without waiting for a separator |
| FixedSizeStream.FixedSizeFraming | src/easynetwork/serializers/base_stream.py:282-296 | exactly the consecutive whole slices are delivered, and the rest is held |
| BufferParser.Parser.Send | src/easynetwork/protocol.py:201-215 | each resumption yields the one-shot outcome of the valid bytes of the buffer |
| BufferParser.Parser.ReadUntil | src/easynetwork/serializers/base_stream.py:607-631 | search of the valid bytes with a carried offset; overrun when at most one byte is free |
| BufferParser.Parser.ReadPacket | src/easynetwork/serializers/base_stream.py:321-340 | one packet of the given size from the front of the buffer |
| BufferParser.Parser.RawParse | src/easynetwork/serializers/json.py:412-417 | the JSON generator on an external buffer yields the outcome of the growing one with the buffer size as limit |
| BufferParser.Parser.SkipBlank | src/easynetwork/serializers/json.py:434-437 | the in-place shift moves the unread bytes to the front unchanged |
| BufferedConsumer.RemainderFits | src/easynetwork/lowlevel/_stream.py:251-264 | a saved remainder fits into a new buffer and leaves room for at least one byte; so do the bytes of a starving parser if the separator fits into the buffer |
| BufferedConsumer.BufferedStreamDataConsumer.Next | src/easynetwork/lowlevel/_stream.py:149-191 | misuse, starvation, packet or error, and the bytes held; the class invariant is kept |
| BufferedConsumer.BufferedStreamDataConsumer.GetWriteBuffer | src/easynetwork/lowlevel/_stream.py:193-198 | a view of at least one byte, exactly the free end of a live buffer, or the error of a full buffer; the bytes held do not change; the first view has `limit` bytes, or at least `sizehint` for packets of a fixed size |
| BufferedConsumer.BufferedStreamDataConsumer.NewWriteBuffer | src/easynetwork/lowlevel/_stream.py:200-228 | "Buffer flushed" is never raised; "set to the end of the buffer" is raised for a full buffer only |
| BufferedConsumer.BufferedStreamDataConsumer.SaveRemainder | src/easynetwork/lowlevel/_stream.py:251-264 | exactly the remainder is at the front of a new buffer |
| BufferedConsumer.BufferedStreamDataConsumer.Clear | src/easynetwork/lowlevel/_stream.py:242-249 | nothing is held any more |
| BufferedStream.PathsAgreeIff | src/easynetwork/serializers/base_stream.py:611-631 | on the same bytes both paths do the same, if and only if the search does not give up with at most one byte free |
| BufferedStream.BufferedRefinesChunked | src/easynetwork/lowlevel/_stream.py:149-264 | on empty frames and those with \|frame\| + \|separator\| < limit, any read sizes, any stale bytes: the same output as the chunked path, and the same bytes held |
| BufferedStream.BufferedIsChunked | src/easynetwork/serializers/json.py:412-417 | for JSON and fixed-size packets the outputs and the bytes held agree on every stream |
| BufferedStream.BufferedRoundTrip | src/easynetwork/lowlevel/_stream.py:149-264 | exactly the frames sent, in order, for any read sizes |
| BufferedStream.OverrunResynchronisesIff | src/easynetwork/serializers/base_stream.py:626-629 | the kept bytes find the next separator for every continuation if and only if the buffer is full, the separator is one byte, or the stale byte does no harm |
| StaleByte.SameLengthIff | src/easynetwork/exceptions.py:107-116 | with a stale byte behind them, as many bytes of a separator are kept as without it, if and only if it starts none where none has begun, or repeats what has begun and does not continue it |
| StaleByte.CrlfNoHarmIff | src/easynetwork/serializers/base_stream.py:626-629 | for CRLF: the last valid byte is a carriage return if and only if the stale byte is |
| BufferedStream.OneByteSeparatorResynchronises | src/easynetwork/serializers/base_stream.py:626-629 | a separator of one byte is never lost |
| BufferedResynchronisation.BufferedStreamAccounts | src/easynetwork/serializers/base_stream.py:611-631 | the same for whole runs of the buffered path, for every stream and any read sizes, as long as no stale byte does harm |
| BufferedResynchronisation.OneByteStreamAccounts | src/easynetwork/serializers/base_stream.py:611-631 | for separators of one byte, such as the line feed, without that condition |
| BufferedStream.BufferedDrainingTerminates | src/easynetwork/lowlevel/_stream.py:149-191 | on the buffered path, `next(None)` repeated more often than there are bytes held ends in starvation |
| BufferedStream.AlwaysRoomIff | src/easynetwork/lowlevel/_stream.py:218-226 | for every stream and any read sizes a byte stays writable, if and only if the separator is no longer than the buffer |
| BufferedStream.CrlfWithLimitOne | src/easynetwork/serializers/line.py:76-90 | a serializer that the constructor accepts, and one byte that fills its buffer for ever |
| BufferedStream.BufferedRetentionIsBounded | src/easynetwork/serializers/base_stream.py:611-631 | after any calls, whatever the stream, a starving consumer holds less than the buffer, or less than one packet |
| BufferedStream.FitsBufferIff | src/easynetwork/serializers/base_stream.py:611-631 | a frame is the only thing reported for its encoding under all read sizes if and only if it is empty or \|frame\| + \|separator\| < limit |
| BufferedStream.FullBufferResynchronises | src/easynetwork/serializers/base_stream.py:626-629 | with a completely filled buffer they do |
| BufferedStream.StaleByteLosesSeparator | src/easynetwork/serializers/base_stream.py:626-629 | a buffer with one stale byte that loses half a CRLF |
| Receiver.DataReceiver.Receive | src/easynetwork/lowlevel/api_async/endpoints/stream.py:478-500 | drains the consumer first, then reads chunks up to the first delivery or the end of the stream |
| Receiver.ReceivingIsRun | src/easynetwork/lowlevel/api_async/endpoints/stream.py:478-500 | successive calls are one run over all chunks; no byte is lost, and the consumer starves at the end |
| Receiver.DeliveredBeforeAbort | src/easynetwork/lowlevel/api_async/endpoints/stream.py:488-500 | every frame completely received is delivered, in order, before `ECONNABORTED` |
| Receiver.AbortIsFinal | src/easynetwork/lowlevel/api_async/endpoints/stream.py:485-500 | after `ECONNABORTED` every further call raises it again and reads nothing |
| Receiver.ReceiveNext | src/easynetwork/lowlevel/api_async/endpoints/stream.py:478-500 | a call on the object returns the first of the results to come, and leaves the others to come; it is the abort if and only if there are none |
| Receiver.PacketRoundTrip | src/easynetwork/lowlevel/api_async/endpoints/stream.py:478-500 | encodable frames that `deserialize` accepts come out of successive `receive()` calls as exactly their packets, in order, for every chunking |
| BufferedReceiver.BufferedDataReceiver.Next | src/easynetwork/lowlevel/_stream.py:149-191 | a call of the consumer extends the run that explains everything delivered and held; it is never refused as out of order |
| BufferedReceiver.BufferedDataReceiver.ReadInto | src/easynetwork/lowlevel/api_async/endpoints/stream.py:557-558 | the transport writes the next bytes of the stream behind those held, which stay as they are |
| BufferedReceiver.BufferedDataReceiver.Receive | src/easynetwork/lowlevel/api_async/endpoints/stream.py:547-567 | one delivery of the run, or `ECONNABORTED` with the stream read to its end and a starving consumer, or the error of a buffer filled by less than one separator |
| BufferedReceiver.DeliveredBeforeAbort | src/easynetwork/lowlevel/api_async/endpoints/stream.py:547-567 | after any calls of `receive()`, whatever the read sizes: the frames sent, in order, and nothing lost; every frame completely received comes before `ECONNABORTED` |
| BufferedReceiver.ReceivesPackets | src/easynetwork/lowlevel/api_async/endpoints/stream.py:547-567 | on the buffered path, too, the i-th result is the i-th packet |
| BufferedReceiver.RunMore | src/easynetwork/lowlevel/_stream.py:149-191 | a run and one more call are a run: what the call delivers and leaves depends on the view alone |
| DatagramServer.AsyncDatagramServer.Handler | src/easynetwork/lowlevel/api_async/servers/datagram.py:253-276 | a step of the state machine that keeps its invariant; a datagram is given to a generator at once only if all earlier ones were taken, and is queued last otherwise |
| DatagramServer.AsyncDatagramServer.HandlerNotified | src/easynetwork/lowlevel/api_async/servers/datagram.py:259-276 | a step that keeps the invariant; a handler that was suspended never starts a coroutine |
| DatagramServer.AsyncDatagramServer.CoroutineBegins | src/easynetwork/lowlevel/api_async/servers/datagram.py:296-341 | a step that keeps the invariant; a new generator gets the oldest datagram not taken |
| DatagramServer.AsyncDatagramServer.PopDatagram | src/easynetwork/lowlevel/api_async/servers/datagram.py:540-545 | a step that keeps the invariant; the generator gets the oldest datagram not taken, and waits only if everything was taken |
| DatagramServer.AsyncDatagramServer.CoroutineEnds | src/easynetwork/lowlevel/api_async/servers/datagram.py:307-446 | a step that keeps the invariant; another coroutine is scheduled if and only if not everything was taken |
| DatagramServer.AsyncDatagramServer.Forgotten | src/easynetwork/lowlevel/api_async/servers/datagram.py:243-257 | the client is dropped only when everything that arrived was taken |
| DatagramServer.StepKeepsInv | src/easynetwork/lowlevel/api_async/servers/datagram.py:253-446 | every atomic step of every task keeps: one worker, state and queue consistent, conservation, no lost wakeup |
| DatagramServer.ForgetKeepsInv | src/easynetwork/lowlevel/api_async/servers/datagram.py:243-257 | the weak cache can only forget a client without task and with an empty queue |
| DatagramServer.OneGeneratorAtATime | src/easynetwork/lowlevel/api_async/servers/datagram.py:174-176 | over all interleavings at most one open generator, no inconsistent state, no pop from an empty queue |
| DatagramServer.StateIsConsistent | src/easynetwork/lowlevel/api_async/servers/datagram.py:527-566 | over all interleavings, every step finds the state and the queue that the code requires |
| DatagramServer.NothingLost | src/easynetwork/lowlevel/api_async/servers/datagram.py:339-410 | taken by successive generators, in order, plus queue is what arrived; without tasks everything was taken |
| DatagramServer.QueueIsServed | src/easynetwork/lowlevel/api_async/servers/datagram.py:527-545 | over all interleavings, timeouts included: unless the request handler is busy, one or two steps of the server give the oldest queued datagram to a generator |
| DatagramServer.GeneratorSteps | src/easynetwork/lowlevel/api_async/servers/datagram.py:390-408 | a timeout is thrown into the generator; asking, finishing and a timeout change nothing else |
| DatagramServer.CaughtTimeout | src/easynetwork/lowlevel/api_async/servers/datagram.py:390-408 | over all interleavings: after a caught timeout the same generator gets the next datagram, also one that arrived in the meantime |
| DatagramServer.OnlyBy | src/easynetwork/lowlevel/api_async/servers/datagram.py:339-410 | a coroutine gets to each of its places by the steps named only; it closes its generator only when that has finished, and waits only on an empty queue |
| DatagramServer.OpenedOnlyBy | src/easynetwork/lowlevel/api_async/servers/datagram.py:296-341 | a generator is opened only by a coroutine that starts, scheduled or in place |
| DatagramServer.RestartsAreBounded | src/easynetwork/lowlevel/api_async/servers/datagram.py:412-446 | without arrivals at most as many generators are opened as datagrams are queued |
| DatagramServer.HandlerMayResumeLate | src/easynetwork/lowlevel/api_async/servers/datagram.py:259-262 | a run in which a handler resumes without task and without datagram, so the guard is needed |
| DeferredConnect.DeferredAsyncEndpointInit.LockAcquired | src/easynetwork/clients/_base.py:104-118 | a step that keeps the invariant; the factory is started if and only if it never was and `aclose()` was not called, and the error of the scope is raised if and only if the first start failed |
| DeferredConnect.DeferredAsyncEndpointInit.FactoryReturned | src/easynetwork/clients/_base.py:53-60 | a step that keeps the invariant; the endpoint is the only one made, force-closed if and only if `aclose()` was called, and published otherwise |
| DeferredConnect.DeferredAsyncEndpointInit.NoEndpoint | src/easynetwork/clients/_base.py:104-113 | a step that keeps the invariant; nothing is published and the object is closing |
| DeferredConnect.DeferredAsyncEndpointInit.Aclose | src/easynetwork/clients/_base.py:96-102 | a step that keeps the invariant; the endpoint to close is the published one, the scope is cancelled if and only if nothing is published and `aclose()` was not called before; a factory that still runs has been cancelled |
| DeferredConnect.StepKeepsInv | src/easynetwork/clients/_base.py:53-120 | every step keeps the invariant and never reopens |
| DeferredConnect.ConnectIsSafe | src/easynetwork/clients/_base.py:53-120 | over all interleavings: the factory is started at most once and never after `aclose()`, at most one endpoint is published, every endpoint made is published or force-closed, closed means closing |
| DeferredConnect.FactoryStartsIff | src/easynetwork/clients/_base.py:104-110 | over all interleavings: whoever gets the lock starts the factory if and only if it has never been started and `aclose()` was not called |
| DeferredConnect.StartsOnlyBy | src/easynetwork/clients/_base.py:104-110 | the factory is started by a call that gets the lock before `aclose()`, and in no other way |
| DeferredConnect.FactoryOutcome | src/easynetwork/clients/_base.py:53-60 | over all interleavings: what the factory returns is published, or closed forcefully if `aclose()` was called |
| DeferredConnect.LockIsReleased | src/easynetwork/clients/_base.py:104-105 | over all interleavings: a waiting call gets the lock after at most one step of another task |
| DeferredConnect.FailedConnectIsFinal | src/easynetwork/clients/_base.py:53-60 | once the factory has raised, it is never started again and nothing is ever published, whatever happens |
| DeferredConnect.SecondConnectRaises | src/easynetwork/clients/_base.py:53-60 | a run with a failed and a second `connect()`, at the end of which the object is neither connected nor closing |
| DeferredConnect.ClosingIsFinal | src/easynetwork/clients/_base.py:88-91 | `is_closing()` never goes back, and a published endpoint stays |
| DeferredConnect.ClosingIff | src/easynetwork/clients/_base.py:88-91 | over all interleavings: closing if and only if `aclose()` was called or the published endpoint is closing |
| DeferredConnect.ClosingOnlyBy | src/easynetwork/clients/_base.py:53-102 | an endpoint starts closing only by itself, by `aclose()` of the object that has published it, or by force |

## Left out

- Sockets, transports, TLS, event loops, DNS, logging, warnings and typed attributes: input and output, or library behaviour.
- The codecs behind `deserialize`, and the converters: one function from frames to packets or a parse error. Generators that crash, and the `RuntimeError`s reporting it, are therefore not part of this model.
- `FileBasedPacketSerializer` and the compressor wrapper: they depend on file positions and decompressor state of libraries.
- JSON encodings that are not ASCII-compatible.
- Regular expressions: the compiled token patterns are modelled by the leftmost token and its length.
- Aliasing of `memoryview`s: a remainder is the bytes of the view. The copy into a new buffer is modelled, a caller that writes through an old view is not.
- The `receive_with_ancillary` methods and the synchronous endpoints: the same loops around other calls. A `recv_into` that is cancelled or raises.
- `GeneratorStreamReader.read` and initial bytes of the reader: not used by these serializers.
- BufferedStream.BufferedRefinesChunked: holds for empty frames and those with |frame| + |separator| < limit only; `BufferedStream.FitsBufferIff` shows that no others can be taken for all read sizes, and `BufferedStream.PathsAgreeIff` is the exact condition for one call.
- BufferedStream.FitsBufferIff: does not cover separators longer than the limit, whose buffer fills up without any report; `BufferedStream.AlwaysRoomIff` covers them.
- JsonStream.WholeStreamIsOnePass: covers regular documents only, because others depend on the chunks (`JsonChunks.WholeStreamIff`), and nothing behind an overrun, where bytes may be read twice.
- Fairness of the lock inside the condition variable: no task keeps it across an `await`, so acquiring it is one step that may be delayed.
- Cancellation of the server's task group, `BaseException`s out of request handlers, failing `start_soon`, ancillary data.
- Several client addresses at once: they share nothing but the caches.
- The results of `connect()` and `get_sync()`, and what `endpoint.aclose()` does besides making the endpoint closing.
- `get_value`, `get_buffer`, `buffer_size` and debug information: diagnostics.
