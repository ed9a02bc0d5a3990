# Olive Rubic firmware: link, time, storage and digests

Dafny models of the parts of the PERIDOT "olive rubic" board support package that carry real
protocol or arithmetic content, with proofs. Each module follows one component:

| module | component |
|---|---|
| `Bytes`, `Errno` | C integers, unaligned words and strings in byte memory; error numbers |
| `BsonFormat`, `BsonReader`, `BsonScanLimits`, `BsonWriter`, `BsonMalformed`, `BsonExample` | BSON documents: format (BSON 1.1), property scan and getters and where they fail, setters, shrinking, copying, arbitrary bytes, documents written out |
| `RpcReply`, `RpcReplyRead` | the reply the RPC server measures, allocates and builds, and what a client reads in it |
| `Framing`, `WireFormat`, `RpcSink`, `RpcLink` | packets on the host link: sender, what is on the wire, resumable receiver, both together |
| `Handover` | the one-slot mailbox between the receiver and the worker threads |
| `Threads`, `Semaphore`, `Sleep` | TinyThreads queues, semaphores and the sleep queue |
| `Alarm` | HAL alarms on a wrapping tick counter |
| `Pow2`, `Pipe` | the ring buffer between the host bridge and a file descriptor |
| `FlashCells`, `OnchipFlash`, `SpiNor` | flash programming on devices where programming only clears bits |
| `Crc32`, `Md5`, `Md5Rotation`, `Md5Example` | digests, with known values |
| `I2cMaster` | one I2C transfer as a trace on the bus |

`dafny verify dfyconfig.toml` checks everything. Code that works in place is written in place
(classes and arrays, loops with invariants) and each method is tied to a function of its old
state; the theorems are lemmas about those functions. Concurrency is modelled as step machines
over all interleavings (`Pipe`, `Handover`) or as runs of events (`Semaphore`, `Sleep`, `Alarm`).

## Results

- **Round trips.** `BsonReader.RoundTrip`: whatever sequence of setters built a document, the scan
  and the getters give back the values first stored. `RpcSink.FramingRoundTrip` and
  `RpcLink.Transport`: packets deliver exactly the documents sent, in order, in any chunking
  (`RpcSink.ConsumeSplit`), under back-pressure (`RpcSink.WriteToChannel`). `RpcReplyRead`: what
  `RpcReply.SendReply` sends reads as version, id, and result or error.
- **Interleavings.** `Pipe.PipeIsFifo` holds for all of them, `Handover.ExactlyOnce` for all in which
  every post is for a request.
- **Wrapping time against unbounded time.** `Sleep.ExactWakeUp`, `Alarm.AlarmsRefine`.
- **Success means an array update**, and working devices succeed. `OnchipFlash.Flash.Write`,
  `SpiNor.Nor.RawWrite`.
- **Fast forms refine simple ones**, and these give the published values. `Crc32.Digest.Calc` with
  `Crc32.CrcOfDigits`, `Md5.Calc` with `Md5Example.DigestOfAlphabet`.
- **Conservation.** `Semaphore.Conservation`, `Semaphore.RequestsAreGrantedOrWait`, and exact sizes:
  `BsonWriter.SizeIsSum`, `RpcReply.SendReply`.

Properties one might expect and the code does not have, each with its exact condition:

- A value of type 0x0f (JavaScript code with scope) is measured four bytes too long, because its
  length word already counts itself (bson.c:39-42): `BsonReader.MeasureExact` and
  `BsonWriter.CopyIsFaithful` are equivalences. A scan is right exactly if nothing follows such a
  value (`BsonScanLimits.ScanIsExact`, where the name behind it is new).
- An alarm started with the longest interval 2^32 - 1 runs at once (`Alarm.StartRepresents`,
  `Alarm.LongestIntervalRunsAtOnce`).
- A write to the on-chip flash that leaves the regions, or crosses a gap between them, stops there
  and reports success. The flash then holds the data exactly if it held the rest before
  (`OnchipFlash.Flash.CompleteIfCovered`, with an input in `OnchipFlash.Flash.GapIsNotWritten`).
- A packet of one to four bytes makes the parser post to the workers, with an empty mailbox if there
  is no buffer, exactly if these bytes and the rest of the last length word say just this size
  (`RpcSink.DeliverPacket`, with an input in `RpcSink.ShortPacketSignalsInVain`); then two workers
  may take the same request (`Handover.OnePostTooManyTakesTwice`). Longer packets, so all documents,
  post exactly for their requests (`RpcSink.OneSignalPerJob`).
- With more than a million ticks per second the sleep clock stands still (`Sleep.StepIsPositive`,
  `Sleep.StandingClock`).
- An empty binary cannot be told from a missing one (`BsonReader.BinaryIsRead`).
- Rounding up to a power of two fails for 0 and above 2^31 (`Pow2.RoundUpRange`); the address
  bytes of the serial flash lose what is above 24 bits (`SpiNor.AddressArrives`).
- The disk driver refuses exactly the requests past its end unless the sum of start, sector and
  count wraps to a number that is not behind the end (`SpiNor.RefusalIsExact`, with requests in
  `SpiNor.LastSectorIsNotRefused`, `SpiNor.FirstSectorIsNotRefused` and
  `SpiNor.LongRequestWritesNothing`); where such a request goes is part of `SpiNor.Disk.Write`.

## Model

| member | source | states |
|---|---|---|
| BsonFormat.First | software/olive_rubic_bsp/services/src/bson.c:139-157 | the first element of a name is the one found: it has the name, none before it has it |
| BsonFormat.AppendElement | software/olive_rubic_bsp/services/src/bson.c:291-315 | an element appended to the list extends the document by exactly its bytes, at the place of the old terminator |
| BsonFormat.ElementAt | software/olive_rubic_bsp/services/src/bson.c:94-170 | where the type byte, the NUL-terminated name and the value of element i lie in a document held in memory |
| BsonFormat.Frame | software/olive_rubic_bsp/services/src/bson.c:172-187 | a document in memory starts with its own size and ends with a zero byte right behind its last element |
| BsonExample.HelloWorld | software/olive_rubic_bsp/services/src/bson.c:291-320 | the document {"hello": "world"} byte by byte, as the BSON specification shows it |
| BsonExample.OneOfEach | software/olive_rubic_bsp/services/src/bson.c:369-398 | the bytes of a boolean, a number and a null |
| BsonExample.OneOfEachLonger | software/olive_rubic_bsp/services/src/bson.c:344-442 | the bytes of a binary and of an embedded document and array |
| BsonReader.MeasureExact | software/olive_rubic_bsp/services/src/bson.c:24-92 | on every value BSON 1.1 allows, the measured size is the size of the value if and only if the type is not JavaScript code with scope; for that type it is four too many |
| BsonReader.MeasureRejects | software/olive_rubic_bsp/services/src/bson.c:24-92 | for arbitrary bytes, which values have no size: unknown types, length words that are negative or overflow with the fixed part, regular expressions without two terminated strings |
| BsonReader.MeasureRegex | software/olive_rubic_bsp/services/src/bson.c:61-70 | the two C strings of a regular expression are measured to their joint length |
| BsonReader.MarkKey | software/olive_rubic_bsp/services/src/bson.c:139-157 | the inner loop over the requested names stores the offset for the first unset name that matches, and only for it |
| BsonReader.ScanElement | software/olive_rubic_bsp/services/src/bson.c:124-164 | one pass of the element loop, with every way it can end, against the specification of one step |
| BsonReader.GetProps | software/olive_rubic_bsp/services/src/bson.c:94-170 | the whole scan in loops over the caller's offset variables: result and offsets are those of the specification; a rejected header gives -1 and leaves the offsets untouched |
| BsonReader.OffsetsStep | software/olive_rubic_bsp/services/src/bson.c:139-157 | one more element changes the offsets found so far by exactly one entry, or none |
| BsonReader.AfterElement | software/olive_rubic_bsp/services/src/bson.c:159-163 | after element i the scan stands at element i + 1, for every type but JavaScript code with scope |
| BsonReader.ScanEncoded | software/olive_rubic_bsp/services/src/bson.c:122-169 | scanning from any element on, with what was found before it, finds what the whole document holds, early return included |
| BsonReader.GetPropsFinds | software/olive_rubic_bsp/services/src/bson.c:94-170 | with distinct names, the result is the number of names present and each offset is that of the first element of that name, or -1 |
| BsonReader.GetPropsPasses | software/olive_rubic_bsp/services/src/bson.c:94-170 | the same for every list of elements each of which, by its own length word, ends where the next begins |
| BsonMalformed.StepRejects | software/olive_rubic_bsp/services/src/bson.c:124-163 | for arbitrary bytes: the scan gives up at an element with -1 exactly if its name is not terminated, or its value has no size and it was not the last one looked for |
| BsonMalformed.SeekIsExact | software/olive_rubic_bsp/services/src/bson.c:172-208 | for arbitrary bytes: seeking succeeds exactly inside a document at a terminated name for the types asked for, and points right behind the NUL |
| BsonMalformed.GettersAreExact | software/olive_rubic_bsp/services/src/bson.c:210-280 | for arbitrary bytes: what each getter answers at a terminated name, as a function of the bytes behind it, with every refusal of a string or binary |
| BsonMalformed.NothingElsewhere | software/olive_rubic_bsp/services/src/bson.c:172-280 | anywhere else every getter answers with the default |
| BsonScanLimits.ScanIsExact | software/olive_rubic_bsp/services/src/bson.c:94-170 | a valid document in which the name behind the first JavaScript code with scope is new is scanned correctly for every list of distinct names if and only if nothing follows such a value in it |
| BsonScanLimits.DistinctNamesAreNew | software/olive_rubic_bsp/services/src/bson.c:94-170 | documents that use every name once are among these |
| BsonScanLimits.ElementBehindScopedCodeIsMissed | software/olive_rubic_bsp/services/src/bson.c:39-42 | in every valid document the offset of the element right behind the first JavaScript code with scope is not handed out to a scan for its name |
| BsonScanLimits.ScopedCodeExample | software/olive_rubic_bsp/services/src/bson.c:39-42 | a document of two elements on which the scan fails |
| BsonReader.FindPropsSound | software/olive_rubic_bsp/services/src/bson.c:94-170 | whatever the bytes: every offset handed out lies inside the document at an element of the name asked for, and the result counts these offsets or is -1 |
| BsonReader.SeekSound | software/olive_rubic_bsp/services/src/bson.c:172-208 | at such an offset seeking only asks for the type |
| BsonReader.GettersStayInside | software/olive_rubic_bsp/services/src/bson.c:210-262 | whatever the bytes: the strings and binaries handed out end inside the document |
| BsonReader.SeekElement | software/olive_rubic_bsp/services/src/bson.c:172-208 | seeking succeeds exactly for the two types asked for and then points at the value |
| BsonReader.GettersSee | software/olive_rubic_bsp/services/src/bson.c:210-280 | what all five getters answer at an element is fixed by its type and value bytes alone: a getter answers exactly for its own types and otherwise gives the default |
| BsonReader.StringIsRead | software/olive_rubic_bsp/services/src/bson.c:210-228 | a stored string is found, with its NUL |
| BsonReader.SubdocumentIsRead | software/olive_rubic_bsp/services/src/bson.c:230-237 | a stored document or array is found and is a well-formed document in place |
| BsonReader.BinaryIsRead | software/olive_rubic_bsp/services/src/bson.c:239-262 | a stored binary is found with its length if and only if it is not empty |
| BsonReader.Int32IsRead | software/olive_rubic_bsp/services/src/bson.c:273-280 | a stored number comes back as the 32-bit value it was |
| BsonReader.ElementReadsBack | software/olive_rubic_bsp/services/src/bson.c:210-280 | all getters together give back the value a setter stored, and defaults for all other types |
| BsonReader.BuildIsValid | software/olive_rubic_bsp/services/src/bson.c:291-442 | what the setters build is within BSON 1.1 and holds no type the scan mishandles |
| BsonReader.RoundTrip | software/olive_rubic_bsp/services/src/bson.c:94-442 | for every sequence of setters and every list of distinct names: the scan counts the names present, and the getters at the offsets it hands out return the values first stored, or defaults for names never stored |
| BsonWriter.CreateEmptyDocument | software/olive_rubic_bsp/services/src/bson.c:282-289 | the five bytes written are the empty document; what lies behind is untouched |
| BsonWriter.FinishAppend | software/olive_rubic_bsp/services/src/bson.c:303-312 | element over the old terminator, new terminator, new length word: together they append |
| BsonWriter.SetString | software/olive_rubic_bsp/services/src/bson.c:291-320 | returns the size of the element and, given a document, appends it in place; without one it only measures |
| BsonWriter.SetSubelement | software/olive_rubic_bsp/services/src/bson.c:322-342 | the same for an element whose value bytes are given |
| BsonWriter.SetSubdocument | software/olive_rubic_bsp/services/src/bson.c:344-367 | the same for embedded documents and arrays, copied by their own length word whatever follows it |
| BsonWriter.SubdocumentBytes | software/olive_rubic_bsp/services/src/bson.c:344-347 | for a document in memory the bytes copied are the document |
| BsonWriter.SetBoolean | software/olive_rubic_bsp/services/src/bson.c:369-378 | the same for booleans, which are stored as 0 or 1 |
| BsonWriter.SetInt32 | software/olive_rubic_bsp/services/src/bson.c:380-388 | the same for 32-bit integers |
| BsonWriter.SetNull | software/olive_rubic_bsp/services/src/bson.c:390-398 | the same for null |
| BsonWriter.SetBinary | software/olive_rubic_bsp/services/src/bson.c:400-442 | the same for zero-filled binaries, with the offset at which the caller fills in the data; a negative length is refused |
| BsonWriter.FillBinary | software/olive_rubic_bsp/services/src/bson.c:419-428 | filling in the data makes the document that holds the binary with those data |
| BsonWriter.ShrinkLast | software/olive_rubic_bsp/services/src/bson.c:461-469 | new terminator, new data length, new document length: together they turn the longer last binary into the shorter |
| BsonWriter.ShrinkBinary | software/olive_rubic_bsp/services/src/bson.c:444-471 | shrinking succeeds if and only if the binary is the last element and does not grow, and then leaves the document that adding the shorter binary makes; otherwise nothing changes |
| BsonWriter.SetElement | software/olive_rubic_bsp/services/src/bson.c:473-512 | copies the element at an offset of another document under a new name, or does nothing and returns 0 if there is none |
| BsonWriter.CopyIsFaithful | software/olive_rubic_bsp/services/src/bson.c:473-507 | the copy has the type and value bytes of the original if and only if the type is not JavaScript code with scope |
| BsonMalformed.CopyIsExact | software/olive_rubic_bsp/services/src/bson.c:478-503 | for arbitrary bytes: there is nothing to copy exactly outside a document, at an unterminated name, or if the value has no size |
| BsonWriter.CopyReadsAlike | software/olive_rubic_bsp/services/src/bson.c:473-507 | for an element of any valid type, every getter says of the copy, byte for byte, what it says of the original |
| BsonWriter.EarlierElementsReadAsBefore | software/olive_rubic_bsp/services/src/bson.c:291-507 | appending any elements keeps the offset of every earlier valid element and what every getter says there |
| BsonWriter.SizeIsSum | software/olive_rubic_bsp/services/src/bson.c:317-512 | the empty size plus the measures of all elements is the final size |
| RpcReply.ReplySize | software/olive_rubic_bsp/services/src/peridot_rpc_server.c:338-353 | the four measured parts add up to the size of the reply document |
| RpcReply.SendReply | software/olive_rubic_bsp/services/src/peridot_rpc_server.c:330-384 | on every path, whatever malloc grants in either pass, what is sent is exactly the encoded reply in a buffer of the measured size; a failed allocation downgrades the reply to an internal error, a second one sends nothing |
| RpcReply.TryReply | software/olive_rubic_bsp/services/src/peridot_rpc_server.c:337-383 | one pass: measured, granted or not, and built |
| RpcReply.MeasureReply | software/olive_rubic_bsp/services/src/peridot_rpc_server.c:338-353 | the sum of the measures is the size of the reply; the error document is made on the way |
| RpcReply.BuildReply | software/olive_rubic_bsp/services/src/peridot_rpc_server.c:367-381 | the setters fill the buffer of that size to the last byte and never exceed it |
| RpcReplyRead.CopyIsPassed | software/olive_rubic_bsp/services/src/bson.c:473-507 | a copied element of any type is stepped over by a scan; JavaScript code with scope grew by the bytes it is measured too long |
| RpcReplyRead.VersionAndIdAreRead | software/olive_rubic_bsp/services/src/peridot_rpc_server.c:338-372 | over bson_get_props and the getters: the reply sent says version "2.0" and gives the id of the request, of whatever type, byte for byte; it has no id exactly if the request had none |
| RpcReplyRead.ResultIsRead | software/olive_rubic_bsp/services/src/peridot_rpc_server.c:338-376 | the reply to a successful call gives back the callee's document under "result", or a null if there is none, and has no "error" |
| RpcReplyRead.ErrorIsRead | software/olive_rubic_bsp/services/src/peridot_rpc_server.c:338-381 | the reply to a failed call gives a document under "error" whose "code" reads as the error number, and has no "result" |
| Framing.FlipIsXor | software/olive_rubic_bsp/services/inc/peridot_sw_hostbridge_gen2.h:12-20 | the escape of a byte is its exclusive or with 0x20 |
| Framing.RestOfPacket | software/olive_rubic_bsp/services/src/peridot_sw_hostbridge_gen2.c:291-314 | announcing the last byte with EOP gives the escaped bytes, EOP, escaped last byte of the packet format |
| Framing.WholeMessage | software/olive_rubic_bsp/services/src/peridot_sw_hostbridge_gen2.c:291-314 | what the byte loop sends in total is the unchunked packet, or the escaped bytes if no packet is asked for |
| Framing.HostLink.WriteToHost | software/olive_rubic_bsp/services/src/peridot_sw_hostbridge_gen2.c:240-256 | retrying a driver that takes any part of what it is given sends each byte once, in order |
| Framing.HostLink.Source | software/olive_rubic_bsp/services/src/peridot_sw_hostbridge_gen2.c:265-320 | header exactly when the channel changes or a reset is asked for; then the packet, the message as it is, or the escaped message; the buffer boundaries leave no trace |
| Framing.HostLink.SendEscaped | software/olive_rubic_bsp/services/src/peridot_sw_hostbridge_gen2.c:291-316 | the chunked loop through a buffer of 130 bytes, which is never exceeded, emits the packet |
| Framing.PutByte | software/olive_rubic_bsp/services/src/peridot_sw_hostbridge_gen2.c:301-312 | one byte takes at most three places in the buffer and moves the frontier between sent and unsent by exactly its encoding |
| WireFormat.EscapedForm | software/olive_rubic_bsp/services/src/peridot_sw_hostbridge_gen2.c:301-312 | an escaped message holds none of the bytes 7a, 7b and 7c, is read back by a reader that knows only 7d, and is longer by the number of control bytes in it |
| WireFormat.PacketForm | software/olive_rubic_bsp/services/src/peridot_sw_hostbridge_gen2.c:291-314 | a packet starts with its only 7a, has its only 7b in front of the last byte of the message, holds no 7c, and what is before and behind the 7b says the message |
| WireFormat.HeaderForm | software/olive_rubic_bsp/services/src/peridot_sw_hostbridge_gen2.c:271-284 | a channel header is 7c and the number, which does not go out as a control byte and is read back |
| RpcSink.RpcServer.Receive | software/olive_rubic_bsp/services/src/peridot_rpc_server.c:73-143 | the resumable parser takes the prefix, and reaches the state, of the specification that feeds single bytes |
| RpcSink.RpcServer.ReceiveByte | software/olive_rubic_bsp/services/src/peridot_rpc_server.c:78-140 | one byte through the parser: all branches |
| RpcSink.ConsumeSplit | software/olive_rubic_bsp/services/src/peridot_rpc_server.c:73-143 | a byte string may be fed in any split: same state, same count |
| RpcSink.ConsumeStops | software/olive_rubic_bsp/services/src/peridot_rpc_server.c:78-142 | the count falls short exactly when a job is waiting, and the last byte counted is the one that completed it |
| RpcSink.DeliverResumes | software/olive_rubic_bsp/services/src/peridot_sw_hostbridge_gen2.c:90-105 | going on with what a call left over delivers what the whole string delivers |
| RpcSink.DeliverSplit | software/olive_rubic_bsp/services/src/peridot_rpc_server.c:73-143 | delivering two strings in turn is delivering their concatenation |
| RpcSink.WriteToChannel | software/olive_rubic_bsp/services/src/peridot_sw_hostbridge_gen2.c:80-106 | the retry loop loses and repeats no byte: the jobs handed over are those of the whole chunk whenever the worker runs |
| RpcSink.WithinStep | software/olive_rubic_bsp/services/src/peridot_rpc_server.c:101-129 | what the parser holds i bytes into a packet of any content, and how one more byte extends it or drops the packet |
| RpcSink.WithinLast | software/olive_rubic_bsp/services/src/peridot_rpc_server.c:127-139 | the announced last byte hands over the packet exactly if it is as long as it says, short enough and has a buffer, and leaves the parser between packets; a worker is signalled exactly then or, with four bytes or fewer, if these and the rest of the last length word say just this size |
| RpcSink.DeliverPacket | software/olive_rubic_bsp/services/src/peridot_rpc_server.c:73-143 | one packet of any content is delivered if it gives its own length, is short enough and gets memory, and dropped otherwise; either way the parser is left between packets; in which cases a worker is signalled |
| RpcSink.FramingRoundTrip | software/olive_rubic_bsp/services/src/peridot_rpc_server.c:73-143 | for every list of packets of any content and every pattern of failing allocations, exactly those are delivered that start with their own length, are short enough and get memory, unchanged and in order |
| RpcSink.StartByteResynchronises | software/olive_rubic_bsp/services/src/peridot_rpc_server.c:80-84 | a packet gets through from any state, whatever packet was broken off before, as long as no escape is pending and a buffer left over is replaced |
| RpcSink.NoiseIsIgnored | software/olive_rubic_bsp/services/src/peridot_rpc_server.c:97-100 | between packets nothing but a start byte makes a difference |
| RpcSink.OneSignalPerJob | software/olive_rubic_bsp/services/src/peridot_rpc_server.c:133-138 | over every list of packets of at least five bytes, workers are signalled exactly as often as there are jobs |
| RpcSink.ShortPacketSignalsInVain | software/olive_rubic_bsp/services/src/peridot_rpc_server.c:129-138 | a packet of three bytes, whose size matches what is left in the length word, signals a worker without a job |
| RpcLink.DocumentsArrive | software/olive_rubic_bsp/services/src/peridot_rpc_server.c:73-143 | documents of at most 65536 bytes, encoded and sent as packets, all arrive as they were, in order |
| RpcLink.SendDocuments | software/olive_rubic_bsp/services/src/peridot_sw_hostbridge_gen2.c:265-320 | sending documents one by one gives at most one channel header and then just their packets |
| RpcLink.Transport | software/olive_rubic_bsp/services/src/peridot_rpc_server.c:73-143 | documents sent through the chunked sender and fed to the parser by the retry loop arrive as they were, in order, each handed over once and signalled once |
| Handover.StepKeepsInv | software/olive_rubic_bsp/services/src/peridot_rpc_server.c:133-141 | the right to empty the slot is in exactly one place while the slot is full, after every step of parser or worker |
| Handover.ExactlyOnce | software/olive_rubic_bsp/services/src/peridot_rpc_server.c:263-271 | over every interleaving in which every post is for a request: requests are taken in order of arrival, each by one worker, none is overwritten, no worker finds the slot empty |
| Handover.OnePostTooManyTakesTwice | software/olive_rubic_bsp/services/src/peridot_rpc_server.c:133-138 | one post without a request is enough for an interleaving in which two workers take the same request |
| Handover.NeverStuck | software/olive_rubic_bsp/services/src/peridot_rpc_server.c:263-271 | while a request waits, the parser's post or some worker can move |
| Threads.Move | software/olive_rubic_bsp/TINYTH/inc/priv/tth_core.h:71-97 | the head of one queue goes into the other at the place its priority gives it |
| Threads.InsertPlaces | software/olive_rubic_bsp/TINYTH/inc/priv/tth_core.h:84-90 | behind all of at least its priority, before all of less: order is kept, equals are first come, first served |
| Threads.MoveKeepsThreads | software/olive_rubic_bsp/TINYTH/inc/priv/tth_core.h:71-97 | no thread is lost or duplicated |
| Semaphore.Sem.Post | software/olive_rubic_bsp/TINYTH/src/tth_sem.c:58-80 | wakes a waiter, or counts up, or reports overflow, as the abstract semaphore does |
| Semaphore.Sem.Wait | software/olive_rubic_bsp/TINYTH/src/tth_sem.c:86-102 | counts down or queues the caller |
| Semaphore.Sem.TryWait | software/olive_rubic_bsp/TINYTH/src/tth_sem.c:108-125 | counts down or says EAGAIN, and never queues |
| Semaphore.Conservation | software/olive_rubic_bsp/TINYTH/src/tth_sem.c:58-125 | over every run: initial value plus successful posts is acquisitions plus value; the value stays within 0 and 32767 and is 0 while threads wait |
| Semaphore.ThreadsKept | software/olive_rubic_bsp/TINYTH/src/tth_sem.c:58-125 | no call loses or duplicates a thread |
| Semaphore.PostWakesFirst | software/olive_rubic_bsp/TINYTH/src/tth_sem.c:63-76 | a post wakes the waiter of highest priority, and counts up without waiters, to 32767 at most |
| Semaphore.WaitAtZeroQueues | software/olive_rubic_bsp/TINYTH/src/tth_sem.c:94-98 | a wait at zero takes the running thread out of the ready queue and puts it among the waiters behind all of at least its priority |
| Semaphore.RequestsAreGrantedOrWait | software/olive_rubic_bsp/TINYTH/src/tth_sem.c:58-125 | over every run, each wait is granted at once, or by a post, or its thread is still waiting at the end |
| Sleep.Sleeper.Usleep | software/olive_rubic_bsp/TINYTH/src/tth_sleep.c:31-66 | the splice into the sleep queue is the sorted insertion; zero yields and more than a second is refused |
| Sleep.Sleeper.SleepTick | software/olive_rubic_bsp/TINYTH/src/tth_sleep.c:71-88 | the clock steps and the wake-up loop moves what has expired |
| Sleep.RemainingLater | software/olive_rubic_bsp/TINYTH/src/tth_sleep.c:74-81 | the signed wrapped difference is the true remaining time, wherever the clock wraps |
| Sleep.TickQueues | software/olive_rubic_bsp/TINYTH/src/tth_sleep.c:71-88 | a tick wakes exactly the sleepers with at most one step to go, and the rest have that much less |
| Sleep.SleepPlaces | software/olive_rubic_bsp/TINYTH/src/tth_sleep.c:48-62 | where a thread going to sleep lands: behind those that wake before it |
| Sleep.TickKeepsInv | software/olive_rubic_bsp/TINYTH/src/tth_sleep.c:71-88 | a tick keeps the queue sorted, every remaining time in (0, 1000000], and all threads distinct |
| Sleep.SleepKeepsInv | software/olive_rubic_bsp/TINYTH/src/tth_sleep.c:48-62 | so does going to sleep |
| Sleep.StaysAsleep | software/olive_rubic_bsp/TINYTH/src/tth_sleep.c:31-88 | until its time is up a sleeper stays in the queue through every run |
| Sleep.ExactWakeUp | software/olive_rubic_bsp/TINYTH/src/tth_sleep.c:31-88 | usleep(us) leaves the queue on exactly the ceil(us / step)-th tick, over every run of ticks, sleepers and scheduling and any wrap of the clock |
| Sleep.TickKeepsPriority | software/olive_rubic_bsp/TINYTH/src/tth_sleep.c:75-87 | a tick keeps the ready queue in order of priority |
| Sleep.YieldPlaces | software/olive_rubic_bsp/TINYTH/src/tth_sched.c:42-50 | usleep(0) puts the caller behind the threads of its priority, and before those of less |
| Sleep.StepIsPositive | software/olive_rubic_bsp/TINYTH/src/tth_sleep.c:74-74 | the step of a tick is at least one microsecond exactly up to a million ticks per second |
| Sleep.StandingClock | software/olive_rubic_bsp/TINYTH/src/tth_sleep.c:71-88 | with more, a tick changes nothing: nobody wakes up |
| Alarm.AlarmList.Start | software/olive_rubic_bsp/HAL/src/alt_alarm_start.c:64-112 | deadline, flag and place in the list; the two error returns change nothing |
| Alarm.AlarmList.Stop | software/olive_rubic_bsp/HAL/src/alt_tick.c:66-73 | exactly the named alarm leaves the list |
| Alarm.AlarmList.ServeAlarm | software/olive_rubic_bsp/HAL/src/alt_tick.c:100-140 | one pass of the loop: for every ideal alarm this one stands for, the callback runs exactly at the deadline and what is kept stands for what the ideal alarm becomes |
| Alarm.AlarmList.Tick | software/olive_rubic_bsp/HAL/src/alt_tick.c:87-148 | the counter steps once; the list and the callbacks run are those of the specification, in order |
| Alarm.ServeRefines | software/olive_rubic_bsp/HAL/src/alt_tick.c:109-139 | the wrapping comparison with the flag decides as an unbounded clock does, and the new deadline stands for the ideal one |
| Alarm.StartRepresents | software/olive_rubic_bsp/HAL/src/alt_alarm_start.c:82-96 | a started alarm stands for the deadline nticks + 1 ahead if and only if nticks is not 2^32 - 1 |
| Alarm.LongestIntervalRunsAtOnce | software/olive_rubic_bsp/HAL/src/alt_alarm_start.c:82-96 | for that one interval the callback runs at the next tick, unless the counter wraps there |
| Alarm.AlarmsRefine | software/olive_rubic_bsp/HAL/src/alt_tick.c:87-141 | over every run of starts, stops and ticks, through any number of wraps, the same callbacks run at the same ticks as with ideal alarms |
| Alarm.IdealWaits | software/olive_rubic_bsp/HAL/src/alt_tick.c:115-139 | only its deadline or being stopped removes an alarm |
| Alarm.NoEarlierCall | software/olive_rubic_bsp/HAL/src/alt_tick.c:87-141 | while its name is used once, the callback of a started alarm runs in none of the first nticks ticks |
| Alarm.FirstCallAndPeriod | software/olive_rubic_bsp/HAL/src/alt_tick.c:87-141 | the tick number nticks + 1 runs the callback, and the next call is due exactly as many ticks later as it returned |
| Alarm.WithoutIsExact | software/olive_rubic_bsp/HAL/src/alt_tick.c:66-73 | stopping takes out the alarms of the name given, and no other |
| Alarm.StoppedIsSilent | software/olive_rubic_bsp/HAL/src/alt_tick.c:66-141 | in every run, an alarm stopped and not started again is called no more, whatever the clock does |
| Alarm.FinishedIsSilent | software/olive_rubic_bsp/HAL/src/alt_tick.c:115-141 | nor is one that was due and whose callback returned 0 |
| Pow2.RoundupPow2 | software/olive_rubic_bsp/services/src/peridot_sw_hostbridge_gen2_pipe.c:11-20 | the result is a power of two if and only if the argument is in 1 to 2^31, and then the least one that is not smaller |
| Pow2.RoundUpIsLeast | software/olive_rubic_bsp/services/src/peridot_sw_hostbridge_gen2_pipe.c:11-20 | for 1 to 2^31 the result is the least power of two that is not smaller |
| Pow2.RoundUpRange | software/olive_rubic_bsp/services/src/peridot_sw_hostbridge_gen2_pipe.c:11-20 | the result is a power of two if and only if the argument is in that range |
| Pow2.MaskIsRemainder | software/olive_rubic_bsp/services/src/peridot_sw_hostbridge_gen2_pipe.c:146-146 | masking with a power of two minus one is taking the remainder |
| Pow2.OneBitIsPower | software/olive_rubic_bsp/services/src/peridot_sw_hostbridge_gen2_pipe.c:162-162 | a word with one bit set is a power of two as a number |
| Pipe.SinkPlanFits | software/olive_rubic_bsp/services/src/peridot_sw_hostbridge_gen2_pipe.c:110-139 | the two segments a sink fills start at its offset, wrap once at most, and hold as much as is free with one slot to spare |
| Pipe.ReadPlanFits | software/olive_rubic_bsp/services/src/peridot_sw_hostbridge_gen2_pipe.c:52-76 | the same for the two segments a read empties |
| Pipe.NextOffsetIsModulo | software/olive_rubic_bsp/services/src/peridot_sw_hostbridge_gen2_pipe.c:142-147 | the published offset, masked or not, is the position in an endless stream modulo the capacity |
| Pipe.WritesAreFree | software/olive_rubic_bsp/services/src/peridot_sw_hostbridge_gen2_pipe.c:141-143 | a producer in the middle of a copy writes to no slot that holds an unread byte |
| Pipe.StepKeepsInv | software/olive_rubic_bsp/services/src/peridot_sw_hostbridge_gen2_pipe.c:40-154 | every step of either side keeps the ring a queue |
| Pipe.PipeIsFifo | software/olive_rubic_bsp/services/src/peridot_sw_hostbridge_gen2_pipe.c:40-154 | however look, copy and publish steps of producer and consumer interleave, the bytes returned are a prefix of the bytes accepted and at most capacity - 1 are stored |
| Pipe.CallAmounts | software/olive_rubic_bsp/services/src/peridot_sw_hostbridge_gen2_pipe.c:40-154 | how much a call moves, from what it saw |
| Pipe.SplitFree | software/olive_rubic_bsp/services/src/peridot_sw_hostbridge_gen2_pipe.c:110-139 | the two segments start at the write offset, wrap at most once, and together are the lesser of the length and the free space with one slot to spare |
| Pipe.HostPipe.constructor | software/olive_rubic_bsp/services/src/peridot_sw_hostbridge_gen2_pipe.c:156-183 | a new ring is empty and as large as the rounded-up request |
| Pipe.HostPipe.Sink | software/olive_rubic_bsp/services/src/peridot_sw_hostbridge_gen2_pipe.c:99-154 | accepts the longest prefix that fits and appends exactly that |
| Pipe.HostPipe.Read | software/olive_rubic_bsp/services/src/peridot_sw_hostbridge_gen2_pipe.c:40-87 | returns the oldest bytes, as many as asked for and stored, and removes exactly them |
| OnchipFlash.Flash.constructor | software/olive_rubic_bsp/drivers/src/altera_onchip_flash.c:391-474 | ascending usable sectors of whole pages, gaps between them allowed, make a valid region table whose regions are these sectors |
| OnchipFlash.UsableExactly | software/olive_rubic_bsp/drivers/src/altera_onchip_flash.c:391-474 | a sector gets a region exactly if it is enabled and, where there is a control register, available |
| OnchipFlash.UsableInOrder | software/olive_rubic_bsp/drivers/src/altera_onchip_flash.c:391-474 | and they keep their order |
| OnchipFlash.Flash.EraseBlock | software/olive_rubic_bsp/drivers/src/altera_onchip_flash.c:131-184 | success erases exactly one page and leaves protection on; each refusal has its code and changes nothing; no call leaves protection off that was on; on a device that works, the erase of a page succeeds |
| OnchipFlash.Flash.WriteNextWord | software/olive_rubic_bsp/drivers/src/altera_onchip_flash.c:240-288 | one padded 32-bit write extends what is programmed and touches no other word |
| OnchipFlash.Flash.WriteBlock | software/olive_rubic_bsp/drivers/src/altera_onchip_flash.c:198-294 | success programs exactly the data, unaligned ends included; the loop ends |
| OnchipFlash.NextWord | software/olive_rubic_bsp/drivers/src/altera_onchip_flash.c:243-267 | address, padding and data of the next word, in both alignment branches |
| OnchipFlash.PaddedWord | software/olive_rubic_bsp/drivers/src/altera_onchip_flash.c:243-270 | padding with ones leaves the neighbours of the data alone |
| OnchipFlash.EraseThenProgram | software/olive_rubic_bsp/drivers/src/altera_onchip_flash.c:350-363 | programming an erased block writes the data as it is |
| OnchipFlash.Flash.WriteInBlock | software/olive_rubic_bsp/drivers/src/altera_onchip_flash.c:348-363 | compare, erase and program for the part of the data in one block; equal contents succeed and touch nothing |
| OnchipFlash.Flash.WriteRegion | software/olive_rubic_bsp/drivers/src/altera_onchip_flash.c:338-376 | the block loop over one region |
| OnchipFlash.ProgressBlock | software/olive_rubic_bsp/drivers/src/altera_onchip_flash.c:338-376 | finishing one block carries the array update over it |
| OnchipFlash.Flash.Write | software/olive_rubic_bsp/drivers/src/altera_onchip_flash.c:305-383 | on a device that works, every write in range succeeds; success means an array update of the data that lies in the run of regions without gaps from the offset on: the data, ones in the rest of an erased block, everything else as it was; nothing outside the touched blocks changes even on failure, and nothing at all on a read-only flash |
| OnchipFlash.Flash.CompleteIfCovered | software/olive_rubic_bsp/drivers/src/altera_onchip_flash.c:329-378 | after a successful write the flash holds the data if and only if it held before what lies behind the run of regions; that part keeps its old contents without an error |
| OnchipFlash.Flash.InOneRun | software/olive_rubic_bsp/drivers/src/altera_onchip_flash.c:329-378 | inside one run of regions nothing lies behind it |
| OnchipFlash.Flash.GapIsNotWritten | software/olive_rubic_bsp/drivers/src/altera_onchip_flash.c:329-378 | three pages over a region table without the middle one: success, and only the first page is written |
| SpiNor.AddressArrives | software/olive_rubic_bsp/drivers/src/epcs_fatfs_diskio.c:258-260 | the three address bytes arrive as the address if and only if it is below 2^24 |
| SpiNor.Nor.WaitUntilDone | software/olive_rubic_bsp/drivers/src/epcs_fatfs_diskio.c:289-303 | polling the second status byte ends, with the device idle |
| SpiNor.Nor.EraseSector | software/olive_rubic_bsp/drivers/src/epcs_fatfs_diskio.c:251-270 | enable, erase, wait: the sector where the address lands becomes ones |
| SpiNor.Nor.ProgramPage | software/olive_rubic_bsp/drivers/src/epcs_fatfs_diskio.c:251-303 | enable, merged program command, wait: the page is programmed |
| SpiNor.NextPage | software/olive_rubic_bsp/drivers/src/epcs_fatfs_diskio.c:274-282 | programming the next page of an erased rest of a sector writes that page and nothing else |
| SpiNor.Nor.WriteSector | software/olive_rubic_bsp/drivers/src/epcs_fatfs_diskio.c:244-306 | erase and sixteen pages make the sector equal to the buffer; failing half-way changes nothing else |
| SpiNor.Nor.RawWrite | software/olive_rubic_bsp/drivers/src/epcs_fatfs_diskio.c:221-347 | for every 32-bit sector-aligned address: success, which is certain on a device on which no transfer fails, writes sector after sector where its wrapping address lands, and nothing else changes even on failure |
| SpiNor.PouredIsOverwritten | software/olive_rubic_bsp/drivers/src/epcs_fatfs_diskio.c:221-347 | as long as the addresses stay within 24 bits, that is one array update |
| SpiNor.Disk.Write | software/olive_rubic_bsp/drivers/src/epcs_fatfs_diskio.c:349-363 | for every 32-bit sector and count, with the wrapped length: refused exactly if the wrapped sums say so, else written where the addresses land, with RES_OK if no transfer fails; on the disk it is exactly the array update at start sector + sector, and nothing below or behind changes |
| SpiNor.Disk.Read | software/olive_rubic_bsp/drivers/src/epcs_fatfs_diskio.c:163-196 | for every 32-bit sector and count, with the wrapped length: refused exactly if the wrapped sums say so, else the contents where the address lands, with RES_OK if no transfer fails |
| SpiNor.Disk.WriteAndRead | software/olive_rubic_bsp/drivers/src/epcs_fatfs_diskio.c:181-363 | a write and a read of the same sectors both succeed if no transfer fails, and whenever they do, give back what was written |
| SpiNor.RefusalIsExact | software/olive_rubic_bsp/drivers/src/epcs_fatfs_diskio.c:352-356 | the test refuses just the requests that reach past the end if and only if the sum of start, sector and count does not wrap, or wraps to behind the end |
| SpiNor.LastSectorIsNotRefused | software/olive_rubic_bsp/drivers/src/epcs_fatfs_diskio.c:352-357 | one sector at 2^32 - 17 of a disk that starts at 16 is not refused, and lands in the last sector of 16 MiB |
| SpiNor.FirstSectorIsNotRefused | software/olive_rubic_bsp/drivers/src/epcs_fatfs_diskio.c:352-357 | for every start above 0, one sector at 2^32 - start is not refused and lands in sector 0, below the disk |
| SpiNor.LongRequestWritesNothing | software/olive_rubic_bsp/drivers/src/epcs_fatfs_diskio.c:352-357 | a request for 2^20 sectors up to the end of the 32-bit range is accepted with length 0 and writes nothing |
| Crc32.Digest.constructor | software/olive_rubic_bsp/services/src/crc32.c:43-54 | the table loops leave in every entry eight steps of the bit-serial register |
| Crc32.ShiftLinear | software/olive_rubic_bsp/services/src/crc32.c:50-50 | eight shift steps are linear over exclusive or |
| Crc32.TableStep | software/olive_rubic_bsp/services/src/crc32.c:63-63 | one table step is eight bit-serial steps on the register and the next byte |
| Crc32.Digest.Calc | software/olive_rubic_bsp/services/src/crc32.c:57-66 | the table-driven loop is the bit-serial CRC of section 8 of RFC 1952 |
| Crc32.OneByteIsDetected | software/olive_rubic_bsp/services/src/crc32.c:57-66 | messages that differ in one byte have different CRCs |
| Crc32.CrcOfDigits | software/olive_rubic_bsp/services/src/crc32.c:43-66 | the CRC of "123456789" is 0xcbf43926 |
| Md5.TablesAgree | software/olive_rubic_bsp/services/src/md5.c:94-113 | word index and rotation of operation i are those RFC 1321 lists |
| Md5.TurnStep | software/olive_rubic_bsp/services/src/md5.c:109-114 | rotating the four variables is moving on to the next operation of RFC 1321 |
| Md5.Rounds | software/olive_rubic_bsp/services/src/md5.c:94-115 | the 64 passes over one block are the 64 operations |
| Md5.Absorb | software/olive_rubic_bsp/services/src/md5.c:63-119 | one block through the rounds and the sums is one compression |
| Md5.LengthBytes | software/olive_rubic_bsp/services/src/md5.c:85-90 | the four length bytes stored are the low half of the 64-bit length and the other half is zero |
| Md5.BlocksArePadded | software/olive_rubic_bsp/services/src/md5.c:74-92 | the blocks processed are those of the padded message, in order, also when the padding spills into one more block |
| Md5.LastBlock | software/olive_rubic_bsp/services/src/md5.c:79-92 | the block made in temp for the end of the message |
| Md5.Calc | software/olive_rubic_bsp/services/src/md5.c:51-126 | the digest is that of sections 3.1 to 3.4 of RFC 1321 |
| Md5.OneBlock | software/olive_rubic_bsp/services/src/md5.c:116-119 | one block adds the outcome of its operations to the registers it started from, whatever they are |
| Md5.BlocksChain | software/olive_rubic_bsp/services/src/md5.c:63-120 | the blocks of a message are taken one after the other, each from where the last one ended |
| Md5Rotation.RotateValue | software/olive_rubic_bsp/services/src/md5.c:46-49 | rotating left by s places multiplies by 2^s modulo 2^32 and adds the bits shifted out, for every s up to 32 |
| Md5Example.DigestOfAlphabet | software/olive_rubic_bsp/services/src/md5.c:51-126 | the digest of the letters a to z is the one section A.5 of RFC 1321 lists |
| I2cMaster.Master.Run | software/olive_rubic_bsp/drivers/src/peridot_i2c_master.c:133-260 | the accesses issued, the result code and the bytes received are those of the specified transfer, whatever is not acknowledged |
| I2cMaster.Master.SendAll | software/olive_rubic_bsp/drivers/src/peridot_i2c_master.c:184-212 | the write loop, with its stop condition and its dummy write |
| I2cMaster.Master.ReceiveAll | software/olive_rubic_bsp/drivers/src/peridot_i2c_master.c:241-257 | the read loop stores the bytes in order |
| I2cMaster.BusIsReleased | software/olive_rubic_bsp/drivers/src/peridot_i2c_master.c:133-260 | exactly one stop condition, the last operation, if anything was issued; nothing issued if nothing is to be transferred |
| I2cMaster.SendsInOrder | software/olive_rubic_bsp/drivers/src/peridot_i2c_master.c:184-212 | the data on the bus are the caller's in order up to the first byte refused |
| I2cMaster.OnlyLastRefused | software/olive_rubic_bsp/drivers/src/peridot_i2c_master.c:241-257 | the master refuses exactly the last byte it receives, together with the stop condition |
| I2cMaster.ResultTellsWhy | software/olive_rubic_bsp/drivers/src/peridot_i2c_master.c:133-260 | -ENOENT exactly if an address issued is refused, -ECANCELED exactly if a data byte is, 0 otherwise |
| I2cMaster.StartsAddressTheDevice | software/olive_rubic_bsp/drivers/src/peridot_i2c_master.c:159-227 | the start conditions are the first operation of a write, with twice the address, and the operation behind the data, with one more, if there is anything to read and nothing was refused; and no others |
| I2cMaster.RefusedAddressStops | software/olive_rubic_bsp/drivers/src/peridot_i2c_master.c:172-239 | a refused address is followed by nothing but a stop condition on a dummy byte in the same direction |

## Left out

- BsonWriter.ShrinkBinary: does not model negative new lengths, because the only caller passes the non-negative result of a read.
- BsonWriter.SetSubdocument: does not model a negative length word, because the copy length would be negative.
- BsonReader.GetProps: does not model strcmp reading past the document, because names are compared after their NUL was found inside it; bytes past the end of a buffer read as zero.
- BsonScanLimits.ScanIsExact: does not decide documents in which the element right behind JavaScript code with scope repeats an earlier name, because what such a scan finds depends on how the skipped bytes happen to parse.
- RpcReply.SendReply: does not model overflow of the sum of measured sizes, because a buffer of more than 2^31 - 1 bytes is taken as refused; freeing of the job and of the callee's result is not modelled, nor an id offset left unset: the offset is a parameter, and bson_get_props leaves the variable unset when it rejects the header.
- RpcSink.FramingRoundTrip: does not model what a negative length word does to the heap, because the model ignores a store past the end of a job's buffer; packets are at most 2^31 - 1 bytes long, as the sender's C int has it.
- RpcSink.StartByteResynchronises: does not cover a packet broken off by another one whose length word is over 65536 or missing, because the buffer left over then takes part in that packet; nor one broken off inside an escape, whose first byte is changed.
- RpcSink.WriteToChannel: does not model channels read through a file descriptor; the worker empties the mailbox after finitely many yields.
- Framing.HostLink.WriteToHost: does not model a driver that refuses for ever; it takes something after finitely many refusals.
- Handover.ExactlyOnce: does not promise anything after a post without a request, because two workers may then take one request; which packets cause such a post is in RpcSink, and the two modules are connected by the count of posts only.
- Pipe.HostPipe.Read: does not model blocking on an empty ring and the wake-up of the reader, because the wake-up is posted only if the ring was empty when the sink looked; safety is proved, wake-up under preemption is not claimed. Negative lengths are not modelled.
- Pipe.HostPipe.constructor: does not model capacities outside 1 to 2^31, for which rounding up gives no ring; allocation and channel registration are left out.
- Semaphore.Sem.Post: does not model errno, the context switch that follows, sem_init's refusals and sem_getvalue.
- Sleep.Sleeper.Usleep: does not model sleep(), errno and the switch to the next thread; between ticks the ready queue may change in any way, as long as no thread is in it that sleeps.
- Sleep.ExactWakeUp: does not cover more than a million ticks per second, for which the step per tick is zero and the clock stands still.
- Alarm.AlarmList.Tick: does not model callbacks that edit the alarm list; what the callbacks return is a parameter of each tick. Starting an alarm that is still linked, and the operating system hook at the end of a tick, are left out.
- OnchipFlash.Flash.Write: does not model sectors that are no whole number of pages or out of order (the region table is required to be valid), the cache flush and negative lengths.
- OnchipFlash.Flash.EraseBlock: does not model the polling loops cycle by cycle; each poll returns idle or a timeout, and the result of the idle poll after the erase is ignored as in the code.
- SpiNor.Nor.RawWrite: does not model offsets that are not sector-aligned, for which page programming wraps inside a page; the compiled-out verification branch and the bus locks are left out. Devices are at most 16 MiB.
- SpiNor.Disk.Write: does not model counts whose length in bytes is a negative C int, because the driver then loops far past the end of any buffer; a device smaller than 16 MiB ignores addresses behind its end; reading the identification of the chip is replaced by its known size.
- SpiNor.Disk.Read: does not model counts whose length in bytes is a negative C int, nor what a device gives out past its end.
- SpiNor.Disk.WriteAndRead: does not model counts whose length in bytes is a negative C int either.
- Md5.Calc: does not model messages of 2^28 bytes or more, whose length in bits a C int cannot hold; the sine constants of the program are taken to be those RFC 1321 lists.
- Crc32.Digest.Calc: does not compare the static table of the other build configuration entry by entry.
- I2cMaster.Master.Run: does not model the bit encoding of the access register, the clock divider, the interrupt wait and the unimplemented 10-bit addressing beyond its refusal.
- The receive demultiplexer of the host bridge, whose in-place removal of channel prefixes has no clean decoding property.
- RPC method lookup, parameter checks and dispatch, the file system client, the Rubic agent, boot settings.
- Mutexes, condition variables, thread creation and context switching of TinyThreads; critical sections are atomic.
- Memory safety of raw pointers and the allocator: buffers are arrays, pointers are offsets, allocation succeeds unless its failure is the point.
- Vendor drivers, FatFs, script engines, C library, release scripts.
