# PYRN firmware: verified models of its stateful algorithms

PYRN is mbed firmware for a vehicle logger. Most of it drives hardware; some of it is self-contained algorithms over
state that they rewrite in place. This project models those in Dafny, in the form the firmware gives them (classes with
fields, loops over arrays, links rewritten in a heap), and proves what they are for. Each class method is proved against
a function on values, and the properties that span calls are theorems about these functions.

| files | what they model |
|---|---|
| `Bytes`, `Wrappers` | bytes and the little-endian words the target keeps in memory; optional results |
| `HeapSpec`, `MyMemoryAllocator` | the first-fit heap: block headers in band, linked by absolute addresses, split by `malloc` and merged by `free` |
| `RamCircBuff` | the byte ring of length-prefixed records |
| `ComHandler` | results as type/length/data records, drained into bounded frames |
| `ATSpec`, `ATFraming`, `ATLimits`, `ATTransactions`, `ATCommandsInterface` | the incremental line framer of the modem, and its command state machine |
| `Can6A`, `CANCommunicator6A` | segmentation, flow control and reassembly over CAN, both ends and the bus between them |
| `SerialSpec`, `SerialThreads`, `USBSerialStream` | the serial stream over a USB packet port: rings, enable and pending flags, and the one USB thread that serves both directions |
| `USBHost` | endpoint lists and the controller's mirror of them, the two-descriptor rotation, the done list |
| `GpsNumbers`, `GpsSpec`, `GpsTerms`, `GpsFields`, `GpsStreams`, `GpsChecksums`, `GpsPublished`, `TinyGPS` | the streaming NMEA parser, its fixed-point numbers, and the streams on which it goes wrong |
| `CANDiagCalculator` | the packed store of diagnosis commands and its iteration |

`dafny verify dfyconfig.toml` checks everything.

## What turned out

Some expectations one may have of the code do not hold. Each is stated with its exact condition.

* **Heap.** `n += n%4` does not align anything (5 becomes 6), although the comment beside it says so; a request is served
  with at least n bytes exactly for n up to 65533, above that the addition wraps (`HeapSpec.RoundedCovers`).
* **AT lines.** A non-empty response line without CR or NUL comes out under every way of cutting the stream into reads
  exactly if it has at most 189 characters and none of them follows a '>' (`ATLimits.LineSurvivesIff`). A longer one is
  never delivered, whatever the cut (`ATLimits.LongLineIsLost`); with a character behind a '>', a read that ends there
  makes the framer give up the line, or take it for an entry prompt (`ATLimits.PromptSplitsLine`). If the modem's echo
  ends in CR LF, a read that ends between the two makes a line of the LF (`ATLimits.EchoCutBeforeLf`).
* **Frames.** Draining the store comes to an end exactly if every queued record has at most 2036 bytes
  (`ComHandler.DrainsIff`); with a larger one frames are posted for ever. The 1024-byte store of the firmware rules it
  out (`ComHandler.OneFrameSuffices`).
* **CAN.** The slave's `uint8_t` loop counter wraps exactly for responses of more than 252 bytes
  (`Can6A.CounterWrapsIff`). An exchange can be completed, from every state it may reach, exactly if the slave was idle
  when it began and the response has at most 7 bytes or the calculator's acknowledge command is the 30 00 0A that the
  slave waits for; otherwise no run ever completes it (`Can6A.CompletesIff`). An exchange that has ended leaves the slave
  idle (`Can6A.EndedLeavesIdle`); one that a missing acknowledge command has cut short leaves it waiting, and the next
  command is swallowed, whatever it is (`Can6A.NextIsSwallowed`, `Can6A.OneLostAnother`). The answer to a keep-alive
  request ends an exchange that waits for its response (`Can6A.KeepAliveIsTaken`).
* **USB serial, receiving.** The callback `readable()` waits while the ring is full. Run from `setupIrq` it does so on the
  user's thread, the only one that could make room: with a packet pending, the user thread gets out of `setupIrq` again
  exactly if the ring has room for the whole packet (`SerialSpec.UnmaskReturnsIff`), and otherwise reception has stopped
  for good (`SerialSpec.CaughtForGood`). From all other states everything received can still be read
  (`SerialSpec.ReadsAllIff`). Three packets that nobody reads are enough (`SerialSpec.StuckIsReachable`).
* **USB serial, sending.** The sender on its own never stalls (`SerialSpec.SenderNeverStalls`), but the USB thread that
  ends its packets also runs the receiving callback. While that waits on a full receive ring nothing is sent: without a
  read, everything written goes out, and space appears for a `write()` that waits, exactly if the USB thread is not held
  by a packet larger than the room (`SerialThreads.DrainsIff`, `SerialThreads.SpaceAppearsIff`). A thread that writes
  without reading can so wait for ever (`SerialThreads.WriteWaitsForRead`). With reads both directions are served to
  the end exactly from the states in which the user thread is not caught in the callback (`SerialThreads.AllServedIff`).
* **GPS checksums.** `from_hex` checks nothing, and a term of fewer than two characters is read together with its NUL and
  with what earlier terms left behind it. A checksum text is accepted exactly when it is the two hex digits of the
  sentence's XOR, precisely for texts that begin with two hex digits (`GpsChecksums.SumRightIff`); with any other text
  some sentence passes. So do a sentence cut off within its checksum (`GpsChecksums.TruncatedPasses`: `*8` for 50), one with
  a character that is no digit (`GpsChecksums.GarbledPasses`: `*4@` for 50) and one without a checksum
  (`GpsChecksums.MissingPasses`: `*` for 00).
* **GPS terms.** Case labels are a one-byte term number plus an offset for the kind of sentence, so a long sentence runs into
  the labels of another kind, and starts over at term 256. `GpsTerms.GateRightIff` says which sentences are judged by a
  wrong term; by their number of complete terms, sentences are judged right up to exactly 102 terms (GSV), 106 (RMC and
  GGA) and 258 (all others) (`GpsStreams.GateBoundExact`), and publish their own fields up to exactly 101 (RMC and GGA)
  and 256 (GLL) (`GpsPublished.FieldsBoundExact`), each bound with a stream that goes wrong beyond it. What a sentence does
  not give it publishes as it was held before, be that from a sentence that failed its checksum
  (`GpsFields.PublishedExactly`, `GpsPublished.StaleDate`).
* **Command store.** Neither the checks nor the searches look at cmdLen. A store that begins with its end marker is searched
  beyond it: `CANDiagCalculator.EmptyStoreIff` says when that does no harm, and `CANDiagCalculator.StaleCommand` parses a
  store, then an empty one, and finds a command of the first. A store with a command but without an end marker of its
  own is accepted if the bytes an earlier store has left behind it end in one (`CANDiagCalculator.ValidatedIff`), and
  iteration then goes on into those: for one type it meets exactly the store's own commands if and only if the bytes
  behind hold none of the type (`CANDiagCalculator.OwnIterationIff`), for all types if and only if the marker comes no
  later than the end of the store (`CANDiagCalculator.AllTypesIff`). `CANDiagCalculator.UnendedStore` is such a case.

## Model

| member | source | states |
|---|---|---|
| HeapSpec.FirstFit | MyThings/MyMemoryAllocator.cpp:95-119 | the block found is FREE with more than n + H bytes, and every block before it, or every block at all if none is found, is not |
| HeapSpec.RoundedCovers | MyThings/MyMemoryAllocator.cpp:92-93 | `n += n%4` in 16 bits is at least n exactly for n up to 65533 |
| HeapSpec.Tiling | MyThings/MyMemoryAllocator.cpp:100-108 | headers and payloads follow one another without gap or overlap, inside the arena |
| HeapSpec.LiveDisjoint | MyThings/MyMemoryAllocator.cpp:89-126 | two live payloads lie in the arena and are at least a header apart |
| HeapSpec.MallocAddsOne | MyThings/MyMemoryAllocator.cpp:89-126 | malloc makes exactly one payload of exactly n bytes live, where a FREE block was, and nothing else; or changes nothing when no block fits |
| HeapSpec.FreeCoalesces | MyThings/MyMemoryAllocator.cpp:136-154 | after free no two neighbours are both FREE |
| HeapSpec.FreeRemovesOne | MyThings/MyMemoryAllocator.cpp:128-157 | free ends the life of exactly the payload it is given; arena size and coalescing are kept |
| HeapSpec.FreeTwice | MyThings/MyMemoryAllocator.cpp:132-155 | freeing a FREE block changes nothing |
| HeapSpec.FreeOfDeadPointer | MyThings/MyMemoryAllocator.cpp:76-87 | freeing a pointer that owns no live payload changes nothing |
| HeapSpec.FreeUndoesMalloc | MyThings/MyMemoryAllocator.cpp:89-157 | freeing what malloc has just returned restores the identical block list |
| HeapSpec.RunKeeps | MyThings/MyMemoryAllocator.cpp:89-157 | over every run of malloc and free the blocks add up to the arena and no two FREE blocks are neighbours |
| HeapSpec.CanonicalForm | MyThings/MyMemoryAllocator.cpp:57-74 | a coalesced block list is determined by its live payloads and its size |
| HeapSpec.RunsAreCanonical | MyThings/MyMemoryAllocator.cpp:89-157 | two histories that leave the same payloads live leave the same heap, in whatever order things were freed |
| HeapSpec.AllFreedIsFresh | MyThings/MyMemoryAllocator.cpp:16-26 | nothing is live exactly when the heap is again the constructor's one FREE block |
| MyMemoryAllocator.HeadersAreNotLive | MyThings/MyMemoryAllocator.cpp:100-113 | no header byte lies in a live payload |
| MyMemoryAllocator.PayloadWriteKeepsList | MyThings/MyMemoryAllocator.cpp:100-116 | whatever an owner writes into its payload, the headers still spell the same block list |
| MyMemoryAllocator.SplitRepresents | MyThings/MyMemoryAllocator.cpp:99-113 | malloc's stores, seen as bytes, turn a well-linked list into the well-linked split list |
| MyMemoryAllocator.MergeRepresents | MyThings/MyMemoryAllocator.cpp:57-66 | the unlinking stores turn it into the well-linked merged list |
| MyMemoryAllocator.MarkRepresents | MyThings/MyMemoryAllocator.cpp:136 | the status store changes that block's status only |
| MyMemoryAllocator.MyMemoryAllocator.constructor | MyThings/MyMemoryAllocator.cpp:16-26 | the bytes spell one FREE block over the arena |
| MyMemoryAllocator.MyMemoryAllocator.JoinNextBlock | MyThings/MyMemoryAllocator.cpp:57-66 | swallows the successor, if there is one; links stay consistent both ways; no live payload byte changes |
| MyMemoryAllocator.MyMemoryAllocator.JoinPrevBlock | MyThings/MyMemoryAllocator.cpp:69-74 | is swallowed by the predecessor, if there is one |
| MyMemoryAllocator.MyMemoryAllocator.FindBlock | MyThings/MyMemoryAllocator.cpp:76-87 | the header whose payload begins at p, NULL if there is none |
| MyMemoryAllocator.MyMemoryAllocator.Fragment | MyThings/MyMemoryAllocator.cpp:99-113 | the three headers read back as malloc means them, no byte outside of them changes |
| MyMemoryAllocator.MyMemoryAllocator.Malloc | MyThings/MyMemoryAllocator.cpp:89-126 | returns the payload of the lowest fitting block, NULL exactly when none fits; the bytes spell the new list; no live payload byte changes |
| MyMemoryAllocator.MyMemoryAllocator.Free | MyThings/MyMemoryAllocator.cpp:128-157 | the bytes spell the list with the block FREE and merged both ways, the same list for an unknown pointer; no byte of a payload still live changes |
| MyMemoryAllocator.MyMemoryAllocator.PrintResume | MyThings/MyMemoryAllocator.cpp:28-54 | the full sum is always memorySize, so the reset branch never runs; the other one is the bytes of blocks in use |
| RamCircBuff.PlacedTwice | storageBase.cpp:94-131 | writing the header and then the payload behind it is writing both at once, wherever the end of the ring falls |
| RamCircBuff.PlacedAppends | storageBase.cpp:75-133 | a write right behind the bytes in use appends to the ring's contents, wrapped or not |
| RamCircBuff.EncodeInjective | storageBase.cpp:82-92 | the bytes in the ring spell one queue of records and no other |
| RamCircBuff.FifoOverRuns | storageBase.cpp:75-187 | over every run: records delivered followed by records queued are the records there were followed by those taken; the ring never overfills |
| RamCircBuff.TakeFront | storageBase.cpp:167-184 | where the oldest record lies, in one piece or two, and what remains behind it |
| RamCircBuff.Front | storageBase.cpp:139-156 | a non-empty ring begins with the length of its oldest record, in one piece or two |
| RamCircBuff.RamCircBuff.constructor | storageBase.cpp:58-65 | an empty queue over the given block |
| RamCircBuff.RamCircBuff.Put | storageBase.cpp:75-133 | appends the record, or returns -1 and changes nothing exactly when currSz + 4 + length exceeds the ring |
| RamCircBuff.RamCircBuff.Probe | storageBase.cpp:189-204 | length of the oldest record, 0 for none |
| RamCircBuff.RamCircBuff.Get | storageBase.cpp:135-187 | copies out and removes the oldest record; the ring stays consistent exactly when the stated length is no smaller than the record |
| ComHandler.ParseUndoesTlvs | ComHandler.cpp:153-169 | type/length/data records in a row decode to the results they were made of |
| ComHandler.RecordBytes | ComHandler.cpp:156-160 | a result becomes its type, its length with the lower byte first, and its data |
| ComHandler.Fit | ComHandler.cpp:102-124 | the inner loop copies as many of the oldest records as the 2096 bytes allow, and stops only at a record that does not fit |
| ComHandler.ProgressIff | ComHandler.cpp:84-150 | a frame takes at least one record exactly when the oldest is at most 2096 less the header |
| ComHandler.DrainsIff | ComHandler.cpp:84-150 | for a store of non-empty records, the outer loop empties it after some number of frames exactly if each record fits a frame of its own |
| ComHandler.FramesKeepRecords | ComHandler.cpp:84-150 | the frames together hold every record once, in order and unsplit, and none exceeds 2096 bytes |
| ComHandler.BodiesDecode | ComHandler.cpp:84-169 | each frame body decodes on its own, and together they give back the results |
| ComHandler.ResultsSurvive | ComHandler.cpp:80-169 | end to end: accepted results come out of the drained frames, complete and in order |
| ComHandler.OneFrameSuffices | ComHandler.cpp:28 | with a store of 1024 bytes one frame holds everything |
| ComHandler.ComHandler.constructor | ComHandler.cpp:19-43 | nothing pending, the first frame opens a session, the number of the product and 40 bytes a5 for the configuration |
| ComHandler.ComHandler.AddResults | ComHandler.cpp:153-169 | queues the record, or returns false and queues nothing exactly when the ring has no room |
| ComHandler.ComHandler.SetIdConfig | ComHandler.cpp:181-184 | the id of the configuration is replaced |
| ComHandler.ComHandler.FillHeader | ComHandler.cpp:171-179 | the header field by field: product number, configuration id, time with the least byte first, and '1' in the first frame only, '0' in all others |
| ComHandler.ComHandler.BuildFrame | ComHandler.cpp:90-125 | such a header and the oldest records that fit, removed from the store; asks for another frame exactly when records are left |
| ComHandler.ComHandler.DoServerRequest | ComHandler.cpp:80-151 | terminates with an empty store, having sent exactly the frames of the queued records; frame 0 of a new handler opens a session, no other does |
| ATSpec.Iterate | Pyrn3GModem/ATCommandsInterface.cpp:303-523 | an iteration never lengthens the buffer, and strictly shortens it when it processed a line or prompt: the loop terminates for arbitrary input |
| ATSpec.ReadLine | Pyrn3GModem/ATCommandsInterface.cpp:269-538 | a buffer that was not full before a read is not full after it: the next read always has room |
| ATSpec.ResultCodeIff | Pyrn3GModem/ATCommandsInterface.cpp:624-689 | which lines are final and what each announces; no line means two things |
| ATFraming.PumpFrames | Pyrn3GModem/ATCommandsInterface.cpp:303-523 | the loop hands on exactly the complete lines of what it has and rests with what follows them |
| ATFraming.PumpStream | Pyrn3GModem/ATCommandsInterface.cpp:303-523 | from an untouched buffer, the echo first |
| ATFraming.ReadStep | Pyrn3GModem/ATCommandsInterface.cpp:269-538 | one more read delivers exactly the lines it completes |
| ATFraming.FramingIgnoresChunking | Pyrn3GModem/ATCommandsInterface.cpp:269-538 | however the stream is cut into reads, the echo and every response line come out once each, in order |
| ATFraming.CommandIsAnswered | Pyrn3GModem/ATCommandsInterface.cpp:269-700 | however its answer is cut, a command whose last line is the first that means a final result ends with exactly that result announced once and the machine IDLE |
| ATFraming.LinesAreShort | Pyrn3GModem/ATCommandsInterface.cpp:269-538 | no line over 190 characters is ever delivered, whatever the input |
| ATFraming.PumpFails | Pyrn3GModem/ATCommandsInterface.cpp:388-395 | an error is the processor's on the last line delivered, and leaves an empty buffer and no line begun |
| ATLimits.LineSurvivesIff | Pyrn3GModem/ATCommandsInterface.cpp:269-538 | a line among good ones is delivered once, in its place, under every way of cutting the stream exactly if it has at most 189 characters and none follows a '>' |
| ATLimits.LongLineIsLost | Pyrn3GModem/ATCommandsInterface.cpp:419-533 | a response line of 190 characters or more is never delivered, however cut and whatever the callbacks do |
| ATLimits.PromptSplitsLine | Pyrn3GModem/ATCommandsInterface.cpp:476-517 | a line with '>' and a blank, cut behind the blank, comes out as a prompt and the rest of the line |
| ATLimits.GivesUpLine | Pyrn3GModem/ATCommandsInterface.cpp:476-517 | what a read does that ends one character behind the first '>' of a line |
| ATLimits.FullBufferIsLost | Pyrn3GModem/ATCommandsInterface.cpp:525-533 | a line that fills the buffer with its CR is discarded before its LF is read |
| ATLimits.BreaksLine | Pyrn3GModem/ATCommandsInterface.cpp:269-538 | for every other line there is a way of cutting the stream that loses it |
| ATLimits.EchoWithLf | Pyrn3GModem/ATCommandsInterface.cpp:370-406 | an echo that ends in CR LF, read at once with what follows, comes out like any other |
| ATLimits.EchoCutBeforeLf | Pyrn3GModem/ATCommandsInterface.cpp:370-406 | if a read ends between its CR and its LF, a line that is the LF is delivered before the response lines |
| ATLimits.StrayCrWaits | Pyrn3GModem/ATCommandsInterface.cpp:361-367 | a CR that no LF follows is dropped, and what is behind it waits for the next read |
| ATLimits.BrokenLine | Pyrn3GModem/ATCommandsInterface.cpp:470-477 | a line broken off by a CR that no LF follows is dropped with it |
| ATTransactions.ResultsBounded | Pyrn3GModem/ATCommandsInterface.cpp:540-700 | in every run of mailbox checks and lines, results announced, plus one if the machine is busy, are at most the commands taken |
| ATTransactions.ReadingFollowsEcho | Pyrn3GModem/ATCommandsInterface.cpp:570-592 | results are read only behind the echo of the last command sent |
| ATTransactions.ResultAnswersItsCommand | Pyrn3GModem/ATCommandsInterface.cpp:540-700 | every result is what its line means, and answers a command of its own, behind its echo, with nothing sent, reset or announced in between, and leaves the machine IDLE |
| ATTransactions.ReadingMeans | Pyrn3GModem/ATCommandsInterface.cpp:621-697 | in a result, OK, ERROR, COMMAND NOT SUPPORT, CONNECT, +CME ERROR: and +CMS ERROR: announce their codes; all other lines announce nothing and go to the processor |
| ATCommandsInterface.ATCommandsInterface.constructor | Pyrn3GModem/ATCommandsInterface.cpp:31-40 | an empty, NUL-terminated buffer and an idle machine |
| ATCommandsInterface.ATCommandsInterface.Strchr | Pyrn3GModem/ATCommandsInterface.cpp:315 | finds the first such character in front of the NUL, never reading behind it |
| ATCommandsInterface.ATCommandsInterface.Shift | Pyrn3GModem/ATCommandsInterface.cpp:361-362 | the memmove stays in the buffer and moves the NUL along |
| ATCommandsInterface.ATCommandsInterface.ProcessReadLine | Pyrn3GModem/ATCommandsInterface.cpp:570-700 | echo, final result codes, each with the code it announces, and lines for the processor with its return code, as the state machine says |
| ATCommandsInterface.ATCommandsInterface.DeliverLine | Pyrn3GModem/ATCommandsInterface.cpp:452-473 | the line goes out, its characters leave the buffer; an error or a sendData empties it |
| ATCommandsInterface.ATCommandsInterface.SeekLine | Pyrn3GModem/ATCommandsInterface.cpp:311-417 | the first half of an iteration in place is the one on values |
| ATCommandsInterface.ATCommandsInterface.FinishLine | Pyrn3GModem/ATCommandsInterface.cpp:420-522 | so is the second |
| ATCommandsInterface.ATCommandsInterface.ProcessEntryPrompt | Pyrn3GModem/ATCommandsInterface.cpp:702-715 | the prompt is closed by a control-Z, and by nothing else, unless the processor asks for more |
| ATCommandsInterface.ATCommandsInterface.SendData | Pyrn3GModem/ATCommandsInterface.cpp:719-765 | writes the data and leaves the input buffer empty |
| ATCommandsInterface.ATCommandsInterface.TryReadLine | Pyrn3GModem/ATCommandsInterface.cpp:269-538 | for arbitrary input terminates, keeps position and NUL in the buffer, does what the machine on values does, and writes one control-Z for each prompt whose handler does not ask for more and nothing else; an error is the last processor's and empties the buffer |
| ATCommandsInterface.ATCommandsInterface.TrySendCommand | Pyrn3GModem/ATCommandsInterface.cpp:540-566 | a command goes out with its CR and awaits its echo, any other message resets the machine, an empty mailbox changes nothing |
| Can6A.CounterWrapsIff | CAN/CANCommunicator6A.cpp:237-241 | the 8-bit loop counter never wraps exactly for responses of at most 252 bytes |
| Can6A.FrameAt | CAN/CANCommunicator6A.cpp:163-180 | frame number it holds its header and the next at most seven bytes, and the last frame ends with the response |
| Can6A.ReceivesFrame | CAN/CANCommunicator6A.cpp:63-105 | the next frame takes the master one step further, the first of a long response makes it acknowledge |
| Can6A.IgnoresFrame | CAN/CANCommunicator6A.cpp:86-107 | frames not meant for its state leave the master as it is |
| Can6A.Reassembles | CAN/CANCommunicator6A.cpp:57-180 | reassembly undoes segmentation for every response of 1 to 252 bytes, whatever ignored frames come in between |
| Can6A.NoAckNoResponse | CAN/CANCommunicator6A.cpp:76-85 | a master without an acknowledge command never leaves IDLE and ignores all consecutive frames |
| Can6A.NetStepKeeps | CAN/CANCommunicator6A.cpp:27-250 | every move of either end or of noise on the bus keeps: frames p to q - 1 are under way, in order |
| Can6A.NetRunKeeps | CAN/CANCommunicator6A.cpp:27-250 | so does every run |
| Can6A.ExchangeIsSafe | CAN/CANCommunicator6A.cpp:27-250 | in every interleaving, from any state of the slave, the master never reads behind a message, ends with exactly the response or has not ended; in an answerable exchange begun with an idle slave something that matters is then under way |
| Can6A.ExchangeCompletes | CAN/CANCommunicator6A.cpp:27-250 | from every reachable state of an answerable exchange begun with an idle slave, delivering what is under way ends it with the whole response |
| Can6A.CompletesIff | CAN/CANCommunicator6A.cpp:27-250 | from every reachable state the exchange can be completed exactly if the slave was idle when it began and the response is short or the acknowledge command is the one the slave waits for; otherwise it never is |
| Can6A.EndedLeavesIdle | CAN/CANCommunicator6A.cpp:193-247 | an exchange that has ended leaves the slave idle and no message to it under way |
| Can6A.NextIsSwallowed | CAN/CANCommunicator6A.cpp:76-84 | an exchange without an acknowledge command leaves the slave waiting, and no run of any second exchange then ends |
| Can6A.OneLostAnother | CAN/CANCommunicator6A.cpp:233-246 | one delivered command is enough for that, with a new slave |
| Can6A.KeepAliveIsTaken | CAN/CANCommunicator6A.cpp:196-202 | a keep-alive request is answered by 01 7E and changes nothing in the slave; a waiting master takes the answer for a response of one byte |
| CANCommunicator6A.CANCommunicator6A.ExecuteCommand | CAN/CANCommunicator6A.cpp:27-118 | buffer, length and messages sent are those of the master on values; the state is IDLE again |
| CANCommunicator6A.CANCommunicator6A.OnMessage | CAN/CANCommunicator6A.cpp:59-108 | one message does in place what the step on values does |
| CANCommunicator6A.CANCommunicatorSim6A.FormatResponse | CAN/CANCommunicator6A.cpp:163-180 | the payload is frame number it of the response |
| CANCommunicator6A.CANCommunicatorSim6A.Event | CAN/CANCommunicator6A.cpp:182-250 | one message is answered as the slave on values answers it: a keep-alive by 01 7E, a command by the first frame of its response, an acknowledge 30 00 0A by all later frames, any other message by nothing |
| CANCommunicator6A.CANCommunicatorSim6A.SendRest | CAN/CANCommunicator6A.cpp:237-241 | sends all frames but the first, in order, once each |
| SerialSpec.TxKeeps | Pyrn3GModem/USBSerialStream.cpp:132-172 | every step of the user or the USB thread keeps the sender's invariant |
| SerialSpec.TxRunKeeps | Pyrn3GModem/USBSerialStream.cpp:132-234 | so does every interleaving |
| SerialSpec.SenderNeverStalls | Pyrn3GModem/USBSerialStream.cpp:132-234 | the sender on its own, always: bytes written are completed packets, packet in flight, ring, in order; a non-empty ring outside of write() has a packet in flight, whose end awaits only the USB thread; fifo-empty means nothing in flight and nothing pending |
| SerialSpec.DrainsCompletely | USBHost/USBHost3GModule/WANDongleSerialPort.cpp:313-338 | with the USB thread free, and left alone, the port sends everything that was written |
| SerialSpec.RxKeeps | Pyrn3GModem/USBSerialStream.cpp:45-75 | every step keeps the receiver's invariant |
| SerialSpec.ReceiverLosesNothing | Pyrn3GModem/USBSerialStream.cpp:45-129 | always: bytes of packets received are bytes read, ring, unread rest of the packet, in order |
| SerialSpec.StuckIff | Pyrn3GModem/USBSerialStream.cpp:121-129 | no step at all is possible exactly when the user's own thread waits in the callback for room in a full ring |
| SerialSpec.UnmaskReturnsIff | USBHost/USBHost3GModule/WANDongleSerialPort.cpp:228-241 | with a packet pending, the user thread gets out of enabling the callback exactly if the ring has room for the packet |
| SerialSpec.OverrunIff | USBHost/USBHost3GModule/WANDongleSerialPort.cpp:228-241 | so for a packet arriving while the callback is disabled: exactly if the ring had room for it |
| SerialSpec.CaughtForGood | Pyrn3GModem/USBSerialStream.cpp:121-129 | without room, no run gets the user thread out, hands out another byte or starts another transfer |
| SerialSpec.CaughtIsStuck | Pyrn3GModem/USBSerialStream.cpp:121-129 | it fills the ring and is stuck |
| SerialSpec.ReadsAllIff | Pyrn3GModem/USBSerialStream.cpp:45-129 | everything received can be read, and the next transfer started, exactly from the states in which the user thread is not caught |
| SerialSpec.StuckIsReachable | Pyrn3GModem/USBSerialStream.cpp:116-129 | such a state is reachable |
| SerialSpec.RoomSuffices | Pyrn3GModem/USBSerialStream.cpp:121-129 | with room for the packet the callback gets through, on either thread, and starts the next transfer |
| SerialSpec.CallbackUnpacks | Pyrn3GModem/USBSerialStream.cpp:121-129 | the steps of the callback come to the packet unpacked, or to a full ring and the rest of the packet |
| SerialThreads.SysRunKeeps | USBHost/USBHost/USBHost.cpp:222-237 | both invariants hold over every interleaving of the user threads with the one USB thread |
| SerialThreads.BlockedTillRead | Pyrn3GModem/USBSerialStream.cpp:121-129 | while nothing is read, a USB thread held by a packet larger than the room stays held and ends no packet |
| SerialThreads.DrainsIff | USBHost/USBHost/USBHost.cpp:222-237 | without a read, everything written can be sent exactly if it has been already, or the USB thread is not so held |
| SerialThreads.SpaceAppearsIff | Pyrn3GModem/USBSerialStream.cpp:174-201 | without a read, space appears on a full ring exactly if the USB thread is not so held |
| SerialThreads.WriteWaitsForRead | Pyrn3GModem/USBSerialStream.cpp:132-164 | a run from the start, for every packet size, after which write() waits until somebody reads |
| SerialThreads.AllServedIff | Pyrn3GModem/USBSerialStream.cpp:45-234 | both directions can be served to the end exactly from the states in which the user thread is not caught |
| USBSerialStream.MtxCircBuffer.constructor | Pyrn3GModem/core/MtxCircBuffer.h:32-37 | an empty ring |
| USBSerialStream.MtxCircBuffer.IsFull | Pyrn3GModem/core/MtxCircBuffer.h:39-45 | full means size - 1 elements |
| USBSerialStream.MtxCircBuffer.IsEmpty | Pyrn3GModem/core/MtxCircBuffer.h:47-53 | empty means no element |
| USBSerialStream.MtxCircBuffer.Queue | Pyrn3GModem/core/MtxCircBuffer.h:55-72 | appends one element, wherever the indices stand, or tells that the caller has to wait |
| USBSerialStream.MtxCircBuffer.Available | Pyrn3GModem/core/MtxCircBuffer.h:74-80 | the number of elements |
| USBSerialStream.MtxCircBuffer.Dequeue | Pyrn3GModem/core/MtxCircBuffer.h:82-93 | takes the oldest element, or says there is none |
| USBSerialStream.WANDongleSerialPort.Writeable | USBHost/USBHost3GModule/WANDongleSerialPort.cpp:190-207 | room left in the packet, none while one is in flight |
| USBSerialStream.WANDongleSerialPort.Putc | USBHost/USBHost3GModule/WANDongleSerialPort.cpp:132-149 | appends to the packet unless it is full or in flight |
| USBSerialStream.WANDongleSerialPort.WritePacket | USBHost/USBHost3GModule/WANDongleSerialPort.cpp:99-130 | starts a transfer, -1 if one is in flight |
| USBSerialStream.WANDongleSerialPort.SetupTxIrq | USBHost/USBHost3GModule/WANDongleSerialPort.cpp:242-255 | calls the listener exactly for a pending callback that gets enabled |
| USBSerialStream.WANDongleSerialPort.TxHandler | USBHost/USBHost3GModule/WANDongleSerialPort.cpp:313-332 | the packet is empty and free again; the listener is called now or remembered |
| USBSerialStream.USBSerialStream.FillPacket | Pyrn3GModem/USBSerialStream.cpp:222-227 | moves as much as the packet admits from ring to packet, in order |
| USBSerialStream.USBSerialStream.Writeable | Pyrn3GModem/USBSerialStream.cpp:213-234 | the callback in place is the one of the step system |
| USBSerialStream.USBSerialStream.TxHandler | USBHost/USBHost3GModule/WANDongleSerialPort.cpp:313-332 | a finished packet is the step Complete, whoever holds the user thread |
| USBSerialStream.USBSerialStream.Space | Pyrn3GModem/USBSerialStream.cpp:166-172 | free places in the ring, and no other effect |
| USBSerialStream.USBSerialStream.WritePass | Pyrn3GModem/USBSerialStream.cpp:143-159 | takes as many bytes as there is room for; they are the steps of the system; a packet is in flight if anything is left in the ring |
| USBSerialStream.WANDongleSerialPortIn.Readable | USBHost/USBHost3GModule/WANDongleSerialPort.cpp:171-188 | unread bytes of the packet, none while a transfer is under way |
| USBSerialStream.WANDongleSerialPortIn.Getc | USBHost/USBHost3GModule/WANDongleSerialPort.cpp:151-169 | the next byte of the packet, 0 if there is none |
| USBSerialStream.WANDongleSerialPortIn.ReadPacket | USBHost/USBHost3GModule/WANDongleSerialPort.cpp:66-97 | starts a transfer, -1 if one is under way |
| USBSerialStream.WANDongleSerialPortIn.SetupRxIrq | USBHost/USBHost3GModule/WANDongleSerialPort.cpp:228-241 | as for sending |
| USBSerialStream.WANDongleSerialPortIn.RxHandler | USBHost/USBHost3GModule/WANDongleSerialPort.cpp:283-311 | the packet waits unread; the listener is called now or remembered |
| USBSerialStream.USBSerialStreamIn.Readable | Pyrn3GModem/USBSerialStream.cpp:121-129 | the callback in place comes to what its steps in the system come to, with or without room |
| USBSerialStream.USBSerialStreamIn.RxHandler | USBHost/USBHost3GModule/WANDongleSerialPort.cpp:283-311 | a packet that arrives is the step Arrive and, with the callback enabled, its unpacking as far as there is room |
| USBSerialStream.USBSerialStreamIn.SetupReadableISR | Pyrn3GModem/USBSerialStream.cpp:116-119 | enabling with a packet pending runs the callback here, and leaves the stream stuck exactly if there is no room |
| USBSerialStream.USBSerialStreamIn.Available | Pyrn3GModem/USBSerialStream.cpp:69-75 | bytes waiting, and no other effect |
| USBSerialStream.USBSerialStreamIn.Read | Pyrn3GModem/USBSerialStream.cpp:45-67 | hands out the oldest bytes, at most maxLength, and removes exactly those |
| USBHost.USBEndpoint.Init | USBHost/USBHost/USBEndpoint.cpp:21-59 | two cleared descriptors owned by the endpoint, the controller's queue empty at the first |
| USBHost.USBEndpoint.QueueTransfer | USBHost/USBHost/USBEndpoint.cpp:135-145 | td_current is queued in front of the empty td_next; length and start are recorded, in 32 bits, also for length 0 |
| USBHost.USBEndpoint.UnqueueTransfer | USBHost/USBHost/USBEndpoint.cpp:147-156 | descriptor cleared, roles swapped, queue idle and no longer halted, carry bit untouched |
| USBHost.USBEndpoint.QueueEndpoint | USBHost/USBHost/USBEndpoint.cpp:158-162 | nextED mirrors nextEp |
| USBHost.EndpointQueue.Append | USBHost/USBHost/USBHost.cpp:595-606 | the endpoint becomes the last of its list; head, tail, register and both chains of links agree |
| USBHost.EndpointQueue.Remove | USBHost/USBHost/USBHost.cpp:463-505 | takes out exactly this endpoint, keeps the order of the rest, repairs head, register and tail |
| USBHost.USBHost.AddEndpoint | USBHost/USBHost/USBHost.cpp:565-638 | appended to the list of its kind, the other lists unchanged; isochronous ones are refused |
| USBHost.USBHost.UnqueueEndpoint | USBHost/USBHost/USBHost.cpp:457-508 | gone from the bulk or the interrupt list and marked free; all lists stay acyclic, disjoint and mirrored |
| USBHost.USBHost.ReverseDone | USBHost/USBHost/USBHost.cpp:307-313 | the done list, turned around in place |
| USBHost.USBHost.CompleteTd | USBHost/USBHost/USBHost.cpp:316-341 | one descriptor: state by its result code, length transferred, message and rotation |
| USBHost.USBHost.TransferCompleted | USBHost/USBHost/USBHost.cpp:298-343 | terminates on every acyclic done list and completes each descriptor exactly once, the oldest first, although completing one clears its link; every endpoint then has the state of its code, and the length queued, or on success the one at which the controller has stopped |
| USBHost.USBHost.OneTransfer | USBHost/USBHost/USBEndpoint.cpp:135-156 | queued, taken off by the controller, completed: the endpoint is idle and reports all of the bytes queued, or on success as many as were transferred |
| GpsNumbers.GpsAtol | TinyGPS/TinyGPS.cpp:333-339 | the leading digits, in 32 bits |
| GpsNumbers.WeightedIsFloor | TinyGPS/TinyGPS.cpp:168-174 | the weighted digits are the minutes' fraction in units of 1e-4, rounded down, for any number of digits |
| GpsNumbers.MinutesExact | TinyGPS/TinyGPS.cpp:160-176 | cutting digits off before dividing by six loses nothing |
| GpsNumbers.DegreesExactIff | TinyGPS/TinyGPS.cpp:160-176 | parse_degrees is the floor of the exact angle in 1e-5 degrees exactly when that fits 32 bits |
| GpsNumbers.RealAnglesAreExact | TinyGPS/TinyGPS.cpp:160-176 | so it is for every whole part below 4294900 |
| GpsNumbers.HundredthsAreFloor | TinyGPS/TinyGPS.cpp:147-156 | the hundredths of parse_decimal are the fraction rounded down, for any number of digits |
| GpsNumbers.DecimalExactIff | TinyGPS/TinyGPS.cpp:141-158 | read as signed, parse_decimal is the number in hundredths with its sign exactly if that fits 32 bits; read as unsigned, so is a number without a sign |
| GpsNumbers.ParseDegrees | TinyGPS/TinyGPS.cpp:160-176 | the loop computes that sum of weighted digits |
| GpsNumbers.ParseDecimal | TinyGPS/TinyGPS.cpp:141-158 | signed hundredths, in 32 bits |
| GpsSpec.RunMatches | TinyGPS/TinyGPS.cpp:75-117 | over every stream, parity, checksum flag, term number and buffer are those of the sentence since the last '$' |
| GpsSpec.KindOfIff | TinyGPS/TinyGPS.cpp:245-256 | which texts are taken for which kind of sentence: all beginnings of a name |
| GpsSpec.NoMatchNoChange | TinyGPS/TinyGPS.cpp:180-239 | unless the checksum text comes to the XOR, nothing published changes, however long the sentence |
| GpsSpec.RunSecond | TinyGPS/TinyGPS.cpp:85-93 | over every stream, the second byte of the term buffer is the one that the terms since the last '$', or those before it, have left |
| GpsSpec.ChecksumIsItsText | TinyGPS/TinyGPS.cpp:184 | over every stream, the number made of a checksum term is that of its first two characters, of one character and a NUL, or of a NUL and the byte left |
| GpsSpec.ReadRightIff | TinyGPS/TinyGPS.cpp:130-138 | a checksum text is taken for x just when it is the two hex digits of x, for all x, exactly if it begins with two hex digits |
| GpsTerms.RunDigests | TinyGPS/TinyGPS.cpp:241-331 | over every stream, kind, validity and readings are what the terms since the last '$' make of the readings held then |
| GpsTerms.PassesExactly | TinyGPS/TinyGPS.cpp:180-239 | over every stream, a sentence passes exactly with a checksum text that comes to its XOR and the last say of its validity terms good; no published field changes otherwise |
| GpsTerms.GateIsValidity | TinyGPS/TinyGPS.cpp:262-327 | up to the bound of its kind, that last say is the sentence's own validity field |
| GpsTerms.PublishedIffChecked | TinyGPS/TinyGPS.cpp:180-239 | up to that bound a sentence passes exactly at the terminator of a checksum text that comes to the XOR of its commas and non-checksum characters, with its own validity field good |
| GpsTerms.HexSumJudged | TinyGPS/TinyGPS.cpp:180-239 | if the text begins with two hex digits, exactly if they are those of the XOR |
| GpsTerms.GateRightIff | TinyGPS/TinyGPS.cpp:262-327 | for every sentence of at most 256 complete terms: judged right exactly if no term with another kind's validity label is given, or the last such term says the same |
| GpsFields.ReadingsExact | TinyGPS/TinyGPS.cpp:262-327 | up to the bound of its kind, the readings are exactly those of the sentence's own terms, with the sign of the hemisphere, on top of those held before |
| GpsFields.PublishedExactly | TinyGPS/TinyGPS.cpp:182-239 | a sentence that passes publishes, field by field, the value of its own term, or what was held before its '$' if it gives none; other fields and flags stay |
| GpsFields.GllPublishesHeld | TinyGPS/TinyGPS.cpp:196-204 | a GLL sentence publishes the date, speed and course that were held |
| GpsFields.HemispheresSign | TinyGPS/TinyGPS.cpp:278-304 | latitudes behind which an 'S' stands and longitudes behind which a 'W' stands are published negative, all others positive, exact up to 31 bits; so is a held angle, turned around |
| GpsFields.PassingPublishes | TinyGPS/TinyGPS.cpp:186-233 | whatever its kind, a passing sentence publishes what is held of that kind's fields, sets that kind's flag only, and publishes the times at which time and position were read |
| GpsFields.RunStamps | TinyGPS/TinyGPS.cpp:270-281 | over every stream, up to the bound, the time is stamped exactly by the terminator of the sentence's own time, the position by that of its own latitude |
| GpsStreams.SentencePasses | TinyGPS/TinyGPS.cpp:75-117 | how a sentence given by its terms and any checksum text, behind any stream, is judged |
| GpsChecksums.TruncatedPasses | TinyGPS/TinyGPS.cpp:184-186 | `$GPGLL,,,,,,AA*8` passes with the XOR 50 |
| GpsChecksums.GarbledPasses | TinyGPS/TinyGPS.cpp:130-138 | so does `*4@` |
| GpsChecksums.MissingPasses | TinyGPS/TinyGPS.cpp:184-186 | `$GPGLL,,,,,,A0!*`, without a checksum, passes with the XOR 00 |
| GpsChecksums.TakenAllTheSame | TinyGPS/TinyGPS.cpp:184-186 | for every checksum text that does not begin with two hex digits, a sentence that passes with it |
| GpsChecksums.SumRightIff | TinyGPS/TinyGPS.cpp:180-239 | all sentences with a given checksum text, up to the bound of their kind, pass exactly with the two hex digits of their XOR and their validity field good, if and only if the text begins with two hex digits |
| GpsStreams.Misjudged | TinyGPS/TinyGPS.cpp:278-281 | for each kind a stream with one complete term more than the bound that passes although its own validity field is empty |
| GpsStreams.GateBoundExact | TinyGPS/TinyGPS.cpp:257-317 | all sentences of a kind with at most n complete terms are judged right exactly for n up to the bound |
| GpsPublished.MistoldRmc | TinyGPS/TinyGPS.cpp:270-277 | an RMC sentence of 102 complete terms that passes and does not publish its own fields: term 101 has set the time |
| GpsPublished.MistoldGga | TinyGPS/TinyGPS.cpp:282-288 | a GGA sentence of 102 complete terms that passes and does not publish its own fields: term 101 has set the latitude |
| GpsPublished.MistoldGll | TinyGPS/TinyGPS.cpp:95-97 | a GLL sentence of 257 complete terms that passes and does not publish its own fields: term 256 has changed its kind |
| GpsPublished.FieldsBoundExact | TinyGPS/TinyGPS.cpp:262-327 | all passing sentences of a kind with at most n complete terms publish their own fields exactly for n up to the bound |
| GpsPublished.FailsButHolds | TinyGPS/TinyGPS.cpp:312-314 | an RMC sentence with a wrong checksum does not pass and publishes nothing, but its date is held |
| GpsPublished.StaleDate | TinyGPS/TinyGPS.cpp:196-204 | a good GLL sentence behind it passes and publishes that date |
| TinyGPS.TinyGPS.constructor | TinyGPS/TinyGPS.cpp:40-68 | nothing published, nothing under way |
| TinyGPS.TinyGPS.TermComplete | TinyGPS/TinyGPS.cpp:180-331 | a completed term does in place what the function on states says |
| TinyGPS.TinyGPS.Encode | TinyGPS/TinyGPS.cpp:75-117 | so does a character |
| CANDiagCalculator.UnpackUndoesPack | CAN/CANDiagCalculator.h:31-36 | the walk over packed commands reads them back, wherever they lie and whatever follows |
| CANDiagCalculator.PassesIff | CAN/CANDiagCalculator.cpp:53-80 | the walk over any bytes passes exactly if it meets an end marker in them and every command before it has at most 8 bytes |
| CANDiagCalculator.ValidatedIff | CAN/CANDiagCalculator.cpp:53-80 | over all of the storage: accepted exactly if the walk ends somewhere and neither the store's own commands nor those behind it are too long; what the store holds itself would pass exactly if its marker also lies inside cmdLen |
| CANDiagCalculator.IterationIsFilter | CAN/CANDiagCalculator.cpp:86-130 | FirstCommand and NextCommand until NULL meet exactly the commands of the type up to the end marker in the storage, in their order |
| CANDiagCalculator.OwnIterationIff | CAN/CANDiagCalculator.cpp:86-130 | they meet exactly the store's own commands of the type if and only if the commands behind the store hold none of it |
| CANDiagCalculator.AllTypesIff | CAN/CANDiagCalculator.cpp:86-130 | so for all types if and only if the end marker comes no later than the end of the store |
| CANDiagCalculator.PackedIteration | CAN/CANDiagCalculator.cpp:86-130 | the same for a list of commands that was packed |
| CANDiagCalculator.WalkPrefix | CAN/CANDiagCalculator.cpp:105-130 | bytes behind the end marker a search meets do not change it |
| CANDiagCalculator.EmptyStoreIff | CAN/CANDiagCalculator.cpp:86-130 | in any storage that begins with the end marker, NULL is returned exactly if the bytes behind the marker end in a marker of their own and hold no command of the type |
| CANDiagCalculator.LeftBehind | CAN/CANDiagCalculator.cpp:37-38 | after a store of two commands and an empty one, the second command is found |
| CANDiagCalculator.StaleCommand | CAN/CANDiagCalculator.cpp:25-103 | so by Parse, Parse, Validate and FirstCommand on one calculator |
| CANDiagCalculator.UnendedStore | CAN/CANDiagCalculator.cpp:25-103 | by the same calls, a store of one command without an end marker is accepted, and a command of the earlier store is found behind it |
| CANDiagCalculator.CANDiagCalculator.Parse | CAN/CANDiagCalculator.cpp:25-51 | takes the command bytes of a calculator of 1 to 255 command bytes and leaves the rest of the storage as it was, returns the bytes used; else -1 and no store |
| CANDiagCalculator.CANDiagCalculator.ReadHeader | CAN/CANDiagCalculator.cpp:63-64 | type and size, read below any given bound |
| CANDiagCalculator.CANDiagCalculator.Validate | CAN/CANDiagCalculator.cpp:53-80 | the verdict and the flag, for present and missing stores, reading no further than the commands go |
| CANDiagCalculator.CANDiagCalculator.NextCommand | CAN/CANDiagCalculator.cpp:105-130 | the next header of the type up to the end marker, or NULL; no read at or past any bound that the walk respects |
| CANDiagCalculator.CANDiagCalculator.FirstCommand | CAN/CANDiagCalculator.cpp:86-103 | the first header if it has the type, else the next one that has |

## Left out

What the modelled parts do beyond the model:

- Heap: the arena's address and a 20-byte header layout (the target's) are assumed; mutex and debug output are not modelled. The shared error of two threads is excluded by the mutex in the source.
- RamCircBuff.RamCircBuff.Get: requires that the caller's memory has room for the record, as the code copies all of it whatever length says.
- RamCircBuff: records under 65536 bytes and a ring that the 16-bit `malloc` can serve.
- ComHandler: the HTTP post, its one extra byte, the response callback and `NeedTransfer` are left out; the time of each frame is a parameter.
- ComHandler.ComHandler.DoServerRequest: requires records of at most 2036 bytes, as `DrainsIff` shows to be needed for termination; with a larger one the code posts frames for ever.
- ComHandler.ComHandler.AddResults: requires at most 2093 bytes of data; the code would copy up to 65535 bytes behind the end of its 2096-byte buffer.
- ATCommandsInterface: what the callbacks themselves send; mailboxes beyond their content, timeouts and the processing thread itself. What a read delivers and what callbacks answer are parameters.
- ATCommandsInterface.ATCommandsInterface.ProcessReadLine: dispatch of unsolicited codes to event handlers, which changes neither buffer nor transaction, and the numbers in error codes.
- ATCommandsInterface.ATCommandsInterface.SendData: a working stream that echoes what it is sent; stream errors and a wrong echo also leave the buffer empty.
- ATLimits.LineSurvivesIff: callbacks that return OK and do not call sendData, as in `ATFraming`.
- Can6A: when an exchange begins, no message of an earlier one is under way any more. Frames carry 8 bytes where the slave's local array has 7; the slave's command database and the size of its response buffer are parameters; callback registration and message pools are not modelled.
- CANCommunicator6A.CANCommunicator6A.ExecuteCommand: requires messages long enough for what they announce, which `ExchangeIsSafe` provides for this slave; the code would copy what lies behind a shorter one.
- CANCommunicator6A.CANCommunicatorSim6A.Event: requires messages with the bytes the slave looks at and commands that announce at most 7 bytes, all of them present, as the code copies them into an array of that size, and responses of at most 252 bytes, beyond which the loop counter wraps.
- SerialSpec, SerialThreads: the sender's callbacks are atomic; the receiver's is not. Transfers succeed, the port stays connected, packets have at least one byte. Semaphores and timeouts of the blocking calls are not modelled: a thread may take its next step whenever it is enabled.
- USBSerialStream: the one port class and the one stream class of the source are modelled as a sending and a receiving half, which share no field but the USB thread that runs their handlers; `SerialThreads` has the two share it. A byte that the callback has in hand while it waits for room counts as still in the packet.
- USBHost: device address, speed, control word flags, the wake-up queue of an endpoint and enabling of the controller's lists. Head, tail and head register of a list are grouped in one class; an endpoint keeps its descriptors when it is set up again.
- USBHost.USBHost.TransferCompleted: requires that no endpoint has two descriptors on one done list; a transfer is only started on an idle endpoint (USBHost/USBHost/USBHost.cpp:1021-1024), as `QueueTransfer` requires.
- GpsSpec: statistics counters and getters; `millis()` is a parameter. Angles and numbers are 32-bit patterns.
- GpsTerms.GateRightIff: sentences of more than 256 complete terms, whose kind is taken anew from term 256; `RunDigests` and `PassesExactly` cover them, and so does `GateBoundExact`.
- CANDiagCalculator: fields of the calculator header other than the command length are kept as bytes only.
- CANDiagCalculator.CANDiagCalculator.Validate: requires that the walk stays in the 256 bytes of the storage; the code would go on reading behind it.
- CANDiagCalculator.CANDiagCalculator.NextCommand: requires that the search stays in the storage, for the same reason.
- CANDiagCalculator.CANDiagCalculator.FirstCommand: requires the same.

What is not modelled at all:

- `sdStorage` and `sdCircBuff` (sd.cpp): partial-sector writes clear the rest of a sector, so they are no FIFO; the RAM ring is the one modelled.
- MODSERIAL: UART plumbing around a ring like the one modelled.
- `CANInterface`, `CANCorrelator`, `CANRecorder`: callback tables and timing.
- `HTTPClient`: driven by sockets.
- USB enumeration, hubs, device reset, and the error and disconnect paths of the serial port.
- Sensor drivers, SPI, I2C, watchdog, networking stacks, debug output, and the tools under `tools`.
