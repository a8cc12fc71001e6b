# Verified models of four course projects

A Dafny project that models the hard parts of this repository and proves what they promise, for every input and every run.

1. **TFTP read session** (`ECEN602/assignment3/tftps.c`, RFC 1350). `TftpServer.ReadSession` is the session as the server keeps it: fields and a 512-byte buffer updated in place, the fill loop with its one-character carry, the event loop. It is proved equal, step by step, to the value model in `TftpProtocol`, and that model is composed with an RFC 1350 client over two networks: a lossy lock-step channel, and one that may also delay, duplicate and reorder.
2. **IR receiver** (`ECEN749/lab8/src`). `IrDecode` is the pulse counter, classifier and frame assembler, clock by clock; `IrDevice` adds the AXI4-Lite slave, the control register and the interrupt; `IrHandler` is the interrupt handler's bus traffic and `IrPeripheral` the registers as a clocked object; `MsgQueue`, `IrDriverModel` and `IrDriver` are the driver's circular queue, interrupt handler and read call; `IrPipeline` joins all of them, from the infrared signal over interrupt line and bus to the reader's buffer.
3. **Proxy page cache** (`ECEN602/assignment4`). `QueryCache.Cache` is the doubly linked list on the heap, `QueryCache.Proxy` the request path; `CacheModel` is the bounded newest-first sequence they refine, with an unbounded order-of-last-fetch as the independent reference, and `CacheLru` compares it with the least-recently-used policy. `HeaderStrip` is the loop that sends a stored page without its header, `PageStore` the files behind the cache.
4. **Image arithmetic** (`CSCE646`). `Projective` (matrix inverse and warp), `LagrangeCubic`, `PiecewiseLinear` and `Erosion`, with `double` taken as exact `real`.

`dafny verify dfyconfig.toml` checks the whole project.

## Where the code departs from what it is for

The model follows the code. Each departure below is proved, with the exact condition under which the code does what it is for.

- `tftps.c:226-235` sends 512 bytes as the first octet block, whatever was read: an octet transfer offers the file itself exactly when the file has at least 512 bytes (`OctetStreamExact`). Otherwise old buffer contents follow it, up to 512 bytes.
- `tftps.c:290-292` keeps `getc` in a `char` (signed, as on x86): the netascii stream decodes to the file exactly when the file holds no 0xFF byte (`NetasciiStreamExact`).
- `tftps.c:647` never compares the ACK number: on a duplicating network copies of the first ACK end a session early, so a normal end of the server tells that the client is done exactly for one-block streams (`NormalEndMeansDoneExactly`). In lock step a normal end implies complete delivery (`Delivery`), past block 65535 too. On any network the bytes delivered are right exactly when the stream has at most 65536 blocks (`CorrectOnAnyNetwork`).
- `msg_queue.h:115` reads `head_idx + 1` without wrapping: every capacity-th message is foreign memory, so a reader is served correctly exactly while fewer messages than the capacity have been read (`ReadsCorrectlyExactly`).
- `query_cache.cpp:47-50` cuts the list after the tenth node, which is right, and then deletes that tenth node instead of the one cut off: the list keeps the right shape and contents but ends in deleted memory exactly when it was full (`Enqueue`, `HandleRequest`), so a run is safe exactly when it asks for at most ten different pages (`NeverEvictsExactly`, `ServeAll`). `Cache.repaired` selects the code as written (`false`) or the evident intent (`true`), under which every run is safe.
- A hit does not move its entry (`query_cache.cpp:100-103`), so the order is that of the last fetch (`CacheIsTenMostRecent`), not of the last use as `query_cache.cpp:35` and `query_cache.h:42` say. The cache is the least-recently-used one throughout a run exactly when every page served from it is the one fetched last (`LruExactly`); fetching two pages and using the first again is the shortest run in which it is not (`UseDoesNotMove`).
- `proxy.cpp:131-133` and `179-181` turn slashes into underscores, so two pages can share a file: visitors of a set of pages are always sent the page they ask for exactly when no two of those pages have the same file name (`OwnPagesExactly`).
- `ir_demod_v2_0_S00_AXI.v:401` gives `pulse_idx` no reset: words are published exactly after START and twelve bits if and only if it does not power up as a bit position (`PowerUpIndexMatters`). A register without reset is modelled as Verilog has it, unknown until first written.
- `ir_demod_v2_0_S00_AXI.v:452-502` gives `slv_reg1` no reset either, and a change from unknown raises no interrupt: a word interrupts exactly when the count was known (`FrameInterrupts`), so after such a power-up exactly the first word never reaches the driver (`PowerUpLosesFirstWord`). A configuration that starts the register at 0 is the known case, in which no word is lost (`AllWordsAcceptedExactly`).
- `ir_dev.c:206` waits on bit 15 of slv_reg2 where bit 31 is the interrupt's copy. The loop always ends with its first poll, and by then the line is low, so no harm is done (`HandlerServes`).
- `ir_dev.c:155-168` takes the length of a read, in bytes by the convention of `read`, as a number of messages of two bytes each, and returns messages; its own test program relies on that. What it writes fits the length in bytes exactly when the length is 0 or at least twice the messages queued (`DeviceRead`).
- An AXI write or read accepted over a waiting response loses a response (`TransactionsConserved`, `EagerMasterLosesResponse`).

## Model

| member | source | states |
|---|---|---|
| Netascii.EncodeOne | ECEN602/assignment3/tftps.c:300-316 | byte 10 goes out as 13 10, byte 13 as 13 0, every other byte as itself |
| Netascii.EncodeConcat | ECEN602/assignment3/tftps.c:281-318 | a file is encoded piece by piece, so byte by byte |
| Netascii.DecodeAfterEncode | ECEN602/assignment3/tftps.c:300-316 | the encoding LF to CR LF, CR to CR NUL is undone by the receiver's decoding, for every byte string |
| Netascii.EncodeAfterDecode | ECEN602/assignment3/tftps.c:689-701 | the decoding accepts nothing but encodings, so the two are inverse bijections |
| Netascii.EncodeInjective | ECEN602/assignment3/tftps.c:689-701 | different files have different encodings |
| Netascii.UpToEofIsWholeFile | ECEN602/assignment3/tftps.c:290-298 | the reader sees the file up to its first 0xFF byte, all of it if and only if there is none |
| TftpProtocol.DataPacketParses | ECEN602/assignment3/tftps.c:708-715 | bytes 0 3, the number as two big-endian bytes, the payload |
| TftpProtocol.AckPacketParses | ECEN602/assignment3/tftps.c:578-595 | bytes 0 4 and the number as two big-endian bytes |
| TftpProtocol.AccessViolationReads | ECEN602/assignment3/tftps.c:501-505 | the error packet: 0 5, code 0, the text |
| TftpProtocol.BlocksTileStream | ECEN602/assignment3/tftps.c:653-665 | len/512+1 blocks, all but the last of 512 bytes, the last shorter (empty on exact multiples), concatenating to the stream |
| TftpProtocol.OctetStreamExact | ECEN602/assignment3/tftps.c:226-246 | an octet session offers the file, then for a file shorter than 512 bytes the buffer's bytes behind it up to 512; the file itself if and only if it has at least 512 bytes |
| TftpProtocol.NetasciiStreamExact | ECEN602/assignment3/tftps.c:290-316 | a netascii session's stream decodes to the file up to its first 0xFF, to the file if and only if there is none |
| TftpProtocol.AckAdvances | ECEN602/assignment3/tftps.c:648-731 | from the state at block i an ACK sends block i+1 of the reference framing under (i+1) mod 65536, or ends the session after the last |
| TftpProtocol.OtherEventsStay | ECEN602/assignment3/tftps.c:433-454 | timeouts and other packets never move the session to another block; which of them end it |
| TftpProtocol.LiveStateDependsOnAcks | ECEN602/assignment3/tftps.c:430-731 | after any events a live session holds block 1 + (number of ACKs), in closed form |
| TftpProtocol.SentPacketsAreBlocks | ECEN602/assignment3/tftps.c:433-731 | over any run every packet sent is a block of the stream with its own number (a retransmission byte for byte), or the final access violation after a DATA packet |
| TftpProtocol.AckedRunSendsEveryBlock | ECEN602/assignment3/tftps.c:648-727 | one ACK per block sends blocks 1 to the last, each once, in order |
| TftpProtocol.SessionEnds | ECEN602/assignment3/tftps.c:430-454 | a session of B blocks that gets only DATA, ACK, ERROR and timeouts ends within 10*B iterations |
| TftpProtocol.SessionBoundIsTight | ECEN602/assignment3/tftps.c:443-453 | some schedule takes exactly 10*B iterations |
| TftpProtocol.UnrecognisedPacketsNeverEndIt | ECEN602/assignment3/tftps.c:486-490 | packets of other kinds reset the counter and keep a session alive for any number of iterations |
| TftpProtocol.EndsExactly | ECEN602/assignment3/tftps.c:430-490 | a bound on the session exists if and only if no packets but DATA, ACK and ERROR can arrive, and 10*B is one |
| TftpServer.TextFromIsEncoding | ECEN602/assignment3/tftps.c:281-316 | reading on from a position yields the encoding of the rest of the file |
| TftpServer.RemainingStep | ECEN602/assignment3/tftps.c:300-318 | a character read sends its first encoded byte and leaves exactly the second in nextch |
| TftpServer.ReadSession.constructor | ECEN602/assignment3/tftps.c:205-337 | a read request leaves the session at block 1 of the stream, in both modes |
| TftpServer.ReadSession.FirstOctetBlock | ECEN602/assignment3/tftps.c:226-246 | the file is read into the front of the buffer, the rest of the buffer stays, and 512 bytes of it are the first block |
| TftpServer.ReadSession.NextChar | ECEN602/assignment3/tftps.c:283-316 | yields the next byte of the pending stream and leaves the rest pending; none exactly when nothing is pending |
| TftpServer.ReadSession.PutNextChar | ECEN602/assignment3/tftps.c:668-705 | one pass of the fill loop extends the filled prefix of the stream by one byte, or finds the end |
| TftpServer.ReadSession.FillNetascii | ECEN602/assignment3/tftps.c:668-706 | fills the buffer with the next min(512, left) bytes of the stream even when a pair straddles the boundary; stop_flag exactly when fewer than 512 |
| TftpServer.ReadSession.FillBlock | ECEN602/assignment3/tftps.c:650-706 | the same for either mode |
| TftpServer.ReadSession.ReadFile | ECEN602/assignment3/tftps.c:653-665 | a read of up to 512 bytes, leaving the rest of the buffer as it was |
| TftpServer.ReadSession.SendNextBlock | ECEN602/assignment3/tftps.c:648-727 | the ACK branch refines the model's next block |
| TftpServer.ReadSession.HandlePacket | ECEN602/assignment3/tftps.c:486-748 | the packet branches refine the model's step, state and packets sent |
| TftpServer.ReadSession.Handle | ECEN602/assignment3/tftps.c:430-751 | one iteration refines the model's step, state and packets sent |
| TftpServer.ReadSession.Serve | ECEN602/assignment3/tftps.c:430-751 | the loop over any events refines the model's run, its packet log and its iteration count |
| TftpClient.ReceiveBlock | ECEN602/assignment3/tftps.c:613-647 | which blocks a client takes and re-acknowledges when it compares numbers mod 65536 (section 2 of RFC 1350) |
| TftpLockStep.ActKeepsInv | ECEN602/assignment3/tftps.c:433-731 | every step of server, client and lossy channel keeps: the client holds exactly the first i-1 or i blocks |
| TftpLockStep.Delivery | ECEN602/assignment3/tftps.c:433-731 | over any losses and for streams of any length: the client's bytes are a prefix of the stream, equal to it after the short block, and the server never ends normally before that |
| TftpLockStep.Progress | ECEN602/assignment3/tftps.c:433-731 | from every reachable live state with a retransmission left the transfer can still complete without further loss |
| TftpLockStep.FileDelivered | ECEN602/assignment3/tftps.c:226-316 | a finished octet transfer starts with the file and is it if and only if it has at least 512 bytes; a finished netascii transfer decodes to the file up to its first 0xFF, to all of it if and only if there is none |
| TftpAnyNetwork.DoKeepsInv | ECEN602/assignment3/tftps.c:433-731 | with at most 65536 blocks, every delivery in any order, any number of times, keeps the client on the stream |
| TftpAnyNetwork.LateCopyIsTaken | ECEN602/assignment3/tftps.c:709-714 | with more blocks a run exists in which the client's bytes are no prefix of the stream |
| TftpAnyNetwork.CorrectOnAnyNetwork | ECEN602/assignment3/tftps.c:613-731 | delivery is correct on every network behaviour if and only if the stream has at most 65536 blocks |
| TftpAnyNetwork.NormalEndMeansDoneExactly | ECEN602/assignment3/tftps.c:647-731 | over every network behaviour a normal end of the server implies that the client has everything if and only if the stream has one block |
| IrDecode.ClocksDecode | ECEN749/lab8/src/ir_demod_v2_0_S00_AXI.v:406-476 | for every waveform the clocked registers hold what the reference decoding of its pulse widths says |
| IrDecode.WaveDecodes | ECEN749/lab8/src/ir_demod_v2_0_S00_AXI.v:419-430 | pulses inside the windows, one clock wider than the counter's, decode to their classes |
| IrDecode.WindowsExactly | ECEN749/lab8/src/ir_demod_v2_0_S00_AXI.v:419-430 | for every width, wrapped to 32 bits, the class is the one whose window holds it, and OTHER if and only if none does |
| IrDecode.WaveDecodesAny | ECEN749/lab8/src/ir_demod_v2_0_S00_AXI.v:406-432 | a waveform of pulses of any widths decodes to their classes |
| IrDecode.FrameMsbFirst | ECEN749/lab8/src/ir_demod_v2_0_S00_AXI.v:441-462 | bits go out most significant first: pulse 1+i is long if and only if bit 11-i of the word is set |
| IrDecode.ThirteenPulsesExactly | ECEN749/lab8/src/ir_demod_v2_0_S00_AXI.v:406-476 | thirteen pulses of any widths at a decoder outside a frame write slv_reg0 and slv_reg1 if and only if START and twelve bits all lie in their windows, and then with that word; one pulse outside leaves both alone |
| IrDecode.OpenFrameState | ECEN749/lab8/src/ir_demod_v2_0_S00_AXI.v:434-460 | while a frame is unbroken, pulse_idx and temp_reg0 hold its first min(k, 11) bits |
| IrDecode.PublishedExactly | ECEN749/lab8/src/ir_demod_v2_0_S00_AXI.v:434-476 | over every pulse history the registers are written exactly when 12 or more bits followed the latest START unbroken, with the first eleven bits and the newest |
| IrDecode.Reg1CountsFrames | ECEN749/lab8/src/ir_demod_v2_0_S00_AXI.v:448-469 | slv_reg1, unknown or 0 at power-up, counts the published words mod 2^32 |
| IrDecode.PowerUpIndexMatters | ECEN749/lab8/src/ir_demod_v2_0_S00_AXI.v:401-476 | that rule holds if and only if pulse_idx does not start as a bit position |
| IrDecode.FrameLeavesWord | ECEN749/lab8/src/ir_demod_v2_0_S00_AXI.v:434-476 | START and the twelve bits of a word leave the word in slv_reg0, once |
| IrDecode.RoundTrip | ECEN749/lab8/src/ir_demod_v2_0_S00_AXI.v:406-476 | every waveform rendering a 12-bit word leaves slv_reg0 equal to it and slv_reg1 one higher |
| ResponseChannel.RequestsConserved | ECEN749/lab8/src/ir_demod_v2_0_S00_AXI.v:284-298 | requests accepted = responses taken + the pending one + those accepted over a waiting response |
| InterruptLatch.LevelExactly | ECEN749/lab8/src/ir_demod_v2_0_S00_AXI.v:498-504 | the latch is high if and only if raised (or high at the start) and not cleared since |
| IrDevice.BusIsTwoChannels | ECEN749/lab8/src/ir_demod_v2_0_S00_AXI.v:275-361 | over every run BVALID and RVALID are two instances of the response channel |
| IrDevice.TransactionsConserved | ECEN749/lab8/src/ir_demod_v2_0_S00_AXI.v:275-361 | over every run accepted = completed + pending, for writes and for reads, if and only if nothing was accepted over a waiting response |
| IrDevice.EagerMasterLosesResponse | ECEN749/lab8/src/ir_demod_v2_0_S00_AXI.v:284-298 | four clocks in which two accepted writes leave one response |
| IrDevice.PatientMasterConserves | ECEN749/lab8/src/ir_demod_v2_0_S00_AXI.v:275-361 | a master that offers nothing while a response waits loses nothing over any run |
| IrDevice.WriteResponseHeld | ECEN749/lab8/src/ir_demod_v2_0_S00_AXI.v:284-298 | over every run without reset BVALID, once high, stays high until BREADY |
| IrDevice.ReadResponseHeld | ECEN749/lab8/src/ir_demod_v2_0_S00_AXI.v:349-359 | over every run without reset RVALID, once high, stays high until RREADY |
| IrDevice.ReadyTogether | ECEN749/lab8/src/ir_demod_v2_0_S00_AXI.v:137-206 | awready equals wready in every state after reset |
| IrDevice.ReadReturnsAcceptedValue | ECEN749/lab8/src/ir_demod_v2_0_S00_AXI.v:340-396 | a read delivers the register's value of the accepting clock, and holds it until taken |
| IrDevice.ReadAnswersOffer | ECEN749/lab8/src/ir_demod_v2_0_S00_AXI.v:309-396 | over every run an accepted read answers with the register at the address offered a clock earlier, and holds it until taken |
| IrDevice.RegisterMap | ECEN749/lab8/src/ir_demod_v2_0_S00_AXI.v:367-377 | addresses 0-3 are slv_reg0, 4-7 slv_reg1, 8-11 slv_reg2 bit by bit, repeating every sixteen |
| IrDevice.ControlHoldsLastWritten | ECEN749/lab8/src/ir_demod_v2_0_S00_AXI.v:478-497 | over every run each low byte of slv_reg2 holds the data of the last accepted write to 8-11 with its lane strobed, 0 from a later reset, or its old value; nothing else changes it |
| IrDevice.InterruptExactly | ECEN749/lab8/src/ir_demod_v2_0_S00_AXI.v:478-506 | over every run IR_interrupt is high if and only if slv_reg1 was seen to change (or it was high at the start) with no acknowledge bit or reset at or since that clock |
| IrDevice.StatusBitFollowsInterrupt | ECEN749/lab8/src/ir_demod_v2_0_S00_AXI.v:484-497 | after every run bit 31 of slv_reg2 is high if and only if the line was raised and not cleared by the clock before the last, whatever the bus wrote |
| IrDevice.AcknowledgeClears | ECEN749/lab8/src/ir_demod_v2_0_S00_AXI.v:486-500 | a write that sets bit 0 drops the line at the next clock, before any second write can undo it |
| IrDevice.DemodIgnoresBus | ECEN749/lab8/src/ir_demod_v2_0_S00_AXI.v:406-476 | bus traffic never changes what is decoded |
| IrDevice.CountChangeRaises | ECEN749/lab8/src/ir_demod_v2_0_S00_AXI.v:484-505 | without acknowledge or reset a high line stays high, and any change of a known slv_reg1 leaves it high |
| IrDevice.FrameInterrupts | ECEN749/lab8/src/ir_demod_v2_0_S00_AXI.v:406-506 | a rendered word under any unacknowledging bus traffic ends in slv_reg0 with slv_reg1 one higher, and the line is then high if and only if it was before or slv_reg1 was known |
| IrDevice.FirstWordAfterPowerUp | ECEN749/lab8/src/ir_demod_v2_0_S00_AXI.v:448-504 | from power-up through reset the first word, whatever it is, is published without an interrupt, and any next one interrupts |
| IrDecode.CountDuringFrame | ECEN749/lab8/src/ir_demod_v2_0_S00_AXI.v:441-470 | in every clock of a rendered word slv_reg1 holds the count before it or the count after it |
| IrDecode.RegistersHeldDuringFrame | ECEN749/lab8/src/ir_demod_v2_0_S00_AXI.v:434-476 | until the thirteenth pulse of a rendered word ends, slv_reg0 and slv_reg1 keep their values |
| IrHandler.ReadRuns | ECEN749/lab8/src/ir_demod_v2_0_S00_AXI.v:309-396 | a whole bus read, with any signal that publishes nothing meanwhile, returns the addressed register and disturbs nothing |
| IrHandler.WriteRuns | ECEN749/lab8/src/ir_demod_v2_0_S00_AXI.v:486-500 | a whole 16-bit write, likewise, replaces the low half of slv_reg2, and one with bit 0 set drops the line |
| IrHandler.HandlerTraffic | ECEN749/lab8/src/ir_dev.c:200-207 | all the handler puts on the bus: read 0, write 1 to 8, read 8, write 0 to 8 |
| IrHandler.HandlerServes | ECEN749/lab8/src/ir_dev.c:200-207 | with any idle clocks between its accesses and any signal that publishes nothing meanwhile, the handler gets slv_reg0, its wait loop on bit 15 ends with the first poll, and the line is left low with the next interrupt free |
| IrHandler.PairRuns | ECEN749/lab8/src/ir_dev.c:200-207 | either half of the handler: idle clocks, a read, idle clocks, a write |
| IrHandler.FrameAtReadyDevice | ECEN749/lab8/src/ir_demod_v2_0_S00_AXI.v:406-506 | a word arriving at a ready device interrupts if and only if slv_reg1 was known |
| IrHandler.FrameWhileServing | ECEN749/lab8/src/ir_dev.c:200-207 | a word arriving while the handler serves the one before, and is done before its thirteenth pulse ends: the handler gets the old word and the new one interrupts |
| IrHandler.PauseWhileServing | ECEN749/lab8/src/ir_dev.c:200-207 | a pause that holds the handler leaves the device ready |
| IrHandler.ResetMakesReady | ECEN749/lab8/src/ir_demod_v2_0_S00_AXI.v:406-506 | reset and an idle clock make a device ready if and only if no count change was unseen |
| IrPeripheral.Peripheral.ClockRises | ECEN749/lab8/src/ir_demod_v2_0_S00_AXI.v:137-506 | the clocked blocks run one after another come to the simultaneous update |
| IrPeripheral.Peripheral.Period | ECEN749/lab8/src/ir_demod_v2_0_S00_AXI.v:137-506 | one clock period refines the model's step |
| IrPeripheral.Peripheral.Operate | ECEN749/lab8/src/ir_demod_v2_0_S00_AXI.v:137-506 | any number of clocks refines the model's run; interrupt level and transaction conservation, both if and only if |
| IrPeripheral.Peripheral.IdleTo | ECEN749/lab8/src/ir_demod_v2_0_S00_AXI.v:137-506 | clocks without bus traffic move the device along the model's run |
| IrPeripheral.Peripheral.IoRead32 | ECEN749/lab8/src/ir_dev.c:200-206 | a bus read by clocks moves the device along the model's run and returns the addressed register if nothing is published meanwhile |
| IrPeripheral.Peripheral.IoWrite16 | ECEN749/lab8/src/ir_dev.c:205-207 | a bus write by clocks, likewise; what it leaves in slv_reg2 and of the line |
| MsgQueue.Queue.constructor | ECEN749/lab8/src/msg_queue.h:23-31 | an empty queue over an array of its own length, usable if and only if the capacity fits that length |
| MsgQueue.Queue.IsFull | ECEN749/lab8/src/msg_queue.h:45-55 | full exactly when capacity messages wait |
| MsgQueue.Queue.Enqueue | ECEN749/lab8/src/msg_queue.h:93-106 | appends to the FIFO, or returns -1 and changes nothing when full |
| MsgQueue.Queue.Dequeue | ECEN749/lab8/src/msg_queue.h:108-124 | removes the oldest message; hands it out unless head_idx is the last position, and then what lies past the queue |
| MsgQueue.ReadsPastExactly | ECEN749/lab8/src/msg_queue.h:115-116 | dequeue number t, from 0, reads past the queue if and only if t+1 is a multiple of the capacity |
| IrDriverModel.RecombineSplit | ECEN749/lab8/src/ir_dev.c:200-202 | the reader's word from the two bytes is the low 12 bits of the register |
| IrDriverModel.FramesConserved | ECEN749/lab8/src/ir_dev.c:155-202 | over every interleaving accepted = taken + queued in order, interrupts = accepted + dropped, and the reader has the taken messages except each capacity-th |
| IrDriverModel.DroppedOnlyWhenFull | ECEN749/lab8/src/ir_dev.c:155-202 | over every interleaving all frames are accepted in order if and only if no interrupt found the queue full |
| IrDriverModel.ReaderGetsAcceptedFrames | ECEN749/lab8/src/ir_dev.c:155-170 | the i-th message read is the i-th accepted frame unless i+1 is a multiple of the capacity |
| IrDriverModel.LaterReadIsForeign | ECEN749/lab8/src/msg_queue.h:115-116 | the capacity-th message read is foreign memory |
| IrDriverModel.ReadsCorrectlyExactly | ECEN749/lab8/src/msg_queue.h:108-124 | reads are right whatever lies past the queue if and only if fewer than capacity messages were read |
| IrDriver.CharDevice.constructor | ECEN749/lab8/src/ir_dev.c:74-107 | an opened device is the model's initial state |
| IrDriver.CharDevice.IrqHandler | ECEN749/lab8/src/ir_dev.c:191-202 | appends the split frame, or drops it if and only if the queue is full; refines the model's interrupt event |
| IrDriver.CharDevice.ReadOne | ECEN749/lab8/src/ir_dev.c:155-167 | one pass of the read loop turns one dequeued message into two bytes, low first |
| IrDriver.CharDevice.DeviceRead | ECEN749/lab8/src/ir_dev.c:155-174 | refines the model's read event; the buffer holds min(length, queued) messages, low byte first; its bytes fit length if and only if length is 0 or at least twice the messages queued |
| IrDriver.CharDevice.HandleEvent | ECEN749/lab8/src/ir_dev.c:131-202 | either event, with the bytes it adds |
| IrDriver.CharDevice.Serve | ECEN749/lab8/src/ir_dev.c:131-202 | any interleaving refines the model's run, and the bytes read are those of its output |
| IrPipeline.SignalPathIsTransparent | ECEN749/lab8/src/ir_dev.c:191-207 | for every mix of words, pauses and reads, wherever the handler's accesses fall in the signal, decoder, interrupt line, bus and handler hand the driver exactly the words heard (all, but for the first when slv_reg1 was unknown), the last one possibly still waiting |
| IrPipeline.HandOverBringsHeard | ECEN749/lab8/src/ir_dev.c:191-207 | the words handed over and then the one waiting are the words heard, in order |
| IrPipeline.ReaderGetsWordsSent | ECEN749/lab8/src/ir_dev.c:155-207 | from signal to user buffer: word i of the buffer is the i-th accepted word, or foreign memory when i+1 is a multiple of the capacity |
| IrPipeline.AcceptedAreHeard | ECEN749/lab8/src/ir_dev.c:191-207 | the accepted words and then the one waiting are the words heard if and only if none found the queue full, and heard = accepted + dropped + waiting |
| IrPipeline.AllWordsAcceptedExactly | ECEN749/lab8/src/ir_dev.c:191-207 | every word sent is accepted in order (the last may wait) if and only if slv_reg1 was known (or nothing sent) and no word found the queue full |
| IrPipeline.PowerUpLosesFirstWord | ECEN749/lab8/src/ir_demod_v2_0_S00_AXI.v:448-504 | after power-up with slv_reg1 unknown exactly the first word sent is lost before the driver |
| IrPipeline.Board.IrqHandler | ECEN749/lab8/src/ir_dev.c:191-211 | the handler with its bus accesses spread over a signal moves device and driver as in the model |
| IrPipeline.Board.RunAll | ECEN749/lab8/src/ir_dev.c:131-211 | device and driver on the heap, over any mix of words, pauses and reads, deliver the bytes of the model's run |
| CacheModel.CacheIsTenMostRecent | ECEN602/assignment4/query_cache.cpp:9-108 | after every run the cache is the ten most recently fetched pages, latest first, each once |
| CacheModel.PositionInRecent | ECEN602/assignment4/query_cache.cpp:28-37 | in that order an entry stands behind exactly the pages fetched after it |
| CacheModel.ServedFromCacheExactly | ECEN602/assignment4/proxy.cpp:75-82 | a request is served without a fetch if and only if its page was fetched, fewer than ten other pages since, and it has not expired |
| CacheModel.AnsweredExactly | ECEN602/assignment4/query_cache.cpp:72-108 | for every run and request, on the requests alone: served from the cache if and only if the latest fetch of its page was followed by fetches of fewer than ten other pages and the expiry then given has not passed; a conditional GET if and only if it has; a plain GET otherwise |
| CacheModel.RefreshTruncates | ECEN602/assignment4/query_cache.cpp:28-54 | cutting to ten before or after a fetch comes to the same |
| CacheModel.RequestFacts | ECEN602/assignment4/proxy.cpp:237-328 | flag 0 implies the key is present, so no conditional GET; after flag 1 or 2 it is absent before the enqueue |
| CacheModel.RequestedAreFetched | ECEN602/assignment4/proxy.cpp:74-82 | the pages fetched in a run are exactly the pages asked for |
| CacheModel.NeverEvictsExactly | ECEN602/assignment4/query_cache.cpp:34-54 | a run evicts nothing if and only if it asks for at most ten different pages |
| CacheLru.LruIsTenMostRecentlyUsed | ECEN602/assignment4/query_cache.cpp:35-52 | the least-recently-used policy the comments name is the ten pages used last, latest use first |
| CacheLru.LruExactly | ECEN602/assignment4/query_cache.cpp:72-108 | over every run the cache is the LRU cache after each request if and only if every page served from it is the one fetched last |
| CacheLru.UseDoesNotMove | ECEN602/assignment4/query_cache.cpp:100-103 | fetch A, fetch B, use A: the code leaves B in front, LRU has A |
| QueryCache.Cache.constructor | ECEN602/assignment4/query_cache.cpp:4-7 | an empty valid list |
| QueryCache.Cache.Push | ECEN602/assignment4/query_cache.cpp:23-34 | prepends a node, keeping the list acyclic with next and prev inverse |
| QueryCache.Cache.Enqueue | ECEN602/assignment4/query_cache.cpp:9-38 | contents become the entry and the old contents cut to ten; no reachable node is deleted if and only if the list was not full or the deletion is repaired |
| QueryCache.Cache.Dequeue | ECEN602/assignment4/query_cache.cpp:40-54 | cuts the list to ten nodes; which node is deleted |
| QueryCache.Cache.Search | ECEN602/assignment4/query_cache.cpp:57-69 | the first node with the key, or none |
| QueryCache.Cache.Bypass | ECEN602/assignment4/query_cache.cpp:60-63 | the neighbours of a node are joined, all other links stay |
| QueryCache.Cache.Unlink | ECEN602/assignment4/query_cache.cpp:60-65 | removes exactly that node, keeping the list well linked |
| QueryCache.Cache.Extract | ECEN602/assignment4/query_cache.cpp:93-97 | the other entries stay, in order |
| QueryCache.Cache.Remove | ECEN602/assignment4/query_cache.cpp:55-70 | deletes the entry with the key, if any |
| QueryCache.Cache.CheckCache | ECEN602/assignment4/query_cache.cpp:72-108 | the three flags; an expired entry leaves the list |
| QueryCache.Cache.IsCacheExist | ECEN602/assignment4/query_cache.cpp:111-118 | true exactly when the key is cached |
| QueryCache.Proxy.HandleRequest | ECEN602/assignment4/proxy.cpp:74-82 | answer and cache as in the model, no key twice; the cache stays usable if and only if nothing is evicted or the deletion is repaired |
| QueryCache.Proxy.GetRequestPage | ECEN602/assignment4/proxy.cpp:250-329 | hit, plain GET or conditional GET by flag |
| QueryCache.Proxy.ReceiveFromServer | ECEN602/assignment4/proxy.cpp:225-244 | a fetch puts the page with the expiry it was answered with in front, exactly once |
| QueryCache.Proxy.ServeAll | ECEN602/assignment4/proxy.cpp:43-92 | every run refines the model's run and answers up to its first unsafe request, and is safe throughout if and only if the deletion is repaired or at most ten different pages are asked for |
| HeaderStrip.SendToClient | ECEN602/assignment4/proxy.cpp:138-164 | sends exactly the bytes after the first CR LF CR LF, later ones included, and nothing when there is none |
| HeaderStrip.StripRecoversBody | ECEN602/assignment4/proxy.cpp:145-163 | what is sent of header, blank line and body is the body if and only if no blank line ends inside the header |
| HeaderStrip.NoBlankLineNothingSent | ECEN602/assignment4/proxy.cpp:138-164 | nothing is sent of a file without CR LF CR LF |
| PageStore.RmSpace | ECEN602/assignment4/proxy.cpp:331-339 | the characters other than spaces move to the front of the buffer, in order |
| PageStore.NoSpacesExactly | ECEN602/assignment4/proxy.cpp:331-339 | no space is left, and a text stays if and only if it had none |
| PageStore.SpaceMakesNoDifference | ECEN602/assignment4/proxy.cpp:331-339 | a space more or less in the text makes no difference |
| PageStore.FileNameOf | ECEN602/assignment4/proxy.cpp:172-183 | the file name of a page: address and resource with slashes as underscores and no spaces |
| PageStore.FileNameExactly | ECEN602/assignment4/proxy.cpp:118-135 | the name of a page without spaces is the address, then the resource character by character with an underscore for each slash |
| PageStore.FileNameIgnoresSpaces | ECEN602/assignment4/proxy.cpp:134-135 | the name holds no space and is that of the page with its spaces removed |
| PageStore.SameFileExactly | ECEN602/assignment4/proxy.cpp:131-133 | two pages of one address share a file if and only if they agree up to slash and underscore |
| PageStore.OwnFileExactly | ECEN602/assignment4/proxy.cpp:237-244 | the file of a stored page holds its own latest response if and only if no other page with the same file name was stored since; otherwise that of such a page |
| PageStore.OwnPagesExactly | ECEN602/assignment4/proxy.cpp:118-165 | over all runs among a set of pages everyone is sent the page asked for if and only if no two of them share a file name |
| PageStore.SharedNameSendsOtherPage | ECEN602/assignment4/proxy.cpp:131-136 | fetch A, fetch B, ask for A: with equal file names the hit is sent B's page |
| PageStore.SlashAndUnderscoreClash | ECEN602/assignment4/proxy.cpp:131-133 | a slash and an underscore in the same place give the same file name |
| PageStore.Server.Answer | ECEN602/assignment4/proxy.cpp:237-285 | one request moves cache and files as in the model, a 304 keeping the old file, and sends the file without its header |
| PageStore.ReplyExactly | ECEN602/assignment4/proxy.cpp:237-244 | a fetch that brings a response keeps and sends that response; a 304 or a hit sends the file as it was |
| PageStore.OneMoreVisit | ECEN602/assignment4/proxy.cpp:74-82 | those moves, visit by visit, make up the run |
| Projective.InverseTwoSided | CSCE646/pr07/myppm.h:387-416 | the computed matrix is a left and right inverse for every nonzero determinant |
| Projective.InvMatrix | CSCE646/pr07/myppm.h:395-416 | the array written is that inverse, also when input and output are the same array |
| Projective.WarpExactly | CSCE646/pr07/myppm.h:261-266 | in the array's numbers: the matrix applied to (x, y, 1) is the warped point scaled by the denominator |
| Projective.WarpCompose | CSCE646/pr07/myppm.h:261-266 | two warps are the warp of the product, denominators included |
| Projective.InverseWarpUndoes | CSCE646/pr07/myppm.h:286-291 | the inverse warp returns the original point wherever the forward warp is defined; its denominator cannot vanish |
| Projective.ForwardWarpUndoes | CSCE646/pr07/myppm.h:261-291 | and conversely |
| LagrangeCubic.Interpolate | CSCE646/pr03/myppm.h:145-154 | the double loop computes the Lagrange sum |
| LagrangeCubic.CubicCurve | CSCE646/pr03/myppm.h:143-158 | every entry i is 255 times the value at i/255 of any cubic through the control points, its fraction dropped |
| LagrangeCubic.LagrangeIsWeighted | CSCE646/pr03/myppm.h:146-154 | the sum is the weighted sum of the four basis polynomials |
| LagrangeCubic.LoopEqualsEveryCubic | CSCE646/pr03/myppm.h:145-154 | it equals every polynomial of degree at most 3 through the four points, at every argument |
| LagrangeCubic.CubicExists | CSCE646/pr03/myppm.h:143-154 | such a polynomial exists |
| LagrangeCubic.CurveHitsKnots | CSCE646/pr03/myppm.h:143-154 | the curve passes through its control points |
| LagrangeCubic.OrderDoesNotMatter | CSCE646/pr03/myppm.h:143-154 | it does not depend on their order |
| PiecewiseLinear.StartIsCeiling | CSCE646/pr03/myppm.h:122-125 | segment i starts at index 255*i/n rounded up |
| PiecewiseLinear.Boundary | CSCE646/pr03/myppm.h:123-125 | the loop's comparison with a real boundary is the comparison with that index |
| PiecewiseLinear.FillSegment | CSCE646/pr03/myppm.h:125-129 | the inner loop fills exactly its segment and leaves every other entry alone |
| ToneTable.TruncatedDropsFraction | CSCE646/pr03/myppm.h:126 | the conversion to int moves a real less than one towards zero, to a whole number |
| PiecewiseLinear.PiecewiseLinearSingle | CSCE646/pr03/myppm.h:109-134 | every entry 0..255 holds the truncated interpolant of the segment that covers it |
| PiecewiseLinear.EntryExactly | CSCE646/pr03/myppm.h:121-131 | entry j, for every segment j/255 falls in: 255 times the straight line between the segment's knots there, its fraction dropped |
| PiecewiseLinear.KnotEntry | CSCE646/pr03/myppm.h:121-131 | at a knot, 255 times the knot's level, its fraction dropped |
| PiecewiseLinear.TableMonotone | CSCE646/pr03/myppm.h:121-131 | nondecreasing knots in [0,1] give a nondecreasing table within 0..255 |
| Erosion.SinglePixel | CSCE646/pr05/myppm.h:314-347 | each channel is the minimum over the selected window cells, or 255 when none is |
| Erosion.Dilation | CSCE646/pr05/myppm.h:442-464 | interior pixels are eroded with their own mask, border pixels keep their value |
| Erosion.DilatePicture | CSCE646/pr05/myppm.h:82-98 | with the second map filled as the picture is read, interior pixels are eroded and border pixels keep the input |
| Erosion.ErosionIsLocalMinimum | CSCE646/pr05/myppm.h:321-331 | the window cells are the pixels around: each of red, green and blue is at most that of every selected pixel, and attained (or 255 when none is selected) |
| Erosion.FullPassExactly | CSCE646/pr04/myppm.h:203-213 | the full-window pass, pixel by pixel, with the border in numbers |
| Erosion.IndexInRange | CSCE646/pr04/myppm.h:177-183 | every window index lies in the image |
| Erosion.MonotoneInPicture | CSCE646/pr04/myppm.h:167-199 | a darker image erodes to a darker image |
| Erosion.AntitoneInMask | CSCE646/pr05/myppm.h:323-331 | a larger mask erodes more |
| Erosion.DirectionIsSector | CSCE646/pr05/myppm.h:447-462 | the hue ladder is sixteen sectors of 22.5 degrees, opposite ones alike |
| Erosion.KernelIsStroke | CSCE646/pr05/myppm.h:353-440 | which cells each of the eight kernel tables selects: middle row, middle column and the strokes of slope one, two and a half |
| Erosion.DirectionalPassExactly | CSCE646/pr05/myppm.h:442-464 | the directional pass, pixel by pixel: four or more from every edge the minimum over the stroke that the hue at that pixel calls for, otherwise the input |
| Erosion.StrokeSandwich | CSCE646/pr05/myppm.h:314-347 | at an interior pixel, for every hue: full-window erosion <= directional erosion <= input |
| Erosion.DirectionalSandwich | CSCE646/pr05/myppm.h:442-464 | for the whole outputs of the two passes and every hue map: full-window <= directional <= input at every pixel, border included |

## Left out

- Sockets, select, fork, signals, file opening, name resolution and clock formatting: they appear as events, as an integer time or as the contents of a file; calls that fail and exit are not modelled.
- TFTP write sessions and the error replies to bad requests: the write path stops at the first NUL and its remaining logic is easy.
- MsgQueue.Queue.Enqueue: is specified for queues that fit their array, as the driver's does; writes past the array are not modelled.
- QueryCache.Cache.Enqueue: reuse of deleted memory by a later allocation is not modelled; once a reachable node is deleted no further operation is specified.
- IrDevice.FrameInterrupts: the signal is taken to change at most once per clock, without metastability.
- IrPipeline.ReaderGetsWordsSent: a handler still at work when the next word is published is not modelled; each bus access takes three clocks, with any number of idle ones between.
- PageStore.Server.Answer: the temporary file, the parsing of responses and the sizes of C string buffers are not modelled; a failing rename or remove is not either.
- Erosion.DirectionalSandwich: is stated for window size 9, the only size the programs use.
- Floating-point rounding: `double` is exact `real` throughout.
- `piecewise_linear_RGB` passes the blue knots for the green table (`CSCE646/pr03/myppm.h:138`); only the single-channel table is modelled.
- The pixel loops of `transformation`, bilinear sampling, convolution, hue computation, the chat and echo programs, PPM reading, OpenGL display and the other labs: input/output, trigonometry or parts that would only add easy members.
