# EtherCAT master: a verified model

The master under `Dependencies/` drives a line of EtherCAT slaves. This project models its
logic in Dafny and proves what the parts promise each other, for every network, every
image size and every run. It is one Dafny project: `dafny verify dfyconfig.toml`.

| files | what they model |
|---|---|
| `Network`, `SlaveList`, `Topology`, `DistributedClocks` | The segment as a tree of slaves, each with its own clock; finding the parents from link counts alone; measuring propagation delays from unsynchronised timestamps. |
| `Mapping`, `FmmuMemory`, `FmmuTable`, `Segments`, `ProcessImage` | FMMUs for every slave, the slave memory they map, their places, packing the process image into datagram sized segments. |
| `ProcessData`, `CyclicFrames`, `LogicalNetwork`, `WorkCounter`, `CyclicExchange`, `CyclicWire` | Sending and receiving the image, the frames as built, what slaves do to the datagrams, the expected work counter, the two modes compared, and a whole cycle in bytes. |
| `Frames`, `StatusFrame` | Building frames of several datagrams in place, and reading them back. |
| `NicDriver`, `Redundancy`, `RedundantRing`, `RedundantWaiters`, `NicPort`, `Primitives` | The 16 frame buffers, replies in any order, two ports and a ring that may be cut, with one or many frames under way; the value model first, then the same in place on arrays. |
| `SdoTransfer`, `SdoUpload`, `FoeTransfer` | Service data objects (section 7.2.4.3 of CiA 301, section 5.6.2 of ETG.1000.6) and files (section 5.8 of ETG.1000.6) in segments over the mailbox. |
| `EepromCache`, `SiiDecoder` | The EEPROM cache, and the category and object lists read through it (section 5.4 of ETG.1000.6). |
| `SlaveState`, `ErrorRing` | States of all slaves by one broadcast or one by one; the ring of errors. |
| `Rs485Channel`, `Rs485Handshake` | Start-up and toggle bit handshake of an RS485 channel. |
| `Common`, `Sequences` | Shared types, constants and facts about sequences. |

Code that works in place is a class or a method on arrays, proved against functions on values
(`Poll`, `WaitRed`, `Pack`, `After`, `Split`, ...); the promises are lemmas about those functions.

## How the surroundings appear

* The network is a tree (`Network`), a list of slaves with FMMUs (`LogicalNetwork`), or a line of frame
  transformers with at most one cut (`RedundantRing`); frames are processed from the primary port to the
  secondary one and pass unprocessed on the way back. In `CyclicWire` the transformers are the slaves with FMMUs:
  each goes by the types in its registers, puts its inputs into a logical datagram and adds to the counter.
* A socket is the list of what its coming reads will find (`incoming`); a timer is the number of reads
  before it expires. Whether a socket takes a frame is a parameter, or undetermined.
* A mailbox is a function from the number of the receive call to the answer, `None` where none comes.
* The EEPROM of a slave is a function from addresses to bytes.
* A line without redundancy brings a frame back to the primary port behind all slaves.
* An RS485 terminal that is asked to initialise clears its toggle bits and neither takes nor offers blocks
  until the request is withdrawn.
* Where the code would read or write outside a buffer, a result `inside` says so and the model stops there.
* Bits of the process image are a sequence of booleans, so that bit oriented slaves are exact.
* Times are whole numbers without a limit.

## Where the code does less than it seems to promise

* Broadcast state read: INIT and PRE_OP together have the bits of BOOT (`SlaveState.BroadcastTells`, `SlaveState.MistakenForBoot`).
* A slave whose sync managers have two gaps or more gets a second FMMU that is too long, because the byte count
  runs on, and one that starts below the end of the one before is joined as if it adjoined, so that other memory
  is mapped (`FmmuMemory.RunsMapMemory`, `FmmuMemory.ThirdIsLost`, `FmmuMemory.LowerIsJoined`).
* The FMMU table of a slave has four places, and nothing looks at its end: it is left exactly when the sync
  managers call for more (`FmmuTable.Table.WriteBoth`, `FmmuTable.FiveAreTooMany`).
* When the 64 segment slots are used up, the bytes that do not fit are silently not sent (`Segments.NothingLost`,
  `Segments.NoSixtyFifth`). As long as they are enough, a frame is too long for the frame buffer exactly when
  some slave contributes more than 1490 bytes in one direction (`CyclicFrames.EveryFrameFits`).
* When clocks are used and the first frame of a cycle is lost, the next one back is read as if it were that one:
  rightly exactly when it is as long, but for the time (`CyclicWire.LostClockFrame`).
* The read command brings unmapped bits back as zero, the combined command as they were
  (`CyclicExchange.SplitRefinesCombined`, `CyclicExchange.UnmappedBitsAreCleared`).
* SDO download cuts the remaining size to 16 bits before every message, and sends four bytes for an empty
  object without complete access (`SdoTransfer.SdoClient.Write`, `SdoTransfer.LargeObjectIsCut`,
  `SdoTransfer.EmptyObjectIsFour`).
* SDO upload checks only the announced size, and as a signed number: a size from 2^31 on is taken, and segments
  that bring more than announced overrun the buffer (`SdoUpload.InsideExactly`, `SdoUpload.HugeSizeIsTaken`,
  `SdoUpload.LongSegmentOverruns`).
* FoE reading checks the length of a packet only against the room in the buffer: a length field below 6 is taken
  for a huge one, and one above the mailbox as it is; either makes it copy from behind the mailbox exactly when
  the packet is otherwise the one expected and the room is large enough (`FoeTransfer.FoeClient.Read`,
  `FoeTransfer.ClaimedIsSound`, `FoeTransfer.ShortPacketOverreads`).
* Of an empty file no packet is sent, and a BUSY answer ends a file transfer with a positive result although
  the comment in the code says that the packet is sent again (`FoeTransfer.FoeClient.Write`).
* An RS485 channel whose terminal does not withdraw its answer in time can only be recovered by configuring it
  again (`Rs485Channel.StuckForever`).
* Blocks are accepted for transmission before the channel runs; those accepted between the request to initialise
  and its withdrawal are lost. A receive signal is looked up before the control byte is cleared, and may be left
  over for one turn (`Rs485Handshake.Link.StartTurn`, `Rs485Handshake.Link.LeftOverSignal`,
  `Rs485Handshake.Link.ReadTwice`).

## Model

| member | source | states |
|---|---|---|
| Topology.DecodeLinks | Dependencies/ethercatconfig.c:407-428 | Port q is in the bitmap exactly when the two bits of the register from bit 8 + 2q on are binary 10, for each of the four ports, and the link count is the number of such ports. |
| Topology.FindParent | Dependencies/ethercatconfig.c:434-469 | The backward scan ends with the parent that the counting rule gives, a number below the slave, and zero exactly for the first slave. |
| Topology.SubtreeSinks | Dependencies/ethercatconfig.c:444-459 | Counted as the scan does, the link counts of any subtree sum to minus one, and every final part of it to less than zero: the scan passes whole subtrees and stops in none. |
| Topology.ScanFindsParent | Dependencies/ethercatconfig.c:440-469 | For every tree of slaves, listed in frame order with its link counts, the scan finds the tree parent of every slave. |
| Topology.ConfigSlave | Dependencies/ethercatconfig.c:401-469 | One round of the enumeration gives the slave its link count, ports and tree parent, and changes nothing else. |
| Topology.ConfigInit | Dependencies/ethercatconfig.c:365-469 | For every tree, reading the link status registers gives every slave its link count, its ports and its parent in the tree, always a lower number. |
| DistributedClocks.PrevPortIsCyclicPredecessor | Dependencies/ethercatdc.c:173-213 | The previous port is the first active one going back through the order 0 - 3 - 1 - 2. |
| DistributedClocks.PrevPortTime | Dependencies/ethercatdc.c:173-213 | The time latched at the previous active port is when the frame leaves through a port. |
| DistributedClocks.ParentPort | Dependencies/ethercatdc.c:216-244 | Takes the first unconsumed port of the parent in the order 3, 1, 2, 0 and removes just that port. |
| DistributedClocks.FirstOpenIsPort | Dependencies/ethercatdc.c:216-244 | When slaves are handled in frame order, the first unconsumed port of the parent is the one the slave hangs on. |
| DistributedClocks.EntryPort | Dependencies/ethercatdc.c:311-352 | The entry port is an active port with the lowest timestamp, port 0 when none is lower. |
| DistributedClocks.LatchTimes | Dependencies/ethercatdc.c:295-354 | Only the port times, the entry port and the unconsumed ports of the slave change; from the registers of a slave of the tree they are those its frame left behind. |
| DistributedClocks.DcParent | Dependencies/ethercatdc.c:356-363 | The climb goes from slave to parent over slaves without a clock only, and ends at the nearest one with a clock or at the master. |
| DistributedClocks.PropagationDelay | Dependencies/ethercatdc.c:364-409 | From the port times of two slaves with unrelated clocks: the delay of the parent plus the time up to the port plus the cable delay, exactly. |
| DistributedClocks.DelayFromParent | Dependencies/ethercatdc.c:364-409 | Takes one port of the parent and sets the delay of the slave by the formula, which gives its true arrival time when the parent is done up to this slave. |
| DistributedClocks.MeasureDelay | Dependencies/ethercatdc.c:356-410 | In a segment where all slaves have clocks the delay set is that from the tree parent; nothing is set for the first slave. |
| DistributedClocks.ChainSlave | Dependencies/ethercatdc.c:277-294 | Appends a slave to the list of slaves with clocks, which stays linked in order in both directions. |
| DistributedClocks.ClockSlave | Dependencies/ethercatdc.c:277-410 | A slave with a clock joins the list, and the slaves measured so far are one more. |
| DistributedClocks.MeasureSlave | Dependencies/ethercatdc.c:274-410 | Measuring one slave keeps everything known of the slaves before it, and adds the slave itself. |
| DistributedClocks.SkipSlave | Dependencies/ethercatdc.c:411-427 | A slave without a clock has no times; when a branch without any clock ends, the parent held for it loses its first open port and nobody else a port; the set-up and the list of clocks stay. |
| DistributedClocks.ConfigDcSlave | Dependencies/ethercatdc.c:274-428 | One round of the loop keeps the list of clocks right and what is known of the delays; a slave without a clock is skipped. |
| DistributedClocks.ConfigDcSlaves | Dependencies/ethercatdc.c:274-428 | The loop over all slaves ends with the list of clocks complete and every slave measured. |
| DistributedClocks.ConfigDc | Dependencies/ethercatdc.c:252-430 | For every tree of slaves with clocks of any offset, every propagation delay is the true arrival time of the frame minus that at the first slave; the list of clocks is right for any mixture of slaves. |
| DistributedClocks.StartUp | Dependencies/ethercatdc.c:252-430 | Enumeration followed by measurement: from the registers alone, parents and delays of every slave are those of the tree. |
| Mapping.CollectRun | Dependencies/ethercatconfig.c:1027-1055 | One pass of the search joins every sync manager that does not start above the end of the one before, counting on from the bytes counted so far. |
| Mapping.RunsReach | Dependencies/ethercatconfig.c:1024-1055 | When the sync managers below 7 provide the bits, the search collects them all before it ends. |
| Mapping.BitMapping | Dependencies/ethercatconfig.c:1058-1077 | A bit oriented slave gets exactly its bits, from the cursor on. |
| Mapping.ByteMapping | Dependencies/ethercatconfig.c:1079-1098 | A byte oriented slave gets whole bytes from the next byte boundary on, clipped to what is left of its size. |
| Mapping.PlaceFmmu | Dependencies/ethercatconfig.c:1024-1106 | One pass places one FMMU behind those before it, and either finishes the slave or gets on in its sync managers. |
| Mapping.CreateMappings | Dependencies/ethercatconfig.c:1005-1121 | The FMMUs of a slave tile one interval of the image: exactly its bits, or exactly its bytes when its sync managers cover them; they point at the runs of sync managers, are of the type for their direction, and the work counter grows by the FMMUs that count. |
| FmmuTable.Table.Write | Dependencies/ethercatconfig.c:1020-1120 | The FMMUs of one direction are written from the first unused place on, which moves behind them, and stay inside the table exactly when there is room. |
| FmmuTable.Table.WriteInputs | Dependencies/ethercatconfig.c:894-1002 | Those of the inputs start at the first free place when the slave has outputs. |
| FmmuTable.Table.WriteBoth | Dependencies/ethercatconfig.c:878-1121 | All FMMUs of a mapped slave stay inside the table of four exactly when its sync managers call for no more than four; then the table holds those of the outputs and behind them those of the inputs. |
| FmmuTable.FourAreEnough | Dependencies/ethercatconfig.c:1020-1120 | They do so when the sync managers of each direction adjoin each other with at most one gap, which is when the FMMUs map the right memory. |
| FmmuTable.FiveAreTooMany | Dependencies/ethercatconfig.c:1020-1120 | A table of three output and four input sync managers apart calls for five. |
| FmmuMemory.RunsMapMemory | Dependencies/ethercatconfig.c:1024-1098 | The slave memory that the FMMUs map is that of the sync managers, byte for byte in their order, exactly when each of these starts where the one before ends, but for at most one gap: one that starts below is joined all the same, and from a second gap on the byte count is not restarted. |
| FmmuMemory.FmmusMapMemory | Dependencies/ethercatconfig.c:1005-1121 | The same for the FMMUs a slave has got by mapping, with sync managers of type 3 for outputs and 4 for inputs; that of a bit oriented slave points at its first byte. |
| FmmuMemory.BreakMemory | Dependencies/ethercatconfig.c:1038-1055 | Up to the first sync manager that does not adjoin, the memory is in one piece, and there it goes on elsewhere. |
| FmmuMemory.LowerIsJoined | Dependencies/ethercatconfig.c:1046-1054 | A table where the second sync manager is lower: one FMMU, which never reaches it. |
| FmmuMemory.ThirdIsLost | Dependencies/ethercatconfig.c:1035-1090 | A table with three sync managers apart: the second FMMU takes four bytes in place of two, and there is no third. |
| Segments.PackConserves | Dependencies/ethercatconfig.c:1166-1201 | The segments and the bytes lost to the full segment table together are all bytes contributed. |
| Segments.PackIsGreedy | Dependencies/ethercatconfig.c:1166-1181 | Every segment is a run of contributions in order; it is closed only when the next one would have made it longer than 1466 bytes, and is longer than that itself only by a single contribution; bytes are lost only behind 63 closed segments. |
| Segments.NothingLost | Dependencies/ethercatconfig.c:1166-1201 | Packing is that with unlimited segments exactly when 64 are enough; if every contribution fits a segment, bytes are lost in just the other case. |
| Segments.BoundedWhenAllAre | Dependencies/ethercatconfig.c:1170-1181 | For every bound from the segment limit on: every segment is within it exactly when every contribution is. |
| Segments.FirstIsShort | Dependencies/ethercatconfig.c:1170-1181 | The first segment is never above the limit, whatever is contributed: a contribution that is opens the next one. |
| Segments.BoundaryIsShort | Dependencies/ethercatconfig.c:1170-1271 | The segment in which the outputs end gets no inputs, or stays within the limit. |
| Segments.NoSixtyFifth | Dependencies/ethercatconfig.c:1170-1176 | Of 65 full contributions the last one is lost. |
| Segments.WithinNew | Dependencies/ethercatconfig.c:1166-1181 | A contribution goes into one segment as a whole. |
| Segments.AddToSegments | Dependencies/ethercatconfig.c:1168-1181 | The update in place of the segment table is the packing step. |
| ProcessImage.MapSlave | Dependencies/ethercatconfig.c:1163-1181 | One slave gets FMMUs from the cursor on that tile its interval of the image; no other slave changes. |
| ProcessImage.Contribute | Dependencies/ethercatconfig.c:1168-1181 | The segment table in place is the packing of all contributions so far. |
| ProcessImage.PadToByte | Dependencies/ethercatconfig.c:1184-1202 | After the last slave the cursor is on a byte boundary less than a byte further, and the padding is in the segments. |
| ProcessImage.MapDirection | Dependencies/ethercatconfig.c:1155-1201 | Mapping one direction lines the slaves up without gaps but for alignment, packs their contributions, and splits no slave when no bytes are lost. |
| ProcessImage.Group.MapOutputs | Dependencies/ethercatconfig.c:1155-1207 | All outputs mapped from address 0 on; the input segment and its offset are where the packing stands then. |
| ProcessImage.Group.MapInputs | Dependencies/ethercatconfig.c:1214-1274 | All inputs mapped behind the outputs, packed on in the segment the outputs ended in. |
| ProcessImage.Group.CountBlocked | Dependencies/ethercatconfig.c:1245-1248 | The counter grows by one for each slave that blocks the combined command, so that it stays zero exactly when none does. |
| ProcessImage.FmmusAreDisjoint | Dependencies/ethercatconfig.c:878-1121 | The bits of any two FMMUs of one direction are disjoint and in the order of the slaves. |
| ProcessImage.OutputsBeforeInputs | Dependencies/ethercatconfig.c:1132-1281 | Every output bit lies before every input bit, and all inside the image. |
| ProcessImage.SegmentsAdd | Dependencies/ethercatconfig.c:1203-1274 | The segments sum to all bytes, and those before the input segment plus its offset to the output bytes. |
| ProcessImage.Group.Map | Dependencies/ethercatconfig.c:1132-1284 | The whole mapping: sizes, cursor behind every slave, segments, work counters and blocked slaves, for every list of slaves. |
| ProcessData.HalvesAdd | Dependencies/ethercatmain.c:1717-1793 | The segment lengths of the read half sum to the input bytes, those of the write half to the output bytes. |
| ProcessData.Cyclic.PushIndex | Dependencies/ethercatmain.c:1623-1632 | Up to 16 frames are remembered; more are dropped. |
| ProcessData.Cyclic.SendFrame | Dependencies/ethercatmain.c:1733-1750 | One frame carries its stretch of the image, zeroes if it reads; its place is pushed, and a first frame notes where the clock datagram is. |
| ProcessData.Cyclic.SendReads | Dependencies/ethercatmain.c:1713-1755 | The read frames tile exactly the input part of the image, in order, and the loop ends with nothing left. |
| ProcessData.Cyclic.SendWrites | Dependencies/ethercatmain.c:1756-1793 | The write frames, the last one clipped, tile exactly the output part. |
| ProcessData.Cyclic.SendSplit | Dependencies/ethercatmain.c:1713-1793 | Reads tile the inputs, writes the outputs, either is left out when there is nothing of its kind, and only the very first frame has the clock datagram. |
| ProcessData.Cyclic.SendCombined | Dependencies/ethercatmain.c:1795-1838 | The combined frames tile the whole image. |
| ProcessData.Cyclic.Send | Dependencies/ethercatmain.c:1674-1842 | Whichever mode is used, the frames carry the image as it is, only the first has the clock datagram, and the index stack lists them. |
| CyclicFrames.EveryFrameFits | Dependencies/ethercatmain.c:1713-1838 | In either mode, with or without the clock datagram in the first frame, all frames sent fit the frame buffer exactly when every contribution would fit a frame of its own, as long as the segment slots are enough: one between the segment limit and that size closes the segment before it and travels without the clock. |
| CyclicFrames.BuildFrame | Dependencies/ethercatmain.c:1733-1744 | Such a frame is built in the frame buffer as its datagram and perhaps the clock datagram, whose data is where it is looked for later. |
| CyclicFrames.OutputsGoOutOnce | Dependencies/ethercatmain.c:1756-1838 | In either mode every output bit travels in exactly one writing frame, with its value in the image. |
| CyclicFrames.NothingElseGoesOut | Dependencies/ethercatmain.c:1756-1793 | The split mode writes no bit but outputs. |
| ProcessData.Cyclic.TakeReply | Dependencies/ethercatmain.c:1907-1944 | One frame back: inputs to where they were sent from, work counter counted once or twice, clock taken from the first frame. |
| ProcessData.Cyclic.Receive | Dependencies/ethercatmain.c:1887-1962 | Whichever frames are back, each is worked into the image, the counters are summed, the clock is taken from the first one back, the stack is emptied, and "no frame" is returned exactly when none came; the first one back must be as long as the one the clock was sent with. |
| LogicalNetwork.MappedIsTyped | Dependencies/ethercatconfig.c:982-1101 | In the registers of a mapped slave the FMMUs of type 2 are its outputs and those of type 1 its inputs, and every one that maps anything has its type. |
| LogicalNetwork.TypesTell | Dependencies/ethercatconfig.c:982-1101 | What a slave puts into a datagram and takes from it, going by the types in its registers, is what its input and its output FMMUs say. |
| CyclicWire.LostClockFrame | Dependencies/ethercatmain.c:1910-1920 | When the frame with the clock is lost the next one is read in its place: its data and counter rightly so exactly when it is as long, and the time from behind it. |
| LogicalNetwork.ReadsCountInputs | Dependencies/ethercatmain.c:1713-1755 | Reads of a stretch count the same slaves as reads of its input part. |
| LogicalNetwork.HalvesCountAlike | Dependencies/ethercatmain.c:1905-1944 | The counters of the reads plus twice those of the writes are those of the combined datagrams, for every segment list. |
| CyclicExchange.FewFrames | Dependencies/ethercatmain.c:1713-1838 | One frame per segment, and one more only when both reads and writes are sent. |
| CyclicExchange.SendAndReturn | Dependencies/ethercatmain.c:1674-1842 | Sending and the network: what receiving will leave in the image and the total work counter, in either mode. |
| CyclicExchange.Cycle | Dependencies/ethercatmain.c:1887-1962 | One cycle with all frames back returns the work counter of the combined mode, which is twice the output FMMUs plus the input FMMUs when each slave has at most one in a direction, within a segment; it leaves the inputs in the image and the outputs alone, in either mode, with or without clocks. |
| WorkCounter.TotalBySlave | Dependencies/ethercatmain.c:1905-1944 | The counters of the combined frames, frame by frame, are those of the slaves, slave by slave. |
| WorkCounter.ExpectedWkc | Dependencies/ec_EtherCAT_interface.c:65 | The number the cyclic counter is compared with is the one a cycle returns, when each slave has at most one FMMU in a direction, within a segment. |
| WorkCounter.UnsplitIsInside | Dependencies/ethercatconfig.c:1165-1181 | A byte oriented slave whose bytes are not split has its FMMU within a segment. |
| CyclicExchange.SplitRefinesCombined | Dependencies/ethercatmain.c:1710-1838 | The split mode leaves the same inputs and outputs as the combined mode; the whole images agree exactly when no unmapped bit among the inputs was set. |
| CyclicExchange.UnmappedBitsAreCleared | Dependencies/ethercatmain.c:1713-1838 | A mapped group of one slave with three input bits: the other five bits of its byte, set before, are left by the combined mode and cleared by the split mode. |
| CyclicExchange.LossShows | Dependencies/ethercatmain.c:1905-1962 | The work counter of the frames that are back is that of all frames exactly when those lost were worked on by no slave, and else lower. |
| CyclicWire.ThroughBehind | Dependencies/ethercatmain.c:1713-1838 | Slaves that each put their own inputs into a datagram and add to its counter make of it, one after the other, what the logical network says: every input in its place, everything else as sent, all counted. |
| CyclicWire.BackIsAnswer | Dependencies/ethercatmain.c:1905-1944 | The bytes of a cyclic frame behind all slaves have the data and the work counter of its answer. |
| CyclicWire.ReplyIsAnswer | Dependencies/ethercatmain.c:1905-1944 | What receiving finds at its offsets in the buffer, with and without the clock datagram, is the answer of the network to the frame as it was built; its clock is the counter and the time of the second datagram behind all slaves. |
| CyclicWire.TimeIsNumber | Dependencies/ethercatmain.c:1917-1918 | The time read from eight bytes is n for every signed 64 bit n written into them in little endian order. |
| CyclicWire.ClockIsAt | Dependencies/ethercatmain.c:1735-1742 | The clock datagram of a frame as built stands behind the first one, and its eight bytes of time end two bytes before the frame. |
| CyclicWire.WireReturns | Dependencies/ethercatmain.c:1887-1962 | Cyclic frames as built go over a ring with at most one cable cut and come back in any order: the replies read from the buffers are the answers of the network, each with its own counter, and the clock is what the second datagram holds behind all slaves. |
| CyclicWire.CycleOnWire | Dependencies/ethercatmain.c:1674-1962 | So a cycle in bytes, from the frames built of the image to the buffers, works into the image and counts just what a cycle over the logical network does, in either mode, and takes as time the number that the clock slave has put into the first frame. |
| CyclicExchange.MappedIsSeparated | Dependencies/ethercatconfig.c:1132-1284 | A group as it is mapped meets what the exchange asks of the slaves. |
| Frames.FrameBuffer.Setup | Dependencies/ethercatbase.c:68-91 | The buffer holds a frame of just this datagram; a command that reads carries zeroes; the Ethernet header is untouched. |
| Frames.FrameBuffer.PutData | Dependencies/ethercatbase.c:31-55 | Data, or zeroes for a command that reads, then a zero work counter, and no byte elsewhere. |
| Frames.FrameBuffer.Append | Dependencies/ethercatbase.c:106-147 | One datagram behind those there: lengths and follows bit updated, and the offset of its data in the receive buffer returned. |
| Frames.FrameBuffer.Add | Dependencies/ethercatbase.c:106-147 | The frame holds one datagram more, all before it unchanged and marked as followed; the offset returned is where its data sits. |
| Frames.DatagramBytes | Dependencies/ethercatbase.c:31-91 | A datagram of a frame, byte by byte from its position on: command, index, addresses and length in little endian order, the follows bit, the data, zeroes for the five commands that only read, and a zero counter. |
| Frames.FrameBytes | Dependencies/ethercatbase.c:68-91 | The first two bytes are the length of what follows and the protocol type. |
| Frames.ParseBuilt | Dependencies/ethercatbase.c:68-147 | Reading a finished frame by its length fields and follows bits gives exactly the datagrams put in. |
| Frames.WkcIsLast | Dependencies/nicdrv.c:396-398 | The position the driver reads the work counter from is that of the last datagram. |
| StatusFrame.FprdMulti | Dependencies/ethercatmain.c:681-704 | The frame reads the status of up to 64 slaves in the order of the list, and the positions kept are those of the answers. |
| NicDriver.PollGives | Dependencies/nicdrv.c:373-453 | One read either picks up the reply awaited, with its own work counter, by the stored or the direct path, or leaves it to come. |
| NicDriver.PollKeeps | Dependencies/nicdrv.c:425-443 | A read for one frame does not lose the reply to another one. |
| NicDriver.PollResult | Dependencies/nicdrv.c:373-453 | A read returns the work counter when the frame awaited has come, -2 when something else has, and -1 when nothing has. |
| NicDriver.WaitSucceeds | Dependencies/nicdrv.c:477-490 | Waiting succeeds exactly when the packet comes in time, and gives the first one for the index. |
| NicDriver.ReorderingIsInvisible | Dependencies/nicdrv.c:373-453 | Whatever the order of the replies, waiting for outstanding frames one after the other gives each waiter its own frame and work counter, and keeps it. |
| NicDriver.OnTheWay | Dependencies/nicdrv.c:413-443 | Replies on their way in any order are outstanding when nothing else carries their index. |
| NicPort.Stack.InFrame | Dependencies/nicdrv.c:373-453 | The receive function in place does what the value model of one read says, to status, buffers, addresses and socket. |
| NicPort.Stack.Store | Dependencies/nicdrv.c:405-443 | A packet is put in the buffer of its index with the status given, and its source address kept; the other buffers stay. |
| NicPort.Stack.WaitFrame | Dependencies/nicdrv.c:525-529 | The waiting loop in place is the repeated read. |
| NicPort.WaitForBoth | Dependencies/nicdrv.c:477-490 | The loop over both sockets reads each until its frame is in or the time is over. |
| NicPort.Port.FindIndex | Dependencies/nicdrv.c:218-243 | As long as a buffer is free a free one is found, the first behind the last index going round. |
| NicPort.Port.GetIndex | Dependencies/nicdrv.c:218-251 | The index handed out is marked in both stacks; a busy one is handed out only when all are busy. |
| NicPort.Port.SetBufStat | Dependencies/nicdrv.c:257-262 | Sets the status of one buffer, in redundant mode in both stacks. |
| NicPort.Port.OutFrame | Dependencies/nicdrv.c:270-293 | Sends a buffer from one socket; if the socket refuses, the buffer is free again. |
| NicPort.Port.OutFrameRed | Dependencies/nicdrv.c:299-330 | Sends the frame, and in redundant mode the dummy frame with the same index. |
| NicPort.Port.Route | Dependencies/nicdrv.c:492-537 | The decision on the two source addresses in place is that of the value model. |
| NicPort.Port.SendAgain | Dependencies/nicdrv.c:511-535 | The frame sent once more from the secondary port is what the value model says. |
| NicPort.Port.WaitInFrameRed | Dependencies/nicdrv.c:467-541 | Waiting in place, without and with redundancy. |
| NicPort.Port.WaitInFrame | Dependencies/nicdrv.c:550-565 | If nothing comes the buffer is free again, and no other buffer is disturbed. |
| NicPort.TriesAreRounds | Dependencies/nicdrv.c:584-600 | Trying is a list of rounds, each applied to what the one before has left: all but the last bring no answer, and the last brings one or is the last that the time allows. |
| NicPort.TriesInTime | Dependencies/nicdrv.c:578-608 | Without redundancy trying succeeds exactly when the first packet for the index, counting those that the rounds bring, comes within the reads of all rounds. |
| NicPort.Port.TryOn | Dependencies/nicdrv.c:584-600 | Round after round in place is what the value model of the rounds says, with and without redundancy, and disturbs no other buffer. |
| NicPort.Port.SrConfirm | Dependencies/nicdrv.c:578-608 | The rounds run until one brings an answer or the time is over, and the last one gives the result; without redundancy an answer is got exactly when the first packet for the index, counting those that the rounds send for, comes within their reads. The buffer is free again if none is got, and no other buffer is disturbed. |
| Redundancy.BothWait | Dependencies/nicdrv.c:477-490 | The loop over both sockets gives each what waiting alone would give it. |
| Redundancy.PrimaryDecides | Dependencies/nicdrv.c:492-537 | When nothing has come to the secondary port the primary one decides, and nothing is sent once more. |
| Redundancy.ResendCounts | Dependencies/nicdrv.c:511-535 | Sending once more counts exactly when a packet for the index comes to the secondary port in time: then the primary buffer gets its bytes, else result and primary buffers stay. |
| Redundancy.WaitRedKeeps | Dependencies/nicdrv.c:467-541 | Waiting in redundant mode changes no other buffer but for frames that come in. |
| RedundantRing.ThroughParts | Dependencies/nicdrv.c:514-521 | The slaves before a cut and then those behind it are all slaves in order. |
| RedundantRing.ResendDelivers | Dependencies/nicdrv.c:511-535 | Sending once more from the secondary port brings the frame through the slaves behind the cut. |
| RedundantRing.LineDelivers | Dependencies/nicdrv.c:467-490 | Without redundancy the primary buffer ends with the frame as all slaves in order have processed it, and its work counter is returned. |
| RedundantWaiters.BreakIsMasked | Dependencies/nicdrv.c:467-541 | With the ring intact and with any one cable broken, the primary buffer ends with the frame as all slaves in order have processed it, and its work counter is returned. |
| RedundantWaiters.OneWaits | Dependencies/nicdrv.c:467-541 | The same with other frames under way: the waiter gets its own frame whatever else is to come at the two ports. |
| RedundantWaiters.OthersWait | Dependencies/nicdrv.c:373-541 | And what the others wait for, or have got, is not touched, even when the frame is sent once more. |
| RedundantWaiters.EachGetsItsOwn | Dependencies/nicdrv.c:467-541 | Of several frames under way over a ring with at most one cable cut, each waiter gets its own, with its work counter, and keeps it. |
| RedundantWaiters.BreakAndOrderAreMasked | Dependencies/nicdrv.c:299-541 | Frames with different indices are sent over such a ring, and all that arrives at the two ports comes in any order: every waiter gets its own frame as all slaves have processed it. |
| Primitives.SetupFrame | Dependencies/ethercatbase.c:68-91 | The transmit buffer holds a frame of this datagram; the receive side is untouched. |
| Primitives.Read | Dependencies/ethercatbase.c:318-333 | The index is given back on success and on timeout, with every other buffer of both stacks as it was; over a line, or in redundant mode over a ring with at most one cable broken, the result is what the slaves make of the datagram. |
| SdoTransfer.CommandCodes | Dependencies/ethercattype.h:336-338 | The commands as fields have the numbers of the protocol, and the fields determine the byte. |
| SdoTransfer.ReadFromCommand | Dependencies/ethercatcoe.c:349-519 | What a message is, by the bits of its command byte: segment, toggle, last, expedited, accepted, and how many bytes it carries. |
| SdoTransfer.ReadFromBytes | Dependencies/ethercatcoe.c:349-519 | Index, sub-index, total size and data by their places behind the command byte, in little endian order. |
| SdoTransfer.GoingAlternates | Dependencies/ethercatcoe.c:454-519 | The toggle bit alternates from zero on, and no segment but the last says it is the last. |
| SdoTransfer.PartsDownload | Dependencies/ethercatcoe.c:400-519 | What the slave puts together from the first message and the segments is the object exactly when its size fits in 16 bits. |
| SdoTransfer.LargeObjectIsCut | Dependencies/ethercatcoe.c:400-421 | An object of 65536 bytes is sent as one message without data, and the slave gets no object. |
| SdoTransfer.EmptyObjectIsFour | Dependencies/ethercatcoe.c:349-375 | Of an empty object without complete access the slave gets four bytes. |
| SdoTransfer.SdoClient.SendInit | Dependencies/ethercatcoe.c:400-434 | The first message announces the size and carries as much as fits; whether segments follow depends on the size cut to 16 bits. |
| SdoTransfer.SdoClient.SendSegment | Dependencies/ethercatcoe.c:456-489 | One segment carries the next bytes, with toggle, last flag, and the count of unused octets of a short last segment. |
| SdoTransfer.SdoClient.WriteSegments | Dependencies/ethercatcoe.c:451-519 | The loop ends; it reports success exactly when no segment is refused and the last one is accepted, and then the segments are in sequence and carry the rest of the object. |
| SdoTransfer.SdoClient.WriteExpedited | Dependencies/ethercatcoe.c:349-397 | Up to four bytes in one message of length ten; of zero bytes four are sent. |
| SdoTransfer.SdoClient.Write | Dependencies/ethercatcoe.c:330-539 | Success is reported exactly when the first message is accepted, no segment is refused and the last one is accepted; then the slave has exactly the object, if and only if its size is below 65536 and it is not empty or complete access is used. The messages are SDO requests with counters from 1 to 7, going round; each fits the mailbox of the slave, and all but the last one fill it. |
| SdoUpload.Take | Dependencies/ethercatcoe.c:236-274 | One answer adds what it brings exactly when that is inside mailbox and buffer, and says whether more is expected. |
| SdoUpload.TakeFirst | Dependencies/ethercatcoe.c:177-212 | The first answer is taken exactly when its size, as a signed number, is not above that of the buffer, and what is copied then is its data exactly when there are that many bytes to copy. |
| SdoUpload.ReadSegments | Dependencies/ethercatcoe.c:206-277 | The collecting stays inside exactly when every answer stays in its mailbox and all fit behind the first part; then the buffer holds the first part and what the answers bring, in order. Requests have the command bytes 0x60 and 0x70 in turn. |
| SdoUpload.Read | Dependencies/ethercatcoe.c:120-311 | For every course of answers that ends: whether each copy stays inside its buffers, and if so what is in the buffer, its size and the result; an object that is refused leaves the buffer alone. The request has the command byte 0x40, or 0x50 with complete access, and the counters go round from 1 to 7. |
| SdoUpload.InsideExactly | Dependencies/ethercatcoe.c:196-293 | With sound length fields every copy stays inside exactly when the announced size is below 2^31 and either too large for the buffer, complete in the first answer, or followed by segments that fit. |
| SdoUpload.HugeSizeIsTaken | Dependencies/ethercatcoe.c:196-283 | An announced size of 2^31 is taken as fitting every buffer. |
| SdoUpload.LongSegmentOverruns | Dependencies/ethercatcoe.c:242-258 | A slave that announces as much as fits and then sends a byte more overruns the buffer. |
| SdoUpload.UploadGivesObject | Dependencies/ethercatcoe.c:177-293 | A slave that answers in the format of a download gives the object back, byte for byte. |
| FoeTransfer.SplitIsWhole | Dependencies/ethercatfoe.c:256-290 | The packets make up the file; all are full but the last, which is strictly shorter. |
| FoeTransfer.SplitCount | Dependencies/ethercatfoe.c:256-290 | There are size / maxdata + 1 packets. |
| FoeTransfer.FoeClient.Judge | Dependencies/ethercatfoe.c:292-346 | Sending goes on exactly after the acknowledgement of the packet just sent; the result is positive for that and for BUSY, and else minus the number of the error: wrong packet number, file not found, another error, or an unexpected message. |
| FoeTransfer.FoeClient.WriteData | Dependencies/ethercatfoe.c:239-349 | The packets sent are numbered from one, each after the acknowledgement of the one before, and are the first ones of the file. |
| FoeTransfer.FoeClient.Write | Dependencies/ethercatfoe.c:199-352 | Success without a BUSY answer means the whole file has been sent, exactly when it is not empty; a BUSY answer ends the transfer and still reports success; any other last answer gives its error number. Mailbox counters go round from 1 to 7. |
| FoeTransfer.FoeClient.JudgeData | Dependencies/ethercatfoe.c:117-178 | A packet is taken exactly when it is the data packet of the next number and its claimed size fits in the buffer; else the result is minus the number of the error. |
| FoeTransfer.FoeClient.ReadData | Dependencies/ethercatfoe.c:108-182 | Packets are taken in order while they fit, up to the first that is not full, and each is acknowledged by its number; every copy stays inside the mailbox exactly when no packet that is taken claims more than the mailbox has. |
| FoeTransfer.FoeClient.Read | Dependencies/ethercatfoe.c:71-185 | The buffer holds the packets taken; success means the last was not full, failure that the next was not the one expected or did not fit, and the result tells which error. Every copy stays inside exactly when no packet that is taken claims more than the mailbox has. Without any answer the buffer is left alone and the size stays that of the buffer. |
| FoeTransfer.OutcomeExcludesOverread | Dependencies/ethercatfoe.c:110-182 | Reading that comes to an end inside the mailbox and taking a packet that claims too much exclude each other, for all courses of answers. |
| FoeTransfer.ClaimedIsSound | Dependencies/ethercatfoe.c:119-123 | A packet claims no more than the mailbox has exactly when its length field is neither below 6 nor above the mailbox. |
| FoeTransfer.ReadGivesFile | Dependencies/ethercatfoe.c:110-182 | Reading what a slave sends of a file gives the file, and takes just its packets. |
| FoeTransfer.NoOverread | Dependencies/ethercatfoe.c:119-123 | When all length fields are sound, no packet that is taken claims too much. |
| FoeTransfer.ShortPacketOverreads | Dependencies/ethercatfoe.c:119-123 | A packet whose length field is too small is taken for a huge one, and into a large enough buffer. |
| EepromCache.Cache.Select | Dependencies/ethercatmain.c:343-347 | For another slave nothing is known any more, for the same one everything stays. |
| EepromCache.Cache.Mark | Dependencies/ethercatmain.c:376-389 | Exactly the bytes read are marked, across word boundaries of the bitmap. |
| EepromCache.Cache.GetByte | Dependencies/ethercatmain.c:334-395 | Over any calls for any slaves the byte returned is that of the slave's EEPROM, 0xff from address 4096 on; a byte once read is not read again, and a read marks just the four or eight bytes from the even address on. |
| SiiDecoder.LocationIsFirst | Dependencies/ethercatmain.c:403-435 | The location is that of the first category of the kind, and zero exactly when there is none. |
| SiiDecoder.SiiFind | Dependencies/ethercatmain.c:403-435 | On any list of categories the search ends with the location. |
| SiiDecoder.AddEntries | Dependencies/ethercatmain.c:646-653 | The bit size of an object is the sum of its entries; 16 bits are always enough. |
| SiiDecoder.ReadPdo | Dependencies/ethercatmain.c:635-663 | One object is entered in the table, and the cursor, the word count and the total move past it. |
| SiiDecoder.ReadPdos | Dependencies/ethercatmain.c:627-669 | Every object is visited once, up to 511; sizes per sync manager and in total are the sums of the active objects, in 16 bits. |
| SiiDecoder.SiiPDO | Dependencies/ethercatmain.c:612-677 | The table and the result on any object list, of category 50 or 51 from byte 128 on, and an empty table when the category is missing. |
| SiiDecoder.SharedOut | Dependencies/ethercatmain.c:654-655 | The sizes of the eight sync managers sum to the total. |
| SlaveState.InOr | Dependencies/ethercatmain.c:732-740 | Every status is among the bits of the broadcast answer. |
| SlaveState.LegalStates | Dependencies/ethercatmain.c:739-763 | The states of the protocol by their codes, and the broadcast answers that are taken. |
| SlaveState.BroadcastTells | Dependencies/ethercatmain.c:732-780 | When the broadcast answer is taken, it gives the states, and the lowest state, of reading every slave exactly when it does not look like BOOT or all slaves are in BOOT. |
| SlaveState.FastIsSlow | Dependencies/ethercatmain.c:764-780 | The list and the result of the fast path are those of reading every slave exactly in that case. |
| SlaveState.MistakenForBoot | Dependencies/ethercatmain.c:753-763 | One slave in INIT and one in PRE_OP are taken for two in BOOT. |
| SlaveState.LowestBelow | Dependencies/ethercatmain.c:804-815 | The lowest state is not above that of any slave. |
| SlaveState.LowestIsThere | Dependencies/ethercatmain.c:804-815 | The lowest state is that of some slave. |
| SlaveState.CodesCollect | Dependencies/ethercatmain.c:804-815 | The collected status codes have the bits of the code of every slave, and no others. |
| SlaveState.Master.StoreBlock | Dependencies/ethercatmain.c:804-815 | One block of answers is stored in its slaves, with the lowest state and the collected codes up to there. |
| SlaveState.Master.ReadAll | Dependencies/ethercatmain.c:783-817 | Blocks of at most 64 ask every slave once, in order; states and codes are those read, zero where a frame gets no answer, and the lowest state is returned. |
| SlaveState.Master.ReadState | Dependencies/ethercatmain.c:721-822 | The list and the result on either path; with the answer that the slaves give they are those of reading every slave exactly when the slaves are read or the answer tells their states. |
| ErrorRing.Ring.Push | Dependencies/ethercatmain.c:154-172 | One unread error more; when 64 are unread, the oldest and only it is dropped. |
| ErrorRing.Ring.Pop | Dependencies/ethercatmain.c:180-199 | Takes the oldest unread error and clears its signal; with none left the error flag is cleared. |
| ErrorRing.QueueIsLatest | Dependencies/ethercatmain.c:154-199 | After any calls the unread errors are the most recent ones pushed, in order, at most 64. |
| ErrorRing.PoppedInOrder | Dependencies/ethercatmain.c:154-199 | Errors come out in the order they went in, none twice. |
| ErrorRing.NothingDropped | Dependencies/ethercatmain.c:154-199 | As long as 64 are never unread at a push, every error is either popped or unread. |
| Rs485Channel.StartUp | Dependencies/Rs485EthercatLibrary.c:300-381 | For every course of answers: running, given up or stuck, exactly by the position of the first answer after the request and of the first turn without it after the request is withdrawn, against 20 tries each. |
| Rs485Channel.StuckForever | Dependencies/Rs485EthercatLibrary.c:362-373 | A terminal that does not take its answer back in time leaves the channel stuck, whatever it does later. |
| Rs485Channel.StaysRunning | Dependencies/Rs485EthercatLibrary.c:300-381 | Once running, always running. |
| Rs485Channel.AskingTurn | Dependencies/Rs485EthercatLibrary.c:300-355 | What each turn before the withdrawal of the request writes, byte for byte, and where it leads. |
| Rs485Handshake.ExactlyOnce | Dependencies/Rs485EthercatLibrary.c:161-231 | In every safe state at most one block is under way in each direction, and everything before it has arrived, in order. |
| Rs485Handshake.Channel.Transmit | Dependencies/Rs485EthercatLibrary.c:161-197 | Hands over as much of the data as fits in 22 bytes, unmodified, with its length and the transmit bit turned over, when the block before has been taken; else refuses and changes nothing. |
| Rs485Handshake.Channel.Receive | Dependencies/Rs485EthercatLibrary.c:199-231 | Returns a signalled block once, byte for byte, and turns the receive bit over; else refuses and changes nothing. |
| Rs485Handshake.Channel.ProcessStateMachine | Dependencies/Rs485EthercatLibrary.c:263-383 | Flags from the lowest two bits of status and control byte as they were, start-up one turn further by the third bit of the status, and just what is written to the terminal. |
| Rs485Handshake.Link.Transmit | Dependencies/Rs485EthercatLibrary.c:161-197 | A call at any time keeps the channel safe; a block accepted is the beginning of the data given, 22 bytes or all of it. |
| Rs485Handshake.Link.Receive | Dependencies/Rs485EthercatLibrary.c:199-231 | A call at any time keeps the channel safe. |
| Rs485Handshake.Link.ProcessStateMachine | Dependencies/Rs485EthercatLibrary.c:264-267 | After the request has been withdrawn a turn writes nothing and keeps the channel safe, or makes it safe again when a signal was left over. |
| Rs485Handshake.Link.StartTurn | Dependencies/Rs485EthercatLibrary.c:263-355 | What the turn does to flags, machine and output; the one that withdraws the request makes the channel safe exactly when the receive bit is in its first position; the blocks handed over since the request are lost, those handed over later arrive. |
| Rs485Handshake.Link.LeftOverSignal | Dependencies/Rs485EthercatLibrary.c:264-268 | Else a signal is left over, and reading on it returns a block that was never offered. |
| Rs485Handshake.Link.ReadTwice | Dependencies/Rs485EthercatLibrary.c:199-355 | A run from the request to there: a block signalled while the request is written is read while the terminal takes it, and after the withdrawal a block is read that was never offered. |
| Rs485Handshake.Link.SetEnable | Dependencies/Rs485EthercatLibrary.c:138-158 | Enabling and disabling at any time keep the channel safe. |
| Rs485Handshake.Link.Cycle | Dependencies/Rs485EthercatLibrary.c:161-267 | Once the request is withdrawn, a full cycle takes every block handed over since then to the terminal, block for block the beginning of the data given, and the channel is ready for the next one. |

## Left out

- 32 bit wrap-around of timestamps, and the register traffic that reads and writes them: times are unbounded.
- DistributedClocks.SkipSlave: the delays behind slaves without a clock are not stated, because the code has no exact value for them; the list of clocks is proved for any mixture.
- Slaves entered at another port than 0: the delay theorem takes port 0 as the way in.
- Mapping.CreateMappings: the FMMUs of a slave are a list there; the table with its four places is `FmmuTable`, which starts from a cleared record.
- Pointers of slaves into the image, and the copies of group data in record 0 of the slave list.
- Groups other than 0, a logical start address other than 0, and the overlapping map.
- More than 16 frames in one cycle: `CyclicExchange.Cycle` asks that all frames of the cycle have a place on the index stack.
- CyclicExchange.Cycle: asks that every frame comes back.
- ProcessData.Cyclic.Receive: asks that the first frame back is as long as the one the clock datagram was sent with, if there was one; else the code copies the wrong number of bytes and nothing is stated of the image.
- CyclicWire.CycleOnWire: starts from frames that stand built in their transmit buffers; taking the indices and waiting in place are stated by `NicPort`.
- Sockets, system clock, threads and locks: what a call does is one step.
- NicPort.Port.OutFrame: the Ethernet header is only its second source address word.
- Packets whose length field points outside the receive buffer: the code would read behind it.
- NicDriver.Poll: a packet is what is left in the temporary buffer after a read.
- Emptying a slave's mailbox before a transfer, and mailbox sends that fail: every message is delivered.
- SdoUpload.Read: asks that the segments of the answer come to an end, since the code waits forever for a slave that stops answering; after a copy that leaves its buffers nothing is stated.
- FmmuMemory.RunsMapMemory: asks that the sync managers of process data have memory and provide the bits of the slave.
- FoeTransfer.FoeClient.Write: the resending that a BUSY answer prepares is not modelled, since the loop ends there.
- FoE progress hook and its calls.
- EepromCache.Cache.GetByte: asks that a read stays inside the 4096 byte buffer; reads of the last bytes would run over its end, and reads are reliable.
- SiiDecoder.SiiPDO: asks for a non-empty list where the category is present; of an empty one the code still reads one object.
- SlaveState.Master.ReadState: there is at least one slave; the answer to the broadcast read is a parameter.
- Status bits above the error flag: a legal status has none.
- Rs485Handshake.Link.constructor: a channel starts with a request to initialise and a terminal that does not initialise already; configuring it again is left out, and a channel that has been given up promises nothing.
- Rs485Handshake.Link.StartTurn: says of blocks under way when the request is written only that they are not counted.
- Rs485Channel: two channels of a device are independent, one is modelled; a call is one step against the process data exchange.
- Distributed clock start times, SoE, object dictionary lists, slave recovery and reconfiguration, printing and tables: short arithmetic or register traffic.
- Simulink blocks, MATLAB scripts and the Arduino sketch.
