# Verified models of lsquic internals

lsquic is a QUIC and HTTP/3 library written in C.  This project models five of its
components in Dafny and proves what they promise.

* **Incoming streams.**  A stream keeps received bytes in one of two buffers: a sorted list of
  frames that is not copied (`FrameList`, `DataInNocopy`), or 4K blocks with one bit per valid byte
  in a hash of buckets that doubles (`WordBits`, `DataBlock`, `BlockTable`, `DataInHash`).
  Both stand for the ordered byte stream of section 2.2 of RFC 9000 with the final size of
  section 4.5 (`StreamBytes`).  `IncomingStream` is the stream that inserts, reads and switches
  between them, and `StreamRun` is any run of it.
* **BBR congestion control** with its bandwidth sampler and its windowed maximum (`WindowedMax`,
  `BandwidthSampler`, `BbrRules`, `BbrSteps`, `BbrFilter`, `Bbr`), after draft-cardwell-iccrg-bbr-congestion-control-00.
* **The advisory tick queue**, a binary heap with back-pointers (`HeapOrder`, `AdvisoryTickQueue`).
* **Certificate-chain compression** (`CertWire`, `CertCompress`, `CertLayout`, `CertMethods`) and **the HTTP/2
  frame reader** (`FrameMachine`, `FrameReader`, `FrameRuns`, `FrameLaws`), the latter after sections 4.1, 4.3, 6.2,
  6.3, 6.5, 6.6 and 6.10 of RFC 7540.
* **The portable 128-bit FNV-1a hash** (`Fnv128`).

Objects that the library updates in place are classes; every method states its new state against
a specification (a map of bytes, a map of connections, a byte machine, a number modulo 2^128), and
the theorems are about whole runs or about that specification.

## Main results

* `StreamRuns.Run`: for every byte string, every sequence of frames that are slices of it (any
  order, repetition, overlap), every interleaving with reads of any size, with or without switches
  between the buffers, the bytes delivered are a prefix of the string.  If every frame has been accepted, no read has failed and a
  reader who takes all there is comes last, they are exactly the longest prefix that has arrived, and the end is reported
  when everything and the FIN have arrived; and with enough memory and a conforming peer every frame is accepted.
  Memory and the appetite of the reader are inputs of the run.
* `NocopyDataIn.SwitchImpl`: the switch keeps every unread byte and the FIN, and apart from memory
  fails exactly when some frame ends past the final size.  `NocopyDataIn.InsertFrame` advises it exactly when it has taken a
  frame in after which the list is too slow, and by `IncomingStream.FrameIn` such a list is then not kept.
* `BbrController.Run`: over every run and for every setting of the options the windows stay within their limits and belong
  to the state, the log has one record for every acknowledgement and every restart, every change of mode and gain
  in it is in order, and the bandwidth filter is what the samples of all acknowledgements since the last restart make;
  by `FilterIsWindowed`, `ShownIsSample` and `ShownIsMaximum` that is the windowed maximum over ten rounds.  `EndAck`
  gives the new model, modes, rate and windows from the old ones, the acknowledgement and the bytes in flight, and
  `CheckIfFullBwReached` contains the assertion of the source, which never fails.
* `Attq.PopAll` and `Attq.CountBefore`: popping up to a cutoff gives exactly the earlier connections in
  order of time; the counting shortcut is specified level by level.
* `CertMethods.SendAndReceive`: compress, count and decompress give the chain back, exactly when it has 1
  to 10000 certificates (9999 where assertions are on) and no more than 128 KB to compress.  `CertLayout` says where
  each entry, each size and each certificate lies in the message, in the data and in the dictionary: `DictExactly`,
  `WireLaid`, `DataLaid`, `MessageLaid`, `ParseExactly`.
* `FrameReaders.Drive`: the calls that the frame reader makes depend only on the input, not on how it is cut
  into short reads; `FrameRuns.FrameConsumed` and `FrameRuns.BlockAssembled` say what whole frames do, and
  `SettingsRead`, `PriorityRead`, `HeadersRead` and `PromiseRead` of `FrameLaws` that printed frames are read back.
* `Fnv128.Uint128.Times`: the limb multiplication is right exactly when the two middle products do not
  carry; the hash of three buffers is the hash of their concatenation.

## Where the code does less than it seems to

* A data-carrying frame of the hash buffer has its FIN flag from `df_read_off + df_size` where the
  stream offset `df_offset + df_size` is meant.  `FinFlagExact` gives, in terms of what is stored and where the reader
  is, the exact condition under which the flag is right; `EarlyFin` brings two frames and a read for which it claims the
  end too early (`PrematureFin`).  `WrongFinIsEarly` says that this needs a stream of 3 to 7231 bytes, and
  `EarlyFinEverywhere` that it can happen at each of these lengths.  `Run` therefore promises a complete stream at FIN for
  all other lengths, and for every length if the frames are not empty and do not overlap, the run starts with the list and
  it may not switch on advice.
* The hash buffer takes an empty block after the final size for bytes past it: `SpuriousFinError`.  `Run`
  shows that a conforming peer meets this only if it sends an empty frame and the stream length is a positive
  multiple of 3616.
* The opening comment of lsquic_di_nocopy.c says that four far traversals in a row raise the alert; the code raises it
  at the fifth (`CheckEfficiency` follows the code).
* The windowed maximum can miss the maximum of the window (`MaximumMissed`).  `MaximumExactly` says when it shows it:
  if and only if no sample of the window taken no later than the first choice exceeds that choice; `MaximumKept` that
  it is lost only when the first choice has become too old.
* What BBR expects to be acknowledged in an epoch of aggregation is its rate in bits per second times microseconds
  (`ExpectedIs`), and it is compared with bytes.
* The frame reader never passes on an empty header block (`EmptyFragmentIsSilent`), and takes END_STREAM from the
  last frame of a header block instead of the first (`BlockAssembled`; `EndStreamLost` is an input).
* A header block that starts with padding and no fragment is passed on with as many bytes in front as the block
  before it had, none of which were received for it (`StaleByte`).  The same count can push a block that is within the
  size limit over it, and the block is then refused.  `StaleAssembled` says which of the two happens, and that a block
  within the limit is passed on as what was received exactly when the count is zero.
* The carry of the two middle products in the 128-bit multiplication is dropped (`CarryHappens`); the FNV prime never
  causes one (`NoCarry`).

## Model

| member | source | states |
|---|---|---|
| `DataBlocks.BlockWrite` | src/liblsquic/lsquic_di_hash.c:275-329 | writes the bytes that fit the block at the offset, marks exactly those positions and changes no other byte or mark, for every offset, no bytes, and the half-used last word |
| `DataBlocks.HasBytesAfter` | src/liblsquic/lsquic_di_hash.c:332-348 | true exactly when some position at or after the offset is marked |
| `DataBlocks.NAvailBytes` | src/liblsquic/lsquic_di_hash.c:469-499 | length of the maximal run of marked positions, which never leaves the block |
| `DataBlocks.BitRunIsMaximal` | src/liblsquic/lsquic_di_hash.c:454-484 | the count of trailing ones in the shifted complement is the maximal run of set bits in a word |
| `BlockTables.BuckNoSplit` | src/liblsquic/lsquic_di_hash.c:91-92 | with one more index bit a block belongs to its old bucket or to that bucket plus the old number of buckets, as the new bit says |
| `BlockTables.DoubledOk` | src/liblsquic/lsquic_di_hash.c:174-209 | after doubling every block is in the one correct bucket, each offset at most once, and none is lost |
| `BlockTables.GetDoubled` | src/liblsquic/lsquic_di_hash.c:174-209 | doubling does not change what is found at any offset |
| `BlockTables.GetAdded` | src/liblsquic/lsquic_di_hash.c:212-224 | adding a block changes the map from offset to block at that offset only and keeps the table in order |
| `BlockTables.GetRemoved` | src/liblsquic/lsquic_di_hash.c:241-249 | removing a block takes that offset, and no other, out of the map |
| `DataInHash.HashDataIn.constructor` | src/liblsquic/lsquic_di_hash.c:115-150 | an empty buffer with at least four times as many buckets as blocks expected |
| `DataInHash.HashDataIn.Grow` | src/liblsquic/lsquic_di_hash.c:174-209 | doubles the buckets and keeps all bytes, or fails for lack of memory and changes nothing |
| `DataInHash.HashDataIn.Insert` | src/liblsquic/lsquic_di_hash.c:212-224 | adds one empty block, keeps all bytes, and keeps the table at most half full; fails only for lack of memory |
| `DataInHash.HashDataIn.Find` | src/liblsquic/lsquic_di_hash.c:227-238 | finds the block at an offset exactly when there is one |
| `DataInHash.HashDataIn.Remove` | src/liblsquic/lsquic_di_hash.c:241-249 | takes out one block and its bytes and nothing else |
| `DataInHash.HashDataIn.WriteSpan` | src/liblsquic/lsquic_di_hash.c:380-411 | writes bytes across blocks: all of them, or a prefix when memory runs out; exactly the touched blocks come into being |
| `DataInHash.HashDataIn.InsertDataFrame` | src/liblsquic/lsquic_di_hash.c:351-427 | stores the part of a frame from the read offset on; says exactly when the answer is OK, DUP or ERR, what FIN does and which blocks come into being; memory fails only if there is not plenty |
| `DataInHash.HashDataIn.PastFin` | src/liblsquic/lsquic_di_hash.c:414-424 | true exactly when the last block has a byte from the final size on or the next block exists |
| `DataInHash.HashDataIn.GetFrame` | src/liblsquic/lsquic_di_hash.c:545-575 | a frame exactly when the byte at the read offset is stored or it is the final size; its bytes are the stored ones up to a gap or the block end; at the final size a FIN frame without bytes |
| `DataInHash.HashDataIn.SetupDataFrame` | src/liblsquic/lsquic_di_hash.c:505-542 | the same for a block that exists |
| `DataInHash.HashDataIn.FrameDone` | src/liblsquic/lsquic_di_hash.c:578-600 | loses no byte at or after the read position, frees the block exactly when nothing in it is left, and advises a switch exactly when the buffer became empty without FIN |
| `DataInHash.HashDataIn.ReadableBytes` | src/liblsquic/lsquic_di_hash.c:662-674 | length of the maximal run of stored bytes at the read offset; the loop ends |
| `DataInHash.FinFlagExact` | src/liblsquic/lsquic_di_hash.c:516-528 | exact condition, over what is stored and the read offset, under which the FIN flag of a frame with bytes is right |
| `DataInHash.PrematureFin` | src/liblsquic/lsquic_di_hash.c:516-528 | an input for which every frame handed out claims FIN although a byte is missing |
| `DataInHash.EarlyFin` | src/liblsquic/lsquic_di_hash.c:516-528 | two frames of a ten-byte stream are inserted and a frame is taken out that claims FIN although a byte is missing |
| `DataInHash.WrongFinIsEarly` | src/liblsquic/lsquic_di_hash.c:516-528 | a frame that claims the end ends the stream, or the stream has 3 to 7231 bytes |
| `DataInHash.EarlyFinEverywhere` | src/liblsquic/lsquic_di_hash.c:516-528 | for every length from 3 to 7231 there is an input for which every frame handed out claims the end too early |
| `DataInHash.SpuriousFinError` | src/liblsquic/lsquic_di_hash.c:414-424 | an input that is refused although no byte lies past the final size |
| `FrameLists.InsertedHoles` | src/liblsquic/lsquic_di_nocopy.c:305-323 | number of gaps after an insertion; between two neighbours a gap is always taken away, so the decrement never underflows |
| `FrameLists.InsertedBytes` | src/liblsquic/lsquic_di_nocopy.c:305-323 | an insertion stores exactly the bytes of the frame |
| `FrameLists.RemovedCounters` | src/liblsquic/lsquic_di_nocopy.c:428-439 | order, gaps and sizes after the first frame has gone |
| `FrameLists.HolesAreBreaks` | src/liblsquic/lsquic_di_nocopy.c:305-335 | the holes counted are the frames that do not start where the one before ends |
| `DataInNocopy.NocopyDataIn.FindPosition` | src/liblsquic/lsquic_di_nocopy.c:230-257 | the position divides frames that start at or before the new one from the others; the count is the number of frames passed |
| `DataInNocopy.NocopyDataIn.CheckNeighbours` | src/liblsquic/lsquic_di_nocopy.c:259-303 | OK exactly when the frame overlaps nothing stored or read; DUP only when its bytes and FIN are known; OVERLAP never for a frame that is there with the same FIN |
| `DataInNocopy.NocopyDataIn.Link` | src/liblsquic/lsquic_di_nocopy.c:305-335 | keeps the list sorted and without overlap and all counters exact |
| `DataInNocopy.NocopyDataIn.LinkAndCheck` | src/liblsquic/lsquic_di_nocopy.c:305-404 | the frame is in its place and the advice is what it was, or that the list with its new counters is too slow |
| `DataInNocopy.NocopyDataIn.InsertFrame` | src/liblsquic/lsquic_di_nocopy.c:200-404 | exact conditions for ERR and OK, soundness of DUP and OVERLAP, new bytes, final size, place, counters and order; a switch is advised exactly when a frame was taken in after which the list is too long or has too many holes, small frames or far traversals in a row |
| `DataInNocopy.NocopyDataIn.CheckEfficiency` | src/liblsquic/lsquic_di_nocopy.c:340-363 | exact condition of the alert, and the count of far traversals in a row from the frames behind the inserted one |
| `DataInNocopy.NocopyDataIn.GetFrame` | src/liblsquic/lsquic_di_nocopy.c:407-425 | the first frame if it is at the read offset; otherwise neither a byte nor an unread FIN is there |
| `DataInNocopy.NocopyDataIn.FrameDone` | src/liblsquic/lsquic_di_nocopy.c:428-449 | drops the first frame, loses nothing unread, and keeps counters exact without underflow |
| `DataInNocopy.NocopyDataIn.SwitchImpl` | src/liblsquic/lsquic_di_nocopy.c:460-491 | the new buffer has the same bytes from the read offset on and the same FIN; apart from memory it fails exactly when FIN is in the list and a frame ends past it |
| `DataInNocopy.MoveFrame` | src/liblsquic/lsquic_di_nocopy.c:473-486 | one frame moves unless it ends past a FIN moved before; the hash never takes earlier frames for bytes past FIN |
| `DataInNocopy.NocopyDataIn.ReadableBytes` | src/liblsquic/lsquic_di_nocopy.c:528-543 | length of the maximal run of stored bytes at the read offset |
| `IncomingStreams.IncomingStream.ToHash` | src/liblsquic/lsquic_di_nocopy.c:460-491 | the stream's view of the switch from list to hash |
| `IncomingStreams.IncomingStream.ToList` | src/liblsquic/lsquic_di_hash.c:611-624 | the stream's view of the switch back, which finds no block and loses nothing |
| `IncomingStreams.IncomingStream.MaybeSwitch` | src/liblsquic/lsquic_stream.c:842-859 | follows the advice when switching is on; keeps unread bytes and the final size |
| `IncomingStreams.IncomingStream.InsertOrSwitch` | src/liblsquic/lsquic_stream.c:1121-1166 | insertion with switch and retry on OVERLAP: bytes come only from before or from the frame, and accepted frames are stored whole |
| `IncomingStreams.IncomingStream.FrameIn` | src/liblsquic/lsquic_stream.c:1089-1175 | what is stored and known after a frame, that an accepted FIN is the final size and never changes, every reason for refusing a frame, that a frame at odds with the known final size is refused, and when the stream leaves the list: with switching on, a list that has just taken a frame in is not too slow |
| `IncomingStreams.IncomingStream.ReadFrame` | src/liblsquic/lsquic_stream.c:1542-1583 | one turn of the read loop: next stored bytes, nothing unread lost, end only at the final size or, from the hash, on a short stream |
| `IncomingStreams.IncomingStream.Read` | src/liblsquic/lsquic_stream.c:1531-1593 | delivers stored bytes in order; to a reader who takes all it goes on to a gap or the end; it terminates, and fails only for lack of memory or past the final size |
| `StreamRuns.Run` | src/liblsquic/lsquic_stream.c:1089-1593 | over every run the bytes delivered are a prefix of the stream; if all frames were accepted a greedy reader gets exactly what has arrived without a gap, and the end is reported when all has arrived; with memory and a conforming peer all frames are accepted |
| `StreamRuns.ArrivalKeeps` | src/liblsquic/lsquic_stream.c:1089-1175 | an arriving slice keeps the invariant of a run |
| `StreamRuns.ReadKeeps` | src/liblsquic/lsquic_stream.c:1531-1593 | a read keeps the invariant of a run |
| `StreamRuns.Drained` | src/liblsquic/lsquic_stream.c:1531-1593 | a reader that was given all there is stands at a gap in what arrived, or has been told the end |
| `WindowedMax.UpdateShape` | src/liblsquic/lsquic_minmax.c:68-132 | the three choices stay sorted by time and value and within the window |
| `WindowedMax.FirstChoice` | src/liblsquic/lsquic_minmax.c:68-132 | after an update the first choice is the first of the three that is still in the window and greater than the measurement, or the measurement |
| `WindowedMax.OtherChoices` | src/liblsquic/lsquic_minmax.c:90-131 | exactly when the second and the third choice are replaced, a quarter and half a window without a new one included |
| `WindowedMax.FilterIsMeasured` | src/liblsquic/lsquic_minmax.c:68-132 | after every measurement the filter shows a value measured within the window that is at least the last one and that nothing measured since exceeds |
| `WindowedMax.MaximumExactly` | src/liblsquic/lsquic_minmax.c:68-132 | the filter shows the maximum of the window if and only if no sample of it taken no later than the first choice exceeds that choice |
| `WindowedMax.MaximumKept` | src/liblsquic/lsquic_minmax.c:68-132 | a filter that shows the maximum goes on showing it while the first choice is in the window |
| `WindowedMax.MaximumMissedInSameRound` | src/liblsquic/lsquic_minmax.c:68-132 | five measurements after which only a sample of the same time as the first choice exceeds it, so that time counts in the condition |
| `WindowedMax.MaximumMissed` | src/liblsquic/lsquic_minmax.c:68-132 | four measurements after which the shown value is below one still in the window |
| `BandwidthSampler.OutstandingWithout` | src/liblsquic/lsquic_bw_sampler.c:155-167 | the sizes on their way add up whatever packet is taken out first |
| `BandwidthSampler.BwSampler.PacketSent` | src/liblsquic/lsquic_bw_sampler.c:94-152 | totals, last number sent and record after sending; bytes sent are acknowledged, lost, on their way or without a record exactly for lack of memory; the last acknowledgement is set anew exactly when nothing is in flight |
| `BandwidthSampler.BwSampler.PacketLost` | src/liblsquic/lsquic_bw_sampler.c:155-167 | moves a packet's size from on its way to lost, once |
| `BandwidthSampler.BwSampler.PacketAcked` | src/liblsquic/lsquic_bw_sampler.c:170-262 | moves a packet to acknowledged, once; when there is a sample and what it says; conservation up to changes of size; the packet becomes the last acknowledgement from which later records start |
| `BandwidthSampler.Measure` | src/liblsquic/lsquic_bw_sampler.c:202-251 | no subtraction is negative and no divisor zero; the sample is the slower of the send and the acknowledgement rate |
| `BandwidthSampler.SampleIsDelivered` | src/liblsquic/lsquic_bw_sampler.c:207-249 | a sample never claims more than was acknowledged, or sent, in its time |
| `BbrController.Bbr.GetCwnd` | src/liblsquic/lsquic_bbr.c:860-876 | the window that senders see is at least four packets and at most 2000, but for PROBE_RTT with a window from the bandwidth; it is four packets in PROBE_RTT without that option, the lesser of the two windows in recovery, and the congestion window otherwise |
| `BbrSteps.TargetIs` | src/liblsquic/lsquic_bbr.c:306-323 | the target is the whole part of gain times bandwidth-delay product, of gain times initial window when that is nothing, and not below four packets |
| `BbrController.Bbr.Reinit` | src/liblsquic/lsquic_bbr.c:166-201 | a new start sets everything to its first value but recovery, the end of the round and what is remembered since the last PROBE_RTT, and keeps all invariants |
| `BbrController.Bbr.BeginAck` | src/liblsquic/lsquic_bbr.c:487-501 | an acknowledgement starts empty and remembers the total so far |
| `BbrController.Bbr.Ack` | src/liblsquic/lsquic_bbr.c:372-396 | collects samples, bytes and the largest packet number and keeps the invariants |
| `BbrController.Bbr.Lost` | src/liblsquic/lsquic_bbr.c:475-484 | counts a loss and keeps the invariants |
| `BbrController.Bbr.Sent` | src/liblsquic/lsquic_bbr.c:436-452 | counts a packet that has no record yet, once, and keeps the invariants |
| `BbrController.Bbr.TakeSamples` | src/liblsquic/lsquic_bbr.c:542-566 | feeds the filter with every sample that counts and keeps the relation between samples and bandwidth |
| `BbrSteps.LeastRttIs` | src/liblsquic/lsquic_bbr.c:542-557 | the value found in the loop is the least RTT of the samples |
| `BbrController.Bbr.UpdateBandwidthAndMinRtt` | src/liblsquic/lsquic_bbr.c:535-597 | exactly when the minimum RTT expires, and what it, its time and the least RTT since the last PROBE_RTT become |
| `BbrController.Bbr.UpdateRecoveryState` | src/liblsquic/lsquic_bbr.c:601-634 | recovery starts with a loss, leaves conservation with a round, and ends exactly when a packet after the last loss is acknowledged without losses |
| `BbrController.Bbr.UpdateAckAggregation` | src/liblsquic/lsquic_bbr.c:636-665 | the bytes of the epoch, its start and the excess after an acknowledgement, and the windowed maximum of the excess |
| `BbrSteps.ExpectedIs` | src/liblsquic/lsquic_bbr.c:644-645 | without wrap-around the expected bytes are the rate times the time since the epoch began |
| `BbrController.Bbr.UpdateGainCyclePhase` | src/liblsquic/lsquic_bbr.c:669-718 | exactly when the cycle moves on, and then its offset, its start and its gain |
| `BbrController.Bbr.CheckIfFullBwReached` | src/liblsquic/lsquic_bbr.c:730-770 | the assertion holds in every run; full bandwidth only after three rounds without growth |
| `BbrController.Bbr.EnterProbeBw` | src/liblsquic/lsquic_bbr.c:785-803 | the cycle never starts at gain 0.75 |
| `BbrController.Bbr.MaybeExitStartupOrDrain` | src/liblsquic/lsquic_bbr.c:816-839 | STARTUP is left exactly at full bandwidth, DRAIN exactly when the queue is drained |
| `BbrController.Bbr.MaybeEnterOrExitProbeRtt` | src/liblsquic/lsquic_bbr.c:880-936 | PROBE_RTT is entered exactly on expiry, and left exactly when its time is over and a round has begun |
| `BbrController.Bbr.CalculatePacingRate` | src/liblsquic/lsquic_bbr.c:940-1000 | the new rate; before full bandwidth it does not go down |
| `BbrController.Bbr.CalculateCwnd` | src/liblsquic/lsquic_bbr.c:1004-1043 | the new window, within its limits, growing by no more than the bytes acknowledged and not shrinking before full bandwidth |
| `BbrController.Bbr.CalculateRecoveryWindow` | src/liblsquic/lsquic_bbr.c:1047-1087 | a window zeroed on entry is at least four packets in the same call; the exact new value otherwise |
| `BbrController.Bbr.EndAck` | src/liblsquic/lsquic_bbr.c:1134-1196 | model, modes, rate and windows after an acknowledgement, from those before, its samples, bytes and losses and what is in flight: filter, minimum RTT, recovery, aggregation, full bandwidth, mode, gain cycle, pacing rate, window and recovery window; what the sampler is told; all invariants; and one more record in the log, which shows the state |
| `BbrController.Run` | src/liblsquic/lsquic_bbr.c:166-1196 | over every bracketed run the windows stay within the limits; the log shows exactly the acknowledgements and restarts with their times, windows and the samples that they brought; every window in it belongs to its state; the changes of mode in it are in order; the filter is the one fed with all these samples; and the sampler moves as the events say |
| `BbrFilter.FilterIsWindowed` | src/liblsquic/lsquic_bbr.c:535-566 | the filter after any log is the windowed maximum, over ten rounds, of the samples that count since the last restart |
| `BbrFilter.ShownIsSample` | src/liblsquic/lsquic_bbr.c:535-566 | in every run the bandwidth shown is that of a sample of an acknowledgement since the last restart, at most ten rounds before the last one that counts |
| `BbrFilter.ShownIsMaximum` | src/liblsquic/lsquic_bbr.c:535-566 | in every run it is the maximum of the window if and only if no sample of it taken no later than the first choice exceeds that choice |
| `BbrFilter.NewSamplesShown` | src/liblsquic/lsquic_bbr.c:535-566 | in every run the bandwidth shown is no less than any sample that counts of the last acknowledgement |
| `BbrSteps.ModesInOrder` | src/liblsquic/lsquic_bbr.c:1134-1180 | modes that follow as EndAck says change in order: no step from one mode or gain to another that the design does not have |
| `BbrRules.StepRecorded` | src/liblsquic/lsquic_bbr.c:880-936 | a step that fits the old state may follow in the log and the log shows the new state |
| `BbrRules.LeftInOrder` | src/liblsquic/lsquic_bbr.c:898-933 | in every run PROBE_RTT is left only 200 ms after little was in flight and after a round start since then |
| `BbrRules.LowGainAfterHigh` | src/liblsquic/lsquic_bbr.c:669-718 | in every run gain 0.75 goes back to gain 1.25 within the same stay in PROBE_BW |
| `BbrRules.FullForGood` | src/liblsquic/lsquic_bbr.c:816-933 | once full bandwidth was reached STARTUP does not come back without a restart |
| `HeapOrder.StepUp` | src/liblsquic/lsquic_attq.c:143-149 | a swap with the parent moves the one misplaced element up and leaves a heap otherwise |
| `HeapOrder.StepDown` | src/liblsquic/lsquic_attq.c:176-203 | a swap with the smallest child moves the one misplaced element down and leaves a heap otherwise |
| `HeapOrder.Replaced` | src/liblsquic/lsquic_attq.c:221-235 | the last element in the place of another is misplaced in one direction at most, as the code tests |
| `AdvisoryTickQueue.SwapKeeps` | src/liblsquic/lsquic_attq.c:97-107 | a swap keeps all indices and links and swaps the times |
| `AdvisoryTickQueue.Attq.Swap` | src/liblsquic/lsquic_attq.c:97-107 | the same in place |
| `AdvisoryTickQueue.Attq.Add` | src/liblsquic/lsquic_attq.c:110-154 | succeeds exactly when memory was had; then the queue is the old one with this connection; heap order, indices and links hold |
| `AdvisoryTickQueue.Attq.Pop` | src/liblsquic/lsquic_attq.c:157-173 | nothing exactly when no connection is before the cutoff; otherwise an earliest one, and the queue without it |
| `AdvisoryTickQueue.Attq.Heapify` | src/liblsquic/lsquic_attq.c:176-203 | restores heap order below an element and keeps the entries |
| `AdvisoryTickQueue.Attq.Remove` | src/liblsquic/lsquic_attq.c:206-238 | the queue is the old one without this connection, also when its element is the last one |
| `AdvisoryTickQueue.Attq.PopAll` | src/liblsquic/lsquic_engine.c:2241-2249 | gives exactly the connections before the cutoff, each once, in order of time, and leaves exactly the others |
| `AdvisoryTickQueue.Attq.CountBefore` | src/liblsquic/lsquic_attq.c:241-259 | the count over the levels up to the first one not wholly before the cutoff; never too high, zero exactly when there is none; it terminates |
| `AdvisoryTickQueue.Attq.CountIsConns` | src/liblsquic/lsquic_attq.c:241-259 | the number it falls short of is the number of connections before the cutoff |
| `Fnv128.Expand` | src/liblsquic/lsquic_crypto.c:98-117 | the product of four by four limbs, by columns |
| `Fnv128.WordsExact` | src/liblsquic/lsquic_crypto.c:110-132 | the two words computed are the product modulo 2^128 less the carry that is dropped |
| `Fnv128.Product` | src/liblsquic/lsquic_crypto.c:98-132 | the words of the product, right exactly when the middle products do not carry |
| `Fnv128.Uint128.Times` | src/liblsquic/lsquic_crypto.c:98-132 | the same in place: right exactly when the middle products do not carry, otherwise too small by 2^64 |
| `Fnv128.NoCarry` | src/liblsquic/lsquic_crypto.c:136-141 | no carry for any factor whose low word is below 2^32, such as the FNV prime |
| `Fnv128.CarryHappens` | src/liblsquic/lsquic_crypto.c:117-123 | a pair of numbers for which the carry is dropped |
| `Fnv128.Uint128.Fnv1aInc` | src/liblsquic/lsquic_crypto.c:134-144 | continues the mathematical hash over the bytes |
| `Fnv128.FnvConcat` | src/liblsquic/lsquic_crypto.c:147-156 | hashing two strings in turn is hashing their concatenation |
| `Fnv128.XorBit` | src/liblsquic/lsquic_crypto.c:134-144 | a bit of the exclusive or is set exactly when the bits differ |
| `Fnv128.Fnv1a128Of3` | src/liblsquic/lsquic_crypto.c:147-156 | the hash of three buffers is the mathematical hash of their concatenation |
| `CertWire.LeExact` | src/liblsquic/lsquic_crt_compress.c:407-437 | numbers that fit their field survive printing and parsing |
| `CertWire.ParseWire` | src/liblsquic/lsquic_crt_compress.c:407-478 | parsing undoes printing of entries, whatever follows |
| `CertLayout.WireLaid` | src/liblsquic/lsquic_crt_compress.c:407-437 | where each printed entry lies and what its bytes are |
| `CertLayout.ParseExactly` | src/liblsquic/lsquic_crt_compress.c:440-482 | a message parses into entries and a rest exactly when it is these entries, printed, and the rest |
| `CertCompress.DictRebuilt` | src/liblsquic/lsquic_crt_compress.c:285-314 | both ends build the same dictionary, because it depends only on the certificates that are not compressed |
| `CertLayout.DictExactly` | src/liblsquic/lsquic_crt_compress.c:285-314 | a string is the dictionary exactly when it ends with the common substrings and each certificate that is not compressed lies at the offset that the sizes of those after it give |
| `CertLayout.DataLaid` | src/liblsquic/lsquic_crt_compress.c:655-671 | each compressed certificate lies behind its size, in the order of the chain |
| `CertLayout.MessageLaid` | src/liblsquic/lsquic_crt_compress.c:581-690 | the message is the printed entries, the size of the data and the deflated data; without data the entries alone |
| `CertCompress.ResolvedAllIs` | src/liblsquic/lsquic_crt_compress.c:485-574 | the receiver finds the certificates that were not compressed |
| `CertCompress.FilledIs` | src/liblsquic/lsquic_crt_compress.c:774-797 | the compressed certificates are cut out of the data again |
| `CertCompress.RoundTrip` | src/liblsquic/lsquic_crt_compress.c:581-813 | the message is understood as the chain exactly when the compressed part is at most 128 KB |
| `CertMethods.CompareIsZero` | src/liblsquic/lsquic_crt_compress.c:215-227 | the comparison is zero exactly for equal certificates |
| `CertMethods.HashAtIs` | src/liblsquic/lsquic_crt_compress.c:354-358 | the hash read from a list is the eight-byte number that lies there |
| `CertMethods.Search` | src/liblsquic/lsquic_crt_compress.c:256-276 | what the binary search finds is the certificate, and in a set that is in order it is found exactly when it is there |
| `CertMethods.MatchCommonCert` | src/liblsquic/lsquic_crt_compress.c:231-281 | a match is a certificate of a set that the client lists, and when the sets are in order there is one exactly when such a set has it |
| `CertMethods.GetCertsEntries` | src/liblsquic/lsquic_crt_compress.c:328-379 | a certificate goes by hash exactly when the client lists its hash; otherwise by a match, exactly when a listed set has it; otherwise compressed |
| `CertMethods.MakeZlibDict` | src/liblsquic/lsquic_crt_compress.c:285-314 | the dictionary: its end is the common substrings, and each certificate that is not compressed lies before them behind those that follow it in the chain; of the size computed beforehand |
| `CertMethods.GetEntriesSize` | src/liblsquic/lsquic_crt_compress.c:381-405 | the size is that of the printed entries |
| `CertMethods.SerializeCertEntries` | src/liblsquic/lsquic_crt_compress.c:407-437 | entry after entry, each with its type, its eight-byte hash and its four-byte index where they belong, and the end marker |
| `CertMethods.GetCertsCount` | src/liblsquic/lsquic_crt_compress.c:440-482 | number of entries, or -1 exactly for a message that cannot be parsed |
| `CertMethods.ParseEntries` | src/liblsquic/lsquic_crt_compress.c:485-574 | in a message that was counted no read and no write is out of bounds; the result is what the entries stand for |
| `CertMethods.CompressCerts` | src/liblsquic/lsquic_crt_compress.c:581-690 | the message for the entries chosen: the entries, the size of the data, and the data deflated with the dictionary, when a certificate is compressed; the entries alone otherwise |
| `CertMethods.DecompressCerts` | src/liblsquic/lsquic_crt_compress.c:694-813 | the chain that a counted message stands for, or an error |
| `CertMethods.SendAndReceive` | src/liblsquic/lsquic_crt_compress.c:581-813 | round trip, with the exact condition of success |
| `FrameMachine.FoldConcat` | src/liblsquic/lsquic_frame_reader.c:972-979 | cutting the input makes no difference to the byte machine |
| `FrameMachine.FoldAll` | src/liblsquic/lsquic_frame_reader.c:451-489 | bytes that complete a phase take effect however they come |
| `FrameReaders.FragmentRead` | src/liblsquic/lsquic_frame_reader.c:700-732 | one read of a fragment refines the byte machine |
| `FrameReaders.FrameReader.PrepareForPayload` | src/liblsquic/lsquic_frame_reader.c:245-447 | every frame header leads where the machine goes, with the same call to the owner |
| `FrameReaders.FrameReader.ReadHttpFrameHeader` | src/liblsquic/lsquic_frame_reader.c:451-470 | refines the machine for any number of header bytes |
| `FrameReaders.FrameReader.SkipPayload` | src/liblsquic/lsquic_frame_reader.c:474-489 | refines the machine; a frame without payload is an error |
| `FrameReaders.FrameReader.SkipHeadersPadding` | src/liblsquic/lsquic_frame_reader.c:492-509 | refines the machine; never asks for more than its buffer holds |
| `FrameReaders.FrameReader.ReadHeadersBlockFragment` | src/liblsquic/lsquic_frame_reader.c:700-732 | refines the machine; the block is passed on when the fragment is complete and ends the block |
| `FrameReaders.FrameReader.ReadPesw` | src/liblsquic/lsquic_frame_reader.c:757-833 | refines the machine for padding, priority and promised stream |
| `FrameReaders.FrameReader.ReadHeaders` | src/liblsquic/lsquic_frame_reader.c:735-844 | refines the machine in each part of the frame, and for a frame that is all prefix |
| `FrameReaders.FrameReader.ReadContin` | src/liblsquic/lsquic_frame_reader.c:847-873 | refines the machine; bytes go behind those of the frames before |
| `FrameReaders.FrameReader.ReadSettings` | src/liblsquic/lsquic_frame_reader.c:876-908 | refines the machine, one setting at a time; which setting that is says SettingsRead |
| `FrameReaders.FrameReader.ReadPriority` | src/liblsquic/lsquic_frame_reader.c:911-947 | refines the machine; self-dependency is reported |
| `FrameReaders.FrameReader.Read` | src/liblsquic/lsquic_frame_reader.c:950-979 | one call does what the machine does with the same bytes one at a time |
| `FrameReaders.Drive` | src/liblsquic/lsquic_frame_reader.c:972-979 | the calls to the owner depend only on the input, not on the short reads |
| `FrameRuns.FrameConsumed` | src/liblsquic/lsquic_frame_reader.c:245-979 | a frame takes nine bytes and its payload, no more and no less, unless it is an error |
| `FrameRuns.OpeningFolds` | src/liblsquic/lsquic_frame_reader.c:700-844 | a frame that opens a block keeps its fragment, or passes it on if it ends the block |
| `FrameRuns.ContinuationFolds` | src/liblsquic/lsquic_frame_reader.c:847-873 | a CONTINUATION adds its payload to the block, and passes it on if it ends the block |
| `FrameRuns.BlockAssembled` | src/liblsquic/lsquic_frame_reader.c:340-873 | the block passed on is the fragment followed by the payloads of all its CONTINUATIONs, once, or exactly when that is over the limit one error is reported and nothing passed on |
| `FrameLaws.HeaderReads` | src/liblsquic/lsquic_frame_reader.c:245-258 | a header printed in network order is read back, whatever the reserved bit |
| `FrameLaws.SettingsRead` | src/liblsquic/lsquic_frame_reader.c:876-908 | a SETTINGS frame with any list of settings brings exactly these, each once and in order |
| `FrameLaws.PriorityRead` | src/liblsquic/lsquic_frame_reader.c:911-947 | a PRIORITY frame brings its stream, exclusive bit and weight from 1 to 256, or the error of a stream that depends on itself |
| `FrameLaws.HeadersRead` | src/liblsquic/lsquic_frame_reader.c:735-844 | a HEADERS frame with any padding and dependency that is a whole block brings END_STREAM, dependency and fragment as they were put in |
| `FrameLaws.PromiseRead` | src/liblsquic/lsquic_frame_reader.c:735-844 | a PUSH_PROMISE frame with any padding that is a whole block brings the promised stream and the fragment as they were put in |
| `FrameRuns.StaleAssembled` | src/liblsquic/lsquic_frame_reader.c:340-873 | a block that starts with an empty fragment: how many bytes of the block before are counted again, whether it is passed on behind them or refused because of them, and that within the limit it is right exactly when there are none |
| `FrameRuns.EndStreamLost` | src/liblsquic/lsquic_frame_reader.c:847-873 | HEADERS with END_STREAM and a CONTINUATION, whose block is passed on without it |
| `FrameRuns.StaleByte` | src/liblsquic/lsquic_frame_reader.c:735-873 | three frames after which a block is passed on with a byte that was never received |
| `FrameMachine.AlwaysTidy` | src/liblsquic/lsquic_frame_reader.c:720-728 | after any input a reader outside a header block keeps no block |
| `FrameRuns.EmptyFragmentIsSilent` | src/liblsquic/lsquic_frame_reader.c:735-754 | a frame with an empty fragment passes nothing on; what it leaves behind |

## Left out

- Blocks, frames and queue elements are values in a table, a list or a map from address to element, so pointer aliasing and dangling pointers are not captured; the last block handed out is remembered by its offset, and the `db_set`, `db_data` and header buffers are sequences.
- The windowed maximum and the blocks are updated by functions and methods that return the new value; the fields that hold them are what changes in place.
- Times, offsets and byte counts are unbounded natural numbers; wrap-around of 64-bit counters is not captured except in `Fnv128`.
- Memory allocation fails as its inputs say in the stream buffers, the sampler and the tick queue; in the frame reader and the certificate code allocations succeed.
- The bytes that the frame reader decodes without having received them (`StaleAssembled`) are zero in the model; the source leaves them uninitialised.
- Stream filters (HTTP/3 framing and gQUIC headers), stream resets, discarding of unwanted data, flow-control windows and tickable state in lsquic_stream.c; the answer of flow control is a parameter.
- In the read loop the inner loop of lsquic_stream.c:1548-1588 runs once per frame, because without a filter a frame is either read to its end or the read was short.
- The fields of the BBR controller are grouped into records (model, modes, windows, options), each replaced as a whole when one of its parts changes.
- BBR gains are real numbers cut down to whole numbers, so rounding of `float` is not captured.
- BBR logging to files and the app-level pacing rate query.
- The random offset of the gain cycle is any number; the minimum RTT of the connection is set from outside.
- Internals of zlib and HPACK: zlib is a pair of functions that loses nothing, a header block is passed on as bytes, and errors of HPACK decoding are not among the calls.
- The contents of the common certificate sets, the common substrings and the 64-bit hash of a certificate are parameters; the round trip needs that no two sets share a hash and that no other cached certificate has the hash of one that is sent by hash.
- The assertion of lsquic_crt_compress.c:708-709, which allows fewer than 10000 certificates, while the test after it allows 10000; `DecompressCerts` follows the test, so that 10000 certificates need a build without assertions.
- CertMethods.Search: states that what is there is found only for a set that is in order; that the sets of the data files are in order is not shown, because the data files are not part of this model.
- The native 128-bit hash for x86-64, which is the specification itself; the shortened output of the hash.
- The remaining components of lsquic: other congestion controllers, crypto, HTTP/3, QPACK, engine and event code.
