# VIGIA edge model

A Dafny 4.11 model of the parts of VIGIA where state, concurrency and arithmetic carry the risk:
what the gateway and the firmware put on the wire, what is shared between processes, what is kept
between frames, and the formulas that turn depth, boxes and vibration into hazard scores. It sits
beside the C++ and C sources and is checked with `dafny verify dfyconfig.toml`.

| file | part of the system | main results |
|---|---|---|
| `Seqlock.dfy`, `ShmRing.dfy`, `ShmSlot.dfy`, `MetaRing.dfy` | the shared-memory rings for camera frames and per-frame metadata, and the packer | snapshots under every interleaving |
| `PlaneFit.dfy` | plane fit and residual statistics of a depth region | optimality, uniqueness, the determinant in closed form |
| `Ubx.dfy` | GPS receiver: UBX sender and byte-fed parser | both directions of the round trip, damage detection |
| `Cobs.dfy`, `Deframer.dfy` | COBS codec of both ends, and the stream deframer | round trip, meaning of any byte stream |
| `EventRing.dfy`, `EventPromoter.dfy`, `PromoterRuns.dfy`, `EventStore.dfy` | event promotion: lock-free ring, dedup, batching | FIFO, spacing of events, nothing lost |
| `Nms.dfy` | greedy non-maximum suppression | the unique stable set, idempotence |
| `IssFilter.dfy`, `Temporal.dfy`, `Ttc.dfy` | estimators with memory | invariants over whole runs, scale invariance |
| `BleSession.dfy` | BLE handshake, control and telemetry gate | exactly when a session is bound |
| `Common.dfy` | shared types, floats on the wire, and facts about sums of squares | |

Code that changes state is a class or a loop here too, proved equal to a function of the old state;
the properties are lemmas about those functions over whole runs.

## What the model takes as given

- C++ floats are real numbers. Square roots and distances on the globe are arbitrary functions;
  cryptographic primitives are arbitrary functions, of which only the length of derived keys and,
  where a lemma says so, success is required. Randomness, clocks and schedules are inputs.
- Concurrency is interleaving of single accesses with sequential consistency. Each ring has one
  writer. For the metadata ring this is what the header says (frame_metadata_ring.hpp:12), but
  camera_node.cpp:94-99 writes to it as well; two writers are not covered. Only the rings are taken
  apart like this: the BLE handlers and the telemetry tick run on two threads over plain fields
  (ble_gatt_node.hpp:68-89), and here each is one whole step.
- `std::sort` in the suppression may leave any permutation with descending scores.
- `cv::Rect` intersection is the empty rectangle unless the two share a pixel; OpenCV itself is not
  part of this model.

## Where the code and its documentation differ

- frame_metadata_ring.hpp:7-10 promises that a reader retries while a write is open. `continue`
  inside the do-while jumps to the loop test, so an odd first reading that equals a left-over odd
  second reading ends the loop with a torn copy. An even final reading
  keeps the promise (`MetaRing.EvenExitKeeps`); with odd ones, any write to any ring can be caught so
  that the copy is torn (`MetaRing.AnyWriteCanTear`). A caller cannot see that reading, so all it can
  rely on is a pause: the promise is safe exactly when nothing is written
  (`MetaRing.KeptIffNothingIsWritten`).
- iss_filter.hpp:23 says that smoothing kills single-frame jolts. A jolt, up or down, is flagged
  exactly when what the weights leave of it still reaches the threshold in as many frames in a row as
  the gate asks for, each frame at its own speed (`IssFilters.JoltedRunFlagsIff`). With the shipped
  settings a full-scale one is flagged (`IssFilters.OneJoltIsFlagged`), so is a dip
  (`IssFilters.DipFlags`), and slowing down can get a smaller one flagged
  (`IssFilters.SlowingDownFlagsJolt`).
- iss_filter.cpp:27 says that the background keeps tracking below the speed floor; no field but the
  counter changes there, and the model follows the code.
- ttc_estimator.hpp raises an alert for an object whose height does not change, in the first frame
  that is compared with the initial median of 0, and again after every reset
  (`Ttc.SteadyHeightAlertsIff`, `Ttc.SteadyHeightAlertsTwice`).
- event_promoter.cpp:124 subtracts unsigned timestamps, so a candidate stamped before a recorded
  event empties the history, and one stamped in the future prunes too much
  (`PromoterRuns.EarlyStampDefeatsDedup`, `PromoterRuns.SafeCheckTimeIsExact`). coordinator.cpp:222
  builds candidates with stamp 0, for which the spacing theorem needs nothing.
- analytical.cpp falls back to the zero plane for a single row or column. Such a region may lie on a
  plane and still show a depression, exactly if a depth is negative, and roughness, exactly if its
  depths differ (`PlaneFit.PlanarMetricsIff`). The regions of coordinator.cpp:198-202 are normalised
  to 0..1 (analytical.cpp:374-376), so they never show the first but can show the second.

## Model

| member | source | states |
|---|---|---|
| `Seqlock.AttemptIsConsistent` | vigia_ws/src/vigia_edge_node/include/vigia_edge_node/shm_ring_buffer.hpp:122-145 | an attempt that reads an even lock and finds it unchanged afterwards copied exactly one boundary between writes, for every placement of the writer's single stores between the reads; the lock is a 32-bit counter and fewer than 2^31 writes fall inside one attempt |
| `Seqlock.RunInv` | vigia_ws/src/vigia_edge_node/include/vigia_edge_node/shm_ring_buffer.hpp:89-108 | after every step of every run the lock has counted two increments per completed write, one more while a write is open, and between writes memory is the newest boundary |
| `Seqlock.RunChained` | vigia_ws/src/vigia_edge_node/include/vigia_edge_node/shm_ring_buffer.hpp:89-108 | each boundary of every run is the previous one with one whole write applied |
| `ShmRing.ShmRingBuffer.WriteFrame` | vigia_ws/src/vigia_edge_node/include/vigia_edge_node/shm_ring_buffer.hpp:82-109 | write_frame increments the lock, makes the protocol's stores in program order, and increments it again; memory ends as those stores leave it |
| `ShmRing.ProgramEffect` | vigia_ws/src/vigia_edge_node/include/vigia_edge_node/shm_ring_buffer.hpp:84-105 | one frame replaces its own slot and the head and leaves every other slot alone; at most one slot's worth of pixels is copied |
| `ShmRing.SlotShowsNewest` | vigia_ws/src/vigia_edge_node/include/vigia_edge_node/shm_ring_buffer.hpp:86-105 | after any frames a slot shows the newest frame whose id is congruent to it modulo the depth, and the head is the last frame's slot |
| `ShmRing.RingHoldsLatest` | vigia_ws/src/vigia_edge_node/include/vigia_edge_node/shm_ring_buffer.hpp:86-105 | with consecutive ids the ring holds exactly the last `depth` frames, each at its residue |
| `ShmRing.SnapshotAllLoop` | vigia_ws/src/vigia_edge_node/include/vigia_edge_node/shm_ring_buffer.hpp:122-146 | the retrying reader loop, access by access, returns what the recursive reader returns |
| `ShmRing.SnapshotIsOneBoundary` | vigia_ws/src/vigia_edge_node/include/vigia_edge_node/shm_ring_buffer.hpp:116-147 | whenever snapshot_all returns, all words copied are those of the ring after one whole number of write_frame calls, completed between call and return |
| `ShmRing.SnapshotReturnsWhenQuiet` | vigia_ws/src/vigia_edge_node/include/vigia_edge_node/shm_ring_buffer.hpp:122-146 | the call returns once the writer pauses for as long as two attempts take |
| `ShmRing.SnapshotShowsLatestFrames` | vigia_ws/src/vigia_edge_node/include/vigia_edge_node/shm_ring_buffer.hpp:116-147 | under every interleaving there is one k between the counts completed at call and return such that the head and, for each of the last `depth` of the first k frames, id, timestamp and (given room) pixels are what the reader got |
| `ShmSlot.LockCountsVisits` | vigia_ws/src/vigia_edge_node/include/vigia_edge_node/shm_ring_buffer.hpp:84-102 | after any frames a slot's own lock is twice the number of frames the slot has had, modulo 2^32 |
| `ShmSlot.SnapshotSlotOnce` | vigia_ws/src/vigia_edge_node/include/vigia_edge_node/shm_ring_buffer.hpp:150-167 | the single-slot snapshot, access by access: false at once on an odd slot lock, else the copy and whether the lock reads the same again |
| `ShmSlot.SlotSnapshotIsOneBoundary` | vigia_ws/src/vigia_edge_node/include/vigia_edge_node/shm_ring_buffer.hpp:150-167 | whenever the single-slot snapshot returns true, under every interleaving, the words copied are those of the slot after one whole number of frames: no fewer than were completed at the call and at most one more than at the return; fewer than 2^31 - 1 frames fall inside the call |
| `ShmSlot.SlotSnapshotShowsOneFrame` | vigia_ws/src/vigia_edge_node/include/vigia_edge_node/shm_ring_buffer.hpp:150-167 | if the slot had a frame before the call, those words are the id, timestamp, size and, as far as the buffer reaches, pixels of one frame, the newest of the slot at that boundary |
| `MetaRing.FrameMetadataRing.WriteMetadata` | vigia_ws/src/vigia_edge_node/include/vigia_edge_node/frame_metadata_ring.hpp:73-78 | write_metadata is lock, the record byte by byte into slot write_idx % 300, the incremented index, unlock |
| `MetaRing.MemoryHoldsRing` | vigia_ws/src/vigia_edge_node/include/vigia_edge_node/frame_metadata_ring.hpp:73-78 | after any number of records the index is that number modulo 2^32 and each slot holds the newest record written to it |
| `MetaRing.SnapshotLoop` | vigia_ws/src/vigia_edge_node/include/vigia_edge_node/frame_metadata_ring.hpp:84-92 | the do-while loop with its `continue`, including buffers and second readings left over from earlier attempts |
| `MetaRing.EvenExitKeeps` | vigia_ws/src/vigia_edge_node/include/vigia_edge_node/frame_metadata_ring.hpp:84-92 | a call whose final attempt read an even lock returns one boundary, under every interleaving |
| `MetaRing.OddExitTears` | vigia_ws/src/vigia_edge_node/include/vigia_edge_node/frame_metadata_ring.hpp:86-92 | the schedule is constructed: the loop ends on an odd lock reading equal to a left-over odd second reading |
| `MetaRing.AnyWriteCanTear` | vigia_ws/src/vigia_edge_node/include/vigia_edge_node/frame_metadata_ring.hpp:84-92 | for every ring and every record some interleaving gives a snapshot that is not the ring before the write, nor the ring after it unless the slot held that record already |
| `MetaRing.OnlyEvenExitsAreTrustworthy` | vigia_ws/src/vigia_edge_node/include/vigia_edge_node/frame_metadata_ring.hpp:84-92 | EvenExitKeeps and AnyWriteCanTear together: which parity of the final lock reading can be trusted on all runs |
| `MetaRing.KeptIffNothingIsWritten` | vigia_ws/src/vigia_edge_node/include/vigia_edge_node/frame_metadata_ring.hpp:84-92 | what a caller can tell beforehand: on any ring, every snapshot taken while a list of records is written is one boundary, under every interleaving, if and only if the list is empty |
| `MetaRing.PackFrameMetadataArray` | vigia_ws/src/vigia_edge_node/src/anti_death_node.cpp:567-594 | the records packed are the 14 serialized fields of frames[(write_idx - n + i) % 300] with n = min(write_idx, 300) |
| `MetaRing.SnapshotAndPack` | vigia_ws/src/vigia_edge_node/src/anti_death_node.cpp:562-595 | a snapshot that ended on an even lock packs to exactly the fields of the last min(k mod 2^32, 300) records of a prefix of k writes, oldest first, k completed between call and return; no bound on the number of writes |
| `PlaneFit.SumMoments` | src/analytical.cpp:395-408 | the nested accumulation loops compute the moments |
| `PlaneFit.SumResiduals` | src/analytical.cpp:437-448 | the nested residual loops compute sum, sum of squares and minimum |
| `PlaneFit.ComputeDepthResiduals` | src/analytical.cpp:382-458 | the whole function: empty regions give zeros, otherwise the statistics of the residuals of the fitted or the zero plane |
| `PlaneFit.DenominatorClosedForm` | src/analytical.cpp:395-415 | the accumulated denominator is N^3 (rows^2 - 1) (cols^2 - 1) / 144 on every grid |
| `PlaneFit.SolvableIffTwoByTwo` | src/analytical.cpp:410-419 | the plane branch is taken if and only if the region has at least two rows and two columns |
| `PlaneFit.FitIsNormal` | src/analytical.cpp:419-435 | whenever that branch is taken, (a, b, c) solves all three normal equations |
| `PlaneFit.NormalMeansOrthogonal` | src/analytical.cpp:410-448 | a plane solves the normal equations if and only if its residuals sum to zero and are orthogonal to x and to y |
| `PlaneFit.FitIsLeastSquares` | src/analytical.cpp:419-435 | no plane has a smaller sum of squared residuals than the fitted one, and no other plane has as small a one |
| `PlaneFit.FitBalances` | src/analytical.cpp:437-454 | the residuals of the fitted plane sum to zero, also weighted by x and by y, and their minimum is at most zero |
| `PlaneFit.DepressionZeroIffPlane` | src/analytical.cpp:450-478 | with two rows and two columns the mean residual is 0 and the depression is 0 if and only if all pixels lie on one plane; the roughness is then the root of 0 |
| `PlaneFit.LinesAreNotFitted` | src/analytical.cpp:417-419 | a single row or column gets the zero plane, so its residuals are the depths themselves |
| `PlaneFit.VarianceZeroIffLevel` | src/analytical.cpp:450-455 | the variance of the residuals of any plane is zero if and only if they are all the same |
| `PlaneFit.LineMetricsIff` | src/analytical.cpp:417-478 | a single row or column shows a depression if and only if some depth is negative, and roughness if and only if its depths differ |
| `PlaneFit.PlanarMetricsIff` | src/analytical.cpp:382-478 | for every region that lies on a plane: no depression if and only if it has two rows and two columns or no negative depth, no roughness if and only if it has two rows and two columns or equal depths |
| `PlaneFit.PitShowsDepression` | src/analytical.cpp:417-473 | any single pixel of negative depth is a plane and shows a depression |
| `PlaneFit.RampShowsRoughness` | src/analytical.cpp:417-475 | any row of two unequal depths is a plane and shows roughness |
| `PlaneFit.VarianceNeedsNoClamp` | src/analytical.cpp:451-455 | the variance under the root is never negative over the reals, for any plane |
| `Ubx.ChecksumIsFletcher` | firmware/src/neo_m8n_driver.c:60-63 | the two byte accumulators are the plain sum and the position-weighted sum modulo 256 |
| `Ubx.UbxSend` | firmware/src/neo_m8n_driver.c:65-92 | the bytes sent are sync, header, payload and the checksum of header and payload |
| `Ubx.UbxReceiver.UbxFeedByte` | firmware/src/neo_m8n_driver.c:251-325 | the nine-state byte parser over its static variables and 128-byte buffer, all indices in range |
| `Ubx.CallbacksAreFrames` | firmware/src/neo_m8n_driver.c:251-325 | on any byte stream every callback is a contiguous stretch of it that is exactly the sender's image of the callback's arguments, and the stretches are disjoint and in order |
| `Ubx.SentIsReceived` | firmware/src/neo_m8n_driver.c:65-92 | the images of any list of messages with payloads of at most 122 bytes give back exactly those messages, in order, and leave the parser in its first state |
| `Ubx.LongFramesAreRefused` | firmware/src/neo_m8n_driver.c:289-296 | a header announcing more than 122 bytes resets the parser without a callback |
| `Ubx.FeedDamaged` | firmware/src/neo_m8n_driver.c:301-323 | a frame whose payload was replaced by one of the same length is called back if and only if the checksum does not change |
| `Ubx.ReplacedByteIsDetected` | firmware/src/neo_m8n_driver.c:60-63 | replacing any one payload byte of any frame by another value yields no callback |
| `Ubx.SwappedBytesAreDetected` | firmware/src/neo_m8n_driver.c:60-63 | swapping any two unequal neighbouring payload bytes yields no callback |
| `Ubx.DamageIsContained` | firmware/src/neo_m8n_driver.c:251-325 | on a line of any frames whose payloads were replaced by others of the same length, exactly those that kept their checksum are called back, in order: a detected frame costs no other frame |
| `Ubx.HandledOnlyGrows` | firmware/src/neo_m8n_driver.c:318-323 | callbacks are never undone, so no prefix of a frame that yields none yields one |
| `Cobs.StuffShape` | src/cobs.cpp:48-50 | an encoded body holds no zero and costs between 1 and 1 + |p| / 254 bytes |
| `Cobs.RoundTrip` | src/cobs.cpp:5-36 | decoding the body of any nonempty payload returns it if and only if the buffer has one byte more than the payload, and nothing otherwise |
| `Cobs.StuffInjective` | src/cobs.cpp:54-75 | no two payloads share an encoding |
| `Cobs.EncodeInto` | src/cobs.cpp:54-75 | the back-patching loop produces the block encoding between delimiters, writes nothing past |p| + |p| / 254 + 3 and touches no byte after what it returns |
| `Cobs.CobsEncode` | src/cobs.cpp:38-76 | the gateway encoder returns nonzero if and only if the payload is nonempty and the worst case fits |
| `Cobs.FirmwareCobsEncode` | firmware/src/cobs_tx_driver.c:13-47 | the device encoder produces the same bytes on its domain of 1 to 200 bytes |
| `Cobs.CobsDecode` | src/cobs.cpp:5-36 | the decoding loop writes what the recursive decoder says, phantom zero stripped, and 0 bytes on malformed input |
| `Deframer.SensorBridge.Detect` | src/sensor_bridge.cpp:127-138 | protocol detection on the first telling byte |
| `Deframer.SensorBridge.ProcessCobsFrame` | src/sensor_bridge.cpp:259-271 | a body is decoded into 256 bytes and kept only when it is a signed packet: size, magic, version, finite values, position and speed in range; any other counts one error |
| `Deframer.SensorBridge.OnChunk` | src/sensor_bridge.cpp:196-236 | one chunk changes the bridge as its bytes do one after the other |
| `Deframer.ReadsDoNotMatter` | src/sensor_bridge.cpp:181-236 | how the stream is chopped into reads makes no difference to protocol detection and to what COBS mode does |
| `Deframer.FeedKeepsInv` | src/sensor_bridge.cpp:202-225 | on any bytes the accumulator stays zero-free and within its cap |
| `Deframer.FeedMeansCut` | src/sensor_bridge.cpp:202-225 | in COBS mode the bodies handed over, the accumulator and the error count on any bytes are those of the stream cut at its zeros with runaway stretches of cap + 1 bytes removed; one error for each runaway and one for each body that is no packet |
| `Deframer.WireIsDeframed` | src/sensor_bridge.cpp:196-236 | the frames of any nonempty payloads that fit the cap hand over exactly their bodies in order, from any state but text mode, preceded only by the flush of pending garbage |
| `Deframer.PacketsSurviveTheLink` | src/sensor_bridge.cpp:259-281 | end to end, the payloads that are signed packets arrive unchanged and in order, and from power-up every other payload counts one error |
| `EventRing.CapacityFits` | src/event_promoter.cpp:31-37 | every configured capacity is clamped to 2..512 |
| `EventRing.EveryInterleavingIsFifo` | src/event_promoter.cpp:130-157 | under every interleaving of single loads, word copies and stores: dequeued followed by pending is enqueued, each event whole, at most capacity - 1 are pending, and no slot is written while it is read |
| `EventRing.ActIsAtomic` | src/event_promoter.cpp:130-157 | every single access of the ring leaves the queue alone or is one whole enqueue or dequeue of a bounded queue, refusals and empty results included |
| `EventRing.EveryInterleavingIsAtomic` | src/event_promoter.cpp:130-157 | every interleaving of single accesses is a legal sequence of atomic calls, each taking effect at one of its own accesses, that explains what was stored, taken, refused and is pending |
| `EventRing.RefusalsAreTrue` | src/event_promoter.cpp:136-153 | a refused enqueue saw a full ring when it loaded head, and an empty dequeue sees an empty ring |
| `EventPromoter.EventPromoter.PruneDedup` | src/event_promoter.cpp:117-128 | the in-place compaction is an order-preserving filter by age in unsigned 64-bit arithmetic |
| `EventPromoter.EventPromoter.IsDuplicate` | src/event_promoter.cpp:90-101 | a candidate is a duplicate if and only if a live entry lies within the radius |
| `EventPromoter.EventPromoter.RecordDedup` | src/event_promoter.cpp:103-115 | the new entry is appended, the oldest dropped only from a history of 128 |
| `EventPromoter.EventPromoter.Enqueue` | src/event_promoter.cpp:130-142 | the ring takes the event unless one free slot is left |
| `EventPromoter.EventPromoter.TryDequeue` | src/event_promoter.cpp:144-157 | the oldest pending event is taken |
| `EventPromoter.EventPromoter.PendingCount` | src/event_promoter.cpp:173-180 | the count of pending events |
| `EventPromoter.EventPromoter.SubmitCandidate` | src/event_promoter.cpp:44-65 | gates, dedup check, stamp, number, enqueue, record, with what each early return leaves behind |
| `PromoterRuns.AcceptedAreNumbered` | src/event_promoter.cpp:52-62 | in every run the accepted events are those taken followed by those pending, numbered 1, 2, 3, ... without gaps |
| `PromoterRuns.RunsPlayTheAtomicQueue` | src/event_promoter.cpp:44-157 | in every run of submissions and takes the calls on the ring, with their results, are a legal history of the same atomic queue |
| `PromoterRuns.CheckTimeIsSafe` | src/event_promoter.cpp:90-128 | pruning at a candidate's own timestamp keeps every entry the clock would keep if and only if a condition on the newest stamp, the clock and the window holds |
| `PromoterRuns.AcceptedEventsAreSpreadOut` | src/event_promoter.cpp:44-128 | with a clock that does not go back, two accepted events at most 128 acceptances apart and stamped within the window lie farther apart than the radius |
| `PromoterRuns.UnsafeCheckBreaksSpacing` | src/event_promoter.cpp:90-128 | for every stamp, clock and newest event for which the check time is unsafe, and every configuration with two places apart, a run is constructed whose last candidate breaks the spacing |
| `PromoterRuns.SafeCheckTimeIsExact` | src/event_promoter.cpp:44-128 | in such a configuration a candidate with its own stamp can never break the spacing of events if and only if the stamp is safe |
| `PromoterRuns.EarlyStampDefeatsDedup` | src/event_promoter.cpp:124-124 | a candidate stamped before the last event wraps the age and is accepted twice at one place |
| `EventStore.EventStore.FlushBatch` | src/event_store.cpp:171-182 | a nonempty batch is posted once and cleared |
| `EventStore.EventStore.Round` | src/event_store.cpp:130-142 | one pass of the loop keeps posted ++ batch ++ ring equal to what was accepted |
| `EventStore.EventStore.Drain` | src/event_store.cpp:145-146 | the ring is emptied into the batch |
| `EventStore.EventStore.SyncLoop` | src/event_store.cpp:119-150 | after stop everything ever accepted has been posted exactly once, in order, numbered without gaps, and no batch flushed before stop is longer than max(1, batch size) |
| `EventStore.EventStore.NothingIsLost` | src/event_store.cpp:119-150 | with ring and batch empty, what was posted is what was accepted |
| `Nms.WholePlusEpsilon` | src/perception.cpp:75-77 | the denominator of the ratio is never zero, for boxes of any size and sign |
| `Nms.IouIsAFraction` | src/perception.cpp:73-77 | for boxes of nonnegative size the ratio lies in [0, 1) and is positive if and only if the boxes share a pixel |
| `Nms.SuppressesIsSymmetric` | src/perception.cpp:73-79 | suppression does not depend on which box is looked at first |
| `Nms.SuppressLater` | src/perception.cpp:68-82 | the inner loop flags exactly the later boxes that the box just kept overlaps too much |
| `Nms.NmsBoxes` | src/perception.cpp:47-86 | the loops over the order compute the greedy selection |
| `Nms.KeptAreCompatible` | src/perception.cpp:61-86 | kept boxes are distinct, at or above the threshold, in descending order of score, and pairwise within the limit |
| `Nms.KeptIff` | src/perception.cpp:61-66 | a box is kept if and only if it is eligible and no kept box before it suppresses it |
| `Nms.DroppedHaveAReason` | src/perception.cpp:61-82 | every eligible box that is dropped overlaps a kept box of at least its score by more than the limit |
| `Nms.KeptIsTheStableSet` | src/perception.cpp:47-86 | the kept boxes are the one and only stable set of the order |
| `Nms.NmsIsIdempotent` | src/perception.cpp:47-86 | suppression applied to what it kept keeps all of it, however ties are ordered |
| `IssFilters.IssFilter.Update` | src/iss_filter.cpp:16-76 | one update over the four fields, with its early return below the speed floor |
| `IssFilters.IssFilter.Reset` | src/iss_filter.cpp:78-84 | all state returns to its initial values |
| `IssFilters.BackgroundStaysBelowSmoothed` | src/iss_filter.cpp:32-50 | over every run since reset, lo <= background <= smoothed <= hi when the inputs in motion lie in [lo, hi] |
| `IssFilters.SmallVariationNeverFlags` | src/iss_filter.cpp:52-73 | inputs that vary by less than the spike threshold are never flagged |
| `IssFilters.ImpactIffStreak` | src/iss_filter.cpp:58-73 | an impact is flagged if and only if the last minConsecutiveFrames samples were all in motion and at or above their thresholds |
| `IssFilters.JoltedFrameIsAboveIff` | include/iss_filter.hpp:20-40 | in any run of a baseline, one frame off it by s of either sign, and the baseline again, with any speeds and any stops, frame k counts towards an impact if and only if it is in motion and the closed-form score of the jolt reaches the threshold at that frame's own speed |
| `IssFilters.JoltedRunFlagsIff` | include/iss_filter.hpp:21-23 | so an impact is flagged at the end of any such run if and only if each of the last minConsecutiveFrames frames is in motion with a closed-form score at or above its own threshold |
| `IssFilters.SlowingDownFlagsJolt` | include/iss_filter.hpp:21-35 | with the shipped settings a jolt of 0.5 at 13 km/h, whose leftover is below the threshold at that speed, is flagged when the next frame comes at 12 km/h |
| `IssFilters.DipFlags` | include/iss_filter.hpp:21-35 | with the shipped settings one frame of 0 on a baseline of 1 at 10 km/h is flagged two frames later |
| `IssFilters.JoltScoreIsLeftover` | src/iss_filter.cpp:42-56 | at one speed, k frames after a one-frame jolt of height s over a settled baseline the detrended score is alpha beta s (alpha r^k - (1 - beta) beta^k) / (beta - r) with r = 1 - alpha, clamped at 0, and its limit where beta = r; for negative s the fraction is lessened by beta^k |
| `IssFilters.JoltFlagsIff` | include/iss_filter.hpp:21-23 | the case of one speed throughout and an upward jolt: for any gate of m frames it is flagged at some time if and only if that closed form reaches the threshold for k = m - 1 |
| `IssFilters.JoltPassesTwoFrameGateIff` | include/iss_filter.hpp:31-35 | again at one speed and upward: for the two-frame gate that is alpha beta s (beta - alpha) >= threshold, and it is flagged in the next frame |
| `IssFilters.OneJoltIsFlagged` | include/iss_filter.hpp:21-35 | with the shipped settings a single full-scale frame at 10 km/h is flagged |
| `IssFilters.BaselineSettles` | src/iss_filter.cpp:36-50 | any number of frames at one value settles a filter that has just been reset |
| `IssFilters.JoltInARun` | src/iss_filter.cpp:16-76 | the states in the results at one speed are those of runs from reset: baseline, jolt, baseline |
| `Temporal.TemporalAnalyzer.Update` | src/temporal.cpp:9-19 | both metrics are functions of the last ten inputs alone |
| `Temporal.TemporalAnalyzer.Reset` | src/temporal.cpp:21-26 | the history starts again |
| `Temporal.TemporalAnalyzer.ComputePersistence` | src/temporal.cpp:28-41 | mean over deviation of the window, 0 for fewer than two observations |
| `Temporal.TemporalAnalyzer.ComputeStability` | src/temporal.cpp:43-56 | reciprocal of the deviation of the window |
| `Temporal.SumSlots` | src/temporal.cpp:31-35 | the accumulation loop over the slots in use |
| `Temporal.SlotsAreRotation` | src/temporal.cpp:9-13 | the slots in use are a rotation of the last min(n, 10) inputs |
| `Temporal.SlotsHoldTheWindow` | src/temporal.cpp:9-13 | the slots in use hold the window as a multiset, with its sums |
| `Temporal.SumsObeyCauchy` | src/temporal.cpp:31-38 | n times the sum of squares is at least the square of the sum |
| `Temporal.VarianceNeedsNoClamp` | src/temporal.cpp:37-39 | so the clamp under the root never changes the variance |
| `Temporal.VarianceZeroIffConstant` | src/temporal.cpp:37-39 | the variance of a window is zero if and only if all its values are equal |
| `Ttc.TtcEstimator.Update` | vigia_ws/src/vigia_edge_node/include/vigia_edge_node/ttc_estimator.hpp:40-95 | one frame: guards, ring, median, growth, depth guard, trigger |
| `Ttc.TtcEstimator.Reset` | vigia_ws/src/vigia_edge_node/include/vigia_edge_node/ttc_estimator.hpp:97-106 | everything but the stored heights is cleared |
| `Ttc.Median3` | vigia_ws/src/vigia_edge_node/include/vigia_edge_node/ttc_estimator.hpp:108-113 | one of the three values, with one of the others on each side |
| `Ttc.MedianIsOfLastThree` | vigia_ws/src/vigia_edge_node/include/vigia_edge_node/ttc_estimator.hpp:61-67 | once three heights are accepted, the ring's median is that of the last three accepted heights |
| `Ttc.TtcIsScaleInvariant` | vigia_ws/src/vigia_edge_node/include/vigia_edge_node/ttc_estimator.hpp:40-104 | scaling every height of a run by one positive factor changes no result, across resets and ring rotation |
| `Ttc.SteadyHeightAlertsIff` | vigia_ws/src/vigia_edge_node/include/vigia_edge_node/ttc_estimator.hpp:48-104 | in any run of one height, dropped frames included, a frame raises an alert if and only if it is accepted, the height is positive, two frames have been accepted since the last drop, and it is the first of those past the second with a positive time step, which is below the threshold; the reported time is the step |
| `Ttc.SteadyHeightAlertsTwice` | vigia_ws/src/vigia_edge_node/include/vigia_edge_node/ttc_estimator.hpp:48-104 | seven frames of one height, the fourth dropped in a turn, alert twice |
| `BleSession.Session.WriteHandshake` | vigia_ws/src/vigia_edge_node/src/ble_gatt_node.cpp:291-433 | dispatch of a handshake write |
| `BleSession.Session.OnHello` | vigia_ws/src/vigia_edge_node/src/ble_gatt_node.cpp:299-336 | HELLO clears the key, takes a fresh nonce and answers with a signed CHALLENGE |
| `BleSession.Session.OnResponse` | vigia_ws/src/vigia_edge_node/src/ble_gatt_node.cpp:340-431 | RESPONSE is checked, the key derived and CONFIRM sent, with the error code of each failure |
| `BleSession.Session.WriteControl` | vigia_ws/src/vigia_edge_node/src/ble_gatt_node.cpp:467-509 | control opcodes, the decoded threshold included, and their replies |
| `BleSession.ThresholdStaysInRange` | vigia_ws/src/vigia_edge_node/src/ble_gatt_node.cpp:493-506 | whatever bytes are written, the collision threshold stays strictly between 0 and 60 |
| `BleSession.Session.Tick` | vigia_ws/src/vigia_edge_node/src/ble_gatt_node.cpp:617-633 | the telemetry gate |
| `BleSession.KeyIffBoundOrLeftBehind` | vigia_ws/src/vigia_edge_node/src/ble_gatt_node.cpp:289-433 | in every run, whatever calls fail, a key exists if and only if the session is bound or a RESPONSE to the latest HELLO failed in its HMAC call and the session has not been bound since; a key left behind is that of such a RESPONSE |
| `BleSession.KeyIffBound` | vigia_ws/src/vigia_edge_node/src/ble_gatt_node.cpp:289-433 | in every run a bound session has a key and, when HMAC calls never fail, a key exists if and only if the session is bound |
| `BleSession.FailedHmacLeavesKey` | vigia_ws/src/vigia_edge_node/src/ble_gatt_node.cpp:408-428 | for an authentic RESPONSE that relation survives if and only if the HMAC call succeeds |
| `BleSession.BoundIffOpened` | vigia_ws/src/vigia_edge_node/src/ble_gatt_node.cpp:289-433 | in every run, whatever calls fail: the session is bound if and only if an identity key is loaded and, of the RESPONSEs to the latest HELLO, the first whose handling did not end in a failed HKDF or HMAC call was verified against that HELLO's nonce, and no REKEY has come since; the key is HKDF of that exchange |
| `BleSession.TelemetryIsGated` | vigia_ws/src/vigia_edge_node/src/ble_gatt_node.cpp:617-633 | with an identity key, a tick sends the frame, unaltered, if and only if such an exchange is in force, the stream is not paused and there is a frame |
| `BleSession.PausedIffLastControlPaused` | vigia_ws/src/vigia_edge_node/src/ble_gatt_node.cpp:475-485 | the stream is paused if and only if the last PAUSE or RESUME written in a bound session was a PAUSE; a new handshake does not resume it |
| `BleSession.NoIdentityNeverBinds` | vigia_ws/src/vigia_edge_node/src/ble_gatt_node.cpp:310-317 | without an identity key no run is ever bound or paused |
| `BleSession.HonestExchangeBinds` | vigia_ws/src/vigia_edge_node/src/ble_gatt_node.cpp:340-431 | from any state, HELLO and an honest phone's RESPONSE, with no failing call, bind the session under the key the phone derives, and CONFIRM is the MAC under that key |

## Left out

- Rounding, NaN and infinities: everything but the guards that name them is over the reals.
- Weak memory ordering: the orderings in the sources are not modelled, only sequential consistency.
- Two writers of the metadata ring, for which the lock protocol gives no guarantee.
- 32-bit overflow of the frame size in bytes; slot `channels` words are read but never written, so
  they stay 0.
- Text protocol lines of the sensor bridge, signature checking of a parsed packet, and the reset of
  the bridge on reconnect; the ROS copy that skips its first frame.
- Null pointers and overlapping buffers in the COBS functions.
- The NMEA path, baud recovery and configuration messages of the GPS driver; `handle_ubx_frame` is the
  list of messages it is called with.
- Event and device ids, JSON bodies, the sleeping in waitDequeue, and whether the network accepted a
  batch: a batch counts as posted when it is handed over, as in the code.
- EventPromoter.EventPromoter.PendingCount: does not model a consumer or producer moving between its
  two loads, when the count may be stale.
- Building the boxes from network output, and the drawing and benchmark code around them.
- BLE builds without mbedTLS, notification timing, GATT registration.
- BleSession.KeyIffBound: the plain equivalence is for HMAC calls that never fail; the others are
  BleSession.KeyIffBoundOrLeftBehind.
- Deframer.SensorBridge.OnChunk: does not model the text buffer of text and unknown mode.
- Deframer.ReadsDoNotMatter: is about what the model keeps; the text buffer, which is capped byte by
  byte but emptied of lines once per read, is not part of it.
- EventPromoter.EventPromoter.SubmitCandidate: does not model the event id and device id that are
  stamped on an accepted event, because they are random or constant and read nowhere here.
- ShmRing.RingHoldsLatest: frame ids are unbounded; consecutive ids across 2^32 with a depth that does
  not divide it are not covered, because slots then change their residue.
- The verbatim copies of the plane fit, the suppression and the decoder in the ROS nodes.
- Neural inference, camera and sensor I/O, key provisioning, MQTT and cloud code.
