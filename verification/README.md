# Verified model of the cbyd lidar and ship-monitoring code

A Dafny model of the algorithms of the repository, with proofs. `dafny verify dfyconfig.toml` checks all of it.

The components, each named after what it models:

- **Frame fuser** (`FuserSpec`, `FuserMatching`, `FuserRuns`, `Fuser`): two lidars' frames are cached, matched by
  timestamp, dropped when too far apart, or passed on alone. `FuserSpec` is the transition system with the history of
  arrivals and fates; `Fuser` is the loop on mutable caches, proved to be that system.
- **Packet decoder** (`PacketFormat`, `FrameAssembly`, `PacketDecoder`): bytes to records, records to frames.
- **Docking and stability** (`DockChecker`, `StabilityWindow`): sliding windows over poses and ship centres.
- **LRU cache** (`LruSpec`, `LruRecency`, `LruHistory`, `LruResize`, `LruCache`, `LruRun`): recency list, its laws over
  traces, and the list-and-index object.
- **Buffers and queues** (`RingAllocator`, `VarBuffer`, `CircularQueue`, `BlockingQueue`).
- **Thread pool** (`ThreadPool`, `PoolRuns`, `PoolLimits`, `PoolProgress`): its critical sections and counter
  reads as steps of a machine, with any number of callers and workers.
- **Length codecs** (`LengthCodecs`), **log patterns** (`PatternFormatter`, `LogPattern`), **CSV fields** (`CsvField`).
- `Basics` holds what they share.

Most components pair a transition system or list functions, about which the laws are proved for every run, with a class
or loop in the form of the source, whose methods are proved to compute exactly that.

Where the code and what its comments say differ, the model follows the code:

- The fuser's fallback is commented as output for the case that only one lidar has data
  (src/point_cloud_fuser.cpp:150-171). It is never reached while one lidar is silent; `SilentLidarBlocksOutput` says so
  and `PassEmitsIff` says exactly when a pass emits.
- A frame without foreground is answered "left" by the monitor, but does not clear the window as a judged leave does
  (src/lidar_bg_diff.cpp:252-258).
- The docking check rejects a steady ship whose heading is near the half turn; `DockedIffMoored` gives the exact
  condition and `MooredButRejected` such a ship.
- The angle tables have 360000 entries and the index function can return 360000; `TableIndexInRange` says exactly when,
  and `DecodedAnglesIndexTables` that the decoder never asks for it.
- A point whose bytes equal the frame marker is taken for one; `PointRoundTrip` gives the exact condition.
- The encoder of variable-length integers does not end on negative values (`EncoderEndsIff`), and the decoder accepts
  padded code words (`EncodingIffUnpadded`) and drops bits of a tenth byte (`VarintAcceptsTen`).
- The ring allocator can refuse a block for which there is room, when it is empty or has wrapped;
  `RefusalMeansNoRoomIff` gives the exact condition, `EmptyRingCanRefuse` and `WrappedRingCanRefuse` the inputs.
- The thread pool exceeds its maximum when several threads are entered at once (`MostThreads` says by exactly how much,
  `MaximumKeptIff` when it does not), and with a minimum of 0 a queued task can be left without a worker
  (`NeverStuckIff`).

Modelling decisions: doubles are exact reals, except that interpolated time stamps are truncated to whole nanoseconds;
64-bit wrap-around is written out where the code can meet it (packet times, pad widths, decoded lengths); dequeue
results, received packets, the calendar seconds of a packet and the fitted wharf line are inputs; code under a lock is
one atomic step, taken by any thread.

## Model

| member | source | states |
|---|---|---|
| `FuserRuns.OutputsNeverGoBack` | src/point_cloud_fuser.cpp:62-191 | Over every run whose arrivals carry non-decreasing timestamps per lidar, emitted timestamps, fused or single, never decrease (stronger than staying within the match threshold of the latest) |
| `FuserRuns.RunIsSound` | src/point_cloud_fuser.cpp:66-187 | Over every run, whatever its timestamps: fates and outputs agree one to one, each output is emitted once, every mismatch drop was against the other head of its time and justified; and if the arrivals of each lidar are sorted, the outputs are in time order |
| `FuserRuns.HistoryIsPermanent` | src/point_cloud_fuser.cpp:66-187 | A fate, once given to an arrival, and an output, once emitted, stay as they are for the rest of the run |
| `FuserRuns.DroppedFrameHadNoPartner` | src/point_cloud_fuser.cpp:128-146 | In a run with sorted arrivals, a frame of the other lidar within 500 of a frame dropped for mismatch, whether cached, settled or still to come, lies before the head it was compared with and was itself fused, passed alone or lost to overflow |
| `FuserRuns.RunIsBounded` | src/point_cloud_fuser.cpp:68-92 | In every reachable state both caches hold at most 30 frames and at least one holds at most 2 |
| `FuserRuns.OverflowMeansOtherStarved` | src/point_cloud_fuser.cpp:71-86 | A frame is lost to cache overflow only while the other lidar has at most 2 frames waiting |
| `FuserRuns.OverflowIff` | src/point_cloud_fuser.cpp:68-87 | An arrival costs a frame to overflow exactly when 30 are cached, and then the oldest one only |
| `FuserRuns.RunFusesClose` | src/point_cloud_fuser.cpp:97-105 | Over every run, whatever its timestamps, only frames less than 500 ns apart are fused |
| `FuserRuns.PassEmitsIff` | src/point_cloud_fuser.cpp:89-187 | A pass of the loop emits something exactly when both caches hold more than 2 frames after intake, and otherwise changes no output |
| `FuserRuns.SilentLidarBlocksOutput` | src/point_cloud_fuser.cpp:89-92 | A run emits nothing exactly if one lidar has delivered at most 2 frames: the fallback commented as output for a single working lidar is not reached for one |
| `FuserRuns.PassFusesMaximum` | src/point_cloud_fuser.cpp:95-187 | A pass that gets to matching emits exactly as many clouds as the largest one-to-one pairing of its caches, or one single frame if there is no pair |
| `FuserMatching.FusedCountIsMaximumMatching` | src/point_cloud_fuser.cpp:95-147 | For any two sorted caches the number of fused pairs is the maximum cardinality of a one-to-one pairing with differences below 500 |
| `FuserMatching.GreedyIsMaximum` | src/point_cloud_fuser.cpp:95-147 | No one-to-one pairing within the threshold has more pairs than the greedy loop fuses |
| `FuserMatching.GreedyIsMatching` | src/point_cloud_fuser.cpp:105-127 | The pairs the loop fuses are such a pairing, and there are as many as outputs |
| `FuserMatching.Exchange` | src/point_cloud_fuser.cpp:105-127 | Any pairing loses at most one pair when two heads within the threshold leave |
| `FuserMatching.DropKeepsMatching` | src/point_cloud_fuser.cpp:128-146 | Dropping the older of two heads too far apart takes no pair from any pairing |
| `FuserRuns.MatchAllEnds` | src/point_cloud_fuser.cpp:95-187 | The inner loop empties a cache; if it fused nothing, the newest frame of the emptied lidar was at least 500 older than the frame left over |
| `FuserRuns.PassKeepsSound` | src/point_cloud_fuser.cpp:66-187 | Each pass keeps the log, the justification and the turn of drops, and the order of outputs |
| `Fuser.PointCloudFuser.Fuse` | src/point_cloud_fuser.cpp:194-212 | A fused cloud carries the later of the two timestamps, the points of A and then those of B moved to the coordinates of A, their number, the identity of A and both addresses joined by a comma |
| `Fuser.PointCloudFuser.TakeFromQueueA` | src/point_cloud_fuser.cpp:68-76 | Appends the frame and deletes oldest frames while over 30; the cache stays the unsettled suffix of the arrivals |
| `Fuser.PointCloudFuser.TakeFromQueueB` | src/point_cloud_fuser.cpp:79-87 | The same for the other lidar |
| `Fuser.PointCloudFuser.MatchHeads` | src/point_cloud_fuser.cpp:97-146 | One turn of the inner loop: fuses the heads or drops the older one, and emits what it fused |
| `Fuser.PointCloudFuser.MatchCaches` | src/point_cloud_fuser.cpp:94-147 | The inner loop ends with one cache empty, having settled frames as the transition system says |
| `Fuser.PointCloudFuser.PassAlone` | src/point_cloud_fuser.cpp:152-187 | With nothing matched and one cache empty, the oldest frame of the other is enqueued with its own address, identity, timestamp, points and their number, and leaves the cache; otherwise nothing happens |
| `Fuser.PointCloudFuser.FusePass` | src/point_cloud_fuser.cpp:66-190 | One pass of the outer loop on the mutable caches is one step of the transition system |
| `Fuser.FuseLoop` | src/point_cloud_fuser.cpp:62-191 | The whole loop on given queue contents: what it enqueues is the logged outputs, each field by field that of its arrivals (a single frame as it came; a pair with the later timestamp, the points of A and then those of B moved, their number, the identity of A and both addresses), and sorted by timestamp if the arrivals of each lidar are |
| `LruSpec.Inclusion` | third-party/libhv/include/hv/LRUCache.h:83-153 | Two caches with capacities s up to c fed the same gets, puts and removes: the smaller list is always a subsequence of the larger, and their lengths differ by at most c - s |
| `LruSpec.LargerCacheHitsMore` | third-party/libhv/include/hv/LRUCache.h:83-153 | A hit in the smaller cache is a hit with the same value in the larger |
| `LruSpec.PutKeepsInclusion` | third-party/libhv/include/hv/LRUCache.h:102-127 | Putting any key keeps the inclusion; if the larger cache evicts, so does the smaller |
| `LruSpec.GetKeepsInclusion` | third-party/libhv/include/hv/LRUCache.h:83-94 | Getting any key keeps the inclusion |
| `LruSpec.RemoveKeepsInclusion` | third-party/libhv/include/hv/LRUCache.h:134-153 | Removing any key keeps the inclusion |
| `LruSpec.HoldsLastPut` | third-party/libhv/include/hv/LRUCache.h:83-127 | Whatever the cache holds under a key is the value most recently put under it |
| `LruRecency.ListedByLastUse` | third-party/libhv/include/hv/LRUCache.h:280-307 | After every trace the list is ordered by last use, so the node evicted is the least recently used |
| `LruRecency.Retention` | third-party/libhv/include/hv/LRUCache.h:83-127 | A key put and not removed is still cached while fewer other keys than the capacity have been used since |
| `LruRecency.RetentionIff` | third-party/libhv/include/hv/LRUCache.h:102-127 | When keys are only put, a key is cached exactly if fewer other keys than the capacity have been put since it was |
| `LruResize.HistoryByLastUse` | third-party/libhv/include/hv/LRUCache.h:83-307 | After any sequence of gets, puts, removals, resizes, removals by predicate and clears the list is ordered by last use |
| `LruResize.ResizeEvictsOldest` | third-party/libhv/include/hv/LRUCache.h:211-229 | A resize sets the capacity to the request raised to 1, keeps the front of the list and hands out the rest, least recently used first, each used longer ago than every node kept |
| `LruResize.PutEvictsOldest` | third-party/libhv/include/hv/LRUCache.h:102-127 | A put hands out a node exactly when its key is new and the cache is full, and it is the least recently used one |
| `LruResize.RemovalsInListOrder` | third-party/libhv/include/hv/LRUCache.h:251-273 | A removal by predicate hands out exactly the matching nodes and keeps the others, both in list order |
| `LruResize.RetentionThroughResizes` | third-party/libhv/include/hv/LRUCache.h:83-229 | A key put survives gets, puts, removals of others and resizes while at every point fewer other keys had been used than the capacity of the time |
| `LruHistory.HistoryConserves` | third-party/libhv/include/hv/LRUCache.h:83-307 | Over every sequence of operations keys are distinct, size is within capacity, and insertions of a key minus its evictions is 1 if it is cached and 0 if not |
| `LruCache.LRUCache.constructor` | third-party/libhv/include/hv/LRUCache.h:50-55 | An empty cache; capacity 0 means 1 |
| `LruCache.LRUCache.Get` | third-party/libhv/include/hv/LRUCache.h:83-94 | Returns the value of the recency list under the key and moves it to the front; list and index stay in step |
| `LruCache.LRUCache.Put` | third-party/libhv/include/hv/LRUCache.h:102-127 | Updates or inserts at the front, evicting the last node when full; reports which and what was evicted |
| `LruCache.LRUCache.Remove` | third-party/libhv/include/hv/LRUCache.h:134-153 | Takes the key out of list and index and reports its node |
| `LruCache.LRUCache.SetCapacity` | third-party/libhv/include/hv/LRUCache.h:211-229 | Evicts from the back until the list fits, in that order |
| `LruCache.LRUCache.RemoveIf` | third-party/libhv/include/hv/LRUCache.h:251-273 | Takes out exactly the nodes satisfying the predicate, keeping the order of the rest, and counts them |
| `LruCache.LRUCache.Clear` | third-party/libhv/include/hv/LRUCache.h:168-179 | Empties list and index and reports every node |
| `LruCache.LRUCache.MoveToFront` | third-party/libhv/include/hv/LRUCache.h:280-284 | Splicing a node to the front keeps every index entry pointing at its own node |
| `LruCache.LRUCache.EvictLru` | third-party/libhv/include/hv/LRUCache.h:298-307 | Takes the last node out of list and index; nothing happens on an empty list |
| `LruRun.Drive` | third-party/libhv/include/hv/LRUCache.h:83-307 | The object driven through any sequence of operations: what reaches the eviction callback is what the history says, and every insertion is accounted for |
| `RingAllocator.RunIsSafe` | third-party/libhv/include/hv/hbuf.h:204-254 | In every run of alloc and free in allocation order, live blocks lie inside the buffer, are pairwise disjoint, add up to the recorded size, and an empty ring has head equal to tail |
| `RingAllocator.RunIsLaid` | third-party/libhv/include/hv/hbuf.h:210-244 | In every run the live blocks lie in one run from head to tail, or in an upper run and a lower run, with the gap shorter than the block that caused it |
| `RingAllocator.RefusalMeansNoRoomIff` | third-party/libhv/include/hv/hbuf.h:210-233 | In every run, what alloc places is bytes of no live block; and what it refuses has room somewhere exactly if it is no longer than a stretch computed from the counters: the whole buffer when nothing is live, what lies above the upper run when the blocks have wrapped, nothing while they lie in one run |
| `RingAllocator.AcceptsIff` | third-party/libhv/include/hv/hbuf.h:210-233 | In every run a ring that is not empty takes a block exactly if there is room anywhere, while its blocks lie in one run, or room below the head, when they have wrapped; the block goes to the tail if there is room there |
| `RingAllocator.WrappedRingCanRefuse` | third-party/libhv/include/hv/hbuf.h:224-230 | A reachable wrapped ring refuses a block for which the end of the buffer is free, for instance 3 bytes in a buffer of 10 after blocks of 4 and 3, a free and a block of 4 |
| `RingAllocator.EmptyRingAccepts` | third-party/libhv/include/hv/hbuf.h:212-223 | An empty ring takes a block exactly if it fits after the head or before it |
| `RingAllocator.EmptyRingCanRefuse` | third-party/libhv/include/hv/hbuf.h:212-223 | An empty ring of 10 bytes can refuse a block of 6 |
| `RingAllocator.HRingBuf.Allocate` | third-party/libhv/include/hv/hbuf.h:210-233 | The returned block lies in the buffer apart from all live ones; a refusal changes nothing |
| `RingAllocator.HRingBuf.Release` | third-party/libhv/include/hv/hbuf.h:235-244 | Giving back the oldest block keeps the layout, also when the head has to jump the gap |
| `VarBuffer.Drive` | third-party/libhv/include/hv/hbuf.h:91-197 | Any sequence of pushes and pops at both ends, from any capacity, hands out and leaves exactly what a byte deque would |
| `VarBuffer.PopUndoesPush` | third-party/libhv/include/hv/hbuf.h:128-177 | On any buffer, popping as many bytes as were pushed at the same end hands out those bytes and leaves the contents as before the push |
| `VarBuffer.PushedFrontComesBack` | third-party/libhv/include/hv/hbuf.h:128-168 | After any sequence of operations a push and a pop at the front hand out the bytes pushed and leave the deque as it was |
| `VarBuffer.PushedBackComesBack` | third-party/libhv/include/hv/hbuf.h:145-177 | The same at the back |
| `VarBuffer.PopTooMany` | third-party/libhv/include/hv/hbuf.h:159-177 | After any sequence of operations, popping more bytes than there are hands out nothing and changes nothing |
| `VarBuffer.InOrder` | third-party/libhv/include/hv/hbuf.h:128-177 | Bytes pushed at both ends come out in their order, from either end |
| `VarBuffer.HVLBuf.PushFront` | third-party/libhv/include/hv/hbuf.h:128-143 | The contents gain the bytes in front, through growth and through the move to the end; capacity grows to twice the larger of it and the length exactly when there is no room |
| `VarBuffer.HVLBuf.PushBack` | third-party/libhv/include/hv/hbuf.h:145-157 | The contents gain the bytes at the back, through growth and through the move to the start |
| `VarBuffer.HVLBuf.PopFront` | third-party/libhv/include/hv/hbuf.h:159-168 | Hands out the first bytes and drops them, or does nothing if there are too few |
| `VarBuffer.HVLBuf.PopBack` | third-party/libhv/include/hv/hbuf.h:170-177 | The same at the back |
| `VarBuffer.HVLBuf.Grow` | third-party/libhv/include/hv/hbuf.h:91-102 | A larger block with the same contents at the same offset |
| `PacketDecoder.LidarRun` | include/LSSDK/Include/GetLidarData_LS.cpp:22-157 | The frames handed over in any run of device and data packets are the marker-delimited segments of the concatenated record stream, so they do not depend on packet boundaries; there is one for each record of a data packet that starts with FF AA BB CC DD |
| `PacketDecoder.PacketTimeRoundTrip` | include/LSSDK/Include/GetLidarData_LS.cpp:85-126 | A packet whose time fields hold seconds and nanoseconds, most significant byte first, is given that time, from the PTP field if it is marked FF and from the calendar fields otherwise |
| `FrameAssembly.SplitJoins` | include/LSSDK/Include/GetLidarData_LS.cpp:163-369 | The segments with their markers, put together again with the open rest, are the stream |
| `FrameAssembly.SplitHasNoMarkers` | include/LSSDK/Include/GetLidarData_LS.cpp:169-187 | No segment holds a marker |
| `FrameAssembly.AssemblesSegments` | include/LSSDK/Include/GetLidarData_LS.cpp:163-369 | For every record stream the frames sent, the open frame, the frame kept for stacking and the return counter are those of the stream cut at its markers |
| `FrameAssembly.StackedFrames` | include/LSSDK/Include/GetLidarData_LS.cpp:173-187 | With stacking on, frame n is segment n-1 followed by segment n |
| `FrameAssembly.PlainFrames` | include/LSSDK/Include/GetLidarData_LS.cpp:173-187 | With stacking off, frame n is segment n |
| `FrameAssembly.MixedFrames` | include/LSSDK/Include/GetLidarData_LS.cpp:173-187 | When the mode changes, a frame closed in stacking mode is stacked on the newest earlier segment closed in that mode, and any other is alone; it is marked good exactly with at least 20 returns of its own |
| `FrameAssembly.CutIsPrefix` | include/LSSDK/Include/GetLidarData_LS.cpp:188-199 | With one echo mode the size cap keeps the first 3000001 points of a segment, or 3000002 with two echoes |
| `FrameAssembly.FramesInOrder` | include/LSSDK/Include/GetLidarData_LS.cpp:163-369 | If the points of the stream are in time order, so are those of every frame sent, stacked or not |
| `PacketDecoder.StreamInOrder` | include/LSSDK/Include/GetLidarData_LS.cpp:85-166 | With packet times that never go back, the points of the whole stream are in time order and none is later than the newest packet |
| `PacketDecoder.SentFramesInOrder` | include/LSSDK/Include/GetLidarData_LS.cpp:151-369 | With packet times that never go back, the points of every frame sent are in time order |
| `PacketFormat.StampsAscend` | include/LSSDK/Include/GetLidarData_LS.cpp:166-251 | The interpolated stamps of one packet ascend and lie between the previous packet time and its own |
| `PacketFormat.StampsEven` | include/LSSDK/Include/GetLidarData_LS.cpp:166-251 | Record k of n lies n - 1 - k equal parts of the 64-bit time since the previous packet before this packet, rounded down to a whole nanosecond |
| `PacketFormat.LastStamp` | include/LSSDK/Include/GetLidarData_LS.cpp:166-251 | The last record carries the time of its packet |
| `PacketFormat.StampSteps` | include/LSSDK/Include/GetLidarData_LS.cpp:166-251 | Neighbouring stamps differ by the interval up to rounding |
| `PacketFormat.SingleRecordKind` | include/LSSDK/Include/GetLidarData_LS.cpp:167-207 | A single-echo record is a marker exactly if it starts with FF AA BB CC DD, and blank exactly if it does not and its three distance bytes are zero |
| `PacketFormat.DoubleRecordKind` | include/LSSDK/Include/GetLidarData_LS.cpp:264-304 | The same for a double-echo record, whose blank test looks at the first echo only |
| `PacketFormat.PointRoundTrip` | include/LSSDK/Include/GetLidarData_LS.cpp:202-251 | A point packed in a single-echo record is decoded back exactly when its distance is not zero and its bytes are not the frame marker |
| `PacketFormat.EchoesRoundTrip` | include/LSSDK/Include/GetLidarData_LS.cpp:299-363 | Both echoes of a double-echo record are decoded back under the same condition |
| `PacketFormat.VerticalRoundTrip` | include/LSSDK/Include/GetLidarData_LS.cpp:216-233 | Channel and vertical angle are a 2-bit and a 14-bit two's complement field: every pair is recovered from its packed form |
| `PacketFormat.VerticalIsOnto` | include/LSSDK/Include/GetLidarData_LS.cpp:216-233 | Every byte pair is the packed form of the channel and angle it decodes to |
| `PacketFormat.HorizontalRoundTrip` | include/LSSDK/Include/GetLidarData_LS.cpp:208-211 | The horizontal angle is a 16-bit two's complement word |
| `PacketFormat.TableIndexInRange` | include/LSSDK/Include/GetLidarData.cpp:424-435 | The table index names the same angle modulo a full turn and is in the tables of 360000 entries unless the angle is one full turn or two or more full turns backwards |
| `PacketFormat.DecodedAnglesIndexTables` | include/LSSDK/Include/GetLidarData_LS.cpp:373-395 | Every angle looked up for the coordinates of a return (the constants 30 and 60, the mirror angle of the channel, the vertical angle with its offset, the horizontal angle) has an index inside the tables, for every record and every setting of the optics |
| `PacketDecoder.LidarDecoder.SendLidarData` | include/LSSDK/Include/GetLidarData.cpp:374-398 | Hands the frame over, marked good exactly when at least 20 returns were counted, and starts an empty one |
| `PacketDecoder.LidarDecoder.CloseFrame` | include/LSSDK/Include/GetLidarData_LS.cpp:173-187 | A marker stacks the previous frame under this one if so configured, keeps this one for the next, and sends |
| `PacketDecoder.LidarDecoder.HandleSingleEcho` | include/LSSDK/Include/GetLidarData_LS.cpp:163-254 | The loop over a single-echo packet feeds its 149 records to the assembler in order |
| `PacketDecoder.LidarDecoder.HandleDoubleEcho` | include/LSSDK/Include/GetLidarData_LS.cpp:261-366 | The loop over a double-echo packet feeds its 99 records to the assembler in order |
| `PacketDecoder.LidarDecoder.HandlePacket` | include/LSSDK/Include/GetLidarData_LS.cpp:37-151 | A device packet only changes settings; a data packet is read with the settings and times in force |
| `ThreadPool.CountersAgree` | third-party/libhv/include/hv/hthreadpool.h:149-226 | At every point of every run, with any number of threads in start and commit, the thread count is the idle count plus the active count, and the idle count is negative by at most the threads started and not yet entered |
| `PoolProgress.NeverStuckIff` | third-party/libhv/include/hv/hthreadpool.h:128-190 | In every interleaving of any number of callers a queued task has a worker that can take it or is busy with another, exactly when minimum and maximum thread numbers are positive; with a minimum of 0 the idle worker a committer counted on can leave before the task is queued |
| `PoolLimits.MostThreads` | third-party/libhv/include/hv/hthreadpool.h:131-151 | For all limits: over the runs in which at most k threads are being entered at a time, the greatest number of threads is exactly the maximum plus k - 1, or 0 if the maximum or k is 0; it is never exceeded and it is reached |
| `PoolLimits.MaximumKeptIff` | third-party/libhv/include/hv/hthreadpool.h:131-151 | The maximum is kept in all such runs exactly if callers take turns at entering threads (k at most 1) or it allows no thread |
| `PoolLimits.MaximumKept` | third-party/libhv/include/hv/hthreadpool.h:131-151 | At every point of such a run the threads entered and being entered together stay within that number |
| `PoolLimits.MaximumCanBeExceeded` | third-party/libhv/include/hv/hthreadpool.h:131-151 | For instance a pool of maximum 1 can come to have 2 threads, because the size is tested before the thread is entered |
| `PoolLimits.MinimumKept` | third-party/libhv/include/hv/hthreadpool.h:165-171 | However far the thread count has come towards the minimum, it never falls back in the rest of the run |
| `PoolLimits.StartReachesMinimum` | third-party/libhv/include/hv/hthreadpool.h:71-80 | From the return of a start that returned 0 on, the pool has at least its minimum number of threads, or its maximum if that is smaller; a start refused because the pool is running promises nothing |
| `PoolLimits.LoneStartEnters` | third-party/libhv/include/hv/hthreadpool.h:71-80 | A start on a stopped pool with nobody else about enters as many threads as asked for, raised to the minimum and cut to the maximum |
| `PoolLimits.OnlyIdleExitShrinks` | third-party/libhv/include/hv/hthreadpool.h:165-171 | The thread count falls only by an idle exit with no task queued, by one, and not below the minimum |
| `ThreadPool.WaitMeansAllDone` | third-party/libhv/include/hv/hthreadpool.h:113-119 | When the condition of wait holds, the finished tasks are exactly the tasks enqueued so far |
| `ThreadPool.TasksStartInOrder` | third-party/libhv/include/hv/hthreadpool.h:172-175 | Tasks start in the order they were enqueued, each once |
| `ThreadPool.StepKeepsInv` | third-party/libhv/include/hv/hthreadpool.h:71-226 | Every step of every caller and worker keeps the counters exact and every dequeued task either finished or run by one worker |
| `ThreadPool.HThreadPool.IsStopped` | third-party/libhv/include/hv/hthreadpool.h:130-130 | The status read by which commit decides to start the pool, on its own |
| `ThreadPool.HThreadPool.MayStart` | third-party/libhv/include/hv/hthreadpool.h:72-72 | A start goes on only if it finds the pool stopped; otherwise it is refused, and a commit goes on without it |
| `ThreadPool.HThreadPool.Start` | third-party/libhv/include/hv/hthreadpool.h:73-79 | Sets the status; creates as many threads as asked for between the limits, the minimum below and the maximum above them |
| `ThreadPool.HThreadPool.ReadIdle` | third-party/libhv/include/hv/hthreadpool.h:131-131 | The first read of the growth test, on its own |
| `ThreadPool.HThreadPool.TooFewIdle` | third-party/libhv/include/hv/hthreadpool.h:131-131 | The count read before is compared with the length of the queue as unsigned numbers, so a negative count does not ask for a thread |
| `ThreadPool.HThreadPool.MayGrow` | third-party/libhv/include/hv/hthreadpool.h:131-131 | The last read of the growth test, on its own |
| `ThreadPool.HThreadPool.StartThread` | third-party/libhv/include/hv/hthreadpool.h:150-190 | A thread is started exactly if the count read is below the maximum |
| `ThreadPool.HThreadPool.AddThread` | third-party/libhv/include/hv/hthreadpool.h:192-204 | Entering a started thread in the counters |
| `ThreadPool.HThreadPool.Commit` | third-party/libhv/include/hv/hthreadpool.h:138-143 | Enqueues the task at the back of the queue |
| `ThreadPool.HThreadPool.WakeUp` | third-party/libhv/include/hv/hthreadpool.h:160-176 | A worker holding the lock takes the oldest task, leaves, or goes on waiting |
| `ThreadPool.HThreadPool.DelThread` | third-party/libhv/include/hv/hthreadpool.h:206-226 | A leaving worker is taken out of both counters |
| `ThreadPool.HThreadPool.FinishTask` | third-party/libhv/include/hv/hthreadpool.h:177-185 | A worker reports its task done; waiters are notified only when every task is |
| `LogPattern.CompilingPreservesMeaning` | third-party/spdlog/include/spdlog/pattern_formatter-inl.h:1349-1394 | For every pattern, set of custom flags and meaning of the flags, running the compiled formatters writes what reading the pattern character by character writes |
| `LogPattern.LogLine` | third-party/spdlog/include/spdlog/pattern_formatter-inl.h:1050-1065 | Compiling a pattern and formatting with it writes the pattern's meaning and the end of line |
| `LogPattern.CompilePattern` | third-party/spdlog/include/spdlog/pattern_formatter-inl.h:1349-1394 | The compile loop with its gathered characters yields the formatter list of the pattern |
| `LogPattern.HandlePadspec` | third-party/spdlog/include/spdlog/pattern_formatter-inl.h:1296-1347 | Reads the pad spec at a position and returns where it ends |
| `LogPattern.FlagMeaning` | third-party/spdlog/include/spdlog/pattern_formatter-inl.h:1083-1291 | The formatters appended for a flag write what the flag means, including unknown flags after a truncation mark |
| `LogPattern.OneFlag` | third-party/spdlog/include/spdlog/pattern_formatter-inl.h:1083-1291 | Which formatter each flag goes to: a handler of the user first, the percent sign itself, every built-in letter its own, h, x and X those of b, D and T, and anything else written as it stands |
| `LogPattern.MarkWasFlag` | third-party/spdlog/include/spdlog/pattern_formatter-inl.h:1269-1288 | An unknown flag after a truncation mark: the mark was the function-name flag |
| `LogPattern.Format` | third-party/spdlog/include/spdlog/pattern_formatter-inl.h:1059-1064 | Runs the formatters in order and appends the end of line |
| `LogPattern.PlainPattern` | third-party/spdlog/include/spdlog/pattern_formatter-inl.h:1381-1388 | A pattern without a percent sign writes itself |
| `LogPattern.PaddedFlag` | third-party/spdlog/include/spdlog/pattern_formatter-inl.h:37-93 | A flag with a written-out pad spec adds the width capped at 64, or its longer text when it may not be cut |
| `PatternFormatter.PadSpecRoundTrip` | third-party/spdlog/include/spdlog/pattern_formatter-inl.h:1300-1346 | A pad spec written out is read back with its width capped at 64, unless the next character could belong to it |
| `PatternFormatter.ScopedPad` | third-party/spdlog/include/spdlog/pattern_formatter-inl.h:40-81 | Padding before, text, padding or truncation after: the buffer gains the fitted field |
| `PatternFormatter.FitKeepsText` | third-party/spdlog/include/spdlog/pattern_formatter-inl.h:40-81 | A fitted field is the text with only spaces around it, or a prefix of it, of length width or the longer text, with at most 64 spaces |
| `PatternFormatter.FitSide` | third-party/spdlog/include/spdlog/pattern_formatter-inl.h:40-81 | The spaces stand before the text for a left pad, after it for a right one, and on both sides for a centred field with the odd space after it |
| `BlockingQueue.Conservation` | third-party/spdlog/include/spdlog/details/circular_q.h:49-122 | Over every interleaving the queue holds the newest pushed items in order, and overruns are the items pushed, not dequeued and not queued; there are none exactly if dequeued followed by queued is pushed |
| `BlockingQueue.OneMore` | third-party/spdlog/include/spdlog/details/mpmc_blocking_q.h:32-67 | After any interleaving: an enqueue that does not wait always adds its item as the newest, at the cost of the oldest when full; a blocking one adds it exactly when there is room; a dequeue hands out the oldest |
| `BlockingQueue.BlockingLosesNothing` | third-party/spdlog/include/spdlog/details/mpmc_blocking_q.h:32-67 | With blocking producers only, the overrun counter stays 0 and the dequeued items are a prefix of the enqueued ones |
| `BlockingQueue.MpmcBlockingQueue.Enqueue` | third-party/spdlog/include/spdlog/details/mpmc_blocking_q.h:32-40 | After its wait, appends the item without overrun |
| `BlockingQueue.MpmcBlockingQueue.EnqueueNowait` | third-party/spdlog/include/spdlog/details/mpmc_blocking_q.h:43-50 | Appends the item, overrunning the oldest when full |
| `BlockingQueue.MpmcBlockingQueue.DequeueFor` | third-party/spdlog/include/spdlog/details/mpmc_blocking_q.h:54-67 | Takes the oldest item, or nothing when the wait ends empty |
| `CircularQueue.CircularQ.PushBack` | third-party/spdlog/include/spdlog/details/circular_q.h:49-62 | The contents gain the item and lose the oldest exactly when full, which is counted; a queue without slots ignores it |
| `CircularQueue.CircularQ.PopFront` | third-party/spdlog/include/spdlog/details/circular_q.h:99-102 | The contents lose their first item |
| `CircularQueue.CircularQ.Size` | third-party/spdlog/include/spdlog/details/circular_q.h:77-87 | The number of items stored |
| `CircularQueue.CircularQ.At` | third-party/spdlog/include/spdlog/details/circular_q.h:91-95 | The item at an index of the contents |
| `CircularQueue.CircularQ.Full` | third-party/spdlog/include/spdlog/details/circular_q.h:109-117 | Full exactly when one slot is left over; never for a queue without slots |
| `CircularQueue.CircularQ.Front` | third-party/spdlog/include/spdlog/details/circular_q.h:66-74 | The first item of the contents |
| `LengthCodecs.VarintRoundTrip` | third-party/libhv/include/hv/hmath.h:28-66 | Decoding recovers every value from 0 to 2 to the 63 and its byte count, with any bytes after it and with or without a length limit (section 2.2.3 of MQTT Version 3.1.1) |
| `LengthCodecs.VarintPrefix` | third-party/libhv/include/hv/hmath.h:46-51 | Given a proper non-empty prefix of an encoding, the decoder reports 0 |
| `LengthCodecs.VarintIsShort` | third-party/libhv/include/hv/hmath.h:28-39 | At most 9 bytes below 2 to the 63, and at most 4 exactly below 2 to the 28 |
| `LengthCodecs.VarintGroup` | third-party/libhv/include/hv/hmath.h:28-39 | Byte i holds the i-th group of seven bits from below, and its top bit says whether more follow |
| `LengthCodecs.EncodingIffUnpadded` | third-party/libhv/include/hv/hmath.h:42-66 | A code word is the encoding of its value exactly if it is not padded with a zero group |
| `LengthCodecs.VarintAccepts` | third-party/libhv/include/hv/hmath.h:42-66 | The decoder accepts every code word of up to nine bytes with its value |
| `LengthCodecs.VarintAcceptsTen` | third-party/libhv/include/hv/hmath.h:42-66 | A code word of ten bytes decodes to its value in 64-bit two's complement, so what its tenth byte holds above the lowest bit is lost |
| `LengthCodecs.VarintTooLong` | third-party/libhv/include/hv/hmath.h:60-65 | Ten continuation bytes are reported as -1 |
| `LengthCodecs.PaddedWordIsAccepted` | third-party/libhv/include/hv/hmath.h:42-66 | The two bytes 80 00 decode to 0, whose encoding is one byte |
| `LengthCodecs.EncoderEndsIff` | third-party/libhv/include/hv/hmath.h:32-37 | The encoding loop reaches its end exactly for values that are not negative, and then after as many turns as the encoding has bytes |
| `LengthCodecs.VarintEncode` | third-party/libhv/include/hv/hmath.h:28-39 | The encoding loop writes the base-128 digits, least significant first, with continuation bits |
| `LengthCodecs.VarintDecode` | third-party/libhv/include/hv/hmath.h:42-66 | The decoding loop, including its length limit and its ten-byte limit |
| `LengthCodecs.Asn1RoundTripIff` | third-party/libhv/include/hv/hmath.h:68-158 | With any bytes after it, and no length limit or one that is long enough, a value and its byte count are recovered exactly for 0 up to 2 to the 32 (section 8.1.3 of ITU-T X.690) |
| `LengthCodecs.Asn1IsShortest` | third-party/libhv/include/hv/hmath.h:68-158 | No fewer bytes are accepted for a value than its encoding has |
| `LengthCodecs.Asn1Layout` | third-party/libhv/include/hv/hmath.h:75-119 | The long form holds the number of value bytes under the top bit and then the value, most significant byte first |
| `LengthCodecs.Asn1Wraps` | third-party/libhv/include/hv/hmath.h:142-158 | However many bytes a tag announces, the result is their value in 64-bit two's complement |
| `LengthCodecs.Asn1Prefix` | third-party/libhv/include/hv/hmath.h:144-149 | Given a proper non-empty prefix of an encoding, the decoder reports 0 |
| `LengthCodecs.InvalidTag` | third-party/libhv/include/hv/hmath.h:134-138 | The tag 80 is answered by 0 and -1, whatever follows |
| `LengthCodecs.Asn1Decode` | third-party/libhv/include/hv/hmath.h:121-158 | The decoding loop, including the invalid tag and the length limit |
| `DockChecker.DockedMeansEveryPose` | src/wharf_dock_checker.cpp:75-109 | In an accepted window every pose, not only the mean, heads within 5 degrees of the wharf the short way round and lies strictly between 0.5 and 8.5 from it |
| `DockChecker.BaseFrameIsDocked` | src/wharf_dock_checker.cpp:57-112 | In every run a base frame is a pose of a full window all of whose poses do |
| `DockChecker.BaseFrameIsFinal` | src/wharf_dock_checker.cpp:58-70 | Once found, base frame and window never change in the rest of any run |
| `DockChecker.RunInvariant` | src/wharf_dock_checker.cpp:57-112 | Until a base frame is found the window is the newest 50 poses |
| `DockChecker.WrapAngleMeaning` | src/wharf_dock_checker.cpp:45-49 | The wrapped angle is in [-180, 180) and differs by whole turns |
| `DockChecker.ApartIsLeast` | src/wharf_dock_checker.cpp:45-49 | The wrapped difference of two headings is the least over all whole turns |
| `DockChecker.DockedIffMoored` | src/wharf_dock_checker.cpp:75-104 | A window is accepted exactly if its headings are pairwise within 2 degrees the short way round, their circular mean is within 3 degrees of the wharf, the distances are steady with a mean in the band, and no two headings lie on different sides of the half turn |
| `DockChecker.DistanceIsLeast` | src/wharf_dock_checker.cpp:52-54 | The distance to the wharf is never negative, and its square is at most that of the distance to any point of the line, scaled by the length of the coefficients |
| `DockChecker.DistanceIsReached` | src/wharf_dock_checker.cpp:52-54 | Some point of the line is that close |
| `DockChecker.SumConcat` | src/wharf_dock_checker.cpp:75-87 | Sums of headings and distances add up over the parts of the window |
| `DockChecker.FluctuationSeesSeam` | src/wharf_dock_checker.cpp:81-101 | Headings pairwise close the short way round fail the fluctuation test exactly when some lie either side of the half turn |
| `DockChecker.SeamExample` | src/wharf_dock_checker.cpp:81-101 | A window with headings 179.5 and -179.5, one degree apart, is never accepted |
| `DockChecker.MooredButRejected` | src/wharf_dock_checker.cpp:75-104 | A window of a ship moored by every circular measure, two metres off and within half a degree of the wharf, that is rejected |
| `DockChecker.WharfDockChecker.AddPoseFrame` | src/wharf_dock_checker.cpp:57-63 | Appends to the window and drops the oldest pose, unless a base frame was found |
| `DockChecker.WharfDockChecker.IsStable` | src/wharf_dock_checker.cpp:75-104 | The four tests on sums and extremes decide that mean and fluctuation of headings and distances are as required |
| `DockChecker.WharfDockChecker.GetStableDockBaseFrame` | src/wharf_dock_checker.cpp:66-112 | Latches the middle pose of an accepted window and returns what is latched |
| `StabilityWindow.Monitor` | src/lidar_bg_diff.cpp:196-271 | In every run the window is the newest centres of the valid frames since the ship was last judged gone, and each answer is Stable exactly when there are enough and the centre is close to the oldest of them |
| `StabilityWindow.CloserMeans` | src/lidar_bg_diff.cpp:225-240 | The test compares the Euclidean distance of the two centres with the threshold |
| `StabilityWindow.CloserAlongAxis` | src/lidar_bg_diff.cpp:225-240 | Of centres that differ in one coordinate, any of the three, it compares that difference, either way |
| `StabilityWindow.CloserBounds` | src/lidar_bg_diff.cpp:225-240 | It bounds the difference in every coordinate |
| `StabilityWindow.CloserTriangle` | src/lidar_bg_diff.cpp:225-240 | Bounds add up along three centres |
| `StabilityWindow.EmptyFramesDoNotMatter` | src/lidar_bg_diff.cpp:252-258 | A frame with an empty foreground changes no other answer of a run |
| `StabilityWindow.LidarBgDiff.JudgeShipStatus` | src/lidar_bg_diff.cpp:196-240 | Leave clears the window; a valid frame slides it and is compared with its oldest centre |
| `StabilityWindow.LidarBgDiff.MonitorShip` | src/lidar_bg_diff.cpp:242-271 | Keeps the window the newest part of the visit; an empty foreground answers Leave and leaves it alone |
| `CsvField.WrappedRoundTrip` | src/six_dof_calculator.cpp:383-393 | A reader following section 2 of RFC 4180 recovers a wrapped field, whatever commas, quotes or line breaks it holds |
| `CsvField.RowRoundTrip` | src/six_dof_calculator.cpp:538-550 | A row of wrapped texts and plain numbers reads back as its fields |
| `CsvField.FileRoundTrip` | src/six_dof_calculator.cpp:538-550 | A file of such rows reads back as the rows |
| `CsvField.CsvWrap` | src/six_dof_calculator.cpp:383-393 | The in-place doubling loop ends and yields the text with quotes doubled, in quotes |

## Left out

- Point-cloud processing (voxel grids, clustering, registration, transforms), Euler angles and the conversion of angles
  to coordinates: library or trigonometric code; the fuser moves points by a given function, and decoded points
  keep their raw angles and distance.
- Fitting the wharf line: the line and its heading are given numbers.
- The lock-free queues between threads, sockets, the MQTT client, configuration, logging sinks, file cleaning and camera
  loops: input and output.
- Stopping: the fuser and the pool are modelled while running; a fused frame may be lost on shutdown.
- The scaling of raw angles and distances by the device's accuracies, and the printed messages of the decoder, including
  the one-time message when a frame exceeds the size cap.
- Pausing the thread pool (it only forbids steps), its list of thread records, and changes of its limits while it runs.
  The growth test of commit is read from left to right, an order the language leaves open.
- What each log flag writes: it is a parameter; flags that announce an estimated size are outside the length claim.
- Floating-point rounding, clocks, sleeps, condition-variable timing and weak memory order.
- StabilityWindow.Monitor: the frame count is fixed and at least 1; with 0 the code reads the front of an empty vector.
- LengthCodecs.VarintEncode: defined for values that are not negative, because the loop does not end on others
  (`EncoderEndsIff`).
- RingAllocator.HRingBuf.Release: only for the length of the oldest live block, which is what the allocator relies on.
- VarBuffer.HVLBuf.Grow: memory handed in from outside and failure to allocate are not modelled.
