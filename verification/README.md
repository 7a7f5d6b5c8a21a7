# A verified model of Mirror's ingestion data path

Mirror takes live video over SRT and RTP, cuts it into frames and groups of pictures, and buffers it under memory
limits. This project models the state machines of that path in Dafny and proves what they guarantee over whole runs and
for all inputs.

- **RTP depacketizers** (`RtpStream`, `Aggregation`, `Reassembly`, `Forgeries`, `H264Depacketizer`, `HevcDepacketizer`). A
  reference sender lays out units as RFC 6184 and RFC 7798 say. No loss, duplication or reordering makes a depacketizer
  return a unit that was not sent, and in-order delivery returns exactly the units within the limits; for each premise that
  the first of these needs, every way of breaking it does harm.
- **Memory controller and eviction** (`MemoryProtocol`, `MemoryCalls`, `MemoryOvercommit`, `Eviction`, `MemoryController`).
  Every atomic operation is one step of one caller, and the limits are proved over all interleavings; a call made alone does
  what the sequential object does, of which the exact ledger, and that eviction makes room, are proved.
- **Hybrid queue** (`HybridQueue`, `HybridCalls`). Producers, consumers and the pump interleave over a channel, a byte file and
  counters; nothing is lost, and everything can come out.
- **Groups of pictures** (`VideoFrames`, `GopDetector`, `GopShedding`, `GopLimits`, `GopIndex`, `GopBytes`, `GopBuffer`,
  `GopPipeline`). Groups are objects changed in place; the buffer's two indexes stay exact under every operation, and every
  byte it counts is accounted for. `GopPipeline` joins detector and buffer and follows both over the life of a stream.
- **B-frame reorderer** (`Reorderer`). The heap itself, the release policy and the order filter.
- **Ring buffers** (`BoundedFifo`, `RingBuffer`, `SizedBuffer`). Two encodings of full and empty, one queue.
- **Codecs and rate** (`AnnexB`, `ExpGolomb`, `TokenBucket`).

`dafny verify dfyconfig.toml` checks the whole project. Methods are proved against functions on values, and the lemmas
are about those functions. `Sequences` and `Bytes` hold shared facts.

## Findings

Where the code does not meet a natural expectation, the exact condition is proved instead.

- An H.264 fragment without data is ignored before its start bit is seen, although section 5.8 of RFC 6184 allows it; after
  a loss, fragments of two units can be joined. A unit is harmless exactly if its last fragment is empty or no other is
  (`H264.HarmlessExactly`). HEVC is free of this.
- Refused aggregates and ignored packets do not move the last sequence number on, in either codec. Neighbouring deliveries
  less than half the sequence space apart are therefore not enough; the distances between packets that are heard are what
  counts (`H264.SafeExactly`, `Hevc.SafeExactly`).
- A reset, a release or an eviction that meets a request about to be rolled back takes its size off twice. The listed
  streams can then hold any amount over the budget (`MemoryOvercommit.HeldIsUnbounded`). They stay within it over every run
  if and only if the per-stream limit is zero or at least the budget (`MemoryOvercommit.WithinBudgetExactly`); with other
  limits they do over every run in which no such meeting occurs (`MemoryOvercommit.ListedWithinBudget`).
- A request larger than the whole budget evicts every stream and then fails (`MemoryController.Controller.RequestMemory`).
- A queue payload over 10 MiB is written to disk, but never read back, and its bytes are then parsed as records
  (`HybridQueue.RecordRoundTrip`, `HybridCalls.PumpPassesPrefix`).
- The reorderer's early release of P frames compares a gap with itself (`Reorderer.GapRule`).
- A preview of no bytes on a wrapped sized buffer shows everything (`SizedBuffers.PreviewIsExact`).
- A detector refuses a frame with exactly the maximum number of units, although all were found (`AnnexB.CapsAreExact`).
- A rate increase pays for time that passed before it. The allowance is exceeded if that earns more than both rates allow
  and the bucket has room for it (`RateLimit.ExceedsExactly`), and never if no change earns more (`RateLimit.WithinAllowance`).
- A detected group's size leaves out its keyframe (`GopDetectors.SizeOmitsKeyframe`, `GopPipeline.DetectedFits`). The buffer
  records the size anew, keyframe included, when it reduces a group to its keyframe or cuts off its tail, without adding the
  difference to its byte count (`GopBuffers.Buffer.DropAllButKeyOf`, `GopBuffers.Buffer.DropFramesFromGop`). How far the count
  is off is known at any time (`GopBuffers.Buffer.BytesOff`); with groups recorded exactly it is not off at all.
- Dropping B frames looks at the type alone, so it takes a keyframe whose slices are of type B, although keyframes are to stay
  below a pressure of 0.95. They do if and only if none is of that type where B frames are dropped
  (`GopShedding.SheddingConserves`). The group's B counter, which never counted the keyframe, is then one too low
  (`GopIndex.Gop.TakeOut`).
- A negative group limit makes limit enforcement loop forever on an empty list (`GopLimits.CountLoopEnds`).
- Groups that arrive out of order may lose the newest group to the time limit (`GopLimits.AllRemovedExactly`,
  `GopLimits.OutOfOrder`), and may stay outside the window (`GopLimits.WithinExactly`); with start times in order neither
  happens (`GopLimits.RemovedIsLeast`).

## Model

| member | source | states |
|---|---|---|
| `RtpStream.GapIsDistance` | internal/ingestion/codec/h264_depacketizer.go:323-327 | sequence numbers of packets less than half the space apart give back the exact distance between their positions, across any wraparound |
| `H264.Depacketizer.Depacketize` | internal/ingestion/codec/h264_depacketizer.go:38-104 | the object's new state, seen as one assembly with the last sequence number, and its result are the step function's |
| `H264.Depacketizer.HandleStapA` | internal/ingestion/codec/h264_depacketizer.go:107-150 | the returned units, or the error, are those of the aggregation parser |
| `H264.Depacketizer.HandleFuA` | internal/ingestion/codec/h264_depacketizer.go:154-309 | the new assembly and the completed unit are those of the fragment step, for every payload, sequence number and time; `Reassembly.LosslessExactly` and `Reassembly.LimitsHold` say what that step enforces |
| `Aggregation.AggregateRoundTrip` | internal/ingestion/codec/h264_depacketizer.go:107-150 | aggregated non-empty units come back exactly, in order, if and only if they are within the reader's count and size limits; otherwise the packet is refused |
| `Aggregation.ParsesExactly` | internal/ingestion/codec/h264_depacketizer.go:107-150 | on any payload: units are returned if and only if the payload is these units behind their lengths, none empty, within the limits |
| `Reassembly.AcceptShape` | internal/ingestion/codec/h264_depacketizer.go:188-309 | a fragment leaves an assembly or a unit behind only by opening one, by continuing one with the very next sequence number, or as a duplicate that changes nothing |
| `Reassembly.NothingForged` | internal/ingestion/codec/h264_depacketizer.go:154-309 | a run of the fragment core over any plausible delivery returns only units that were sent, whatever packets are refused or ignored: plausible means that no packet heard is taken for a neighbour of the one heard before unless it is one |
| `Reassembly.LosslessExactly` | internal/ingestion/codec/h264_depacketizer.go:186-309 | in-order delivery of any stream, from any state, returns exactly the units of the items within the limits: a unit over the size, the count of parts, the fragment size or the time is lost as a whole, and no other is |
| `Reassembly.LimitsHold` | internal/ingestion/codec/h264_depacketizer.go:190-269 | no assembly and no reassembled unit is over the limits, and none lives on past its time or past a fragment that is too large |
| `Reassembly.RepeatIsIgnored` | internal/ingestion/codec/h264_depacketizer.go:232-240 | a fragment that comes twice returns nothing the second time and leaves the assembly, but for a first one, which starts the clock again, and for an assembly out of time |
| `Reassembly.CloseIsPlausible` | internal/ingestion/codec/h264_depacketizer.go:323-327 | if every packet is heard, less than half the sequence space between deliveries is plausible |
| `Forgeries.UntameForges` | internal/ingestion/codec/h264_depacketizer.go:182-186 | for every unit with an empty fragment before the last and a last one that is not empty, and every receiver with room for it, there is another unit and a plausible delivery of the two that yields a unit never sent |
| `Forgeries.MistakenForges` | internal/ingestion/codec/h264_depacketizer.go:71-73 | for every distance that is 0 or 1 modulo 2^16 and is neither, there are a stream and a delivery, with no two deliveries more than two positions apart but packets in between that leave no trace, that yield a unit never sent |
| `Reassembly.LosslessRoundTrip` | internal/ingestion/codec/h264_depacketizer.go:154-309 | within the limits on size, count, fragment size and time, and with its first and last fragments not passed over, that is every unit sent |
| `H264.PacketMeansSlot` | internal/ingestion/codec/h264_depacketizer.go:38-104 | a packet laid out as RFC 6184 says acts as the unit or fragment it was made from, with the header byte rebuilt bit for bit; it is an error exactly if it is an aggregate beyond the limits or of another type, and then leaves no trace |
| `H264.NoForgedUnits` | internal/ingestion/codec/h264_depacketizer.go:38-309 | however packets are lost, doubled or reordered, and whichever are refused, every unit a fresh depacketizer returns is a start code and a unit that was sent |
| `H264.RoundTrip` | internal/ingestion/codec/h264_depacketizer.go:38-309 | in-order delivery of single, aggregated and fragmented units within the limits returns exactly those units, in order |
| `H264.InOrderExactly` | internal/ingestion/codec/h264_depacketizer.go:38-309 | packets in order return exactly the units of the items within the receiver's limits, and nothing of the others, for any stream in which no fragmented unit starts with an empty fragment |
| `H264.AlwaysBounded` | internal/ingestion/codec/h264_depacketizer.go:38-309 | whatever packets come, well-formed or not, the assembly held never exceeds the limits, and every unit returned stems from a packet that may deliver one of its size |
| `H264.AcceptedExactly` | internal/ingestion/codec/h264_depacketizer.go:38-104 | a packet other than a fragment is accepted if and only if a sender could have laid it out within the limits |
| `H264.LoneFragment` | internal/ingestion/codec/h264_depacketizer.go:166-179 | a fragment that claims to be both first and last is delivered as the unit it holds, and the assembly stays |
| `H264.HarmlessExactly` | internal/ingestion/codec/h264_depacketizer.go:171-186 | a unit can do harm among harmless ones if and only if a fragment before its last is empty and its last is not: section 5.8 of RFC 6184 allows empty fragments, but they are passed over before their start bit is seen |
| `H264.SafeExactly` | internal/ingestion/codec/h264_depacketizer.go:66-73 | a distance between packets heard one after the other is safe if and only if it is not mistaken for 0 or 1; half the sequence space between deliveries is not enough, since a refused STAP-A leaves no trace |
| `Hevc.Depacketizer.Depacketize` | internal/ingestion/codec/hevc_depacketizer.go:32-100 | the object's new state and its result are the step function's |
| `Hevc.Depacketizer.HandleAggregation` | internal/ingestion/codec/hevc_depacketizer.go:103-157 | the returned units, or the error, are those of the aggregation parser with the check on nested unit types |
| `Hevc.Depacketizer.HandleFragment` | internal/ingestion/codec/hevc_depacketizer.go:161-255 | the new assembly and the completed unit are those of the fragment step; `Reassembly.LosslessExactly` and `Reassembly.LimitsHold` say what that step enforces |
| `Hevc.PacketMeansSlot` | internal/ingestion/codec/hevc_depacketizer.go:32-100 | a packet laid out as RFC 7798 says acts as the unit or fragment it was made from, with both header bytes rebuilt bit for bit; refused aggregates, PACI packets and later types leave no trace |
| `Hevc.NoForgedUnits` | internal/ingestion/codec/hevc_depacketizer.go:32-255 | however packets are lost, doubled or reordered, and whichever are refused or ignored, every unit a fresh depacketizer returns was sent; empty fragments included |
| `Hevc.SafeExactly` | internal/ingestion/codec/hevc_depacketizer.go:79-92 | a distance between packets heard one after the other is safe if and only if it is not mistaken for 0 or 1; half the sequence space between deliveries is not enough, since a PACI packet leaves no trace |
| `Hevc.RoundTrip` | internal/ingestion/codec/hevc_depacketizer.go:32-255 | in-order delivery returns exactly the sent units, in order |
| `Hevc.InOrderExactly` | internal/ingestion/codec/hevc_depacketizer.go:32-255 | packets in order return exactly the units of the items within the receiver's limits, and nothing of the others, whatever the layout |
| `Hevc.AlwaysBounded` | internal/ingestion/codec/hevc_depacketizer.go:32-255 | whatever packets come, well-formed or not, the assembly held never exceeds the limits, and every unit returned stems from a packet that may deliver one of its size |
| `Hevc.AcceptedExactly` | internal/ingestion/codec/hevc_depacketizer.go:32-100 | a packet other than a fragment or a PACI packet is accepted if and only if a sender could have laid it out within the limits |
| `Hevc.LoneFragment` | internal/ingestion/codec/hevc_depacketizer.go:161-185 | a fragment that claims to be both first and last, or is too short, is ignored, and the assembly stays |
| `MemoryProtocol.GlobalLimitKept` | internal/ingestion/memory/controller.go:67-122 | every atomic step of every caller keeps the global counter, less the adds doomed to be rolled back, within the budget |
| `MemoryProtocol.StreamLimitKept` | internal/ingestion/memory/controller.go:110-117 | every step keeps every stream counter, less its doomed adds, within the per-stream limit |
| `MemoryProtocol.LedgerKept` | internal/ingestion/memory/controller.go:147-294 | every step keeps the global counter equal to the stream counters plus half-done transfers less what a swap of a negative balance has erased |
| `MemoryProtocol.AlwaysWithinLimits` | internal/ingestion/memory/controller.go:67-294 | the three invariants hold after every interleaving of any number of callers |
| `MemoryProtocol.QuiescentLimits` | internal/ingestion/memory/controller.go:67-294 | both limits hold whenever no request is in flight, and the ledger closes whenever every caller is idle |
| `MemoryProtocol.LiveUsage` | internal/ingestion/memory/controller.go:285-294 | with all callers idle, the usage of the streams still listed exceeds the global counter by exactly the erased balances less what is left on abandoned counters |
| `MemoryCalls.CounterKept` | internal/ingestion/memory/controller.go:124-145 | a listed stream keeps its counter through every step of every caller until a reset of its own, and a stream that is listed anew gets a counter no one has used |
| `MemoryCalls.AlwaysOwnCounters` | internal/ingestion/memory/controller.go:124-145 | after every run no two listed streams share a counter |
| `MemoryCalls.RequestAlone` | internal/ingestion/memory/controller.go:67-122 | a request that fits the budget, made alone, charges the stream's own counter if that fits the stream's limit, and otherwise leaves both counters as they were |
| `MemoryCalls.RequestRefused` | internal/ingestion/memory/controller.go:74-105 | one that does not fit and finds no high pressure changes nothing |
| `MemoryCalls.CollectsOnce` | internal/ingestion/memory/controller.go:80-90 | after garbage collection there is one more attempt, and no other of the kind |
| `MemoryCalls.NoOtherAttempt` | internal/ingestion/memory/controller.go:92-105 | after the attempt that follows an eviction there is none, and without high pressure there is no eviction |
| `MemoryCalls.PressureIsEighty` | internal/ingestion/memory/controller.go:92-94 | high pressure is more than 80% of the budget in use |
| `MemoryCalls.RequestEvicts` | internal/ingestion/memory/controller.go:92-122 | under high pressure exactly the listed victims are zeroed, the global counter falls by what they held, and the request is charged on what is left if they gave anything and it fits |
| `MemoryCalls.ReleaseAlone` | internal/ingestion/memory/controller.go:147-179 | a release made alone takes the size, or what there is, off both counters |
| `MemoryCalls.ResetAlone` | internal/ingestion/memory/controller.go:285-294 | a reset made alone takes the stream out of the directory and what it held off the global counter |
| `MemoryCalls.EndsIsRun` | internal/ingestion/memory/controller.go:67-294 | each of these is a run of the protocol in which only that caller moves, whatever the others are in the middle of |
| `MemoryOvercommit.HonestExactly` | internal/ingestion/memory/controller.go:110-117 | a move keeps every counter, less its doomed adds, from falling below zero if and only if it is no swap of a counter with a doomed add and no release of more than that balance |
| `MemoryOvercommit.ListedWithinBudget` | internal/ingestion/memory/controller.go:67-294 | whatever the limits: after any run of such moves, whenever no request is in flight, the listed streams together hold no more than the budget |
| `MemoryOvercommit.Drift` | internal/ingestion/memory/controller.go:147-179 | a reset or a release that meets a doomed add takes its size off, and the rollback takes it off again |
| `MemoryOvercommit.EvictionRound` | internal/ingestion/memory/controller.go:264-279 | so does the swap of an eviction, while the request that evicts gets the full limit of a new stream |
| `MemoryOvercommit.HeldIsUnbounded` | internal/ingestion/memory/controller.go:67-294 | with a per-stream limit below the budget, by any of the three, two callers on a fresh controller reach a state with both idle, the global counter at or below zero, and the listed streams holding any multiple of the limit |
| `MemoryOvercommit.BudgetExceeded` | internal/ingestion/memory/controller.go:67-294 | so the listed streams can hold more than the budget, by any of the three |
| `MemoryOvercommit.WithinBudgetExactly` | internal/ingestion/memory/controller.go:67-294 | after every run of any number of callers, whenever no request is in flight, the listed streams hold no more than the budget, if and only if the per-stream limit given to the constructor is zero or at least the budget |
| `Eviction.TakeUntil` | internal/ingestion/memory/eviction.go:38-50 | the loop over a sorted list takes the fewest leading candidates that reach the target, or all |
| `Eviction.SelectByKey` | internal/ingestion/memory/eviction.go:27-104 | the victims and the rest share out the candidates, reach the target unless nothing is left, fall short without the last victim, and no one left should have gone first |
| `Eviction.ScoreStreams` | internal/ingestion/memory/eviction.go:118-164 | the two loops compute exactly the normalised scores |
| `Eviction.TakeEligible` | internal/ingestion/memory/eviction.go:174-183 | the first loop takes a shortest prefix of the candidates with a score of at least zero |
| `Eviction.TakeLastResort` | internal/ingestion/memory/eviction.go:186-196 | the second loop goes on with the others, in order, only as far as needed |
| `Eviction.SelectHybrid` | internal/ingestion/memory/eviction.go:110-199 | the hybrid choice is minimal in the same sense, and takes candidates of last resort only when all others are taken and fall short |
| `Eviction.LastResortIsActive` | internal/ingestion/memory/eviction.go:135-164 | with non-negative weights, ages and priorities, last resort means active, and nothing else |
| `Eviction.HybridSparesActive` | internal/ingestion/memory/eviction.go:110-199 | an active stream is chosen only after every inactive one, when those together fall short of the target |
| `Eviction.LruSparesActive` | internal/ingestion/memory/eviction.go:27-52 | so it is with the least recently used: an active stream is chosen only after every inactive one, when those together fall short of the target |
| `Eviction.ChosenAreRight` | internal/ingestion/memory/eviction.go:29-160 | said of the streams themselves: no stream that is left is inactive beside an active victim, or was accessed before one like it (least recently used); has a higher priority value, or the same and an earlier access (priority); is larger (size); or scores higher (hybrid) |
| `Eviction.ScoreGrows` | internal/ingestion/memory/eviction.go:135-160 | of two inactive streams the one no younger, no smaller and of no lower priority value scores no less; scores lie between 0 and the sum of the weights |
| `Eviction.Select` | internal/ingestion/memory/eviction.go:27-199 | each of the four strategies delivers such a choice from candidates with distinct ids, and the streams it should; the hybrid one takes candidates of last resort only if needed, and it, with non-negative weights, ages and priorities, and the least recently used one spare active streams |
| `MemoryController.Controller.RequestMemory` | internal/ingestion/memory/controller.go:67-122 | run sequentially: the exact ledger and both limits are kept; when eviction is tried, the request fails at the global check if and only if its size is above the budget, and then every stream has been zeroed; the charge is on top of what eviction left, and eviction has spared active streams; without eviction a failed request changes nothing |
| `MemoryController.Controller.ChargeStream` | internal/ingestion/memory/controller.go:108-121 | the charge is made exactly when it fits the stream's limit, and undone on both counters otherwise |
| `MemoryController.Controller.ReleaseMemory` | internal/ingestion/memory/controller.go:147-179 | the stream loses the size or all it has, whichever is less, and the ledger stays exact |
| `MemoryController.Controller.ResetStreamUsage` | internal/ingestion/memory/controller.go:285-294 | the stream is gone from directory and tracker, and the ledger stays exact |
| `MemoryController.Controller.EvictMemory` | internal/ingestion/memory/controller.go:234-282 | the streams zeroed are those the strategy chooses among the holders of memory, the fewest that free the target, or all; under the default strategy with no age or priority below zero, and under the least recently used, an active stream is zeroed only together with every inactive one, when those hold less than the target |
| `MemoryController.Controller.ZeroStreams` | internal/ingestion/memory/controller.go:264-279 | exactly the selected streams are zeroed, and the sum of what they held is reported and taken off |
| `MemoryController.Controller.CollectStreams` | internal/ingestion/memory/controller.go:246-256 | the candidates are the streams that hold memory, each once, with what the tracker knows of them, active if it knows nothing; they account for the whole global counter |
| `HybridQueue.RecordRoundTrip` | internal/queue/hybrid_queue.go:136-160 | a record parses back to its payload, whatever surrounds it, if and only if the payload is at most 10 MiB |
| `HybridQueue.OversizedIsParsed` | internal/queue/hybrid_queue.go:327-331 | over 10 MiB only the length prefix is passed over: the payload's own bytes, and then the records behind it, are parsed as what comes next |
| `HybridQueue.PumpReadsOldest` | internal/queue/hybrid_queue.go:296-350 | with the mutex free, the pump reads the oldest unread payload and leaves whole records behind it; it finds nothing exactly when nothing is left |
| `HybridQueue.SpillKeeps` | internal/queue/hybrid_queue.go:136-147 | handing a record to the writer keeps the invariant on payloads, mutex, file and counters |
| `HybridQueue.FlushKeeps` | internal/queue/hybrid_queue.go:152-157 | so does the flush that makes the record readable |
| `HybridQueue.TakeKeeps` | internal/queue/hybrid_queue.go:181-215 | so does taking the oldest item out of memory |
| `HybridQueue.ReadBackKeeps` | internal/queue/hybrid_queue.go:296-350 | so does reading a record back |
| `HybridQueue.PumpSendKeeps` | internal/queue/hybrid_queue.go:282-291 | so does the pump's send into memory |
| `HybridQueue.AlwaysInvariant` | internal/queue/hybrid_queue.go:109-350 | after every interleaving of producers, pump and consumers that writes no payload over 10 MiB to the file the invariant holds: the unread file suffix is whole records, and each counter is right once the updates still owed are added |
| `HybridQueue.NothingLost` | internal/queue/hybrid_queue.go:109-350 | after every interleaving the accepted payloads are, as a multiset, those dequeued, in memory, in the pump's hand and on disk; and each of the two ways through the queue is first in, first out |
| `HybridQueue.CountersSettle` | internal/queue/hybrid_queue.go:353-360 | with no update owed the depth is the number of queued payloads, and the queue reports disk data exactly when a record remains |
| `HybridCalls.AlwaysFits` | internal/queue/hybrid_queue.go:125-134 | over every run the channel holds no more than the memory size |
| `HybridCalls.EnqueueAlone` | internal/queue/hybrid_queue.go:109-160 | a payload goes to the end of memory if there is room, and otherwise as a flushed record to the end of the file; the counters follow |
| `HybridCalls.DequeueAlone` | internal/queue/hybrid_queue.go:181-215 | a dequeue delivers the oldest item in memory, and both counts are one less |
| `HybridCalls.DequeueWaits` | internal/queue/hybrid_queue.go:181-215 | an empty channel delivers nothing |
| `HybridCalls.PumpAlone` | internal/queue/hybrid_queue.go:240-293 | with room in memory and data on disk, a round of the pump puts exactly the oldest payload on disk at the end of memory |
| `HybridCalls.PumpRests` | internal/queue/hybrid_queue.go:253-265 | with neither it changes nothing |
| `HybridCalls.PumpPassesPrefix` | internal/queue/hybrid_queue.go:327-331 | at a payload over 10 MiB a read passes over its length prefix alone, and what is parsed next is the payload itself |
| `HybridCalls.Drains` | internal/queue/hybrid_queue.go:109-350 | from every quiet state a run of dequeues and pump rounds empties the queue; then every payload accepted has come out, in order on each of the two ways |
| `Reorderer.SiftUp` | internal/ingestion/frame/bframe_reorderer.go:400-408 | restores the heap order after a push, keeping the frames |
| `Reorderer.SiftDown` | internal/ingestion/frame/bframe_reorderer.go:400-417 | restores the heap order below a replaced root, keeping the frames |
| `Reorderer.Push` | internal/ingestion/frame/bframe_reorderer.go:406-408 | adds one frame to a heap and gives a heap |
| `Reorderer.Pop` | internal/ingestion/frame/bframe_reorderer.go:410-417 | removes a frame with the least DTS and gives a heap of the others |
| `Reorderer.RootIsLeast` | internal/ingestion/frame/bframe_reorderer.go:192-193 | slot 0 has the least DTS |
| `Reorderer.SecondIsLeastOfRest` | internal/ingestion/frame/bframe_reorderer.go:236-242 | the smaller of slots 1 and 2 has the second-least DTS |
| `Reorderer.GapRule` | internal/ingestion/frame/bframe_reorderer.go:378-390 | the rule "gap over twice the usual duration" comes down to a gap over 10000, since the duration is the gap itself or 3000 |
| `Reorderer.LoneFrame` | internal/ingestion/frame/bframe_reorderer.go:196-222 | a frame alone in the buffer is due only by its age, as an IDR frame, or if no more than one is kept |
| `Reorderer.DueExactly` | internal/ingestion/frame/bframe_reorderer.go:218-262 | among others, short of depth and delay: I and IDR frames are due, a P frame if half the depth is reached or the next frame is an I or P frame more than 10000 ticks later, and no other |
| `Reorderer.DueAnyway` | internal/ingestion/frame/bframe_reorderer.go:197-216 | a full buffer and a root that is too old are always due |
| `Reorderer.JudgedExactly` | internal/ingestion/frame/bframe_reorderer.go:290-365 | while the marks are in force, the filter lets a frame pass and keeps them if and only if the frame is in place, in DTS and unless it is a B-frame in PTS, or wraps around; and it takes the frame for a stream reset if and only if that steps back by more than 900000 ticks and at most 2^32 |
| `Reorderer.AcceptedIsOrdered` | internal/ingestion/frame/bframe_reorderer.go:290-375 | the output of every run is in place from any frame that is not a B-frame up to the next stream reset, across wraparounds |
| `Reorderer.UnwrappedIsMonotone` | internal/ingestion/frame/bframe_reorderer.go:296-305 | over such a stretch 33-bit decode times, with 2^33 added for each wraparound, never fall, at any distance |
| `Reorderer.SmoothIsMonotone` | internal/ingestion/frame/bframe_reorderer.go:290-375 | where no wraparound lies between them they never fall, whatever the range of the timestamps |
| `Reorderer.UnanchoredPasses` | internal/ingestion/frame/bframe_reorderer.go:290-294 | until the first frame that is not a B-frame everything passes |
| `Reorderer.DtsFilledIn` | internal/ingestion/frame/bframe_reorderer.go:153-156 | nothing but a missing DTS is filled in, with PTS |
| `Reorderer.BFrameReorderer.AddFrame` | internal/ingestion/frame/bframe_reorderer.go:57-112 | the new frame joins the heap and the first capture time becomes the base; frames leave one by one, each the root of the heap and due when it left, and judged by the filter in that order; nothing due stays; frames in are frames out plus refused plus buffered; the batch is non-decreasing in DTS; the whole history is in order if no PTS in it is negative |
| `Reorderer.BFrameReorderer.CheckOutput` | internal/ingestion/frame/bframe_reorderer.go:188-287 | the release loop: at every look but the last the root was due, at the last it is not; what left is output or refused as the filter judges it, and the two counters count it |
| `Reorderer.BFrameReorderer.Flush` | internal/ingestion/frame/bframe_reorderer.go:115-131 | everything leaves, least DTS first: output or refused as the filter judges it, in order |
| `Reorderer.BFrameReorderer.PopAndJudge` | internal/ingestion/frame/bframe_reorderer.go:267-275 | the frame with the least DTS is taken, output exactly when the filter lets it pass, and the marks move accordingly |
| `Reorderer.BFrameReorderer.IsValidOutput` | internal/ingestion/frame/bframe_reorderer.go:290-365 | verdict and marks are those of the filter, which itself resets the marks on a stream reset |
| `BoundedFifo.NothingReordered` | internal/ingestion/buffer/ring.go:74-189 | over any run of writes and reads of a bounded queue the bytes accepted are the bytes read followed by the bytes left, in order, and the capacity holds; each ring object keeps its run as history |
| `BoundedFifo.CopyRing` | internal/ingestion/buffer/ring.go:177-183 | the wrapping copy loop copies the ring's bytes in order and returns the position behind them |
| `RingBuffers.RingBuffer.Write` | internal/ingestion/buffer/ring.go:74-153 | appends all bytes or changes nothing, with the exact outcome for closed, too large and full; written less read is the queue length; every byte of the buffer is usable |
| `RingBuffers.RingBuffer.CopyIn` | internal/ingestion/buffer/ring.go:134-141 | wraparound is invisible: the queue grows by exactly the bytes written |
| `RingBuffers.RingBuffer.Read` | internal/ingestion/buffer/ring.go:156-189 | returns and removes the longest available prefix; the rest of the destination is untouched |
| `RingBuffers.RingBuffer.InOrder` | internal/ingestion/buffer/ring.go:74-189 | over the life of the object, since its last reset, what writes accepted is what reads delivered followed by what is left |
| `RingBuffers.RingBuffer.GetPreview` | internal/ingestion/buffer/ring.go:357-405 | shows exactly the last unread bytes, as many as the seconds are worth at the measured rate or at 50 Mbps, or as there are; one sample is counted per 4096 bytes |
| `RingBuffers.RingBuffer.Reset` | internal/ingestion/buffer/ring.go:284-294 | empties the queue |
| `SizedBuffers.SizeFor` | internal/ingestion/buffer/sized.go:63-83 | thirty seconds of the whole bytes per second at the bitrate, capped at 1 Gbps; refused exactly below 1000 bps |
| `SizedBuffers.ProperSizedBuffer.Write` | internal/ingestion/buffer/sized.go:109-160 | the same queue with one byte less than the array: all or nothing, with the exact outcome |
| `SizedBuffers.ProperSizedBuffer.CopyIn` | internal/ingestion/buffer/sized.go:144-151 | the one or two copies extend the queue by exactly the bytes written |
| `SizedBuffers.ProperSizedBuffer.Read` | internal/ingestion/buffer/sized.go:163-212 | returns and removes the longest available prefix |
| `SizedBuffers.ProperSizedBuffer.InOrder` | internal/ingestion/buffer/sized.go:109-212 | over the life of the object what writes accepted is what reads delivered followed by what is left |
| `SizedBuffers.ProperSizedBuffer.CopyOut` | internal/ingestion/buffer/sized.go:196-203 | the one or two copies deliver the ring's bytes in order |
| `SizedBuffers.ProperSizedBuffer.GetHotData` | internal/ingestion/buffer/sized.go:215-247 | exactly the last two seconds of unread bytes, or all of them |
| `SizedBuffers.ProperSizedBuffer.GetPreview` | internal/ingestion/buffer/sized.go:297-349 | exactly the last unread bytes that the seconds are worth at the bitrate, except that a request for none on a wrapped buffer shows all |
| `SizedBuffers.PreviewIsExact` | internal/ingestion/buffer/sized.go:328-335 | the preview is what was asked for if and only if the request is for at least one byte or the buffer is not wrapped |
| `AnnexB.FindStartCodeUnits` | internal/ingestion/frame/assembler.go:333-380 | the units are those of the common splitting function with the assembler's margins; data without a start code is one unit |
| `AnnexB.H264FindNalUnits` | internal/ingestion/frame/h264_detector.go:404-495 | the units, or the error with the units before it, are those of the splitting function under both caps |
| `AnnexB.HevcFindNalUnits` | internal/ingestion/frame/hevc_detector.go:328-402 | the same with the wider margin of the outer loop |
| `AnnexB.CapsAreExact` | internal/ingestion/frame/h264_detector.go:473-494 | a list passes the caps if and only if it has fewer units than the maximum and each is small enough: the maximum itself is an error |
| `AnnexB.NoCodeInside` | internal/ingestion/frame/assembler.go:352-359 | no start code begins inside a well-formed unit, even completed by the bytes behind it |
| `AnnexB.SplitJoin` | internal/ingestion/frame/assembler.go:333-380 | splitting gives back the joined units, for any mix of 3- and 4-byte codes and any margins of at most one byte |
| `AnnexB.RoundTrip` | internal/ingestion/frame/h264_detector.go:404-495 | all three splitters return exactly the units that were joined; the detectors if and only if their caps allow it |
| `AnnexB.TrailingCode` | internal/ingestion/frame/assembler.go:333-380 | a start code with nothing behind it belongs to the unit before it for the assembler, and is dropped by both detectors |
| `AnnexB.NoiseInFront` | internal/ingestion/frame/assembler.go:333-380 | bytes in which no start code begins are passed over; data without any is one unit for the assembler and none for the detectors |
| `ExpGolomb.GetBit` | internal/ingestion/frame/idr_detector.go:370-372 | bit k of the data, most significant bit first |
| `ExpGolomb.DecodeExpGolomb` | internal/ingestion/frame/idr_detector.go:333-368 | value, failure and next position are those of the reference decoding, at every offset of every byte string |
| `ExpGolomb.SimpleBitReader.ReadBit` | internal/ingestion/gop/buffer.go:24-35 | the next bit, or nothing exactly at the end |
| `ExpGolomb.SimpleBitReader.ReadUE` | internal/ingestion/gop/buffer.go:49-76 | the same reference decoding: so the two decoders agree on value, failure and next position |
| `ExpGolomb.DecodeOne` | internal/ingestion/frame/idr_detector.go:333-368 | the code of every 32-bit value, the largest included, decodes to it |
| `ExpGolomb.RoundTrip` | internal/ingestion/gop/buffer.go:49-76 | any list of 32-bit values survives encoding, packing into bytes and repeated decoding |
| `ExpGolomb.BeyondRange` | internal/ingestion/frame/idr_detector.go:356-366 | a decoded value is what the code stands for if and only if it has fewer than 32 zeros or a zero suffix; otherwise it is reduced to 32 bits |
| `RateLimit.TokenBucket.Allow` | internal/ingestion/ratelimit/ratelimit.go:47-59 | admits exactly when the refilled tokens suffice and takes exactly that many; the tokens stay between 0 and the capacity exactly unless a negative request adds beyond it |
| `RateLimit.TokenBucket.Refill` | internal/ingestion/ratelimit/ratelimit.go:117-135 | adds the whole tokens earned, up to the capacity; a span below a millisecond or a token is kept for later |
| `RateLimit.TokenBucket.SetRate` | internal/ingestion/ratelimit/ratelimit.go:93-107 | new rate and capacity, tokens cut to it, and no refill first |
| `RateLimit.StepBound` | internal/ingestion/ratelimit/ratelimit.go:47-135 | one call admits and leaves over no more than it found plus the rate times the time it consumed |
| `RateLimit.RunBound` | internal/ingestion/ratelimit/ratelimit.go:47-135 | from any state, through any calls and rate changes, a run admits at most the tokens it starts with plus the highest rate times the time that passes |
| `RateLimit.NeverTooMuch` | internal/ingestion/ratelimit/ratelimit.go:32-59 | at a fixed rate no run since creation admits more than capacity plus rate times elapsed time, and the tokens stay between 0 and the capacity |
| `RateLimit.WaitingHelps` | internal/ingestion/ratelimit/ratelimit.go:117-135 | once the time since the last refill is worth n tokens, a request for n up to the capacity is admitted |
| `RateLimit.CapacityIsASecond` | internal/ingestion/ratelimit/ratelimit.go:32-45 | the capacity is what the rate earns in a second, 1024 at least |
| `RateLimit.EarlyLooksAreFree` | internal/ingestion/ratelimit/ratelimit.go:117-135 | a look within a millisecond, or within the time of one token, leaves the clock and the tokens alone, and a refusal leaves the bucket as it was |
| `RateLimit.EarnsAtLeastHalf` | internal/ingestion/ratelimit/ratelimit.go:47-135 | however often it is asked and whatever it refuses, a bucket with room admits and keeps at least half of what the rate is worth over the time it has accounted for |
| `RateLimit.AccountedFor` | internal/ingestion/ratelimit/ratelimit.go:117-135 | at its last request no more than a millisecond, or the time of one token, is left unaccounted for |
| `RateLimit.WithinAllowance` | internal/ingestion/ratelimit/ratelimit.go:47-135 | through rate changes at which the unpaid time is worth no more than it was allowed, no run admits more than the tokens it starts with plus each rate times the time it is in force |
| `RateLimit.CoveredIf` | internal/ingestion/ratelimit/ratelimit.go:93-107 | a rate that is not raised, or raised right after a refill, is such a change |
| `RateLimit.ExceedsExactly` | internal/ingestion/ratelimit/ratelimit.go:93-135 | the first request after a rate change can exceed that allowance if and only if the time since the last refill, paid at the new rate, earns more than both rates allow and the bucket has room for more than that |
| `RateLimit.RaiseOverpays` | internal/ingestion/ratelimit/ratelimit.go:93-135 | any raise with unpaid time of up to a second and an empty bucket is exceeded |
| `GopDetectors.DurationIsModular` | internal/ingestion/gop/detector.go:192-198 | the duration is the difference modulo 2^33 if and only if the times are less than one wrap apart |
| `GopDetectors.Detector.ProcessFrame` | internal/ingestion/gop/detector.go:39-89 | the object's new state and the closed group are those of the step function |
| `GopDetectors.Detector.CloseCurrentGop` | internal/ingestion/gop/detector.go:91-109 | the open group gets its end, duration and flags and joins the last ten |
| `GopDetectors.CompletedExactly` | internal/ingestion/gop/detector.go:200-254 | after every run the open group is complete if and only if at some frame behind its keyframe it had lasted half a second or held 120 frames, and closed if and only if the same holds of two seconds |
| `GopDetectors.ReachedInTicks` | internal/ingestion/gop/detector.go:213-237 | the two spans are 45000 and 180000 ticks of the 90 kHz clock |
| `GopDetectors.TimedExactly` | internal/ingestion/gop/detector.go:211-253 | after every run the open group lasts for its span at the last frame by which that was half a second; without one, for its span at the first frame from the 120th on at which that is not zero; and zero before |
| `GopDetectors.AlwaysInvariant` | internal/ingestion/gop/detector.go:39-109 | after every run: the closed groups and the open one are good, chained by their times, and hold the frames from the first keyframe on; the recent groups are the last ten |
| `GopDetectors.Partition` | internal/ingestion/gop/detector.go:39-89 | the groups of a run, in order, are exactly the frames from the first keyframe on; they are numbered 1, 2, 3, ..., each with one keyframe, at position 0, and every frame carries its group and position |
| `GopDetectors.Durations` | internal/ingestion/gop/detector.go:91-101 | a closed group lasts until the next keyframe, whatever was noted while it was open |
| `GopDetectors.SizeOmitsKeyframe` | internal/ingestion/gop/detector.go:51-83 | the recorded size is the sum of the frame sizes if and only if the keyframe is empty |
| `GopPipeline.DetectedFits` | internal/ingestion/stream_handler.go:406-418 | whatever the types of its frames, every group the detector closes fits the buffer: its one keyframe in front, its counters exact for the other frames, its recorded size short by exactly its keyframe |
| `GopPipeline.DetectedApart` | internal/ingestion/frame/assembler.go:144-154 | frames numbered as the assembler does give groups with ids of their own and with no frame id in common |
| `GopPipeline.StreamHandler.ProcessFrame` | internal/ingestion/stream_handler.go:405-418 | after every frame, for frames of any types in any order, the buffer is sound and holds frames and groups that the detector has closed; if frames are captured in order, no keyframe is of type B and a group is allowed, it is within its limits |
| `GopPipeline.StreamHandler.ShedFrames` | internal/ingestion/stream_handler.go:497-507 | so it is after shedding at any pressure at any time, and exactly the frames of the shedding law are gone |
| `GopPipeline.StreamHandler.DropCorrupted` | internal/ingestion/recovery/recovery.go:290-296 | so it is after the tail of a group has been dropped, and no other frame is lost |
| `GopShedding.WithoutBKeeps` | internal/ingestion/gop/buffer.go:384-428 | dropping the B frames of a group loses nothing else: frames conserved, order kept, no B frame left; and no keyframe is lost if and only if none is of type B |
| `GopShedding.WithoutPKeeps` | internal/ingestion/gop/buffer.go:439-456 | dropping P frames from the back, each judged with the frames still there, conserves frames, order and keyframes, a keyframe of type P included |
| `GopShedding.WithoutPIsComplete` | internal/ingestion/types/gop.go:213-247 | without B frames every P frame that is no keyframe goes |
| `GopShedding.WithoutPExactly` | internal/ingestion/gop/buffer.go:439-456 | judging each P frame from the back with the frames still there drops exactly those that may go when judged with all of them |
| `GopShedding.NoBNextMeans` | internal/ingestion/types/gop.go:226-243 | a P frame may go if and only if every B frame behind it comes after another P frame or keyframe |
| `GopShedding.OnlyKeyKeeps` | internal/ingestion/gop/buffer.go:485-495 | keeping only keyframes conserves frames, order and keyframes |
| `GopShedding.EachKeeps` | internal/ingestion/gop/buffer.go:384-466 | what one group's shedding conserves is conserved over all groups, and the keyframes are kept if and only if they are in each group it is for |
| `GopShedding.SheddingConserves` | internal/ingestion/gop/buffer.go:338-381 | for any groups, at every pressure: frames before are frames dropped plus frames left; survivors keep their order; a buffer with a group keeps one; below 0.95 no group goes, and no keyframe if and only if none is of type B where B frames are dropped |
| `GopShedding.LowPressure` | internal/ingestion/gop/buffer.go:350-352 | from 0.5 to 0.7 only the two oldest groups change, by exactly their B frames |
| `GopShedding.MediumPressure` | internal/ingestion/gop/buffer.go:353-357 | from 0.7 to 0.85 no B frame is left anywhere, and in the oldest group no P frame that is not a keyframe; `GopShedding.SheddingExactly` says that nothing else goes |
| `GopShedding.SheddingExactly` | internal/ingestion/gop/buffer.go:338-381 | what is left at each pressure, in terms of the groups as they were: all below 0.5; then the two oldest without B frames; from 0.7 all without B frames and the oldest also without its P frames that are no keyframes; from 0.85 the oldest of several with its keyframe only; from 0.95 without it, or a single group with its keyframe only |
| `GopIndex.Gop.CanDropFrame` | internal/ingestion/types/gop.go:213-247 | the scan is exactly the droppability rule |
| `GopIndex.Gop.TakeOut` | internal/ingestion/gop/buffer.go:404-413 | one frame leaves the group with its size and its count; exact counters stay exact if and only if it is not the keyframe, which the detector never counted |
| `GopIndex.IndexRemoved` | internal/ingestion/gop/buffer.go:878-886 | when one frame leaves and those behind it are renumbered, the frame index is again exact |
| `GopIndex.IndexTruncated` | internal/ingestion/gop/buffer.go:752-769 | when the frames from a position on leave, the index is again exact |
| `GopIndex.IndexFront` | internal/ingestion/gop/buffer.go:266-270 | when the oldest group leaves, the index is again exact |
| `GopIndex.IndexAdded` | internal/ingestion/gop/buffer.go:174-183 | when a group is added, the index is again exact |
| `GopIndex.IndexIsSearch` | internal/ingestion/gop/buffer.go:305-315 | following the index gives what a search through all groups gives, for every id |
| `GopLimits.NoFewer` | internal/ingestion/gop/buffer.go:222-250 | whatever the start times: had fewer of the oldest groups gone, some limit would be broken |
| `GopLimits.RemovedIsLeast` | internal/ingestion/gop/buffer.go:222-250 | with start times in order and at least one group allowed, what is left is the longest run of newest groups within the count, byte and time limits, the newest included |
| `GopLimits.WithinExactly` | internal/ingestion/gop/buffer.go:222-250 | however the start times lie: what is left is within all limits if and only if, after the count and byte limits, no group in the window is followed by one outside and a single one lies in it |
| `GopLimits.AllRemovedExactly` | internal/ingestion/gop/buffer.go:236-249 | the newest group is lost, and all others with it, if and only if more than one is left after the count and byte limits and all of those lie outside the window |
| `GopLimits.OutOfOrder` | internal/ingestion/gop/buffer.go:236-249 | two groups out of order both go |
| `GopLimits.CountLoopEnds` | internal/ingestion/gop/buffer.go:224-226 | the loop over the number of groups ends if and only if the limit is not negative: on an empty list a negative one lets it go on, and a turn changes nothing |
| `GopBuffers.OrderKept` | internal/ingestion/gop/buffer.go:163-219 | start times in order stay in order when a group is added |
| `GopBuffers.LeftWithin` | internal/ingestion/gop/buffer.go:222-250 | so they do when the oldest groups go, and what is left is within the limits |
| `GopBuffers.Buffer.AddGop` | internal/ingestion/gop/buffer.go:163-219 | an incomplete group that is not closed is ignored; any other, whatever size it records, is appended and the oldest groups leave as the limits say; with start times in order the group stays and the buffer is within all limits; both indexes stay exact, the bytes counted keep their distance from the sizes recorded, and bytes that are exact stay so if the group's size is |
| `GopBuffers.Buffer.Append` | internal/ingestion/gop/buffer.go:173-210 | list, both indexes, bytes and newest time after adding a group |
| `GopBuffers.Buffer.EnforceBufferLimits` | internal/ingestion/gop/buffer.go:222-250 | for a limit that is not negative the three loops terminate and remove exactly the groups of the limits function |
| `GopBuffers.Buffer.RemoveOldestGop` | internal/ingestion/gop/buffer.go:253-291 | the first group leaves, with its index entries and bytes, and the oldest time is that of the next; an empty buffer is left alone |
| `GopBuffers.Buffer.RemoveFrameAt` | internal/ingestion/gop/buffer.go:400-416 | one frame leaves its group; the index stays exact, nothing else moves, and no group's recorded size changes against its frames |
| `GopBuffers.Buffer.UpdateFrameIndicesAfterRemoval` | internal/ingestion/gop/buffer.go:878-886 | the frames from the position on get their positions; every other entry is untouched |
| `GopBuffers.Buffer.DropBFramesOf` | internal/ingestion/gop/buffer.go:391-425 | removing the collected positions from the highest down leaves exactly the other frames and returns the B frames, last first |
| `GopBuffers.Buffer.DropPFramesOf` | internal/ingestion/gop/buffer.go:438-463 | the backward loop drops exactly the P frames that may go |
| `GopBuffers.Buffer.DropBFrames` | internal/ingestion/gop/buffer.go:384-428 | the same for the oldest groups, or for all |
| `GopBuffers.Buffer.DropPFrames` | internal/ingestion/gop/buffer.go:431-466 | the same for the oldest groups |
| `GopBuffers.Buffer.DropOldGops` | internal/ingestion/gop/buffer.go:469-515 | the oldest groups leave, or keep only their keyframes, while more than one group is left; the new distance of every recorded size from its frames, and the drift, are given |
| `GopBuffers.Buffer.DropAllButKeyOf` | internal/ingestion/gop/buffer.go:484-511 | one group keeps only its keyframe, with index, counts and size exact; the bytes counted drift from the sizes recorded by exactly what the group had recorded wrongly, and every other group keeps its distance |
| `GopBuffers.Buffer.DropAllNonKeyframes` | internal/ingestion/gop/buffer.go:568-606 | the same for all groups |
| `GopBuffers.Buffer.DropFramesForPressure` | internal/ingestion/gop/buffer.go:338-381 | exactly the frames of the shedding law go; frames conserved, order kept, below 0.95 the same groups, and no keyframe lost if and only if none is of type B where B frames go; the byte count falls by exactly the bytes dropped and what is off in a group that leaves whole; the distance of every recorded size from its frames is given; bytes that are exact stay exact, and a buffer within its limits stays so |
| `GopBuffers.Buffer.BytesOff` | internal/ingestion/gop/buffer.go:200-201 | at any time the byte count differs from the bytes of the buffered frames by exactly what the groups record wrongly and the drift |
| `GopBytes.CountMoves` | internal/ingestion/gop/buffer.go:338-381 | at every pressure the byte count falls by the bytes of the dropped frames and by what is off in the group that leaves whole |
| `GopBytes.SheddingCovers` | internal/ingestion/gop/buffer.go:338-381 | a group recorded with at least its frames, or without a keyframe of type B at least its other frames, stays so at every pressure, so that no recorded size becomes negative |
| `GopBuffers.Buffer.DropFramesFromGop` | internal/ingestion/gop/buffer.go:737-797 | exactly the tail of the named group goes, the byte count falls by exactly its bytes, and the drift grows by what the group had recorded wrongly; bytes that are exact stay exact; an unknown group or a position out of range changes nothing |
| `GopBuffers.Buffer.Clear` | internal/ingestion/gop/buffer.go:723-733 | an empty, valid buffer, with the newest time forgotten |
| `GopBuffers.Buffer.GetGop` | internal/ingestion/gop/buffer.go:294-302 | the group of the list with the id, or none exactly when there is none |
| `GopBuffers.Buffer.GetFrame` | internal/ingestion/gop/buffer.go:305-315 | what a linear search through all buffered groups finds |
| `GopBuffers.Buffer.GetRecentGops` | internal/ingestion/gop/buffer.go:318-335 | the newest groups up to the limit, the oldest of them first |

## Left out

- HTTP handlers, server, middleware, configuration, logging, health checks, metrics: plumbing without a hard property.
- Manager, SRT and RTP connection adapters, pipelines and the Redis registry: their guarantees rest on libraries and services.
- MPEG-TS parser, AV1 depacketizer, parameter-set parsing, backpressure, adaptive quality, health scoring, recovery, checksum cache.
- The depacketizer wrappers that charge memory: they clear their own count while the output stays charged, so the release contract is the caller's.
- The parameter-set extraction in `AddGOP` and the callback before a group is dropped: they change neither frames nor indexes.
- Logging, drop statistics and the `totalGOPs`, `droppedGOPs` and `droppedFrames` counters; `UpdateDuration`, bitrate and quality fields of a group.
- Width of counters: byte counts, positions and times are unbounded integers; sequence numbers, lengths and decoded values have their real width.
- Rounding of floating point: scores, pressures, rates and spans are exact.
- Clocks, waiting and timers: times are inputs or each look at the clock has its own value, and waiting on a condition variable is the result `Blocks`.
- `security.MaxNALUnitSize`, `security.MaxFragmentSize` and `security.MaxNALUnitsPerFrame` are parameters, so the proofs hold for any value (of at least 1 for the last).
- Closing the hybrid queue, I/O errors, an overflow file left from an earlier run, its rate limiter, and a memory size of 0, where a send meets a waiting receiver directly.
- The sized buffer's request to the memory controller when it is made, and its release when it is closed.
- A ring buffer of size 0, on which every write of data is refused and every preview divides by zero; previews of a negative span, which panic.
- `ReadTimeout`, `Reopen` and bitrate tracking of the ring buffer, `AllowN` and its waiting, `GetLatestIFrame`, and the part of the frame assembler around its splitter.
- Library sorting appears as its contract, a sorted permutation; it need not be stable.
- The group a detector returns is a value: that the caller and the recent list share one object with it, and that it fills in the frame's own fields, is not captured. `Structure.Size`, which the detector never sets, stays 0.
- The frame whose missing DTS the reorderer fills in is a value: the caller's object is not seen to change.
- Error texts and the partial results that come with an aggregation error, which the depacketizers discard.
- H264.NoForgedUnits: takes no fragment as both first and last, which section 5.8 of RFC 6184 forbids, and units that `H264.HarmlessExactly` shows to be harmless.
- HybridQueue.AlwaysInvariant: takes payloads of at most 10 MiB where they are written to disk, because `HybridQueue.RecordRoundTrip` shows that larger ones are lost.
- HybridQueue.NothingLost: takes payloads of at most 10 MiB where they are written to disk, for the same reason.
- MemoryProtocol.AlwaysWithinLimits: leaves the choice of victims open, so that it holds for any strategy; sizes are non-negative.
- GopBuffers.Buffer.AddGop: takes groups with no keyframe but in front, counters that leave it out, and new ids, as `GopPipeline.StreamHandler.ProcessFrame` shows of every group the detector closes, because the indexes stay exact only for ids that differ; and a group limit that is not negative, because `GopLimits.CountLoopEnds` shows that the call does not end with any other; and says nothing of the oldest time, which only the statistics read.
- GopPipeline.StreamHandler.ProcessFrame: takes the frames that reach the detector, so corrupted ones that the handler skips are not in the run, and a time of capture for each; what else the handler does with a frame is not modelled, nor the groups that the recovery component adds to the buffer by itself.
- GopBuffers.Buffer.EnforceBufferLimits: takes a group limit that is not negative, for the same reason.
- GopBuffers.Buffer.RemoveFrameAt: writes the index before the group's frames change, where the source deletes, changes and renumbers in turn under one lock.
