# AetherPlane data plane, modelled and proved in Dafny

AetherPlane is a user-space packet data plane. This project models its six stateful or arithmetic components and
proves what their design promises: the FQ-CoDel scheduler, the longest-prefix-match trie, the single-producer
single-consumer ring with the RSS worker pool on top of it, the Internet checksum routines, the SmartQoS scheduler
and the UMEM frame allocator. `dafny verify dfyconfig.toml` checks the whole project.

| file | models |
|---|---|
| `fq_codel.dfy`, `control_law.dfy` | the scheduler as a value changed by one arrival or one pass of the dequeue loop; runs and their traces |
| `fq_codel_class.dfy` | the same as an object with an array of flow queues and two index lists, refining the value |
| `fq_codel_safety.dfy`, `fq_codel_order.dfy`, `fq_codel_history.dfy` | invariants, work conservation, order and conservation, CoDel's rules over a flow's history |
| `fq_codel_observed.dfy` | the drop rule, the reported delay and the quantum in nanoseconds and bytes |
| `fq_codel_fairness.dfy`, `fq_codel_waiting.dfy`, `fq_codel_sparse.dfy` | DRR fairness, bounded waiting, what new flows gain and can take |
| `lpm_table.dfy`, `lpm_trie.dfy` | prefixes, tables and the flat-list reference; the trie of linked nodes |
| `ring_protocol.dfy`, `ring_calls.dfy`, `ring_buffer.dfy` | the ring as interleaved micro-steps of two threads; what its calls return; the ring as an object |
| `rss_dispatcher.dfy` | the symmetric hash: what it tells apart, and its value for one connection |
| `worker_pool.dfy`, `worker_pool_progress.dfy`, `worker_pool_class.dfy` | the pool under every interleaving, what it gets done, the pool as an object |
| `checksum.dfy`, `checksum_engine.dfy` | one's-complement mathematics; the loops of the checksum engine |
| `smart_qos.dfy`, `smart_qos_class.dfy` | the strict-priority and weighted-deficit scheduler, as value and as object |
| `smart_qos_admission.dfy` | the scheduler from outside: which offers are accepted, what polls hand out, what the counters hold |
| `smart_qos_credit.dfy` | when its 32-bit credits can and cannot wrap; progress and draining |
| `umem_pool.dfy` | the frame allocator, as value and as object |
| `packets.dfy`, `bitwise.dfy` | shared values and machine-word arithmetic |

How the model reads the code:

- A packet is its size, timestamp, 5-tuple and traffic class. `hash_flow` is any function from 5-tuples to flow
  indices, so what is proved holds for the Jenkins hash of the code. The clock is an input of each loop pass.
- A run of FQ-CoDel interleaves arrivals and loop passes freely. `FqCodelSafety.CallsAreRuns` shows that every
  sequence of enqueue and dequeue calls is such a run, so results about runs are results about calls.
- Packet buffers are below 2 GiB (`PacketSize`), so the casts of sizes to `int32_t` keep their value. The `int32_t`
  deficits of FQ-CoDel then never leave 32 bits (`FqCodelFairness.DeficitsFitInt32`), byte totals and counters stay
  below 2^64 for what fits in memory, and a steady clock of 63 bits keeps `now + interval` in range; these are
  unbounded integers here.
- Where wrap-around is reachable it is explicit: the 32-bit credits of SmartQoS, ring indices, the 32-bit drop count,
  16- and 32-bit checksum words, the 32-bit hash, the address sum of `get_frame_ptr`.
- Release and acquire are taken to make the ring's micro-steps interleave; copying an item is two steps between
  which the slot holds an arbitrary value.

Where the code and what is said about it differ, the model follows the code:

- `smart_scheduler.cpp:78` says that all queues are empty when `dequeue` returns false. `SmartQos.NothingSentIff`
  gives the exact condition, and `SmartQos.NothingSentWithPacketsQueued` an input.
- The SmartQoS credit of a class gains its weight at every poll that reaches the class and is cleared only when a poll
  finds the class empty. A class whose packets are smaller than its weight therefore gains credit with each packet, and
  the `int32_t` wraps to a negative value after enough of them. `SmartQosCredit.CreditWrapsIff` gives the exact
  condition. `SmartQosCredit.OneBytePacketIsStuck` gives an input: 1-byte packets of class 1, one offered and one
  polled in turn, after 36,398,027 rounds of which the next packet waits for more than 35 million polls.
- Ring `size()` answers 0 after the tail index wraps past the head: `RingProtocol.SizeIsExactUnlessWrapped` for a ring
  at rest, `RingProtocol.SizeForgetsAtWrap` for such a ring, `RingProtocol.SizeOfTwoLoads` when the threads step
  between its two loads.
- On a big-endian host the checksum of odd-length data is not the one of RFC 1071 unless the last byte is zero:
  `Checksum.BigEndianChecksum`.
- An incremental checksum update differs from recomputing exactly when the new data is all zero:
  `Checksum.UpdateIsRecompute`, with `Checksum.UpdateToZeroDiffers` as an input.
- Section 4.2 of RFC 8290 moves a new flow that has emptied to the old flows. The code keeps its entry in front and
  gives it a fresh quantum at the next arrival, so it can starve every other flow: `FqCodelSparse.StarvationFromEmpty`
  starts from the empty scheduler. The wait of a backlogged flow is bounded by the list entries and the number of
  arrivals at empty flows (`FqCodelWaiting.BoundedWait`), and that dependence cannot be removed.
- The drop schedule (`count`, `drop_next_ns`) never decides about a drop; `FqCodelHistory.DropRule` is the rule that
  does, and `FqCodelHistory.DropSchedule` is what the two fields hold.
- `mean_sojourn_delay_ms` is the delay of the last packet examined: `FqCodelHistory.ReportedDelay`.
- The routing table is described as a 16-8 or TBL24/TBL8 structure; it is a plain binary trie.
- The bounds check of `get_frame_ptr` is exact unless the address sum wraps: `UmemPool.BoundsCheckIsExactIff`, and
  `UmemPool.BoundsCheckAcceptsWrappedSum` for the lowest such address.

## Model

| member | source | states |
|---|---|---|
| ControlLaw.DropSpacingIsInverseSqrt | src/qos/fq_codel.cpp:48-53 | The spacing for a drop count is the largest d with d * sqrt(count) <= interval, for every count and d |
| ControlLaw.DropSpacingShrinks | src/qos/fq_codel.cpp:48-53 | Spacing never grows with the count and never exceeds an interval |
| FqCodel.LoopPassShrinks | src/qos/fq_codel.cpp:101-147 | The dequeue loop terminates from every state, duplicates in the lists included: each pass lowers (packets, list entries, deficit owed) lexicographically |
| FqCodelClass.FQCoDelScheduler.constructor | src/qos/fq_codel.cpp:7-12 | The new object is the empty scheduler: 1024 empty queues with a deficit of 1514 bytes; it satisfies the invariant |
| FqCodelClass.FQCoDelScheduler.Enqueue | src/qos/fq_codel.cpp:73-92 | The object's whole new state is the specified one for the hashed flow, the call returns true, the invariant is kept |
| FqCodelClass.FQCoDelScheduler.CodelShouldDrop | src/qos/fq_codel.cpp:55-71 | In nanoseconds and bytes: above target means 5 ms or more of waiting and 1514 bytes or more left; the verdict, the flow's next deadline and the reported delay follow from that and the deadline before; no other flow changes |
| FqCodelClass.FQCoDelScheduler.TakeCandidate | src/qos/fq_codel.cpp:117-146 | Taking, charging, judging and counting one packet in place refines the specified step |
| FqCodelClass.FQCoDelScheduler.ProcessFront | src/qos/fq_codel.cpp:102-147 | One turn of the loop in place is one specified loop pass |
| FqCodelClass.FQCoDelScheduler.ProcessFlowList | src/qos/fq_codel.cpp:100-149 | The loop over one list ends, and hands out what the whole call would or leaves the rest of the call unchanged |
| FqCodelClass.FQCoDelScheduler.DequeuePacket | src/qos/fq_codel.cpp:94-162 | New lists first, old lists second equals the specified call; the invariant is kept and a packet is returned exactly when a flow held one |
| FqCodelSafety.StepInv | src/qos/fq_codel.cpp:73-162 | Every arrival and pass keeps: byte totals equal queued sizes, deficits at most a quantum, a flow with packets is listed, the deadline is 0 for an empty flow, the drop counters agree |
| FqCodelSafety.RunInv | src/qos/fq_codel.cpp:73-162 | The invariant holds in every state of every run |
| FqCodelSafety.DropLeavesBacklog | src/qos/fq_codel.cpp:59-62 | CoDel never drops the last packet of a flow |
| FqCodelSafety.DequeueServesIffBacklogged | src/qos/fq_codel.cpp:94-162 | Under the invariant a dequeue returns a packet if and only if some flow held one, however many are dropped on the way |
| FqCodelSafety.WorkConservation | src/qos/fq_codel.cpp:73-162 | The same after any sequence of calls from the empty scheduler |
| FqCodelSafety.DequeueIsRun | src/qos/fq_codel.cpp:94-162 | A call is a finite run of passes of which only the last delivers or finds the lists empty |
| FqCodelSafety.CallsAreRuns | src/qos/fq_codel.cpp:73-162 | Any call sequence reaches the state of its run and returns exactly the packets the run delivers |
| FqCodelOrder.FlowOrder | src/qos/fq_codel.cpp:85-119 | Per flow, queued first plus arrived equals departed plus queued now, as sequences |
| FqCodelOrder.DeliveryOrder | src/qos/fq_codel.cpp:73-146 | Per 5-tuple and for any hash, arrivals are departures followed by the queue, and deliveries are the arrivals in order minus drops |
| FqCodelOrder.Conservation | src/qos/fq_codel.cpp:73-162 | Arrived plus first queued equals delivered plus dropped plus queued, and total_drops_ equals the drops of the run and the sum over flows |
| FqCodelHistory.FirstAboveIsDeadline | src/qos/fq_codel.cpp:59-65 | first_above_time_ns is one interval after the start of the current unbroken above-target stretch, or 0 |
| FqCodelHistory.DropRule | src/qos/fq_codel.cpp:55-71 | With a steady clock, a packet is dropped if and only if some earlier examination is at least 100 ms old and all from it on were above target with a quantum left |
| FqCodelObserved.DropRuleInNanoseconds | src/qos/fq_codel.cpp:55-71 | The same over the events of the run alone: dropped if and only if a packet left the flow 100 ms or more before, and it and all that left since, this one included, had waited 5 ms and left 1514 bytes behind |
| FqCodelObserved.ExaminationIs | src/qos/fq_codel.cpp:117-126 | In every run a packet is examined at the head of its flow's queue at the clock of the pass; the bytes counted as left are the sizes of the queue it leaves, the reported delay is its waiting time, a drop is counted |
| FqCodelHistory.DroppingFlag | src/qos/fq_codel.cpp:129-143 | The dropping flag is set exactly when some packet was dropped and every one examined since waited at least the target |
| FqCodelHistory.DropSchedule | src/qos/fq_codel.cpp:129-136 | While dropping, drop_next_ns is the first drop of the phase plus the sum of interval / sqrt(j) over the scheduled drops, and count is their number on 32 bits |
| FqCodelHistory.ReportedDelay | src/qos/fq_codel.cpp:56-57 | The reported delay is the sojourn time of the last packet examined |
| FqCodelObserved.ReportedDelayIs | src/qos/fq_codel.cpp:56-57 | That is max(0, now - timestamp) of the latest packet that left a queue |
| FqCodelFairness.RunWithin | src/qos/fq_codel.cpp:80-121 | With packets of at most m bytes every deficit stays in 1 - m .. quantum over every run |
| FqCodelFairness.ReachableWithin | src/qos/fq_codel.cpp:7-12 | The same for every run from the empty scheduler |
| FqCodelFairness.DeficitsFitInt32 | src/qos/fq_codel.cpp:80-121 | In every state reached from the empty scheduler, with any packets, every deficit fits in 32 bits |
| FqCodelFairness.ServiceIdentity | src/qos/fq_codel.cpp:110-121 | Bytes taken from a backlogged flow equal its rotations times the quantum plus its loss of deficit |
| FqCodelObserved.RevivedFlowQuantum | src/qos/fq_codel.cpp:80-113 | A flow that gains its first packet is, when found in front, rotated if and only if 1514 bytes of it are taken, as long as it stays backlogged and was not rotated before |
| FqCodelFairness.StaysListedOnce | src/qos/fq_codel.cpp:80-115 | A flow listed exactly once, in the old flows, stays so while it is backlogged |
| FqCodelFairness.RotateInTurn | src/qos/fq_codel.cpp:110-115 | Two backlogged flows rotate alternately; their order in the list decides which is one ahead |
| FqCodelFairness.Fairness | src/qos/fq_codel.cpp:110-121 | Over any run, rotations of two such flows differ by at most 1 and bytes taken by at most 3 quanta + 2m - 2 |
| FqCodelWaiting.BoundedWait | src/qos/fq_codel.cpp:80-157 | From any lists and over any run with packets of at most m bytes, the bytes taken from others before a packet of a backlogged flow is taken are at most one visit for each entry ahead, one for each other entry in each round the flow can owe, and a fixed number for each arrival at an empty flow |
| FqCodelWaiting.MaxWaitWithinQuantum | src/qos/fq_codel.cpp:80-157 | With packets of at most a quantum that bound is (position + entries - 1 + 3 * such arrivals) * (quantum + m - 1) |
| FqCodelWaiting.BoundedPolls | src/qos/fq_codel.cpp:73-162 | The same bound counted in dequeue calls, over any sequence of calls, when no packet is empty |
| FqCodelSparse.SparseFlowGoesFirst | src/qos/fq_codel.cpp:80-83 | A packet arriving at an idle flow while no flow is new is the next one handed out |
| FqCodelSparse.RefilledFlowStarvesOthers | src/qos/fq_codel.cpp:80-113 | A flow in front of the new flows that is refilled after each of any number of calls is served by all of them, and no other flow changes |
| FqCodelSparse.StarvationFromEmpty | src/qos/fq_codel.cpp:73-113 | From the empty scheduler, after two arrivals and any number of such calls, the other flow still holds its packet and the next call serves the first one again |
| LpmTable.PathIsNetwork | src/core/lpm_trie.cpp:38-44 | The trie path of an address identifies exactly its masked network |
| LpmTable.LongestIsLongestMatch | src/core/lpm_trie.cpp:72-92 | The prefix walk answers the stored route of greatest length whose masked prefix matches, or none if none does |
| LpmTable.ScanIsLongestMatch | tests/test_data_path.py:64-79 | The scan over all routes that keeps the longest match answers the same specification |
| LpmTable.TrieAgreesWithScan | src/core/lpm_trie.cpp:34-116 | After any inserts and deletes the trie's table and a flat route list hold the same routes, answer every lookup alike and report the same successes |
| LpmTable.InsertIsLocal | src/core/lpm_trie.cpp:34-59 | An insert changes answers only inside its network, and there exactly where no longer prefix matches |
| LpmTable.DeleteIsLocal | src/core/lpm_trie.cpp:98-116 | A delete changes the answer of an address if and only if the deleted route was its longest match |
| LpmTable.DeleteSucceedsIff | src/core/lpm_trie.cpp:98-116 | A delete succeeds if and only if a route of that length to that network is stored, and removes just that route |
| LpmTable.InsertThenDelete | src/core/lpm_trie.cpp:34-116 | Inserting an absent network and deleting it restores the table |
| LpmTrie.LPMTrie.constructor | src/core/lpm_trie.cpp:14 | A new trie is valid and stores nothing |
| LpmTrie.LPMTrie.InsertRoute | src/core/lpm_trie.cpp:34-59 | In place: succeeds exactly up to /32, otherwise nothing changes; exactly the masked key is set; the count is the number of stored keys |
| LpmTrie.LPMTrie.DeleteRoute | src/core/lpm_trie.cpp:98-116 | In place: succeeds exactly when a route of that length to that network is stored, removes only it, keeps the count and all nodes |
| LpmTrie.LPMTrie.Lookup | src/core/lpm_trie.cpp:72-92 | The node walk returns the longest matching stored route |
| RingProtocol.ActInv | include/core/ring_buffer.hpp:25-49 | Every micro-step of either thread keeps the ring invariant, with stale loads, torn slots and wrapped indices |
| RingProtocol.EveryScheduleIsFifo | include/core/ring_buffer.hpp:25-49 | For every schedule, pops return pushes in order, none lost or doubled, at most a capacity in between |
| RingProtocol.RefinesBoundedQueue | include/core/ring_buffer.hpp:25-49 | Each micro-step is an append to a queue that is not full, a removal of the front, or no change of the queue |
| RingProtocol.VerdictsAreTrue | include/core/ring_buffer.hpp:26-40 | After the load of the other index, the step that returns false takes effect exactly when the queue was full (for a pop, empty) at that load, and the step that goes on exactly when it was not |
| RingProtocol.ProducerNeverStuck | include/core/ring_buffer.hpp:25-36 | In every state exactly one kind of producer step takes effect |
| RingProtocol.ConsumerNeverStuck | include/core/ring_buffer.hpp:38-49 | In every state exactly one kind of consumer step takes effect |
| RingCalls.RefusedPushMetFullRing | include/core/ring_buffer.hpp:25-31 | In every schedule, a push that returns false met a queue of exactly a capacity of items when it loaded the head, its last step before |
| RingCalls.RefusedPopMetEmptyRing | include/core/ring_buffer.hpp:38-44 | In every schedule, a pop that returns false met an empty queue when it loaded the tail, its last step before |
| RingCalls.PushCall | include/core/ring_buffer.hpp:25-36 | Uninterrupted, the five push steps append the item to a queue with room, and three steps leave a full ring as it was |
| RingCalls.PopCall | include/core/ring_buffer.hpp:38-49 | Uninterrupted, the five pop steps take the front of a queue with items, and three steps leave an empty ring as it was |
| RingProtocol.NoSlotRace | include/core/ring_buffer.hpp:33-46 | The slot being written is never the slot being read |
| RingProtocol.SizeIsExactUnlessWrapped | include/core/ring_buffer.hpp:51-55 | At rest size() is the number of queued items if and only if the stored tail is not below the stored head |
| RingProtocol.SizeForgetsAtWrap | include/core/ring_buffer.hpp:51-55 | A ring that keeps the invariant after 2^64 pushes and all but one pop: one item queued, size() answers 0 |
| RingProtocol.SizeOfTwoLoads | include/core/ring_buffer.hpp:51-55 | With the threads stepping between the load of the tail and that of the head, the answer exceeds the queue at neither load if and only if the head has not both passed the loaded tail and wrapped below it |
| RingProtocol.SizeNeverOverstates | include/core/ring_buffer.hpp:51-55 | Before the first wrap the answer never exceeds the queue at either load |
| RingBuffer.SPSCRingBuffer.constructor | include/core/ring_buffer.hpp:23 | A ring of any power-of-two capacity starts empty |
| RingBuffer.SPSCRingBuffer.Push | include/core/ring_buffer.hpp:25-36 | Fails exactly when full; otherwise appends the item, also across index wrap-around |
| RingBuffer.SPSCRingBuffer.Pop | include/core/ring_buffer.hpp:38-49 | Returns and removes the oldest item, or nothing when empty |
| RingBuffer.SPSCRingBuffer.CurrentSize | include/core/ring_buffer.hpp:51-55 | The true size exactly when the tail is not below the head, else 0 |
| WorkerPool.ActInv | src/core/worker_pool.cpp:55-78 | Every step of dispatcher or worker keeps: a ring was pushed the accepted packets of its core in order, its worker counted or holds what was popped |
| WorkerPool.ConnectionOrder | src/core/worker_pool.cpp:55-78 | For any steering that sends both directions to one core: that worker's processed, held and queued packets of a connection are the accepted ones in order, other workers have none |
| WorkerPool.Conservation | src/core/worker_pool.cpp:55-78 | Accepted packets are the processed, the held and those in rings |
| WorkerPoolProgress.RefusedDispatchMetFullRing | src/core/worker_pool.cpp:55-61 | In every schedule, a refused dispatch met 1024 packets in the ring of its packet's core when it loaded that ring's head |
| WorkerPoolProgress.DispatchCall | src/core/worker_pool.cpp:55-61 | Uninterrupted, a dispatch puts its packet at the end of its core's ring and accepts it if fewer than 1024 are there, else changes nothing |
| WorkerPoolProgress.AcceptedCanBeProcessed | src/core/worker_pool.cpp:63-78 | From every reachable state some steps of the workers alone leave every accepted packet processed by the worker of its core, in order |
| WorkerPool.RssIsSymmetric | src/core/rss_dispatcher.cpp:20-45 | Both directions of a connection get one core, and the core is below the number of cores |
| Bitwise.XorBits | src/core/rss_dispatcher.cpp:30-36 | Bit i of the exclusive or is set exactly when bit i differs |
| RssDispatcher.MixIsOneToOne | src/core/rss_dispatcher.cpp:30-37 | A hash round is one-to-one on 32-bit words, in the value it starts from and in the word it mixes in |
| RssDispatcher.HashSeparates | src/core/rss_dispatcher.cpp:20-40 | Two 5-tuples that differ only in the smaller address, only in the larger, only in the port pair, or only in the protocol have different hashes |
| RssDispatcher.CoreIsRemainder | src/core/rss_dispatcher.cpp:42-45 | The core is the one number below the number of cores that differs from the hash by a multiple of it |
| RssDispatcher.ConcreteHash | src/core/rss_dispatcher.cpp:20-45 | The literal hash of one TCP connection, in both directions, and its core for every number of cores |
| WorkerPool.PoolWideFlowOrder | src/core/worker_pool.cpp:13-78 | For every requested size (one worker for size 0) and schedule, a connection is processed by one worker in dispatch order and nothing accepted is lost |
| WorkerPoolClass.WorkerPool.constructor | src/core/worker_pool.cpp:13-20 | As many workers as requested, one for 0, each with its own empty ring of 1024 and zero counters |
| WorkerPoolClass.WorkerPool.DispatchPacket | src/core/worker_pool.cpp:55-61 | Only the ring of the core that is the hash's remainder gains the packet, and false is returned exactly when it holds 1024 |
| WorkerPoolClass.WorkerPool.WorkerTurn | src/core/worker_pool.cpp:69-77 | One loop turn takes the oldest packet of the worker's ring and counts it and its bytes |
| Checksum.OnesSumIsFold | src/core/checksum.cpp:11-46 | Deferring all carries and folding at the end equals end-around-carry addition word by word |
| Checksum.SumBound | src/core/checksum.cpp:13 | The 64-bit accumulator cannot overflow for up to 2^48 words |
| Checksum.UpdateIsRecompute | src/core/checksum.cpp:130-136 | The one-word update is congruent to recomputing, and equal if and only if the new data has a non-zero word |
| Checksum.UpdateToZeroDiffers | src/core/checksum.cpp:130-136 | The only non-zero word replaced by zero: the update gives 0, recomputing gives 0xFFFF |
| Checksum.Update32IsRecompute | src/core/checksum.cpp:138-146 | The same for the two-word update, whatever the data half-way |
| Checksum.SelfVerifies | src/core/checksum.cpp:11-46 | Data that carries its own checksum in a formerly zero word has checksum 0 |
| Checksum.LittleEndianChecksum | src/core/checksum.cpp:11-46 | On little-endian hosts the result is the byte swap of the zero-padded network-order checksum, for every byte string |
| Checksum.BigEndianChecksum | src/core/checksum.cpp:35-38 | On big-endian hosts it is the network-order checksum if and only if the length is even or the last byte is 0 |
| Checksum.BigEndianOddByte | src/core/checksum.cpp:35-38 | One byte for which it is not |
| Checksum.StoredChecksumVerifies | src/core/checksum.cpp:11-46 | Storing the checksum in a zeroed aligned field makes the message verify, on either kind of host |
| Checksum.LittleEndianTransport | src/core/checksum.cpp:52-128 | On little-endian hosts the transport checksum is the byte swap of the checksum of both addresses, protocol, length and segment as words in network order |
| Checksum.BigEndianTransport | src/core/checksum.cpp:52-128 | On big-endian hosts it is the checksum of those words if and only if the length is even or the last byte is 0 |
| Checksum.StoredTransportChecksumVerifies | src/core/checksum.cpp:52-128 | A TCP or UDP segment with its checksum stored in a zeroed field has checksum 0 over those words, on big-endian hosts for an even length or a zero last byte |
| ChecksumEngine.FoldCarries | src/core/checksum.cpp:41-43 | The folding loop ends with the one's-complement representative of the sum |
| ChecksumEngine.AddWords | src/core/checksum.cpp:29-38 | The word loop adds every remaining word and the odd byte |
| ChecksumEngine.ComputeChecksum | src/core/checksum.cpp:11-46 | The unrolled loop computes the one's-complement checksum of the host words of any bytes |
| ChecksumEngine.ComputeTcpChecksum | src/core/checksum.cpp:52-89 | The result is the byte-swapped checksum of the words src, dst, 6, length, segment (both halves of each address); unswapped on big-endian hosts, exactly for an even length or a zero last byte |
| ChecksumEngine.ComputeUdpChecksum | src/core/checksum.cpp:91-128 | The same with protocol 17 |
| ChecksumEngine.UpdateChecksum16 | src/core/checksum.cpp:130-136 | For every data whose checksum and word it is given, the result is the new checksum unless the new data is all zero |
| ChecksumEngine.UpdateChecksum32 | src/core/checksum.cpp:138-146 | The same for a 32-bit value in any two words |
| SmartQos.DequeueEffect | src/qos/smart_scheduler.cpp:47-79 | Strict priority first, otherwise the first class with the credit sends; classes before it gain their weight or lose their credit, later ones see nothing |
| SmartQos.NothingSentIff | src/qos/smart_scheduler.cpp:78 | dequeue returns false if and only if the priority queue is empty and no class has credit for its head packet |
| SmartQos.NothingSentWithPacketsQueued | src/qos/smart_scheduler.cpp:78 | A queued packet with which it returns false |
| SmartQos.ClassIsFifo | src/qos/smart_scheduler.cpp:22-71 | Per class, held first plus accepted equals sent plus held now, as sequences |
| SmartQos.CountersCount | src/qos/smart_scheduler.cpp:34-69 | The counters of a class count its accepted, sent and refused packets over any run |
| SmartQosAdmission.RunExplained | src/qos/smart_scheduler.cpp:22-79 | From the calls and their answers alone, for each class (numbers from 5 on are class 3): what was accepted is what was handed out, in that order, followed by what is queued; the four counters are the counts; at most 256 are queued |
| SmartQosAdmission.AdmissionRule | src/qos/smart_scheduler.cpp:25-37 | In every run an offer is refused if and only if 256 packets of its class were accepted and not yet handed out |
| SmartQosAdmission.ServiceRule | src/qos/smart_scheduler.cpp:47-76 | In every run a poll hands out only the oldest accepted packet left of some class, and one of class 0 whenever there is one |
| SmartQosAdmission.OffersWithoutPoll | src/qos/smart_scheduler.cpp:25-44 | Without a poll exactly the first 256 offers of each class are accepted |
| SmartQos.RunInv | src/qos/smart_scheduler.cpp:22-79 | In every reachable state enqueued equals dequeued plus occupancy, each class holds at most 256 packets, and every credit, wrapped or not, is a 32-bit value |
| SmartQos.RateBound | src/qos/smart_scheduler.cpp:60-71 | Over any run a weighted class sends at most its positive starting credit plus its weight per call, also when its credit wraps |
| SmartQosCredit.CreditWithinPolls | src/qos/smart_scheduler.cpp:60-76 | A non-negative credit cannot wrap, and stays non-negative, within as many polls as keep it below 2^31 when all add the weight |
| SmartQosCredit.CreditBound | src/qos/smart_scheduler.cpp:60-76 | With packets from the weight of the class up to m bytes its credit stays in 0 .. m - 1 for ever and never wraps |
| SmartQosCredit.SmallPacketsGainCredit | src/qos/smart_scheduler.cpp:60-76 | n rounds of offering and polling a packet smaller than the weight leave n times the difference as credit, and empty queues |
| SmartQosCredit.CreditWrapsIff | src/qos/smart_scheduler.cpp:60-76 | Some run with packets of s to m bytes in a class brings its credit to the point of wrapping if and only if s is below the weight of the class |
| SmartQos.LaterClassesStarve | src/qos/smart_scheduler.cpp:60-71 | While classes up to c send at every call, a later class sends nothing and gains no credit |
| SmartQosCredit.Progress | src/qos/smart_scheduler.cpp:47-79 | Over any sequence of calls, with any arrivals and any other queues: the polls that bring the credit of a class to the size of its head packet do not all return nothing, if the next addition does not wrap |
| SmartQosCredit.ProgressWithinCeiling | src/qos/smart_scheduler.cpp:47-79 | So ceil(s / weight) polls suffice for a head packet of s bytes |
| SmartQosCredit.LoneServedIff | src/qos/smart_scheduler.cpp:60-79 | The wait of the only backlogged class, exactly: one of the next n polls sends if and only if the next addition does not wrap and n weights bring the credit to the size of the head packet |
| SmartQosCredit.LonePacketWait | src/qos/smart_scheduler.cpp:13-76 | A packet of s bytes offered to the empty scheduler in class 1, 2, 3 or 4 is handed out by the first poll n for which n times 60, 40, 20 or 5 is at least s; unknown classes count as class 3 |
| SmartQosCredit.SmallPacketIsStuck | src/qos/smart_scheduler.cpp:60-79 | After the rounds that bring the credit to the point of wrapping, the next packet is sent by none of any number of polls whose weights fit below 2^31 |
| SmartQosCredit.OneBytePacketIsStuck | src/qos/smart_scheduler.cpp:60-79 | The input with 1-byte packets of class 1: 36398027 rounds, then 35 million polls without a packet |
| SmartQosCredit.Drains | src/qos/smart_scheduler.cpp:47-79 | With no arrivals, and credits that cannot wrap before the queues are empty, P packets of at most m bytes are sent within P * ceil(m / 5) polls |
| SmartQosCredit.SafeBelow | src/qos/smart_scheduler.cpp:22-79 | They cannot in any reachable state whose credits are non-negative and, like its packets, at most 2^31 - 1 - 256 * 60 |
| SmartQosClass.SmartQoSScheduler.constructor | src/qos/smart_scheduler.cpp:6-15 | The new object is the empty scheduler and satisfies the invariant |
| SmartQosClass.SmartQoSScheduler.Enqueue | src/qos/smart_scheduler.cpp:22-45 | Accepted exactly when fewer than 256 packets of the class are queued (numbers from 5 on are class 3), at the end of that queue and no other; the whole new state is the specified one; the invariant is kept |
| SmartQosClass.SmartQoSScheduler.TryClass | src/qos/smart_scheduler.cpp:61-75 | Crediting one class in place, on 32 bits, sends its head packet exactly when it is ready and otherwise leaves or clears the new credit |
| SmartQosClass.SmartQoSScheduler.DequeuePacket | src/qos/smart_scheduler.cpp:47-79 | The loop over the classes in place, wrapping credits included, equals the specified call; the invariant is kept |
| UmemPool.RunPartition | src/core/xsk_umem.cpp:24-62 | If clients free only what they hold, free and held frames partition the 4096 offsets over any run |
| UmemPool.AllocPartition | src/core/xsk_umem.cpp:56-58 | An allocation hands out a frame nobody holds and fails exactly when all are held |
| UmemPool.FreePartition | src/core/xsk_umem.cpp:60-62 | Freeing a held frame always finds room in the ring |
| UmemPool.HeldFramesAreDisjoint | src/core/xsk_umem.cpp:42-47 | Held frames have pointers, lie in the pool and do not overlap |
| UmemPool.BoundsCheckIsExactIff | src/core/xsk_umem.cpp:42-47 | The bounds check accepts exactly the addresses in range if and only if the address sum does not wrap |
| UmemPool.BoundsCheckAcceptsWrappedSum | src/core/xsk_umem.cpp:42-47 | The lowest address at which the sum wraps is accepted although it lies outside the pool |
| UmemPool.XSKUmemPool.constructor | src/core/xsk_umem.cpp:8-29 | The fill loop puts the 4096 multiples of 2048 in the ring in order; the frames are partitioned |
| UmemPool.XSKUmemPool.AllocFrame | src/core/xsk_umem.cpp:56-58 | The object's new state and result are the specified ones |
| UmemPool.XSKUmemPool.FreeFrame | src/core/xsk_umem.cpp:60-62 | The object's new state is the specified one, also for a full ring |
| UmemPool.XSKUmemPool.GetFramePtr | src/core/xsk_umem.cpp:42-54 | Below the wrap a pointer is returned exactly for frames inside the pool |

## Left out

- SmartQosCredit.CreditWrapsIff: packets of at most 2^31 - weight bytes; nearer to 2 GiB a single waiting packet can bring the credit to the point of wrapping too.
- SmartQosCredit.LonePacketWait: packets of at most 2^31 - 61 bytes.
- SmartQosCredit.Drains: from credits that cannot wrap before the queues are empty; after a wrap `SmartQosCredit.LoneServedIff` gives the wait.
- Packet buffers of 2 GiB and more, whose sizes the casts to `int32_t` would change.
- FqCodelFairness.Fairness: counts bytes delivered and dropped together, because the deficit is charged before the drop decision.
- ControlLaw.DropSpacingIsInverseSqrt: the exact rounded-down quotient; the rounding of `double` in `std::sqrt` is not modelled.
- WorkerPool.ConnectionOrder: the interleaving of threads is modelled on values; thread start, stop, joining and pinning are not, a stopped worker is a schedule without its steps.
- WorkerPool.RssIsSymmetric: says nothing about how evenly the hash spreads connections; the RSS key table is unused by the code.
- RingProtocol.EveryScheduleIsFifo: one producer and one consumer thread; weak-memory effects beyond release and acquire, and a capacity of 0, are not modelled.
- LpmTrie.LPMTrie.InsertRoute: the string forms of routes and addresses (`inet_pton`, `stoi`) and the unused TBL24/TBL8 types are not modelled.
- ChecksumEngine.ComputeUdpChecksum: RFC 768's replacement of a zero checksum is not stated, since the code does not do it.
- UmemPool.RunPartition: the fill, rx, tx and completion rings have no other end in the code and are not modelled; neither is the allocation of the buffer itself.
- `is_sparse`, `bufferbloat_active_`, `link_rate_mbps_` and the floating-point delay fields of both schedulers: they influence no decision.
- The XDP hook, filter engine, virtual device, packet parser, flow classifier, metrics, dashboard, server and scripts: first-match scans, threshold tables, counting and I/O.
- Mutexes: each scheduler call is atomic.
