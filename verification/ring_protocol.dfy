/** The lock-free single-producer single-consumer ring of include/core/ring_buffer.hpp as a protocol of two
    threads: every load or store of a shared index is one step, and copying an item in or out of its slot takes
    two, during which the slot's contents may be anything. Release/acquire ordering is taken to make these steps
    interleave. `pushed` and `popped` record the published items; no step's outcome depends on them. */
module RingProtocol {
  import opened Bitwise

  ghost predicate IsCapacity(c: nat)
  {
    exists k: nat | k <= 63 :: c == Pow2(k)
  }

  /** `index & (Capacity - 1)`. */
  function Slot(index: nat, capacity: nat): nat
    requires capacity > 0
  {
    And(index, capacity - 1)
  }

  /** `tail - head` on 64-bit indices. */
  function Distance(tail: nat, head: nat): nat
  {
    (tail - head) % WORD64
  }

  lemma SlotOfCount(n: nat, c: nat)
    requires IsCapacity(c)
    ensures c > 0 && Slot(n % WORD64, c) == n % c < c
  {
    var k: nat :| k <= 63 && c == Pow2(k);
    MaskIsMod(n % WORD64, k);
    Pow2Sum(k, 64 - k);
    Pow2Of64();
    ModOfMod(n, c, Pow2(64 - k));
  }

  lemma {:induction false} Pow2Monotone(a: nat, b: nat)
    requires a <= b
    ensures Pow2(a) <= Pow2(b)
  {
    if a < b {
      Pow2Monotone(a, b - 1);
    }
  }

  lemma CapacityFits(c: nat)
    requires IsCapacity(c)
    ensures 0 < c && 2 * c <= WORD64
  {
    var k: nat :| k <= 63 && c == Pow2(k);
    Pow2Monotone(k + 1, 64);
    Pow2Of64();
  }

  /** Indices at most a capacity apart are told apart in spite of wrapping. */
  lemma DistanceOfCounts(head: nat, tail: nat, c: nat)
    requires IsCapacity(c) && head <= tail <= head + c
    ensures Distance(tail % WORD64, head % WORD64) == tail - head
    ensures tail % WORD64 == head % WORD64 <==> tail == head
  {
    CapacityFits(c);
    WrappedDistance(head, tail, WORD64);
  }

  // ---- The two threads ----

  /** `popsSeen` is the number of items popped when the producer loaded `head`. */
  datatype Producer<T> =
    | PushIdle
    | TailLoaded(item: T, tail: nat)
    | HeadSeen(item: T, tail: nat, head: nat, popsSeen: nat)
    | Writing(item: T, tail: nat)
    | Written(item: T, tail: nat)

  /** `pushesSeen` is the number of items pushed when the consumer loaded `tail`. */
  datatype Consumer<T> =
    | PopIdle
    | HeadLoaded(head: nat)
    | TailSeen(head: nat, tail: nat, pushesSeen: nat)
    | Reading(head: nat)
    | Read(head: nat, item: T)

  datatype Ring<T> = Ring(capacity: nat, head: nat, tail: nat, slots: seq<T>,
                          producer: Producer<T>, consumer: Consumer<T>, pushed: seq<T>, popped: seq<T>)
  {
    /** What a reader of the documentation sees: the queue between the two threads. */
    function Queue(): seq<T>
      requires |popped| <= |pushed|
    {
      pushed[|popped|..]
    }
  }

  datatype Action<T> =
    | BeginPush(item: T)       // load own index
    | LoadHead                 // load the other index
    | RejectPush               // full: push returns false
    | StartWrite(torn: T)      // not full: start copying into the slot
    | FinishWrite
    | PublishTail              // store own index: push returns true
    | BeginPop
    | LoadTail
    | RejectPop                // empty: pop returns false
    | StartRead
    | FinishRead
    | PublishHead              // pop returns true

  predicate SaysFull<T>(r: Ring<T>)
    requires r.producer.HeadSeen?
  {
    Distance(r.producer.tail, r.producer.head) >= r.capacity
  }

  predicate SaysEmpty<T>(r: Ring<T>)
    requires r.consumer.TailSeen?
  {
    r.consumer.head == r.consumer.tail
  }

  predicate Enabled<T>(r: Ring<T>, a: Action<T>)
  {
    match a
    case BeginPush(_) => r.producer.PushIdle?
    case LoadHead => r.producer.TailLoaded?
    case RejectPush => r.producer.HeadSeen? && SaysFull(r)
    case StartWrite(_) => r.producer.HeadSeen? && !SaysFull(r)
    case FinishWrite => r.producer.Writing?
    case PublishTail => r.producer.Written?
    case BeginPop => r.consumer.PopIdle?
    case LoadTail => r.consumer.HeadLoaded?
    case RejectPop => r.consumer.TailSeen? && SaysEmpty(r)
    case StartRead => r.consumer.TailSeen? && !SaysEmpty(r)
    case FinishRead => r.consumer.Reading?
    case PublishHead => r.consumer.Read?
  }

  /** The slot a thread is about to use, within the buffer whatever its index. */
  function SlotOf<T>(r: Ring<T>, index: nat): nat
    requires 0 < r.capacity
  {
    Slot(index, r.capacity)
  }

  function WriteSlot<T>(slots: seq<T>, i: nat, x: T): seq<T>
  {
    if i < |slots| then slots[i := x] else slots
  }

  /** One atomic step; a step that its thread is not ready for changes nothing. */
  function Act<T>(r: Ring<T>, a: Action<T>): (r': Ring<T>)
    requires 0 < r.capacity == |r.slots|
    ensures r'.capacity == r.capacity && |r'.slots| == |r.slots|
  {
    if !Enabled(r, a) then r else
      match a
      case BeginPush(x) => r.(producer := TailLoaded(x, r.tail))
      case LoadHead => r.(producer := HeadSeen(r.producer.item, r.producer.tail, r.head, |r.popped|))
      case RejectPush => r.(producer := PushIdle)
      case StartWrite(torn) =>
        r.(slots := WriteSlot(r.slots, SlotOf(r, r.producer.tail), torn),
           producer := Writing(r.producer.item, r.producer.tail))
      case FinishWrite =>
        r.(slots := WriteSlot(r.slots, SlotOf(r, r.producer.tail), r.producer.item),
           producer := Written(r.producer.item, r.producer.tail))
      case PublishTail =>
        r.(tail := (r.producer.tail + 1) % WORD64, producer := PushIdle, pushed := r.pushed + [r.producer.item])
      case BeginPop => r.(consumer := HeadLoaded(r.head))
      case LoadTail => r.(consumer := TailSeen(r.consumer.head, r.tail, |r.pushed|))
      case RejectPop => r.(consumer := PopIdle)
      case StartRead => r.(consumer := Reading(r.consumer.head))
      case FinishRead =>
        var i := SlotOf(r, r.consumer.head);
        if i < |r.slots| then r.(consumer := Read(r.consumer.head, r.slots[i])) else r
      case PublishHead =>
        r.(head := (r.consumer.head + 1) % WORD64, consumer := PopIdle, popped := r.popped + [r.consumer.item])
  }

  // ---- What every interleaving keeps ----

  ghost predicate Inv<T>(r: Ring<T>)
  {
    && IsCapacity(r.capacity) && |r.slots| == r.capacity > 0
    && r.head == |r.popped| % WORD64 && r.tail == |r.pushed| % WORD64
    && r.popped <= r.pushed && |r.pushed| <= |r.popped| + r.capacity
    && (forall i | |r.popped| <= i < |r.pushed| :: r.slots[i % r.capacity] == r.pushed[i])
    && (match r.producer
        case PushIdle => true
        case TailLoaded(_, t) => t == r.tail
        case HeadSeen(_, t, h, n) =>
          t == r.tail && h == n % WORD64 && n <= |r.popped| && |r.pushed| <= n + r.capacity
        case Writing(_, t) => t == r.tail && |r.pushed| < |r.popped| + r.capacity
        case Written(x, t) => t == r.tail && |r.pushed| < |r.popped| + r.capacity
                              && r.slots[|r.pushed| % r.capacity] == x)
    && (match r.consumer
        case PopIdle => true
        case HeadLoaded(h) => h == r.head
        case TailSeen(h, t, n) => h == r.head && t == n % WORD64 && |r.popped| <= n <= |r.pushed|
        case Reading(h) => h == r.head && |r.popped| < |r.pushed|
        case Read(h, x) => h == r.head && |r.popped| < |r.pushed| && x == r.pushed[|r.popped|])
  }

  function Empty<T>(capacity: nat, slots: seq<T>): Ring<T>
  {
    Ring(capacity, 0, 0, slots, PushIdle, PopIdle, [], [])
  }

  lemma EmptyInv<T>(capacity: nat, slots: seq<T>)
    requires IsCapacity(capacity) && |slots| == capacity
    ensures Inv(Empty(capacity, slots))
  {
    CapacityFits(capacity);
  }

  /** Writing the free slot after the newest item leaves the queued items alone. */
  lemma WriteKeepsQueue<T>(r: Ring<T>, x: T)
    requires Inv(r) && |r.pushed| < |r.popped| + r.capacity
    ensures SlotOf(r, r.tail) == |r.pushed| % r.capacity < |r.slots|
    ensures forall i | |r.popped| <= i < |r.pushed| ::
              r.slots[|r.pushed| % r.capacity := x][i % r.capacity] == r.pushed[i]
  {
    SlotOfCount(|r.pushed|, r.capacity);
    forall i | |r.popped| <= i < |r.pushed|
      ensures r.slots[|r.pushed| % r.capacity := x][i % r.capacity] == r.pushed[i]
    {
      NearbyDiffer(i, |r.pushed|, r.capacity);
    }
  }

  lemma NextIndex(n: nat)
    ensures (n % WORD64 + 1) % WORD64 == (n + 1) % WORD64
  {
  }

  lemma ProducerInv<T>(r: Ring<T>, a: Action<T>)
    requires Inv(r) && Enabled(r, a)
    requires a.BeginPush? || a.LoadHead? || a.RejectPush? || a.StartWrite? || a.FinishWrite? || a.PublishTail?
    ensures Inv(Act(r, a))
  {
    match a
    case StartWrite(torn) =>
      DistanceOfCounts(r.producer.popsSeen, |r.pushed|, r.capacity);
      WriteKeepsQueue(r, torn);
    case FinishWrite =>
      WriteKeepsQueue(r, r.producer.item);
    case PublishTail =>
      NextIndex(|r.pushed|);
    case _ =>
  }

  lemma ConsumerInv<T>(r: Ring<T>, a: Action<T>)
    requires Inv(r) && Enabled(r, a)
    requires a.BeginPop? || a.LoadTail? || a.RejectPop? || a.StartRead? || a.FinishRead? || a.PublishHead?
    ensures Inv(Act(r, a))
  {
    match a
    case StartRead =>
      DistanceOfCounts(|r.popped|, r.consumer.pushesSeen, r.capacity);
    case FinishRead =>
      SlotOfCount(|r.popped|, r.capacity);
      assert r.slots[|r.popped| % r.capacity] == r.pushed[|r.popped|];
    case PublishHead =>
      NextIndex(|r.popped|);
    case _ =>
  }

  lemma ActInv<T>(r: Ring<T>, a: Action<T>)
    requires Inv(r)
    ensures Inv(Act(r, a))
  {
    if Enabled(r, a) {
      match a
      case BeginPush(_) => ProducerInv(r, a);
      case LoadHead => ProducerInv(r, a);
      case RejectPush => ProducerInv(r, a);
      case StartWrite(_) => ProducerInv(r, a);
      case FinishWrite => ProducerInv(r, a);
      case PublishTail => ProducerInv(r, a);
      case _ => ConsumerInv(r, a);
    }
  }

  /** Refinement of a bounded FIFO: publishing the tail appends the producer's item to a queue that is not full,
      publishing the head removes the item the consumer returns from the front, and no other step of either
      thread changes the queue. */
  lemma RefinesBoundedQueue<T>(r: Ring<T>, a: Action<T>)
    requires Inv(r)
    ensures var r' := Act(r, a);
            && Inv(r')
            && if Enabled(r, a) && a.PublishTail? then
                 |r.Queue()| < r.capacity && r'.Queue() == r.Queue() + [r.producer.item]
               else if Enabled(r, a) && a.PublishHead? then
                 r.Queue() != [] && r.consumer.item == r.Queue()[0] && r'.Queue() == r.Queue()[1..]
               else r'.Queue() == r.Queue()
  {
    ActInv(r, a);
    if Enabled(r, a) && a.PublishTail? {
      assert (r.pushed + [r.producer.item])[|r.popped|..] == r.Queue() + [r.producer.item];
    } else if Enabled(r, a) && a.PublishHead? {
      assert r.pushed[|r.popped| + 1..] == r.Queue()[1..];
    } else {
      OtherStepsKeepQueue(r, a);
    }
  }

  lemma OtherStepsKeepQueue<T>(r: Ring<T>, a: Action<T>)
    requires 0 < r.capacity == |r.slots| && (!Enabled(r, a) || !(a.PublishTail? || a.PublishHead?))
    ensures Act(r, a).pushed == r.pushed && Act(r, a).popped == r.popped
  {
  }

  /** Right after a push has loaded the head it returns false exactly when the queue was full at that load, and goes
      on to write exactly when it was not; a pop likewise with the empty queue. */
  lemma VerdictsAreTrue<T>(r: Ring<T>)
    requires Inv(r)
    ensures r.producer.TailLoaded? ==>
              var r' := Act(r, LoadHead);
              && (Act(r', RejectPush) != r' <==> |r.Queue()| == r.capacity)
              && forall torn :: Act(r', StartWrite(torn)) != r' <==> |r.Queue()| < r.capacity
    ensures r.consumer.HeadLoaded? ==>
              var r' := Act(r, LoadTail);
              && (Act(r', RejectPop) != r' <==> r.Queue() == [])
              && (Act(r', StartRead) != r' <==> r.Queue() != [])
  {
    DistanceOfCounts(|r.popped|, |r.pushed|, r.capacity);
  }

  /** Exactly one of the steps takes effect. */
  ghost predicate OneTakesEffect<T>(r: Ring<T>, steps: seq<Action<T>>)
    requires 0 < r.capacity == |r.slots|
  {
    exists k | 0 <= k < |steps| ::
      Act(r, steps[k]) != r && forall j | 0 <= j < |steps| && j != k :: Act(r, steps[j]) == r
  }

  /** No thread is ever stuck: in every state exactly one kind of step of the producer takes effect ... */
  lemma ProducerNeverStuck<T>(r: Ring<T>, x: T, torn: T)
    requires Inv(r)
    ensures OneTakesEffect(r, [BeginPush(x), LoadHead, RejectPush, StartWrite(torn), FinishWrite, PublishTail])
  {
    var steps := [BeginPush(x), LoadHead, RejectPush, StartWrite(torn), FinishWrite, PublishTail];
    var k := match r.producer
             case PushIdle => 0
             case TailLoaded(_, _) => 1
             case HeadSeen(_, _, _, _) => if SaysFull(r) then 2 else 3
             case Writing(_, _) => 4
             case Written(_, _) => 5;
    assert Act(r, steps[k]).producer != r.producer;
    assert forall j | 0 <= j < 6 && j != k :: Act(r, steps[j]) == r;
  }

  /** ... and exactly one of the consumer. */
  lemma ConsumerNeverStuck<T>(r: Ring<T>)
    requires Inv(r)
    ensures OneTakesEffect(r, [BeginPop, LoadTail, RejectPop, StartRead, FinishRead, PublishHead])
  {
    var steps := [BeginPop, LoadTail, RejectPop, StartRead, FinishRead, PublishHead];
    var k := match r.consumer
             case PopIdle => 0
             case HeadLoaded(_) => 1
             case TailSeen(_, _, _) => if SaysEmpty(r) then 2 else 3
             case Reading(_) => 4
             case Read(_, _) => 5;
    SlotOfCount(|r.popped|, r.capacity);
    assert Act(r, steps[k]).consumer != r.consumer;
    assert forall j | 0 <= j < 6 && j != k :: Act(r, steps[j]) == r;
  }

  /** The slot being written is never the slot being read. */
  lemma NoSlotRace<T>(r: Ring<T>)
    requires Inv(r) && (r.producer.Writing? || r.producer.Written?) && (r.consumer.Reading? || r.consumer.Read?)
    ensures SlotOf(r, r.producer.tail) != SlotOf(r, r.consumer.head)
  {
    SlotOfCount(|r.pushed|, r.capacity);
    SlotOfCount(|r.popped|, r.capacity);
    NearbyDiffer(|r.popped|, |r.pushed|, r.capacity);
  }

  function Interleave<T>(r: Ring<T>, schedule: seq<Action<T>>): (r': Ring<T>)
    requires 0 < r.capacity == |r.slots|
    ensures r'.capacity == r.capacity && |r'.slots| == |r.slots|
  {
    if schedule == [] then r else Act(Interleave(r, schedule[..|schedule| - 1]), schedule[|schedule| - 1])
  }

  /** For every schedule of the two threads: items come out in the order they went in, none lost, none twice, and
      never more than a capacity of them in between. */
  lemma {:induction false} EveryScheduleIsFifo<T>(r: Ring<T>, schedule: seq<Action<T>>)
    requires Inv(r)
    ensures var r' := Interleave(r, schedule);
            Inv(r') && r'.popped + r'.Queue() == r'.pushed && |r'.Queue()| <= r.capacity
  {
    if schedule != [] {
      var before := Interleave(r, schedule[..|schedule| - 1]);
      EveryScheduleIsFifo(r, schedule[..|schedule| - 1]);
      ActInv(before, schedule[|schedule| - 1]);
    }
    PrefixSplits(Interleave(r, schedule));
  }

  lemma PrefixSplits<T>(r: Ring<T>)
    requires Inv(r)
    ensures r.popped + r.Queue() == r.pushed && |r.Queue()| <= r.capacity
  {
  }

  // ---- size() ----

  /** `size()` on the two index values. */
  function Size(tail: nat, head: nat): nat
  {
    if tail >= head then tail - head else 0
  }

  /** `size()` of a ring at rest is the number of queued items exactly while the stored tail has not wrapped past
      the stored head. */
  lemma SizeIsExactUnlessWrapped<T>(r: Ring<T>)
    requires Inv(r)
    ensures Size(r.tail, r.head) == |r.Queue()| <==> r.tail >= r.head
  {
    DistanceOfCounts(|r.popped|, |r.pushed|, r.capacity);
    assert r.tail >= r.head ==> Distance(r.tail, r.head) == r.tail - r.head;
  }

  /** A ring state at which `size()` answers 0 with one item queued: 2^64 items were pushed and all but one popped. */
  lemma SizeForgetsAtWrap<T>(x: T)
    ensures var r := Ring(1, WORD64 - 1, 0, [x], PushIdle, PopIdle, seq(WORD64, _ => x), seq(WORD64 - 1, _ => x));
            Inv(r) && r.Queue() == [x] && Size(r.tail, r.head) == 0
  {
    var pushed, popped := seq(WORD64, _ => x), seq(WORD64 - 1, _ => x);
    assert IsCapacity(1) by { assert Pow2(0) == 1; }
    assert pushed[..|popped|] == popped;
    assert pushed[|popped|..] == [x];
  }

  lemma ActGrows<T>(r: Ring<T>, a: Action<T>)
    requires 0 < r.capacity == |r.slots|
    ensures r.pushed <= Act(r, a).pushed && r.popped <= Act(r, a).popped
  {
  }

  lemma {:induction false} HistoryGrows<T>(r: Ring<T>, schedule: seq<Action<T>>)
    requires 0 < r.capacity == |r.slots|
    ensures var r' := Interleave(r, schedule); r.pushed <= r'.pushed && r.popped <= r'.popped
  {
    if schedule != [] {
      HistoryGrows(r, schedule[..|schedule| - 1]);
      ActGrows(Interleave(r, schedule[..|schedule| - 1]), schedule[|schedule| - 1]);
    }
  }

  lemma PassedIndexes(m: nat, n: nat, w: nat)
    requires m < n < m + w
    ensures m % w > n % w ==> m % w - n % w == w - (n - m)
  {
    WrappedDistance(m, n, w);
    if m % w > n % w {
      NegativeMod(n % w - m % w, w);
    }
  }

  /** `size()` from the tail of one moment and the head of a later one. */
  lemma SizeFromCounts(tail: nat, head: nat, laterTail: nat, laterHead: nat, c: nat)
    requires IsCapacity(c) && head <= tail <= head + c && laterHead <= laterTail <= laterHead + c
    requires tail <= laterTail && head <= laterHead < head + WORD64 - c
    ensures var n := Size(tail % WORD64, laterHead % WORD64);
            n <= tail - head && n <= laterTail - laterHead <==>
            laterHead <= tail || tail % WORD64 <= laterHead % WORD64
  {
    CapacityFits(c);
    if laterHead <= tail {
      WrappedDistance(laterHead, tail, WORD64);
      assert tail % WORD64 >= laterHead % WORD64 ==>
          Distance(tail % WORD64, laterHead % WORD64) == tail % WORD64 - laterHead % WORD64;
    } else {
      PassedIndexes(tail, laterHead, WORD64);
    }
  }

  lemma QueueCounts<T>(r: Ring<T>)
    requires Inv(r)
    ensures IsCapacity(r.capacity) && |r.popped| <= |r.pushed| <= |r.popped| + r.capacity
    ensures |r.Queue()| == |r.pushed| - |r.popped|
    ensures r.head == |r.popped| % WORD64 && r.tail == |r.pushed| % WORD64
  {
  }

  lemma {:induction false} ScheduleInv<T>(r: Ring<T>, schedule: seq<Action<T>>)
    requires Inv(r)
    ensures Inv(Interleave(r, schedule)) && Interleave(r, schedule).capacity == r.capacity
  {
    EveryScheduleIsFifo(r, schedule);
  }

  /** At least `n` items are queued. */
  ghost predicate NotOverstated<T>(n: nat, r: Ring<T>)
  {
    |r.popped| <= |r.pushed| && n <= |r.Queue()|
  }

  /** `size()` loads the tail and later the head, and the threads may step in between: from `r` to `r'`. Unless some
      2^64 items pass meanwhile, its answer exceeds the queue at neither load, if and only if the head has not both
      passed the loaded tail and wrapped below it. */
  lemma SizeOfTwoLoads<T>(r: Ring<T>, schedule: seq<Action<T>>)
    requires Inv(r)
    requires |Interleave(r, schedule).popped| < |r.popped| + WORD64 - r.capacity
    ensures var r' := Interleave(r, schedule); var n := Size(r.tail, r'.head);
            NotOverstated(n, r) && NotOverstated(n, r') <==> |r'.popped| <= |r.pushed| || r.tail <= r'.head
  {
    var r' := Interleave(r, schedule);
    ScheduleInv(r, schedule);
    HistoryGrows(r, schedule);
    QueueCounts(r);
    QueueCounts(r');
    SizeFromCounts(|r.pushed|, |r.popped|, |r'.pushed|, |r'.popped|, r.capacity);
  }

  /** So it never overstates before the first wrap. */
  lemma SizeNeverOverstates<T>(r: Ring<T>, schedule: seq<Action<T>>)
    requires Inv(r) && |Interleave(r, schedule).pushed| < WORD64
    ensures var r' := Interleave(r, schedule); var n := Size(r.tail, r'.head);
            NotOverstated(n, r) && NotOverstated(n, r')
  {
    var r' := Interleave(r, schedule);
    ScheduleInv(r, schedule);
    HistoryGrows(r, schedule);
    QueueCounts(r);
    QueueCounts(r');
    SmallCounts(|r.pushed|);
    SmallCounts(|r'.popped|);
  }

  lemma SmallCounts(n: nat)
    ensures n < WORD64 ==> n % WORD64 == n
  {
  }
}
