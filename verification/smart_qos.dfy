/** The SmartQoS scheduler (src/qos/smart_scheduler.cpp): one strict-priority queue and four weighted deficit
    queues, as a value that one call changes. */
module SmartQos {
  import opened Packets

  const NUM_QUEUES: nat := 5
  const QUEUE_DEPTH: nat := 256
  const BEST_EFFORT: nat := 3

  /** Class 0 is served first whatever its weight, which is never used. */
  function Weight(i: nat): nat
    requires i < NUM_QUEUES
  {
    if i == 0 then 100 else if i == 1 then 60 else if i == 2 then 40 else if i == 3 then 20 else 5
  }

  /** An `int32_t` credit plus a weight, as the machine stores it. */
  function AddCredit(credit: int, weight: nat): int
  {
    if credit + weight > INT32_MAX then credit + weight - 0x1_0000_0000 else credit + weight
  }

  datatype Stats = Stats(enqueued: nat, dequeued: nat, dropped: nat, occupancy: nat)

  datatype Qos = Qos(queues: seq<seq<Packet>>, deficits: seq<int>, stats: seq<Stats>)
  {
    predicate WellFormed()
    {
      |queues| == |deficits| == |stats| == NUM_QUEUES
    }

    /** The credit of class `i` after one more weight. */
    function Credit(i: nat): int
      requires WellFormed() && i < NUM_QUEUES
    {
      AddCredit(deficits[i], Weight(i))
    }

    /** That addition wraps around. */
    predicate Wraps(i: nat)
      requires WellFormed() && i < NUM_QUEUES
    {
      deficits[i] + Weight(i) > INT32_MAX
    }

    /** Class `i` could send its head packet with one more weight of credit. */
    predicate Ready(i: nat)
      requires WellFormed() && i < NUM_QUEUES
    {
      queues[i] != [] && Credit(i) >= queues[i][0].size
    }
  }

  datatype Output = Nothing | Sent(cls: nat, packet: Packet)

  function Init(): Qos
  {
    Qos(seq(NUM_QUEUES, _ => []), seq(NUM_QUEUES, _ => 0), seq(NUM_QUEUES, _ => Stats(0, 0, 0, 0)))
  }

  function QueueIndex(p: Packet): (i: nat)
    ensures i < NUM_QUEUES
  {
    if p.trafficClass >= NUM_QUEUES then BEST_EFFORT else p.trafficClass
  }

  function Enqueue(q: Qos, p: Packet): (Qos, bool)
    requires q.WellFormed()
  {
    var i := QueueIndex(p);
    var st := q.stats[i];
    if |q.queues[i]| >= QUEUE_DEPTH then
      (q.(stats := q.stats[i := st.(dropped := st.dropped + 1)]), false)
    else
      (q.(queues := q.queues[i := q.queues[i] + [p]],
          stats := q.stats[i := st.(enqueued := st.enqueued + 1, occupancy := |q.queues[i]| + 1)]), true)
  }

  /** Takes the head packet of class `i`. */
  function TakeHead(q: Qos, i: nat): Qos
    requires q.WellFormed() && i < NUM_QUEUES && q.queues[i] != []
  {
    var st := q.stats[i];
    q.(queues := q.queues[i := q.queues[i][1..]],
       stats := q.stats[i := st.(dequeued := st.dequeued + 1, occupancy := |q.queues[i]| - 1)])
  }

  /** A class that may not send keeps its new credit, or loses it when it is empty. */
  function PassOver(q: Qos, i: nat): Qos
    requires q.WellFormed() && 1 <= i < NUM_QUEUES
  {
    q.(deficits := q.deficits[i := if q.queues[i] == [] then 0 else q.Credit(i)])
  }

  function Serve(q: Qos, i: nat): Qos
    requires q.WellFormed() && 1 <= i < NUM_QUEUES && q.queues[i] != []
  {
    TakeHead(q, i).(deficits := q.deficits[i := q.Credit(i) - q.queues[i][0].size])
  }

  /** The deficit loop from class `i` on. */
  function ServeFrom(q: Qos, i: nat): (r: (Qos, Output))
    requires q.WellFormed() && 1 <= i <= NUM_QUEUES
    ensures r.0.WellFormed()
    decreases NUM_QUEUES - i, q.queues
  {
    if i == NUM_QUEUES then (q, Nothing)
    else if q.Ready(i) then (Serve(q, i), Sent(i, q.queues[i][0]))
    else ServeFrom(PassOver(q, i), i + 1)
  }

  function Dequeue(q: Qos): (r: (Qos, Output))
    requires q.WellFormed()
    ensures r.0.WellFormed()
  {
    if q.queues[0] != [] then (TakeHead(q, 0), Sent(0, q.queues[0][0])) else ServeFrom(q, 1)
  }

  // ---- What one call does ----

  /** A class that was passed over: it gained its weight, or lost its credit if it was empty. */
  predicate PassedOver(q: Qos, t: Qos, i: nat)
    requires q.WellFormed() && t.WellFormed() && 1 <= i < NUM_QUEUES
  {
    && !q.Ready(i) && t.queues[i] == q.queues[i] && t.stats[i] == q.stats[i]
    && t.deficits[i] == if q.queues[i] == [] then 0 else q.Credit(i)
  }

  predicate Untouched(q: Qos, t: Qos, i: nat)
    requires q.WellFormed() && t.WellFormed() && i < NUM_QUEUES
  {
    t.queues[i] == q.queues[i] && t.deficits[i] == q.deficits[i] && t.stats[i] == q.stats[i]
  }

  predicate Served(q: Qos, t: Qos, i: nat)
    requires q.WellFormed() && t.WellFormed() && i < NUM_QUEUES
  {
    && q.queues[i] != [] && t.queues[i] == q.queues[i][1..]
    && t.deficits[i] == (if i == 0 then q.deficits[0] else q.Credit(i) - q.queues[i][0].size)
    && t.stats[i].dequeued == q.stats[i].dequeued + 1 && t.stats[i].occupancy == |t.queues[i]|
    && t.stats[i].enqueued == q.stats[i].enqueued && t.stats[i].dropped == q.stats[i].dropped
  }

  /** The outcome of the deficit loop from class `i` on: the first ready class sends. */
  ghost predicate LoopEffect(q: Qos, i: nat, t: Qos, out: Output)
    requires q.WellFormed() && t.WellFormed() && 1 <= i <= NUM_QUEUES
  {
    && (forall j | 0 <= j < i :: Untouched(q, t, j))
    && (out.Nothing? ==> forall j | i <= j < NUM_QUEUES :: PassedOver(q, t, j))
    && (out.Sent? ==>
          && i <= out.cls < NUM_QUEUES && q.Ready(out.cls) && Served(q, t, out.cls)
          && out.packet == q.queues[out.cls][0]
          && (forall j | i <= j < out.cls :: PassedOver(q, t, j))
          && (forall j | out.cls < j < NUM_QUEUES :: Untouched(q, t, j)))
  }

  lemma PassOverEffect(q: Qos, i: nat, t: Qos, out: Output)
    requires q.WellFormed() && t.WellFormed() && 1 <= i < NUM_QUEUES && !q.Ready(i)
    requires LoopEffect(PassOver(q, i), i + 1, t, out)
    ensures LoopEffect(q, i, t, out)
  {
    var q' := PassOver(q, i);
    assert Untouched(q', t, i);
    assert PassedOver(q, t, i);
    forall j | 0 <= j < NUM_QUEUES && j != i
      ensures Untouched(q', t, j) == Untouched(q, t, j) && q'.Ready(j) == q.Ready(j)
      ensures j > 0 ==> PassedOver(q', t, j) == PassedOver(q, t, j)
    {
    }
  }

  lemma {:induction false} ServeFromEffect(q: Qos, i: nat)
    requires q.WellFormed() && 1 <= i <= NUM_QUEUES
    ensures LoopEffect(q, i, ServeFrom(q, i).0, ServeFrom(q, i).1)
    decreases NUM_QUEUES - i
  {
    if i < NUM_QUEUES && !q.Ready(i) {
      var (t, out) := ServeFrom(PassOver(q, i), i + 1);
      ServeFromEffect(PassOver(q, i), i + 1);
      PassOverEffect(q, i, t, out);
    }
  }

  /** What a call did to class `i`: the class that sends had the credit, the classes before it were passed over,
      those after it saw nothing of the call. */
  predicate ClassEffect(q: Qos, t: Qos, out: Output, i: nat)
    requires q.WellFormed() && t.WellFormed() && i < NUM_QUEUES
  {
    if out.Sent? && i == out.cls then Served(q, t, i) && out.packet == q.queues[i][0] && (i > 0 ==> q.Ready(i))
    else if i == 0 || (out.Sent? && out.cls < i) then Untouched(q, t, i)
    else PassedOver(q, t, i)
  }

  /** Strict priority first; otherwise the first class with enough credit sends. With no class ready the call
      returns nothing, whether or not packets are queued. */
  lemma DequeueEffect(q: Qos)
    requires q.WellFormed()
    ensures var (t, out) := Dequeue(q);
            && (out.Sent? ==> out.cls < NUM_QUEUES)
            && (q.queues[0] != [] ==> out.Sent? && out.cls == 0)
            && forall i | 0 <= i < NUM_QUEUES :: ClassEffect(q, t, out, i)
  {
    if q.queues[0] == [] {
      ServeFromEffect(q, 1);
      assert LoopEffect(q, 1, Dequeue(q).0, Dequeue(q).1);
      assert Untouched(q, Dequeue(q).0, 0);
    }
  }

  /** The comment at the end of `dequeue` says all queues are empty. Exactly this is true when it returns false:
      no class has the credit for its head packet. */
  lemma NothingSentIff(q: Qos)
    requires q.WellFormed()
    ensures Dequeue(q).1.Nothing? <==> q.queues[0] == [] && forall i | 1 <= i < NUM_QUEUES :: !q.Ready(i)
  {
    DequeueEffect(q);
    var (t, out) := Dequeue(q);
    if out.Sent? {
      assert ClassEffect(q, t, out, out.cls);
    } else {
      forall i | 1 <= i < NUM_QUEUES ensures !q.Ready(i) { assert ClassEffect(q, t, out, i); }
    }
  }

  /** A queued packet of 100 bytes in the lowest class and a call that returns nothing. */
  lemma NothingSentWithPacketsQueued(p: Packet)
    requires p.size == 100 && p.trafficClass == 4
    ensures var q := Enqueue(Init(), p).0; q.queues[4] == [p] && Dequeue(q).1.Nothing?
  {
    var q := Enqueue(Init(), p).0;
    assert forall i | 1 <= i < NUM_QUEUES :: !q.Ready(i);
    NothingSentIff(q);
  }

  // ---- Runs of calls ----

  datatype Call = Offer(packet: Packet) | Poll

  function Step(q: Qos, c: Call): (r: (Qos, Output))
    requires q.WellFormed()
    ensures r.0.WellFormed()
  {
    match c
    case Offer(p) => (Enqueue(q, p).0, Nothing)
    case Poll => Dequeue(q)
  }

  function Exec(q: Qos, calls: seq<Call>): (t: Qos)
    requires q.WellFormed()
    ensures t.WellFormed()
  {
    if calls == [] then q else Step(Exec(q, calls[..|calls| - 1]), calls[|calls| - 1]).0
  }

  function Polls(calls: seq<Call>): nat
  {
    if calls == [] then 0 else Polls(calls[..|calls| - 1]) + if calls[|calls| - 1].Poll? then 1 else 0
  }

  /** Bytes of class `i` sent during a run. */
  function BytesSent(q: Qos, calls: seq<Call>, i: nat): nat
    requires q.WellFormed()
  {
    if calls == [] then 0 else
      var before := calls[..|calls| - 1];
      var out := Step(Exec(q, before), calls[|calls| - 1]).1;
      BytesSent(q, before, i) + if out.Sent? && out.cls == i then out.packet.size else 0
  }

  /** Packets of class `i` accepted and packets of class `i` sent during a run, in order. */
  function Accepted(q: Qos, calls: seq<Call>, i: nat): seq<Packet>
    requires q.WellFormed()
  {
    if calls == [] then [] else
      var before, c := calls[..|calls| - 1], calls[|calls| - 1];
      Accepted(q, before, i)
        + if c.Offer? && QueueIndex(c.packet) == i && Enqueue(Exec(q, before), c.packet).1 then [c.packet] else []
  }

  function SentOf(q: Qos, calls: seq<Call>, i: nat): seq<Packet>
    requires q.WellFormed()
  {
    if calls == [] then [] else
      var before := calls[..|calls| - 1];
      var out := Step(Exec(q, before), calls[|calls| - 1]).1;
      SentOf(q, before, i) + if out.Sent? && out.cls == i then [out.packet] else []
  }

  lemma PollOrder(q: Qos, i: nat)
    requires q.WellFormed() && i < NUM_QUEUES
    ensures var (t, out) := Dequeue(q);
            q.queues[i] == (if out.Sent? && out.cls == i then [out.packet] else []) + t.queues[i]
  {
    DequeueEffect(q);
    assert ClassEffect(q, Dequeue(q).0, Dequeue(q).1, i);
  }

  /** Each class is a queue: what it held and accepted is what it sent and holds, in one order. */
  lemma {:induction false} ClassIsFifo(q: Qos, calls: seq<Call>, i: nat)
    requires q.WellFormed() && i < NUM_QUEUES
    ensures q.queues[i] + Accepted(q, calls, i) == SentOf(q, calls, i) + Exec(q, calls).queues[i]
  {
    if calls != [] {
      var before, c := calls[..|calls| - 1], calls[|calls| - 1];
      ClassIsFifo(q, before, i);
      var t := Exec(q, before);
      var (t', out) := Step(t, c);
      var a := if c.Offer? && QueueIndex(c.packet) == i && Enqueue(t, c.packet).1 then [c.packet] else [];
      var d := if out.Sent? && out.cls == i then [out.packet] else [];
      if c.Poll? { PollOrder(t, i); }
      assert t.queues[i] + a == d + t'.queues[i];
      Splice(q.queues[i], Accepted(q, before, i), SentOf(q, before, i), t.queues[i], a, d, t'.queues[i]);
    }
  }

  /** Offers of class `i` during a run. */
  function Offers(calls: seq<Call>, i: nat): nat
  {
    if calls == [] then 0 else
      var c := calls[|calls| - 1];
      Offers(calls[..|calls| - 1], i) + if c.Offer? && QueueIndex(c.packet) == i then 1 else 0
  }

  /** The counters count: accepted, sent and refused packets of each class. */
  lemma {:induction false} CountersCount(q: Qos, calls: seq<Call>, i: nat)
    requires q.WellFormed() && i < NUM_QUEUES
    ensures var t := Exec(q, calls);
            && t.stats[i].enqueued == q.stats[i].enqueued + |Accepted(q, calls, i)|
            && t.stats[i].dequeued == q.stats[i].dequeued + |SentOf(q, calls, i)|
            && t.stats[i].dropped + |Accepted(q, calls, i)| == q.stats[i].dropped + Offers(calls, i)
  {
    if calls != [] {
      var before := calls[..|calls| - 1];
      CountersCount(q, before, i);
      var t := Exec(q, before);
      if calls[|calls| - 1].Poll? {
        DequeueEffect(t);
        assert ClassEffect(t, Dequeue(t).0, Dequeue(t).1, i);
      }
    }
  }

  /** Counters and occupancy agree with the queues, queues respect their depth, credits are 32-bit. */
  ghost predicate Inv(q: Qos)
  {
    && q.WellFormed()
    && forall i | 0 <= i < NUM_QUEUES ::
         && INT32_MIN <= q.deficits[i] <= INT32_MAX
         && q.stats[i].enqueued == q.stats[i].dequeued + |q.queues[i]|
         && q.stats[i].occupancy == |q.queues[i]| <= QUEUE_DEPTH
  }

  lemma StepInv(q: Qos, c: Call)
    requires Inv(q)
    ensures Inv(Step(q, c).0)
  {
    if c.Poll? {
      DequeueEffect(q);
      var (t, out) := Dequeue(q);
      forall i | 0 <= i < NUM_QUEUES
        ensures INT32_MIN <= t.deficits[i] <= INT32_MAX && t.stats[i].enqueued == t.stats[i].dequeued + |t.queues[i]|
        ensures t.stats[i].occupancy == |t.queues[i]| <= QUEUE_DEPTH
      {
        assert ClassEffect(q, t, out, i);
      }
    }
  }

  /** In every reachable state each class has enqueued == dequeued + occupancy, and at most 256 packets. */
  lemma {:induction false} RunInv(q: Qos, calls: seq<Call>)
    requires Inv(q)
    ensures Inv(Exec(q, calls))
  {
    if calls != [] {
      RunInv(q, calls[..|calls| - 1]);
      StepInv(Exec(q, calls[..|calls| - 1]), calls[|calls| - 1]);
    }
  }

  // ---- Rate ----

  function Positive(credit: int): nat { if credit > 0 then credit else 0 }

  /** Rate bound: over any run a weighted class sends at most its starting credit and one weight per poll, whether
      or not its credit wraps. */
  lemma {:induction false} RateBound(q: Qos, calls: seq<Call>, i: nat)
    requires q.WellFormed() && 1 <= i < NUM_QUEUES
    ensures BytesSent(q, calls, i) + Positive(Exec(q, calls).deficits[i])
              <= Positive(q.deficits[i]) + Polls(calls) * Weight(i)
  {
    if calls != [] {
      var before := calls[..|calls| - 1];
      RateBound(q, before, i);
      if calls[|calls| - 1].Poll? {
        PollRate(Exec(q, before), i);
        OneRoundMore(Polls(calls), Weight(i));
      }
    }
  }

  lemma PollRate(q: Qos, i: nat)
    requires q.WellFormed() && 1 <= i < NUM_QUEUES
    ensures var (t, out) := Dequeue(q);
            (if out.Sent? && out.cls == i then out.packet.size else 0) + Positive(t.deficits[i])
              <= Positive(q.deficits[i]) + Weight(i)
  {
    DequeueEffect(q);
    assert ClassEffect(q, Dequeue(q).0, Dequeue(q).1, i);
  }

  /** Every poll of the run sends a packet of class `c` or of one before it. */
  ghost predicate BusyUpTo(q: Qos, calls: seq<Call>, c: nat)
    requires q.WellFormed()
  {
    calls == [] ||
    (var before := calls[..|calls| - 1];
     && BusyUpTo(q, before, c)
     && (calls[|calls| - 1].Poll? ==> var out := Dequeue(Exec(q, before)).1; out.Sent? && out.cls <= c))
  }

  /** No guarantee against starvation: while classes up to `c` keep sending, a later class sends nothing and is
      not even credited. */
  lemma {:induction false} LaterClassesStarve(q: Qos, calls: seq<Call>, c: nat, i: nat)
    requires q.WellFormed() && c < i < NUM_QUEUES && BusyUpTo(q, calls, c)
    ensures BytesSent(q, calls, i) == 0
    ensures Exec(q, calls).deficits[i] == q.deficits[i] && q.queues[i] <= Exec(q, calls).queues[i]
  {
    if calls != [] {
      var before := calls[..|calls| - 1];
      LaterClassesStarve(q, before, c, i);
      var t := Exec(q, before);
      if calls[|calls| - 1].Poll? {
        DequeueEffect(t);
        assert ClassEffect(t, Dequeue(t).0, Dequeue(t).1, i);
      }
    }
  }

  lemma OneRoundMore(p: nat, n: nat)
    requires p > 0
    ensures p * n == n + (p - 1) * n
  {
  }
}
