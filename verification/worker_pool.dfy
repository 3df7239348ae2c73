/** The worker pool (src/core/worker_pool.cpp): one dispatcher thread pushes each packet into the ring of the core
    its hash picks; every worker pops from its own ring and counts what it popped. The threads interleave in the
    steps of ring_protocol.dfy. */
module WorkerPool {
  import opened Packets
  import opened Bitwise
  import RingProtocol
  import RssDispatcher

  const RING_CAPACITY: nat := 1024

  /** `busy` is the ring the dispatcher is pushing into; `inHand` is what a worker popped and has yet to count;
      `accepted` lists the packets for which dispatch returned true, in that order. */
  datatype Pool = Pool(core: FiveTuple -> nat, rings: seq<RingProtocol.Ring<Packet>>, busy: Option<nat>,
                       inHand: seq<Option<Packet>>, processed: seq<seq<Packet>>, totalBytes: seq<nat>,
                       accepted: seq<Packet>)
  {
    function Workers(): nat { |rings| }
  }

  datatype Action =
    | Dispatch(packet: Packet)
    | Push(step: RingProtocol.Action<Packet>)
    | Pop(worker: nat, step: RingProtocol.Action<Packet>)
    | Count(worker: nat)

  predicate IsPushStep(a: RingProtocol.Action<Packet>)
  {
    a.LoadHead? || a.RejectPush? || a.StartWrite? || a.FinishWrite? || a.PublishTail?
  }

  predicate IsPopStep(a: RingProtocol.Action<Packet>)
  {
    a.BeginPop? || a.LoadTail? || a.RejectPop? || a.StartRead? || a.FinishRead? || a.PublishHead?
  }

  ghost predicate Shape(p: Pool)
  {
    && p.Workers() > 0 && |p.inHand| == |p.processed| == |p.totalBytes| == p.Workers()
    && (forall w | 0 <= w < p.Workers() :: RingProtocol.Inv(p.rings[w]) && p.rings[w].capacity == RING_CAPACITY)
    && (p.busy.Some? ==> p.busy.value < p.Workers())
  }

  ghost predicate Enabled(p: Pool, a: Action)
    requires Shape(p)
  {
    match a
    case Dispatch(_) => p.busy.None?
    case Push(s) => p.busy.Some? && IsPushStep(s) && RingProtocol.Enabled(p.rings[p.busy.value], s)
    case Pop(w, s) => w < p.Workers() && p.inHand[w].None? && IsPopStep(s) && RingProtocol.Enabled(p.rings[w], s)
    case Count(w) => w < p.Workers() && p.inHand[w].Some?
  }

  /** One step of one thread. A dispatch whose core is out of range returns false at once. */
  ghost function Act(p: Pool, a: Action): Pool
    requires Shape(p)
  {
    if !Enabled(p, a) then p else
      match a
      case Dispatch(x) =>
        var w := p.core(x.tuple);
        if w < p.Workers() then
          p.(rings := p.rings[w := RingProtocol.Act(p.rings[w], RingProtocol.BeginPush(x))], busy := Some(w))
        else p
      case Push(s) =>
        var w := p.busy.value;
        p.(rings := p.rings[w := RingProtocol.Act(p.rings[w], s)],
           busy := if s.PublishTail? || s.RejectPush? then None else p.busy,
           accepted := if s.PublishTail? then p.accepted + [p.rings[w].producer.item] else p.accepted)
      case Pop(w, s) =>
        p.(rings := p.rings[w := RingProtocol.Act(p.rings[w], s)],
           inHand := if s.PublishHead? then p.inHand[w := Some(p.rings[w].consumer.item)] else p.inHand)
      case Count(w) =>
        var x := p.inHand[w].value;
        p.(inHand := p.inHand[w := None], processed := p.processed[w := p.processed[w] + [x]],
           totalBytes := p.totalBytes[w := p.totalBytes[w] + x.size])
  }

  function Held(x: Option<Packet>): seq<Packet>
  {
    if x.Some? then [x.value] else []
  }

  // ---- Selecting packets ----

  datatype Selector = ToCore(core: FiveTuple -> nat, worker: nat) | OfConnection(tuple: FiveTuple)

  /** `OfConnection` picks both directions of a connection. */
  predicate Picks(s: Selector, p: Packet)
  {
    match s
    case ToCore(core, w) => core(p.tuple) == w
    case OfConnection(t) => p.tuple == t || p.tuple == RssDispatcher.Reverse(t)
  }

  function Keep(s: Selector, ps: seq<Packet>): seq<Packet>
  {
    if ps == [] then [] else
      Keep(s, ps[..|ps| - 1]) + if Picks(s, ps[|ps| - 1]) then [ps[|ps| - 1]] else []
  }

  lemma KeepSnoc(s: Selector, ps: seq<Packet>, p: Packet)
    ensures Keep(s, ps + [p]) == if Picks(s, p) then Keep(s, ps) + [p] else Keep(s, ps)
  {
    assert (ps + [p])[..|ps|] == ps;
  }

  lemma {:induction false} KeepConcat(s: Selector, a: seq<Packet>, b: seq<Packet>)
    ensures Keep(s, a + b) == Keep(s, a) + Keep(s, b)
  {
    if b == [] {
      assert a + b == a;
    } else {
      assert (a + b)[..|a + b| - 1] == a + b[..|b| - 1];
      KeepConcat(s, a, b[..|b| - 1]);
    }
  }

  /** A steering function that sends both directions of a connection to one core. */
  ghost predicate Symmetric(core: FiveTuple -> nat)
  {
    forall t :: core(RssDispatcher.Reverse(t)) == core(t)
  }

  lemma {:induction false} ConnectionWithinCore(core: FiveTuple -> nat, ps: seq<Packet>, t: FiveTuple, w: nat)
    requires Symmetric(core)
    ensures Keep(OfConnection(t), Keep(ToCore(core, w), ps)) == if w == core(t) then Keep(OfConnection(t), ps) else []
  {
    if ps != [] {
      var front, last := ps[..|ps| - 1], ps[|ps| - 1];
      ConnectionWithinCore(core, front, t, w);
      assert Picks(OfConnection(t), last) ==> core(last.tuple) == core(t);
      KeepSnoc(OfConnection(t), Keep(ToCore(core, w), front), last);
      assert Keep(ToCore(core, w), front) + [] == Keep(ToCore(core, w), front);
    }
  }

  // ---- What every schedule keeps ----

  /** A worker's ring has been pushed exactly the accepted packets of its core, in order; what the worker counted
      or holds is what was popped from the ring; only the ring the dispatcher is busy with has a push under way. */
  ghost predicate WorkerInv(p: Pool, w: nat)
    requires Shape(p) && w < p.Workers()
  {
    && p.rings[w].pushed == Keep(ToCore(p.core, w), p.accepted)
    && p.rings[w].popped == p.processed[w] + Held(p.inHand[w])
    && p.totalBytes[w] == SumSizes(p.processed[w])
    && (!p.rings[w].producer.PushIdle? ==> p.busy == Some(w) && p.core(p.rings[w].producer.item.tuple) == w)
  }

  ghost predicate Inv(p: Pool)
  {
    Shape(p) && forall w | 0 <= w < p.Workers() :: WorkerInv(p, w)
  }

  function NumWorkers(requested: uint32): nat
  {
    if requested > 0 then requested else 1
  }

  function NewPool(core: FiveTuple -> nat, requested: uint32, slots: seq<Packet>): Pool
  {
    var n := NumWorkers(requested);
    Pool(core, seq(n, _ => RingProtocol.Empty(RING_CAPACITY, slots)), None, seq(n, _ => None), seq(n, _ => []),
         seq(n, _ => 0), [])
  }

  lemma NewPoolInv(core: FiveTuple -> nat, requested: uint32, slots: seq<Packet>)
    requires |slots| == RING_CAPACITY
    ensures Inv(NewPool(core, requested, slots))
  {
    assert Pow2(10) == RING_CAPACITY;
    RingProtocol.EmptyInv(RING_CAPACITY, slots);
    var p := NewPool(core, requested, slots);
    assert Shape(p);
    assert forall w | 0 <= w < p.Workers() :: WorkerInv(p, w);
  }

  lemma PushStep(r: RingProtocol.Ring<Packet>, s: RingProtocol.Action<Packet>)
    requires RingProtocol.Inv(r) && RingProtocol.Enabled(r, s) && IsPushStep(s)
    ensures var r' := RingProtocol.Act(r, s);
            && RingProtocol.Inv(r') && r'.capacity == r.capacity && r'.popped == r.popped && !r.producer.PushIdle?
            && r'.pushed == (if s.PublishTail? then r.pushed + [r.producer.item] else r.pushed)
            && (r'.producer.PushIdle? <==> s.PublishTail? || s.RejectPush?)
            && (!r'.producer.PushIdle? ==> r'.producer.item == r.producer.item)
  {
    RingProtocol.ActInv(r, s);
  }

  lemma PopStep(r: RingProtocol.Ring<Packet>, s: RingProtocol.Action<Packet>)
    requires RingProtocol.Inv(r) && RingProtocol.Enabled(r, s) && IsPopStep(s)
    ensures var r' := RingProtocol.Act(r, s);
            && RingProtocol.Inv(r') && r'.capacity == r.capacity && r'.pushed == r.pushed && r'.producer == r.producer
            && (s.PublishHead? ==> r.consumer.Read?)
            && r'.popped == (if s.PublishHead? then r.popped + [r.consumer.item] else r.popped)
  {
    RingProtocol.ActInv(r, s);
  }

  lemma PushInv(p: Pool, s: RingProtocol.Action<Packet>)
    requires Inv(p) && Enabled(p, Push(s))
    ensures Inv(Act(p, Push(s)))
  {
    var w := p.busy.value;
    var p' := Act(p, Push(s));
    assert WorkerInv(p, w);
    PushStep(p.rings[w], s);
    assert Shape(p');
    forall v | 0 <= v < p.Workers() ensures WorkerInv(p', v) {
      assert WorkerInv(p, v);
      if s.PublishTail? { KeepSnoc(ToCore(p.core, v), p.accepted, p.rings[w].producer.item); }
    }
  }

  lemma PopInv(p: Pool, w: nat, s: RingProtocol.Action<Packet>)
    requires Inv(p) && Enabled(p, Pop(w, s))
    ensures Inv(Act(p, Pop(w, s)))
  {
    var p' := Act(p, Pop(w, s));
    PopStep(p.rings[w], s);
    assert Shape(p');
    forall v | 0 <= v < p.Workers() ensures WorkerInv(p', v) {
      assert WorkerInv(p, v);
      assert v == w ==> p.rings[w].popped == p.processed[w];
    }
  }

  lemma CountInv(p: Pool, w: nat)
    requires Inv(p) && Enabled(p, Count(w))
    ensures Inv(Act(p, Count(w)))
  {
    var p' := Act(p, Count(w));
    SumSizesSnoc(p.processed[w], p.inHand[w].value);
    forall v | 0 <= v < p.Workers() ensures WorkerInv(p', v) {
      assert WorkerInv(p, v);
      assert v == w ==> p'.processed[w] + Held(None) == p.processed[w] + Held(p.inHand[w]);
    }
  }

  lemma DispatchInv(p: Pool, x: Packet)
    requires Inv(p) && Enabled(p, Dispatch(x))
    ensures Inv(Act(p, Dispatch(x)))
  {
    var p' := Act(p, Dispatch(x));
    var w := p.core(x.tuple);
    if w < p.Workers() {
      RingProtocol.ActInv(p.rings[w], RingProtocol.BeginPush(x));
      assert Shape(p');
      forall v | 0 <= v < p.Workers() ensures WorkerInv(p', v) {
        assert WorkerInv(p, v) && WorkerInv(p, w);
      }
    }
  }

  lemma ActInv(p: Pool, a: Action)
    requires Inv(p)
    ensures Inv(Act(p, a))
  {
    if Enabled(p, a) {
      match a
      case Dispatch(x) => DispatchInv(p, x);
      case Push(s) => PushInv(p, s);
      case Pop(w, s) => PopInv(p, w, s);
      case Count(w) => CountInv(p, w);
    }
  }

  ghost function Run(p: Pool, schedule: seq<Action>): (p': Pool)
    requires Inv(p)
    ensures Inv(p') && p'.Workers() == p.Workers() && p'.core == p.core
  {
    if schedule == [] then p else
      var before := Run(p, schedule[..|schedule| - 1]);
      ActInv(before, schedule[|schedule| - 1]);
      Act(before, schedule[|schedule| - 1])
  }

  // ---- Per-connection order and conservation ----

  /** All that went through worker `w`, oldest first: counted, in hand, still in its ring. */
  ghost function Passed(p: Pool, w: nat): seq<Packet>
    requires Inv(p) && w < p.Workers()
  {
    p.processed[w] + Held(p.inHand[w]) + p.rings[w].Queue()
  }

  lemma PassedIsPushed(p: Pool, w: nat)
    requires Inv(p) && w < p.Workers()
    ensures Passed(p, w) == p.rings[w].pushed == Keep(ToCore(p.core, w), p.accepted)
  {
    var r := p.rings[w];
    assert RingProtocol.Inv(r) && WorkerInv(p, w);
    assert r.pushed == r.popped + r.Queue();
  }

  /** Both directions of a connection are processed by one worker, in the order they were dispatched. */
  lemma ConnectionOrder(p: Pool, schedule: seq<Action>, t: FiveTuple)
    requires Inv(p) && Symmetric(p.core) && p.core(t) < p.Workers()
    ensures var p' := Run(p, schedule); var w := p.core(t);
            && Keep(OfConnection(t), p'.processed[w]) + Keep(OfConnection(t), Held(p'.inHand[w]))
                 + Keep(OfConnection(t), p'.rings[w].Queue()) == Keep(OfConnection(t), p'.accepted)
            && forall v | 0 <= v < p.Workers() && v != w :: Keep(OfConnection(t), p'.processed[v]) == []
  {
    var p' := Run(p, schedule);
    forall v | 0 <= v < p.Workers()
      ensures Keep(OfConnection(t), p'.processed[v]) + Keep(OfConnection(t), Held(p'.inHand[v]))
                + Keep(OfConnection(t), p'.rings[v].Queue())
              == if v == p.core(t) then Keep(OfConnection(t), p'.accepted) else []
    {
      PassedIsPushed(p', v);
      ConnectionWithinCore(p.core, p'.accepted, t, v);
      KeepConcat(OfConnection(t), p'.processed[v] + Held(p'.inHand[v]), p'.rings[v].Queue());
      KeepConcat(OfConnection(t), p'.processed[v], Held(p'.inHand[v]));
    }
  }

  ghost function Sum(p: Pool, n: nat): nat
    requires Inv(p) && n <= p.Workers()
  {
    if n == 0 then 0 else Sum(p, n - 1) + |Passed(p, n - 1)|
  }

  function Below(core: FiveTuple -> nat, ps: seq<Packet>, n: nat): nat
  {
    if n == 0 then 0 else Below(core, ps, n - 1) + |Keep(ToCore(core, n - 1), ps)|
  }

  lemma {:induction false} BelowSnoc(core: FiveTuple -> nat, ps: seq<Packet>, p: Packet, n: nat)
    ensures Below(core, ps + [p], n) == Below(core, ps, n) + if core(p.tuple) < n then 1 else 0
  {
    if n > 0 {
      BelowSnoc(core, ps, p, n - 1);
      KeepSnoc(ToCore(core, n - 1), ps, p);
    }
  }

  lemma {:induction false} BelowNothing(core: FiveTuple -> nat, n: nat)
    ensures Below(core, [], n) == 0
  {
    if n > 0 {
      BelowNothing(core, n - 1);
    }
  }

  lemma {:induction false} CoresPartition(core: FiveTuple -> nat, ps: seq<Packet>, n: nat)
    requires forall i | 0 <= i < |ps| :: core(ps[i].tuple) < n
    ensures Below(core, ps, n) == |ps|
  {
    if ps == [] {
      BelowNothing(core, n);
    } else {
      var front, last := ps[..|ps| - 1], ps[|ps| - 1];
      CoresPartition(core, front, n);
      BelowSnoc(core, front, last, n);
      assert front + [last] == ps;
    }
  }

  lemma {:induction false} SumIsBelow(p: Pool, n: nat)
    requires Inv(p) && n <= p.Workers()
    ensures Sum(p, n) == Below(p.core, p.accepted, n)
  {
    if n > 0 {
      SumIsBelow(p, n - 1);
      assert |Passed(p, n - 1)| == |Keep(ToCore(p.core, n - 1), p.accepted)| by { PassedIsPushed(p, n - 1); }
    }
  }

  /** Every accepted packet is counted by a worker, in a worker's hand, or in a ring. */
  lemma Conservation(p: Pool, schedule: seq<Action>)
    requires Inv(p) && forall t :: p.core(t) < p.Workers()
    ensures var p' := Run(p, schedule); |p'.accepted| == Sum(p', p'.Workers())
  {
    var p' := Run(p, schedule);
    SumIsBelow(p', p'.Workers());
    CoresPartition(p'.core, p'.accepted, p'.Workers());
  }

  // ---- The hash that the pool uses ----

  function RssCore(n: nat): FiveTuple -> nat
    requires n > 0
  {
    t => RssDispatcher.DispatchCore(t, n)
  }

  lemma RssIsSymmetric(n: nat)
    requires n > 0
    ensures Symmetric(RssCore(n)) && forall t :: RssCore(n)(t) < n
  {
    forall t ensures RssCore(n)(RssDispatcher.Reverse(t)) == RssCore(n)(t) {
      var u := RssDispatcher.Reverse(t);
      assert RssDispatcher.Min(u.srcIp, u.destIp) == RssDispatcher.Min(t.srcIp, t.destIp);
      assert RssDispatcher.Max(u.srcIp, u.destIp) == RssDispatcher.Max(t.srcIp, t.destIp);
      assert RssDispatcher.Min(u.srcPort, u.destPort) == RssDispatcher.Min(t.srcPort, t.destPort);
      assert RssDispatcher.Max(u.srcPort, u.destPort) == RssDispatcher.Max(t.srcPort, t.destPort);
    }
  }

  /** For a pool of any requested size, under every schedule: one worker per connection, in dispatch order, and
      nothing accepted is lost. */
  lemma PoolWideFlowOrder(requested: uint32, slots: seq<Packet>, schedule: seq<Action>, t: FiveTuple)
    requires |slots| == RING_CAPACITY
    ensures NumWorkers(requested) == if requested == 0 then 1 else requested
    ensures var n := NumWorkers(requested); var core := RssCore(n); var start := NewPool(core, requested, slots);
            && Inv(start)
            && var p := Run(start, schedule); var w := core(t);
               && w < n == p.Workers()
               && Keep(OfConnection(t), p.processed[w]) <= Keep(OfConnection(t), p.accepted)
               && (forall v | 0 <= v < n && v != w :: Keep(OfConnection(t), p.processed[v]) == [])
               && |p.accepted| == Sum(p, n)
  {
    var n := NumWorkers(requested);
    var core := RssCore(n);
    NewPoolInv(core, requested, slots);
    RssIsSymmetric(n);
    var start := NewPool(core, requested, slots);
    ConnectionOrder(start, schedule, t);
    Conservation(start, schedule);
  }
}
