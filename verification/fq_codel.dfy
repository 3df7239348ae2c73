/** The FQ-CoDel scheduler (src/qos/fq_codel.cpp, include/qos/fq_codel.hpp), as a value that one arrival or one
    pass through the dequeue loop changes. `FQCoDelScheduler` in fq_codel_class.dfy is the object that does it in
    place. The clock is an input; a flow index stands for the hash of a packet's 5-tuple. */
module FqCodel {
  import opened Packets
  import ControlLaw

  const NUM_FLOWS: nat := 1024
  const QUANTUM: nat := 1514
  const TARGET_NS: nat := 5_000_000
  const INTERVAL_NS: nat := ControlLaw.INTERVAL_NS

  type FlowIndex = i: nat | i < NUM_FLOWS

  datatype CodelState = CodelState(firstAbove: nat, dropNext: nat, count: uint32, dropping: bool)
  datatype FlowQueue = FlowQueue(packets: seq<Packet>, deficit: int, totalBytes: int, codel: CodelState, drops: nat)

  datatype Sched = Sched(flows: seq<FlowQueue>, newFlows: seq<FlowIndex>, oldFlows: seq<FlowIndex>,
                         totalDrops: nat, delayNs: nat)
  {
    predicate WellFormed() { |flows| == NUM_FLOWS }
    predicate Unlisted() { newFlows == [] && oldFlows == [] }

    /** The front of the list the dequeue loop is working on: the new flows until there are none left. */
    function Front(): FlowIndex
      requires !Unlisted()
    {
      if newFlows != [] then newFlows[0] else oldFlows[0]
    }

    function PopFront(): Sched
      requires !Unlisted()
    {
      if newFlows != [] then this.(newFlows := newFlows[1..]) else this.(oldFlows := oldFlows[1..])
    }
  }

  const EMPTY_QUEUE := FlowQueue([], QUANTUM, 0, CodelState(0, 0, 0, false), 0)

  function Init(): Sched
  {
    Sched(seq(NUM_FLOWS, _ => EMPTY_QUEUE), [], [], 0, 0)
  }

  /** What one loop pass or one arrival did. `bytesLeft` is what stayed queued behind the removed packet. */
  datatype Event =
    | Enqueued(flow: FlowIndex, packet: Packet)
    | Exhausted
    | Skipped(flow: FlowIndex)
    | Rotated(flow: FlowIndex)
    | Removed(flow: FlowIndex, packet: Packet, now: nat, bytesLeft: int, dropped: bool)

  datatype Input = Arrive(flow: FlowIndex, packet: Packet) | Turn(now: nat)

  // ---- CoDel ----

  function Sojourn(p: Packet, now: nat): nat
  {
    if now > p.timestamp then now - p.timestamp else 0
  }

  /** The examined packet waited at least the target and a quantum of bytes is still behind it. */
  predicate AboveTarget(p: Packet, now: nat, bytesLeft: int)
  {
    Sojourn(p, now) >= TARGET_NS && bytesLeft >= QUANTUM
  }

  function Judge(c: CodelState, above: bool, now: nat): (CodelState, bool)
  {
    if !above then (c.(firstAbove := 0), false)
    else if c.firstAbove == 0 then (c.(firstAbove := now + INTERVAL_NS), false)
    else (c, now >= c.firstAbove)
  }

  function EnterOrAdvanceDropping(c: CodelState, now: nat): CodelState
  {
    if !c.dropping then
      var first := c.(dropping := true, count := 1);
      first.(dropNext := ControlLaw.NextDrop(now, first.count))
    else if now >= c.dropNext then
      var count := (c.count + 1) % 0x1_0000_0000;
      c.(count := count, dropNext := ControlLaw.NextDrop(c.dropNext, count))
    else c
  }

  function LeaveDropping(c: CodelState, sojourn: nat): CodelState
  {
    if c.dropping && sojourn < TARGET_NS then c.(dropping := false) else c
  }

  // ---- Enqueue and one pass of the dequeue loop ----

  function Enqueue(s: Sched, f: FlowIndex, p: Packet): Sched
    requires s.WellFormed()
  {
    var q := s.flows[f];
    var wasEmpty := q.packets == [];
    var q' := q.(packets := q.packets + [p], totalBytes := q.totalBytes + p.size,
                 deficit := if wasEmpty then QUANTUM else q.deficit);
    s.(flows := s.flows[f := q'], newFlows := if wasEmpty then s.newFlows + [f] else s.newFlows)
  }

  function Charge(q: FlowQueue): FlowQueue
    requires q.packets != []
  {
    var p := q.packets[0];
    q.(packets := q.packets[1..], totalBytes := q.totalBytes - p.size, deficit := q.deficit - p.size)
  }

  /** Takes the head packet of flow `f`, charges its deficit, and lets CoDel drop or pass it. */
  function TakeHead(s: Sched, f: FlowIndex, now: nat): (Sched, Event)
    requires s.WellFormed() && s.flows[f].packets != []
  {
    var p := s.flows[f].packets[0];
    var q := Charge(s.flows[f]);
    var (codel, drop) := Judge(q.codel, AboveTarget(p, now, q.totalBytes), now);
    var q' := if drop then q.(codel := EnterOrAdvanceDropping(codel, now), drops := q.drops + 1)
              else q.(codel := LeaveDropping(codel, Sojourn(p, now)));
    (s.(flows := s.flows[f := q'], delayNs := Sojourn(p, now),
        totalDrops := if drop then s.totalDrops + 1 else s.totalDrops),
     Removed(f, p, now, q.totalBytes, drop))
  }

  function Rotate(s: Sched): Sched
    requires s.WellFormed() && !s.Unlisted()
  {
    var f := s.Front();
    var q := s.flows[f];
    var t := s.PopFront();
    t.(flows := t.flows[f := q.(deficit := q.deficit + QUANTUM)], oldFlows := t.oldFlows + [f])
  }

  function LoopPass(s: Sched, now: nat): (Sched, Event)
    requires s.WellFormed()
  {
    if s.Unlisted() then (s, Exhausted)
    else
      var f := s.Front();
      var q := s.flows[f];
      if q.packets == [] then (s.PopFront(), Skipped(f))
      else if q.deficit <= 0 then (Rotate(s), Rotated(f))
      else TakeHead(s, f, now)
  }

  // ---- Termination of the dequeue loop ----

  function Total(qs: seq<FlowQueue>, measure: FlowQueue -> nat): nat
  {
    if qs == [] then 0 else Total(qs[..|qs| - 1], measure) + measure(qs[|qs| - 1])
  }

  lemma {:induction false} TotalUpdate(qs: seq<FlowQueue>, i: nat, q: FlowQueue, measure: FlowQueue -> nat)
    requires i < |qs|
    ensures Total(qs[i := q], measure) == Total(qs, measure) - measure(qs[i]) + measure(q)
  {
    var n := |qs| - 1;
    if i == n {
      assert qs[i := q][..n] == qs[..n];
    } else {
      assert qs[i := q][..n] == qs[..n][i := q];
      TotalUpdate(qs[..n], i, q, measure);
    }
  }

  function Backlog(q: FlowQueue): nat { |q.packets| }
  function Drops(q: FlowQueue): nat { q.drops }
  /** Zero once the deficit is positive, and smaller after every rotation before that. */
  function Debt(q: FlowQueue): nat { if q.deficit <= 0 then 1 - q.deficit else 0 }

  /** Every pass either ends the loop or lowers (packets queued, list entries, deficit owed), lexicographically,
      whatever duplicates and empty flows the two lists hold. */
  lemma LoopPassShrinks(s: Sched, now: nat)
    requires s.WellFormed()
    ensures var (t, e) := LoopPass(s, now);
            && t.WellFormed()
            && (e.Exhausted? <==> s.Unlisted())
            && (e.Removed? ==> Total(t.flows, Backlog) < Total(s.flows, Backlog))
            && (e.Skipped? ==> t.flows == s.flows && |t.newFlows| + |t.oldFlows| < |s.newFlows| + |s.oldFlows|)
            && (e.Rotated? ==>
                  && Total(t.flows, Backlog) == Total(s.flows, Backlog)
                  && |t.newFlows| + |t.oldFlows| == |s.newFlows| + |s.oldFlows|
                  && Total(t.flows, Debt) < Total(s.flows, Debt))
  {
    var (t, e) := LoopPass(s, now);
    if e.Rotated? || e.Removed? {
      TotalUpdate(s.flows, e.flow, t.flows[e.flow], Backlog);
      TotalUpdate(s.flows, e.flow, t.flows[e.flow], Debt);
    }
  }

  /** One call of dequeue: loop passes until a packet is passed on or both lists are empty. */
  function Dequeue(s: Sched, now: nat): (r: (Sched, Option<Packet>))
    requires s.WellFormed()
    ensures r.0.WellFormed()
    decreases Total(s.flows, Backlog), |s.newFlows| + |s.oldFlows|, Total(s.flows, Debt)
  {
    LoopPassShrinks(s, now);
    var (t, e) := LoopPass(s, now);
    if e.Exhausted? then (t, None)
    else if e.Removed? && !e.dropped then (t, Some(e.packet))
    else Dequeue(t, now)
  }

  // ---- Runs ----

  function Step(s: Sched, i: Input): (r: (Sched, Event))
    requires s.WellFormed()
    ensures r.0.WellFormed()
  {
    match i
    case Arrive(f, p) => (Enqueue(s, f, p), Enqueued(f, p))
    case Turn(now) => LoopPass(s, now)
  }

  function Exec(s: Sched, ins: seq<Input>): (t: Sched)
    requires s.WellFormed()
    ensures t.WellFormed()
  {
    if ins == [] then s else Step(Exec(s, ins[..|ins| - 1]), ins[|ins| - 1]).0
  }

  function Trace(s: Sched, ins: seq<Input>): (tr: seq<Event>)
    requires s.WellFormed()
    ensures |tr| == |ins|
  {
    if ins == [] then [] else
      var before := ins[..|ins| - 1];
      Trace(s, before) + [Step(Exec(s, before), ins[|ins| - 1]).1]
  }

  lemma {:induction false} ExecConcat(s: Sched, a: seq<Input>, b: seq<Input>)
    requires s.WellFormed()
    ensures Exec(s, a + b) == Exec(Exec(s, a), b)
    ensures Trace(s, a + b) == Trace(s, a) + Trace(Exec(s, a), b)
  {
    if b == [] {
      assert a + b == a;
    } else {
      var b' := b[..|b| - 1];
      assert (a + b)[..|a + b| - 1] == a + b';
      ExecConcat(s, a, b');
    }
  }

  // ---- What a run did ----

  datatype Kind = Arrival | Departure | Delivery | Drop
  datatype Which = All | OfFlow(flow: FlowIndex) | OfTuple(tuple: FiveTuple)

  predicate IsKind(e: Event, k: Kind)
  {
    match k
    case Arrival => e.Enqueued?
    case Departure => e.Removed?
    case Delivery => e.Removed? && !e.dropped
    case Drop => e.Removed? && e.dropped
  }

  predicate IsOf(e: Event, w: Which)
    requires e.Enqueued? || e.Removed?
  {
    match w
    case All => true
    case OfFlow(f) => e.flow == f
    case OfTuple(t) => e.packet.tuple == t
  }

  /** The packets of the events of one kind, in the order of the run. */
  function Select(tr: seq<Event>, k: Kind, w: Which): seq<Packet>
  {
    if tr == [] then [] else
      var e := tr[|tr| - 1];
      Select(tr[..|tr| - 1], k, w) + if IsKind(e, k) && IsOf(e, w) then [e.packet] else []
  }
}
