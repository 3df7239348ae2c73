/** The FQ-CoDel scheduler as the object that src/qos/fq_codel.cpp updates in place. */
module FqCodelClass {
  import opened Packets
  import opened FqCodel
  import opened FqCodelSafety
  import ControlLaw

  class FQCoDelScheduler {
    const hash: FiveTuple -> FlowIndex
    const flows: array<FlowQueue>
    var newFlows: seq<FlowIndex>
    var oldFlows: seq<FlowIndex>
    var totalDrops: nat
    var currentDelayNs: nat

    ghost predicate Valid()
      reads this
    {
      flows.Length == NUM_FLOWS
    }

    ghost function State(): (s: Sched)
      reads this, flows
      requires Valid()
      ensures s.WellFormed()
    {
      Sched(flows[..], newFlows, oldFlows, totalDrops, currentDelayNs)
    }

    constructor (hash: FiveTuple -> FlowIndex)
      ensures Valid() && fresh(flows) && State() == Init() && Inv(State()) && this.hash == hash
      ensures forall f | 0 <= f < 1024 :: flows[f] == FlowQueue([], 1514, 0, CodelState(0, 0, 0, false), 0)
    {
      this.hash := hash;
      flows := new FlowQueue[NUM_FLOWS](_ => EMPTY_QUEUE);
      newFlows, oldFlows, totalDrops, currentDelayNs := [], [], 0, 0;
      new;
      InitInv();
      assert State() == Init();
    }

    method Enqueue(p: Packet) returns (ok: bool)
      requires Valid()
      modifies this, flows
      ensures Valid() && ok
      ensures State() == FqCodel.Enqueue(old(State()), hash(p.tuple), p)
      ensures old(Inv(State())) ==> Inv(State())
    {
      ghost var s := State();
      var f := hash(p.tuple);
      var q := flows[f];
      if q.packets == [] {
        q := q.(deficit := QUANTUM);
        newFlows := newFlows + [f];
      }
      flows[f] := q.(packets := q.packets + [p], totalBytes := q.totalBytes + p.size);
      assert State() == Step(s, Arrive(f, p)).0;
      if Inv(s) { StepInv(s, Arrive(f, p)); }
      return true;
    }

    /** Examines a packet just taken from flow `f`: records its delay and sets or clears the flow's deadline. */
    method CodelShouldDrop(f: FlowIndex, p: Packet, now: nat) returns (drop: bool)
      requires Valid()
      modifies this`currentDelayNs, flows
      ensures Valid() && currentDelayNs == if now > p.timestamp then now - p.timestamp else 0
      ensures var above := now >= p.timestamp + 5_000_000 && old(flows[f]).totalBytes >= 1514;
              var deadline := old(flows[f]).codel.firstAbove;
              && (drop <==> above && deadline != 0 && now >= deadline)
              && flows[f].codel.firstAbove
                   == if !above then 0 else if deadline == 0 then now + 100_000_000 else deadline
      ensures var q := old(flows[f]); var (codel, d) := Judge(q.codel, AboveTarget(p, now, q.totalBytes), now);
              drop == d && flows[..] == old(flows[..])[f := q.(codel := codel)]
    {
      var q := flows[f];
      currentDelayNs := Sojourn(p, now);
      if currentDelayNs < TARGET_NS || q.totalBytes < QUANTUM {
        flows[f] := q.(codel := q.codel.(firstAbove := 0));
        return false;
      }
      if q.codel.firstAbove == 0 {
        flows[f] := q.(codel := q.codel.(firstAbove := now + INTERVAL_NS));
      } else if now >= q.codel.firstAbove {
        return true;
      }
      return false;
    }

    /** Takes the head packet of flow `f` and drops it or hands it out. */
    method TakeCandidate(f: FlowIndex, now: nat) returns (r: Option<Packet>)
      requires Valid() && flows[f].packets != []
      modifies this`totalDrops, this`currentDelayNs, flows
      ensures Valid()
      ensures var (t, e) := TakeHead(old(State()), f, now);
              State() == t && e.Removed? && r == if e.dropped then None else Some(e.packet)
    {
      var candidate := flows[f].packets[0];
      flows[f] := Charge(flows[f]);
      var drop := CodelShouldDrop(f, candidate, now);
      var q := flows[f];
      if drop {
        totalDrops := totalDrops + 1;
        q := q.(drops := q.drops + 1);
        if !q.codel.dropping {
          q := q.(codel := q.codel.(dropping := true, count := 1));
          q := q.(codel := q.codel.(dropNext := ControlLaw.NextDrop(now, q.codel.count)));
        } else if now >= q.codel.dropNext {
          var count := (q.codel.count + 1) % 0x1_0000_0000;
          q := q.(codel := q.codel.(count := count, dropNext := ControlLaw.NextDrop(q.codel.dropNext, count)));
        }
        flows[f] := q;
        return None;
      }
      if q.codel.dropping && currentDelayNs < TARGET_NS {
        flows[f] := q.(codel := q.codel.(dropping := false));
      }
      return Some(candidate);
    }

    /** One turn of the loop over a list that is not empty. */
    method ProcessFront(useNew: bool, now: nat) returns (r: Option<Packet>)
      requires Valid() && (if useNew then newFlows != [] else newFlows == [] && oldFlows != [])
      modifies this`newFlows, this`oldFlows, this`totalDrops, this`currentDelayNs, flows
      ensures Valid() && (!useNew ==> newFlows == [])
      ensures var (t, e) := LoopPass(old(State()), now);
              State() == t && !e.Exhausted? && r == if e.Removed? && !e.dropped then Some(e.packet) else None
    {
      ghost var s := State();
      var f := if useNew then newFlows[0] else oldFlows[0];
      if flows[f].packets == [] {
        if useNew { newFlows := newFlows[1..]; } else { oldFlows := oldFlows[1..]; }
        return None;
      }
      if flows[f].deficit <= 0 {
        flows[f] := flows[f].(deficit := flows[f].deficit + QUANTUM);
        if useNew { newFlows := newFlows[1..]; } else { oldFlows := oldFlows[1..]; }
        oldFlows := oldFlows + [f];
        assert State() == Rotate(s);
        return None;
      }
      r := TakeCandidate(f, now);
    }

    /** Works through one of the two lists until it hands out a packet or the list is empty. */
    method ProcessFlowList(useNew: bool, now: nat) returns (r: Option<Packet>)
      requires Valid() && (useNew || newFlows == [])
      modifies this`newFlows, this`oldFlows, this`totalDrops, this`currentDelayNs, flows
      ensures Valid() && (!useNew ==> newFlows == [])
      ensures r.Some? ==> Dequeue(old(State()), now) == (State(), r)
      ensures r.None? ==> Dequeue(State(), now) == Dequeue(old(State()), now)
                          && (if useNew then newFlows else oldFlows) == []
    {
      while (if useNew then newFlows else oldFlows) != []
        invariant Valid() && (!useNew ==> newFlows == [])
        invariant Dequeue(State(), now) == Dequeue(old(State()), now)
        decreases Total(State().flows, Backlog), |newFlows| + |oldFlows|, Total(State().flows, Debt)
      {
        LoopPassShrinks(State(), now);
        r := ProcessFront(useNew, now);
        if r.Some? {
          return r;
        }
      }
      return None;
    }

    method DequeuePacket(now: nat) returns (r: Option<Packet>)
      requires Valid()
      modifies this, flows
      ensures Valid()
      ensures (State(), r) == Dequeue(old(State()), now)
      ensures old(Inv(State())) ==> Inv(State()) && (r.Some? <==> old(Backlogged(State())))
    {
      if Inv(State()) { DequeueServesIffBacklogged(State(), now); }
      r := ProcessFlowList(true, now);
      if r.Some? {
        return r;
      }
      r := ProcessFlowList(false, now);
    }
  }
}
