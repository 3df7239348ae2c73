/** What every reachable state of the FQ-CoDel scheduler satisfies, and what one dequeue call promises. */
module FqCodelSafety {
  import opened Packets
  import opened FqCodel

  ghost predicate QueueInv(q: FlowQueue)
  {
    && q.totalBytes == SumSizes(q.packets)
    && q.deficit <= QUANTUM
    && (q.packets == [] ==> q.codel.firstAbove == 0)
  }

  predicate Listed(s: Sched, f: FlowIndex)
  {
    f in s.newFlows || f in s.oldFlows
  }

  /** An index may be listed more than once and may outlive its flow's packets; what matters is that a flow
      with packets is never missing from both lists. */
  ghost predicate Inv(s: Sched)
  {
    && s.WellFormed()
    && (forall f: FlowIndex :: QueueInv(s.flows[f]))
    && (forall f: FlowIndex :: s.flows[f].packets != [] ==> Listed(s, f))
    && s.totalDrops == Total(s.flows, Drops)
  }

  ghost predicate Backlogged(s: Sched)
    requires s.WellFormed()
  {
    exists f: FlowIndex :: s.flows[f].packets != []
  }

  lemma {:induction false} NoDropsAtFirst(n: nat)
    ensures Total(seq(n, _ => EMPTY_QUEUE), Drops) == 0
  {
    if n > 0 {
      assert seq(n, _ => EMPTY_QUEUE)[..n - 1] == seq(n - 1, _ => EMPTY_QUEUE);
      NoDropsAtFirst(n - 1);
    }
  }

  lemma InitInv()
    ensures Inv(Init())
  {
    NoDropsAtFirst(NUM_FLOWS);
  }

  /** CoDel never drops a flow's last packet. */
  lemma DropLeavesBacklog(s: Sched, f: FlowIndex, now: nat)
    requires s.WellFormed() && QueueInv(s.flows[f]) && s.flows[f].packets != []
    ensures var (t, e) := TakeHead(s, f, now);
            QueueInv(t.flows[f]) && (e.dropped ==> t.flows[f].packets != [])
  {
    var ps := s.flows[f].packets;
    assert SumSizes(ps) == ps[0].size + SumSizes(ps[1..]);
  }

  lemma StepInv(s: Sched, i: Input)
    requires Inv(s)
    ensures Inv(Step(s, i).0)
  {
    var (t, e) := Step(s, i);
    match i
    case Arrive(f, p) =>
      SumSizesSnoc(s.flows[f].packets, p);
      TotalUpdate(s.flows, f, t.flows[f], Drops);
      forall g: FlowIndex | t.flows[g].packets != [] ensures Listed(t, g) {
        assert g != f ==> s.flows[g].packets != [];
        assert s.flows[f].packets == [] ==> t.newFlows[|s.newFlows|] == f;
      }
    case Turn(now) =>
      if !s.Unlisted() {
        var f := s.Front();
        if e.Removed? { DropLeavesBacklog(s, f, now); }
        if e.Removed? || e.Rotated? { TotalUpdate(s.flows, f, t.flows[f], Drops); }
        forall g: FlowIndex | t.flows[g].packets != [] ensures Listed(t, g) {
          assert s.flows[g].packets != [];
          if g != f { PopKeepsOthers(s, g); }
          assert e.Rotated? ==> t.oldFlows[|t.oldFlows| - 1] == f;
        }
      }
  }

  lemma PopKeepsOthers(s: Sched, g: FlowIndex)
    requires !s.Unlisted() && Listed(s, g) && g != s.Front()
    ensures Listed(s.PopFront(), g)
  {
    if g in s.newFlows {
      assert s.newFlows == [s.newFlows[0]] + s.newFlows[1..];
    } else if s.newFlows == [] {
      assert s.oldFlows == [s.oldFlows[0]] + s.oldFlows[1..];
    }
  }

  /** Every state of every run keeps the invariant. */
  lemma {:induction false} RunInv(s: Sched, ins: seq<Input>)
    requires Inv(s)
    ensures Inv(Exec(s, ins))
  {
    if ins != [] {
      RunInv(s, ins[..|ins| - 1]);
      StepInv(Exec(s, ins[..|ins| - 1]), ins[|ins| - 1]);
    }
  }

  /** Work conservation: a call finds a packet exactly when some flow holds one, however many packets CoDel
      drops on the way. */
  lemma {:induction false} DequeueServesIffBacklogged(s: Sched, now: nat)
    requires Inv(s)
    ensures var (t, r) := Dequeue(s, now); Inv(t) && (r.Some? <==> Backlogged(s))
    decreases Total(s.flows, Backlog), |s.newFlows| + |s.oldFlows|, Total(s.flows, Debt)
  {
    LoopPassShrinks(s, now);
    StepInv(s, Turn(now));
    var (t, e) := LoopPass(s, now);
    if e.Exhausted? {
    } else if e.Removed? && !e.dropped {
      assert s.flows[e.flow].packets != [];
    } else {
      DequeueServesIffBacklogged(t, now);
      if e.Removed? {
        DropLeavesBacklog(s, e.flow, now);
        assert t.flows[e.flow].packets != [] && s.flows[e.flow].packets != [];
      } else {
        assert forall f: FlowIndex :: t.flows[f].packets == s.flows[f].packets;
      }
    }
  }

  // ---- A call is a run of loop passes ----

  function Passes(s: Sched, now: nat): (k: nat)
    requires s.WellFormed()
    ensures k >= 1
    decreases Total(s.flows, Backlog), |s.newFlows| + |s.oldFlows|, Total(s.flows, Debt)
  {
    LoopPassShrinks(s, now);
    var (t, e) := LoopPass(s, now);
    if e.Exhausted? || (e.Removed? && !e.dropped) then 1 else 1 + Passes(t, now)
  }

  function Turns(k: nat, now: nat): seq<Input>
  {
    seq(k, _ => Turn(now))
  }

  /** The call ends at its first pass that hands out a packet or finds the lists empty. */
  ghost predicate IsCallTrace(tr: seq<Event>, r: Option<Packet>)
  {
    && tr != []
    && (forall i :: 0 <= i < |tr| - 1 ==> tr[i].Skipped? || tr[i].Rotated? || (tr[i].Removed? && tr[i].dropped))
    && var last := tr[|tr| - 1];
       match r
       case Some(p) => last.Removed? && !last.dropped && last.packet == p
       case None => last.Exhausted?
  }

  lemma FirstPass(s: Sched, now: nat)
    requires s.WellFormed()
    ensures Exec(s, [Turn(now)]) == LoopPass(s, now).0 && Trace(s, [Turn(now)]) == [LoopPass(s, now).1]
  {
    assert [Turn(now)][..0] == [];
  }

  lemma PassThenCall(e: Event, tr: seq<Event>, r: Option<Packet>)
    requires IsCallTrace(tr, r) && (e.Skipped? || e.Rotated? || (e.Removed? && e.dropped))
    ensures IsCallTrace([e] + tr, r)
  {
    var all := [e] + tr;
    forall i | 0 <= i < |all| - 1
      ensures all[i].Skipped? || all[i].Rotated? || (all[i].Removed? && all[i].dropped)
    {
      if i > 0 { assert all[i] == tr[i - 1]; }
    }
    assert all[|all| - 1] == tr[|tr| - 1];
  }

  lemma {:induction false} DequeueIsRun(s: Sched, now: nat)
    requires s.WellFormed()
    ensures Exec(s, Turns(Passes(s, now), now)) == Dequeue(s, now).0
    ensures IsCallTrace(Trace(s, Turns(Passes(s, now), now)), Dequeue(s, now).1)
    decreases Total(s.flows, Backlog), |s.newFlows| + |s.oldFlows|, Total(s.flows, Debt)
  {
    LoopPassShrinks(s, now);
    FirstPass(s, now);
    var (t, e) := LoopPass(s, now);
    if e.Exhausted? || (e.Removed? && !e.dropped) {
      assert Turns(1, now) == [Turn(now)];
    } else {
      DequeueIsRun(t, now);
      var rest := Turns(Passes(t, now), now);
      assert Turns(Passes(s, now), now) == [Turn(now)] + rest;
      ExecConcat(s, [Turn(now)], rest);
      PassThenCall(e, Trace(t, rest), Dequeue(t, now).1);
    }
  }

  datatype Call = Offer(flow: FlowIndex, packet: Packet) | Poll(now: nat)

  function ExecCalls(s: Sched, calls: seq<Call>): (t: Sched)
    requires s.WellFormed()
    ensures t.WellFormed()
  {
    if calls == [] then s else
      var t := ExecCalls(s, calls[..|calls| - 1]);
      match calls[|calls| - 1]
      case Offer(f, p) => Enqueue(t, f, p)
      case Poll(now) => Dequeue(t, now).0
  }

  /** The packets the polls of a call sequence returned. */
  function Returned(s: Sched, calls: seq<Call>): seq<Packet>
    requires s.WellFormed()
  {
    if calls == [] then [] else
      var before := calls[..|calls| - 1];
      Returned(s, before) +
      match calls[|calls| - 1]
      case Offer(_, _) => []
      case Poll(now) => var r := Dequeue(ExecCalls(s, before), now).1; if r.Some? then [r.value] else []
  }

  function Inputs(s: Sched, calls: seq<Call>): seq<Input>
    requires s.WellFormed()
  {
    if calls == [] then [] else
      var before := calls[..|calls| - 1];
      var t := ExecCalls(s, before);
      Inputs(s, before) +
      match calls[|calls| - 1]
      case Offer(f, p) => [Arrive(f, p)]
      case Poll(now) => Turns(Passes(t, now), now)
  }

  lemma {:induction false} DeliveredConcat(a: seq<Event>, b: seq<Event>)
    ensures Select(a + b, Delivery, All) == Select(a, Delivery, All) + Select(b, Delivery, All)
  {
    if b == [] {
      assert a + b == a;
    } else {
      assert (a + b)[..|a + b| - 1] == a + b[..|b| - 1];
      DeliveredConcat(a, b[..|b| - 1]);
    }
  }

  lemma {:induction false} NothingDelivered(tr: seq<Event>)
    requires forall i :: 0 <= i < |tr| ==> !(tr[i].Removed? && !tr[i].dropped)
    ensures Select(tr, Delivery, All) == []
  {
    if tr != [] {
      NothingDelivered(tr[..|tr| - 1]);
    }
  }

  lemma RunThen(s: Sched, a: seq<Input>, b: seq<Input>)
    requires s.WellFormed()
    ensures Exec(s, a + b) == Exec(Exec(s, a), b)
    ensures Select(Trace(s, a + b), Delivery, All)
              == Select(Trace(s, a), Delivery, All) + Select(Trace(Exec(s, a), b), Delivery, All)
  {
    ExecConcat(s, a, b);
    DeliveredConcat(Trace(s, a), Trace(Exec(s, a), b));
  }

  lemma CallTraceDelivers(tr: seq<Event>, r: Option<Packet>)
    requires IsCallTrace(tr, r)
    ensures Select(tr, Delivery, All) == if r.Some? then [r.value] else []
  {
    NothingDelivered(tr[..|tr| - 1]);
  }

  lemma CallDelivers(s: Sched, now: nat)
    requires s.WellFormed()
    ensures var ins := Turns(Passes(s, now), now); var (t, r) := Dequeue(s, now);
            Exec(s, ins) == t && Select(Trace(s, ins), Delivery, All) == if r.Some? then [r.value] else []
  {
    DequeueIsRun(s, now);
    CallTraceDelivers(Trace(s, Turns(Passes(s, now), now)), Dequeue(s, now).1);
  }

  lemma OfferDelivers(s: Sched, f: FlowIndex, p: Packet)
    requires s.WellFormed()
    ensures Exec(s, [Arrive(f, p)]) == Enqueue(s, f, p) && Select(Trace(s, [Arrive(f, p)]), Delivery, All) == []
  {
    assert [Arrive(f, p)][..0] == [];
    NothingDelivered(Trace(s, [Arrive(f, p)]));
  }

  /** Whatever holds of all runs of arrivals and loop passes holds of all sequences of calls: the calls reach
      the same state, and return the packets that the run delivers. */
  lemma {:induction false} CallsAreRuns(s: Sched, calls: seq<Call>)
    requires s.WellFormed()
    ensures Exec(s, Inputs(s, calls)) == ExecCalls(s, calls)
    ensures Select(Trace(s, Inputs(s, calls)), Delivery, All) == Returned(s, calls)
  {
    if calls != [] {
      var before := calls[..|calls| - 1];
      CallsAreRuns(s, before);
      var t := ExecCalls(s, before);
      match calls[|calls| - 1]
      case Offer(f, p) =>
        RunThen(s, Inputs(s, before), [Arrive(f, p)]);
        OfferDelivers(t, f, p);
      case Poll(now) =>
        RunThen(s, Inputs(s, before), Turns(Passes(t, now), now));
        CallDelivers(t, now);
    }
  }

  /** Work conservation of the whole object: after any calls, a poll returns a packet exactly when one is queued. */
  lemma WorkConservation(calls: seq<Call>, now: nat)
    ensures var s := ExecCalls(Init(), calls);
            Inv(s) && (Dequeue(s, now).1.Some? <==> Backlogged(s))
  {
    InitInv();
    RunInv(Init(), Inputs(Init(), calls));
    CallsAreRuns(Init(), calls);
    DequeueServesIffBacklogged(ExecCalls(Init(), calls), now);
  }
}
