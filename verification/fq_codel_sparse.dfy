/** The list of new flows: what it gives a sparse flow, and what a flow that keeps emptying can make of it. */
module FqCodelSparse {
  import opened Packets
  import opened FqCodel
  import opened FqCodelSafety

  /** The pass that finds a flow with a single packet and credit at the front hands the packet out: with nothing
      left behind it CoDel cannot drop it. */
  lemma LonePacketIsServed(s: Sched, now: nat, p: Packet)
    requires s.WellFormed() && !s.Unlisted()
    requires var q := s.flows[s.Front()]; q.packets == [p] && q.totalBytes == p.size && q.deficit > 0
    ensures var f := s.Front(); var (t, r) := Dequeue(s, now);
            && r == Some(p) && t.newFlows == s.newFlows && t.oldFlows == s.oldFlows
            && t.flows[f].packets == [] && t.flows[f].totalBytes == 0
            && forall g: FlowIndex | g != f :: t.flows[g] == s.flows[g]
  {
  }

  /** A packet that arrives at an idle flow while no other flow is new is the next one handed out, however much
      is queued in the old flows. */
  lemma SparseFlowGoesFirst(s: Sched, f: FlowIndex, p: Packet, now: nat)
    requires Inv(s) && s.flows[f].packets == [] && s.newFlows == []
    ensures Dequeue(Enqueue(s, f, p), now).1 == Some(p)
  {
    LonePacketIsServed(Enqueue(s, f, p), now, p);
  }

  /** One poll at each of the given times, and after each an arrival at flow `g`. */
  function Refills(g: FlowIndex, p: Packet, nows: seq<nat>): seq<Call>
  {
    if nows == [] then [] else Refills(g, p, nows[..|nows| - 1]) + [Poll(nows[|nows| - 1]), Offer(g, p)]
  }

  lemma RefillStep(s: Sched, before: seq<Call>, g: FlowIndex, p: Packet, now: nat)
    requires s.WellFormed()
    ensures var t := ExecCalls(s, before); var all := before + [Poll(now), Offer(g, p)];
            && ExecCalls(s, all) == Enqueue(Dequeue(t, now).0, g, p)
            && Returned(s, all)
                 == Returned(s, before) + if Dequeue(t, now).1.Some? then [Dequeue(t, now).1.value] else []
  {
    var poll := before + [Poll(now)];
    var all := before + [Poll(now), Offer(g, p)];
    assert all[..|all| - 1] == poll && poll[..|poll| - 1] == before;
    assert Returned(s, all) == Returned(s, poll) + [];
  }

  /** Flow `g` is in front of the new flows with one packet and credit. */
  predicate InFront(s: Sched, g: FlowIndex, p: Packet)
    requires s.WellFormed()
  {
    && s.newFlows != [] && s.newFlows[0] == g
    && s.flows[g].packets == [p] && s.flows[g].totalBytes == p.size && s.flows[g].deficit > 0
  }

  /** A flow in front of the new flows that is refilled each time it empties gets a fresh quantum each time and is
      never moved to the old flows: it is served by every poll and no other flow changes. */
  lemma {:induction false} RefilledFlowStarvesOthers(s: Sched, g: FlowIndex, p: Packet, nows: seq<nat>)
    requires s.WellFormed() && InFront(s, g, p)
    ensures var t := ExecCalls(s, Refills(g, p, nows));
            InFront(t, g, p) && forall f: FlowIndex | f != g :: t.flows[f] == s.flows[f]
    ensures Returned(s, Refills(g, p, nows)) == seq(|nows|, _ => p)
  {
    if nows != [] {
      var before, now := nows[..|nows| - 1], nows[|nows| - 1];
      RefilledFlowStarvesOthers(s, g, p, before);
      var t := ExecCalls(s, Refills(g, p, before));
      LonePacketIsServed(t, now, p);
      RefillStep(s, Refills(g, p, before), g, p, now);
    }
  }

  /** The starvation reached from the empty scheduler: two arrivals, then any number of polls, each followed by an
      arrival at the first flow. The second flow still holds its packet, and the first is about to be served again;
      so no bound on the wait can do without the number of revivals. */
  lemma StarvationFromEmpty(g: FlowIndex, p: Packet, f: FlowIndex, v: Packet, nows: seq<nat>, now: nat)
    requires f != g
    ensures var start := Enqueue(Enqueue(Init(), g, p), f, v);
            var t := ExecCalls(start, Refills(g, p, nows));
            && start == ExecCalls(Init(), [Offer(g, p), Offer(f, v)])
            && Returned(start, Refills(g, p, nows)) == seq(|nows|, _ => p)
            && t.flows[f].packets == [v] && Dequeue(t, now).1 == Some(p)
  {
    var two := [Offer(g, p), Offer(f, v)];
    assert two[..1] == [Offer(g, p)];
    assert ExecCalls(Init(), [Offer(g, p)]) == Enqueue(Init(), g, p) by { assert [Offer(g, p)][..0] == []; }
    var start := Enqueue(Enqueue(Init(), g, p), f, v);
    RefilledFlowStarvesOthers(start, g, p, nows);
    LonePacketIsServed(ExecCalls(start, Refills(g, p, nows)), now, p);
  }
}
