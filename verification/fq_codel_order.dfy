/** Order and conservation: what arrives at a flow leaves it in the same order, delivered or dropped, or is
    still queued. */
module FqCodelOrder {
  import opened Packets
  import opened FqCodel
  import opened FqCodelSafety

  /** One step of a run, split off the end: the trace grows by one event. */
  lemma LastStep(s: Sched, ins: seq<Input>)
    requires s.WellFormed() && ins != []
    ensures var before := ins[..|ins| - 1]; var (t, e) := Step(Exec(s, before), ins[|ins| - 1]);
            && Exec(s, ins) == t
            && Trace(s, ins) != [] && Trace(s, ins)[..|ins| - 1] == Trace(s, before) && Trace(s, ins)[|ins| - 1] == e
  {
  }

  function Picked(e: Event, k: Kind, w: Which): seq<Packet>
  {
    if IsKind(e, k) && IsOf(e, w) then [e.packet] else []
  }

  lemma SelectStep(s: Sched, ins: seq<Input>, k: Kind, w: Which)
    requires s.WellFormed() && ins != []
    ensures var before := ins[..|ins| - 1]; var e := Step(Exec(s, before), ins[|ins| - 1]).1;
            Select(Trace(s, ins), k, w) == Select(Trace(s, before), k, w) + Picked(e, k, w)
  {
    LastStep(s, ins);
  }

  lemma StepOrder(s: Sched, i: Input, f: FlowIndex)
    requires s.WellFormed()
    ensures var (t, e) := Step(s, i);
            s.flows[f].packets + Picked(e, Arrival, OfFlow(f)) == Picked(e, Departure, OfFlow(f)) + t.flows[f].packets
  {
    var (t, e) := Step(s, i);
    if e.Removed? && e.flow == f {
      assert s.flows[f].packets == [e.packet] + t.flows[f].packets;
    }
  }

  /** Per flow: queued first + arrived == departed + queued now, as sequences. */
  lemma {:induction false} FlowOrder(s: Sched, ins: seq<Input>, f: FlowIndex)
    requires s.WellFormed()
    ensures var tr := Trace(s, ins);
            s.flows[f].packets + Select(tr, Arrival, OfFlow(f))
              == Select(tr, Departure, OfFlow(f)) + Exec(s, ins).flows[f].packets
  {
    if ins != [] {
      var before := ins[..|ins| - 1];
      FlowOrder(s, before, f);
      SelectStep(s, ins, Arrival, OfFlow(f));
      SelectStep(s, ins, Departure, OfFlow(f));
      var t, i, tr := Exec(s, before), ins[|ins| - 1], Trace(s, before);
      StepOrder(t, i, f);
      var (t', e) := Step(t, i);
      Splice(s.flows[f].packets, Select(tr, Arrival, OfFlow(f)), Select(tr, Departure, OfFlow(f)), t.flows[f].packets,
             Picked(e, Arrival, OfFlow(f)), Picked(e, Departure, OfFlow(f)), t'.flows[f].packets);
    }
  }

  lemma {:induction false} DeliveriesWithinDepartures(tr: seq<Event>, w: Which)
    ensures Subsequence(Select(tr, Delivery, w), Select(tr, Departure, w))
  {
    if tr != [] {
      var tr' := tr[..|tr| - 1];
      DeliveriesWithinDepartures(tr', w);
      var a, b := Select(tr', Delivery, w), Select(tr', Departure, w);
      var e := tr[|tr| - 1];
      if IsKind(e, Departure) && IsOf(e, w) {
        assert (b + [e.packet])[..|b|] == b;
        assert (a + [e.packet])[..|a|] == a;
        assert a + [] == a;
      } else {
        assert a + [] == a && b + [] == b;
      }
    }
  }

  // ---- Per 5-tuple ----

  function Only(ps: seq<Packet>, t: FiveTuple): seq<Packet>
  {
    if ps == [] then [] else
      Only(ps[..|ps| - 1], t) + if ps[|ps| - 1].tuple == t then [ps[|ps| - 1]] else []
  }

  lemma {:induction false} OnlyConcat(a: seq<Packet>, b: seq<Packet>, t: FiveTuple)
    ensures Only(a + b, t) == Only(a, t) + Only(b, t)
  {
    if b == [] {
      assert a + b == a;
    } else {
      assert (a + b)[..|a + b| - 1] == a + b[..|b| - 1];
      OnlyConcat(a, b[..|b| - 1], t);
    }
  }

  /** The inputs come from a scheduler that picks a packet's flow by hashing its 5-tuple. */
  ghost predicate Hashed(ins: seq<Input>, hash: FiveTuple -> FlowIndex)
  {
    forall i :: 0 <= i < |ins| && ins[i].Arrive? ==> ins[i].flow == hash(ins[i].packet.tuple)
  }

  ghost predicate InPlace(s: Sched, hash: FiveTuple -> FlowIndex)
    requires s.WellFormed()
  {
    forall f: FlowIndex, i | 0 <= i < |s.flows[f].packets| :: hash(s.flows[f].packets[i].tuple) == f
  }

  lemma {:induction false} SelectByFlow(s: Sched, ins: seq<Input>, hash: FiveTuple -> FlowIndex, k: Kind, t: FiveTuple)
    requires s.WellFormed() && InPlace(s, hash) && Hashed(ins, hash)
    ensures InPlace(Exec(s, ins), hash)
    ensures var tr := Trace(s, ins); Select(tr, k, OfTuple(t)) == Only(Select(tr, k, OfFlow(hash(t))), t)
  {
    if ins != [] {
      var before := ins[..|ins| - 1];
      SelectByFlow(s, before, hash, k, t);
      LastStep(s, ins);
      var u := Exec(s, before);
      StepInPlace(u, ins[|ins| - 1], hash);
      var e := Step(u, ins[|ins| - 1]).1;
      if IsKind(e, k) {
        var a := Select(Trace(s, before), k, OfFlow(hash(t)));
        assert (a + [e.packet])[..|a|] == a;
        assert a + [] == a && Only(a, t) + [] == Only(a, t);
      } else {
        assert Select(Trace(s, before), k, OfFlow(hash(t))) + [] == Select(Trace(s, before), k, OfFlow(hash(t)));
      }
    }
  }

  lemma StepInPlace(s: Sched, i: Input, hash: FiveTuple -> FlowIndex)
    requires s.WellFormed() && InPlace(s, hash)
    requires i.Arrive? ==> i.flow == hash(i.packet.tuple)
    ensures var (t, e) := Step(s, i);
            InPlace(t, hash) && (e.Removed? || e.Enqueued? ==> hash(e.packet.tuple) == e.flow)
  {
    var (t, e) := Step(s, i);
    forall f: FlowIndex, j | 0 <= j < |t.flows[f].packets| ensures hash(t.flows[f].packets[j].tuple) == f {
      if e.Removed? && e.flow == f {
        assert t.flows[f].packets[j] == s.flows[f].packets[j + 1];
      } else if e.Enqueued? && e.flow == f && j == |s.flows[f].packets| {
      } else {
        assert t.flows[f].packets[j] == s.flows[f].packets[j];
      }
    }
  }

  /** Per connection 5-tuple, from the empty scheduler: arrivals are departures followed by what is queued, and
      the deliveries are the arrivals, in their order, minus some. */
  lemma DeliveryOrder(ins: seq<Input>, hash: FiveTuple -> FlowIndex, t: FiveTuple)
    requires Hashed(ins, hash)
    ensures var tr := Trace(Init(), ins); var queue := Exec(Init(), ins).flows[hash(t)].packets;
            && Select(tr, Arrival, OfTuple(t)) == Select(tr, Departure, OfTuple(t)) + Only(queue, t)
            && Subsequence(Select(tr, Delivery, OfTuple(t)), Select(tr, Arrival, OfTuple(t)))
  {
    var tr, f := Trace(Init(), ins), hash(t);
    var queue := Exec(Init(), ins).flows[f].packets;
    FlowOrder(Init(), ins, f);
    assert Init().flows[f].packets + Select(tr, Arrival, OfFlow(f)) == Select(tr, Arrival, OfFlow(f));
    SelectByFlow(Init(), ins, hash, Arrival, t);
    SelectByFlow(Init(), ins, hash, Departure, t);
    OnlyConcat(Select(tr, Departure, OfFlow(f)), queue, t);
    DeliveriesWithinDepartures(tr, OfTuple(t));
    SubsequenceExtends(Select(tr, Delivery, OfTuple(t)), Select(tr, Departure, OfTuple(t)), Only(queue, t));
  }

  // ---- Conservation over all flows ----

  lemma StepConserves(s: Sched, i: Input)
    requires s.WellFormed()
    ensures var (t, e) := Step(s, i);
            && Total(s.flows, Backlog) + |Picked(e, Arrival, All)|
                 == |Picked(e, Delivery, All)| + |Picked(e, Drop, All)| + Total(t.flows, Backlog)
            && t.totalDrops == s.totalDrops + |Picked(e, Drop, All)|
  {
    var (t, e) := Step(s, i);
    if e.Enqueued? || e.Removed? || e.Rotated? {
      TotalUpdate(s.flows, e.flow, t.flows[e.flow], Backlog);
    }
  }

  lemma {:induction false} RunConserves(s: Sched, ins: seq<Input>)
    requires s.WellFormed()
    ensures var tr := Trace(s, ins); var t := Exec(s, ins);
            && Total(s.flows, Backlog) + |Select(tr, Arrival, All)|
                 == |Select(tr, Delivery, All)| + |Select(tr, Drop, All)| + Total(t.flows, Backlog)
            && t.totalDrops == s.totalDrops + |Select(tr, Drop, All)|
  {
    if ins != [] {
      var before := ins[..|ins| - 1];
      RunConserves(s, before);
      SelectStep(s, ins, Arrival, All);
      SelectStep(s, ins, Delivery, All);
      SelectStep(s, ins, Drop, All);
      StepConserves(Exec(s, before), ins[|ins| - 1]);
    }
  }

  /** No packet is lost or made up: first queued + arrived == delivered + dropped + still queued, and the drop
      counters count the drops. */
  lemma Conservation(s: Sched, ins: seq<Input>)
    requires Inv(s)
    ensures var tr := Trace(s, ins); var t := Exec(s, ins);
            && Total(s.flows, Backlog) + |Select(tr, Arrival, All)|
                 == |Select(tr, Delivery, All)| + |Select(tr, Drop, All)| + Total(t.flows, Backlog)
            && t.totalDrops == s.totalDrops + |Select(tr, Drop, All)|
            && t.totalDrops == Total(t.flows, Drops)
  {
    RunConserves(s, ins);
    RunInv(s, ins);
  }
}
