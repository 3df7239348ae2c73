/** The SmartQoS scheduler as the object that src/qos/smart_scheduler.cpp updates in place. */
module SmartQosClass {
  import opened Packets
  import opened SmartQos

  class SmartQoSScheduler {
    const queues: array<seq<Packet>>
    const deficits: array<int>
    const stats: array<Stats>

    ghost predicate Valid()
    {
      queues.Length == deficits.Length == stats.Length == NUM_QUEUES
    }

    ghost function State(): (q: Qos)
      reads queues, deficits, stats
      requires Valid()
      ensures q.WellFormed()
    {
      Qos(queues[..], deficits[..], stats[..])
    }

    constructor ()
      ensures Valid() && State() == SmartQos.Init() && Inv(State())
      ensures fresh(queues) && fresh(deficits) && fresh(stats)
    {
      queues := new seq<Packet>[NUM_QUEUES](_ => []);
      deficits := new int[NUM_QUEUES](_ => 0);
      stats := new Stats[NUM_QUEUES](_ => Stats(0, 0, 0, 0));
      new;
      assert State() == SmartQos.Init();
    }

    method Enqueue(p: Packet) returns (ok: bool)
      requires Valid()
      modifies queues, stats
      ensures (State(), ok) == SmartQos.Enqueue(old(State()), p)
      ensures var c := if p.trafficClass < 5 then p.trafficClass else 3;
              && (ok <==> |old(queues[c])| < 256)
              && queues[..] == if ok then old(queues[..])[c := old(queues[c]) + [p]] else old(queues[..])
      ensures old(Inv(State())) ==> Inv(State())
    {
      ghost var before := State();
      if Inv(before) { StepInv(before, Offer(p)); }
      var i := QueueIndex(p);
      if |queues[i]| >= QUEUE_DEPTH {
        stats[i] := stats[i].(dropped := stats[i].dropped + 1);
        return false;
      }
      queues[i] := queues[i] + [p];
      stats[i] := stats[i].(enqueued := stats[i].enqueued + 1, occupancy := |queues[i]|);
      return true;
    }

    /** Removes the head packet of class `i` and updates the counters. */
    method PopHead(i: nat) returns (p: Packet)
      requires Valid() && i < NUM_QUEUES && queues[i] != []
      modifies queues, stats
      ensures State() == TakeHead(old(State()), i) && p == old(queues[i][0])
    {
      p := queues[i][0];
      queues[i] := queues[i][1..];
      stats[i] := stats[i].(dequeued := stats[i].dequeued + 1, occupancy := |queues[i]|);
    }

    /** Credits class `i` and lets it send if the credit suffices. */
    method TryClass(i: nat) returns (r: Option<Packet>)
      requires Valid() && 1 <= i < NUM_QUEUES
      modifies queues, deficits, stats
      ensures var q := old(State());
              if q.Ready(i) then State() == Serve(q, i) && r == Some(q.queues[i][0])
              else State() == PassOver(q, i) && r == None
    {
      ghost var q := State();
      deficits[i] := AddCredit(deficits[i], Weight(i));
      if queues[i] != [] && deficits[i] >= queues[i][0].size {
        var p := PopHead(i);
        deficits[i] := deficits[i] - p.size;
        assert State() == Serve(q, i);
        return Some(p);
      }
      if queues[i] == [] {
        deficits[i] := 0;
      }
      assert State() == PassOver(q, i);
      return None;
    }

    method DequeuePacket() returns (r: Option<Packet>)
      requires Valid()
      modifies queues, deficits, stats
      ensures var (t, out) := Dequeue(old(State())); State() == t && r == if out.Sent? then Some(out.packet) else None
      ensures old(Inv(State())) ==> Inv(State())
    {
      ghost var before := State();
      if Inv(before) { StepInv(before, Poll); }
      if queues[0] != [] {
        var p := PopHead(0);
        return Some(p);
      }
      for i := 1 to NUM_QUEUES
        invariant ServeFrom(State(), i) == Dequeue(before)
      {
        r := TryClass(i);
        if r.Some? {
          return r;
        }
      }
      return None;
    }
  }
}
