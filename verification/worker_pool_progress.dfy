/** What the dispatcher and the workers of the pool get done: when a dispatch is refused, what an uninterrupted one
    does, and that accepted packets can always be processed. */
module WorkerPoolProgress {
  import opened Packets
  import opened WorkerPool
  import Ring = RingProtocol
  import RingCalls

  lemma {:induction false} RunConcat(p: Pool, a: seq<Action>, b: seq<Action>)
    requires Inv(p)
    ensures Run(p, a + b) == Run(Run(p, a), b)
  {
    if b == [] {
      assert a + b == a;
    } else {
      assert (a + b)[..|a + b| - 1] == a + b[..|b| - 1];
      RunConcat(p, a, b[..|b| - 1]);
    }
  }

  lemma RunOne(p: Pool, a: Action)
    requires Inv(p)
    ensures Run(p, [a]) == Act(p, a) && Inv(Act(p, a))
  {
    ActInv(p, a);
    assert [a][..0] == [];
    assert Run(p, []) == p;
  }

  // ---- Refused dispatches ----

  /** A push that looks at a loaded head keeps looking at it until it steps itself. */
  lemma LoadOrSame(p: Pool, a: Action, w: nat)
    requires Inv(p) && w < p.Workers()
    ensures var p' := Act(p, a);
            p'.Workers() == p.Workers() &&
            (p'.rings[w].producer.HeadSeen? ==>
               p'.rings[w].producer == p.rings[w].producer
               || (a == Push(Ring.LoadHead) && p.busy == Some(w) && p.rings[w].producer.TailLoaded?))
  {
    if Enabled(p, a) && a.Pop? { PopStep(p.rings[a.worker], a.step); }
  }

  lemma RunStep(p: Pool, schedule: seq<Action>, a: Action)
    requires Inv(p)
    ensures Run(p, schedule + [a]) == Act(Run(p, schedule), a)
  {
    assert (schedule + [a])[..|schedule|] == schedule;
  }

  lemma IdleAtFirst(p: Pool, w: nat)
    requires Inv(p) && p.busy.None? && w < p.Workers()
    ensures Run(p, []).rings[w].producer.PushIdle?
  {
    assert WorkerInv(p, w);
  }

  /** The step at which a push loaded the head that it still looks at. */
  lemma {:induction false} LastLoad(p: Pool, schedule: seq<Action>, w: nat) returns (j: nat)
    requires Inv(p) && p.busy.None? && w < p.Workers() && Run(p, schedule).rings[w].producer.HeadSeen?
    ensures j < |schedule| && schedule[j] == Push(Ring.LoadHead)
    ensures var before := Run(p, schedule[..j]); before.busy == Some(w) && before.rings[w].producer.TailLoaded?
    ensures Act(Run(p, schedule[..j]), schedule[j]).rings[w].producer == Run(p, schedule).rings[w].producer
  {
    IdleAtFirst(p, w);
    var n := |schedule| - 1;
    var front := schedule[..n];
    assert schedule == front + [schedule[n]];
    RunStep(p, front, schedule[n]);
    LoadOrSame(Run(p, front), schedule[n], w);
    j := n;
    if Run(p, front).rings[w].producer == Run(p, schedule).rings[w].producer {
      j := LastLoad(p, front, w);
      assert front[..j] == schedule[..j];
    }
  }

  /** In every schedule: a dispatch is refused only if 1024 packets were in the ring of the packet's core when the
      push loaded that ring's head. */
  lemma RefusedDispatchMetFullRing(p: Pool, schedule: seq<Action>) returns (j: nat)
    requires Inv(p) && p.busy.None?
    requires Act(Run(p, schedule), Push(Ring.RejectPush)) != Run(p, schedule)
    ensures j < |schedule| && schedule[j] == Push(Ring.LoadHead)
    ensures var now, load := Run(p, schedule), Run(p, schedule[..j]);
            && now.busy.Some? && load.busy == now.busy
            && var w := now.busy.value;
               && now.rings[w].producer.HeadSeen? && now.core(now.rings[w].producer.item.tuple) == w
               && load.rings[w].producer.TailLoaded? && |load.rings[w].Queue()| == 1024
               && Act(load, schedule[j]).rings[w].producer == now.rings[w].producer
  {
    var now := Run(p, schedule);
    var w := now.busy.value;
    assert WorkerInv(now, w);
    j := LastLoad(p, schedule, w);
    var load := Run(p, schedule[..j]);
    assert Act(load, schedule[j]).rings[w] == Ring.Act(load.rings[w], Ring.LoadHead);
    Ring.VerdictsAreTrue(load.rings[w]);
  }

  // ---- Accepted packets can always be processed ----

  /** A step of the thread of worker `w`. */
  predicate IsOfWorker(a: Action, w: nat)
  {
    (a.Pop? || a.Count?) && a.worker == w
  }

  /** Nothing of another worker, and nothing of the dispatcher, differs. */
  ghost predicate OthersSame(p: Pool, p': Pool, w: nat)
    requires Shape(p) && Shape(p')
  {
    && p'.Workers() == p.Workers() && p'.core == p.core && p'.accepted == p.accepted && p'.busy == p.busy
    && forall v | 0 <= v < p.Workers() && v != w ::
         p'.rings[v] == p.rings[v] && p'.inHand[v] == p.inHand[v] && p'.processed[v] == p.processed[v]
  }

  /** The step that worker `w` takes next. */
  function NextStep(p: Pool, w: nat): Action
    requires p.Workers() == |p.inHand| && w < p.Workers()
  {
    if p.inHand[w].Some? then Count(w)
    else
      Pop(w, match p.rings[w].consumer
             case PopIdle => Ring.BeginPop
             case HeadLoaded(_) => Ring.LoadTail
             case TailSeen(_, _, _) => if Ring.SaysEmpty(p.rings[w]) then Ring.RejectPop else Ring.StartRead
             case Reading(_) => Ring.FinishRead
             case Read(_, _) => Ring.PublishHead)
  }

  /** How many steps the pop in progress may still take. */
  function StepsLeft(p: Pool, w: nat): nat
    requires w < p.Workers()
  {
    match p.rings[w].consumer
    case PopIdle => 5
    case HeadLoaded(_) => 4
    case TailSeen(_, _, _) => if Ring.SaysEmpty(p.rings[w]) then 6 else 3
    case Reading(_) => 2
    case Read(_, _) => 1
  }

  ghost predicate Idle(p: Pool, w: nat)
    requires Inv(p) && w < p.Workers()
  {
    p.inHand[w].None? && p.rings[w].Queue() == []
  }

  /** The next step of a worker that is not idle brings it closer: the queue shrinks, or the packet in hand is
      counted, or the pop comes nearer to its end. */
  lemma NextStepAdvances(p: Pool, w: nat)
    requires Inv(p) && w < p.Workers() && !Idle(p, w)
    ensures var p' := Act(p, NextStep(p, w));
            && Inv(p') && OthersSame(p, p', w)
            && (|p'.rings[w].Queue()| < |p.rings[w].Queue()|
                || (p'.rings[w].Queue() == p.rings[w].Queue()
                    && ((p.inHand[w].Some? && p'.inHand[w].None?)
                        || (p'.inHand[w] == p.inHand[w] && StepsLeft(p', w) < StepsLeft(p, w)))))
  {
    var a := NextStep(p, w);
    ActInv(p, a);
    assert Ring.Inv(p.rings[w]);
    if p.inHand[w].None? {
      Ring.VerdictsAreTrue(p.rings[w]);
      Ring.RefinesBoundedQueue(p.rings[w], a.step);
      Ring.SlotOfCount(|p.rings[w].popped|, p.rings[w].capacity);
    }
  }

  lemma {:induction false} DrainWorker(p: Pool, w: nat) returns (s: seq<Action>)
    requires Inv(p) && w < p.Workers()
    ensures forall i | 0 <= i < |s| :: IsOfWorker(s[i], w)
    ensures OthersSame(p, Run(p, s), w) && Idle(Run(p, s), w)
    decreases |p.rings[w].Queue()|, if p.inHand[w].Some? then 1 else 0, StepsLeft(p, w)
  {
    s := [];
    if !Idle(p, w) {
      var a := NextStep(p, w);
      NextStepAdvances(p, w);
      var rest := DrainWorker(Act(p, a), w);
      s := [a] + rest;
      RunOne(p, a);
      RunConcat(p, [a], rest);
    }
  }

  lemma {:induction false} DrainWorkers(p: Pool, n: nat) returns (s: seq<Action>)
    requires Inv(p) && n <= p.Workers()
    ensures forall i | 0 <= i < |s| :: s[i].Pop? || s[i].Count?
    ensures var p' := Run(p, s);
            && p'.accepted == p.accepted && p'.busy == p.busy
            && forall w | 0 <= w < n :: Idle(p', w)
  {
    s := [];
    if n > 0 {
      var first := DrainWorkers(p, n - 1);
      var last := DrainWorker(Run(p, first), n - 1);
      s := first + last;
      RunConcat(p, first, last);
      forall w | 0 <= w < n ensures Idle(Run(p, s), w) {
        assert w < n - 1 ==> Idle(Run(p, first), w);
      }
    }
  }

  /** From every reachable state some steps of the workers alone leave every accepted packet processed, by the worker
      of its core and in the order of acceptance. */
  lemma AcceptedCanBeProcessed(p: Pool) returns (s: seq<Action>)
    requires Inv(p)
    ensures forall i | 0 <= i < |s| :: s[i].Pop? || s[i].Count?
    ensures var p' := Run(p, s);
            && p'.accepted == p.accepted
            && forall w | 0 <= w < p.Workers() :: p'.processed[w] == Keep(ToCore(p.core, w), p.accepted)
  {
    s := DrainWorkers(p, p.Workers());
    var p' := Run(p, s);
    forall w | 0 <= w < p.Workers() ensures p'.processed[w] == Keep(ToCore(p.core, w), p.accepted) {
      assert Idle(p', w);
      PassedIsPushed(p', w);
    }
  }

  // ---- An uninterrupted dispatch ----

  lemma PushStepIs(p: Pool, w: nat, s: Ring.Action<Packet>)
    requires Inv(p) && p.busy == Some(w) && IsPushStep(s) && !s.PublishTail? && !s.RejectPush?
    ensures Act(p, Push(s)) == p.(rings := p.rings[w := Ring.Act(p.rings[w], s)])
  {
  }

  /** One more push step of a dispatch in progress. */
  lemma PushNext(p: Pool, schedule: seq<Action>, w: nat, s: Ring.Action<Packet>)
    requires Inv(p) && Run(p, schedule).busy == Some(w) && IsPushStep(s) && !s.PublishTail? && !s.RejectPush?
    ensures var q := Run(p, schedule);
            Run(p, schedule + [Push(s)]) == q.(rings := q.rings[w := Ring.Act(q.rings[w], s)])
  {
    RunStep(p, schedule, Push(s));
    PushStepIs(Run(p, schedule), w, s);
  }

  lemma DispatchStarts(p: Pool, x: Packet)
    requires Inv(p) && p.busy.None? && p.core(x.tuple) < p.Workers()
    ensures var w := p.core(x.tuple);
            Run(p, [Dispatch(x)])
              == p.(rings := p.rings[w := Ring.Act(p.rings[w], Ring.BeginPush(x))], busy := Some(w))
  {
    RunOne(p, Dispatch(x));
  }

  lemma DispatchLoads(p: Pool, x: Packet)
    requires Inv(p) && p.busy.None? && p.core(x.tuple) < p.Workers()
    ensures var w := p.core(x.tuple);
            Run(p, [Dispatch(x), Push(Ring.LoadHead)])
              == p.(rings := p.rings[w := Ring.Act(Ring.Act(p.rings[w], Ring.BeginPush(x)), Ring.LoadHead)],
                    busy := Some(w))
  {
    var w := p.core(x.tuple);
    DispatchStarts(p, x);
    PushNext(p, [Dispatch(x)], w, Ring.LoadHead);
    assert [Dispatch(x), Push(Ring.LoadHead)] == [Dispatch(x)] + [Push(Ring.LoadHead)];
  }

  lemma DispatchWrites(p: Pool, x: Packet, torn: Packet)
    requires Inv(p) && p.busy.None? && p.core(x.tuple) < p.Workers()
    ensures var w := p.core(x.tuple);
            var seen := Ring.Act(Ring.Act(p.rings[w], Ring.BeginPush(x)), Ring.LoadHead);
            Run(p, [Dispatch(x), Push(Ring.LoadHead), Push(Ring.StartWrite(torn)), Push(Ring.FinishWrite)])
              == p.(rings := p.rings[w := Ring.Act(Ring.Act(seen, Ring.StartWrite(torn)), Ring.FinishWrite)],
                    busy := Some(w))
  {
    var w := p.core(x.tuple);
    DispatchLoads(p, x);
    var two := [Dispatch(x), Push(Ring.LoadHead)];
    PushNext(p, two, w, Ring.StartWrite(torn));
    var three := two + [Push(Ring.StartWrite(torn))];
    PushNext(p, three, w, Ring.FinishWrite);
    assert [Dispatch(x), Push(Ring.LoadHead), Push(Ring.StartWrite(torn)), Push(Ring.FinishWrite)]
        == three + [Push(Ring.FinishWrite)];
  }

  lemma DispatchRefused(p: Pool, x: Packet)
    requires Inv(p) && p.busy.None? && p.core(x.tuple) < p.Workers()
    requires |p.rings[p.core(x.tuple)].Queue()| == 1024
    ensures Run(p, [Dispatch(x), Push(Ring.LoadHead), Push(Ring.RejectPush)]) == p
  {
    var w := p.core(x.tuple);
    assert WorkerInv(p, w) && Ring.Inv(p.rings[w]);
    RingCalls.PushCall(p.rings[w], x, x);
    RingCalls.ThreeSteps(p.rings[w], Ring.BeginPush(x), Ring.LoadHead, Ring.RejectPush);
    DispatchLoads(p, x);
    RunStep(p, [Dispatch(x), Push(Ring.LoadHead)], Push(Ring.RejectPush));
    assert [Dispatch(x), Push(Ring.LoadHead), Push(Ring.RejectPush)]
        == [Dispatch(x), Push(Ring.LoadHead)] + [Push(Ring.RejectPush)];
  }

  /** A dispatch that is not interrupted puts its packet at the end of the ring of its core and accepts it, if fewer
      than 1024 packets are there; otherwise it changes nothing. */
  lemma DispatchCall(p: Pool, x: Packet, torn: Packet)
    requires Inv(p) && p.busy.None? && p.core(x.tuple) < p.Workers()
    ensures var w := p.core(x.tuple);
            if |p.rings[w].Queue()| < 1024 then
              var p' := Run(p, [Dispatch(x), Push(Ring.LoadHead), Push(Ring.StartWrite(torn)), Push(Ring.FinishWrite),
                                Push(Ring.PublishTail)]);
              && p'.accepted == p.accepted + [x] && p'.busy == None
              && p'.inHand == p.inHand && p'.processed == p.processed && p'.totalBytes == p.totalBytes
              && forall v | 0 <= v < p.Workers() ::
                   p'.rings[v].Queue() == p.rings[v].Queue() + if v == w then [x] else []
            else Run(p, [Dispatch(x), Push(Ring.LoadHead), Push(Ring.RejectPush)]) == p
  {
    var w := p.core(x.tuple);
    var r := p.rings[w];
    assert WorkerInv(p, w) && Ring.Inv(r);
    if |r.Queue()| < 1024 {
      var four := [Dispatch(x), Push(Ring.LoadHead), Push(Ring.StartWrite(torn)), Push(Ring.FinishWrite)];
      DispatchWrites(p, x, torn);
      RingCalls.PushWrites(r, x, torn);
      RunStep(p, four, Push(Ring.PublishTail));
      var written := Run(p, four).rings[w];
      Ring.RefinesBoundedQueue(written, Ring.PublishTail);
      assert [Dispatch(x), Push(Ring.LoadHead), Push(Ring.StartWrite(torn)), Push(Ring.FinishWrite),
              Push(Ring.PublishTail)] == four + [Push(Ring.PublishTail)];
    } else {
      DispatchRefused(p, x);
    }
  }
}
