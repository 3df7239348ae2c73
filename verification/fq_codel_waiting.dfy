/** How long a backlogged flow can be kept waiting by the other entries of the two lists. */
module FqCodelWaiting {
  import opened Packets
  import opened FqCodel
  import opened FqCodelSafety
  import opened FqCodelOrder
  import opened FqCodelFairness

  /** The first position of `f` in a list; its length if `f` is not there. */
  function Position(list: seq<FlowIndex>, f: FlowIndex): (p: nat)
    ensures p <= |list| && (p < |list| <==> f in list)
    ensures p < |list| ==> list[p] == f
    ensures forall i :: 0 <= i < p ==> list[i] != f
  {
    if list == [] || list[0] == f then 0 else 1 + Position(list[1..], f)
  }

  lemma PositionIs(list: seq<FlowIndex>, f: FlowIndex, p: nat)
    requires p < |list| && list[p] == f && forall i :: 0 <= i < p ==> list[i] != f
    ensures Position(list, f) == p
  {
    var q := Position(list, f);
    assert !(q < p) && !(p < q);
  }

  /** The list entries in the order the dequeue loop comes to them. */
  function Entries(s: Sched): seq<FlowIndex>
  {
    s.newFlows + s.oldFlows
  }

  /** The most that one visit of a list entry can take. */
  function VisitBytes(m: nat): nat
    requires m >= 1
  {
    QUANTUM + m - 1
  }

  /** How often a flow must be rotated before its deficit is positive. */
  function RoundsOwed(deficit: int): nat
  {
    if deficit > 0 then 0 else (-deficit) / QUANTUM + 1
  }

  /** The most rotations a flow can owe when no packet exceeds `m` bytes; 1 when none exceeds the quantum. */
  function MaxRounds(m: nat): nat
    requires m >= 1
  {
    RoundsOwed(1 - m)
  }

  /** What the visit in progress at the front may still take. */
  function FrontBudget(s: Sched, m: nat): nat
    requires s.WellFormed() && Entries(s) != [] && m >= 1
  {
    var q := s.flows[Entries(s)[0]];
    if q.packets == [] || q.deficit <= 0 then 0 else q.deficit + m - 1
  }

  /** Visits of `v` bytes to the `p` entries ahead (the first one partly done), and to `n` others in each of the
      rounds a flow still owes. */
  function VisitsAhead(p: nat, n: nat, rounds: nat, front: nat, v: nat): nat
  {
    (if p == 0 then 0 else front + (p - 1) * v) + rounds * (n * v)
  }

  /** A bound on the bytes other entries can still take before a packet of `f` is taken, if no flow is revived. */
  function WaitBytes(s: Sched, f: FlowIndex, m: nat): nat
    requires s.WellFormed() && f in Entries(s) && m >= 1
  {
    VisitsAhead(Position(Entries(s), f), |Entries(s)| - 1, RoundsOwed(s.flows[f].deficit), FrontBudget(s, m),
                VisitBytes(m))
  }

  /** No packet of `f` is taken during the run. */
  ghost predicate Unserved(s: Sched, ins: seq<Input>, f: FlowIndex)
    requires s.WellFormed()
  {
    ins == [] ||
    (var before := ins[..|ins| - 1];
     var e := Step(Exec(s, before), ins[|ins| - 1]).1;
     Unserved(s, before, f) && !(e.Removed? && e.flow == f))
  }

  /** An arrival at a flow without packets: it is given a quantum and a new entry. */
  predicate Revives(s: Sched, i: Input)
    requires s.WellFormed()
  {
    i.Arrive? && s.flows[i.flow].packets == []
  }

  function Revivals(s: Sched, ins: seq<Input>): nat
    requires s.WellFormed()
  {
    if ins == [] then 0 else
      var before := ins[..|ins| - 1];
      Revivals(s, before) + if Revives(Exec(s, before), ins[|ins| - 1]) then 1 else 0
  }

  /** What one revival can add to the wait: a fresh quantum for the entry in front, a new entry ahead, and that
      entry again in every round owed. */
  function RevivalBytes(m: nat): nat
    requires m >= 1
  {
    (2 + MaxRounds(m)) * VisitBytes(m)
  }

  /** The sum of that over the revivals of a run. */
  function RevivalAllowance(s: Sched, ins: seq<Input>, m: nat): nat
    requires s.WellFormed() && m >= 1
  {
    if ins == [] then 0 else
      var before := ins[..|ins| - 1];
      RevivalAllowance(s, before, m) + if Revives(Exec(s, before), ins[|ins| - 1]) then RevivalBytes(m) else 0
  }

  ghost predicate Waiting(s: Sched, f: FlowIndex, m: nat)
  {
    s.WellFormed() && Within(s, m) && m >= 1 && f in Entries(s) && s.flows[f].packets != []
  }

  lemma Scale(a: nat, b: nat, v: nat)
    requires a <= b
    ensures a * v <= b * v
  {
    assert (b - a) * v >= 0;
  }

  lemma Distribute(a: nat, b: nat, v: nat)
    ensures (a + b) * v == a * v + b * v
  {
  }

  lemma RotationPaysOneRound(deficit: int)
    requires deficit <= 0
    ensures RoundsOwed(deficit + QUANTUM) == RoundsOwed(deficit) - 1
  {
  }

  lemma RoundsAtMost(deficit: int, m: nat)
    requires m >= 1 && deficit >= 1 - m
    ensures RoundsOwed(deficit) <= MaxRounds(m)
  {
  }

  lemma ScaleRounds(rounds: nat, a: nat, b: nat, v: nat)
    requires a <= b
    ensures rounds * (a * v) <= rounds * (b * v)
  {
    Scale(a, b, v);
    assert rounds * (b * v - a * v) >= 0;
  }

  lemma OneVisitLess(p: nat, n: nat, n': nat, rounds: nat, front: nat, front': nat, v: nat)
    requires p >= 1 && n' <= n && front' <= v
    ensures VisitsAhead(p - 1, n', rounds, front', v) <= VisitsAhead(p, n, rounds, front, v)
  {
    ScaleRounds(rounds, n', n, v);
    if p > 1 {
      Distribute(p - 2, 1, v);
    }
  }

  lemma OneRoundLess(p: nat, n: nat, rounds: nat, front: nat, front': nat, v: nat)
    requires p <= n && rounds >= 1 && front' <= v
    ensures VisitsAhead(p, n, rounds - 1, front', v) <= VisitsAhead(0, n, rounds, front, v)
  {
    Distribute(rounds - 1, 1, n * v);
    Scale(p, n, v);
    if p > 0 {
      Distribute(p - 1, 1, v);
    }
  }

  lemma OneEntryMore(p: nat, p': nat, n: nat, rounds: nat, maxRounds: nat, front: nat, front': nat, v: nat)
    requires p <= p' <= p + 1 && rounds <= maxRounds && front' <= v
    ensures VisitsAhead(p', n + 1, rounds, front', v) <= VisitsAhead(p, n, rounds, front, v) + (2 + maxRounds) * v
  {
    OneMoreInEachRound(n, rounds, v);
    Scale(rounds, maxRounds, v);
    Distribute(2, maxRounds, v);
    if p > 0 {
      Distribute(p - 1, 1, v);
    }
  }

  lemma OneMoreInEachRound(n: nat, rounds: nat, v: nat)
    ensures rounds * ((n + 1) * v) == rounds * (n * v) + rounds * v
  {
    Distribute(n, 1, v);
  }

  lemma FrontBudgetAtMost(s: Sched, m: nat)
    requires s.WellFormed() && Within(s, m) && Entries(s) != [] && m >= 1
    ensures FrontBudget(s, m) <= VisitBytes(m)
  {
    assert s.flows[Entries(s)[0]].deficit <= QUANTUM;
  }

  /** How one step changes the entries. */
  lemma StepEntries(s: Sched, i: Input)
    requires s.WellFormed()
    ensures var (t, e) := Step(s, i); var es := Entries(s);
            match e
            case Skipped(g) => es != [] && es[0] == g && Entries(t) == es[1..]
            case Rotated(g) => es != [] && es[0] == g && Entries(t) == es[1..] + [g]
            case Removed(g, _, _, _, _) => es != [] && es[0] == g && Entries(t) == es
            case Exhausted => t == s
            case Enqueued(g, _) => Entries(t) == if Revives(s, i) then s.newFlows + [g] + s.oldFlows else es
  {
    var (t, e) := Step(s, i);
    if !s.Unlisted() {
      assert s.Front() == Entries(s)[0];
      assert Entries(s.PopFront()) == Entries(s)[1..];
      if e.Rotated? {
        assert Entries(t) == Entries(s.PopFront()) + [e.flow];
      }
    }
    if e.Enqueued? && Revives(s, i) {
      assert Entries(t) == s.newFlows + [e.flow] + s.oldFlows;
    }
  }

  lemma PopWait(s: Sched, t: Sched, f: FlowIndex, m: nat)
    requires Waiting(s, f, m) && Waiting(t, f, m) && Entries(s)[0] != f
    requires |Entries(s)| - 1 <= |Entries(t)| <= |Entries(s)|
    requires Entries(t)[..|Entries(s)| - 1] == Entries(s)[1..]
    requires t.flows[f].deficit == s.flows[f].deficit
    ensures WaitBytes(t, f, m) <= WaitBytes(s, f, m)
  {
    var a, b, p := Entries(s), Entries(t), Position(Entries(s), f);
    forall i | 0 <= i < |a| - 1 ensures b[i] == a[i + 1] {
      assert b[i] == b[..|a| - 1][i];
    }
    PositionIs(b, f, p - 1);
    FrontBudgetAtMost(t, m);
    OneVisitLess(p, |a| - 1, |b| - 1, RoundsOwed(s.flows[f].deficit), FrontBudget(s, m), FrontBudget(t, m),
                 VisitBytes(m));
  }

  lemma OwnRotationWait(s: Sched, t: Sched, f: FlowIndex, m: nat)
    requires Waiting(s, f, m) && Waiting(t, f, m) && Entries(s)[0] == f && s.flows[f].deficit <= 0
    requires Entries(t) == Entries(s)[1..] + [f] && t.flows[f].deficit == s.flows[f].deficit + QUANTUM
    ensures WaitBytes(t, f, m) <= WaitBytes(s, f, m)
  {
    PositionIs(Entries(s), f, 0);
    RotationPaysOneRound(s.flows[f].deficit);
    FrontBudgetAtMost(t, m);
    OneRoundLess(Position(Entries(t), f), |Entries(s)| - 1, RoundsOwed(s.flows[f].deficit), FrontBudget(s, m),
                 FrontBudget(t, m), VisitBytes(m));
  }

  lemma RevivalWait(s: Sched, i: Input, f: FlowIndex, m: nat)
    requires Waiting(s, f, m) && Revives(s, i) && i.packet.size <= m
    ensures var t := Step(s, i).0; Waiting(t, f, m) && WaitBytes(t, f, m) <= WaitBytes(s, f, m) + RevivalBytes(m)
  {
    var t := Step(s, i).0;
    var a, b, k, p := Entries(s), Entries(t), |s.newFlows|, Position(Entries(s), f);
    StepWithin(s, i, m);
    StepEntries(s, i);
    forall j | 0 <= j < |b| ensures b[j] == if j < k then a[j] else if j == k then i.flow else a[j - 1] {}
    var p' := if p < k then p else p + 1;
    assert i.flow != f;
    forall j | 0 <= j < p' ensures b[j] != f {
      assert b[j] == if j < k then a[j] else if j == k then i.flow else a[j - 1];
    }
    assert b[p'] == if p' < k then a[p'] else a[p' - 1];
    PositionIs(b, f, p');
    FrontBudgetAtMost(t, m);
    RoundsAtMost(s.flows[f].deficit, m);
    OneEntryMore(p, p', |a| - 1, RoundsOwed(s.flows[f].deficit), MaxRounds(m), FrontBudget(s, m),
                 FrontBudget(t, m), VisitBytes(m));
  }

  lemma ListStepWait(s: Sched, i: Input, f: FlowIndex, m: nat)
    requires Waiting(s, f, m) && (Step(s, i).1.Skipped? || Step(s, i).1.Rotated?)
    ensures var t := Step(s, i).0; Waiting(t, f, m) && WaitBytes(t, f, m) <= WaitBytes(s, f, m)
  {
    var (t, e) := Step(s, i);
    StepWithin(s, i, m);
    StepEntries(s, i);
    var a, b := Entries(s), Entries(t);
    if e == Rotated(f) {
      assert b[|b| - 1] == f;
      OwnRotationWait(s, t, f, m);
    } else {
      assert a == [a[0]] + a[1..];
      assert b[..|a| - 1] == a[1..];
      assert f in b[..|a| - 1];
      PopWait(s, t, f, m);
    }
  }

  lemma TakeWait(s: Sched, i: Input, f: FlowIndex, m: nat)
    requires Waiting(s, f, m) && Step(s, i).1.Removed? && Step(s, i).1.flow != f
    ensures var (t, e) := Step(s, i);
            Waiting(t, f, m) && e.packet.size + WaitBytes(t, f, m) <= WaitBytes(s, f, m)
  {
    StepWithin(s, i, m);
    StepEntries(s, i);
    var (t, e) := Step(s, i);
    assert Position(Entries(s), f) > 0;
    assert s.flows[e.flow].packets[0] == e.packet;
    assert e.packet.size + FrontBudget(t, m) <= FrontBudget(s, m);
  }

  lemma StepWait(s: Sched, i: Input, f: FlowIndex, m: nat)
    requires Waiting(s, f, m) && (i.Arrive? ==> i.packet.size <= m)
    requires !(Step(s, i).1.Removed? && Step(s, i).1.flow == f)
    ensures var (t, e) := Step(s, i);
            && Waiting(t, f, m)
            && Taken(e, All) + WaitBytes(t, f, m)
                 <= WaitBytes(s, f, m) + if Revives(s, i) then RevivalBytes(m) else 0
  {
    var (t, e) := Step(s, i);
    if e.Skipped? || e.Rotated? {
      ListStepWait(s, i, f, m);
    } else if e.Removed? {
      TakeWait(s, i, f, m);
    } else if Revives(s, i) {
      RevivalWait(s, i, f, m);
    } else {
      StepWithin(s, i, m);
      StepEntries(s, i);
    }
  }

  lemma {:induction false} RunWait(s: Sched, ins: seq<Input>, f: FlowIndex, m: nat)
    requires Waiting(s, f, m) && ArrivalsUpTo(ins, m) && Unserved(s, ins, f)
    ensures Waiting(Exec(s, ins), f, m)
    ensures SumSizes(Select(Trace(s, ins), Departure, All)) + WaitBytes(Exec(s, ins), f, m)
              <= WaitBytes(s, f, m) + RevivalAllowance(s, ins, m)
  {
    if ins != [] {
      var before := ins[..|ins| - 1];
      RunWait(s, before, f, m);
      BytesStep(s, ins, All);
      StepWait(Exec(s, before), ins[|ins| - 1], f, m);
    }
  }

  lemma {:induction false} AllowancePerRevival(s: Sched, ins: seq<Input>, m: nat)
    requires s.WellFormed() && m >= 1
    ensures RevivalAllowance(s, ins, m) == Revivals(s, ins) * RevivalBytes(m)
  {
    if ins != [] {
      var before := ins[..|ins| - 1];
      AllowancePerRevival(s, before, m);
      Distribute(Revivals(s, before), 1, RevivalBytes(m));
    }
  }

  lemma VisitsAtMost(p: nat, n: nat, rounds: nat, maxRounds: nat, front: nat, v: nat)
    requires rounds <= maxRounds && front <= v
    ensures VisitsAhead(p, n, rounds, front, v) <= (p + maxRounds * n) * v
  {
    Distribute(p, maxRounds * n, v);
    assert (maxRounds * n) * v == maxRounds * (n * v);
    Scale(rounds, maxRounds, n * v);
    if p > 0 {
      Distribute(p - 1, 1, v);
    }
  }

  /** Visits for the `p` entries ahead, for `n` others in each round, and for each of `k` revivals. */
  function VisitCount(p: nat, n: nat, rounds: nat, k: nat): nat
  {
    p + rounds * n + (2 + rounds) * k
  }

  lemma CountVisits(p: nat, n: nat, rounds: nat, k: nat, v: nat)
    ensures (p + rounds * n) * v + k * ((2 + rounds) * v) == VisitCount(p, n, rounds, k) * v
  {
    Distribute(p + rounds * n, (2 + rounds) * k, v);
    assert k * ((2 + rounds) * v) == ((2 + rounds) * k) * v;
  }

  /** A bound on the bytes that others can take before a packet of `f` is taken, given the arrivals at empty flows
      in the meantime. */
  function MaxWait(s: Sched, f: FlowIndex, m: nat, revivals: nat): nat
    requires f in Entries(s) && m >= 1
  {
    VisitCount(Position(Entries(s), f), |Entries(s)| - 1, MaxRounds(m), revivals) * VisitBytes(m)
  }

  lemma WaitAtMost(s: Sched, f: FlowIndex, m: nat, revivals: nat)
    requires Waiting(s, f, m)
    ensures WaitBytes(s, f, m) + revivals * RevivalBytes(m) <= MaxWait(s, f, m, revivals)
  {
    FrontBudgetAtMost(s, m);
    RoundsAtMost(s.flows[f].deficit, m);
    var p, n := Position(Entries(s), f), |Entries(s)| - 1;
    VisitsAtMost(p, n, RoundsOwed(s.flows[f].deficit), MaxRounds(m), FrontBudget(s, m), VisitBytes(m));
    CountVisits(p, n, MaxRounds(m), revivals, VisitBytes(m));
  }

  /** Bounded wait, for any lists and any arrivals: the bytes taken from others before a packet of a backlogged flow
      is taken are at most one visit for each entry ahead of it, one for each other entry in each round the flow can
      owe, and a fixed number for each arrival at an empty flow. */
  lemma BoundedWait(s: Sched, ins: seq<Input>, f: FlowIndex, m: nat)
    requires Waiting(s, f, m) && ArrivalsUpTo(ins, m) && Unserved(s, ins, f)
    ensures SumSizes(Select(Trace(s, ins), Departure, All)) <= MaxWait(s, f, m, Revivals(s, ins))
  {
    RunWait(s, ins, f, m);
    AllowancePerRevival(s, ins, m);
    WaitAtMost(s, f, m, Revivals(s, ins));
  }

  /** With packets of at most a quantum, a flow owes at most one round, and a revival costs three visits. */
  lemma MaxWaitWithinQuantum(s: Sched, f: FlowIndex, m: nat, revivals: nat)
    requires f in Entries(s) && 1 <= m <= QUANTUM
    ensures MaxWait(s, f, m, revivals)
              == (Position(Entries(s), f) + |Entries(s)| - 1 + 3 * revivals) * (QUANTUM + m - 1)
  {
    assert MaxRounds(m) == 1;
  }

  // ---- The same bound counted in calls ----

  function Polls(calls: seq<Call>): nat
  {
    if calls == [] then 0 else
      Polls(calls[..|calls| - 1]) + if calls[|calls| - 1].Poll? then 1 else 0
  }

  ghost predicate NonEmptyPackets(s: Sched)
    requires s.WellFormed()
  {
    forall f: FlowIndex, i | 0 <= i < |s.flows[f].packets| :: s.flows[f].packets[i].size >= 1
  }

  ghost predicate ArrivalsNonEmpty(ins: seq<Input>)
  {
    forall i :: 0 <= i < |ins| && ins[i].Arrive? ==> ins[i].packet.size >= 1
  }

  lemma {:induction false} UnservedPrefix(s: Sched, a: seq<Input>, b: seq<Input>, f: FlowIndex)
    requires s.WellFormed() && Unserved(s, a + b, f)
    ensures Unserved(s, a, f)
  {
    if b == [] {
      assert a + b == a;
    } else {
      assert (a + b)[..|a + b| - 1] == a + b[..|b| - 1];
      UnservedPrefix(s, a, b[..|b| - 1], f);
    }
  }

  lemma CallsBefore(s: Sched, calls: seq<Call>, f: FlowIndex, m: nat)
    requires s.WellFormed() && calls != []
    requires ArrivalsUpTo(Inputs(s, calls), m) && Unserved(s, Inputs(s, calls), f)
    ensures var a := Inputs(s, calls[..|calls| - 1]); ArrivalsUpTo(a, m) && Unserved(s, a, f)
  {
    var a := Inputs(s, calls[..|calls| - 1]);
    var b := Inputs(s, calls)[|a|..];
    assert Inputs(s, calls) == a + b;
    UnservedPrefix(s, a, b, f);
    assert forall i :: 0 <= i < |a| ==> a[i] == Inputs(s, calls)[i];
  }

  lemma BackloggedAfter(s: Sched, calls: seq<Call>, f: FlowIndex, m: nat)
    requires Inv(s) && Waiting(s, f, m)
    requires ArrivalsUpTo(Inputs(s, calls), m) && Unserved(s, Inputs(s, calls), f)
    ensures Inv(ExecCalls(s, calls)) && ExecCalls(s, calls).flows[f].packets != []
  {
    RunWait(s, Inputs(s, calls), f, m);
    RunInv(s, Inputs(s, calls));
    CallsAreRuns(s, calls);
  }

  /** While `f` waits, every poll returns a packet, so the run delivers one packet a poll. */
  lemma {:induction false} EveryPollServes(s: Sched, calls: seq<Call>, f: FlowIndex, m: nat)
    requires Inv(s) && Waiting(s, f, m)
    requires ArrivalsUpTo(Inputs(s, calls), m) && Unserved(s, Inputs(s, calls), f)
    ensures |Returned(s, calls)| == Polls(calls)
  {
    if calls != [] {
      var before := calls[..|calls| - 1];
      CallsBefore(s, calls, f, m);
      EveryPollServes(s, before, f, m);
      BackloggedAfter(s, before, f, m);
      if calls[|calls| - 1].Poll? {
        DequeueServesIffBacklogged(ExecCalls(s, before), calls[|calls| - 1].now);
      }
    }
  }

  lemma StepNonEmpty(s: Sched, i: Input)
    requires s.WellFormed() && NonEmptyPackets(s) && (i.Arrive? ==> i.packet.size >= 1)
    ensures var (t, e) := Step(s, i); NonEmptyPackets(t) && (e.Removed? ==> e.packet.size >= 1)
  {
    var (t, e) := Step(s, i);
    forall g: FlowIndex, j | 0 <= j < |t.flows[g].packets| ensures t.flows[g].packets[j].size >= 1 {
      if e.Removed? && e.flow == g {
        assert t.flows[g].packets[j] == s.flows[g].packets[j + 1];
      } else if j < |s.flows[g].packets| {
        assert t.flows[g].packets[j] == s.flows[g].packets[j];
      }
    }
  }

  lemma {:induction false} DeparturesAreNonEmpty(s: Sched, ins: seq<Input>)
    requires s.WellFormed() && NonEmptyPackets(s)
    requires ArrivalsNonEmpty(ins)
    ensures NonEmptyPackets(Exec(s, ins))
    ensures |Select(Trace(s, ins), Delivery, All)| <= SumSizes(Select(Trace(s, ins), Departure, All))
  {
    if ins != [] {
      var before := ins[..|ins| - 1];
      DeparturesAreNonEmpty(s, before);
      SelectStep(s, ins, Delivery, All);
      BytesStep(s, ins, All);
      StepNonEmpty(Exec(s, before), ins[|ins| - 1]);
    }
  }

  /** A flow that waits, in a scheduler of non-empty packets, waits for no more polls than that bound has bytes. */
  lemma BoundedPolls(s: Sched, calls: seq<Call>, f: FlowIndex, m: nat)
    requires Inv(s) && Waiting(s, f, m) && NonEmptyPackets(s)
    requires ArrivalsUpTo(Inputs(s, calls), m) && Unserved(s, Inputs(s, calls), f)
    requires ArrivalsNonEmpty(Inputs(s, calls))
    ensures Polls(calls) <= MaxWait(s, f, m, Revivals(s, Inputs(s, calls)))
  {
    EveryPollServes(s, calls, f, m);
    CallsAreRuns(s, calls);
    DeparturesAreNonEmpty(s, Inputs(s, calls));
    BoundedWait(s, Inputs(s, calls), f, m);
  }
}
