/** Deficit round robin fairness of the FQ-CoDel scheduler. `m` is always the size of the largest packet. */
module FqCodelFairness {
  import opened Packets
  import opened FqCodel
  import opened FqCodelOrder

  ghost predicate Within(s: Sched, m: nat)
    requires s.WellFormed()
  {
    && (forall f: FlowIndex :: 1 - m <= s.flows[f].deficit <= QUANTUM)
    && (forall f: FlowIndex, i | 0 <= i < |s.flows[f].packets| :: s.flows[f].packets[i].size <= m)
  }

  ghost predicate ArrivalsUpTo(ins: seq<Input>, m: nat)
  {
    forall i :: 0 <= i < |ins| && ins[i].Arrive? ==> ins[i].packet.size <= m
  }

  lemma StepWithin(s: Sched, i: Input, m: nat)
    requires s.WellFormed() && Within(s, m) && (i.Arrive? ==> i.packet.size <= m)
    ensures Within(Step(s, i).0, m)
  {
    var (t, e) := Step(s, i);
    forall f: FlowIndex, j | 0 <= j < |t.flows[f].packets| ensures t.flows[f].packets[j].size <= m {
      if e.Removed? && e.flow == f {
        assert t.flows[f].packets[j] == s.flows[f].packets[j + 1];
      } else if j < |s.flows[f].packets| {
        assert t.flows[f].packets[j] == s.flows[f].packets[j];
      }
    }
  }

  /** Deficits stay in 1 - m .. quantum for ever. */
  lemma {:induction false} RunWithin(s: Sched, ins: seq<Input>, m: nat)
    requires s.WellFormed() && Within(s, m) && ArrivalsUpTo(ins, m)
    ensures Within(Exec(s, ins), m)
  {
    if ins != [] {
      RunWithin(s, ins[..|ins| - 1], m);
      StepWithin(Exec(s, ins[..|ins| - 1]), ins[|ins| - 1], m);
    }
  }

  lemma ReachableWithin(ins: seq<Input>, m: nat)
    requires m >= 1 && ArrivalsUpTo(ins, m)
    ensures Within(Exec(Init(), ins), m)
  {
    RunWithin(Init(), ins, m);
  }

  /** The `int32_t` deficits never wrap, whatever packets arrive. */
  lemma DeficitsFitInt32(ins: seq<Input>, f: FlowIndex)
    ensures INT32_MIN < Exec(Init(), ins).flows[f].deficit <= QUANTUM
  {
    var m: nat := INT32_MAX;
    assert ArrivalsUpTo(ins, m);
    ReachableWithin(ins, m);
  }

  // ---- Service of one flow ----

  ghost predicate StaysBacklogged(s: Sched, ins: seq<Input>, f: FlowIndex)
    requires s.WellFormed()
  {
    && Exec(s, ins).flows[f].packets != []
    && (ins != [] ==> StaysBacklogged(s, ins[..|ins| - 1], f))
  }

  function Rotations(tr: seq<Event>, f: FlowIndex): nat
  {
    if tr == [] then 0 else
      Rotations(tr[..|tr| - 1], f) + if tr[|tr| - 1] == Rotated(f) then 1 else 0
  }

  /** Bytes taken from flow `f`, delivered or dropped. */
  function BytesTaken(tr: seq<Event>, f: FlowIndex): nat
  {
    SumSizes(Select(tr, Departure, OfFlow(f)))
  }

  lemma {:induction false} SumSizesConcat(a: seq<Packet>, b: seq<Packet>)
    ensures SumSizes(a + b) == SumSizes(a) + SumSizes(b)
  {
    if a == [] {
      assert a + b == b;
    } else {
      assert (a + b)[1..] == a[1..] + b;
      SumSizesConcat(a[1..], b);
    }
  }

  function Taken(e: Event, w: Which): nat
  {
    if e.Removed? && IsOf(e, w) then e.packet.size else 0
  }

  lemma BytesStep(s: Sched, ins: seq<Input>, w: Which)
    requires s.WellFormed() && ins != []
    ensures var before := ins[..|ins| - 1]; var e := Step(Exec(s, before), ins[|ins| - 1]).1;
            SumSizes(Select(Trace(s, ins), Departure, w))
              == SumSizes(Select(Trace(s, before), Departure, w)) + Taken(e, w)
  {
    SelectStep(s, ins, Departure, w);
    var before := ins[..|ins| - 1];
    var e := Step(Exec(s, before), ins[|ins| - 1]).1;
    SumSizesConcat(Select(Trace(s, before), Departure, w), Picked(e, Departure, w));
  }

  lemma StepService(s: Sched, i: Input, f: FlowIndex)
    requires s.WellFormed() && s.flows[f].packets != []
    ensures var (t, e) := Step(s, i);
            Taken(e, OfFlow(f)) == (if e == Rotated(f) then QUANTUM else 0) + s.flows[f].deficit - t.flows[f].deficit
  {
  }

  /** A backlogged flow is served one quantum per rotation, up to the change of its deficit. */
  lemma {:induction false} ServiceIdentity(s: Sched, ins: seq<Input>, f: FlowIndex)
    requires s.WellFormed() && StaysBacklogged(s, ins, f)
    ensures var tr := Trace(s, ins);
            BytesTaken(tr, f) == Rotations(tr, f) * QUANTUM + s.flows[f].deficit - Exec(s, ins).flows[f].deficit
  {
    if ins != [] {
      var before := ins[..|ins| - 1];
      ServiceIdentity(s, before, f);
      LastStep(s, ins);
      BytesStep(s, ins, OfFlow(f));
      StepService(Exec(s, before), ins[|ins| - 1], f);
    }
  }

  // ---- Rotation order of two flows ----

  /** Flow `f` is listed once, at position `i` of the old flows. */
  ghost predicate ListedOnceAt(s: Sched, f: FlowIndex, i: nat)
  {
    && f !in s.newFlows
    && i < |s.oldFlows| && s.oldFlows[i] == f
    && (forall j | 0 <= j < |s.oldFlows| && j != i :: s.oldFlows[j] != f)
  }

  ghost predicate ListedOnce(s: Sched, f: FlowIndex)
  {
    exists i: nat :: ListedOnceAt(s, f, i)
  }

  /** The position of a listed flow after one step. */
  function NextPosition(s: Sched, e: Event, f: FlowIndex, i: nat): int
  {
    if s.newFlows != [] || !(e.Skipped? || e.Rotated?) then i
    else if e == Rotated(f) then |s.oldFlows| - 1
    else i - 1
  }

  lemma StepPosition(s: Sched, i: Input, f: FlowIndex, p: nat)
    requires s.WellFormed() && ListedOnceAt(s, f, p) && s.flows[f].packets != []
    ensures var (t, e) := Step(s, i); var q := NextPosition(s, e, f, p);
            q >= 0 && ListedOnceAt(t, f, q) && (e == Rotated(f) ==> s.newFlows == [] && p == 0)
  {
    var (t, e) := Step(s, i);
    if e.Skipped? || e.Rotated? {
      assert s.Front() == e.flow;
      if s.newFlows == [] {
        assert p == 0 ==> e == Rotated(f);
        assert t.oldFlows == s.oldFlows[1..] + if e.Rotated? then [e.flow] else [];
      } else {
        assert t.oldFlows == s.oldFlows + if e.Rotated? then [e.flow] else [];
        assert e.flow in s.newFlows;
      }
    }
  }

  /** While both stay backlogged, two flows rotate in turn: who is ahead decides the count. */
  lemma {:induction false} RotateInTurn(s: Sched, ins: seq<Input>, f: FlowIndex, g: FlowIndex, i: nat, j: nat)
    returns (i': nat, j': nat)
    requires s.WellFormed() && f != g && ListedOnceAt(s, f, i) && ListedOnceAt(s, g, j)
    requires StaysBacklogged(s, ins, f) && StaysBacklogged(s, ins, g)
    ensures ListedOnceAt(Exec(s, ins), f, i') && ListedOnceAt(Exec(s, ins), g, j')
    ensures var tr := Trace(s, ins);
            Rotations(tr, f) - Rotations(tr, g)
              == if i < j then (if i' < j' then 0 else 1) else (if i' < j' then -1 else 0)
  {
    i', j' := i, j;
    if ins != [] {
      var before := ins[..|ins| - 1];
      var k, l := RotateInTurn(s, before, f, g, i, j);
      LastStep(s, ins);
      var t := Exec(s, before);
      StepPosition(t, ins[|ins| - 1], f, k);
      StepPosition(t, ins[|ins| - 1], g, l);
      var e := Step(t, ins[|ins| - 1]).1;
      i', j' := NextPosition(t, e, f, k), NextPosition(t, e, g, l);
    }
  }

  /** Being listed exactly once survives any run during which the flow stays backlogged. */
  lemma {:induction false} StaysListedOnce(s: Sched, ins: seq<Input>, f: FlowIndex)
    requires s.WellFormed() && ListedOnce(s, f) && StaysBacklogged(s, ins, f)
    ensures ListedOnce(Exec(s, ins), f)
  {
    if ins != [] {
      var before := ins[..|ins| - 1];
      StaysListedOnce(s, before, f);
      var p: nat :| ListedOnceAt(Exec(s, before), f, p);
      StepPosition(Exec(s, before), ins[|ins| - 1], f, p);
    }
  }

  lemma ServiceGap(s: Sched, ins: seq<Input>, f: FlowIndex, m: nat)
    requires s.WellFormed() && Within(s, m) && ArrivalsUpTo(ins, m) && StaysBacklogged(s, ins, f)
    ensures var tr := Trace(s, ins); var gap := BytesTaken(tr, f) - Rotations(tr, f) * QUANTUM;
            1 - m - QUANTUM <= gap <= QUANTUM + m - 1
  {
    ServiceIdentity(s, ins, f);
    RunWithin(s, ins, m);
  }

  lemma RotationsWithinOne(s: Sched, ins: seq<Input>, f: FlowIndex, g: FlowIndex)
    requires s.WellFormed() && f != g && ListedOnce(s, f) && ListedOnce(s, g)
    requires StaysBacklogged(s, ins, f) && StaysBacklogged(s, ins, g)
    ensures var tr := Trace(s, ins); -1 <= Rotations(tr, f) - Rotations(tr, g) <= 1
  {
    var i: nat :| ListedOnceAt(s, f, i);
    var j: nat :| ListedOnceAt(s, g, j);
    var _, _ := RotateInTurn(s, ins, f, g, i, j);
  }

  /** Fairness: over any run, two flows that stay backlogged and start listed once each are rotated equally often
      up to one, and the bytes taken from them differ by at most 3 quanta and 2 packets. */
  lemma Fairness(s: Sched, ins: seq<Input>, f: FlowIndex, g: FlowIndex, m: nat)
    requires s.WellFormed() && Within(s, m) && ArrivalsUpTo(ins, m)
    requires f != g && ListedOnce(s, f) && ListedOnce(s, g)
    requires StaysBacklogged(s, ins, f) && StaysBacklogged(s, ins, g)
    ensures var tr := Trace(s, ins);
            && -1 <= Rotations(tr, f) - Rotations(tr, g) <= 1
            && -(3 * QUANTUM + 2 * m - 2) <= BytesTaken(tr, f) - BytesTaken(tr, g) <= 3 * QUANTUM + 2 * m - 2
  {
    RotationsWithinOne(s, ins, f, g);
    ServiceGap(s, ins, f, m);
    ServiceGap(s, ins, g, m);
  }
}
