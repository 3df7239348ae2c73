/** CoDel's drop rule stated over the history of a flow instead of over the `firstAbove` field: a packet is
    dropped exactly when the flow has stayed above target, at every examination, for a whole interval. */
module FqCodelHistory {
  import opened FqCodel
  import opened FqCodelOrder
  import ControlLaw

  type History = hs: seq<Event> | forall i :: 0 <= i < |hs| ==> hs[i].Removed?

  /** The examinations of one flow's packets, oldest first. */
  function Exams(tr: seq<Event>, f: FlowIndex): (hs: History)
    ensures forall i :: 0 <= i < |hs| ==> hs[i].flow == f
  {
    if tr == [] then [] else
      var e := tr[|tr| - 1];
      Exams(tr[..|tr| - 1], f) + if e.Removed? && e.flow == f then [e] else []
  }

  predicate Above(e: Event)
    requires e.Removed?
  {
    AboveTarget(e.packet, e.now, e.bytesLeft)
  }

  /** The rule: some earlier examination is at least an interval old, and from it up to the n-th one the flow
      was never found below target. */
  ghost predicate AboveForInterval(hs: History, n: nat)
    requires n < |hs|
  {
    exists j | 0 <= j < n ::
      hs[n].now >= hs[j].now + INTERVAL_NS && forall m | j <= m <= n :: Above(hs[m])
  }

  /** Where the current unbroken stretch of above-target examinations began; |hs| when there is none. */
  function StretchStart(hs: History): (k: nat)
    ensures k <= |hs| && forall m :: k <= m < |hs| ==> Above(hs[m])
    ensures 0 < k ==> k == |hs| || !Above(hs[k - 1])
    ensures k == |hs| ==> hs == [] || !Above(hs[|hs| - 1])
  {
    if hs == [] then 0
    else if !Above(hs[|hs| - 1]) then |hs|
    else StretchStart(hs[..|hs| - 1])
  }

  function LastClock(ins: seq<Input>): nat
  {
    if ins == [] then 0
    else if ins[|ins| - 1].Turn? then ins[|ins| - 1].now
    else LastClock(ins[..|ins| - 1])
  }

  /** A steady clock: no loop pass reads an earlier time than the one before. */
  predicate Steady(ins: seq<Input>)
  {
    ins == [] ||
    (Steady(ins[..|ins| - 1]) && (ins[|ins| - 1].Turn? ==> LastClock(ins[..|ins| - 1]) <= ins[|ins| - 1].now))
  }

  ghost predicate Ordered(hs: History, clock: nat)
  {
    && (forall i :: 0 <= i < |hs| ==> hs[i].now <= clock)
    && (forall i, j :: 0 <= i < j < |hs| ==> hs[i].now <= hs[j].now)
  }

  lemma LastExam(s: Sched, ins: seq<Input>, f: FlowIndex)
    requires s.WellFormed() && ins != []
    ensures var before := ins[..|ins| - 1]; var e := Step(Exec(s, before), ins[|ins| - 1]).1;
            var hs := Exams(Trace(s, before), f);
            Exams(Trace(s, ins), f) == if e.Removed? && e.flow == f then hs + [e] else hs
  {
    LastStep(s, ins);
  }

  lemma {:induction false} ExamsOrdered(s: Sched, ins: seq<Input>, f: FlowIndex)
    requires s.WellFormed() && Steady(ins)
    ensures Ordered(Exams(Trace(s, ins), f), LastClock(ins))
  {
    if ins != [] {
      ExamsOrdered(s, ins[..|ins| - 1], f);
      LastExam(s, ins, f);
    }
  }

  /** The time at which dropping may start, as the history determines it. */
  function Deadline(hs: History): nat
  {
    var k := StretchStart(hs);
    if k == |hs| then 0 else hs[k].now + INTERVAL_NS
  }

  lemma StretchExtends(hs: History, e: Event)
    requires e.Removed?
    ensures StretchStart(hs + [e]) == if Above(e) then StretchStart(hs) else |hs| + 1
  {
    assert (hs + [e])[..|hs|] == hs;
  }

  lemma {:induction false} StretchReaches(hs: History, j: nat)
    requires j < |hs|
    requires forall m :: j <= m < |hs| ==> Above(hs[m])
    ensures StretchStart(hs) <= j
  {
    if j < |hs| - 1 {
      StretchReaches(hs[..|hs| - 1], j);
    }
  }

  lemma JudgeFollowsDeadline(c: CodelState, hs: History, e: Event)
    requires e.Removed?
    requires c.firstAbove == Deadline(hs)
    ensures var (c', drop) := Judge(c, Above(e), e.now);
            && c'.firstAbove == Deadline(hs + [e])
            && (drop <==> Above(e) && StretchStart(hs) < |hs| && e.now >= Deadline(hs))
  {
    StretchExtends(hs, e);
    var k := StretchStart(hs);
    assert k < |hs| ==> (hs + [e])[k] == hs[k];
  }

  lemma StepJudges(s: Sched, i: Input, f: FlowIndex)
    requires s.WellFormed()
    ensures var (t, e) := Step(s, i);
            if e.Removed? && e.flow == f then
              Judge(s.flows[f].codel, Above(e), e.now)
                == (s.flows[f].codel.(firstAbove := t.flows[f].codel.firstAbove), e.dropped)
            else t.flows[f].codel == s.flows[f].codel
  {
  }

  /** One step changes `firstAbove` exactly as the history's deadline changes, and drops exactly past it. */
  lemma StepDeadline(s: Sched, i: Input, f: FlowIndex, hs: History)
    requires s.WellFormed()
    requires s.flows[f].codel.firstAbove == Deadline(hs)
    ensures var (t, e) := Step(s, i);
            if e.Removed? && e.flow == f then
              && t.flows[f].codel.firstAbove == Deadline(hs + [e])
              && (e.dropped <==> Above(e) && StretchStart(hs) < |hs| && e.now >= Deadline(hs))
            else t.flows[f].codel.firstAbove == s.flows[f].codel.firstAbove
  {
    var e := Step(s, i).1;
    StepJudges(s, i, f);
    if e.Removed? && e.flow == f {
      JudgeFollowsDeadline(s.flows[f].codel, hs, e);
    }
  }

  lemma {:induction false} FirstAboveIsDeadline(ins: seq<Input>, f: FlowIndex)
    ensures Exec(Init(), ins).flows[f].codel.firstAbove == Deadline(Exams(Trace(Init(), ins), f))
  {
    if ins != [] {
      var before := ins[..|ins| - 1];
      FirstAboveIsDeadline(before, f);
      LastExam(Init(), ins, f);
      StepDeadline(Exec(Init(), before), ins[|ins| - 1], f, Exams(Trace(Init(), before), f));
    }
  }

  lemma PastDeadlineMeansRule(hs: History, e: Event)
    requires e.Removed?
    requires Above(e) && StretchStart(hs) < |hs| && e.now >= Deadline(hs)
    ensures AboveForInterval(hs + [e], |hs|)
  {
    var all, k := hs + [e], StretchStart(hs);
    forall m | k <= m <= |hs| ensures Above(all[m]) {
      if m < |hs| { assert all[m] == hs[m]; }
    }
    assert all[|hs|].now >= all[k].now + INTERVAL_NS;
  }

  lemma RuleMeansPastDeadline(hs: History, e: Event, j: nat)
    requires e.Removed?
    requires Ordered(hs, e.now)
    requires j < |hs| && e.now >= hs[j].now + INTERVAL_NS && forall m | j <= m < |hs| :: Above(hs[m])
    ensures StretchStart(hs) < |hs| && e.now >= Deadline(hs)
  {
    StretchReaches(hs, j);
    var k := StretchStart(hs);
    assert k < j ==> hs[k].now <= hs[j].now;
  }

  lemma DeadlineIsRule(hs: History, e: Event)
    requires e.Removed?
    requires Ordered(hs, e.now)
    ensures AboveForInterval(hs + [e], |hs|) <==>
            Above(e) && StretchStart(hs) < |hs| && e.now >= Deadline(hs)
  {
    var all: History := hs + [e];
    if Above(e) && StretchStart(hs) < |hs| && e.now >= Deadline(hs) {
      PastDeadlineMeansRule(hs, e);
    }
    if AboveForInterval(all, |hs|) {
      var j :| 0 <= j < |hs| && all[|hs|].now >= all[j].now + INTERVAL_NS && forall m | j <= m <= |hs| :: Above(all[m]);
      assert Above(all[|hs|]);
      forall m | j <= m < |hs| ensures Above(hs[m]) { assert Above(all[m]); }
      RuleMeansPastDeadline(hs, e, j);
    }
  }

  lemma RuleIsLocal(hs: History, more: History, n: nat)
    requires n < |hs|
    ensures AboveForInterval(hs + more, n) <==> AboveForInterval(hs, n)
  {
    assert forall i :: 0 <= i <= n ==> (hs + more)[i] == hs[i];
    if AboveForInterval(hs, n) {
      var j :| 0 <= j < n && hs[n].now >= hs[j].now + INTERVAL_NS && forall m | j <= m <= n :: Above(hs[m]);
      assert (hs + more)[n].now >= (hs + more)[j].now + INTERVAL_NS;
      assert forall m | j <= m <= n :: Above((hs + more)[m]);
    }
    if AboveForInterval(hs + more, n) {
      var j :| 0 <= j < n && (hs + more)[n].now >= (hs + more)[j].now + INTERVAL_NS
               && forall m | j <= m <= n :: Above((hs + more)[m]);
      forall m | j <= m <= n ensures Above(hs[m]) { assert Above((hs + more)[m]); }
      assert hs[n].now >= hs[j].now + INTERVAL_NS;
    }
  }

  /** The examination that one more step makes follows the rule. */
  lemma NewExamFollowsRule(before: seq<Input>, i: Input, f: FlowIndex)
    requires Steady(before + [i])
    ensures var hs := Exams(Trace(Init(), before), f); var e := Step(Exec(Init(), before), i).1;
            e.Removed? && e.flow == f ==> (e.dropped <==> AboveForInterval(hs + [e], |hs|))
  {
    var hs, e := Exams(Trace(Init(), before), f), Step(Exec(Init(), before), i).1;
    if e.Removed? && e.flow == f {
      assert (before + [i])[..|before|] == before;
      ExamsOrdered(Init(), before, f);
      FirstAboveIsDeadline(before, f);
      StepDeadline(Exec(Init(), before), i, f, hs);
      DeadlineIsRule(hs, e);
    }
  }

  /** The examinations made before the last step keep following the rule. */
  lemma OldExamFollowsRule(ins: seq<Input>, f: FlowIndex, n: nat)
    requires ins != []
    requires var hs := Exams(Trace(Init(), ins[..|ins| - 1]), f);
             n < |hs| && (hs[n].dropped <==> AboveForInterval(hs, n))
    ensures var hs := Exams(Trace(Init(), ins), f);
            n < |hs| && (hs[n].dropped <==> AboveForInterval(hs, n))
  {
    var before := ins[..|ins| - 1];
    var hs, e := Exams(Trace(Init(), before), f), Step(Exec(Init(), before), ins[|ins| - 1]).1;
    LastExam(Init(), ins, f);
    if e.Removed? && e.flow == f {
      RuleIsLocal(hs, [e], n);
    }
  }

  /** The examination made in the last step, if any, follows the rule. */
  lemma LastExamFollowsRule(ins: seq<Input>, f: FlowIndex, n: nat)
    requires Steady(ins) && ins != []
    requires |Exams(Trace(Init(), ins[..|ins| - 1]), f)| <= n < |Exams(Trace(Init(), ins), f)|
    ensures var hs := Exams(Trace(Init(), ins), f); hs[n].dropped <==> AboveForInterval(hs, n)
  {
    var before, i := ins[..|ins| - 1], ins[|ins| - 1];
    LastExam(Init(), ins, f);
    assert before + [i] == ins;
    NewExamFollowsRule(before, i, f);
  }

  /** The drop rule, for every examination of every flow in every run from the empty scheduler under a steady
      clock: dropped if and only if above target for an interval. */
  lemma {:induction false} DropRule(ins: seq<Input>, f: FlowIndex, n: nat)
    requires Steady(ins)
    requires n < |Exams(Trace(Init(), ins), f)|
    ensures var hs := Exams(Trace(Init(), ins), f);
            hs[n].dropped <==> AboveForInterval(hs, n)
  {
    assert ins != [];
    if n < |Exams(Trace(Init(), ins[..|ins| - 1]), f)| {
      DropRule(ins[..|ins| - 1], f, n);
      OldExamFollowsRule(ins, f, n);
    } else {
      LastExamFollowsRule(ins, f, n);
    }
  }

  // ---- The dropping state ----

  /** Some packet was dropped and every one examined since waited at least the target. */
  ghost predicate DroppingSince(hs: History)
  {
    exists n | 0 <= n < |hs| ::
      hs[n].dropped && forall m | n < m < |hs| :: Sojourn(hs[m].packet, hs[m].now) >= TARGET_NS
  }

  lemma DroppingSinceExtends(hs: History, e: Event)
    requires e.Removed?
    ensures DroppingSince(hs + [e]) <==>
            e.dropped || (DroppingSince(hs) && Sojourn(e.packet, e.now) >= TARGET_NS)
  {
    var all: History := hs + [e];
    assert forall i | 0 <= i < |hs| :: all[i] == hs[i];
    if e.dropped {
      assert all[|hs|].dropped;
    } else if DroppingSince(hs) && Sojourn(e.packet, e.now) >= TARGET_NS {
      var n :| 0 <= n < |hs| && hs[n].dropped
               && forall m | n < m < |hs| :: Sojourn(hs[m].packet, hs[m].now) >= TARGET_NS;
      assert all[n].dropped;
    }
    if DroppingSince(all) && !e.dropped {
      var n :| 0 <= n < |all| && all[n].dropped
               && forall m | n < m < |all| :: Sojourn(all[m].packet, all[m].now) >= TARGET_NS;
      assert n < |hs| && hs[n].dropped;
      assert Sojourn(all[|hs|].packet, all[|hs|].now) >= TARGET_NS;
      forall m | n < m < |hs| ensures Sojourn(hs[m].packet, hs[m].now) >= TARGET_NS {
        assert Sojourn(all[m].packet, all[m].now) >= TARGET_NS;
      }
    }
  }

  lemma StepDropping(s: Sched, i: Input, f: FlowIndex)
    requires s.WellFormed()
    ensures var (t, e) := Step(s, i);
            t.flows[f].codel.dropping <==>
              if e.Removed? && e.flow == f then
                e.dropped || (s.flows[f].codel.dropping && Sojourn(e.packet, e.now) >= TARGET_NS)
              else s.flows[f].codel.dropping
  {
  }

  /** The flow's `dropping` flag is what its history says. */
  lemma {:induction false} DroppingFlag(ins: seq<Input>, f: FlowIndex)
    ensures Exec(Init(), ins).flows[f].codel.dropping <==> DroppingSince(Exams(Trace(Init(), ins), f))
  {
    if ins != [] {
      var before := ins[..|ins| - 1];
      DroppingFlag(before, f);
      LastExam(Init(), ins, f);
      StepDropping(Exec(Init(), before), ins[|ins| - 1], f);
      var e := Step(Exec(Init(), before), ins[|ins| - 1]).1;
      if e.Removed? && e.flow == f {
        DroppingSinceExtends(Exams(Trace(Init(), before), f), e);
      }
    }
  }

  // ---- The drop schedule ----

  const COUNT_RANGE: nat := 0x1_0000_0000

  /** The sum of interval / sqrt(j) for j = 1 .. n, with j as the 32-bit counter holds it and a whole interval
      where it holds 0. */
  function ScheduleLength(n: nat): nat
  {
    if n == 0 then 0
    else ScheduleLength(n - 1)
           + if n % COUNT_RANGE == 0 then INTERVAL_NS else ControlLaw.DropSpacing(n % COUNT_RANGE)
  }

  /** When the current dropping phase made its first drop. */
  ghost function PhaseStart(hs: History): nat
    requires DroppingSince(hs)
  {
    var front := hs[..|hs| - 1];
    if DroppingSince(front) then PhaseStart(front) else hs[|hs| - 1].now
  }

  /** One more than the number of drops of the current phase that came no earlier than the schedule says. */
  ghost function PhaseCount(hs: History): (c: nat)
    requires DroppingSince(hs)
    ensures 1 <= c <= |hs|
  {
    var front, e := hs[..|hs| - 1], hs[|hs| - 1];
    if !DroppingSince(front) then 1
    else
      var c := PhaseCount(front);
      if e.dropped && e.now >= PhaseStart(front) + ScheduleLength(c) then c + 1 else c
  }

  ghost predicate OnSchedule(c: CodelState, hs: History)
  {
    && (c.dropping <==> DroppingSince(hs))
    && (c.dropping ==>
          && c.count == PhaseCount(hs) % COUNT_RANGE
          && c.dropNext == PhaseStart(hs) + ScheduleLength(PhaseCount(hs)))
  }

  lemma NextCount(n: nat)
    ensures (n % COUNT_RANGE + 1) % COUNT_RANGE == (n + 1) % COUNT_RANGE
  {
  }

  lemma FirstSpacing(n: nat)
    requires n == 1
    ensures ScheduleLength(n) == ControlLaw.DropSpacing(n)
  {
    assert ScheduleLength(n - 1) == 0;
  }

  lemma DropOnSchedule(c: CodelState, hs: History, e: Event)
    requires e.Removed? && e.dropped
    requires OnSchedule(c, hs)
    ensures OnSchedule(EnterOrAdvanceDropping(c, e.now), hs + [e])
  {
    assert (hs + [e])[..|hs|] == hs;
    DroppingSinceExtends(hs, e);
    if DroppingSince(hs) {
      NextCount(PhaseCount(hs));
    } else {
      FirstSpacing(PhaseCount(hs + [e]));
    }
  }

  lemma PassOnSchedule(c: CodelState, hs: History, e: Event)
    requires e.Removed? && !e.dropped
    requires OnSchedule(c, hs)
    ensures OnSchedule(LeaveDropping(c, Sojourn(e.packet, e.now)), hs + [e])
  {
    assert (hs + [e])[..|hs|] == hs;
    DroppingSinceExtends(hs, e);
  }

  lemma StepOnSchedule(s: Sched, i: Input, f: FlowIndex, hs: History)
    requires s.WellFormed()
    requires OnSchedule(s.flows[f].codel, hs)
    ensures var (t, e) := Step(s, i);
            OnSchedule(t.flows[f].codel, if e.Removed? && e.flow == f then hs + [e] else hs)
  {
    var (t, e) := Step(s, i);
    if e.Removed? && e.flow == f {
      var judged := Judge(s.flows[f].codel, Above(e), e.now).0;
      assert OnSchedule(judged, hs);
      if e.dropped { DropOnSchedule(judged, hs, e); } else { PassOnSchedule(judged, hs, e); }
    }
  }

  /** The control law in closed form: while a flow is dropping, its next scheduled drop lies at the start of the
      phase plus the sum of interval / sqrt(j) over the scheduled drops so far. */
  lemma {:induction false} DropSchedule(ins: seq<Input>, f: FlowIndex)
    ensures OnSchedule(Exec(Init(), ins).flows[f].codel, Exams(Trace(Init(), ins), f))
  {
    if ins != [] {
      var before := ins[..|ins| - 1];
      DropSchedule(before, f);
      LastExam(Init(), ins, f);
      StepOnSchedule(Exec(Init(), before), ins[|ins| - 1], f, Exams(Trace(Init(), before), f));
    }
  }

  // ---- The reported delay ----

  /** The sojourn time of the last packet examined, of whatever flow. */
  function LatestSojourn(tr: seq<Event>): nat
  {
    if tr == [] then 0
    else if tr[|tr| - 1].Removed? then Sojourn(tr[|tr| - 1].packet, tr[|tr| - 1].now)
    else LatestSojourn(tr[..|tr| - 1])
  }

  /** The delay the scheduler reports as a mean is that of the last packet examined. */
  lemma {:induction false} ReportedDelay(ins: seq<Input>)
    ensures Exec(Init(), ins).delayNs == LatestSojourn(Trace(Init(), ins))
  {
    if ins != [] {
      ReportedDelay(ins[..|ins| - 1]);
      LastStep(Init(), ins);
    }
  }
}
