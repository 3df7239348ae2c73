/** The drop rule, the reported delay and the quantum of the FQ-CoDel scheduler in nanoseconds and bytes, over the
    events of a run alone. */
module FqCodelObserved {
  import opened Packets
  import opened FqCodel
  import opened FqCodelSafety
  import opened FqCodelOrder
  import opened FqCodelHistory
  import opened FqCodelFairness

  // ---- What an examination is ----

  lemma {:induction false} TraceAt(s: Sched, ins: seq<Input>, k: nat)
    requires s.WellFormed() && k < |ins|
    ensures Trace(s, ins)[k] == Step(Exec(s, ins[..k]), ins[k]).1
    ensures Exec(s, ins[..k + 1]) == Step(Exec(s, ins[..k]), ins[k]).0
  {
    assert ins[..k + 1][..k] == ins[..k];
    if k < |ins| - 1 {
      TraceAt(s, ins[..|ins| - 1], k);
      assert ins[..|ins| - 1][..k] == ins[..k];
    } else {
      assert ins[..k] == ins[..|ins| - 1];
    }
  }

  lemma StepExamines(s: Sched, i: Input)
    requires Inv(s) && Step(s, i).1.Removed?
    ensures var (t, e) := Step(s, i);
            && i == Turn(e.now)
            && s.flows[e.flow].packets == [e.packet] + t.flows[e.flow].packets
            && e.bytesLeft == SumSizes(t.flows[e.flow].packets)
            && t.delayNs == (if e.now > e.packet.timestamp then e.now - e.packet.timestamp else 0)
            && t.totalDrops == s.totalDrops + (if e.dropped then 1 else 0)
  {
    var e := Step(s, i).1;
    var ps := s.flows[e.flow].packets;
    assert QueueInv(s.flows[e.flow]);
    assert SumSizes(ps) == ps[0].size + SumSizes(ps[1..]) && ps == [ps[0]] + ps[1..];
  }

  /** An examination takes the head of its flow's queue at the clock of its pass; `bytesLeft` is what stays queued
      behind it, the delay reported is how long it waited, and a drop is counted. */
  lemma ExaminationIs(ins: seq<Input>, k: nat)
    requires k < |ins| && Trace(Init(), ins)[k].Removed?
    ensures var e := Trace(Init(), ins)[k]; var s := Exec(Init(), ins[..k]); var t := Exec(Init(), ins[..k + 1]);
            && ins[k] == Turn(e.now)
            && s.flows[e.flow].packets == [e.packet] + t.flows[e.flow].packets
            && e.bytesLeft == SumSizes(t.flows[e.flow].packets)
            && t.delayNs == (if e.now > e.packet.timestamp then e.now - e.packet.timestamp else 0)
            && t.totalDrops == s.totalDrops + (if e.dropped then 1 else 0)
  {
    TraceAt(Init(), ins, k);
    InitInv();
    RunInv(Init(), ins[..k]);
    StepExamines(Exec(Init(), ins[..k]), ins[k]);
  }

  // ---- The drop rule over the trace ----

  predicate IsExam(e: Event, f: FlowIndex)
  {
    e.Removed? && e.flow == f
  }

  /** How many examinations of flow `f` come before the k-th event. */
  function Rank(tr: seq<Event>, f: FlowIndex, k: nat): nat
    requires k <= |tr|
  {
    |Exams(tr[..k], f)|
  }

  lemma RankStep(tr: seq<Event>, f: FlowIndex, k: nat)
    requires k < |tr|
    ensures Rank(tr, f, k + 1) == Rank(tr, f, k) + if IsExam(tr[k], f) then 1 else 0
    ensures IsExam(tr[k], f) ==> Exams(tr[..k + 1], f) == Exams(tr[..k], f) + [tr[k]]
    ensures !IsExam(tr[k], f) ==> Exams(tr[..k + 1], f) == Exams(tr[..k], f)
  {
    assert tr[..k + 1][..k] == tr[..k];
  }

  lemma {:induction false} RankGrows(tr: seq<Event>, f: FlowIndex, a: nat, b: nat)
    requires a <= b <= |tr|
    ensures Exams(tr[..a], f) <= Exams(tr[..b], f)
  {
    if a < b {
      RankGrows(tr, f, a, b - 1);
      RankStep(tr, f, b - 1);
    }
  }

  /** The k-th event is the Rank-th examination of its flow. */
  lemma ExamAtRank(tr: seq<Event>, f: FlowIndex, k: nat)
    requires k < |tr| && IsExam(tr[k], f)
    ensures Rank(tr, f, k) < |Exams(tr, f)| && Exams(tr, f)[Rank(tr, f, k)] == tr[k]
  {
    RankStep(tr, f, k);
    RankGrows(tr, f, k + 1, |tr|);
    assert tr[..|tr|] == tr;
  }

  lemma RankOrder(tr: seq<Event>, f: FlowIndex, a: nat, b: nat)
    requires a <= |tr| && b <= |tr|
    ensures a <= b ==> Rank(tr, f, a) <= Rank(tr, f, b)
    ensures a < b && IsExam(tr[a], f) ==> Rank(tr, f, a) < Rank(tr, f, b)
  {
    if a <= b {
      RankGrows(tr, f, a, b);
      if a < b {
        RankStep(tr, f, a);
        RankGrows(tr, f, a + 1, b);
      }
    }
  }

  lemma {:induction false} FindExam(tr: seq<Event>, f: FlowIndex, n: nat) returns (k: nat)
    requires n < |Exams(tr, f)|
    ensures k < |tr| && IsExam(tr[k], f) && Rank(tr, f, k) == n
  {
    var last := |tr| - 1;
    assert tr[..last + 1] == tr;
    RankStep(tr, f, last);
    if n < Rank(tr, f, last) {
      k := FindExam(tr[..last], f, n);
      assert tr[..last][..k] == tr[..k];
    } else {
      k := last;
    }
  }

  /** Above target, in nanoseconds and bytes: the packet waited 5 ms or more, and 1514 bytes or more stay queued. */
  lemma AboveIs(e: Event)
    requires e.Removed?
    ensures Above(e) <==> e.now >= e.packet.timestamp + 5_000_000 && e.bytesLeft >= 1514
  {
  }

  lemma RuleFromTrace(tr: seq<Event>, f: FlowIndex, j: nat, k: nat)
    requires j < k < |tr| && IsExam(tr[j], f) && IsExam(tr[k], f) && tr[k].now >= tr[j].now + 100_000_000
    requires forall m | j <= m <= k && IsExam(tr[m], f) :: Above(tr[m])
    ensures Rank(tr, f, k) < |Exams(tr, f)| && AboveForInterval(Exams(tr, f), Rank(tr, f, k))
  {
    var hs, n := Exams(tr, f), Rank(tr, f, k);
    ExamAtRank(tr, f, j);
    ExamAtRank(tr, f, k);
    RankOrder(tr, f, j, k);
    forall i | Rank(tr, f, j) <= i <= n ensures Above(hs[i]) {
      var m := FindExam(tr, f, i);
      ExamAtRank(tr, f, m);
      RankOrder(tr, f, m, j);
      RankOrder(tr, f, k, m);
    }
    assert hs[n].now >= hs[Rank(tr, f, j)].now + INTERVAL_NS;
  }

  lemma TraceFromRule(tr: seq<Event>, f: FlowIndex, k: nat) returns (j: nat)
    requires k < |tr| && IsExam(tr[k], f)
    requires Rank(tr, f, k) < |Exams(tr, f)| && AboveForInterval(Exams(tr, f), Rank(tr, f, k))
    ensures j < k && IsExam(tr[j], f) && tr[k].now >= tr[j].now + 100_000_000
    ensures forall m | j <= m <= k && IsExam(tr[m], f) :: Above(tr[m])
  {
    var hs, n := Exams(tr, f), Rank(tr, f, k);
    ExamAtRank(tr, f, k);
    var i :| 0 <= i < n && hs[n].now >= hs[i].now + INTERVAL_NS && forall m | i <= m <= n :: Above(hs[m]);
    j := FindExam(tr, f, i);
    ExamAtRank(tr, f, j);
    RankOrder(tr, f, k, j);
    forall m | j <= m <= k && IsExam(tr[m], f) ensures Above(tr[m]) {
      ExamAtRank(tr, f, m);
      RankOrder(tr, f, j, m);
      RankOrder(tr, f, m, k);
    }
  }

  /** Some earlier packet of the flow left 100 ms or more before the k-th event, and it and all of the flow that left
      since, the k-th included, had waited 5 ms or more and left 1514 bytes or more behind. */
  ghost predicate StoodFor100Ms(tr: seq<Event>, f: FlowIndex, k: nat)
    requires k < |tr| && tr[k].Removed?
  {
    exists j | 0 <= j < k ::
      && tr[j].Removed? && tr[j].flow == f && tr[k].now >= tr[j].now + 100_000_000
      && forall m | j <= m <= k && tr[m].Removed? && tr[m].flow == f ::
           tr[m].now >= tr[m].packet.timestamp + 5_000_000 && tr[m].bytesLeft >= 1514
  }

  lemma RuleOverTrace(tr: seq<Event>, f: FlowIndex, k: nat)
    requires k < |tr| && IsExam(tr[k], f)
    ensures Rank(tr, f, k) < |Exams(tr, f)|
    ensures StoodFor100Ms(tr, f, k) <==> AboveForInterval(Exams(tr, f), Rank(tr, f, k))
  {
    ExamAtRank(tr, f, k);
    if AboveForInterval(Exams(tr, f), Rank(tr, f, k)) {
      var j := TraceFromRule(tr, f, k);
      forall m | j <= m <= k && tr[m].Removed? && tr[m].flow == f
        ensures tr[m].now >= tr[m].packet.timestamp + 5_000_000 && tr[m].bytesLeft >= 1514
      {
        assert IsExam(tr[m], f);
      }
    }
    if StoodFor100Ms(tr, f, k) {
      var j :| 0 <= j < k && tr[j].Removed? && tr[j].flow == f && tr[k].now >= tr[j].now + 100_000_000
               && forall m | j <= m <= k && tr[m].Removed? && tr[m].flow == f ::
                    tr[m].now >= tr[m].packet.timestamp + 5_000_000 && tr[m].bytesLeft >= 1514;
      forall m | j <= m <= k && IsExam(tr[m], f) ensures Above(tr[m]) { AboveIs(tr[m]); }
      RuleFromTrace(tr, f, j, k);
    }
  }

  /** The drop rule in every run from the empty scheduler under a steady clock, for every packet that leaves a queue:
      it is dropped if and only if 100 ms or more before, a packet left the same flow such that it and every packet
      that left the flow since had waited at least 5 ms and left at least 1514 bytes behind. */
  lemma DropRuleInNanoseconds(ins: seq<Input>, k: nat)
    requires Steady(ins) && k < |ins| && Trace(Init(), ins)[k].Removed?
    ensures var tr := Trace(Init(), ins); var f := tr[k].flow;
            tr[k].dropped <==>
              exists j | 0 <= j < k ::
                && tr[j].Removed? && tr[j].flow == f && tr[k].now >= tr[j].now + 100_000_000
                && forall m | j <= m <= k && tr[m].Removed? && tr[m].flow == f ::
                     tr[m].now >= tr[m].packet.timestamp + 5_000_000 && tr[m].bytesLeft >= 1514
  {
    var tr := Trace(Init(), ins);
    RuleOverTrace(tr, tr[k].flow, k);
    ExamAtRank(tr, tr[k].flow, k);
    DropRule(ins, tr[k].flow, Rank(tr, tr[k].flow, k));
  }

  // ---- The reported delay ----

  /** After the k-th event the delay reported is that of the latest packet that left a queue. */
  lemma {:induction false} ReportedDelayIs(ins: seq<Input>, k: nat)
    requires k < |ins| && Trace(Init(), ins)[k].Removed?
    requires forall m | k < m < |ins| :: !Trace(Init(), ins)[m].Removed?
    ensures var e := Trace(Init(), ins)[k];
            Exec(Init(), ins).delayNs == if e.now > e.packet.timestamp then e.now - e.packet.timestamp else 0
  {
    var n := |ins| - 1;
    LastStep(Init(), ins);
    if k < n {
      ReportedDelayIs(ins[..n], k);
    } else {
      ExaminationIs(ins, k);
      assert ins[..k + 1] == ins;
    }
  }

  // ---- The quantum ----

  /** A flow that gains its first packet may send until 1514 bytes are taken: while it stays backlogged and has not
      been rotated, a pass that finds it in front rotates it if and only if that many bytes are gone. */
  lemma RevivedFlowQuantum(s: Sched, f: FlowIndex, p: Packet, ins: seq<Input>, now: nat)
    requires s.WellFormed() && s.flows[f].packets == []
    requires var start := Enqueue(s, f, p); StaysBacklogged(start, ins, f) && Rotations(Trace(start, ins), f) == 0
    requires var t := Exec(Enqueue(s, f, p), ins); !t.Unlisted() && t.Front() == f
    ensures var start := Enqueue(s, f, p);
            Step(Exec(start, ins), Turn(now)).1 == Rotated(f) <==> BytesTaken(Trace(start, ins), f) >= 1514
  {
    ServiceIdentity(Enqueue(s, f, p), ins, f);
  }
}
