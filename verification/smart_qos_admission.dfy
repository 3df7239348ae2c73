/** The SmartQoS scheduler as its callers see it: what the calls and their answers alone say about which offers are
    accepted, what polls hand out and what the counters hold. */
module SmartQosAdmission {
  import opened Packets
  import opened SmartQos

  /** What a call returns: an offer is accepted or refused, a poll hands out a packet or none. */
  datatype Answer = Taken(ok: bool) | Given(packet: Option<Packet>)

  function AnswerOf(q: Qos, c: Call): Answer
    requires q.WellFormed()
  {
    match c
    case Offer(p) => Taken(Enqueue(q, p).1)
    case Poll => Given(if Dequeue(q).1.Sent? then Some(Dequeue(q).1.packet) else None)
  }

  function Answers(q: Qos, calls: seq<Call>): (answers: seq<Answer>)
    requires q.WellFormed()
    ensures |answers| == |calls|
  {
    if calls == [] then [] else
      var before := calls[..|calls| - 1];
      Answers(q, before) + [AnswerOf(Exec(q, before), calls[|calls| - 1])]
  }

  /** Class numbers from 5 on count as best effort. */
  predicate OfClass(p: Packet, c: nat)
  {
    c == if p.trafficClass < 5 then p.trafficClass else 3
  }

  // ---- Counting calls and answers ----

  function OfferedOf(calls: seq<Call>, c: nat): seq<Packet>
  {
    if calls == [] then [] else
      var call := calls[|calls| - 1];
      OfferedOf(calls[..|calls| - 1], c) + if call.Offer? && OfClass(call.packet, c) then [call.packet] else []
  }

  function TakenOf(calls: seq<Call>, answers: seq<Answer>, c: nat): seq<Packet>
    requires |calls| == |answers|
  {
    if calls == [] then [] else
      var n := |calls| - 1;
      TakenOf(calls[..n], answers[..n], c)
        + if calls[n].Offer? && OfClass(calls[n].packet, c) && answers[n] == Taken(true) then [calls[n].packet] else []
  }

  function GivenOf(answers: seq<Answer>, c: nat): seq<Packet>
  {
    if answers == [] then [] else
      var a := answers[|answers| - 1];
      GivenOf(answers[..|answers| - 1], c)
        + if a.Given? && a.packet.Some? && OfClass(a.packet.value, c) then [a.packet.value] else []
  }

  // ---- The queues as the difference of what was taken and given ----

  /** Queue `c` holds what was taken of its class and not yet given, and the counters hold the counts. */
  ghost predicate ClassExplained(q: Qos, calls: seq<Call>, answers: seq<Answer>, c: nat)
    requires q.WellFormed() && |calls| == |answers| && c < NUM_QUEUES
  {
    && (forall k | 0 <= k < |q.queues[c]| :: OfClass(q.queues[c][k], c))
    && TakenOf(calls, answers, c) == GivenOf(answers, c) + q.queues[c]
    && q.stats[c].enqueued == |TakenOf(calls, answers, c)|
    && q.stats[c].dequeued == |GivenOf(answers, c)|
    && q.stats[c].dropped == |OfferedOf(calls, c)| - |TakenOf(calls, answers, c)|
    && q.stats[c].occupancy == |q.queues[c]| <= 256
  }

  lemma OfferExplained(q: Qos, calls: seq<Call>, answers: seq<Answer>, p: Packet, c: nat)
    requires q.WellFormed() && |calls| == |answers| && c < NUM_QUEUES && ClassExplained(q, calls, answers, c)
    ensures ClassExplained(Enqueue(q, p).0, calls + [Offer(p)], answers + [AnswerOf(q, Offer(p))], c)
  {
    var calls', answers' := calls + [Offer(p)], answers + [AnswerOf(q, Offer(p))];
    assert calls'[..|calls|] == calls && answers'[..|answers|] == answers;
    assert GivenOf(answers', c) == GivenOf(answers, c);
  }

  lemma OneMorePoll(calls: seq<Call>, answers: seq<Answer>, a: Option<Packet>, c: nat)
    requires |calls| == |answers|
    ensures var calls' := calls + [Poll]; var answers' := answers + [Given(a)];
            && TakenOf(calls', answers', c) == TakenOf(calls, answers, c) && OfferedOf(calls', c) == OfferedOf(calls, c)
            && GivenOf(answers', c) == GivenOf(answers, c) + if a.Some? && OfClass(a.value, c) then [a.value] else []
  {
    var calls', answers' := calls + [Poll], answers + [Given(a)];
    assert calls'[..|calls|] == calls && answers'[..|answers|] == answers;
  }

  /** Class `c` after a poll that handed out `a`: the head of the queue if `a` is of the class, otherwise nothing. */
  ghost predicate PollLeaves(q: Qos, t: Qos, a: Option<Packet>, c: nat)
    requires q.WellFormed() && t.WellFormed() && c < NUM_QUEUES
  {
    if a.Some? && OfClass(a.value, c) then
      && q.queues[c] == [a.value] + t.queues[c]
      && t.stats[c].dequeued == q.stats[c].dequeued + 1 && t.stats[c].occupancy == |t.queues[c]|
      && t.stats[c].enqueued == q.stats[c].enqueued && t.stats[c].dropped == q.stats[c].dropped
    else t.queues[c] == q.queues[c] && t.stats[c] == q.stats[c]
  }

  lemma PollTakesHead(q: Qos, calls: seq<Call>, answers: seq<Answer>, c: nat)
    requires q.WellFormed() && |calls| == |answers| && c < NUM_QUEUES
    requires forall i | 0 <= i < NUM_QUEUES :: ClassExplained(q, calls, answers, i)
    ensures PollLeaves(q, Dequeue(q).0, AnswerOf(q, Poll).packet, c)
  {
    var (t, out) := Dequeue(q);
    DequeueEffect(q);
    assert ClassEffect(q, t, out, c);
    if out.Sent? {
      assert ClassEffect(q, t, out, out.cls) && ClassExplained(q, calls, answers, out.cls);
      assert OfClass(out.packet, out.cls);
      if out.cls == c { HeadIsGiven(q.queues[c], t.queues[c], out.packet); }
    }
  }

  lemma PollKeepsExplained(q: Qos, t: Qos, calls: seq<Call>, answers: seq<Answer>, a: Option<Packet>, c: nat)
    requires q.WellFormed() && t.WellFormed() && |calls| == |answers| && c < NUM_QUEUES
    requires ClassExplained(q, calls, answers, c) && PollLeaves(q, t, a, c)
    ensures ClassExplained(t, calls + [Poll], answers + [Given(a)], c)
  {
    OneMorePoll(calls, answers, a, c);
    if a.Some? && OfClass(a.value, c) {
      forall k | 0 <= k < |t.queues[c]| ensures OfClass(t.queues[c][k], c) {
        assert q.queues[c][k + 1] == t.queues[c][k];
      }
    }
  }

  lemma PollExplained(q: Qos, calls: seq<Call>, answers: seq<Answer>, c: nat)
    requires q.WellFormed() && |calls| == |answers| && c < NUM_QUEUES
    requires forall i | 0 <= i < NUM_QUEUES :: ClassExplained(q, calls, answers, i)
    ensures ClassExplained(Dequeue(q).0, calls + [Poll], answers + [AnswerOf(q, Poll)], c)
  {
    PollTakesHead(q, calls, answers, c);
    PollKeepsExplained(q, Dequeue(q).0, calls, answers, AnswerOf(q, Poll).packet, c);
  }

  lemma HeadIsGiven(queue: seq<Packet>, rest: seq<Packet>, p: Packet)
    requires queue != [] && rest == queue[1..] && p == queue[0]
    ensures queue == [p] + rest && forall k | 0 <= k < |rest| :: rest[k] == queue[k + 1]
  {
  }

  /** Over any run from the empty scheduler and for each class: the packets accepted are those handed out, in that
      order, followed by those queued; the four counters are the counts of the calls and answers; and at most 256
      packets are queued. */
  lemma {:induction false} RunExplained(calls: seq<Call>)
    ensures forall c | 0 <= c < NUM_QUEUES :: ClassExplained(Exec(Init(), calls), calls, Answers(Init(), calls), c)
  {
    if calls != [] {
      var n := |calls| - 1;
      var q, answers := Exec(Init(), calls[..n]), Answers(Init(), calls[..n]);
      RunExplained(calls[..n]);
      assert calls == calls[..n] + [calls[n]];
      forall c | 0 <= c < NUM_QUEUES ensures ClassExplained(Exec(Init(), calls), calls, Answers(Init(), calls), c) {
        match calls[n]
        case Offer(p) => OfferExplained(q, calls[..n], answers, p, c);
        case Poll => PollExplained(q, calls[..n], answers, c);
      }
    }
  }

  // ---- What the callers can rely on ----

  lemma LastAnswer(calls: seq<Call>, call: Call)
    ensures Answers(Init(), calls + [call]) == Answers(Init(), calls) + [AnswerOf(Exec(Init(), calls), call)]
  {
    assert (calls + [call])[..|calls|] == calls;
  }

  /** Admission, in every run: an offer is refused if and only if 256 packets of its class were accepted and not yet
      handed out; there are never more. */
  lemma AdmissionRule(calls: seq<Call>, p: Packet, c: nat)
    requires OfClass(p, c)
    ensures var answers := Answers(Init(), calls);
            var waiting := |TakenOf(calls, answers, c)| - |GivenOf(answers, c)|;
            && 0 <= waiting <= 256
            && Answers(Init(), calls + [Offer(p)]) == answers + [Taken(waiting < 256)]
  {
    RunExplained(calls);
    LastAnswer(calls, Offer(p));
    assert ClassExplained(Exec(Init(), calls), calls, Answers(Init(), calls), c);
  }

  /** Service, in every run: a poll hands out, if anything, the oldest packet of some class that was accepted and not
      yet handed out, and one of class 0 whenever there is one. */
  lemma ServiceRule(calls: seq<Call>)
    ensures var answers := Answers(Init(), calls); var a := Answers(Init(), calls + [Poll])[|calls|];
            && a.Given?
            && (|TakenOf(calls, answers, 0)| > |GivenOf(answers, 0)| ==> a.packet.Some? && OfClass(a.packet.value, 0))
            && (a.packet.Some? ==>
                  exists c | 0 <= c < 5 ::
                    OfClass(a.packet.value, c) && GivenOf(answers, c) + [a.packet.value] <= TakenOf(calls, answers, c))
  {
    RunExplained(calls);
    LastAnswer(calls, Poll);
    var q, answers := Exec(Init(), calls), Answers(Init(), calls);
    var (t, out) := Dequeue(q);
    DequeueEffect(q);
    assert ClassExplained(q, calls, answers, 0);
    if out.Sent? {
      var c := out.cls;
      assert ClassEffect(q, t, out, c) && ClassExplained(q, calls, answers, c);
      HeadIsGiven(q.queues[c], t.queues[c], out.packet);
      HeadFollows(TakenOf(calls, answers, c), GivenOf(answers, c), q.queues[c], out.packet);
    }
  }

  lemma HeadFollows(taken: seq<Packet>, given: seq<Packet>, queue: seq<Packet>, p: Packet)
    requires taken == given + queue && queue != [] && queue[0] == p
    ensures given + [p] <= taken
  {
  }

  lemma OneMoreOffer(calls: seq<Call>, answers: seq<Answer>, p: Packet, ok: bool, c: nat)
    requires |calls| == |answers|
    ensures var calls' := calls + [Offer(p)]; var answers' := answers + [Taken(ok)];
            && TakenOf(calls', answers', c) == TakenOf(calls, answers, c) + (if OfClass(p, c) && ok then [p] else [])
            && OfferedOf(calls', c) == OfferedOf(calls, c) + (if OfClass(p, c) then [p] else [])
            && GivenOf(answers', c) == GivenOf(answers, c)
  {
    var calls', answers' := calls + [Offer(p)], answers + [Taken(ok)];
    assert calls'[..|calls|] == calls && answers'[..|answers|] == answers;
  }

  function Least(a: nat, b: nat): nat { if a < b then a else b }

  /** The first 256 packets of a list, or all of them. */
  function First256(ps: seq<Packet>): seq<Packet>
  {
    ps[..Least(|ps|, 256)]
  }

  lemma First256Grows(ps: seq<Packet>, p: Packet)
    ensures First256(ps + [p]) == First256(ps) + if |First256(ps)| < 256 then [p] else []
  {
  }

  /** One more offer after calls of which the first 256 offers were taken and nothing was given. */
  lemma OneMoreTaken(before: seq<Call>, p: Packet, c: nat)
    requires c < 5
    requires var answers := Answers(Init(), before);
             TakenOf(before, answers, c) == First256(OfferedOf(before, c)) && GivenOf(answers, c) == []
    ensures var calls := before + [Offer(p)]; var answers := Answers(Init(), calls);
            TakenOf(calls, answers, c) == First256(OfferedOf(calls, c)) && GivenOf(answers, c) == []
  {
    var ok := Enqueue(Exec(Init(), before), p).1;
    LastAnswer(before, Offer(p));
    OneMoreOffer(before, Answers(Init(), before), p, ok, c);
    if OfClass(p, c) {
      AdmissionRule(before, p, c);
      assert Answers(Init(), before + [Offer(p)])[|before|] == Taken(ok);
      First256Grows(OfferedOf(before, c), p);
    }
  }

  /** Without a poll exactly the first 256 offers of a class are accepted. */
  lemma {:induction false} OffersWithoutPoll(calls: seq<Call>, c: nat)
    requires c < 5 && forall k | 0 <= k < |calls| :: calls[k].Offer?
    ensures var offered := OfferedOf(calls, c);
            TakenOf(calls, Answers(Init(), calls), c) == offered[..Least(|offered|, 256)]
    ensures GivenOf(Answers(Init(), calls), c) == []
  {
    if calls != [] {
      var before := calls[..|calls| - 1];
      OffersWithoutPoll(before, c);
      OneMoreTaken(before, calls[|calls| - 1].packet, c);
      assert calls == before + [Offer(calls[|calls| - 1].packet)];
    }
  }
}
