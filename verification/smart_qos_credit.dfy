/** The 32-bit credits of the SmartQoS scheduler: when they cannot wrap, exactly when they can, and how long a
    backlogged class waits. */
module SmartQosCredit {
  import opened Packets
  import opened SmartQos

  // ---- Runs ----

  lemma {:induction false} ExecConcat(q: Qos, a: seq<Call>, b: seq<Call>)
    requires q.WellFormed()
    ensures Exec(q, a + b) == Exec(Exec(q, a), b)
  {
    if b == [] {
      assert a + b == a;
    } else {
      assert (a + b)[..|a + b| - 1] == a + b[..|b| - 1];
      ExecConcat(q, a, b[..|b| - 1]);
    }
  }

  /** The number of packets sent during a run. */
  function SentCount(q: Qos, calls: seq<Call>): nat
    requires q.WellFormed()
  {
    if calls == [] then 0 else
      var before := calls[..|calls| - 1];
      SentCount(q, before) + if Step(Exec(q, before), calls[|calls| - 1]).1.Sent? then 1 else 0
  }

  /** What a poll that sends nothing does to class `i`. */
  lemma SilentPoll(q: Qos, i: nat)
    requires q.WellFormed() && 1 <= i < NUM_QUEUES && Dequeue(q).1.Nothing?
    ensures PassedOver(q, Dequeue(q).0, i) && q.queues[0] == []
  {
    DequeueEffect(q);
    assert ClassEffect(q, Dequeue(q).0, Dequeue(q).1, i);
  }

  // ---- Credits that cannot wrap ----

  /** A credit that starts non-negative does not wrap within so many polls as its weights fit below 2^31. */
  lemma {:induction false} CreditWithinPolls(q: Qos, calls: seq<Call>, i: nat)
    requires q.WellFormed() && 1 <= i < NUM_QUEUES
    requires q.deficits[i] >= 0 && q.deficits[i] + Polls(calls) * Weight(i) <= INT32_MAX
    ensures 0 <= Exec(q, calls).deficits[i] <= q.deficits[i] + Polls(calls) * Weight(i)
  {
    if calls != [] {
      var before := calls[..|calls| - 1];
      if calls[|calls| - 1].Poll? {
        OneRoundMore(Polls(calls), Weight(i));
        CreditWithinPolls(q, before, i);
        var t := Exec(q, before);
        DequeueEffect(t);
        assert ClassEffect(t, Dequeue(t).0, Dequeue(t).1, i);
      } else {
        CreditWithinPolls(q, before, i);
      }
    }
  }

  /** Class `i` holds packets of `s` to `m` bytes only. */
  predicate Holds(q: Qos, i: nat, s: nat, m: nat)
    requires q.WellFormed() && i < NUM_QUEUES
  {
    forall k | 0 <= k < |q.queues[i]| :: s <= q.queues[i][k].size <= m
  }

  predicate OffersBetween(calls: seq<Call>, i: nat, s: nat, m: nat)
  {
    forall k | 0 <= k < |calls| ::
      calls[k].Offer? && QueueIndex(calls[k].packet) == i ==> s <= calls[k].packet.size <= m
  }

  lemma StepHolds(q: Qos, c: Call, i: nat, s: nat, m: nat)
    requires q.WellFormed() && i < NUM_QUEUES && Holds(q, i, s, m)
    requires c.Offer? && QueueIndex(c.packet) == i ==> s <= c.packet.size <= m
    ensures Holds(Step(q, c).0, i, s, m)
  {
    var (t, out) := Step(q, c);
    if c.Poll? {
      DequeueEffect(q);
      assert ClassEffect(q, t, out, i);
      forall k | 0 <= k < |t.queues[i]| ensures s <= t.queues[i][k].size <= m {
        if t.queues[i] != q.queues[i] { assert t.queues[i][k] == q.queues[i][k + 1]; }
      }
    }
  }

  lemma StepCredit(q: Qos, c: Call, i: nat, m: nat)
    requires q.WellFormed() && 1 <= i < NUM_QUEUES && m + Weight(i) <= INT32_MAX + 1
    requires Holds(q, i, Weight(i), m) && 0 <= q.deficits[i] < m
    ensures 0 <= Step(q, c).0.deficits[i] < m
  {
    if c.Poll? {
      DequeueEffect(q);
      assert ClassEffect(q, Dequeue(q).0, Dequeue(q).1, i);
      if q.queues[i] != [] { assert Weight(i) <= q.queues[i][0].size <= m; }
    }
  }

  /** Credit never accumulates in a class whose packets have at least its weight in bytes: with such packets of at
      most m bytes it stays below m for ever, and never wraps. */
  lemma {:induction false} CreditBound(q: Qos, calls: seq<Call>, i: nat, m: nat)
    requires q.WellFormed() && 1 <= i < NUM_QUEUES && m + Weight(i) <= INT32_MAX + 1
    requires Holds(q, i, Weight(i), m) && 0 <= q.deficits[i] < m && OffersBetween(calls, i, Weight(i), m)
    ensures var t := Exec(q, calls); Holds(t, i, Weight(i), m) && 0 <= t.deficits[i] < m && !t.Wraps(i)
  {
    if calls != [] {
      var before, c := calls[..|calls| - 1], calls[|calls| - 1];
      assert c == calls[|calls| - 1];
      CreditBound(q, before, i, m);
      StepHolds(Exec(q, before), c, i, Weight(i), m);
      StepCredit(Exec(q, before), c, i, m);
    }
  }

  // ---- Credits that do wrap ----

  /** Every queue is empty. */
  predicate Idle(q: Qos)
    requires q.WellFormed()
  {
    forall j | 0 <= j < NUM_QUEUES :: q.queues[j] == []
  }

  /** `n` rounds of one packet offered and one poll. */
  function Rounds(p: Packet, n: nat): seq<Call>
  {
    if n == 0 then [] else Rounds(p, n - 1) + [Offer(p), Poll]
  }

  lemma OneRound(q: Qos, p: Packet)
    requires q.WellFormed() && Idle(q)
    ensures Exec(q, [Offer(p), Poll]) == Dequeue(Enqueue(q, p).0).0
  {
    var round := [Offer(p), Poll];
    assert round[..1] == [Offer(p)] && round[..1][..0] == [];
    assert Exec(q, round[..1]) == Enqueue(q, p).0;
  }

  /** A packet smaller than its class's weight leaves the class idle with the difference as credit. */
  lemma RoundGains(q: Qos, p: Packet)
    requires q.WellFormed() && Idle(q)
    requires var i := QueueIndex(p); i >= 1 && p.size <= Weight(i) && 0 <= q.deficits[i] && !q.Wraps(i)
    ensures var i := QueueIndex(p); var t := Exec(q, [Offer(p), Poll]);
            Idle(t) && t.deficits[i] == q.deficits[i] + (Weight(i) - p.size)
  {
    var i, offered := QueueIndex(p), Enqueue(q, p).0;
    OneRound(q, p);
    DequeueEffect(offered);
    var (t, out) := Dequeue(offered);
    assert offered.queues[i] == [p] && offered.Ready(i);
    NothingSentIff(offered);
    assert out.cls == i by {
      assert ClassEffect(offered, t, out, out.cls);
    }
    forall j | 0 <= j < NUM_QUEUES ensures t.queues[j] == [] {
      assert ClassEffect(offered, t, out, j);
    }
    assert ClassEffect(offered, t, out, i);
  }

  /** After n such rounds from the empty scheduler the credit is n times the difference. */
  lemma {:induction false} SmallPacketsGainCredit(p: Packet, n: nat)
    requires var i := QueueIndex(p); i >= 1 && p.size <= Weight(i)
    requires var i := QueueIndex(p); n > 0 ==> (n - 1) * (Weight(i) - p.size) + Weight(i) <= INT32_MAX
    ensures var i := QueueIndex(p); var t := Exec(Init(), Rounds(p, n));
            Idle(t) && t.deficits[i] == n * (Weight(i) - p.size)
  {
    if n > 0 {
      var i := QueueIndex(p);
      var gain := Weight(i) - p.size;
      OneRoundMore(n, gain);
      if n > 1 { OneRoundMore(n - 1, gain); }
      SmallPacketsGainCredit(p, n - 1);
      RoundGains(Exec(Init(), Rounds(p, n - 1)), p);
      ExecConcat(Init(), Rounds(p, n - 1), [Offer(p), Poll]);
    }
  }

  lemma {:induction false} RoundsOffer(p: Packet, n: nat, i: nat, s: nat, m: nat)
    requires s <= p.size <= m
    ensures OffersBetween(Rounds(p, n), i, s, m)
  {
    if n > 0 {
      RoundsOffer(p, n - 1, i, s, m);
    }
  }

  lemma Division(a: nat, c: nat)
    requires c > 0
    ensures (a / c) * c <= a < (a / c + 1) * c
  {
    assert a == (a / c) * c + a % c;
  }

  /** Exactly which packet sizes are safe: some run from the empty scheduler with packets of s to m bytes in class i
      brings its credit to the point of wrapping if and only if s is below the weight. */
  lemma CreditWrapsIff(i: nat, s: nat, m: nat)
    requires 1 <= i < NUM_QUEUES && s <= m && m + Weight(i) <= INT32_MAX + 1
    ensures (exists calls: seq<Call> :: OffersBetween(calls, i, s, m) && Exec(Init(), calls).Wraps(i))
              <==> s < Weight(i)
  {
    if s < Weight(i) {
      var p := Packet(s, 0, FiveTuple(0, 0, 0, 0, 0), i);
      var gain: nat := Weight(i) - s;
      var n := (INT32_MAX - Weight(i)) / gain + 1;
      Division(INT32_MAX - Weight(i), gain);
      SmallPacketsGainCredit(p, n);
      RoundsOffer(p, n, i, s, m);
      assert Exec(Init(), Rounds(p, n)).Wraps(i);
    } else {
      forall calls: seq<Call> | OffersBetween(calls, i, s, m) ensures !Exec(Init(), calls).Wraps(i) {
        assert OffersBetween(calls, i, Weight(i), m);
        CreditBound(Init(), calls, i, m);
      }
    }
  }

  // ---- Progress ----

  /** While no poll sends anything, a backlogged class keeps its head packet, gains its weight at every poll and
      still lacks credit. */
  lemma {:induction false} CreditGrows(q: Qos, calls: seq<Call>, i: nat)
    requires q.WellFormed() && 1 <= i < NUM_QUEUES && q.queues[i] != [] && SentCount(q, calls) == 0
    requires q.deficits[i] >= 0 && !q.Wraps(i) && q.queues[i][0].size + Weight(i) <= INT32_MAX + 1
    ensures var t := Exec(q, calls);
            && q.queues[i] <= t.queues[i] && t.deficits[i] == q.deficits[i] + Polls(calls) * Weight(i)
            && (Polls(calls) > 0 ==> t.deficits[i] < q.queues[i][0].size)
  {
    if calls != [] {
      var before := calls[..|calls| - 1];
      CreditGrows(q, before, i);
      if calls[|calls| - 1].Poll? {
        SilentPoll(Exec(q, before), i);
        OneRoundMore(Polls(calls), Weight(i));
      }
    }
  }

  /** Progress, whatever else is queued or arrives: if the next addition does not wrap, the polls that bring the
      credit of a class to the size of its head packet do not all come back empty. */
  lemma Progress(q: Qos, calls: seq<Call>, i: nat)
    requires q.WellFormed() && 1 <= i < NUM_QUEUES && q.queues[i] != []
    requires q.deficits[i] >= 0 && !q.Wraps(i) && q.queues[i][0].size + Weight(i) <= INT32_MAX + 1
    requires Polls(calls) > 0 && q.deficits[i] + Polls(calls) * Weight(i) >= q.queues[i][0].size
    ensures SentCount(q, calls) > 0
  {
    if SentCount(q, calls) == 0 {
      CreditGrows(q, calls, i);
      assert false;
    }
  }

  function CeilDiv(a: nat, b: nat): nat
    requires b > 0
  {
    (a + b - 1) / b
  }

  lemma CeilDivCovers(a: nat, b: nat)
    requires b > 0
    ensures CeilDiv(a, b) * b >= a
    ensures a > 0 ==> CeilDiv(a, b) > 0
  {
    Division(a + b - 1, b);
  }

  /** In particular ceil(s / weight) polls suffice for a head packet of s bytes. */
  lemma ProgressWithinCeiling(q: Qos, calls: seq<Call>, i: nat)
    requires q.WellFormed() && 1 <= i < NUM_QUEUES && q.queues[i] != []
    requires q.deficits[i] >= 0 && !q.Wraps(i) && 1 <= q.queues[i][0].size <= INT32_MAX + 1 - Weight(i)
    requires Polls(calls) >= CeilDiv(q.queues[i][0].size, Weight(i))
    ensures SentCount(q, calls) > 0
  {
    var n, w := CeilDiv(q.queues[i][0].size, Weight(i)), Weight(i);
    CeilDivCovers(q.queues[i][0].size, w);
    assert (Polls(calls) - n) * w >= 0;
    Progress(q, calls, i);
  }

  // ---- Polls alone ----

  function PollCalls(n: nat): seq<Call>
  {
    seq(n, _ => Poll)
  }

  lemma {:induction false} CountPolls(n: nat)
    ensures Polls(PollCalls(n)) == n
  {
    if n > 0 {
      assert PollCalls(n)[..n - 1] == PollCalls(n - 1);
      CountPolls(n - 1);
    }
  }

  lemma PollsConcat(q: Qos, a: nat, b: nat)
    requires q.WellFormed()
    ensures Exec(q, PollCalls(a + b)) == Exec(Exec(q, PollCalls(a)), PollCalls(b))
  {
    assert PollCalls(a + b) == PollCalls(a) + PollCalls(b);
    ExecConcat(q, PollCalls(a), PollCalls(b));
  }

  function Queued(q: Qos): nat
    requires q.WellFormed()
  {
    |q.queues[0]| + |q.queues[1]| + |q.queues[2]| + |q.queues[3]| + |q.queues[4]|
  }

  lemma PollCounts(q: Qos)
    requires q.WellFormed()
    ensures var (t, out) := Dequeue(q); Queued(t) + (if out.Sent? then 1 else 0) == Queued(q)
  {
    DequeueEffect(q);
    var (t, out) := Dequeue(q);
    assert ClassEffect(q, t, out, 0) && ClassEffect(q, t, out, 1) && ClassEffect(q, t, out, 2)
        && ClassEffect(q, t, out, 3) && ClassEffect(q, t, out, 4);
  }

  lemma {:induction false} PollsDrainWhatTheySend(q: Qos, n: nat)
    requires q.WellFormed()
    ensures Queued(Exec(q, PollCalls(n))) + SentCount(q, PollCalls(n)) == Queued(q)
  {
    if n > 0 {
      assert PollCalls(n)[..n - 1] == PollCalls(n - 1);
      PollsDrainWhatTheySend(q, n - 1);
      PollCounts(Exec(q, PollCalls(n - 1)));
    }
  }

  /** Class `i` alone is backlogged. */
  predicate Lone(q: Qos, i: nat)
    requires q.WellFormed() && 1 <= i < NUM_QUEUES
  {
    q.queues[i] != [] && forall j | 0 <= j < NUM_QUEUES && j != i :: q.queues[j] == []
  }

  lemma LonePoll(q: Qos, i: nat)
    requires q.WellFormed() && 1 <= i < NUM_QUEUES && Lone(q, i) && !q.Ready(i)
    ensures var (t, out) := Dequeue(q); out.Nothing? && Lone(t, i) && PassedOver(q, t, i)
  {
    NothingSentIff(q);
    var t := Dequeue(q).0;
    SilentPoll(q, i);
    DequeueEffect(q);
    forall j | 0 <= j < NUM_QUEUES ensures t.queues[j] == q.queues[j] {
      assert ClassEffect(q, t, Dequeue(q).1, j);
    }
  }

  /** A lone class waits silently as long as its credit, wrapped or negative as it may be, stays below the packet. */
  lemma {:induction false} LoneWaits(q: Qos, i: nat, credit: int, n: nat)
    requires q.WellFormed() && 1 <= i < NUM_QUEUES && Lone(q, i) && n > 0
    requires q.Credit(i) == credit && credit + (n - 1) * Weight(i) < q.queues[i][0].size
    ensures var t := Exec(q, PollCalls(n));
            && SentCount(q, PollCalls(n)) == 0 && Lone(t, i) && t.queues[i] == q.queues[i]
            && t.deficits[i] == credit + (n - 1) * Weight(i)
  {
    assert PollCalls(n)[..n - 1] == PollCalls(n - 1);
    if n == 1 {
      assert PollCalls(0) == [];
      LonePoll(q, i);
    } else {
      OneRoundMore(n - 1, Weight(i));
      LoneWaits(q, i, credit, n - 1);
      LonePoll(Exec(q, PollCalls(n - 1)), i);
    }
  }

  /** The wait of a lone class, exactly: one of the next n polls sends its packet if and only if the next addition
      does not wrap and n weights bring the credit to the packet's size. */
  lemma LoneServedIff(q: Qos, i: nat, n: nat)
    requires q.WellFormed() && 1 <= i < NUM_QUEUES && Lone(q, i) && n > 0 && n * Weight(i) <= INT32_MAX
    requires INT32_MIN <= q.deficits[i] <= INT32_MAX && q.queues[i][0].size + Weight(i) <= INT32_MAX + 1
    ensures SentCount(q, PollCalls(n)) > 0 <==>
            !q.Wraps(i) && q.deficits[i] + n * Weight(i) >= q.queues[i][0].size
  {
    OneRoundMore(n, Weight(i));
    if q.Credit(i) + (n - 1) * Weight(i) < q.queues[i][0].size {
      LoneWaits(q, i, q.Credit(i), n);
    } else {
      LoneIsServed(q, i, n);
    }
  }

  lemma {:induction false} LoneIsServed(q: Qos, i: nat, n: nat)
    requires q.WellFormed() && 1 <= i < NUM_QUEUES && Lone(q, i) && n > 0
    requires q.deficits[i] <= INT32_MAX && q.queues[i][0].size + Weight(i) <= INT32_MAX + 1
    requires q.Credit(i) + (n - 1) * Weight(i) >= q.queues[i][0].size
    ensures SentCount(q, PollCalls(n)) > 0
  {
    assert PollCalls(n)[..n - 1] == PollCalls(n - 1);
    var t := Exec(q, PollCalls(n - 1));
    if n == 1 {
      assert PollCalls(0) == [];
      assert (n - 1) * Weight(i) == 0;
      assert t == q && q.Ready(i);
      NothingSentIff(t);
    } else if q.Credit(i) + (n - 2) * Weight(i) >= q.queues[i][0].size {
      LoneIsServed(q, i, n - 1);
    } else {
      OneRoundMore(n - 1, Weight(i));
      LoneWaits(q, i, q.Credit(i), n - 1);
      assert t.Ready(i);
      NothingSentIff(t);
    }
  }

  // ---- The wait of a single packet ----

  lemma {:induction false} MorePollsSendNoLess(q: Qos, n: nat, k: nat)
    requires q.WellFormed() && n <= k
    ensures SentCount(q, PollCalls(n)) <= SentCount(q, PollCalls(k))
  {
    if n < k {
      assert PollCalls(k)[..k - 1] == PollCalls(k - 1);
      MorePollsSendNoLess(q, n, k - 1);
    }
  }

  lemma {:induction false} PollsAcceptNothing(q: Qos, n: nat, i: nat)
    requires q.WellFormed()
    ensures Accepted(q, PollCalls(n), i) == []
  {
    if n > 0 {
      assert PollCalls(n)[..n - 1] == PollCalls(n - 1);
      PollsAcceptNothing(q, n - 1, i);
    }
  }

  lemma {:induction false} SentOfCounts(q: Qos, calls: seq<Call>, i: nat)
    requires q.WellFormed()
    ensures |SentOf(q, calls, i)| <= SentCount(q, calls)
  {
    if calls != [] {
      SentOfCounts(q, calls[..|calls| - 1], i);
    }
  }

  lemma SentWithinPolls(q: Qos, i: nat, n: nat)
    requires q.WellFormed() && 1 <= i < NUM_QUEUES && Lone(q, i) && q.deficits[i] == 0
    requires q.queues[i][0].size + Weight(i) <= INT32_MAX
    ensures SentCount(q, PollCalls(n)) > 0 <==> n > 0 && n * Weight(i) >= q.queues[i][0].size
  {
    var s, w := q.queues[i][0].size, Weight(i);
    if n > 0 {
      if n * w <= INT32_MAX {
        LoneServedIff(q, i, n);
      } else {
        var k := s / w + 1;
        Division(s, w);
        assert k * w == (s / w) * w + w;
        LoneServedIff(q, i, k);
        Order(n, s / w, w);
        MorePollsSendNoLess(q, k, n);
      }
    }
  }

  lemma Order(a: nat, b: nat, w: nat)
    ensures a <= b ==> a * w <= b * w
  {
    if a <= b { assert (b - a) * w >= 0; }
  }

  /** A packet of s bytes offered to the empty scheduler in a class other than 0 is handed out by the first poll that
      brings s bytes together, at 60, 40, 20 or 5 bytes a poll; unknown classes are served like class 3. */
  lemma LonePacketWait(p: Packet, n: nat)
    requires p.trafficClass != 0 && p.size <= INT32_MAX - 60
    ensures var q := Enqueue(Init(), p).0; var c := if p.trafficClass < 5 then p.trafficClass else 3;
            var rate := if c == 1 then 60 else if c == 2 then 40 else if c == 3 then 20 else 5;
            SentOf(q, PollCalls(n), c) == if n > 0 && n * rate >= p.size then [p] else []
  {
    var q, c := Enqueue(Init(), p).0, if p.trafficClass < 5 then p.trafficClass else 3;
    SentWithinPolls(q, c, n);
    PollsDrainWhatTheySend(q, n);
    PollsAcceptNothing(q, n, c);
    ClassIsFifo(q, PollCalls(n), c);
    var left := Exec(q, PollCalls(n)).queues[c];
    assert [p] == SentOf(q, PollCalls(n), c) + left;
    SentOfCounts(q, PollCalls(n), c);
  }

  /** The failing input of the progress promise: n rounds of a small packet bring the credit to the point of
      wrapping; the next packet is then not sent by any number of polls whose weights fit below 2^31. */
  lemma SmallPacketIsStuck(p: Packet, n: nat, polls: nat)
    requires var i := QueueIndex(p); i >= 1 && p.size < Weight(i)
    requires var i := QueueIndex(p); var gain := Weight(i) - p.size;
             n > 0 && (n - 1) * gain + Weight(i) <= INT32_MAX < n * gain + Weight(i)
    requires polls > 0 && polls * Weight(QueueIndex(p)) <= INT32_MAX
    ensures var q := Exec(Init(), Rounds(p, n) + [Offer(p)]);
            q.queues[QueueIndex(p)] == [p] && SentCount(q, PollCalls(polls)) == 0
  {
    var i, idle := QueueIndex(p), Exec(Init(), Rounds(p, n));
    SmallPacketsGainCredit(p, n);
    ExecConcat(Init(), Rounds(p, n), [Offer(p)]);
    assert [Offer(p)][..0] == [];
    var q := Exec(Init(), Rounds(p, n) + [Offer(p)]);
    assert q == Enqueue(idle, p).0;
    OneRoundMore(n, Weight(i) - p.size);
    LoneServedIff(q, i, polls);
  }

  /** For 1-byte packets of class 1 that takes 36398027 rounds, and the packet then waits for 35 million polls. */
  lemma OneBytePacketIsStuck(p: Packet, n: nat, polls: nat)
    requires p.size == 1 && p.trafficClass == 1 && n == 36_398_027 && 0 < polls <= 35_000_000
    ensures var q := Exec(Init(), Rounds(p, n) + [Offer(p)]);
            q.queues[1] == [p] && SentCount(q, PollCalls(polls)) == 0
  {
    SmallPacketIsStuck(p, n, polls);
  }

  // ---- Drain ----

  /** The credits of class `i` cannot wrap before its packets, of at most `m` bytes, are gone. */
  predicate ClassSafe(q: Qos, i: nat, m: nat)
    requires q.WellFormed() && 1 <= i < NUM_QUEUES
  {
    var n := |q.queues[i]|;
    && Holds(q, i, 0, m) && q.deficits[i] >= 0
    && (n > 0 ==> q.deficits[i] + n * Weight(i) <= INT32_MAX && m + n * Weight(i) <= INT32_MAX + 1)
  }

  predicate Safe(q: Qos, m: nat)
    requires q.WellFormed()
  {
    forall i | 1 <= i < NUM_QUEUES :: ClassSafe(q, i, m)
  }

  lemma PollKeepsClassSafe(q: Qos, i: nat, m: nat)
    requires q.WellFormed() && 1 <= i < NUM_QUEUES && ClassSafe(q, i, m)
    ensures ClassSafe(Dequeue(q).0, i, m)
  {
    StepHolds(q, Poll, i, 0, m);
    DequeueEffect(q);
    var (t, out) := Dequeue(q);
    assert ClassEffect(q, t, out, i);
    var n := |q.queues[i]|;
    if n > 0 {
      assert q.queues[i][0].size <= m;
      OneRoundMore(n, Weight(i));
      assert (n - 1) * Weight(i) >= 0;
    }
  }

  lemma {:induction false} PollsKeepSafe(q: Qos, m: nat, n: nat)
    requires q.WellFormed() && Safe(q, m)
    ensures Safe(Exec(q, PollCalls(n)), m)
  {
    if n > 0 {
      assert PollCalls(n)[..n - 1] == PollCalls(n - 1);
      PollsKeepSafe(q, m, n - 1);
      var t := Exec(q, PollCalls(n - 1));
      forall i | 1 <= i < NUM_QUEUES ensures ClassSafe(Dequeue(t).0, i, m) {
        assert ClassSafe(t, i, m);
        PollKeepsClassSafe(t, i, m);
      }
    }
  }

  /** Among n polls, with 5 n >= m, one sends a packet, whatever is queued. */
  lemma OneOfRoundSends(q: Qos, m: nat, n: nat)
    requires q.WellFormed() && Safe(q, m) && 5 * n >= m && n > 0 && Queued(q) > 0
    ensures Queued(Exec(q, PollCalls(n))) < Queued(q)
  {
    PollsDrainWhatTheySend(q, n);
    CountPolls(n);
    if q.queues[0] != [] {
      FirstPollSends(q, n);
    } else {
      var i :| 1 <= i < NUM_QUEUES && q.queues[i] != [];
      assert ClassSafe(q, i, m) && q.queues[i][0].size <= m;
      FirstOfMany(|q.queues[i]|, Weight(i));
      assert n * Weight(i) >= n * 5;
      Progress(q, PollCalls(n), i);
    }
  }

  lemma FirstOfMany(n: nat, w: nat)
    requires n > 0
    ensures w <= n * w
  {
    OneRoundMore(n, w);
    assert (n - 1) * w >= 0;
  }

  lemma {:induction false} FirstPollSends(q: Qos, n: nat)
    requires q.WellFormed() && q.queues[0] != [] && n > 0
    ensures SentCount(q, PollCalls(n)) > 0
  {
    assert PollCalls(n)[..n - 1] == PollCalls(n - 1);
    if n == 1 {
      assert PollCalls(0) == [];
      DequeueEffect(q);
    } else {
      FirstPollSends(q, n - 1);
    }
  }

  /** `p` rounds of `n` polls each. */
  function PollRounds(q: Qos, n: nat, p: nat): (t: Qos)
    requires q.WellFormed()
    ensures t.WellFormed()
    decreases p
  {
    if p == 0 then q else PollRounds(Exec(q, PollCalls(n)), n, p - 1)
  }

  lemma {:induction false} RoundsArePolls(q: Qos, n: nat, p: nat)
    requires q.WellFormed()
    ensures PollRounds(q, n, p) == Exec(q, PollCalls(p * n))
    decreases p
  {
    if p > 0 {
      RoundsArePolls(Exec(q, PollCalls(n)), n, p - 1);
      OneRoundMore(p, n);
      PollsConcat(q, n, (p - 1) * n);
    }
  }

  lemma {:induction false} RoundsCount(q: Qos, n: nat, p: nat)
    requires q.WellFormed()
    ensures Queued(PollRounds(q, n, p)) <= Queued(q)
    decreases p
  {
    if p > 0 {
      PollsDrainWhatTheySend(q, n);
      RoundsCount(Exec(q, PollCalls(n)), n, p - 1);
    }
  }

  lemma {:induction false} DrainsInRounds(q: Qos, m: nat, n: nat, p: nat)
    requires q.WellFormed() && Safe(q, m) && 5 * n >= m && n > 0 && Queued(q) <= p
    ensures Queued(PollRounds(q, n, p)) == 0
    decreases p
  {
    if Queued(q) == 0 {
      RoundsCount(q, n, p);
    } else {
      OneOfRoundSends(q, m, n);
      PollsKeepSafe(q, m, n);
      DrainsInRounds(Exec(q, PollCalls(n)), m, n, p - 1);
    }
  }

  /** Drain: with no arrivals, all packets queued, of at most m bytes, are sent within one round of ceil(m / 5)
      polls each. */
  lemma Drains(q: Qos, m: nat)
    requires q.WellFormed() && Safe(q, m) && m >= 1
    ensures Queued(Exec(q, PollCalls(Queued(q) * CeilDiv(m, 5)))) == 0
  {
    CeilDivCovers(m, 5);
    DrainsInRounds(q, m, CeilDiv(m, 5), Queued(q));
    RoundsArePolls(q, CeilDiv(m, 5), Queued(q));
  }

  const SAFE_CREDIT: nat := INT32_MAX - QUEUE_DEPTH * 60

  /** That is so in every reachable state whose credits are non-negative and 15360 below 2^31. */
  lemma SafeBelow(q: Qos, m: nat)
    requires Inv(q) && m <= SAFE_CREDIT
    requires forall i | 1 <= i < NUM_QUEUES :: 0 <= q.deficits[i] <= SAFE_CREDIT && Holds(q, i, 0, m)
    ensures Safe(q, m)
  {
    forall i | 1 <= i < NUM_QUEUES ensures ClassSafe(q, i, m) {
      ProductAtMost(|q.queues[i]|, Weight(i));
    }
  }

  lemma ProductAtMost(n: nat, w: nat)
    requires n <= QUEUE_DEPTH && w <= 60
    ensures n * w <= QUEUE_DEPTH * 60
  {
    assert n * w <= n * 60;
  }
}
