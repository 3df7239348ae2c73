/** What a push or a pop on the ring returns, over every schedule, and what a call that nobody interrupts does. */
module RingCalls {
  import opened RingProtocol

  lemma InterleaveStep<T>(r: Ring<T>, schedule: seq<Action<T>>, a: Action<T>)
    requires 0 < r.capacity == |r.slots|
    ensures Interleave(r, schedule + [a]) == Act(Interleave(r, schedule), a)
  {
    assert (schedule + [a])[..|schedule|] == schedule;
  }

  // ---- A refused call met a full or an empty ring ----

  /** The step at which a push loaded the head that it still looks at. */
  lemma {:induction false} LastLoadHead<T>(r: Ring<T>, schedule: seq<Action<T>>) returns (j: nat)
    requires Inv(r) && !r.producer.HeadSeen? && Interleave(r, schedule).producer.HeadSeen?
    ensures j < |schedule| && schedule[j].LoadHead? && Interleave(r, schedule[..j]).producer.TailLoaded?
    ensures forall i | j < i <= |schedule| ::
              Interleave(r, schedule[..i]).producer == Interleave(r, schedule).producer
  {
    var n := |schedule| - 1;
    var before := schedule[..n];
    j := n;
    assert schedule[..n + 1] == schedule;
    if Interleave(r, before).producer == Interleave(r, schedule).producer {
      j := LastLoadHead(r, before);
      assert forall i | 0 <= i <= n :: before[..i] == schedule[..i];
    }
  }

  lemma {:induction false} LastLoadTail<T>(r: Ring<T>, schedule: seq<Action<T>>) returns (j: nat)
    requires Inv(r) && !r.consumer.TailSeen? && Interleave(r, schedule).consumer.TailSeen?
    ensures j < |schedule| && schedule[j].LoadTail? && Interleave(r, schedule[..j]).consumer.HeadLoaded?
    ensures forall i | j < i <= |schedule| ::
              Interleave(r, schedule[..i]).consumer == Interleave(r, schedule).consumer
  {
    var n := |schedule| - 1;
    var before := schedule[..n];
    j := n;
    assert schedule[..n + 1] == schedule;
    if Interleave(r, before).consumer == Interleave(r, schedule).consumer {
      j := LastLoadTail(r, before);
      assert forall i | 0 <= i <= n :: before[..i] == schedule[..i];
    }
  }

  /** In every schedule, a push returns false only if the queue held a full capacity of items when it loaded the
      head; that load is its last step before. */
  lemma RefusedPushMetFullRing<T>(r: Ring<T>, schedule: seq<Action<T>>) returns (j: nat)
    requires Inv(r) && r.producer.PushIdle?
    requires Act(Interleave(r, schedule), RejectPush) != Interleave(r, schedule)
    ensures j < |schedule| && schedule[j] == LoadHead && Inv(Interleave(r, schedule[..j]))
    ensures |Interleave(r, schedule[..j]).Queue()| == r.capacity
    ensures Interleave(r, schedule[..j]).producer.TailLoaded?
    ensures forall i | j < i <= |schedule| ::
              Interleave(r, schedule[..i]).producer == Interleave(r, schedule).producer
  {
    j := LastLoadHead(r, schedule);
    var load := Interleave(r, schedule[..j]);
    EveryScheduleIsFifo(r, schedule[..j]);
    InterleaveStep(r, schedule[..j], LoadHead);
    assert schedule[..j + 1] == schedule[..j] + [LoadHead];
    VerdictsAreTrue(load);
  }

  /** In every schedule, a pop returns false only if the queue was empty when it loaded the tail. */
  lemma RefusedPopMetEmptyRing<T>(r: Ring<T>, schedule: seq<Action<T>>) returns (j: nat)
    requires Inv(r) && r.consumer.PopIdle?
    requires Act(Interleave(r, schedule), RejectPop) != Interleave(r, schedule)
    ensures j < |schedule| && schedule[j] == LoadTail && Inv(Interleave(r, schedule[..j]))
    ensures Interleave(r, schedule[..j]).Queue() == []
    ensures Interleave(r, schedule[..j]).consumer.HeadLoaded?
    ensures forall i | j < i <= |schedule| ::
              Interleave(r, schedule[..i]).consumer == Interleave(r, schedule).consumer
  {
    j := LastLoadTail(r, schedule);
    var load := Interleave(r, schedule[..j]);
    EveryScheduleIsFifo(r, schedule[..j]);
    InterleaveStep(r, schedule[..j], LoadTail);
    assert schedule[..j + 1] == schedule[..j] + [LoadTail];
    VerdictsAreTrue(load);
  }

  // ---- Whole calls ----

  lemma ThreeSteps<T>(r: Ring<T>, a: Action<T>, b: Action<T>, c: Action<T>)
    requires 0 < r.capacity == |r.slots|
    ensures Interleave(r, [a, b, c]) == Act(Act(Act(r, a), b), c)
  {
    assert [a, b, c] == [a, b] + [c] && [a, b] == [a] + [b] && [a] == [] + [a];
    InterleaveStep(r, [a, b], c);
    InterleaveStep(r, [a], b);
    InterleaveStep(r, [], a);
  }

  lemma FiveSteps<T>(r: Ring<T>, a: Action<T>, b: Action<T>, c: Action<T>, d: Action<T>, e: Action<T>)
    requires 0 < r.capacity == |r.slots|
    ensures Interleave(r, [a, b, c, d, e]) == Act(Act(Act(Act(Act(r, a), b), c), d), e)
  {
    assert [a, b, c, d, e] == [a, b, c, d] + [e] && [a, b, c, d] == [a, b, c] + [d];
    ThreeSteps(r, a, b, c);
    InterleaveStep(r, [a, b, c], d);
    InterleaveStep(r, [a, b, c, d], e);
  }

  lemma PushWrites<T>(r: Ring<T>, x: T, torn: T)
    requires Inv(r) && r.producer.PushIdle? && |r.Queue()| < r.capacity
    ensures var r' := Act(Act(Act(Act(r, BeginPush(x)), LoadHead), StartWrite(torn)), FinishWrite);
            && Inv(r') && r'.producer == Written(x, r.tail)
            && r'.pushed == r.pushed && r'.popped == r.popped && r'.consumer == r.consumer
  {
    var loaded := Act(r, BeginPush(x));
    ActInv(r, BeginPush(x));
    VerdictsAreTrue(loaded);
    var seen := Act(loaded, LoadHead);
    ActInv(loaded, LoadHead);
    assert Act(seen, StartWrite(torn)).producer == Writing(x, r.tail);
    ActInv(seen, StartWrite(torn));
    ActInv(Act(seen, StartWrite(torn)), FinishWrite);
  }

  /** A push that is not interrupted appends its item to a queue that is not full and leaves a full one alone. */
  lemma PushCall<T>(r: Ring<T>, x: T, torn: T)
    requires Inv(r) && r.producer.PushIdle?
    ensures if |r.Queue()| < r.capacity then
              var r' := Interleave(r, [BeginPush(x), LoadHead, StartWrite(torn), FinishWrite, PublishTail]);
              && Inv(r') && r'.pushed == r.pushed + [x] && r'.Queue() == r.Queue() + [x]
              && r'.popped == r.popped && r'.producer == r.producer && r'.consumer == r.consumer
            else Interleave(r, [BeginPush(x), LoadHead, RejectPush]) == r
  {
    if |r.Queue()| < r.capacity {
      FiveSteps(r, BeginPush(x), LoadHead, StartWrite(torn), FinishWrite, PublishTail);
      PushWrites(r, x, torn);
      RefinesBoundedQueue(Act(Act(Act(Act(r, BeginPush(x)), LoadHead), StartWrite(torn)), FinishWrite), PublishTail);
    } else {
      ThreeSteps(r, BeginPush(x), LoadHead, RejectPush);
      ActInv(r, BeginPush(x));
      VerdictsAreTrue(Act(r, BeginPush(x)));
    }
  }

  lemma PopReads<T>(r: Ring<T>)
    requires Inv(r) && r.consumer.PopIdle? && r.Queue() != []
    ensures var read := r.(consumer := Read(r.head, r.Queue()[0]));
            Act(Act(Act(Act(r, BeginPop), LoadTail), StartRead), FinishRead) == read && Inv(read)
  {
    var loaded := Act(r, BeginPop);
    ActInv(r, BeginPop);
    VerdictsAreTrue(loaded);
    var seen := Act(loaded, LoadTail);
    ActInv(loaded, LoadTail);
    assert Act(seen, StartRead) == r.(consumer := Reading(r.head));
    ActInv(seen, StartRead);
    ReadsFront(r.(consumer := Reading(r.head)));
  }

  lemma ReadsFront<T>(r: Ring<T>)
    requires Inv(r) && r.consumer.Reading?
    ensures var read := r.(consumer := Read(r.head, r.Queue()[0])); Act(r, FinishRead) == read && Inv(read)
  {
    SlotOfCount(|r.popped|, r.capacity);
    ActInv(r, FinishRead);
  }

  lemma PopPublishes<T>(r: Ring<T>)
    requires Inv(r) && r.consumer.Read? && r.consumer.item == r.Queue()[0]
    ensures var r' := Act(r, PublishHead);
            && Inv(r') && r'.popped == r.popped + [r.Queue()[0]] && r'.Queue() == r.Queue()[1..]
            && r'.pushed == r.pushed && r'.producer == r.producer && r'.consumer == PopIdle
  {
    RefinesBoundedQueue(r, PublishHead);
  }

  /** A pop that is not interrupted takes the front of a queue that is not empty, returning it, and leaves an empty one
      alone. */
  lemma PopCall<T>(r: Ring<T>)
    requires Inv(r) && r.consumer.PopIdle?
    ensures if r.Queue() != [] then
              var r' := Interleave(r, [BeginPop, LoadTail, StartRead, FinishRead, PublishHead]);
              && Inv(r') && r'.popped == r.popped + [r.Queue()[0]] && r'.Queue() == r.Queue()[1..]
              && r'.pushed == r.pushed && r'.producer == r.producer && r'.consumer == r.consumer
            else Interleave(r, [BeginPop, LoadTail, RejectPop]) == r
  {
    if r.Queue() != [] {
      FiveSteps(r, BeginPop, LoadTail, StartRead, FinishRead, PublishHead);
      PopReads(r);
      PopPublishes(r.(consumer := Read(r.head, r.Queue()[0])));
    } else {
      ThreeSteps(r, BeginPop, LoadTail, RejectPop);
      ActInv(r, BeginPop);
      VerdictsAreTrue(Act(r, BeginPop));
    }
  }
}
