/** The UMEM frame allocator (src/core/xsk_umem.cpp): a free list of frame offsets kept in a ring. */
module UmemPool {
  import opened Packets
  import opened Bitwise
  import opened RingProtocol
  import opened RingBuffer

  const FRAME_SIZE: nat := 2048
  const NUM_FRAMES: nat := 4096
  const UMEM_SIZE: nat := NUM_FRAMES * FRAME_SIZE

  // ---- The allocator as a value ----

  /** `held` is the set of frames that clients were given and have not freed. */
  datatype Frames = Frames(free: seq<nat>, held: set<nat>)

  datatype Call = Alloc | Free(addr: nat)

  function Step(p: Frames, c: Call): (Frames, Option<nat>)
  {
    match c
    case Alloc =>
      if p.free == [] then (p, None)
      else (Frames(p.free[1..], p.held + {p.free[0]}), Some(p.free[0]))
    case Free(a) =>
      (Frames(if |p.free| < NUM_FRAMES then p.free + [a] else p.free, p.held - {a}), None)
  }

  function Exec(p: Frames, calls: seq<Call>): Frames
  {
    if calls == [] then p else Step(Exec(p, calls[..|calls| - 1]), calls[|calls| - 1]).0
  }

  /** The offsets of the first `n` frames. */
  function Offsets(n: nat): set<nat>
  {
    set i | 0 <= i < n :: i * FRAME_SIZE
  }

  function FirstOffsets(n: nat): seq<nat>
  {
    seq(n, i requires 0 <= i < n => i * FRAME_SIZE)
  }

  ghost predicate Distinct(s: seq<nat>)
  {
    forall i, j | 0 <= i < j < |s| :: s[i] != s[j]
  }

  function Elements(s: seq<nat>): set<nat>
  {
    set x | x in s
  }

  /** Every frame is either free, once, or held. */
  ghost predicate Partition(p: Frames)
  {
    Distinct(p.free) && Elements(p.free) !! p.held && Elements(p.free) + p.held == Offsets(NUM_FRAMES)
  }

  lemma OffsetIs(x: nat, n: nat)
    ensures x in Offsets(n) <==> x % FRAME_SIZE == 0 && x < n * FRAME_SIZE
  {
    if x % FRAME_SIZE == 0 && x < n * FRAME_SIZE {
      assert x == (x / FRAME_SIZE) * FRAME_SIZE;
    }
  }

  lemma {:induction false} OffsetsCount(n: nat)
    ensures |Offsets(n)| == n
  {
    if n > 0 {
      OffsetsCount(n - 1);
      OffsetIs((n - 1) * FRAME_SIZE, n - 1);
      assert Offsets(n) == Offsets(n - 1) + {(n - 1) * FRAME_SIZE};
    }
  }

  lemma {:induction false} DistinctCount(s: seq<nat>)
    requires Distinct(s)
    ensures |Elements(s)| == |s|
  {
    if s != [] {
      var front, last := s[..|s| - 1], s[|s| - 1];
      DistinctCount(front);
      assert Elements(s) == Elements(front) + {last};
      assert last !in Elements(front);
    }
  }

  /** As many frames are free as are not held. */
  lemma PartitionCount(p: Frames)
    requires Partition(p)
    ensures |p.free| + |p.held| == NUM_FRAMES
  {
    DistinctCount(p.free);
    OffsetsCount(NUM_FRAMES);
    assert |Elements(p.free) + p.held| == |Elements(p.free)| + |p.held|;
  }

  lemma InitPartition()
    ensures Partition(Frames(FirstOffsets(NUM_FRAMES), {}))
  {
    var s := FirstOffsets(NUM_FRAMES);
    forall x: nat ensures x in Elements(s) <==> x in Offsets(NUM_FRAMES) {
      OffsetIs(x, NUM_FRAMES);
      if x in Offsets(NUM_FRAMES) {
        assert s[x / FRAME_SIZE] == x;
      }
    }
    assert Elements(s) == Offsets(NUM_FRAMES);
  }

  lemma HeadIsUnique(s: seq<nat>)
    requires Distinct(s) && s != []
    ensures s[0] !in s[1..] && Distinct(s[1..]) && Elements(s) == Elements(s[1..]) + {s[0]}
  {
    forall j | 0 <= j < |s| - 1 ensures s[1..][j] == s[j + 1] != s[0] {}
    assert s == [s[0]] + s[1..];
  }

  lemma HandOutHead(p: Frames)
    requires Partition(p) && p.free != []
    ensures p.free[0] !in p.held && Partition(Frames(p.free[1..], p.held + {p.free[0]}))
  {
    var x, rest := p.free[0], p.free[1..];
    HeadIsUnique(p.free);
    assert x in Elements(p.free);
    assert Elements(rest) + (p.held + {x}) == Elements(p.free) + p.held;
  }

  lemma AllocPartition(p: Frames)
    requires Partition(p)
    ensures var (p', r) := Step(p, Alloc);
            && Partition(p')
            && (r.None? <==> |p.held| == 4096)
            && (r.Some? ==> r.value !in p.held && r.value in p'.held)
  {
    PartitionCount(p);
    if p.free != [] {
      HandOutHead(p);
    }
  }

  lemma FreePartition(p: Frames, a: nat)
    requires Partition(p) && a in p.held
    ensures var p' := Step(p, Free(a)).0;
            Partition(p') && p'.free == p.free + [a]
  {
    PartitionCount(p);
    assert p.held != {};
    assert a !in Elements(p.free);
    LastIsUnique(p.free, a);
  }

  lemma LastIsUnique(s: seq<nat>, a: nat)
    requires Distinct(s) && a !in s
    ensures Distinct(s + [a]) && Elements(s + [a]) == Elements(s) + {a}
  {
  }

  /** Clients free only frames they hold. */
  ghost predicate WellBehaved(p: Frames, calls: seq<Call>)
  {
    calls == [] ||
    (var before := calls[..|calls| - 1];
     && WellBehaved(p, before)
     && (calls[|calls| - 1].Free? ==> calls[|calls| - 1].addr in Exec(p, before).held))
  }

  /** Over any run of well-behaved clients, free and held frames partition the pool: no frame is handed out twice,
      none is lost, and the push of a freed frame, whose result the code ignores, never fails. */
  lemma {:induction false} RunPartition(p: Frames, calls: seq<Call>)
    requires Partition(p) && WellBehaved(p, calls)
    ensures Partition(Exec(p, calls))
  {
    if calls != [] {
      var before := calls[..|calls| - 1];
      RunPartition(p, before);
      match calls[|calls| - 1]
      case Alloc => AllocPartition(Exec(p, before));
      case Free(a) => FreePartition(Exec(p, before), a);
    }
  }

  // ---- Frame pointers ----

  /** The offset behind the pointer that `get_frame_ptr` returns, on 64-bit arithmetic. */
  function GetFrame(addr: nat): Option<nat>
  {
    if (addr + FRAME_SIZE) % WORD64 > UMEM_SIZE then None else Some(addr)
  }

  lemma MultiplesApart(i: nat, j: nat)
    ensures i < j ==> i * FRAME_SIZE + FRAME_SIZE <= j * FRAME_SIZE
    ensures j < i ==> j * FRAME_SIZE + FRAME_SIZE <= i * FRAME_SIZE
    ensures i < NUM_FRAMES ==> i * FRAME_SIZE + FRAME_SIZE <= UMEM_SIZE
  {
  }

  /** Held frames have pointers; their bytes lie in the pool and do not overlap. */
  lemma HeldFramesAreDisjoint(p: Frames, a: nat, b: nat)
    requires Partition(p) && a in p.held && b in p.held && a != b
    ensures GetFrame(a) == Some(a) && a + 2048 <= 0x80_0000
    ensures a + 2048 <= b || b + 2048 <= a
  {
    assert a in Offsets(NUM_FRAMES) && b in Offsets(NUM_FRAMES);
    OffsetIs(a, NUM_FRAMES);
    OffsetIs(b, NUM_FRAMES);
    MultiplesApart(a / FRAME_SIZE, b / FRAME_SIZE);
  }

  /** The bounds check is exact for an address exactly when adding the frame size to it does not wrap. */
  lemma BoundsCheckIsExactIff(addr: nat)
    requires addr < WORD64
    ensures (GetFrame(addr).Some? <==> addr + 2048 <= 0x80_0000) <==> addr < WORD64 - 2048
  {
  }

  /** The failing input: the lowest address at which the sum wraps is accepted. */
  lemma BoundsCheckAcceptsWrappedSum()
    ensures var addr := WORD64 - FRAME_SIZE; GetFrame(addr) == Some(addr) && addr + FRAME_SIZE > UMEM_SIZE
  {
  }

  // ---- The allocator as an object ----

  class XSKUmemPool {
    const freeRing: SPSCRingBuffer<nat>
    /** What clients hold, as the calls made so far imply. */
    ghost var held: set<nat>

    ghost predicate Valid()
      reads this, freeRing
    {
      freeRing.Valid() && freeRing.capacity == NUM_FRAMES
    }

    ghost function State(): Frames
      reads this, freeRing, freeRing.buffer
      requires Valid()
    {
      Frames(freeRing.Contents(), held)
    }

    constructor ()
      ensures Valid() && fresh(freeRing) && fresh(freeRing.buffer)
      ensures State() == Frames(FirstOffsets(NUM_FRAMES), {}) && Partition(State())
      ensures |State().free| == 4096 && forall i | 0 <= i < 4096 :: State().free[i] == 2048 * i
    {
      assert IsCapacity(NUM_FRAMES) by { assert Pow2(12) == NUM_FRAMES; }
      freeRing := new SPSCRingBuffer<nat>(NUM_FRAMES);
      held := {};
      new;
      for i := 0 to NUM_FRAMES
        invariant Valid() && held == {}
        invariant freeRing.Contents() == FirstOffsets(i)
      {
        var _ := freeRing.Push(i * FRAME_SIZE);
        assert FirstOffsets(i + 1) == FirstOffsets(i) + [i * FRAME_SIZE];
      }
      InitPartition();
    }

    method AllocFrame() returns (r: Option<nat>)
      requires Valid()
      modifies this, freeRing
      ensures Valid()
      ensures (State(), r) == Step(old(State()), Alloc)
    {
      r := freeRing.Pop();
      held := if r.Some? then held + {r.value} else held;
    }

    method FreeFrame(addr: nat)
      requires Valid()
      modifies this, freeRing, freeRing.buffer
      ensures Valid()
      ensures State() == Step(old(State()), Free(addr)).0
    {
      var _ := freeRing.Push(addr);
      held := held - {addr};
    }

    method GetFramePtr(addr: nat) returns (r: Option<nat>)
      requires addr < WORD64
      ensures addr < WORD64 - FRAME_SIZE ==> (r == Some(addr) <==> addr + 2048 <= 0x80_0000)
      ensures r == GetFrame(addr)
    {
      r := if (addr + FRAME_SIZE) % WORD64 > UMEM_SIZE then None else Some(addr);
    }
  }
}
