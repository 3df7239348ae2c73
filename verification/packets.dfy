/** Values shared by the components of the data plane: option values, machine integers and the part of a
    packet that the schedulers, the rings and the dispatcher look at. */
module Packets {

  datatype Option<+T> = None | Some(value: T)

  type uint8 = x: int | 0 <= x < 0x100
  type uint16 = x: int | 0 <= x < 0x1_0000
  type uint32 = x: int | 0 <= x < 0x1_0000_0000

  /** The length of a packet's buffer: below 2 GiB, so that the casts of it to `int32_t` keep its value. */
  type PacketSize = n: int | 0 <= n <= INT32_MAX

  const INT32_MAX: int := 0x7FFF_FFFF
  const INT32_MIN: int := -0x8000_0000

  datatype FiveTuple = FiveTuple(srcIp: uint32, destIp: uint32, srcPort: uint16, destPort: uint16, proto: uint8)

  /** `timestamp` is in nanoseconds. */
  datatype Packet = Packet(size: PacketSize, timestamp: nat, tuple: FiveTuple, trafficClass: uint8)

  function SumSizes(ps: seq<Packet>): nat
  {
    if ps == [] then 0 else ps[0].size + SumSizes(ps[1..])
  }

  lemma {:induction false} SumSizesSnoc(ps: seq<Packet>, p: Packet)
    ensures SumSizes(ps + [p]) == SumSizes(ps) + p.size
  {
    if ps == [] {
      assert ps + [p] == [p];
    } else {
      assert (ps + [p])[1..] == ps[1..] + [p];
      SumSizesSnoc(ps[1..], p);
    }
  }

  /** `a` is `b` with some elements left out, the others in the same order. */
  ghost predicate Subsequence<T>(a: seq<T>, b: seq<T>)
  {
    a == [] ||
    (b != [] && var b' := b[..|b| - 1];
     Subsequence(a, b') || (a[|a| - 1] == b[|b| - 1] && Subsequence(a[..|a| - 1], b')))
  }

  lemma {:induction false} SubsequenceExtends<T>(a: seq<T>, b: seq<T>, c: seq<T>)
    requires Subsequence(a, b)
    ensures Subsequence(a, b + c)
  {
    if c == [] {
      assert b + c == b;
    } else {
      SubsequenceExtends(a, b, c[..|c| - 1]);
      assert (b + c)[..|b + c| - 1] == b + c[..|c| - 1];
    }
  }

  /** Extends `before + arrived == departed + between` by one exchange at the end. */
  lemma Splice<T>(before: seq<T>, arrived: seq<T>, departed: seq<T>, between: seq<T>,
                  a: seq<T>, d: seq<T>, after: seq<T>)
    requires before + arrived == departed + between && between + a == d + after
    ensures before + (arrived + a) == (departed + d) + after
  {
    calc {
      before + (arrived + a);
      (before + arrived) + a;
      departed + (between + a);
      (departed + d) + after;
    }
  }
}
