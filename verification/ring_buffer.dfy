/** The ring of include/core/ring_buffer.hpp as the object one thread at a time calls. */
module RingBuffer {
  import opened Packets
  import opened Bitwise
  import opened RingProtocol

  class SPSCRingBuffer<T(0)> {
    const capacity: nat
    const buffer: array<T>
    var head: nat
    var tail: nat
    /** How often each index was advanced since construction. */
    ghost var pops: nat
    ghost var pushes: nat

    ghost predicate Valid()
      reads this
    {
      && IsCapacity(capacity) && buffer.Length == capacity > 0
      && pops <= pushes <= pops + capacity
      && head == pops % WORD64 && tail == pushes % WORD64
    }

    ghost function Contents(): (q: seq<T>)
      reads this, buffer
      requires Valid()
      ensures |q| == pushes - pops
    {
      seq(pushes - pops, i requires 0 <= i < pushes - pops reads this, buffer requires Valid() =>
        buffer[(pops + i) % capacity])
    }

    constructor (capacity: nat)
      requires IsCapacity(capacity)
      ensures Valid() && this.capacity == capacity && Contents() == [] && fresh(buffer) && pushes == 0
    {
      CapacityFits(capacity);
      this.capacity := capacity;
      buffer := new T[capacity];
      head, tail, pops, pushes := 0, 0, 0, 0;
    }

    method Push(item: T) returns (ok: bool)
      requires Valid()
      modifies this`tail, this`pushes, buffer
      ensures Valid()
      ensures ok <==> |old(Contents())| < capacity
      ensures Contents() == if ok then old(Contents()) + [item] else old(Contents())
    {
      DistanceOfCounts(pops, pushes, capacity);
      if Distance(tail, head) >= capacity {
        return false;
      }
      SlotOfCount(pushes, capacity);
      NextIndex(pushes);
      ghost var before := Contents();
      buffer[Slot(tail, capacity)] := item;
      tail := (tail + 1) % WORD64;
      pushes := pushes + 1;
      forall i | 0 <= i < |before| ensures Contents()[i] == before[i] {
        NearbyDiffer(pops + i, pushes - 1, capacity);
      }
      assert Contents() == before + [item];
      return true;
    }

    method Pop() returns (r: Option<T>)
      requires Valid()
      modifies this`head, this`pops
      ensures Valid()
      ensures r == if old(Contents()) == [] then None else Some(old(Contents())[0])
      ensures Contents() == if r.None? then old(Contents()) else old(Contents())[1..]
    {
      DistanceOfCounts(pops, pushes, capacity);
      if head == tail {
        return None;
      }
      SlotOfCount(pops, capacity);
      NextIndex(pops);
      ghost var before := Contents();
      r := Some(buffer[Slot(head, capacity)]);
      assert before[0] == buffer[pops % capacity];
      head := (head + 1) % WORD64;
      pops := pops + 1;
      forall i | 0 <= i < |before| - 1 ensures Contents()[i] == before[i + 1] {
        assert pops + i == (pops - 1) + (i + 1);
      }
      assert Contents() == before[1..];
    }

    method CurrentSize() returns (n: nat)
      requires Valid()
      ensures n == |Contents()| <==> tail >= head
      ensures tail < head ==> n == 0
    {
      n := if tail >= head then tail - head else 0;
      DistanceOfCounts(pops, pushes, capacity);
      assert tail >= head ==> Distance(tail, head) == tail - head;
    }
  }
}
