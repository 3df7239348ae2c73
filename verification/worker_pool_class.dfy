/** The pool of src/core/worker_pool.cpp as an object: the rings, and the counters each worker keeps. Its methods
    are whole calls; worker_pool.dfy is about their interleaving. */
module WorkerPoolClass {
  import opened Packets
  import opened Bitwise
  import RingProtocol
  import opened RingBuffer
  import RssDispatcher
  import Pool = WorkerPool

  const RING_CAPACITY: nat := Pool.RING_CAPACITY

  class CoreMetrics {
    var processedPackets: nat
    var totalBytes: nat

    constructor ()
      ensures processedPackets == 0 && totalBytes == 0
    {
      processedPackets, totalBytes := 0, 0;
    }
  }

  class WorkerPool {
    var rings: seq<SPSCRingBuffer<Packet>>
    var metrics: seq<CoreMetrics>

    ghost predicate Valid()
      reads this, rings
    {
      && |rings| == |metrics| > 0
      && (forall i, j | 0 <= i < j < |rings| :: rings[i] != rings[j] && rings[i].buffer != rings[j].buffer
                                                && metrics[i] != metrics[j])
      && (forall i | 0 <= i < |rings| :: rings[i].Valid() && rings[i].capacity == RING_CAPACITY)
    }

    constructor (requested: uint32)
      ensures Valid() && |rings| == if requested == 0 then 1 else requested
      ensures forall i | 0 <= i < |rings| :: rings[i].Contents() == [] && rings[i].capacity == 1024
      ensures forall i | 0 <= i < |rings| :: metrics[i].processedPackets == 0 && metrics[i].totalBytes == 0
    {
      var numWorkers := Pool.NumWorkers(requested);
      rings, metrics := [], [];
      new;
      assert RingProtocol.IsCapacity(RING_CAPACITY) by { assert Pow2(10) == RING_CAPACITY; }
      for n := 0 to numWorkers
        invariant |rings| == |metrics| == n
        invariant forall i, j | 0 <= i < j < n :: rings[i] != rings[j] && rings[i].buffer != rings[j].buffer
                                                  && metrics[i] != metrics[j]
        invariant forall i | 0 <= i < n :: rings[i].Valid() && rings[i].capacity == RING_CAPACITY
        invariant forall i | 0 <= i < n :: rings[i].Contents() == []
        invariant forall i | 0 <= i < n :: metrics[i].processedPackets == 0 && metrics[i].totalBytes == 0
      {
        var ring := new SPSCRingBuffer<Packet>(RING_CAPACITY);
        var metric := new CoreMetrics();
        rings := rings + [ring];
        metrics := metrics + [metric];
      }
    }

    /** Pushes a packet into the ring of the core its hash picks; false when that ring is full. */
    method DispatchPacket(p: Packet) returns (ok: bool)
      requires Valid()
      modifies rings, set r | r in rings :: r.buffer
      ensures Valid() && rings == old(rings)
      ensures var w := RssDispatcher.DispatchCore(p.tuple, |rings|);
              && (exists k: nat :: RssDispatcher.RssHash(p.tuple) == k * |rings| + w)
              && (ok <==> |old(rings[w].Contents())| < 1024)
              && (forall v | 0 <= v < |rings| ::
                    rings[v].Contents() == old(rings[v].Contents()) + if v == w && ok then [p] else [])
    {
      var w := RssDispatcher.DispatchCore(p.tuple, |rings|);
      RssDispatcher.CoreIsRemainder(p.tuple, |rings|, w);
      ok := rings[w].Push(p);
    }

    /** One turn of a worker's loop: pops and counts, or finds its ring empty. */
    method WorkerTurn(w: nat) returns (r: Option<Packet>)
      requires Valid() && w < |rings|
      modifies rings[w], metrics[w]
      ensures Valid() && rings == old(rings) && metrics == old(metrics)
      ensures r == if old(rings[w].Contents()) == [] then None else Some(old(rings[w].Contents())[0])
      ensures rings[w].Contents() == if r.None? then [] else old(rings[w].Contents())[1..]
      ensures metrics[w].processedPackets == old(metrics[w].processedPackets) + (if r.Some? then 1 else 0)
      ensures metrics[w].totalBytes == old(metrics[w].totalBytes) + (if r.Some? then r.value.size else 0)
    {
      r := rings[w].Pop();
      if r.Some? {
        metrics[w].processedPackets := metrics[w].processedPackets + 1;
        metrics[w].totalBytes := metrics[w].totalBytes + r.value.size;
      }
    }
  }
}
