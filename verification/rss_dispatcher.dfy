/** The symmetric receive-side-scaling hash (src/core/rss_dispatcher.cpp). */
module RssDispatcher {
  import opened Packets
  import opened Bitwise

  const WORD32: nat := 0x1_0000_0000
  const FNV_PRIME: nat := 0x0100_0193

  function Min(a: nat, b: nat): nat { if b < a then b else a }
  function Max(a: nat, b: nat): nat { if a < b then b else a }

  /** One round: xor a word in, multiply by the FNV prime on 32 bits. */
  function Mix(h: nat, word: nat): nat
  {
    (Xor(h, word) * FNV_PRIME) % WORD32
  }

  function RssHash(t: FiveTuple): nat
  {
    var h0 := Mix(0x811C_9DC5, Min(t.srcIp, t.destIp));
    var h1 := Mix(h0, Max(t.srcIp, t.destIp));
    var h2 := Mix(h1, Min(t.srcPort, t.destPort) + Max(t.srcPort, t.destPort) * 0x1_0000);
    Mix(h2, t.proto)
  }

  function DispatchCore(t: FiveTuple, numCores: nat): (core: nat)
    requires numCores > 0
    ensures core < numCores
  {
    RssHash(t) % numCores
  }

  /** The same connection seen from the other end. */
  function Reverse(t: FiveTuple): FiveTuple
  {
    FiveTuple(t.destIp, t.srcIp, t.destPort, t.srcPort, t.proto)
  }

  // ---- What the hash distinguishes ----

  /** The inverse of the FNV prime modulo 2^32; there is one because the prime is odd. */
  const FNV_INVERSE: nat := 0x359C_449B

  /** Multiplying by the prime on 32 bits loses nothing: multiplying by the inverse undoes it. */
  lemma PrimeIsInvertible(x: nat)
    requires x < WORD32
    ensures ((x * FNV_PRIME) % WORD32 * FNV_INVERSE) % WORD32 == x
  {
    var q, r := (x * FNV_PRIME) / WORD32, (x * FNV_PRIME) % WORD32;
    var k := 3_513_497 * x - q * FNV_INVERSE;
    assert FNV_PRIME * FNV_INVERSE == 3_513_497 * WORD32 + 1;
    assert r * FNV_INVERSE == k * WORD32 + x;
    MultipleGrows(k, WORD32);
    QuotientIs(r * FNV_INVERSE, WORD32, k, x);
  }

  lemma MixFits(h: nat, word: nat)
    ensures Mix(h, word) < WORD32
  {
  }

  /** A round is one-to-one in the word it mixes in and in the value it starts from. */
  lemma MixIsOneToOne(h: nat, h': nat, word: nat, word': nat)
    requires h < WORD32 && h' < WORD32 && word < WORD32 && word' < WORD32 && (h == h' || word == word')
    ensures Mix(h, word) == Mix(h', word') <==> h == h' && word == word'
  {
    if Mix(h, word) == Mix(h', word') {
      Pow2Of32();
      XorFits(h, word, 32);
      XorFits(h', word', 32);
      PrimeIsInvertible(Xor(h, word));
      PrimeIsInvertible(Xor(h', word'));
      if h == h' {
        XorCancels(h, word, word');
      } else {
        XorCommutes(h, word);
        XorCommutes(h', word);
        XorCancels(word, h, h');
      }
    }
  }

  /** The hash tells apart any two 5-tuples that differ in one of its four inputs: the smaller address, the larger
      address, the pair of ports, or the protocol. */
  lemma HashSeparates(t: FiveTuple, u: FiveTuple)
    ensures var low := Min(t.srcIp, t.destIp) == Min(u.srcIp, u.destIp);
            var high := Max(t.srcIp, t.destIp) == Max(u.srcIp, u.destIp);
            var ports := Min(t.srcPort, t.destPort) == Min(u.srcPort, u.destPort)
                      && Max(t.srcPort, t.destPort) == Max(u.srcPort, u.destPort);
            var proto := t.proto == u.proto;
            (low && high && ports) || (low && high && proto) || (low && ports && proto) || (high && ports && proto) ==>
              (RssHash(t) == RssHash(u) <==> low && high && ports && proto)
  {
    var a0, a1 := Mix(0x811C_9DC5, Min(t.srcIp, t.destIp)), Mix(0x811C_9DC5, Min(u.srcIp, u.destIp));
    var b0, b1 := Mix(a0, Max(t.srcIp, t.destIp)), Mix(a1, Max(u.srcIp, u.destIp));
    var w0 := Min(t.srcPort, t.destPort) + Max(t.srcPort, t.destPort) * 0x1_0000;
    var w1 := Min(u.srcPort, u.destPort) + Max(u.srcPort, u.destPort) * 0x1_0000;
    var c0, c1 := Mix(b0, w0), Mix(b1, w1);
    MixIsOneToOne(0x811C_9DC5, 0x811C_9DC5, Min(t.srcIp, t.destIp), Min(u.srcIp, u.destIp));
    if a0 == a1 || Max(t.srcIp, t.destIp) == Max(u.srcIp, u.destIp) {
      MixIsOneToOne(a0, a1, Max(t.srcIp, t.destIp), Max(u.srcIp, u.destIp));
    }
    if b0 == b1 || w0 == w1 {
      MixIsOneToOne(b0, b1, w0, w1);
    }
    if c0 == c1 || t.proto == u.proto {
      MixIsOneToOne(c0, c1, t.proto, u.proto);
    }
  }

  /** The core is the one number below the number of cores that differs from the hash by a multiple of it. */
  lemma CoreIsRemainder(t: FiveTuple, numCores: nat, core: nat)
    requires core < numCores
    ensures core == DispatchCore(t, numCores) <==> exists k: nat :: RssHash(t) == k * numCores + core
  {
    RemainderIs(RssHash(t), numCores, core);
  }

  lemma RemainderIs(x: nat, n: nat, r: nat)
    requires r < n
    ensures r == x % n <==> exists k: nat :: x == k * n + r
  {
    if r == x % n {
      assert x == (x / n) * n + r;
    }
    if k: nat :| x == k * n + r {
      QuotientIs(x, n, k, r);
    }
  }

  // ---- One connection ----

  lemma Powers()
    ensures Pow2(1) == 2 && Pow2(2) == 4 && Pow2(4) == 0x10 && Pow2(6) == 0x40
    ensures Pow2(25) == 0x0200_0000 && Pow2(27) == 0x0800_0000 && Pow2(31) == 0x8000_0000
  {
    assert Pow2(6) == 0x40;
    assert Pow2(12) == 0x1000;
    assert Pow2(18) == 0x4_0000;
    assert Pow2(24) == 0x100_0000;
    Pow2Sum(25, 6);
  }

  lemma FlipThree(h: nat, p: nat, q: nat, r: nat)
    requires p != 0 && q != 0 && r != 0
    ensures h == 0x811C_9DC5 && p == 1 && q == 0x0200_0000 && r == 0x0800_0000 ==>
              FlipWeight(FlipWeight(FlipWeight(h, p), q), r) == 0x8B1C_9DC4
    ensures h == 0xC20C_5B8C && p == 2 && q == 0x0200_0000 && r == 0x0800_0000 ==>
              FlipWeight(FlipWeight(FlipWeight(h, p), q), r) == 0xC80C_5B8E
    ensures h == 0x7974_208A && p == 0x10 && q == 0x40 && r == 0x8000_0000 ==>
              FlipWeight(FlipWeight(FlipWeight(h, p), q), r) == 0xF974_20DA
  {
  }

  lemma MixIs(h: nat, word: nat, x: nat)
    requires Xor(h, word) == x
    ensures Mix(h, word) == (x * FNV_PRIME) % WORD32
  {
  }

  lemma FirstRound(h: nat, word: nat)
    requires h == 0x811C_9DC5 && word == 0x0A00_0001
    ensures Mix(h, word) == 0xC20C_5B8C
  {
    assert Pow2(0) == 1 && Pow2(25) == 0x0200_0000 && Pow2(27) == 0x0800_0000 by { Powers(); }
    FlipThree(h, 1, 0x0200_0000, 0x0800_0000);
    XorWithThreeBits(h, 1, 0x0200_0000, 0x0800_0000, 0, 25, 27);
    MixIs(h, word, 0x8B1C_9DC4);
  }

  lemma SecondRound(h: nat, word: nat)
    requires h == 0xC20C_5B8C && word == 0x0A00_0002
    ensures Mix(h, word) == 0x7974_208A
  {
    assert Pow2(1) == 2 && Pow2(25) == 0x0200_0000 && Pow2(27) == 0x0800_0000 by { Powers(); }
    FlipThree(h, 2, 0x0200_0000, 0x0800_0000);
    XorWithThreeBits(h, 2, 0x0200_0000, 0x0800_0000, 1, 25, 27);
    MixIs(h, word, 0xC80C_5B8E);
  }

  lemma ThirdRound(h: nat, word: nat)
    requires h == 0x7974_208A && word == 0x8000_0050
    ensures Mix(h, word) == 0x8BCF_B72E
  {
    assert Pow2(4) == 0x10 && Pow2(6) == 0x40 && Pow2(31) == 0x8000_0000 by { Powers(); }
    FlipThree(h, 0x10, 0x40, 0x8000_0000);
    XorWithThreeBits(h, 0x10, 0x40, 0x8000_0000, 4, 6, 31);
    MixIs(h, word, 0xF974_20DA);
  }

  lemma LastRound(h: nat, word: nat)
    requires h == 0x8BCF_B72E && word == 6
    ensures Mix(h, word) == 0x3FFD_53F8
  {
    Powers();
    XorFlips(h, 0, 1);
    XorFlips(h, 2, 2);
  }

  /** TCP between 10.0.0.2:32768 and 10.0.0.1:80, in either direction, on any number of cores. */
  lemma ConcreteHash(t: FiveTuple, numCores: nat)
    requires t == FiveTuple(0x0A00_0002, 0x0A00_0001, 32768, 80, 6) && numCores > 0
    ensures RssHash(t) == RssHash(Reverse(t)) == 0x3FFD_53F8
    ensures DispatchCore(t, numCores) == DispatchCore(Reverse(t), numCores) == 0x3FFD_53F8 % numCores
  {
    FirstRound(0x811C_9DC5, t.destIp);
    SecondRound(0xC20C_5B8C, t.srcIp);
    ThirdRound(0x7974_208A, t.destPort + t.srcPort * 0x1_0000);
    LastRound(0x8BCF_B72E, t.proto);
  }
}
