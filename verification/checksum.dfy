/** One's-complement arithmetic and the Internet checksum (RFC 1071, RFC 1624), as mathematics on 16-bit words. */
module Checksum {
  import opened Packets

  const ONES: nat := 0xFFFF

  // ---- One's-complement sums ----

  /** End-around-carry addition of 16-bit words (section 1 of RFC 1071). */
  function OnesAdd(a: uint16, b: uint16): uint16
  {
    if a + b > ONES then a + b - ONES else a + b
  }

  /** The one's-complement sum, one word at a time. */
  function OnesSum(ws: seq<uint16>): uint16
  {
    if ws == [] then 0 else OnesAdd(OnesSum(ws[..|ws| - 1]), ws[|ws| - 1])
  }

  function Complement(x: uint16): uint16 { ONES - x }

  function ChecksumOf(ws: seq<uint16>): uint16
  {
    Complement(OnesSum(ws))
  }

  /** The plain sum, carries not yet folded in. */
  function Sum(ws: seq<uint16>): nat
  {
    if ws == [] then 0 else Sum(ws[..|ws| - 1]) + ws[|ws| - 1]
  }

  /** The representative that folding carries ends with: 0 only for 0, otherwise in 1 .. 65535. */
  function Fold(s: nat): uint16
  {
    if s == 0 then 0 else (s - 1) % ONES + 1
  }

  /** Adding the high part to the low 16 bits keeps the representative. */
  lemma FoldStep(s: nat)
    ensures s <= ONES ==> Fold(s) == s
    ensures Fold(s % 0x1_0000 + s / 0x1_0000) == Fold(s)
    ensures s > ONES ==> 0 < s % 0x1_0000 + s / 0x1_0000 < s
  {
    var h, l := s / 0x1_0000, s % 0x1_0000;
    assert s == h * 0x1_0000 + l;
    if h + l > 0 {
      assert s - 1 == (h + l - 1) + h * ONES;
      AddMultiple(h + l - 1, h);
    }
  }

  lemma {:induction false} AddMultiple(a: nat, k: nat)
    ensures (a + k * ONES) % ONES == a % ONES
  {
    if k > 0 {
      AddMultiple(a, k - 1);
      assert a + k * ONES == (a + (k - 1) * ONES) + ONES;
    }
  }

  lemma SameShift(a: nat, b: nat, c: nat)
    requires a % ONES == b % ONES
    ensures (a + c) % ONES == (b + c) % ONES
  {
  }

  lemma SameSum(a: nat, b: nat, c: nat, d: nat)
    requires a % ONES == b % ONES && c % ONES == d % ONES
    ensures (a + c) % ONES == (b + d) % ONES
  {
    SameShift(a, b, c);
    SameShift(c, d, b);
  }

  lemma FoldIsCongruent(s: nat)
    ensures Fold(s) % ONES == s % ONES
    ensures Fold(s) == 0 <==> s == 0
  {
    if s > 0 {
      assert s == Fold(s) + ((s - 1) / ONES) * ONES;
      AddMultiple(Fold(s), (s - 1) / ONES);
    }
  }

  lemma SameFold(a: nat, b: nat)
    requires a > 0 && b > 0 && a % ONES == b % ONES
    ensures Fold(a) == Fold(b)
  {
  }

  lemma AddToFold(s: nat, w: uint16)
    ensures OnesAdd(Fold(s), w) == Fold(s + w)
  {
    FoldIsCongruent(s);
    if s + w > 0 {
      SameShift(Fold(s), s, w);
      SameFold(Fold(s) + w, s + w);
      FoldStep(Fold(s) + w);
    }
  }

  /** Deferring the carries does not change the one's-complement sum. */
  lemma {:induction false} OnesSumIsFold(ws: seq<uint16>)
    ensures OnesSum(ws) == Fold(Sum(ws))
  {
    if ws != [] {
      var front, last := ws[..|ws| - 1], ws[|ws| - 1];
      OnesSumIsFold(front);
      AddToFold(Sum(front), last);
    }
  }

  /** The unfolded sum of fewer than 2^48 words fits a 64-bit accumulator. */
  lemma {:induction false} SumBound(ws: seq<uint16>)
    ensures Sum(ws) <= ONES * |ws|
    ensures |ws| <= 0x1_0000_0000_0000 ==> Sum(ws) < 0x1_0000_0000_0000_0000
  {
    if ws != [] {
      SumBound(ws[..|ws| - 1]);
    }
  }

  lemma {:induction false} SumConcat(a: seq<uint16>, b: seq<uint16>)
    ensures Sum(a + b) == Sum(a) + Sum(b)
  {
    if b == [] {
      assert a + b == a;
    } else {
      assert (a + b)[..|a + b| - 1] == a + b[..|b| - 1];
      SumConcat(a, b[..|b| - 1]);
    }
  }

  lemma {:induction false} SumUpdate(ws: seq<uint16>, k: nat, w: uint16)
    requires k < |ws|
    ensures Sum(ws[k := w]) == Sum(ws) - ws[k] + w
  {
    var n := |ws| - 1;
    if k == n {
      assert ws[k := w][..n] == ws[..n];
    } else {
      assert ws[k := w][..n] == ws[..n][k := w];
      SumUpdate(ws[..n], k, w);
    }
  }

  predicate HasNonZero(ws: seq<uint16>)
  {
    exists i :: 0 <= i < |ws| && ws[i] != 0
  }

  lemma {:induction false} SumIsZero(ws: seq<uint16>)
    ensures Sum(ws) > 0 <==> HasNonZero(ws)
  {
    if ws != [] {
      var front := ws[..|ws| - 1];
      SumIsZero(front);
      if HasNonZero(ws) {
        var i :| 0 <= i < |ws| && ws[i] != 0;
        assert i < |front| ==> front[i] != 0;
      }
    }
  }

  // ---- Incremental update ----

  /** HC' = ~(~HC + ~m + m') (Eqn. 3, section 3 of RFC 1624). */
  function Update16(csum: uint16, old16: uint16, new16: uint16): uint16
  {
    Complement(Fold(Complement(csum) + Complement(old16) + new16))
  }

  function Update32(csum: uint16, old32: uint32, new32: uint32): uint16
  {
    Update16(Update16(csum, old32 / 0x1_0000, new32 / 0x1_0000), old32 % 0x1_0000, new32 % 0x1_0000)
  }

  /** From any checksum whose complement represents a sum, unless it is the wrong zero, the update represents
      the changed sum. */
  lemma UpdateRepresents(csum: uint16, s: nat, m: uint16, m': uint16)
    requires Complement(csum) % ONES == s % ONES && m <= s
    requires Complement(csum) > 0 || m < ONES || m' > 0
    ensures var r := Complement(Update16(csum, m, m'));
            r > 0 && r % ONES == (s - m + m') % ONES && (s - m + m' > 0 ==> r == Fold(s - m + m'))
  {
    var x := Complement(csum) + Complement(m) + m';
    var y := s - m + m';
    assert x % ONES == y % ONES by {
      SameShift(Complement(csum), s, Complement(m) + m');
      AddMultiple(y, 1);
    }
    FoldIsCongruent(x);
    if y > 0 { SameFold(x, y); }
  }

  /** Updating a checksum for one replaced word: always congruent to recomputing it, and equal to it exactly when
      the new data has a non-zero word. */
  lemma UpdateIsRecompute(ws: seq<uint16>, k: nat, w: uint16)
    requires k < |ws|
    ensures var ws' := ws[k := w]; var r := Update16(ChecksumOf(ws), ws[k], w);
            && r % ONES == ChecksumOf(ws') % ONES
            && (r == ChecksumOf(ws') <==> HasNonZero(ws'))
  {
    var ws' := ws[k := w];
    OnesSumIsFold(ws);
    OnesSumIsFold(ws');
    FoldIsCongruent(Sum(ws));
    FoldIsCongruent(Sum(ws'));
    SumUpdate(ws, k, w);
    SumUpdate(ws, k, 0);
    SumIsZero(ws');
    UpdateRepresents(ChecksumOf(ws), Sum(ws), ws[k], w);
    ComplementCongruent(OnesSum(ws'), Complement(Update16(ChecksumOf(ws), ws[k], w)));
  }

  /** The failing input: the only non-zero word is replaced by zero. */
  lemma UpdateToZeroDiffers()
    ensures Update16(ChecksumOf([1]), 1, 0) == 0 && ChecksumOf([1][0 := 0]) == 0xFFFF
  {
    assert [1][..0] == [] && [1][0 := 0] == [0] && [0][..0] == [];
  }

  lemma ComplementCongruent(a: uint16, b: uint16)
    requires a % ONES == b % ONES
    ensures Complement(a) % ONES == Complement(b) % ONES
  {
  }

  /** The same for a 32-bit value spread over two words, also when the data is all zero half-way. */
  lemma Update32IsRecompute(ws: seq<uint16>, i: nat, j: nat, old32: uint32, new32: uint32)
    requires i < |ws| && j < |ws| && i != j && ws[i] == old32 / 0x1_0000 && ws[j] == old32 % 0x1_0000
    ensures var ws' := ws[i := new32 / 0x1_0000][j := new32 % 0x1_0000];
            var r := Update32(ChecksumOf(ws), old32, new32);
            && r % ONES == ChecksumOf(ws') % ONES
            && (r == ChecksumOf(ws') <==> HasNonZero(ws'))
  {
    var mid := ws[i := new32 / 0x1_0000];
    var ws' := mid[j := new32 % 0x1_0000];
    OnesSumIsFold(ws);
    OnesSumIsFold(ws');
    FoldIsCongruent(Sum(ws));
    FoldIsCongruent(Sum(ws'));
    SumUpdate(ws, i, new32 / 0x1_0000);
    SumUpdate(ws, i, 0);
    SumUpdate(mid, j, new32 % 0x1_0000);
    SumUpdate(mid, j, 0);
    SumIsZero(ws');
    var c := Update16(ChecksumOf(ws), ws[i], new32 / 0x1_0000);
    UpdateRepresents(ChecksumOf(ws), Sum(ws), ws[i], new32 / 0x1_0000);
    UpdateRepresents(c, Sum(mid), mid[j], new32 % 0x1_0000);
    ComplementCongruent(OnesSum(ws'), Complement(Update32(ChecksumOf(ws), old32, new32)));
  }

  /** A message that carries its own checksum in a word that was zero sums to a checksum of zero. */
  lemma SelfVerifies(ws: seq<uint16>, k: nat)
    requires k < |ws| && ws[k] == 0
    ensures ChecksumOf(ws[k := ChecksumOf(ws)]) == 0
  {
    var ws' := ws[k := ChecksumOf(ws)];
    OnesSumIsFold(ws);
    OnesSumIsFold(ws');
    FoldIsCongruent(Sum(ws));
    SumUpdate(ws, k, ChecksumOf(ws));
    assert Sum(ws') % ONES == 0 && Sum(ws') > 0 by {
      assert Sum(ws') == (Sum(ws) - Fold(Sum(ws))) + ONES;
    }
    SameFold(Sum(ws'), ONES);
  }

  // ---- Bytes ----

  /** How the host reads two adjacent bytes as a 16-bit word. */
  function HostWord(first: uint8, second: uint8, little: bool): uint16
  {
    if little then first + 0x100 * second else 0x100 * first + second
  }

  /** The words the code adds up: a trailing odd byte counts with its plain value. */
  function HostWords(data: seq<uint8>, little: bool): (ws: seq<uint16>)
    ensures |ws| == (|data| + 1) / 2
  {
    seq((|data| + 1) / 2, i requires 0 <= i < (|data| + 1) / 2 =>
      if 2 * i + 1 < |data| then HostWord(data[2 * i], data[2 * i + 1], little) else data[2 * i])
  }

  /** The words of the message in network order, padded with a zero byte to an even length. */
  function NetworkWords(data: seq<uint8>): (ws: seq<uint16>)
    ensures |ws| == (|data| + 1) / 2
  {
    seq((|data| + 1) / 2, i requires 0 <= i < (|data| + 1) / 2 =>
      HostWord(data[2 * i], if 2 * i + 1 < |data| then data[2 * i + 1] else 0, false))
  }

  function Swap(x: uint16): uint16
  {
    x % 0x100 * 0x100 + x / 0x100
  }

  function SwapAll(ws: seq<uint16>): seq<uint16>
  {
    seq(|ws|, i requires 0 <= i < |ws| => Swap(ws[i]))
  }

  lemma SwapCongruent(x: uint16)
    ensures Swap(x) % ONES == (0x100 * x) % ONES
    ensures Swap(x) == 0 <==> x == 0
  {
    assert 0x100 * x == Swap(x) + ONES * (x / 0x100);
    AddMultiple(Swap(x), x / 0x100);
  }

  /** Swapping the bytes of every word swaps the bytes of the sum (section 2 of RFC 1071). */
  lemma {:induction false} SumOfSwapped(ws: seq<uint16>)
    ensures Sum(SwapAll(ws)) % ONES == (0x100 * Sum(ws)) % ONES
    ensures Sum(SwapAll(ws)) == 0 <==> Sum(ws) == 0
  {
    if ws != [] {
      var front, last := ws[..|ws| - 1], ws[|ws| - 1];
      SumOfSwapped(front);
      assert SwapAll(ws)[..|ws| - 1] == SwapAll(front);
      SwapCongruent(last);
      var x: nat := last;
      SameSum(Sum(SwapAll(front)), 0x100 * Sum(front), Swap(last), 0x100 * x);
      assert 0x100 * Sum(ws) == 0x100 * Sum(front) + 0x100 * x;
    }
  }

  lemma {:induction false} SameScale(a: nat, b: nat, k: nat)
    requires a % ONES == b % ONES
    ensures (k * a) % ONES == (k * b) % ONES
  {
    if k > 0 {
      SameScale(a, b, k - 1);
      SameSum((k - 1) * a, (k - 1) * b, a, b);
      assert k * a == (k - 1) * a + a && k * b == (k - 1) * b + b;
    }
  }

  lemma OnesSumOfSwapped(ws: seq<uint16>)
    ensures OnesSum(SwapAll(ws)) == Swap(OnesSum(ws))
  {
    OnesSumIsFold(ws);
    OnesSumIsFold(SwapAll(ws));
    SumOfSwapped(ws);
    FoldIsCongruent(Sum(ws));
    SwapCongruent(Fold(Sum(ws)));
    if Sum(ws) > 0 {
      SameScale(Fold(Sum(ws)), Sum(ws), 0x100);
      SameFold(Sum(SwapAll(ws)), Swap(Fold(Sum(ws))));
      FoldStep(Swap(Fold(Sum(ws))));
    }
  }

  lemma SwapOfWord(a: uint8, b: uint8)
    ensures Swap(HostWord(a, b, false)) == HostWord(a, b, true)
  {
  }

  lemma HostWordIsSwapped(data: seq<uint8>, i: nat)
    requires i < (|data| + 1) / 2
    ensures HostWords(data, true)[i] == Swap(NetworkWords(data)[i])
  {
    if 2 * i + 1 < |data| {
      SwapOfWord(data[2 * i], data[2 * i + 1]);
    } else {
      SwapOfWord(data[2 * i], 0);
    }
  }

  lemma HostWordsAreSwapped(data: seq<uint8>)
    ensures HostWords(data, true) == SwapAll(NetworkWords(data))
  {
    var host, net := HostWords(data, true), NetworkWords(data);
    forall i | 0 <= i < |host| ensures host[i] == SwapAll(net)[i] {
      HostWordIsSwapped(data, i);
    }
  }

  lemma SwapOfComplement(x: uint16)
    ensures Swap(Complement(x)) == Complement(Swap(x))
  {
  }

  /** On a little-endian host the code's checksum of any bytes, odd lengths included, is the byte swap of the
      network-order checksum, so that storing it in memory puts the network-order bytes there. */
  lemma LittleEndianChecksum(data: seq<uint8>)
    ensures ChecksumOf(HostWords(data, true)) == Swap(ChecksumOf(NetworkWords(data)))
  {
    HostWordsAreSwapped(data);
    OnesSumOfSwapped(NetworkWords(data));
    SwapOfComplement(OnesSum(NetworkWords(data)));
  }

  /** On a big-endian host the code agrees with the network-order checksum exactly when there is no trailing odd
      byte or it is zero: the code adds that byte's plain value instead of padding after it. */
  lemma BigEndianChecksum(data: seq<uint8>)
    ensures ChecksumOf(HostWords(data, false)) == ChecksumOf(NetworkWords(data)) <==>
            |data| % 2 == 0 || data[|data| - 1] == 0
  {
    var host, net := HostWords(data, false), NetworkWords(data);
    if |data| % 2 == 0 {
      assert host == net;
    } else {
      var n: nat, b: nat := |host| - 1, data[|data| - 1];
      assert host == net[n := b] && net[n] == 0x100 * b;
      SumUpdate(net, n, b);
      OnesSumIsFold(host);
      OnesSumIsFold(net);
      FoldIsCongruent(Sum(host));
      FoldIsCongruent(Sum(net));
      if Fold(Sum(host)) == Fold(Sum(net)) {
        assert (Sum(net) - Sum(host)) % ONES == 0;
        assert Sum(net) - Sum(host) == 255 * b;
      }
    }
  }

  /** A big-endian counterexample: one byte of value 1. */
  lemma BigEndianOddByte()
    ensures ChecksumOf(HostWords([1], false)) == 0xFFFE && ChecksumOf(NetworkWords([1])) == 0xFEFF
  {
    var host, net := HostWords([1], false), NetworkWords([1]);
    assert host == [1] && net == [0x100];
    assert host[..0] == [] && net[..0] == [];
  }

  /** Writes a 16-bit value into two bytes as the host stores it. */
  function Store(data: seq<uint8>, offset: nat, w: uint16, little: bool): seq<uint8>
    requires offset + 1 < |data|
  {
    if little then data[offset := w % 0x100][offset + 1 := w / 0x100]
    else data[offset := w / 0x100][offset + 1 := w % 0x100]
  }

  lemma StoreIsUpdate(data: seq<uint8>, k: nat, w: uint16, little: bool)
    requires 2 * k + 1 < |data|
    ensures HostWords(Store(data, 2 * k, w, little), little) == HostWords(data, little)[k := w]
  {
  }

  /** Writing the computed checksum into a zeroed, word-aligned field makes the message verify, on either kind of
      host and for any length. */
  lemma StoredChecksumVerifies(data: seq<uint8>, k: nat, little: bool)
    requires 2 * k + 1 < |data| && data[2 * k] == 0 && data[2 * k + 1] == 0
    ensures var c := ChecksumOf(HostWords(data, little));
            ChecksumOf(HostWords(Store(data, 2 * k, c, little), little)) == 0
  {
    var c := ChecksumOf(HostWords(data, little));
    StoreIsUpdate(data, k, c, little);
    SelfVerifies(HostWords(data, little), k);
  }

  lemma WordCount(m: nat, n: nat)
    requires m % 2 == 0
    ensures (m + n + 1) / 2 == (m + 1) / 2 + (n + 1) / 2 && 2 * ((m + 1) / 2) == m
  {
  }

  lemma HostWordOfConcat(a: seq<uint8>, b: seq<uint8>, little: bool, i: nat)
    requires |a| % 2 == 0 && i < (|a| + |b| + 1) / 2
    ensures var n := (|a| + 1) / 2;
            HostWords(a + b, little)[i] == if i < n then HostWords(a, little)[i] else HostWords(b, little)[i - n]
  {
    WordCount(|a|, |b|);
    var n := (|a| + 1) / 2;
    if i < n {
      assert (a + b)[2 * i] == a[2 * i] && (a + b)[2 * i + 1] == a[2 * i + 1];
    } else {
      var j := i - n;
      assert (a + b)[2 * i] == b[2 * j];
      assert 2 * j + 1 < |b| ==> (a + b)[2 * i + 1] == b[2 * j + 1];
    }
  }

  lemma HostWordsConcat(a: seq<uint8>, b: seq<uint8>, little: bool)
    requires |a| % 2 == 0
    ensures HostWords(a + b, little) == HostWords(a, little) + HostWords(b, little)
  {
    WordCount(|a|, |b|);
    forall i | 0 <= i < (|a| + |b| + 1) / 2
      ensures HostWords(a + b, little)[i] == (HostWords(a, little) + HostWords(b, little))[i]
    {
      HostWordOfConcat(a, b, little, i);
    }
  }

  // ---- Pseudo-header ----

  function Bytes16(x: uint16): seq<uint8> { [x / 0x100, x % 0x100] }
  function Bytes32(x: uint32): seq<uint8> { Bytes16(x / 0x1_0000) + Bytes16(x % 0x1_0000) }

  /** The 12 bytes of the TCP and UDP pseudo-header; the length field keeps the low 16 bits. */
  function PseudoHeader(src: uint32, dst: uint32, proto: uint8, len: nat): (ph: seq<uint8>)
    ensures |ph| == 12
  {
    Bytes32(src) + Bytes32(dst) + [0, proto] + Bytes16(len % 0x1_0000)
  }

  function TransportChecksum(src: uint32, dst: uint32, proto: uint8, segment: seq<uint8>, little: bool): uint16
  {
    ChecksumOf(HostWords(PseudoHeader(src, dst, proto, |segment|) + segment, little))
  }

  lemma StoredAfterPrefixVerifies(prefix: seq<uint8>, data: seq<uint8>, k: nat, little: bool)
    requires |prefix| == 12 && 2 * k + 1 < |data| && data[2 * k] == 0 && data[2 * k + 1] == 0
    ensures var c := ChecksumOf(HostWords(prefix + data, little));
            ChecksumOf(HostWords(prefix + Store(data, 2 * k, c, little), little)) == 0
  {
    var c := ChecksumOf(HostWords(prefix + data, little));
    StoredChecksumVerifies(prefix + data, k + 6, little);
    assert Store(prefix + data, 2 * (k + 6), c, little) == prefix + Store(data, 2 * k, c, little);
  }

  lemma NetworkWordsConcat(a: seq<uint8>, b: seq<uint8>)
    requires |a| % 2 == 0
    ensures NetworkWords(a + b) == NetworkWords(a) + NetworkWords(b)
  {
    WordCount(|a|, |b|);
    var n := (|a| + 1) / 2;
    forall i | 0 <= i < (|a| + |b| + 1) / 2
      ensures NetworkWords(a + b)[i] == (NetworkWords(a) + NetworkWords(b))[i]
    {
      if i < n {
        assert (a + b)[2 * i] == a[2 * i] && (a + b)[2 * i + 1] == a[2 * i + 1];
      } else {
        assert (a + b)[2 * i] == b[2 * (i - n)];
        assert 2 * (i - n) + 1 < |b| ==> (a + b)[2 * i + 1] == b[2 * (i - n) + 1];
      }
    }
  }

  /** The checked words of a TCP or UDP packet in network order: both addresses, the protocol, the length, and the
      segment (section 3.1 of RFC 9293). */
  function TransportWords(src: uint32, dst: uint32, proto: uint8, segment: seq<uint8>): seq<uint16>
  {
    [src / 0x1_0000, src % 0x1_0000, dst / 0x1_0000, dst % 0x1_0000, proto, |segment| % 0x1_0000]
      + NetworkWords(segment)
  }

  lemma PseudoHeaderWords(src: uint32, dst: uint32, proto: uint8, segment: seq<uint8>)
    ensures NetworkWords(PseudoHeader(src, dst, proto, |segment|) + segment)
              == TransportWords(src, dst, proto, segment)
  {
    var ph := PseudoHeader(src, dst, proto, |segment|);
    NetworkWordsConcat(ph, segment);
    assert NetworkWords(ph)
             == [src / 0x1_0000, src % 0x1_0000, dst / 0x1_0000, dst % 0x1_0000, proto, |segment| % 0x1_0000];
  }

  /** The transport checksum on a little-endian host, in terms of the words on the wire. */
  lemma LittleEndianTransport(src: uint32, dst: uint32, proto: uint8, segment: seq<uint8>)
    ensures TransportChecksum(src, dst, proto, segment, true)
              == Swap(ChecksumOf(TransportWords(src, dst, proto, segment)))
  {
    PseudoHeaderWords(src, dst, proto, segment);
    LittleEndianChecksum(PseudoHeader(src, dst, proto, |segment|) + segment);
  }

  /** On a big-endian host it is the checksum of those words exactly if the length is even or the last byte zero. */
  lemma BigEndianTransport(src: uint32, dst: uint32, proto: uint8, segment: seq<uint8>)
    ensures TransportChecksum(src, dst, proto, segment, false) == ChecksumOf(TransportWords(src, dst, proto, segment))
            <==> |segment| % 2 == 0 || segment[|segment| - 1] == 0
  {
    PseudoHeaderWords(src, dst, proto, segment);
    BigEndianAfterPrefix(PseudoHeader(src, dst, proto, |segment|), segment);
  }

  lemma BigEndianAfterPrefix(prefix: seq<uint8>, data: seq<uint8>)
    requires |prefix| == 12
    ensures ChecksumOf(HostWords(prefix + data, false)) == ChecksumOf(NetworkWords(prefix + data))
            <==> |data| % 2 == 0 || data[|data| - 1] == 0
  {
    BigEndianChecksum(prefix + data);
    assert data != [] ==> (prefix + data)[|prefix + data| - 1] == data[|data| - 1];
  }

  lemma ZeroOnTheWire(src: uint32, dst: uint32, proto: uint8, segment: seq<uint8>, little: bool)
    requires TransportChecksum(src, dst, proto, segment, little) == 0
    requires little || |segment| % 2 == 0 || segment[|segment| - 1] == 0
    ensures ChecksumOf(TransportWords(src, dst, proto, segment)) == 0
  {
    if little {
      LittleEndianTransport(src, dst, proto, segment);
    } else {
      BigEndianTransport(src, dst, proto, segment);
    }
  }

  /** A TCP or UDP segment with its computed checksum stored has checksum zero over the words on the wire, the
      pseudo-header's included; on a big-endian host that needs an even length or a zero last byte. */
  lemma StoredTransportChecksumVerifies(src: uint32, dst: uint32, proto: uint8, segment: seq<uint8>, k: nat,
                                        little: bool)
    requires 2 * k + 1 < |segment| && segment[2 * k] == 0 && segment[2 * k + 1] == 0
    ensures var stored := Store(segment, 2 * k, TransportChecksum(src, dst, proto, segment, little), little);
            && TransportChecksum(src, dst, proto, stored, little) == 0
            && (little || |segment| % 2 == 0 || stored[|segment| - 1] == 0 ==>
                ChecksumOf(TransportWords(src, dst, proto, stored)) == 0)
  {
    StoredAfterPrefixVerifies(PseudoHeader(src, dst, proto, |segment|), segment, k, little);
    var stored := Store(segment, 2 * k, TransportChecksum(src, dst, proto, segment, little), little);
    if little || |segment| % 2 == 0 || stored[|segment| - 1] == 0 {
      ZeroOnTheWire(src, dst, proto, stored, little);
    }
  }
}
