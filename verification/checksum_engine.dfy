/** The checksum routines of src/core/checksum.cpp, proved against checksum.dfy. `little` is the host's byte
    order. */
module ChecksumEngine {
  import opened Packets
  import opened Checksum

  /** Folds the carries of a 64-bit accumulator into 16 bits. */
  method FoldCarries(total: nat) returns (r: uint16)
    ensures r == Fold(total)
  {
    var sum := total;
    while sum / 0x1_0000 != 0
      invariant Fold(sum) == Fold(total)
      decreases sum
    {
      FoldStep(sum);
      sum := sum % 0x1_0000 + sum / 0x1_0000;
    }
    FoldStep(sum);
    return sum;
  }

  lemma NextWord(ws: seq<uint16>, i: nat)
    requires i < |ws|
    ensures Sum(ws[..i + 1]) == Sum(ws[..i]) + ws[i]
  {
    assert ws[..i + 1][..i] == ws[..i];
  }

  lemma NextEightWords(ws: seq<uint16>, i: nat)
    requires i + 8 <= |ws|
    ensures Sum(ws[..i + 8]) == Sum(ws[..i]) + ws[i] + ws[i + 1] + ws[i + 2] + ws[i + 3]
                                  + ws[i + 4] + ws[i + 5] + ws[i + 6] + ws[i + 7]
  {
    NextWord(ws, i);
    NextWord(ws, i + 1);
    NextWord(ws, i + 2);
    NextWord(ws, i + 3);
    NextWord(ws, i + 4);
    NextWord(ws, i + 5);
    NextWord(ws, i + 6);
    NextWord(ws, i + 7);
  }

  /** The `i`-th host word of a buffer. */
  method ReadWord(data: seq<uint8>, i: nat, little: bool) returns (w: uint16)
    requires 2 * i + 2 <= |data|
    ensures w == HostWords(data, little)[i]
  {
    w := HostWord(data[2 * i], data[2 * i + 1], little);
  }

  /** Adds the words of `data` from word `start` on to a running sum, one at a time, and an odd byte last. */
  method AddWords(data: seq<uint8>, start: nat, sum0: nat, little: bool) returns (sum: nat)
    requires 2 * start <= |data|
    ensures sum == sum0 + Sum(HostWords(data, little)) - Sum(HostWords(data, little)[..start])
  {
    ghost var ws := HostWords(data, little);
    sum := sum0;
    var ptr, len := start, |data| - 2 * start;
    while len >= 2
      invariant 2 * ptr + len == |data| && len >= 0
      invariant sum == sum0 + Sum(ws[..ptr]) - Sum(ws[..start])
      decreases len
    {
      var w := ReadWord(data, ptr, little);
      NextWord(ws, ptr);
      sum := sum + w;
      ptr, len := ptr + 1, len - 2;
    }
    if len == 1 {
      assert ws[ptr] == data[2 * ptr];
      NextWord(ws, ptr);
      sum := sum + data[2 * ptr];
      ptr := ptr + 1;
    }
    assert ws[..ptr] == ws;
  }

  /** Adds the eight words from word `i` on. */
  method AddEightWords(data: seq<uint8>, i: nat, sum0: nat, little: bool) returns (sum: nat)
    requires 2 * i + 16 <= |data|
    ensures sum == sum0 + Sum(HostWords(data, little)[..i + 8]) - Sum(HostWords(data, little)[..i])
  {
    var w0 := ReadWord(data, i, little);
    var w1 := ReadWord(data, i + 1, little);
    var w2 := ReadWord(data, i + 2, little);
    var w3 := ReadWord(data, i + 3, little);
    var w4 := ReadWord(data, i + 4, little);
    var w5 := ReadWord(data, i + 5, little);
    var w6 := ReadWord(data, i + 6, little);
    var w7 := ReadWord(data, i + 7, little);
    NextEightWords(HostWords(data, little), i);
    sum := sum0 + w0 + w1 + w2 + w3 + w4 + w5 + w6 + w7;
  }

  /** Eight words a turn, then one at a time, then an odd byte; carries folded at the end. */
  method ComputeChecksum(data: seq<uint8>, little: bool) returns (c: uint16)
    ensures c == ChecksumOf(HostWords(data, little))
  {
    ghost var ws := HostWords(data, little);
    assert ws[..0] == [];
    var sum: nat, ptr: nat, len: nat := 0, 0, |data|;
    while len >= 16
      invariant 2 * ptr + len == |data|
      invariant sum == Sum(ws[..ptr])
      decreases len
    {
      sum := AddEightWords(data, ptr, sum, little);
      ptr, len := ptr + 8, len - 16;
    }
    sum := AddWords(data, ptr, sum, little);
    var folded := FoldCarries(sum);
    OnesSumIsFold(ws);
    return Complement(folded);
  }

  /** Adds the six words of a pseudo-header. */
  method AddHeader(ph: seq<uint8>, little: bool) returns (sum: nat)
    requires |ph| == 12
    ensures sum == Sum(HostWords(ph, little))
  {
    ghost var ws := HostWords(ph, little);
    sum := 0;
    assert ws[..0] == [];
    for i := 0 to 6
      invariant sum == Sum(ws[..i])
    {
      var w := ReadWord(ph, i, little);
      NextWord(ws, i);
      sum := sum + w;
    }
    assert ws[..6] == ws;
  }

  lemma ChecksumOfConcat(a: seq<uint8>, b: seq<uint8>, little: bool)
    requires |a| % 2 == 0
    ensures ChecksumOf(HostWords(a + b, little))
              == Complement(Fold(Sum(HostWords(a, little)) + Sum(HostWords(b, little))))
  {
    HostWordsConcat(a, b, little);
    SumConcat(HostWords(a, little), HostWords(b, little));
    OnesSumIsFold(HostWords(a + b, little));
  }

  /** What the TCP and UDP checksums share: 12 bytes of pseudo-header, then the segment. */
  method ChecksumAfterHeader(ph: seq<uint8>, segment: seq<uint8>, little: bool) returns (c: uint16)
    requires |ph| == 12
    ensures c == ChecksumOf(HostWords(ph + segment, little))
  {
    var sum := AddHeader(ph, little);
    assert HostWords(segment, little)[..0] == [];
    sum := AddWords(segment, 0, sum, little);
    var folded := FoldCarries(sum);
    ChecksumOfConcat(ph, segment, little);
    return Complement(folded);
  }

  method ComputeTcpChecksum(src: uint32, dst: uint32, segment: seq<uint8>, little: bool) returns (c: uint16)
    ensures c == TransportChecksum(src, dst, 6, segment, little)
    ensures var words := [src / 0x1_0000, src % 0x1_0000, dst / 0x1_0000, dst % 0x1_0000, 6, |segment| % 0x1_0000]
                           + NetworkWords(segment);
            if little then c == Swap(ChecksumOf(words))
            else c == ChecksumOf(words) <==> |segment| % 2 == 0 || segment[|segment| - 1] == 0
  {
    LittleEndianTransport(src, dst, 6, segment);
    BigEndianTransport(src, dst, 6, segment);
    c := ChecksumAfterHeader(PseudoHeader(src, dst, 6, |segment|), segment, little);
  }

  method ComputeUdpChecksum(src: uint32, dst: uint32, segment: seq<uint8>, little: bool) returns (c: uint16)
    ensures c == TransportChecksum(src, dst, 17, segment, little)
    ensures var words := [src / 0x1_0000, src % 0x1_0000, dst / 0x1_0000, dst % 0x1_0000, 17, |segment| % 0x1_0000]
                           + NetworkWords(segment);
            if little then c == Swap(ChecksumOf(words))
            else c == ChecksumOf(words) <==> |segment| % 2 == 0 || segment[|segment| - 1] == 0
  {
    LittleEndianTransport(src, dst, 17, segment);
    BigEndianTransport(src, dst, 17, segment);
    c := ChecksumAfterHeader(PseudoHeader(src, dst, 17, |segment|), segment, little);
  }

  /** Updates a checksum for one replaced word. For the checksum of any data holding `old16` at word k, the result
      is what recomputing would give, exactly when the changed data is not all zero. */
  method UpdateChecksum16(csum: uint16, old16: uint16, new16: uint16) returns (r: uint16)
    ensures r == Update16(csum, old16, new16)
    ensures forall ws: seq<uint16>, k: nat :: k < |ws| && ws[k] == old16 && csum == ChecksumOf(ws) ==>
              (r == ChecksumOf(ws[k := new16]) <==> HasNonZero(ws[k := new16]))
  {
    var folded := FoldCarries(Complement(csum) + Complement(old16) + new16);
    r := Complement(folded);
    forall ws: seq<uint16>, k: nat | k < |ws| && ws[k] == old16 && csum == ChecksumOf(ws)
      ensures r == ChecksumOf(ws[k := new16]) <==> HasNonZero(ws[k := new16])
    {
      UpdateIsRecompute(ws, k, new16);
    }
  }

  method UpdateChecksum32(csum: uint16, old32: uint32, new32: uint32) returns (r: uint16)
    ensures r == Update32(csum, old32, new32)
    ensures forall ws: seq<uint16>, i: nat, j: nat {:trigger ws[i], ws[j]} ::
              i < |ws| && j < |ws| && i != j
              && ws[i] == old32 / 0x1_0000 && ws[j] == old32 % 0x1_0000 && csum == ChecksumOf(ws) ==>
              var ws' := ws[i := new32 / 0x1_0000][j := new32 % 0x1_0000];
              (r == ChecksumOf(ws') <==> HasNonZero(ws'))
  {
    var intermediate := UpdateChecksum16(csum, old32 / 0x1_0000, new32 / 0x1_0000);
    r := UpdateChecksum16(intermediate, old32 % 0x1_0000, new32 % 0x1_0000);
    forall ws: seq<uint16>, i: nat, j: nat |
      i < |ws| && j < |ws| && i != j && ws[i] == old32 / 0x1_0000 && ws[j] == old32 % 0x1_0000 && csum == ChecksumOf(ws)
      ensures var ws' := ws[i := new32 / 0x1_0000][j := new32 % 0x1_0000]; r == ChecksumOf(ws') <==> HasNonZero(ws')
    {
      Update32IsRecompute(ws, i, j, old32, new32);
    }
  }
}
