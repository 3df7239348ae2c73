/** Machine-word operations on natural numbers. */
module Bitwise {

  const WORD64: nat := 0x1_0000_0000_0000_0000

  function Pow2(n: nat): (p: nat)
    ensures p > 0
  {
    if n == 0 then 1 else 2 * Pow2(n - 1)
  }

  function ShiftRight(x: nat, k: nat): nat
  {
    if k == 0 then x else ShiftRight(x, k - 1) / 2
  }

  function And(a: nat, b: nat): nat
  {
    if a == 0 || b == 0 then 0 else 2 * And(a / 2, b / 2) + (if a % 2 == 1 && b % 2 == 1 then 1 else 0)
  }

  function Xor(a: nat, b: nat): nat
    decreases a + b
  {
    if a == 0 then b else if b == 0 then a
    else 2 * Xor(a / 2, b / 2) + (if a % 2 != b % 2 then 1 else 0)
  }

  lemma MultipleGrows(a: int, d: nat)
    ensures a >= 1 ==> a * d >= d
    ensures a <= -1 ==> a * d + d <= 0
  {
    if a >= 1 { assert (a - 1) * d >= 0; }
    if a <= -1 { assert (-a - 1) * d >= 0; }
  }

  lemma QuotientIs(x: nat, d: nat, q: nat, r: nat)
    requires x == q * d + r && r < d
    ensures x / d == q && x % d == r
  {
    var q' := x / d;
    assert x == q' * d + x % d;
    assert (q - q') * d == x % d - r;
    MultipleGrows(q - q', d);
  }

  lemma HalfOfQuotient(x: nat, k: nat)
    requires k > 0
    ensures x / (2 * k) == (x / k) / 2
  {
    var q := x / k;
    var h := q / 2;
    assert x == q * k + x % k;
    assert q == 2 * h + q % 2;
    assert q * k == h * (2 * k) + (q % 2) * k;
    assert 0 <= (q % 2) * k <= k;
    QuotientIs(x, 2 * k, h, (q % 2) * k + x % k);
  }

  lemma {:induction false} ShiftDivides(x: nat, k: nat)
    ensures ShiftRight(x, k) == x / Pow2(k)
  {
    if k > 0 {
      ShiftDivides(x, k - 1);
      HalfOfQuotient(x, Pow2(k - 1));
    }
  }

  lemma {:induction false} Pow2Sum(a: nat, b: nat)
    ensures Pow2(a + b) == Pow2(a) * Pow2(b)
  {
    if a > 0 {
      Pow2Sum(a - 1, b);
      assert Pow2(a + b) == 2 * Pow2((a - 1) + b);
    }
  }

  lemma Pow2Of32()
    ensures Pow2(32) == 0x1_0000_0000
  {
    assert Pow2(8) == 256;
    assert Pow2(16) == 65536;
    assert Pow2(24) == 16777216;
  }

  lemma Pow2Of64()
    ensures Pow2(64) == WORD64
  {
    Pow2Of32();
    Pow2Sum(32, 32);
  }

  lemma ModOfDouble(x: nat, h: nat)
    requires h > 0
    ensures x % (2 * h) == 2 * ((x / 2) % h) + x % 2
  {
    var q, r := (x / 2) / h, (x / 2) % h;
    assert x / 2 == q * h + r;
    assert q * (2 * h) == 2 * (q * h);
    QuotientIs(x, 2 * h, q, 2 * r + x % 2);
  }

  lemma AndOdd(x: nat, h: nat)
    requires h > 0
    ensures And(x, 2 * h - 1) == 2 * And(x / 2, h - 1) + x % 2
  {
    assert (2 * h - 1) / 2 == h - 1 && (2 * h - 1) % 2 == 1;
  }

  /** Masking with 2^k - 1 keeps the remainder modulo 2^k. */
  lemma {:induction false} MaskIsMod(x: nat, k: nat)
    ensures And(x, Pow2(k) - 1) == x % Pow2(k)
    decreases k
  {
    if k > 0 {
      MaskIsMod(x / 2, k - 1);
      ModOfDouble(x, Pow2(k - 1));
      AndOdd(x, Pow2(k - 1));
    }
  }

  lemma Regroup(q: nat, c: nat, m: nat, s: nat, t: nat)
    ensures q * (c * m) + (s * c + t) == (q * m + s) * c + t
  {
    assert q * (c * m) == (q * m) * c;
    assert (q * m + s) * c == (q * m) * c + s * c;
  }

  /** Wrapping a counter at a multiple of `c` does not change its remainder modulo `c`. */
  lemma ModOfMod(n: nat, c: nat, m: nat)
    requires c > 0 && c * m > 0
    ensures (n % (c * m)) % c == n % c
  {
    var w := c * m;
    var q, r := n / w, n % w;
    var s, t := r / c, r % c;
    assert n == q * w + r && r == s * c + t;
    Regroup(q, c, m, s, t);
    QuotientIs(n, c, q * m + s, t);
  }

  /** Numbers less than `c` apart have different remainders modulo `c`. */
  lemma NearbyDiffer(i: nat, j: nat, c: nat)
    requires i < j < i + c
    ensures i % c != j % c
  {
    var a, b := i / c, j / c;
    assert i == a * c + i % c && j == b * c + j % c;
    assert (b - a) * c == (j - j % c) - (i - i % c);
    MultipleGrows(b - a, c);
  }

  /** The distance of two counters survives wrapping at `w`, when it is less than `w`. */
  lemma WrappedDistance(m: nat, n: nat, w: nat)
    requires m <= n < m + w
    ensures (n % w - m % w) % w == n - m
  {
    var a, b := m / w, n / w;
    assert m == a * w + m % w && n == b * w + n % w;
    var d := n % w - m % w;
    assert (b - a) * w == (n - m) - d;
    MultipleGrows(b - a, w);
    MultipleGrows(b - a - 1, w);
    if b == a {
      QuotientIs(d, w, 0, d);
    } else {
      assert (b - a - 1) * w == (b - a) * w - w;
      assert d == (n - m) - w;
      NegativeMod(d, w);
    }
  }

  lemma NegativeMod(d: int, w: nat)
    requires -(w as int) <= d < 0
    ensures d % w == d + w
  {
    var q := d / w;
    assert d == q * w + d % w;
    assert (q + 1) * w == q * w + w;
    MultipleGrows(q + 1, w);
  }

  // ---- Exclusive or ----

  lemma XorHalves(a: nat, b: nat)
    ensures Xor(a, b) / 2 == Xor(a / 2, b / 2)
    ensures Xor(a, b) % 2 == if a % 2 != b % 2 then 1 else 0
  {
  }

  lemma {:induction false} ShiftHalf(x: nat, i: nat)
    ensures ShiftRight(x / 2, i) == ShiftRight(x, i + 1)
  {
    if i > 0 {
      ShiftHalf(x, i - 1);
    }
  }

  /** Bit `i` of the exclusive or is set exactly when bit `i` differs. */
  lemma {:induction false} XorBits(a: nat, b: nat, i: nat)
    ensures ShiftRight(Xor(a, b), i) % 2 == 1 <==> ShiftRight(a, i) % 2 != ShiftRight(b, i) % 2
    decreases i
  {
    XorHalves(a, b);
    if i > 0 {
      XorBits(a / 2, b / 2, i - 1);
      ShiftHalf(a, i - 1);
      ShiftHalf(b, i - 1);
      ShiftHalf(Xor(a, b), i - 1);
    }
  }

  lemma {:induction false} XorFits(a: nat, b: nat, k: nat)
    requires a < Pow2(k) && b < Pow2(k)
    ensures Xor(a, b) < Pow2(k)
    decreases k
  {
    if k > 0 {
      XorFits(a / 2, b / 2, k - 1);
      XorHalves(a, b);
    }
  }

  lemma {:induction false} XorCommutes(a: nat, b: nat)
    ensures Xor(a, b) == Xor(b, a)
    decreases a + b
  {
    if a > 0 && b > 0 {
      XorCommutes(a / 2, b / 2);
    }
  }

  lemma {:induction false} XorCancels(a: nat, b: nat, c: nat)
    requires Xor(a, b) == Xor(a, c)
    ensures b == c
    decreases a + b + c
  {
    XorHalves(a, b);
    XorHalves(a, c);
    if a > 0 {
      XorCancels(a / 2, b / 2, c / 2);
    }
  }

  lemma XorFromHalves(a: nat, b: nat, x: nat)
    requires Xor(a / 2, b / 2) == x / 2 && x % 2 == if a % 2 != b % 2 then 1 else 0
    ensures Xor(a, b) == x
  {
    XorHalves(a, b);
  }

  /** `x` with bit `k` inverted. */
  function Flip(x: nat, k: nat): nat
  {
    if (x / Pow2(k)) % 2 == 1 then x - Pow2(k) else x + Pow2(k)
  }

  lemma FlipHalves(x: nat, k: nat)
    requires k > 0
    ensures Flip(x, k) / 2 == Flip(x / 2, k - 1) && Flip(x, k) % 2 == x % 2
  {
    ShiftDivides(x, k);
    ShiftDivides(x / 2, k - 1);
    ShiftHalf(x, k - 1);
  }

  /** Adding a leading bit to one operand inverts that bit of the exclusive or. */
  lemma {:induction false} XorFlips(a: nat, b: nat, k: nat)
    requires b < Pow2(k)
    ensures Xor(a, b + Pow2(k)) == Flip(Xor(a, b), k)
    decreases k
  {
    var b' := b + Pow2(k);
    XorHalves(a, b);
    if k > 0 {
      XorFlips(a / 2, b / 2, k - 1);
      FlipHalves(Xor(a, b), k);
      assert b' / 2 == b / 2 + Pow2(k - 1) && b' % 2 == b % 2;
    }
    XorFromHalves(a, b', Flip(Xor(a, b), k));
  }

  /** `x` with the bit of weight `p` inverted. */
  function FlipWeight(x: nat, p: nat): nat
    requires p != 0
  {
    if (x / p) % 2 == 1 then x - p else x + p
  }

  lemma XorWithBit(a: nat, b: nat, k: nat, p: nat)
    requires Pow2(k) == p && b < p
    ensures Xor(a, b + p) == FlipWeight(Xor(a, b), p)
  {
    XorFlips(a, b, k);
  }

  /** The exclusive or with a number of three bits. */
  lemma XorWithThreeBits(a: nat, p: nat, q: nat, r: nat, i: nat, j: nat, k: nat)
    requires Pow2(i) == p && Pow2(j) == q && Pow2(k) == r && p < q && p + q < r
    ensures Xor(a, p + q + r) == FlipWeight(FlipWeight(FlipWeight(a, p), q), r)
  {
    XorWithBit(a, 0, i, p);
    XorWithBit(a, p, j, q);
    XorWithBit(a, p + q, k, r);
  }
}
