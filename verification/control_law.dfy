/** CoDel's inverse-square-root drop schedule (src/qos/fq_codel.cpp). */
module ControlLaw {

  const INTERVAL_NS: nat := 100_000_000

  /** The largest d with d * d * count <= n, two bits of `n` at a time. */
  function Root(n: nat, count: nat): nat
    requires count != 0
  {
    if n < count then 0 else
      var r := Root(n / 4, count);
      if (2 * r + 1) * (2 * r + 1) * count <= n then 2 * r + 1 else 2 * r
  }

  /** interval / sqrt(count), rounded down. */
  function DropSpacing(count: nat): nat
    requires count != 0
  {
    Root(INTERVAL_NS * INTERVAL_NS, count)
  }

  function NextDrop(t: nat, count: nat): nat
  {
    if count == 0 then t + INTERVAL_NS else t + DropSpacing(count)
  }

  lemma Scale(a: nat, b: nat, c: nat)
    requires a <= b
    ensures a * c <= b * c
  {
    assert (b - a) * c >= 0;
  }

  lemma Square(a: nat, b: nat)
    requires a <= b
    ensures a * a <= b * b
  {
    assert a * a <= a * b <= b * b;
  }

  lemma ScaledSquare(a: nat, b: nat, c: nat)
    requires a <= b
    ensures a * a * c <= b * b * c
  {
    Square(a, b);
    Scale(a * a, b * b, c);
  }

  lemma DoubledSquare(r: nat, c: nat)
    ensures (2 * r) * (2 * r) * c == 4 * (r * r * c)
  {
    assert (2 * r) * (2 * r) == 4 * (r * r);
  }

  lemma {:induction false} RootIsRoot(n: nat, count: nat)
    requires count != 0
    ensures var r := Root(n, count); r * r * count <= n < (r + 1) * (r + 1) * count
  {
    if n >= count {
      RootIsRoot(n / 4, count);
      var r := Root(n / 4, count);
      DoubledSquare(r, count);
      DoubledSquare(r + 1, count);
      assert 2 * (r + 1) == 2 * r + 2;
    }
  }

  lemma RootBound(n: nat, count: nat, r: nat, d: nat)
    requires r * r * count <= n < (r + 1) * (r + 1) * count
    ensures d <= r <==> d * d * count <= n
  {
    if d <= r { ScaledSquare(d, r, count); } else { ScaledSquare(r + 1, d, count); }
  }

  /** The spacing is the largest d with d * sqrt(count) <= interval. */
  lemma DropSpacingIsInverseSqrt(count: nat, d: nat)
    requires count != 0
    ensures d <= DropSpacing(count) <==> d * d * count <= INTERVAL_NS * INTERVAL_NS
  {
    RootIsRoot(INTERVAL_NS * INTERVAL_NS, count);
    RootBound(INTERVAL_NS * INTERVAL_NS, count, DropSpacing(count), d);
  }

  /** Later drops of one dropping phase are never spaced further apart than earlier ones. */
  lemma DropSpacingShrinks(count: nat)
    requires count != 0
    ensures DropSpacing(count + 1) <= DropSpacing(count) <= INTERVAL_NS
  {
    var d := DropSpacing(count + 1);
    DropSpacingIsInverseSqrt(count + 1, d);
    assert d * d * (count + 1) == d * d * count + d * d;
    DropSpacingIsInverseSqrt(count, d);
    Scale(1, count, (INTERVAL_NS + 1) * (INTERVAL_NS + 1));
    DropSpacingIsInverseSqrt(count, INTERVAL_NS + 1);
  }
}
