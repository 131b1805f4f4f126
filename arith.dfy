/** Facts about integer multiplication and Euclidean division used by the codec proofs. */
module Arith {

  lemma MulMono(a: int, b: int, c: int)
    requires a <= b && c >= 0
    ensures a * c <= b * c
  {
    assert b * c - a * c == (b - a) * c;
  }

  lemma MulPos(x: int, d: int)
    requires x >= 1 && d > 0
    ensures x * d >= d
  {
    MulMono(1, x, d);
  }

  /** A value is its quotient times the divisor plus its remainder. */
  lemma DivMod(v: int, d: int)
    requires d > 0
    ensures v / d * d + v % d == v
  {
  }

  /** Division with remainder has exactly one answer. */
  lemma DivModUnique(v: int, d: int, q: int, m: int)
    requires d > 0 && 0 <= m < d && v == q * d + m
    ensures v / d == q && v % d == m
  {
    var q' := v / d;
    var m' := v % d;
    assert v == q' * d + m';
    assert (q - q') * d == m' - m;
    if q' < q {
      MulPos(q - q', d);
    } else if q < q' {
      MulPos(q' - q, d);
    }
  }

  /** A value below a * b has a quotient by b below a. */
  lemma DivBelow(v: int, a: nat, b: nat)
    requires 0 <= v < a * b && b > 0
    ensures v / b < a
  {
    assert v / b * b <= v;
    if a <= v / b {
      MulMono(a, v / b, b);
    }
  }

  /** Splitting a remainder modulo 64p into its top 6-bit group and the rest. */
  lemma ModSplit(v: int, p: int)
    requires v >= 0 && p > 0
    ensures v % (64 * p) == v / p % 64 * p + v % p
  {
    var q := v / p;
    var m := v % p;
    var top := q / 64;
    var g := q % 64;
    assert v == top * (64 * p) + (g * p + m) by {
      assert q == top * 64 + g;
      assert v == q * p + m;
      assert q * p == top * (64 * p) + g * p;
    }
    MulMono(g, 63, p);
    DivModUnique(v, 64 * p, top, g * p + m);
  }
}
