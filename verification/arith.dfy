/**
 Integer helpers for the tiling arithmetic: clipping with `Min`, the
 ceiling quotient used to count block rows and columns, and facts about
 Euclidean division by a positive divisor (which coincides with Python's
 floor division `//` whenever the divisor is positive).
 */
module Arith {

  function Min(a: int, b: int): int
  {
    if a <= b then a else b
  }

  /** Number of steps of size `d` needed to cover `n` units: ceil(n / d). */
  function Ceil(n: int, d: int): int
    requires d >= 1
  {
    (n + d - 1) / d
  }

  lemma MulLeft(a: int, b: int, d: int)
    ensures a <= b && d >= 0 ==> a * d <= b * d
  {
    if a <= b && d >= 0 {
      assert b * d - a * d == (b - a) * d;
    }
  }

  lemma MulStep(k: int, d: int)
    ensures (k + 1) * d == k * d + d
  {
  }

  /** The quotient is determined by any decomposition whose remainder lies in [0, d). */
  lemma DivUnique(a: int, d: int, q: int)
    requires d >= 1
    requires q * d <= a < q * d + d
    ensures a / d == q
    ensures a % d == a - q * d
  {
    var q' := a / d;
    if q' < q {
      MulStep(q', d);
      MulLeft(q' + 1, q, d);
    } else if q < q' {
      MulStep(q, d);
      MulLeft(q + 1, q', d);
    }
  }

  lemma MultipleMod(k: int, d: int)
    requires d >= 1
    ensures (k * d) / d == k
    ensures (k * d) % d == 0
  {
    DivUnique(k * d, d, k);
  }

  lemma DivAddStep(a: int, d: int)
    requires d >= 1
    ensures (a + d) / d == a / d + 1
    ensures (a + d) % d == a % d
  {
    var q := a / d;
    assert (q + 1) * d == q * d + d;
    DivUnique(a + d, d, q + 1);
  }

  lemma MulPositive(a: int, b: int)
    requires a >= 1 && b >= 1
    ensures a * b >= 1
  {
    MulLeft(1, a, b);
  }

  lemma MulAdd(a: int, u: int, v: int)
    ensures a * (u + v) == a * u + a * v
  {
  }

  /** a * (w * (k + 1)) == a * (w * k) + a * w */
  lemma MulGrow(a: int, w: int, k: int)
    ensures a * (w * (k + 1)) == a * (w * k) + a * w
  {
    assert w * (k + 1) == w * k + w;
    MulAdd(a, w * k, w);
  }

  /** The floor quotient brackets the dividend: q * d <= s < (q + 1) * d. */
  lemma DivBracket(s: int, d: int)
    requires d >= 1
    ensures (s / d) * d <= s < (s / d) * d + d
  {
  }

  /** If lo * d <= s <= hi * d then lo <= s / d <= hi. */
  lemma DivBounds(s: int, d: int, lo: int, hi: int)
    requires d >= 1
    requires lo * d <= s <= hi * d
    ensures lo <= s / d <= hi
  {
    var q := s / d;
    DivBracket(s, d);
    if q < lo {
      MulStep(q, d);
      MulLeft(q + 1, lo, d);
    }
    if hi < q {
      MulLeft(hi + 1, q, d);
      MulStep(hi, d);
    }
  }
}
