/** Integer conversions of real numbers as the two front ends perform them, and the
    few facts about real multiplication the proofs need spelled out. */
module RealArith {

  /** C's `(int)` and `(unsigned)` conversion of a floating-point value: the
      fractional part is discarded, rounding toward zero. */
  function Trunc(x: real): (t: int)
    ensures x >= 0.0 ==> 0 <= t && t as real <= x < t as real + 1.0
    ensures x < 0.0 ==> t <= 0 && t as real - 1.0 < x <= t as real
  {
    if x >= 0.0 then x.Floor else -((-x).Floor)
  }

  /** Python's `int(np.ceil(x))`: the least integer not below `x`. */
  function Ceil(x: real): (c: int)
    ensures c as real - 1.0 < x <= c as real
  {
    if x.Floor as real == x then x.Floor else x.Floor + 1
  }

  lemma MulMono(a: real, b: real, c: real)
    requires a >= b && c >= 0.0
    ensures a * c >= b * c
  {
  }

  lemma MulStrict(a: real, b: real, c: real)
    requires a > b && c > 0.0
    ensures a * c > b * c
  {
  }

  lemma DivCancel(s: real, d: real)
    requires d != 0.0
    ensures (s / d) * d == s
  {
  }

  lemma DivNonNegative(s: real, d: real)
    requires s >= 0.0 && d > 0.0
    ensures s / d >= 0.0
  {
  }

  /** Bounds on a quotient carry over to the dividend. */
  lemma Sandwich(e: real, d: real, lo: real, hi: real)
    requires d > 0.0 && lo <= e / d < hi
    ensures lo * d <= e < hi * d
  {
    var q := e / d;
    assert q * d == e;
    MulMono(q, lo, d);
    MulStrict(hi, q, d);
  }

  /** The spacing chosen as at least `s / span` fits `s` into `span` cells. */
  lemma SpanFits(s: real, span: int, dx: real)
    requires span > 0 && dx >= s / span as real
    ensures span as real * dx >= s
  {
    MulMono(dx, s / span as real, span as real);
    DivCancel(s, span as real);
  }
}
