/** The IEEE 754 values a floating-point division by zero produces, and the two
    comparison-based maxima that meet them: C++'s `std::max` and Python's
    built-in `max`. Both keep their current value unless a later one compares
    greater, and every comparison with NaN is false, so a NaN argument is passed
    over unless it comes first. */
module Floats {

  /** A floating-point value: a finite one (an exact real in this model), one of
      the two infinities, or NaN. */
  datatype Float = Finite(value: real) | PosInf | NegInf | NaN

  /** The floating-point quotient of a finite value by a count: the exact
      quotient when the count is not zero; otherwise an infinity with the
      numerator's sign, or NaN for zero over zero. */
  function Quotient(e: real, n: int): (q: Float)
    ensures q.Finite? <==> n != 0
    ensures q.Finite? ==> q.value * n as real == e
    ensures q == NaN <==> n == 0 && e == 0.0
    ensures q == PosInf <==> n == 0 && e > 0.0
  {
    if n != 0 then Finite(e / n as real)
    else if e > 0.0 then PosInf
    else if e < 0.0 then NegInf
    else NaN
  }

  /** The IEEE comparison `a > b`, false whenever either side is NaN. */
  predicate Greater(a: Float, b: Float)
  {
    if a.NaN? || b.NaN? then false
    else if a.PosInf? then !b.PosInf?
    else if a.NegInf? then false
    else if b.PosInf? then false
    else if b.NegInf? then true
    else a.value > b.value
  }

  /** `std::max(a, b)`, which returns `(a < b) ? b : a`. */
  function StdMax(a: Float, b: Float): Float
  {
    if Greater(b, a) then b else a
  }

  /** Python's `max(a, b, c)`: the first argument, replaced by each later one that
      compares greater. */
  function PyMax3(a: Float, b: Float, c: Float): Float
  {
    var m := if Greater(b, a) then b else a;
    if Greater(c, m) then c else m
  }

  /** On finite values both maxima are the real maximum: a value at least each
      argument and equal to one of them. */
  lemma FiniteMaxima(a: real, b: real, c: real)
    ensures StdMax(Finite(a), Finite(b)).Finite?
    ensures var m := StdMax(Finite(a), Finite(b)).value;
      m >= a && m >= b && (m == a || m == b)
    ensures PyMax3(Finite(a), Finite(b), Finite(c)).Finite?
    ensures var m := PyMax3(Finite(a), Finite(b), Finite(c)).value;
      m >= a && m >= b && m >= c && (m == a || m == b || m == c)
  {
  }

  /** A finite result of Python's `max`: at least every finite argument, equal to
      one argument, with no positive infinity among the arguments and no NaN
      first. */
  lemma PyMax3FiniteResult(a: Float, b: Float, c: Float)
    requires PyMax3(a, b, c).Finite?
    ensures var m := PyMax3(a, b, c).value;
      && (a.Finite? ==> m >= a.value) && (b.Finite? ==> m >= b.value) && (c.Finite? ==> m >= c.value)
      && (a == Finite(m) || b == Finite(m) || c == Finite(m))
    ensures !a.NaN? && !a.PosInf? && !b.PosInf? && !c.PosInf?
  {
  }

  /** A NaN is passed over when it is not the first argument, and is the result
      when it is. */
  lemma NaNPassedOver(a: Float, b: Float)
    ensures StdMax(a, NaN) == a
    ensures StdMax(NaN, b) == NaN
    ensures PyMax3(a, NaN, b) == StdMax(a, b)
    ensures PyMax3(a, b, NaN) == StdMax(a, b)
    ensures PyMax3(NaN, a, b) == NaN
  {
  }

  /** A positive infinity wins wherever it stands, except after a NaN in the
      first place. */
  lemma InfinityWins(a: Float, b: Float)
    requires !a.NaN?
    ensures StdMax(a, PosInf) == PosInf && StdMax(PosInf, b) == PosInf
    ensures PyMax3(a, PosInf, b) == PosInf && PyMax3(a, b, PosInf) == PosInf
    ensures PyMax3(PosInf, a, b) == PosInf
  {
  }
}
