/**
 * The part of JavaScript number arithmetic the analysis relies on: dividing
 * two counts, which yields `NaN` for `0 / 0` and `Infinity` for a positive
 * count over zero, and scaling to a percentage. A finite result is kept as
 * the exact fraction it stands for.
 */
module JsNumbers {

  datatype Number = Finite(numerator: nat, denominator: nat) | NaN | Infinity

  const Zero: Number := Finite(0, 1)

  /** A finite number has a non-zero denominator. */
  predicate Valid(x: Number)
  {
    x.Finite? ==> x.denominator > 0
  }

  /** The real number a finite value stands for. */
  function Value(x: Number): real
    requires x.Finite? && Valid(x)
  {
    x.numerator as real / x.denominator as real
  }

  /** `a / b` for two non-negative integers. */
  function Divide(a: nat, b: nat): (r: Number)
    ensures Valid(r)
    ensures r.Finite? <==> b > 0
    ensures r.NaN? <==> a == 0 && b == 0
    ensures r.Infinity? <==> a > 0 && b == 0
  {
    if b > 0 then Finite(a, b)
    else if a == 0 then NaN
    else Infinity
  }

  /** `x * 100`. */
  function Percent(x: Number): (r: Number)
    ensures Valid(x) ==> Valid(r)
    ensures r.Finite? <==> x.Finite?
    ensures r.NaN? <==> x.NaN?
  {
    match x
    case Finite(n, d) => Finite(100 * n, d)
    case NaN => NaN
    case Infinity => Infinity
  }

  /** `x` is the finite number `a / b`: its value times `b` gives back `a`. */
  predicate IsQuotient(x: Number, a: nat, b: nat)
  {
    x.Finite? && Valid(x) && Value(x) * (b as real) == a as real
  }

  /** Dividing by a positive count gives the exact quotient. */
  lemma DivideValue(a: nat, b: nat)
    requires b > 0
    ensures IsQuotient(Divide(a, b), a, b)
  {
  }

  /** `a / b * 100` is the quotient `(100 * a) / b`. */
  lemma PercentOfQuotient(a: nat, b: nat)
    requires b > 0
    ensures IsQuotient(Percent(Divide(a, b)), 100 * a, b)
  {
  }

  lemma DivAtMost(p: real, q: real, c: real)
    requires q > 0.0 && p <= c * q
    ensures p / q <= c
  {
  }

  lemma DivPositive(p: real, q: real)
    requires q > 0.0 && p > 0.0
    ensures p / q > 0.0
  {
  }

  /** The percentage `u / w * 100` of a part `1 <= u <= w` lies in `(0, 100]`. */
  lemma PercentBounds(u: nat, w: nat)
    requires 1 <= u <= w
    ensures Percent(Divide(u, w)).Finite? && Valid(Percent(Divide(u, w)))
    ensures 0.0 < Value(Percent(Divide(u, w))) <= 100.0
  {
    var p := (100 * u) as real;
    var q := w as real;
    assert Value(Percent(Divide(u, w))) == p / q;
    DivAtMost(p, q, 100.0);
    DivPositive(p, q);
  }

  /** The value of `0` is zero. */
  lemma ZeroValue()
    ensures Valid(Zero) && Value(Zero) == 0.0
  {
  }
}
