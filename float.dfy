/**
 * The part of IEEE-754 single-precision arithmetic the search engine's
 * scoring relies on: not-a-number, the two infinities, and the exact value
 * of every finite result. Rounding and signed zeros are not modelled.
 */
module Float32 {
  /** An f32: NaN, an infinity of either sign, or a finite value. */
  datatype Float = NaN | Inf(negative: bool) | Num(value: real)

  /** `a + b`: NaN absorbs, opposite infinities give NaN, an infinity absorbs a finite value. */
  function Add(a: Float, b: Float): (r: Float)
    ensures (a.NaN? || b.NaN?) ==> r.NaN?
    ensures a.Num? && b.Num? ==> r == Num(a.value + b.value)
  {
    match (a, b)
    case (NaN, _) => NaN
    case (_, NaN) => NaN
    case (Inf(m), Inf(n)) => if m == n then Inf(m) else NaN
    case (Inf(m), Num(_)) => Inf(m)
    case (Num(_), Inf(n)) => Inf(n)
    case (Num(x), Num(y)) => Num(x + y)
  }

  /** f32 addition commutes, and NaN stays NaN whatever is added to it. */
  lemma AddCommutes(a: Float, b: Float)
    ensures Add(a, b) == Add(b, a)
    ensures Add(NaN, b) == NaN
  {
  }

  /**
   * `a / b`: 0/0 and inf/inf are NaN, a non-zero finite value over zero is
   * an infinity of that value's sign, a finite value over an infinity is 0.
   */
  function Div(a: Float, b: Float): (r: Float)
    ensures (a.NaN? || b.NaN?) ==> r.NaN?
    ensures a == Num(0.0) && b == Num(0.0) ==> r.NaN?
    ensures a.Inf? && b.Inf? ==> r.NaN?
    ensures a.Num? && b.Num? && b.value != 0.0 ==> r == Num(a.value / b.value)
  {
    match (a, b)
    case (NaN, _) => NaN
    case (_, NaN) => NaN
    case (Inf(_), Inf(_)) => NaN
    case (Inf(m), Num(y)) => Inf(m != (y < 0.0))
    case (Num(_), Inf(_)) => Num(0.0)
    case (Num(x), Num(y)) =>
      if y != 0.0 then Num(x / y)
      else if x == 0.0 then NaN
      else Inf(x < 0.0)
  }

  /**
   * `x >= y` on f32: false whenever either side is NaN; an infinity is
   * above (or below) every finite value.
   */
  predicate GreaterOrEqual(a: Float, b: Float)
  {
    match (a, b)
    case (NaN, _) => false
    case (_, NaN) => false
    case (Inf(m), Inf(n)) => !m || n
    case (Inf(m), Num(_)) => !m
    case (Num(_), Inf(n)) => n
    case (Num(x), Num(y)) => x >= y
  }

  /**
   * The rank `OrderedFloat` gives a value: negative infinity, then the
   * finite values, then positive infinity, then NaN (all NaNs are equal).
   */
  function Tier(a: Float): int
  {
    match a
    case Inf(true) => 0
    case Num(_) => 1
    case Inf(false) => 2
    case NaN => 3
  }

  /** `OrderedFloat(a) <= OrderedFloat(b)`. */
  predicate AtMost(a: Float, b: Float)
  {
    Tier(a) < Tier(b) || (Tier(a) == Tier(b) && (a.Num? ==> a.value <= b.value))
  }

  /**
   * `OrderedFloat` is a total preorder with NaN on top: any two values
   * compare, comparison chains, and nothing is above NaN.
   */
  lemma OrderedFloatIsTotalPreorder(a: Float, b: Float, c: Float)
    ensures AtMost(a, a)
    ensures AtMost(a, b) || AtMost(b, a)
    ensures AtMost(a, b) && AtMost(b, c) ==> AtMost(a, c)
    ensures AtMost(a, NaN) && (AtMost(NaN, a) <==> a.NaN?)
    ensures AtMost(a, b) && AtMost(b, a) ==> a == b
  {
  }

  /**
   * The `>=` of f32 agrees with `OrderedFloat` away from NaN, and is never
   * true with NaN on either side.
   */
  lemma GreaterOrEqualMatchesOrder(a: Float, b: Float)
    ensures !a.NaN? && !b.NaN? ==> (GreaterOrEqual(a, b) <==> AtMost(b, a))
    ensures a.NaN? || b.NaN? ==> !GreaterOrEqual(a, b)
  {
  }

  /**
   * `1.0 / t` for an f32 temperature `t`: positive infinity at zero, zero at
   * either infinity, NaN at NaN.
   */
  function Reciprocal(t: Float): (r: Float)
    ensures t.Num? && t.value != 0.0 ==> r == Num(1.0 / t.value)
    ensures t == Num(0.0) ==> r == Inf(false)
    ensures t.Inf? ==> r == Num(0.0)
    ensures t.NaN? ==> r.NaN?
  {
    Div(Num(1.0), t)
  }

  /**
   * `(n as f32).powf(e)` for a count `n`. The finite case with a base of two
   * or more is the library's `pow`, a parameter; the rest is fixed by
   * IEEE-754: 1 to any power is 1, 0 to a positive power is 0 and to a
   * negative one is infinity, and a base above 1 to the infinities gives
   * infinity and 0.
   */
  function PowF(n: nat, e: Float, pow: (nat, real) -> real): (r: Float)
    ensures n == 1 ==> r == Num(1.0)
    ensures n == 0 && (e == Inf(false) || (e.Num? && e.value > 0.0)) ==> r == Num(0.0)
    ensures n == 0 && (e == Inf(true) || (e.Num? && e.value < 0.0)) ==> r == Inf(false)
  {
    if n == 1 then Num(1.0)
    else match e
      case NaN => NaN
      case Inf(negative) =>
        if n == 0 then (if negative then Inf(false) else Num(0.0))
        else (if negative then Num(0.0) else Inf(false))
      case Num(x) =>
        if x == 0.0 then Num(1.0)
        else if n == 0 then (if x > 0.0 then Num(0.0) else Inf(false))
        else Num(pow(n, x))
  }

  /**
   * Zero raised to the reciprocal of a temperature, divided by itself: NaN
   * (0/0 or inf/inf) for a finite or NaN temperature, and 1 for an infinite
   * one, whose reciprocal is 0 and 0 to the power 0 is 1.
   */
  lemma ZeroPowerOverItself(t: Float, pow: (nat, real) -> real)
    ensures !t.Inf? ==> Div(PowF(0, Reciprocal(t), pow), PowF(0, Reciprocal(t), pow)).NaN?
    ensures t.Inf? ==> Div(PowF(0, Reciprocal(t), pow), PowF(0, Reciprocal(t), pow)) == Num(1.0)
  {
    if t.Num? && t.value > 0.0 {
      assert 1.0 / t.value > 0.0;
    } else if t.Num? && t.value < 0.0 {
      assert 1.0 / t.value < 0.0;
    }
  }
}
