/** The few pieces of JavaScript number and array semantics that the grid and the
    entity code rely on: `Math.floor`, the truncating `%` operator, and reading an
    array element with a number as the key. JavaScript numbers are modelled as exact
    reals; NaN is kept as its own value because `x % 0` produces it. */
module JsSemantics {

  datatype Option<T> = None | Some(value: T)

  /** A JavaScript number as used for an array key: a finite value or NaN. */
  datatype Index = Finite(v: real) | NaN

  function Abs(x: real): (r: real)
    ensures r >= 0.0 && (r == x || r == -x)
  {
    if x < 0.0 then -x else x
  }

  /** Truncation toward zero (the quotient JavaScript's `%` is built on). */
  function Trunc(x: real): (t: int)
    ensures x >= 0.0 ==> t as real <= x < t as real + 1.0
    ensures x < 0.0 ==> t as real - 1.0 < x <= t as real
    ensures Abs(t as real) <= Abs(x)
  {
    if x >= 0.0 then x.Floor else -((-x).Floor)
  }

  // Each fact about a product sits in a lemma of its own: the solver's support for
  // products of real variables is reliable one inequality at a time.

  lemma ProductNonNegative(c: real, f: real)
    requires c > 0.0 && f >= 0.0
    ensures c * f >= 0.0
  {
  }

  lemma ProductBelow(c: real, f: real)
    requires c > 0.0 && f < 1.0
    ensures c * f < c
  {
  }

  lemma ProductNonPositive(c: real, f: real)
    requires c > 0.0 && f <= 0.0
    ensures c * f <= 0.0
  {
  }

  lemma ProductAbove(c: real, f: real)
    requires c > 0.0 && f > -1.0
    ensures c * f > -c
  {
  }

  /** `b * f` for a fraction `f` of a unit lies strictly within `|b|` of zero, on
      the side that the signs of `b` and `f` give. */
  lemma {:induction false} ScaledFraction(b: real, f: real)
    requires b != 0.0 && -1.0 < f < 1.0
    ensures f >= 0.0 ==> (if b > 0.0 then 0.0 <= b * f < b else b < b * f <= 0.0)
    ensures f <= 0.0 ==> (if b > 0.0 then -b < b * f <= 0.0 else 0.0 <= b * f < -b)
  {
    if b > 0.0 {
      if f >= 0.0 { ProductNonNegative(b, f); ProductBelow(b, f); }
      if f <= 0.0 { ProductNonPositive(b, f); ProductAbove(b, f); }
    } else {
      var g := -f;
      assert b * f == -b * g;
      if f >= 0.0 { ProductNonPositive(-b, g); ProductAbove(-b, g); }
      if f <= 0.0 { ProductNonNegative(-b, g); ProductBelow(-b, g); }
    }
  }

  lemma QuotientSignPositive(a: real, b: real)
    requires b > 0.0
    ensures a >= 0.0 <==> a / b >= 0.0
    ensures a <= 0.0 <==> a / b <= 0.0
  {
  }

  lemma QuotientSignNegative(a: real, b: real)
    requires b < 0.0
    ensures a >= 0.0 <==> a / b <= 0.0
    ensures a <= 0.0 <==> a / b >= 0.0
  {
  }

  /** The sign bookkeeping of the remainder, stated over plain numbers: `r` is
      `b * f` for the fraction `f` that rounding the quotient `q` toward zero
      discards. */
  lemma RemainderSign(a: real, b: real, q: real, f: real, r: real)
    requires b != 0.0 && -1.0 < f < 1.0
    requires q >= 0.0 ==> f >= 0.0
    requires q <= 0.0 ==> f <= 0.0
    requires f >= 0.0 ==> (if b > 0.0 then 0.0 <= r < b else b < r <= 0.0)
    requires f <= 0.0 ==> (if b > 0.0 then -b < r <= 0.0 else 0.0 <= r < -b)
    requires b > 0.0 ==> (a >= 0.0 <==> q >= 0.0) && (a <= 0.0 <==> q <= 0.0)
    requires b < 0.0 ==> (a >= 0.0 <==> q <= 0.0) && (a <= 0.0 <==> q >= 0.0)
    ensures a >= 0.0 ==> 0.0 <= r < Abs(b)
    ensures a <= 0.0 ==> -Abs(b) < r <= 0.0
  {
  }

  /** The remainder left by a quotient `q == a / b` rounded toward zero to `t`. */
  lemma {:induction false} RemainderOfRoundedQuotient(a: real, b: real, q: real, t: real)
    requires b != 0.0 && b * q == a
    requires q >= 0.0 ==> t <= q < t + 1.0
    requires q < 0.0 ==> t - 1.0 < q <= t
    requires q == 0.0 ==> t == 0.0
    requires b > 0.0 ==> (a >= 0.0 <==> q >= 0.0) && (a <= 0.0 <==> q <= 0.0)
    requires b < 0.0 ==> (a >= 0.0 <==> q <= 0.0) && (a <= 0.0 <==> q >= 0.0)
    ensures a >= 0.0 ==> 0.0 <= a - b * t < Abs(b)
    ensures a <= 0.0 ==> -Abs(b) < a - b * t <= 0.0
  {
    var f := q - t;
    assert b * f == b * q - b * t;
    assert b * f == a - b * t;
    FractionBounds(a, b, q, f);
  }

  /** The bounds on `b * f`, for the fraction `f` that rounding `q` toward zero
      discards, in terms of the sign of the dividend `a`. Kept apart from
      RemainderOfRoundedQuotient so that `b * q == a` is not in its context. */
  lemma {:induction false} FractionBounds(a: real, b: real, q: real, f: real)
    requires b != 0.0 && -1.0 < f < 1.0
    requires q >= 0.0 ==> f >= 0.0
    requires q <= 0.0 ==> f <= 0.0
    requires b > 0.0 ==> (a >= 0.0 <==> q >= 0.0) && (a <= 0.0 <==> q <= 0.0)
    requires b < 0.0 ==> (a >= 0.0 <==> q <= 0.0) && (a <= 0.0 <==> q >= 0.0)
    ensures a >= 0.0 ==> 0.0 <= b * f < Abs(b)
    ensures a <= 0.0 ==> -Abs(b) < b * f <= 0.0
  {
    ScaledFraction(b, f);
    RemainderSign(a, b, q, f, b * f);
  }

  /** The arithmetic facts behind JsRemainder, for the expression it returns. */
  lemma {:induction false} TruncatedRemainderFacts(a: real, b: real)
    requires b != 0.0
    ensures var r := a - b * Trunc(a / b) as real;
      && (a >= 0.0 ==> 0.0 <= r < Abs(b))
      && (a <= 0.0 ==> -Abs(b) < r <= 0.0)
      && (a - r) / b == Trunc(a / b) as real
  {
    var q := a / b;
    var t := Trunc(q) as real;
    assert b * q == a;
    if b > 0.0 { QuotientSignPositive(a, b); } else { QuotientSignNegative(a, b); }
    RemainderOfRoundedQuotient(a, b, q, t);
    assert (b * t) / b == t;
  }

  /** JavaScript's `a % b` for b != 0: `a - b * trunc(a / b)`. Unlike Dafny's `%`
      the result takes the sign of the dividend `a`, its magnitude stays below
      `|b|`, and `a` and the result differ by a whole multiple of `b`. */
  function JsRemainder(a: real, b: real): (r: real)
    requires b != 0.0
    ensures a >= 0.0 ==> 0.0 <= r < Abs(b)
    ensures a <= 0.0 ==> -Abs(b) < r <= 0.0
    ensures Integral((a - r) / b)
  {
    TruncatedRemainderFacts(a, b);
    a - b * Trunc(a / b) as real
  }

  /** True when `x` holds an integral value. */
  predicate Integral(x: real) {
    x.Floor as real == x
  }

  lemma IntegralProduct(x: real, y: real)
    requires Integral(x) && Integral(y)
    ensures Integral(x * y)
  {
    assert x * y == (x.Floor * y.Floor) as real;
  }

  /** The remainder of two whole numbers is a whole number. */
  lemma RemainderOfWholeNumbers(a: real, b: real)
    requires b != 0.0 && Integral(a) && Integral(b)
    ensures Integral(JsRemainder(a, b))
  {
    WholeRemainder(a, b, JsRemainder(a, b));
  }

  /** A number that differs from a whole number `a` by a whole multiple of a whole
      number `b` is whole. */
  lemma WholeRemainder(a: real, b: real, r: real)
    requires b != 0.0 && Integral(a) && Integral(b) && Integral((a - r) / b)
    ensures Integral(r)
  {
    var t := (a - r) / b;
    assert b * t == a - r;
    IntegralProduct(b, t);
    IntegralDifference(a, b * t);
    assert a - b * t == r;
  }

  lemma IntegralDifference(x: real, y: real)
    requires Integral(x) && Integral(y)
    ensures Integral(x - y)
  {
    assert x - y == (x.Floor - y.Floor) as real;
  }

  /** The element `s[ix]` when `ix` is an integer key within bounds; a JavaScript
      array answers `undefined` for any other key (negative, fractional, NaN). */
  function Get<T>(s: seq<T>, ix: Index): Option<T>
  {
    if ix.Finite? && Integral(ix.v) && 0 <= ix.v.Floor < |s| then Some(s[ix.v.Floor]) else None
  }
}
