/** The pieces of C# and Unity arithmetic that the sun computation depends on:
    integer division that truncates toward zero, the floating-point remainder
    operator, Mathf.Clamp, and the non-finite values one float division can
    produce. Everything else is computed on exact reals. */
module Numerics {

  /** C#'s `/` on non-negative divisors: the quotient is truncated toward zero,
      so the remainder takes the sign of the dividend. */
  function TruncDiv(a: int, b: int): (q: int)
    requires b > 0
    ensures a >= 0 ==> q == a / b
    ensures a >= 0 ==> 0 <= a - q * b < b
    ensures a < 0 ==> -b < a - q * b <= 0
  {
    if a >= 0 then a / b else -((-a) / b)
  }

  /** The integer part of a real, truncated toward zero (a float-to-int cast). */
  function Trunc(x: real): (n: int)
    ensures x >= 0.0 ==> n as real <= x < n as real + 1.0
    ensures x < 0.0 ==> n as real - 1.0 < x <= n as real
  {
    if x >= 0.0 then x.Floor else -((-x).Floor)
  }

  /** C#'s `%` on floats (IEEE fmod): x minus the truncated multiple of m.
      The result keeps the sign of x and is smaller than m in magnitude. */
  function FloatRem(x: real, m: real): (r: real)
    requires m > 0.0
    ensures -m < r < m
    ensures x >= 0.0 ==> r >= 0.0
    ensures x <= 0.0 ==> r <= 0.0
    ensures -m < x < m ==> r == x
    ensures ((x - r) / m).Floor as real == (x - r) / m
  {
    var k := Trunc(x / m);
    QuotientBounds(x, m, k);
    x - (k as real) * m
  }

  /** Multiplying the bounds on the truncated quotient through by m. */
  lemma QuotientBounds(x: real, m: real, k: int)
    requires m > 0.0 && k == Trunc(x / m)
    ensures x >= 0.0 ==> 0.0 <= x - (k as real) * m < m
    ensures x < 0.0 ==> -m < x - (k as real) * m <= 0.0
    ensures -m < x < m ==> k == 0
    ensures (x - (x - (k as real) * m)) / m == k as real
  {
    if x >= 0.0 {
      RemainderOfNonNegative(x, m, k);
    } else {
      RemainderOfNegative(x, m, k);
    }
    if -m < x < m {
      SmallQuotient(x, m);
    }
  }

  lemma RemainderOfNonNegative(x: real, m: real, k: int)
    requires m > 0.0 && x >= 0.0 && k == Trunc(x / m)
    ensures 0.0 <= x - (k as real) * m < m
  {
    var q := x / m;
    var c := k as real;
    assert x == q * m;
    SignOfQuotient(x, m);
    assert c <= q < c + 1.0;
    var t := q - c;
    Scale(t, m);
    assert t * m < m;
    assert x - c * m == t * m;
    assert x - c * m < m;
  }

  lemma RemainderOfNegative(x: real, m: real, k: int)
    requires m > 0.0 && x < 0.0 && k == Trunc(x / m)
    ensures -m < x - (k as real) * m <= 0.0
  {
    var q := x / m;
    var c := k as real;
    assert x == q * m;
    SignOfQuotient(x, m);
    assert c - 1.0 < q <= c;
    var t := c - q;
    Scale(t, m);
    assert t * m < m;
    assert c * m - x == t * m;
    assert -m < x - c * m;
  }

  lemma SmallQuotient(x: real, m: real)
    requires m > 0.0 && -m < x < m
    ensures -1.0 < x / m < 1.0
  {
  }

  lemma SignOfQuotient(x: real, m: real)
    requires m > 0.0
    ensures x >= 0.0 <==> x / m >= 0.0
  {
  }

  /** A non-negative factor scales a positive m; a factor below one keeps it below m. */
  lemma Scale(t: real, m: real)
    requires m > 0.0 && t >= 0.0
    ensures t * m >= 0.0
    ensures t < 1.0 ==> t * m < m
  {
  }

  /** Mathf.Clamp(value, min, max): below min gives min, otherwise above max
      gives max, otherwise the value itself. */
  function Clamp(value: real, min: real, max: real): (r: real)
    ensures min <= max ==> min <= r <= max
    ensures min <= value <= max ==> r == value
    ensures value < min ==> r == min
    ensures min <= max < value ==> r == max
  {
    if value < min then min else if value > max then max else value
  }

  /** A single-precision result that need not be finite. */
  datatype Float = Num(v: real) | PosInf | NegInf | NaN

  /** Float division `n / d` of two finite operands. A zero denominator is
      taken as positive zero: n / 0 is an infinity with the sign of n, and
      0 / 0 is NaN. */
  function Divide(n: real, d: real): (q: Float)
    ensures q.Num? <==> d != 0.0
    ensures q.Num? ==> q.v * d == n
    ensures q.NaN? <==> n == 0.0 && d == 0.0
    ensures q.PosInf? <==> n > 0.0 && d == 0.0
  {
    if d != 0.0 then Num(n / d)
    else if n == 0.0 then NaN
    else if n > 0.0 then PosInf
    else NegInf
  }

  /** Mathf.Clamp on a possibly non-finite value: an infinity is compared like
      any number, so it clamps to the nearer bound; NaN fails both comparisons
      and passes through unchanged. */
  function ClampFloat(x: Float, min: real, max: real): (r: Float)
    requires min <= max
    ensures r.NaN? <==> x.NaN?
    ensures r.Num? <==> !x.NaN?
    ensures r.Num? ==> min <= r.v <= max
    ensures x.PosInf? ==> r == Num(max)
    ensures x.NegInf? ==> r == Num(min)
    ensures x.Num? ==> r == Num(Clamp(x.v, min, max))
    ensures x.Num? && min <= x.v <= max ==> r == x
  {
    match x
    case Num(v) => Num(Clamp(v, min, max))
    case PosInf => Num(max)
    case NegInf => Num(min)
    case NaN => NaN
  }

  /** `c - x` for a finite c: NaN stays NaN and an infinity changes sign. */
  function SubtractFrom(c: real, x: Float): (r: Float)
    ensures r.NaN? <==> x.NaN?
    ensures x.Num? ==> r.Num? && r.v + x.v == c
    ensures x.PosInf? <==> r.NegInf?
    ensures x.NegInf? <==> r.PosInf?
  {
    match x
    case Num(v) => Num(c - v)
    case PosInf => NegInf
    case NegInf => PosInf
    case NaN => NaN
  }
}
