/** The integer and rational arithmetic the chapter code relies on:
    C#'s fixed-width integers, checked int32 arithmetic, truncating division,
    the round-half-to-even conversion of `Convert.ToInt32`/`Convert.ToInt64`
    on decimals, and exact rational frame rates (the `Fraction` type). */
module Numerics {
  import opened Wrappers

  const MaxInt32: int := 0x7FFF_FFFF
  const MinInt32: int := -0x8000_0000
  const MaxInt64: int := 0x7FFF_FFFF_FFFF_FFFF
  const MinInt64: int := -0x8000_0000_0000_0000

  /** Nanoseconds per second, the factor in every frame/time conversion. */
  const NanosPerSecond: int := 1_000_000_000

  /** Largest magnitude of a C# `decimal` (2^96 - 1). */
  const DecimalMax: int := 79228162514264337593543950335

  type int32 = x: int | -0x8000_0000 <= x <= 0x7FFF_FFFF
  type int64 = x: int | -0x8000_0000_0000_0000 <= x <= 0x7FFF_FFFF_FFFF_FFFF
  type pos = x: int | x > 0 witness 1

  predicate InInt32(x: int) { -0x8000_0000 <= x <= 0x7FFF_FFFF }
  predicate InInt64(x: int) { -0x8000_0000_0000_0000 <= x <= 0x7FFF_FFFF_FFFF_FFFF }

  function Abs(x: int): nat { if x < 0 then -x else x }

  /** `a + b` on C# ints in a checked context: an OverflowException escapes
      when the mathematical sum leaves the int32 range. */
  function CheckedAdd32(a: int32, b: int32): (r: Eval<int32>)
    ensures r.Ok? <==> InInt32(a + b)
    ensures r.Ok? ==> r.value == a + b
  {
    if InInt32(a + b) then Ok(a + b) else Throws
  }

  /** `a - b` on C# ints in a checked context. */
  function CheckedSub32(a: int32, b: int32): (r: Eval<int32>)
    ensures r.Ok? <==> InInt32(a - b)
    ensures r.Ok? ==> r.value == a - b
  {
    if InInt32(a - b) then Ok(a - b) else Throws
  }

  /** C#'s integer `/`: the quotient truncated toward zero (Dafny's `/` is Euclidean). */
  function TruncDiv(a: int, b: pos): int {
    if a >= 0 then a / b else -((-a) / b)
  }

  /** C#'s integer `%`, defined by `a == (a / b) * b + a % b` with truncating `/`. */
  function TruncMod(a: int, b: pos): int {
    a - TruncDiv(a, b) * b
  }

  /** The truncating remainder has the sign of the dividend and a magnitude below the divisor,
      and the truncating quotient never overshoots zero. */
  lemma TruncDivModBounds(a: int, b: pos)
    ensures a >= 0 ==> 0 <= TruncMod(a, b) < b && TruncDiv(a, b) >= 0
    ensures a < 0 ==> 0 < TruncMod(a, b) + b && TruncMod(a, b) <= 0 && TruncDiv(a, b) <= 0
  {
    var n := Abs(a);
    var q, m := n / b, n % b;
    assert n == q * b + m && 0 <= m < b;
    assert (-1) * b < q * b;
    LessAfterScaling(-1, q, b);
    if a >= 0 {
      assert TruncDiv(a, b) == q;
      assert TruncMod(a, b) == a - q * b;
    } else {
      assert TruncDiv(a, b) == -q;
      assert (-q) * b == -(q * b);
      assert TruncMod(a, b) == -m;
    }
  }

  /** A multiple of b strictly between -b and b is zero. */
  lemma SmallMultiple(k: int, b: pos)
    requires Abs(k * b) < b
    ensures k == 0
  {
    NonZeroMultiple(k, b);
  }

  /** A non-zero multiple of b has a magnitude of at least b. */
  lemma NonZeroMultiple(k: int, b: pos)
    ensures k == 0 || Abs(k * b) >= b
  {
    MulMonotone(0, Abs(k) - 1, b);
    assert Abs(k * b) == Abs(k) * b;
    assert Abs(k) * b == (Abs(k) - 1) * b + b;
  }

  /** Multiplying both sides of an inequality by a positive factor keeps it. */
  lemma MulMonotone(a: int, b: int, c: pos)
    ensures a <= b ==> a * c <= b * c
    ensures a < b ==> a * c < b * c
  {
    assert (b - a) * c == b * c - a * c;
    if a < b {
      assert (b - a) * c == (b - a - 1) * c + c;
    }
  }

  /** Dividing both sides of a strict inequality by a positive factor. */
  lemma LessAfterScaling(a: int, b: int, c: pos)
    requires a * c < b * c
    ensures a < b
  {
    MulMonotone(b, a, c);
  }

  /** Euclidean division is determined by any decomposition with a remainder in [0, b). */
  lemma DivUnique(a: int, b: pos, q: int, m: int)
    requires a == q * b + m && 0 <= m < b
    ensures a / b == q && a % b == m
  {
    var q' := a / b;
    assert a == q' * b + a % b;
    assert (q' - q) * b == q' * b - q * b;
    SmallMultiple(q' - q, b);
  }

  /** The integer nearest to p / q, ties going to the even neighbour: this is what
      `Convert.ToInt64(decimal)` and `Convert.ToInt32(decimal)` compute. */
  function RoundHalfEven(p: int, q: pos): (r: int)
    ensures 2 * Abs(p - r * q) <= q
    ensures 2 * Abs(p - r * q) == q ==> r % 2 == 0
  {
    var f := p / q;
    var m := p % q;
    assert p == f * q + m;
    assert p - (f + 1) * q == m - q;
    if 2 * m < q || (2 * m == q && f % 2 == 0) then f else f + 1
  }

  /** Any integer within strictly less than half a unit of p / q is the rounded value. */
  lemma RoundHalfEvenUnique(p: int, q: pos, m: int)
    requires 2 * Abs(p - m * q) < q
    ensures RoundHalfEven(p, q) == m
  {
    NearestUnique(p, q, RoundHalfEven(p, q), m);
  }

  /** At most one integer lies strictly within half a unit of p / q, and no other one lies
      within half a unit as well. */
  lemma NearestUnique(p: int, q: pos, r: int, m: int)
    requires 2 * Abs(p - r * q) <= q
    requires 2 * Abs(p - m * q) < q
    ensures r == m
  {
    var e1, e2 := p - r * q, p - m * q;
    assert (r - m) * q == e2 - e1 by {
      assert (r - m) * q == r * q - m * q;
    }
    SmallMultiple(r - m, q);
  }

  /** Rounding a value below m + 1/2 never exceeds m, and rounding a non-negative value
      never gives a negative integer. */
  lemma RoundHalfEvenBounds(p: int, q: pos, m: int)
    ensures 2 * p < (2 * m + 1) * q ==> RoundHalfEven(p, q) <= m
    ensures p >= 0 ==> RoundHalfEven(p, q) >= 0
  {
    var r := RoundHalfEven(p, q);
    if 2 * p < (2 * m + 1) * q {
      assert (2 * m + 1) * q == 2 * (m * q) + q;
      LessAfterScaling(r, m + 1, q);
    }
    if p >= 0 {
      LessAfterScaling(-1, r, q);
    }
  }

  /** An exact rational number, as the Fractions library provides; frame rates use it.
      The denominator is kept positive, so the sign of the value is the sign of `num`. */
  datatype Fraction = Fraction(num: int, den: pos)

  /** `Fraction.Zero`. */
  const FractionZero: Fraction := Fraction(0, 1)

  /** `f > Fraction.Zero`. */
  predicate IsPositive(f: Fraction) { f.num > 0 }

  /** Equality of rational values, whatever their representation. */
  predicate SameValue(a: Fraction, b: Fraction) { a.num * b.den == b.num * a.den }

  /** Frames to time and back: the number of whole nanoseconds nearest to n frames at
      num/den frames per second, converted back to frames at an equal rate below one frame per
      nanosecond, is n again. */
  lemma {:induction false} FrameTimeRoundTrip(n: int, rate: Fraction, back: Fraction)
    requires 0 < rate.num < NanosPerSecond * rate.den
    requires SameValue(rate, back)
    ensures 2 * Abs(RoundHalfEven(n * NanosPerSecond * rate.den, rate.num) * back.num - n * (back.den * NanosPerSecond))
      < back.den * NanosPerSecond
    ensures RoundHalfEven(RoundHalfEven(n * NanosPerSecond * rate.den, rate.num) * back.num,
                          back.den * NanosPerSecond) == n
  {
    var G := NanosPerSecond;
    var d := RoundHalfEven(n * G * rate.den, rate.num);
    // the error of the first rounding is at most half of rate.num
    var x := d * rate.num - n * G * rate.den;
    assert 2 * Abs(x) <= rate.num;
    // the error seen at the second rate is the same quantity, rescaled
    var y := d * back.num - n * G * back.den;
    CrossError(d, n * G, rate, back);
    AbsScale(y, x, rate.den, back.den);
    HalfUnitBelow(x, y, rate, back);
    assert n * G * back.den == n * (back.den * G);
    RoundHalfEvenUnique(d * back.num, back.den * G, n);
  }

  /** Rescaling the error term d*num - m*den between two representations of one rational. */
  lemma CrossError(d: int, m: int, a: Fraction, b: Fraction)
    requires SameValue(a, b)
    ensures (d * b.num - m * b.den) * a.den == (d * a.num - m * a.den) * b.den
  {
    assert (d * b.num) * a.den == d * (b.num * a.den);
    assert (d * a.num) * b.den == d * (a.num * b.den);
    assert (d * b.num - m * b.den) * a.den == (d * b.num) * a.den - m * b.den * a.den;
    assert (d * a.num - m * a.den) * b.den == (d * a.num) * b.den - m * a.den * b.den;
  }

  /** Magnitudes scale like the values themselves. */
  lemma AbsScale(y: int, x: int, a: pos, b: pos)
    requires y * a == x * b
    ensures Abs(y) * a == Abs(x) * b
  {
    if y < 0 {
      assert (-y) * a == -(y * a);
    }
    if x < 0 {
      assert (-x) * b == -(x * b);
    }
  }

  /** An error within half of a.num stays strictly within half a unit of b.den * 1e9 at an
      equal rate below 1e9. */
  lemma HalfUnitBelow(x: int, y: int, a: Fraction, b: Fraction)
    requires 0 < a.num < NanosPerSecond * a.den
    requires SameValue(a, b)
    requires 2 * Abs(x) <= a.num
    requires Abs(y) * a.den == Abs(x) * b.den
    ensures 2 * Abs(y) < b.den * NanosPerSecond
  {
    var G := NanosPerSecond;
    var X, Y := Abs(x), Abs(y);
    // 2Y * a.den == 2X * b.den <= a.num * b.den == b.num * a.den, so 2Y <= b.num
    MulMonotone(2 * X, a.num, b.den);
    assert (2 * Y) * a.den == 2 * (Y * a.den);
    assert (2 * X) * b.den == 2 * (X * b.den);
    LessEqAfterScaling(2 * Y, b.num, a.den);
    // b.num * a.den == a.num * b.den < G * a.den * b.den, so b.num < G * b.den
    MulMonotone(a.num, G * a.den, b.den);
    assert (G * a.den) * b.den == (G * b.den) * a.den;
    LessAfterScaling(b.num, G * b.den, a.den);
  }

  /** Dividing both sides of a non-strict inequality by a positive factor. */
  lemma LessEqAfterScaling(a: int, b: int, c: pos)
    requires a * c <= b * c
    ensures a <= b
  {
    MulMonotone(b, a, c);
  }
}
