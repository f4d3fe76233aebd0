/** PreciseTimeSpan: an immutable time value with nanosecond precision, stored as a
    .NET TimeSpan (whole 100-nanosecond ticks) plus the remaining nanoseconds. */
module PreciseTime {
  import opened Wrappers
  import opened Numerics

  /** `ticks` is the wrapped TimeSpan's tick count (100 ns each), `extraPrecision`
      the nanoseconds the ticks do not hold. */
  datatype PreciseTimeSpan = PreciseTimeSpan(ticks: int, extraPrecision: int)

  /** `TotalNanoseconds`: ticks * 100 + extra precision. */
  function TotalNanoseconds(t: PreciseTimeSpan): int {
    t.ticks * 100 + t.extraPrecision
  }

  /** The shape every value built by `FromNanoseconds` has: a remainder of magnitude below
      100 that does not disagree in sign with the ticks, and a total that fits a long. */
  predicate Canonical(t: PreciseTimeSpan) {
    && -100 < t.extraPrecision < 100
    && (t.extraPrecision > 0 ==> t.ticks >= 0)
    && (t.extraPrecision < 0 ==> t.ticks <= 0)
    && InInt64(TotalNanoseconds(t))
  }

  /** `FromNanoseconds`: ticks = value / 100 and extra = value % 100, both with C#'s
      truncating operators; the total is exactly the given value. */
  function FromNanoseconds(value: int64): (t: PreciseTimeSpan)
    ensures TotalNanoseconds(t) == value
    ensures Canonical(t)
  {
    TruncDivModBounds(value, 100);
    PreciseTimeSpan(TruncDiv(value, 100), TruncMod(value, 100))
  }

  /** The remainder stored by `FromNanoseconds` lies in -99..99 and has the sign of the value;
      the ticks are the value truncated toward zero to a multiple of 100 ns. */
  lemma FromNanosecondsRemainder(value: int64)
    ensures var t := FromNanoseconds(value);
      && -99 <= t.extraPrecision <= 99
      && (value >= 0 ==> 0 <= t.extraPrecision && 0 <= t.ticks * 100 <= value)
      && (value < 0 ==> t.extraPrecision <= 0 && value <= t.ticks * 100 <= 0)
  {
    TruncDivModBounds(value, 100);
  }

  /** A canonical value is the one `FromNanoseconds` builds from its total:
      the decomposition into ticks and remainder is unique. */
  lemma CanonicalIsFromNanoseconds(t: PreciseTimeSpan)
    requires Canonical(t)
    ensures t == FromNanoseconds(TotalNanoseconds(t))
  {
    var v := TotalNanoseconds(t);
    if v >= 0 {
      DivUnique(v, 100, t.ticks, t.extraPrecision);
    } else {
      DivUnique(-v, 100, -t.ticks, -t.extraPrecision);
    }
  }

  /** Canonical values are determined by their totals. */
  lemma SameTotalSameValue(a: PreciseTimeSpan, b: PreciseTimeSpan)
    requires Canonical(a) && Canonical(b)
    requires TotalNanoseconds(a) == TotalNanoseconds(b)
    ensures a == b
  {
    CanonicalIsFromNanoseconds(a);
    CanonicalIsFromNanoseconds(b);
  }

  /** `TotalNanoseconds(FromNanoseconds(v)) == v` for every long, negative ones included. */
  lemma RoundTrip(value: int64)
    ensures TotalNanoseconds(FromNanoseconds(value)) == value
  {
  }

  /** `operator+`: rebuilds from the sum of the totals. The long addition overflows
      (an OverflowException in a checked context) when the sum leaves the long range. */
  function Add(a: PreciseTimeSpan, b: PreciseTimeSpan): (r: Eval<PreciseTimeSpan>)
    ensures r.Ok? <==> InInt64(TotalNanoseconds(a) + TotalNanoseconds(b))
    ensures r.Ok? ==> TotalNanoseconds(r.value) == TotalNanoseconds(a) + TotalNanoseconds(b)
    ensures r.Ok? ==> Canonical(r.value)
  {
    var sum := TotalNanoseconds(a) + TotalNanoseconds(b);
    if InInt64(sum) then Ok(FromNanoseconds(sum)) else Throws
  }

  /** `operator-`: rebuilds from the difference of the totals. */
  function Sub(a: PreciseTimeSpan, b: PreciseTimeSpan): (r: Eval<PreciseTimeSpan>)
    ensures r.Ok? <==> InInt64(TotalNanoseconds(a) - TotalNanoseconds(b))
    ensures r.Ok? ==> TotalNanoseconds(r.value) == TotalNanoseconds(a) - TotalNanoseconds(b)
    ensures r.Ok? ==> Canonical(r.value)
  {
    var diff := TotalNanoseconds(a) - TotalNanoseconds(b);
    if InInt64(diff) then Ok(FromNanoseconds(diff)) else Throws
  }

  /** `operator==` on possibly-null references: two nulls are equal, a null and a value are
      not, two values are equal when their totals are. */
  function Equal(a: Option<PreciseTimeSpan>, b: Option<PreciseTimeSpan>): (r: bool)
    ensures a.None? && b.None? ==> r
    ensures a.None? != b.None? ==> !r
    ensures a.Some? && b.Some? ==> (r <==> TotalNanoseconds(a.value) == TotalNanoseconds(b.value))
  {
    if a.None? != b.None? then false
    else if a.None? then true
    else TotalNanoseconds(a.value) == TotalNanoseconds(b.value)
  }

  /** `operator!=`. */
  function NotEqual(a: Option<PreciseTimeSpan>, b: Option<PreciseTimeSpan>): (r: bool)
    ensures a.None? && b.None? ==> !r
    ensures a.None? != b.None? ==> r
    ensures a.Some? && b.Some? ==> (r <==> TotalNanoseconds(a.value) != TotalNanoseconds(b.value))
  {
    !Equal(a, b)
  }

  /** `Equals(object)`: false for null, otherwise a field-by-field comparison, which is
      equality of the two values. */
  function Equals(a: PreciseTimeSpan, obj: Option<PreciseTimeSpan>): (r: bool)
    ensures r <==> obj == Some(a)
  {
    obj.Some? && a.ticks == obj.value.ticks && a.extraPrecision == obj.value.extraPrecision
  }

  /** `Zero`: the cached span of no time, wrapping TimeSpan.Zero with no extra precision. */
  const Zero: PreciseTimeSpan := PreciseTimeSpan(0, 0)

  /** `FromNanoseconds(1)`, which the chapter code adds and subtracts: no whole tick and one
      extra nanosecond. */
  const OneNanosecond: PreciseTimeSpan := PreciseTimeSpan(0, 1)

  /** Both constants are canonical with the totals their names say. */
  lemma ConstantsAreCanonical()
    ensures Canonical(Zero) && TotalNanoseconds(Zero) == 0
    ensures Canonical(OneNanosecond) && TotalNanoseconds(OneNanosecond) == 1
  {
  }

  /** Below 100 ns, `FromNanoseconds` puts everything into the extra precision and no whole
      tick; `Zero` and `OneNanosecond` are the cases 0 and 1. */
  lemma SubTickFromNanoseconds(value: int64)
    requires 0 <= value < 100
    ensures FromNanoseconds(value) == PreciseTimeSpan(0, value)
  {
  }

  /** The null handling of `==` and `!=`, and `==` as an equivalence on values. */
  lemma EqualityOperators(a: Option<PreciseTimeSpan>, b: Option<PreciseTimeSpan>, c: Option<PreciseTimeSpan>)
    ensures Equal(None, None) && !NotEqual(None, None)
    ensures a.Some? ==> !Equal(a, None) && !Equal(None, a) && NotEqual(a, None)
    ensures a.Some? && b.Some? ==> (Equal(a, b) <==> TotalNanoseconds(a.value) == TotalNanoseconds(b.value))
    ensures NotEqual(a, b) <==> !Equal(a, b)
    ensures Equal(a, a) && (Equal(a, b) ==> Equal(b, a)) && (Equal(a, b) && Equal(b, c) ==> Equal(a, c))
  {
  }

  /** On canonical values (all the core ever builds) field equality and `==` agree, because
      the decomposition into ticks and remainder is unique. */
  lemma EqualsAgreesWithOperator(a: PreciseTimeSpan, b: PreciseTimeSpan)
    requires Canonical(a) && Canonical(b)
    ensures Equals(a, Some(b)) <==> Equal(Some(a), Some(b))
  {
    if TotalNanoseconds(a) == TotalNanoseconds(b) {
      SameTotalSameValue(a, b);
    }
  }

  /** Subtracting one nanosecond and adding it back gives the same value, fields included. */
  lemma SubThenAddOne(a: PreciseTimeSpan)
    requires Canonical(a) && TotalNanoseconds(a) > MinInt64
    ensures Sub(a, OneNanosecond).Ok?
    ensures Add(Sub(a, OneNanosecond).value, OneNanosecond) == Ok(a)
  {
    var one := OneNanosecond;
    var b := Sub(a, one).value;
    var c := Add(b, one).value;
    assert TotalNanoseconds(c) == TotalNanoseconds(a);
    SameTotalSameValue(a, c);
  }
}
