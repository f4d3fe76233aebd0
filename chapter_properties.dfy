/** What the chapter getters promise, stated over all chapter sequences: where inherited
    frame rates come from, how a pinned chapter ends, that output frames and output times
    follow each other without gaps or overlaps, that an unpinned chapter keeps its input
    length, and which chapters a getter can depend on. */
module ChapterProperties {
  import opened Wrappers
  import opened Numerics
  import opened PreciseTime
  import opened Chapters

  // ---------------------------------------------------------------------------------------
  // Inherited frame rates

  /** An input frame rate is inherited from the nearest earlier chapter that overrides it. */
  lemma {:induction false} InputFrameRateFromNearestOverride(s: seq<Chapter>, i: nat, j: nat)
    requires j <= i < |s|
    requires IsPositive(s[j].inputFrameRate)
    requires forall k :: j < k <= i ==> !IsPositive(s[k].inputFrameRate)
    ensures InputFrameRate(s, i) == s[j].inputFrameRate
    decreases i
  {
    if i > j {
      InputFrameRateFromNearestOverride(s, i - 1, j);
    }
  }

  /** Without any override up to chapter i, the input frame rate is zero. */
  lemma {:induction false} InputFrameRateWithoutOverride(s: seq<Chapter>, i: nat)
    requires i < |s|
    requires forall k :: 0 <= k <= i ==> !IsPositive(s[k].inputFrameRate)
    ensures InputFrameRate(s, i) == FractionZero
    decreases i
  {
    if i > 0 {
      InputFrameRateWithoutOverride(s, i - 1);
    }
  }

  /** An output frame rate is inherited from the nearest earlier output override. */
  lemma {:induction false} OutputFrameRateFromNearestOverride(s: seq<Chapter>, i: nat, j: nat)
    requires j <= i < |s|
    requires IsPositive(s[j].outputFrameRate)
    requires forall k :: j < k <= i ==> !IsPositive(s[k].outputFrameRate)
    ensures OutputFrameRate(s, i) == s[j].outputFrameRate
    decreases i
  {
    if i > j {
      OutputFrameRateFromNearestOverride(s, i - 1, j);
    }
  }

  /** Without output overrides and input overrides up to chapter i, the output rate is zero. */
  lemma {:induction false} OutputFrameRateWithoutOverride(s: seq<Chapter>, i: nat)
    requires i < |s|
    requires forall k :: 0 <= k <= i ==> !IsPositive(s[k].outputFrameRate)
    requires forall k :: 0 <= k <= i ==> !IsPositive(s[k].inputFrameRate)
    ensures OutputFrameRate(s, i) == FractionZero
    decreases i
  {
    InputFrameRateWithoutOverride(s, i);
    if i > 0 {
      OutputFrameRateWithoutOverride(s, i - 1);
    }
  }

  /** Without output overrides, the output frame rate is the FIRST input override, not the
      nearest one: once an earlier chapter has a positive output rate, later chapters keep it
      even when their own input rate changes. */
  lemma {:induction false} OutputFrameRateFromFirstInputOverride(s: seq<Chapter>, i: nat, j: nat)
    requires j <= i < |s|
    requires forall k :: 0 <= k <= i ==> !IsPositive(s[k].outputFrameRate)
    requires IsPositive(s[j].inputFrameRate)
    requires forall k :: 0 <= k < j ==> !IsPositive(s[k].inputFrameRate)
    ensures OutputFrameRate(s, i) == s[j].inputFrameRate
    decreases i
  {
    if i > j {
      OutputFrameRateFromFirstInputOverride(s, i - 1, j);
    } else if j > 0 {
      OutputFrameRateWithoutOverride(s, j - 1);
    }
  }

  // ---------------------------------------------------------------------------------------
  // Output frames

  /** A known last output frame is the first frame plus the length, minus one. */
  lemma OutputLastFrameIsFirstPlusLength(s: seq<Chapter>, i: nat)
    requires i < |s|
    requires OutputLastFrame(s, i).Ok? && OutputLastFrame(s, i).value >= 0
    ensures OutputFirstFrame(s, i).Ok? && OutputFirstFrame(s, i).value >= 0
    ensures OutputLength(s, i).Ok? && OutputLength(s, i).value >= 0
    ensures OutputLastFrame(s, i).value == OutputFirstFrame(s, i).value + OutputLength(s, i).value - 1
  {
  }

  /** The converse, case by case: an exception in the first frame, or in the length of a
      chapter whose first frame is known, escapes; a negative first frame or length gives -1;
      otherwise the last frame is first - 1 + length, or -1 when that sum overflows an int. */
  lemma OutputLastFrameOfFirstAndLength(s: seq<Chapter>, i: nat)
    requires i < |s|
    ensures OutputFirstFrame(s, i).Throws? ==> OutputLastFrame(s, i).Throws?
    ensures OutputFirstFrame(s, i).Ok? && OutputFirstFrame(s, i).value < 0 ==> OutputLastFrame(s, i) == Ok(-1)
    ensures OutputFirstFrame(s, i).Ok? && OutputFirstFrame(s, i).value >= 0 ==>
      (OutputLength(s, i).Throws? ==> OutputLastFrame(s, i).Throws?) &&
      (OutputLength(s, i).Ok? && OutputLength(s, i).value < 0 ==> OutputLastFrame(s, i) == Ok(-1))
    ensures (OutputFirstFrame(s, i).Ok? && OutputFirstFrame(s, i).value >= 0 &&
             OutputLength(s, i).Ok? && OutputLength(s, i).value >= 0) ==>
      var sum := OutputFirstFrame(s, i).value - 1 + OutputLength(s, i).value;
      OutputLastFrame(s, i) == Ok(if InInt32(sum) then sum else -1)
  {
    assert OutputLastFrame(s, i) == OutputLastFrameStep(OutputFirstFrame(s, i), OutputLength(s, i));
  }

  /** A chapter pinned by its successor's override k ends at frame k - 1 (when its own first
      frame F is known and not after k), and its length is then k - F. */
  lemma PinnedChapterEndsBeforeNext(s: seq<Chapter>, i: nat, first: int32)
    requires i < |s| && IsPinned(s, i)
    requires OutputFirstFrame(s, i).Ok? && OutputFirstFrame(s, i).value == first
    ensures var k := s[i + 1].outputFirstFrame;
      && OutputLength(s, i).Ok?
      && OutputLength(s, i).value == (if 0 <= first && 1 <= k then k - first else -1)
    ensures var k := s[i + 1].outputFirstFrame;
      && OutputLastFrame(s, i).Ok?
      && OutputLastFrame(s, i).value == (if 0 <= first <= k && 1 <= k then k - 1 else -1)
  {
  }

  /** Output frames are contiguous: when chapter i's last frame and chapter i+1's first frame
      are both known, the second directly follows the first. */
  lemma OutputFramesContiguous(s: seq<Chapter>, i: nat)
    requires i + 1 < |s|
    requires OutputLastFrame(s, i).Ok? && OutputLastFrame(s, i).value >= 0
    requires OutputFirstFrame(s, i + 1).Ok? && OutputFirstFrame(s, i + 1).value >= 0
    ensures OutputFirstFrame(s, i + 1).value == OutputLastFrame(s, i).value + 1
  {
    if IsPinned(s, i) {
      PinnedChapterEndsBeforeNext(s, i, OutputFirstFrame(s, i).value);
    }
  }

  /** An unpinned chapter starts right after its predecessor's known last frame (below
      Int32.MaxValue); an exception in the predecessor's last frame reaches it. */
  lemma UnpinnedChapterFollowsPrevious(s: seq<Chapter>, i: nat)
    requires 0 < i < |s| && s[i].outputFirstFrame < 0
    ensures OutputLastFrame(s, i - 1).Throws? ==> OutputFirstFrame(s, i).Throws?
    ensures OutputLastFrame(s, i - 1).Ok? && 0 <= OutputLastFrame(s, i - 1).value < MaxInt32 ==>
      OutputFirstFrame(s, i).Ok? && OutputFirstFrame(s, i).value == OutputLastFrame(s, i - 1).value + 1
    ensures (OutputLastFrame(s, i - 1).Ok? &&
             (OutputLastFrame(s, i - 1).value < 0 || OutputLastFrame(s, i - 1).value == MaxInt32)) ==>
      OutputFirstFrame(s, i) == Ok(-1)
  {
  }

  /** The length of a chapter that its successor does not pin is its input duration counted
      in output frames: an exception in the input duration escapes; -1 when that duration is
      null or the output frame rate is not positive; otherwise, for the duration's d ns at
      rate num/den, an exception when d * num exceeds the decimal range, -1 when the count
      is not below Int32.MaxValue, and else the count to the nearest frame. */
  lemma UnpinnedLength(s: seq<Chapter>, i: nat)
    requires i < |s| && !IsPinned(s, i)
    ensures InputDuration(s, i).Throws? ==> OutputLength(s, i).Throws?
    ensures InputDuration(s, i).Ok? && (InputDuration(s, i).value.None? || !IsPositive(OutputFrameRate(s, i))) ==>
      OutputLength(s, i) == Ok(-1)
    ensures Known(InputDuration(s, i)) && IsPositive(OutputFrameRate(s, i)) ==>
      var rate := OutputFrameRate(s, i);
      var product := Nanos(InputDuration(s, i)) * rate.num;
      var unit := rate.den * NanosPerSecond;
      && (OutputLength(s, i).Throws? <==> product > DecimalMax * rate.den)
      && (OutputLength(s, i).Ok? ==>
            && (OutputLength(s, i).value == -1 <==> product >= MaxInt32 * unit)
            && (OutputLength(s, i).value >= 0 ==> 2 * Abs(product - OutputLength(s, i).value * unit) <= unit))
  {
    assert OutputLength(s, i) ==
      OutputLengthStep(NextOverride(s, i), OutputFirstFrame(s, i), InputDuration(s, i), OutputFrameRate(s, i));
    UnpinnedLengthStep(OutputFirstFrame(s, i), InputDuration(s, i), OutputFrameRate(s, i));
  }

  lemma UnpinnedLengthStep(first: Eval<int32>, duration: Eval<Option<PreciseTimeSpan>>, rate: Fraction)
    requires Known(duration) ==> Nanos(duration) >= 0
    ensures duration.Throws? ==> OutputLengthStep(-1, first, duration, rate).Throws?
    ensures duration.Ok? && (duration.value.None? || !IsPositive(rate)) ==>
      OutputLengthStep(-1, first, duration, rate) == Ok(-1)
    ensures Known(duration) && IsPositive(rate) ==>
      var r := OutputLengthStep(-1, first, duration, rate);
      var product := Nanos(duration) * rate.num;
      var unit := rate.den * NanosPerSecond;
      && (r.Throws? <==> product > DecimalMax * rate.den)
      && (r.Ok? ==>
            && (r.value == -1 <==> product >= MaxInt32 * unit)
            && (r.value >= 0 ==> 2 * Abs(product - r.value * unit) <= unit))
  {
    if duration.Ok? {
      var length := CalculateLengthOfDuration(duration.value, rate);
      assert OutputLengthStep(-1, first, duration, rate) ==
        if length.Throws? then Throws else Ok(if length.value >= 0 then length.value else -1);
    }
  }

  /** The one-frame quirk: an unset input range (-1, -1) counts as one frame, so its input
      duration is one frame long whenever the input frame rate is positive. */
  lemma UnsetInputRangeLastsOneFrame(s: seq<Chapter>, i: nat)
    requires i < |s|
    requires s[i].inputFirstFrame == -1 && s[i].inputLastFrame == -1
    ensures InputLength(s, i) == -1
    ensures InputStartTime(s, i) == Ok(None)
    ensures IsPositive(InputFrameRate(s, i)) ==>
      InputDuration(s, i) == CalculateStartTime(1, InputFrameRate(s, i))
  {
  }

  /** The zero-length quirk: an output range whose first frame is 0 and whose last frame is
      unknown (-1) has a known, zero output duration. */
  lemma UnknownLastFrameGivesZeroDuration(s: seq<Chapter>, i: nat)
    requires i < |s|
    requires OutputFirstFrame(s, i).Ok? && OutputFirstFrame(s, i).value == 0
    requires OutputLastFrame(s, i).Ok? && OutputLastFrame(s, i).value == -1
    requires IsPositive(OutputFrameRate(s, i))
    ensures Known(OutputDuration(s, i)) && Nanos(OutputDuration(s, i)) == 0
  {
    var rate := OutputFrameRate(s, i);
    assert OutputDuration(s, i) == CalculateDuration(0, -1, rate);
    NoFramesTakeNoTime(rate);
  }

  /** Zero frames take no time at any positive frame rate. */
  lemma NoFramesTakeNoTime(rate: Fraction)
    requires IsPositive(rate)
    ensures Known(CalculateStartTime(0, rate)) && Nanos(CalculateStartTime(0, rate)) == 0
  {
    RoundHalfEvenUnique(0, rate.num, 0);
  }

  // ---------------------------------------------------------------------------------------
  // Output lengths preserved across the frame/time conversion

  /** Converting a frame count to time at a positive rate does not overflow a long when the
      exact time fits one, and gives the exact time rounded to the nearest nanosecond. At a
      rate of at least one frame per second every frame count fits. */
  lemma FrameCountToTime(count: int32, rate: Fraction)
    requires 0 <= count && IsPositive(rate)
    requires count * NanosPerSecond * rate.den <= MaxInt64 * rate.num || rate.den <= rate.num
    ensures Known(CalculateStartTime(count, rate))
    ensures Nanos(CalculateStartTime(count, rate)) ==
      RoundHalfEven(count * NanosPerSecond * rate.den, rate.num)
  {
    var perSecond := count * NanosPerSecond;
    var exact := perSecond * rate.den;
    if exact > MaxInt64 * rate.num {
      if count > 0 {
        MulMonotone(rate.den, rate.num, perSecond);
      }
      MulMonotone(perSecond, MaxInt32 * NanosPerSecond, rate.num);
      MulMonotone(MaxInt32 * NanosPerSecond, MaxInt64, rate.num);
    }
    RoundHalfEvenBounds(exact, rate.num, MaxInt64);
  }

  /** An unpinned chapter whose output frame rate equals its input frame rate (less than one
      frame per nanosecond) keeps its input length as its output length, whenever its input
      duration is known (a positive rate and no overflow of a long): frames converted to
      nanoseconds and back give the same count. */
  lemma UnpinnedLengthRoundTrip(s: seq<Chapter>, i: nat)
    requires i < |s| && !IsPinned(s, i)
    requires 0 <= InputLength(s, i) < MaxInt32
    requires Known(InputDuration(s, i))
    requires InputFrameRate(s, i).num < NanosPerSecond * InputFrameRate(s, i).den
    requires SameValue(InputFrameRate(s, i), OutputFrameRate(s, i))
    ensures OutputLength(s, i).Ok? && OutputLength(s, i).value == InputLength(s, i)
  {
    var n := InputLength(s, i);
    var rate := InputFrameRate(s, i);
    var back := OutputFrameRate(s, i);
    var G := NanosPerSecond;
    var duration := InputDuration(s, i);
    assert duration == CalculateStartTime(n, rate);
    var d := Nanos(duration);
    assert d == RoundHalfEven(n * G * rate.den, rate.num);
    FrameTimeRoundTrip(n, rate, back);
    LengthWithinRange(n, d, back);
  }

  /** The checks of `CalculateLength(duration, rate)` pass for a duration within half a frame
      of n < Int32.MaxValue frames. */
  lemma LengthWithinRange(n: int, d: int, back: Fraction)
    requires 0 <= n < MaxInt32 && 0 <= d && IsPositive(back)
    requires 2 * Abs(d * back.num - n * (back.den * NanosPerSecond)) < back.den * NanosPerSecond
    ensures Abs(d * back.num) <= DecimalMax * back.den
    ensures d * back.num < MaxInt32 * (back.den * NanosPerSecond)
  {
    var unit := back.den * NanosPerSecond;
    var scaled := d * back.num;
    MulMonotone(0, d, back.num);
    assert scaled < n * unit + unit;
    assert n * unit + unit == (n + 1) * unit;
    MulMonotone(n + 1, MaxInt32, unit);
    assert MaxInt32 * unit == (MaxInt32 * NanosPerSecond) * back.den;
    MulMonotone(MaxInt32 * NanosPerSecond, DecimalMax, back.den);
  }

  // ---------------------------------------------------------------------------------------
  // Times

  /** The input duration is known exactly when the input frame rate is positive and the
      frame count (last - first + 1) is non-negative and converts without overflow. */
  lemma InputDurationNeedsRate(s: seq<Chapter>, i: nat)
    requires i < |s|
    ensures Known(InputDuration(s, i)) ==> IsPositive(InputFrameRate(s, i))
    ensures Known(InputDuration(s, i)) ==>
      var rate := InputFrameRate(s, i);
      2 * Abs(Nanos(InputDuration(s, i)) * rate.num -
              (s[i].inputLastFrame - s[i].inputFirstFrame + 1) * NanosPerSecond * rate.den) <= rate.num
  {
  }

  /** A known input end time is the input start time plus the input duration, minus 1 ns.
      The start time is evaluated first: its exception escapes, and otherwise so does an
      exception of the duration. A null operand gives a null end time. With both known, the end
      time is known exactly when start - 1 ns and start - 1 ns + duration fit a long, and null
      otherwise, the overflow being caught. */
  lemma InputEndTimeIsStartPlusDuration(s: seq<Chapter>, i: nat)
    requires i < |s|
    ensures Known(InputEndTime(s, i)) ==>
      Known(InputStartTime(s, i)) && Known(InputDuration(s, i)) &&
      Nanos(InputEndTime(s, i)) == Nanos(InputStartTime(s, i)) - 1 + Nanos(InputDuration(s, i))
    ensures (Known(InputStartTime(s, i)) && Known(InputDuration(s, i)) &&
      Nanos(InputStartTime(s, i)) + Nanos(InputDuration(s, i)) <= MaxInt64 + 1) ==>
      Known(InputEndTime(s, i))
    ensures InputStartTime(s, i).Throws? ==> InputEndTime(s, i).Throws?
    ensures InputStartTime(s, i).Ok? && InputDuration(s, i).Throws? ==> InputEndTime(s, i).Throws?
    ensures (&& InputStartTime(s, i).Ok? && InputDuration(s, i).Ok?
             && (InputStartTime(s, i).value.None? || InputDuration(s, i).value.None?)) ==>
      InputEndTime(s, i) == Ok(None)
    ensures Known(InputStartTime(s, i)) && Known(InputDuration(s, i)) ==>
      var start, duration := Nanos(InputStartTime(s, i)), Nanos(InputDuration(s, i));
      && (Known(InputEndTime(s, i)) <==> InInt64(start - 1) && InInt64(start - 1 + duration))
      && (!Known(InputEndTime(s, i)) ==> InputEndTime(s, i) == Ok(None))
  {
  }

  /** A known output duration is the time of OutputLastFrame - OutputFirstFrame + 1 frames at
      a positive output frame rate, to the nearest nanosecond. */
  lemma OutputDurationOfFrames(s: seq<Chapter>, i: nat)
    requires i < |s| && Known(OutputDuration(s, i))
    ensures OutputFirstFrame(s, i).Ok? && OutputLastFrame(s, i).Ok?
    ensures IsPositive(OutputFrameRate(s, i))
    ensures var rate := OutputFrameRate(s, i);
      2 * Abs(Nanos(OutputDuration(s, i)) * rate.num -
              (OutputLastFrame(s, i).value - OutputFirstFrame(s, i).value + 1) * NanosPerSecond * rate.den)
        <= rate.num
  {
  }

  /** A known output end time is the output start time plus the output duration, minus 1 ns.
      Conversely, an exception in the start time, or in the duration of a known start, escapes;
      a null start or duration gives a null end; with both known, the end is known exactly
      when start - 1 and start - 1 + duration fit a long, and null otherwise. */
  lemma OutputEndTimeIsStartPlusDuration(s: seq<Chapter>, i: nat)
    requires i < |s|
    ensures Known(OutputEndTime(s, i)) ==>
      Known(OutputStartTime(s, i)) && Known(OutputDuration(s, i)) &&
      Nanos(OutputEndTime(s, i)) == Nanos(OutputStartTime(s, i)) - 1 + Nanos(OutputDuration(s, i))
    ensures OutputStartTime(s, i).Ok? && OutputStartTime(s, i).value.None? ==>
      OutputEndTime(s, i).Ok? && OutputEndTime(s, i).value.None?
    ensures OutputStartTime(s, i).Throws? ==> OutputEndTime(s, i).Throws?
    ensures Known(OutputStartTime(s, i)) ==>
      (OutputDuration(s, i).Throws? ==> OutputEndTime(s, i).Throws?) &&
      (OutputDuration(s, i) == Ok(None) ==> OutputEndTime(s, i) == Ok(None))
    ensures Known(OutputStartTime(s, i)) && Known(OutputDuration(s, i)) ==>
      var start := Nanos(OutputStartTime(s, i));
      (Known(OutputEndTime(s, i)) <==> InInt64(start - 1) && InInt64(start - 1 + Nanos(OutputDuration(s, i)))) &&
      (!Known(OutputEndTime(s, i)) ==> OutputEndTime(s, i) == Ok(None))
  {
    EndTimeFromStart(s, i);
  }

  /** A known output start time after the first chapter is one nanosecond after the
      previous chapter's known output end time; an unknown end makes the next start unknown
      and an exception in it escapes. Conversely, a known end gives a known start unless
      adding the nanosecond overflows a long, in which case the start is null. */
  lemma OutputStartFollowsPreviousEnd(s: seq<Chapter>, i: nat)
    requires 0 < i < |s|
    ensures Known(OutputStartTime(s, i)) ==>
      Known(OutputEndTime(s, i - 1)) && Nanos(OutputStartTime(s, i)) == Nanos(OutputEndTime(s, i - 1)) + 1
    ensures OutputEndTime(s, i - 1).Ok? && OutputEndTime(s, i - 1).value.None? ==>
      OutputStartTime(s, i).Ok? && OutputStartTime(s, i).value.None?
    ensures OutputEndTime(s, i - 1).Throws? ==> OutputStartTime(s, i).Throws?
    ensures Known(OutputEndTime(s, i - 1)) && InInt64(Nanos(OutputEndTime(s, i - 1)) + 1) ==>
      Known(OutputStartTime(s, i))
    ensures Known(OutputEndTime(s, i - 1)) && !InInt64(Nanos(OutputEndTime(s, i - 1)) + 1) ==>
      OutputStartTime(s, i) == Ok(None)
  {
    var previousEnd := OutputEndTime(s, i - 1);
    if previousEnd.Ok? && previousEnd.value.Some? {
      var sum := Add(previousEnd.value.value, OneNanosecond);
      assert sum.Ok? ==> OutputStartTime(s, i) == Ok(Some(sum.value));
      StartOfKnownEndStep(previousEnd);
    }
  }

  lemma StartOfKnownEndStep(previousEnd: Eval<Option<PreciseTimeSpan>>)
    requires Known(previousEnd)
    ensures InInt64(Nanos(previousEnd) + 1) ==> Known(OutputStartTimeStep(Some(previousEnd)))
    ensures !InInt64(Nanos(previousEnd) + 1) ==> OutputStartTimeStep(Some(previousEnd)) == Ok(None)
  {
  }

  /** The first chapter starts at time zero. */
  lemma FirstChapterStartsAtZero(s: seq<Chapter>, i: nat)
    requires i == 0 < |s|
    ensures Known(OutputStartTime(s, i)) && Nanos(OutputStartTime(s, i)) == 0
  {
    FirstStartTime(s, i);
    ConstantsAreCanonical();
  }

  /** One step of the sum: a known start time is the previous start time plus the previous
      duration, both known. */
  lemma OutputStartAfterPrevious(s: seq<Chapter>, i: nat)
    requires 0 < i < |s|
    requires Known(OutputStartTime(s, i))
    ensures Known(OutputStartTime(s, i - 1)) && Known(OutputDuration(s, i - 1))
    ensures Nanos(OutputStartTime(s, i)) == Nanos(OutputStartTime(s, i - 1)) + Nanos(OutputDuration(s, i - 1))
  {
    OutputStartFollowsPreviousEnd(s, i);
    OutputEndTimeIsStartPlusDuration(s, i - 1);
  }

  /** Known output start times never decrease from one chapter to the next. */
  lemma OutputStartTimesIncrease(s: seq<Chapter>, i: nat)
    requires i + 1 < |s|
    requires Known(OutputStartTime(s, i + 1))
    ensures Known(OutputStartTime(s, i))
    ensures Nanos(OutputStartTime(s, i)) <= Nanos(OutputStartTime(s, i + 1))
  {
    OutputStartAfterPrevious(s, i + 1);
  }

  // ---------------------------------------------------------------------------------------
  // Locality

  /** The raw output-first-frame override of chapter n, or -1 past the end or when unset. */
  function OverrideAt(s: seq<Chapter>, n: nat): int {
    if n < |s| && s[n].outputFirstFrame >= 0 then s[n].outputFirstFrame else -1
  }

  /** s and t agree on their first n chapters and on the override of chapter n. */
  predicate SamePrefix(s: seq<Chapter>, t: seq<Chapter>, n: nat) {
    n <= |s| && n <= |t| && s[..n] == t[..n] && OverrideAt(s, n) == OverrideAt(t, n)
  }

  /** Chapters before n are the same in both sequences, and so is whether chapter i is
      pinned and by which override. */
  lemma SamePrefixAt(s: seq<Chapter>, t: seq<Chapter>, n: nat, i: nat)
    requires SamePrefix(s, t, n) && i < n
    ensures s[i] == t[i]
    ensures IsPinned(s, i) == IsPinned(t, i)
    ensures IsPinned(s, i) ==> s[i + 1].outputFirstFrame == t[i + 1].outputFirstFrame
  {
    assert s[i] == s[..n][i];
    assert t[i] == t[..n][i];
    if i + 1 < n {
      assert s[i + 1] == s[..n][i + 1];
      assert t[i + 1] == t[..n][i + 1];
    }
  }

  /** Frame rates of chapter i read only chapters 0..i. */
  lemma {:induction false} RatesAreLocal(s: seq<Chapter>, t: seq<Chapter>, n: nat, i: nat)
    requires SamePrefix(s, t, n) && i < n
    ensures InputFrameRate(s, i) == InputFrameRate(t, i)
    ensures OutputFrameRate(s, i) == OutputFrameRate(t, i)
    decreases i
  {
    SamePrefixAt(s, t, n, i);
    if i > 0 {
      RatesAreLocal(s, t, n, i - 1);
    }
  }

  /** The input getters of chapter i read only chapters 0..i. */
  lemma InputGettersAreLocal(s: seq<Chapter>, t: seq<Chapter>, n: nat, i: nat)
    requires SamePrefix(s, t, n) && i < n
    ensures InputLength(s, i) == InputLength(t, i)
    ensures InputDuration(s, i) == InputDuration(t, i)
    ensures InputStartTime(s, i) == InputStartTime(t, i)
    ensures InputEndTime(s, i) == InputEndTime(t, i)
  {
    SamePrefixAt(s, t, n, i);
    RatesAreLocal(s, t, n, i);
  }

  /** The frame triple of chapter i reads only chapters 0..i and the override of chapter i+1. */
  lemma {:induction false} FrameTriplesAreLocal(s: seq<Chapter>, t: seq<Chapter>, n: nat, i: nat)
    requires SamePrefix(s, t, n) && i < n
    ensures Frames(s, i) == Frames(t, i)
    decreases i
  {
    SamePrefixAt(s, t, n, i);
    RatesAreLocal(s, t, n, i);
    InputGettersAreLocal(s, t, n, i);
    if i > 0 {
      FrameTriplesAreLocal(s, t, n, i - 1);
    }
    var previousLast := if i == 0 then None else Some(Frames(s, i - 1).last);
    var first := OutputFirstFrameStep(s[i], previousLast);
    assert NextOverride(s, i) == NextOverride(t, i);
    var length := OutputLengthStep(NextOverride(s, i), first, InputDuration(s, i), OutputFrameRate(s, i));
    assert Frames(s, i) == OutputFrames(first, length, OutputLastFrameStep(first, length));
    assert Frames(t, i) == OutputFrames(first, length, OutputLastFrameStep(first, length));
  }

  /** The output frame getters of chapter i read only chapters 0..i and the override of
      chapter i+1. */
  lemma FramesAreLocal(s: seq<Chapter>, t: seq<Chapter>, n: nat, i: nat)
    requires SamePrefix(s, t, n) && i < n
    ensures OutputFirstFrame(s, i) == OutputFirstFrame(t, i)
    ensures OutputLength(s, i) == OutputLength(t, i)
    ensures OutputLastFrame(s, i) == OutputLastFrame(t, i)
  {
    FrameTriplesAreLocal(s, t, n, i);
  }

  /** `OutputDuration` of chapter i reads only chapters 0..i and the override of chapter i+1. */
  lemma DurationIsLocal(s: seq<Chapter>, t: seq<Chapter>, n: nat, i: nat)
    requires SamePrefix(s, t, n) && i < n
    ensures OutputDuration(s, i) == OutputDuration(t, i)
  {
    RatesAreLocal(s, t, n, i);
    FramesAreLocal(s, t, n, i);
    DurationFromFrames(s, i);
    DurationFromFrames(t, i);
  }

  /** The output start time of chapter i reads only chapters 0..i-1 and the override of
      chapter i. */
  lemma {:induction false} StartTimesAreLocal(s: seq<Chapter>, t: seq<Chapter>, n: nat, i: nat)
    requires SamePrefix(s, t, n) && i < n
    ensures OutputStartTime(s, i) == OutputStartTime(t, i)
    decreases i
  {
    if i == 0 {
      FirstStartTimesAgree(s, t, i);
    } else {
      StartTimesAreLocal(s, t, n, i - 1);
      EndTimeIsLocal(s, t, n, i - 1);
      StartTimeFromPrevious(s, i);
      StartTimeFromPrevious(t, i);
    }
  }

  /** The output start and end times of chapter i read only chapters 0..i and the override
      of chapter i+1. */
  lemma TimesAreLocal(s: seq<Chapter>, t: seq<Chapter>, n: nat, i: nat)
    requires SamePrefix(s, t, n) && i < n
    ensures OutputStartTime(s, i) == OutputStartTime(t, i)
    ensures OutputEndTime(s, i) == OutputEndTime(t, i)
  {
    StartTimesAreLocal(s, t, n, i);
    EndTimeIsLocal(s, t, n, i);
  }

  /** Every derived getter of chapter i has the same outcome in s and in t. */
  predicate SameGetters(s: seq<Chapter>, t: seq<Chapter>, i: nat)
    requires i < |s| && i < |t|
  {
    && InputFrameRate(s, i) == InputFrameRate(t, i)
    && InputLength(s, i) == InputLength(t, i)
    && InputDuration(s, i) == InputDuration(t, i)
    && InputStartTime(s, i) == InputStartTime(t, i)
    && InputEndTime(s, i) == InputEndTime(t, i)
    && OutputFrameRate(s, i) == OutputFrameRate(t, i)
    && OutputFirstFrame(s, i) == OutputFirstFrame(t, i)
    && OutputLength(s, i) == OutputLength(t, i)
    && OutputLastFrame(s, i) == OutputLastFrame(t, i)
    && OutputDuration(s, i) == OutputDuration(t, i)
    && OutputStartTime(s, i) == OutputStartTime(t, i)
    && OutputEndTime(s, i) == OutputEndTime(t, i)
  }

  /** Every getter of chapter i reads only chapters 0..i and the override of chapter i+1. */
  lemma GettersAreLocal(s: seq<Chapter>, t: seq<Chapter>, n: nat, i: nat)
    requires SamePrefix(s, t, n) && i < n
    ensures SameGetters(s, t, i)
  {
    RatesAreLocal(s, t, n, i);
    InputGettersAreLocal(s, t, n, i);
    FramesAreLocal(s, t, n, i);
    DurationIsLocal(s, t, n, i);
    TimesAreLocal(s, t, n, i);
  }

  /** Chapters that agree on their start time and on everything `OutputDuration` reads agree
      on their end time. */
  lemma EndTimeIsLocal(s: seq<Chapter>, t: seq<Chapter>, n: nat, i: nat)
    requires SamePrefix(s, t, n) && i < n
    requires OutputStartTime(s, i) == OutputStartTime(t, i)
    ensures OutputEndTime(s, i) == OutputEndTime(t, i)
  {
    DurationIsLocal(s, t, n, i);
    EndTimeFromStart(s, i);
    EndTimeFromStart(t, i);
  }

  // Unfolding steps. Each lemma below only states one function's body. The proofs above
  // call them so that the unfolding stays out of their own, larger contexts.

  /** `OutputDuration` reads only the same chapter's frames and output frame rate. */
  lemma DurationFromFrames(s: seq<Chapter>, i: nat)
    requires i < |s|
    ensures OutputDuration(s, i) == OutputDurationStep(OutputFirstFrame(s, i), OutputLastFrame(s, i), OutputFrameRate(s, i))
  {
  }

  /** `OutputEndTime` reads only the same chapter's start time and duration. */
  lemma EndTimeFromStart(s: seq<Chapter>, i: nat)
    requires i < |s|
    ensures OutputEndTime(s, i) == OutputEndTimeStep(OutputStartTime(s, i), OutputDuration(s, i))
  {
  }

  /** `OutputStartTime` of the first chapter reads no other chapter. */
  lemma FirstStartTime(s: seq<Chapter>, i: nat)
    requires i == 0 < |s|
    ensures OutputStartTime(s, i) == OutputStartTimeStep(None)
  {
  }

  /** Every first chapter starts at the same output time. */
  lemma FirstStartTimesAgree(s: seq<Chapter>, t: seq<Chapter>, i: nat)
    requires i == 0 < |s| && i < |t|
    ensures OutputStartTime(s, i) == OutputStartTime(t, i)
  {
    FirstStartTime(s, i);
    FirstStartTime(t, i);
  }

  /** `OutputStartTime` reads the previous chapter only through its end time. */
  lemma StartTimeFromPrevious(s: seq<Chapter>, i: nat)
    requires 0 < i < |s|
    ensures OutputStartTime(s, i) == OutputStartTimeStep(Some(OutputEndTime(s, i - 1)))
  {
  }
}
