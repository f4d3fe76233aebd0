/** A chapter and its derived timing. A chapter holds a few user overrides; every other value
    is derived on demand from them and from the neighbouring chapters of its collection.
    The collection is a sequence `s` and a chapter is identified by its position `i`, so each
    getter is a function of `(s, i)`. Getters that can fail return an `Eval`: `Throws` when an
    exception escapes the getter, otherwise the value, in which -1 (integers) or `None`
    (time values) is the "unknown" marker of the source. */
module Chapters {
  import opened Wrappers
  import opened Numerics
  import opened PreciseTime

  /** The overrides of one chapter. A frame rate that is not positive means "inherit";
      an input frame of -1 means "unset"; a negative output first frame means "inherit". */
  datatype Chapter = Chapter(
    inputFrameRate: Fraction,
    outputFrameRate: Fraction,
    inputFirstFrame: int32,
    inputLastFrame: int32,
    outputFirstFrame: int32,
    name: string)

  /** The state the `Chapter` constructor leaves: every override unset and an empty name. */
  function NewChapter(): (c: Chapter)
    ensures c.inputFrameRate == FractionZero && c.outputFrameRate == FractionZero
    ensures c.inputFirstFrame == -1 && c.inputLastFrame == -1 && c.outputFirstFrame == -1
    ensures c.name == ""
  {
    Chapter(FractionZero, FractionZero, -1, -1, -1, "")
  }

  /** A time getter's outcome that is a value (no exception, not null). */
  predicate Known(e: Eval<Option<PreciseTimeSpan>>) {
    e.Ok? && e.value.Some?
  }

  /** The total nanoseconds of a known time outcome. */
  function Nanos(e: Eval<Option<PreciseTimeSpan>>): int
    requires Known(e)
  {
    TotalNanoseconds(e.value.value)
  }

  // ---------------------------------------------------------------------------------------
  // The static helpers

  /** `CalculateStartTime`: the time at which `frame` is displayed at `frameRate`, that is
      frame / frameRate seconds, rounded to the nearest nanosecond (ties to even). Null when
      the frame is negative or the rate is not positive; an exception escapes when the
      rounded value does not fit a long. */
  function CalculateStartTime(frame: int32, frameRate: Fraction): (r: Eval<Option<PreciseTimeSpan>>)
    ensures r == Ok(None) <==> frame < 0 || !IsPositive(frameRate)
    ensures Known(r) ==> frame >= 0 && IsPositive(frameRate)
    ensures Known(r) ==> Canonical(r.value.value) && Nanos(r) >= 0
    ensures Known(r) ==>
      2 * Abs(Nanos(r) * frameRate.num - frame * NanosPerSecond * frameRate.den) <= frameRate.num
    ensures r.Throws? ==> frame * NanosPerSecond * frameRate.den > MaxInt64 * frameRate.num
  {
    if frame < 0 || !IsPositive(frameRate) then Ok(None)
    else
      var exact := frame * NanosPerSecond * frameRate.den;
      var rounded := RoundHalfEven(exact, frameRate.num);
      RoundHalfEvenBounds(exact, frameRate.num, MaxInt64);
      if rounded > MaxInt64 then Throws else Ok(Some(FromNanoseconds(rounded)))
  }

  /** `CalculateDuration`: the time `lastFrame - firstFrame + 1` frames take at `frameRate`.
      The frame count is computed in (checked) int arithmetic, so an exception escapes when it
      overflows; sentinel frames are not special here. */
  function CalculateDuration(firstFrame: int32, lastFrame: int32, frameRate: Fraction): (r: Eval<Option<PreciseTimeSpan>>)
    ensures r == Ok(None) <==>
      InInt32(lastFrame - firstFrame) && InInt32(lastFrame - firstFrame + 1) &&
      (lastFrame - firstFrame + 1 < 0 || !IsPositive(frameRate))
    ensures Known(r) ==> lastFrame - firstFrame + 1 >= 0 && IsPositive(frameRate)
    ensures Known(r) ==> Canonical(r.value.value) && Nanos(r) >= 0
    ensures Known(r) ==>
      2 * Abs(Nanos(r) * frameRate.num - (lastFrame - firstFrame + 1) * NanosPerSecond * frameRate.den)
        <= frameRate.num
    ensures !InInt32(lastFrame - firstFrame) || !InInt32(lastFrame - firstFrame + 1) ==> r.Throws?
    ensures r.Throws? && InInt32(lastFrame - firstFrame) && InInt32(lastFrame - firstFrame + 1) ==>
      (lastFrame - firstFrame + 1) * NanosPerSecond * frameRate.den > MaxInt64 * frameRate.num
  {
    var difference :- CheckedSub32(lastFrame, firstFrame);
    var count :- CheckedAdd32(difference, 1);
    CalculateStartTime(count, frameRate)
  }

  /** `CalculateEndTime`: start - 1 ns + duration, null when either operand is null or the
      arithmetic overflows (the exception is caught). */
  function CalculateEndTime(startTime: Option<PreciseTimeSpan>, duration: Option<PreciseTimeSpan>): (r: Option<PreciseTimeSpan>)
    ensures r.Some? <==>
      startTime.Some? && duration.Some? &&
      InInt64(TotalNanoseconds(startTime.value) - 1) &&
      InInt64(TotalNanoseconds(startTime.value) - 1 + TotalNanoseconds(duration.value))
    ensures r.Some? ==> Canonical(r.value)
    ensures r.Some? ==>
      TotalNanoseconds(r.value) == TotalNanoseconds(startTime.value) - 1 + TotalNanoseconds(duration.value)
  {
    if startTime.None? || duration.None? then None
    else
      match Sub(startTime.value, OneNanosecond)
      case Throws => None
      case Ok(beforeStart) =>
        match Add(beforeStart, duration.value)
        case Throws => None
        case Ok(endTime) => Some(endTime)
  }

  /** `CalculateLength(int, int)`: the number of frames from `firstFrame` to `lastFrame`
      inclusive, -1 when either frame is unset or the pair is (0, Int32.MaxValue), whose count
      would overflow. Any other pair gives `last - first + 1`, so a reversed range gives a count
      of zero or below; the pair (last + 2, last) gives -1, like an unset frame. */
  function CalculateLengthOfRange(firstFrame: int32, lastFrame: int32): (r: int32)
    ensures r >= 0 <==>
      0 <= firstFrame && 0 <= lastFrame && firstFrame <= lastFrame + 1 &&
      !(firstFrame == 0 && lastFrame == MaxInt32)
    ensures r >= 0 ==> lastFrame == firstFrame + r - 1
    ensures r < -1 ==> 0 <= lastFrame < firstFrame - 1 && lastFrame == firstFrame + r - 1
    ensures firstFrame < 0 || lastFrame < 0 || (firstFrame == 0 && lastFrame == MaxInt32) ==> r == -1
    ensures 0 <= firstFrame && 0 <= lastFrame && !(firstFrame == 0 && lastFrame == MaxInt32) ==>
      r == lastFrame - firstFrame + 1
  {
    if firstFrame < 0 || lastFrame < 0 || (lastFrame == MaxInt32 && firstFrame == 0) then -1
    else lastFrame - firstFrame + 1
  }

  /** `CalculateLength(PreciseTimeSpan, Fraction)`: the number of frames `duration` lasts at
      `frameRate`, rounded to the nearest integer (ties to even); -1 when the duration is null,
      the rate is not positive, or the exact count is not below Int32.MaxValue. An exception
      escapes when the decimal product duration * rate overflows. */
  function CalculateLengthOfDuration(duration: Option<PreciseTimeSpan>, frameRate: Fraction): (r: Eval<int32>)
    ensures duration.None? || !IsPositive(frameRate) ==> r.Ok? && r.value == -1
    ensures r.Ok? && r.value >= 0 ==>
      duration.Some? && IsPositive(frameRate) &&
      2 * Abs(TotalNanoseconds(duration.value) * frameRate.num - r.value * (frameRate.den * NanosPerSecond))
        <= frameRate.den * NanosPerSecond
    ensures duration.Some? && IsPositive(frameRate) && TotalNanoseconds(duration.value) >= 0 ==>
      (r.Throws? <==> TotalNanoseconds(duration.value) * frameRate.num > DecimalMax * frameRate.den) &&
      (r.Ok? ==> (r.value == -1 <==>
        TotalNanoseconds(duration.value) * frameRate.num >= MaxInt32 * (frameRate.den * NanosPerSecond)))
  {
    if duration.Some? && IsPositive(frameRate) then
      var product := TotalNanoseconds(duration.value) * frameRate.num;
      var unit := frameRate.den * NanosPerSecond;
      if Abs(product) > DecimalMax * frameRate.den then Throws
      else if product < MaxInt32 * unit then
        var rounded := RoundHalfEven(product, unit);
        RoundHalfEvenBounds(product, unit, MaxInt32);
        if rounded < MinInt32 then Throws else Ok(rounded)
      else Ok(-1)
    else Ok(-1)
  }

  // ---------------------------------------------------------------------------------------
  // Frame rates

  /** `InputFrameRate`: the chapter's own override when positive, otherwise the previous
      chapter's input frame rate, and zero for a first chapter without one. */
  function InputFrameRate(s: seq<Chapter>, i: nat): (r: Fraction)
    requires i < |s|
    ensures IsPositive(r) || r == FractionZero
    decreases i
  {
    if IsPositive(s[i].inputFrameRate) then s[i].inputFrameRate
    else if i == 0 then FractionZero
    else InputFrameRate(s, i - 1)
  }

  /** `OutputFrameRate`: the chapter's own override when positive, else the previous
      chapter's output frame rate when that is positive, else this chapter's input frame rate. */
  function OutputFrameRate(s: seq<Chapter>, i: nat): (r: Fraction)
    requires i < |s|
    ensures IsPositive(r) || r == FractionZero
    decreases i
  {
    if IsPositive(s[i].outputFrameRate) then s[i].outputFrameRate
    else if i > 0 && IsPositive(OutputFrameRate(s, i - 1)) then OutputFrameRate(s, i - 1)
    else InputFrameRate(s, i)
  }

  // ---------------------------------------------------------------------------------------
  // The input getters, which read other chapters only through the input frame rate

  /** `InputLength`: the frame count of the input range. */
  function InputLength(s: seq<Chapter>, i: nat): (r: int32)
    requires i < |s|
    ensures r >= 0 ==> s[i].inputFirstFrame + r - 1 == s[i].inputLastFrame
    ensures (|| s[i].inputFirstFrame < 0 || s[i].inputLastFrame < 0
             || (s[i].inputFirstFrame == 0 && s[i].inputLastFrame == MaxInt32)) ==> r == -1
    ensures (&& 0 <= s[i].inputFirstFrame && 0 <= s[i].inputLastFrame
             && !(s[i].inputFirstFrame == 0 && s[i].inputLastFrame == MaxInt32)) ==>
      r == s[i].inputLastFrame - s[i].inputFirstFrame + 1
  {
    CalculateLengthOfRange(s[i].inputFirstFrame, s[i].inputLastFrame)
  }

  /** `InputDuration`: the time `last - first + 1` input frames take at the input frame rate. */
  function InputDuration(s: seq<Chapter>, i: nat): (r: Eval<Option<PreciseTimeSpan>>)
    requires i < |s|
    ensures Known(r) ==> Nanos(r) >= 0
  {
    CalculateDuration(s[i].inputFirstFrame, s[i].inputLastFrame, InputFrameRate(s, i))
  }

  /** `InputStartTime`: the time of the first input frame at the input frame rate. */
  function InputStartTime(s: seq<Chapter>, i: nat): (r: Eval<Option<PreciseTimeSpan>>)
    requires i < |s|
    ensures r.Ok? && r.value.None? <==> s[i].inputFirstFrame < 0 || !IsPositive(InputFrameRate(s, i))
    ensures Known(r) ==> Nanos(r) >= 0
  {
    CalculateStartTime(s[i].inputFirstFrame, InputFrameRate(s, i))
  }

  /** `InputEndTime`: the last nanosecond of the input range, start - 1 ns + duration. */
  function InputEndTime(s: seq<Chapter>, i: nat): (r: Eval<Option<PreciseTimeSpan>>)
    requires i < |s|
    ensures Known(r) ==> Nanos(r) >= -1
  {
    var startTime :- InputStartTime(s, i);
    var duration :- InputDuration(s, i);
    Ok(CalculateEndTime(startTime, duration))
  }

  // ---------------------------------------------------------------------------------------
  // Output frames. The three getters call each other within a chapter and reach back only
  // to the previous chapter's last frame, so they are evaluated together, chapter by chapter.

  /** `OutputFirstFrame` of chapter c, given the previous chapter's `OutputLastFrame` (None for
      the first chapter): the override when set; 0 for the first chapter; otherwise one past
      the previous last frame, or -1 when that is unknown or Int32.MaxValue. */
  function OutputFirstFrameStep(c: Chapter, previousLast: Option<Eval<int32>>): (r: Eval<int32>)
    ensures r.Ok? ==> r.value >= -1
    ensures c.outputFirstFrame >= 0 ==> r.Ok? && r.value == c.outputFirstFrame
    ensures previousLast.None? ==> r.Ok? && r.value >= 0
  {
    if c.outputFirstFrame >= 0 then Ok(c.outputFirstFrame)
    else if previousLast.None? then Ok(0)
    else
      var last :- previousLast.value;
      if last < 0 || last == MaxInt32 then Ok(-1) else Ok(last + 1)
  }

  /** `OutputLength`: when the next chapter's raw output-first-frame override `pin` is set,
      the frames from this chapter's output first frame up to the frame before `pin` (the next
      chapter's getter returns its override unchanged then); otherwise the frame count of the
      input duration at the output frame rate, -1 when unknown. */
  function OutputLengthStep(pin: int32, outputFirstFrame: Eval<int32>, inputDuration: Eval<Option<PreciseTimeSpan>>,
                            outputFrameRate: Fraction): (r: Eval<int32>)
    ensures pin < 0 && r.Ok? ==> r.value >= -1
    ensures pin >= 0 && r.Ok? && r.value >= 0 ==> outputFirstFrame.Ok? && r.value == pin - outputFirstFrame.value
  {
    if pin >= 0 then
      var first :- outputFirstFrame;
      Ok(CalculateLengthOfRange(first, pin - 1))
    else
      var duration :- inputDuration;
      var fromInputDuration :- CalculateLengthOfDuration(duration, outputFrameRate);
      Ok(if fromInputDuration >= 0 then fromInputDuration else -1)
  }

  /** `OutputLastFrame`: first - 1 + length, -1 when either is negative or the sum overflows
      (the exception is caught). The length is not evaluated when the first frame is negative. */
  function OutputLastFrameStep(outputFirstFrame: Eval<int32>, outputLength: Eval<int32>): (r: Eval<int32>)
    ensures r.Ok? ==> r.value >= -1
    ensures r.Ok? && r.value >= 0 ==>
      outputFirstFrame.Ok? && outputFirstFrame.value >= 0 && outputLength.Ok? && outputLength.value >= 0 &&
      r.value == outputFirstFrame.value + outputLength.value - 1
  {
    var first :- outputFirstFrame;
    if first < 0 then Ok(-1)
    else
      var length :- outputLength;
      if length < 0 then Ok(-1)
      else if InInt32(first - 1 + length) then Ok(first - 1 + length)
      else Ok(-1)
  }

  /** The output frame getters of one chapter. */
  datatype OutputFrames = OutputFrames(first: Eval<int32>, length: Eval<int32>, last: Eval<int32>)

  /** The next chapter's raw output-first-frame override, -1 for the last chapter. */
  function NextOverride(s: seq<Chapter>, i: nat): (r: int32)
    requires i < |s|
    ensures r >= 0 <==> i + 1 < |s| && s[i + 1].outputFirstFrame >= 0
    ensures r >= 0 ==> r == s[i + 1].outputFirstFrame
  {
    if i + 1 < |s| && s[i + 1].outputFirstFrame >= 0 then s[i + 1].outputFirstFrame else -1
  }

  /** The next chapter pins where this chapter ends. */
  predicate IsPinned(s: seq<Chapter>, i: nat)
    requires i < |s|
  {
    NextOverride(s, i) >= 0
  }

  /** The output frame getters of chapter i, from the previous chapter's last frame. */
  function Frames(s: seq<Chapter>, i: nat): (f: OutputFrames)
    requires i < |s|
    ensures f.last.Ok? ==> f.last.value >= -1
    decreases i
  {
    var previousLast := if i == 0 then None else Some(Frames(s, i - 1).last);
    var first := OutputFirstFrameStep(s[i], previousLast);
    var length := OutputLengthStep(NextOverride(s, i), first, InputDuration(s, i), OutputFrameRate(s, i));
    OutputFrames(first, length, OutputLastFrameStep(first, length))
  }

  /** `OutputFirstFrame` of chapter i. */
  function OutputFirstFrame(s: seq<Chapter>, i: nat): (r: Eval<int32>)
    requires i < |s|
    ensures r.Ok? ==> r.value >= -1
    ensures s[i].outputFirstFrame >= 0 ==> r.Ok? && r.value == s[i].outputFirstFrame
    ensures i == 0 ==> r.Ok? && r.value >= 0
    ensures i == 0 && s[i].outputFirstFrame < 0 ==> r == Ok(0)
  {
    Frames(s, i).first
  }

  /** `OutputLength` of chapter i. */
  function OutputLength(s: seq<Chapter>, i: nat): (r: Eval<int32>)
    requires i < |s|
    ensures !IsPinned(s, i) && r.Ok? ==> r.value >= -1
  {
    Frames(s, i).length
  }

  /** `OutputLastFrame` of chapter i. */
  function OutputLastFrame(s: seq<Chapter>, i: nat): (r: Eval<int32>)
    requires i < |s|
    ensures r.Ok? ==> r.value >= -1
  {
    Frames(s, i).last
  }

  // ---------------------------------------------------------------------------------------
  // Output times. The start time reaches back to the previous chapter's end time only, so
  // the two getters recurse on each other chapter by chapter, as in the source.

  /** `OutputDuration`: the time the output frames first..last take at the output frame rate. */
  function OutputDurationStep(outputFirstFrame: Eval<int32>, outputLastFrame: Eval<int32>, outputFrameRate: Fraction)
    : (r: Eval<Option<PreciseTimeSpan>>)
    ensures Known(r) ==> Nanos(r) >= 0
  {
    if outputFirstFrame.Throws? || outputLastFrame.Throws? then Throws
    else CalculateDuration(outputFirstFrame.value, outputLastFrame.value, outputFrameRate)
  }

  /** `OutputStartTime`, given the previous chapter's `OutputEndTime` (None for the first
      chapter): zero for the first chapter, otherwise one nanosecond after the previous end
      time; null when that is null or the addition overflows. */
  function OutputStartTimeStep(previousEnd: Option<Eval<Option<PreciseTimeSpan>>>): (r: Eval<Option<PreciseTimeSpan>>)
    ensures previousEnd.None? ==> Known(r) && r.value.value == Zero
  {
    if previousEnd.None? then Ok(Some(Zero))
    else
      match previousEnd.value
      case Throws => Throws
      case Ok(None) => Ok(None)
      case Ok(Some(endTime)) =>
        match Add(endTime, OneNanosecond)
        case Throws => Ok(None)
        case Ok(startTime) => Ok(Some(startTime))
  }

  /** `OutputEndTime`: start - 1 ns + duration, null when either is null or the arithmetic
      overflows; the source repeats `CalculateEndTime` inline. The duration is not evaluated
      when the start time is null. */
  function OutputEndTimeStep(outputStartTime: Eval<Option<PreciseTimeSpan>>, outputDuration: Eval<Option<PreciseTimeSpan>>)
    : (r: Eval<Option<PreciseTimeSpan>>)
  {
    var startTime :- outputStartTime;
    if startTime.None? then Ok(None)
    else
      var duration :- outputDuration;
      Ok(CalculateEndTime(startTime, duration))
  }

  /** `OutputDuration` of chapter i. */
  function OutputDuration(s: seq<Chapter>, i: nat): (r: Eval<Option<PreciseTimeSpan>>)
    requires i < |s|
    ensures Known(r) ==> Nanos(r) >= 0
  {
    OutputDurationStep(OutputFirstFrame(s, i), OutputLastFrame(s, i), OutputFrameRate(s, i))
  }

  /** `OutputStartTime` of chapter i, from the previous chapter's end time. */
  function OutputStartTime(s: seq<Chapter>, i: nat): (r: Eval<Option<PreciseTimeSpan>>)
    requires i < |s|
    decreases i, 0
  {
    OutputStartTimeStep(if i == 0 then None else Some(OutputEndTime(s, i - 1)))
  }

  /** `OutputEndTime` of chapter i. */
  function OutputEndTime(s: seq<Chapter>, i: nat): (r: Eval<Option<PreciseTimeSpan>>)
    requires i < |s|
    decreases i, 1
  {
    OutputEndTimeStep(OutputStartTime(s, i), OutputDuration(s, i))
  }

  // ---------------------------------------------------------------------------------------
  // The Name setter

  /** The characters `char.IsWhiteSpace` accepts, which are also those the regular-expression
      class `\s` matches: U+0009..U+000D, U+0085 and the space separators U+0020, U+00A0,
      U+1680, U+2000..U+200A, U+2028, U+2029, U+202F, U+205F, U+3000. */
  predicate IsWhiteSpace(c: char) {
    || ('\t' <= c <= '\r')
    || c == ' ' || c == '\U{85}' || c == '\U{A0}' || c == '\U{1680}'
    || ('\U{2000}' <= c <= '\U{200A}')
    || c == '\U{2028}' || c == '\U{2029}' || c == '\U{202F}' || c == '\U{205F}' || c == '\U{3000}'
  }

  /** Drops leading white space. */
  function TrimStart(s: string): (r: string)
    ensures |r| <= |s|
    ensures r == [] || !IsWhiteSpace(r[0])
  {
    if |s| > 0 && IsWhiteSpace(s[0]) then TrimStart(s[1..]) else s
  }

  /** What `TrimStart` drops is white space, and what it keeps is the rest of the string. */
  lemma {:induction false} TrimStartDropsWhiteSpace(s: string)
    ensures TrimStart(s) == s[|s| - |TrimStart(s)|..]
    ensures forall k :: 0 <= k < |s| - |TrimStart(s)| ==> IsWhiteSpace(s[k])
    decreases |s|
  {
    if |s| > 0 && IsWhiteSpace(s[0]) {
      TrimStartDropsWhiteSpace(s[1..]);
      assert s[1..][|s| - 1 - |TrimStart(s)|..] == s[|s| - |TrimStart(s)|..];
      forall k | 0 < k < |s| - |TrimStart(s)|
        ensures IsWhiteSpace(s[k])
      {
        assert s[k] == s[1..][k - 1];
      }
    }
  }

  /** Drops trailing white space. */
  function TrimEnd(s: string): (r: string)
    ensures |r| <= |s|
    ensures r == [] || !IsWhiteSpace(r[|r| - 1])
  {
    if |s| > 0 && IsWhiteSpace(s[|s| - 1]) then TrimEnd(s[..|s| - 1]) else s
  }

  /** What `TrimEnd` drops is white space, and what it keeps is the start of the string. */
  lemma {:induction false} TrimEndDropsWhiteSpace(s: string)
    ensures TrimEnd(s) == s[..|TrimEnd(s)|]
    ensures forall k :: |TrimEnd(s)| <= k < |s| ==> IsWhiteSpace(s[k])
    decreases |s|
  {
    if |s| > 0 && IsWhiteSpace(s[|s| - 1]) {
      TrimEndDropsWhiteSpace(s[..|s| - 1]);
      assert s[..|s| - 1][..|TrimEnd(s)|] == s[..|TrimEnd(s)|];
      forall k | |TrimEnd(s)| <= k < |s| - 1
        ensures IsWhiteSpace(s[k])
      {
        assert s[k] == s[..|s| - 1][k];
      }
    }
  }

  /** `String.Trim()`, which the `Name` setter applies. */
  function Trim(s: string): (r: string)
    ensures |r| <= |s|
    ensures r == [] || (!IsWhiteSpace(r[0]) && !IsWhiteSpace(r[|r| - 1]))
  {
    TrimEndDropsWhiteSpace(TrimStart(s));
    TrimEnd(TrimStart(s))
  }

  /** `Trim` keeps the part of s between its leading and its trailing white space, and that
      part neither starts nor ends with white space. */
  lemma {:induction false} TrimKeepsMiddle(s: string)
    ensures var r, a := Trim(s), |s| - |TrimStart(s)|;
      && a + |r| <= |s| && r == s[a..a + |r|]
      && (forall k :: 0 <= k < a ==> IsWhiteSpace(s[k]))
      && (forall k :: a + |r| <= k < |s| ==> IsWhiteSpace(s[k]))
      && (r == [] || (!IsWhiteSpace(r[0]) && !IsWhiteSpace(r[|r| - 1])))
  {
    var t := TrimStart(s);
    var r := Trim(s);
    var a := |s| - |t|;
    assert t == s[a..] && forall k :: 0 <= k < a ==> IsWhiteSpace(s[k]) by {
      TrimStartDropsWhiteSpace(s);
    }
    assert r == t[..|r|] && forall k :: |r| <= k < |t| ==> IsWhiteSpace(t[k]) by {
      TrimEndDropsWhiteSpace(t);
    }
    assert r == s[a..a + |r|];
    forall k | a + |r| <= k < |s|
      ensures IsWhiteSpace(s[k])
    {
      assert s[k] == t[k - a];
    }
  }
}
