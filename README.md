# Chapter timing of ChapterHelper, in Dafny

ChapterHelper edits the chapters of a video that is cut with AviSynth `trim(first,last)`
calls. A chapter holds a few user overrides: an input and an output frame rate, an input frame
range, an output first frame and a name. Everything else is derived when it is read, from the
chapter itself and from its neighbours in the collection: the input length, duration, start and
end time; the output frame rate, first frame, length, last frame and duration; and the output
start and end times. Times are `PreciseTimeSpan`s, which count whole nanoseconds as 100 ns
ticks plus a remainder.

The project models:

- `precise_time_span.dfy` (module `PreciseTime`): the span as ticks and remainder, exact
  construction from nanoseconds, checked addition and subtraction, `Equals`, `==` and `!=`,
  and `Zero`.
- `chapter.dfy` (module `Chapters`): the chapter record, the static helpers
  (`CalculateStartTime`, `CalculateDuration`, `CalculateEndTime` and both `CalculateLength`
  overloads) and every derived getter. Each getter is a function of the chapter sequence `s`
  and a position `i`. Looking up the previous or next chapter becomes `i - 1` or `i + 1`.
  Getters that can fail return `Eval`: `Throws` when an exception escapes the getter. Otherwise
  they return the value, in which -1 or `None` is the source's "unknown" marker (null in C#).
  It also models `String.Trim` for the `Name` setter.
- `chapter_properties.dfy` (module `ChapterProperties`): what the getters promise together.
  - Frame rates come from the nearest override.
  - Output frames are contiguous, and a pinned chapter ends just before the next one.
  - End time = start time − 1 ns + duration, and a chapter starts 1 ns after the previous one
    ends, so start times increase.
  - An unpinned chapter's input length survives the trip through time and back.
  - Every getter of chapter `i` reads only chapters `0..i` and the override of chapter `i + 1`.
- `chapter_collection.dfy` (module `Collection`): neighbour lookup, the three readiness
  queries, the `trim(a,b)` scanner and the `ChapterCollection` class.
  - The class's field `chapters` is reassigned by `Add`, by the setters and by the loop of
    `FromAviSynthTrims`.
  - The setters live on the collection because a chapter is a value in the sequence.
- `numerics.dfy` and `wrappers.dfy`: int32/int64 ranges, checked int32 addition, truncating
  division, round-half-to-even, exact fractions, and the `Option` and `Eval` wrappers.

Arithmetic is modelled as follows:

- **Frame rates** are exact fractions `num/den` with `den > 0`, and "not positive" means
  unset.
- **Decimal rounding**: the decimal expressions `frame / rate * 1e9` and
  `nanos * rate / 1e9` are taken exactly. `Convert.ToInt64` and `Convert.ToInt32` then round
  to the nearest integer, ties to even (`RoundHalfEven`). They throw when the result does not
  fit.
- **Integer overflow**: integer and `long` arithmetic is taken as checked. An overflow inside
  the `try` blocks of `CalculateEndTime`, `OutputLastFrame`, `OutputStartTime` and
  `OutputEndTime` is caught and gives the unknown marker. Elsewhere it escapes as `Throws`.
- **Reads are pure**: getters read the collection and change nothing. The readiness queries
  therefore evaluate the getter on every chapter first and then fold the outcomes in order.
  This gives the same result as LINQ's lazy `All`, including which exception wins.

Some behaviour of the code is easy to overlook. The model follows the code:

- `FromNanoseconds` divides with C#'s truncating `/` and `%`, so a negative total has a
  remainder in -99..0, not in 0..99. The round trip is exact either way
  (`PreciseTime.RoundTrip`).
- `InputDuration` is `CalculateStartTime(last - first + 1, rate)` and does not look at
  `InputLength`. A chapter whose input frames are both -1 therefore has a one-frame duration,
  not a null one (`ChapterProperties.UnsetInputRangeLastsOneFrame`).
- Some exceptions escape a getter. The model shows them as `Throws`.
  - `CalculateStartTime` throws only when the exact time is beyond a long.
  - `CalculateDuration` throws whenever `last - first` or `last - first + 1` overflows an
    int. Otherwise it throws only when the exact time is beyond a long.
  - `CalculateLength(duration, rate)` throws, for a non-negative duration, exactly when the
    decimal product `nanos * rate` is beyond the decimal range.
  - The getters pass these exceptions on. `ChapterProperties.UnpinnedLength`,
    `OutputLastFrameOfFirstAndLength`, `OutputEndTimeIsStartPlusDuration` and
    `OutputStartFollowsPreviousEnd` say how.
- The length round trip from frames to time and back holds only under some conditions.
  - The input and output rates must be equal as fractions.
  - The input duration must be known. This means a positive rate and a time that does not
    overflow a long, which always holds at one frame per second or more.
  - The rate must be below one frame per nanosecond, so that a frame lasts more than half a
    nanosecond.
  - The length must be below `Int32.MaxValue`, because the length conversion only accepts
    values below that.

## Model

| member | source | states |
|---|---|---|
| PreciseTime.RoundTrip | ChapterHelper/PreciseTimeSpan.cs:73-76 | `FromNanoseconds` then `TotalNanoseconds` gives back every long, negative ones included |
| PreciseTime.FromNanosecondsRemainder | ChapterHelper/PreciseTimeSpan.cs:73-76 | the remainder lies in -99..99 with the sign of the total, and the ticks never overshoot it (truncating division) |
| PreciseTime.CanonicalIsFromNanoseconds | ChapterHelper/PreciseTimeSpan.cs:73-76 | every span `FromNanoseconds` can build is rebuilt from its own total |
| PreciseTime.SameTotalSameValue | ChapterHelper/PreciseTimeSpan.cs:51-62 | two spans with the same total are the same value, so equality by total is value equality |
| PreciseTime.Add | ChapterHelper/PreciseTimeSpan.cs:24-27 | succeeds exactly when the sum of totals fits a long; the result's total is the sum and it is canonical |
| PreciseTime.Sub | ChapterHelper/PreciseTimeSpan.cs:28-31 | succeeds exactly when the difference fits a long; the result's total is the difference and it is canonical |
| PreciseTime.EqualityOperators | ChapterHelper/PreciseTimeSpan.cs:51-67 | null equals only null, non-null spans are equal iff their totals are, `!=` is the negation, and `==` is an equivalence |
| PreciseTime.EqualsAgreesWithOperator | ChapterHelper/PreciseTimeSpan.cs:33-44 | on canonical spans, field-wise `Equals` agrees with `==` |
| PreciseTime.ConstantsAreCanonical | ChapterHelper/PreciseTimeSpan.cs:78-79 | `Zero` totals 0 and the one-nanosecond span totals 1, both canonical |
| PreciseTime.SubTickFromNanoseconds | ChapterHelper/PreciseTimeSpan.cs:73-76 | fewer than 100 ns give zero ticks and the whole value as remainder |
| PreciseTime.SubThenAddOne | ChapterHelper/PreciseTimeSpan.cs:24-31 | subtracting and adding back one nanosecond returns the span whenever the subtraction fits |
| PreciseTime.FromNanoseconds | ChapterHelper/PreciseTimeSpan.cs:73-76 | the span built from any long totals exactly that long and is canonical |
| PreciseTime.TotalNanoseconds | ChapterHelper/PreciseTimeSpan.cs:22 | ticks times 100 plus the remainder; no contract of its own: `RoundTrip` and `SameTotalSameValue` state that it inverts `FromNanoseconds` and identifies canonical spans |
| PreciseTime.Equal | ChapterHelper/PreciseTimeSpan.cs:51-62 | `==` is true for two nulls, false for exactly one null, and for two spans true exactly when their totals are equal |
| PreciseTime.NotEqual | ChapterHelper/PreciseTimeSpan.cs:64-67 | `!=` is false for two nulls, true for exactly one null, and for two spans true exactly when their totals differ |
| PreciseTime.Equals | ChapterHelper/PreciseTimeSpan.cs:33-44 | `Equals(object)` is true exactly when the argument is not null and is the same span |
| Numerics.TruncDivModBounds | ChapterHelper/PreciseTimeSpan.cs:75 | C#'s `/` and `%` truncate toward zero: the remainder has the dividend's sign and is smaller than the divisor |
| Numerics.RoundHalfEven | ChapterHelper/Chapter.cs:67-68 | `Convert.ToInt64` of p/q is within half a unit of p/q, and even on a tie |
| Numerics.RoundHalfEvenUnique | ChapterHelper/Chapter.cs:67-68 | an integer nearer than half a unit to p/q is the rounded value |
| Numerics.FrameTimeRoundTrip | ChapterHelper/Chapter.cs:123-136 | n frames converted to nanoseconds and back at an equal rate below 1e9 fps give n again |
| Chapters.NewChapter | ChapterHelper/Chapter.cs:11-21 | a new chapter has both rates `Fraction.Zero`, input first and last frame and output first frame -1, and the empty name |
| Chapters.CalculateStartTime | ChapterHelper/Chapter.cs:59-71 | null iff the frame is negative or the rate not positive; otherwise within half a nanosecond of frame/rate seconds, non-negative, or an exception only beyond a long |
| Chapters.CalculateDuration | ChapterHelper/Chapter.cs:48-51 | throws whenever `last - first` or `last - first + 1` overflows an int; otherwise null iff the frame count is negative or the rate unset, a known result is the time of that many frames, and it throws only when that time is beyond a long |
| Chapters.CalculateEndTime | ChapterHelper/Chapter.cs:79-96 | defined iff both inputs are and start - 1 ns and start - 1 ns + duration fit a long; then it totals exactly that |
| Chapters.CalculateLengthOfRange | ChapterHelper/Chapter.cs:104-115 | -1 when either frame is unset or the pair is (0, `Int32.MaxValue`), and `last - first + 1` for every other pair, reversed ranges included; non-negative iff both frames are set, the pair is not (0, MaxValue) and first <= last + 1 |
| Chapters.CalculateLengthOfDuration | ChapterHelper/Chapter.cs:123-136 | -1 without duration or rate; throws exactly beyond the decimal range; -1 exactly when the exact length reaches `Int32.MaxValue`; a non-negative result is the rounded length |
| Chapters.InputFrameRate | ChapterHelper/Chapter.cs:139-152 | the inherited input rate is positive or zero |
| Chapters.OutputFrameRate | ChapterHelper/Chapter.cs:163-181 | the inherited output rate is positive or zero |
| Chapters.InputLength | ChapterHelper/Chapter.cs:156 | -1 when an input frame is unset or the range is (0, `Int32.MaxValue`), otherwise `last - first + 1` of the input range, reversed ranges included |
| Chapters.InputDuration | ChapterHelper/Chapter.cs:158 | a known input duration is not negative |
| Chapters.InputStartTime | ChapterHelper/Chapter.cs:159 | null iff the input first frame is unset or there is no input rate; a known time is not negative |
| Chapters.InputEndTime | ChapterHelper/Chapter.cs:160 | a known input end time is at least -1 ns; `InputEndTimeIsStartPlusDuration` states its value in every case |
| Chapters.OutputFirstFrame | ChapterHelper/Chapter.cs:202-222 | an override is returned as is; the first chapter without an override starts at frame 0; otherwise the result is at least -1 |
| Chapters.OutputLength | ChapterHelper/Chapter.cs:183-199 | an unpinned chapter's length is -1 or more |
| Chapters.OutputLastFrame | ChapterHelper/Chapter.cs:223-243 | a known output last frame is at least -1 |
| Chapters.OutputDuration | ChapterHelper/Chapter.cs:245 | a known output duration is not negative |
| Chapters.OutputStartTime | ChapterHelper/Chapter.cs:247-266 | no contract of its own, being mutually recursive with `OutputEndTime`: `FirstChapterStartsAtZero` and `OutputStartFollowsPreviousEnd` state its value in both directions |
| Chapters.OutputEndTime | ChapterHelper/Chapter.cs:268-289 | no contract of its own: `OutputEndTimeIsStartPlusDuration` states its value in both directions |
| Chapters.TrimStart | ChapterHelper/Chapter.cs:300 | no longer than its input and does not start with white space |
| Chapters.TrimStartDropsWhiteSpace | ChapterHelper/Chapter.cs:300 | the result is a suffix of the input and everything dropped is white space |
| Chapters.TrimEnd | ChapterHelper/Chapter.cs:300 | no longer than its input and does not end with white space |
| Chapters.TrimEndDropsWhiteSpace | ChapterHelper/Chapter.cs:300 | the result is a prefix of the input and everything dropped is white space |
| Chapters.Trim | ChapterHelper/Chapter.cs:300 | `String.Trim`: no longer than its input, and neither starts nor ends with white space |
| Chapters.TrimKeepsMiddle | ChapterHelper/Chapter.cs:298-301 | the stored name is a slice of the value with only white space around it, and neither starts nor ends with white space |
| ChapterProperties.InputFrameRateFromNearestOverride | ChapterHelper/Chapter.cs:139-152 | the input rate is the override of the nearest chapter at or before this one that has one |
| ChapterProperties.InputFrameRateWithoutOverride | ChapterHelper/Chapter.cs:139-152 | without any override up to this chapter the input rate is zero |
| ChapterProperties.OutputFrameRateFromNearestOverride | ChapterHelper/Chapter.cs:163-181 | the output rate is the nearest output-rate override at or before this chapter |
| ChapterProperties.OutputFrameRateWithoutOverride | ChapterHelper/Chapter.cs:163-181 | without any output or input override up to this chapter the output rate is zero |
| ChapterProperties.OutputFrameRateFromFirstInputOverride | ChapterHelper/Chapter.cs:163-181 | without output overrides the output rate is the first input-rate override of the collection, not this chapter's |
| ChapterProperties.OutputLastFrameIsFirstPlusLength | ChapterHelper/Chapter.cs:223-243 | a known last frame is first frame + length - 1 with both known and non-negative |
| ChapterProperties.OutputLastFrameOfFirstAndLength | ChapterHelper/Chapter.cs:223-243 | every case of the last frame: an exception of the first frame or the length passes on, a negative one gives -1, and non-negative ones give first - 1 + length when that fits an int and -1 when it overflows |
| ChapterProperties.PinnedChapterEndsBeforeNext | ChapterHelper/Chapter.cs:186-193 | when the next chapter pins its first frame k, this chapter's length is k - first and it ends at k - 1 (or -1 when unknown) |
| ChapterProperties.OutputFramesContiguous | ChapterHelper/Chapter.cs:202-243 | when both are known, a chapter starts one frame after the previous one ends |
| ChapterProperties.UnpinnedChapterFollowsPrevious | ChapterHelper/Chapter.cs:211-216 | without an override the first frame inherits the previous last frame's exception, is -1 when that frame is negative or `Int32.MaxValue`, and is that frame + 1 otherwise |
| ChapterProperties.UnpinnedLength | ChapterHelper/Chapter.cs:194-197 | an unpinned chapter's length at any output rate: the input duration's exception passes on; -1 without duration or rate; throws exactly beyond the decimal range; -1 exactly when the exact frame count reaches `Int32.MaxValue`; otherwise within half a frame of the exact count |
| ChapterProperties.UnsetInputRangeLastsOneFrame | ChapterHelper/Chapter.cs:154-160 | with both input frames -1 the length is -1 and the start time null, but the duration is one frame |
| ChapterProperties.UnknownLastFrameGivesZeroDuration | ChapterHelper/Chapter.cs:245 | first frame 0 and last frame -1 give a zero duration |
| ChapterProperties.NoFramesTakeNoTime | ChapterHelper/Chapter.cs:59-71 | frame 0 is at time 0 for every rate |
| ChapterProperties.FrameCountToTime | ChapterHelper/Chapter.cs:59-71 | the start time of a frame count whose exact time fits a long (every count, at one frame per second or more) is known and is that time rounded half to even |
| ChapterProperties.UnpinnedLengthRoundTrip | ChapterHelper/Chapter.cs:195-197 | an unpinned chapter whose output rate equals its input rate, whose input duration is known, at a rate below one frame per nanosecond, keeps its input length below `Int32.MaxValue` as output length |
| ChapterProperties.LengthWithinRange | ChapterHelper/Chapter.cs:128-133 | a duration whose exact frame count is within half a frame of some n < `Int32.MaxValue` stays inside the decimal range and below `Int32.MaxValue` frames |
| ChapterProperties.InputDurationNeedsRate | ChapterHelper/Chapter.cs:158 | a known input duration needs a positive rate and is within half a nanosecond of the range's exact time |
| ChapterProperties.InputEndTimeIsStartPlusDuration | ChapterHelper/Chapter.cs:79-96 | the start time's exception escapes, then the duration's; a null operand gives null; with both known the end is start - 1 ns + duration, and known exactly when start - 1 ns and that sum fit a long, null otherwise |
| ChapterProperties.OutputDurationOfFrames | ChapterHelper/Chapter.cs:245 | a known output duration is within half a nanosecond of the time of the output frames at the output rate |
| ChapterProperties.OutputEndTimeIsStartPlusDuration | ChapterHelper/Chapter.cs:268-289 | a known output end is start - 1 ns + duration; an exception or null of the start or the duration passes on; with both known the end is known exactly when start - 1 ns and start - 1 ns + duration fit a long, and null otherwise |
| ChapterProperties.OutputStartFollowsPreviousEnd | ChapterHelper/Chapter.cs:247-266 | a known start is the previous end + 1 ns; a null previous end gives a null start and an exception propagates; a known previous end gives a known start exactly when end + 1 ns fits a long, and null otherwise |
| ChapterProperties.FirstChapterStartsAtZero | ChapterHelper/Chapter.cs:251-252 | the first chapter starts at time 0 |
| ChapterProperties.OutputStartAfterPrevious | ChapterHelper/Chapter.cs:247-289 | a known start is the previous start + the previous duration |
| ChapterProperties.OutputStartTimesIncrease | ChapterHelper/Chapter.cs:247-289 | known output start times never decrease from one chapter to the next |
| ChapterProperties.RatesAreLocal | ChapterHelper/Chapter.cs:139-181 | the frame rates of chapter i read only chapters 0..i |
| ChapterProperties.InputGettersAreLocal | ChapterHelper/Chapter.cs:154-160 | the input getters of chapter i read only chapters 0..i |
| ChapterProperties.FrameTriplesAreLocal | ChapterHelper/Chapter.cs:183-243 | the output frames of chapter i read only chapters 0..i and the override of chapter i + 1 |
| ChapterProperties.FramesAreLocal | ChapterHelper/Chapter.cs:183-243 | the same, getter by getter |
| ChapterProperties.DurationIsLocal | ChapterHelper/Chapter.cs:245 | the output duration reads only chapters 0..i and the next override |
| ChapterProperties.StartTimesAreLocal | ChapterHelper/Chapter.cs:247-266 | the output start time of chapter i reads only chapters 0..i-1 and the override of chapter i |
| ChapterProperties.EndTimeIsLocal | ChapterHelper/Chapter.cs:268-289 | equal start times and equal inputs of the duration give equal end times |
| ChapterProperties.TimesAreLocal | ChapterHelper/Chapter.cs:247-289 | the output times of chapter i read only chapters 0..i and the next override |
| ChapterProperties.GettersAreLocal | ChapterHelper/Chapter.cs:139-289 | all twelve derived getters of chapter i read only chapters 0..i and the next override |
| Collection.IndexOf | ChapterHelper/ChapterCollection.cs:31 | the first position of the chapter, or -1 exactly when it is absent |
| Collection.ElementAtOffsetOrDefault | ChapterHelper/ChapterCollection.cs:29-33 | throws exactly when index + offset overflows an int; otherwise the chapter at index + offset, or null when that position is outside the collection |
| Collection.NeighbourLookup | ChapterHelper/Chapter.cs:27-39 | offsets -1, 1 and 0 give the previous chapter, the next one (null at the ends) and the chapter itself |
| Collection.AbsentChapterLookup | ChapterHelper/ChapterCollection.cs:29-33 | for a chapter not in the collection, offset -1 gives null and offset 1 the first chapter |
| Collection.AllSetMeaning | ChapterHelper/ChapterCollection.cs:39-52 | `All` is true iff every time is known, false iff a null comes first, throws iff an exception comes first |
| Collection.AllSet | ChapterHelper/ChapterCollection.cs:39-52 | LINQ's `All` over the getter outcomes in order; no contract of its own: `AllSetMeaning` states its value in every case |
| Collection.RequiredInputTimesSet | ChapterHelper/ChapterCollection.cs:39 | no contract of its own: `InputStartsReady` and `RequiredInputTimesSetMeaning` state when it is true |
| Collection.InputStartsReady | ChapterHelper/ChapterCollection.cs:39 | `RequiredInputTimesSet` is true exactly when every chapter has an input start time |
| Collection.RequiredOutputTimesSet | ChapterHelper/ChapterCollection.cs:46 | no contract of its own: `OutputStartsReady` states when it is true |
| Collection.OutputStartsReady | ChapterHelper/ChapterCollection.cs:46 | `RequiredOutputTimesSet` is true exactly when every chapter has an output start time |
| Collection.AllOutputTimesSet | ChapterHelper/ChapterCollection.cs:52 | no contract of its own: `OutputEndsReady` states when it is true |
| Collection.OutputEndsReady | ChapterHelper/ChapterCollection.cs:52 | `AllOutputTimesSet` is true exactly when every chapter has an output end time |
| Collection.RequiredInputTimesSetMeaning | ChapterHelper/ChapterCollection.cs:39 | true only when every chapter has an input first frame and rate; with them it is never false; true for an empty collection |
| Collection.AllOutputTimesSetImpliesRequired | ChapterHelper/ChapterCollection.cs:46-52 | all output end times set implies all output start times set |
| Collection.LeadingDigits | ChapterHelper/ChapterCollection.cs:62 | the greedy `\d+` takes the longest run of digits |
| Collection.MatchAt | ChapterHelper/ChapterCollection.cs:62 | a match starts with `trim` and leaves a shorter rest |
| Collection.MatchIsTrimCall | ChapterHelper/ChapterCollection.cs:62 | soundness: every match is a `trim(a,b)` call with digit runs a and b, white space at the five gaps, followed by the rest |
| Collection.Matches | ChapterHelper/ChapterCollection.cs:62 | `Regex.Matches` scanning left to right, skipping one character where no match starts; no contract of its own: `MatchesTrimCall`, `SkipText` and `NoTrimNoMatches` state what it finds |
| Collection.TryParseInt32 | ChapterHelper/ChapterCollection.cs:65-74 | `Int32.TryParse` of a digit run; no contract of its own: `ParsesDecimal` and `ShortRunsParse` state which runs parse and to what |
| Collection.ChapterOfMatch | ChapterHelper/ChapterCollection.cs:64-74 | the chapter of one match; no contract of its own: `TrimChapter` states its fields |
| Collection.ChaptersOf | ChapterHelper/ChapterCollection.cs:62-76 | one chapter per match |
| Collection.ChaptersOfAt | ChapterHelper/ChapterCollection.cs:62-76 | chapter k comes from match k, in order |
| Collection.TrimChapter | ChapterHelper/ChapterCollection.cs:62-76 | chapter k has the parsed frames of match k (-1 when a number does not fit an int) and every other field unset |
| Collection.NoTrimNoMatches | ChapterHelper/ChapterCollection.cs:62 | a script without `trim` gives no chapters |
| Collection.ShortRunsParse | ChapterHelper/ChapterCollection.cs:65-74 | a run of at most nine digits always parses to its value |
| Collection.ParsesDecimal | ChapterHelper/ChapterCollection.cs:65-74 | the decimal writing of any int parses back to it |
| Collection.MatchTrimCall | ChapterHelper/ChapterCollection.cs:62 | completeness: `trim(a,b)` with digit runs a and b and any white space, chosen independently, at each of the five gaps matches, with groups a and b |
| Collection.MatchesTrimCall | ChapterHelper/ChapterCollection.cs:62 | such a call with any spacing contributes one match, followed by the matches of the rest |
| Collection.SkipText | ChapterHelper/ChapterCollection.cs:62 | text without the letter `t` adds no match |
| Collection.TwoTrimMatches | ChapterHelper/ChapterCollection.cs:62 | two calls with any spacings, separated by text without a `t`, give two matches, in order |
| Collection.TwoTrimCalls | ChapterHelper/ChapterCollection.cs:59-78 | two calls `trim(a,b) … trim(c,d)` with any spacings give two chapters with input ranges (a,b) and (c,d), a number that does not fit an int giving -1 |
| Collection.ChapterCollection.constructor | ChapterHelper/ChapterCollection.cs:61 | a new collection is empty |
| Collection.ChapterCollection.Append | ChapterHelper/ChapterCollection.cs:75 | appends the chapter and changes nothing else |
| Collection.ChapterCollection.Add | ChapterHelper/ChapterCollection.cs:57 | appends a new, empty chapter |
| Collection.ChapterCollection.SetInputFrameRate | ChapterHelper/Chapter.cs:151 | replaces only chapter i's input rate override |
| Collection.ChapterCollection.SetOutputFrameRate | ChapterHelper/Chapter.cs:180 | replaces only chapter i's output rate override |
| Collection.ChapterCollection.SetInputFirstFrame | ChapterHelper/Chapter.cs:154 | replaces only chapter i's input first frame |
| Collection.ChapterCollection.SetInputLastFrame | ChapterHelper/Chapter.cs:155 | replaces only chapter i's input last frame |
| Collection.ChapterCollection.SetOutputFirstFrame | ChapterHelper/Chapter.cs:218-221 | replaces only chapter i's output first frame override |
| Collection.ChapterCollection.SetName | ChapterHelper/Chapter.cs:298-301 | stores the trimmed value as chapter i's name |
| Collection.ChapterCollection.FromAviSynthTrims | ChapterHelper/ChapterCollection.cs:59-78 | returns a fresh collection holding exactly the chapters of the matches, in order |
| Collection.AddKeepsGetters | ChapterHelper/ChapterCollection.cs:57 | adding a chapter changes no getter of the chapters already there |
| Collection.UpdateKeepsEarlierGetters | ChapterHelper/Chapter.cs:139-289 | changing chapter j changes no getter of a chapter before j, except through j's output first frame pinning chapter j - 1 |

## Left out

- `FromMilliseconds`, `TotalMilliseconds`, `Hours`, `Minutes`, `Seconds` and `Nanoseconds` of
  `PreciseTimeSpan` are not modelled, because they go through `double` or through
  `TimeSpan`'s formatting fields, and the chapter timing does not use them.
- `GetHashCode` is not modelled, because hashing is not observable in the derivations.
- The `decimal` type is not modelled as such. Frame rates are exact fractions, and
  `Fraction.ToDecimal()` and the decimal division are taken exactly. Its 28-digit rounding
  is not modelled. Its range limit is modelled only on the product `nanos * rate` of the length
  conversion, through `DecimalMax`. A rate whose `ToDecimal()` is beyond the decimal range is not
  modelled. Neither is a rate so small that its decimal is 0, which makes the time conversion
  divide by zero.
- Integer arithmetic is modelled as checked. The overflows that the source's `catch` blocks
  expect are therefore exceptions. The project's compiler setting is not part of this model.
- `Zero` is a cached singleton in the source. Only its value is modelled; reference identity is
  not observable through `==`, which compares totals.
- `IndexOf` compares chapters by reference in the source. The model compares them by value and
  identifies a chapter by its position, so two chapters with equal overrides are indistinct in
  `IndexOf`. The neighbour lemmas require the chapter's first occurrence.
- `OnListChanged` is not modelled, because it only notifies the user interface.
- The collection is assumed to hold at most `Int32.MaxValue` chapters, the most a
  `BindingList` can hold.
- Collection.LeadingDigits: `\d` is taken as the ASCII digits 0-9. .NET's `\d` also matches
  other Unicode decimal digits, and `Int32.TryParse` would then reject the run.
- Collection.TryParseInt32: models `Int32.TryParse` only on runs of ASCII digits, the only
  input the pattern gives it. Signs, white space and culture settings do not arise.
- Chapters.InputFrameRate: its contract says only that the rate is positive or zero. Which
  chapter it comes from is stated by the nearest-override lemmas in `ChapterProperties`.
- Chapters.OutputFrameRate: its contract is weak in the same way. Its sources are stated by
  `OutputFrameRateFromNearestOverride`, `OutputFrameRateWithoutOverride` and
  `OutputFrameRateFromFirstInputOverride`.
- ChapterProperties.GettersAreLocal: `Name` is not among the getters compared. It is a stored
  field with no derivation.
- ChapterProperties.OutputStartAfterPrevious: it relates neighbouring chapters only. The
  closed form "start = sum of the earlier durations" is not stated.
- Collection.MatchAt: its own contract gives only the `trim` prefix and a shorter rest. Its
  soundness is stated by `MatchIsTrimCall` and its completeness by `MatchTrimCall`.
- Chapters.InputEndTime: its own contract gives only a lower bound. Its value, the null cases
  and the exceptions are stated by `InputEndTimeIsStartPlusDuration`.
- Chapters.OutputFirstFrame: its own contract gives the override and first-chapter cases and a
  lower bound. The previous-chapter case is stated by `UnpinnedChapterFollowsPrevious`.
- Chapters.OutputLength: its own contract gives only a lower bound for an unpinned chapter. Its
  value is stated by `UnpinnedLength` and, for a pinned one, by `PinnedChapterEndsBeforeNext`.
- Chapters.OutputLastFrame: its own contract gives only a lower bound. Its value in every case
  is stated by `OutputLastFrameOfFirstAndLength`.
- Collection.ChapterCollection.SetName: a null value throws `NullReferenceException` in the
  source. This is not modelled, because strings here cannot be null.
- Removing a chapter from the collection is not modelled, because the `BindingList` does it
  and the core defines no removal of its own.
