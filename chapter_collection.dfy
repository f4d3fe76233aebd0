/** The chapter collection: the list the chapters live in, the neighbour lookup the getters
    use, the three readiness queries, appending a chapter, the per-chapter setters, and the
    reader that turns the `trim(a,b)` calls of an AviSynth script into chapters. */
module Collection {
  import opened Wrappers
  import opened Numerics
  import opened PreciseTime
  import opened Chapters
  import opened ChapterProperties

  // ---------------------------------------------------------------------------------------
  // Neighbour lookup

  /** `IndexOf`: the position of the first chapter equal to `c`, or -1 when there is none. */
  function IndexOf(s: seq<Chapter>, c: Chapter): (r: int)
    ensures -1 <= r < |s|
    ensures r >= 0 ==> s[r] == c && forall k :: 0 <= k < r ==> s[k] != c
    ensures r == -1 ==> c !in s
  {
    if |s| == 0 then -1
    else if s[0] == c then 0
    else
      var k := IndexOf(s[1..], c);
      if k < 0 then -1 else k + 1
  }

  /** `ElementAtOrDefault`: the element at position k, or null outside [0, Count). */
  function ElementAtOrDefault(s: seq<Chapter>, k: int): Option<Chapter> {
    if 0 <= k < |s| then Some(s[k]) else None
  }

  /** `ElementAtOffsetOrDefault`: the chapter `offset` places after `chapter` (before it for
      a negative offset), or null; the index sum is an int, so an exception escapes when it
      overflows. */
  function ElementAtOffsetOrDefault(s: seq<Chapter>, chapter: Chapter, offset: int32): (r: Eval<Option<Chapter>>)
    ensures r.Throws? <==> !InInt32(IndexOf(s, chapter) + offset)
    ensures r.Ok? && r.value.Some? ==> r.value.value in s
    ensures r.Ok? ==> var k := IndexOf(s, chapter) + offset;
      r.value == if 0 <= k < |s| then Some(s[k]) else None
  {
    var index := IndexOf(s, chapter);
    if InInt32(index + offset) then Ok(ElementAtOrDefault(s, index + offset)) else Throws
  }

  /** The lookups the getters make: for the chapter at position i (the first one equal to
      it), offset -1 gives the chapter before it, or null for the first chapter, and offset 1
      the chapter after it, or null for the last one. A list never holds more than
      Int32.MaxValue elements. */
  lemma NeighbourLookup(s: seq<Chapter>, i: nat)
    requires i < |s| <= MaxInt32
    requires forall k :: 0 <= k < i ==> s[k] != s[i]
    ensures ElementAtOffsetOrDefault(s, s[i], -1) == Ok(if i > 0 then Some(s[i - 1]) else None)
    ensures ElementAtOffsetOrDefault(s, s[i], 1) == Ok(if i + 1 < |s| then Some(s[i + 1]) else None)
    ensures ElementAtOffsetOrDefault(s, s[i], 0) == Ok(Some(s[i]))
  {
  }

  /** A chapter that is not in the collection has index -1: it sees no previous chapter,
      and the first chapter of the collection as its next one. */
  lemma AbsentChapterLookup(s: seq<Chapter>, c: Chapter)
    requires c !in s
    ensures ElementAtOffsetOrDefault(s, c, -1) == Ok(None)
    ensures ElementAtOffsetOrDefault(s, c, 1) == Ok(if |s| > 0 then Some(s[0]) else None)
  {
  }

  // ---------------------------------------------------------------------------------------
  // Readiness queries

  /** The three time getters the readiness queries test. */
  datatype TimeGetter = InputStart | OutputStart | OutputEnd

  /** The outcome of a time getter on chapter i. */
  function TimeOf(g: TimeGetter, s: seq<Chapter>, i: nat): Eval<Option<PreciseTimeSpan>>
    requires i < |s|
  {
    match g
    case InputStart => InputStartTime(s, i)
    case OutputStart => OutputStartTime(s, i)
    case OutputEnd => OutputEndTime(s, i)
  }

  /** The outcomes of a time getter on every chapter, in order. The getters read the
      collection and change nothing, so evaluating them all up front gives every chapter the
      outcome a lazy evaluation would give it. */
  function Times(g: TimeGetter, s: seq<Chapter>): (r: seq<Eval<Option<PreciseTimeSpan>>>)
    ensures |r| == |s| && forall i :: 0 <= i < |s| ==> r[i] == TimeOf(g, s, i)
  {
    seq(|s|, i requires 0 <= i < |s| => TimeOf(g, s, i))
  }

  /** `All(time => time != null)` over the outcomes in order: false at the first null time,
      an exception when a getter throws before any null time is seen. The test is the
      overloaded `!=` of `PreciseTimeSpan`. */
  function AllSet(times: seq<Eval<Option<PreciseTimeSpan>>>): Eval<bool> {
    if |times| == 0 then Ok(true)
    else match times[0]
      case Throws => Throws
      case Ok(time) => if NotEqual(time, None) then AllSet(times[1..]) else Ok(false)
  }

  /** `RequiredInputTimesSet`: true exactly when every chapter has an input start time. */
  function RequiredInputTimesSet(s: seq<Chapter>): Eval<bool> {
    AllSet(Times(InputStart, s))
  }

  /** `RequiredOutputTimesSet`: true exactly when every chapter has an output start time. */
  function RequiredOutputTimesSet(s: seq<Chapter>): Eval<bool> {
    AllSet(Times(OutputStart, s))
  }

  /** `AllOutputTimesSet`: true exactly when every chapter has an output end time. */
  function AllOutputTimesSet(s: seq<Chapter>): Eval<bool> {
    AllSet(Times(OutputEnd, s))
  }

  /** Every earlier outcome is a time. */
  predicate KnownBefore(times: seq<Eval<Option<PreciseTimeSpan>>>, i: nat)
    requires i <= |times|
  {
    forall k :: 0 <= k < i ==> Known(times[k])
  }

  /** `All` is true exactly when every outcome is a time; it is false exactly when some
      outcome is null and every earlier one a time; it throws exactly when some getter
      throws and every earlier outcome is a time. */
  lemma {:induction false} AllSetMeaning(times: seq<Eval<Option<PreciseTimeSpan>>>)
    ensures AllSet(times) == Ok(true) <==> KnownBefore(times, |times|)
    ensures AllSet(times) == Ok(false) <==>
      exists i :: 0 <= i < |times| && times[i] == Ok(None) && KnownBefore(times, i)
    ensures AllSet(times).Throws? <==>
      exists i :: 0 <= i < |times| && times[i].Throws? && KnownBefore(times, i)
    decreases |times|
  {
    if |times| > 0 {
      var rest := times[1..];
      AllSetMeaning(rest);
      if times[0].Ok? {
        EqualityOperators(times[0].value, None, None);
      }
      forall i | 0 < i <= |times|
        ensures KnownBefore(times, i) <==> Known(times[0]) && KnownBefore(rest, i - 1)
      {
        if Known(times[0]) && KnownBefore(rest, i - 1) {
          forall k | 0 < k < i
            ensures Known(times[k])
          {
            assert times[k] == rest[k - 1];
          }
        }
      }
      if exists i :: 0 <= i < |rest| && rest[i] == Ok(None) && KnownBefore(rest, i) {
        var i :| 0 <= i < |rest| && rest[i] == Ok(None) && KnownBefore(rest, i);
        assert times[i + 1] == rest[i];
      }
      if exists i :: 0 <= i < |rest| && rest[i].Throws? && KnownBefore(rest, i) {
        var i :| 0 <= i < |rest| && rest[i].Throws? && KnownBefore(rest, i);
        assert times[i + 1] == rest[i];
      }
    }
  }

  /** `RequiredInputTimesSet` is true exactly when every chapter has an input start time. */
  lemma {:induction false} InputStartsReady(s: seq<Chapter>)
    ensures RequiredInputTimesSet(s) == Ok(true) ==> forall i :: 0 <= i < |s| ==> Known(InputStartTime(s, i))
    ensures (forall i :: 0 <= i < |s| ==> Known(InputStartTime(s, i))) ==> RequiredInputTimesSet(s) == Ok(true)
  {
    var times := Times(InputStart, s);
    AllSetMeaning(times);
    if RequiredInputTimesSet(s) == Ok(true) {
      forall i | 0 <= i < |s|
        ensures Known(InputStartTime(s, i))
      {
        assert Known(times[i]);
      }
    }
  }

  /** `RequiredOutputTimesSet` is true exactly when every chapter has an output start time. */
  lemma {:induction false} OutputStartsReady(s: seq<Chapter>)
    ensures RequiredOutputTimesSet(s) == Ok(true) ==> forall i :: 0 <= i < |s| ==> Known(OutputStartTime(s, i))
    ensures (forall i :: 0 <= i < |s| ==> Known(OutputStartTime(s, i))) ==> RequiredOutputTimesSet(s) == Ok(true)
  {
    var times := Times(OutputStart, s);
    AllSetMeaning(times);
    if RequiredOutputTimesSet(s) == Ok(true) {
      forall i | 0 <= i < |s|
        ensures Known(OutputStartTime(s, i))
      {
        assert Known(times[i]);
      }
    }
  }

  /** `AllOutputTimesSet` is true exactly when every chapter has an output end time. */
  lemma {:induction false} OutputEndsReady(s: seq<Chapter>)
    ensures AllOutputTimesSet(s) == Ok(true) ==> forall i :: 0 <= i < |s| ==> Known(OutputEndTime(s, i))
    ensures (forall i :: 0 <= i < |s| ==> Known(OutputEndTime(s, i))) ==> AllOutputTimesSet(s) == Ok(true)
  {
    var times := Times(OutputEnd, s);
    AllSetMeaning(times);
    if AllOutputTimesSet(s) == Ok(true) {
      forall i | 0 <= i < |s|
        ensures Known(OutputEndTime(s, i))
      {
        assert Known(times[i]);
      }
    }
  }

  /** Input start times are all set exactly when every chapter has a first input frame and
      a positive input frame rate, unless a conversion throws first; an empty collection is
      ready. */
  lemma RequiredInputTimesSetMeaning(s: seq<Chapter>)
    ensures RequiredInputTimesSet(s) == Ok(true) ==>
      forall i :: 0 <= i < |s| ==> s[i].inputFirstFrame >= 0 && IsPositive(InputFrameRate(s, i))
    ensures (forall i :: 0 <= i < |s| ==> s[i].inputFirstFrame >= 0 && IsPositive(InputFrameRate(s, i))) ==>
      RequiredInputTimesSet(s) != Ok(false)
    ensures |s| == 0 ==> RequiredInputTimesSet(s) == Ok(true)
  {
    var times := Times(InputStart, s);
    AllSetMeaning(times);
    if RequiredInputTimesSet(s) == Ok(true) {
      forall i | 0 <= i < |s|
        ensures s[i].inputFirstFrame >= 0 && IsPositive(InputFrameRate(s, i))
      {
        assert Known(times[i]);
      }
    }
    if RequiredInputTimesSet(s) == Ok(false) {
      var i :| 0 <= i < |times| && times[i] == Ok(None) && KnownBefore(times, i);
      assert InputStartTime(s, i) == Ok(None);
    }
  }

  /** Every output end time set implies every output start time set, because a null start
      time makes the end time null. */
  lemma AllOutputTimesSetImpliesRequired(s: seq<Chapter>)
    ensures AllOutputTimesSet(s) == Ok(true) ==> RequiredOutputTimesSet(s) == Ok(true)
  {
    var ends, starts := Times(OutputEnd, s), Times(OutputStart, s);
    AllSetMeaning(ends);
    AllSetMeaning(starts);
    if AllOutputTimesSet(s) == Ok(true) {
      forall i | 0 <= i < |s|
        ensures Known(starts[i])
      {
        assert Known(ends[i]);
        OutputEndTimeIsStartPlusDuration(s, i);
      }
    }
  }

  // ---------------------------------------------------------------------------------------
  // Reading `trim(a,b)` calls

  predicate IsDigit(c: char) {
    '0' <= c <= '9'
  }

  predicate AllDigits(d: string) {
    forall k :: 0 <= k < |d| ==> IsDigit(d[k])
  }

  /** What the group `(\d+)` captures: a non-empty run of ASCII digits. */
  type DigitRun = d: string | |d| > 0 && AllDigits(d) witness "0"

  /** The number of leading digits of t: `\d+` is greedy and the pattern continues with
      white space or punctuation, so a group takes the whole digit run. */
  function LeadingDigits(t: string): (n: nat)
    ensures n <= |t| && AllDigits(t[..n])
    ensures n == |t| || !IsDigit(t[n])
    decreases |t|
  {
    if |t| > 0 && IsDigit(t[0]) then 1 + LeadingDigits(t[1..]) else 0
  }

  /** The two captured groups of one match. */
  datatype Groups = Groups(first: DigitRun, last: DigitRun)

  /** A match and the text after it, where scanning resumes. */
  datatype TrimMatch = TrimMatch(groups: Groups, rest: string)

  /** The pattern `trim\s*\(\s*(\d+)\s*\,\s*(\d+)\s*\)` matched at the start of t. Every
      `\s*` is followed by a character that is not white space and every `\d+` by one that
      is not a digit, so the greedy reading is the only one: the match is found by scanning
      forward without backtracking. */
  function MatchAt(t: string): (r: Option<TrimMatch>)
    ensures r.Some? ==> |t| >= 4 && t[..4] == "trim"
    ensures r.Some? ==> |r.value.rest| < |t|
  {
    if !(|t| >= 4 && t[..4] == "trim") then None
    else
      var open := TrimStart(t[4..]);
      if !(|open| > 0 && open[0] == '(') then None
      else
        var first := TrimStart(open[1..]);
        var n := LeadingDigits(first);
        if n == 0 then None
        else
          var comma := TrimStart(first[n..]);
          if !(|comma| > 0 && comma[0] == ',') then None
          else
            var last := TrimStart(comma[1..]);
            var m := LeadingDigits(last);
            if m == 0 then None
            else
              var close := TrimStart(last[m..]);
              if !(|close| > 0 && close[0] == ')') then None
              else Some(TrimMatch(Groups(first[..n], last[..m]), close[1..]))
  }

  /** `Regex.Matches`: the matches from left to right; after a match the scan resumes
      behind it, otherwise one character further on. */
  function Matches(t: string): seq<Groups>
    decreases |t|
  {
    if |t| == 0 then []
    else match MatchAt(t)
      case Some(m) => [m.groups] + Matches(m.rest)
      case None => Matches(t[1..])
  }

  /** The value of a run of decimal digits, leading zeros allowed. */
  function DigitsValue(d: string): nat
    requires AllDigits(d)
    decreases |d|
  {
    if |d| == 0 then 0 else 10 * DigitsValue(d[..|d| - 1]) + (d[|d| - 1] as int - '0' as int)
  }

  /** `Int32.TryParse` on a digit run: the value when it fits in an int. */
  function TryParseInt32(d: DigitRun): Option<int32> {
    var value := DigitsValue(d);
    if value <= MaxInt32 then Some(value) else None
  }

  /** The chapter one match produces: a new chapter whose input frames are set from the
      groups that parse, the others keeping their default of -1. */
  function ChapterOfMatch(g: Groups): Chapter {
    var chapter := NewChapter();
    var first := TryParseInt32(g.first);
    var last := TryParseInt32(g.last);
    chapter.(inputFirstFrame := first.GetOr(chapter.inputFirstFrame),
             inputLastFrame := last.GetOr(chapter.inputLastFrame))
  }

  /** The chapters of a sequence of matches, in order. */
  function ChaptersOf(ms: seq<Groups>): (r: seq<Chapter>)
    ensures |r| == |ms|
  {
    if |ms| == 0 then [] else ChaptersOf(ms[..|ms| - 1]) + [ChapterOfMatch(ms[|ms| - 1])]
  }

  /** The chapters `FromAviSynthTrims` builds from a script. */
  function TrimChapters(script: string): seq<Chapter> {
    ChaptersOf(Matches(script))
  }

  /** Chapter k of the sequence is the chapter of match k. */
  lemma {:induction false} ChaptersOfAt(ms: seq<Groups>, k: nat)
    requires k < |ms|
    ensures ChaptersOf(ms)[k] == ChapterOfMatch(ms[k])
    decreases |ms|
  {
    if k < |ms| - 1 {
      ChaptersOfAt(ms[..|ms| - 1], k);
    }
  }

  /** One chapter per match, in order: its input frames are the numbers of the two groups,
      or -1 for a number that does not fit in an int; frame rates stay unset, the output
      first frame stays unset and the name empty. */
  lemma TrimChapter(script: string, k: nat)
    requires k < |Matches(script)|
    ensures |TrimChapters(script)| == |Matches(script)|
    ensures var c, m := TrimChapters(script)[k], Matches(script)[k];
      && c.inputFirstFrame == (if DigitsValue(m.first) <= MaxInt32 then DigitsValue(m.first) else -1)
      && c.inputLastFrame == (if DigitsValue(m.last) <= MaxInt32 then DigitsValue(m.last) else -1)
      && c.inputFrameRate == FractionZero && c.outputFrameRate == FractionZero
      && c.outputFirstFrame == -1 && c.name == ""
  {
    ChaptersOfAt(Matches(script), k);
  }

  /** `trim` starts at position k of t. */
  predicate TrimAt(t: string, k: nat) {
    k + 4 <= |t| && t[k..k + 4] == "trim"
  }

  /** A script without the word `trim` has no match, so it gives an empty collection. */
  lemma {:induction false} NoTrimNoMatches(t: string)
    requires forall k: nat :: !TrimAt(t, k)
    ensures Matches(t) == []
    ensures TrimChapters(t) == []
    decreases |t|
  {
    if |t| > 0 {
      assert !TrimAt(t, 0);
      forall k: nat
        ensures !TrimAt(t[1..], k)
      {
        assert !TrimAt(t, k + 1);
        if k + 4 <= |t[1..]| {
          assert t[1..][k..k + 4] == t[k + 1..k + 5];
        }
      }
      NoTrimNoMatches(t[1..]);
    }
  }

  // Decimal numerals

  function Pow10(n: nat): pos {
    if n == 0 then 1 else 10 * Pow10(n - 1)
  }

  /** A run of n digits is worth less than 10^n. */
  lemma {:induction false} DigitsValueBound(d: string)
    requires AllDigits(d)
    ensures DigitsValue(d) < Pow10(|d|)
    decreases |d|
  {
    if |d| > 0 {
      DigitsValueBound(d[..|d| - 1]);
    }
  }

  lemma {:induction false} Pow10Monotone(m: nat, n: nat)
    requires m <= n
    ensures Pow10(m) <= Pow10(n)
    decreases n
  {
    if m < n {
      Pow10Monotone(m, n - 1);
    }
  }

  /** Any run of at most nine digits parses: it is below 10^9 < Int32.MaxValue. */
  lemma ShortRunsParse(d: DigitRun)
    requires |d| <= 9
    ensures TryParseInt32(d) == Some(DigitsValue(d))
  {
    DigitsValueBound(d);
    Pow10Monotone(|d|, 9);
    assert Pow10(9) == 1_000_000_000;
  }

  function Digit(n: nat): (c: char)
    requires n < 10
    ensures IsDigit(c)
  {
    ('0' as int + n) as char
  }

  /** The decimal numeral of n, without leading zeros. */
  function DecimalDigits(n: nat): DigitRun
    decreases n
  {
    if n < 10 then [Digit(n)] else DecimalDigits(n / 10) + [Digit(n % 10)]
  }

  /** Reading back a numeral gives the number. */
  lemma {:induction false} DecimalRoundTrip(n: nat)
    ensures DigitsValue(DecimalDigits(n)) == n
    decreases n
  {
    if n >= 10 {
      DecimalRoundTrip(n / 10);
      var d := DecimalDigits(n);
      assert d[..|d| - 1] == DecimalDigits(n / 10);
    }
  }

  /** `TryParse` of a numeral for n gives n back whenever n fits in an int. */
  lemma ParsesDecimal(n: nat)
    requires n <= MaxInt32
    ensures TryParseInt32(DecimalDigits(n)) == Some(n)
  {
    DecimalRoundTrip(n);
  }

  // Matching a written-out call

  predicate AllWhiteSpace(w: string) {
    forall k :: 0 <= k < |w| ==> IsWhiteSpace(w[k])
  }

  /** The white space a call is written with at the five `\s*` of the pattern: after `trim`,
      after `(`, after the first number, after `,` and after the second number. */
  datatype Spacing = Spacing(afterName: string, afterOpen: string, afterFirst: string, afterComma: string,
                             afterLast: string)

  predicate IsSpacing(sp: Spacing) {
    && AllWhiteSpace(sp.afterName) && AllWhiteSpace(sp.afterOpen) && AllWhiteSpace(sp.afterFirst)
    && AllWhiteSpace(sp.afterComma) && AllWhiteSpace(sp.afterLast)
  }

  /** The call `trim(a,b)` with the digit runs a and b, written with the spacing sp and
      followed by the text rest. */
  function TrimCall(a: DigitRun, b: DigitRun, sp: Spacing, rest: string): string {
    "trim" + (sp.afterName + ("(" + (sp.afterOpen + (a + (sp.afterFirst + ("," + (sp.afterComma +
      (b + (sp.afterLast + (")" + rest))))))))))
  }

  /** `\s*` in front of a character that is not white space skips exactly the white space. */
  lemma {:induction false} SkipWhiteSpace(w: string, r: string)
    requires AllWhiteSpace(w)
    requires r == [] || !IsWhiteSpace(r[0])
    ensures TrimStart(w + r) == r
    decreases |w|
  {
    if |w| > 0 {
      assert (w + r)[1..] == w[1..] + r;
      SkipWhiteSpace(w[1..], r);
    } else {
      assert w + r == r;
    }
  }

  /** What `\s*` skips is white space: every text is that white space followed by the rest. */
  lemma WhiteSpacePrefix(x: string) returns (w: string)
    ensures AllWhiteSpace(w) && x == w + TrimStart(x)
  {
    TrimStartDropsWhiteSpace(x);
    w := x[..|x| - |TrimStart(x)|];
  }

  /** `\d+` in front of a character that is not a digit takes exactly the digit run. */
  lemma {:induction false} TakeDigits(d: string, r: string)
    requires AllDigits(d)
    requires r == [] || !IsDigit(r[0])
    ensures LeadingDigits(d + r) == |d|
    decreases |d|
  {
    if |d| > 0 {
      assert (d + r)[1..] == d[1..] + r;
      TakeDigits(d[1..], r);
    }
  }

  /** Scanning `\s*(\d+)\s*` over white space, a digit run, white space and a separator
      captures the run and stops at the separator. */
  lemma ScanGroup(d: DigitRun, before: string, after: string, separator: char, more: string)
    requires AllWhiteSpace(before) && AllWhiteSpace(after) && !IsWhiteSpace(separator) && !IsDigit(separator)
    ensures var x := TrimStart(before + (d + (after + ([separator] + more))));
      && LeadingDigits(x) == |d| && x[..|d|] == d
      && TrimStart(x[|d|..]) == [separator] + more
  {
    var tail := after + ([separator] + more);
    assert (d + tail)[0] == d[0];
    SkipWhiteSpace(before, d + tail);
    assert |after| > 0 ==> tail[0] == after[0];
    TakeDigits(d, tail);
    assert (d + tail)[..|d|] == d;
    assert (d + tail)[|d|..] == tail;
    SkipWhiteSpace(after, [separator] + more);
  }

  /** A written-out call is matched, with its digit runs as the groups, and the scan resumes
      right behind it. */
  lemma MatchTrimCall(a: DigitRun, b: DigitRun, sp: Spacing, rest: string)
    requires IsSpacing(sp)
    ensures MatchAt(TrimCall(a, b, sp, rest)) == Some(TrimMatch(Groups(a, b), rest))
  {
    var second := sp.afterComma + (b + (sp.afterLast + (")" + rest)));
    var first := sp.afterOpen + (a + (sp.afterFirst + ("," + second)));
    var t := TrimCall(a, b, sp, rest);
    assert t[..4] == "trim" && t[4..] == sp.afterName + ("(" + first);
    SkipWhiteSpace(sp.afterName, "(" + first);
    assert ("(" + first)[1..] == first;
    ScanGroup(a, sp.afterOpen, sp.afterFirst, ',', second);
    assert ("," + second)[1..] == second;
    ScanGroup(b, sp.afterComma, sp.afterLast, ')', rest);
    assert (")" + rest)[1..] == rest;
  }

  /** Conversely, a match is a written-out call: the text is `trim(a,b)` with the two groups
      as a and b, some white space at each `\s*`, and the rest behind it. */
  lemma MatchIsTrimCall(t: string)
    requires MatchAt(t).Some?
    ensures var m := MatchAt(t).value;
      exists sp :: IsSpacing(sp) && t == TrimCall(m.groups.first, m.groups.last, sp, m.rest)
  {
    var sp := MatchSpacing(t);
  }

  /** The white space `MatchAt` skipped. */
  lemma MatchSpacing(t: string) returns (sp: Spacing)
    requires MatchAt(t).Some?
    ensures var m := MatchAt(t).value;
      IsSpacing(sp) && t == TrimCall(m.groups.first, m.groups.last, sp, m.rest)
  {
    var m := MatchAt(t).value;
    var a, b, rest := m.groups.first, m.groups.last, m.rest;
    var open := TrimStart(t[4..]);
    var first := TrimStart(open[1..]);
    var n := LeadingDigits(first);
    var comma := TrimStart(first[n..]);
    var last := TrimStart(comma[1..]);
    var k := LeadingDigits(last);
    var close := TrimStart(last[k..]);
    var w1 := WhiteSpacePrefix(t[4..]);
    var w2 := WhiteSpacePrefix(open[1..]);
    var w3 := WhiteSpacePrefix(first[n..]);
    var w4 := WhiteSpacePrefix(comma[1..]);
    var w5 := WhiteSpacePrefix(last[k..]);
    sp := Spacing(w1, w2, w3, w4, w5);
    assert a == first[..n] && b == last[..k] && rest == close[1..];
    Reassemble(t, sp, open, first, n, comma, last, k, close);
  }

  /** The text the scan of `MatchAt` went over, put back together from its pieces. */
  lemma Reassemble(t: string, sp: Spacing, open: string, first: string, n: nat, comma: string, last: string, k: nat,
                   close: string)
    requires |t| >= 4 && t[..4] == "trim" && t[4..] == sp.afterName + open
    requires |open| > 0 && open[0] == '(' && open[1..] == sp.afterOpen + first
    requires 0 < n <= |first| && first[n..] == sp.afterFirst + comma
    requires |comma| > 0 && comma[0] == ',' && comma[1..] == sp.afterComma + last
    requires 0 < k <= |last| && last[k..] == sp.afterLast + close
    requires |close| > 0 && close[0] == ')'
    requires AllDigits(first[..n]) && AllDigits(last[..k])
    ensures t == TrimCall(first[..n], last[..k], sp, close[1..])
  {
    var a, b, rest := first[..n], last[..k], close[1..];
    assert close == ")" + rest;
    assert last == b + (sp.afterLast + (")" + rest));
    assert comma == "," + (sp.afterComma + (b + (sp.afterLast + (")" + rest))));
    assert first == a + (sp.afterFirst + comma);
    assert open == "(" + (sp.afterOpen + first);
    assert t == "trim" + (sp.afterName + open);
  }

  /** Round trip: a written-out call followed by any text yields its two digit runs first,
      then the matches of the text. */
  lemma MatchesTrimCall(a: DigitRun, b: DigitRun, sp: Spacing, rest: string)
    requires IsSpacing(sp)
    ensures Matches(TrimCall(a, b, sp, rest)) == [Groups(a, b)] + Matches(rest)
  {
    MatchTrimCall(a, b, sp, rest);
  }

  /** No match starts at a character other than `t`: the scan moves on by one. */
  lemma SkipOne(t: string)
    requires |t| > 0 && t[0] != 't'
    ensures Matches(t) == Matches(t[1..])
  {
    assert |t| >= 4 ==> t[..4][0] == t[0];
  }

  /** Text without the letter `t` in front of a script adds no match. */
  lemma {:induction false} SkipText(p: string, t: string)
    requires forall k :: 0 <= k < |p| ==> p[k] != 't'
    ensures Matches(p + t) == Matches(t)
    decreases |p|
  {
    if |p| > 0 {
      SkipOne(p + t);
      assert (p + t)[1..] == p[1..] + t;
      SkipText(p[1..], t);
    } else {
      assert p + t == t;
    }
  }

  /** A call followed by text without a `t` and then the rest of the script: the call's
      match comes first, then the matches of the rest. */
  lemma CallThenText(a: DigitRun, b: DigitRun, sp: Spacing, between: string, rest: string)
    requires IsSpacing(sp)
    requires forall k :: 0 <= k < |between| ==> between[k] != 't'
    ensures Matches(TrimCall(a, b, sp, between + rest)) == [Groups(a, b)] + Matches(rest)
  {
    MatchesTrimCall(a, b, sp, between + rest);
    SkipText(between, rest);
  }

  /** A last call, followed only by text without a `t`, is the only match. */
  lemma LastCall(c: DigitRun, d: DigitRun, sp: Spacing, tail: string)
    requires IsSpacing(sp)
    requires forall k :: 0 <= k < |tail| ==> tail[k] != 't'
    ensures Matches(TrimCall(c, d, sp, tail)) == [Groups(c, d)]
  {
    SkipText(tail, []);
    assert tail + [] == tail;
    MatchesTrimCall(c, d, sp, tail);
  }

  /** Two calls, each with its own spacing, with text between and after them that has no
      `t` in it, such as `trim(10,20) x trim (30, 40)`, are both matched, in order ... */
  lemma TwoTrimMatches(a: DigitRun, b: DigitRun, c: DigitRun, d: DigitRun, sp1: Spacing, sp2: Spacing,
                       between: string, tail: string)
    requires IsSpacing(sp1) && IsSpacing(sp2)
    requires forall k :: 0 <= k < |between| ==> between[k] != 't'
    requires forall k :: 0 <= k < |tail| ==> tail[k] != 't'
    ensures Matches(TrimCall(a, b, sp1, between + TrimCall(c, d, sp2, tail))) == [Groups(a, b)] + [Groups(c, d)]
  {
    CallThenText(a, b, sp1, between, TrimCall(c, d, sp2, tail));
    LastCall(c, d, sp2, tail);
  }

  /** ... and give two chapters whose input frames are the four numbers, or -1 for a number
      that does not fit in an int. */
  lemma {:induction false} TwoTrimCalls(a: DigitRun, b: DigitRun, c: DigitRun, d: DigitRun, sp1: Spacing, sp2: Spacing,
                     between: string, tail: string)
    requires IsSpacing(sp1) && IsSpacing(sp2)
    requires forall k :: 0 <= k < |between| ==> between[k] != 't'
    requires forall k :: 0 <= k < |tail| ==> tail[k] != 't'
    ensures var chapters := TrimChapters(TrimCall(a, b, sp1, between + TrimCall(c, d, sp2, tail)));
      && |chapters| == 2
      && chapters[0].inputFirstFrame == (if DigitsValue(a) <= MaxInt32 then DigitsValue(a) else -1)
      && chapters[0].inputLastFrame == (if DigitsValue(b) <= MaxInt32 then DigitsValue(b) else -1)
      && chapters[1].inputFirstFrame == (if DigitsValue(c) <= MaxInt32 then DigitsValue(c) else -1)
      && chapters[1].inputLastFrame == (if DigitsValue(d) <= MaxInt32 then DigitsValue(d) else -1)
  {
    var script := TrimCall(a, b, sp1, between + TrimCall(c, d, sp2, tail));
    TwoTrimMatches(a, b, c, d, sp1, sp2, between, tail);
    assert Matches(script)[0] == Groups(a, b) && Matches(script)[1] == Groups(c, d);
    TrimChapter(script, 0);
    TrimChapter(script, 1);
  }

  // ---------------------------------------------------------------------------------------
  // The collection object

  /** The chapter list. `Add` and the setters change it in place; the chapters are values,
      and a setter replaces the chapter at its position. */
  class ChapterCollection {
    var chapters: seq<Chapter>

    /** An empty collection. */
    constructor ()
      ensures chapters == []
    {
      chapters := [];
    }

    /** `Add(chapter)`, inherited from the list: appends one chapter. */
    method Append(chapter: Chapter)
      modifies this
      ensures chapters == old(chapters) + [chapter]
    {
      chapters := chapters + [chapter];
    }

    /** `Add()`: appends one new, empty chapter. */
    method Add()
      modifies this
      ensures chapters == old(chapters) + [NewChapter()]
    {
      Append(NewChapter());
    }

    /** The `InputFrameRate` setter of chapter i. */
    method SetInputFrameRate(i: nat, value: Fraction)
      requires i < |chapters|
      modifies this
      ensures chapters == old(chapters)[i := old(chapters)[i].(inputFrameRate := value)]
    {
      chapters := chapters[i := chapters[i].(inputFrameRate := value)];
    }

    /** The `OutputFrameRate` setter of chapter i. */
    method SetOutputFrameRate(i: nat, value: Fraction)
      requires i < |chapters|
      modifies this
      ensures chapters == old(chapters)[i := old(chapters)[i].(outputFrameRate := value)]
    {
      chapters := chapters[i := chapters[i].(outputFrameRate := value)];
    }

    /** The `InputFirstFrame` setter of chapter i. */
    method SetInputFirstFrame(i: nat, value: int32)
      requires i < |chapters|
      modifies this
      ensures chapters == old(chapters)[i := old(chapters)[i].(inputFirstFrame := value)]
    {
      chapters := chapters[i := chapters[i].(inputFirstFrame := value)];
    }

    /** The `InputLastFrame` setter of chapter i. */
    method SetInputLastFrame(i: nat, value: int32)
      requires i < |chapters|
      modifies this
      ensures chapters == old(chapters)[i := old(chapters)[i].(inputLastFrame := value)]
    {
      chapters := chapters[i := chapters[i].(inputLastFrame := value)];
    }

    /** The `OutputFirstFrame` setter of chapter i. */
    method SetOutputFirstFrame(i: nat, value: int32)
      requires i < |chapters|
      modifies this
      ensures chapters == old(chapters)[i := old(chapters)[i].(outputFirstFrame := value)]
    {
      chapters := chapters[i := chapters[i].(outputFirstFrame := value)];
    }

    /** The `Name` setter of chapter i, which stores the value without surrounding white space. */
    method SetName(i: nat, value: string)
      requires i < |chapters|
      modifies this
      ensures chapters == old(chapters)[i := old(chapters)[i].(name := Trim(value))]
    {
      chapters := chapters[i := chapters[i].(name := Trim(value))];
    }

    /** `FromAviSynthTrims`: a new collection with one chapter per `trim(a,b)` match. */
    static method FromAviSynthTrims(script: string) returns (collection: ChapterCollection)
      ensures fresh(collection)
      ensures collection.chapters == TrimChapters(script)
    {
      collection := new ChapterCollection();
      var matches := Matches(script);
      var k := 0;
      while k < |matches|
        invariant 0 <= k <= |matches|
        invariant collection.chapters == ChaptersOf(matches[..k])
      {
        var chapter := NewChapter();
        var inputFirstFrame := TryParseInt32(matches[k].first);
        if inputFirstFrame.Some? {
          chapter := chapter.(inputFirstFrame := inputFirstFrame.value);
        }
        var inputLastFrame := TryParseInt32(matches[k].last);
        if inputLastFrame.Some? {
          chapter := chapter.(inputLastFrame := inputLastFrame.value);
        }
        collection.Append(chapter);
        assert matches[..k + 1][..k] == matches[..k];
        k := k + 1;
      }
      assert matches[..k] == matches;
    }
  }

  // ---------------------------------------------------------------------------------------
  // What appending and the setters leave alone

  /** Appending a new chapter changes no getter of the chapters already there: the last of
      them now has a next chapter, but one without an output first frame. */
  lemma AddKeepsGetters(s: seq<Chapter>, i: nat)
    requires i < |s|
    ensures SameGetters(s, s + [NewChapter()], i)
  {
    var t := s + [NewChapter()];
    assert t[..|s|] == s[..|s|];
    GettersAreLocal(s, t, |s|, i);
  }

  /** Replacing chapter j changes no getter of the chapters before j - 1, nor of chapter
      j - 1 when the replacement keeps the output-first-frame override of chapter j. */
  lemma UpdateKeepsEarlierGetters(s: seq<Chapter>, j: nat, c: Chapter, i: nat)
    requires j < |s| && i < j
    requires i + 1 < j || OverrideAt(s, j) == OverrideAt(s[j := c], j)
    ensures SameGetters(s, s[j := c], i)
  {
    var t := s[j := c];
    if OverrideAt(s, j) == OverrideAt(t, j) {
      assert s[..j] == t[..j];
      GettersAreLocal(s, t, j, i);
    } else {
      assert s[..j - 1] == t[..j - 1];
      GettersAreLocal(s, t, j - 1, i);
    }
  }
}
