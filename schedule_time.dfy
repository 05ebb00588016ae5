/**
 * The schedule time resolver of utils.ts: `formatTime` and `getSectionTimeRange`, which
 * turn a 1-based section index and a span of sections into `HH:MM` wall-clock times.
 * All times are whole minutes since midnight.
 */
module ScheduleTime {
  import opened Wrappers
  import opened Text
  import opened Types

  /** The break after section `i`: `specificBreaks?.[i]` unless it is undefined, else `breakDuration`. */
  function EffBreak(s: ScheduleSettings, i: int): int {
    if i in s.specificBreaks then s.specificBreaks[i] else s.breakDuration
  }

  /** The sum of the breaks after sections `from .. to - 1`. */
  function BreaksBetween(s: ScheduleSettings, from: int, to: int): int
    decreases to - from
  {
    if to <= from then 0 else BreaksBetween(s, from, to - 1) + EffBreak(s, to - 1)
  }

  function DayStart(s: ScheduleSettings): int {
    s.startHour * 60 + s.startMinute
  }

  /**
   * Start of section `n` in minutes:
   * `startHour*60 + startMinute + (n-1)*classDuration + sum of the breaks after sections 1..n-1`.
   */
  function SectionStart(s: ScheduleSettings, n: int): int {
    DayStart(s) + (if n > 1 then (n - 1) * s.classDuration else 0) + BreaksBetween(s, 1, n)
  }

  /** Length of a block of `count` sections from `n`: the classes and the breaks inside the block. */
  function BlockLength(s: ScheduleSettings, n: int, count: int): int {
    if count <= 0 then 0 else count * s.classDuration + BreaksBetween(s, n, n + count - 1)
  }

  function SectionEnd(s: ScheduleSettings, n: int, count: int): int {
    SectionStart(s, n) + BlockLength(s, n, count)
  }

  /** JavaScript's `a % b` for `b > 0`: the sign follows the dividend (truncating division). */
  function JsRem(a: int, b: int): (r: int)
    requires b > 0
    ensures a >= 0 ==> 0 <= r < b && r == a % b
    ensures a < 0 ==> -b < r <= 0
  {
    if a >= 0 then a % b else -((-a) % b)
  }

  /** utils.ts `formatTime`: hour mod 24 and minute mod 60, each padded to two characters. */
  function FormatTime(hour: int, minute: int): string {
    Pad2(IntToString(JsRem(hour, 24))) + ":" + Pad2(IntToString(JsRem(minute, 60)))
  }

  /** How `getSectionTimeRange` renders a minute count: `formatTime(floor(t / 60), t % 60)`. */
  function ClockText(t: int): string {
    FormatTime(t / 60, JsRem(t, 60))
  }

  /**
   * utils.ts `getSectionTimeRange`: the first loop walks sections 1 .. section-1 adding a
   * class and the break after it; the second adds `count` classes and the breaks between
   * them (not the break after the last one).
   */
  method GetSectionTimeRange(section: int, count: int, settings: ScheduleSettings)
    returns (start: string, end: string)
    ensures start == ClockText(SectionStart(settings, section))
    ensures end == ClockText(SectionEnd(settings, section, count))
  {
    var startMinutes := StartMinutes(section, settings);
    var durationMinutes := DurationMinutes(section, count, settings);
    var endMinutes := startMinutes + durationMinutes;

    start := ClockText(startMinutes);
    end := ClockText(endMinutes);
  }

  /** The first loop: a class and the break after it for each section before `section`. */
  method StartMinutes(section: int, settings: ScheduleSettings) returns (currentMinutes: int)
    ensures currentMinutes == SectionStart(settings, section)
  {
    currentMinutes := settings.startHour * 60 + settings.startMinute;
    var i := 1;
    while i < section
      invariant 1 <= i <= if section >= 1 then section else 1
      invariant currentMinutes == SectionStart(settings, i)
    {
      StartStep(settings, i);
      currentMinutes := currentMinutes + settings.classDuration;
      var breakTime := if i in settings.specificBreaks then settings.specificBreaks[i] else settings.breakDuration;
      currentMinutes := currentMinutes + breakTime;
      i := i + 1;
    }
  }

  /** The second loop: `count` classes and the breaks between them, not the one after the last. */
  method DurationMinutes(section: int, count: int, settings: ScheduleSettings) returns (durationMinutes: int)
    ensures durationMinutes == BlockLength(settings, section, count)
  {
    durationMinutes := 0;
    var j := 0;
    while j < count
      invariant 0 <= j <= if count >= 0 then count else 0
      invariant durationMinutes == PartialBlock(settings, section, count, j)
    {
      PartialBlockStep(settings, section, count, j);
      durationMinutes := durationMinutes + settings.classDuration;
      if j < count - 1 {
        var currentSectionIndex := section + j;
        var breakTime := if currentSectionIndex in settings.specificBreaks
          then settings.specificBreaks[currentSectionIndex] else settings.breakDuration;
        durationMinutes := durationMinutes + breakTime;
      }
      j := j + 1;
    }
  }

  /** What the second loop has accumulated after `j` of the `count` sections. */
  function PartialBlock(s: ScheduleSettings, n: int, count: int, j: int): int {
    j * s.classDuration + BreaksBetween(s, n, n + (if j < count - 1 then j else count - 1))
  }

  lemma StartStep(s: ScheduleSettings, i: int)
    requires i >= 1
    ensures SectionStart(s, i + 1) == SectionStart(s, i) + s.classDuration + EffBreak(s, i)
  {
    assert i * s.classDuration == (i - 1) * s.classDuration + s.classDuration;
  }

  lemma PartialBlockStep(s: ScheduleSettings, n: int, count: int, j: int)
    requires 0 <= j < count
    ensures PartialBlock(s, n, count, j + 1)
         == PartialBlock(s, n, count, j) + s.classDuration + (if j < count - 1 then EffBreak(s, n + j) else 0)
    ensures j + 1 == count ==> PartialBlock(s, n, count, j + 1) == BlockLength(s, n, count)
  {
    assert (j + 1) * s.classDuration == j * s.classDuration + s.classDuration;
  }

  // ---------- the resolver's arithmetic ----------

  /** Breaks over `a..b` and `b..c` add up to the breaks over `a..c`. */
  lemma {:induction false} BreaksSplit(s: ScheduleSettings, a: int, b: int, c: int)
    requires a <= b <= c
    ensures BreaksBetween(s, a, c) == BreaksBetween(s, a, b) + BreaksBetween(s, b, c)
    decreases c - b
  {
    if b < c {
      BreaksSplit(s, a, b, c - 1);
    }
  }

  /** Section 1 starts exactly at the configured start, whatever the breaks. */
  lemma FirstSectionStart(s: ScheduleSettings)
    ensures SectionStart(s, 1) == s.startHour * 60 + s.startMinute
    ensures SectionEnd(s, 1, 1) == s.startHour * 60 + s.startMinute + s.classDuration
  {
  }

  /** Consecutive single sections are separated by exactly the effective break. */
  lemma NextSectionStart(s: ScheduleSettings, n: int)
    requires n >= 1
    ensures SectionStart(s, n + 1) == SectionEnd(s, n, 1) + EffBreak(s, n)
  {
  }

  /** A block of `k` sections ends where its last section, taken alone, ends. */
  lemma BlockEndsWithLastSection(s: ScheduleSettings, n: int, k: int)
    requires n >= 1 && k >= 1
    ensures SectionEnd(s, n, k) == SectionEnd(s, n + k - 1, 1)
  {
    BreaksSplit(s, 1, n, n + k - 1);
    assert (n + k - 2) * s.classDuration == (n - 1) * s.classDuration + (k - 1) * s.classDuration;
  }

  /** Breaks that agree below `n` give the same sum up to `n`. */
  lemma {:induction false} BreaksAgree(s: ScheduleSettings, t: ScheduleSettings, from: int, n: int)
    requires forall i :: from <= i < n ==> EffBreak(s, i) == EffBreak(t, i)
    ensures BreaksBetween(s, from, n) == BreaksBetween(t, from, n)
    decreases n - from
  {
    if from < n {
      BreaksAgree(s, t, from, n - 1);
    }
  }

  /**
   * Locality of a break override: setting `specificBreaks[k]` leaves sections 1..k where
   * they were and moves every later section by the change of the break after `k`.
   */
  lemma OverrideLocality(s: ScheduleSettings, k: int, v: int, n: int)
    requires k >= 1
    ensures n <= k ==> SectionStart(s.(specificBreaks := s.specificBreaks[k := v]), n) == SectionStart(s, n)
    ensures n > k ==> SectionStart(s.(specificBreaks := s.specificBreaks[k := v]), n)
                      == SectionStart(s, n) + v - EffBreak(s, k)
  {
    var t := s.(specificBreaks := s.specificBreaks[k := v]);
    if n <= k {
      BreaksAgree(s, t, 1, n);
    } else {
      BreaksSplit(s, 1, k, n);
      BreaksSplit(t, 1, k, n);
      BreaksAgree(s, t, 1, k);
      BreaksSplit(s, k, k + 1, n);
      BreaksSplit(t, k, k + 1, n);
      BreaksAgree(s, t, k + 1, n);
    }
  }

  // ---------- formatTime ----------

  /** `start.split(':')`. */
  function SplitColon(s: string): (parts: seq<string>)
    ensures |parts| >= 1
  {
    if s == [] then [""]
    else
      var init := SplitColon(s[..|s| - 1]);
      var c := s[|s| - 1];
      if c == ':' then init + [""] else init[..|init| - 1] + [init[|init| - 1] + [c]]
  }

  /** `const [h, m] = t.split(':').map(Number)`; `None` when either part is NaN or missing. */
  function ParseClock(t: string): (r: Option<(int, int)>)
  {
    var parts := SplitColon(t);
    if |parts| < 2 then None
    else match (ParseInt(parts[0]), ParseInt(parts[1]))
      case (Some(h), Some(m)) => Some((h, m))
      case _ => None
  }

  lemma {:induction false} SplitNoColon(a: string)
    requires ':' !in a
    ensures SplitColon(a) == [a]
  {
    if a != [] {
      SplitNoColon(a[..|a| - 1]);
      assert a[..|a| - 1] + [a[|a| - 1]] == a;
    }
  }

  lemma {:induction false} SplitOneColon(a: string, b: string)
    requires ':' !in a && ':' !in b
    ensures SplitColon(a + ":" + b) == [a, b]
    decreases |b|
  {
    if b == [] {
      SplitNoColon(a);
      assert (a + ":" + b)[..|a|] == a;
    } else {
      var b' := b[..|b| - 1];
      SplitOneColon(a, b');
      assert (a + ":" + b)[..|a + ":" + b| - 1] == a + ":" + b';
      assert b' + [b[|b| - 1]] == b;
    }
  }

  lemma RenderedFieldHasNoColon(x: int)
    ensures ':' !in Pad2(IntToString(x))
  {
    var s := IntToString(x);
    if x < 0 {
      assert s == "-" + NatToString(-x);
    }
    assert forall i :: 0 <= i < |s| ==> s[i] != ':';
  }

  /** Reading back what `formatTime` wrote gives the hour mod 24 and the minute mod 60. */
  lemma FormatTimeRoundTrip(hour: int, minute: int)
    ensures ParseClock(FormatTime(hour, minute)) == Some((JsRem(hour, 24), JsRem(minute, 60)))
  {
    var h, m := Pad2(IntToString(JsRem(hour, 24))), Pad2(IntToString(JsRem(minute, 60)));
    RenderedFieldHasNoColon(JsRem(hour, 24));
    RenderedFieldHasNoColon(JsRem(minute, 60));
    SplitOneColon(h, m);
    PaddedIntRoundTrip(JsRem(hour, 24));
    PaddedIntRoundTrip(JsRem(minute, 60));
  }

  lemma PaddedDigits(x: int)
    requires 0 <= x < 100
    ensures |Pad2(IntToString(x))| == 2 && AllDigits(Pad2(IntToString(x)))
  {
    var s := NatToString(x);
    if x >= 10 {
      assert s == NatToString(x / 10) + [DigitChar(x % 10)];
    }
  }

  /** For non-negative input `formatTime` yields five characters `HH:MM`. */
  lemma FormatTimeShape(hour: int, minute: int)
    requires hour >= 0 && minute >= 0
    ensures |FormatTime(hour, minute)| == 5 && FormatTime(hour, minute)[2] == ':'
    ensures AllDigits(FormatTime(hour, minute)[..2]) && AllDigits(FormatTime(hour, minute)[3..])
    ensures ParseClock(FormatTime(hour, minute)) == Some((hour % 24, minute % 60))
  {
    var h, m := Pad2(IntToString(hour % 24)), Pad2(IntToString(minute % 60));
    PaddedDigits(hour % 24);
    PaddedDigits(minute % 60);
    assert FormatTime(hour, minute) == h + ":" + m;
    assert FormatTime(hour, minute)[..2] == h;
    assert FormatTime(hour, minute)[3..] == m;
    FormatTimeRoundTrip(hour, minute);
  }

  /** Classes from 08:00, 45 minutes each, 10-minute breaks, a 20-minute break after section 2, 12 sections. */
  const ExampleSettings := ScheduleSettings(8, 0, 45, 10, 12, map[2 := 20])

  /** A number below 100 renders, padded, as its tens digit and its units digit. */
  lemma TwoDigitText(x: int)
    requires 0 <= x < 100
    ensures Pad2(IntToString(x)) == [DigitChar(x / 10), DigitChar(x % 10)]
  {
    var t := Pad2(IntToString(x));
    var q, r := x / 10, x % 10;
    if x < 10 {
      assert q == 0 && r == x;
      assert IntToString(x) == [DigitChar(x)];
      assert t[1..] == [DigitChar(x)] && t[0] == '0';
    } else {
      assert 1 <= q < 10;
      assert NatToString(q) == [DigitChar(q)];
      assert IntToString(x) == [DigitChar(q), DigitChar(r)];
    }
    assert |t| == 2 && t[0] == DigitChar(q) && t[1] == DigitChar(r);
  }

  /** A minute count within the day renders as two hour digits, a colon and two minute digits. */
  lemma ClockDigits(t: int)
    requires 0 <= t < 1440
    ensures ClockText(t) == [DigitChar(t / 60 / 10), DigitChar(t / 60 % 10), ':',
                             DigitChar(t % 60 / 10), DigitChar(t % 60 % 10)]
  {
    assert JsRem(t / 60, 24) == t / 60 && JsRem(JsRem(t, 60), 60) == t % 60;
    TwoDigitText(t / 60);
    TwoDigitText(t % 60);
  }

  /** Section 3 for two sections runs 10:00 - 11:40 under the example settings. */
  lemma ExampleRange()
    ensures SectionStart(ExampleSettings, 3) == 600 && SectionEnd(ExampleSettings, 3, 2) == 700
    ensures ClockText(SectionStart(ExampleSettings, 3)) == "10:00"
    ensures ClockText(SectionEnd(ExampleSettings, 3, 2)) == "11:40"
  {
    ExampleMinutes();
    ClockDigits(600);
    ClockDigits(700);
  }

  lemma ExampleMinutes()
    ensures SectionStart(ExampleSettings, 3) == 600 && SectionEnd(ExampleSettings, 3, 2) == 700
  {
    var s := ExampleSettings;
    assert BreaksBetween(s, 1, 3) == 30 by {
      assert BreaksBetween(s, 1, 2) == 10;
    }
    assert BreaksBetween(s, 3, 4) == 10;
  }
}
