/**
 * Gregorian calendar dates as the views see them through JavaScript's `Date`:
 * `getFullYear()`, `getMonth()` (0-based) and `getDate()` (1-based), the normalising
 * constructor `new Date(y, m, d)`, `setDate` overflow, and the helpers of utils.ts
 * `formatDate`, `getDaysInMonth` and `getDayDiff`.
 *
 * Time zone: local time is taken to be UTC, so `new Date('YYYY-MM-DD')` (UTC midnight)
 * and the local calendar fields agree; `DayNumber` counts days since 1970-01-01.
 */
module Calendar {
  import opened Wrappers
  import opened Text

  /** A calendar date; `month` is 0-based as `getMonth()` returns it. */
  datatype Date = Date(year: int, month: int, day: int)

  predicate IsLeapYear(y: int) {
    (y % 4 == 0 && y % 100 != 0) || y % 400 == 0
  }

  function YearLength(y: int): int {
    if IsLeapYear(y) then 366 else 365
  }

  function MonthLength(y: int, m: int): (n: int)
    requires 0 <= m < 12
    ensures 28 <= n <= 31
  {
    if m == 1 then (if IsLeapYear(y) then 29 else 28)
    else if m == 3 || m == 5 || m == 8 || m == 10 then 30
    else 31
  }

  predicate Valid(d: Date) {
    0 <= d.month < 12 && 1 <= d.day <= MonthLength(d.year, d.month)
  }

  /** Days from 0000-01-01 to January 1st of year `y` (proleptic Gregorian calendar). */
  function YearStart(y: int): int {
    365 * y + (y + 3) / 4 - (y + 99) / 100 + (y + 399) / 400
  }

  /** Days from January 1st to the first day of month `m` (0..12) of year `y`. */
  function MonthStart(y: int, m: int): int
    requires 0 <= m <= 12
  {
    var leap := if m >= 2 && IsLeapYear(y) then 1 else 0;
    leap +
    (if m == 0 then 0 else if m == 1 then 31 else if m == 2 then 59 else if m == 3 then 90
     else if m == 4 then 120 else if m == 5 then 151 else if m == 6 then 181
     else if m == 7 then 212 else if m == 8 then 243 else if m == 9 then 273
     else if m == 10 then 304 else if m == 11 then 334 else 365)
  }

  /** Days since 1970-01-01 (the day `getTime()` of its UTC midnight divided by 86400000). */
  function DayNumber(d: Date): int
    requires Valid(d)
  {
    YearStart(d.year) - YearStart(1970) + MonthStart(d.year, d.month) + d.day - 1
  }

  /** `getDay()`: 0 for Sunday .. 6 for Saturday; 1970-01-01 was a Thursday. */
  function Weekday(d: Date): (w: int)
    requires Valid(d)
    ensures 0 <= w < 7
  {
    (DayNumber(d) + 4) % 7
  }

  /** The weekday numbering of courses, `getDay() || 7`: Monday 1 .. Sunday 7. */
  function IsoWeekday(d: Date): (w: int)
    requires Valid(d)
    ensures 1 <= w <= 7 && w % 7 == Weekday(d)
  {
    if Weekday(d) == 0 then 7 else Weekday(d)
  }

  lemma YearStartStep(y: int)
    ensures YearStart(y + 1) == YearStart(y) + YearLength(y)
  {
    QuarterStep(y);
    CenturyStep(y);
    QuadricentennialStep(y);
    var a, b, c := (y + 4) / 4 - (y + 3) / 4, (y + 100) / 100 - (y + 99) / 100, (y + 400) / 400 - (y + 399) / 400;
    assert YearStart(y + 1) == YearStart(y) + 365 + a - b + c;
  }

  lemma QuarterStep(y: int)
    ensures (y + 4) / 4 - (y + 3) / 4 == if y % 4 == 0 then 1 else 0
  {
    var q, r := y / 4, y % 4;
    assert y == 4 * q + r && 0 <= r < 4;
    assert (y + 4) / 4 == q + 1;
    assert (y + 3) / 4 == if r == 0 then q else q + 1;
  }

  lemma CenturyStep(y: int)
    ensures (y + 100) / 100 - (y + 99) / 100 == if y % 100 == 0 then 1 else 0
    ensures y % 100 == 0 ==> y % 4 == 0
  {
    var q, r := y / 100, y % 100;
    assert y == 100 * q + r && 0 <= r < 100;
    assert (y + 100) / 100 == q + 1 && (y + 99) / 100 == if r == 0 then q else q + 1 by {
      assert (y + 100) / 100 == q + 1;
      assert (y + 99) / 100 == if r == 0 then q else q + 1;
    }
    if r == 0 {
      MultipleOf4(25 * q);
    }
  }

  lemma QuadricentennialStep(y: int)
    ensures (y + 400) / 400 - (y + 399) / 400 == if y % 400 == 0 then 1 else 0
    ensures y % 400 == 0 ==> y % 100 == 0
  {
    var q, r := y / 400, y % 400;
    assert y == 400 * q + r && 0 <= r < 400;
    assert (y + 400) / 400 == q + 1 && (y + 399) / 400 == if r == 0 then q else q + 1 by {
      assert (y + 400) / 400 == q + 1;
      assert (y + 399) / 400 == if r == 0 then q else q + 1;
    }
    if r == 0 {
      MultipleOf100(4 * q);
    }
  }

  lemma MultipleOf4(k: int)
    ensures (4 * k) % 4 == 0
  {
  }

  lemma MultipleOf100(k: int)
    ensures (100 * k) % 100 == 0
  {
  }

  lemma MonthStartStep(y: int, m: int)
    requires 0 <= m < 12
    ensures MonthStart(y, m + 1) == MonthStart(y, m) + MonthLength(y, m)
    ensures MonthStart(y, 0) == 0 && MonthStart(y, 12) == YearLength(y)
  {
  }

  lemma {:induction false} MonthStartMonotone(y: int, i: int, j: int)
    requires 0 <= i <= j <= 12
    ensures MonthStart(y, i) <= MonthStart(y, j)
    decreases j - i
  {
    if i < j {
      MonthStartStep(y, i);
      MonthStartMonotone(y, i + 1, j);
    }
  }

  lemma {:induction false} YearStartMonotone(a: int, b: int)
    requires a < b
    ensures YearStart(a) + YearLength(a) <= YearStart(b)
    decreases b - a
  {
    YearStartStep(a);
    if a + 1 < b {
      YearStartMonotone(a + 1, b);
    }
  }

  /** The day of the year lies within the year. */
  lemma DayOfYearBounds(d: Date)
    requires Valid(d)
    ensures 0 <= MonthStart(d.year, d.month) + d.day - 1 < YearLength(d.year)
  {
    MonthStartStep(d.year, d.month);
    MonthStartMonotone(d.year, d.month + 1, 12);
  }

  /** Distinct valid dates have distinct day numbers. */
  lemma DayNumberInjective(a: Date, b: Date)
    requires Valid(a) && Valid(b)
    requires DayNumber(a) == DayNumber(b)
    ensures a == b
  {
    DayOfYearBounds(a);
    DayOfYearBounds(b);
    if a.year < b.year {
      YearStartMonotone(a.year, b.year);
      assert false;
    } else if b.year < a.year {
      YearStartMonotone(b.year, a.year);
      assert false;
    }
    var y := a.year;
    if a.month < b.month {
      MonthStartStep(y, a.month);
      MonthStartMonotone(y, a.month + 1, b.month);
      assert false;
    } else if b.month < a.month {
      MonthStartStep(y, b.month);
      MonthStartMonotone(y, b.month + 1, a.month);
      assert false;
    }
  }

  /** The date one day later (`setDate(getDate() + 1)`). */
  function NextDay(d: Date): (r: Date)
    requires Valid(d)
    ensures Valid(r) && DayNumber(r) == DayNumber(d) + 1
  {
    MonthStartStep(d.year, d.month);
    if d.day < MonthLength(d.year, d.month) then Date(d.year, d.month, d.day + 1)
    else if d.month < 11 then Date(d.year, d.month + 1, 1)
    else
      YearStartStep(d.year);
      Date(d.year + 1, 0, 1)
  }

  /** The date one day earlier (`setDate(getDate() - 1)`). */
  function PrevDay(d: Date): (r: Date)
    requires Valid(d)
    ensures Valid(r) && DayNumber(r) == DayNumber(d) - 1
  {
    if d.day > 1 then Date(d.year, d.month, d.day - 1)
    else if d.month > 0 then
      MonthStartStep(d.year, d.month - 1);
      Date(d.year, d.month - 1, MonthLength(d.year, d.month - 1))
    else
      YearStartStep(d.year - 1);
      MonthStartStep(d.year - 1, 11);
      Date(d.year - 1, 11, 31)
  }

  /** `setDate(getDate() + k)`: JavaScript carries day overflow into months and years. */
  function AddDays(d: Date, k: int): (r: Date)
    requires Valid(d)
    ensures Valid(r) && DayNumber(r) == DayNumber(d) + k
    decreases if k < 0 then -k else k
  {
    if k == 0 then d
    else if k > 0 then AddDays(NextDay(d), k - 1)
    else AddDays(PrevDay(d), k + 1)
  }

  /** The year `new Date(y, m, d)` uses: two-digit years mean 1900..1999. */
  function FullYear(y: int): int {
    if 0 <= y <= 99 then 1900 + y else y
  }

  /** `new Date(y, m, d)`: month and day overflow normalised as JavaScript does. */
  function MakeDate(y: int, m: int, d: int): (r: Date)
    ensures Valid(r)
    ensures 0 <= m < 12 && 1 <= d <= MonthLength(FullYear(y), m) ==> r == Date(FullYear(y), m, d)
  {
    var year := FullYear(y);
    var first := Date(year + m / 12, m % 12, 1);
    var r := AddDays(first, d - 1);
    assert 0 <= m < 12 && 1 <= d <= MonthLength(year, m) ==> r == Date(year, m, d) by {
      if 0 <= m < 12 && 1 <= d <= MonthLength(year, m) {
        MonthInYear(m);
        DaysIntoMonth(year, m, d);
      }
    }
    r
  }

  lemma MonthInYear(m: int)
    requires 0 <= m < 12
    ensures m / 12 == 0 && m % 12 == m
  {
  }

  /** Counting `d - 1` days on from the first of a month reaches day `d` of it. */
  lemma DaysIntoMonth(y: int, m: int, d: int)
    requires 0 <= m < 12 && 1 <= d <= MonthLength(y, m)
    ensures AddDays(Date(y, m, 1), d - 1) == Date(y, m, d)
  {
    DayNumberInjective(AddDays(Date(y, m, 1), d - 1), Date(y, m, d));
  }

  /** utils.ts `formatDate`: `YYYY-MM-DD` with month and day padded to two digits. */
  function FormatDate(d: Date): string {
    IntToString(d.year) + "-" + Pad2(IntToString(d.month + 1)) + "-" + Pad2(IntToString(d.day))
  }

  /** `new Date(s)` on a `YYYY-MM-DD` string; `None` is an Invalid Date. */
  function ParseIsoDate(s: string): (r: Option<Date>)
    ensures r.Some? ==> Valid(r.value)
  {
    if |s| == 10 && s[4] == '-' && s[7] == '-'
       && AllDigits(s[..4]) && AllDigits(s[5..7]) && AllDigits(s[8..])
    then
      var d := Date(DigitsValue(s[..4]), DigitsValue(s[5..7]) - 1, DigitsValue(s[8..]));
      if Valid(d) then Some(d) else None
    else None
  }

  /** utils.ts `getDayDiff`: whole days between two ISO dates; `None` is NaN. */
  function GetDayDiff(s1: string, s2: string): (r: Option<nat>)
    ensures r.Some? <==> ParseIsoDate(s1).Some? && ParseIsoDate(s2).Some?
  {
    match (ParseIsoDate(s1), ParseIsoDate(s2))
    case (Some(d1), Some(d2)) =>
      var diff := DayNumber(d2) - DayNumber(d1);
      Some(if diff < 0 then -diff else diff)
    case _ => None
  }

  /** The day difference is symmetric, and zero exactly for the same date. */
  lemma DayDiffProperties(s1: string, s2: string)
    ensures GetDayDiff(s1, s2) == GetDayDiff(s2, s1)
    ensures GetDayDiff(s1, s2) == Some(0) <==> ParseIsoDate(s1).Some? && ParseIsoDate(s1) == ParseIsoDate(s2)
  {
    var p1, p2 := ParseIsoDate(s1), ParseIsoDate(s2);
    if p1.Some? && p2.Some? && DayNumber(p1.value) == DayNumber(p2.value) {
      DayNumberInjective(p1.value, p2.value);
    }
  }

  lemma FourDigits(n: nat)
    requires 1000 <= n <= 9999
    ensures |NatToString(n)| == 4
  {
    var a := n / 10;
    var b := a / 10;
    var c := b / 10;
    assert 100 <= a <= 999 && 10 <= b <= 99 && 1 <= c <= 9;
    assert |NatToString(n)| == |NatToString(a)| + 1;
    assert |NatToString(a)| == |NatToString(b)| + 1;
    assert |NatToString(b)| == |NatToString(c)| + 1;
  }

  lemma TwoDigitField(x: int)
    requires 1 <= x <= 99
    ensures |Pad2(IntToString(x))| == 2
    ensures AllDigits(Pad2(IntToString(x))) && DigitsValue(Pad2(IntToString(x))) == x
  {
    var s := IntToString(x);
    NatToStringValue(x);
    if x >= 10 {
      assert NatToString(x) == NatToString(x / 10) + [DigitChar(x % 10)];
    } else {
      LeadingZeros(1, s);
      assert Pad2(s) == seq(1, _ => '0') + s;
    }
  }

  /** `formatDate` output is read back by `new Date(...)` as the same date (four-digit years). */
  lemma FormatParseRoundTrip(d: Date)
    requires Valid(d) && 1000 <= d.year <= 9999
    ensures ParseIsoDate(FormatDate(d)) == Some(d)
  {
    var ys, ms, ds := IntToString(d.year), Pad2(IntToString(d.month + 1)), Pad2(IntToString(d.day));
    FourDigits(d.year);
    NatToStringValue(d.year);
    TwoDigitField(d.month + 1);
    TwoDigitField(d.day);
    ParseIsoFields(ys, ms, ds);
  }

  /** A four-digit, a two-digit and a two-digit field joined by `-` parse field by field. */
  lemma ParseIsoFields(ys: string, ms: string, ds: string)
    requires |ys| == 4 && |ms| == 2 && |ds| == 2
    requires AllDigits(ys) && AllDigits(ms) && AllDigits(ds)
    ensures var d := Date(DigitsValue(ys), DigitsValue(ms) - 1, DigitsValue(ds));
            ParseIsoDate(ys + "-" + ms + "-" + ds) == if Valid(d) then Some(d) else None
  {
    IsoFieldSlices(ys, ms, ds);
  }

  lemma IsoFieldSlices(ys: string, ms: string, ds: string)
    requires |ys| == 4 && |ms| == 2 && |ds| == 2
    ensures var s := ys + "-" + ms + "-" + ds;
            |s| == 10 && s[4] == '-' && s[7] == '-' && s[..4] == ys && s[5..7] == ms && s[8..] == ds
  {
    var s := ys + "-" + ms + "-" + ds;
    assert s[..4] == ys;
    assert s[5..7] == ms;
    assert s[8..] == ds;
  }

  /** Distinct dates of four-digit years are rendered differently. */
  lemma FormatDateInjective(a: Date, b: Date)
    requires Valid(a) && 1000 <= a.year <= 9999
    requires Valid(b) && 1000 <= b.year <= 9999
    ensures FormatDate(a) == FormatDate(b) <==> a == b
  {
    FormatParseRoundTrip(a);
    FormatParseRoundTrip(b);
  }

  /** Moving `a` days and then `b` days is moving `a + b` days. */
  lemma AddDaysCompose(d: Date, a: int, b: int)
    requires Valid(d)
    ensures AddDays(AddDays(d, a), b) == AddDays(d, a + b)
  {
    DayNumberInjective(AddDays(AddDays(d, a), b), AddDays(d, a + b));
  }

  /**
   * utils.ts `getDaysInMonth(year, month)`: starting at `new Date(year, month, 1)`, collect
   * dates while `getMonth()` still equals `month`. For a month 0..11 this lists days
   * 1..N of that month in order; for any other `month` the first date already falls in
   * another month and the list is empty.
   */
  method GetDaysInMonth(year: int, month: int) returns (days: seq<Date>)
    ensures !(0 <= month < 12) ==> days == []
    ensures 0 <= month < 12 ==> |days| == MonthLength(FullYear(year), month)
    ensures forall i :: 0 <= i < |days| ==> days[i] == Date(FullYear(year), month, i + 1)
  {
    var y := FullYear(year);
    var date := MakeDate(year, month, 1);
    days := [];
    while date.month == month
      invariant Valid(date)
      invariant forall i :: 0 <= i < |days| ==> days[i] == Date(y, month, i + 1)
      invariant date.month == month ==> date.year == y && |days| == date.day - 1
      invariant date.month != month ==> if 0 <= month < 12 then |days| == MonthLength(y, month) else days == []
      decreases if date.month == month then 33 - date.day else 0
    {
      days := days + [date];
      date := NextDay(date);
    }
  }
}
