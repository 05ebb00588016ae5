/**
 * The cycle-phase resolver of utils.ts, `getCyclePhase`: which day of the cycle a date
 * falls on, counted from the anchor `lastPeriodStart` with floor division so that dates
 * before the anchor fall into earlier cycles, and the phase of that day.
 */
module Cycle {
  import opened Wrappers
  import opened Calendar
  import opened Types

  datatype Phase = Menstrual | Ovulation | OvulationDay | Safe

  /** The result of `getCyclePhase`; `dayOfCycle == None` stands for NaN. */
  datatype CycleInfo = CycleInfo(phase: Phase, dayOfCycle: Option<int>)

  /** `Math.floor(a / b)` for integers: the greatest integer not above the quotient. */
  function FloorDiv(a: int, b: int): (q: int)
    requires b != 0
    ensures b > 0 ==> q * b <= a < q * b + b
    ensures b < 0 ==> q * b >= a > q * b + b
  {
    if b > 0 then a / b
    else
      var q := (-a) / (-b);
      assert q * (-b) <= -a < q * (-b) + (-b);
      q
  }

  /** The 1-based day of the cycle, `diffDays` days after the anchor. */
  function DayOfCycle(diffDays: int, cycleLength: int): int
    requires cycleLength != 0
  {
    diffDays - FloorDiv(diffDays, cycleLength) * cycleLength + 1
  }

  /** The day's phase; the first test that matches wins. */
  function Classify(d: int, cycleLength: int, periodLength: int): Phase {
    var ovulationDay := cycleLength - 14;
    var ovulationStart := ovulationDay - 5;
    var ovulationEnd := ovulationDay + 4;
    if 1 <= d <= periodLength then Menstrual
    else if d == ovulationDay then OvulationDay
    else if ovulationStart <= d <= ovulationEnd then Ovulation
    else Safe
  }

  /**
   * utils.ts `getCyclePhase` at the day with number `day`. An anchor that does not parse,
   * or a cycle length of 0, makes every quantity NaN, every comparison false, and the
   * phase SAFE.
   */
  function PhaseAt(day: int, data: PeriodData): CycleInfo {
    match ParseIsoDate(data.lastPeriodStart)
    case None => CycleInfo(Safe, None)
    case Some(start) =>
      if data.cycleLength == 0 then CycleInfo(Safe, None)
      else
        var d := DayOfCycle(day - DayNumber(start), data.cycleLength);
        CycleInfo(Classify(d, data.cycleLength, data.periodLength), Some(d))
  }

  /** utils.ts `getCyclePhase(date, data)`; the time of day is floored away. */
  function GetCyclePhase(date: Date, data: PeriodData): CycleInfo
    requires Valid(date)
  {
    PhaseAt(DayNumber(date), data)
  }

  // ---------- day of cycle ----------

  /** For a positive cycle length the day of the cycle is in 1..cycleLength. */
  lemma DayOfCycleRange(diffDays: int, cycleLength: int)
    requires cycleLength > 0
    ensures 1 <= DayOfCycle(diffDays, cycleLength) <= cycleLength
  {
  }

  /** The anchor is day 1; the day before it is the last day of the previous cycle, not day 0. */
  lemma AnchorBoundary(cycleLength: int)
    requires cycleLength > 0
    ensures DayOfCycle(0, cycleLength) == 1
    ensures DayOfCycle(-1, cycleLength) == cycleLength
  {
    assert FloorDiv(0, cycleLength) == 0;
    assert FloorDiv(-1, cycleLength) == -1;
  }

  lemma FloorDivShift(a: int, b: int)
    requires b != 0
    ensures FloorDiv(a + b, b) == FloorDiv(a, b) + 1
  {
    var q := FloorDiv(a, b);
    var q' := FloorDiv(a + b, b);
    if b > 0 {
      assert (q + 1) * b <= a + b < (q + 1) * b + b;
      FloorDivUnique(a + b, b, q', q + 1);
    } else {
      assert (q + 1) * b >= a + b > (q + 1) * b + b;
      FloorDivUnique(a + b, b, q', q + 1);
    }
  }

  /** Two integers that both satisfy the floor-division bounds are equal. */
  lemma FloorDivUnique(a: int, b: int, q1: int, q2: int)
    requires b != 0
    requires b > 0 ==> q1 * b <= a < q1 * b + b && q2 * b <= a < q2 * b + b
    requires b < 0 ==> q1 * b >= a > q1 * b + b && q2 * b >= a > q2 * b + b
    ensures q1 == q2
  {
    if q1 < q2 {
      MulMonotone(q1 + 1, q2, b);
    } else if q2 < q1 {
      MulMonotone(q2 + 1, q1, b);
    }
  }

  lemma MulMonotone(x: int, y: int, b: int)
    requires x <= y
    ensures b > 0 ==> x * b <= y * b
    ensures b < 0 ==> x * b >= y * b
  {
    assert y * b - x * b == (y - x) * b;
  }

  /** Moving a date by one cycle length keeps its day of the cycle. */
  lemma DayOfCyclePeriodic(diffDays: int, cycleLength: int)
    requires cycleLength != 0
    ensures DayOfCycle(diffDays + cycleLength, cycleLength) == DayOfCycle(diffDays, cycleLength)
  {
    FloorDivShift(diffDays, cycleLength);
    var q := FloorDiv(diffDays, cycleLength);
    assert (q + 1) * cycleLength == q * cycleLength + cycleLength;
  }

  /** `getCyclePhase` is periodic: a date `cycleLength` days later has the same day and phase. */
  lemma PhasePeriodic(date: Date, data: PeriodData)
    requires Valid(date)
    ensures GetCyclePhase(AddDays(date, data.cycleLength), data) == GetCyclePhase(date, data)
  {
    var later := AddDays(date, data.cycleLength);
    assert DayNumber(later) == DayNumber(date) + data.cycleLength;
    PhaseAtPeriodic(DayNumber(date), data);
  }

  lemma PhaseAtPeriodic(n: int, data: PeriodData)
    ensures PhaseAt(n + data.cycleLength, data) == PhaseAt(n, data)
  {
    match ParseIsoDate(data.lastPeriodStart)
    case None =>
    case Some(start) =>
      if data.cycleLength != 0 {
        DayOfCyclePeriodic(n - DayNumber(start), data.cycleLength);
        assert n + data.cycleLength - DayNumber(start) == n - DayNumber(start) + data.cycleLength;
      }
  }

  /** On the anchor date itself the day of the cycle is 1, MENSTRUAL when the period lasts a day or more. */
  lemma AnchorDay(data: PeriodData, start: Date)
    requires ParseIsoDate(data.lastPeriodStart) == Some(start)
    requires data.cycleLength > 0
    ensures GetCyclePhase(start, data).dayOfCycle == Some(1)
    ensures data.periodLength >= 1 ==> GetCyclePhase(start, data).phase == Menstrual
  {
    AnchorBoundary(data.cycleLength);
  }

  // ---------- classification ----------

  /** The phases in priority order, each as the condition under which it is chosen. */
  lemma ClassifyCases(d: int, cycleLength: int, periodLength: int)
    ensures Classify(d, cycleLength, periodLength) == Menstrual <==> 1 <= d <= periodLength
    ensures Classify(d, cycleLength, periodLength) == OvulationDay
            <==> !(1 <= d <= periodLength) && d == cycleLength - 14
    ensures Classify(d, cycleLength, periodLength) == Ovulation
            <==> !(1 <= d <= periodLength) && d != cycleLength - 14
                 && cycleLength - 19 <= d <= cycleLength - 10
    ensures Classify(d, cycleLength, periodLength) == Safe
            <==> !(1 <= d <= periodLength) && !(cycleLength - 19 <= d <= cycleLength - 10)
  {
  }

  /**
   * No clamping: with a cycle of 10 days or fewer the fertile window lies before day 1, so
   * no day of the cycle is ever classified as OVULATION or OVULATION_DAY.
   */
  lemma ShortCycleHasNoOvulation(d: int, cycleLength: int, periodLength: int)
    requires 1 <= d <= cycleLength <= 10
    ensures Classify(d, cycleLength, periodLength) in {Menstrual, Safe}
  {
  }

  const ExampleData := PeriodData("2023-10-01", None, 28, 5, [])

  lemma ExampleAnchor()
    ensures ParseIsoDate("2023-10-01") == Some(Date(2023, 9, 1))
  {
    assert Text.AllDigits("2023") && Text.AllDigits("10") && Text.AllDigits("01");
    ParseIsoFields("2023", "10", "01");
    assert "2023" + "-" + "10" + "-" + "01" == "2023-10-01";
    assert Text.DigitsValue("2023") == 2023 by {
      assert "2023"[..3] == "202" && "202"[..2] == "20" && "20"[..1] == "2" && "2"[..0] == "";
    }
    assert Text.DigitsValue("10") == 10 by {
      assert "10"[..1] == "1" && "1"[..0] == "";
    }
    assert Text.DigitsValue("01") == 1 by {
      assert "01"[..1] == "0" && "0"[..0] == "";
    }
  }

  /** With anchor 2023-10-01, a 28-day cycle and 5-day periods: the 14th is OVULATION_DAY, the 20th SAFE. */
  lemma ExamplePhases()
    ensures GetCyclePhase(Date(2023, 9, 14), ExampleData) == CycleInfo(OvulationDay, Some(14))
    ensures GetCyclePhase(Date(2023, 9, 20), ExampleData) == CycleInfo(Safe, Some(20))
    ensures GetCyclePhase(Date(2023, 9, 3), ExampleData) == CycleInfo(Menstrual, Some(3))
  {
    ExampleAnchor();
    var a := DayNumber(Date(2023, 9, 1));
    assert DayNumber(Date(2023, 9, 14)) == a + 13;
    assert DayNumber(Date(2023, 9, 20)) == a + 19;
    assert DayNumber(Date(2023, 9, 3)) == a + 2;
    assert FloorDiv(13, 28) == 0 && FloorDiv(19, 28) == 0 && FloorDiv(2, 28) == 0;
  }
}
