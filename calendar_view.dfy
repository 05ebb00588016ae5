/**
 * The month grid of CalendarView.tsx: the blank cells before the first day, month
 * navigation, the markers under each day, and the lists for the selected day.
 */
module CalendarView {
  import opened Seqs
  import opened Sorting
  import opened Calendar
  import opened Types
  import opened Todos

  // ---------- grid ----------

  /** `startDayAdjusted`: the weekday with Monday as 0 and Sunday as 6. */
  function StartDayAdjusted(w: int): int {
    if w == 0 then 6 else w - 1
  }

  /** Sunday goes last: the offset is the weekday counted from Monday, in 0..6. */
  lemma StartDayAdjustedRange(w: int)
    requires 0 <= w < 7
    ensures 0 <= StartDayAdjusted(w) <= 6
    ensures StartDayAdjusted(w) == (w + 6) % 7
  {
  }

  /** The number of blank cells before `getDaysInMonth(year, month)[0]`, day 1 of the month shown. */
  function LeadingBlanks(year: int, month: int): int
    requires 0 <= month < 12
  {
    StartDayAdjusted(Weekday(Date(FullYear(year), month, 1)))
  }

  lemma MondayBasedShift(n: int, d: int)
    ensures StartDayAdjusted((n + 4) % 7) == (n + 3) % 7
    ensures (StartDayAdjusted((n + 4) % 7) + d) % 7 == (n + d + 3) % 7
  {
    var q := (n + 3) / 7;
    assert n + 3 == 7 * q + (n + 3) % 7;
    if (n + 3) % 7 == 6 {
      assert n + 4 == 7 * (q + 1);
    } else {
      assert n + 4 == 7 * q + ((n + 3) % 7 + 1);
    }
  }

  /**
   * The grid has 0..6 blanks, and with them every day of the month lands in the column
   * of its own weekday (Monday first): day `d` sits in cell `blanks + d - 1`.
   */
  lemma GridColumns(year: int, month: int, d: int)
    requires 0 <= month < 12 && 1 <= d <= MonthLength(FullYear(year), month)
    ensures 0 <= LeadingBlanks(year, month) <= 6
    ensures (LeadingBlanks(year, month) + d - 1) % 7 == StartDayAdjusted(Weekday(Date(FullYear(year), month, d)))
  {
    var n := DayNumber(Date(FullYear(year), month, 1));
    assert DayNumber(Date(FullYear(year), month, d)) == n + d - 1;
    MondayBasedShift(n, d - 1);
    MondayBasedShift(n + d - 1, 0);
  }

  /** `changeMonth(delta)`: `new Date(getFullYear(), getMonth() + delta, 1)`. */
  function ChangeMonth(current: Date, delta: int): Date {
    MakeDate(current.year, current.month + delta, 1)
  }

  /** Month navigation lands on day 1, `delta` months on, carrying into the year. */
  lemma ChangeMonthEffect(current: Date, delta: int)
    requires !(0 <= current.year <= 99)
    ensures var r := ChangeMonth(current, delta);
            && Valid(r) && r.day == 1
            && r.year * 12 + r.month == current.year * 12 + current.month + delta
  {
    var m := current.month + delta;
    assert m == m / 12 * 12 + m % 12;
  }

  /** Two steps of navigation are one step by their sum, as long as the years stay four-digit. */
  lemma ChangeMonthCompose(current: Date, a: int, b: int)
    requires !(0 <= current.year <= 99) && !(0 <= ChangeMonth(current, a).year <= 99)
    ensures ChangeMonth(ChangeMonth(current, a), b) == ChangeMonth(current, a + b)
  {
    ChangeMonthEffect(current, a);
    ChangeMonthEffect(ChangeMonth(current, a), b);
    ChangeMonthEffect(current, a + b);
    var x := ChangeMonth(ChangeMonth(current, a), b);
    var y := ChangeMonth(current, a + b);
    MonthIndexUnique(x.year, x.month, y.year, y.month);
  }

  lemma MonthIndexUnique(y1: int, m1: int, y2: int, m2: int)
    requires 0 <= m1 < 12 && 0 <= m2 < 12
    requires y1 * 12 + m1 == y2 * 12 + m2
    ensures y1 == y2 && m1 == m2
  {
  }

  /** `isSameDay`: the same day, month and full year. */
  predicate IsSameDay(d1: Date, d2: Date) {
    d1.day == d2.day && d1.month == d2.month && d1.year == d2.year
  }

  /** On calendar dates, being the same day is having the same day number; the relation is reflexive and symmetric. */
  lemma IsSameDayByNumber(d1: Date, d2: Date)
    requires Valid(d1) && Valid(d2)
    ensures IsSameDay(d1, d2) <==> DayNumber(d1) == DayNumber(d2)
    ensures IsSameDay(d1, d1) && (IsSameDay(d1, d2) <==> IsSameDay(d2, d1))
  {
    if DayNumber(d1) == DayNumber(d2) {
      DayNumberInjective(d1, d2);
    }
  }

  // ---------- lists for the selected day ----------

  /** `dayTodos`: the tasks dated on the selected day. */
  function DayTodos(todos: seq<TodoItem>, selected: Date): seq<TodoItem> {
    Filter(todos, DatedOn(FormatDate(selected)))
  }

  function SpecialOn(date: string): SpecialDay -> bool {
    (s: SpecialDay) => s.date == date
  }

  /** `daySpecials`: the events dated on the selected day. */
  function DaySpecials(days: seq<SpecialDay>, selected: Date): seq<SpecialDay> {
    Filter(days, SpecialOn(FormatDate(selected)))
  }

  /**
   * The selected day's tasks and events are exactly, and as often as, the items dated
   * `formatDate(selectedDate)`.
   */
  lemma DayListsExact(todos: seq<TodoItem>, days: seq<SpecialDay>, selected: Date)
    ensures forall t :: multiset(DayTodos(todos, selected))[t]
                        == if t.date == FormatDate(selected) then multiset(todos)[t] else 0
    ensures forall e :: multiset(DaySpecials(days, selected))[e]
                        == if e.date == FormatDate(selected) then multiset(days)[e] else 0
  {
    forall t ensures multiset(DayTodos(todos, selected))[t]
                     == if t.date == FormatDate(selected) then multiset(todos)[t] else 0
    {
      FilterMultiset(todos, DatedOn(FormatDate(selected)), t);
    }
    forall e ensures multiset(DaySpecials(days, selected))[e]
                     == if e.date == FormatDate(selected) then multiset(days)[e] else 0
    {
      FilterMultiset(days, SpecialOn(FormatDate(selected)), e);
    }
  }

  /** `(a, b) => a.startSection - b.startSection` as an order: `a` may come first when the result is not positive. */
  predicate StartLe(a: Course, b: Course) {
    a.startSection <= b.startSection
  }

  /** `dayCourses`: the courses on the selected weekday, stably sorted by start section. */
  function DayCourses(courses: seq<Course>, selected: Date): seq<Course>
    requires Valid(selected)
  {
    SortBy(Filter(courses, OnWeekday(IsoWeekday(selected))), StartLe)
  }

  lemma StartLeTotalPreorder()
    ensures IsTotalPreorder(StartLe)
  {
  }

  /**
   * The day's courses are exactly the courses held on that weekday, each as often as
   * listed, in ascending start section, courses starting together in their listed order.
   */
  lemma DayCoursesOrder(courses: seq<Course>, selected: Date)
    requires Valid(selected)
    ensures var r := DayCourses(courses, selected);
            && multiset(r) == multiset(Filter(courses, OnWeekday(IsoWeekday(selected))))
            && (forall c :: c in r <==> c in courses && c.dayOfWeek == IsoWeekday(selected))
            && (forall i, j :: 0 <= i < j < |r| ==> r[i].startSection <= r[j].startSection)
            && (forall p :: Filter(r, EquivTo(StartLe, p))
                            == Filter(Filter(courses, OnWeekday(IsoWeekday(selected))), EquivTo(StartLe, p)))
  {
    var f := Filter(courses, OnWeekday(IsoWeekday(selected)));
    StartLeTotalPreorder();
    SortByCorrect(f, StartLe);
    var r := DayCourses(courses, selected);
    forall c ensures c in r <==> c in f {
      assert c in r <==> c in multiset(r);
      assert c in f <==> c in multiset(f);
    }
  }

  // ---------- markers ----------

  /** `hasTodo`: some uncompleted task is dated on the cell's day. */
  predicate HasTodoMarker(todos: seq<TodoItem>, date: Date) {
    exists i :: 0 <= i < |todos| && todos[i].date == FormatDate(date) && !todos[i].completed
  }

  /** `hasSpecial`: some event is dated on the cell's day. */
  predicate HasSpecialMarker(days: seq<SpecialDay>, date: Date) {
    exists i :: 0 <= i < |days| && days[i].date == FormatDate(date)
  }

  /** `hasCourse`: some course is held on the cell's weekday. */
  predicate HasCourseMarker(courses: seq<Course>, date: Date)
    requires Valid(date)
  {
    exists i :: 0 <= i < |courses| && courses[i].dayOfWeek == IsoWeekday(date)
  }

  /** A task dot exactly when the day's tasks, as listed on selecting it, include an uncompleted one. */
  lemma TodoMarkerMatchesList(todos: seq<TodoItem>, date: Date)
    ensures HasTodoMarker(todos, date) <==> Filter(DayTodos(todos, date), IsPending) != []
  {
    var pending := Filter(DayTodos(todos, date), IsPending);
    if HasTodoMarker(todos, date) {
      var i :| 0 <= i < |todos| && todos[i].date == FormatDate(date) && !todos[i].completed;
      assert todos[i] in DayTodos(todos, date);
      assert todos[i] in pending;
    }
    if pending != [] {
      assert pending[0] in DayTodos(todos, date);
    }
  }

  /** An event dot exactly when the day, once selected, lists events. */
  lemma SpecialMarkerMatchesList(days: seq<SpecialDay>, date: Date)
    ensures HasSpecialMarker(days, date) <==> DaySpecials(days, date) != []
  {
    if HasSpecialMarker(days, date) {
      var i :| 0 <= i < |days| && days[i].date == FormatDate(date);
      assert days[i] in DaySpecials(days, date);
    }
    if DaySpecials(days, date) != [] {
      var x := DaySpecials(days, date)[0];
      assert x in days;
      var i :| 0 <= i < |days| && days[i] == x;
      assert days[i].date == FormatDate(date);
    }
  }

  /** A course dot exactly when the day, once selected, lists courses. */
  lemma CourseMarkerMatchesList(courses: seq<Course>, date: Date)
    requires Valid(date)
    ensures HasCourseMarker(courses, date) <==> DayCourses(courses, date) != []
  {
    var r := DayCourses(courses, date);
    DayCoursesOrder(courses, date);
    if HasCourseMarker(courses, date) {
      var i :| 0 <= i < |courses| && courses[i].dayOfWeek == IsoWeekday(date);
      assert courses[i] in r;
    }
    if r != [] {
      assert r[0] in r;
    }
  }
}
