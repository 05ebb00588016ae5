/**
 * The edits of ScheduleView.tsx: the per-section break overrides of the settings form,
 * saving and deleting a course, the end-section selector, and the header row of the
 * current week's dates. New course ids are parameters.
 */
module ScheduleView {
  import opened Wrappers
  import opened Seqs
  import opened Text
  import opened Calendar
  import opened Types
  import opened ScheduleTime

  // ---------- break overrides ----------

  /** `addSpecificBreak`: `specificBreaks[section] = duration`, overwriting any entry. */
  function AddSpecificBreak(s: ScheduleSettings, section: int, duration: int): ScheduleSettings {
    s.(specificBreaks := s.specificBreaks[section := duration])
  }

  /** `removeSpecificBreak(section)`: a copy of the map without that key. */
  function RemoveSpecificBreak(s: ScheduleSettings, section: int): ScheduleSettings {
    s.(specificBreaks := s.specificBreaks - {section})
  }

  /** Adding sets the one key and leaves every other key and setting as it was. */
  lemma AddSpecificBreakEffect(s: ScheduleSettings, section: int, duration: int)
    ensures var r := AddSpecificBreak(s, section, duration);
            && section in r.specificBreaks && r.specificBreaks[section] == duration
            && r.specificBreaks.Keys == s.specificBreaks.Keys + {section}
            && (forall k :: k in s.specificBreaks && k != section ==> r.specificBreaks[k] == s.specificBreaks[k])
            && r.(specificBreaks := s.specificBreaks) == s
            && EffBreak(r, section) == duration
  {
  }

  /** Removing makes the key absent, keeps every other key and setting, and the break falls back to the default. */
  lemma RemoveSpecificBreakEffect(s: ScheduleSettings, section: int)
    ensures var r := RemoveSpecificBreak(s, section);
            && r.specificBreaks.Keys == s.specificBreaks.Keys - {section}
            && (forall k :: k in r.specificBreaks ==> r.specificBreaks[k] == s.specificBreaks[k])
            && r.(specificBreaks := s.specificBreaks) == s
            && EffBreak(r, section) == s.breakDuration
            && (forall k :: k != section ==> EffBreak(r, k) == EffBreak(s, k))
  {
  }

  /** Adding an override for a section that had none and removing it again restores the settings. */
  lemma AddThenRemove(s: ScheduleSettings, section: int, duration: int)
    requires section !in s.specificBreaks
    ensures RemoveSpecificBreak(AddSpecificBreak(s, section, duration), section) == s
  {
    assert s.specificBreaks[section := duration] - {section} == s.specificBreaks;
  }

  /**
   * An override after section `k` does not move sections 1..k, and moves every later
   * section by the change of that one break.
   */
  lemma AddSpecificBreakShift(s: ScheduleSettings, k: int, duration: int, n: int)
    requires k >= 1
    ensures n <= k ==> SectionStart(AddSpecificBreak(s, k, duration), n) == SectionStart(s, n)
    ensures n > k ==> SectionStart(AddSpecificBreak(s, k, duration), n) == SectionStart(s, n) + duration - EffBreak(s, k)
  {
    OverrideLocality(s, k, duration, n);
  }

  // ---------- courses ----------

  function Edit(id: string, name: string, room: string, day: int, start: int, count: int, color: string)
    : Course -> Course
  {
    (c: Course) => if c.id == id
                   then c.(name := name, room := Some(room), dayOfWeek := day, startSection := start,
                           sectionCount := count, color := color)
                   else c
  }

  /**
   * `saveCourse`: a blank name saves nothing; with a (truthy) id being edited, every
   * field of that course but its id is rewritten; otherwise a new course is appended.
   * The room is stored as typed, `""` included.
   */
  function SaveCourse(courses: seq<Course>, editingId: Option<string>, newId: string, name: string,
                      room: string, day: int, start: int, count: int, color: string): seq<Course>
  {
    if IsBlank(name) then courses
    else if TruthyStr(editingId) then Map(courses, Edit(editingId.value, name, room, day, start, count, color))
    else courses + [Course(newId, name, day, start, count, Some(room), color)]
  }

  lemma SaveCourseEffect(courses: seq<Course>, editingId: Option<string>, newId: string, name: string,
                         room: string, day: int, start: int, count: int, color: string)
    ensures var r := SaveCourse(courses, editingId, newId, name, room, day, start, count, color);
            && (IsBlank(name) ==> r == courses)
            && (!IsBlank(name) && !TruthyStr(editingId) ==>
                  |r| == |courses| + 1 && r[..|courses|] == courses
                  && r[|courses|] == Course(newId, name, day, start, count, Some(room), color))
            && (!IsBlank(name) && TruthyStr(editingId) ==>
                  |r| == |courses|
                  && forall i :: 0 <= i < |courses| ==>
                       if courses[i].id == editingId.value
                       then r[i] == Course(courses[i].id, name, day, start, count, Some(room), color)
                       else r[i] == courses[i])
  {
  }

  function CourseIdIsNot(id: string): Course -> bool {
    (c: Course) => c.id != id
  }

  /** `deleteCourse`: with a (truthy) id being edited, drop the courses with that id. */
  function DeleteCourse(courses: seq<Course>, editingId: Option<string>): seq<Course> {
    if TruthyStr(editingId) then Filter(courses, CourseIdIsNot(editingId.value)) else courses
  }

  lemma DeleteCourseEffect(courses: seq<Course>, editingId: Option<string>)
    ensures !TruthyStr(editingId) ==> DeleteCourse(courses, editingId) == courses
    ensures TruthyStr(editingId) ==>
              forall c :: multiset(DeleteCourse(courses, editingId))[c]
                          == if c.id == editingId.value then 0 else multiset(courses)[c]
  {
    if TruthyStr(editingId) {
      forall c ensures multiset(DeleteCourse(courses, editingId))[c]
                       == if c.id == editingId.value then 0 else multiset(courses)[c]
      {
        FilterMultiset(courses, CourseIdIsNot(editingId.value), c);
      }
    }
  }

  /**
   * The kept courses stay in order: deleting from a joined list is deleting from each
   * part, and a single course is dropped exactly when a truthy id is edited and it has that id.
   */
  lemma DeleteCourseKeepsOrder(a: seq<Course>, b: seq<Course>, c: Course, editingId: Option<string>)
    ensures DeleteCourse(a + b, editingId) == DeleteCourse(a, editingId) + DeleteCourse(b, editingId)
    ensures DeleteCourse([c], editingId) == if TruthyStr(editingId) && c.id == editingId.value then [] else [c]
  {
    if TruthyStr(editingId) {
      FilterConcat(a, b, CourseIdIsNot(editingId.value));
      FilterSnoc([], c, CourseIdIsNot(editingId.value));
    }
  }

  // ---------- end-section selector ----------

  /** `Math.max(1, endSec - formStartSection + 1)`. */
  function ClampSectionCount(start: int, endSec: int): int {
    var n := endSec - start + 1;
    if n > 1 then n else 1
  }

  /** The end selector's options: `formStartSection + i` for `i < totalSections - formStartSection + 1`. */
  function EndOptions(start: int, totalSections: int): seq<int> {
    var n := totalSections - start + 1;
    seq(if n > 0 then n else 0, i => start + i)
  }

  /**
   * The count is at least 1; choosing an end at or after the start makes that the last
   * section of the course; an earlier end gives a one-section course.
   */
  lemma ClampSectionCountEffect(start: int, endSec: int)
    ensures ClampSectionCount(start, endSec) >= 1
    ensures endSec >= start ==> start + ClampSectionCount(start, endSec) - 1 == endSec
    ensures endSec < start ==> ClampSectionCount(start, endSec) == 1
  {
  }

  /** The offered ends are exactly `start .. totalSections`, ascending, and each yields a course inside the day. */
  lemma EndOptionsExact(start: int, totalSections: int)
    ensures forall x :: x in EndOptions(start, totalSections) <==> start <= x <= totalSections
    ensures forall i, j :: 0 <= i < j < |EndOptions(start, totalSections)| ==>
              EndOptions(start, totalSections)[i] < EndOptions(start, totalSections)[j]
    ensures forall x :: x in EndOptions(start, totalSections) ==>
              1 <= ClampSectionCount(start, x) && start + ClampSectionCount(start, x) - 1 <= totalSections
  {
    var o := EndOptions(start, totalSections);
    forall x | start <= x <= totalSections ensures x in o {
      assert o[x - start] == x;
    }
  }

  // ---------- week header ----------

  /** One column of the header: the `M/D` label and whether it is today. */
  datatype DayColumn = DayColumn(date: Date, dateStr: string, isToday: bool)

  /** The Monday of the week of `now`: `setDate(now.getDate() - currentDay + 1)`. */
  function WeekMonday(now: Date): Date
    requires Valid(now)
  {
    AddDays(now, 1 - IsoWeekday(now))
  }

  /** The date of column `i`: `setDate(monday.getDate() + i)` on a copy of the Monday. */
  function ColumnDate(now: Date, i: int): Date
    requires Valid(now)
  {
    AddDays(WeekMonday(now), i)
  }

  /** `weekDates`: the seven days from that Monday, labelled `month/day`, today marked. */
  function WeekDates(now: Date): seq<DayColumn>
    requires Valid(now)
  {
    seq(7, i requires 0 <= i < 7 =>
      var d := ColumnDate(now, i);
      DayColumn(d, IntToString(d.month + 1) + "/" + IntToString(d.day), d == now))
  }

  /** Column `i` is `i` days after the Monday, which is `getDay() || 7` minus 1 days before today. */
  lemma WeekColumnDay(now: Date, i: int)
    requires Valid(now) && 0 <= i < 7
    ensures WeekDates(now)[i].date == ColumnDate(now, i) && Valid(ColumnDate(now, i))
    ensures DayNumber(ColumnDate(now, i)) == DayNumber(now) + 1 - IsoWeekday(now) + i
  {
  }

  /** Day `n` has `getDay()` `w`; the day `i` after its Monday has `getDay()` `(i + 1) % 7`. */
  lemma WeekdayShift(n: int, w: int, m: int, i: int)
    requires 0 <= w < 7 && w == (n + 4) % 7
    requires m == n + 1 - (if w == 0 then 7 else w) + i
    ensures (m + 4) % 7 == (i + 1) % 7
  {
    var q := (n + 4) / 7;
    assert n + 4 == 7 * q + w;
    if w == 0 {
      assert m + 4 == 7 * (q - 1) + (i + 1);
    } else {
      assert m + 4 == 7 * q + (i + 1);
    }
  }

  /**
   * The header lists seven consecutive days, Monday through Sunday, and exactly one of
   * them is today: the column `getDay() || 7` counted from 1.
   */
  lemma WeekDatesProperties(now: Date)
    requires Valid(now)
    ensures var w := WeekDates(now);
            && |w| == 7
            && (forall i :: 0 <= i < 7 ==> Valid(w[i].date) && Weekday(w[i].date) == (i + 1) % 7)
            && (forall i :: 0 <= i < 6 ==> w[i + 1].date == NextDay(w[i].date))
            && (forall i :: 0 <= i < 7 ==> (w[i].isToday <==> i == IsoWeekday(now) - 1))
  {
    forall i | 0 <= i < 7 ensures Valid(WeekDates(now)[i].date) && Weekday(WeekDates(now)[i].date) == (i + 1) % 7 {
      WeekColumnDay(now, i);
      WeekColumnWeekday(now, i);
    }
    forall i | 0 <= i < 6 ensures WeekDates(now)[i + 1].date == NextDay(WeekDates(now)[i].date) {
      WeekColumnDay(now, i);
      WeekColumnDay(now, i + 1);
      WeekColumnNext(now, i);
    }
    forall i | 0 <= i < 7 ensures WeekDates(now)[i].isToday <==> i == IsoWeekday(now) - 1 {
      WeekColumnToday(now, i);
    }
  }

  lemma WeekColumnWeekday(now: Date, i: int)
    requires Valid(now) && 0 <= i < 7
    ensures Weekday(ColumnDate(now, i)) == (i + 1) % 7
  {
    var d := ColumnDate(now, i);
    var n, w, m := DayNumber(now), Weekday(now), DayNumber(d);
    WeekdayShift(n, w, m, i);
  }

  lemma WeekColumnNext(now: Date, i: int)
    requires Valid(now) && 0 <= i < 6
    ensures ColumnDate(now, i + 1) == NextDay(ColumnDate(now, i))
  {
    WeekColumnDay(now, i);
    WeekColumnDay(now, i + 1);
    DayNumberInjective(ColumnDate(now, i + 1), NextDay(ColumnDate(now, i)));
  }

  lemma WeekColumnToday(now: Date, i: int)
    requires Valid(now) && 0 <= i < 7
    ensures WeekDates(now)[i].isToday <==> i == IsoWeekday(now) - 1
  {
    WeekColumnDay(now, i);
    if i == IsoWeekday(now) - 1 {
      DayNumberInjective(ColumnDate(now, i), now);
    }
  }
}
