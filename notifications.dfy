/**
 * NotificationManager.tsx: a timer callback that, at most once per wall-clock minute,
 * decides a period reminder (at most once per day, on MENSTRUAL days) and a class
 * reminder for each of today's courses starting in 29 to 31 minutes (at most once per
 * course and day). The three `useRef` values are the fields of a class; `tick` is a
 * method over them. The clock reading is a parameter: the civil date `today` and the
 * milliseconds since its midnight.
 */
module Notifications {
  import opened Wrappers
  import opened Seqs
  import opened Calendar
  import opened Types
  import opened ScheduleTime
  import opened Cycle

  /**
   * What one tick hands to `sendNotification`. A class reminder carries the key it was
   * recorded under and the course whose name and room make up its text.
   */
  datatype Reminder =
    | PeriodReminder(dayOfCycle: Option<int>)
    | ClassReminder(key: string, course: Course)

  /** The three refs: `lastCheckMinute`, `notifiedPeriodDate`, `notifiedClasses`. */
  datatype ManagerState = ManagerState(lastCheckMinute: int, notifiedPeriodDate: string,
                                       notifiedClasses: set<string>)

  /** The key of one class on one day: `${currentDayStr}-${course.id}`. */
  function ClassKey(dayStr: string, id: string): string {
    dayStr + "-" + id
  }

  /** `now.getMinutes()` for a time `msOfDay` milliseconds after midnight. */
  function MinuteOf(msOfDay: int): int {
    (msOfDay / 60000) % 60
  }

  /**
   * The hour and minute `start.split(':').map(Number)` yields for a block that starts at
   * minute `t`: the rendered start time always parses back to these (`DiffFromStart`).
   */
  function StartClock(t: int): (int, int) {
    (JsRem(t / 60, 24), JsRem(JsRem(t, 60), 60))
  }

  /**
   * `classTime.getTime() - now.getTime()`, where `classTime` is today at the parsed
   * `start` of the course's block.
   */
  function ClassDiff(c: Course, settings: ScheduleSettings, msOfDay: int): int {
    var clock := StartClock(SectionStart(settings, c.startSection));
    clock.0 * 3600000 + clock.1 * 60000 - msOfDay
  }

  /** `diffMinutes >= 29 && diffMinutes <= 31`. */
  predicate InWindow(diff: int) {
    29 * 60000 <= diff <= 31 * 60000
  }

  /** Whether a course not yet reminded of today is reminded of at this time. */
  function Due(settings: ScheduleSettings, msOfDay: int): Course -> bool {
    (c: Course) => InWindow(ClassDiff(c, settings, msOfDay))
  }

  /** The set of keys and the reminders sent so far in the pass over today's courses. */
  datatype Pass = Pass(notified: set<string>, sent: seq<Reminder>)

  /** One iteration of `todaysCourses.forEach`: skip a recorded key, else remind and record when due. */
  function ClassStep(p: Pass, c: Course, dayStr: string, due: Course -> bool): Pass {
    var key := ClassKey(dayStr, c.id);
    if key in p.notified then p
    else if due(c) then Pass(p.notified + {key}, p.sent + [ClassReminder(key, c)])
    else p
  }

  /** The `forEach` over the first `n` courses, course after course in list order. */
  function ClassPass(cs: seq<Course>, n: nat, notified: set<string>, dayStr: string, due: Course -> bool): Pass
    requires n <= |cs|
  {
    if n == 0 then Pass(notified, [])
    else ClassStep(ClassPass(cs, n - 1, notified, dayStr, due), cs[n - 1], dayStr, due)
  }

  datatype TickResult = TickResult(state: ManagerState, sent: seq<Reminder>)

  /** The rest of a tick in a new minute, given the day's phase and the outcome of the class pass. */
  function AfterGate(st: ManagerState, minute: int, dayStr: string, info: CycleInfo, p: Pass): TickResult {
    var period := info.phase == Menstrual && st.notifiedPeriodDate != dayStr;
    TickResult(ManagerState(minute, if period then dayStr else st.notifiedPeriodDate, p.notified),
               (if period then [PeriodReminder(info.dayOfCycle)] else []) + p.sent)
  }

  /** One run of the interval callback, as a function of the refs before it. */
  function TickSpec(st: ManagerState, today: Date, msOfDay: int, courses: seq<Course>,
                    settings: ScheduleSettings, data: PeriodData): TickResult
    requires Valid(today)
  {
    var minute := MinuteOf(msOfDay);
    if st.lastCheckMinute == minute then TickResult(st, [])
    else
      var dayStr := FormatDate(today);
      AfterGate(st, minute, dayStr, GetCyclePhase(today, data),
                ClassPass(Filter(courses, OnWeekday(IsoWeekday(today))),
                          |Filter(courses, OnWeekday(IsoWeekday(today)))|, st.notifiedClasses, dayStr,
                          Due(settings, msOfDay)))
  }

  /**
   * The start text of a block always parses, to `StartClock` of its minute, so the test
   * the loop body performs on it is `Due`.
   */
  lemma DiffFromStart(c: Course, settings: ScheduleSettings, msOfDay: int, start: string)
    requires start == ClockText(SectionStart(settings, c.startSection))
    ensures ParseClock(start) == Some(StartClock(SectionStart(settings, c.startSection)))
    ensures Due(settings, msOfDay)(c) <==>
              29 * 60000 <= ParseClock(start).value.0 * 3600000 + ParseClock(start).value.1 * 60000 - msOfDay
                          <= 31 * 60000
  {
    var t := SectionStart(settings, c.startSection);
    FormatTimeRoundTrip(t / 60, JsRem(t, 60));
  }

  class NotificationManager {
    var lastCheckMinute: int
    var notifiedPeriodDate: string
    var notifiedClasses: set<string>

    function State(): ManagerState
      reads this
    {
      ManagerState(lastCheckMinute, notifiedPeriodDate, notifiedClasses)
    }

    /** The refs' initial values: `-1`, `''` and an empty set. */
    constructor()
      ensures State() == ManagerState(-1, "", {})
    {
      lastCheckMinute := -1;
      notifiedPeriodDate := "";
      notifiedClasses := {};
    }

    /** The interval callback: returns what it hands to `sendNotification`, in order. */
    method Tick(today: Date, msOfDay: int, courses: seq<Course>, settings: ScheduleSettings,
                data: PeriodData) returns (sent: seq<Reminder>)
      requires Valid(today)
      modifies this
      ensures TickResult(State(), sent) == TickSpec(old(State()), today, msOfDay, courses, settings, data)
    {
      var currentMinute := MinuteOf(msOfDay);
      var currentDayStr := FormatDate(today);
      if lastCheckMinute == currentMinute {
        return [];
      }
      lastCheckMinute := currentMinute;

      var cycleInfo := GetCyclePhase(today, data);
      sent := [];
      if cycleInfo.phase == Menstrual && notifiedPeriodDate != currentDayStr {
        sent := [PeriodReminder(cycleInfo.dayOfCycle)];
        notifiedPeriodDate := currentDayStr;
      }

      var todaysCourses := Filter(courses, OnWeekday(IsoWeekday(today)));
      var classSent := RemindClasses(todaysCourses, currentDayStr, settings, msOfDay);
      sent := sent + classSent;
    }

    /** `todaysCourses.forEach(...)`: remind of each course due and not yet reminded of today. */
    method RemindClasses(todaysCourses: seq<Course>, currentDayStr: string, settings: ScheduleSettings,
                         msOfDay: int) returns (classSent: seq<Reminder>)
      modifies this
      ensures Pass(notifiedClasses, classSent)
              == ClassPass(todaysCourses, |todaysCourses|, old(notifiedClasses), currentDayStr, Due(settings, msOfDay))
      ensures lastCheckMinute == old(lastCheckMinute) && notifiedPeriodDate == old(notifiedPeriodDate)
    {
      classSent := [];
      ghost var initial := notifiedClasses;
      ghost var due := Due(settings, msOfDay);
      var i := 0;
      while i < |todaysCourses|
        invariant 0 <= i <= |todaysCourses|
        invariant lastCheckMinute == old(lastCheckMinute) && notifiedPeriodDate == old(notifiedPeriodDate)
        invariant ClassPass(todaysCourses, i, initial, currentDayStr, due) == Pass(notifiedClasses, classSent)
      {
        var course := todaysCourses[i];
        var notificationId := ClassKey(currentDayStr, course.id);
        ghost var before := Pass(notifiedClasses, classSent);
        if notificationId !in notifiedClasses {
          var start, _ := GetSectionTimeRange(course.startSection, course.sectionCount, settings);
          var clock := ParseClock(start);
          var fire := false;
          if clock.Some? {
            var diffMs := clock.value.0 * 3600000 + clock.value.1 * 60000 - msOfDay;
            fire := 29 * 60000 <= diffMs <= 31 * 60000;
          }
          DiffFromStart(course, settings, msOfDay, start);
          assert fire == due(course);
          if fire {
            classSent := classSent + [ClassReminder(notificationId, course)];
            notifiedClasses := notifiedClasses + {notificationId};
          }
          assert ClassStep(before, course, currentDayStr, due) == Pass(notifiedClasses, classSent);
        }
        i := i + 1;
      }
    }
  }

  // ---------- properties of a tick ----------

  /** The recorded keys only grow, and the new ones are exactly the keys of the reminders sent, each once. */
  ghost predicate PassRecords(initial: set<string>, p: Pass) {
    && initial <= p.notified
    && (forall i :: 0 <= i < |p.sent| ==>
          p.sent[i].ClassReminder? && p.sent[i].key !in initial && p.sent[i].key in p.notified)
    && (forall i, j :: 0 <= i < j < |p.sent| ==> p.sent[i].key != p.sent[j].key)
    && (forall k :: k in p.notified && k !in initial ==> exists i :: 0 <= i < |p.sent| && p.sent[i].key == k)
  }

  /** Every reminder of the pass is for a listed course that was due, under that course's key. */
  ghost predicate PassJustified(cs: seq<Course>, dayStr: string, due: Course -> bool, sent: seq<Reminder>) {
    forall i :: 0 <= i < |sent| ==>
      sent[i].ClassReminder? && sent[i].course in cs && sent[i].key == ClassKey(dayStr, sent[i].course.id)
      && due(sent[i].course)
  }

  lemma ClassStepRecords(initial: set<string>, p: Pass, c: Course, dayStr: string, due: Course -> bool)
    requires PassRecords(initial, p)
    ensures PassRecords(initial, ClassStep(p, c, dayStr, due))
  {
    var q := ClassStep(p, c, dayStr, due);
    var key := ClassKey(dayStr, c.id);
    if key !in p.notified && due(c) {
      assert q.sent == p.sent + [ClassReminder(key, c)];
      forall k | k in q.notified && k !in initial
        ensures exists i :: 0 <= i < |q.sent| && q.sent[i].key == k
      {
        if k == key {
          assert q.sent[|p.sent|].key == k;
        } else {
          var i :| 0 <= i < |p.sent| && p.sent[i].key == k;
          assert q.sent[i].key == k;
        }
      }
    }
  }

  lemma ClassStepJustified(cs: seq<Course>, p: Pass, c: Course, dayStr: string, due: Course -> bool)
    requires PassJustified(cs, dayStr, due, p.sent) && c in cs
    ensures PassJustified(cs, dayStr, due, ClassStep(p, c, dayStr, due).sent)
  {
  }

  /** What the pass sends is justified and recorded, and it records nothing else. */
  lemma {:induction false} ClassPassSound(cs: seq<Course>, n: nat, initial: set<string>, dayStr: string,
                                          due: Course -> bool)
    requires n <= |cs|
    ensures PassRecords(initial, ClassPass(cs, n, initial, dayStr, due))
    ensures PassJustified(cs, dayStr, due, ClassPass(cs, n, initial, dayStr, due).sent)
  {
    if n > 0 {
      ClassPassSound(cs, n - 1, initial, dayStr, due);
      var p := ClassPass(cs, n - 1, initial, dayStr, due);
      ClassStepRecords(initial, p, cs[n - 1], dayStr, due);
      ClassStepJustified(cs, p, cs[n - 1], dayStr, due);
    }
  }

  /** A listed course that is due and whose key was not recorded before the pass ends the pass recorded. */
  lemma {:induction false} ClassPassComplete(cs: seq<Course>, n: nat, initial: set<string>, dayStr: string,
                                             due: Course -> bool, j: int)
    requires n <= |cs| && 0 <= j < n
    requires ClassKey(dayStr, cs[j].id) !in initial && due(cs[j])
    ensures ClassKey(dayStr, cs[j].id) in ClassPass(cs, n, initial, dayStr, due).notified
  {
    if j < n - 1 {
      ClassPassComplete(cs, n - 1, initial, dayStr, due, j);
    }
  }

  /** A tick within the minute already checked does nothing. */
  lemma TickGated(st: ManagerState, today: Date, msOfDay: int, courses: seq<Course>,
                  settings: ScheduleSettings, data: PeriodData)
    requires Valid(today) && st.lastCheckMinute == MinuteOf(msOfDay)
    ensures TickSpec(st, today, msOfDay, courses, settings, data) == TickResult(st, [])
  {
  }

  /** The period reminder comes first, exactly when due, and is recorded; everything after it is a class reminder. */
  lemma AfterGatePeriod(st: ManagerState, minute: int, dayStr: string, info: CycleInfo, p: Pass, initial: set<string>)
    requires PassRecords(initial, p)
    ensures var r := AfterGate(st, minute, dayStr, info, p);
            var due := info.phase == Menstrual && st.notifiedPeriodDate != dayStr;
            && r.state.lastCheckMinute == minute
            && (due <==> exists i :: 0 <= i < |r.sent| && r.sent[i].PeriodReminder?)
            && (due ==> r.sent[0] == PeriodReminder(info.dayOfCycle) && r.state.notifiedPeriodDate == dayStr)
            && (!due ==> r.state.notifiedPeriodDate == st.notifiedPeriodDate)
            && (forall i :: 1 <= i < |r.sent| ==> r.sent[i].ClassReminder?)
  {
    var r := AfterGate(st, minute, dayStr, info, p);
    if info.phase == Menstrual && st.notifiedPeriodDate != dayStr {
      assert r.sent[0].PeriodReminder?;
    } else {
      assert r.sent == p.sent;
    }
  }

  /**
   * A tick in a new minute records that minute; it sends a period reminder, first and
   * once, exactly when the day is MENSTRUAL and none was sent today, and then records today.
   */
  lemma TickPeriodReminder(st: ManagerState, today: Date, msOfDay: int, courses: seq<Course>,
                           settings: ScheduleSettings, data: PeriodData)
    requires Valid(today) && st.lastCheckMinute != MinuteOf(msOfDay)
    ensures var r := TickSpec(st, today, msOfDay, courses, settings, data);
            var due := GetCyclePhase(today, data).phase == Menstrual && st.notifiedPeriodDate != FormatDate(today);
            && r.state.lastCheckMinute == MinuteOf(msOfDay)
            && (due <==> exists i :: 0 <= i < |r.sent| && r.sent[i].PeriodReminder?)
            && (due ==> r.sent[0] == PeriodReminder(GetCyclePhase(today, data).dayOfCycle)
                        && r.state.notifiedPeriodDate == FormatDate(today))
            && (!due ==> r.state.notifiedPeriodDate == st.notifiedPeriodDate)
            && (forall i :: 1 <= i < |r.sent| ==> r.sent[i].ClassReminder?)
  {
    var dayStr := FormatDate(today);
    var cs := Filter(courses, OnWeekday(IsoWeekday(today)));
    var p := ClassPass(cs, |cs|, st.notifiedClasses, dayStr, Due(settings, msOfDay));
    ClassPassSound(cs, |cs|, st.notifiedClasses, dayStr, Due(settings, msOfDay));
    AfterGatePeriod(st, MinuteOf(msOfDay), dayStr, GetCyclePhase(today, data), p, st.notifiedClasses);
  }

  /** The class reminders after the gate are those of the pass, shifted past the period reminder. */
  lemma AfterGateClasses(st: ManagerState, minute: int, dayStr: string, info: CycleInfo, p: Pass,
                         cs: seq<Course>, due: Course -> bool)
    requires PassRecords(st.notifiedClasses, p) && PassJustified(cs, dayStr, due, p.sent)
    ensures var r := AfterGate(st, minute, dayStr, info, p);
            && st.notifiedClasses <= r.state.notifiedClasses
            && (forall i :: 0 <= i < |r.sent| && r.sent[i].ClassReminder? ==>
                  && r.sent[i].course in cs
                  && r.sent[i].key == ClassKey(dayStr, r.sent[i].course.id)
                  && due(r.sent[i].course)
                  && r.sent[i].key !in st.notifiedClasses && r.sent[i].key in r.state.notifiedClasses)
            && (forall i, j :: 0 <= i < j < |r.sent| && r.sent[i].ClassReminder? && r.sent[j].ClassReminder? ==>
                  r.sent[i].key != r.sent[j].key)
            && (forall k :: k in r.state.notifiedClasses && k !in st.notifiedClasses ==>
                  exists i :: 0 <= i < |r.sent| && r.sent[i].ClassReminder? && r.sent[i].key == k)
  {
    var r := AfterGate(st, minute, dayStr, info, p);
    var h := |r.sent| - |p.sent|;
    assert h == 0 || h == 1;
    assert forall i :: h <= i < |r.sent| ==> r.sent[i] == p.sent[i - h];
    assert h == 1 ==> r.sent[0].PeriodReminder?;
    forall k | k in r.state.notifiedClasses && k !in st.notifiedClasses
      ensures exists i :: 0 <= i < |r.sent| && r.sent[i].ClassReminder? && r.sent[i].key == k
    {
      var i :| 0 <= i < |p.sent| && p.sent[i].key == k;
      assert r.sent[i + h] == p.sent[i];
    }
  }

  /**
   * The class reminders of a tick are for today's courses whose block starts in the
   * window, one per key, each under a key not recorded before and recorded afterwards;
   * the recorded keys grow by exactly those keys.
   */
  lemma TickClassReminders(st: ManagerState, today: Date, msOfDay: int, courses: seq<Course>,
                           settings: ScheduleSettings, data: PeriodData)
    requires Valid(today)
    ensures var r := TickSpec(st, today, msOfDay, courses, settings, data);
            && st.notifiedClasses <= r.state.notifiedClasses
            && (forall i :: 0 <= i < |r.sent| && r.sent[i].ClassReminder? ==>
                  && r.sent[i].course in courses
                  && r.sent[i].course.dayOfWeek == IsoWeekday(today)
                  && r.sent[i].key == ClassKey(FormatDate(today), r.sent[i].course.id)
                  && InWindow(ClassDiff(r.sent[i].course, settings, msOfDay))
                  && r.sent[i].key !in st.notifiedClasses && r.sent[i].key in r.state.notifiedClasses)
            && (forall i, j :: 0 <= i < j < |r.sent| && r.sent[i].ClassReminder? && r.sent[j].ClassReminder? ==>
                  r.sent[i].key != r.sent[j].key)
            && (forall k :: k in r.state.notifiedClasses && k !in st.notifiedClasses ==>
                  exists i :: 0 <= i < |r.sent| && r.sent[i].ClassReminder? && r.sent[i].key == k)
  {
    if st.lastCheckMinute != MinuteOf(msOfDay) {
      var dayStr := FormatDate(today);
      var cs := Filter(courses, OnWeekday(IsoWeekday(today)));
      var due := Due(settings, msOfDay);
      ClassPassSound(cs, |cs|, st.notifiedClasses, dayStr, due);
      var p := ClassPass(cs, |cs|, st.notifiedClasses, dayStr, due);
      AfterGateClasses(st, MinuteOf(msOfDay), dayStr, GetCyclePhase(today, data), p, cs, due);
    }
  }

  /**
   * Conversely, a tick in a new minute reminds of every course of today whose block
   * starts in the window and whose key is not yet recorded, and records that key.
   */
  lemma TickClassRemindersComplete(st: ManagerState, today: Date, msOfDay: int, courses: seq<Course>,
                                   settings: ScheduleSettings, data: PeriodData, c: Course)
    requires Valid(today) && st.lastCheckMinute != MinuteOf(msOfDay)
    requires c in courses && c.dayOfWeek == IsoWeekday(today) && InWindow(ClassDiff(c, settings, msOfDay))
    requires ClassKey(FormatDate(today), c.id) !in st.notifiedClasses
    ensures var r := TickSpec(st, today, msOfDay, courses, settings, data);
            && ClassKey(FormatDate(today), c.id) in r.state.notifiedClasses
            && exists i :: 0 <= i < |r.sent| && r.sent[i].ClassReminder?
                           && r.sent[i].key == ClassKey(FormatDate(today), c.id)
  {
    var dayStr := FormatDate(today);
    var cs := Filter(courses, OnWeekday(IsoWeekday(today)));
    FilterMultiset(courses, OnWeekday(IsoWeekday(today)), c);
    assert c in multiset(cs);
    var j :| 0 <= j < |cs| && cs[j] == c;
    ClassPassComplete(cs, |cs|, st.notifiedClasses, dayStr, Due(settings, msOfDay), j);
    TickClassReminders(st, today, msOfDay, courses, settings, data);
  }

  /**
   * Two ticks on the same day never remind of the same class twice, nor of the period
   * twice: what the first one sent is recorded, and the second one skips it.
   */
  lemma SecondTickRepeatsNothing(st: ManagerState, today: Date, ms1: int, ms2: int, courses: seq<Course>,
                                 settings: ScheduleSettings, data: PeriodData)
    requires Valid(today)
    ensures var r1 := TickSpec(st, today, ms1, courses, settings, data);
            var r2 := TickSpec(r1.state, today, ms2, courses, settings, data);
            && (forall i, j ::
                  (0 <= i < |r1.sent| && 0 <= j < |r2.sent| && r1.sent[i].ClassReminder? && r2.sent[j].ClassReminder?)
                  ==> r1.sent[i].key != r2.sent[j].key)
            && (forall i, j :: 0 <= i < |r1.sent| && 0 <= j < |r2.sent| ==>
                  !(r1.sent[i].PeriodReminder? && r2.sent[j].PeriodReminder?))
  {
    var r1 := TickSpec(st, today, ms1, courses, settings, data);
    TickClassReminders(st, today, ms1, courses, settings, data);
    TickClassReminders(r1.state, today, ms2, courses, settings, data);
    if st.lastCheckMinute != MinuteOf(ms1) {
      TickPeriodReminder(st, today, ms1, courses, settings, data);
      if r1.state.lastCheckMinute != MinuteOf(ms2) {
        TickPeriodReminder(r1.state, today, ms2, courses, settings, data);
      }
    }
  }

  /**
   * For a block that starts within the day (minute `t` of 0..1439), the parsed start is
   * that minute exactly, so the reminder window is "the class starts 29 to 31 minutes
   * from now".
   */
  lemma ClassDiffExact(c: Course, settings: ScheduleSettings, msOfDay: int)
    requires 0 <= SectionStart(settings, c.startSection) < 1440
    ensures ClassDiff(c, settings, msOfDay) == SectionStart(settings, c.startSection) * 60000 - msOfDay
    ensures InWindow(ClassDiff(c, settings, msOfDay))
            <==> msOfDay + 29 * 60000 <= SectionStart(settings, c.startSection) * 60000 <= msOfDay + 31 * 60000
  {
    var t := SectionStart(settings, c.startSection);
    assert JsRem(t / 60, 24) == t / 60;
    assert JsRem(JsRem(t, 60), 60) == t % 60;
    assert (t / 60) * 3600000 + (t % 60) * 60000 == t * 60000;
  }
}
