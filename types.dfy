/**
 * The records of types.ts. Optional fields (`x?: T`) are `Option<T>`; dates are the
 * `YYYY-MM-DD` strings the views store, times `HH:MM` strings.
 */
module Types {
  import opened Wrappers

  datatype TodoItem = TodoItem(
    id: string,
    text: string,
    completed: bool,
    date: string,
    time: Option<string>,
    reward: Option<string>,
    rewardClaimed: Option<bool>,
    points: Option<int>,
    isStarred: Option<bool>)

  datatype NoteItem = NoteItem(id: string, content: string, date: string, color: string)

  /** `dayOfWeek` 1 = Monday .. 7 = Sunday; `startSection` is 1-based. */
  datatype Course = Course(
    id: string,
    name: string,
    dayOfWeek: int,
    startSection: int,
    sectionCount: int,
    room: Option<string>,
    color: string)

  /** `c => c.dayOfWeek === w`: the courses held on weekday `w`. */
  function OnWeekday(w: int): Course -> bool {
    (c: Course) => c.dayOfWeek == w
  }

  /**
   * `specificBreaks` maps a section to the break that follows it; an absent key means
   * "use `breakDuration`", which differs from a key mapped to 0. An absent
   * `specificBreaks` object is the empty map.
   */
  datatype ScheduleSettings = ScheduleSettings(
    startHour: int,
    startMinute: int,
    classDuration: int,
    breakDuration: int,
    totalSections: int,
    specificBreaks: map<int, int>)

  /** `type: 'COUNTDOWN' | 'ANNIVERSARY'`. */
  datatype SpecialDayKind = Countdown | Anniversary

  datatype SpecialDay = SpecialDay(id: string, title: string, date: string, kind: SpecialDayKind)

  datatype PeriodLog = PeriodLog(
    date: string,
    flow: Option<int>,
    symptoms: Option<seq<string>>,
    mood: Option<string>)

  /** `previousPeriodStart` holds the one anchor an undo can restore. */
  datatype PeriodData = PeriodData(
    lastPeriodStart: string,
    previousPeriodStart: Option<string>,
    cycleLength: int,
    periodLength: int,
    logs: seq<PeriodLog>)
}
