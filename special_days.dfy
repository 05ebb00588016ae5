/**
 * The state transitions of SpecialDaysView.tsx: the period tracker's "started today"
 * button with its one level of undo, the daily log, the countdown / anniversary list
 * and its labels. Each handler builds a new value from the old one, so each is a
 * function from the old `PeriodData` or event list to the new one; `today` is the
 * civil date of the render and `msOfDay` the milliseconds since its midnight.
 */
module SpecialDays {
  import opened Wrappers
  import opened Seqs
  import opened Calendar
  import opened Types

  // ---------- period start and undo ----------

  /**
   * `handlePeriodStart`: nothing when the anchor is already today; otherwise the old
   * anchor moves into the undo slot and today becomes the anchor.
   */
  function HandlePeriodStart(data: PeriodData, today: Date): PeriodData {
    var todayStr := FormatDate(today);
    if data.lastPeriodStart == todayStr then data
    else data.(previousPeriodStart := Some(data.lastPeriodStart), lastPeriodStart := todayStr)
  }

  /** `handleUndoPeriodStart`: a truthy undo slot is restored into the anchor and emptied. */
  function HandleUndoPeriodStart(data: PeriodData): PeriodData {
    if TruthyStr(data.previousPeriodStart)
    then data.(lastPeriodStart := data.previousPeriodStart.value, previousPeriodStart := None)
    else data
  }

  /**
   * After a start, today is the anchor and the cycle settings and logs are untouched;
   * the undo slot holds the old anchor unless it already was today.
   */
  lemma PeriodStartEffect(data: PeriodData, today: Date)
    ensures HandlePeriodStart(data, today).lastPeriodStart == FormatDate(today)
    ensures HandlePeriodStart(data, today).cycleLength == data.cycleLength
    ensures HandlePeriodStart(data, today).periodLength == data.periodLength
    ensures HandlePeriodStart(data, today).logs == data.logs
    ensures HandlePeriodStart(data, today).previousPeriodStart
            == if data.lastPeriodStart == FormatDate(today) then data.previousPeriodStart
               else Some(data.lastPeriodStart)
  {
  }

  /** Pressing the button twice on the same day is pressing it once: the undo slot is not overwritten. */
  lemma PeriodStartIdempotent(data: PeriodData, today: Date)
    ensures HandlePeriodStart(HandlePeriodStart(data, today), today) == HandlePeriodStart(data, today)
  {
  }

  /** Start followed by undo restores the original anchor; only the undo slot ends up empty. */
  lemma StartThenUndo(data: PeriodData, today: Date)
    requires data.lastPeriodStart != FormatDate(today) && data.lastPeriodStart != ""
    ensures HandleUndoPeriodStart(HandlePeriodStart(data, today)) == data.(previousPeriodStart := None)
  {
  }

  /**
   * An empty anchor is saved into the undo slot as `""`, which is falsy, so that start
   * cannot be undone.
   */
  lemma StartFromEmptyAnchorIsFinal(data: PeriodData, today: Date)
    requires data.lastPeriodStart == "" && FormatDate(today) != ""
    ensures HandleUndoPeriodStart(HandlePeriodStart(data, today)) == HandlePeriodStart(data, today)
  {
  }

  /** There is one level of undo: a second undo changes nothing. */
  lemma UndoOnce(data: PeriodData)
    ensures HandleUndoPeriodStart(data).previousPeriodStart == None || HandleUndoPeriodStart(data) == data
    ensures HandleUndoPeriodStart(HandleUndoPeriodStart(data)) == HandleUndoPeriodStart(data)
  {
  }

  // ---------- daily log ----------

  function NotOn(date: string): PeriodLog -> bool {
    (l: PeriodLog) => l.date != date
  }

  /** `saveLog`: drop every log dated today and append the new one. */
  function SaveLog(data: PeriodData, today: Date, flow: Option<int>, mood: Option<string>,
                   symptoms: seq<string>): PeriodData
  {
    var todayStr := FormatDate(today);
    var newLog := PeriodLog(todayStr, flow, Some(symptoms), mood);
    data.(logs := Filter(data.logs, NotOn(todayStr)) + [newLog])
  }

  /** No two logs share a date. */
  predicate UniqueDates(logs: seq<PeriodLog>) {
    forall i, j :: 0 <= i < j < |logs| ==> logs[i].date != logs[j].date
  }

  /**
   * After saving, exactly one log carries today's date: the new one, placed last; the
   * logs of every other date are the same, in the same order; nothing else changes.
   */
  lemma SaveLogEffect(data: PeriodData, today: Date, flow: Option<int>, mood: Option<string>,
                      symptoms: seq<string>)
    ensures var r := SaveLog(data, today, flow, mood, symptoms);
            && |r.logs| >= 1
            && r.logs[|r.logs| - 1] == PeriodLog(FormatDate(today), flow, Some(symptoms), mood)
            && (forall i :: 0 <= i < |r.logs| ==> (r.logs[i].date == FormatDate(today) <==> i == |r.logs| - 1))
            && Filter(r.logs, NotOn(FormatDate(today))) == Filter(data.logs, NotOn(FormatDate(today)))
            && r.(logs := data.logs) == data
  {
    var t := FormatDate(today);
    var kept := Filter(data.logs, NotOn(t));
    var newLog := PeriodLog(t, flow, Some(symptoms), mood);
    FilterSnoc(kept, newLog, NotOn(t));
    FilterFilter(data.logs, NotOn(t), NotOn(t), NotOn(t));
    forall i | 0 <= i < |kept| ensures kept[i].date != t {
      assert NotOn(t)(kept[i]);
    }
  }

  lemma {:induction false} FilterKeepsUniqueDates(logs: seq<PeriodLog>, p: PeriodLog -> bool)
    requires UniqueDates(logs)
    ensures UniqueDates(Filter(logs, p))
  {
    if logs != [] {
      var init := logs[..|logs| - 1];
      var x := logs[|logs| - 1];
      assert UniqueDates(init);
      FilterKeepsUniqueDates(init, p);
      var f := Filter(init, p);
      forall i | 0 <= i < |f| ensures f[i].date != x.date {
        assert f[i] in init;
      }
    }
  }

  /** Saving a log keeps "at most one log per date". */
  lemma SaveLogKeepsUniqueDates(data: PeriodData, today: Date, flow: Option<int>, mood: Option<string>,
                                symptoms: seq<string>)
    requires UniqueDates(data.logs)
    ensures UniqueDates(SaveLog(data, today, flow, mood, symptoms).logs)
  {
    var t := FormatDate(today);
    var kept := Filter(data.logs, NotOn(t));
    FilterKeepsUniqueDates(data.logs, NotOn(t));
    forall i | 0 <= i < |kept| ensures kept[i].date != t {
      assert NotOn(t)(kept[i]);
    }
  }

  // ---------- countdown and anniversary events ----------

  /** `handleAddEvent`: an empty title or date adds nothing; otherwise one event is appended. */
  function AddEvent(days: seq<SpecialDay>, id: string, title: string, date: string,
                    kind: SpecialDayKind): seq<SpecialDay>
  {
    if title == "" || date == "" then days else days + [SpecialDay(id, title, date, kind)]
  }

  function Retitle(id: string, title: string, date: string, kind: SpecialDayKind): SpecialDay -> SpecialDay {
    (d: SpecialDay) => if d.id == id then d.(title := title, date := date, kind := kind) else d
  }

  /** `handleUpdateEvent`: rewrite title, date and type of the event being edited. */
  function UpdateEvent(days: seq<SpecialDay>, editing: Option<SpecialDay>, title: string, date: string,
                       kind: SpecialDayKind): seq<SpecialDay>
  {
    if editing.None? || title == "" || date == "" then days
    else Map(days, Retitle(editing.value.id, title, date, kind))
  }

  function IdIsNot(id: string): SpecialDay -> bool {
    (d: SpecialDay) => d.id != id
  }

  /** `handleDeleteEvent`: drop every event with the edited event's id. */
  function DeleteEvent(days: seq<SpecialDay>, editing: Option<SpecialDay>): seq<SpecialDay> {
    if editing.None? then days else Filter(days, IdIsNot(editing.value.id))
  }

  /** Adding keeps every existing event in place and appends exactly one, or nothing. */
  lemma AddEventEffect(days: seq<SpecialDay>, id: string, title: string, date: string, kind: SpecialDayKind)
    ensures var r := AddEvent(days, id, title, date, kind);
            && (title == "" || date == "" ==> r == days)
            && (title != "" && date != "" ==>
                  |r| == |days| + 1 && r[..|days|] == days && r[|days|] == SpecialDay(id, title, date, kind))
  {
  }

  /**
   * An update keeps the list's length and ids; the events with the edited id get the
   * new title, date and type; every other event is unchanged.
   */
  lemma UpdateEventEffect(days: seq<SpecialDay>, editing: Option<SpecialDay>, title: string, date: string,
                          kind: SpecialDayKind)
    ensures var r := UpdateEvent(days, editing, title, date, kind);
            && |r| == |days|
            && (forall i :: 0 <= i < |days| ==> r[i].id == days[i].id)
            && (forall i :: 0 <= i < |days| && (editing.None? || days[i].id != editing.value.id) ==> r[i] == days[i])
            && (editing.Some? && title != "" && date != "" ==>
                  forall i :: 0 <= i < |days| && days[i].id == editing.value.id ==>
                    r[i] == SpecialDay(days[i].id, title, date, kind))
            && (editing.None? || title == "" || date == "" ==> r == days)
  {
  }

  /**
   * Deleting removes exactly the events with the edited id and keeps every other event
   * as often as before; `DeleteEventKeepsOrder` adds that their order is kept.
   */
  lemma DeleteEventEffect(days: seq<SpecialDay>, editing: SpecialDay)
    ensures var r := DeleteEvent(days, Some(editing));
            && (forall d :: d in r <==> d in days && d.id != editing.id)
            && (forall d :: multiset(r)[d] == if d.id == editing.id then 0 else multiset(days)[d])
            && ((forall i :: 0 <= i < |days| ==> days[i].id != editing.id) ==> r == days)
  {
    forall d ensures multiset(DeleteEvent(days, Some(editing)))[d]
                     == if d.id == editing.id then 0 else multiset(days)[d]
    {
      FilterMultiset(days, IdIsNot(editing.id), d);
    }
    if forall i :: 0 <= i < |days| ==> days[i].id != editing.id {
      FilterAll(days, IdIsNot(editing.id));
    }
  }

  /**
   * The kept events stay in order: deleting from a joined list is deleting from each
   * part, and a single event is kept exactly when no event is being edited or its id differs.
   */
  lemma DeleteEventKeepsOrder(a: seq<SpecialDay>, b: seq<SpecialDay>, e: SpecialDay, editing: Option<SpecialDay>)
    ensures DeleteEvent(a + b, editing) == DeleteEvent(a, editing) + DeleteEvent(b, editing)
    ensures DeleteEvent([e], editing) == if editing.Some? && e.id == editing.value.id then [] else [e]
  {
    if editing.Some? {
      FilterConcat(a, b, IdIsNot(editing.value.id));
      FilterSnoc([], e, IdIsNot(editing.value.id));
    }
  }

  /** The label shown under a countdown value. */
  datatype CountdownLabel = Passed | Commemorated | Remaining

  /** `Math.abs(getDayDiff(formatDate(today), day.date))`; `None` is NaN. */
  function CountdownValue(today: Date, day: SpecialDay): Option<nat> {
    GetDayDiff(FormatDate(today), day.date)
  }

  /**
   * `new Date(day.date) < today`: the event's midnight lies before the current instant.
   * An Invalid Date compares false.
   */
  predicate IsPast(today: Date, msOfDay: int, day: SpecialDay)
    requires Valid(today)
  {
    match ParseIsoDate(day.date)
    case None => false
    case Some(d) => DayNumber(d) < DayNumber(today) || (DayNumber(d) == DayNumber(today) && msOfDay > 0)
  }

  /** Past events read "days passed"; otherwise the event's type picks the label. */
  function Label(today: Date, msOfDay: int, day: SpecialDay): CountdownLabel
    requires Valid(today)
  {
    if IsPast(today, msOfDay, day) then Passed
    else if day.kind == Anniversary then Commemorated else Remaining
  }

  /**
   * The countdown value is the distance in days between today and the event, in either
   * direction; an unreadable event date shows NaN and is never past.
   */
  lemma CountdownValueDistance(today: Date, day: SpecialDay)
    requires Valid(today) && 1000 <= today.year <= 9999
    ensures ParseIsoDate(day.date).None? ==> CountdownValue(today, day).None?
    ensures ParseIsoDate(day.date).Some? ==>
              var n := DayNumber(ParseIsoDate(day.date).value) - DayNumber(today);
              CountdownValue(today, day) == Some(if n < 0 then -n else n)
  {
    FormatParseRoundTrip(today);
  }

  /**
   * The label: a date before today is passed, a later date never is, and the event of
   * today itself counts as passed once its midnight is behind (any time after 00:00:00.000).
   */
  lemma LabelCases(today: Date, msOfDay: int, day: SpecialDay)
    requires Valid(today)
    ensures ParseIsoDate(day.date).None? ==> Label(today, msOfDay, day) != Passed
    ensures ParseIsoDate(day.date).Some? ==>
              var n := DayNumber(ParseIsoDate(day.date).value);
              (n < DayNumber(today) ==> Label(today, msOfDay, day) == Passed)
              && (n > DayNumber(today) ==> Label(today, msOfDay, day) != Passed)
              && (n == DayNumber(today) ==> (Label(today, msOfDay, day) == Passed <==> msOfDay > 0))
    ensures Label(today, msOfDay, day) == Commemorated ==> day.kind == Anniversary
    ensures Label(today, msOfDay, day) == Remaining ==> day.kind == Countdown
  {
  }
}
