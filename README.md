# lifedown — a Dafny model of its scheduling, cycle and list logic

lifedown is a small personal-organiser app with four tabs and a background notifier:
- a to-do list with starred tasks, a reward "vault" and sticky notes;
- a weekly course timetable whose section times come from the settings;
- a month calendar;
- a special-days page with countdowns, anniversaries and a period tracker.

This project models the logic underneath those screens and proves what that logic promises.

**Utilities.**
- Section times: `getSectionTimeRange` walks the sections with two counting loops, and `formatTime` renders `HH:MM`.
- Cycle phase: `getCyclePhase` classifies a day as menstrual, ovulation day, ovulation window or safe.
- Calendar helpers: `formatDate`, `getDaysInMonth` and `getDayDiff`.

**View handlers**, each modelled as a function from the old list or record to the new one:
- SpecialDaysView: period start and one-level undo, saving a log, event add, update and delete, the countdown label.
- TodoView: the priority sort of today's tasks, the stats, the future list and the vault, the task and note handlers, and the future and history grouping.
- ScheduleView: break overrides, course save and delete, the end-section selector, the week header.
- CalendarView: the Monday-first grid, month navigation, the selected day's lists and the per-day markers.

**The notifier.** `NotificationManager` holds three refs that one tick of its interval updates. It becomes the class `Notifications.NotificationManager`, whose `Tick` method returns the reminders to send.

Modelling choices:
- Dates are civil dates `Date(year, month0, day)` with a day number counted from 1970-01-01, in the Gregorian calendar.
- The local time zone is taken to be UTC. With that, `new Date("YYYY-MM-DD")` (UTC midnight) and `formatDate` (local fields) refer to the same day.
- "Now" is a valid civil date plus the milliseconds since midnight.
- JavaScript's truncating `%` is written out (`ScheduleTime.JsRem`).
- `Math.floor` of a quotient is floor division (`Cycle.FloorDiv`): Euclidean `/` for a positive divisor, written out for a negative one.
- `Number.prototype.toString` and `padStart(2, "0")` are `Text.IntToString` and `Text.Pad2`.
- `String.prototype.trim` is `Text.Trim`.
- `localeCompare` on the `HH:MM` and `YYYY-MM-DD` strings is lexicographic order on characters (`Text.LexCompare`).
- `Array.prototype.sort` is a stable insertion sort (`Sorting.SortBy`) under a comparator that is a total preorder. Stability is what ECMAScript 2019 requires.
- Optional fields are `Option` values, and JavaScript truthiness of an optional string or boolean is `TruthyStr` / `TruthyBool`.
- Ids, colours and timestamps that the source draws from `generateId`, `Math.random` and `new Date()` are parameters.
- `specificBreaks` is a `map<int, int>`, so a missing key differs from a key holding 0.

For settings 08:00 / 45 / 10 with `{2: 20}`, section 3 with span 2 runs 10:00–11:40 (`ScheduleTime.ExampleRange`).

## Model

| member | source | states |
|---|---|---|
| Calendar.IsoWeekday | components/CalendarView.tsx:37 | the weekday mapping `getDay() === 0 ? 7 : getDay()` lies in 1..7 and agrees with `getDay()` modulo 7 |
| Calendar.AddDays | components/ScheduleView.tsx:39-44 | moving a valid date by `k` days with `setDate` gives a valid date whose day number is `k` more |
| Calendar.AddDaysCompose | components/ScheduleView.tsx:39-44 | two date moves are one move by their sum |
| Calendar.MakeDate | components/CalendarView.tsx:22-24 | `new Date(y, m, d)` always yields a valid date, and a date already in range (two-digit years mapped to 19xx) is kept unchanged |
| Calendar.DayNumberInjective | utils.ts:37-42 | distinct valid dates have distinct day numbers, so a zero day difference means the same date |
| Calendar.FormatParseRoundTrip | utils.ts:20-25 | `formatDate` of a four-digit-year date is `YYYY-MM-DD`, which parses back to the same date |
| Calendar.FormatDateInjective | utils.ts:20-25 | two four-digit-year dates have the same `formatDate` text exactly when they are the same date |
| Calendar.TwoDigitField | utils.ts:22-23 | month and day are padded to exactly two digits that read back as the number |
| Calendar.ParseIsoDate | utils.ts:38-39 | a `YYYY-MM-DD` text parses only to a valid calendar date |
| Calendar.GetDayDiff | utils.ts:37-42 | the day difference is defined exactly when both texts are dates, and is then a natural number |
| Calendar.DayDiffProperties | utils.ts:37-42 | the day difference is symmetric, and it is 0 exactly for the same date |
| Calendar.GetDaysInMonth | utils.ts:27-35 | the loop lists days 1..N of the month in ascending order, where N is the Gregorian month length (two-digit years mapped as `new Date` does); with a month outside 0..11 it lists nothing |
| ScheduleTime.GetSectionTimeRange | utils.ts:53-97 | the two counting loops produce the rendered start of the section and the rendered end of the block, given by the closed forms `SectionStart` and `SectionEnd` |
| ScheduleTime.FirstSectionStart | utils.ts:54 | section 1 starts at `startHour*60+startMinute` and a one-section block ends one class duration later |
| ScheduleTime.StartStep | utils.ts:58-66 | each section starts one class duration plus the effective break after the previous one |
| ScheduleTime.NextSectionStart | utils.ts:58-85 | the gap between consecutive single sections is exactly the effective break after the first |
| ScheduleTime.BlockEndsWithLastSection | utils.ts:68-85 | a block of `k` sections from `n` ends where section `n+k-1` alone ends |
| ScheduleTime.PartialBlockStep | utils.ts:72-83 | each pass of the duration loop adds a class and, except on the last, the effective break after that section, so the loop total is the block length |
| ScheduleTime.BreaksSplit | utils.ts:58-66 | the breaks summed over adjacent section ranges add up |
| ScheduleTime.BreaksAgree | utils.ts:63-65 | settings with the same effective breaks over a range give the same break total there |
| ScheduleTime.OverrideLocality | utils.ts:63-64 | setting the break after section `k` never moves sections up to `k`, and moves every later section by the change in that break |
| ScheduleTime.JsRem | utils.ts:47-48 | JavaScript's `%`: the remainder takes the dividend's sign and is smaller in size than the divisor |
| ScheduleTime.FormatTimeRoundTrip | utils.ts:46-50 | `formatTime(h, m)` reads back, when split at `:`, as the hour rem 24 and the minute rem 60 |
| ScheduleTime.FormatTimeShape | utils.ts:46-50 | for non-negative inputs the text is five characters, `HH:MM`, zero-padded, with hour mod 24 and minute mod 60 |
| ScheduleTime.SplitOneColon | components/NotificationManager.tsx:83 | splitting `a:b` at `:` gives `[a, b]` when neither part holds a colon |
| ScheduleTime.RenderedFieldHasNoColon | utils.ts:49 | a rendered time field never holds a colon |
| ScheduleTime.PaddedDigits | utils.ts:49 | a field below 100 renders as exactly two digits |
| ScheduleTime.StartMinutes | utils.ts:54-66 | the first loop ends with the start of the requested section, the sum of the class durations and effective breaks of the sections before it |
| ScheduleTime.DurationMinutes | utils.ts:72-83 | the second loop ends with the length of the block: `count` classes and the effective breaks between them, none after the last |
| ScheduleTime.ClockDigits | utils.ts:87-96 | a minute of the day renders as the two hour digits, `:`, and the two minute digits |
| ScheduleTime.ExampleRange | utils.ts:53-97 | with 08:00, 45-minute classes, 10-minute breaks and a 20-minute break after section 2, section 3 with span 2 runs 10:00–11:40 |
| Cycle.FloorDiv | utils.ts:114 | `Math.floor(a / b)`: the quotient rounded down, also for negative day offsets, bracketed by the multiples of the divisor |
| Cycle.DayOfCycleRange | utils.ts:113-125 | with a positive cycle length the day of cycle lies in 1..cycleLength, before the anchor as well |
| Cycle.AnchorBoundary | utils.ts:118-125 | the anchor is day 1, and the day before the anchor is day `cycleLength`, by floor rather than truncating division |
| Cycle.AnchorDay | utils.ts:110-134 | on the anchor date itself the day of cycle is 1, and the phase is menstrual when the period lasts at least a day |
| Cycle.FloorDivShift | utils.ts:118 | adding one cycle to the offset adds one to the cycle index |
| Cycle.DayOfCyclePeriodic | utils.ts:118-125 | shifting the offset by one cycle length leaves the day of cycle unchanged |
| Cycle.PhaseAtPeriodic | utils.ts:113-141 | shifting the day number by one cycle length leaves phase and day of cycle unchanged |
| Cycle.PhasePeriodic | utils.ts:103-142 | the date `cycleLength` days later has the same phase and day of cycle |
| Cycle.ClassifyCases | utils.ts:129-141 | first match wins: menstrual on 1..periodLength; else ovulation day on cycleLength−14; else ovulation on cycleLength−19..cycleLength−10; else safe, each case as an if-and-only-if |
| Cycle.ShortCycleHasNoOvulation | utils.ts:129-141 | without clamping, a cycle of at most 10 days never shows an ovulation phase |
| Cycle.ExampleAnchor | utils.ts:110 | `2023-10-01` parses to 1 October 2023 |
| Cycle.ExamplePhases | utils.ts:103-142 | anchored on 2023-10-01 with cycle 28 and period 5, 2023-10-14 is the ovulation day (day 14), 2023-10-20 is safe (day 20) and 2023-10-03 is menstrual (day 3) |
| SpecialDays.PeriodStartEffect | components/SpecialDaysView.tsx:123-132 | after "period started" the anchor is today and cycle length, period length and logs are untouched; the undo slot holds the old anchor, or is untouched when the anchor already was today |
| SpecialDays.PeriodStartIdempotent | components/SpecialDaysView.tsx:124-125 | a second "period started" on the same day changes nothing |
| SpecialDays.StartThenUndo | components/SpecialDaysView.tsx:123-142 | start followed by undo restores the original anchor and empties the undo slot |
| SpecialDays.StartFromEmptyAnchorIsFinal | components/SpecialDaysView.tsx:135 | when the old anchor was empty, the undo slot is falsy and undo does nothing |
| SpecialDays.UndoOnce | components/SpecialDaysView.tsx:134-142 | undo either empties the undo slot or changes nothing, and a second undo does nothing |
| SpecialDays.SaveLogEffect | components/SpecialDaysView.tsx:101-121 | after saving, exactly one log carries today's date and it is the new one, placed last; logs of other dates keep their order; nothing else of the record changes |
| SpecialDays.FilterKeepsUniqueDates | components/SpecialDaysView.tsx:112 | filtering logs keeps "at most one log per date" |
| SpecialDays.SaveLogKeepsUniqueDates | components/SpecialDaysView.tsx:110-114 | saving a log preserves "at most one log per date" |
| SpecialDays.AddEventEffect | components/SpecialDaysView.tsx:57-67 | with no title or no date nothing is added; otherwise exactly one event, with the given fields, is appended at the end |
| SpecialDays.UpdateEventEffect | components/SpecialDaysView.tsx:77-87 | only events with the edited id change, in title, date and type, and only when an event is being edited and title and date are non-empty; ids and length are kept |
| SpecialDays.DeleteEventEffect | components/SpecialDaysView.tsx:89-94 | deletion keeps exactly the events with another id, each as often as before, and an unused id changes nothing |
| SpecialDays.DeleteEventKeepsOrder | components/SpecialDaysView.tsx:89-94 | the kept events stay in their order: deleting from a joined list deletes from each part, and one event is kept exactly when no event is edited or its id differs |
| SpecialDays.CountdownValueDistance | components/SpecialDaysView.tsx:326 | the countdown is the absolute distance in days between today and the event date, defined only for a well-formed date |
| SpecialDays.LabelCases | components/SpecialDaysView.tsx:327-329 | the label is "passed" exactly for dates before today's current instant (today counts once midnight has passed); otherwise it is the anniversary or remaining label by event type |
| Todos.CompareAsWrittenInconsistent | components/TodoView.tsx:52-65 | for a pending task whose star flag is undefined and one whose flag is `false`, the comparator as written puts each after the other |
| Todos.AsWrittenNotTotalPreorder | components/TodoView.tsx:57 | the comparator as written is not a total preorder, so the sort order it yields is unspecified |
| Todos.CompareAgreesOnDefinedStars | components/TodoView.tsx:52-65 | on tasks whose star flags are defined, the written comparator and the corrected one give the same result |
| Todos.TimesLe | components/TodoView.tsx:60-64 | the time rule puts timed before untimed tasks, times in `localeCompare` order, and is a tie otherwise |
| Todos.TodayLeTotalPreorder | components/TodoView.tsx:52-65 | the corrected comparator is total and transitive |
| Todos.TodaysTodosOrder | components/TodoView.tsx:41-65 | today's list is a permutation of the tasks dated today; pending tasks precede completed ones; within a status, starred tasks come first; then timed before untimed, by ascending time; ties keep list order |
| Todos.StatsConsistent | components/TodoView.tsx:44-49 | total = completed + uncompleted and starred ≤ total, where each count is a count of today's tasks |
| Todos.DateLeTotalPreorder | components/TodoView.tsx:70 | ordering by date text is a total preorder |
| Todos.FutureTodosOrder | components/TodoView.tsx:68-70 | the future list is a permutation of the tasks dated after today, in ascending date order, with ties in list order |
| Todos.VaultMembership | components/TodoView.tsx:73-75 | a task is in the vault exactly when it is listed, completed, has a non-empty reward and is not claimed |
| Todos.ClaimRewardLeavesVault | components/TodoView.tsx:161-166 | after claiming, no task with that id is in the vault, and every other task's vault membership is as before |
| Todos.ToggleCompleteEffect | components/TodoView.tsx:139-146 | only tasks with that id change, and only in `completed`; toggling twice is the identity |
| Todos.ToggleStarEffect | components/TodoView.tsx:148-154 | only tasks with that id change, and only in the star flag, which becomes the negation of its truthiness; toggling twice is the identity when the flag was defined |
| Todos.DeleteTodoEffect | components/TodoView.tsx:156-159 | deletion removes every task with that id and keeps each other task as often as before; an unused id changes nothing |
| Todos.DeleteTodoKeepsOrder | components/TodoView.tsx:156-159 | the remaining tasks stay in their order: deleting from a joined list deletes from each part, and one task survives exactly when its id differs |
| Todos.SavedFieldsNormalised | components/TodoView.tsx:83-91 | a blank reward or an empty time is stored as undefined; a stored reward is the trimmed text and never empty |
| Todos.SaveTaskEffect | components/TodoView.tsx:79-110 | blank text changes nothing; a new task goes first with completed, claimed and starred all false; an edit rewrites only text, date, time and reward of the matching id and keeps completed, starred, claimed and points |
| Todos.SaveNoteEffect | components/TodoView.tsx:198-219 | a blank note changes nothing; a new note goes first; an edit changes only the content and timestamp of the matching note |
| Todos.DeleteNoteEffect | components/TodoView.tsx:233-238 | deletion removes every note with that id and keeps each other note as often as before |
| Todos.DeleteNoteKeepsOrder | components/TodoView.tsx:233-238 | the remaining notes stay in their order: deleting from a joined list deletes from each part, and one note survives exactly when its id differs |
| Grouping.GroupStep | components/TodoView.tsx:252-253 | pushing one more task into its key's bucket keeps every bucket equal to the tasks so far with that key, in order |
| Grouping.GroupByKey | components/TodoView.tsx:241-254 | the `forEach` loop builds one non-empty bucket per key, holding exactly the tasks with that key in list order, with keys distinct and in first-appearance order |
| Grouping.PermutedEntries | components/TodoView.tsx:255 | sorting the entries keeps their keys distinct and their membership unchanged |
| Grouping.ReorderedGroups | components/TodoView.tsx:255-269 | after sorting, every entry is still a non-empty bucket of exactly the tasks with its key, and every task has an entry for its key |
| Grouping.GetFutureGroups | components/TodoView.tsx:263-270 | one entry per future date, in strictly ascending date order, each holding exactly the tasks of that date in list order; every future task is under its own date |
| Grouping.FutureGroupContents | components/TodoView.tsx:68-70 | bucketing the date-sorted future list gives, per date, the tasks of that date in their original list order |
| Grouping.IsoDateBelowLabels | components/TodoView.tsx:256-258 | every `YYYY-MM-DD` date sorts below `9999-99-98`, since no month reaches 99 |
| Grouping.LabelKeysOrdered | components/TodoView.tsx:256-257 | the today key `9999-99-99` sorts above the yesterday key `9999-99-98` |
| Grouping.GetHistoryGroups | components/TodoView.tsx:240-260 | completed tasks are grouped under "今天", "昨天" or their date, each group exactly those tasks in list order, keys distinct and in descending sort-key order; with well-formed dates "今天" comes first and only it may precede "昨天" |
| Grouping.HistoryLabelsLead | components/TodoView.tsx:255-259 | when every completed task has a well-formed date, "今天" can only be the first group and only "今天" may come before "昨天" |
| Grouping.LabelsOrdered | components/TodoView.tsx:255-259 | in a descending list whose other keys are dates, the two labels lead |
| ScheduleView.AddSpecificBreakEffect | components/ScheduleView.tsx:121-129 | adding sets that one key to the duration, overwriting any old value; every other key and setting is unchanged, and the effective break there is the new duration |
| ScheduleView.RemoveSpecificBreakEffect | components/ScheduleView.tsx:131-138 | removing makes the key absent and keeps every other key and setting; that section's break falls back to the default |
| ScheduleView.AddThenRemove | components/ScheduleView.tsx:121-138 | adding an override for a section that had none and then removing it restores the settings |
| ScheduleView.AddSpecificBreakShift | components/ScheduleView.tsx:121-129 | an added override after section `k` moves no section up to `k` and moves later sections by the change in that break |
| ScheduleView.SaveCourseEffect | components/ScheduleView.tsx:77-107 | a blank name changes nothing; an edit rewrites every field but the id of the courses with the edited id; otherwise a new course is appended at the end |
| ScheduleView.DeleteCourseEffect | components/ScheduleView.tsx:109-114 | with a course being edited, every course with that id is removed and the rest are kept as often as before; otherwise nothing changes |
| ScheduleView.DeleteCourseKeepsOrder | components/ScheduleView.tsx:109-114 | the kept courses stay in their order: deleting from a joined list deletes from each part, and one course is dropped exactly when a truthy id is edited and it has that id |
| ScheduleView.ClampSectionCountEffect | components/ScheduleView.tsx:333-334 | the section count is at least 1; an end at or after the start becomes the course's last section |
| ScheduleView.EndOptionsExact | components/ScheduleView.tsx:338-341 | the offered ends are exactly start..totalSections in ascending order, and each yields a course that ends within the day |
| ScheduleView.WeekColumnDay | components/ScheduleView.tsx:36-44 | column `i` is `i` days after the Monday, which lies `getDay() \|\| 7` minus 1 days before today |
| ScheduleView.WeekDatesProperties | components/ScheduleView.tsx:36-51 | the header has seven consecutive days, Monday to Sunday, and exactly one is marked today, in column `getDay() \|\| 7` |
| ScheduleView.WeekColumnWeekday | components/ScheduleView.tsx:38-44 | column `i` falls on weekday `(i+1) mod 7`, Monday first |
| ScheduleView.WeekColumnNext | components/ScheduleView.tsx:42-44 | each column's date is the day after the previous column's |
| ScheduleView.WeekColumnToday | components/ScheduleView.tsx:48 | a column is marked today exactly when it is today's column |
| CalendarView.StartDayAdjustedRange | components/CalendarView.tsx:17-20 | Sunday maps to 6 and every other weekday to one less, always in 0..6 |
| CalendarView.GridColumns | components/CalendarView.tsx:17-62 | the grid starts with 0..6 blanks, and then every day of the month lands in its own weekday's column, Monday first |
| CalendarView.ChangeMonthEffect | components/CalendarView.tsx:22-24 | navigation lands on day 1 of the month `delta` months on, carrying into the year |
| CalendarView.ChangeMonthCompose | components/CalendarView.tsx:22-24 | two navigations are one navigation by their sum |
| CalendarView.IsSameDayByNumber | components/CalendarView.tsx:26-30 | same day, month and year holds exactly for the same day number; it is reflexive and symmetric |
| CalendarView.DayListsExact | components/CalendarView.tsx:33-44 | the selected day's tasks and events are exactly the items whose date text is `formatDate` of the day, each as often as listed |
| CalendarView.StartLeTotalPreorder | components/CalendarView.tsx:42 | ordering by start section is a total preorder |
| CalendarView.DayCoursesOrder | components/CalendarView.tsx:37-42 | the day's courses are a permutation of the courses on that weekday (Sunday as 7), in ascending start section, with ties in list order |
| CalendarView.TodoMarkerMatchesList | components/CalendarView.tsx:65 | a day shows a task dot exactly when its task list includes an uncompleted task |
| CalendarView.SpecialMarkerMatchesList | components/CalendarView.tsx:66 | a day shows an event dot exactly when it has events |
| CalendarView.CourseMarkerMatchesList | components/CalendarView.tsx:68-69 | a day shows a course dot exactly when some course falls on its weekday |
| Sorting.SortByCorrect | components/TodoView.tsx:52-65 | `sort` under a total-preorder comparator returns a permutation of its input, sorted, keeping equivalent items in input order |
| Text.LexLeTotalOrder | components/TodoView.tsx:60 | `localeCompare` order on the strings compared is a total order |
| Text.PaddedIntRoundTrip | utils.ts:22-23 | a zero-padded number reads back as the number |
| Notifications.NotificationManager.constructor | components/NotificationManager.tsx:12-14 | the refs start as minute −1, no period date and an empty set of notified classes |
| Notifications.NotificationManager.Tick | components/NotificationManager.tsx:44-105 | one tick's new refs and sent reminders are those of the tick's specification: minute gate, period reminder, then the class pass over today's weekday courses |
| Notifications.NotificationManager.RemindClasses | components/NotificationManager.tsx:75-105 | the `forEach` over today's courses sends and records exactly what the class pass specifies, and leaves the other refs alone |
| Notifications.DiffFromStart | components/NotificationManager.tsx:82-94 | the start text of a course parses back to its start hour and minute, so the window test on the parsed values is the one the model uses |
| Notifications.ClassPassSound | components/NotificationManager.tsx:75-105 | over the pass, every newly recorded key was sent and every sent reminder was for a listed course that was due and not yet recorded, under its own key |
| Notifications.TickGated | components/NotificationManager.tsx:49 | a tick in the minute already checked changes nothing and sends nothing |
| Notifications.TickPeriodReminder | components/NotificationManager.tsx:50-67 | otherwise the minute is recorded; a period reminder is sent, first, exactly when the phase is menstrual and today is not yet recorded, and today is then recorded |
| Notifications.TickClassReminders | components/NotificationManager.tsx:72-103 | the notified set only grows; each class reminder is for a course on today's weekday, keyed `date-id`, within 29 to 31 minutes of its start, not notified before and recorded now; keys are distinct and the new keys are exactly those sent |
| Notifications.ClassPassComplete | components/NotificationManager.tsx:75-105 | a listed course that is due and whose key was not recorded before the pass has its key recorded by the end of the pass |
| Notifications.TickClassRemindersComplete | components/NotificationManager.tsx:72-103 | conversely, in a new minute every course of today within 29 to 31 minutes of its start and not yet notified gets its `date-id` key recorded and a class reminder under that key |
| Notifications.SecondTickRepeatsNothing | components/NotificationManager.tsx:56-103 | a second tick on the same day repeats no class reminder and no period reminder |
| Notifications.ClassDiffExact | components/NotificationManager.tsx:85-94 | for a start within the day, the difference is the start in milliseconds minus now, and the window holds exactly when now + 29 min ≤ start ≤ now + 31 min |

## Left out

- Rendering is not modelled: JSX, modal and form state, Tailwind classes, the SVG progress ring and the seven-day prediction strip on the period page.
- Long-press handling on tasks is not modelled: it is timer plumbing over `setTimeout` and `clearTimeout`.
- Notification side effects are not modelled: the permission request, `new Notification`, the `setInterval` loop and its teardown. A reminder in the list `Tick` returns stands for a call of `sendNotification`; the titles and bodies of the messages, the room text `course.room || '未知'` among them, are not modelled. Whether the permission was granted does not change what the tick decides, so it is left out.
- services/aiService.ts is not part of this model: it is a network call with a fixed fallback list.
- App.tsx is not part of this model: it only switches tabs and holds mock data.
- `generateId` and the random colour picks are not modelled. The ids and colours, and the timestamps `new Date().toISOString()` would give, are parameters.
- Time zones are left out: local time is taken to be UTC, so `toISOString` dates and `formatDate` dates agree. Daylight-saving effects on millisecond arithmetic are left out with it.
- `formatDate` for years with fewer than four digits is not modelled against `toISOString`. The round-trip lemmas require four-digit years.
- `Calendar.GetDayDiff`: `Math.ceil` of a millisecond difference is modelled as a difference of day numbers. Under UTC, midnights are whole days apart, so the two agree.
- `Calendar.ParseIsoDate` accepts only the `YYYY-MM-DD` form, and a day beyond the month's length counts as invalid (JavaScript engines differ there). The other date-string formats JavaScript accepts parse to `None` here.
- `NaN` results are `None`: an anchor that does not parse or a cycle length of 0 gives no day of cycle (and the safe phase, as in the source), and an unreadable event date gives no countdown.
- `Text.LexCompare` is `localeCompare` only for the plain ASCII digit strings compared here. Locale collation of other text is not modelled.
- Floating-point numbers are not modelled. Every number the core handles is an integer, and the minute difference in the notifier is compared in milliseconds.
- ScheduleView.RemoveSpecificBreak: the source's handler copies `tempSettings` from the render rather than the setter's `prev`. The model takes the settings being edited as its input, which is the same value when no other update is pending.
- SpecialDays.HandlePeriodStart, SpecialDays.HandleUndoPeriodStart: the source's guards read `periodData` from the render while the setters read `prev`. The model takes one record for both, which is the same value when no other update is pending.
- ScheduleView.SaveCourse: the random default colour for a new course is a parameter.
- Todos.HandleSaveTask: the task modal's reset after saving is form state and is not modelled.

## Findings

| source | as written | input that shows it | evidently intended | confidence | as-written member | corrected member |
|---|---|---|---|---|---|---|
| components/TodoView.tsx:57 | `if (a.isStarred !== b.isStarred) return a.isStarred ? -1 : 1;` compares the optional flag by identity, so `undefined` and `false` count as different | two pending tasks on the same day, one with `isStarred` undefined (tasks in the initial data lack the field) and one with `isStarred: false` (every new task): compare(a, b) and compare(b, a) both return 1, so `sort` gets an inconsistent comparator and the order is unspecified | compare the flags by truthiness, so unstarred tasks tie whether the flag is missing or false | not executed | Todos.CompareAsWrittenInconsistent, Todos.AsWrittenNotTotalPreorder | Todos.TodayLeTotalPreorder, Todos.TodaysTodosOrder |
