# Tasks calendar core in Dafny

This project models the client-side core of a task manager with a calendar.
Tasks are rows with an optional due date and an optional iCalendar
recurrence rule (RRULE). A completion is a row saying that a task was done on
one `YYYY-MM-DD` day. The calendar shows task *instances*: one per due date,
or one per occurrence of a recurring task's rule. Three reactive stores hold
the tasks, the completions and the calendar's position. A realtime manager
applies the database's change feed to the two data stores.

Modules, in dependency order:

- `Wrappers`: `Option` and `Result`.
- `Civil`: the proleptic Gregorian calendar of ECMAScript. It has day numbers
  counted from 1970-01-01, `CivilOf` (day number to year, month and day),
  `DayNumber` (the inverse), `MakeDay` (which normalises month overflow) and
  `Weekday`.
- `JsDate`: the parts of `Date` the code uses. A time value is an integer
  count of milliseconds. Local time is UTC shifted by a fixed offset `tz`.
  The module defines the getters `getDay`, `getDate`, `getMonth` and
  `getFullYear`, the setters `setDate`, `setMonth` and `setHours`, and
  `new Date(y, m, d)`, which reads a year from 0 through 99 as 1900 + y.
- `Text`: digit strings, `split` and `join`.
- `DateKey`: `toISOString`, `formatDateKey` and `createCompletionKey`.
- `RRule`: the rule strings the application writes (`FREQ`, `INTERVAL`,
  `BYDAY`, `BYMONTHDAY`). It has a parser standing for
  `RRule.fromString(...).origOptions` and a writer, proved to round-trip.
- `Occurrences`: which instants a rule with a start yields (`IsOccurrence`),
  and `between(start, end, true)` as the increasing list of those instants in
  a window.
- `Types`: the task, partial task, completion and instance records.
- `Sorting`: `Array.prototype.sort` as an insertion sort on a three-integer
  key.
- `Seqs`: `Array.prototype.filter` and its laws.
- `Recurrence`: `expandRecurringTask` and `formatRecurrenceForDisplay`.
- `CalendarService`: `expandTasksToInstances`, `groupTasksByDate`,
  `getDateRange`, the week, month, month-display and year bounds, and
  `isSameDay`.
- `TasksStore`, `CompletionsStore`, `CalendarStore`: the three stores. Each is
  a class whose methods replace its fields, as the store's `update` and `set`
  calls do. Each list operation is specified by a pure function whose laws
  are proved as lemmas.
- `Realtime`: `RealtimeManager`. It dispatches change events to the stores
  and keeps at most one live channel per table.

`new Date()` is a parameter `now` wherever the source reads the clock.

## Model

| member | source | states |
|---|---|---|
| Recurrence.RuleOptions | src/lib/services/recurrence-service.ts:59 | A rule the parser accepts always has a frequency; a rule it rejects is reported as `None`, the path the `catch` takes |
| Recurrence.ExpandRecurringTask | src/lib/services/recurrence-service.ts:29-92 | Without a rule at most one instance; with a rule that fails to parse, no instances |
| Recurrence.ExpandWithoutRule | src/lib/services/recurrence-service.ts:35-55 | Without a rule there is exactly one instance iff the due date lies in the inclusive window. It carries the task's own id, title and priority, the due date, no rule, and is completed iff the task's status is `completed` |
| Recurrence.ExpandWithRule | src/lib/services/recurrence-service.ts:57-87 | With a rule, every instance is an occurrence of the rule started at the due date (else the creation time) inside the window. Its id is `taskId_YYYY-MM-DD` of its date, it carries the task's title, priority and rule, and it is completed iff its id is in the completed set |
| Recurrence.ExpandCoversOccurrences | src/lib/services/recurrence-service.ts:59-73 | The instance dates are strictly increasing and are exactly the rule's occurrences in the inclusive window |
| Recurrence.ExpandFormattedRule | src/lib/services/recurrence-service.ts:59-71 | A task whose rule string was written from options `o` expands to exactly the occurrences of `o` in the window |
| Recurrence.DistinctDateIds | src/lib/services/recurrence-service.ts:74-75 | Two occurrences at one time of day on different days get different instance ids |
| Recurrence.ExpandIdsDistinct | src/lib/services/recurrence-service.ts:73-87 | No two instances of one task share an id, for windows within years 0..9999 |
| Recurrence.DayNames | src/lib/services/recurrence-service.ts:122-137 | One day name per chosen weekday, in order, from the locale's table |
| Recurrence.Describe | src/lib/services/recurrence-service.ts:104-178 | The text for a rule with a known frequency is never empty |
| Recurrence.FormatRecurrenceForDisplay | src/lib/services/recurrence-service.ts:97-185 | The result is empty iff the rule is null or empty; an unreadable rule is returned unchanged; otherwise it is the description of the parsed options |
| Recurrence.DisplayFormattedRule | src/lib/services/recurrence-service.ts:97-178 | A rule string written from options is displayed as the description of those options |
| Recurrence.DescribeIntervalOne | src/lib/services/recurrence-service.ts:106-173 | `INTERVAL=1` reads the same as no interval (`interval > 1` guards every "Every n ..." text) |
| Recurrence.DescribeIgnoresInterval | src/lib/services/recurrence-service.ts:116-178 | A weekly rule with days, a monthly rule with month days and a yearly rule read the same whatever their interval |
| Recurrence.DescribeMonthlyFirstDay | src/lib/services/recurrence-service.ts:158-164 | A monthly rule with month days is described by its first month day alone, and differently from the same rule without month days |
| Recurrence.DescribeNamesEveryDay | src/lib/services/recurrence-service.ts:117-148 | Every chosen weekday's name occurs in the description of a weekly rule |
| Recurrence.DayListHas | src/lib/services/recurrence-service.ts:139-147 | Every name occurs in the "a, b and c" list |
| Recurrence.JoinStringsHas | src/lib/services/recurrence-service.ts:146-147 | Every part occurs in `join(', ')` |
| DateKey.IsoDateHasNoT | src/lib/services/recurrence-service.ts:216 | The date part of `toISOString` holds no `T`, so `split('T')[0]` is exactly that part |
| DateKey.FormatDateKeyIsUtcDate | src/lib/services/recurrence-service.ts:215-217 | formatDateKey is the UTC calendar date of the instant, written `YYYY-MM-DD` |
| DateKey.ParseFormatDateKey | src/lib/services/recurrence-service.ts:215-217 | For years 0..9999 the key has ten characters and reads back to the instant's UTC date |
| DateKey.FormatDateKeyInjective | src/lib/services/recurrence-service.ts:215-217 | Two instants in years 0..9999 get the same key iff they fall on the same UTC day |
| DateKey.CreateCompletionKey | src/lib/services/recurrence-service.ts:222-225 | The key is the task id, `_`, then the date string as given, or formatDateKey of a Date |
| DateKey.CompletionKeyOfDate | src/lib/services/recurrence-service.ts:222-225 | Passing a Date gives the key of its formatDateKey string |
| DateKey.CompletionKeyInjective | src/lib/services/recurrence-service.ts:224 | With date strings of one length, a key determines its task id and its date |
| DateKey.CompletionKeyAmbiguous | src/lib/services/recurrence-service.ts:224 | Without that, keys collide: task `a_b` on `c` and task `a` on `b_c` share `a_b_c` |
| RRule.ParseFormat | src/lib/services/recurrence-service.ts:59 | Reading a rule string written from well-formed options gives back those options |
| Occurrences.Between | src/lib/services/recurrence-service.ts:65-71 | `between(start, end, true)` is strictly increasing and holds exactly the occurrences in the inclusive window |
| Sorting.SortBy | src/lib/services/calendar-service.ts:62-68 | The result is ordered by the key and is a permutation of the input |
| Sorting.SortBySorted | src/lib/services/calendar-service.ts:62-68 | Sorting an ordered list leaves it unchanged |
| Sorting.SortByIdempotent | src/lib/services/calendar-service.ts:62-68 | Sorting twice is sorting once |
| Seqs.Filter | src/lib/stores/tasks.ts:40 | `filter` keeps exactly the accepted elements and never grows the list |
| Seqs.FilterCount | src/lib/stores/tasks.ts:40 | Each accepted element occurs as often as before, each rejected one not at all |
| Seqs.FilterAppend | src/lib/stores/tasks.ts:40 | Filtering splits over concatenation, so the kept elements keep their order |
| Seqs.FilterIdempotent | src/lib/stores/tasks.ts:40 | Filtering twice with one test is filtering once |
| Seqs.FilterDistinct | src/lib/stores/tasks.ts:40 | Filtering keeps keys distinct |
| Types.MergeFull | src/lib/services/realtime-manager.ts:86 | `{ ...t, ...row }` with a whole row is that row |
| CalendarService.ConcatMembers | src/lib/services/calendar-service.ts:46-54 | A value is pushed iff some element's result holds it |
| CalendarService.CollectedMembers | src/lib/services/calendar-service.ts:46-54 | An instance is collected iff some task expands to it |
| CalendarService.Pending | src/lib/services/calendar-service.ts:57-59 | The filter keeps exactly the instances not completed, each as often as before |
| CalendarService.InstanceKeyAgrees | src/lib/services/calendar-service.ts:62-68 | The key (date, then priority with none as 999) orders instances exactly as the comparator does, ties included |
| CalendarService.ExpandTasksToInstances | src/lib/services/calendar-service.ts:37-69 | The result is a permutation of the expanded instances, without the completed ones when `hideCompleted` is set. An instance is in it iff some task expands to it (and it is not completed when hiding). The result is ordered by the comparator |
| CalendarService.WithKeyMembers | src/lib/services/calendar-service.ts:74-85 | A group holds exactly the instances with its key |
| CalendarService.WithKeyCount | src/lib/services/calendar-service.ts:74-85 | A group holds each element with its key exactly as often as the input does, and no element with another key |
| CalendarService.WithKeyNonEmpty | src/lib/services/calendar-service.ts:74-85 | A group is non-empty iff some instance has its key |
| CalendarService.GroupBy | src/lib/services/calendar-service.ts:74-85 | The map has a key iff some element has that key; each entry lists the elements with that key in input order; each element is in its own key's entry exactly as often as in the input |
| CalendarService.GroupTasksByDate | src/lib/services/calendar-service.ts:74-85 | The map's keys are exactly the instances' date keys; each entry lists the instances of that date in input order; each instance is in its date's entry exactly as often as in the input, so none is lost or doubled |
| CalendarService.GroupCount | src/lib/services/calendar-service.ts:74-85 | For any map with GroupBy's keys and entries, each element occurs in its own key's entry as often as in the input and in no other entry |
| CalendarService.GroupsPartition | src/lib/services/calendar-service.ts:74-85 | Every grouped instance is an input with that group's key, and every input is in its own date's group |
| CalendarService.GetDateRange | src/lib/services/calendar-service.ts:90-104 | One local midnight per day from the start's day through the end's day, in order; empty when the end's day comes first |
| CalendarService.MondayOnOrBefore | src/lib/services/calendar-service.ts:113-115 | `day === 0 ? -6 : 1 - day` reaches the Monday on or before the date, at most six days back |
| CalendarService.SundayOnOrAfter | src/lib/services/calendar-service.ts:155-156 | `day === 0 ? 0 : 7 - day` reaches the Sunday on or after the date, at most six days on |
| CalendarService.WeekBoundsSpec | src/lib/services/calendar-service.ts:111-126 | The week runs from Monday's midnight to Sunday's last millisecond, six days later, and contains the date |
| CalendarService.WeekStartDay | src/lib/services/calendar-service.ts:117-119 | The week starts on the Monday-adjusted local day |
| CalendarService.WeekBoundsShift | src/lib/services/calendar-service.ts:111-126 | Moving the date by whole weeks moves the week's start by as many weeks |
| CalendarService.MonthBoundsSpec | src/lib/services/calendar-service.ts:131-139 | The bounds run from the first day's midnight to the last day's last millisecond of the date's month in year FullYear(y) (1900 + y for y in 0..99, as `new Date(y, m, d)` reads it), and contain the date outside local years 0..99 |
| CalendarService.MonthBoundsTwoDigitYear | src/lib/services/calendar-service.ts:132-135 | For a date in local years 0..99 the month's bounds begin more than a week after the date, so they do not contain it |
| CalendarService.PadStart | src/lib/services/calendar-service.ts:147-152 | The display start is midnight of the Monday on or before the month's first day |
| CalendarService.PadEnd | src/lib/services/calendar-service.ts:154-159 | The display end is the last millisecond of the Sunday on or after the month's last day |
| CalendarService.PadWholeWeeks | src/lib/services/calendar-service.ts:144-162 | The display range is a whole number of weeks |
| CalendarService.MonthDisplayBoundsHoldMonth | src/lib/services/calendar-service.ts:144-162 | The display range contains the month, and contains the date outside local years 0..99 |
| CalendarService.MonthDisplayTwoDigitYear | src/lib/services/calendar-service.ts:144-162 | For a date in local years 0..99 the display range begins after the date |
| CalendarService.YearBoundsDays | src/lib/services/calendar-service.ts:167-175 | The year runs from January 1 at midnight to December 31 at its last millisecond of year FullYear(y) |
| CalendarService.YearBoundsSpec | src/lib/services/calendar-service.ts:167-175 | The same for the date's own local year; the bounds contain the date outside local years 0..99 |
| CalendarService.YearBoundsTwoDigitYear | src/lib/services/calendar-service.ts:168-171 | For a date in local years 0..99 the year's bounds begin after the date |
| CalendarService.IsSameDay | src/lib/services/calendar-service.ts:198-204 | Same local year, month and day iff the same local day |
| TasksStore.WithTask | src/lib/stores/tasks.ts:22-30 | After addTask the id is present; the list gains the task only when its id was absent |
| TasksStore.AddTaskIdempotent | src/lib/stores/tasks.ts:22-30 | Adding a task twice is adding it once |
| TasksStore.AddTaskKeepsUnique | src/lib/stores/tasks.ts:25-28 | Adding keeps ids unique |
| TasksStore.Patched | src/lib/stores/tasks.ts:31-36 | updateTask keeps the length, merges the update into the entries with the id and leaves the others unchanged |
| TasksStore.UpdateAbsent | src/lib/stores/tasks.ts:31-36 | Updating an absent id changes nothing |
| TasksStore.UpdateIdempotent | src/lib/stores/tasks.ts:31-36 | Applying an update twice is applying it once |
| TasksStore.UpdateKeepsUnique | src/lib/stores/tasks.ts:31-36 | An update that leaves the id alone keeps every id, so ids stay unique |
| TasksStore.WithoutTask | src/lib/stores/tasks.ts:37-42 | After removeTask the id is absent, and exactly the entries with other ids remain |
| TasksStore.RemoveCounts | src/lib/stores/tasks.ts:37-42 | Each entry with another id occurs as often as before |
| TasksStore.RemoveAppend | src/lib/stores/tasks.ts:37-42 | Removal splits over concatenation, so order is kept |
| TasksStore.RemoveAbsent | src/lib/stores/tasks.ts:37-42 | Removing an absent id changes nothing |
| TasksStore.RemoveIdempotent | src/lib/stores/tasks.ts:37-42 | Removing twice is removing once |
| TasksStore.RemoveKeepsUnique | src/lib/stores/tasks.ts:37-42 | Removal keeps ids unique |
| TasksStore.RemoveAfterAdd | src/lib/stores/tasks.ts:22-42 | Adding then removing a task's id is just removing that id |
| TasksStore.TaskKeyAgrees | src/lib/stores/tasks.ts:61-76 | The key (priority with none as 999, dated first, due date or newest creation) orders tasks exactly as the comparator does, ties included |
| TasksStore.ActiveTasks | src/lib/stores/tasks.ts:58-77 | activeTasks holds exactly the active tasks, with their multiplicities, ordered by the comparator |
| TasksStore.CompletedNotActive | src/lib/stores/tasks.ts:60 | A completed task never shows in activeTasks |
| TasksStore.Store.constructor | src/lib/stores/tasks.ts:11-15 | Initially no tasks, loading, no error |
| TasksStore.Store.SetTasks | src/lib/stores/tasks.ts:19-21 | The list is replaced, loading is cleared and the error reset |
| TasksStore.Store.AddTask | src/lib/stores/tasks.ts:22-30 | The list becomes WithTask of the old list; loading and error unchanged |
| TasksStore.Store.UpdateTask | src/lib/stores/tasks.ts:31-36 | The list becomes Patched of the old list; loading and error unchanged |
| TasksStore.Store.RemoveTask | src/lib/stores/tasks.ts:37-42 | The list becomes WithoutTask of the old list; loading and error unchanged |
| TasksStore.Store.SetLoading | src/lib/stores/tasks.ts:43-45 | Only the loading flag changes |
| TasksStore.Store.SetError | src/lib/stores/tasks.ts:46-48 | The error is set and loading cleared; the list unchanged |
| TasksStore.Store.Reset | src/lib/stores/tasks.ts:49-51 | Back to the initial state |
| CompletionsStore.WithCompletion | src/lib/stores/completions.ts:23-30 | After addCompletion the id is present; the record is appended only when its id was absent |
| CompletionsStore.AddIdempotent | src/lib/stores/completions.ts:23-30 | Adding twice is adding once |
| CompletionsStore.AddKeepsUnique | src/lib/stores/completions.ts:26-28 | Adding keeps ids unique |
| CompletionsStore.WithoutTaskDay | src/lib/stores/completions.ts:31-38 | removeCompletion keeps exactly the records not of that task on that date |
| CompletionsStore.WithoutCompletion | src/lib/stores/completions.ts:39-44 | removeCompletionById leaves no record with the id and keeps every other one |
| CompletionsStore.RemoveAppend | src/lib/stores/completions.ts:31-44 | Both removals split over concatenation, so order is kept |
| CompletionsStore.RemoveCounts | src/lib/stores/completions.ts:31-44 | Both removals keep every other record as often as before; removal by id keeps ids unique |
| CompletionsStore.CompletionSet | src/lib/stores/completions.ts:63-70 | completionSet holds a key iff some record has that key |
| CompletionsStore.CompletionSetAppend | src/lib/stores/completions.ts:65-68 | Each further record adds exactly its key, as the loop's `set.add` does |
| CompletionsStore.AddedKeyPresent | src/lib/stores/completions.ts:23-70 | After addCompletion the record's key is in completionSet |
| CompletionsStore.RemovedKeyAbsent | src/lib/stores/completions.ts:31-70 | After removeCompletion(taskId, date) the key `taskId_date` is gone from completionSet, when all dates have one length |
| CompletionsStore.RemovedKeyCollision | src/lib/stores/completions.ts:66 | Dates of other lengths can keep a removed key alive |
| CompletionsStore.Store.constructor | src/lib/stores/completions.ts:12-16 | Initially no records, not loading, no error |
| CompletionsStore.Store.SetCompletions | src/lib/stores/completions.ts:20-22 | The list is replaced, loading cleared, error reset |
| CompletionsStore.Store.AddCompletion | src/lib/stores/completions.ts:23-30 | The list becomes WithCompletion of the old list; the rest unchanged |
| CompletionsStore.Store.RemoveCompletion | src/lib/stores/completions.ts:31-38 | The list becomes WithoutTaskDay of the old list; the rest unchanged |
| CompletionsStore.Store.RemoveCompletionById | src/lib/stores/completions.ts:39-44 | The list becomes WithoutCompletion of the old list; the rest unchanged |
| CompletionsStore.Store.SetLoading | src/lib/stores/completions.ts:45-47 | Only the loading flag changes |
| CompletionsStore.Store.SetError | src/lib/stores/completions.ts:48-50 | The error is set and loading cleared |
| CompletionsStore.Store.Reset | src/lib/stores/completions.ts:51-53 | Back to the initial state |
| Realtime.TaskEffectSpec | src/lib/services/realtime-manager.ts:74-93 | After an INSERT the row's id is present. After an UPDATE to `completed` and after a DELETE the id is absent. After any other UPDATE every entry with the id is replaced by the new row |
| Realtime.TaskEffectIdempotent | src/lib/services/realtime-manager.ts:74-93 | A task event delivered twice has the effect of one |
| Realtime.TaskEffectKeepsUnique | src/lib/services/realtime-manager.ts:74-93 | Every task event keeps ids unique |
| Realtime.CompletionEffectSpec | src/lib/services/realtime-manager.ts:95-106 | An INSERT makes the id present; a DELETE drops exactly the records of the old row's task and date; an UPDATE changes nothing |
| Realtime.CompletionEffectIdempotent | src/lib/services/realtime-manager.ts:95-106 | A completion event delivered twice has the effect of one |
| Realtime.RealtimeManager.constructor | src/lib/services/realtime-manager.ts:21-27 | No channels held or created |
| Realtime.RealtimeManager.Subscribe | src/lib/services/realtime-manager.ts:29-32 | Both tables get a fresh channel, the old ones are released, and each table still has one live channel |
| Realtime.RealtimeManager.SubscribeTasks | src/lib/services/realtime-manager.ts:34-52 | The old tasks channel, if any, is released; a fresh channel on `tasks:<user>` is held; the completions channel is untouched |
| Realtime.RealtimeManager.SubscribeCompletions | src/lib/services/realtime-manager.ts:54-72 | The same for `completions:<user>` |
| Realtime.RealtimeManager.Unsubscribe | src/lib/services/realtime-manager.ts:108-117 | Held channels are released and cleared; afterwards every channel ever created is released |
| Realtime.RealtimeManager.HandleTaskChange | src/lib/services/realtime-manager.ts:74-93 | The tasks store's list becomes TaskEffect of the old list; its loading and error unchanged |
| Realtime.RealtimeManager.HandleCompletionChange | src/lib/services/realtime-manager.ts:95-106 | The completions store's list becomes CompletionEffect of the old list |
| CalendarStore.WeekStep | src/lib/stores/calendar.ts:29-50 | A week step moves the date by exactly 7k days of milliseconds, so 7k local days |
| CalendarStore.WeekNextPrevious | src/lib/stores/calendar.ts:29-50 | goToNext then goToPrevious in the week view, or the reverse, returns to the same instant |
| CalendarStore.WeekStepBounds | src/lib/stores/calendar.ts:29-80 | A week step moves weekBounds by as many weeks |
| CalendarStore.AddMonths | src/lib/stores/calendar.ts:46 | `setMonth(getMonth() + k)` carries whole years: the target month is in 1..12 and is k months on |
| CalendarStore.MonthStepDay | src/lib/stores/calendar.ts:29-50 | A month step is day `getDate()` counted from the target month's first day, at the same time of day |
| CalendarStore.MonthStep | src/lib/stores/calendar.ts:29-50 | When the target month has the day, a month step lands on that day of the target month at the same time of day |
| CalendarStore.MonthStepOverflow | src/lib/stores/calendar.ts:29-50 | When it has not, the step lands after the target month's last day (January 31 plus one month is in March) |
| CalendarStore.AddMonthsInverse | src/lib/stores/calendar.ts:29-50 | k months on then k months back is the starting month |
| CalendarStore.MonthNextPrevious | src/lib/stores/calendar.ts:29-50 | goToNext then goToPrevious in the month view returns to the same instant when the next month has the day |
| CalendarStore.PadToWeeksByDay | src/lib/stores/calendar.ts:118-136 | The padding depends only on the local days of the month's ends |
| CalendarStore.DisplayBoundsAgree | src/lib/stores/calendar.ts:100-137 | displayBounds is getWeekBounds in the week view and getMonthDisplayBounds in the month view, so weekBounds' and the month view's properties carry over |
| CalendarStore.Store.constructor | src/lib/stores/calendar.ts:12-16 | Initially today, week view, not loading |
| CalendarStore.Store.SetCurrentDate | src/lib/stores/calendar.ts:20-22 | Only the date changes |
| CalendarStore.Store.SetViewMode | src/lib/stores/calendar.ts:23-25 | Only the view mode changes |
| CalendarStore.Store.GoToToday | src/lib/stores/calendar.ts:26-28 | The date becomes now; the rest unchanged |
| CalendarStore.Store.GoToPrevious | src/lib/stores/calendar.ts:29-39 | The date moves one week or one month back, by the view mode |
| CalendarStore.Store.GoToNext | src/lib/stores/calendar.ts:40-50 | The date moves one week or one month on, by the view mode |
| CalendarStore.Store.SetLoading | src/lib/stores/calendar.ts:51-53 | Only the loading flag changes |
| CalendarStore.Store.Reset | src/lib/stores/calendar.ts:54-56 | Today, week view, not loading |
| JsDate.ShiftDays | src/lib/services/calendar-service.ts:100 | `setDate(getDate() + k)` adds exactly k days of milliseconds and keeps the time of day |
| JsDate.SetHoursDay | src/lib/services/calendar-service.ts:93 | `setHours(0, 0, 0, 0)` is local midnight of the same day, and `setHours(23, 59, 59, 999)` that day's last millisecond |
| JsDate.SetDateMakeDay | src/lib/stores/calendar.ts:33 | `setDate(d)` is ECMAScript's MakeDay of the year, the month and `d` |
| JsDate.SetMonthMakeDay | src/lib/stores/calendar.ts:35 | `setMonth(m)` is MakeDay of the year, `m` and the same day of the month |

## Left out

- Time zones are a fixed offset `tz`: daylight saving changes are not modelled. Where the source mixes local and UTC days (local bounds, UTC completion keys), the model does the same.
- ISO date strings from the database (`due_date`, `created_at`) are taken as already read into time values.
- The `rrule` library is not part of this model. Its parser and `between` are modelled for the rule strings the application writes: `FREQ` of DAILY, WEEKLY, MONTHLY or YEARLY, with `INTERVAL`, `BYDAY` and `BYMONTHDAY`. Other rrule features, and frequencies that reach `rule.toText()` (HOURLY and finer), are outside the model.
- Recurrence.RuleOptions: a rule without `FREQ` is treated as one that rrule rejects, so it expands to nothing and is displayed unchanged.
- Occurrences are computed on UTC days at the start's UTC time of day, as rrule does; an occurrence's local date can differ from its UTC key.
- Recurrence.ExpandIdsDistinct: proved only for windows within years 0..9999, where `toISOString` writes four-digit years.
- recurrenceService.parseRule and getNextOccurrence are not modelled: nothing in the modelled code calls them.
- formatDateForDisplay and isToday are not modelled: `toLocaleDateString` and the wall clock are outside the model.
- fetchScheduledTasks, fetchTasksInRange and all other database I/O are not modelled.
- Realtime channels are tokens with a topic. The Supabase client, the `postgres_changes` filter and the callbacks' delivery are not modelled; handlers are called directly with the payload.
- Sorting.SortBy: stability of `Array.prototype.sort` is not stated; the contracts give the order by the comparator and the permutation.
- CalendarService.ExpandTasksToInstances: the relative order of instances the comparator ties is not stated.
- TasksStore.ActiveTasks: the relative order of tasks the comparator ties is not stated.
- CalendarService.GroupTasksByDate: the insertion order of the `Map`'s keys is not modelled; the result is a Dafny map.
- CompletionsStore.CompletionSet: modelled as the set of every record's key rather than the loop that adds them; CompletionSetAppend relates it to the loop's steps.
- CompletionsStore.AddedKeyPresent: requires that no other record already holds the new record's id with different fields, since addCompletion then keeps the old record.
- CompletionsStore.RemovedKeyAbsent: requires all completion dates to have the length of the removed date; RemovedKeyCollision shows the key can survive otherwise.
- CalendarStore.MonthStep and CalendarStore.MonthNextPrevious: stated only when the target month has the day of the month; MonthStepOverflow states what happens otherwise.
- The svelte `derived` stores weekBounds, monthBounds and displayBounds are the class functions CurrentWeekBounds, CurrentMonthBounds and CurrentDisplayBounds; their properties are the lemmas about WeekBounds, MonthBounds and DisplayBounds.
- Store subscription (`subscribe`) and change notification are not modelled; each store is its current state.
- CalendarService.MonthBoundsSpec: contains the date only outside local years 0..99, because `new Date(y, m, 1)` reads such a year as 1900 + y; MonthBoundsTwoDigitYear states what happens then.
- CalendarService.MonthDisplayBoundsHoldMonth: contains the date only outside local years 0..99, for the same reason; MonthDisplayTwoDigitYear states what happens then.
- CalendarService.YearBoundsSpec: contains the date only outside local years 0..99, for the same reason; YearBoundsTwoDigitYear states what happens then.
- Time values are unbounded integers. ECMAScript's limit of 8.64e15 ms either side of 1970 and the Invalid Date (NaN) a setter produces past it are not modelled.
- CalendarStore.WeekNextPrevious and CalendarStore.MonthNextPrevious: they hold for all integers, but in the program a step past the time value limit gives Invalid Date, and the reverse step does not return from it.
- Recurrence.FormatRecurrenceForDisplay: the locale is a required parameter; the source's default `'es'` is the caller passing `Es`.
