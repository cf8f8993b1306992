# A Dafny model of the Mobile to-do app's logic

The Mobile app is an Ionic/React to-do list. Its screens hold a small
amount of real logic, and this project models that logic in Dafny and
proves properties about it:

- the task record (`src/models/task.ts`);
- the task list screen (`src/pages/Tab1.tsx`): saving by id, toggling
  completion, deleting with an eight-second undo, and the filtered, sorted
  list;
- the calendar screen (`src/pages/Tab2.tsx`): `YYYY-MM-DD` date keys, the
  relative-time label, tasks grouped by day, the 6 x 7 month grid, month
  navigation, the 48-hour upcoming list and the selected day's views;
- the statistics screen (`src/pages/Tab3.tsx`): the completion percentage,
  the tasks completed in the last seven days, and the completion history;
- the reminder scheduler (`src/utils/notifications.ts`): the 32-bit
  notification id, the fire time, the browser timer registry, and the
  memoised plugin detection;
- the task form (`src/components/AddTaskModal.tsx`);
- the Pomodoro and focus countdowns (`src/components/PomodoroTimer.tsx`
  and `src/components/FocusModal.tsx`).

Time is an integer number of milliseconds (`Tasks.Instant`). The app's ISO
timestamps are read in local time, and which calendar day an instant falls
on depends on the time zone. So every operation that needs a day takes the
conversion as a parameter `dayOf: Instant -> CivilDate`. The clock is a
parameter too (`now`). So are the environment's answers: whether the
notification plugin loads, whether its calls succeed, and whether the
browser grants notifications. An optional field of the record is an
`Option`; `undefined` and `null` are both `None`.

State that a screen keeps and changes step by step is a class:
`TaskList.TaskListPage`, `Reminders.ReminderService`,
`TaskForm.TaskFormState`, `Pomodoro.PomodoroTimer` and `Focus.FocusTimer`.
The loops of the source are methods with loop invariants:
`Agenda.TasksByDate`, `Agenda.MonthMatrix`, `Reminders.IdFromString` and
`Reminders.ReminderService.ScheduleEach`. Everything else is a function
with lemmas. Timers and intervals are explicit events (`Tick`, `Settle`,
`UndoTimerFires`).

Sorting with a comparator is modelled as a stable insertion sort by an
integer key triple (`Seqs.SortBy`), as `Array.prototype.sort` is stable.
For each comparator a lemma proves that its sign agrees with the key order.

Files: `optional.dfy` (Option), `decimal.dfy` (decimal digits), `task.dfy`,
`seqs.dfy` (filter, stable sort), `calendar.dfy`, `task_list.dfy`,
`agenda.dfy`, `stats.dfy`, `reminders.dfy`, `task_form.dfy`,
`pomodoro.dfy`, `focus.dfy`.

## Model

| member | source | states |
|---|---|---|
| `Tasks.PriorityNamesRoundTrip` | src/models/task.ts:7 | a stored priority is exactly one of `low`, `medium`, `high`, one name per priority |
| `Tasks.CategoryNamesRoundTrip` | src/models/task.ts:8 | a stored category is exactly one of the five names, one name per category |
| `TaskList.FindById` | src/pages/Tab1.tsx:57 | the first task with the id; none exactly when no task has it |
| `TaskList.ReplaceById` | src/pages/Tab1.tsx:58 | same length; each task with the saved id is replaced and every other task is kept in place |
| `TaskList.SaveRequest` | src/pages/Tab1.tsx:57-61 | a reminder is scheduled exactly when the saved task's id is new |
| `TaskList.UpsertMeaning` | src/pages/Tab1.tsx:55-63 | after a save the task is listed and the ids grow by its id only; a known id keeps the length, a new one gives `[task] + tasks` |
| `TaskList.UpsertIdempotent` | src/pages/Tab1.tsx:55-63 | saving the same task twice is saving it once |
| `TaskList.UpsertKeepsIdsUnique` | src/pages/Tab1.tsx:55-63 | unique ids stay unique across a save |
| `TaskList.Toggled` | src/pages/Tab1.tsx:68-72 | the flag flips, the completion time is set to now or cleared to match, and no other field changes |
| `TaskList.ToggleById` | src/pages/Tab1.tsx:67-73 | only the tasks with the id are toggled, the others are unchanged, the length is kept |
| `TaskList.ToggleRequest` | src/pages/Tab1.tsx:74-81 | nothing exactly when no task has the id; otherwise the first task with the id decides: completed, its reminder is cancelled; reopened, it is scheduled |
| `TaskList.ToggleTwice` | src/pages/Tab1.tsx:65-84 | toggling twice restores every flag, and the whole list when the toggled tasks were open with no completion time |
| `TaskList.ToggleKeepsConsistency` | src/pages/Tab1.tsx:68-72 | after a toggle, the toggled tasks and the consistent ones have a completion time exactly when completed |
| `TaskList.PriorityRank` | src/pages/Tab1.tsx:165 | high ranks 0, medium 1, low or none 2 |
| `TaskList.CompareForListFollowsKey` | src/pages/Tab1.tsx:165-174 | the comparator's sign follows the key (rank, due before no due, due ascending, creation descending) |
| `Calendar.SameDay` | src/pages/Tab1.tsx:148-150 | same year, month and day of the month of the two local calendar days, that is the same calendar day |
| `TaskList.FilteredAndSorted` | src/pages/Tab1.tsx:152-177 | the result holds exactly the tasks the filter shows, as a permutation of the filtered list, sorted by the key |
| `TaskList.FilterShowsSubsequence` | src/pages/Tab1.tsx:156-162 | each filter keeps a sub-sequence of the list |
| `TaskList.CompletedCount` | src/pages/Tab1.tsx:145 | the count plus the number of open tasks is the list length; equal to it exactly when every task is completed |
| `TaskList.RemoveById` | src/pages/Tab1.tsx:91 | no task with the id is left; the others are kept in order, each as often as before |
| `TaskList.RemoveAbsent` | src/pages/Tab1.tsx:88-89 | removing an unknown id leaves the list as it was |
| `TaskList.RemoveThenRestore` | src/pages/Tab1.tsx:131-135 | with unique ids, putting the deleted task back gives the same tasks as before the delete |
| `TaskList.TaskListPage.constructor` | src/pages/Tab1.tsx:29-37 | an empty list, filter `all`, nothing pending, nothing to undo; every page operation keeps a deletion undoable exactly while its discard timer is pending, with the toast shown only then |
| `TaskList.TaskListPage.Loaded` | src/pages/Tab1.tsx:39-46 | the stored list replaces the empty one, and every stored task's reminder is rescheduled |
| `TaskList.TaskListPage.Save` | src/pages/Tab1.tsx:55-63 | the list becomes the upsert and the reminder request is returned |
| `TaskList.TaskListPage.Toggle` | src/pages/Tab1.tsx:65-84 | the list becomes the toggled list and the reminder request is returned |
| `TaskList.TaskListPage.RequestDelete` | src/pages/Tab1.tsx:113-116 | the id waits for confirmation and the dialog is shown |
| `TaskList.TaskListPage.ConfirmDelete` | src/pages/Tab1.tsx:118-124 | a non-empty pending id is removed and cleared, filling the undo slot, toast and deadline as `Remove` does; the dialog is always closed; nothing else changes |
| `TaskList.TaskListPage.CancelDelete` | src/pages/Tab1.tsx:126-129 | nothing pending, dialog closed |
| `TaskList.TaskListPage.Remove` | src/pages/Tab1.tsx:86-106 | unknown id: nothing changes; else tasks with the id go, the first one replaces the undo slot, the toast shows, the timer restarts for 8000 ms, the reminder is cancelled |
| `TaskList.TaskListPage.Undo` | src/pages/Tab1.tsx:131-143 | a pending deletion is put back at the head with its reminder; either way the slot, the toast and the timer are cleared |
| `TaskList.TaskListPage.UndoTimerFires` | src/pages/Tab1.tsx:100-104 | once due, the timer hides the toast and discards the deletion |
| `TaskList.TaskListPage.StartEdit` | src/pages/Tab1.tsx:108-111 | the form opens on the task |
| `TaskList.TaskListPage.StartNew` | src/pages/Tab1.tsx:223 | the form opens on a new task |
| `TaskList.TaskListPage.CloseForm` | src/pages/Tab1.tsx:228 | the form closes |
| `TaskList.TaskListPage.ToastDismissed` | src/pages/Tab1.tsx:241 | the toast hides; the deletion stays undoable until the timer fires |
| `TaskList.TaskListPage.SetFilter` | src/pages/Tab1.tsx:204 | the segment sets the filter |
| `TaskList.RemoveThenUndo` | src/pages/Tab1.tsx:86-143 | an undo before 8 s restores the task at the head; after the timer fires, undo leaves the list without it |
| `Agenda.DateKeyRoundTrip` | src/pages/Tab2.tsx:26-31 | a date key reads back as the day it was made from |
| `Agenda.DateKeyInjective` | src/pages/Tab2.tsx:26-31 | distinct days have distinct keys |
| `Agenda.DateKeyIsFullDate` | src/pages/Tab2.tsx:26-31 | for years 1000 to 9999 the key is a `full-date` of section 5.6 of RFC 3339 |
| `Agenda.DateKeyFromISO` | src/pages/Tab2.tsx:33-37 | no key exactly when the timestamp is absent; otherwise the key of its day |
| `Agenda.TimeDiffString` | src/pages/Tab2.tsx:39-48 | the label is the number, which reads back as the amount, followed by the unit letter |
| `Agenda.TimeDiffMeaning` | src/pages/Tab2.tsx:39-48 | the unit is s, m, h or d for intervals under 1 min, 1 h, 1 day or longer; the number is the interval floor-divided by the unit |
| `Agenda.TasksByDate` | src/pages/Tab2.tsx:69-77 | a day has an entry exactly when its bucket is non-empty, and the entry is that bucket in list order |
| `Agenda.GroupAppend` | src/pages/Tab2.tsx:71-75 | pushing a task extends its own day's bucket only |
| `Agenda.BucketNonEmpty` | src/pages/Tab2.tsx:69-77 | a day has tasks exactly when some task is filed under it |
| `Agenda.BucketsPartition` | src/pages/Tab2.tsx:72 | each task is in the bucket of its own day and in no other |
| `Agenda.BucketCounts` | src/pages/Tab2.tsx:69-77 | a task's bucket holds it as often as the list does |
| `Agenda.MonthMatrix` | src/pages/Tab2.tsx:79-95 | six rows of seven cells; cell (r, c) is the day `7r + c + 1 - startDay` when in range, else empty |
| `Agenda.MonthCellsCoverEachDayOnce` | src/pages/Tab2.tsx:83-93 | for a start weekday 0 to 6 and at most 31 days, each day of the month is in exactly one cell |
| `Agenda.MonthCellsIncrease` | src/pages/Tab2.tsx:83-93 | filled cells increase in reading order and hold days of the month |
| `Agenda.NextMonth` | src/pages/Tab2.tsx:100-102 | one month later, December rolling into January |
| `Agenda.PrevMonth` | src/pages/Tab2.tsx:97-99 | one month earlier, January rolling into December |
| `Agenda.MonthIndexInjective` | src/pages/Tab2.tsx:97-102 | a month is determined by its index |
| `Agenda.PrevNextInverse` | src/pages/Tab2.tsx:97-102 | previous after next, and next after previous, are the identity |
| `Agenda.CompareByDueFollowsKey` | src/pages/Tab2.tsx:109 | the comparator's sign follows the due time |
| `Agenda.UpcomingMeaning` | src/pages/Tab2.tsx:104-110 | exactly the open tasks due in `[now, now + 48h]`, each as often as listed, due times ascending |
| `Agenda.SortedByDueAscending` | src/pages/Tab2.tsx:109 | sorting by the due key orders by due time |
| `Agenda.SelectedViewsPartition` | src/pages/Tab2.tsx:112-118 | the day's list is its `byDate` bucket, empty when the bucket is missing or no day (or `""`) is selected; the pending and completed views partition it |
| `Stats.Completed` | src/pages/Tab3.tsx:46 | exactly the completed tasks, in list order, each as often as in the list |
| `Stats.RoundedPercentMeaning` | src/pages/Tab3.tsx:48 | the nearest integer to `100c/t`, halves up; within 0..100; 0 for none, 100 for all |
| `Stats.PercentMeaning` | src/pages/Tab3.tsx:46-48 | 0 for no tasks; within 0..100; 100 when all are completed, 0 when none is |
| `Stats.CompletedThisWeek` | src/pages/Tab3.tsx:50-53 | never more than the completed count |
| `Stats.CompletedThisWeekCounts` | src/pages/Tab3.tsx:50-53 | counts the completed tasks with a completion time at or after `now - 7 days` |
| `Stats.CompareHistoryFollowsKey` | src/pages/Tab3.tsx:57-61 | the comparator orders by completion time, latest first |
| `Stats.HistoryMeaning` | src/pages/Tab3.tsx:55-61 | a permutation of the completed tasks, completion times not increasing, a missing time read as 0 |
| `Stats.HistoryStable` | src/pages/Tab3.tsx:55-61 | tasks completed at the same instant keep their list order |
| `Reminders.Hash` | src/utils/notifications.ts:7-11 | the hash is below 2^32 |
| `Reminders.HashIsPolyMod` | src/utils/notifications.ts:7-11 | reducing at every step is the base-31 polynomial of the codes modulo 2^32 |
| `Reminders.IdFromString` | src/utils/notifications.ts:7-11 | the loop computes the hash; below 2^32, 0 for the empty string |
| `Reminders.ScheduleAt` | src/utils/notifications.ts:47-49 | strictly after now, never before two hours before due; two hours before due exactly when that is after now, else now + 5 s |
| `Reminders.RemindableIdsAppend` | src/utils/notifications.ts:45-46 | a task adds its id to the reminded set exactly when it has a due time and is open |
| `Reminders.ReminderService.constructor` | src/utils/notifications.ts:3-5 | empty registry, plugin not yet looked for |
| `Reminders.ReminderService.EnsureCapacitor` | src/utils/notifications.ts:13-24 | the first call fixes the answer; later calls return it unchanged |
| `Reminders.ReminderService.ScheduleForTask` | src/utils/notifications.ts:44-85 | no due or completed: nothing changes; plugin: its notification is set at the fire time; else, when granted, the id's entry is overwritten with a new timer of delay `max(0, at - armNow)`, `armNow` being the clock when the timer is armed, the older timer left armed |
| `Reminders.ReminderService.CancelForTask` | src/utils/notifications.ts:87-105 | plugin: its notification goes; else the id's timer is cleared and its entry deleted, other entries untouched |
| `Reminders.ReminderService.RescheduleAll` | src/utils/notifications.ts:107-125 | plugin working: its notifications become exactly those of the open tasks with a due time, each firing at the time computed for the last such task with its notification id, timers untouched; no plugin: every registered timer is cleared and, when granted, the registry holds exactly those tasks' ids, each timer armed with the delay of the last such task with the id; plugin failing: the registry gains those ids, armed the same way |
| `Reminders.ReminderService.ClearTimers` | src/utils/notifications.ts:117-119 | every registered timer is cleared and the registry emptied |
| `Reminders.ReminderService.ScheduleEach` | src/utils/notifications.ts:122-124 | scheduling in list order adds exactly the reminded ids (or notification ids) to the back end, each armed for the last task carrying it; other entries and armed timers are kept |
| `Reminders.LastWithHash` | src/utils/notifications.ts:122-124 | the task whose reminder a notification id ends up with: in the list, remindable, with that notification id; none when no such task exists |
| `Reminders.LastWithId` | src/utils/notifications.ts:122-124 | the task whose timer a registry entry ends up with: in the list, remindable, with that id; none when no such task exists |
| `Reminders.ArmDelay` | src/utils/notifications.ts:82 | the timer delay is never negative, is 0 exactly when the fire time has passed, and otherwise ends at the fire time |
| `TaskForm.TrimStart` | src/components/AddTaskModal.tsx:100 | a suffix of the input; what is cut is white space; it does not start with white space |
| `TaskForm.TrimEnd` | src/components/AddTaskModal.tsx:100 | a prefix of the input; what is cut is white space; it does not end with white space |
| `TaskForm.TrimMeaning` | src/components/AddTaskModal.tsx:100 | the trimmed string is the middle of the input with only white space cut on either side |
| `TaskForm.TrimEmptyIff` | src/components/AddTaskModal.tsx:318 | a string trims to nothing exactly when it is all white space |
| `TaskForm.TrimIdempotent` | src/components/AddTaskModal.tsx:101 | trimming twice is trimming once |
| `TaskForm.RemoveIndexMeaning` | src/components/AddTaskModal.tsx:95-97 | exactly the element at the index goes, the rest keep their order; an index out of range changes nothing |
| `TaskForm.TaskFormState.constructor` | src/components/AddTaskModal.tsx:50-58 | every field at its default |
| `TaskForm.TaskFormState.Open` | src/components/AddTaskModal.tsx:61-81 | editing: fields copied with defaults `''`, medium, `[]`, `[]`, none; new: every field reset |
| `TaskForm.TaskFormState.RemoveAttachment` | src/components/AddTaskModal.tsx:95-97 | the attachment at the index goes; out of range, nothing changes |
| `TaskForm.TaskFormState.AddSubtask` | src/components/AddTaskModal.tsx:99-103 | blank input is ignored; else one open subtask with the trimmed title is appended and the input cleared |
| `TaskForm.TaskFormState.RemoveSubtask` | src/components/AddTaskModal.tsx:105-107 | every subtask with the id goes, the others stay in order |
| `TaskForm.TaskFormState.Save` | src/components/AddTaskModal.tsx:111-118 | the form's fields overwrite; editing keeps id, completion and creation time; a new task is open, created now, with the new id |
| `TaskForm.TaskFormState.FocusTask` | src/components/AddTaskModal.tsx:336 | only title, notes, due, priority, category and attachments come from the form |
| `TaskForm.SaveNewIsConsistent` | src/components/AddTaskModal.tsx:115 | a new task is open with no completion time |
| `Pomodoro.Duration` | src/components/PomodoroTimer.tsx:12 | 1500 s in focus mode, 300 s in break mode |
| `Pomodoro.FormatTimeMeaning` | src/components/PomodoroTimer.tsx:48-52 | below 100 minutes, five characters `mm:ss` whose halves read back as minutes and seconds |
| `Pomodoro.LeadingZero` | src/components/PomodoroTimer.tsx:51 | a leading '0' below ten gives two digits that read back as the number |
| `Pomodoro.PomodoroTimer.constructor` | src/components/PomodoroTimer.tsx:7-9 | focus mode, 1500 s, stopped |
| `Pomodoro.PomodoroTimer.Tick` | src/components/PomodoroTimer.tsx:18-22 | while active with time left, exactly one second off; else nothing |
| `Pomodoro.PomodoroTimer.Settle` | src/components/PomodoroTimer.tsx:23-33 | at zero: stopped, the other mode, its full duration |
| `Pomodoro.PomodoroTimer.ToggleTimer` | src/components/PomodoroTimer.tsx:38-40 | only the active flag flips |
| `Pomodoro.PomodoroTimer.ResetTimer` | src/components/PomodoroTimer.tsx:42-46 | stopped with the current mode's full duration |
| `Pomodoro.PomodoroTimer.SelectMode` | src/components/PomodoroTimer.tsx:60-66 | the chosen mode, its full duration, stopped; every operation keeps `0 <= timeLeft <= duration` |
| `Focus.FormatTimeRoundTrip` | src/components/FocusModal.tsx:65-69 | below 6000 s, five characters that read back as the seconds |
| `Focus.FormatTimeInjective` | src/components/FocusModal.tsx:65-69 | distinct counts below 6000 s are displayed differently |
| `Focus.FormatsAgree` | src/components/FocusModal.tsx:65-69 | the focus and Pomodoro clocks print the same text for every count |
| `Focus.FocusTimer.constructor` | src/components/FocusModal.tsx:24-25 | 1500 s, stopped |
| `Focus.FocusTimer.OpenChanged` | src/components/FocusModal.tsx:28-34 | opening loads 1500 s; either way the timer stops |
| `Focus.FocusTimer.Tick` | src/components/FocusModal.tsx:37-40 | while active with time left, exactly one second off |
| `Focus.FocusTimer.Settle` | src/components/FocusModal.tsx:41-43 | at zero the timer stops and the count stays 0 |
| `Focus.FocusTimer.ToggleTimer` | src/components/FocusModal.tsx:56-58 | the active flag flips |
| `Focus.FocusTimer.ResetTimer` | src/components/FocusModal.tsx:60-63 | stopped with 1500 s |
| `Focus.Finished` | src/components/FocusModal.tsx:148-158 | the shown task's id is reported, and nothing without a task |

## Left out

- Rendering, styling, navigation and the screens that are only UI
  (`src/components/TaskList.tsx`, `src/components/WelcomeModal.tsx`,
  `src/pages/Tab4.tsx`) are not part of this model.
- Storage (`src/utils/storage.ts`, `src/utils/userStorage.ts`) is not part
  of this model. That includes the saving effect of the list screen, the
  `tasks:changed` event the other screens listen to, and JSON encoding.
  The stored list is a parameter (`TaskList.TaskListPage.Loaded`).
- The native notification plugin and the browser `Notification` API are
  abstract. Their effect is a map of native notifications and a map of
  armed timers. What is shown when a reminder fires is not modelled. Neither
  is the permission request (`requestPermission`).
- Within one call, plugin calls either all succeed or all fail (`nativeOk`).
  `rescheduleAll` uses a single `now` and arming clock for every task,
  where the app reads the clock again for each one.
- Reminder calls made by the list screen, including the `rescheduleAll` of
  the stored list at start-up, are returned as `ReminderRequest` values
  rather than awaited, since the screen ignores their outcome.
- Real timers and intervals become explicit events. The eight-second
  undo timer is its deadline `now + 8000`.
- Parsing ISO strings and local time-zone arithmetic are abstract: the
  calendar day of an instant (`dayOf`), the weekday a month starts on and
  its number of days are inputs. JavaScript's mapping of years 0 to 99 in
  `new Date(y, m, 1)` is not modelled: month navigation works on
  (year, month) pairs.
- Floating-point values are not modelled: the list screen's progress bar,
  the donut geometry of the statistics screen, and the progress rings of
  both timers.
- `Stats.RoundedPercentMeaning`: the percentage uses exact rational
  rounding, where the app rounds a floating-point quotient. The two could
  differ only where that quotient lands one rounding error from a half.
- `Reminders.Hash`: characters are Unicode scalar values. For a
  character outside the Basic Multilingual Plane, JavaScript's
  `charCodeAt` gives two UTF-16 code units instead, so ids holding such
  characters would hash differently.
- Reading attachments with `FileReader` is not modelled. Ids made from
  `Date.now()` are inputs (`newId`).
- No code materialises recurring tasks, so the model only carries the
  `recurrence` field.
- `subtasks` and `recurrence` are not declared in `src/models/task.ts`.
  The task form reads and writes them, so `Tasks.Task` has them as
  optional fields.
- The upcoming window includes both ends, `now <= due <= now + 48h`, as
  the code's comparisons do. A half-open window `[now, now + 48h)` would
  have excluded a task due exactly 48 hours ahead.
- The editing field (`editing`) and the toast's own duration belong to the
  rendering and are kept only as far as the list screen sets them.
