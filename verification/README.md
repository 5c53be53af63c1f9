# Task list: a Dafny model of the task store

The task list page (`script.js`) keeps an ordered list of tasks in the
browser's storage. Each task has an `id` (the `Date.now()` value at creation),
a `name`, a `date`, a `time` (24-hour `HH:MM`) and a `completed` flag. Users
add tasks through a form, toggle them, rename and reschedule them through
prompts, delete them, clear the whole list after a confirmation, and switch
the view between all, completed and pending tasks. A progress line counts the
completed tasks over the whole list, and times are shown on a 12-hour clock.

This project models that logic as pure functions over an immutable
`seq<Task>`. Each operation takes the list as read from storage and returns
the list written back. The browser's dialogs become arguments. A `prompt`
answer is a string, with "" standing for both cancel and an empty answer. A
`confirm` answer is a `bool`. The id `Date.now()` would give is an argument too.

Modules:

- `Text` (text.dfy): the JavaScript string primitives the page uses. These are
  `trim`, with ECMAScript's full white-space set, `split` on one character,
  `Number` on digit strings, `String` on naturals, and `padStart`.
- `Seqs` (seqs.dfy): `Array.prototype.filter` as order-preserving selection,
  and the subsequence relation.
- `Tasks` (tasks.dfy): the task record and the store operations `addTask`,
  `deleteTask`, `toggleComplete`, `editTime`, `editName` and `clearAll`.
- `Render` (render.dfy): the filter callback and the progress count inside
  `renderTasks`.
- `Clock` (clock.dfy): `formatTime`, with a reader for the 12-hour form that
  serves as its inverse.
- `Options` (options.dfy): the optional value used where an input falls
  outside the modelled domain.

`toggleComplete`, `editTime` and `editName` use the result of `find` without
checking it, so a missing id throws a `TypeError` in the page. The model makes
the presence of the id a precondition and does not invent a no-op. A design
that ignores unknown ids would be safer, but the code does not do that. The
three preconditions differ, as the code does:

- `editName` reads the current name for the prompt's default before it asks,
  so it needs the id whatever the answer.
- `editTime` looks the task up only after both answers are non-empty.
- `toggleComplete` always needs the id.

The add form trims the name. A rename does not trim the answer, so a name made
only of white space can be stored through a rename but never through the form
(`Tasks.EditNameAcceptsBlank`).

## Model

| member | source | states |
|---|---|---|
| Text.Trim | script.js:37 | the trimmed name is the slice of the input between leading and trailing white space; everything cut off is white space, and the result neither starts nor ends with it |
| Text.TrimEmptyIffBlank | script.js:37-40 | a name is rejected as empty after trimming exactly when it consists of white space only |
| Text.TrimIdempotent | script.js:37 | trimming an already trimmed name changes nothing |
| Text.Split | script.js:98 | splitting on ':' yields at least one piece, no piece contains ':', and joining the pieces with ':' gives back the input |
| Text.SplitJoin | script.js:98 | splitting undoes joining for pieces free of ':' |
| Text.NatToString | script.js:102 | `String` of a natural is a non-empty digit string that reads back as the number, with no leading zero, one digit exactly below 10 |
| Text.PadStart | script.js:102 | `padStart(2, '0')` keeps the string as a suffix, fills only with '0' and reaches length two |
| Seqs.Select | script.js:53 | `filter` never lengthens the list |
| Seqs.SelectMembers | script.js:53 | `filter` keeps exactly the elements the callback accepts: each kept one passes and comes from the input, and each input element that passes is kept |
| Seqs.SelectIsSubseq | script.js:123-128 | `filter` keeps the input order: the result is a subsequence of the input |
| Seqs.SelectPartition | script.js:123-128 | a callback and its negation split the list: the two lengths sum to the total and the two multisets add up to the input's |
| Tasks.FirstIndex | script.js:60 | `find` returns the first task carrying the id: it carries the id and no earlier task does |
| Tasks.AddRejected | script.js:37-40 | the form is rejected exactly when the name is all white space (so trims to "") or the date or the time is empty |
| Tasks.AddTask | script.js:36-45 | a blank trimmed name, date or time leaves the list unchanged; otherwise the list grows by one, keeps the old list as a prefix, and ends with a pending task holding the id, trimmed name, date and time; the list is unchanged exactly when the form is rejected; non-empty fields stay non-empty |
| Tasks.AddThenDelete | script.js:44-53 | deleting the id of a task just added, when no earlier task had that id, restores the list from before the add |
| Tasks.DeleteTask | script.js:52-53 | the result is a subsequence of the list, holds no task with the id, keeps every task with another id, and is the list itself when the id is absent |
| Tasks.DeleteTaskCount | script.js:53 | a delete removes one task per task carrying the id and no other |
| Tasks.DeleteTaskIdempotent | script.js:53 | a second delete of the same id is a no-op |
| Tasks.ToggleComplete | script.js:58-61 | the first task with the id has its `completed` flag flipped and no other field changed; every other task and the length are unchanged |
| Tasks.ToggleCompleteTwice | script.js:60-61 | toggling the same id twice restores the original list |
| Tasks.EditTime | script.js:66-73 | with both answers non-empty, the first task with the id gets the new time and date and keeps its id, name and flag, and all other tasks are unchanged; an empty answer leaves the list unchanged |
| Tasks.EditTimeUndo | script.js:69-73 | rescheduling back to the old time and date undoes a reschedule |
| Tasks.EditName | script.js:79-84 | with a non-empty answer, only the name of the first task with the id changes; an empty answer leaves the list unchanged; the id must be present in either case |
| Tasks.EditNameUndo | script.js:80-84 | renaming back to the old name undoes a rename |
| Tasks.EditNameAcceptsBlank | script.js:81-84 | a rename accepts an all-blank answer, so a stored name can trim to "" after a rename |
| Tasks.EditsKeepIds | script.js:58-84 | toggling, rescheduling and renaming keep every task's id in place |
| Tasks.ClearAll | script.js:90-92 | a confirmed clear stores the empty list; a declined one stores the list unchanged |
| Render.Shows | script.js:124-128 | the callback accepts every task under "all", exactly the completed tasks under "completed" and exactly the pending ones under "pending", and accepts nothing under any other filter value; `Render.VisibleUnknown` and `Render.CompletedPendingPartition` state what it does to the list |
| Render.Visible | script.js:123-128 | the rows shown are a subsequence of the stored list and are exactly the tasks the active filter accepts |
| Render.VisibleAll | script.js:125 | the "all" filter shows the stored list itself |
| Render.VisibleUnknown | script.js:124-128 | a filter value other than "all", "completed" and "pending" shows no row |
| Render.CompletedPendingPartition | script.js:126-127 | the "completed" and "pending" views together hold every stored task exactly once and share none |
| Render.DoneCount | script.js:149 | the progress numerator is at most the number of stored tasks |
| Render.DoneCountIsCompletedView | script.js:149-150 | the numerator equals the length of the "completed" view of the unfiltered list, and with the "pending" view accounts for every task |
| Render.ProgressTextRoundTrip | script.js:149-150 | the progress line `Render.ProgressText` builds, read back as "<done> of <total> completed" by `Render.ReadProgress`, gives the number of completed tasks and the number of stored tasks |
| Render.AddTaskProgress | script.js:149-150 | a successful add leaves the numerator alone and raises the total by one |
| Render.ToggleCompleteProgress | script.js:149-150 | a toggle moves the numerator up by one for a pending task and down by one for a completed task |
| Render.ClearAllProgress | script.js:91-92 | after a confirmed clear the progress line reads "0 of 0 completed"; a declined clear leaves it as it was |
| Render.ThreeAddedOneDone | script.js:149-150 | three tasks added and one completed read "1 of 3 completed", whatever filter is active |
| Clock.TwelveHour | script.js:99-101 | for an hour of the day the displayed hour lies in 1..12 and equals the hour modulo 12 |
| Clock.ParseTime | script.js:98 | a time is read only from an input containing ':', and only as hour and minute values of at most 2^53, which `Number` reads exactly; `Clock.ParseTimeInput` states that every time-input value reads back as its time |
| Clock.ParseTimeInput | script.js:98 | splitting a time input "HH:MM" on ':' and converting the pieces gives back its hour and minute |
| Clock.FormatClock | script.js:99-102 | for every hour the display ends in "PM" exactly from hour 12 on and in "AM" below it; `Clock.FormatClockFields` and `Clock.FormatClockRoundTrip` state the rest of its meaning |
| Clock.FormatTime | script.js:97-102 | `formatTime` gives a display exactly for the inputs it can read, and the display's suffix is "PM" exactly when the hour read is 12 or more; `Clock.FormatTimeRoundTrip` states its inverse |
| Clock.FormatClockFields | script.js:97-102 | for a valid time the suffix is "AM" exactly before noon and "PM" otherwise; the hour numeral is unpadded (no leading '0'), in 1..12, and 12 at midnight and at noon; exactly two minute digits sit between ':' and the space and read as the minute |
| Clock.ReadShownClock | script.js:97-102 | any string laid out as a 12-hour display of a valid time reads back as that time |
| Clock.FormatClockRoundTrip | script.js:97-102 | reading the shown 12-hour string gives back the time that was formatted |
| Clock.FormatTimeRoundTrip | script.js:97-102 | `formatTime` is defined on all 1440 time-input values, and its output reads back as the stored time |
| Clock.FormatTimeMidnight | script.js:97-102 | the input "00:00" shows as "12:00 AM" |
| Clock.FormatTimeNoon | script.js:97-102 | the input "12:00" shows as "12:00 PM" |
| Clock.FormatTimeLastMinute | script.js:97-102 | the input "23:59" shows as "11:59 PM" |
| Clock.FormatTimeMorning | script.js:97-102 | the input "09:05" shows as "9:05 AM", with the hour unpadded |

## Left out

- DOM construction, `innerHTML` templating, the row classes and the popup
  open, close and field clearing (script.js:112-121, 130-146, 153-158). These
  are display output, not list logic.
- `localStorage`, `JSON.stringify`/`JSON.parse` and the theme key
  (script.js:3-12, 32-34). The stored list is the value passed between
  operations, and serialisation is assumed to round-trip it.
- `formatDate` and the same-day highlight (script.js:105-110, 133-135). They
  depend on `Date` parsing, the current clock, the time zone and
  `toLocaleDateString`, none of which is visible to the model.
- The live clock (`setInterval`, `toLocaleString`; script.js:24-30) and the
  filter buttons' class switching (script.js:15-22). The active filter is an
  argument of `Render.Visible`.
- `prompt`, `alert` and `confirm` themselves, and the `window.*` exposure
  (script.js:41, 67-68, 80, 91, 161-167). Their results are arguments. The
  alert on a rejected form is represented by `Tasks.AddRejected` only.
- Uniqueness of ids. `Date.now()` does not guarantee a fresh id, so nothing
  assumes one. Lookups act on the first task with the id, as `find` does.
- The crash on a missing id in `toggleComplete`, `editTime` and `editName` is
  a precondition of `Tasks.ToggleComplete`, `Tasks.EditTime` and
  `Tasks.EditName`, not a modelled error value.
- Clock.ParseTimeInput: `formatTime` is modelled only for inputs whose first
  two ':'-separated pieces are non-empty decimal digit strings of value at
  most 2^53 (`Clock.ParseTime` gives None otherwise). Within that domain
  `Number` is exact and `String` prints plain decimal, so the model follows
  the code there, and "25:00" shows as "13:00 PM". The following are not
  modelled:
  - `Number`'s other syntaxes: white space, signs, hex, exponents, and ""
    read as 0.
  - Its rounding of larger numerals to the nearest double.
  - `String`'s exponent form from 1e21 on.
  - The "NaN" output for unreadable text typed into the reschedule prompt.
- Text.Trim: strings are sequences of Unicode scalar values, not UTF-16 code
  units. A lone surrogate cannot be represented, and white space is matched
  against the fixed ECMAScript list.
