# Oollert Tasks — a verified model of the task core and the focus timer

Oollert Tasks is a personal task board. Each user owns tasks with a title, an
optional description, a status (`todo`, `inprogress`, `done`), a priority
(`low`, `medium`, `high`, `urgent`), an optional due date and free-form labels.
The server sorts a user's open tasks into a "smart view" of time buckets
(overdue, today, upcoming, later, no due date). It computes analytics: counts
by status and priority, an overdue count, a completion rate and the number of
recent completions. Forms create and update tasks. A schema hook keeps
`updatedAt` current and stamps or clears `completedAt` when the status changes.
The browser runs a Pomodoro focus timer. The timer alternates 25-minute work
sessions with short breaks, and takes a long break after every fourth session.

The model has these modules:

- `Clock` (clock.dfy): time as integer milliseconds and calendar days.
- `Seqs` (seqs.dfy): order-preserving selection and `Set`-style deduplication.
- `Text` (text.dfy): JavaScript's `trim`, `split` and `join` on strings.
- `TaskModel` (task_model.dfy) covers src/models/Task.js:
  - the schema's enums and defaults, and validation on save;
  - the `pre('save')` hook;
  - the `isOverdue`, `isDueToday` and `isUpcoming` virtuals;
  - a `TaskDocument` class whose `Save` method assigns the document's fields as the hook does.
- `TaskRoutes` (task_routes.dfy) covers src/routes/tasks.js:
  - `categorizeTasks` and the analytics statistics;
  - label parsing and the distinct-label list;
  - `POST /tasks`;
  - `PUT /tasks/:id`, both as a function (`PutTask`) and as the imperative handler (`HandlePut`) on a loaded document.
- `Pomodoro` (pomodoro.dfy) covers src/public/css/pomodoro.js:
  - every timer transition as a pure step on `TimerState`;
  - a `PomodoroTimer` class whose methods update the fields exactly as those steps do;
  - the `mm:ss` display and the page title.

Modelling conventions:

- **Current time is a parameter.** `now` is passed in and is never read from a clock.
- **Days.** A day is 86 400 000 ms on a fixed-offset local clock. `StartOfDay(t) = t - t % DayMs` stands for `setHours(0,0,0,0)`.
- **Modified status.** `isModified('status')` means the in-memory status differs from the stored one (`TaskDocument.StatusModified`).
- **Validation before the hook.** Validation runs before the hook, as mongoose orders them.
- **Confirmation dialogs.** Each `confirm()` answer is a `confirmed: bool` argument.
- **Scheduled mode switches.** `complete()` schedules a mode switch with `setTimeout`. The model queues it in `pendingSwitches`. `FirePendingSwitch` fires the oldest switch.
- **JavaScript arithmetic.** The display uses JavaScript's sign-of-dividend `%` and `toString`, including negative numbers. For example, `FormatTime(-1) == "-1:-1"`.

Behaviour worth knowing:

- A `PUT` with a status or priority outside its enum fails the save's validation, and the route answers it with a 500 "Server error" (`PutTask`, `PutTaskSpec`).
- `recentCompletions` counts every `completedAt` at or after seven days before `now`, with no upper bound (`RecentCompletionsMembers`).
- The upcoming window is a fixed seven days.
- `updatedAt` is set to the save time on every save, including saves that change nothing else.
- The analytics `overdue` count compares with `now`, while the overdue bucket compares with the start of today. The two disagree on tasks due earlier today (`OverdueCountBetweenBuckets`).
- `switchMode` and `clearTask` call `stop()` only on a running timer. A paused timer stays paused through a mode switch, now at the new mode's full duration, and through clearing the task (`SwitchModeSpec`, `ClearTaskSpec`). Saving settings while paused also restarts the mode at its full duration, so the paused progress is lost (`SaveSettingsSpec`).
- The `isUpcoming` flag also holds for tasks due later today, which the smart view lists under today (`UpcomingFlagNotUpcomingBucket`).

## Model

| member | source | states |
|---|---|---|
| Clock.StartOfDay | src/routes/tasks.js:18-19 | the start of the day is a multiple of a day and lies at most a day before `t` |
| Clock.SameDayIffInDay | src/models/Task.js:52-54 | an instant is on the day starting at `today` iff it lies in [today, today + one day) |
| Clock.CeilDiv | src/models/Task.js:63 | `Math.ceil(n / d)` is the unique `r` with `(r-1)*d < n <= r*d` |
| Seqs.DedupElements | src/routes/tasks.js:57 | `[...new Set(xs)]` holds exactly the elements of `xs` |
| Seqs.DedupNoDuplicates | src/routes/tasks.js:57 | the deduplicated list has no repeated element |
| Seqs.DedupOfDistinct | src/routes/tasks.js:57 | deduplicating a list without repeats returns it unchanged |
| Seqs.DedupPrefix | src/routes/tasks.js:57 | elements met later never reorder earlier ones: the result for a prefix is a prefix of the result |
| Text.TrimStart | src/routes/tasks.js:125 | the result is a suffix of the input; everything dropped is white space; it does not start with white space |
| Text.TrimEnd | src/routes/tasks.js:125 | the result is a prefix of the input; everything dropped is white space; it does not end with white space |
| Text.TrimIsTrimmed | src/routes/tasks.js:125 | `trim` leaves neither end white |
| Text.TrimIsInfix | src/routes/tasks.js:125 | `trim` returns a contiguous piece of its input |
| Text.TrimKeepsOut | src/routes/tasks.js:125 | `trim` adds no character that was not in its input |
| Text.TrimOfTrimmed | src/routes/tasks.js:125 | `trim` leaves a trimmed string unchanged |
| Text.Split | src/routes/tasks.js:125 | `split` yields at least one piece, and no piece holds the separator |
| Text.JoinSplit | src/routes/tasks.js:125 | joining the pieces of a split gives back the string |
| Text.SplitJoin | src/routes/tasks.js:125 | splitting a join of separator-free pieces gives back the pieces |
| Text.SplitPrefix | src/routes/tasks.js:125 | a separator-free prefix extends only the first piece of the split |
| TaskModel.SaveValidates | src/models/Task.js:3-24 | a save fails iff the title is empty or status/priority is outside its enum; it names exactly the failing paths; a successful save changes only the two timestamps |
| TaskModel.PreSaveHookTimestamps | src/models/Task.js:27-41 | `updatedAt` becomes now; on a status change into done an unset `completedAt` is stamped with now; an existing stamp is kept; on a change to another status it is cleared; without a status change it is untouched |
| TaskModel.SavePreservesCompletion | src/models/Task.js:30-38 | a save keeps "completedAt set iff done" when the stored task kept it |
| TaskModel.CompletionStampIdempotent | src/models/Task.js:31-33 | after a status change into done is saved, later saves keep the completion time |
| TaskModel.TaskDocument.Load | src/routes/tasks.js:153 | a loaded document holds the stored fields, and its status counts as unmodified |
| TaskModel.TaskDocument.Save | src/models/Task.js:27-41 | the imperative hook yields `SaveOutcome` of the old fields; on success the stored status is updated; on failure nothing changes |
| TaskModel.CreateDefaults | src/models/Task.js:6-22 | a created task holds the given title, description, owner, due date and labels, is `todo`, `medium` unless a priority is given, created and updated at the same instant, not completed; creation fails iff the title is empty or the given priority is invalid |
| TaskModel.FlagsNeedOpenDatedTask | src/models/Task.js:44-65 | no flag holds for a done task or for one without a due date |
| TaskModel.IsDueTodayIff | src/models/Task.js:50-55 | `isDueToday` iff the task is open, dated and due within the calendar day of now |
| TaskModel.IsUpcomingIff | src/models/Task.js:58-65 | `isUpcoming` iff the task is open, dated and due in (now, now + 7 days] |
| TaskModel.UpcomingExcludesOverdue | src/models/Task.js:44-65 | an upcoming task is never overdue |
| TaskRoutes.SelectMembers | src/routes/tasks.js:28-47 | a filter keeps exactly the matching tasks, each as many times as it occurs in the input |
| TaskRoutes.CountAppend | src/routes/tasks.js:86-98 | `filter(...).length` is one for a matching task, zero for another, and adds up over concatenation, i.e. it is the number of matching tasks |
| TaskRoutes.SelectIsSubsequence | src/routes/tasks.js:28-47 | a filter keeps the input order |
| TaskRoutes.BucketIffClassify | src/routes/tasks.js:17-49 | each bucket's filter accepts a task iff the one-pass classification puts it in that bucket |
| TaskRoutes.ExactlyOneBucket | src/routes/tasks.js:28-47 | an open dated task is in exactly one of overdue/today/upcoming/later; an undated open task only in noDueDate; a done task in none |
| TaskRoutes.CategorizeMembers | src/routes/tasks.js:17-49 | a bucket lists exactly the input tasks classified into it, in input order |
| TaskRoutes.CategorizeCounts | src/routes/tasks.js:17-49 | the five bucket sizes plus the done count add up to the number of tasks |
| TaskRoutes.CompletionRateSpec | src/routes/tasks.js:99-101 | the rate is the nearest whole percentage (halves up), between 0 and 100, 100 when all are done, 0 for no tasks |
| TaskRoutes.CompletionRateExample | src/routes/tasks.js:99-101 | 3 of 10 done gives 30 |
| TaskRoutes.StatusCountsSum | src/routes/tasks.js:85-88 | with valid statuses, todo + inProgress + completed equals total |
| TaskRoutes.PriorityCountsSum | src/routes/tasks.js:93-98 | with valid priorities, the four priority counts add up to the number of open tasks |
| TaskRoutes.EmptyStats | src/routes/tasks.js:84-112 | no tasks give all-zero statistics and a rate of 0 |
| TaskRoutes.OverdueCountBetweenBuckets | src/routes/tasks.js:89-92 | the overdue count is the length of a list holding every task whose `isOverdue` holds, as many times as it occurs, and nothing else; it lies between the overdue bucket's size and that plus the today bucket's size |
| TaskRoutes.RecentCompletionsMembers | src/routes/tasks.js:105-110 | the recent-completion count is the length of a list holding every task with `completedAt` at or after seven days before now, as many times as it occurs, and nothing else |
| TaskRoutes.BucketsAgreeWithFlags | src/routes/tasks.js:28-42 | the today bucket agrees with `isDueToday`; the overdue and upcoming buckets imply `isOverdue` and `isUpcoming` |
| TaskRoutes.UpcomingFlagNotUpcomingBucket | src/routes/tasks.js:38-42 | a task due one hour ahead on the same day is flagged upcoming but listed under today |
| TaskRoutes.TrimAll | src/routes/tasks.js:125 | mapping `trim` keeps the length and trims each piece |
| TaskRoutes.DropEmptySpec | src/routes/tasks.js:125 | the filter keeps every non-empty string as many times as it occurs, in order, drops every empty one, and changes nothing in a list without empty strings |
| TaskRoutes.ParseLabelsEmpty | src/routes/tasks.js:124-126 | a missing or empty label field gives no labels |
| TaskRoutes.ParseLabelsClean | src/routes/tasks.js:124-126 | every parsed label is non-empty, trimmed and comma-free |
| TaskRoutes.ParseLabelsInOrder | src/routes/tasks.js:124-125 | the parsed labels are the non-blank trimmed pieces, each as many times as it was written, in the order written |
| TaskRoutes.ParseLabelsJoin | src/routes/tasks.js:159-161 | clean labels joined with commas parse back to themselves |
| TaskRoutes.FlatLabelsMembers | src/routes/tasks.js:57 | the flattened list holds exactly the labels of some task |
| TaskRoutes.AllLabelsSpec | src/routes/tasks.js:57 | the label list has no duplicates, holds exactly the labels used, and more tasks only append to it |
| TaskRoutes.CreateTaskSpec | src/routes/tasks.js:118-135 | creation succeeds iff a title is given and the priority is blank or valid; the task is an open `todo` owned by the user, with the submitted title, description and due date, the parsed labels and the completion invariant |
| TaskRoutes.ApplyUpdateSpec | src/routes/tasks.js:164-169 | only supplied fields change, each to its submitted value; owner and timestamps are untouched; applying a form twice equals applying it once |
| TaskRoutes.PutTaskSpec | src/routes/tasks.js:147-178 | an unknown task is 404; on a valid stored task the update is a 500 iff the submitted status or priority is invalid; otherwise it refreshes `updatedAt`, keeps owner and creation time, and keeps the completion invariant |
| TaskRoutes.AssignUpdate | src/routes/tasks.js:164-169 | the assignments leave the document holding `ApplyUpdate` of its old fields, with the stored status untouched |
| TaskRoutes.HandlePut | src/routes/tasks.js:147-178 | assigning the fields and saving gives the response `PutTask` describes; after an update the document holds the saved task with its status stored; after a 500 it holds the assigned but unsaved fields, with the stored status unchanged |
| Pomodoro.RunStepsPreserveInv | src/public/css/pomodoro.js:2-17 | the initial state and start/pause/stop keep the timer invariant (never running and paused, the mode a known mode, count ≥ 0, queued switches are known modes) |
| Pomodoro.SwitchStepsPreserveInv | src/public/css/pomodoro.js:165-259 | a mode switch keeps the invariant exactly when the new mode is known (or the switch is declined); reset keeps it |
| Pomodoro.ScheduledStepsPreserveInv | src/public/css/pomodoro.js:288-295 | firing a queued switch and saving settings keep the invariant |
| Pomodoro.CompleteStepsPreserveInv | src/public/css/pomodoro.js:261-299 | tick and complete keep the invariant |
| Pomodoro.TaskStepsPreserveInv | src/public/css/pomodoro.js:332-363 | setting and clearing the task keep the invariant |
| Pomodoro.RunFlags | src/public/css/pomodoro.js:198-238 | start, pause and stop set the two run flags as listed and leave time and mode alone |
| Pomodoro.SwitchModeSpec | src/public/css/pomodoro.js:165-196 | a declined confirmation changes nothing; otherwise the mode is set, the timer is not running (a paused one stays paused) and the time is set to the mode's full duration (unchanged for an unknown mode); durations, count, task id and title, and queue are kept |
| Pomodoro.ResetSpec | src/public/css/pomodoro.js:240-259 | a declined reset changes nothing; otherwise the timer stops at its mode's full duration and nothing else changes |
| Pomodoro.TickSpec | src/public/css/pomodoro.js:261-270 | a tick removes one second; at zero or below it is exactly a completion of the decremented state, so the timer stops, a work session is counted and one switch is queued; otherwise nothing else changes |
| Pomodoro.CompleteSpec | src/public/css/pomodoro.js:272-299 | completion stops the timer and queues one switch; after work it counts the session and queues a long break iff the count is a multiple of 4; after a break it queues work; mode, time, durations and task are unchanged |
| Pomodoro.SaveSettingsSpec | src/public/css/pomodoro.js:365-387 | durations are stored in seconds; a timer that is not running (paused included) restarts its mode at the new duration; a running one keeps its time; nothing else changes |
| Pomodoro.ClearTaskSpec | src/public/css/pomodoro.js:348-363 | when not cancelled the task is forgotten and the timer is not running; a running timer is stopped at its mode's full duration with nothing else changed; a stopped or paused one changes only its task |
| Pomodoro.TicksCountDown | src/public/css/pomodoro.js:261-270 | a running session with n seconds left keeps running through k < n ticks, losing one second per tick |
| Pomodoro.SessionRunsOut | src/public/css/pomodoro.js:261-273 | the n-th tick ends an n-second session at zero, stopped, with one switch queued |
| Pomodoro.WorkSessionLeadsToBreak | src/public/css/pomodoro.js:282-290 | the end of a work session and its scheduled switch leave a stopped long break after every 4th session, a short one otherwise |
| Pomodoro.BreakLeadsToWork | src/public/css/pomodoro.js:291-295 | the end of a break and its scheduled switch leave a stopped work session at full length |
| Pomodoro.DigitChar | src/public/css/pomodoro.js:304 | the digit character of `d` is a digit worth `d` |
| Pomodoro.NatToString | src/public/css/pomodoro.js:304 | `toString` of a natural number is a non-empty digit string without a leading zero (unless it is `0`), one digit iff n < 10, at most two below 100 |
| Pomodoro.Pad2 | src/public/css/pomodoro.js:304 | `padStart(2,'0')` gives a string of length two, or of the input's length when that is longer |
| Pomodoro.Pad2Spec | src/public/css/pomodoro.js:304 | a string two long or longer is unchanged; a shorter one ends in the input and has only `'0'`s in front of it |
| Pomodoro.DecimalValueOfNatToString | src/public/css/pomodoro.js:304 | reading a numeral back gives the number |
| Pomodoro.Pad2Numeral | src/public/css/pomodoro.js:304 | padding a numeral keeps it a numeral with the same value |
| Pomodoro.FormatTimeParts | src/public/css/pomodoro.js:302-304 | for t ≥ 0 the display is the padded quotient and remainder by 60 |
| Pomodoro.FormatTimeRoundTrip | src/public/css/pomodoro.js:301-304 | for t ≥ 0 the display reads back as minutes and seconds with 60*m + s = t; below 100 minutes it is exactly 5 characters |
| Pomodoro.FormatTimeExamples | src/public/css/pomodoro.js:302-304 | 1500 s shows "25:00", 65 s "01:05", 0 "00:00", and -1 "-1:-1" |
| Pomodoro.PomodoroTimer.constructor | src/public/css/pomodoro.js:2-17 | a new timer holds the initial state: 25/5/15 minutes, work mode, stopped, no task, nothing queued |
| Pomodoro.PomodoroTimer.Stop | src/public/css/pomodoro.js:228-238 | the fields become `StopStep` of the old fields, and the timer invariant is kept |
| Pomodoro.PomodoroTimer.Start | src/public/css/pomodoro.js:198-213 | the fields become `StartStep` of the old fields, and the timer invariant is kept |
| Pomodoro.PomodoroTimer.Pause | src/public/css/pomodoro.js:215-226 | the fields become `PauseStep` of the old fields, and the timer invariant is kept |
| Pomodoro.PomodoroTimer.ApplyDuration | src/public/css/pomodoro.js:182-192 | the time becomes the duration of the named mode; an unknown mode changes nothing, and the timer invariant is kept |
| Pomodoro.PomodoroTimer.SwitchMode | src/public/css/pomodoro.js:165-196 | for a known mode, the fields become `SwitchModeStep` of the old fields and the invariant is kept |
| Pomodoro.PomodoroTimer.Reset | src/public/css/pomodoro.js:240-259 | the fields become `ResetStep` of the old fields, and the timer invariant is kept |
| Pomodoro.PomodoroTimer.Tick | src/public/css/pomodoro.js:261-270 | the fields become `TickStep` of the old fields, and the timer invariant is kept |
| Pomodoro.PomodoroTimer.Complete | src/public/css/pomodoro.js:272-299 | the fields become `CompleteStep` of the old fields, and the timer invariant is kept |
| Pomodoro.PomodoroTimer.FirePendingSwitch | src/public/css/pomodoro.js:288-295 | the oldest scheduled switch runs as `switchMode`, with the same confirmation rule, and the timer invariant is kept |
| Pomodoro.PomodoroTimer.SetTask | src/public/css/pomodoro.js:332-346 | the fields become `SetTaskStep` of the old fields, and the timer invariant is kept |
| Pomodoro.PomodoroTimer.ClearTask | src/public/css/pomodoro.js:348-363 | the fields become `ClearTaskStep` of the old fields, and the timer invariant is kept |
| Pomodoro.PomodoroTimer.SaveSettings | src/public/css/pomodoro.js:365-377 | the fields become `SaveSettingsStep` of the old fields, and the timer invariant is kept |
| Pomodoro.PomodoroTimer.UpdateDisplay | src/public/css/pomodoro.js:301-320 | for a non-negative time the text is minutes, a colon and two digits of seconds that read back as the remaining seconds, five characters below 100 minutes; the title starts with that text while running and is plain "Oollert Tasks" otherwise |

## Left out

- The routes `POST /:id/move` and `POST /:id/priority` (src/routes/tasks.js:180-221) are not modelled as separate routes. Each sets one field (status or priority) on the loaded document and calls `save()`, so it goes through the same validation and hook that `TaskDocument.Save` models.
- `DELETE /:id` and the GET handlers' database queries, sorting and rendering are not modelled: they are queries and presentation. Only the pure parts (`categorizeTasks`, `allLabels`, the statistics) are modelled.
- The `ensureAuth` middleware, src/routes/auth.js, src/routes/focus.js and src/index.js: sessions, login and server wiring are not part of this model.
- Flash messages, redirects and JSON rendering of responses: `PutTask` returns only which response is sent and the saved task.
- `owner` is a string: the `ObjectId` type, its `required` validator and its cast are not modelled, since the routes always set it from the session.
- Date parsing and casting: due dates arrive as milliseconds, and an unparsable date string, which makes mongoose throw a cast error, is not modelled.
- Time zones and daylight-saving changes: a day is always 86 400 000 ms, so a 23- or 25-hour local day is not modelled.
- Validation on save is modelled as checking title, status and priority of the whole document every time.
- The schema's `trim: true` on each label is not modelled separately: labels from the forms are already trimmed (`ParseLabelsClean`), so it would not change them.
- TaskRoutes.CompletionRate: computed with exact round-half-up, not with JavaScript's double arithmetic; the two differ when the quotient times 100 lands just below a half (57 of 200 gives 28 in double arithmetic, 29 here).
- Clock.CeilDiv: `isUpcoming` divides doubles; the model uses exact integer ceiling division. For far-off differences the double quotient can round to a different whole number of days, but only on the far side of the 1..7 window, so the flag is the same.
- TaskModel.CreateDefaults: one `now` stands for both clock readings of a create, the `createdAt` default (src/models/Task.js:21) and the hook's `Date.now()` (src/models/Task.js:28). "Created and updated at the same instant" holds only under that merge; on the real clock the two may differ by the time between the readings.
- Pomodoro.PomodoroTimer.SwitchMode: requires a known mode. Every caller passes one: the mode buttons (src/public/css/pomodoro.js:52-54, 125-126), `complete` (287, 293-294) and `saveSettings` (376), which passes the current mode. `SwitchModeStep` still models an unknown mode, and `SwitchStepsPreserveInv` shows that such a mode would break the invariant. A mode restored by `loadState` is not modelled.
- Pomodoro: the DOM (buttons, the collapsed panel, the progress ring at src/public/css/pomodoro.js:322-330), `saveState`/`loadState` and `sessionStorage`/`localStorage` (389-460), the notification and the sound (462-498), and `alert` are not modelled.
- Pomodoro.PomodoroTimer.Start: `setInterval` scheduling is not modelled. Ticks are explicit `Tick` calls, and starting twice does not model the two intervals that would both tick.
- Pomodoro.SaveSettingsStep: the inputs are integers; `parseInt` returning `NaN` for a non-numeric field is not modelled.
- Pomodoro.PomodoroTimer.FirePendingSwitch: the one-second delay is not modelled; a scheduled switch fires whenever it is called, in scheduling order.
