/** The task schema: its enums and defaults, the validation a save performs,
    the pre-save hook that keeps `updatedAt` and `completedAt` current, and
    the three derived flags `isOverdue`, `isDueToday` and `isUpcoming`. */
module TaskModel {
  import opened Wrappers
  import opened Clock

  const StatusTodo: string := "todo"
  const StatusInProgress: string := "inprogress"
  const StatusDone: string := "done"

  const PriorityLow: string := "low"
  const PriorityMedium: string := "medium"
  const PriorityHigh: string := "high"
  const PriorityUrgent: string := "urgent"

  /** The values the schema's `enum` validators accept. */
  const Statuses: seq<string> := [StatusTodo, StatusInProgress, StatusDone]
  const Priorities: seq<string> := [PriorityLow, PriorityMedium, PriorityHigh, PriorityUrgent]

  const DefaultStatus: string := StatusTodo
  const DefaultPriority: string := PriorityMedium

  predicate IsStatus(s: string) { s in Statuses }
  predicate IsPriority(p: string) { p in Priorities }

  /** A task document. Times are milliseconds; `None` is an unset field. */
  datatype Task = Task(
    title: string,
    description: Option<string>,
    status: string,
    owner: string,
    dueDate: Option<int>,
    priority: string,
    labels: seq<string>,
    createdAt: int,
    updatedAt: int,
    completedAt: Option<int>)
  {
    /** Neither done nor missing a due date: the guard of every derived flag
        and of every time bucket. */
    predicate IsOpenAndDated() {
      dueDate.Some? && status != StatusDone
    }
  }

  /** The schema paths whose validators can fail. */
  datatype Path = TitlePath | StatusPath | PriorityPath

  /** The paths whose validator rejects `t`: `title` is required (an empty
      string counts as missing) and `status` and `priority` must be enum values. */
  function ValidationErrors(t: Task): set<Path> {
    (if t.title == "" then {TitlePath} else {})
    + (if IsStatus(t.status) then {} else {StatusPath})
    + (if IsPriority(t.priority) then {} else {PriorityPath})
  }

  /** The body of `pre('save')`: refresh `updatedAt`; on a status change
      into `done` stamp `completedAt` unless already set; on a status change
      to anything else clear it. */
  function PreSaveHook(t: Task, statusModified: bool, now: int): Task {
    var t1 := t.(updatedAt := now);
    var t2 := if statusModified && t1.status == StatusDone && t1.completedAt.None?
              then t1.(completedAt := Some(now)) else t1;
    if statusModified && t2.status != StatusDone then t2.(completedAt := None) else t2
  }

  /** `doc.save()`: validation runs first and a rejected document is not
      touched; otherwise the hook runs and the result is stored. */
  function SaveOutcome(t: Task, statusModified: bool, now: int): Result<Task, set<Path>> {
    var errs := ValidationErrors(t);
    if errs != {} then Failure(errs) else Success(PreSaveHook(t, statusModified, now))
  }

  /** A loaded task document. `persistedStatus` is the status last read from or
      written to the store: mongoose reports the `status` path as modified
      exactly when the in-memory value differs from it. */
  class TaskDocument {
    var fields: Task
    var persistedStatus: string

    constructor Load(stored: Task)
      ensures fields == stored && persistedStatus == stored.status
    {
      fields := stored;
      persistedStatus := stored.status;
    }

    /** `this.isModified('status')`. */
    predicate StatusModified()
      reads this
    {
      fields.status != persistedStatus
    }

    /** `await task.save()`: validate, then run the hook's assignments on
        the document, then store it. A rejected save changes nothing. */
    method Save(now: int) returns (r: Result<Task, set<Path>>)
      modifies this
      ensures r == SaveOutcome(old(fields), old(StatusModified()), now)
      ensures r.Success? ==> fields == r.value && persistedStatus == fields.status
      ensures r.Failure? ==> fields == old(fields) && persistedStatus == old(persistedStatus)
    {
      var errs := ValidationErrors(fields);
      if errs != {} {
        return Failure(errs);
      }
      var modified := fields.status != persistedStatus;
      fields := fields.(updatedAt := now);
      if modified && fields.status == StatusDone && fields.completedAt.None? {
        fields := fields.(completedAt := Some(now));
      }
      if modified && fields.status != StatusDone {
        fields := fields.(completedAt := None);
      }
      persistedStatus := fields.status;
      r := Success(fields);
    }
  }

  /** `Task.create(...)` for a new document: the schema defaults fill
      `status`, a missing `priority` and both timestamps, then it is saved.
      A new document's status is its default, not a modification. */
  function Create(title: string, description: Option<string>, owner: string,
                  dueDate: Option<int>, priority: Option<string>,
                  labels: seq<string>, now: int): Result<Task, set<Path>>
  {
    var t := Task(title, description, DefaultStatus, owner, dueDate,
                  if priority.Some? then priority.value else DefaultPriority,
                  labels, now, now, None);
    SaveOutcome(t, false, now)
  }

  /** The completion invariant: `completedAt` is set exactly when the task is done. */
  predicate CompletionConsistent(t: Task) {
    t.completedAt.Some? <==> t.status == StatusDone
  }

  /** A save fails exactly on a missing title or a status or priority outside
      its enum, and names each failing path; a successful save changes no
      field but the two timestamps. */
  lemma SaveValidates(t: Task, statusModified: bool, now: int)
    ensures SaveOutcome(t, statusModified, now).Failure? <==>
              t.title == "" || !IsStatus(t.status) || !IsPriority(t.priority)
    ensures SaveOutcome(t, statusModified, now).Failure? ==>
              (TitlePath in SaveOutcome(t, statusModified, now).error <==> t.title == "")
              && (StatusPath in SaveOutcome(t, statusModified, now).error <==> !IsStatus(t.status))
              && (PriorityPath in SaveOutcome(t, statusModified, now).error <==> !IsPriority(t.priority))
    ensures SaveOutcome(t, statusModified, now).Success? ==>
              var r := SaveOutcome(t, statusModified, now).value;
              r == t.(updatedAt := r.updatedAt, completedAt := r.completedAt)
  {
    if t.title == "" {
      assert TitlePath in ValidationErrors(t);
    } else if !IsStatus(t.status) {
      assert StatusPath in ValidationErrors(t);
    } else if !IsPriority(t.priority) {
      assert PriorityPath in ValidationErrors(t);
    }
  }

  /** The hook's effect on the timestamps, case by case. */
  lemma PreSaveHookTimestamps(t: Task, statusModified: bool, now: int)
    ensures PreSaveHook(t, statusModified, now).updatedAt == now
    ensures statusModified && t.status == StatusDone && t.completedAt.None? ==>
              PreSaveHook(t, statusModified, now).completedAt == Some(now)
    ensures t.status == StatusDone && t.completedAt.Some? ==>
              PreSaveHook(t, statusModified, now).completedAt == t.completedAt
    ensures statusModified && t.status != StatusDone ==>
              PreSaveHook(t, statusModified, now).completedAt.None?
    ensures !statusModified ==> PreSaveHook(t, statusModified, now).completedAt == t.completedAt
  {
  }

  /** A save keeps the completion invariant when `statusModified` reports
      whether the status differs from the stored document's, and the stored
      document kept the invariant and the same `completedAt`. */
  lemma SavePreservesCompletion(stored: Task, t: Task, now: int)
    requires CompletionConsistent(stored)
    requires t.completedAt == stored.completedAt
    requires SaveOutcome(t, t.status != stored.status, now).Success?
    ensures CompletionConsistent(SaveOutcome(t, t.status != stored.status, now).value)
  {
  }

  /** Once a change of status into `done` has been saved, saving again keeps
      the completion time, whatever the clock says and whether or not the
      status is written again. */
  lemma CompletionStampIdempotent(t: Task, now: int, again: bool, later: int)
    requires SaveOutcome(t, true, now).Success?
    requires t.status == StatusDone
    ensures var r := SaveOutcome(t, true, now).value;
            && r.completedAt == (if t.completedAt.Some? then t.completedAt else Some(now))
            && SaveOutcome(r, again, later).Success?
            && SaveOutcome(r, again, later).value.completedAt == r.completedAt
  {
  }

  /** A created task stores the given title, description, owner, due date
      and labels; it starts as `todo`, with `medium` priority unless one was
      given, created and updated at the same instant, and not completed. */
  lemma CreateDefaults(title: string, description: Option<string>, owner: string,
                       dueDate: Option<int>, priority: Option<string>,
                       labels: seq<string>, now: int)
    ensures var r := Create(title, description, owner, dueDate, priority, labels, now);
            r.Success? ==>
              && r.value.status == StatusTodo
              && r.value.priority == (if priority.Some? then priority.value else PriorityMedium)
              && r.value.createdAt == now && r.value.updatedAt == now
              && r.value.completedAt.None?
              && r.value.owner == owner && r.value.labels == labels
              && CompletionConsistent(r.value)
    ensures var r := Create(title, description, owner, dueDate, priority, labels, now);
            r.Success? ==>
              r.value == Task(title, description, StatusTodo, owner, dueDate,
                              if priority.Some? then priority.value else PriorityMedium,
                              labels, now, now, None)
    ensures Create(title, description, owner, dueDate, priority, labels, now).Failure? <==>
              title == "" || (priority.Some? && !IsPriority(priority.value))
  {
    var t := Task(title, description, DefaultStatus, owner, dueDate,
                  if priority.Some? then priority.value else DefaultPriority,
                  labels, now, now, None);
    SaveValidates(t, false, now);
  }

  /** Virtual `isOverdue`: open, dated and `now` past the due instant. */
  predicate IsOverdue(t: Task, now: int) {
    if t.dueDate.None? || t.status == StatusDone then false
    else now > t.dueDate.value
  }

  /** Virtual `isDueToday`: open, dated and due on the calendar day of `now`. */
  predicate IsDueToday(t: Task, now: int) {
    if t.dueDate.None? || t.status == StatusDone then false
    else SameDay(now, t.dueDate.value)
  }

  /** Virtual `isUpcoming`: open, dated, and the due instant between one and
      seven days ahead, counting partial days up (`Math.ceil`). */
  predicate IsUpcoming(t: Task, now: int) {
    if t.dueDate.None? || t.status == StatusDone then false
    else
      var diffDays := CeilDiv(t.dueDate.value - now, DayMs);
      diffDays > 0 && diffDays <= 7
  }

  /** No derived flag holds for a done task or one without a due date. */
  lemma FlagsNeedOpenDatedTask(t: Task, now: int)
    requires !t.IsOpenAndDated()
    ensures !IsOverdue(t, now) && !IsDueToday(t, now) && !IsUpcoming(t, now)
  {
  }

  /** `isDueToday` holds exactly for open tasks due within the half-open
      calendar day of `now`. */
  lemma IsDueTodayIff(t: Task, now: int)
    ensures IsDueToday(t, now) <==>
              t.IsOpenAndDated()
              && StartOfDay(now) <= t.dueDate.value < StartOfDay(now) + DayMs
  {
    if t.IsOpenAndDated() {
      SameDayIffInDay(t.dueDate.value, StartOfDay(now));
    }
  }

  /** `isUpcoming` holds exactly for open tasks due strictly after `now`
      and at most seven full days later. */
  lemma IsUpcomingIff(t: Task, now: int)
    ensures IsUpcoming(t, now) <==>
              t.IsOpenAndDated() && now < t.dueDate.value <= now + 7 * DayMs
  {
    if t.IsOpenAndDated() {
      var diff := t.dueDate.value - now;
      var d := CeilDiv(diff, DayMs);
      if d > 0 && d <= 7 {
        assert diff <= 7 * DayMs;
      }
      if 0 < diff <= 7 * DayMs {
        assert d > 0;
        assert (d - 1) * DayMs < 7 * DayMs;
      }
    }
  }

  /** An upcoming task is never overdue and an overdue task never upcoming. */
  lemma UpcomingExcludesOverdue(t: Task, now: int)
    ensures IsUpcoming(t, now) ==> !IsOverdue(t, now)
  {
    IsUpcomingIff(t, now);
  }
}
