/** The logic of the task routes: sorting a snapshot of tasks into the smart
    view's time buckets, the analytics counts, parsing the comma-separated
    label field, the distinct-label list, and the create and update handlers
    as functions of the loaded task and the submitted form. */
module TaskRoutes {
  import opened Wrappers
  import opened Clock
  import opened Seqs
  import opened Text
  import opened TaskModel

  // ---------------------------------------------------------------------
  // Filters over a task snapshot
  // ---------------------------------------------------------------------

  /** The smart view's buckets. */
  datatype Bucket = Overdue | Today | Upcoming | Later | NoDueDate

  /** The conditions the routes filter tasks by. `InBucket(b, now)` is the
      filter of bucket `b` as `categorizeTasks` evaluates it at `now`. */
  datatype Criterion =
    | InBucket(bucket: Bucket, now: int)
    | HasStatus(status: string)
    | OpenWithPriority(priority: string)
    | OverdueAt(now: int)
    | CompletedSince(since: int)

  /** The predicate of each filter. For the buckets, `today` is the start of
      the current day, `tomorrow` is one day later and `nextWeek` seven. */
  predicate Matches(t: Task, c: Criterion) {
    match c
    case InBucket(b, now) =>
      var today := StartOfDay(now);
      var tomorrow := today + DayMs;
      var nextWeek := today + 7 * DayMs;
      (match b
       case NoDueDate => t.dueDate.None? && t.status != StatusDone
       case _ =>
         if t.dueDate.None? || t.status == StatusDone then false
         else
           var due := t.dueDate.value;
           match b
           case Overdue => due < today
           case Today => StartOfDay(due) == today
           case Upcoming => due >= tomorrow && due < nextWeek
           case Later => due >= nextWeek)
    case HasStatus(s) => t.status == s
    case OpenWithPriority(p) => t.priority == p && t.status != StatusDone
    case OverdueAt(now) =>
      if t.dueDate.None? || t.status == StatusDone then false else t.dueDate.value < now
    case CompletedSince(since) => t.completedAt.Some? && t.completedAt.value >= since
  }

  /** `tasks.filter(...)` for one criterion. */
  function Select(tasks: seq<Task>, c: Criterion): seq<Task>
    decreases |tasks|
  {
    if tasks == [] then []
    else (if Matches(tasks[0], c) then [tasks[0]] else []) + Select(tasks[1..], c)
  }

  /** `tasks.filter(...).length`. */
  function Count(tasks: seq<Task>, c: Criterion): nat {
    |Select(tasks, c)|
  }

  /** A filter keeps exactly the matching tasks, each matching task as
      often as it occurs in the input. */
  lemma {:induction false} SelectMembers(tasks: seq<Task>, c: Criterion)
    ensures forall x :: x in Select(tasks, c) <==> x in tasks && Matches(x, c)
    ensures forall x :: multiset(Select(tasks, c))[x] ==
                          if Matches(x, c) then multiset(tasks)[x] else 0
    decreases |tasks|
  {
    if tasks != [] {
      SelectMembers(tasks[1..], c);
      assert tasks == [tasks[0]] + tasks[1..];
      assert multiset(tasks) == multiset([tasks[0]]) + multiset(tasks[1..]);
    }
  }

  /** `filter(...).length` counts the matching tasks: one for a matching
      task, none for another, and the counts of two lists add up. */
  lemma {:induction false} CountAppend(a: seq<Task>, b: seq<Task>, c: Criterion)
    ensures Count(a + b, c) == Count(a, c) + Count(b, c)
    ensures forall t :: Count([t], c) == if Matches(t, c) then 1 else 0
    decreases |a|
  {
    if a == [] {
      assert a + b == b;
    } else {
      CountAppend(a[1..], b, c);
      assert (a + b)[1..] == a[1..] + b;
    }
    forall t ensures Count([t], c) == if Matches(t, c) then 1 else 0 {
      assert [t][1..] == [];
    }
  }

  /** A filter keeps the input order. */
  lemma {:induction false} SelectIsSubsequence(tasks: seq<Task>, c: Criterion)
    ensures Subsequence(Select(tasks, c), tasks)
    decreases |tasks|
  {
    if tasks != [] {
      var rest := Select(tasks[1..], c);
      SelectIsSubsequence(tasks[1..], c);
      if Matches(tasks[0], c) {
        assert ([tasks[0]] + rest)[1..] == rest;
      } else {
        assert [] + rest == rest;
      }
    }
  }

  // ---------------------------------------------------------------------
  // categorizeTasks
  // ---------------------------------------------------------------------

  datatype Categorized = Categorized(
    overdue: seq<Task>,
    today: seq<Task>,
    upcoming: seq<Task>,
    later: seq<Task>,
    noDueDate: seq<Task>)
  {
    function Of(b: Bucket): seq<Task> {
      match b
      case Overdue => overdue
      case Today => today
      case Upcoming => upcoming
      case Later => later
      case NoDueDate => noDueDate
    }
  }

  /** `categorizeTasks(tasks)` evaluated at `now`. */
  function CategorizeTasks(tasks: seq<Task>, now: int): Categorized {
    Categorized(
      Select(tasks, InBucket(Overdue, now)),
      Select(tasks, InBucket(Today, now)),
      Select(tasks, InBucket(Upcoming, now)),
      Select(tasks, InBucket(Later, now)),
      Select(tasks, InBucket(NoDueDate, now)))
  }

  /** The bucket a task belongs in, decided in one pass over the day
      boundaries: done tasks have none, undated open tasks go to
      `noDueDate`, dated ones by where the due instant falls. */
  function Classify(t: Task, now: int): Option<Bucket> {
    var today := StartOfDay(now);
    if t.status == StatusDone then None
    else if t.dueDate.None? then Some(NoDueDate)
    else if t.dueDate.value < today then Some(Overdue)
    else if t.dueDate.value < today + DayMs then Some(Today)
    else if t.dueDate.value < today + 7 * DayMs then Some(Upcoming)
    else Some(Later)
  }

  /** Each of the five filters selects exactly the tasks classified into
      its bucket, so the buckets are disjoint and a done task is in none. */
  lemma BucketIffClassify(t: Task, b: Bucket, now: int)
    ensures Matches(t, InBucket(b, now)) <==> Classify(t, now) == Some(b)
  {
    if t.dueDate.Some? {
      SameDayIffInDay(t.dueDate.value, StartOfDay(now));
    }
  }

  /** Every open dated task is in exactly one of overdue, today, upcoming
      and later; an undated open task only in `noDueDate`; a done task in none. */
  lemma ExactlyOneBucket(t: Task, now: int)
    ensures t.IsOpenAndDated() ==>
              Matches(t, InBucket(Classify(t, now).value, now))
              && Classify(t, now).value in {Overdue, Today, Upcoming, Later}
    ensures forall b, b' ::
              Matches(t, InBucket(b, now)) && Matches(t, InBucket(b', now)) ==> b == b'
    ensures t.status == StatusDone ==> forall b :: !Matches(t, InBucket(b, now))
    ensures Matches(t, InBucket(NoDueDate, now)) <==> t.dueDate.None? && t.status != StatusDone
  {
    forall b {
      BucketIffClassify(t, b, now);
    }
  }

  /** A task is listed in a bucket exactly when it is in the input and
      classified into that bucket; every bucket keeps the input order. */
  lemma CategorizeMembers(tasks: seq<Task>, now: int, b: Bucket)
    ensures forall x :: x in CategorizeTasks(tasks, now).Of(b) <==>
                          x in tasks && Classify(x, now) == Some(b)
    ensures Subsequence(CategorizeTasks(tasks, now).Of(b), tasks)
  {
    SelectMembers(tasks, InBucket(b, now));
    SelectIsSubsequence(tasks, InBucket(b, now));
    forall x {
      BucketIffClassify(x, b, now);
    }
  }

  /** The buckets partition the open tasks: their sizes and the number of
      done tasks add up to the size of the input. */
  lemma {:induction false} CategorizeCounts(tasks: seq<Task>, now: int)
    ensures var c := CategorizeTasks(tasks, now);
            |c.overdue| + |c.today| + |c.upcoming| + |c.later| + |c.noDueDate|
              + Count(tasks, HasStatus(StatusDone)) == |tasks|
    decreases |tasks|
  {
    if tasks != [] {
      CategorizeCounts(tasks[1..], now);
      ExactlyOneBucket(tasks[0], now);
      forall b {
        BucketIffClassify(tasks[0], b, now);
      }
    }
  }

  // ---------------------------------------------------------------------
  // The analytics view
  // ---------------------------------------------------------------------

  datatype ByPriority = ByPriority(urgent: nat, high: nat, medium: nat, low: nat)

  datatype Stats = Stats(
    total: nat,
    todo: nat,
    inProgress: nat,
    completed: nat,
    overdue: nat,
    byPriority: ByPriority,
    completionRate: int,
    recentCompletions: nat)

  /** `Math.round(n / d)` on exact values (halves round up) for a positive `d`. */
  function RoundDiv(n: int, d: int): int
    requires d > 0
  {
    (2 * n + d) / (2 * d)
  }

  /** `completionRate`: the rounded percentage of done tasks, 0 for no tasks. */
  function CompletionRate(completed: nat, total: nat): int {
    if total > 0 then RoundDiv(completed * 100, total) else 0
  }

  /** The statistics the analytics route renders, evaluated at `now`. The
      recent-completion window starts seven days before `now`. */
  function ComputeStats(tasks: seq<Task>, now: int): Stats {
    Stats(
      |tasks|,
      Count(tasks, HasStatus(StatusTodo)),
      Count(tasks, HasStatus(StatusInProgress)),
      Count(tasks, HasStatus(StatusDone)),
      Count(tasks, OverdueAt(now)),
      ByPriority(
        Count(tasks, OpenWithPriority(PriorityUrgent)),
        Count(tasks, OpenWithPriority(PriorityHigh)),
        Count(tasks, OpenWithPriority(PriorityMedium)),
        Count(tasks, OpenWithPriority(PriorityLow))),
      CompletionRate(Count(tasks, HasStatus(StatusDone)), |tasks|),
      Count(tasks, CompletedSince(now - 7 * DayMs)))
  }

  /** No task matches more often than there are tasks. */
  lemma {:induction false} CountAtMostTotal(tasks: seq<Task>, c: Criterion)
    ensures Count(tasks, c) <= |tasks|
    decreases |tasks|
  {
    if tasks != [] {
      CountAtMostTotal(tasks[1..], c);
    }
  }

  /** The completion rate is the nearest whole percentage (halves up),
      between 0 and 100, and 0 for an empty list. */
  lemma CompletionRateSpec(completed: nat, total: nat)
    requires completed <= total
    ensures total == 0 ==> CompletionRate(completed, total) == 0
    ensures total > 0 ==>
              var r := CompletionRate(completed, total);
              2 * total * r <= 200 * completed + total < 2 * total * r + 2 * total
    ensures 0 <= CompletionRate(completed, total) <= 100
    ensures total > 0 && completed == total ==> CompletionRate(completed, total) == 100
  {
    if total > 0 {
      var n := 2 * (completed * 100) + total;
      var d := 2 * total;
      var r := n / d;
      DivBounds(n, d);
      assert n <= 201 * total;
      if r > 100 {
        MulMonotone(d, 101, r);
      }
      if completed == total {
        assert n == d * 100 + total;
        DivUnique(n, d, 100);
      }
    }
  }

  lemma DivBounds(n: int, d: int)
    requires d > 0
    ensures d * (n / d) <= n < d * (n / d) + d
  {
  }

  lemma MulMonotone(a: int, b: int, c: int)
    requires a >= 0 && b <= c
    ensures a * b <= a * c
  {
  }

  lemma DivUnique(n: int, d: int, q: int)
    requires d > 0 && d * q <= n < d * q + d
    ensures n / d == q
  {
    DivBounds(n, d);
    var r := n / d;
    if r < q {
      MulMonotone(d, r + 1, q);
    } else if r > q {
      MulMonotone(d, q + 1, r);
    }
  }

  /** The three status counts add up to the total when every status is an
      enum value. */
  lemma StatusCountsSum(tasks: seq<Task>, now: int)
    requires forall i :: 0 <= i < |tasks| ==> IsStatus(tasks[i].status)
    ensures var s := ComputeStats(tasks, now);
            s.todo + s.inProgress + s.completed == s.total
  {
    StatusCountsAddUp(tasks);
  }

  lemma {:induction false} StatusCountsAddUp(tasks: seq<Task>)
    requires forall i :: 0 <= i < |tasks| ==> IsStatus(tasks[i].status)
    ensures Count(tasks, HasStatus(StatusTodo)) + Count(tasks, HasStatus(StatusInProgress))
              + Count(tasks, HasStatus(StatusDone)) == |tasks|
    decreases |tasks|
  {
    if tasks != [] {
      var rest := tasks[1..];
      assert forall i :: 0 <= i < |rest| ==> rest[i] == tasks[i + 1];
      StatusCountsAddUp(rest);
      CountCons(tasks, HasStatus(StatusTodo));
      CountCons(tasks, HasStatus(StatusInProgress));
      CountCons(tasks, HasStatus(StatusDone));
      assert IsStatus(tasks[0].status);
    }
  }

  /** The four priority counts cover exactly the open tasks when every
      priority is an enum value. */
  lemma PriorityCountsSum(tasks: seq<Task>, now: int)
    requires forall i :: 0 <= i < |tasks| ==> IsPriority(tasks[i].priority)
    ensures var s := ComputeStats(tasks, now);
            s.byPriority.urgent + s.byPriority.high + s.byPriority.medium + s.byPriority.low
              == s.total - s.completed
  {
    PriorityCountsAddUp(tasks);
  }

  lemma {:induction false} PriorityCountsAddUp(tasks: seq<Task>)
    requires forall i :: 0 <= i < |tasks| ==> IsPriority(tasks[i].priority)
    ensures Count(tasks, OpenWithPriority(PriorityUrgent)) + Count(tasks, OpenWithPriority(PriorityHigh))
              + Count(tasks, OpenWithPriority(PriorityMedium)) + Count(tasks, OpenWithPriority(PriorityLow))
              + Count(tasks, HasStatus(StatusDone)) == |tasks|
    decreases |tasks|
  {
    if tasks != [] {
      var rest := tasks[1..];
      assert forall i :: 0 <= i < |rest| ==> rest[i] == tasks[i + 1];
      PriorityCountsAddUp(rest);
      CountCons(tasks, OpenWithPriority(PriorityUrgent));
      CountCons(tasks, OpenWithPriority(PriorityHigh));
      CountCons(tasks, OpenWithPriority(PriorityMedium));
      CountCons(tasks, OpenWithPriority(PriorityLow));
      CountCons(tasks, HasStatus(StatusDone));
      assert IsPriority(tasks[0].priority);
    }
  }

  /** Counting over a non-empty list: the first task, then the rest. */
  lemma CountCons(tasks: seq<Task>, c: Criterion)
    requires tasks != []
    ensures Count(tasks, c) == (if Matches(tasks[0], c) then 1 else 0) + Count(tasks[1..], c)
  {
  }

  /** An empty snapshot gives all-zero statistics, including the rate. */
  lemma EmptyStats(now: int)
    ensures ComputeStats([], now) == Stats(0, 0, 0, 0, 0, ByPriority(0, 0, 0, 0), 0, 0)
  {
  }

  /** Ten tasks of which three are done give a completion rate of 30. */
  lemma CompletionRateExample()
    ensures CompletionRate(3, 10) == 30
  {
  }

  /** The analytics `overdue` count compares against `now`, not the start of
      the day: it counts every task the overdue bucket holds, and beyond
      them only tasks due earlier today. It counts exactly the tasks whose
      `isOverdue` flag holds. */
  lemma OverdueCountBetweenBuckets(tasks: seq<Task>, now: int)
    ensures var c := CategorizeTasks(tasks, now);
            var n := ComputeStats(tasks, now).overdue;
            |c.overdue| <= n <= |c.overdue| + |c.today|
    ensures ComputeStats(tasks, now).overdue == |Select(tasks, OverdueAt(now))|
    ensures forall x :: x in Select(tasks, OverdueAt(now)) <==> x in tasks && IsOverdue(x, now)
    ensures forall x :: multiset(Select(tasks, OverdueAt(now)))[x] ==
                          if IsOverdue(x, now) then multiset(tasks)[x] else 0
  {
    OverdueCountInBuckets(tasks, now);
    OverdueCountMembers(tasks, now);
  }

  lemma OverdueCountInBuckets(tasks: seq<Task>, now: int)
    ensures var c := CategorizeTasks(tasks, now);
            var n := ComputeStats(tasks, now).overdue;
            |c.overdue| <= n <= |c.overdue| + |c.today|
  {
    OverdueCountBounds(tasks, now);
  }

  lemma OverdueCountMembers(tasks: seq<Task>, now: int)
    ensures ComputeStats(tasks, now).overdue == |Select(tasks, OverdueAt(now))|
    ensures forall x :: x in Select(tasks, OverdueAt(now)) <==> x in tasks && IsOverdue(x, now)
    ensures forall x :: multiset(Select(tasks, OverdueAt(now)))[x] ==
                          if IsOverdue(x, now) then multiset(tasks)[x] else 0
  {
    assert ComputeStats(tasks, now).overdue == Count(tasks, OverdueAt(now));
    forall x ensures Matches(x, OverdueAt(now)) == IsOverdue(x, now) {
    }
    SelectMembers(tasks, OverdueAt(now));
  }

  /** The overdue count lies between the sizes of the overdue bucket and of
      the overdue and today buckets together. */
  lemma {:induction false} OverdueCountBounds(tasks: seq<Task>, now: int)
    ensures Count(tasks, InBucket(Overdue, now)) <= Count(tasks, OverdueAt(now))
              <= Count(tasks, InBucket(Overdue, now)) + Count(tasks, InBucket(Today, now))
    decreases |tasks|
  {
    if tasks != [] {
      OverdueCountBounds(tasks[1..], now);
      CountCons(tasks, InBucket(Overdue, now));
      CountCons(tasks, InBucket(Today, now));
      CountCons(tasks, OverdueAt(now));
      BucketIffClassify(tasks[0], Today, now);
      BucketIffClassify(tasks[0], Overdue, now);
    }
  }

  /** `recentCompletions` counts exactly the tasks completed at or after
      seven days before `now`, each as often as it occurs. */
  lemma RecentCompletionsMembers(tasks: seq<Task>, now: int)
    ensures ComputeStats(tasks, now).recentCompletions ==
              |Select(tasks, CompletedSince(now - 7 * DayMs))|
    ensures forall x :: multiset(Select(tasks, CompletedSince(now - 7 * DayMs)))[x] ==
              if x.completedAt.Some? && x.completedAt.value >= now - 7 * DayMs
              then multiset(tasks)[x] else 0
  {
    SelectMembers(tasks, CompletedSince(now - 7 * DayMs));
  }

  /** The `today` bucket agrees with the `isDueToday` flag; the overdue and
      upcoming buckets imply the `isOverdue` and `isUpcoming` flags. */
  lemma BucketsAgreeWithFlags(t: Task, now: int)
    ensures Matches(t, InBucket(Today, now)) <==> IsDueToday(t, now)
    ensures Matches(t, InBucket(Overdue, now)) ==> IsOverdue(t, now)
    ensures Matches(t, InBucket(Upcoming, now)) ==> IsUpcoming(t, now)
  {
    IsUpcomingIff(t, now);
  }

  /** The converse fails for `isUpcoming`: a task due one hour from now and
      still today is flagged upcoming but listed in the `today` bucket. */
  lemma UpcomingFlagNotUpcomingBucket()
    ensures var now := 10 * DayMs;
            var t := Task("t", None, StatusTodo, "u", Some(now + 3_600_000), PriorityMedium,
                          [], 0, 0, None);
            IsUpcoming(t, now) && !Matches(t, InBucket(Upcoming, now))
            && Matches(t, InBucket(Today, now))
  {
    var now := 10 * DayMs;
    assert StartOfDay(now) == now;
    assert StartOfDay(now + 3_600_000) == now;
  }

  // ---------------------------------------------------------------------
  // Labels
  // ---------------------------------------------------------------------

  /** `parts.map(l => l.trim())`. */
  function TrimAll(parts: seq<string>): (r: seq<string>)
    ensures |r| == |parts|
    ensures forall k :: 0 <= k < |r| ==> r[k] == Trim(parts[k])
    decreases |parts|
  {
    if parts == [] then [] else [Trim(parts[0])] + TrimAll(parts[1..])
  }

  /** `xs.filter(l => l.length > 0)`. */
  function DropEmpty(xs: seq<string>): seq<string>
    decreases |xs|
  {
    if xs == [] then []
    else (if xs[0] == "" then [] else [xs[0]]) + DropEmpty(xs[1..])
  }

  /** The label field of a form: a comma-separated string, or nothing.
      A missing or empty field gives no labels. */
  function ParseLabels(labels: Option<string>): seq<string> {
    if labels.None? || labels.value == "" then []
    else DropEmpty(TrimAll(Split(labels.value, ',')))
  }

  /** Dropping empty strings keeps every other string, as often as it
      occurs and in order. */
  lemma DropEmptySpec(xs: seq<string>)
    ensures forall x :: x in DropEmpty(xs) <==> x in xs && x != ""
    ensures forall x :: multiset(DropEmpty(xs))[x] == if x != "" then multiset(xs)[x] else 0
    ensures Subsequence(DropEmpty(xs), xs)
    ensures (forall k :: 0 <= k < |xs| ==> xs[k] != "") ==> DropEmpty(xs) == xs
  {
    DropEmptyCounts(xs);
    DropEmptyOrder(xs);
    forall x ensures x in DropEmpty(xs) <==> x in xs && x != "" {
      assert x in DropEmpty(xs) <==> multiset(DropEmpty(xs))[x] > 0;
      assert x in xs <==> multiset(xs)[x] > 0;
    }
  }

  /** Each non-empty string survives the filter as often as it occurs. */
  lemma {:induction false} DropEmptyCounts(xs: seq<string>)
    ensures forall x :: multiset(DropEmpty(xs))[x] == if x != "" then multiset(xs)[x] else 0
    decreases |xs|
  {
    if xs != [] {
      DropEmptyCounts(xs[1..]);
      assert xs == [xs[0]] + xs[1..];
      assert multiset(xs) == multiset([xs[0]]) + multiset(xs[1..]);
    }
  }

  /** The filter keeps the input order, and drops nothing from a list
      without empty strings. */
  lemma {:induction false} DropEmptyOrder(xs: seq<string>)
    ensures Subsequence(DropEmpty(xs), xs)
    ensures (forall k :: 0 <= k < |xs| ==> xs[k] != "") ==> DropEmpty(xs) == xs
    decreases |xs|
  {
    if xs != [] {
      DropEmptyOrder(xs[1..]);
      var rest := DropEmpty(xs[1..]);
      if xs[0] == "" {
        assert [] + rest == rest;
      } else {
        assert ([xs[0]] + rest)[1..] == rest;
      }
    }
  }

  /** A label well-formed for storage: non-empty, without surrounding white
      space, and without a comma. */
  predicate IsCleanLabel(l: string) {
    l != "" && IsTrimmed(l) && ',' !in l
  }

  /** A missing or empty label field gives no labels. */
  lemma ParseLabelsEmpty(labels: Option<string>)
    requires labels.None? || labels == Some("")
    ensures ParseLabels(labels) == []
  {
  }

  /** Parsing yields clean labels. */
  lemma ParseLabelsClean(labels: Option<string>)
    ensures forall l :: l in ParseLabels(labels) ==> IsCleanLabel(l)
  {
    if labels.Some? && labels.value != "" {
      var trimmed := TrimAll(Split(labels.value, ','));
      TrimmedPiecesClean(Split(labels.value, ','));
      DropEmptySpec(trimmed);
    }
  }

  /** Each trimmed comma-free piece is blank or a clean label. */
  lemma TrimmedPiecesClean(parts: seq<string>)
    requires forall k :: 0 <= k < |parts| ==> ',' !in parts[k]
    ensures forall l :: l in TrimAll(parts) && l != "" ==> IsCleanLabel(l)
  {
    forall k | 0 <= k < |parts| && Trim(parts[k]) != ""
      ensures IsCleanLabel(Trim(parts[k]))
    {
      CleanPiece(parts[k]);
    }
  }

  /** The parsed labels are the non-blank trimmed comma-separated pieces of
      the field, each as often as it was written and in the order written. */
  lemma ParseLabelsInOrder(s: string)
    requires s != ""
    ensures Subsequence(ParseLabels(Some(s)), TrimAll(Split(s, ',')))
    ensures forall l :: l in ParseLabels(Some(s)) <==> l in TrimAll(Split(s, ',')) && l != ""
    ensures forall l :: multiset(ParseLabels(Some(s)))[l] ==
                          if l != "" then multiset(TrimAll(Split(s, ',')))[l] else 0
  {
    DropEmptySpec(TrimAll(Split(s, ',')));
  }

  /** A comma-free piece that is not blank trims to a clean label. */
  lemma CleanPiece(p: string)
    requires ',' !in p && Trim(p) != ""
    ensures IsCleanLabel(Trim(p))
  {
    TrimIsTrimmed(p);
    TrimKeepsOut(p, ',');
  }

  /** Labels written back as a comma-separated field parse to themselves. */
  lemma ParseLabelsJoin(labels: seq<string>)
    requires forall k :: 0 <= k < |labels| ==> IsCleanLabel(labels[k])
    ensures |labels| == 0 ==> ParseLabels(None) == labels
    ensures |labels| > 0 ==> ParseLabels(Some(Join(labels, ','))) == labels
  {
    if |labels| > 0 {
      SplitJoin(labels, ',');
      TrimAllOfClean(labels);
      DropEmptySpec(labels);
      JoinStartsWithFirst(labels, ',');
    }
  }

  /** Clean labels are unchanged by trimming. */
  lemma TrimAllOfClean(labels: seq<string>)
    requires forall k :: 0 <= k < |labels| ==> IsCleanLabel(labels[k])
    ensures TrimAll(labels) == labels
  {
    forall k | 0 <= k < |labels| ensures TrimAll(labels)[k] == labels[k] {
      TrimOfTrimmed(labels[k]);
    }
  }

  /** A join starts with its first piece. */
  lemma JoinStartsWithFirst(xs: seq<string>, sep: char)
    requires |xs| >= 1
    ensures xs[0] <= Join(xs, sep)
  {
  }

  /** `tasks.flatMap(t => t.labels || [])`. */
  function FlatLabels(tasks: seq<Task>): seq<string>
    decreases |tasks|
  {
    if tasks == [] then [] else tasks[0].labels + FlatLabels(tasks[1..])
  }

  /** `[...new Set(tasks.flatMap(t => t.labels || []))]`. */
  function AllLabels(tasks: seq<Task>): seq<string> {
    Dedup(FlatLabels(tasks))
  }

  lemma {:induction false} FlatLabelsMembers(tasks: seq<Task>)
    ensures forall l :: l in FlatLabels(tasks) <==>
              exists i :: 0 <= i < |tasks| && l in tasks[i].labels
    decreases |tasks|
  {
    if tasks != [] {
      FlatLabelsMembers(tasks[1..]);
      forall l | l in FlatLabels(tasks)
        ensures exists i :: 0 <= i < |tasks| && l in tasks[i].labels
      {
        if l !in tasks[0].labels {
          assert l in FlatLabels(tasks[1..]);
          var i :| 0 <= i < |tasks[1..]| && l in tasks[1..][i].labels;
          assert l in tasks[i + 1].labels;
        }
      }
      forall l, i | 0 <= i < |tasks| && l in tasks[i].labels
        ensures l in FlatLabels(tasks)
      {
        if i > 0 {
          assert l in tasks[1..][i - 1].labels;
        }
      }
    }
  }

  /** The distinct-label list holds every label used by some task, each
      once, in order of first use. */
  lemma AllLabelsSpec(tasks: seq<Task>, more: seq<Task>)
    ensures NoDuplicates(AllLabels(tasks))
    ensures forall l :: l in AllLabels(tasks) <==>
              exists i :: 0 <= i < |tasks| && l in tasks[i].labels
    ensures AllLabels(tasks) <= AllLabels(tasks + more)
  {
    DedupNoDuplicates(FlatLabels(tasks));
    DedupElements(FlatLabels(tasks));
    FlatLabelsMembers(tasks);
    FlatLabelsAppend(tasks, more);
    DedupPrefix(FlatLabels(tasks), FlatLabels(more));
  }

  lemma {:induction false} FlatLabelsAppend(a: seq<Task>, b: seq<Task>)
    ensures FlatLabels(a + b) == FlatLabels(a) + FlatLabels(b)
    decreases |a|
  {
    if a == [] {
      assert a + b == b;
    } else {
      FlatLabelsAppend(a[1..], b);
      assert (a + b)[1..] == a[1..] + b;
    }
  }

  // ---------------------------------------------------------------------
  // Creating and updating a task
  // ---------------------------------------------------------------------

  /** A string form field: missing, or the submitted text. The route's
      truthiness test `if (field)` holds for a non-empty string. */
  predicate Truthy(field: Option<string>) {
    field.Some? && field.value != ""
  }

  /** The body of `POST /tasks`. `dueDate` is the submitted date, `None`
      when missing or empty. */
  datatype CreateForm = CreateForm(
    title: Option<string>,
    description: Option<string>,
    dueDate: Option<int>,
    priority: Option<string>,
    labels: Option<string>)

  /** `POST /tasks`: parse the labels, default the priority, and create the
      task owned by the session's user. */
  function CreateTask(form: CreateForm, owner: string, now: int): Result<Task, set<Path>> {
    Create(if form.title.Some? then form.title.value else "",
           form.description, owner, form.dueDate,
           Some(if Truthy(form.priority) then form.priority.value else PriorityMedium),
           ParseLabels(form.labels), now)
  }

  /** Creation succeeds exactly with a title and a valid or blank priority;
      the new task is open, consistent, owned by the user, with the submitted
      title, description and due date and the parsed labels. */
  lemma CreateTaskSpec(form: CreateForm, owner: string, now: int)
    ensures CreateTask(form, owner, now).Success? <==>
              Truthy(form.title) && (!Truthy(form.priority) || IsPriority(form.priority.value))
    ensures var r := CreateTask(form, owner, now);
            r.Success? ==>
              && r.value.title == form.title.value
              && r.value.description == form.description
              && r.value.dueDate == form.dueDate
              && r.value.owner == owner
              && r.value.status == StatusTodo
              && r.value.priority == (if Truthy(form.priority) then form.priority.value else PriorityMedium)
              && r.value.labels == ParseLabels(form.labels)
              && r.value.createdAt == now && r.value.updatedAt == now
              && CompletionConsistent(r.value)
  {
    var p := Some(if Truthy(form.priority) then form.priority.value else PriorityMedium);
    CreateDefaults(if form.title.Some? then form.title.value else "",
                   form.description, owner, form.dueDate, p, ParseLabels(form.labels), now);
  }

  /** The body of `PUT /tasks/:id`. `dueDate` is `None` when missing,
      `Some(None)` when submitted empty, `Some(Some(t))` for a date. */
  datatype UpdateForm = UpdateForm(
    title: Option<string>,
    description: Option<string>,
    dueDate: Option<Option<int>>,
    priority: Option<string>,
    labels: Option<string>,
    status: Option<string>)

  /** The field-by-field update of the loaded task. */
  function ApplyUpdate(t: Task, f: UpdateForm): Task {
    t.(title := if Truthy(f.title) then f.title.value else t.title,
       description := if f.description.Some? then f.description else t.description,
       dueDate := if f.dueDate.Some? then f.dueDate.value else t.dueDate,
       priority := if Truthy(f.priority) then f.priority.value else t.priority,
       labels := if f.labels.Some? then ParseLabels(f.labels) else t.labels,
       status := if Truthy(f.status) then f.status.value else t.status)
  }

  /** An update writes only supplied fields, writes each of them with the
      submitted value, never touches owner and timestamps, and applying
      the same form twice is the same as once. */
  lemma ApplyUpdateSpec(t: Task, f: UpdateForm)
    ensures var r := ApplyUpdate(t, f);
            && r.owner == t.owner && r.createdAt == t.createdAt
            && r.updatedAt == t.updatedAt && r.completedAt == t.completedAt
            && (r.title != t.title ==> Truthy(f.title))
            && (r.description != t.description ==> f.description.Some?)
            && (r.dueDate != t.dueDate ==> f.dueDate.Some?)
            && (r.priority != t.priority ==> Truthy(f.priority))
            && (r.labels != t.labels ==> f.labels.Some?)
            && (r.status != t.status ==> Truthy(f.status))
            && (Truthy(f.title) ==> r.title == f.title.value)
            && (f.description.Some? ==> r.description == f.description)
            && (f.dueDate.Some? ==> r.dueDate == f.dueDate.value)
            && (Truthy(f.priority) ==> r.priority == f.priority.value)
            && (f.labels.Some? ==> r.labels == ParseLabels(f.labels))
            && (Truthy(f.status) ==> r.status == f.status.value)
            && ApplyUpdate(r, f) == r
  {
  }

  /** The responses of `PUT /tasks/:id`. */
  datatype PutResponse = NotFound | ServerError | Updated(task: Task)

  /** `PUT /tasks/:id` given what the owner-scoped lookup found: unknown
      task is 404; an update the schema rejects surfaces as a server error;
      otherwise the updated task is saved, with `status` counted as
      modified when its new value differs from the stored one. */
  function PutTask(found: Option<Task>, f: UpdateForm, now: int): PutResponse {
    if found.None? then NotFound
    else
      var u := ApplyUpdate(found.value, f);
      match SaveOutcome(u, u.status != found.value.status, now)
      case Success(saved) => Updated(saved)
      case Failure(_) => ServerError
  }

  /** For a stored task that passes validation and keeps the completion
      invariant: the update fails only on a supplied status or priority
      outside its enum; a successful one refreshes `updatedAt`, keeps the
      owner and creation time, and keeps the invariant. */
  lemma PutTaskSpec(stored: Task, f: UpdateForm, now: int)
    requires ValidationErrors(stored) == {}
    requires CompletionConsistent(stored)
    ensures PutTask(None, f, now) == NotFound
    ensures PutTask(Some(stored), f, now).ServerError? <==>
              (Truthy(f.status) && !IsStatus(f.status.value))
              || (Truthy(f.priority) && !IsPriority(f.priority.value))
    ensures PutTask(Some(stored), f, now).Updated? ==>
              var r := PutTask(Some(stored), f, now).task;
              && r.updatedAt == now
              && r.owner == stored.owner && r.createdAt == stored.createdAt
              && CompletionConsistent(r)
              && r == ApplyUpdate(stored, f).(updatedAt := r.updatedAt, completedAt := r.completedAt)
  {
    var u := ApplyUpdate(stored, f);
    SaveValidates(u, u.status != stored.status, now);
    if SaveOutcome(u, u.status != stored.status, now).Success? {
      SavePreservesCompletion(stored, u, now);
    }
  }

  /** The route's field-by-field assignments to the loaded document. */
  method AssignUpdate(doc: TaskDocument, f: UpdateForm)
    modifies doc
    ensures doc.fields == ApplyUpdate(old(doc.fields), f)
    ensures doc.persistedStatus == old(doc.persistedStatus)
  {
    var labelArray := ParseLabels(f.labels);
    if Truthy(f.title) { doc.fields := doc.fields.(title := f.title.value); }
    if f.description.Some? { doc.fields := doc.fields.(description := f.description); }
    if f.dueDate.Some? { doc.fields := doc.fields.(dueDate := f.dueDate.value); }
    if Truthy(f.priority) { doc.fields := doc.fields.(priority := f.priority.value); }
    if f.labels.Some? { doc.fields := doc.fields.(labels := labelArray); }
    if Truthy(f.status) { doc.fields := doc.fields.(status := f.status.value); }
  }

  /** The same handler, as the route runs it: assign each supplied field of
      the loaded document in turn, then save it. */
  method HandlePut(doc: TaskDocument?, f: UpdateForm, now: int) returns (resp: PutResponse)
    requires doc != null ==> doc.persistedStatus == doc.fields.status
    modifies doc
    ensures resp == PutTask(if doc == null then None else Some(old(doc.fields)), f, now)
    ensures doc != null && resp.Updated? ==>
              doc.fields == resp.task && doc.persistedStatus == doc.fields.status
    ensures doc != null && resp.ServerError? ==>
              doc.fields == ApplyUpdate(old(doc.fields), f)
              && doc.persistedStatus == old(doc.persistedStatus)
  {
    if doc == null {
      return NotFound;
    }
    AssignUpdate(doc, f);
    var saved := doc.Save(now);
    resp := if saved.Success? then Updated(saved.value) else ServerError;
  }
}
