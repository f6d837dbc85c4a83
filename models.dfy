/** scheduler/models.py: the day-schedule and its tasks, the two overlap finders,
    the minimum-duration check, the save path that re-runs all three before it
    writes, and get-or-create of the current day's schedule. */
module SchedulerModels {
  import opened Wrappers
  import opened Seqs
  import opened Strings
  import opened Times

  /** `Task.MINIMUM_TASK_DURATION_MINS`: the shortest span a task may have. */
  const MinimumTaskDurationMins := 5

  /** The same bound in microseconds, the model's time unit. */
  const MinimumTaskDuration := MinimumTaskDurationMins * 60 * MicrosPerSecond

  type TaskId = nat
  type UserId = nat
  type ScheduleId = nat

  /** A calendar date, the user's local "today" as the caller resolved it. */
  datatype Date = Date(year: int, month: int, day: int)

  /** A stored row of the `Task` table (its schedule is the object that holds it). */
  datatype Task = Task(id: TaskId, start: TimeOfDay, end: TimeOfDay, desc: string, completed: bool)

  /** The form fields a validation error can be keyed by. */
  datatype FieldName = StartTime | EndTime | TaskDesc

  /** `ValidationError({field: message})`. */
  datatype ValidationError = ValidationError(field: FieldName, message: string)

  // ---------------------------------------------------------------------------
  // The interval rules

  /** `task_obj.id != task_id` fails: `t` is the very task being validated. An
      unsaved task has no id (`None`) and excludes nothing. */
  predicate IsExcluded(t: Task, taskId: Option<TaskId>) {
    taskId == Some(t.id)
  }

  /** The test of `get_start_time_overlap_task`: another task whose closed
      interval contains `start`. */
  predicate StartOverlaps(t: Task, start: TimeOfDay, taskId: Option<TaskId>) {
    !IsExcluded(t, taskId) && t.start <= start <= t.end
  }

  /** The test of `get_end_time_overlap_task`: another task whose closed
      interval meets `[start, end]`. */
  predicate EndOverlaps(t: Task, start: TimeOfDay, end: TimeOfDay, taskId: Option<TaskId>) {
    !IsExcluded(t, taskId) && t.start <= end && t.end >= start
  }

  function StartTest(start: TimeOfDay, taskId: Option<TaskId>): Task -> bool {
    (t: Task) => StartOverlaps(t, start, taskId)
  }

  function EndTest(start: TimeOfDay, end: TimeOfDay, taskId: Option<TaskId>): Task -> bool {
    (t: Task) => EndOverlaps(t, start, end, taskId)
  }

  /** What `get_start_time_overlap_task` returns when it scans `tasks` in order:
      the first task that start-overlaps, or None. */
  function StartOverlapTask(tasks: seq<Task>, start: TimeOfDay, taskId: Option<TaskId>): (r: Option<Task>)
    ensures r.None? <==> forall t | t in tasks :: !StartOverlaps(t, start, taskId)
    ensures r.Some? ==> r.value in tasks && StartOverlaps(r.value, start, taskId)
  {
    match FirstIndex(tasks, StartTest(start, taskId))
    case None => None
    case Some(i) => Some(tasks[i])
  }

  /** What `get_end_time_overlap_task` returns when it scans `tasks` in order. */
  function EndOverlapTask(tasks: seq<Task>, start: TimeOfDay, end: TimeOfDay, taskId: Option<TaskId>): (r: Option<Task>)
    ensures r.None? <==> forall t | t in tasks :: !EndOverlaps(t, start, end, taskId)
    ensures r.Some? ==> r.value in tasks && EndOverlaps(r.value, start, end, taskId)
  {
    match FirstIndex(tasks, EndTest(start, end, taskId))
    case None => None
    case Some(i) => Some(tasks[i])
  }

  /** The message `validate_minimum_timespan` raises, keyed by `end_time`. */
  function UnderflowDetail(start: TimeOfDay, end: TimeOfDay): string {
    "The difference between 'start_time: " + IsoFormat(start) + "' and 'end_time: " + IsoFormat(end)
      + "' is less that the allowed minimum: " + NatToString(MinimumTaskDurationMins)
  }

  /** `validate_minimum_timespan`: None when the task spans at least the
      minimum, otherwise the error it raises. Both times are put on one date,
      so an end before the start gives a negative span and fails too. */
  function ValidateMinimumTimespan(start: TimeOfDay, end: TimeOfDay): (r: Option<ValidationError>)
    ensures r.Some? <==> end - start < MinimumTaskDurationMins * 60 * MicrosPerSecond
    ensures r.Some? ==> r.value.field == EndTime
  {
    if end - start < MinimumTaskDuration then Some(ValidationError(EndTime, UnderflowDetail(start, end)))
    else None
  }

  /** The message `Task.save` raises for an overlap, naming the other task. */
  function OverlapSaveMessage(desc: string): string {
    "This field overlaps with '" + desc + "' time."
  }

  /** The save-time overlap message names the conflicting task: the
      description can be read back from it. */
  lemma OverlapSaveMessageNamesTask(d1: string, d2: string)
    ensures OverlapSaveMessage(d1) == OverlapSaveMessage(d2) <==> d1 == d2
  {
    var prefix := "This field overlaps with '";
    var m1, m2 := OverlapSaveMessage(d1), OverlapSaveMessage(d2);
    assert m1 == prefix + d1 + "' time.";
    assert m2 == prefix + d2 + "' time.";
    if m1 == m2 {
      assert |d1| == |d2|;
      assert d1 == m1[|prefix|..|prefix| + |d1|];
      assert d2 == m2[|prefix|..|prefix| + |d2|];
    }
  }

  /** The closed-interval boundaries, on one stored task at 07:00-07:45: a
      start at its end still clashes, 08:00 does not, and the task never
      clashes with itself. */
  lemma StartOverlapExamples()
    ensures var tasks := [Task(1, Clock(7, 0), Clock(7, 45), "Test task", false)];
      && StartOverlapTask(tasks, Clock(7, 45), Some(99)) == Some(tasks[0])
      && StartOverlapTask(tasks, Clock(8, 0), Some(99)).None?
      && StartOverlapTask(tasks, Clock(7, 45), Some(1)).None?
  {
    var tasks := [Task(1, Clock(7, 0), Clock(7, 45), "Test task", false)];
    assert StartOverlaps(tasks[0], Clock(7, 45), Some(99));
  }

  /** Intervals that touch or enter 07:00-07:45 clash; 08:00-09:00 does not. */
  lemma EndOverlapExamples()
    ensures var tasks := [Task(1, Clock(7, 0), Clock(7, 45), "Test task", false)];
      && EndOverlapTask(tasks, Clock(6, 0), Clock(7, 0), Some(99)) == Some(tasks[0])
      && EndOverlapTask(tasks, Clock(6, 0), Clock(7, 30), Some(99)) == Some(tasks[0])
      && EndOverlapTask(tasks, Clock(7, 5), Clock(7, 30), Some(99)) == Some(tasks[0])
      && EndOverlapTask(tasks, Clock(8, 0), Clock(9, 0), Some(99)).None?
  {
    var tasks := [Task(1, Clock(7, 0), Clock(7, 45), "Test task", false)];
    assert EndOverlaps(tasks[0], Clock(6, 0), Clock(7, 0), Some(99));
    assert EndOverlaps(tasks[0], Clock(6, 0), Clock(7, 30), Some(99));
    assert EndOverlaps(tasks[0], Clock(7, 5), Clock(7, 30), Some(99));
  }

  /** Five minutes pass, four do not, and an end before the start fails; the
      message shows both times in `str(time)` form. */
  lemma MinimumTimespanExamples()
    ensures ValidateMinimumTimespan(Clock(7, 0), Clock(7, 5)).None?
    ensures ValidateMinimumTimespan(Clock(7, 5), Clock(7, 0)).Some?
    ensures ValidateMinimumTimespan(Clock(7, 0), Clock(7, 4)) == Some(ValidationError(EndTime,
      "The difference between 'start_time: " + "07:00:00" + "' and 'end_time: " + "07:04:00"
        + "' is less that the allowed minimum: " + "5"))
  {
    IsoFormatWholeMinute(7, 0);
    IsoFormatWholeMinute(7, 4);
    assert TwoDigits(7) == "07" && TwoDigits(0) == "00" && TwoDigits(4) == "04";
    assert IsoFormat(Clock(7, 0)) == "07:00:00" && IsoFormat(Clock(7, 4)) == "07:04:00";
    assert NatToString(5) == "5";
  }

  // ---------------------------------------------------------------------------
  // The invariant the save path keeps

  /** Two tasks whose closed intervals share an instant. */
  predicate Intersect(a: Task, b: Task) {
    a.start <= b.end && b.start <= a.end
  }

  predicate LongEnough(t: Task) {
    t.end - t.start >= MinimumTaskDuration
  }

  /** `Meta.ordering = ['start_time']`: the order every query of a schedule's
      tasks returns them in (strict, since stored tasks never share a start). */
  predicate OrderedByStart(tasks: seq<Task>) {
    forall i, j | 0 <= i < j < |tasks| :: tasks[i].start < tasks[j].start
  }

  /** A schedule's stored tasks as every successful save leaves them: ordered
      by start, each spanning at least the minimum, and any two distinct
      tasks with distinct ids and disjoint closed intervals. */
  predicate Consistent(tasks: seq<Task>) {
    && OrderedByStart(tasks)
    && (forall t | t in tasks :: LongEnough(t))
    && (forall a, b | a in tasks && b in tasks && a != b :: a.id != b.id && !Intersect(a, b))
  }

  /** What the three save-time checks accept: a span of at least the minimum
      that meets no other task's closed interval. */
  predicate Admissible(tasks: seq<Task>, taskId: Option<TaskId>, start: TimeOfDay, end: TimeOfDay) {
    end - start >= MinimumTaskDuration && forall t | t in tasks :: !EndOverlaps(t, start, end, taskId)
  }

  /** The three checks pass together exactly on admissible spans. The start
      check never rejects anything the end check would let through once the
      span is long enough, so it only decides which field reports the clash. */
  lemma ChecksPassIffAdmissible(tasks: seq<Task>, taskId: Option<TaskId>, start: TimeOfDay, end: TimeOfDay)
    ensures (StartOverlapTask(tasks, start, taskId).None?
             && EndOverlapTask(tasks, start, end, taskId).None?
             && ValidateMinimumTimespan(start, end).None?)
            <==> Admissible(tasks, taskId, start, end)
  {
    if Admissible(tasks, taskId, start, end) {
      forall t | t in tasks
        ensures !StartOverlaps(t, start, taskId)
      {
        assert !EndOverlaps(t, start, end, taskId);
      }
    }
  }

  /** A task that start-overlaps also end-overlaps whenever start <= end. */
  lemma StartOverlapIsEndOverlap(t: Task, start: TimeOfDay, end: TimeOfDay, taskId: Option<TaskId>)
    requires start <= end && StartOverlaps(t, start, taskId)
    ensures EndOverlaps(t, start, end, taskId)
  {
  }

  /** Scanning in `Meta.ordering` order, the finders report the earliest
      starting of the tasks that clash. */
  lemma FindersReturnEarliest(tasks: seq<Task>, start: TimeOfDay, end: TimeOfDay, taskId: Option<TaskId>)
    requires OrderedByStart(tasks)
    ensures StartOverlapTask(tasks, start, taskId).Some? ==>
      forall t | t in tasks && StartOverlaps(t, start, taskId) :: StartOverlapTask(tasks, start, taskId).value.start <= t.start
    ensures EndOverlapTask(tasks, start, end, taskId).Some? ==>
      forall t | t in tasks && EndOverlaps(t, start, end, taskId) :: EndOverlapTask(tasks, start, end, taskId).value.start <= t.start
  {
    var s := FirstIndex(tasks, StartTest(start, taskId));
    if s.Some? {
      forall t | t in tasks && StartOverlaps(t, start, taskId)
        ensures tasks[s.value].start <= t.start
      {
        var j :| 0 <= j < |tasks| && tasks[j] == t;
        assert StartTest(start, taskId)(tasks[j]);
      }
    }
    var e := FirstIndex(tasks, EndTest(start, end, taskId));
    if e.Some? {
      forall t | t in tasks && EndOverlaps(t, start, end, taskId)
        ensures tasks[e.value].start <= t.start
      {
        var j :| 0 <= j < |tasks| && tasks[j] == t;
        assert EndTest(start, end, taskId)(tasks[j]);
      }
    }
  }

  /** In a consistent schedule at most one task contains any given instant, so
      which of several hits a finder returns never matters. */
  lemma AtMostOneStartOverlap(tasks: seq<Task>, a: Task, b: Task, start: TimeOfDay, taskId: Option<TaskId>)
    requires Consistent(tasks) && a in tasks && b in tasks
    requires StartOverlaps(a, start, taskId) && StartOverlaps(b, start, taskId)
    ensures a == b
  {
  }

  /** Self-exclusion: a stored task of a consistent schedule passes all three
      checks when saved again under its own id. */
  lemma {:induction false} StoredTaskIsAdmissible(tasks: seq<Task>, t: Task)
    requires Consistent(tasks) && t in tasks
    ensures Admissible(tasks, Some(t.id), t.start, t.end)
  {
    forall x | x in tasks
      ensures !EndOverlaps(x, t.start, t.end, Some(t.id))
    {
      if x != t {
        assert x.id != t.id && !Intersect(x, t);
      }
    }
  }

  // ---------------------------------------------------------------------------
  // Writing rows

  /** `tasks.get(id=...)`: the position of the task with this id. */
  function IndexOfId(tasks: seq<Task>, id: int): (r: Option<nat>)
    ensures r.Some? ==> r.value < |tasks| && tasks[r.value].id == id
    ensures r.None? <==> forall t | t in tasks :: t.id != id
  {
    FirstIndex(tasks, (t: Task) => t.id == id)
  }

  /** The rows once the one with this id, if any, is deleted: one row fewer
      when the id is stored, the same rows otherwise. */
  function RemoveId(tasks: seq<Task>, id: TaskId): (r: seq<Task>)
    ensures IndexOfId(tasks, id).None? ==> r == tasks
    ensures IndexOfId(tasks, id).Some? ==>
      multiset(r) == multiset(tasks) - multiset{tasks[IndexOfId(tasks, id).value]}
  {
    match IndexOfId(tasks, id)
    case None => tasks
    case Some(i) => RemoveAt(tasks, i)
  }

  /** A row added where the start-time ordering puts it. */
  function InsertByStart(tasks: seq<Task>, t: Task): (r: seq<Task>)
    ensures |r| == |tasks| + 1
  {
    if |tasks| == 0 then [t]
    else if t.start <= tasks[0].start then [t] + tasks
    else [tasks[0]] + InsertByStart(tasks[1..], t)
  }

  /** The insertion adds the task and keeps every other row. */
  lemma {:induction false} InsertByStartMultiset(tasks: seq<Task>, t: Task)
    ensures multiset(InsertByStart(tasks, t)) == multiset(tasks) + multiset{t}
  {
    if |tasks| > 0 && t.start > tasks[0].start {
      InsertByStartMultiset(tasks[1..], t);
      assert tasks == [tasks[0]] + tasks[1..];
    }
  }

  /** What `super().save()` leaves: the row with this id replaced by (or,
      when there is none, joined by) the saved task. */
  function Upsert(tasks: seq<Task>, t: Task): (r: seq<Task>)
    ensures multiset(r) == multiset(RemoveId(tasks, t.id)) + multiset{t}
  {
    InsertByStartMultiset(RemoveId(tasks, t.id), t);
    InsertByStart(RemoveId(tasks, t.id), t)
  }

  lemma {:induction false} InsertByStartOrdered(tasks: seq<Task>, t: Task)
    requires OrderedByStart(tasks)
    requires forall x | x in tasks :: x.start != t.start
    ensures OrderedByStart(InsertByStart(tasks, t))
  {
    if |tasks| > 0 && t.start > tasks[0].start {
      var rest := tasks[1..];
      InsertByStartOrdered(rest, t);
      InsertByStartMultiset(rest, t);
      var r := InsertByStart(rest, t);
      forall x | x in r
        ensures tasks[0].start < x.start
      {
        assert x in multiset(r);
      }
      assert InsertByStart(tasks, t) == [tasks[0]] + r;
    }
  }

  lemma RemoveAtOrdered(tasks: seq<Task>, i: nat)
    requires OrderedByStart(tasks) && i < |tasks|
    ensures OrderedByStart(RemoveAt(tasks, i))
  {
    var r := RemoveAt(tasks, i);
    forall a, b | 0 <= a < b < |r|
      ensures r[a].start < r[b].start
    {
      assert r[a] == tasks[if a < i then a else a + 1];
      assert r[b] == tasks[if b < i then b else b + 1];
    }
  }

  /** Ordered rows drawn from a consistent schedule are consistent. */
  lemma ConsistentSubset(tasks: seq<Task>, r: seq<Task>)
    requires Consistent(tasks) && OrderedByStart(r)
    requires forall x | x in r :: x in tasks
    ensures Consistent(r)
  {
  }

  lemma RemoveAtIdMember(tasks: seq<Task>, i: nat, x: Task)
    requires Consistent(tasks) && i < |tasks|
    ensures x in RemoveAt(tasks, i) <==> x in tasks && x.id != tasks[i].id
  {
    RemoveAtMembers(tasks, i, x);
    if x in tasks && x != tasks[i] {
      assert x.id != tasks[i].id;
    }
    if exists j :: 0 <= j < |tasks| && j != i && tasks[j] == x {
      var j :| 0 <= j < |tasks| && j != i && tasks[j] == x;
      assert tasks[j].start != tasks[i].start;
    }
  }

  /** Deleting by id from a consistent schedule removes exactly the task with
      that id: every other task stays, and the rest is still consistent. */
  lemma RemoveIdContents(tasks: seq<Task>, id: TaskId)
    requires Consistent(tasks)
    ensures Consistent(RemoveId(tasks, id))
    ensures forall x :: x in RemoveId(tasks, id) <==> x in tasks && x.id != id
  {
    match IndexOfId(tasks, id)
    case None =>
    case Some(i) =>
      var r := RemoveAt(tasks, i);
      forall x
        ensures x in r <==> x in tasks && x.id != id
      {
        RemoveAtIdMember(tasks, i, x);
      }
      RemoveAtOrdered(tasks, i);
      ConsistentSubset(tasks, r);
  }

  /** The inserted rows are the old ones and the new task. */
  lemma InsertByStartMembers(tasks: seq<Task>, t: Task)
    ensures forall x :: x in InsertByStart(tasks, t) <==> x == t || x in tasks
  {
    var r := InsertByStart(tasks, t);
    InsertByStartMultiset(tasks, t);
    forall x
      ensures x in r <==> x == t || x in tasks
    {
      assert x in r <==> x in multiset(r);
      assert x in tasks <==> x in multiset(tasks);
    }
  }

  /** Adding a long-enough task that shares no id and meets no interval of a
      consistent schedule keeps it consistent. */
  lemma InsertByStartConsistent(tasks: seq<Task>, t: Task)
    requires Consistent(tasks) && LongEnough(t)
    requires forall x | x in tasks :: x.id != t.id && !Intersect(x, t)
    ensures Consistent(InsertByStart(tasks, t))
    ensures forall x :: x in InsertByStart(tasks, t) <==> x == t || x in tasks
  {
    var r := InsertByStart(tasks, t);
    InsertByStartMembers(tasks, t);
    forall x | x in tasks
      ensures x.start != t.start
    {
      assert !Intersect(x, t);
    }
    InsertByStartOrdered(tasks, t);
    forall a, b | a in r && b in r && a != b
      ensures a.id != b.id && !Intersect(a, b)
    {
      if a != t && b != t {
        assert a in tasks && b in tasks;
      }
    }
  }

  /** Saving a long-enough task that meets no other task's interval keeps the
      schedule consistent; afterwards it holds the saved task and every task
      with another id, and nothing else. */
  lemma UpsertConsistent(tasks: seq<Task>, t: Task)
    requires Consistent(tasks) && LongEnough(t)
    requires forall x | x in tasks && x.id != t.id :: !Intersect(x, t)
    ensures Consistent(Upsert(tasks, t))
    ensures forall x :: x in Upsert(tasks, t) <==> x == t || (x in tasks && x.id != t.id)
  {
    RemoveIdContents(tasks, t.id);
    InsertByStartConsistent(RemoveId(tasks, t.id), t);
  }

  /** In a consistent schedule a stored task's id is found at its own row. */
  lemma IndexOfStoredId(tasks: seq<Task>, i: nat)
    requires Consistent(tasks) && i < |tasks|
    ensures IndexOfId(tasks, tasks[i].id) == Some(i)
  {
    forall j | 0 <= j < i
      ensures tasks[j].id != tasks[i].id
    {
      assert tasks[j].start < tasks[i].start;
    }
    FirstIndexIs(tasks, (x: Task) => x.id == tasks[i].id, i);
  }

  /** Re-saving a stored task under its own id with its start unchanged
      rewrites it in place: the row order is untouched. */
  lemma UpsertInPlace(tasks: seq<Task>, i: nat, t: Task)
    requires Consistent(tasks) && i < |tasks|
    requires t.id == tasks[i].id && t.start == tasks[i].start
    ensures Upsert(tasks, t) == tasks[i := t]
  {
    IndexOfStoredId(tasks, i);
    var before, after := tasks[..i], tasks[i + 1..];
    assert RemoveId(tasks, t.id) == before + after;
    InsertByStartAt(before, after, t);
    UpdateIsSplice(tasks, i, t);
  }

  lemma {:induction false} InsertByStartAt(before: seq<Task>, after: seq<Task>, t: Task)
    requires forall k | 0 <= k < |before| :: before[k].start < t.start
    requires |after| > 0 ==> t.start <= after[0].start
    ensures InsertByStart(before + after, t) == before + [t] + after
    decreases |before|
  {
    if |before| == 0 {
      assert before + after == after;
      assert before + [t] + after == [t] + after;
    } else {
      InsertByStartAt(before[1..], after, t);
      calc {
        InsertByStart(before + after, t);
      == { assert (before + after)[0] == before[0];
           assert (before + after)[1..] == before[1..] + after; }
        [before[0]] + InsertByStart(before[1..] + after, t);
      == { assert before == [before[0]] + before[1..]; }
        before + [t] + after;
      }
    }
  }

  // ---------------------------------------------------------------------------
  // The finders as the loops they are

  /** `Task.get_start_time_overlap_task(schedule, start_time, task_id)`. */
  method GetStartTimeOverlapTask(schedule: UserDaySchedule, start: TimeOfDay, taskId: Option<TaskId>)
    returns (r: Option<Task>)
    ensures r == StartOverlapTask(schedule.tasks, start, taskId)
  {
    var tasks := schedule.tasks;
    var i := 0;
    while i < |tasks|
      invariant 0 <= i <= |tasks|
      invariant forall j :: 0 <= j < i ==> !StartOverlaps(tasks[j], start, taskId)
    {
      var t := tasks[i];
      if taskId != Some(t.id) && t.start <= start <= t.end {
        FirstIndexIs(tasks, StartTest(start, taskId), i);
        return Some(t);
      }
      i := i + 1;
    }
    return None;
  }

  /** `Task.get_end_time_overlap_task(schedule, start_time, end_time, task_id)`. */
  method GetEndTimeOverlapTask(schedule: UserDaySchedule, start: TimeOfDay, end: TimeOfDay, taskId: Option<TaskId>)
    returns (r: Option<Task>)
    ensures r == EndOverlapTask(schedule.tasks, start, end, taskId)
  {
    var tasks := schedule.tasks;
    var i := 0;
    while i < |tasks|
      invariant 0 <= i <= |tasks|
      invariant forall j :: 0 <= j < i ==> !EndOverlaps(tasks[j], start, end, taskId)
    {
      var t := tasks[i];
      if taskId != Some(t.id) && t.start <= end && t.end >= start {
        FirstIndexIs(tasks, EndTest(start, end, taskId), i);
        return Some(t);
      }
      i := i + 1;
    }
    return None;
  }

  // ---------------------------------------------------------------------------
  // The persistent state

  /** A `UserDaySchedule` row together with its tasks (`schedule.tasks`). */
  class UserDaySchedule {
    const id: ScheduleId
    const user: UserId
    const date: Date
    /** `schedule.tasks.all()`: the stored tasks, in `Meta.ordering` order. */
    var tasks: seq<Task>
    /** The id the database gives the next task it inserts. */
    var nextTaskId: TaskId

    ghost predicate Valid()
      reads this
    {
      Consistent(tasks) && forall t | t in tasks :: t.id < nextTaskId
    }

    constructor (id: ScheduleId, user: UserId, date: Date)
      ensures Valid()
      ensures this.id == id && this.user == user && this.date == date && tasks == []
    {
      this.id := id;
      this.user := user;
      this.date := date;
      tasks := [];
      nextTaskId := 1;
    }

    /** `Task.save`: start overlap, then end overlap, then the duration check;
        the first that fails is raised and nothing is written. Otherwise the
        row with `taskId` is updated, or a new row inserted (with a fresh id
        when the task has none). */
    method Save(taskId: Option<TaskId>, start: TimeOfDay, end: TimeOfDay, desc: string, completed: bool)
      returns (r: Result<TaskId, ValidationError>)
      requires Valid()
      modifies this
      ensures Valid()
      ensures r.Success? <==> Admissible(old(tasks), taskId, start, end)
      ensures var hit := StartOverlapTask(old(tasks), start, taskId);
        hit.Some? ==> r == Failure(ValidationError(StartTime, OverlapSaveMessage(hit.value.desc)))
      ensures var hit := EndOverlapTask(old(tasks), start, end, taskId);
        StartOverlapTask(old(tasks), start, taskId).None? && hit.Some? ==>
          r == Failure(ValidationError(EndTime, OverlapSaveMessage(hit.value.desc)))
      ensures (StartOverlapTask(old(tasks), start, taskId).None? && EndOverlapTask(old(tasks), start, end, taskId).None?
               && end - start < MinimumTaskDuration) ==> r == Failure(ValidationError(EndTime, UnderflowDetail(start, end)))
      ensures r.Failure? ==> tasks == old(tasks) && nextTaskId == old(nextTaskId)
      ensures r.Success? ==> r.value == (if taskId.Some? then taskId.value else old(nextTaskId))
      ensures r.Success? ==> tasks == Upsert(old(tasks), Task(r.value, start, end, desc, completed))
      ensures r.Success? ==> nextTaskId == (if r.value < old(nextTaskId) then old(nextTaskId) else r.value + 1)
    {
      ChecksPassIffAdmissible(tasks, taskId, start, end);
      var hit := GetStartTimeOverlapTask(this, start, taskId);
      if hit.Some? {
        return Failure(ValidationError(StartTime, OverlapSaveMessage(hit.value.desc)));
      }
      hit := GetEndTimeOverlapTask(this, start, end, taskId);
      if hit.Some? {
        return Failure(ValidationError(EndTime, OverlapSaveMessage(hit.value.desc)));
      }
      var underflow := ValidateMinimumTimespan(start, end);
      if underflow.Some? {
        return Failure(underflow.value);
      }
      var id := if taskId.Some? then taskId.value else nextTaskId;
      var saved := Task(id, start, end, desc, completed);
      forall x | x in tasks && x.id != id
        ensures !Intersect(x, saved)
      {
        assert !EndOverlaps(x, start, end, taskId);
      }
      UpsertConsistent(tasks, saved);
      tasks := Upsert(tasks, saved);
      if nextTaskId <= id {
        nextTaskId := id + 1;
      }
      return Success(id);
    }

    /** `task_obj.delete()`: removes the row with this id. */
    method Delete(taskId: TaskId)
      requires Valid()
      modifies this
      ensures Valid()
      ensures tasks == RemoveId(old(tasks), taskId) && nextTaskId == old(nextTaskId)
    {
      RemoveIdContents(tasks, taskId);
      tasks := RemoveId(tasks, taskId);
    }
  }

  /** How `current_schedule` is reached: through a user's related manager
      (`user.dayschedules`) or through the table-wide `objects` manager. */
  datatype ManagerAccess = ThroughUser(user: UserId) | ThroughObjects

  const PermissionMessage := "Only 'user' classes are allowed to access this method."

  /** The position of the schedule of this user on this date. */
  function ScheduleIndex(schedules: seq<UserDaySchedule>, user: UserId, date: Date): Option<nat> {
    FirstIndex(schedules, (s: UserDaySchedule) => s.user == user && s.date == date)
  }

  /** The `UserDaySchedule` table and its manager. */
  class UserDayScheduleManager {
    var schedules: seq<UserDaySchedule>
    var nextScheduleId: ScheduleId

    /** The `unique_user_schedules` constraint: one schedule per (user, date);
        and every stored schedule keeps its own invariant. */
    ghost predicate Valid()
      reads this, schedules
    {
      && (forall i, j | 0 <= i < j < |schedules| ::
            schedules[i].user != schedules[j].user || schedules[i].date != schedules[j].date)
      && (forall s | s in schedules :: s.id < nextScheduleId && s.Valid())
    }

    constructor ()
      ensures Valid() && schedules == []
    {
      schedules := [];
      nextScheduleId := 1;
    }

    /** `current_schedule`: get-or-create of the caller's schedule for `today`
        (the date of the user's local "now"). Through `objects` it raises
        PermissionError and touches nothing. */
    method CurrentSchedule(access: ManagerAccess, today: Date) returns (r: Result<UserDaySchedule, string>)
      requires Valid()
      modifies this
      ensures Valid()
      ensures access.ThroughObjects? ==> r == Failure(PermissionMessage) && schedules == old(schedules)
      ensures access.ThroughUser? ==> r.Success? && r.value in schedules && r.value.Valid()
      ensures access.ThroughUser? ==> r.value.user == access.user && r.value.date == today
      ensures access.ThroughUser? && old(ScheduleIndex(schedules, access.user, today)).Some? ==>
        schedules == old(schedules) && r.value == old(schedules[ScheduleIndex(schedules, access.user, today).value])
      ensures access.ThroughUser? && old(ScheduleIndex(schedules, access.user, today)).None? ==>
        fresh(r.value) && r.value.Valid() && r.value.tasks == [] && schedules == old(schedules) + [r.value]
    {
      if access.ThroughObjects? {
        return Failure(PermissionMessage);
      }
      var found := ScheduleIndex(schedules, access.user, today);
      if found.Some? {
        return Success(schedules[found.value]);
      }
      var created := new UserDaySchedule(nextScheduleId, access.user, today);
      schedules := schedules + [created];
      nextScheduleId := nextScheduleId + 1;
      return Success(created);
    }
  }

  /** Two reads of a user's current schedule on one day give the same
      schedule, and the table still holds one schedule for that day. */
  method CurrentScheduleTwice(manager: UserDayScheduleManager, user: UserId, today: Date)
    returns (first: UserDaySchedule, second: UserDaySchedule)
    requires manager.Valid()
    modifies manager
    ensures manager.Valid()
    ensures first == second && first.user == user && first.date == today
  {
    var r1 := manager.CurrentSchedule(ThroughUser(user), today);
    var r2 := manager.CurrentSchedule(ThroughUser(user), today);
    first, second := r1.value, r2.value;
  }
}
