/** frontend/src/components/TaskTable.js: the browser's copy of today's task
    list and the handlers that keep it in step with the server's answers. */
module TaskTable {
  import opened Wrappers
  import opened Seqs
  import opened Strings
  import opened Times
  import opened SchedulerModels
  import opened SerializedTasks

  /** `taskSortCompareFn`: -1, 0 or 1 as the first task's start string is
      before, equal to, or after the second's. */
  function TaskSortCompareFn(task1: TaskJson, task2: TaskJson): (r: int)
    ensures r == -1 || r == 0 || r == 1
    ensures r == -1 <==> Less(task1.startTime, task2.startTime)
    ensures r == 0 <==> task1.startTime == task2.startTime
    ensures r == 1 <==> Less(task2.startTime, task1.startTime)
  {
    LessTrichotomy(task1.startTime, task2.startTime);
    LessIrreflexive(task1.startTime);
    if Less(task1.startTime, task2.startTime) then
      LessAsymmetric(task1.startTime, task2.startTime);
      -1
    else if Less(task2.startTime, task1.startTime) then 1
    else 0
  }

  /** The comparator is antisymmetric, and a list is in the order it asks
      for exactly when it is sorted by start string. */
  lemma TaskSortCompareFnOrder(s: seq<TaskJson>)
    ensures forall a, b :: TaskSortCompareFn(a, b) == -TaskSortCompareFn(b, a)
    ensures SortedByStartTime(s) <==> forall i, j | 0 <= i < j < |s| :: TaskSortCompareFn(s[i], s[j]) <= 0
  {
  }

  function IdTest(taskId: int): TaskJson -> bool {
    (t: TaskJson) => t.id == taskId
  }

  /** The task as `addNewTask` builds it from a create answer. */
  function NewTask(data: SavedTaskJson): TaskJson {
    TaskJson(data.taskId, data.taskStartTime, data.taskEndTime, data.taskDesc, false)
  }

  /** A list sorted by start string with no two equal start strings, as the
      server's list of non-overlapping tasks is. */
  predicate StrictlySortedByStartTime(s: seq<TaskJson>) {
    forall i, j | 0 <= i < j < |s| :: Less(s[i].startTime, s[j].startTime)
  }

  /** A consistent schedule serializes to a strictly sorted list: stored
      tasks lie more than the minimum span apart, so their starts fall in
      different minutes and their 'H:i' strings differ. */
  lemma ConsistentSerializesStrictly(tasks: seq<Task>)
    requires Consistent(tasks)
    ensures StrictlySortedByStartTime(SerializeAll(tasks))
  {
    var s := SerializeAll(tasks);
    forall i, j | 0 <= i < j < |s|
      ensures Less(s[i].startTime, s[j].startTime)
    {
      var a, b := tasks[i], tasks[j];
      assert a in tasks && b in tasks && a.start < b.start;
      assert !Intersect(a, b) && LongEnough(a);
      MinuteOfDayApart(a.start, b.start);
      FormatHiOrder(a.start, b.start);
    }
  }

  /** The component's `state.tasks`. */
  class TaskTable {
    var tasks: seq<TaskJson>

    constructor ()
      ensures tasks == []
    {
      tasks := [];
    }

    /** `getTaskIdx`: the first index holding `taskId`, or null. */
    method GetTaskIdx(taskId: int) returns (r: Option<nat>)
      ensures r == FirstIndex(tasks, IdTest(taskId))
      ensures r.Some? ==> r.value < |tasks| && tasks[r.value].id == taskId
      ensures r.None? <==> forall t | t in tasks :: t.id != taskId
    {
      var i := 0;
      while i < |tasks|
        invariant 0 <= i <= |tasks|
        invariant forall j :: 0 <= j < i ==> tasks[j].id != taskId
      {
        if tasks[i].id == taskId {
          FirstIndexIs(tasks, IdTest(taskId), i);
          return Some(i);
        }
        i := i + 1;
      }
      return None;
    }

    /** `addNewTask`: the created task, not completed, joins the list, which
        is sorted again. */
    method AddNewTask(data: SavedTaskJson)
      modifies this
      ensures tasks == SortByStartTime(old(tasks) + [NewTask(data)])
      ensures |tasks| == |old(tasks)| + 1
      ensures multiset(tasks) == multiset(old(tasks)) + multiset{NewTask(data)}
      ensures SortedByStartTime(tasks)
      ensures SortedByStartTime(old(tasks)) ==> tasks == InsertByStartTime(old(tasks), NewTask(data))
    {
      var newTasks := tasks + [NewTask(data)];
      SortByStartTimeSorted(newTasks);
      if SortedByStartTime(tasks) {
        SortAfterAppend(tasks, NewTask(data));
      }
      tasks := SortByStartTime(newTasks);
    }

    /** `updateExistingTask`: the matched task's times and description take
        the answer's values; its place, its flag and the other tasks stay.
        Without a match the list is untouched. */
    method UpdateExistingTask(data: SavedTaskJson)
      modifies this
      ensures FirstIndex(old(tasks), IdTest(data.taskId)).None? ==> tasks == old(tasks)
      ensures FirstIndex(old(tasks), IdTest(data.taskId)).Some? ==>
        var i := FirstIndex(old(tasks), IdTest(data.taskId)).value;
        tasks == old(tasks)[i := old(tasks)[i].(startTime := data.taskStartTime, endTime := data.taskEndTime, desc := data.taskDesc)]
    {
      var idx := GetTaskIdx(data.taskId);
      if idx.Some? {
        var targetTask := tasks[idx.value];
        targetTask := targetTask.(startTime := data.taskStartTime, endTime := data.taskEndTime, desc := data.taskDesc);
        tasks := tasks[idx.value := targetTask];
      }
    }

    /** `_updateExistingTask`: the same update with no check that the id is
        listed, so the caller must guarantee it. */
    method UpdateExistingTaskUnchecked(data: SavedTaskJson)
      requires exists t | t in tasks :: t.id == data.taskId
      modifies this
      ensures var i := FirstIndex(old(tasks), IdTest(data.taskId)).value;
        tasks == old(tasks)[i := old(tasks)[i].(startTime := data.taskStartTime, endTime := data.taskEndTime, desc := data.taskDesc)]
    {
      var idx := GetTaskIdx(data.taskId);
      var i := idx.value;
      var targetTask := tasks[i];
      targetTask := targetTask.(startTime := data.taskStartTime, endTime := data.taskEndTime, desc := data.taskDesc);
      tasks := tasks[i := targetTask];
    }

    /** The success callback of `updateTaskStatus`: the task is taken out,
        its flag flipped, put back at the end, and the list sorted again.
        The result is the old list with that one flag flipped, up to order,
        and sorted. */
    method UpdateTaskStatusSuccess(taskId: int)
      modifies this
      ensures FirstIndex(old(tasks), IdTest(taskId)).None? ==> tasks == old(tasks)
      ensures FirstIndex(old(tasks), IdTest(taskId)).Some? ==>
        var i := FirstIndex(old(tasks), IdTest(taskId)).value;
        var toggled := old(tasks)[i].(completed := !old(tasks)[i].completed);
        && tasks == SortByStartTime(RemoveAt(old(tasks), i) + [toggled])
        && multiset(tasks) == multiset(old(tasks)[i := toggled])
        && SortedByStartTime(tasks)
    {
      var idx := GetTaskIdx(taskId);
      if idx.Some? {
        var i := idx.value;
        var target := tasks[i];
        var rest := RemoveAt(tasks, i);
        target := target.(completed := !target.completed);
        rest := rest + [target];
        SortByStartTimeSorted(rest);
        assert multiset(tasks[i := target]) == multiset(tasks) - multiset{tasks[i]} + multiset{target};
        tasks := SortByStartTime(rest);
      }
    }

    /** `handleTaskDeleteFormSuccess`: the entry at the found index is
        spliced out; an unknown id leaves the list alone. */
    method HandleTaskDeleteFormSuccess(taskId: int)
      modifies this
      ensures FirstIndex(old(tasks), IdTest(taskId)).None? ==> tasks == old(tasks)
      ensures FirstIndex(old(tasks), IdTest(taskId)).Some? ==>
        tasks == RemoveAt(old(tasks), FirstIndex(old(tasks), IdTest(taskId)).value)
    {
      var idx := GetTaskIdx(taskId);
      if idx.Some? {
        tasks := RemoveAt(tasks, idx.value);
      }
    }
  }

  /** On a list with distinct start strings, a status toggle leaves the
      toggled task where it was: the re-sort undoes the move to the end. */
  lemma StatusToggleKeepsPosition(s: seq<TaskJson>, i: nat, completed: bool)
    requires StrictlySortedByStartTime(s) && i < |s|
    ensures SortByStartTime(RemoveAt(s, i) + [s[i].(completed := completed)]) == s[i := s[i].(completed := completed)]
  {
    var x := s[i].(completed := completed);
    var before, after := s[..i], s[i + 1..];
    var rest := RemoveAt(s, i);
    assert rest == before + after;
    assert SortedByStartTime(rest) by {
      forall a, b | 0 <= a < b < |rest|
        ensures LessEq(rest[a].startTime, rest[b].startTime)
      {
        assert rest[a] == s[if a < i then a else a + 1];
        assert rest[b] == s[if b < i then b else b + 1];
      }
    }
    SortAfterAppend(rest, x);
    if i > 0 {
      assert before[|before| - 1] == s[i - 1];
      LessAsymmetric(s[i - 1].startTime, s[i].startTime);
    }
    forall k | 0 <= k < |after|
      ensures Less(x.startTime, after[k].startTime)
    {
      assert after[k] == s[i + 1 + k];
    }
    InsertBeforeGreater(before, after, x);
    UpdateIsSplice(s, i, x);
  }

  /** Inserting an entry whose start string lies strictly between a prefix's
      and a suffix's lands it between the two. */
  lemma {:induction false} InsertBeforeGreater(before: seq<TaskJson>, after: seq<TaskJson>, x: TaskJson)
    requires |before| > 0 ==> !Less(x.startTime, before[|before| - 1].startTime)
    requires forall k | 0 <= k < |after| :: Less(x.startTime, after[k].startTime)
    ensures InsertByStartTime(before + after, x) == before + [x] + after
    decreases |after|
  {
    if |after| == 0 {
      assert before + after == before;
    } else {
      var rest, last := after[..|after| - 1], after[|after| - 1];
      assert after == rest + [last];
      assert before + after == (before + rest) + [last];
      assert Less(x.startTime, last.startTime);
      InsertBeforeGreater(before, rest, x);
    }
  }
}
