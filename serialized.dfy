/** The task records exchanged between scheduler/views.py and the task table
    of the front end, and the stable sort both sides apply to them by their
    'H:i' start string (`list.sort(key=...)` on the server,
    `Array.prototype.sort(taskSortCompareFn)` in the browser). */
module SerializedTasks {
  import opened Strings
  import opened Times
  import opened SchedulerModels

  /** An entry of the task list: `{id, startTime, endTime, desc, completed}`. */
  datatype TaskJson = TaskJson(id: int, startTime: string, endTime: string, desc: string, completed: bool)

  /** The body of a successful create or update: `{taskId, taskStartTime, taskEndTime, taskDesc}`. */
  datatype SavedTaskJson = SavedTaskJson(taskId: int, taskStartTime: string, taskEndTime: string, taskDesc: string)

  /** The `task_dict` built for one stored task, times through the 'H:i' filter. */
  function SerializeTask(t: Task): TaskJson {
    TaskJson(t.id, FormatHi(t.start), FormatHi(t.end), t.desc, t.completed)
  }

  function SerializeAll(tasks: seq<Task>): seq<TaskJson> {
    seq(|tasks|, i requires 0 <= i < |tasks| => SerializeTask(tasks[i]))
  }

  predicate SortedByStartTime(s: seq<TaskJson>) {
    forall i, j | 0 <= i < j < |s| :: LessEq(s[i].startTime, s[j].startTime)
  }

  /** Places `x` after every element whose start string is not greater than
      its own, so that equal keys keep their order. */
  function InsertByStartTime(s: seq<TaskJson>, x: TaskJson): (r: seq<TaskJson>)
    ensures |r| == |s| + 1
    ensures multiset(r) == multiset(s) + multiset{x}
  {
    if |s| == 0 || !Less(x.startTime, s[|s| - 1].startTime) then s + [x]
    else
      assert s == s[..|s| - 1] + [s[|s| - 1]];
      InsertByStartTime(s[..|s| - 1], x) + [s[|s| - 1]]
  }

  /** A stable sort by start string: each element is inserted into the
      sorted prefix before it. */
  function SortByStartTime(s: seq<TaskJson>): (r: seq<TaskJson>)
    ensures |r| == |s|
    ensures multiset(r) == multiset(s)
  {
    if |s| == 0 then []
    else
      assert s == s[..|s| - 1] + [s[|s| - 1]];
      InsertByStartTime(SortByStartTime(s[..|s| - 1]), s[|s| - 1])
  }

  lemma {:induction false} InsertByStartTimeSorted(s: seq<TaskJson>, x: TaskJson)
    requires SortedByStartTime(s)
    ensures SortedByStartTime(InsertByStartTime(s, x))
  {
    var r := InsertByStartTime(s, x);
    if |s| == 0 {
    } else if !Less(x.startTime, s[|s| - 1].startTime) {
      var last := s[|s| - 1];
      LessTrichotomy(x.startTime, last.startTime);
      forall i | 0 <= i < |s|
        ensures LessEq(s[i].startTime, x.startTime)
      {
        if i < |s| - 1 {
          LessEqTransitive(s[i].startTime, last.startTime, x.startTime);
        }
      }
    } else {
      var prefix, last := s[..|s| - 1], s[|s| - 1];
      InsertByStartTimeSorted(prefix, x);
      var r' := InsertByStartTime(prefix, x);
      forall y | y in r'
        ensures LessEq(y.startTime, last.startTime)
      {
        assert y in multiset(r');
        if y != x {
          assert y in prefix;
        }
      }
      assert forall i | 0 <= i < |r'| :: r'[i] in r';
    }
  }

  /** The sort orders its input by start string. */
  lemma {:induction false} SortByStartTimeSorted(s: seq<TaskJson>)
    ensures SortedByStartTime(SortByStartTime(s))
  {
    if |s| > 0 {
      SortByStartTimeSorted(s[..|s| - 1]);
      InsertByStartTimeSorted(SortByStartTime(s[..|s| - 1]), s[|s| - 1]);
    }
  }

  /** The sort leaves an already sorted list exactly as it is. */
  lemma {:induction false} SortOfSortedIsIdentity(s: seq<TaskJson>)
    requires SortedByStartTime(s)
    ensures SortByStartTime(s) == s
  {
    if |s| > 0 {
      var prefix := s[..|s| - 1];
      assert SortedByStartTime(prefix);
      SortOfSortedIsIdentity(prefix);
      if |prefix| > 0 {
        var a, b := prefix[|prefix| - 1].startTime, s[|s| - 1].startTime;
        if a != b {
          LessAsymmetric(a, b);
        } else {
          LessIrreflexive(a);
        }
      }
    }
  }

  /** The entries of `s` whose start string is `key`, in their order in `s`. */
  function WithStartTime(s: seq<TaskJson>, key: string): seq<TaskJson> {
    if |s| == 0 then []
    else WithStartTime(s[..|s| - 1], key) + (if s[|s| - 1].startTime == key then [s[|s| - 1]] else [])
  }

  lemma {:induction false} WithStartTimeConcat(a: seq<TaskJson>, b: seq<TaskJson>, key: string)
    ensures WithStartTime(a + b, key) == WithStartTime(a, key) + WithStartTime(b, key)
    decreases |b|
  {
    if |b| == 0 {
      assert a + b == a;
    } else {
      assert (a + b)[..|a + b| - 1] == a + b[..|b| - 1];
      WithStartTimeConcat(a, b[..|b| - 1], key);
    }
  }

  /** Inserting `x` passes over entries with a greater start string only, so
      among the entries sharing any one start string `x` lands last. */
  lemma {:induction false} InsertByStartTimeStable(s: seq<TaskJson>, x: TaskJson, key: string)
    ensures WithStartTime(InsertByStartTime(s, x), key) == WithStartTime(s, key) + WithStartTime([x], key)
    decreases |s|
  {
    if |s| == 0 || !Less(x.startTime, s[|s| - 1].startTime) {
      WithStartTimeConcat(s, [x], key);
    } else {
      var prefix, last := s[..|s| - 1], s[|s| - 1];
      assert s == prefix + [last];
      InsertByStartTimeStable(prefix, x, key);
      WithStartTimeConcat(InsertByStartTime(prefix, x), [last], key);
      WithStartTimeConcat(prefix, [last], key);
      if x.startTime == last.startTime {
        LessIrreflexive(x.startTime);
      }
      assert [x][..0] == [] && [last][..0] == [];
    }
  }

  /** The sort is stable: for every start string, the entries carrying it
      come out in the order they went in. */
  lemma {:induction false} SortByStartTimeStable(s: seq<TaskJson>, key: string)
    ensures WithStartTime(SortByStartTime(s), key) == WithStartTime(s, key)
    decreases |s|
  {
    if |s| > 0 {
      var prefix, last := s[..|s| - 1], s[|s| - 1];
      assert s == prefix + [last];
      SortByStartTimeStable(prefix, key);
      InsertByStartTimeStable(SortByStartTime(prefix), last, key);
      WithStartTimeConcat(prefix, [last], key);
    }
  }

  /** Adding one entry to a sorted list and sorting again is a sorted
      insertion of that entry. */
  lemma SortAfterAppend(s: seq<TaskJson>, x: TaskJson)
    requires SortedByStartTime(s)
    ensures SortByStartTime(s + [x]) == InsertByStartTime(s, x)
  {
    assert (s + [x])[..|s|] == s;
    SortOfSortedIsIdentity(s);
  }

  /** Tasks in `Meta.ordering` order serialize to a list already sorted by
      the 'H:i' start string: two-digit zero-padded hours and minutes order
      as the times do. */
  lemma SerializedInStartOrder(tasks: seq<Task>)
    requires OrderedByStart(tasks)
    ensures SortedByStartTime(SerializeAll(tasks))
  {
    var s := SerializeAll(tasks);
    forall i, j | 0 <= i < j < |s|
      ensures LessEq(s[i].startTime, s[j].startTime)
    {
      FormatHiMonotone(tasks[i].start, tasks[j].start);
    }
  }
}
