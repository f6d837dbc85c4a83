/** scheduler/views.py: the task views. Each one works on the requesting
    user's current schedule (`request.user.dayschedules.current_schedule`),
    passed in already resolved, and answers with a status and a JSON body. */
module SchedulerViews {
  import opened Wrappers
  import opened Strings
  import opened Times
  import opened SchedulerModels
  import opened SchedulerForms
  import opened SerializedTasks

  /** The JSON bodies the views answer with. */
  datatype Body =
    | TaskSaved(saved: SavedTaskJson)                // {taskId, taskStartTime, taskEndTime, taskDesc}
    | FormErrors(errors: map<FieldName, string>)     // {FORM_ERRORS: form.errors}
    | RetrieveError(message: string)                 // {ERROR: ...}
    | TaskDeleted(taskId: int)                       // {taskId}
    | StatusUpdated(taskId: int)                     // {task_id}
    | TaskList(tasks: seq<TaskJson>)                 // {TASKS: [...]}

  datatype Response = Response(status: int, body: Body)

  /** The answer when `tasks.get(id=task_id)` finds nothing. */
  function NotFound(taskId: int): (r: Response)
    ensures r.status == 400 && r.body.RetrieveError?
  {
    Response(400, RetrieveError("Could not retrieve task(" + IntToString(taskId) + ")"))
  }

  /** The id in a not-found answer can be read back from it. */
  lemma NotFoundNamesTask(a: int, b: int)
    ensures NotFound(a) == NotFound(b) <==> a == b
  {
    if NotFound(a) == NotFound(b) {
      var prefix := "Could not retrieve task(";
      var ma, mb := NotFound(a).body.message, NotFound(b).body.message;
      assert ma == prefix + IntToString(a) + ")";
      assert mb == prefix + IntToString(b) + ")";
      assert IntToString(a) == ma[|prefix|..|ma| - 1];
      assert IntToString(b) == mb[|prefix|..|mb| - 1];
      ParseIntToString(a);
      ParseIntToString(b);
    }
  }

  function SavedBody(id: int, start: TimeOfDay, end: TimeOfDay, desc: string): Body {
    TaskSaved(SavedTaskJson(id, FormatHi(start), FormatHi(end), desc))
  }

  /** `TaskCreationView.post`: a valid create form saves a new, not yet
      completed task; an invalid one answers 400 with the form's errors and
      changes nothing. */
  method TaskCreate(schedule: UserDaySchedule, startTime: Field<TimeOfDay>, endTime: Field<TimeOfDay>, taskDesc: Field<string>)
    returns (resp: Response)
    requires schedule.Valid()
    modifies schedule
    ensures schedule.Valid()
    ensures var form := TaskForm(startTime, endTime, taskDesc, Some(old(schedule.tasks)), None);
      && (IsValid(form) ==>
            && resp == Response(200, SavedBody(old(schedule.nextTaskId), startTime.value, endTime.value, taskDesc.value))
            && schedule.tasks == Upsert(old(schedule.tasks),
                 Task(old(schedule.nextTaskId), startTime.value, endTime.value, taskDesc.value, false))
            && schedule.nextTaskId == old(schedule.nextTaskId) + 1)
      && (!IsValid(form) ==>
            && FullClean(form).Checked?
            && resp == Response(400, FormErrors(FullClean(form).errors))
            && schedule.tasks == old(schedule.tasks)
            && schedule.nextTaskId == old(schedule.nextTaskId))
  {
    var form := TaskForm(startTime, endTime, taskDesc, Some(schedule.tasks), None);
    FormValidIffAdmissible(form);
    if IsValid(form) {
      var saved := schedule.Save(None, startTime.value, endTime.value, taskDesc.value, false);
      return Response(200, SavedBody(saved.value, startTime.value, endTime.value, taskDesc.value));
    }
    return Response(400, FormErrors(FullClean(form).errors));
  }

  /** `TaskUpdateView.post`: an unknown id answers not-found; otherwise the
      update form (excluding the task's own interval) decides, and a valid
      one rewrites the task's times and description, keeping its id and its
      completed flag. */
  method TaskUpdate(schedule: UserDaySchedule, taskId: int, startTime: Field<TimeOfDay>, endTime: Field<TimeOfDay>, taskDesc: Field<string>)
    returns (resp: Response)
    requires schedule.Valid()
    modifies schedule
    ensures schedule.Valid()
    ensures IndexOfId(old(schedule.tasks), taskId).None? ==> resp == NotFound(taskId) && schedule.tasks == old(schedule.tasks)
    ensures schedule.nextTaskId == old(schedule.nextTaskId)
    ensures IndexOfId(old(schedule.tasks), taskId).Some? ==>
      var stored := old(schedule.tasks)[IndexOfId(old(schedule.tasks), taskId).value];
      var form := TaskForm(startTime, endTime, taskDesc, Some(old(schedule.tasks)), Some(stored.id));
      && (IsValid(form) ==>
            && resp == Response(200, SavedBody(taskId, startTime.value, endTime.value, taskDesc.value))
            && schedule.tasks == Upsert(old(schedule.tasks),
                 Task(stored.id, startTime.value, endTime.value, taskDesc.value, stored.completed)))
      && (!IsValid(form) ==>
            && FullClean(form).Checked?
            && resp == Response(400, FormErrors(FullClean(form).errors))
            && schedule.tasks == old(schedule.tasks))
  {
    var found := IndexOfId(schedule.tasks, taskId);
    if found.None? {
      return NotFound(taskId);
    }
    var stored := schedule.tasks[found.value];
    var form := TaskForm(startTime, endTime, taskDesc, Some(schedule.tasks), Some(stored.id));
    FormValidIffAdmissible(form);
    if IsValid(form) {
      var saved := schedule.Save(Some(stored.id), startTime.value, endTime.value, taskDesc.value, stored.completed);
      return Response(200, SavedBody(taskId, startTime.value, endTime.value, taskDesc.value));
    }
    return Response(400, FormErrors(FullClean(form).errors));
  }

  /** `TaskDeleteView.post`: an unknown id answers not-found; otherwise the
      task is deleted. */
  method TaskDelete(schedule: UserDaySchedule, taskId: int) returns (resp: Response)
    requires schedule.Valid()
    modifies schedule
    ensures schedule.Valid()
    ensures IndexOfId(old(schedule.tasks), taskId).None? ==> resp == NotFound(taskId) && schedule.tasks == old(schedule.tasks)
    ensures schedule.nextTaskId == old(schedule.nextTaskId)
    ensures IndexOfId(old(schedule.tasks), taskId).Some? ==>
      resp == Response(200, TaskDeleted(taskId)) && schedule.tasks == RemoveId(old(schedule.tasks), taskId)
  {
    var found := IndexOfId(schedule.tasks, taskId);
    if found.None? {
      return NotFound(taskId);
    }
    schedule.Delete(schedule.tasks[found.value].id);
    return Response(200, TaskDeleted(taskId));
  }

  /** `TaskStatusUpdateView.post`: an unknown id answers not-found; otherwise
      the task's completed flag flips and is saved. The save re-runs all
      checks, which the unchanged interval passes, so the task is rewritten
      where it stands and nothing else moves. */
  method TaskStatusUpdate(schedule: UserDaySchedule, taskId: int) returns (resp: Response)
    requires schedule.Valid()
    modifies schedule
    ensures schedule.Valid()
    ensures IndexOfId(old(schedule.tasks), taskId).None? ==> resp == NotFound(taskId) && schedule.tasks == old(schedule.tasks)
    ensures schedule.nextTaskId == old(schedule.nextTaskId)
    ensures IndexOfId(old(schedule.tasks), taskId).Some? ==>
      var i := IndexOfId(old(schedule.tasks), taskId).value;
      && resp == Response(200, StatusUpdated(taskId))
      && schedule.tasks == old(schedule.tasks)[i := old(schedule.tasks)[i].(completed := !old(schedule.tasks)[i].completed)]
  {
    var found := IndexOfId(schedule.tasks, taskId);
    if found.None? {
      return NotFound(taskId);
    }
    var i := found.value;
    var stored := schedule.tasks[i];
    var completed := if stored.completed then false else true;
    StoredTaskIsAdmissible(schedule.tasks, stored);
    UpsertInPlace(schedule.tasks, i, stored.(completed := completed));
    var saved := schedule.Save(Some(stored.id), stored.start, stored.end, stored.desc, completed);
    return Response(200, StatusUpdated(taskId));
  }

  /** `TasksView.post`: one entry per stored task, sorted by the 'H:i' start
      string; since the tasks come in start-time order, the sort keeps them
      exactly in schedule order. */
  method ListTasks(schedule: UserDaySchedule) returns (resp: Response)
    requires schedule.Valid()
    ensures resp.status == 200 && resp.body.TaskList?
    ensures multiset(resp.body.tasks) == multiset(SerializeAll(schedule.tasks))
    ensures SortedByStartTime(resp.body.tasks)
    ensures resp.body.tasks == SerializeAll(schedule.tasks)
  {
    var tasks := schedule.tasks;
    var serialized: seq<TaskJson> := [];
    for k := 0 to |tasks|
      invariant serialized == SerializeAll(tasks[..k])
    {
      serialized := serialized + [SerializeTask(tasks[k])];
    }
    assert tasks[..|tasks|] == tasks;
    SerializedInStartOrder(tasks);
    SortOfSortedIsIdentity(serialized);
    serialized := SortByStartTime(serialized);
    return Response(200, TaskList(serialized));
  }
}
