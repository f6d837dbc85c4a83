/** scheduler/forms.py: `TaskCreateForm` and `TaskUpdateForm`. The two field
    hooks reuse the model's overlap finders and duration check; Django's
    `_clean_fields` runs them in field order after each field's own parse. */
module SchedulerForms {
  import opened Wrappers
  import opened Strings
  import opened Times
  import opened SchedulerModels

  /** A form field's own parse of its raw input: the value, or the message of
      the field's built-in validation (required, bad format, too long). */
  datatype Field<T> = Parsed(value: T) | Invalid(message: string)

  /** A bound task form: its three fields as parsed, the tasks of the
      instance's schedule (None when the instance has no schedule), and the
      instance's id (None for a task not yet saved). */
  datatype TaskForm = TaskForm(
    startTime: Field<TimeOfDay>,
    endTime: Field<TimeOfDay>,
    taskDesc: Field<string>,
    schedule: Option<seq<Task>>,
    instanceId: Option<TaskId>)

  /** What a `clean_<field>` hook raises: AttributeError escapes the form,
      ValidationError becomes that field's error. */
  datatype CleanError = AttributeError(message: string) | FieldError(message: string)

  /** `form.cleaned_data` at the end of `_clean_fields`. */
  datatype CleanedData = CleanedData(start: Option<TimeOfDay>, end: Option<TimeOfDay>, desc: Option<string>)

  /** The outcome of `form.full_clean()`: an exception, or the per-field
      errors together with the cleaned data. */
  datatype CleanOutcome = Raised(message: string) | Checked(errors: map<FieldName, string>, data: CleanedData)

  // ---------------------------------------------------------------------------
  // Messages

  /** The labels Django derives from the model fields' names. */
  const StartTimeLabel := "Start time"
  const EndTimeLabel := "End time"

  /** The 'overlap' template of both time fields, filled in. */
  function OverlapMessage(fieldLabel: string, desc: string): string {
    fieldLabel + " overlaps the timespan of '" + desc + "' task."
  }

  /** The 'underflow' template of `end_time`. */
  const UnderflowMessage := "A task's timespan must be at-least " + NatToString(MinimumTaskDurationMins) + " minutes."

  const ScheduleNotSetMessage := "schedule is not set."

  /** The overlap message names the conflicting task: for one label, the
      description can be read back from the message. */
  lemma OverlapMessageNamesTask(fieldLabel: string, d1: string, d2: string)
    ensures OverlapMessage(fieldLabel, d1) == OverlapMessage(fieldLabel, d2) <==> d1 == d2
  {
    var prefix := fieldLabel + " overlaps the timespan of '";
    var m1, m2 := OverlapMessage(fieldLabel, d1), OverlapMessage(fieldLabel, d2);
    assert m1 == prefix + d1 + "' task.";
    assert m2 == prefix + d2 + "' task.";
    if m1 == m2 {
      assert |d1| == |d2|;
      assert d1 == m1[|prefix|..|prefix| + |d1|];
      assert d2 == m2[|prefix|..|prefix| + |d2|];
    }
  }

  /** The underflow message states the model's minimum in minutes. */
  lemma UnderflowMessageText()
    ensures UnderflowMessage == "A task's timespan must be at-least 5 minutes."
  {
    assert NatToString(5) == "5";
  }

  // ---------------------------------------------------------------------------
  // The hooks

  /** `_check_schedule`: the instance's schedule, or AttributeError. */
  function CheckSchedule(schedule: Option<seq<Task>>): (r: Result<seq<Task>, CleanError>)
    ensures r.Failure? <==> schedule.None?
    ensures r.Failure? ==> r.error == AttributeError(ScheduleNotSetMessage)
    ensures r.Success? ==> r.value == schedule.value
  {
    match schedule
    case None => Failure(AttributeError(ScheduleNotSetMessage))
    case Some(tasks) => Success(tasks)
  }

  /** `clean_start_time`, given `cleaned_data.get('start_time')`. */
  function CleanStartTime(schedule: Option<seq<Task>>, instanceId: Option<TaskId>, start: Option<TimeOfDay>)
    : (r: Result<Option<TimeOfDay>, CleanError>)
    ensures r.Success? ==> r.value == start
  {
    match CheckSchedule(schedule)
    case Failure(e) => Failure(e)
    case Success(tasks) =>
      if start.None? then Success(None)
      else match StartOverlapTask(tasks, start.value, instanceId)
        case Some(t) => Failure(FieldError(OverlapMessage(StartTimeLabel, t.desc)))
        case None => Success(start)
  }

  /** `clean_end_time`, given `cleaned_data.get('start_time')` and
      `cleaned_data.get('end_time')`: both checks need both times. */
  function CleanEndTime(schedule: Option<seq<Task>>, instanceId: Option<TaskId>, start: Option<TimeOfDay>, end: Option<TimeOfDay>)
    : (r: Result<Option<TimeOfDay>, CleanError>)
    ensures r.Success? ==> r.value == end
  {
    match CheckSchedule(schedule)
    case Failure(e) => Failure(e)
    case Success(tasks) =>
      if start.None? || end.None? then Success(end)
      else match EndOverlapTask(tasks, start.value, end.value, instanceId)
        case Some(t) => Failure(FieldError(OverlapMessage(EndTimeLabel, t.desc)))
        case None =>
          if ValidateMinimumTimespan(start.value, end.value).Some? then Failure(FieldError(UnderflowMessage))
          else Success(end)
  }

  // ---------------------------------------------------------------------------
  // `full_clean`

  /** One field's turn in `_clean_fields`: kept in `cleaned_data`, dropped with
      an error, or an exception that ends the form's validation. */
  datatype Turn<T> = Kept(value: Option<T>) | Dropped(message: string) | Aborted(message: string)

  /** The hook is only called once the field's own parse succeeded. */
  function HookTurn<T>(field: Field<T>, hooked: Result<Option<T>, CleanError>): Turn<T> {
    match field
    case Invalid(m) => Dropped(m)
    case Parsed(_) =>
      match hooked
      case Success(v) => Kept(v)
      case Failure(AttributeError(m)) => Aborted(m)
      case Failure(FieldError(m)) => Dropped(m)
  }

  function StartTurn(form: TaskForm): Turn<TimeOfDay> {
    HookTurn(form.startTime,
      CleanStartTime(form.schedule, form.instanceId, if form.startTime.Parsed? then Some(form.startTime.value) else None))
  }

  function KeptValue<T>(turn: Turn<T>): Option<T> {
    if turn.Kept? then turn.value else None
  }

  function EndTurn(form: TaskForm): Turn<TimeOfDay> {
    HookTurn(form.endTime,
      CleanEndTime(form.schedule, form.instanceId, KeptValue(StartTurn(form)),
        if form.endTime.Parsed? then Some(form.endTime.value) else None))
  }

  function ErrorOf<T>(errors: map<FieldName, string>, name: FieldName, turn: Turn<T>): map<FieldName, string> {
    if turn.Dropped? then errors[name := turn.message] else errors
  }

  /** A field's error survives the later fields' turns. */
  lemma ErrorsOfTurns<T1, T2, T3>(start: Turn<T1>, end: Turn<T2>, desc: Turn<T3>)
    ensures var errors := ErrorOf(ErrorOf(ErrorOf(map[], StartTime, start), EndTime, end), TaskDesc, desc);
      && (StartTime in errors <==> start.Dropped?)
      && (EndTime in errors <==> end.Dropped?)
      && (TaskDesc in errors <==> desc.Dropped?)
      && (errors == map[] <==> !start.Dropped? && !end.Dropped? && !desc.Dropped?)
  {
    var errors := ErrorOf(ErrorOf(ErrorOf(map[], StartTime, start), EndTime, end), TaskDesc, desc);
    if start.Dropped? || end.Dropped? || desc.Dropped? {
      assert StartTime in errors || EndTime in errors || TaskDesc in errors;
    }
  }

  /** `task_desc` has no hook: its own parse decides. */
  function DescTurn(form: TaskForm): Turn<string> {
    match form.taskDesc
    case Parsed(d) => Kept(Some(d))
    case Invalid(m) => Dropped(m)
  }

  /** `form.full_clean()` of a task form: `start_time`, `end_time`, then
      `task_desc` (which has no hook). */
  function FullClean(form: TaskForm): CleanOutcome {
    var start := StartTurn(form);
    if start.Aborted? then Raised(start.message)
    else
      var end := EndTurn(form);
      if end.Aborted? then Raised(end.message)
      else
        var desc := DescTurn(form);
        Checked(ErrorOf(ErrorOf(ErrorOf(map[], StartTime, start), EndTime, end), TaskDesc, desc),
          CleanedData(KeptValue(start), KeptValue(end), KeptValue(desc)))
  }

  /** `form.is_valid()` (an exception escapes it; here it is simply not valid). */
  predicate IsValid(form: TaskForm): (valid: bool)
    ensures valid ==> form.schedule.Some? && form.startTime.Parsed? && form.endTime.Parsed? && form.taskDesc.Parsed?
  {
    ErrorsOfTurns(StartTurn(form), EndTurn(form), DescTurn(form));
    FullClean(form).Checked? && FullClean(form).errors == map[]
  }

  // ---------------------------------------------------------------------------
  // What the form promises

  /** A form validates exactly when its schedule is set, all three fields
      parse, and the interval is one `Task.save` accepts for this instance;
      its cleaned data is then the input. */
  lemma FormValidIffAdmissible(form: TaskForm)
    ensures IsValid(form) <==>
      && form.schedule.Some?
      && form.startTime.Parsed? && form.endTime.Parsed? && form.taskDesc.Parsed?
      && Admissible(form.schedule.value, form.instanceId, form.startTime.value, form.endTime.value)
    ensures IsValid(form) ==>
      FullClean(form).data == CleanedData(Some(form.startTime.value), Some(form.endTime.value), Some(form.taskDesc.value))
  {
    ErrorsOfTurns(StartTurn(form), EndTurn(form), DescTurn(form));
    if form.schedule.Some? && form.startTime.Parsed? && form.endTime.Parsed? {
      ChecksPassIffAdmissible(form.schedule.value, form.instanceId, form.startTime.value, form.endTime.value);
    }
  }

  /** A start time inside another task's interval is reported on
      `start_time` with the overlap message naming that task. */
  lemma StartOverlapReported(form: TaskForm)
    requires form.schedule.Some? && form.startTime.Parsed?
    requires StartOverlapTask(form.schedule.value, form.startTime.value, form.instanceId).Some?
    ensures FullClean(form).Checked?
    ensures FullClean(form).errors[StartTime] ==
      OverlapMessage(StartTimeLabel, StartOverlapTask(form.schedule.value, form.startTime.value, form.instanceId).value.desc)
  {
  }

  /** With the schedule set, `start_time` is in error exactly when its own
      parse failed or the parsed time falls inside another task's interval. */
  lemma StartTimeErrorIff(form: TaskForm)
    requires form.schedule.Some?
    ensures FullClean(form).Checked?
    ensures StartTime in FullClean(form).errors <==>
      form.startTime.Invalid? || StartOverlapTask(form.schedule.value, form.startTime.value, form.instanceId).Some?
  {
    ErrorsOfTurns(StartTurn(form), EndTurn(form), DescTurn(form));
  }

  /** With the schedule set, `end_time` is in error exactly when its own
      parse failed, or both times made it into `cleaned_data` and the
      interval meets another task or is shorter than the minimum. */
  lemma EndTimeErrorIff(form: TaskForm)
    requires form.schedule.Some?
    ensures FullClean(form).Checked?
    ensures EndTime in FullClean(form).errors <==>
      || form.endTime.Invalid?
      || (&& form.startTime.Parsed?
          && StartOverlapTask(form.schedule.value, form.startTime.value, form.instanceId).None?
          && (|| EndOverlapTask(form.schedule.value, form.startTime.value, form.endTime.value, form.instanceId).Some?
              || form.endTime.value - form.startTime.value < MinimumTaskDuration))
  {
    ErrorsOfTurns(StartTurn(form), EndTurn(form), DescTurn(form));
  }

  /** Without a start time in `cleaned_data` (its parse failed, or its own
      hook rejected it), `end_time` gets no overlap or underflow error: it is
      in error only if its own parse failed. */
  lemma NoStartNoEndChecks(form: TaskForm)
    requires form.schedule.Some?
    requires KeptValue(StartTurn(form)).None?
    ensures FullClean(form).Checked?
    ensures EndTime in FullClean(form).errors <==> form.endTime.Invalid?
  {
  }

  /** The end-time overlap is checked before the duration: an interval that
      both meets another task and is too short reports only the overlap. */
  lemma EndOverlapBeforeUnderflow(form: TaskForm)
    requires form.schedule.Some? && form.startTime.Parsed? && form.endTime.Parsed?
    requires StartOverlapTask(form.schedule.value, form.startTime.value, form.instanceId).None?
    requires EndOverlapTask(form.schedule.value, form.startTime.value, form.endTime.value, form.instanceId).Some?
    ensures FullClean(form).Checked?
    ensures FullClean(form).errors[EndTime] ==
      OverlapMessage(EndTimeLabel, EndOverlapTask(form.schedule.value, form.startTime.value, form.endTime.value, form.instanceId).value.desc)
  {
  }

  /** A too-short interval that meets no other task is reported on
      `end_time` with the fixed underflow message. */
  lemma UnderflowReported(form: TaskForm)
    requires form.schedule.Some? && form.startTime.Parsed? && form.endTime.Parsed?
    requires StartOverlapTask(form.schedule.value, form.startTime.value, form.instanceId).None?
    requires EndOverlapTask(form.schedule.value, form.startTime.value, form.endTime.value, form.instanceId).None?
    requires form.endTime.value - form.startTime.value < MinimumTaskDuration
    ensures FullClean(form).Checked?
    ensures FullClean(form).errors[EndTime] == UnderflowMessage
  {
  }

  /** Without a schedule, validation raises "schedule is not set." as soon as
      either time field parses; with neither parsed no hook runs. */
  lemma NoScheduleRaises(form: TaskForm)
    requires form.schedule.None?
    ensures form.startTime.Parsed? || form.endTime.Parsed? ==> FullClean(form) == Raised(ScheduleNotSetMessage)
    ensures form.startTime.Invalid? && form.endTime.Invalid? ==> FullClean(form).Checked?
  {
  }

  // ---------------------------------------------------------------------------
  // `TaskUpdateForm`

  /** The two forms share every rule and differ only in the prefix of their
      HTML element ids, so both can sit on one page. */
  datatype FormKind = CreateForm | UpdateForm

  function FieldHtmlName(name: FieldName): string {
    match name
    case StartTime => "start_time"
    case EndTime => "end_time"
    case TaskDesc => "task_desc"
  }

  /** `auto_id`: 'id_%s' for the create form, 'id_u_%s' for the update form. */
  function AutoId(kind: FormKind, name: FieldName): string {
    match kind
    case CreateForm => "id_" + FieldHtmlName(name)
    case UpdateForm => "id_u_" + FieldHtmlName(name)
  }

  /** No two fields of the two forms share an element id. */
  lemma AutoIdsDistinct(k1: FormKind, n1: FieldName, k2: FormKind, n2: FieldName)
    ensures AutoId(k1, n1) == AutoId(k2, n2) <==> k1 == k2 && n1 == n2
  {
    var a, b := AutoId(k1, n1), AutoId(k2, n2);
    if a == b {
      assert a[3] == b[3];
      if k1 == k2 {
        var p := if k1.CreateForm? then 3 else 5;
        assert FieldHtmlName(n1) == a[p..] && FieldHtmlName(n2) == b[p..];
      }
    }
  }

  /** The update form passes the stored task's id, so widening a task over
      its own old interval validates; the same interval through a form with
      no instance id is rejected as an overlap with the old task. */
  lemma WideningOwnIntervalValidates()
    ensures var tasks := [Task(1, Clock(7, 0), Clock(7, 45), "Read", false)];
      && IsValid(TaskForm(Parsed(Clock(6, 30)), Parsed(Clock(8, 0)), Parsed("Read"), Some(tasks), Some(1)))
      && !IsValid(TaskForm(Parsed(Clock(6, 30)), Parsed(Clock(8, 0)), Parsed("Read"), Some(tasks), None))
  {
    var tasks := [Task(1, Clock(7, 0), Clock(7, 45), "Read", false)];
    var f := TaskForm(Parsed(Clock(6, 30)), Parsed(Clock(8, 0)), Parsed("Read"), Some(tasks), Some(1));
    FormValidIffAdmissible(f);
    FormValidIffAdmissible(f.(instanceId := None));
    assert EndOverlaps(tasks[0], Clock(6, 30), Clock(8, 0), None);
  }

  /** Updating one task onto another task of the same schedule is rejected. */
  lemma UpdateOntoOtherTaskRejected()
    ensures var tasks := [Task(1, Clock(7, 0), Clock(7, 45), "Read", false), Task(2, Clock(9, 0), Clock(10, 0), "Run", false)];
      !IsValid(TaskForm(Parsed(Clock(8, 30)), Parsed(Clock(9, 15)), Parsed("Read"), Some(tasks), Some(1)))
  {
    var tasks := [Task(1, Clock(7, 0), Clock(7, 45), "Read", false), Task(2, Clock(9, 0), Clock(10, 0), "Run", false)];
    var f := TaskForm(Parsed(Clock(8, 30)), Parsed(Clock(9, 15)), Parsed("Read"), Some(tasks), Some(1));
    FormValidIffAdmissible(f);
    assert EndOverlaps(tasks[1], Clock(8, 30), Clock(9, 15), Some(1));
  }
}
