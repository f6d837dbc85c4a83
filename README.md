# Day-schedule task store of lifescheme, in Dafny

lifescheme keeps, for every user and every day, one schedule of tasks. Each
task has a start time, an end time, a short description and a completed
flag. This project models the rules that keep a schedule consistent and the
code on both sides of the wire that edits it:

- `scheduler/models.py`: the two overlap finders (closed intervals, a task
  never clashes with itself), the five-minute minimum, `Task.save`, which
  re-runs all three checks before it writes, `Meta.ordering`, and
  get-or-create of the current schedule under the (user, date) uniqueness
  constraint (`models.dfy`, module `SchedulerModels`).
- `scheduler/forms.py`: the `clean_start_time` / `clean_end_time` hooks, the
  schedule check, the error templates, and `TaskUpdateForm`. Django's
  `_clean_fields` order is written out: a field's hook runs only after its own
  parse succeeded, a `ValidationError` drops the value and records the
  message, and an `AttributeError` escapes (`forms.dfy`, `SchedulerForms`).
- `scheduler/views.py`: create, update, delete, status toggle, the not-found
  answer, and the task list serialised with the `H:i` filter and sorted by
  that string (`views.dfy`, `SchedulerViews`; the wire records and the stable
  sort are in `serialized.dfy`, `SerializedTasks`).
- `frontend/src/components/TaskTable.js`: the browser's copy of the list and
  its handlers: comparator, sorted insertion, id lookup, toggle and re-sort,
  splice delete, and in-place update (`task_table.dfy`, `TaskTable`).
- `frontend/src/utils/network.js`: `getCookie`, with JavaScript's `split`,
  `trim` and `substring` written out (`network.dfy`, `Network`).

Shared pieces:

- `wrappers.dfy` holds `Option` and `Result`.
- `seqs.dfy` holds the first-hit scan that every lookup loop implements, and
  `splice(i, 1)`.
- `strings.dfy` holds the lexicographic string order (Python's and
  JavaScript's `<` on strings) and decimal and zero-padded rendering.
- `times.dfy` holds times of day.

A time of day is its offset from midnight in microseconds, the resolution of
`datetime.time`. Every comparison in the source combines two times with one
and the same date, so comparing instants is comparing integers.

The central invariant is `SchedulerModels.Consistent`:

- the stored tasks are strictly ordered by start;
- each spans at least five minutes;
- two distinct tasks have distinct ids and disjoint closed intervals.

`UserDaySchedule.Valid()` includes it. `Save`, `Delete` and every view keep
it.

Where the source's comments and its code disagree, the model follows the
code:

- The docstring of `_check_schedule` (scheduler/forms.py:88-101) says it
  raises `ValidationError`, but it raises `AttributeError`. The model makes
  that an exception escaping validation (`CleanOutcome.Raised`), not a field
  error.
- The docstring of `clean_end_time` lists the duration check first, but the
  code checks the end overlap first. The model follows that order.

## Model

| member | source | states |
|---|---|---|
| SchedulerModels.StartOverlapTask | scheduler/models.py:161-170 | The scan's result is None exactly when no task other than the excluded id has a closed interval containing the start. Otherwise it is a stored task with that property. |
| SchedulerModels.EndOverlapTask | scheduler/models.py:197-207 | None exactly when no other task has `t.start <= end && t.end >= start`. Otherwise it is a stored task that meets the interval. |
| SchedulerModels.GetStartTimeOverlapTask | scheduler/models.py:162-170 | The early-return loop over the schedule's tasks returns the first hit of the scan above (loop invariant: no earlier task clashes). |
| SchedulerModels.GetEndTimeOverlapTask | scheduler/models.py:199-207 | The same for the end-overlap loop. |
| SchedulerModels.StartOverlapExamples | scheduler/models.py:169 | With one task at 07:00-07:45: a start at 07:45 clashes (inclusive end), 08:00 does not, and the task's own id excludes it. |
| SchedulerModels.EndOverlapExamples | scheduler/models.py:206 | 06:00-07:00, 06:00-07:30 and 07:05-07:30 clash with 07:00-07:45; 08:00-09:00 does not. |
| SchedulerModels.ValidateMinimumTimespan | scheduler/models.py:235-244 | Fails, keyed `end_time`, exactly when end - start is below 5 * 60 seconds; an end before the start fails too. |
| SchedulerModels.UnderflowDetail | scheduler/models.py:240-243 | The duration message: "The difference between 'start_time: <start>' and 'end_time: <end>' is less that the allowed minimum: 5", with both times as `str(time)` (`IsoFormat`). Its text is pinned down by `MinimumTimespanExamples`. |
| SchedulerModels.OverlapSaveMessage | scheduler/models.py:120-131 | The message `Task.save` raises for either overlap: "This field overlaps with '<desc>' time.", naming the other task. |
| SchedulerModels.OverlapSaveMessageNamesTask | scheduler/models.py:123-130 | The save-time overlap message determines the other task's description (iff). |
| SchedulerModels.MinimumTimespanExamples | scheduler/models.py:239-244 | 07:00-07:05 passes, 07:05-07:00 fails, and 07:00-07:04 fails with the message quoting both times as `str(time)` and the minimum 5. |
| SchedulerModels.ChecksPassIffAdmissible | scheduler/models.py:120-132 | The three save-time checks all pass exactly when the span is long enough and meets no other task's closed interval. |
| SchedulerModels.StartOverlapIsEndOverlap | scheduler/models.py:169-206 | For start <= end, every start overlap is an end overlap, so the start check only decides which field reports the clash. |
| SchedulerModels.FindersReturnEarliest | scheduler/models.py:94-95 | Over tasks in `ordering = ['start_time']` order, each finder's hit starts no later than any other clashing task. |
| SchedulerModels.AtMostOneStartOverlap | scheduler/models.py:161-170 | In a consistent schedule at most one task contains a given instant. |
| SchedulerModels.StoredTaskIsAdmissible | scheduler/models.py:165-169 | Self-exclusion: a stored task of a consistent schedule passes all checks when saved again under its own id. |
| SchedulerModels.IndexOfId | scheduler/views.py:81 | `tasks.get(id=...)`: the index found holds that id; None exactly when no task has it. |
| SchedulerModels.IndexOfStoredId | scheduler/views.py:122 | In a consistent schedule, a stored task's id is found at its own row. |
| SchedulerModels.RemoveId | scheduler/views.py:108 | `task_obj.delete()` on the rows: with the id stored, exactly that row is gone (multiset); with no such id, the rows are unchanged. |
| SchedulerModels.InsertByStart | scheduler/models.py:94-95 | Inserting at the position the start-time ordering gives adds exactly one row. |
| SchedulerModels.InsertByStartMultiset | scheduler/models.py:133-138 | The insertion adds the saved task and keeps every other row (multiset). |
| SchedulerModels.InsertByStartMembers | scheduler/models.py:133-138 | After insertion the rows are exactly the old rows and the new task. |
| SchedulerModels.InsertByStartOrdered | scheduler/models.py:94-95 | Inserting a task whose start differs from every stored start keeps the rows strictly ordered by start. |
| SchedulerModels.InsertByStartAt | scheduler/models.py:94-95 | A task that starts after every row of a prefix and no later than the next row is inserted exactly between them. |
| SchedulerModels.Upsert | scheduler/models.py:133-138 | The row write of `super().save()`: the old row with the saved id, if any, is replaced by the saved task, placed by start (multiset: the rows without that id, plus the task). |
| SchedulerModels.RemoveAtOrdered | scheduler/models.py:94-95 | Removing a row keeps the ordering. |
| SchedulerModels.ConsistentSubset | scheduler/models.py:94-95 | Ordered rows drawn from a consistent schedule are consistent. |
| SchedulerModels.RemoveAtIdMember | scheduler/views.py:108 | In a consistent schedule, removing row i removes exactly the tasks with row i's id. |
| SchedulerModels.RemoveIdContents | scheduler/views.py:108 | Deleting by id keeps the schedule consistent and leaves exactly the tasks with another id. |
| SchedulerModels.InsertByStartConsistent | scheduler/models.py:120-138 | Adding a long-enough task with a fresh id that meets no interval keeps the schedule consistent; its members are the old ones plus the task. |
| SchedulerModels.UpsertConsistent | scheduler/models.py:120-138 | A save that passed the checks keeps the schedule consistent, and afterwards it holds the saved task and every task with another id, nothing else. |
| SchedulerModels.UpsertInPlace | scheduler/views.py:125-129 | Re-saving a stored task with the same id and start rewrites that row in place; no other row moves. |
| SchedulerModels.UserDaySchedule.constructor | scheduler/models.py:37-51 | A new schedule for a user and a date is empty and consistent. |
| SchedulerModels.UserDaySchedule.Save | scheduler/models.py:105-138 | Succeeds exactly on admissible spans. The errors come in the source's order: start overlap keyed `start_time`, then end overlap keyed `end_time`, both naming the other task, then the duration message. A failure changes nothing. A success stores the task under its id (or a fresh one) by `Upsert`, and the store stays consistent. |
| SchedulerModels.UserDaySchedule.Delete | scheduler/views.py:108 | Removes the row with the id; the store stays consistent. |
| SchedulerModels.UserDayScheduleManager.constructor | scheduler/models.py:53-60 | The empty table satisfies the (user, date) uniqueness constraint, and every stored schedule is consistent. |
| SchedulerModels.UserDayScheduleManager.CurrentSchedule | scheduler/models.py:31-34 | Through `objects` it fails with the PermissionError message and changes nothing. Through a user it returns that user's schedule for the date: the existing one, unchanged, or a fresh empty one appended. Either way the schedule returned is consistent. Uniqueness per (user, date) is kept. |
| SchedulerModels.CurrentScheduleTwice | scheduler/models.py:33 | Two reads of the current schedule on one date return the same schedule. |
| SchedulerForms.OverlapMessageNamesTask | scheduler/forms.py:14-17 | The filled overlap template determines the conflicting task's description (iff). |
| SchedulerForms.UnderflowMessageText | scheduler/forms.py:18-19 | The underflow template reads "A task's timespan must be at-least 5 minutes.". |
| SchedulerForms.CheckSchedule | scheduler/forms.py:88-101 | Fails with AttributeError("schedule is not set.") exactly when the instance has no schedule. |
| SchedulerForms.OverlapMessage | scheduler/forms.py:14-17 | The 'overlap' template of both time fields: "<label> overlaps the timespan of '<desc>' task." |
| SchedulerForms.CleanStartTime | scheduler/forms.py:34-48 | When the hook succeeds it returns the start time it was given. |
| SchedulerForms.CleanEndTime | scheduler/forms.py:66-86 | When the hook succeeds it returns the end time it was given. |
| SchedulerForms.HookTurn | scheduler/forms.py:23-86 | A field's turn in Django's field-by-field clean: a failed parse drops the field with its own message and skips the hook; otherwise the hook's value is kept, its ValidationError drops the field, and its AttributeError aborts validation. |
| SchedulerForms.StartTurn | scheduler/forms.py:23-48 | `start_time`'s turn: its parse, then `clean_start_time` on the parsed value. |
| SchedulerForms.EndTurn | scheduler/forms.py:50-86 | `end_time`'s turn: its parse, then `clean_end_time`, which sees `start_time` only when that field was kept. |
| SchedulerForms.DescTurn | scheduler/forms.py:11 | `task_desc` has no hook: its parse alone decides. |
| SchedulerForms.FullClean | scheduler/forms.py:7-86 | `full_clean()` in field order `start_time`, `end_time`, `task_desc`: an AttributeError from either hook escapes; otherwise the errors of dropped fields and the cleaned data of kept ones. |
| SchedulerForms.ErrorsOfTurns | scheduler/forms.py:42-47 | A field has an error exactly when its turn dropped it, and the error map is empty exactly when no field did. |
| SchedulerForms.IsValid | scheduler/forms.py:23-86 | A valid form has a schedule and all three fields parsed. |
| SchedulerForms.FormValidIffAdmissible | scheduler/forms.py:23-86 | The form validates exactly when its schedule is set, the fields parse, and `Task.save` would accept the span for this instance id. The cleaned data is then the input. |
| SchedulerForms.StartOverlapReported | scheduler/forms.py:36-47 | A clashing start is reported on `start_time` with the overlap message naming the first clashing task. |
| SchedulerForms.StartTimeErrorIff | scheduler/forms.py:23-48 | With the schedule set, `start_time` is in error exactly when its parse failed or the parsed start falls inside another task's interval. |
| SchedulerForms.EndTimeErrorIff | scheduler/forms.py:50-86 | With the schedule set, `end_time` is in error exactly when its parse failed, or `start_time` was kept and the span meets another task or is shorter than five minutes. |
| SchedulerForms.NoStartNoEndChecks | scheduler/forms.py:67-69 | Without a start time in `cleaned_data`, `end_time` is in error only if its own parse failed. |
| SchedulerForms.EndOverlapBeforeUnderflow | scheduler/forms.py:70-85 | An end overlap is reported with the overlap message even when the span is also too short. |
| SchedulerForms.UnderflowReported | scheduler/forms.py:82-85 | A too-short span with no clash is reported on `end_time` with the fixed underflow message. |
| SchedulerForms.NoScheduleRaises | scheduler/forms.py:98-101 | Without a schedule, validation raises "schedule is not set." once either time parses. |
| SchedulerForms.AutoIdsDistinct | scheduler/forms.py:104-107 | The `id_u_%s` prefix keeps every element id of the update form distinct from the create form's. |
| SchedulerForms.WideningOwnIntervalValidates | scheduler/forms.py:37-39 | With the instance's own id excluded, widening a task over its old interval validates; without it the same interval is rejected. |
| SchedulerForms.UpdateOntoOtherTaskRejected | scheduler/forms.py:70-80 | Updating a task onto another task of the schedule is rejected. |
| SerializedTasks.SerializeTask | scheduler/views.py:145-151 | The `task_dict` of one task: id, both times through the `H:i` filter, description, completed flag. |
| SerializedTasks.SerializeAll | scheduler/views.py:143-152 | One `task_dict` per task of the queryset, in queryset order. |
| SerializedTasks.InsertByStartTime | scheduler/views.py:153 | One step of the stable sort: adds the entry and keeps all others (length and multiset). |
| SerializedTasks.SortByStartTime | scheduler/views.py:153 | The sort is a permutation (length and multiset). |
| SerializedTasks.InsertByStartTimeSorted | scheduler/views.py:153 | Inserting into a sorted list keeps it sorted by start string. |
| SerializedTasks.SortByStartTimeSorted | scheduler/views.py:153 | The sort's result is sorted by start string. |
| SerializedTasks.SortOfSortedIsIdentity | scheduler/views.py:153 | The sort leaves an already sorted list exactly as it is. |
| SerializedTasks.InsertByStartTimeStable | scheduler/views.py:153 | An inserted entry lands after every entry that shares its start string; the entries with any other start string keep their order. |
| SerializedTasks.SortByStartTimeStable | scheduler/views.py:153 | Stability: for every start string, the entries carrying it come out in the order they went in. |
| SerializedTasks.SortAfterAppend | frontend/src/components/TaskTable.js:100-101 | Appending to a sorted list and sorting is a sorted insertion. |
| SerializedTasks.SerializedInStartOrder | scheduler/views.py:143-153 | Tasks in start order serialize to a list already sorted by the `H:i` start string. |
| SchedulerViews.NotFound | scheduler/views.py:80-83 | The not-found answer has status 400 and an ERROR body. |
| SchedulerViews.NotFoundNamesTask | scheduler/views.py:83 | The message "Could not retrieve task(<id>)" determines the id (iff). |
| SchedulerViews.TaskCreate | scheduler/views.py:58-70 | A valid form stores a new task, not completed, under a fresh id, advances the id counter, and answers that id with the `H:i` times. An invalid form answers 400 with the form's errors and leaves the store and the counter unchanged. |
| SchedulerViews.TaskUpdate | scheduler/views.py:78-94 | An unknown id gets the not-found answer and no change. Otherwise the update form excludes the task's own id. If it is valid, the task is rewritten with the new times and description, keeping its id and flag; if not, the answer is 400 with the errors and nothing changes. The id counter never moves. |
| SchedulerViews.TaskDelete | scheduler/views.py:102-111 | An unknown id gets the not-found answer and no change. Otherwise exactly the task with that id is removed. The id counter never moves. |
| SchedulerViews.TaskStatusUpdate | scheduler/views.py:119-132 | An unknown id gets the not-found answer and no change. Otherwise only that task's completed flag flips, in place. The id counter never moves. |
| SchedulerViews.ListTasks | scheduler/views.py:141-154 | The list has exactly one entry per stored task, in schedule order, and is sorted by start string. |
| TaskTable.TaskSortCompareFn | frontend/src/components/TaskTable.js:84-90 | -1, 0 or 1, each exactly when the first start string is before, equal to, or after the second. |
| TaskTable.TaskSortCompareFnOrder | frontend/src/components/TaskTable.js:84-90 | The comparator is antisymmetric, and a list is in its order exactly when sorted by start string. |
| TaskTable.NewTask | frontend/src/components/TaskTable.js:93-99 | The `newTask` object built from a save answer: its id, both `H:i` times and description, not completed. |
| TaskTable.TaskTable.constructor | frontend/src/components/TaskTable.js:13-16 | The table starts empty. |
| TaskTable.TaskTable.GetTaskIdx | frontend/src/components/TaskTable.js:181-188 | The loop returns the first index holding the id, or null exactly when none does. |
| TaskTable.TaskTable.AddNewTask | frontend/src/components/TaskTable.js:92-105 | The list grows by the new task, not completed, and is sorted. From a sorted list it is the sorted insertion. |
| TaskTable.TaskTable.UpdateExistingTask | frontend/src/components/TaskTable.js:107-123 | Only the matched task's times and description change. Its place, its flag and the other tasks stay. An unknown id leaves the list alone. |
| TaskTable.TaskTable.UpdateExistingTaskUnchecked | frontend/src/components/TaskTable.js:299-310 | The same update, for a caller that guarantees the id is listed. |
| TaskTable.TaskTable.UpdateTaskStatusSuccess | frontend/src/components/TaskTable.js:138-153 | The task is taken out, flipped, pushed and re-sorted. The result is the old list with that flag flipped up to order (multiset), and it is sorted. An unknown id changes nothing. |
| TaskTable.TaskTable.HandleTaskDeleteFormSuccess | frontend/src/components/TaskTable.js:246-258 | Exactly the entry at the found index is removed; an unknown id changes nothing. |
| TaskTable.StatusToggleKeepsPosition | frontend/src/components/TaskTable.js:143-146 | On a list with distinct start strings, the re-sort puts the toggled task back where it was. |
| TaskTable.ConsistentSerializesStrictly | scheduler/views.py:143-153 | A consistent schedule serializes to a list strictly sorted by `H:i` start string (its tasks start at least five minutes apart, so in different minutes), which is what the toggle result above needs. |
| TaskTable.InsertBeforeGreater | frontend/src/components/TaskTable.js:145-146 | An entry whose start lies between a prefix and a suffix is inserted between them. |
| Network.Split | frontend/src/utils/network.js:8 | `split(';')` gives at least one piece, none containing the separator. |
| Network.JoinSplit | frontend/src/utils/network.js:8 | Joining the pieces gives back the cookie string. |
| Network.SplitJoin | frontend/src/utils/network.js:8 | Splitting joined separator-free pieces gives back the pieces. |
| Network.TrimStartDropsLeadingWhitespace | frontend/src/utils/network.js:10 | The leading trim drops a run of whitespace and stops at the first other character. |
| Network.TrimEndDropsTrailingWhitespace | frontend/src/utils/network.js:10 | The trailing trim drops a run of whitespace and stops at the last other character. |
| Network.Trim | frontend/src/utils/network.js:10 | `trim()`: the trailing trim of the leading trim. |
| Network.TrimKeepsInnerSlice | frontend/src/utils/network.js:10 | The trim keeps one contiguous slice: all before and after it is whitespace, and the slice neither starts nor ends with whitespace. |
| Network.Substring | frontend/src/utils/network.js:12-13 | `substring` with clamped and swapped bounds is never longer than the string. |
| Network.PieceMatchesIffPrefix | frontend/src/utils/network.js:12 | A trimmed piece matches exactly when it starts with `name=`. |
| Network.LongerNameDoesNotMatch | frontend/src/utils/network.js:12 | "csrftoken2=abc" does not match the name "csrftoken". |
| Network.CookieValue | frontend/src/utils/network.js:5-19 | The reference for `getCookie`: nothing for an empty cookie string, otherwise the decoded value after `name=` of the first `;`-piece that matches once trimmed, or nothing. `GetCookie` is proved equal to it. |
| Network.GetCookie | frontend/src/utils/network.js:5-19 | The loop with `break` returns null for an empty cookie string. Otherwise it returns the decoded value after `name=` of the first matching piece, or null. |
| Network.TrimPiece | frontend/src/utils/network.js:10 | A well-formed `key=value` with or without the leading space trims to itself. |
| Network.OtherKeyDoesNotMatch | frontend/src/utils/network.js:12 | A cookie with another name never matches, even when one name extends the other. |
| Network.PairMatches | frontend/src/utils/network.js:12-13 | A well-formed cookie matches exactly when it has the name, and the value read is its value. |
| Network.SplitFormat | frontend/src/utils/network.js:8 | The browser's `a=1; b=2` string splits back into its pieces. |
| Network.CookieValueOfFormat | frontend/src/utils/network.js:5-19 | Reading a name from the browser's cookie string gives the decoded value of the first cookie with that name, or nothing. |
| Strings.LessIrreflexive | frontend/src/components/TaskTable.js:85 | String `<` is irreflexive. |
| Strings.LessTransitive | frontend/src/components/TaskTable.js:85 | String `<` is transitive. |
| Strings.LessTrichotomy | frontend/src/components/TaskTable.js:85-89 | Of two strings, one is smaller or they are equal. |
| Strings.LessAsymmetric | frontend/src/components/TaskTable.js:85-89 | String `<` is asymmetric. |
| Strings.LessConcat | scheduler/views.py:153 | Comparing equal-length prefixes decides, or defers to the rest. |
| Strings.ParseIntToString | scheduler/views.py:83 | The decimal rendering of an id reads back as that id. |
| Strings.TwoDigitsOrder | scheduler/views.py:147 | Zero-padded two-digit numbers compare as strings exactly as the numbers do. |
| Times.FormatHi | scheduler/views.py:147 | `H:i` is five characters with a colon in the middle. |
| Times.IsoFormat | scheduler/models.py:241 | `str(time)`: `HH:MM:SS`, with `.ffffff` only when the microseconds are not zero (8 or 15 characters). |
| Times.FormatHiOrder | scheduler/views.py:153 | `H:i` strings compare exactly as the minutes of day they show. |
| Times.FormatHiMonotone | scheduler/views.py:147-153 | A later time never prints as a smaller `H:i` string. |
| Times.IsoFormatWholeMinute | scheduler/models.py:241 | `str(time)` of a whole minute is `HH:MM:00`. |

## Left out

- The database, the ORM and HTTP are left out. Each schedule is an object that holds its tasks in `Meta.ordering` order, and each view gets the requesting user's current schedule already resolved, as `request.user.dayschedules.current_schedule` gives it.
- Each operation is atomic. The gap between the form's checks and the insert (time of check versus time of use) is concurrency and is not modelled.
- Task ids are drawn from a per-schedule counter (`nextTaskId`), not from the table-wide auto-increment. Only their freshness within the schedule matters to the rules.
- The `TypeError` guards of the finders and of `validate_minimum_timespan` are not modelled: the parameter types rule those inputs out.
- `delta.total_seconds()` is a float in the source. The model compares whole microseconds, which gives the same verdict for every pair of `datetime.time` values.
- Time zones and `timezone.now()` are left out: the date of the user's local "now" is an input of `CurrentSchedule`.
- SchedulerForms.CleanStartTime: `if start_time:` is taken as "present". Since Python 3.5 every `datetime.time`, midnight included, is true.
- The field parsers (required, time format, `max_length=50`) are not modelled. Each field arrives already parsed or with its parser's message (`Field.Invalid`).
- `int(request.POST.get('task_id'))` is left out: the views receive the id as an integer. A missing or malformed id (an uncaught `ValueError` or `TypeError`) is not modelled.
- JSON encoding and the `FORM_ERRORS` / `ERROR` / `TASKS` envelope keys are left out. The bodies are datatypes.
- `update_fields=['completed']` is modelled by its effect: the status view re-saves the stored task with only the flag changed.
- Network.GetCookie: `decodeURIComponent` is a function parameter. Its `URIError` on malformed input is not modelled.
- Network.CookieValueOfFormat: stated only for well-formed cookies (name non-empty and free of `=`, `;` and whitespace; value free of `;` and whitespace) and for names without `=`.
- Strings.LessTrichotomy: strings are sequences of Unicode scalar values. JavaScript compares UTF-16 code units, which orders differently only for characters outside the Basic Multilingual Plane. The `H:i` strings that are compared are ASCII.
- TaskTable.TaskTable.UpdateExistingTask: the task objects are values. The source mutates the object found in the array and then stores it back at the same index, which has the same effect on the list. The `displayMessage` on an unknown id and the `console.log` calls are UI.
- TaskTable.TaskTable.UpdateTaskStatusSuccess: the `post` round trip and its failure callbacks are left out. The method is the success callback.
- TaskTable.TaskTable.HandleTaskDeleteFormSuccess: closing the delete modal is UI and is not modelled.
- `Array.prototype.sort` and Python's `list.sort` are modelled as one stable insertion sort by start string. Both sorts are stable, so they return exactly this order. The in-place mechanics of each engine are not modelled.
- The rest of the repository is not modelled: React rendering and modal state, `accounts/` (signup, activation, the signer), admin registration and URL routing.
