/** Recurring task templates (lib/hooks/useRoutines.ts): how a form becomes
    the record written to the backend, and the state changes of fetch, add,
    update, activate/deactivate and delete. */
module Routines {
  import opened Common
  import opened Types

  /** The stored `time`: the form's `'HH:MM'` with `':00'` appended when the
      routine has a time and the field is non-empty, otherwise null. */
  function StoredTime(hasTime: bool, time: Option<string>): (r: Option<string>)
    ensures r.Some? <==> hasTime && time.Some? && time.value != ""
    ensures r.Some? ==> r.value == time.value + ":00"
  {
    if hasTime && time.Some? && time.value != "" then Some(time.value + ":00") else None
  }

  /** The fields both `addRoutine` and `updateRoutine` write. */
  datatype RoutineFields = RoutineFields(
    title: string,
    memo: Option<string>,
    categoryId: Option<string>,
    hasTime: bool,
    time: Option<string>)

  /** The fields written for a form: the title as typed, empty memo and
      category as null, and the stored time. */
  function FieldsOf(form: RoutineFormData): (r: RoutineFields)
    ensures r.title == form.title && r.hasTime == form.hasTime
    ensures r.memo == OrNull(form.memo) && r.categoryId == OrNull(form.categoryId)
    ensures r.time == StoredTime(form.hasTime, form.time)
  {
    RoutineFields(form.title, OrNull(form.memo), OrNull(form.categoryId), form.hasTime,
                  StoredTime(form.hasTime, form.time))
  }

  /** Neither the priority nor the weekdays chosen in the form are written:
      two forms that differ only there write the same record. */
  lemma FieldsIgnorePriorityAndDays(form: RoutineFormData, priority: Priority, days: Option<seq<int>>)
    ensures FieldsOf(form.(priority := priority, daysOfWeek := days)) == FieldsOf(form)
  {
  }

  /** The row the backend keeps after writing `fields`: the written columns
      change, every other column (priority and weekdays included) stays. */
  function ApplyFields(r: Routine, fields: RoutineFields, now: int): (s: Routine)
    ensures s.id == r.id && s.userId == r.userId && s.priority == r.priority && s.daysOfWeek == r.daysOfWeek
    ensures s.isActive == r.isActive && s.createdAt == r.createdAt && s.updatedAt == now
    ensures s.title == fields.title && s.memo == fields.memo && s.categoryId == fields.categoryId
    ensures s.hasTime == fields.hasTime && s.time == fields.time
  {
    r.(title := fields.title, memo := fields.memo, categoryId := fields.categoryId,
       hasTime := fields.hasTime, time := fields.time, updatedAt := now)
  }

  /** Saving the same form twice stores what saving it once stores. */
  lemma ApplyFormIdempotent(r: Routine, form: RoutineFormData, now: int)
    ensures ApplyFields(ApplyFields(r, FieldsOf(form), now), FieldsOf(form), now) == ApplyFields(r, FieldsOf(form), now)
  {
  }

  /** `fetchRoutines`: without a user, on an error, or with no data the
      routines shown stay; otherwise the rows as returned (newest first). */
  function FetchRoutines(prev: seq<Routine>, user: Option<string>, reply: Reply<seq<Routine>>): (r: seq<Routine>)
    ensures user.None? || reply.Failed? ==> r == prev
    ensures user.Some? && reply.Ok? ==> r == reply.value
  {
    if user.None? then prev
    else
      match reply
      case Ok(rows) => rows
      case Failed => prev
  }

  /** The row `addRoutine` inserts. */
  datatype RoutineInsert = RoutineInsert(userId: string, fields: RoutineFields, isActive: bool)

  datatype RoutineAdded = RoutineAdded(request: Option<RoutineInsert>, routines: seq<Routine>, result: Option<Routine>)

  /** `addRoutine`: an active routine built from the form; the stored row
      goes to the front of the list. */
  function AddRoutine(prev: seq<Routine>, form: RoutineFormData, user: Option<string>, reply: Reply<Routine>): (r: RoutineAdded)
    ensures user.None? <==> r.request.None?
    ensures r.request.Some? ==> (r.request.value.userId == user.value && r.request.value.isActive
                                 && r.request.value.fields == FieldsOf(form))
    ensures user.None? || reply.Failed? ==> r.routines == prev && r.result.None?
    ensures user.Some? && reply.Ok? ==>
              |r.routines| == |prev| + 1 && r.routines[0] == reply.value && r.routines[1..] == prev
              && r.result == Some(reply.value)
  {
    match user
    case None => RoutineAdded(None, prev, None)
    case Some(uid) =>
      var request := RoutineInsert(uid, FieldsOf(form), true);
      match reply
      case Ok(row) => RoutineAdded(Some(request), [row] + prev, Some(row))
      case Failed => RoutineAdded(Some(request), prev, None)
  }

  /** The patch `updateRoutine` sends. */
  datatype RoutinePatch = RoutinePatch(fields: RoutineFields, updatedAt: int)

  datatype RoutineChanged = RoutineChanged(routines: seq<Routine>, result: Option<Routine>)

  /** `updateRoutine`: the patch is the form's fields and the time; the
      returned row takes the place of the routines with that id. */
  function UpdateRoutine(prev: seq<Routine>, id: string, form: RoutineFormData, now: int, reply: Reply<Routine>): (r: (RoutinePatch, RoutineChanged))
    ensures r.0 == RoutinePatch(FieldsOf(form), now)
    ensures reply.Failed? ==> r.1 == RoutineChanged(prev, None)
    ensures reply.Ok? ==> r.1.result == Some(reply.value) && |r.1.routines| == |prev|
    ensures reply.Ok? ==> forall i :: 0 <= i < |prev| ==> r.1.routines[i] == if prev[i].id == id then reply.value else prev[i]
  {
    var patch := RoutinePatch(FieldsOf(form), now);
    match reply
    case Ok(row) => (patch, RoutineChanged(ReplaceById(prev, RoutineId, id, row), Some(row)))
    case Failed => (patch, RoutineChanged(prev, None))
  }

  /** The patch `toggleRoutineActive` sends. */
  datatype ActivePatch = ActivePatch(isActive: bool, updatedAt: int)

  /** `toggleRoutineActive`: sets `is_active` to the value given; the
      returned row takes the place of the routines with that id. */
  function ToggleRoutineActive(prev: seq<Routine>, id: string, isActive: bool, now: int, reply: Reply<Routine>): (r: (ActivePatch, RoutineChanged))
    ensures r.0 == ActivePatch(isActive, now)
    ensures reply.Failed? ==> r.1 == RoutineChanged(prev, None)
    ensures reply.Ok? ==> r.1.result == Some(reply.value) && |r.1.routines| == |prev|
    ensures reply.Ok? ==> forall i :: 0 <= i < |prev| ==> r.1.routines[i] == if prev[i].id == id then reply.value else prev[i]
  {
    var patch := ActivePatch(isActive, now);
    match reply
    case Ok(row) => (patch, RoutineChanged(ReplaceById(prev, RoutineId, id, row), Some(row)))
    case Failed => (patch, RoutineChanged(prev, None))
  }

  /** The row the backend keeps after an `ActivePatch`. */
  function ApplyActive(r: Routine, patch: ActivePatch): (s: Routine)
    ensures s.isActive == patch.isActive && s.updatedAt == patch.updatedAt
    ensures s.(isActive := r.isActive, updatedAt := r.updatedAt) == r
  {
    r.(isActive := patch.isActive, updatedAt := patch.updatedAt)
  }

  /** When the backend applies the patch, the routine at position `k` (its
      id unique) takes the requested activity and nothing else changes. */
  lemma ToggleActiveSetsOnlyThatRoutine(prev: seq<Routine>, k: nat, isActive: bool, now: int)
    requires k < |prev|
    requires forall j :: 0 <= j < |prev| && j != k ==> prev[j].id != prev[k].id
    ensures var row := ApplyActive(prev[k], ActivePatch(isActive, now));
            var after := ToggleRoutineActive(prev, prev[k].id, isActive, now, Ok(row)).1.routines;
            after[k].isActive == isActive && after[k].(isActive := prev[k].isActive, updatedAt := prev[k].updatedAt) == prev[k]
            && forall j :: 0 <= j < |prev| && j != k ==> after[j] == prev[j]
  {
  }

  /** `deleteRoutine`: on success exactly the routines with that id leave,
      the others keep their order; on failure false and no change. */
  function DeleteRoutine(prev: seq<Routine>, id: string, succeeded: bool): (r: (bool, seq<Routine>))
    ensures r.0 == succeeded
    ensures !succeeded ==> r.1 == prev
    ensures succeeded ==> forall i :: 0 <= i < |r.1| ==> r.1[i].id != id
    ensures succeeded ==> forall x: Routine :: x.id != id ==> multiset(r.1)[x] == multiset(prev)[x]
    ensures IsSubsequence(r.1, prev)
  {
    if succeeded then (true, RemoveById(prev, RoutineId, id))
    else
      SubsequenceOfItself(prev);
      (false, prev)
  }
}
