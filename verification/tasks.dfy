/** The task list of the day view (lib/hooks/useTasks.ts): the priority
    ordering and the state changes of fetch, create, update, delete, toggle
    and reorder. A backend call that returns rows is a `Reply` parameter and
    a delete is a success flag; the list returned is the hook's `tasks`
    state afterwards. */
module Tasks {
  import opened Common
  import opened Sorting
  import opened Types

  /** `priorityOrder[name] ?? 999`: the three priorities rank 1, 2, 3 and any
      other stored string ranks 999. (A name of an `Object.prototype`
      property would find an inherited value instead; such names are not
      modelled.) */
  function PriorityRank(name: string): (r: nat)
    ensures ParsePriority(name).Some? ==> 1 <= r <= 3
    ensures ParsePriority(name).None? ==> r == 999
  {
    if name == "high" then 1
    else if name == "medium" then 2
    else if name == "low" then 3
    else 999
  }

  /** High before medium before low, and an unknown priority after all of
      them. */
  lemma PriorityRankOrder(unknown: string)
    requires ParsePriority(unknown).None?
    ensures PriorityRank(PriorityName(High)) < PriorityRank(PriorityName(Medium))
    ensures PriorityRank(PriorityName(Medium)) < PriorityRank(PriorityName(Low))
    ensures forall p :: PriorityRank(PriorityName(p)) < PriorityRank(unknown)
  {
    forall p ensures PriorityRank(PriorityName(p)) < PriorityRank(unknown) {
      PriorityNameRoundTrip(p);
    }
  }

  /** The comparator of `sortTasksByPriority` as a key: completion (open
      first), then priority rank, then creation time. */
  function TaskKey(t: Task): Key
  {
    Key(if t.isCompleted then 1 else 0, PriorityRank(t.priority), t.createdAt)
  }

  /** `sortTasksByPriority`: a sorted copy; the input is not touched. */
  function SortTasksByPriority(tasks: seq<Task>): (r: seq<Task>)
    ensures multiset(r) == multiset(tasks)
    ensures forall i, j :: 0 <= i < j < |r| && r[i].isCompleted ==> r[j].isCompleted
    ensures forall i, j :: 0 <= i < j < |r| && r[i].isCompleted == r[j].isCompleted
              ==> PriorityRank(r[i].priority) <= PriorityRank(r[j].priority)
    ensures forall i, j :: 0 <= i < j < |r| && r[i].isCompleted == r[j].isCompleted
              && PriorityRank(r[i].priority) == PriorityRank(r[j].priority)
              ==> r[i].createdAt <= r[j].createdAt
  {
    var r := SortBy(tasks, TaskKey);
    assert forall i, j :: 0 <= i < j < |r| ==> KeyLe(TaskKey(r[i]), TaskKey(r[j]));
    r
  }

  /** Tasks that tie on all three keys come out in their input order. */
  lemma SortTasksStable(tasks: seq<Task>, k: Key)
    ensures Filter(SortTasksByPriority(tasks), ClassOf(TaskKey, k)) == Filter(tasks, ClassOf(TaskKey, k))
  {
    SortByStable(tasks, TaskKey, k);
  }

  /** Sorting the sorted list again changes nothing. */
  lemma SortTasksIdempotent(tasks: seq<Task>)
    ensures SortTasksByPriority(SortTasksByPriority(tasks)) == SortTasksByPriority(tasks)
  {
    SortByIdempotent(tasks, TaskKey);
  }

  /** `fetchTasks`: the day's rows, sorted; on an error the list is kept. */
  function FetchTasks(prev: seq<Task>, reply: Reply<seq<Task>>): (r: seq<Task>)
    ensures reply.Failed? ==> r == prev
    ensures reply.Ok? ==> multiset(r) == multiset(reply.value) && Sorted(r, TaskKey)
  {
    match reply
    case Ok(rows) => SortTasksByPriority(rows)
    case Failed => prev
  }

  /** The row `createTask` inserts: the input as given, the signed-in user,
      and a manual position of 0. */
  datatype TaskInsert = TaskInsert(input: CreateTaskInput, userId: string, sortOrder: int)

  /** What `createTask` sends (nothing when no user is signed in), the task
      list afterwards, and what the caller gets: the stored row, or nothing
      when the error is thrown on to it. */
  datatype Created = Created(request: Option<TaskInsert>, tasks: seq<Task>, result: Option<Task>)

  /** `createTask`: with a signed-in user it inserts the input with
      `sort_order` 0, and the stored row joins the list, which is sorted
      again and the row is returned. Without a user, or when the insert
      fails, the list stays and the error reaches the caller. */
  function CreateTask(prev: seq<Task>, input: CreateTaskInput, user: Option<string>, reply: Reply<Task>): (r: Created)
    ensures user.None? <==> r.request.None?
    ensures r.request.Some? ==> (r.request.value.sortOrder == 0
                                 && r.request.value.input == input && r.request.value.userId == user.value)
    ensures user.None? || reply.Failed? ==> r.tasks == prev && r.result.None?
    ensures user.Some? && reply.Ok? ==> r.result == Some(reply.value)
    ensures user.Some? && reply.Ok? ==> multiset(r.tasks) == multiset(prev) + multiset{reply.value}
    ensures user.Some? && reply.Ok? ==> Sorted(r.tasks, TaskKey)
  {
    match user
    case None => Created(None, prev, None)
    case Some(uid) =>
      var request := Some(TaskInsert(input, uid, 0));
      match reply
      case Ok(row) => Created(request, SortBy(prev + [row], TaskKey), Some(row))
      case Failed => Created(request, prev, None)
  }

  /** The row the backend returns for `update({...input, updated_at: now})`:
      fields present in the patch are replaced, the rest are kept. */
  function ApplyUpdate(t: Task, patch: UpdateTaskInput, now: int): (r: Task)
    ensures r.id == t.id && r.userId == t.userId && r.routineId == t.routineId && r.createdAt == t.createdAt
    ensures r.updatedAt == now
    ensures r.title == (if patch.title.Some? then patch.title.value else t.title)
    ensures r.memo == (if patch.memo.Some? then patch.memo.value else t.memo)
    ensures r.priority == (if patch.priority.Some? then PriorityName(patch.priority.value) else t.priority)
    ensures r.categoryId == (if patch.categoryId.Some? then patch.categoryId.value else t.categoryId)
    ensures r.taskDate == (if patch.taskDate.Some? then patch.taskDate.value else t.taskDate)
    ensures r.isCompleted == (if patch.isCompleted.Some? then patch.isCompleted.value else t.isCompleted)
    ensures r.sortOrder == (if patch.sortOrder.Some? then patch.sortOrder.value else t.sortOrder)
  {
    t.(
      title := match patch.title case Some(v) => v case None => t.title,
      memo := match patch.memo case Some(v) => v case None => t.memo,
      priority := match patch.priority case Some(v) => PriorityName(v) case None => t.priority,
      categoryId := match patch.categoryId case Some(v) => v case None => t.categoryId,
      taskDate := match patch.taskDate case Some(v) => v case None => t.taskDate,
      isCompleted := match patch.isCompleted case Some(v) => v case None => t.isCompleted,
      sortOrder := match patch.sortOrder case Some(v) => v case None => t.sortOrder,
      updatedAt := now)
  }

  /** An empty patch only moves `updated_at`. */
  lemma EmptyPatchOnlyTouchesTimestamp(t: Task, now: int)
    ensures ApplyUpdate(t, NoChanges, now) == t.(updatedAt := now)
  {
  }

  /** Applying the same patch twice is applying it once. */
  lemma ApplyUpdateIdempotent(t: Task, patch: UpdateTaskInput, now: int)
    ensures ApplyUpdate(ApplyUpdate(t, patch, now), patch, now) == ApplyUpdate(t, patch, now)
  {
  }

  /** `updateTask`: the returned row replaces the tasks with that id, and
      the list is sorted again. */
  function UpdateTask(prev: seq<Task>, id: string, reply: Reply<Task>): (r: seq<Task>)
    ensures reply.Failed? ==> r == prev
    ensures reply.Ok? ==> multiset(r) == multiset(ReplaceById(prev, TaskId, id, reply.value))
    ensures reply.Ok? ==> Sorted(r, TaskKey)
  {
    match reply
    case Ok(row) => SortBy(ReplaceById(prev, TaskId, id, row), TaskKey)
    case Failed => prev
  }

  /** `updateTask` with an id the list does not hold just re-sorts it. */
  lemma UpdateUnknownIdKeepsTasks(prev: seq<Task>, id: string, row: Task)
    requires forall i :: 0 <= i < |prev| ==> prev[i].id != id
    ensures multiset(UpdateTask(prev, id, Ok(row))) == multiset(prev)
  {
    ReplaceUnknownIdIsIdentity(prev, TaskId, id, row);
  }

  /** `deleteTask`: on success exactly the tasks with that id leave, the
      others keep their order. */
  function DeleteTask(prev: seq<Task>, id: string, succeeded: bool): (r: seq<Task>)
    ensures !succeeded ==> r == prev
    ensures succeeded ==> forall i :: 0 <= i < |r| ==> r[i].id != id
    ensures succeeded ==> forall t: Task :: t.id != id ==> multiset(r)[t] == multiset(prev)[t]
    ensures IsSubsequence(r, prev)
  {
    if succeeded then RemoveById(prev, TaskId, id)
    else
      SubsequenceOfItself(prev);
      prev
  }

  /** The patch `toggleComplete` sends: only `is_completed`, negated; no
      patch at all for an id the list does not hold. */
  function ToggleRequest(tasks: seq<Task>, id: string): (r: Option<UpdateTaskInput>)
    ensures r.None? <==> forall i :: 0 <= i < |tasks| ==> tasks[i].id != id
    ensures r.Some? ==> 0 <= IndexOf(tasks, TaskId, id)
                        && r.value == NoChanges.(isCompleted := Some(!tasks[IndexOf(tasks, TaskId, id)].isCompleted))
  {
    match Find(tasks, TaskId, id)
    case None => None
    case Some(t) => Some(NoChanges.(isCompleted := Some(!t.isCompleted)))
  }

  /** `toggleComplete`: for an id the list holds, the patch goes through
      `updateTask`, so the returned row replaces the task and the list is
      sorted again; an unknown id sends nothing and a failed write keeps the
      list. */
  function ToggleComplete(prev: seq<Task>, id: string, reply: Reply<Task>): (r: seq<Task>)
    ensures ToggleRequest(prev, id).None? || reply.Failed? ==> r == prev
    ensures ToggleRequest(prev, id).Some? && reply.Ok? ==>
              multiset(r) == multiset(ReplaceById(prev, TaskId, id, reply.value)) && Sorted(r, TaskKey)
  {
    match ToggleRequest(prev, id)
    case None => prev
    case Some(_) => UpdateTask(prev, id, reply)
  }

  /** When the backend returns the task with the toggle's patch applied, a
      toggle of a task whose id is unique flips its completion, changes no
      other task, and leaves the list in priority order. */
  lemma ToggleFlipsOnlyThatTask(prev: seq<Task>, i: nat, now: int, row: Task)
    requires i < |prev|
    requires forall j :: 0 <= j < |prev| && j != i ==> prev[j].id != prev[i].id
    requires row == ApplyUpdate(prev[i], ToggleRequest(prev, prev[i].id).value, now)
    ensures multiset(ToggleComplete(prev, prev[i].id, Ok(row)))
         == multiset(prev[..i] + [prev[i].(isCompleted := !prev[i].isCompleted, updatedAt := now)] + prev[i + 1..])
    ensures Sorted(ToggleComplete(prev, prev[i].id, Ok(row)), TaskKey)
  {
    var t := prev[i];
    var k := IndexOf(prev, TaskId, t.id);
    assert prev[k].id == t.id;
    assert k == i;
    assert row == t.(isCompleted := !t.isCompleted, updatedAt := now);
    ReplaceUniqueId(prev, TaskId, i, row);
  }

  /** Toggling twice restores the completion flag. */
  lemma ToggleTwiceRestores(t: Task, now1: int, now2: int)
    ensures var once := ApplyUpdate(t, NoChanges.(isCompleted := Some(!t.isCompleted)), now1);
            ApplyUpdate(once, NoChanges.(isCompleted := Some(!once.isCompleted)), now2) == t.(updatedAt := now2)
  {
  }

  /** `reorderTasks`: the dragged order is sorted by priority again. */
  function ReorderTasks(reordered: seq<Task>): (r: seq<Task>)
    ensures multiset(r) == multiset(reordered)
    ensures Sorted(r, TaskKey)
  {
    SortTasksByPriority(reordered)
  }

  /** A manual reorder only matters inside full ties: two drags that leave
      every tie class in the same order give the same list. */
  lemma ReorderOnlyKeepsTieOrder(a: seq<Task>, b: seq<Task>)
    requires forall k :: Filter(a, ClassOf(TaskKey, k)) == Filter(b, ClassOf(TaskKey, k))
    ensures ReorderTasks(a) == ReorderTasks(b)
  {
    SortByDependsOnlyOnClasses(a, b, TaskKey);
  }

  /** Reordering the already sorted list by a permutation that keeps each
      tie class in order gives back the list unchanged. */
  lemma ReorderUndoesCrossKeyDrag(tasks: seq<Task>, dragged: seq<Task>)
    requires Sorted(tasks, TaskKey)
    requires forall k :: Filter(dragged, ClassOf(TaskKey, k)) == Filter(tasks, ClassOf(TaskKey, k))
    ensures ReorderTasks(dragged) == tasks
  {
    SortByDependsOnlyOnClasses(dragged, tasks, TaskKey);
    SortBySortedIsIdentity(tasks, TaskKey);
  }
}
