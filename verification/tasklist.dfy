/** Drag-and-drop in the day's task list (components/tasks/TaskList.tsx).
    The new order goes to the page's `onReorder`, which is the task hook's
    `reorderTasks` (app/(main)/page.tsx:193). */
module TaskList {
  import opened Common
  import opened Sorting
  import opened Types
  import opened Tasks

  /** `handleDragEnd`: nothing without a target or onto itself; otherwise
      the tasks with the dragged one moved to the target's index. An id not
      in the list leaves the outcome to the drag-and-drop library. */
  function HandleDragEnd(tasks: seq<Task>, active: string, over: Option<string>): (r: DragOutcome<Task>)
    ensures r.Ignored? <==> over.None? || over.value == active
    ensures r.Reordered? <==> !r.Ignored? && 0 <= IndexOf(tasks, TaskId, active) && 0 <= IndexOf(tasks, TaskId, over.value)
    ensures r.Reordered? ==> |r.order| == |tasks| && multiset(r.order) == multiset(tasks)
    ensures r.Reordered? ==> r.order[IndexOf(tasks, TaskId, over.value)] == tasks[IndexOf(tasks, TaskId, active)]
    ensures r.Reordered? ==> r.order == ArrayMove(tasks, IndexOf(tasks, TaskId, active), IndexOf(tasks, TaskId, over.value))
  {
    MoveById(tasks, TaskId, active, over)
  }

  /** With unique ids, dragging the task back onto whatever took its place
      restores the list. */
  lemma DragBackRestores(tasks: seq<Task>, a: string, b: string)
    requires UniqueIds(tasks, TaskId)
    requires HandleDragEnd(tasks, a, Some(b)).Reordered?
    ensures var o := HandleDragEnd(tasks, a, Some(b)).order;
            0 <= IndexOf(tasks, TaskId, a) < |o|
            && HandleDragEnd(o, a, Some(o[IndexOf(tasks, TaskId, a)].id)) == Reordered(tasks)
  {
    MoveByIdUndo(tasks, TaskId, a, b);
  }

  /** A drag does not survive `reorderTasks` when the dragged task shares
      its completion, priority and creation time with no other task: the
      list snaps back to the sorted order. */
  lemma LoneKeyDragSnapsBack(tasks: seq<Task>, a: string, b: string)
    requires Sorted(tasks, TaskKey)
    requires HandleDragEnd(tasks, a, Some(b)).Reordered?
    requires forall j :: 0 <= j < |tasks| && j != IndexOf(tasks, TaskId, a) ==>
               TaskKey(tasks[j]) != TaskKey(tasks[IndexOf(tasks, TaskId, a)])
    ensures ReorderTasks(HandleDragEnd(tasks, a, Some(b)).order) == tasks
  {
    var from, to := IndexOf(tasks, TaskId, a), IndexOf(tasks, TaskId, b);
    var o := HandleDragEnd(tasks, a, Some(b)).order;
    assert o == ArrayMove(tasks, from, to);
    forall k ensures Filter(o, ClassOf(TaskKey, k)) == Filter(tasks, ClassOf(TaskKey, k)) {
      MoveOfLoneKeyKeepsClasses(tasks, TaskKey, from, to, k);
    }
    ReorderUndoesCrossKeyDrag(tasks, o);
  }
}
