/** The week board (components/tasks/WeekView.tsx): one column per
    displayed date, and dragging a task onto another date's column. Dates
    are their 'YYYY-MM-DD' keys; turning a `Date` into its key is not part
    of this model. */
module WeekView {
  import opened Common
  import opened Types

  /** One entry of `tasksByDate`, in `Object.entries` order: a date key and
      the tasks listed under it. */
  datatype DateBucket = DateBucket(date: string, tasks: seq<Task>)

  predicate Holds(b: DateBucket, taskId: string)
  {
    IndexOf(b.tasks, TaskId, taskId) >= 0
  }

  function HoldsTask(taskId: string): DateBucket -> bool
  {
    b => Holds(b, taskId)
  }

  /** The first entry that lists the task, or -1. */
  function Holder(buckets: seq<DateBucket>, taskId: string): (r: int)
    ensures -1 <= r < |buckets|
    ensures r == -1 <==> forall i :: 0 <= i < |buckets| ==> !Holds(buckets[i], taskId)
    ensures 0 <= r ==> Holds(buckets[r], taskId) && forall i :: 0 <= i < r ==> !Holds(buckets[i], taskId)
  {
    IndexWhere(buckets, HoldsTask(taskId))
  }

  /** `handleDragStart`: the overlay shows the first task with the dragged
      id, looking through the entries in order; when no entry lists it the
      overlay keeps what it showed. */
  function HandleDragStart(overlay: Option<Task>, buckets: seq<DateBucket>, taskId: string): (r: Option<Task>)
    ensures (forall i :: 0 <= i < |buckets| ==> !Holds(buckets[i], taskId)) ==> r == overlay
    ensures (exists i :: 0 <= i < |buckets| && Holds(buckets[i], taskId)) ==>
              r.Some? && r.value.id == taskId
              && exists i :: 0 <= i < |buckets| && r.value in buckets[i].tasks
  {
    var k := Holder(buckets, taskId);
    if k < 0 then overlay
    else
      Find(buckets[k].tasks, TaskId, taskId)
  }

  /** The date of the first entry that lists the task; "" when none does. */
  function CurrentDate(buckets: seq<DateBucket>, taskId: string): (r: string)
    ensures (forall i :: 0 <= i < |buckets| ==> !Holds(buckets[i], taskId)) ==> r == ""
    ensures (exists i :: 0 <= i < |buckets| && Holds(buckets[i], taskId)) ==>
              exists i :: 0 <= i < |buckets| && Holds(buckets[i], taskId) && r == buckets[i].date
  {
    var k := Holder(buckets, taskId);
    if k < 0 then "" else buckets[k].date
  }

  /** The call `onMoveTask(taskId, newDate)`. */
  datatype MoveRequest = MoveRequest(taskId: string, newDate: string)

  datatype DragEnded = DragEnded(overlay: Option<Task>, move: Option<MoveRequest>)

  /** `handleDragEnd`: the overlay is cleared; the task is moved only when
      it is dropped on a displayed date's column other than the date it is
      listed under. */
  function HandleDragEnd(dates: seq<string>, buckets: seq<DateBucket>, taskId: string, over: Option<string>): (r: DragEnded)
    ensures r.overlay.None?
    ensures r.move.Some? <==> over.Some? && over.value in dates && over.value != CurrentDate(buckets, taskId)
    ensures r.move.Some? ==> r.move.value == MoveRequest(taskId, over.value)
  {
    match over
    case None => DragEnded(None, None)
    case Some(overId) =>
      if overId in dates && CurrentDate(buckets, taskId) != overId then DragEnded(None, Some(MoveRequest(taskId, overId)))
      else DragEnded(None, None)
  }

  /** The task the overlay shows and the column a drop is measured from
      come from the same entry. */
  lemma DragStartAndEndAgree(overlay: Option<Task>, buckets: seq<DateBucket>, taskId: string)
    requires exists i :: 0 <= i < |buckets| && Holds(buckets[i], taskId)
    ensures var k := Holder(buckets, taskId);
            0 <= k && HandleDragStart(overlay, buckets, taskId).value in buckets[k].tasks
            && CurrentDate(buckets, taskId) == buckets[k].date
  {
    var k := Holder(buckets, taskId);
    var found := Find(buckets[k].tasks, TaskId, taskId);
    assert found.value == buckets[k].tasks[IndexOf(buckets[k].tasks, TaskId, taskId)];
  }

  /** When a task is listed under exactly one date, dropping it on a column
      moves it exactly when the column is displayed and is another date. */
  lemma {:induction false} MovesIffOtherColumn(dates: seq<string>, buckets: seq<DateBucket>, k: nat, taskId: string, d: string)
    requires k < |buckets| && Holds(buckets[k], taskId)
    requires forall j :: 0 <= j < |buckets| && j != k ==> !Holds(buckets[j], taskId)
    ensures HandleDragEnd(dates, buckets, taskId, Some(d)).move.Some? <==> d in dates && d != buckets[k].date
  {
    var h := Holder(buckets, taskId);
    assert h == k;
  }

  /** `tasksByDate[dateStr] || []`: the tasks of the entry with that date,
      or none. */
  function ColumnTasks(buckets: seq<DateBucket>, date: string): (r: seq<Task>)
    ensures (forall i :: 0 <= i < |buckets| ==> buckets[i].date != date) ==> r == []
    ensures (exists i :: 0 <= i < |buckets| && buckets[i].date == date) ==>
              exists i :: 0 <= i < |buckets| && buckets[i].date == date && r == buckets[i].tasks
  {
    match FirstWhere(buckets, (b: DateBucket) => b.date == date)
    case Some(b) => b.tasks
    case None => []
  }

  /** The columns: one per displayed date, in the order given. */
  function Columns(dates: seq<string>, buckets: seq<DateBucket>): (r: seq<DateBucket>)
    ensures |r| == |dates|
    ensures forall i :: 0 <= i < |dates| ==> r[i].date == dates[i] && r[i].tasks == ColumnTasks(buckets, dates[i])
  {
    Map(dates, (d: string) => DateBucket(d, ColumnTasks(buckets, d)))
  }

  /** With one entry per date, the column a dragged task is measured from
      lists the task. */
  lemma {:induction false} MovedTaskComesFromItsColumn(buckets: seq<DateBucket>, taskId: string)
    requires forall i, j :: 0 <= i < j < |buckets| ==> buckets[i].date != buckets[j].date
    requires exists i :: 0 <= i < |buckets| && Holds(buckets[i], taskId)
    ensures IndexOf(ColumnTasks(buckets, CurrentDate(buckets, taskId)), TaskId, taskId) >= 0
  {
    var k := Holder(buckets, taskId);
    var c := CurrentDate(buckets, taskId);
    assert c == buckets[k].date;
    var col := ColumnTasks(buckets, c);
    var i :| 0 <= i < |buckets| && buckets[i].date == c && col == buckets[i].tasks;
    assert i == k;
  }
}
