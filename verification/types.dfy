/** The records the application stores and passes around (types/index.ts),
    plus the wishlist records the hooks use. Timestamps are integers here:
    the application only ever compares them. */
module Types {
  import opened Common

  /** `'high' | 'medium' | 'low'`. */
  datatype Priority = High | Medium | Low

  /** The string the backend stores for a priority. */
  function PriorityName(p: Priority): string
  {
    match p
    case High => "high"
    case Medium => "medium"
    case Low => "low"
  }

  /** Reading a stored priority back; anything else is not a `Priority`. */
  function ParsePriority(s: string): (r: Option<Priority>)
    ensures r.Some? ==> PriorityName(r.value) == s
    ensures (exists p :: PriorityName(p) == s) ==> r.Some?
  {
    if s == "high" then Some(High)
    else if s == "medium" then Some(Medium)
    else if s == "low" then Some(Low)
    else None
  }

  lemma PriorityNameRoundTrip(p: Priority)
    ensures ParsePriority(PriorityName(p)) == Some(p)
  {
  }

  /** The keys of `PRIORITY_CONFIG`, in declaration order. */
  const AllPriorities: seq<Priority> := [High, Medium, Low]

  datatype PriorityStyle = PriorityStyle(caption: string, color: string)

  /** `PRIORITY_CONFIG[p]`. */
  function PriorityConfig(p: Priority): (r: PriorityStyle)
    ensures |r.caption| == 1
  {
    match p
    case High => PriorityStyle("高", "red")
    case Medium => PriorityStyle("中", "amber")
    case Low => PriorityStyle("低", "green")
  }

  /** Every priority has exactly one `PRIORITY_CONFIG` entry, and no two
      priorities share a caption or a colour. */
  lemma PriorityConfigComplete()
    ensures forall p :: p in AllPriorities
    ensures |AllPriorities| == 3
    ensures forall i, j :: 0 <= i < j < |AllPriorities| ==>
              AllPriorities[i] != AllPriorities[j]
              && PriorityConfig(AllPriorities[i]).caption != PriorityConfig(AllPriorities[j]).caption
              && PriorityConfig(AllPriorities[i]).color != PriorityConfig(AllPriorities[j]).color
  {
    forall p: Priority ensures p in AllPriorities {
      assert p == AllPriorities[if p.High? then 0 else if p.Medium? then 1 else 2];
    }
  }

  datatype Category = Category(
    id: string,
    userId: string,
    name: string,
    color: string,
    sortOrder: int,
    createdAt: int,
    updatedAt: int)

  /** A task. `priority` is the stored string: the declared type narrows it
      to a `PriorityName`, but the ordering code copes with any string. */
  datatype Task = Task(
    id: string,
    userId: string,
    categoryId: Option<string>,
    routineId: Option<string>,
    title: string,
    memo: Option<string>,
    priority: string,
    isCompleted: bool,
    taskDate: string,
    sortOrder: int,
    createdAt: int,
    updatedAt: int)

  /** `CreateTaskInput`: optional fields are `None` when absent. */
  datatype CreateTaskInput = CreateTaskInput(
    title: string,
    memo: Option<Option<string>>,
    priority: Option<Priority>,
    categoryId: Option<Option<string>>,
    taskDate: string,
    routineId: Option<Option<string>>)

  /** `UpdateTaskInput`: every field optional, so an update is a partial
      patch; the nullable ones carry `Some(None)` for an explicit null. */
  datatype UpdateTaskInput = UpdateTaskInput(
    title: Option<string>,
    memo: Option<Option<string>>,
    priority: Option<Priority>,
    categoryId: Option<Option<string>>,
    taskDate: Option<string>,
    isCompleted: Option<bool>,
    sortOrder: Option<int>)

  const NoChanges := UpdateTaskInput(None, None, None, None, None, None, None)

  /** A routine; `daysOfWeek` is required here. */
  datatype Routine = Routine(
    id: string,
    userId: string,
    categoryId: Option<string>,
    title: string,
    memo: Option<string>,
    priority: Priority,
    hasTime: bool,
    time: Option<string>,
    daysOfWeek: seq<int>,
    isActive: bool,
    createdAt: int,
    updatedAt: int)

  /** `RoutineFormData`: `daysOfWeek` is optional here. */
  datatype RoutineFormData = RoutineFormData(
    title: string,
    memo: Option<string>,
    priority: Priority,
    categoryId: Option<string>,
    hasTime: bool,
    time: Option<string>,
    daysOfWeek: Option<seq<int>>)

  /** A wishlist, as the hooks read it. */
  datatype WishList = WishList(
    id: string,
    userId: string,
    title: string,
    isDefault: bool,
    sortOrder: int,
    createdAt: int,
    updatedAt: int)

  /** An entry of a wishlist, as the hooks read it. */
  datatype WishItem = WishItem(
    id: string,
    userId: string,
    wishListId: string,
    title: string,
    reason: Option<string>,
    isCompleted: bool,
    sortOrder: int,
    createdAt: int,
    updatedAt: int)

  function TaskId(t: Task): string { t.id }
  function CategoryId(c: Category): string { c.id }
  function RoutineId(r: Routine): string { r.id }
  function WishListId(l: WishList): string { l.id }
  function WishItemId(i: WishItem): string { i.id }
}
