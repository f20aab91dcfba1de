/** The user's task categories (lib/hooks/useCategories.ts): fetch, add,
    rename and delete. Unlike the wishlist hooks, a failed fetch keeps the
    categories already shown. */
module Categories {
  import opened Common
  import opened Sorting
  import opened Types

  /** The server-side order of the fetch: by position. */
  function CategoryKey(c: Category): Key
  {
    Key(c.sortOrder, 0, 0)
  }

  /** `fetchCategories`: the rows as returned; an error keeps the state. */
  function FetchCategories(prev: seq<Category>, reply: Reply<seq<Category>>): (r: seq<Category>)
    ensures reply.Failed? ==> r == prev
    ensures reply.Ok? ==> r == reply.value
  {
    match reply
    case Ok(rows) => rows
    case Failed => prev
  }

  /** The row `addCategory` inserts. */
  datatype CategoryInsert = CategoryInsert(name: string, userId: string, sortOrder: int, isDefault: bool)

  datatype CategoryAdded = CategoryAdded(request: Option<CategoryInsert>, categories: seq<Category>, result: Option<Category>)

  /** A category's stored position. */
  function CategoryPosition(x: Category): int
  {
    x.sortOrder
  }

  /** `addCategory`: a non-default category positioned after every
      existing one (0 when there is none); the stored row is appended. */
  function AddCategory(prev: seq<Category>, name: string, user: Option<string>, reply: Reply<Category>): (r: CategoryAdded)
    ensures user.None? <==> r.request.None?
    ensures r.request.Some? ==>
              var q := r.request.value;
              q.userId == user.value && q.name == name && !q.isDefault
              && (forall i :: 0 <= i < |prev| ==> prev[i].sortOrder < q.sortOrder)
              && (|prev| == 0 ==> q.sortOrder == 0)
              && (|prev| > 0 ==> exists i :: 0 <= i < |prev| && prev[i].sortOrder == q.sortOrder - 1)
    ensures user.None? || reply.Failed? ==> r.categories == prev && r.result.None?
    ensures user.Some? && reply.Ok? ==>
              |r.categories| == |prev| + 1 && r.categories[..|prev|] == prev && r.categories[|prev|] == reply.value
              && r.result == Some(reply.value)
  {
    match user
    case None => CategoryAdded(None, prev, None)
    case Some(uid) =>
      var request := CategoryInsert(name, uid, NextSortOrder(Map(prev, CategoryPosition)), false);
      match reply
      case Ok(row) => CategoryAdded(Some(request), prev + [row], Some(row))
      case Failed => CategoryAdded(Some(request), prev, None)
  }

  /** When the backend stores the requested position, adding keeps the
      categories in position order, so the state agrees with a re-fetch. */
  lemma AddKeepsPositionOrder(prev: seq<Category>, name: string, uid: string, row: Category)
    requires Sorted(prev, CategoryKey)
    requires row.sortOrder == AddCategory(prev, name, Some(uid), Ok(row)).request.value.sortOrder
    ensures Sorted(AddCategory(prev, name, Some(uid), Ok(row)).categories, CategoryKey)
  {
    var cs := prev + [row];
    assert AddCategory(prev, name, Some(uid), Ok(row)).categories == cs;
    var next := NextSortOrder(Map(prev, CategoryPosition));
    forall i, j | 0 <= i < j < |cs| ensures KeyLe(CategoryKey(cs[i]), CategoryKey(cs[j])) {
      if j == |prev| {
        assert Map(prev, CategoryPosition)[i] < next;
      }
    }
  }

  /** The patch `updateCategory` sends: only the name and the time. */
  datatype CategoryPatch = CategoryPatch(name: string, updatedAt: int)

  /** The row the backend returns for the patch. */
  function ApplyCategoryPatch(c: Category, patch: CategoryPatch): (r: Category)
    ensures r.name == patch.name && r.updatedAt == patch.updatedAt
    ensures r.(name := c.name, updatedAt := c.updatedAt) == c
  {
    c.(name := patch.name, updatedAt := patch.updatedAt)
  }

  /** `updateCategory`: the returned row takes the place of the categories
      with that id; nothing moves. */
  function UpdateCategory(prev: seq<Category>, id: string, reply: Reply<Category>): (r: seq<Category>)
    ensures reply.Failed? ==> r == prev
    ensures |r| == |prev|
    ensures reply.Ok? ==> forall i :: 0 <= i < |prev| ==> r[i] == if prev[i].id == id then reply.value else prev[i]
  {
    match reply
    case Ok(row) => ReplaceById(prev, CategoryId, id, row)
    case Failed => prev
  }

  /** Renaming a category whose id is unique changes its name and nothing
      else in the list. */
  lemma RenameChangesOnlyThatCategory(prev: seq<Category>, k: nat, name: string, now: int)
    requires k < |prev|
    requires forall j :: 0 <= j < |prev| && j != k ==> prev[j].id != prev[k].id
    ensures var r := UpdateCategory(prev, prev[k].id, Ok(ApplyCategoryPatch(prev[k], CategoryPatch(name, now))));
            r[k].name == name && r[k].id == prev[k].id && r[k].sortOrder == prev[k].sortOrder
            && forall j :: 0 <= j < |prev| && j != k ==> r[j] == prev[j]
  {
  }

  /** `deleteCategory`: on success exactly the categories with that id
      leave, the others keep their order. The boolean is the value
      returned. */
  function DeleteCategory(prev: seq<Category>, id: string, succeeded: bool): (r: (bool, seq<Category>))
    ensures r.0 == succeeded
    ensures !succeeded ==> r.1 == prev
    ensures succeeded ==> forall i :: 0 <= i < |r.1| ==> r.1[i].id != id
    ensures succeeded ==> forall x: Category :: x.id != id ==> multiset(r.1)[x] == multiset(prev)[x]
    ensures IsSubsequence(r.1, prev)
  {
    if succeeded then (true, RemoveById(prev, CategoryId, id))
    else
      SubsequenceOfItself(prev);
      (false, prev)
  }
}
