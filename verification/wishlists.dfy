/** The user's wishlists (lib/hooks/useWishLists.ts): fetch, create,
    rename, delete (never the default list) and reorder. The backend returns
    the lists ordered by `sort_order`; the hook keeps whatever order it is
    given. */
module WishLists {
  import opened Common
  import opened Sorting
  import opened Types

  /** The server-side order of the fetch: by position. */
  function PositionKey(l: WishList): Key
  {
    Key(l.sortOrder, 0, 0)
  }

  predicate IsDefaultList(l: WishList)
  {
    l.isDefault
  }

  predicate IsRegularList(l: WishList)
  {
    !l.isDefault
  }

  /** `fetchWishLists`: the rows as returned; an error empties the state. */
  function FetchWishLists(reply: Reply<seq<WishList>>): (r: seq<WishList>)
    ensures reply.Failed? ==> r == []
    ensures reply.Ok? ==> r == reply.value
  {
    match reply
    case Ok(rows) => rows
    case Failed => []
  }

  /** The row `createWishList` inserts. */
  datatype WishListInsert = WishListInsert(userId: string, title: string, isDefault: bool, sortOrder: int)

  datatype ListCreated = ListCreated(request: Option<WishListInsert>, lists: seq<WishList>, result: Option<WishList>)

  /** A list's stored position. */
  function ListPosition(x: WishList): int
  {
    x.sortOrder
  }

  /** `createWishList`: a new, non-default list positioned after every
      existing one (0 when there is none); the stored row is appended. */
  function CreateWishList(prev: seq<WishList>, title: string, user: Option<string>, reply: Reply<WishList>): (r: ListCreated)
    ensures user.None? <==> r.request.None?
    ensures r.request.Some? ==>
              var q := r.request.value;
              q.userId == user.value && q.title == title && !q.isDefault
              && (forall i :: 0 <= i < |prev| ==> prev[i].sortOrder < q.sortOrder)
              && (|prev| == 0 ==> q.sortOrder == 0)
              && (|prev| > 0 ==> exists i :: 0 <= i < |prev| && prev[i].sortOrder == q.sortOrder - 1)
    ensures user.None? || reply.Failed? ==> r.lists == prev && r.result.None?
    ensures user.Some? && reply.Ok? ==>
              |r.lists| == |prev| + 1 && r.lists[..|prev|] == prev && r.lists[|prev|] == reply.value
              && r.result == Some(reply.value)
  {
    match user
    case None => ListCreated(None, prev, None)
    case Some(uid) =>
      var request := WishListInsert(uid, title, false, NextSortOrder(Map(prev, ListPosition)));
      match reply
      case Ok(row) => ListCreated(Some(request), prev + [row], Some(row))
      case Failed => ListCreated(Some(request), prev, None)
  }

  /** When the backend stores the request as sent, creating keeps the lists
      in position order (so the state agrees with a re-fetch) and adds no
      default list. */
  lemma CreateKeepsOrderAndDefaults(prev: seq<WishList>, title: string, uid: string, row: WishList)
    requires Sorted(prev, PositionKey)
    requires var q := CreateWishList(prev, title, Some(uid), Ok(row)).request.value;
             row.sortOrder == q.sortOrder && row.isDefault == q.isDefault
    ensures Sorted(CreateWishList(prev, title, Some(uid), Ok(row)).lists, PositionKey)
    ensures |Filter(CreateWishList(prev, title, Some(uid), Ok(row)).lists, IsDefaultList)| == |Filter(prev, IsDefaultList)|
  {
    var lists := prev + [row];
    assert CreateWishList(prev, title, Some(uid), Ok(row)).lists == lists;
    var next := NextSortOrder(Map(prev, ListPosition));
    forall i, j | 0 <= i < j < |lists| ensures KeyLe(PositionKey(lists[i]), PositionKey(lists[j])) {
      if j == |prev| {
        assert Map(prev, ListPosition)[i] < next;
      }
    }
    FilterConcat(prev, [row], IsDefaultList);
    assert [row][1..] == [];
  }

  /** `updateWishList`: the returned row takes the place of the lists with
      that id; nothing moves. */
  function UpdateWishList(prev: seq<WishList>, id: string, reply: Reply<WishList>): (r: seq<WishList>)
    ensures reply.Failed? ==> r == prev
    ensures |r| == |prev|
    ensures reply.Ok? ==> forall i :: 0 <= i < |prev| ==> r[i] == if prev[i].id == id then reply.value else prev[i]
  {
    match reply
    case Ok(row) => ReplaceById(prev, WishListId, id, row)
    case Failed => prev
  }

  /** What `deleteWishList` did: whether a delete was sent, the value
      returned, and the lists afterwards. */
  datatype ListDeleted = ListDeleted(requested: bool, ok: bool, lists: seq<WishList>)

  /** `deleteWishList`: the first list with that id being the default one
      stops the delete before it is sent; an unknown id is still sent. */
  function DeleteWishList(prev: seq<WishList>, id: string, succeeded: bool): (r: ListDeleted)
    ensures r.requested <==> IndexOf(prev, WishListId, id) < 0 || !prev[IndexOf(prev, WishListId, id)].isDefault
    ensures r.ok <==> r.requested && succeeded
    ensures !r.ok ==> r.lists == prev
    ensures r.ok ==> forall i :: 0 <= i < |r.lists| ==> r.lists[i].id != id
    ensures r.ok ==> forall x: WishList :: x.id != id ==> multiset(r.lists)[x] == multiset(prev)[x]
    ensures r.ok ==> IsSubsequence(r.lists, prev)
  {
    var found := Find(prev, WishListId, id);
    if found.Some? && found.value.isDefault then ListDeleted(false, false, prev)
    else if succeeded then ListDeleted(true, true, RemoveById(prev, WishListId, id))
    else ListDeleted(true, false, prev)
  }

  /** With ids unique, no delete ever removes a default list. */
  lemma DeleteKeepsDefaultLists(prev: seq<WishList>, id: string, succeeded: bool)
    requires forall i, j :: 0 <= i < j < |prev| ==> prev[i].id != prev[j].id
    ensures forall x :: x in prev && x.isDefault ==> x in DeleteWishList(prev, id, succeeded).lists
  {
    var r := DeleteWishList(prev, id, succeeded);
    forall x | x in prev && x.isDefault ensures x in r.lists {
      var m :| 0 <= m < |prev| && prev[m] == x;
      if x.id == id {
        assert IndexOf(prev, WishListId, id) == m;
        assert !r.requested;
      }
      assert multiset(prev)[x] > 0;
    }
  }

  datatype ListsReordered = ListsReordered(lists: seq<WishList>, written: seq<PositionUpdate<string>>, ok: bool)

  /** `reorderWishLists`: the dragged order is shown at once; list `i` gets
      position `i`, written one at a time until the first rejection (which
      also triggers a re-fetch). */
  method ReorderWishLists(reordered: seq<WishList>, rejects: PositionUpdate<string> -> bool)
    returns (r: ListsReordered)
    ensures r.lists == reordered
    ensures |r.written| <= |reordered|
    ensures forall i :: 0 <= i < |r.written| ==> r.written[i] == PositionUpdate(reordered[i].id, i) && !rejects(r.written[i])
    ensures r.ok <==> |r.written| == |reordered|
    ensures !r.ok ==> rejects(PositionUpdate(reordered[|r.written|].id, |r.written|))
  {
    var written, ok := WritePositions(reordered, WishListId, rejects);
    r := ListsReordered(reordered, written, ok);
  }

  /** A list once its position write went through. */
  function ListAt(x: WishList, position: int): WishList
  {
    x.(sortOrder := position)
  }

  /** After a complete reorder the stored positions list the lists in the
      dragged order, so a re-fetch shows the same order. */
  lemma ReorderedPositionsAreSorted(reordered: seq<WishList>)
    ensures Sorted(WithPositions(reordered, ListAt), PositionKey)
    ensures SortBy(WithPositions(reordered, ListAt), PositionKey) == WithPositions(reordered, ListAt)
  {
    var stored := WithPositions(reordered, ListAt);
    forall i, j | 0 <= i < j < |stored| ensures KeyLe(PositionKey(stored[i]), PositionKey(stored[j])) {
      assert stored[i].sortOrder == i && stored[j].sortOrder == j;
    }
    SortBySortedIsIdentity(stored, PositionKey);
  }
}
