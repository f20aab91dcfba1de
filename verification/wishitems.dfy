/** The entries of one wishlist (lib/hooks/useWishItems.ts): their ordering,
    the state changes of fetch, create, update, delete, toggle and reorder,
    and the conversion of an entry into a task. Backend calls that return
    rows are `Reply` parameters, the others success flags; the signed-in
    user is an `Option`. */
module WishItems {
  import opened Common
  import opened Sorting
  import opened Types

  /** The comparator of `sortWishItems` as a key: open entries first, then
      the manual position. */
  function WishItemKey(i: WishItem): Key
  {
    Key(if i.isCompleted then 1 else 0, i.sortOrder, 0)
  }

  /** `sortWishItems`: a sorted copy. */
  function SortWishItems(items: seq<WishItem>): (r: seq<WishItem>)
    ensures multiset(r) == multiset(items)
    ensures forall i, j :: 0 <= i < j < |r| && r[i].isCompleted ==> r[j].isCompleted
    ensures forall i, j :: 0 <= i < j < |r| && r[i].isCompleted == r[j].isCompleted
              ==> r[i].sortOrder <= r[j].sortOrder
  {
    var r := SortBy(items, WishItemKey);
    assert forall i, j :: 0 <= i < j < |r| ==> KeyLe(WishItemKey(r[i]), WishItemKey(r[j]));
    r
  }

  /** Entries with the same completion and position keep their input order. */
  lemma SortWishItemsStable(items: seq<WishItem>, k: Key)
    ensures Filter(SortWishItems(items), ClassOf(WishItemKey, k)) == Filter(items, ClassOf(WishItemKey, k))
  {
    SortByStable(items, WishItemKey, k);
  }

  lemma SortWishItemsIdempotent(items: seq<WishItem>)
    ensures SortWishItems(SortWishItems(items)) == SortWishItems(items)
  {
    SortByIdempotent(items, WishItemKey);
  }

  /** `fetchWishItems`: no list selected (null or the empty string) or an
      error gives the empty list; otherwise the list's rows, sorted. */
  function FetchWishItems(listId: Option<string>, reply: Reply<seq<WishItem>>): (r: seq<WishItem>)
    ensures OrNull(listId).None? ==> r == []
    ensures reply.Failed? ==> r == []
    ensures OrNull(listId).Some? && reply.Ok? ==> multiset(r) == multiset(reply.value) && Sorted(r, WishItemKey)
  {
    if OrNull(listId).None? then []
    else
      match reply
      case Ok(rows) => SortWishItems(rows)
      case Failed => []
  }

  /** `CreateWishItemInput`. */
  datatype CreateWishItemInput = CreateWishItemInput(wishListId: string, title: string, reason: Option<string>)

  /** The row `createWishItem` inserts. */
  datatype WishItemInsert = WishItemInsert(
    userId: string,
    wishListId: string,
    title: string,
    reason: Option<string>,
    isCompleted: bool,
    sortOrder: int)

  /** What a create sends, the entries afterwards, and the value returned. */
  datatype ItemCreated = ItemCreated(request: Option<WishItemInsert>, items: seq<WishItem>, result: Option<WishItem>)

  /** An entry's stored position. */
  function ItemPosition(x: WishItem): int
  {
    x.sortOrder
  }

  /** `createWishItem`: a new open entry placed after every current
      position (0 in an empty list), with an empty reason stored as null.
      The stored row joins the entries, which are sorted again. */
  function CreateWishItem(prev: seq<WishItem>, input: CreateWishItemInput, user: Option<string>, reply: Reply<WishItem>): (r: ItemCreated)
    ensures user.None? <==> r.request.None?
    ensures r.request.Some? ==>
              var q := r.request.value;
              q.userId == user.value && q.wishListId == input.wishListId && q.title == input.title
              && q.reason == OrNull(input.reason) && !q.isCompleted
              && (forall i :: 0 <= i < |prev| ==> prev[i].sortOrder < q.sortOrder)
              && (|prev| == 0 ==> q.sortOrder == 0)
              && (|prev| > 0 ==> exists i :: 0 <= i < |prev| && prev[i].sortOrder == q.sortOrder - 1)
    ensures user.None? || reply.Failed? ==> r.items == prev && r.result.None?
    ensures user.Some? && reply.Ok? ==>
              multiset(r.items) == multiset(prev) + multiset{reply.value} && Sorted(r.items, WishItemKey)
              && r.result == Some(reply.value)
  {
    match user
    case None => ItemCreated(None, prev, None)
    case Some(uid) =>
      var orders := Map(prev, ItemPosition);
      var next := NextSortOrder(orders);
      assert |prev| > 0 ==> next - 1 in orders;
      var request := WishItemInsert(uid, input.wishListId, input.title, OrNull(input.reason), false, next);
      match reply
      case Ok(row) => ItemCreated(Some(request), SortWishItems(prev + [row]), Some(row))
      case Failed => ItemCreated(Some(request), prev, None)
  }

  /** When the backend stores the request as sent, the new entry comes
      after every open entry that was already in the list. */
  lemma CreatedItemFollowsOpenItems(prev: seq<WishItem>, input: CreateWishItemInput, user: Option<string>, row: WishItem)
    requires user.Some?
    requires var q := CreateWishItem(prev, input, user, Ok(row)).request.value;
             !row.isCompleted && row.sortOrder == q.sortOrder
    ensures var items := CreateWishItem(prev, input, user, Ok(row)).items;
            forall i, j :: (0 <= i < |items| && 0 <= j < |items| && items[j] == row
                            && items[i] in prev && !items[i].isCompleted) ==> i < j
  {
    var orders := Map(prev, ItemPosition);
    var next := NextSortOrder(orders);
    var items := SortWishItems(prev + [row]);
    assert CreateWishItem(prev, input, user, Ok(row)).items == items;
    assert row.sortOrder == next;
    assert Sorted(items, WishItemKey);
    forall i, j | 0 <= i < |items| && 0 <= j < |items| && items[j] == row
        && items[i] in prev && !items[i].isCompleted
      ensures i < j
    {
      var m :| 0 <= m < |prev| && prev[m] == items[i];
      assert orders[m] < next;
      assert WishItemKey(items[i]).middle < WishItemKey(items[j]).middle;
      assert !KeyLe(WishItemKey(items[j]), WishItemKey(items[i]));
    }
  }

  /** `updateWishItem`: the returned row replaces the entries with that id,
      and the entries are sorted again. */
  function UpdateWishItem(prev: seq<WishItem>, id: string, reply: Reply<WishItem>): (r: seq<WishItem>)
    ensures reply.Failed? ==> r == prev
    ensures reply.Ok? ==> multiset(r) == multiset(ReplaceById(prev, WishItemId, id, reply.value))
    ensures reply.Ok? ==> Sorted(r, WishItemKey)
  {
    match reply
    case Ok(row) => SortWishItems(ReplaceById(prev, WishItemId, id, row))
    case Failed => prev
  }

  /** `deleteWishItem`: on success exactly the entries with that id leave,
      the others keep their order. The boolean is the value returned. */
  function DeleteWishItem(prev: seq<WishItem>, id: string, succeeded: bool): (r: (bool, seq<WishItem>))
    ensures r.0 == succeeded
    ensures !succeeded ==> r.1 == prev
    ensures succeeded ==> forall i :: 0 <= i < |r.1| ==> r.1[i].id != id
    ensures succeeded ==> forall x: WishItem :: x.id != id ==> multiset(r.1)[x] == multiset(prev)[x]
    ensures IsSubsequence(r.1, prev)
  {
    if succeeded then (true, RemoveById(prev, WishItemId, id))
    else
      SubsequenceOfItself(prev);
      (false, prev)
  }

  /** The patch `toggleComplete` writes: the completion to set and the
      time of the write. */
  datatype TogglePatch = TogglePatch(isCompleted: bool, updatedAt: int)

  /** The patch `toggleComplete` sends: the first entry with that id,
      negated; nothing for an id the entries do not hold. */
  function ToggleRequest(prev: seq<WishItem>, id: string, now: int): (r: Option<TogglePatch>)
    ensures r.None? <==> forall i :: 0 <= i < |prev| ==> prev[i].id != id
    ensures r.Some? ==> 0 <= IndexOf(prev, WishItemId, id)
                        && r.value == TogglePatch(!prev[IndexOf(prev, WishItemId, id)].isCompleted, now)
  {
    match Find(prev, WishItemId, id)
    case None => None
    case Some(item) => Some(TogglePatch(!item.isCompleted, now))
  }

  /** A stored entry with a toggle patch applied. */
  function ApplyToggle(item: WishItem, patch: TogglePatch): (r: WishItem)
    ensures r.isCompleted == patch.isCompleted && r.updatedAt == patch.updatedAt
    ensures r.(isCompleted := item.isCompleted, updatedAt := item.updatedAt) == item
  {
    item.(isCompleted := patch.isCompleted, updatedAt := patch.updatedAt)
  }

  /** `toggleComplete`: an unknown id or a failed write returns false and
      changes nothing; otherwise the returned row replaces the entry, the
      entries are sorted again, and true is returned. */
  function ToggleWishItem(prev: seq<WishItem>, id: string, now: int, reply: Reply<WishItem>): (r: (bool, seq<WishItem>))
    ensures r.0 <==> reply.Ok? && ToggleRequest(prev, id, now).Some?
    ensures !r.0 ==> r.1 == prev
    ensures r.0 ==> multiset(r.1) == multiset(ReplaceById(prev, WishItemId, id, reply.value)) && Sorted(r.1, WishItemKey)
  {
    match ToggleRequest(prev, id, now)
    case None => (false, prev)
    case Some(_) =>
      match reply
      case Ok(_) => (true, UpdateWishItem(prev, id, reply))
      case Failed => (false, prev)
  }

  /** When the backend returns the entry with the patch applied, toggling an
      entry whose id is unique flips its completion, changes no other entry,
      and leaves the entries sorted. */
  lemma ToggleFlipsOnlyThatEntry(prev: seq<WishItem>, i: nat, now: int, row: WishItem)
    requires i < |prev|
    requires forall j :: 0 <= j < |prev| && j != i ==> prev[j].id != prev[i].id
    requires row == ApplyToggle(prev[i], ToggleRequest(prev, prev[i].id, now).value)
    ensures ToggleWishItem(prev, prev[i].id, now, Ok(row)).0
    ensures multiset(ToggleWishItem(prev, prev[i].id, now, Ok(row)).1)
         == multiset(prev[..i] + [prev[i].(isCompleted := !prev[i].isCompleted, updatedAt := now)] + prev[i + 1..])
    ensures Sorted(ToggleWishItem(prev, prev[i].id, now, Ok(row)).1, WishItemKey)
  {
    var k := IndexOf(prev, WishItemId, prev[i].id);
    assert prev[k].id == prev[i].id;
    assert k == i;
    assert row == prev[i].(isCompleted := !prev[i].isCompleted, updatedAt := now);
    ReplaceUniqueId(prev, WishItemId, i, row);
  }

  /** Toggling twice restores the entry, apart from the timestamp. */
  lemma ToggleTwiceRestores(item: WishItem, now1: int, now2: int)
    ensures var once := ApplyToggle(item, TogglePatch(!item.isCompleted, now1));
            ApplyToggle(once, TogglePatch(!once.isCompleted, now2)) == item.(updatedAt := now2)
  {
  }

  /** The outcome of `reorderWishItems`: the entries shown (the dragged
      order, set before any write), the position updates the loop wrote, and
      the value returned. A failed write also triggers a re-fetch. */
  datatype ReorderResult = ReorderResult(items: seq<WishItem>, written: seq<PositionUpdate<string>>, ok: bool)

  /** `reorderWishItems`: entry `i` of the dragged order gets position `i`;
      the writes go out one at a time and stop at the first rejected one. */
  method ReorderWishItems(reordered: seq<WishItem>, rejects: PositionUpdate<string> -> bool)
    returns (r: ReorderResult)
    ensures r.items == reordered
    ensures |r.written| <= |reordered|
    ensures forall i :: 0 <= i < |r.written| ==> r.written[i] == PositionUpdate(reordered[i].id, i) && !rejects(r.written[i])
    ensures r.ok <==> |r.written| == |reordered|
    ensures !r.ok ==> rejects(PositionUpdate(reordered[|r.written|].id, |r.written|))
  {
    var written, ok := WritePositions(reordered, WishItemId, rejects);
    r := ReorderResult(reordered, written, ok);
  }

  /** An entry once its position write went through. */
  function ItemAt(x: WishItem, position: int): WishItem
  {
    x.(sortOrder := position)
  }

  /** A reorder that keeps open entries before completed ones survives a
      re-fetch: sorting the stored positions gives back the dragged order. */
  lemma ReorderSurvivesRefetch(reordered: seq<WishItem>)
    requires forall i, j :: 0 <= i < j < |reordered| && reordered[i].isCompleted ==> reordered[j].isCompleted
    ensures SortWishItems(WithPositions(reordered, ItemAt)) == WithPositions(reordered, ItemAt)
  {
    var stored := WithPositions(reordered, ItemAt);
    forall i, j | 0 <= i < j < |stored| ensures KeyLe(WishItemKey(stored[i]), WishItemKey(stored[j])) {
      assert stored[i].sortOrder == i && stored[j].sortOrder == j;
    }
    SortBySortedIsIdentity(stored, WishItemKey);
  }

  /** The task row `convertToTask` inserts. */
  datatype TaskFromWish = TaskFromWish(
    userId: string,
    title: string,
    memo: Option<string>,
    priority: Priority,
    categoryId: Option<string>,
    taskDate: string,
    isCompleted: bool,
    sortOrder: int)

  /** The insert `convertToTask` sends: nothing without a signed-in user or
      for an unknown entry; otherwise an open task at position 0 carrying
      the entry's title, its reason as the memo, and the chosen day,
      priority and category (an empty category becomes null). */
  function ConvertRequest(items: seq<WishItem>, itemId: string, taskDate: string, priority: Priority,
                          categoryId: Option<string>, user: Option<string>): (r: Option<TaskFromWish>)
    ensures r.None? <==> user.None? || forall i :: 0 <= i < |items| ==> items[i].id != itemId
    ensures r.Some? ==> 0 <= IndexOf(items, WishItemId, itemId)
                        && var item := items[IndexOf(items, WishItemId, itemId)];
                           r.value == TaskFromWish(user.value, item.title, item.reason, priority,
                                                   OrNull(categoryId), taskDate, false, 0)
  {
    match user
    case None => None
    case Some(uid) =>
      match Find(items, WishItemId, itemId)
      case None => None
      case Some(item) =>
        Some(TaskFromWish(uid, item.title, item.reason, priority, OrNull(categoryId), taskDate, false, 0))
  }

  /** `convertToTask` returns true exactly when the insert was sent and
      succeeded; the wishlist entry itself is left in place. */
  function ConvertToTask(items: seq<WishItem>, itemId: string, taskDate: string, priority: Priority,
                         categoryId: Option<string>, user: Option<string>, succeeded: bool): (r: (bool, seq<WishItem>))
    ensures r.0 <==> succeeded && user.Some? && exists i :: 0 <= i < |items| && items[i].id == itemId
    ensures r.1 == items
  {
    (ConvertRequest(items, itemId, taskDate, priority, categoryId, user).Some? && succeeded, items)
  }

  /** An entry created through the form and then converted gives a task
      whose memo is the reason typed, or null when none was. */
  lemma ConvertedMemoIsCreatedReason(input: CreateWishItemInput, uid: string, item: WishItem,
                                     taskDate: string, priority: Priority, categoryId: Option<string>)
    requires item.reason == CreateWishItem([], input, Some(uid), Ok(item)).request.value.reason
    ensures ConvertRequest([item], item.id, taskDate, priority, categoryId, Some(uid)).value.memo
         == OrNull(input.reason)
    ensures ConvertRequest([item], item.id, taskDate, priority, categoryId, Some(uid)).value.memo != Some("")
  {
  }
}
