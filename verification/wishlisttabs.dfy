/** The row of wishlist tabs (components/wishlist/WishListTabs.tsx): the
    order the tabs are shown in, and the reorder a drag produces. The
    default list cannot be dragged and is kept first. */
module WishListTabs {
  import opened Common
  import opened Sorting
  import opened Types
  import opened WishLists

  /** The comparator of `sortedLists` as a key: the default list first,
      then by position. */
  function TabKey(l: WishList): Key
  {
    Key(if l.isDefault then 0 else 1, l.sortOrder, 0)
  }

  /** `sortedLists`: the tabs in display order. */
  function SortedLists(lists: seq<WishList>): (r: seq<WishList>)
    ensures multiset(r) == multiset(lists)
    ensures forall i, j :: 0 <= i < j < |r| && r[j].isDefault ==> r[i].isDefault
    ensures forall i, j :: 0 <= i < j < |r| && !r[i].isDefault && !r[j].isDefault ==> r[i].sortOrder <= r[j].sortOrder
  {
    var r := SortBy(lists, TabKey);
    assert forall i, j :: 0 <= i < j < |r| ==> KeyLe(TabKey(r[i]), TabKey(r[j]));
    r
  }

  /** With a default list among them, the first tab is a default list. */
  lemma DefaultTabFirst(lists: seq<WishList>, k: nat)
    requires k < |lists| && lists[k].isDefault
    ensures |SortedLists(lists)| > 0 && SortedLists(lists)[0].isDefault
  {
    var r := SortedLists(lists);
    assert lists[k] in multiset(r);
    var m :| 0 <= m < |r| && r[m] == lists[k];
    assert m == 0 || r[0].isDefault;
  }

  /** `handleDragEnd`: nothing without a target or onto itself. With a
      default list the non-default lists are moved among themselves and the
      first default list is put in front; without one, the lists are moved
      in the order they were passed in. An id not found leaves the outcome
      to the drag-and-drop library. */
  function HandleDragEnd(lists: seq<WishList>, active: string, over: Option<string>): (r: DragOutcome<WishList>)
    ensures r.Ignored? <==> over.None? || over.value == active
    ensures FirstWhere(lists, IsDefaultList).Some? ==>
              var regular := Filter(lists, IsRegularList);
              (r.Reordered? <==> !r.Ignored? && 0 <= IndexOf(regular, WishListId, active) && 0 <= IndexOf(regular, WishListId, over.value))
              && (r.Reordered? ==> |r.order| > 0 && r.order[0] == FirstWhere(lists, IsDefaultList).value
                                   && multiset(r.order[1..]) == multiset(regular)
                                   && r.order[1..] == ArrayMove(regular, IndexOf(regular, WishListId, active), IndexOf(regular, WishListId, over.value)))
    ensures FirstWhere(lists, IsDefaultList).None? ==>
              (r.Reordered? <==> !r.Ignored? && 0 <= IndexOf(lists, WishListId, active) && 0 <= IndexOf(lists, WishListId, over.value))
              && (r.Reordered? ==> multiset(r.order) == multiset(lists)
                                   && r.order == ArrayMove(lists, IndexOf(lists, WishListId, active), IndexOf(lists, WishListId, over.value)))
  {
    if over.None? || over.value == active then Ignored
    else
      match FirstWhere(lists, IsDefaultList)
      case Some(d) =>
        var inner := MoveById(Filter(lists, IsRegularList), WishListId, active, over);
        if inner.Reordered? then
          assert ([d] + inner.order)[1..] == inner.order;
          Reordered([d] + inner.order)
        else inner
      case None => MoveById(lists, WishListId, active, over)
  }

  /** Putting the only default list in front of a permutation of the other
      lists is a permutation of all of them. */
  lemma {:induction false} PinnedIsPermutation(lists: seq<WishList>, d: WishList, rest: seq<WishList>)
    requires Filter(lists, IsDefaultList) == [d]
    requires multiset(rest) == multiset(Filter(lists, IsRegularList))
    ensures multiset([d] + rest) == multiset(lists)
    ensures forall i :: 0 <= i < |rest| ==> !rest[i].isDefault
  {
    FilterSplit(lists, IsDefaultList, IsRegularList);
    forall i | 0 <= i < |rest| ensures !rest[i].isDefault {
      assert rest[i] in multiset(rest);
      FilterMember(lists, IsRegularList, rest[i]);
    }
  }

  /** With exactly one default list, it is the one found first. */
  lemma {:induction false} OnlyDefaultIsFirst(lists: seq<WishList>)
    requires |Filter(lists, IsDefaultList)| == 1
    ensures FirstWhere(lists, IsDefaultList).Some?
    ensures Filter(lists, IsDefaultList) == [FirstWhere(lists, IsDefaultList).value]
  {
    var defaults := Filter(lists, IsDefaultList);
    FilterMember(lists, IsDefaultList, defaults[0]);
    var d := FirstWhere(lists, IsDefaultList).value;
    FilterMember(lists, IsDefaultList, d);
    assert d in defaults;
    assert defaults == [defaults[0]];
  }

  /** With exactly one default list, a drag is a permutation of the lists
      that keeps the default list first and every other list after it. */
  lemma {:induction false} DragKeepsDefaultPinned(lists: seq<WishList>, active: string, over: Option<string>)
    requires |Filter(lists, IsDefaultList)| == 1
    requires HandleDragEnd(lists, active, over).Reordered?
    ensures var order := HandleDragEnd(lists, active, over).order;
            multiset(order) == multiset(lists) && |order| > 0 && order[0].isDefault
            && forall i :: 0 < i < |order| ==> !order[i].isDefault
  {
    OnlyDefaultIsFirst(lists);
    var d := FirstWhere(lists, IsDefaultList).value;
    var order := HandleDragEnd(lists, active, over).order;
    var rest := order[1..];
    assert order == [d] + rest;
    PinnedIsPermutation(lists, d, rest);
    forall i | 0 < i < |order| ensures !order[i].isDefault {
      assert order[i] == rest[i - 1];
    }
  }

  /** Once a reorder that keeps the default list first has been written,
      the tabs show exactly the dragged order. */
  lemma TabsShowPersistedOrder(order: seq<WishList>)
    requires forall i :: 0 < i < |order| ==> !order[i].isDefault
    ensures SortedLists(WithPositions(order, ListAt)) == WithPositions(order, ListAt)
  {
    var stored := WithPositions(order, ListAt);
    forall i, j | 0 <= i < j < |stored| ensures KeyLe(TabKey(stored[i]), TabKey(stored[j])) {
      assert stored[i].sortOrder == i && stored[j].sortOrder == j;
      assert !stored[j].isDefault;
    }
    SortBySortedIsIdentity(stored, TabKey);
  }
}
