/** The open wishlist's entries (components/wishlist/WishListContent.tsx):
    the search filter, the split into open and completed entries, and the
    reorder a drag produces. */
module WishListContent {
  import opened Common
  import opened Sorting
  import opened Types
  import opened WishItems

  /** Whether an entry matches the search: the lower-cased query (not
      trimmed) occurs in the lower-cased title, or in the lower-cased reason
      when there is a non-empty one. */
  predicate Matches(item: WishItem, query: string)
  {
    var q := ToLower(query);
    Contains(ToLower(item.title), q)
    || (item.reason.Some? && item.reason.value != "" && Contains(ToLower(item.reason.value), q))
  }

  function MatchesQuery(query: string): WishItem -> bool
  {
    item => Matches(item, query)
  }

  /** `filteredItems`: every entry for a blank query, otherwise the
      matching entries in their order. */
  function FilteredItems(items: seq<WishItem>, query: string): (r: seq<WishItem>)
    ensures IsBlank(query) ==> r == items
    ensures !IsBlank(query) ==> forall x :: multiset(r)[x] == if Matches(x, query) then multiset(items)[x] else 0
    ensures forall i :: 0 <= i < |r| ==> IsBlank(query) || Matches(r[i], query)
    ensures IsSubsequence(r, items)
  {
    if IsBlank(query) then
      SubsequenceOfItself(items);
      items
    else
      FilterCounts(items, MatchesQuery(query));
      FilterIsSubsequence(items, MatchesQuery(query));
      Filter(items, MatchesQuery(query))
  }

  /** The match is a substring search: the query occurs at some position of
      the title, or of a non-empty reason, ignoring case. */
  lemma MatchesIffOccurs(item: WishItem, query: string)
    ensures Matches(item, query) <==>
              (exists i :: OccursAt(ToLower(item.title), ToLower(query), i))
              || (item.reason.Some? && item.reason.value != ""
                  && exists i :: OccursAt(ToLower(item.reason.value), ToLower(query), i))
  {
    ContainsIffOccurs(ToLower(item.title), ToLower(query));
    if item.reason.Some? {
      ContainsIffOccurs(ToLower(item.reason.value), ToLower(query));
    }
  }

  /** Case does not matter, neither in the query nor in the entries. */
  lemma SearchIgnoresCase(items: seq<WishItem>, query: string)
    ensures FilteredItems(items, ToLower(query)) == FilteredItems(items, query)
    ensures forall item: WishItem :: Matches(item.(title := ToLower(item.title)), query) == Matches(item, query)
  {
    ToLowerKeepsBlank(query);
    ToLowerIdempotent(query);
    forall item: WishItem ensures Matches(item.(title := ToLower(item.title)), query) == Matches(item, query) {
      ToLowerIdempotent(item.title);
    }
    FilterAgree(items, MatchesQuery(ToLower(query)), MatchesQuery(query));
  }

  /** The query is not trimmed: with a space in front it is not blank, yet
      it no longer finds an entry whose title is exactly the rest. */
  lemma PaddedQueryIsNotTrimmed(item: WishItem, word: string)
    requires item.title == word && item.reason.None?
    requires |word| > 0 && !IsWhiteSpace(word[0])
    ensures !IsBlank(" " + word) && Matches(item, word) && !Matches(item, " " + word)
  {
    var padded := " " + word;
    NotBlankWithNonWhiteSpace(padded, 1);
    var lower := ToLower(word);
    assert IsPrefix(lower, lower);
    ContainsNeedsRoom(lower, ToLower(padded));
  }

  predicate IsOpenItem(i: WishItem)
  {
    !i.isCompleted
  }

  predicate IsDoneItem(i: WishItem)
  {
    i.isCompleted
  }

  /** The comparator `a.sort_order - b.sort_order` as a key. */
  function ItemPositionKey(i: WishItem): Key
  {
    Key(i.sortOrder, 0, 0)
  }

  /** The two sections shown: open entries and completed entries. */
  datatype Sections = Sections(active: seq<WishItem>, completed: seq<WishItem>)

  /** `activeItems` and `completedItems`: the shown entries split by
      completion, each part stably sorted by position. */
  function Partition(shown: seq<WishItem>): (r: Sections)
    ensures multiset(r.active) == multiset(Filter(shown, IsOpenItem))
    ensures multiset(r.completed) == multiset(Filter(shown, IsDoneItem))
    ensures forall i :: 0 <= i < |r.active| ==> !r.active[i].isCompleted
    ensures forall i :: 0 <= i < |r.completed| ==> r.completed[i].isCompleted
    ensures Sorted(r.active, ItemPositionKey) && Sorted(r.completed, ItemPositionKey)
  {
    var open, done := Filter(shown, IsOpenItem), Filter(shown, IsDoneItem);
    var active, completed := SortBy(open, ItemPositionKey), SortBy(done, ItemPositionKey);
    AllPassSameMultiset(active, open, IsOpenItem);
    AllPassSameMultiset(completed, done, IsDoneItem);
    Sections(active, completed)
  }

  /** The order on screen: open entries, then completed ones. */
  function Shown(items: seq<WishItem>, query: string): (r: seq<WishItem>)
    ensures multiset(r) == multiset(FilteredItems(items, query))
  {
    var filtered := FilteredItems(items, query);
    var s := Partition(filtered);
    FilterSplit(filtered, IsOpenItem, IsDoneItem);
    s.active + s.completed
  }

  /** An entry is in the hook's tie class `k` exactly when `k` is its
      completion, its position and 0. */
  lemma ItemClass(x: WishItem, k: Key)
    ensures ClassOf(WishItemKey, k)(x) <==>
              k.major == (if x.isCompleted then 1 else 0) && k.middle == x.sortOrder && k.minor == 0
    ensures ClassOf(ItemPositionKey, Key(k.middle, 0, 0))(x) <==> x.sortOrder == k.middle
  {
    assert ClassOf(WishItemKey, k)(x) == (WishItemKey(x) == k);
    assert ClassOf(ItemPositionKey, Key(k.middle, 0, 0))(x) == (ItemPositionKey(x) == Key(k.middle, 0, 0));
  }

  /** The entries of the hook's tie class `k` that lie in one section. */
  lemma NoneOfClass(xs: seq<WishItem>, k: Key, done: bool)
    requires forall i :: 0 <= i < |xs| ==> xs[i].isCompleted == done
    requires k.major != (if done then 1 else 0) || k.minor != 0
    ensures Filter(xs, ClassOf(WishItemKey, k)) == []
  {
    forall i | 0 <= i < |xs| ensures !ClassOf(WishItemKey, k)(xs[i]) {
      ItemClass(xs[i], k);
    }
    NothingPasses(xs, ClassOf(WishItemKey, k));
  }

  /** Within the entries of one completion state, the tie classes of the
      section's key are the tie classes of the hook's key. */
  lemma {:induction false} SectionClass(xs: seq<WishItem>, part: WishItem -> bool, done: bool, k: Key)
    requires forall x :: part(x) == (x.isCompleted == done)
    requires k.major == (if done then 1 else 0) && k.minor == 0
    ensures Filter(SortBy(Filter(xs, part), ItemPositionKey), ClassOf(WishItemKey, k)) == Filter(xs, ClassOf(WishItemKey, k))
  {
    var sub := Filter(xs, part);
    var sorted := SortBy(sub, ItemPositionKey);
    var cw, cp := ClassOf(WishItemKey, k), ClassOf(ItemPositionKey, Key(k.middle, 0, 0));
    AllPassSameMultiset(sorted, sub, part);
    forall i | 0 <= i < |sorted| ensures cw(sorted[i]) == cp(sorted[i]) {
      assert part(sorted[i]);
      ItemClass(sorted[i], k);
    }
    FilterAgree(sorted, cw, cp);
    SortByStable(sub, ItemPositionKey, Key(k.middle, 0, 0));
    forall i | 0 <= i < |sub| ensures cw(sub[i]) == cp(sub[i]) {
      assert part(sub[i]);
      ItemClass(sub[i], k);
    }
    FilterAgree(sub, cp, cw);
    forall i | 0 <= i < |xs| ensures cw(xs[i]) == (part(xs[i]) && cw(xs[i])) {
      ItemClass(xs[i], k);
    }
    FilterOfFilter(xs, part, cw, cw);
  }

  /** The sections are sorted by the hook's key. */
  lemma SectionsSorted(shown: seq<WishItem>)
    ensures Sorted(Partition(shown).active + Partition(shown).completed, WishItemKey)
  {
    var s := Partition(shown);
    var all := s.active + s.completed;
    forall i, j | 0 <= i < j < |all| ensures KeyLe(WishItemKey(all[i]), WishItemKey(all[j])) {
      if j < |s.active| {
        assert KeyLe(ItemPositionKey(s.active[i]), ItemPositionKey(s.active[j]));
      } else if |s.active| <= i {
        assert KeyLe(ItemPositionKey(s.completed[i - |s.active|]), ItemPositionKey(s.completed[j - |s.active|]));
      }
    }
  }

  /** The sections show the entries in the order the hook keeps them:
      open before completed, each by position, ties in input order. */
  lemma {:induction false} PartitionMatchesHookOrder(shown: seq<WishItem>)
    ensures Partition(shown).active + Partition(shown).completed == SortWishItems(shown)
  {
    var s := Partition(shown);
    var all := s.active + s.completed;
    SectionsSorted(shown);
    forall k ensures Filter(all, ClassOf(WishItemKey, k)) == Filter(SortWishItems(shown), ClassOf(WishItemKey, k)) {
      var c := ClassOf(WishItemKey, k);
      SortWishItemsStable(shown, k);
      FilterConcat(s.active, s.completed, c);
      if k.major == 0 && k.minor == 0 {
        SectionClass(shown, IsOpenItem, false, k);
        NoneOfClass(s.completed, k, true);
      } else if k.major == 1 && k.minor == 0 {
        SectionClass(shown, IsDoneItem, true, k);
        NoneOfClass(s.active, k, false);
      } else {
        NoneOfClass(s.active, k, false);
        NoneOfClass(s.completed, k, true);
        forall i | 0 <= i < |shown| ensures !c(shown[i]) {
          ItemClass(shown[i], k);
        }
        NothingPasses(shown, c);
      }
    }
    SortedUnique(all, SortWishItems(shown), WishItemKey);
  }

  /** `handleDragEnd`: nothing without a target, onto itself, or when
      either id is not on screen; otherwise the entries on screen with the
      dragged one moved to the target's place. */
  function HandleDragEnd(items: seq<WishItem>, query: string, active: string, over: Option<string>): (r: DragOutcome<WishItem>)
    ensures !r.LibraryDefined?
    ensures var shown := Shown(items, query);
            r.Reordered? <==> over.Some? && over.value != active
                              && 0 <= IndexOf(shown, WishItemId, active) && 0 <= IndexOf(shown, WishItemId, over.value)
    ensures r.Reordered? ==>
              var shown := Shown(items, query);
              var from, to := IndexOf(shown, WishItemId, active), IndexOf(shown, WishItemId, over.value);
              r.order == ArrayMove(shown, from, to)
              && multiset(r.order) == multiset(FilteredItems(items, query))
  {
    var shown := Shown(items, query);
    match MoveById(shown, WishItemId, active, over)
    case Reordered(order) => Reordered(order)
    case _ => Ignored
  }

  /** Moving inside the open part or inside the completed part of a
      sequence that lists open entries first keeps it that way. */
  lemma {:induction false} MoveWithinSection(shown: seq<WishItem>, n: nat, from: nat, to: nat)
    requires from < |shown| && to < |shown| && (from < n) == (to < n)
    requires forall q :: 0 <= q < |shown| ==> (shown[q].isCompleted <==> q >= n)
    ensures forall p :: 0 <= p < |shown| ==> (ArrayMove(shown, from, to)[p].isCompleted <==> p >= n)
  {
    forall p | 0 <= p < |shown| ensures ArrayMove(shown, from, to)[p].isCompleted <==> p >= n {
      ArrayMoveAt(shown, from, to, p);
      MovedFromSameSide(from, to, p, n);
    }
  }

  lemma OpenBeforeCompleted(order: seq<WishItem>, n: nat)
    requires forall p :: 0 <= p < |order| ==> (order[p].isCompleted <==> p >= n)
    ensures forall i, j :: 0 <= i < j < |order| && order[i].isCompleted ==> order[j].isCompleted
  {
  }

  /** How many open entries are on screen: they come first. */
  function OpenCount(items: seq<WishItem>, query: string): (n: nat)
    ensures n <= |Shown(items, query)|
    ensures forall q :: 0 <= q < |Shown(items, query)| ==> (Shown(items, query)[q].isCompleted <==> q >= n)
  {
    var s := Partition(FilteredItems(items, query));
    assert Shown(items, query) == s.active + s.completed;
    |s.active|
  }

  /** A drag that stays inside one section keeps every open entry before
      every completed one, so the written positions survive a re-fetch. */
  lemma {:induction false} DragWithinSectionKeepsSections(items: seq<WishItem>, query: string, active: string, over: Option<string>)
    requires HandleDragEnd(items, query, active, over).Reordered?
    requires var shown := Shown(items, query);
             shown[IndexOf(shown, WishItemId, active)].isCompleted == shown[IndexOf(shown, WishItemId, over.value)].isCompleted
    ensures var order := HandleDragEnd(items, query, active, over).order;
            forall i, j :: 0 <= i < j < |order| && order[i].isCompleted ==> order[j].isCompleted
    ensures var order := HandleDragEnd(items, query, active, over).order;
            SortWishItems(WithPositions(order, ItemAt)) == WithPositions(order, ItemAt)
  {
    var shown := Shown(items, query);
    var from, to := IndexOf(shown, WishItemId, active), IndexOf(shown, WishItemId, over.value);
    var n := OpenCount(items, query);
    SectionMoveKeepsOrder(shown, n, from, to);
  }

  /** The same for any sequence that lists its `n` open entries first. */
  lemma SectionMoveKeepsOrder(shown: seq<WishItem>, n: nat, from: nat, to: nat)
    requires from < |shown| && to < |shown|
    requires shown[from].isCompleted == shown[to].isCompleted
    requires forall q :: 0 <= q < |shown| ==> (shown[q].isCompleted <==> q >= n)
    ensures var order := ArrayMove(shown, from, to);
            forall i, j :: 0 <= i < j < |order| && order[i].isCompleted ==> order[j].isCompleted
    ensures var order := ArrayMove(shown, from, to);
            SortWishItems(WithPositions(order, ItemAt)) == WithPositions(order, ItemAt)
  {
    var order := ArrayMove(shown, from, to);
    MoveWithinSection(shown, n, from, to);
    OpenBeforeCompleted(order, n);
    ReorderSurvivesRefetch(order);
  }

  /** Under a search, a drag hands the hook only the matching entries, and
      the hook shows exactly those until the next fetch. */
  lemma SearchDragShowsOnlyMatches(items: seq<WishItem>, query: string, active: string, over: Option<string>, x: WishItem)
    requires !IsBlank(query)
    requires HandleDragEnd(items, query, active, over).Reordered?
    requires x in HandleDragEnd(items, query, active, over).order
    ensures Matches(x, query) && x in items
  {
    var order := HandleDragEnd(items, query, active, over).order;
    assert multiset(order)[x] > 0;
  }
}
