/** Stable sorting by a lexicographic key.

    Every comparator the application hands to `Array.prototype.sort`
    compares a few fields one after another and returns a negative, zero or
    positive number. Such a comparator is the order of a three-part integer
    key, and since `Array.prototype.sort` is stable (ECMAScript 2019), each
    of those calls is a stable sort by that key. */
module Sorting {
  import opened Common

  /** A lexicographic key: `major` first, then `middle`, then `minor`. */
  datatype Key = Key(major: int, middle: int, minor: int)

  predicate KeyLe(a: Key, b: Key)
  {
    a.major < b.major
    || (a.major == b.major && (a.middle < b.middle || (a.middle == b.middle && a.minor <= b.minor)))
  }

  predicate Sorted<T>(xs: seq<T>, key: T -> Key)
  {
    forall i, j :: 0 <= i < j < |xs| ==> KeyLe(key(xs[i]), key(xs[j]))
  }

  /** The elements whose key is `k`: one tie class. */
  function ClassOf<T>(key: T -> Key, k: Key): T -> bool
  {
    x => key(x) == k
  }

  /** Insert `x` after every element whose key is not greater than its own. */
  function Insert<T(==)>(s: seq<T>, x: T, key: T -> Key): (r: seq<T>)
    ensures multiset(r) == multiset(s) + multiset{x}
  {
    if |s| == 0 then [x]
    else if !KeyLe(key(s[0]), key(x)) then [x] + s
    else
      assert s == [s[0]] + s[1..];
      [s[0]] + Insert(s[1..], x, key)
  }

  lemma {:induction false} InsertSorted<T>(s: seq<T>, x: T, key: T -> Key)
    requires Sorted(s, key)
    ensures Sorted(Insert(s, x, key), key)
  {
    if |s| == 0 {
    } else if !KeyLe(key(s[0]), key(x)) {
      forall j | 0 <= j < |s| ensures KeyLe(key(x), key(s[j])) {
        assert KeyLe(key(s[0]), key(s[j]));
      }
      ConsSorted(x, s, key);
    } else {
      SortedTail(s, key);
      InsertSorted(s[1..], x, key);
      InsertStaysAbove(s, x, key);
      ConsSorted(s[0], Insert(s[1..], x, key), key);
    }
  }

  /** An element no greater than everything in a sorted sequence can go in
      front of it. */
  lemma ConsSorted<T>(h: T, t: seq<T>, key: T -> Key)
    requires Sorted(t, key)
    requires forall j :: 0 <= j < |t| ==> KeyLe(key(h), key(t[j]))
    ensures Sorted([h] + t, key)
  {
    var r := [h] + t;
    forall i, j | 0 <= i < j < |r| ensures KeyLe(key(r[i]), key(r[j])) {
      assert r[j] == t[j - 1];
      if i > 0 {
        assert r[i] == t[i - 1];
      }
    }
  }

  /** Inserting `x`, not below the head, into the tail keeps everything at
      or above the head. */
  lemma InsertStaysAbove<T>(s: seq<T>, x: T, key: T -> Key)
    requires Sorted(s, key) && |s| > 0 && KeyLe(key(s[0]), key(x))
    ensures forall j :: 0 <= j < |Insert(s[1..], x, key)| ==> KeyLe(key(s[0]), key(Insert(s[1..], x, key)[j]))
  {
    var tail := s[1..];
    var rt := Insert(tail, x, key);
    forall j | 0 <= j < |rt| ensures KeyLe(key(s[0]), key(rt[j])) {
      assert rt[j] in multiset(rt);
      if rt[j] != x {
        assert rt[j] in multiset(tail);
        var m :| 0 <= m < |tail| && tail[m] == rt[j];
        assert tail[m] == s[m + 1];
      }
    }
  }

  /** Insertion sort, taking the elements in input order, so that equal keys
      keep their input order. */
  function SortBy<T(==)>(xs: seq<T>, key: T -> Key): (r: seq<T>)
    ensures multiset(r) == multiset(xs)
    ensures Sorted(r, key)
    decreases |xs|
  {
    if |xs| == 0 then []
    else
      var init, last := xs[..|xs| - 1], xs[|xs| - 1];
      assert xs == init + [last];
      var sorted := SortBy(init, key);
      InsertSorted(sorted, last, key);
      Insert(sorted, last, key)
  }

  /** `x` alone, when it belongs to class `k`: what inserting it adds to
      that class. */
  function ClassPart<T>(x: T, key: T -> Key, k: Key): seq<T>
  {
    if key(x) == k then [x] else []
  }

  /** Inserting into a sorted sequence puts `x` last in its own tie class and
      leaves every other tie class alone. */
  lemma {:induction false} InsertClass<T(!new)>(s: seq<T>, x: T, key: T -> Key, k: Key)
    requires Sorted(s, key)
    ensures Filter(Insert(s, x, key), ClassOf(key, k)) == Filter(s, ClassOf(key, k)) + ClassPart(x, key, k)
  {
    if |s| == 0 {
      assert Insert(s, x, key) == [x];
      ClassOfSingleton(x, key, k);
    } else if !KeyLe(key(s[0]), key(x)) {
      InsertInFrontClass(s, x, key, k);
    } else {
      SortedTail(s, key);
      InsertClass(s[1..], x, key, k);
      InsertAfterHeadClass(s, x, key, k);
    }
  }

  /** `x` goes in front of a sorted sequence whose first key is greater:
      its class there is empty. */
  lemma {:induction false} InsertInFrontClass<T(!new)>(s: seq<T>, x: T, key: T -> Key, k: Key)
    requires Sorted(s, key) && |s| > 0 && !KeyLe(key(s[0]), key(x))
    ensures Filter(Insert(s, x, key), ClassOf(key, k)) == Filter(s, ClassOf(key, k)) + ClassPart(x, key, k)
  {
    var p := ClassOf(key, k);
    var r := [x] + s;
    assert Insert(s, x, key) == r;
    assert r[0] == x && r[1..] == s;
    FilterHead(r, p);
    assert p(x) == (key(x) == k);
    if key(x) == k {
      forall i | 0 <= i < |s| ensures !p(s[i]) {
        assert KeyLe(key(s[0]), key(s[i]));
      }
      NothingPasses(s, p);
    }
  }

  /** `x` goes after the first element: the first element's class gains
      it in front, the rest is the insertion into the tail. */
  lemma {:induction false} InsertAfterHeadClass<T(!new)>(s: seq<T>, x: T, key: T -> Key, k: Key)
    requires |s| > 0 && KeyLe(key(s[0]), key(x))
    requires Filter(Insert(s[1..], x, key), ClassOf(key, k)) == Filter(s[1..], ClassOf(key, k)) + ClassPart(x, key, k)
    ensures Filter(Insert(s, x, key), ClassOf(key, k)) == Filter(s, ClassOf(key, k)) + ClassPart(x, key, k)
  {
    var rt := Insert(s[1..], x, key);
    assert Insert(s, x, key) == [s[0]] + rt;
    HeadAndTail(s);
    ConsKeepsExtra(s[0], s[1..], rt, ClassPart(x, key, k), ClassOf(key, k));
  }

  /** Putting the same element in front of two sequences keeps what one
      filter has beyond the other. */
  lemma {:induction false} ConsKeepsExtra<T>(h: T, t: seq<T>, rt: seq<T>, extra: seq<T>, p: T -> bool)
    requires Filter(rt, p) == Filter(t, p) + extra
    ensures Filter([h] + rt, p) == Filter([h] + t, p) + extra
  {
    assert ([h] + rt)[0] == h && ([h] + rt)[1..] == rt;
    assert ([h] + t)[0] == h && ([h] + t)[1..] == t;
    FilterHead([h] + rt, p);
    FilterHead([h] + t, p);
    if p(h) {
      assert [h] + (Filter(t, p) + extra) == ([h] + Filter(t, p)) + extra;
    }
  }

  lemma {:induction false} NothingPasses<T(!new)>(s: seq<T>, p: T -> bool)
    requires forall i :: 0 <= i < |s| ==> !p(s[i])
    ensures Filter(s, p) == []
  {
    if |s| > 0 {
      NothingPasses(s[1..], p);
    }
  }

  /** Filtering around one position. */
  lemma {:induction false} FilterAround<T(!new)>(xs: seq<T>, i: nat, p: T -> bool)
    requires i < |xs|
    ensures Filter(xs, p) == Filter(xs[..i], p) + Filter([xs[i]], p) + Filter(xs[i + 1..], p)
    ensures Filter(RemoveAt(xs, i), p) == Filter(xs[..i], p) + Filter(xs[i + 1..], p)
  {
    var a, x, b := xs[..i], [xs[i]], xs[i + 1..];
    assert xs == a + (x + b);
    FilterConcat(a, x + b, p);
    FilterConcat(x, b, p);
    var fa, fx, fb := Filter(a, p), Filter(x, p), Filter(b, p);
    assert Filter(xs, p) == fa + (fx + fb);
    assert fa + (fx + fb) == fa + fx + fb;
    assert RemoveAt(xs, i) == a + b;
    FilterConcat(a, b, p);
  }

  /** What filtering sees of removing one element: nothing when the element
      fails the filter, and exactly that element when it alone passes. */
  lemma {:induction false} FilterRemoveAt<T(!new)>(xs: seq<T>, i: nat, p: T -> bool)
    requires i < |xs|
    ensures !p(xs[i]) ==> Filter(xs, p) == Filter(RemoveAt(xs, i), p)
    ensures p(xs[i]) && Filter(RemoveAt(xs, i), p) == [] ==> Filter(xs, p) == [xs[i]]
  {
    FilterAround(xs, i, p);
    var fa, fb := Filter(xs[..i], p), Filter(xs[i + 1..], p);
    assert [xs[i]][1..] == [];
    if p(xs[i]) {
      assert Filter([xs[i]], p) == [xs[i]];
      if fa + fb == [] {
        assert |fa| == 0 && |fb| == 0;
        assert fa == [] && fb == [];
        assert fa + [xs[i]] + fb == [xs[i]];
      }
    } else {
      assert Filter([xs[i]], p) == [];
      assert fa + [] + fb == fa + fb;
    }
  }

  /** Moving an element whose key no other element has leaves every tie
      class in the same order. */
  lemma {:induction false} MoveOfLoneKeyKeepsClasses<T(!new)>(xs: seq<T>, key: T -> Key, from: nat, to: nat, k: Key)
    requires from < |xs| && to < |xs|
    requires forall j :: 0 <= j < |xs| && j != from ==> key(xs[j]) != key(xs[from])
    ensures Filter(ArrayMove(xs, from, to), ClassOf(key, k)) == Filter(xs, ClassOf(key, k))
  {
    var o := ArrayMove(xs, from, to);
    var c := ClassOf(key, k);
    var rest := RemoveAt(xs, from);
    assert RemoveAt(o, to) == rest && o[to] == xs[from];
    if c(xs[from]) {
      forall i | 0 <= i < |rest| ensures !c(rest[i]) {
        assert rest[i] == xs[if i < from then i else i + 1];
      }
      NothingPasses(rest, c);
    }
    FilterRemoveAt(xs, from, c);
    FilterRemoveAt(o, to, c);
  }

  /** The one-element sequence as seen by a tie class. */
  lemma ClassOfSingleton<T(!new)>(x: T, key: T -> Key, k: Key)
    ensures Filter([x], ClassOf(key, k)) == ClassPart(x, key, k)
  {
    assert [x][1..] == [];
    assert ClassOf(key, k)(x) == (key(x) == k);
  }

  lemma InitAndLast<T>(xs: seq<T>)
    requires |xs| > 0
    ensures xs[..|xs| - 1] + [xs[|xs| - 1]] == xs
  {
  }

  /** Sorting is inserting the last element into the sorted rest. */
  lemma SortByLast<T(!new)>(xs: seq<T>, key: T -> Key)
    requires |xs| > 0
    ensures SortBy(xs, key) == Insert(SortBy(xs[..|xs| - 1], key), xs[|xs| - 1], key)
  {
  }

  /** One step of stability: inserting `last` into a sorted sequence whose
      class `k` is that of `init` gives the class `k` of `init + [last]`. */
  lemma InsertKeepsClass<T(!new)>(init: seq<T>, sorted: seq<T>, last: T, key: T -> Key, k: Key)
    requires Sorted(sorted, key)
    requires Filter(sorted, ClassOf(key, k)) == Filter(init, ClassOf(key, k))
    ensures Filter(Insert(sorted, last, key), ClassOf(key, k)) == Filter(init + [last], ClassOf(key, k))
  {
    InsertClass(sorted, last, key, k);
    FilterConcat(init, [last], ClassOf(key, k));
    ClassOfSingleton(last, key, k);
  }

  /** Stability: each tie class comes out in its input order. */
  lemma {:induction false} SortByStable<T(!new)>(xs: seq<T>, key: T -> Key, k: Key)
    ensures Filter(SortBy(xs, key), ClassOf(key, k)) == Filter(xs, ClassOf(key, k))
    decreases |xs|
  {
    if |xs| > 0 {
      var init, last := xs[..|xs| - 1], xs[|xs| - 1];
      var sorted := SortBy(init, key);
      SortByStable(init, key, k);
      SortByLast(xs, key);
      InsertKeepsClass(init, sorted, last, key, k);
      InitAndLast(xs);
    }
  }

  /** Sequences whose tie classes agree hold the same elements. */
  lemma SameClassesSameMultiset<T(!new)>(a: seq<T>, b: seq<T>, key: T -> Key)
    requires forall k :: Filter(a, ClassOf(key, k)) == Filter(b, ClassOf(key, k))
    ensures multiset(a) == multiset(b)
  {
    forall x ensures multiset(a)[x] == multiset(b)[x] {
      var c := ClassOf(key, key(x));
      FilterCounts(a, c);
      FilterCounts(b, c);
      assert Filter(a, c) == Filter(b, c);
    }
  }

  /** Two sorted sequences with the same tie classes start with the same
      element: the first keys agree, and the first of that class is first
      on both sides. */
  lemma SameClassesSameHead<T(!new)>(a: seq<T>, b: seq<T>, key: T -> Key)
    requires Sorted(a, key) && Sorted(b, key) && |a| > 0 && |b| > 0
    requires multiset(a) == multiset(b)
    requires forall k :: Filter(a, ClassOf(key, k)) == Filter(b, ClassOf(key, k))
    ensures a[0] == b[0]
  {
    assert b[0] in multiset(a);
    var i :| 0 <= i < |a| && a[i] == b[0];
    assert KeyLe(key(a[0]), key(a[i]));
    assert a[0] in multiset(b);
    var j :| 0 <= j < |b| && b[j] == a[0];
    assert KeyLe(key(b[0]), key(b[j]));
    var ca := ClassOf(key, key(a[0]));
    FilterHead(a, ca);
    FilterHead(b, ca);
    assert Filter(a, ca) == Filter(b, ca);
  }

  /** Dropping the same first element from both sides keeps the tie
      classes equal. */
  lemma TailsSameClasses<T(!new)>(a: seq<T>, b: seq<T>, key: T -> Key)
    requires |a| > 0 && |b| > 0 && a[0] == b[0]
    requires forall k :: Filter(a, ClassOf(key, k)) == Filter(b, ClassOf(key, k))
    ensures forall k :: Filter(a[1..], ClassOf(key, k)) == Filter(b[1..], ClassOf(key, k))
  {
    forall k ensures Filter(a[1..], ClassOf(key, k)) == Filter(b[1..], ClassOf(key, k)) {
      var c := ClassOf(key, k);
      assert Filter(a, c) == Filter(b, c);
      FilterHead(a, c);
      FilterHead(b, c);
      if c(a[0]) {
        assert Filter(a, c)[1..] == Filter(a[1..], c);
        assert Filter(b, c)[1..] == Filter(b[1..], c);
      }
    }
  }

  /** Two sorted sequences with the same tie classes, each in the same
      order, are the same sequence. */
  lemma {:induction false} SortedUnique<T(!new)>(a: seq<T>, b: seq<T>, key: T -> Key)
    requires Sorted(a, key) && Sorted(b, key)
    requires forall k :: Filter(a, ClassOf(key, k)) == Filter(b, ClassOf(key, k))
    ensures a == b
    decreases |a|
  {
    SameClassesSameMultiset(a, b, key);
    assert |a| == |multiset(a)| == |multiset(b)| == |b|;
    if |a| > 0 {
      SameClassesSameHead(a, b, key);
      TailsSameClasses(a, b, key);
      SortedTail(a, key);
      SortedTail(b, key);
      SortedUnique(a[1..], b[1..], key);
      HeadAndTail(a);
      HeadAndTail(b);
    }
  }

  lemma SortedTail<T>(s: seq<T>, key: T -> Key)
    requires Sorted(s, key) && |s| > 0
    ensures Sorted(s[1..], key)
  {
    forall i, j | 0 <= i < j < |s| - 1 ensures KeyLe(key(s[1..][i]), key(s[1..][j])) {
      assert s[1..][i] == s[i + 1] && s[1..][j] == s[j + 1];
    }
  }

  /** Sorting what is already sorted changes nothing. */
  lemma SortBySortedIsIdentity<T(!new)>(xs: seq<T>, key: T -> Key)
    requires Sorted(xs, key)
    ensures SortBy(xs, key) == xs
  {
    forall k ensures Filter(SortBy(xs, key), ClassOf(key, k)) == Filter(xs, ClassOf(key, k)) {
      SortByStable(xs, key, k);
    }
    SortedUnique(SortBy(xs, key), xs, key);
  }

  /** Sorting twice is sorting once. */
  lemma SortByIdempotent<T(!new)>(xs: seq<T>, key: T -> Key)
    ensures SortBy(SortBy(xs, key), key) == SortBy(xs, key)
  {
    SortBySortedIsIdentity(SortBy(xs, key), key);
  }

  /** The result of the sort depends only on the order inside each tie class
      of its input. */
  lemma SortByDependsOnlyOnClasses<T(!new)>(a: seq<T>, b: seq<T>, key: T -> Key)
    requires forall k :: Filter(a, ClassOf(key, k)) == Filter(b, ClassOf(key, k))
    ensures SortBy(a, key) == SortBy(b, key)
  {
    forall k ensures Filter(SortBy(a, key), ClassOf(key, k)) == Filter(SortBy(b, key), ClassOf(key, k)) {
      SortByStable(a, key, k);
      SortByStable(b, key, k);
    }
    SortedUnique(SortBy(a, key), SortBy(b, key), key);
  }

  /** When equal keys mean equal elements, the sort of a sequence depends
      only on its multiset of elements, not on their input order. */
  lemma SortByPermutationInvariant<T(!new)>(a: seq<T>, b: seq<T>, key: T -> Key)
    requires forall x, y :: key(x) == key(y) ==> x == y
    requires multiset(a) == multiset(b)
    ensures SortBy(a, key) == SortBy(b, key)
  {
    forall k ensures Filter(a, ClassOf(key, k)) == Filter(b, ClassOf(key, k)) {
      var c := ClassOf(key, k);
      FilterCounts(a, c);
      FilterCounts(b, c);
      var fa, fb := Filter(a, c), Filter(b, c);
      assert multiset(fa) == multiset(fb);
      assert |fa| == |multiset(fa)| == |multiset(fb)| == |fb|;
      forall i | 0 <= i < |fa| ensures fa[i] == fb[i] {
        assert key(fa[i]) == k == key(fb[i]);
      }
    }
    SortByDependsOnlyOnClasses(a, b, key);
  }
}
