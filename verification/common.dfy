/** Shared vocabulary of the model: optional values, backend replies, and the
    sequence and string helpers that the hooks and components use through
    JavaScript's built-in Array and String methods. */
module Common {

  /** A nullable value (`T | null` or an optional field). */
  datatype Option<+T> = None | Some(value: T)

  /** What a call to the backend came back with: the returned row(s), or an
      error object. The backend itself is outside the model. */
  datatype Reply<+T> = Ok(value: T) | Failed

  /** `x || null` on an optional string: both a missing value and the empty
      string (which is falsy) become null. */
  function OrNull(o: Option<string>): (r: Option<string>)
    ensures r.Some? <==> o.Some? && o.value != ""
    ensures r.Some? ==> r == o
  {
    match o
    case Some(s) => if s == "" then None else Some(s)
    case None => None
  }

  // ----------------------------------------------------------------------
  // Sequences
  // ----------------------------------------------------------------------

  /** `a` can be obtained from `b` by deleting elements (order kept). */
  predicate IsSubsequence<T(==)>(a: seq<T>, b: seq<T>)
    decreases |b|
  {
    |a| == 0 || (|b| > 0 && if a[0] == b[0] then IsSubsequence(a[1..], b[1..]) else IsSubsequence(a, b[1..]))
  }

  lemma {:induction false} SubsequenceOfItself<T>(xs: seq<T>)
    ensures IsSubsequence(xs, xs)
  {
    if |xs| > 0 {
      SubsequenceOfItself(xs[1..]);
    }
  }

  /** `Array.prototype.filter`. */
  function Filter<T>(xs: seq<T>, p: T -> bool): (r: seq<T>)
    ensures |r| <= |xs|
    ensures forall i :: 0 <= i < |r| ==> p(r[i])
  {
    if |xs| == 0 then []
    else if p(xs[0]) then [xs[0]] + Filter(xs[1..], p)
    else Filter(xs[1..], p)
  }

  lemma FilterHead<T>(xs: seq<T>, p: T -> bool)
    requires |xs| > 0
    ensures Filter(xs, p) == if p(xs[0]) then [xs[0]] + Filter(xs[1..], p) else Filter(xs[1..], p)
  {
  }

  lemma HeadAndTail<T>(xs: seq<T>)
    requires |xs| > 0
    ensures xs == [xs[0]] + xs[1..]
  {
  }

  /** The filter keeps every element that passes, as often as it occurs,
      and nothing else. */
  lemma {:induction false} FilterCounts<T(!new)>(xs: seq<T>, p: T -> bool)
    ensures forall x :: multiset(Filter(xs, p))[x] == if p(x) then multiset(xs)[x] else 0
  {
    if |xs| > 0 {
      FilterCounts(xs[1..], p);
      assert xs == [xs[0]] + xs[1..];
    }
  }

  /** The filter keeps the input order. */
  lemma {:induction false} FilterIsSubsequence<T>(xs: seq<T>, p: T -> bool)
    ensures IsSubsequence(Filter(xs, p), xs)
  {
    if |xs| > 0 {
      FilterIsSubsequence(xs[1..], p);
    }
  }

  lemma {:induction false} FilterConcat<T(!new)>(a: seq<T>, b: seq<T>, p: T -> bool)
    ensures Filter(a + b, p) == Filter(a, p) + Filter(b, p)
    decreases |a|
  {
    if |a| == 0 {
      assert a + b == b;
    } else {
      assert (a + b)[0] == a[0];
      assert (a + b)[1..] == a[1..] + b;
      FilterConcat(a[1..], b, p);
    }
  }

  /** Two predicates that agree on every element filter alike. */
  lemma {:induction false} FilterAgree<T>(xs: seq<T>, p: T -> bool, q: T -> bool)
    requires forall i :: 0 <= i < |xs| ==> p(xs[i]) == q(xs[i])
    ensures Filter(xs, p) == Filter(xs, q)
  {
    if |xs| > 0 {
      FilterAgree(xs[1..], p, q);
    }
  }

  /** Filtering twice is filtering once by both predicates. */
  lemma {:induction false} FilterOfFilter<T>(xs: seq<T>, p: T -> bool, q: T -> bool, both: T -> bool)
    requires forall i :: 0 <= i < |xs| ==> both(xs[i]) == (p(xs[i]) && q(xs[i]))
    ensures Filter(Filter(xs, p), q) == Filter(xs, both)
  {
    if |xs| > 0 {
      FilterOfFilter(xs[1..], p, q, both);
    }
  }

  /** A property every element of `b` has, every permutation of `b` has. */
  lemma AllPassSameMultiset<T>(a: seq<T>, b: seq<T>, p: T -> bool)
    requires multiset(a) == multiset(b)
    requires forall i :: 0 <= i < |b| ==> p(b[i])
    ensures forall i :: 0 <= i < |a| ==> p(a[i])
  {
    forall i | 0 <= i < |a| ensures p(a[i]) {
      assert a[i] in multiset(b);
      var j :| 0 <= j < |b| && b[j] == a[i];
    }
  }

  /** A filter and its complement split the elements between them. */
  lemma FilterSplit<T(!new)>(xs: seq<T>, p: T -> bool, q: T -> bool)
    requires forall x :: q(x) == !p(x)
    ensures multiset(xs) == multiset(Filter(xs, p)) + multiset(Filter(xs, q))
  {
    FilterCounts(xs, p);
    FilterCounts(xs, q);
    forall x ensures multiset(xs)[x] == multiset(Filter(xs, p))[x] + multiset(Filter(xs, q))[x] {
    }
  }

  /** What the filter keeps: exactly the members of `xs` that pass `p`. */
  lemma FilterMember<T(!new)>(xs: seq<T>, p: T -> bool, x: T)
    ensures x in Filter(xs, p) <==> x in xs && p(x)
  {
    FilterCounts(xs, p);
    assert x in Filter(xs, p) <==> multiset(Filter(xs, p))[x] > 0;
    assert x in xs <==> multiset(xs)[x] > 0;
  }

  /** `Array.prototype.map`. */
  function Map<T, U>(xs: seq<T>, f: T -> U): (r: seq<U>)
    ensures |r| == |xs|
    ensures forall i :: 0 <= i < |xs| ==> r[i] == f(xs[i])
  {
    seq(|xs|, i requires 0 <= i < |xs| => f(xs[i]))
  }

  /** `Array.prototype.findIndex`: the first position whose element passes
      `p`, or -1. */
  function IndexWhere<T>(xs: seq<T>, p: T -> bool): (r: int)
    ensures -1 <= r < |xs|
    ensures r == -1 <==> forall i :: 0 <= i < |xs| ==> !p(xs[i])
    ensures 0 <= r ==> p(xs[r]) && forall i :: 0 <= i < r ==> !p(xs[i])
  {
    if |xs| == 0 then -1
    else if p(xs[0]) then 0
    else
      var k := IndexWhere(xs[1..], p);
      if k == -1 then -1 else k + 1
  }

  /** `Array.prototype.find`: the first element that passes `p`. */
  function FirstWhere<T>(xs: seq<T>, p: T -> bool): (r: Option<T>)
    ensures r.None? <==> forall i :: 0 <= i < |xs| ==> !p(xs[i])
    ensures r.Some? ==> 0 <= IndexWhere(xs, p) && r.value == xs[IndexWhere(xs, p)]
  {
    var k := IndexWhere(xs, p);
    if k < 0 then None else Some(xs[k])
  }

  /** The predicate "has id `id`" over records whose id is `idOf`. */
  function HasId<T, K(==)>(idOf: T -> K, id: K): T -> bool
  {
    x => idOf(x) == id
  }

  /** `xs.findIndex(x => x.id === id)`. */
  function IndexOf<T, K(==)>(xs: seq<T>, idOf: T -> K, id: K): (r: int)
    ensures -1 <= r < |xs|
    ensures r == -1 <==> forall i :: 0 <= i < |xs| ==> idOf(xs[i]) != id
    ensures 0 <= r ==> idOf(xs[r]) == id && forall i :: 0 <= i < r ==> idOf(xs[i]) != id
  {
    IndexWhere(xs, HasId(idOf, id))
  }

  /** `xs.find(x => x.id === id)`. */
  function Find<T, K(==)>(xs: seq<T>, idOf: T -> K, id: K): (r: Option<T>)
    ensures r.None? <==> forall i :: 0 <= i < |xs| ==> idOf(xs[i]) != id
    ensures r.Some? ==> 0 <= IndexOf(xs, idOf, id) && r.value == xs[IndexOf(xs, idOf, id)]
  {
    var k := IndexOf(xs, idOf, id);
    if k < 0 then None else Some(xs[k])
  }

  /** `xs.map(x => x.id === id ? row : x)`. */
  function ReplaceById<T, K(==)>(xs: seq<T>, idOf: T -> K, id: K, row: T): (r: seq<T>)
    ensures |r| == |xs|
    ensures forall i :: 0 <= i < |xs| && idOf(xs[i]) == id ==> r[i] == row
    ensures forall i :: 0 <= i < |xs| && idOf(xs[i]) != id ==> r[i] == xs[i]
  {
    if |xs| == 0 then []
    else [if idOf(xs[0]) == id then row else xs[0]] + ReplaceById(xs[1..], idOf, id, row)
  }

  /** Replacing by an id that no element carries changes nothing. */
  lemma ReplaceUnknownIdIsIdentity<T, K>(xs: seq<T>, idOf: T -> K, id: K, row: T)
    requires forall i :: 0 <= i < |xs| ==> idOf(xs[i]) != id
    ensures ReplaceById(xs, idOf, id, row) == xs
  {
  }

  /** Replacing a record whose id no other record shares replaces it alone,
      in place. */
  lemma ReplaceUniqueId<T, K>(xs: seq<T>, idOf: T -> K, i: nat, row: T)
    requires i < |xs|
    requires forall j :: 0 <= j < |xs| && j != i ==> idOf(xs[j]) != idOf(xs[i])
    ensures ReplaceById(xs, idOf, idOf(xs[i]), row) == xs[..i] + [row] + xs[i + 1..]
  {
    var r := ReplaceById(xs, idOf, idOf(xs[i]), row);
    var s := xs[..i] + [row] + xs[i + 1..];
    assert |r| == |s|;
    forall j | 0 <= j < |r| ensures r[j] == s[j] {
      if j < i {
        assert s[j] == xs[j];
      } else if j > i {
        assert s[j] == xs[j];
      }
    }
  }

  /** `xs.filter(x => x.id !== id)`. */
  function RemoveById<T(==,!new), K(==)>(xs: seq<T>, idOf: T -> K, id: K): (r: seq<T>)
    ensures forall i :: 0 <= i < |r| ==> idOf(r[i]) != id
    ensures forall x :: multiset(r)[x] == if idOf(x) == id then 0 else multiset(xs)[x]
    ensures IsSubsequence(r, xs)
  {
    FilterCounts(xs, x => idOf(x) != id);
    FilterIsSubsequence(xs, x => idOf(x) != id);
    Filter(xs, x => idOf(x) != id)
  }

  /** Removing an id that no element carries changes nothing. */
  lemma {:induction false} RemoveUnknownIdIsIdentity<T(!new), K>(xs: seq<T>, idOf: T -> K, id: K)
    requires forall i :: 0 <= i < |xs| ==> idOf(xs[i]) != id
    ensures RemoveById(xs, idOf, id) == xs
  {
    if |xs| > 0 {
      RemoveUnknownIdIsIdentity(xs[1..], idOf, id);
    }
  }

  function RemoveAt<T>(xs: seq<T>, i: nat): (r: seq<T>)
    requires i < |xs|
    ensures |r| == |xs| - 1
    ensures forall k :: 0 <= k < |r| ==> r[k] == if k < i then xs[k] else xs[k + 1]
  {
    xs[..i] + xs[i + 1..]
  }

  /** `arrayMove(xs, from, to)` of the drag-and-drop library, for indices
      inside the array: the element at `from` is taken out and put back so
      that it sits at `to`. */
  function ArrayMove<T>(xs: seq<T>, from: nat, to: nat): (r: seq<T>)
    requires from < |xs| && to < |xs|
    ensures |r| == |xs|
    ensures r[to] == xs[from]
    ensures RemoveAt(r, to) == RemoveAt(xs, from)
  {
    var rest := RemoveAt(xs, from);
    var r := rest[..to] + [xs[from]] + rest[to..];
    assert RemoveAt(r, to) == rest;
    r
  }

  /** A move does not lose or duplicate anything. */
  lemma ArrayMoveIsPermutation<T>(xs: seq<T>, from: nat, to: nat)
    requires from < |xs| && to < |xs|
    ensures multiset(ArrayMove(xs, from, to)) == multiset(xs)
  {
    var x := xs[from];
    var rest := RemoveAt(xs, from);
    assert xs == xs[..from] + [x] + xs[from + 1..];
    assert multiset(xs) == multiset(rest) + multiset{x};
    var r := rest[..to] + [x] + rest[to..];
    assert rest == rest[..to] + rest[to..];
    assert multiset(r) == multiset(rest) + multiset{x};
  }

  /** Moving back undoes a move. */
  lemma ArrayMoveInverse<T>(xs: seq<T>, from: nat, to: nat)
    requires from < |xs| && to < |xs|
    ensures ArrayMove(ArrayMove(xs, from, to), to, from) == xs
  {
    var r := ArrayMove(xs, from, to);
    var back := ArrayMove(r, to, from);
    var rest := RemoveAt(xs, from);
    assert RemoveAt(r, to) == rest;
    assert back == rest[..from] + [xs[from]] + rest[from..];
    assert rest[..from] == xs[..from];
    assert rest[from..] == xs[from + 1..];
    assert xs == xs[..from] + [xs[from]] + xs[from + 1..];
  }

  /** No two records share an id. */
  predicate UniqueIds<T, K(==)>(xs: seq<T>, idOf: T -> K)
  {
    forall i, j :: 0 <= i < j < |xs| ==> idOf(xs[i]) != idOf(xs[j])
  }

  /** With unique ids, looking up the id of the record at `i` finds `i`. */
  lemma IndexOfUnique<T, K>(xs: seq<T>, idOf: T -> K, i: nat)
    requires UniqueIds(xs, idOf) && i < |xs|
    ensures IndexOf(xs, idOf, idOf(xs[i])) == i
  {
    var k := IndexOf(xs, idOf, idOf(xs[i]));
    assert k >= 0;
    assert !(k < i) && !(i < k);
  }

  /** Where the element at position `p` of `ArrayMove(xs, from, to)` came
      from. */
  function MovedFrom(from: nat, to: nat, p: nat): nat
  {
    var k := if p < to then p else if p == to then 0 else p - 1;
    if p == to then from else if k < from then k else k + 1
  }

  /** A move that starts and ends on the same side of a boundary leaves
      every position on its side. */
  lemma MovedFromSameSide(from: nat, to: nat, p: nat, n: nat)
    requires (from < n) == (to < n)
    ensures (MovedFrom(from, to, p) < n) == (p < n)
  {
  }

  lemma MovedFromInjective(from: nat, to: nat, p: nat, q: nat)
    requires p != q
    ensures MovedFrom(from, to, p) != MovedFrom(from, to, q)
  {
  }

  lemma {:induction false} ArrayMoveAt<T>(xs: seq<T>, from: nat, to: nat, p: nat)
    requires from < |xs| && to < |xs| && p < |xs|
    ensures MovedFrom(from, to, p) < |xs|
    ensures ArrayMove(xs, from, to)[p] == xs[MovedFrom(from, to, p)]
  {
    var r := ArrayMove(xs, from, to);
    var a, b := RemoveAt(r, to), RemoveAt(xs, from);
    assert a == b;
    if p < to {
      assert a[p] == r[p];
      assert b[p] == xs[MovedFrom(from, to, p)];
    } else if p > to {
      assert a[p - 1] == r[p];
      assert b[p - 1] == xs[MovedFrom(from, to, p)];
    }
  }

  /** Moving an element keeps ids unique. */
  lemma ArrayMoveKeepsUniqueIds<T, K>(xs: seq<T>, idOf: T -> K, from: nat, to: nat)
    requires UniqueIds(xs, idOf) && from < |xs| && to < |xs|
    ensures UniqueIds(ArrayMove(xs, from, to), idOf)
  {
    var r := ArrayMove(xs, from, to);
    forall i, j | 0 <= i < j < |r| ensures idOf(r[i]) != idOf(r[j]) {
      ArrayMoveAt(xs, from, to, i);
      ArrayMoveAt(xs, from, to, j);
      MovedFromInjective(from, to, i, j);
    }
  }

  /** What a drag-end handler hands to its reorder callback: nothing, a new
      order, or, when an id is not found and `arrayMove` would get index
      -1, whatever that library does with it. */
  datatype DragOutcome<T> = Ignored | Reordered(order: seq<T>) | LibraryDefined

  /** The drag-end handlers' common step: no target, or a drop onto itself,
      does nothing; otherwise `arrayMove` from the dragged record's index to
      the target's index. */
  function MoveById<T, K(==)>(xs: seq<T>, idOf: T -> K, active: K, over: Option<K>): (r: DragOutcome<T>)
    ensures r.Ignored? <==> over.None? || over.value == active
    ensures r.LibraryDefined? <==>
              !r.Ignored? && (IndexOf(xs, idOf, active) < 0 || IndexOf(xs, idOf, over.value) < 0)
    ensures r.Reordered? ==> 0 <= IndexOf(xs, idOf, active) && 0 <= IndexOf(xs, idOf, over.value)
    ensures r.Reordered? ==>
              var from, to := IndexOf(xs, idOf, active), IndexOf(xs, idOf, over.value);
              |r.order| == |xs| && r.order[to] == xs[from] && RemoveAt(r.order, to) == RemoveAt(xs, from)
    ensures r.Reordered? ==> multiset(r.order) == multiset(xs)
  {
    if over.None? || over.value == active then Ignored
    else
      var from, to := IndexOf(xs, idOf, active), IndexOf(xs, idOf, over.value);
      if from < 0 || to < 0 then LibraryDefined
      else
        ArrayMoveIsPermutation(xs, from, to);
        Reordered(ArrayMove(xs, from, to))
  }

  /** With unique ids, dragging the record back onto whatever now sits at
      its old position restores the original order. */
  lemma MoveByIdUndo<T, K>(xs: seq<T>, idOf: T -> K, a: K, b: K)
    requires UniqueIds(xs, idOf)
    requires MoveById(xs, idOf, a, Some(b)).Reordered?
    ensures 0 <= IndexOf(xs, idOf, a) < |MoveById(xs, idOf, a, Some(b)).order|
    ensures var o := MoveById(xs, idOf, a, Some(b)).order;
            MoveById(o, idOf, a, Some(idOf(o[IndexOf(xs, idOf, a)]))) == Reordered(xs)
  {
    var from, to := IndexOf(xs, idOf, a), IndexOf(xs, idOf, b);
    var o := ArrayMove(xs, from, to);
    assert from != to;
    ArrayMoveKeepsUniqueIds(xs, idOf, from, to);
    IndexOfUnique(o, idOf, to);
    IndexOfUnique(o, idOf, from);
    assert idOf(o[from]) != a;
    ArrayMoveInverse(xs, from, to);
  }

  function MaxOf(xs: seq<int>): (m: int)
    requires |xs| > 0
    ensures m in xs
    ensures forall i :: 0 <= i < |xs| ==> xs[i] <= m
  {
    if |xs| == 1 then xs[0]
    else
      var m := MaxOf(xs[1..]);
      if xs[0] >= m then xs[0] else m
  }

  /** `xs.length > 0 ? Math.max(...xs) + 1 : 0`: the position given to a
      new row so that it sorts after every existing one. */
  function NextSortOrder(orders: seq<int>): (r: int)
    ensures forall i :: 0 <= i < |orders| ==> orders[i] < r
    ensures |orders| == 0 ==> r == 0
    ensures |orders| > 0 ==> r - 1 in orders
  {
    if |orders| == 0 then 0 else MaxOf(orders) + 1
  }

  /** The `{ id, sort_order: index }` updates a reorder sends, one per row. */
  datatype PositionUpdate<K> = PositionUpdate(id: K, sortOrder: int)

  function PositionUpdates<T, K>(xs: seq<T>, idOf: T -> K): (r: seq<PositionUpdate<K>>)
    ensures |r| == |xs|
    ensures forall i :: 0 <= i < |xs| ==> r[i].id == idOf(xs[i]) && r[i].sortOrder == i
  {
    seq(|xs|, i requires 0 <= i < |xs| => PositionUpdate(idOf(xs[i]), i))
  }

  /** The rows as stored once every position write of a reorder went
      through: row `i` holds position `i`, set by `withPosition`. */
  function WithPositions<T>(xs: seq<T>, withPosition: (T, int) -> T): (r: seq<T>)
    ensures |r| == |xs|
    ensures forall i :: 0 <= i < |xs| ==> r[i] == withPosition(xs[i], i)
  {
    seq(|xs|, i requires 0 <= i < |xs| => withPosition(xs[i], i))
  }

  /** The loop of the reorder hooks: row `i` of the new order gets
      position `i`, the updates are written one at a time, in order, and the
      loop stops at the first one the backend rejects. `written` holds the
      updates that were stored; when `ok` is false the next one was
      rejected. */
  method WritePositions<T, K>(rows: seq<T>, idOf: T -> K, rejects: PositionUpdate<K> -> bool)
    returns (written: seq<PositionUpdate<K>>, ok: bool)
    ensures |written| <= |rows|
    ensures forall i :: 0 <= i < |written| ==> written[i] == PositionUpdate(idOf(rows[i]), i) && !rejects(written[i])
    ensures ok <==> |written| == |rows|
    ensures !ok ==> rejects(PositionUpdate(idOf(rows[|written|]), |written|))
  {
    var updates := PositionUpdates(rows, idOf);
    written := [];
    while |written| < |updates|
      invariant |written| <= |updates|
      invariant written == updates[..|written|]
      invariant forall i :: 0 <= i < |written| ==> !rejects(written[i])
    {
      var u := updates[|written|];
      if rejects(u) {
        ok := false;
        return;
      }
      written := written + [u];
    }
    ok := true;
  }

  // ----------------------------------------------------------------------
  // Strings
  // ----------------------------------------------------------------------

  /** The characters ECMAScript's `String.prototype.trim` strips: the
      WhiteSpace and LineTerminator code points. */
  predicate IsWhiteSpace(c: char)
  {
    c == '\t' || c == '\n' || c == '\U{B}' || c == '\U{C}' || c == '\r' || c == ' '
    || c == '\U{A0}' || c == '\U{1680}' || ('\U{2000}' <= c <= '\U{200A}')
    || c == '\U{2028}' || c == '\U{2029}' || c == '\U{202F}' || c == '\U{205F}'
    || c == '\U{3000}' || c == '\U{FEFF}'
  }

  predicate AllWhiteSpace(s: string)
  {
    forall i :: 0 <= i < |s| ==> IsWhiteSpace(s[i])
  }

  function TrimStart(s: string): (r: string)
    ensures |r| <= |s| && r == s[|s| - |r|..]
    ensures AllWhiteSpace(s[..|s| - |r|])
    ensures |r| == 0 || !IsWhiteSpace(r[0])
  {
    if |s| == 0 || !IsWhiteSpace(s[0]) then s
    else
      var r := TrimStart(s[1..]);
      assert s[..|s| - |r|] == [s[0]] + s[1..][..|s| - 1 - |r|];
      r
  }

  function TrimEnd(s: string): (r: string)
    ensures |r| <= |s| && r == s[..|r|]
    ensures AllWhiteSpace(s[|r|..])
    ensures |r| == 0 || !IsWhiteSpace(r[|r| - 1])
  {
    if |s| == 0 || !IsWhiteSpace(s[|s| - 1]) then s
    else
      var r := TrimEnd(s[..|s| - 1]);
      assert s[|r|..] == s[..|s| - 1][|r|..] + [s[|s| - 1]];
      r
  }

  /** How many white-space characters `s` starts with. */
  function LeadingWhiteSpace(s: string): (n: nat)
    ensures n <= |s|
  {
    |s| - |TrimStart(s)|
  }

  /** `String.prototype.trim`: what is left once white space is cut from
      both ends; it neither starts nor ends with white space. */
  function Trim(s: string): (r: string)
    ensures |r| <= |s|
    ensures |r| == 0 || (!IsWhiteSpace(r[0]) && !IsWhiteSpace(r[|r| - 1]))
  {
    var t := TrimStart(s);
    var r := TrimEnd(t);
    assert |r| > 0 ==> r[0] == t[0];
    r
  }

  /** What trimming keeps is the middle of the string: white space only
      before it and after it. */
  lemma TrimIsMiddle(s: string)
    ensures LeadingWhiteSpace(s) + |Trim(s)| <= |s|
    ensures Trim(s) == s[LeadingWhiteSpace(s)..LeadingWhiteSpace(s) + |Trim(s)|]
    ensures AllWhiteSpace(s[..LeadingWhiteSpace(s)])
    ensures AllWhiteSpace(s[LeadingWhiteSpace(s) + |Trim(s)|..])
  {
    var t := TrimStart(s);
    TrimSlices(s, t, TrimEnd(t), LeadingWhiteSpace(s));
  }

  /** Cutting white space from the front and then from the back leaves a
      middle slice with white space on either side. */
  lemma TrimSlices(s: string, t: string, r: string, n: nat)
    requires n + |t| == |s| && t == s[n..]
    requires |r| <= |t| && r == t[..|r|]
    requires AllWhiteSpace(s[..n]) && AllWhiteSpace(t[|r|..])
    requires |t| == 0 || !IsWhiteSpace(t[0])
    requires |r| == 0 || !IsWhiteSpace(r[|r| - 1])
    ensures n + |r| <= |s|
    ensures r == s[n..n + |r|]
    ensures AllWhiteSpace(s[..n])
    ensures AllWhiteSpace(s[n + |r|..])
    ensures |r| == 0 || (!IsWhiteSpace(r[0]) && !IsWhiteSpace(r[|r| - 1]))
  {
    assert s[n + |r|..] == t[|r|..];
    if |r| > 0 {
      assert r[0] == t[0];
    }
  }

  /** `!s.trim()`: the string is empty or white space only. */
  predicate IsBlank(s: string)
  {
    Trim(s) == ""
  }

  lemma AllWhiteSpaceConcat(a: string, b: string)
    requires AllWhiteSpace(a) && AllWhiteSpace(b)
    ensures AllWhiteSpace(a + b)
  {
  }

  lemma BlankIffAllWhiteSpace(s: string)
    ensures IsBlank(s) <==> AllWhiteSpace(s)
  {
    var i := LeadingWhiteSpace(s);
    var r := Trim(s);
    TrimIsMiddle(s);
    if |r| > 0 {
      assert r[0] == s[i];
    } else {
      var t := TrimStart(s);
      assert t == s[i..];
      assert t[|r|..] == t;
      AllWhiteSpaceConcat(s[..i], t);
      assert s == s[..i] + t;
    }
  }

  /** Trimming twice is trimming once. */
  lemma TrimIdempotent(s: string)
    ensures Trim(Trim(s)) == Trim(s)
  {
    var t := Trim(s);
    assert TrimStart(t) == t;
    assert TrimEnd(t) == t;
  }

  /** `toLowerCase`, on the ASCII letters only. */
  function LowerChar(c: char): (r: char)
    ensures 'A' <= c <= 'Z' ==> r as int == c as int + 32
    ensures !('A' <= c <= 'Z') ==> r == c
  {
    if 'A' <= c <= 'Z' then (c as int + 32) as char else c
  }

  function ToLower(s: string): (r: string)
    ensures |r| == |s|
    ensures forall i :: 0 <= i < |s| ==> r[i] == LowerChar(s[i])
    ensures forall i :: 0 <= i < |r| ==> !('A' <= r[i] <= 'Z')
  {
    Map(s, LowerChar)
  }

  lemma ToLowerIdempotent(s: string)
    ensures ToLower(ToLower(s)) == ToLower(s)
  {
  }

  predicate IsPrefix(p: string, s: string)
  {
    |p| <= |s| && s[..|p|] == p
  }

  /** `hay.includes(needle)`, as a scan. */
  predicate Contains(hay: string, needle: string)
    decreases |hay|
  {
    IsPrefix(needle, hay) || (|hay| > 0 && Contains(hay[1..], needle))
  }

  /** `needle` occurs in `hay` starting at position `i`. */
  predicate OccursAt(hay: string, needle: string, i: int)
  {
    0 <= i <= |hay| - |needle| && hay[i..i + |needle|] == needle
  }

  /** The scan finds exactly the needles that occur at some position. */
  lemma {:induction false} ContainsIffOccurs(hay: string, needle: string)
    ensures Contains(hay, needle) <==> exists i :: OccursAt(hay, needle, i)
    decreases |hay|
  {
    if IsPrefix(needle, hay) {
      assert OccursAt(hay, needle, 0);
    } else if |hay| > 0 {
      ContainsIffOccurs(hay[1..], needle);
      if Contains(hay[1..], needle) {
        var i :| OccursAt(hay[1..], needle, i);
        assert hay[i + 1..i + 1 + |needle|] == hay[1..][i..i + |needle|];
        assert OccursAt(hay, needle, i + 1);
      }
      if exists i :: OccursAt(hay, needle, i) {
        var i :| OccursAt(hay, needle, i);
        assert i != 0;
        assert hay[1..][i - 1..i - 1 + |needle|] == hay[i..i + |needle|];
        assert OccursAt(hay[1..], needle, i - 1);
      }
    } else {
      assert !OccursAt(hay, needle, 0);
      assert forall i :: !OccursAt(hay, needle, i);
    }
  }

  /** A needle longer than the haystack is never found. */
  lemma {:induction false} ContainsNeedsRoom(hay: string, needle: string)
    ensures Contains(hay, needle) ==> |needle| <= |hay|
    decreases |hay|
  {
    if |hay| > 0 {
      ContainsNeedsRoom(hay[1..], needle);
    }
  }

  /** Lower-casing neither makes nor unmakes white space. */
  lemma ToLowerKeepsBlank(s: string)
    ensures IsBlank(ToLower(s)) <==> IsBlank(s)
  {
    var t := ToLower(s);
    BlankIffAllWhiteSpace(s);
    BlankIffAllWhiteSpace(t);
    forall i | 0 <= i < |s| ensures IsWhiteSpace(t[i]) <==> IsWhiteSpace(s[i]) {
      LowerCharKeepsWhiteSpace(s[i]);
    }
  }

  /** A string with a character other than white space is not blank. */
  lemma NotBlankWithNonWhiteSpace(s: string, i: nat)
    requires i < |s| && !IsWhiteSpace(s[i])
    ensures !IsBlank(s)
  {
    BlankIffAllWhiteSpace(s);
  }

  lemma LowerCharKeepsWhiteSpace(c: char)
    ensures IsWhiteSpace(LowerChar(c)) <==> IsWhiteSpace(c)
  {
  }
}
