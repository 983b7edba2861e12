/** The generic ordered set (`my_set`): a list of elements kept in strictly
    ascending order under a user comparator, with one internal iterator.

    A set instance is a value `MySet(elems, cursor)`: `elems` is the list from
    head to tail and `cursor` is the index of the iterator's node, `None` when
    the iterator is invalid (NULL). Every API call takes the set and element
    pointers as `Option`s so that the NULL paths are part of the model, and
    returns the updated set together with its result. */
module MySet {
  import opened Wrappers
  import opened Comparators

  datatype MySetResult =
    | Success
    | OutOfMemory
    | NullArgument
    | ItemAlreadyExists
    | ItemDoesNotExist

  datatype MySet<T> = MySet(elems: seq<T>, cursor: Option<nat>)

  /* ---------------------------------------------------------------------- */
  /* Ordering vocabulary                                                    */
  /* ---------------------------------------------------------------------- */

  /** Strictly ascending under `cmp`: no two elements compare equal. */
  ghost predicate Sorted<T>(cmp: (T, T) -> int, s: seq<T>) {
    forall i, j :: 0 <= i < j < |s| ==> cmp(s[i], s[j]) < 0
  }

  /** The representation invariant of a set instance. */
  ghost predicate Valid<T>(cmp: (T, T) -> int, st: MySet<T>) {
    && Sorted(cmp, st.elems)
    && (st.cursor.Some? ==> st.cursor.value < |st.elems|)
  }

  /** Some element of `s` compares equal to `e`. */
  ghost predicate Has<T>(cmp: (T, T) -> int, s: seq<T>, e: T) {
    exists i :: 0 <= i < |s| && cmp(s[i], e) == 0
  }

  /** Every element of `s` sorts strictly before `e`. */
  ghost predicate AllBefore<T>(cmp: (T, T) -> int, s: seq<T>, e: T) {
    forall i :: 0 <= i < |s| ==> cmp(s[i], e) < 0
  }

  /* ---------------------------------------------------------------------- */
  /* List-level helpers                                                     */
  /* ---------------------------------------------------------------------- */

  /** Linear scan for an element comparing equal to `e`. */
  function Find<T>(cmp: (T, T) -> int, s: seq<T>, e: T): (found: bool)
    ensures found <==> Has(cmp, s, e)
  {
    if |s| == 0 then false
    else if cmp(s[0], e) == 0 then true
    else
      var rest := Find(cmp, s[1..], e);
      assert Has(cmp, s[1..], e) ==> Has(cmp, s, e) by {
        if Has(cmp, s[1..], e) {
          var i :| 0 <= i < |s[1..]| && cmp(s[1..][i], e) == 0;
          assert cmp(s[i + 1], e) == 0;
        }
      }
      assert Has(cmp, s, e) ==> Has(cmp, s[1..], e) by {
        if Has(cmp, s, e) {
          var i :| 0 <= i < |s| && cmp(s[i], e) == 0;
          assert i != 0;
          assert cmp(s[1..][i - 1], e) == 0;
        }
      }
      rest
  }

  /** Index of the first element comparing equal to `e`: the node the
      extraction loop stops at. */
  function Position<T>(cmp: (T, T) -> int, s: seq<T>, e: T): (k: nat)
    requires Has(cmp, s, e)
    ensures k < |s| && cmp(s[k], e) == 0
    ensures forall j :: 0 <= j < k ==> cmp(s[j], e) != 0
  {
    if cmp(s[0], e) == 0 then 0
    else
      assert Has(cmp, s[1..], e) by {
        var i :| 0 <= i < |s| && cmp(s[i], e) == 0;
        assert cmp(s[1..][i - 1], e) == 0;
      }
      1 + Position(cmp, s[1..], e)
  }

  /** Where the insertion walk puts a new element: in front of the first
      element that sorts after it, or at the tail when there is none. */
  function InsertionPoint<T>(cmp: (T, T) -> int, s: seq<T>, e: T): (i: nat)
    ensures i <= |s|
    ensures forall j :: 0 <= j < i ==> cmp(s[j], e) <= 0
    ensures i < |s| ==> cmp(s[i], e) > 0
  {
    if |s| == 0 || cmp(s[0], e) > 0 then 0
    else 1 + InsertionPoint(cmp, s[1..], e)
  }

  function Insert<T>(cmp: (T, T) -> int, s: seq<T>, e: T): seq<T> {
    var i := InsertionPoint(cmp, s, e);
    s[..i] + [e] + s[i..]
  }

  function RemoveAt<T>(s: seq<T>, k: nat): seq<T>
    requires k < |s|
  {
    s[..k] + s[k + 1..]
  }

  /** Joining two sorted lists around a pivot that separates them gives a
      sorted list. */
  lemma SortedJoin<T>(cmp: (T, T) -> int, a: seq<T>, e: T, b: seq<T>)
    requires Sorted(cmp, a) && Sorted(cmp, b)
    requires AllBefore(cmp, a, e)
    requires forall j :: 0 <= j < |b| ==> cmp(e, b[j]) < 0
    requires forall i, j :: 0 <= i < |a| && 0 <= j < |b| ==> cmp(a[i], b[j]) < 0
    ensures Sorted(cmp, a + [e] + b)
  {
    var r := a + [e] + b;
    forall x, y | 0 <= x < y < |r| ensures cmp(r[x], r[y]) < 0 {
      if y < |a| {
        assert r[x] == a[x] && r[y] == a[y];
      } else if y == |a| {
        assert r[x] == a[x];
      } else if x < |a| {
        assert r[x] == a[x] && r[y] == b[y - |a| - 1];
      } else if x == |a| {
        assert r[y] == b[y - |a| - 1];
      } else {
        assert r[x] == b[x - |a| - 1] && r[y] == b[y - |a| - 1];
      }
    }
  }

  /** Every element in front of the insertion point sorts before a new
      element. */
  lemma BeforeInsertionPoint<T>(cmp: (T, T) -> int, s: seq<T>, e: T)
    requires !Has(cmp, s, e)
    ensures AllBefore(cmp, s[..InsertionPoint(cmp, s, e)], e)
  {
    var p := InsertionPoint(cmp, s, e);
    forall j | 0 <= j < p ensures cmp(s[..p][j], e) < 0 {
      assert s[..p][j] == s[j];
      assert cmp(s[j], e) != 0;
    }
  }

  /** Every element from the insertion point on sorts after a new element. */
  lemma AfterInsertionPoint<T(!new)>(cmp: (T, T) -> int, s: seq<T>, e: T)
    requires IsComparator(cmp) && Sorted(cmp, s)
    ensures var p := InsertionPoint(cmp, s, e);
            forall j :: 0 <= j < |s[p..]| ==> cmp(e, s[p..][j]) < 0
  {
    var p := InsertionPoint(cmp, s, e);
    forall j | 0 <= j < |s[p..]| ensures cmp(e, s[p..][j]) < 0 {
      assert s[p..][j] == s[p + j];
      assert cmp(s[p], e) > 0;
      assert cmp(e, s[p]) < 0;
      if j > 0 {
        assert cmp(s[p], s[p + j]) < 0;
      }
    }
  }

  /** The two halves of a sorted list are sorted, and the first sorts
      before the second. */
  lemma SortedSplit<T>(cmp: (T, T) -> int, s: seq<T>, p: nat)
    requires Sorted(cmp, s) && p <= |s|
    ensures Sorted(cmp, s[..p]) && Sorted(cmp, s[p..])
    ensures forall i, j :: 0 <= i < |s[..p]| && 0 <= j < |s[p..]| ==> cmp(s[..p][i], s[p..][j]) < 0
  {
    forall i, j | 0 <= i < |s[..p]| && 0 <= j < |s[p..]| ensures cmp(s[..p][i], s[p..][j]) < 0 {
      assert s[..p][i] == s[i] && s[p..][j] == s[p + j];
    }
    forall i, j | 0 <= i < j < |s[p..]| ensures cmp(s[p..][i], s[p..][j]) < 0 {
      assert s[p..][i] == s[p + i] && s[p..][j] == s[p + j];
    }
  }

  /** Inserting an element the list does not hold keeps it strictly sorted. */
  lemma InsertKeepsSorted<T(!new)>(cmp: (T, T) -> int, s: seq<T>, e: T)
    requires IsComparator(cmp)
    requires Sorted(cmp, s) && !Has(cmp, s, e)
    ensures Sorted(cmp, Insert(cmp, s, e))
  {
    var p := InsertionPoint(cmp, s, e);
    SortedSplit(cmp, s, p);
    BeforeInsertionPoint(cmp, s, e);
    AfterInsertionPoint(cmp, s, e);
    SortedJoin(cmp, s[..p], e, s[p..]);
  }

  /** Removing any one element keeps a list strictly sorted. */
  lemma RemoveAtKeepsSorted<T>(cmp: (T, T) -> int, s: seq<T>, k: nat)
    requires k < |s| && Sorted(cmp, s)
    ensures Sorted(cmp, RemoveAt(s, k))
  {
    var r := RemoveAt(s, k);
    forall a, b | 0 <= a < b < |r| ensures cmp(r[a], r[b]) < 0 {
      var a' := if a < k then a else a + 1;
      var b' := if b < k then b else b + 1;
      assert r[a] == s[a'] && r[b] == s[b'];
    }
  }

  /** In a sorted list at most one element compares equal to a given value. */
  lemma SortedMatchUnique<T(!new)>(cmp: (T, T) -> int, s: seq<T>, e: T, k: nat)
    requires IsComparator(cmp) && Sorted(cmp, s)
    requires k < |s| && cmp(s[k], e) == 0
    ensures forall j :: 0 <= j < |s| && j != k ==> cmp(s[j], e) != 0
  {
    forall j | 0 <= j < |s| && j != k ensures cmp(s[j], e) != 0 {
      BelowNotEqual(cmp, s[j], s[k], e);
      AboveNotEqual(cmp, s[k], s[j], e);
    }
  }

  /** So the first match is that element. */
  lemma SortedPositionUnique<T(!new)>(cmp: (T, T) -> int, s: seq<T>, e: T, i: nat)
    requires IsComparator(cmp) && Sorted(cmp, s)
    requires i < |s| && cmp(s[i], e) == 0
    ensures Has(cmp, s, e) && Position(cmp, s, e) == i
  {
    SortedMatchUnique(cmp, s, e, i);
  }

  /* ---------------------------------------------------------------------- */
  /* The API                                                                */
  /* ---------------------------------------------------------------------- */

  /** A set exists only when all three callbacks (copy, free, compare) are
      supplied; it starts empty with an invalid iterator. */
  function Create<T>(hasCopy: bool, hasFree: bool, hasCompare: bool): (r: Option<MySet<T>>)
    ensures r.Some? <==> hasCopy && hasFree && hasCompare
    ensures r.Some? ==> |r.value.elems| == 0 && r.value.cursor.None?
  {
    if !hasCopy || !hasFree || !hasCompare then None
    else Some(MySet([], None))
  }

  /** Number of elements; -1 for a NULL set. */
  function GetSize<T>(st: Option<MySet<T>>): (n: int)
    ensures st.None? <==> n == -1
    ensures st.Some? ==> n == |st.value.elems|
  {
    match st
    case None => -1
    case Some(s) => |s.elems|
  }

  /** Membership by comparator; false when either pointer is NULL. The
      iterator is left where it was. */
  function IsIn<T>(cmp: (T, T) -> int, st: Option<MySet<T>>, e: Option<T>): (b: bool)
    ensures b <==> st.Some? && e.Some? && Has(cmp, st.value.elems, e.value)
  {
    st.Some? && e.Some? && Find(cmp, st.value.elems, e.value)
  }

  /** The element under the iterator, without moving it. */
  function GetCurrent<T>(st: Option<MySet<T>>): (x: Option<T>)
    ensures x.Some? ==> st.Some? && st.value.cursor.Some?
    ensures st.Some? && st.value.cursor.Some? && st.value.cursor.value < |st.value.elems|
            ==> x == Some(st.value.elems[st.value.cursor.value])
  {
    match st
    case None => None
    case Some(s) =>
      match s.cursor
      case None => None
      case Some(k) => if k < |s.elems| then Some(s.elems[k]) else None
  }

  /** Moves the iterator to the head (the smallest element) and returns it;
      NULL for an empty or NULL set. */
  function GetFirst<T>(st: Option<MySet<T>>): (r: (Option<T>, Option<MySet<T>>))
    ensures st.None? <==> r.1.None?
    ensures r.1.Some? ==> r.1.value.elems == st.value.elems
    ensures r.0 == GetCurrent(r.1)
    ensures r.0.None? <==> st.None? || |st.value.elems| == 0
  {
    match st
    case None => (None, None)
    case Some(s) =>
      if |s.elems| == 0 then (None, Some(s.(cursor := None)))
      else (Some(s.elems[0]), Some(s.(cursor := Some(0))))
  }

  /** Advances the iterator and returns the new current element; NULL, with
      the iterator left invalid, once it walks past the tail or when it was
      invalid to begin with. */
  function GetNext<T>(st: Option<MySet<T>>): (r: (Option<T>, Option<MySet<T>>))
    ensures st.None? <==> r.1.None?
    ensures r.1.Some? ==> r.1.value.elems == st.value.elems
    ensures r.0 == GetCurrent(r.1)
    ensures st.Some? && st.value.cursor.None? ==> r.1 == st
  {
    match st
    case None => (None, None)
    case Some(s) =>
      match s.cursor
      case None => (None, st)
      case Some(k) =>
        if k + 1 < |s.elems| then (Some(s.elems[k + 1]), Some(s.(cursor := Some(k + 1))))
        else (None, Some(s.(cursor := None)))
  }

  /** Adds a copy of `e` at its sorted position. The iterator is undefined
      afterwards; the model leaves it invalid. */
  function Add<T>(cmp: (T, T) -> int, st: Option<MySet<T>>, e: Option<T>): (r: (MySetResult, Option<MySet<T>>))
    ensures r.0 in {Success, NullArgument, ItemAlreadyExists}
    ensures r.0 == NullArgument <==> st.None? || e.None?
    ensures r.0 == ItemAlreadyExists <==> st.Some? && e.Some? && Has(cmp, st.value.elems, e.value)
    ensures r.0 != Success ==> r.1 == st
    ensures r.0 == Success ==>
              && r.1.Some? && r.1.value.cursor.None?
              && |r.1.value.elems| == |st.value.elems| + 1
              && multiset(r.1.value.elems) == multiset(st.value.elems) + multiset{e.value}
  {
    if st.None? || e.None? then (NullArgument, st)
    else if IsIn(cmp, st, e) then (ItemAlreadyExists, st)
    else
      var s := st.value.elems;
      var i := InsertionPoint(cmp, s, e.value);
      assert s == s[..i] + s[i..];
      (Success, Some(MySet(Insert(cmp, s, e.value), None)))
  }

  /** Removes the stored element comparing equal to `e` and hands it to the
      caller (NULL when there is none). The iterator is left invalid. */
  function Extract<T>(cmp: (T, T) -> int, st: Option<MySet<T>>, e: Option<T>): (r: (Option<T>, Option<MySet<T>>))
    ensures r.0.Some? <==> IsIn(cmp, st, e)
    ensures r.0.None? ==> r.1 == st
    ensures r.0.Some? ==>
              && cmp(r.0.value, e.value) == 0
              && r.1.Some? && r.1.value.cursor.None?
              && |r.1.value.elems| + 1 == |st.value.elems|
              && multiset(r.1.value.elems) + multiset{r.0.value} == multiset(st.value.elems)
  {
    if !IsIn(cmp, st, e) then (None, st)
    else
      var s := st.value.elems;
      var k := Position(cmp, s, e.value);
      assert s == s[..k] + [s[k]] + s[k + 1..];
      (Some(s[k]), Some(MySet(RemoveAt(s, k), None)))
  }

  /** Removes the element comparing equal to `e` (extract, then free). */
  function Remove<T>(cmp: (T, T) -> int, st: Option<MySet<T>>, e: Option<T>): (r: (MySetResult, Option<MySet<T>>))
    ensures r.0 in {Success, NullArgument, ItemDoesNotExist}
    ensures r.0 == NullArgument <==> st.None? || e.None?
    ensures r.0 == ItemDoesNotExist <==> st.Some? && e.Some? && !Has(cmp, st.value.elems, e.value)
    ensures r.0 != Success ==> r.1 == st
    ensures r.0 == Success ==> r.1 == Extract(cmp, st, e).1
  {
    if st.None? || e.None? then (NullArgument, st)
    else if !IsIn(cmp, st, e) then (ItemDoesNotExist, st)
    else (Success, Extract(cmp, st, e).1)
  }

  /** Empties the set; the iterator ends invalid. */
  function Clear<T>(st: Option<MySet<T>>): (r: (MySetResult, Option<MySet<T>>))
    ensures r.0 == NullArgument <==> st.None?
    ensures r.0 == Success <==> st.Some?
    ensures st.None? ==> r.1 == st
    ensures st.Some? ==> r.1 == Some(MySet([], None))
  {
    if st.None? then (NullArgument, st)
    else (Success, Some(MySet([], None)))
  }

  /** Adds every element of `xs`, in order, to `acc` with `Add`. */
  function AddEach<T>(cmp: (T, T) -> int, acc: MySet<T>, xs: seq<T>): MySet<T>
    decreases |xs|
  {
    if |xs| == 0 then acc
    else AddEach(cmp, Add(cmp, Some(acc), Some(xs[0])).1.value, xs[1..])
  }

  /** A copy is a fresh set into which every element of the source is added
      head first; NULL when the source is NULL. */
  function Copy<T>(cmp: (T, T) -> int, st: Option<MySet<T>>): (r: Option<MySet<T>>)
    ensures r.Some? <==> st.Some?
  {
    match st
    case None => None
    case Some(s) => Some(AddEach(cmp, MySet([], None), s.elems))
  }

  /** Adds to `acc`, in order, the elements of `xs` that satisfy `keep`. */
  function AddEachIf<T>(cmp: (T, T) -> int, keep: T -> bool, acc: MySet<T>, xs: seq<T>): MySet<T>
    decreases |xs|
  {
    if |xs| == 0 then acc
    else if keep(xs[0]) then AddEachIf(cmp, keep, Add(cmp, Some(acc), Some(xs[0])).1.value, xs[1..])
    else AddEachIf(cmp, keep, acc, xs[1..])
  }

  /** A new set of the elements satisfying `condition`; NULL when the set or
      the condition is NULL. */
  function Filter<T>(cmp: (T, T) -> int, st: Option<MySet<T>>, condition: Option<T -> bool>): (r: Option<MySet<T>>)
    ensures r.Some? <==> st.Some? && condition.Some?
  {
    if st.None? || condition.None? then None
    else Some(AddEachIf(cmp, condition.value, MySet([], None), st.value.elems))
  }

  /* ---------------------------------------------------------------------- */
  /* Reference definitions and properties                                   */
  /* ---------------------------------------------------------------------- */

  /** The subsequence of `xs` whose elements satisfy `keep`. */
  function Keep<T>(keep: T -> bool, xs: seq<T>): (r: seq<T>)
    ensures |r| <= |xs|
    ensures forall i :: 0 <= i < |r| ==> keep(r[i])
    ensures forall x :: x in r ==> x in xs
  {
    if |xs| == 0 then []
    else if keep(xs[0]) then [xs[0]] + Keep(keep, xs[1..])
    else Keep(keep, xs[1..])
  }

  /** Adding an element that sorts after everything already present appends
      it at the tail. */
  lemma AddAfterAllAppends<T>(cmp: (T, T) -> int, acc: MySet<T>, x: T)
    requires AllBefore(cmp, acc.elems, x)
    ensures Add(cmp, Some(acc), Some(x)) == (Success, Some(MySet(acc.elems + [x], None)))
  {
    var s := acc.elems;
    assert forall i :: 0 <= i < |s| ==> cmp(s[i], x) != 0;
    assert !Has(cmp, s, x);
    var p := InsertionPoint(cmp, s, x);
    assert p == |s|;
    assert s[..p] == s && s[p..] == [];
    assert Insert(cmp, s, x) == s + [x];
  }

  /** The head of the continuation sorts after the prefix. */
  lemma SortedNextAfterPrefix<T>(cmp: (T, T) -> int, a: seq<T>, xs: seq<T>)
    requires Sorted(cmp, a + xs) && |xs| > 0
    ensures AllBefore(cmp, a, xs[0])
  {
    var all := a + xs;
    forall i | 0 <= i < |a| ensures cmp(a[i], xs[0]) < 0 {
      assert all[i] == a[i] && all[|a|] == xs[0];
    }
  }

  /** Dropping the head of the continuation keeps the whole sorted. */
  lemma SortedSkipNext<T>(cmp: (T, T) -> int, a: seq<T>, xs: seq<T>)
    requires Sorted(cmp, a + xs) && |xs| > 0
    ensures Sorted(cmp, a + xs[1..])
  {
    RemoveAtKeepsSorted(cmp, a + xs, |a|);
    assert RemoveAt(a + xs, |a|) == a + xs[1..];
  }

  /** Adding the elements of a list that continues `acc` in sorted order
      appends them all, in order. */
  lemma {:induction false} AddEachAppends<T>(cmp: (T, T) -> int, acc: MySet<T>, xs: seq<T>)
    requires acc.cursor.None?
    requires Sorted(cmp, acc.elems + xs)
    ensures AddEach(cmp, acc, xs) == MySet(acc.elems + xs, None)
    decreases |xs|
  {
    if |xs| == 0 {
      assert acc.elems + xs == acc.elems;
    } else {
      SortedNextAfterPrefix(cmp, acc.elems, xs);
      AddAfterAllAppends(cmp, acc, xs[0]);
      var next := MySet(acc.elems + [xs[0]], None);
      assert next.elems + xs[1..] == acc.elems + xs;
      AddEachAppends(cmp, next, xs[1..]);
    }
  }

  /** Filtering a list that continues `acc` in sorted order appends exactly
      the kept elements, in order. */
  lemma {:induction false} AddEachIfAppends<T>(cmp: (T, T) -> int, keep: T -> bool, acc: MySet<T>, xs: seq<T>)
    requires acc.cursor.None?
    requires Sorted(cmp, acc.elems + xs)
    ensures AddEachIf(cmp, keep, acc, xs) == MySet(acc.elems + Keep(keep, xs), None)
    decreases |xs|
  {
    if |xs| == 0 {
      assert acc.elems + Keep(keep, xs) == acc.elems;
    } else if keep(xs[0]) {
      SortedNextAfterPrefix(cmp, acc.elems, xs);
      AddAfterAllAppends(cmp, acc, xs[0]);
      var next := MySet(acc.elems + [xs[0]], None);
      assert next.elems + xs[1..] == acc.elems + xs;
      AddEachIfAppends(cmp, keep, next, xs[1..]);
      assert acc.elems + Keep(keep, xs) == next.elems + Keep(keep, xs[1..]);
    } else {
      SortedSkipNext(cmp, acc.elems, xs);
      AddEachIfAppends(cmp, keep, acc, xs[1..]);
    }
  }

  /** A copy holds the same elements in the same order, with an invalid
      iterator: its current element is NULL until it is walked. */
  lemma CopyIsEqual<T>(cmp: (T, T) -> int, st: MySet<T>)
    requires Valid(cmp, st)
    ensures Copy(cmp, Some(st)) == Some(MySet(st.elems, None))
    ensures GetCurrent(Copy(cmp, Some(st))).None?
  {
    assert [] + st.elems == st.elems;
    AddEachAppends(cmp, MySet([], None), st.elems);
  }

  /** A filtered set holds exactly the elements that satisfy the condition,
      in their original order, and is itself a valid set. */
  lemma FilterKeepsOrder<T>(cmp: (T, T) -> int, st: MySet<T>, condition: T -> bool)
    requires Valid(cmp, st)
    ensures Filter(cmp, Some(st), Some(condition)) == Some(MySet(Keep(condition, st.elems), None))
    ensures Valid(cmp, MySet(Keep(condition, st.elems), None))
    ensures forall x :: x in Keep(condition, st.elems) <==> x in st.elems && condition(x)
  {
    assert [] + st.elems == st.elems;
    AddEachIfAppends(cmp, condition, MySet([], None), st.elems);
    assert [] + Keep(condition, st.elems) == Keep(condition, st.elems);
    KeepKeepsSorted(cmp, condition, st.elems);
    forall x | x in st.elems && condition(x) ensures x in Keep(condition, st.elems) {
      KeepComplete(condition, st.elems, x);
    }
  }

  /** Putting an element in front of a sorted list it sorts before keeps the
      list sorted. */
  lemma SortedCons<T>(cmp: (T, T) -> int, x: T, t: seq<T>)
    requires Sorted(cmp, t)
    requires forall j :: 0 <= j < |t| ==> cmp(x, t[j]) < 0
    ensures Sorted(cmp, [x] + t)
  {
    var r := [x] + t;
    forall a, b | 0 <= a < b < |r| ensures cmp(r[a], r[b]) < 0 {
      assert r[b] == t[b - 1];
      if a > 0 {
        assert r[a] == t[a - 1];
      }
    }
  }

  /** A bound below every element of a list is below every kept element. */
  lemma {:induction false} KeepStaysAbove<T>(cmp: (T, T) -> int, keep: T -> bool, x: T, xs: seq<T>)
    requires forall j :: 0 <= j < |xs| ==> cmp(x, xs[j]) < 0
    ensures forall j :: 0 <= j < |Keep(keep, xs)| ==> cmp(x, Keep(keep, xs)[j]) < 0
    decreases |xs|
  {
    if |xs| > 0 {
      assert forall j :: 0 <= j < |xs[1..]| ==> cmp(x, xs[1..][j]) < 0 by {
        forall j | 0 <= j < |xs[1..]| ensures cmp(x, xs[1..][j]) < 0 {
          assert xs[1..][j] == xs[j + 1];
        }
      }
      KeepStaysAbove(cmp, keep, x, xs[1..]);
      if keep(xs[0]) {
        var r := Keep(keep, xs);
        forall j | 0 <= j < |r| ensures cmp(x, r[j]) < 0 {
          if j > 0 {
            assert r[j] == Keep(keep, xs[1..])[j - 1];
          }
        }
      }
    }
  }

  /** The kept subsequence of a sorted list is sorted. */
  lemma {:induction false} KeepKeepsSorted<T>(cmp: (T, T) -> int, keep: T -> bool, xs: seq<T>)
    requires Sorted(cmp, xs)
    ensures Sorted(cmp, Keep(keep, xs))
    decreases |xs|
  {
    if |xs| > 0 {
      SortedSkipNext(cmp, [], xs);
      assert [] + xs == xs && [] + xs[1..] == xs[1..];
      KeepKeepsSorted(cmp, keep, xs[1..]);
      if keep(xs[0]) {
        forall j | 0 <= j < |xs[1..]| ensures cmp(xs[0], xs[1..][j]) < 0 {
          assert xs[1..][j] == xs[j + 1];
        }
        KeepStaysAbove(cmp, keep, xs[0], xs[1..]);
        SortedCons(cmp, xs[0], Keep(keep, xs[1..]));
      }
    }
  }

  /** Every element of the source that satisfies the condition survives the
      filter. */
  lemma {:induction false} KeepComplete<T>(keep: T -> bool, xs: seq<T>, x: T)
    requires x in xs && keep(x)
    ensures x in Keep(keep, xs)
    decreases |xs|
  {
    if xs[0] != x {
      assert x in xs[1..];
      KeepComplete(keep, xs[1..], x);
    }
  }

  /** Adding to a valid set keeps it valid and the element is then present,
      so adding it again reports that it already exists. */
  lemma AddKeepsValid<T(!new)>(cmp: (T, T) -> int, st: MySet<T>, e: T)
    requires IsComparator(cmp) && Valid(cmp, st)
    ensures var r := Add(cmp, Some(st), Some(e));
            && r.1.Some? && Valid(cmp, r.1.value)
            && Has(cmp, r.1.value.elems, e)
            && Add(cmp, r.1, Some(e)).0 == ItemAlreadyExists
  {
    var r := Add(cmp, Some(st), Some(e));
    Reflexive(cmp, e);
    if r.0 == Success {
      InsertKeepsSorted(cmp, st.elems, e);
      var p := InsertionPoint(cmp, st.elems, e);
      assert r.1.value.elems[p] == e;
    }
  }

  /** Extracting from a valid set keeps it valid, and afterwards nothing in
      the set compares equal to the extracted key. */
  lemma ExtractKeepsValid<T(!new)>(cmp: (T, T) -> int, st: MySet<T>, e: T)
    requires IsComparator(cmp) && Valid(cmp, st)
    ensures var r := Extract(cmp, Some(st), Some(e));
            && r.1.Some? && Valid(cmp, r.1.value)
            && !Has(cmp, r.1.value.elems, e)
  {
    var s := st.elems;
    if Has(cmp, s, e) {
      var k := Position(cmp, s, e);
      RemoveAtKeepsSorted(cmp, s, k);
      SortedMatchUnique(cmp, s, e, k);
      var t := RemoveAt(s, k);
      forall i | 0 <= i < |t| ensures cmp(t[i], e) != 0 {
        var i' := if i < k then i else i + 1;
        assert t[i] == s[i'];
      }
    }
  }

  /** Insertion puts the new element at the insertion point and nowhere
      else. */
  lemma InsertedAt<T>(cmp: (T, T) -> int, s: seq<T>, e: T)
    ensures var p := InsertionPoint(cmp, s, e);
            && Insert(cmp, s, e)[p] == e
            && RemoveAt(Insert(cmp, s, e), p) == s
  {
    var p := InsertionPoint(cmp, s, e);
    var t := Insert(cmp, s, e);
    assert t[..p] == s[..p] && t[p + 1..] == s[p..];
    assert s == s[..p] + s[p..];
  }

  /** The inserted element is the one a later lookup finds. */
  lemma InsertedIsFound<T(!new)>(cmp: (T, T) -> int, s: seq<T>, e: T)
    requires IsComparator(cmp) && Sorted(cmp, s) && !Has(cmp, s, e)
    ensures Has(cmp, Insert(cmp, s, e), e)
    ensures Position(cmp, Insert(cmp, s, e), e) == InsertionPoint(cmp, s, e)
  {
    InsertKeepsSorted(cmp, s, e);
    InsertedAt(cmp, s, e);
    Reflexive(cmp, e);
    SortedPositionUnique(cmp, Insert(cmp, s, e), e, InsertionPoint(cmp, s, e));
  }

  /** Adding gains no element other than the one added. */
  lemma AddMembers<T>(cmp: (T, T) -> int, st: MySet<T>, e: T)
    ensures forall x :: x in Add(cmp, Some(st), Some(e)).1.value.elems ==> x == e || x in st.elems
  {
    var r := Add(cmp, Some(st), Some(e));
    forall x | x in r.1.value.elems ensures x == e || x in st.elems {
      assert x in multiset(r.1.value.elems);
    }
  }

  /** Extracting gains no element. */
  lemma ExtractMembers<T>(cmp: (T, T) -> int, st: MySet<T>, e: T)
    ensures forall x :: x in Extract(cmp, Some(st), Some(e)).1.value.elems ==> x in st.elems
  {
    var r := Extract(cmp, Some(st), Some(e));
    forall x | x in r.1.value.elems ensures x in st.elems {
      assert x in multiset(r.1.value.elems);
    }
  }

  /** Removing the only element that compares equal to `e` leaves exactly
      the elements that do not. */
  lemma RemoveMatchMembers<T>(cmp: (T, T) -> int, s: seq<T>, e: T, k: nat)
    requires k < |s| && cmp(s[k], e) == 0
    requires forall j :: 0 <= j < |s| && j != k ==> cmp(s[j], e) != 0
    ensures forall x :: x in RemoveAt(s, k) <==> x in s && cmp(x, e) != 0
  {
    var t := RemoveAt(s, k);
    forall x | x in t ensures x in s && cmp(x, e) != 0 {
      var j :| 0 <= j < |t| && t[j] == x;
      if j < k {
        assert x == s[j];
      } else {
        assert x == s[j + 1];
      }
    }
    forall x | x in s && cmp(x, e) != 0 ensures x in t {
      var j :| 0 <= j < |s| && s[j] == x;
      if j < k {
        assert t[j] == x;
      } else {
        assert t[j - 1] == x;
      }
    }
  }

  /** Extracting an element that is stored hands back that very element. */
  lemma ExtractStored<T(!new)>(cmp: (T, T) -> int, st: MySet<T>, e: T)
    requires IsComparator(cmp) && Valid(cmp, st) && e in st.elems
    ensures var r := Extract(cmp, Some(st), Some(e));
            r.0 == Some(e) && multiset(r.1.value.elems) + multiset{e} == multiset(st.elems)
  {
    var i :| 0 <= i < |st.elems| && st.elems[i] == e;
    Reflexive(cmp, e);
    assert Has(cmp, st.elems, e);
    var pos := Position(cmp, st.elems, e);
    SortedMatchUnique(cmp, st.elems, e, i);
    assert pos == i;
  }

  /** Adding a new element and then extracting it gives back the element and
      the original list. */
  lemma AddThenExtract<T(!new)>(cmp: (T, T) -> int, st: MySet<T>, e: T)
    requires IsComparator(cmp) && Valid(cmp, st) && !Has(cmp, st.elems, e)
    ensures var added := Add(cmp, Some(st), Some(e)).1;
            Extract(cmp, added, Some(e)) == (Some(e), Some(MySet(st.elems, None)))
  {
    var s := st.elems;
    var t := Insert(cmp, s, e);
    var added := Add(cmp, Some(st), Some(e)).1;
    assert added == Some(MySet(t, None));
    InsertedIsFound(cmp, s, e);
    InsertedAt(cmp, s, e);
    var p := InsertionPoint(cmp, s, e);
    assert t[p] == e;
    assert IsIn(cmp, added, Some(e));
  }

  /** Adding a new element and then removing it gives back the original
      list. */
  lemma AddThenRemove<T(!new)>(cmp: (T, T) -> int, st: MySet<T>, e: T)
    requires IsComparator(cmp) && Valid(cmp, st) && !Has(cmp, st.elems, e)
    ensures var added := Add(cmp, Some(st), Some(e)).1;
            Remove(cmp, added, Some(e)) == (Success, Some(MySet(st.elems, None)))
  {
    AddThenExtract(cmp, st, e);
  }

  /** Extracting the element the iterator's first step returns takes the
      head of the list: the smallest element. */
  lemma ExtractFirst<T(!new)>(cmp: (T, T) -> int, st: MySet<T>)
    requires IsComparator(cmp) && Valid(cmp, st) && |st.elems| > 0
    ensures var first := GetFirst(Some(st));
            Extract(cmp, first.1, first.0) == (Some(st.elems[0]), Some(MySet(st.elems[1..], None)))
    ensures Valid(cmp, MySet(st.elems[1..], None))
  {
    var s := st.elems;
    Reflexive(cmp, s[0]);
    SortedPositionUnique(cmp, s, s[0], 0);
    assert RemoveAt(s, 0) == s[1..];
    RemoveAtKeepsSorted(cmp, s, 0);
  }

  /** The first element is the smallest one. */
  lemma FirstIsLeast<T>(cmp: (T, T) -> int, st: MySet<T>)
    requires Valid(cmp, st) && |st.elems| > 0
    ensures var x := GetFirst(Some(st)).0;
            x.Some? && forall i :: 0 < i < |st.elems| ==> cmp(x.value, st.elems[i]) < 0
  {
  }

  /* ---------------------------------------------------------------------- */
  /* Iteration                                                              */
  /* ---------------------------------------------------------------------- */

  /** The set after `GetFirst` followed by `n` calls of `GetNext`. */
  function Walk<T>(st: MySet<T>, n: nat): MySet<T> {
    if n == 0 then GetFirst(Some(st)).1.value
    else GetNext(Some(Walk(st, n - 1))).1.value
  }

  /** The walk visits the elements in list order, one per call, and then stays
      at NULL; the elements are never touched. */
  lemma {:induction false} WalkVisitsInOrder<T>(st: MySet<T>, n: nat)
    ensures Walk(st, n).elems == st.elems
    ensures Walk(st, n).cursor == if n < |st.elems| then Some(n) else None
    ensures GetCurrent(Some(Walk(st, n))) == if n < |st.elems| then Some(st.elems[n]) else None
  {
    if n > 0 {
      WalkVisitsInOrder(st, n - 1);
    }
  }

  /** The FOREACH macro: `GetFirst`, then `GetNext` until NULL, collecting each
      element the loop body sees. It sees every element, once, in ascending
      order, and leaves the iterator invalid. */
  method ForEach<T>(st: MySet<T>) returns (visited: seq<T>, after: MySet<T>)
    ensures visited == st.elems
    ensures after == MySet(st.elems, None)
  {
    var x, s := GetFirst(Some(st)).0, GetFirst(Some(st)).1;
    visited := [];
    while x.Some?
      invariant s.Some? && s.value.elems == st.elems
      invariant x == GetCurrent(s)
      invariant x.Some? ==> s.value.cursor == Some(|visited|) && |visited| < |st.elems|
      invariant x.Some? ==> visited == st.elems[..|visited|]
      invariant x.None? ==> visited == st.elems && s.value.cursor.None?
      decreases |st.elems| - |visited|
    {
      visited := visited + [x.value];
      var r := GetNext(s);
      x, s := r.0, r.1;
    }
    after := s.value;
  }
}
