/** The bucketed cache (`cache`): a fixed row of ordered sets ("cells").
    A user key function maps each element to the index of the cell it
    belongs in; the cache also keeps an iterator over cells.

    A cache instance is the value `Cache(cells, cursor)`: `cells` holds the
    cells in index order (its length is the cache size) and `cursor` is the
    iterator's cell index, `None` when invalid. Cache and element pointers
    are `Option`s, `None` standing for NULL. */
module Cache {
  import opened Wrappers
  import opened Comparators
  import MySet

  datatype CacheResult =
    | Success
    | NullArgument
    | OutOfRange
    | NoItemsInCell
    | ItemAlreadyExists
    | ItemDoesNotExist
    | OutOfMemory

  datatype Cache<T> = Cache(cells: seq<MySet.MySet<T>>, cursor: Option<nat>)

  /** An index names a cell of the cache. */
  predicate KeyInRange<T>(c: Cache<T>, k: int) {
    0 <= k < |c.cells|
  }

  /** The representation invariant: at least one cell, every cell a valid
      ordered set whose elements all have that cell's key, and an iterator
      that is invalid or names a cell. */
  ghost predicate Valid<T>(cmp: (T, T) -> int, key: T -> int, c: Cache<T>) {
    && |c.cells| > 0
    && (forall i :: 0 <= i < |c.cells| ==> MySet.Valid(cmp, c.cells[i]))
    && (forall i, x :: 0 <= i < |c.cells| && x in c.cells[i].elems ==> key(x) == i)
    && (c.cursor.Some? ==> c.cursor.value < |c.cells|)
  }

  /** Elements the comparator calls equal share a key, so a lookup only has
      to search one cell. */
  ghost predicate KeyRespectsComparator<T(!new)>(cmp: (T, T) -> int, key: T -> int) {
    forall a, b :: cmp(a, b) == 0 ==> key(a) == key(b)
  }

  /** Some cell holds an element comparing equal to `e`. */
  ghost predicate Holds<T>(cmp: (T, T) -> int, c: Cache<T>, e: T) {
    exists i :: 0 <= i < |c.cells| && MySet.Has(cmp, c.cells[i].elems, e)
  }

  /** Some cell holds exactly `x` (where `Holds` asks only for an element
      comparing equal). */
  ghost predicate InCells<T>(cells: seq<MySet.MySet<T>>, x: T) {
    exists i :: 0 <= i < |cells| && x in cells[i].elems
  }

  /** The order of a cell-by-cell walk: by key, and within one key by the
      comparator. */
  ghost predicate InWalkOrder<T>(cmp: (T, T) -> int, key: T -> int, s: seq<T>) {
    forall i, j :: 0 <= i < j < |s| ==>
      key(s[i]) < key(s[j]) || (key(s[i]) == key(s[j]) && cmp(s[i], s[j]) < 0)
  }

  /** All elements, cell by cell, each cell in ascending order: the order in
      which a cell-by-cell walk meets them. */
  function Contents<T>(cells: seq<MySet.MySet<T>>): seq<T> {
    if |cells| == 0 then [] else cells[0].elems + Contents(cells[1..])
  }

  function EmptyCells<T>(size: nat): (cells: seq<MySet.MySet<T>>)
    ensures |cells| == size
    ensures forall i :: 0 <= i < size ==> cells[i] == MySet.MySet([], None)
  {
    seq(size, _ => MySet.MySet([], None))
  }

  /* ---------------------------------------------------------------------- */
  /* The API                                                                */
  /* ---------------------------------------------------------------------- */

  /** A cache of `size` empty cells; NULL when the size is not positive or a
      callback (free, copy, compare, key) is missing. */
  function Create<T>(size: int, hasFree: bool, hasCopy: bool, hasCompare: bool, hasKey: bool): (r: Option<Cache<T>>)
    ensures r.Some? <==> size > 0 && hasFree && hasCopy && hasCompare && hasKey
    ensures r.Some? ==>
              && |r.value.cells| == size && r.value.cursor.None?
              && Contents(r.value.cells) == []
  {
    if size <= 0 || !hasFree || !hasCopy || !hasCompare || !hasKey then None
    else
      var cells := EmptyCells(size);
      ContentsOfEmpty(cells);
      Some(Cache(cells, None))
  }

  /** Membership: the element's own cell is searched; false for NULL
      arguments and for an element whose key is out of range. */
  function IsIn<T>(cmp: (T, T) -> int, key: T -> int, cache: Option<Cache<T>>, e: Option<T>): (b: bool)
    ensures b <==> && cache.Some? && e.Some? && KeyInRange(cache.value, key(e.value))
                   && MySet.Has(cmp, cache.value.cells[key(e.value)].elems, e.value)
  {
    if cache.None? || e.None? then false
    else if !KeyInRange(cache.value, key(e.value)) then false
    else MySet.IsIn(cmp, Some(cache.value.cells[key(e.value)]), e)
  }

  /** Adds a copy of the element to the cell its key names. The cache's
      iterator is not touched. */
  function Push<T>(cmp: (T, T) -> int, key: T -> int, cache: Option<Cache<T>>, e: Option<T>): (r: (CacheResult, Option<Cache<T>>))
    ensures r.0 in {Success, NullArgument, OutOfRange, ItemAlreadyExists}
    ensures r.0 == NullArgument <==> cache.None? || e.None?
    ensures r.0 == OutOfRange <==> cache.Some? && e.Some? && !KeyInRange(cache.value, key(e.value))
    ensures r.0 == ItemAlreadyExists <==> IsIn(cmp, key, cache, e)
    ensures r.0 != Success ==> r.1 == cache
    ensures r.0 == Success ==>
              var k := key(e.value);
              && r.1.Some? && |r.1.value.cells| == |cache.value.cells|
              && r.1.value.cursor == cache.value.cursor
              && (forall i :: 0 <= i < |cache.value.cells| && i != k ==> r.1.value.cells[i] == cache.value.cells[i])
              && multiset(r.1.value.cells[k].elems) == multiset(cache.value.cells[k].elems) + multiset{e.value}
  {
    if cache.None? || e.None? then (NullArgument, cache)
    else
      var c := cache.value;
      var k := key(e.value);
      if !KeyInRange(c, k) then (OutOfRange, cache)
      else if IsIn(cmp, key, cache, e) then (ItemAlreadyExists, cache)
      else
        var added := MySet.Add(cmp, Some(c.cells[k]), e);
        (Success, Some(c.(cells := c.cells[k := added.1.value])))
  }

  /** Removes and destroys the stored element comparing equal to the given
      one. An out-of-range key reports that the item does not exist. */
  function FreeElement<T>(cmp: (T, T) -> int, key: T -> int, cache: Option<Cache<T>>, e: Option<T>): (r: (CacheResult, Option<Cache<T>>))
    ensures r.0 in {Success, NullArgument, ItemDoesNotExist}
    ensures r.0 == NullArgument <==> cache.None? || e.None?
    ensures r.0 == Success <==> IsIn(cmp, key, cache, e)
    ensures r.0 != Success ==> r.1 == cache
    ensures r.0 == Success ==>
              var k := key(e.value);
              && r.1.Some? && |r.1.value.cells| == |cache.value.cells|
              && r.1.value.cursor == cache.value.cursor
              && (forall i :: 0 <= i < |cache.value.cells| && i != k ==> r.1.value.cells[i] == cache.value.cells[i])
              && |r.1.value.cells[k].elems| + 1 == |cache.value.cells[k].elems|
  {
    if cache.None? || e.None? then (NullArgument, cache)
    else
      var c := cache.value;
      var k := key(e.value);
      if !KeyInRange(c, k) then (ItemDoesNotExist, cache)
      else
        var removed := MySet.Remove(cmp, Some(c.cells[k]), e);
        if removed.0 == MySet.ItemDoesNotExist then (ItemDoesNotExist, cache)
        else (Success, Some(c.(cells := c.cells[k := removed.1.value])))
  }

  /** Takes the first (smallest) element out of the cell `k` and hands it to
      the caller; NULL for a NULL cache, a key out of range or an empty
      cell. */
  function ExtractElementByKey<T>(cmp: (T, T) -> int, cache: Option<Cache<T>>, k: int): (r: (Option<T>, Option<Cache<T>>))
    ensures cache.None? || !KeyInRange(cache.value, k) || |cache.value.cells[k].elems| == 0 ==> r.0.None?
    ensures r.0.None? ==> r.1 == cache
    ensures r.0.Some? ==>
              && r.1.Some? && |r.1.value.cells| == |cache.value.cells|
              && r.1.value.cursor == cache.value.cursor
              && (forall i :: 0 <= i < |cache.value.cells| && i != k ==> r.1.value.cells[i] == cache.value.cells[i])
              && multiset(r.1.value.cells[k].elems) + multiset{r.0.value} == multiset(cache.value.cells[k].elems)
  {
    if cache.None? then (None, cache)
    else
      var c := cache.value;
      if !KeyInRange(c, k) then (None, cache)
      else if MySet.GetSize(Some(c.cells[k])) == 0 then (None, cache)
      else
        var first := MySet.GetFirst(Some(c.cells[k]));
        var extracted := MySet.Extract(cmp, first.1, first.0);
        if extracted.0.None? then (None, cache)
        else (extracted.0, Some(c.(cells := c.cells[k := extracted.1.value])))
  }

  /** Moves the iterator to cell 0 and returns that cell, empty or not. */
  function GetFirst<T>(cache: Option<Cache<T>>): (r: (Option<MySet.MySet<T>>, Option<Cache<T>>))
    requires cache.Some? ==> |cache.value.cells| > 0
    ensures cache.None? <==> r.1.None?
    ensures r.1.Some? ==> r.1.value.cells == cache.value.cells
    ensures r.0 == GetCurrent(r.1)
    ensures r.0.None? <==> cache.None?
  {
    match cache
    case None => (None, None)
    case Some(c) => (Some(c.cells[0]), Some(c.(cursor := Some(0))))
  }

  /** Moves the iterator to the next cell and returns it; NULL, with the
      iterator invalid, after the last cell or when it was invalid. */
  function GetNext<T>(cache: Option<Cache<T>>): (r: (Option<MySet.MySet<T>>, Option<Cache<T>>))
    ensures cache.None? <==> r.1.None?
    ensures r.1.Some? ==> r.1.value.cells == cache.value.cells
    ensures r.0 == GetCurrent(r.1)
    ensures cache.Some? && cache.value.cursor.None? ==> r.1 == cache
  {
    match cache
    case None => (None, None)
    case Some(c) =>
      match c.cursor
      case None => (None, cache)
      case Some(k) =>
        if k + 1 < |c.cells| then (Some(c.cells[k + 1]), Some(c.(cursor := Some(k + 1))))
        else (None, Some(c.(cursor := None)))
  }

  /** The cell under the iterator. */
  function GetCurrent<T>(cache: Option<Cache<T>>): (r: Option<MySet.MySet<T>>)
    ensures r.Some? ==> cache.Some? && cache.value.cursor.Some?
    ensures cache.Some? && cache.value.cursor.Some? && cache.value.cursor.value < |cache.value.cells|
            ==> r == Some(cache.value.cells[cache.value.cursor.value])
  {
    match cache
    case None => None
    case Some(c) =>
      match c.cursor
      case None => None
      case Some(k) => if k < |c.cells| then Some(c.cells[k]) else None
  }

  /** Empties every cell; the number of cells and the iterator stay. */
  function Clear<T>(cache: Option<Cache<T>>): (r: (CacheResult, Option<Cache<T>>))
    ensures r.0 == NullArgument <==> cache.None?
    ensures r.0 == Success <==> cache.Some?
    ensures cache.None? ==> r.1 == cache
    ensures cache.Some? ==>
              && r.1.Some? && |r.1.value.cells| == |cache.value.cells|
              && r.1.value.cursor == cache.value.cursor
              && Contents(r.1.value.cells) == []
  {
    match cache
    case None => (NullArgument, cache)
    case Some(c) =>
      var cells := seq(|c.cells|, i requires 0 <= i < |c.cells| => MySet.Clear(Some(c.cells[i])).1.value);
      assert cells == EmptyCells(|c.cells|);
      ContentsOfEmpty(cells);
      (Success, Some(c.(cells := cells)))
  }

  /* ---------------------------------------------------------------------- */
  /* Properties                                                             */
  /* ---------------------------------------------------------------------- */

  lemma {:induction false} ContentsOfEmpty<T>(cells: seq<MySet.MySet<T>>)
    requires forall i :: 0 <= i < |cells| ==> cells[i].elems == []
    ensures Contents(cells) == []
    decreases |cells|
  {
    if |cells| > 0 {
      ContentsOfEmpty(cells[1..]);
    }
  }

  /** A freshly created cache is valid. */
  lemma CreateIsValid<T>(cmp: (T, T) -> int, key: T -> int, size: int)
    requires size > 0
    ensures Create<T>(size, true, true, true, true).Some?
    ensures Valid(cmp, key, Create<T>(size, true, true, true, true).value)
  {
  }

  /** When equal elements share a key, looking in the element's own cell is
      the same as looking in every cell: `IsIn` answers whether the cache
      holds the element at all. */
  lemma IsInMeansHolds<T(!new)>(cmp: (T, T) -> int, key: T -> int, c: Cache<T>, e: T)
    requires Valid(cmp, key, c) && KeyRespectsComparator(cmp, key)
    ensures IsIn(cmp, key, Some(c), Some(e)) <==> Holds(cmp, c, e)
  {
    if Holds(cmp, c, e) {
      var i :| 0 <= i < |c.cells| && MySet.Has(cmp, c.cells[i].elems, e);
      var j :| 0 <= j < |c.cells[i].elems| && cmp(c.cells[i].elems[j], e) == 0;
      assert key(c.cells[i].elems[j]) == i;
      assert key(e) == i;
    }
  }

  /** Replacing one cell by a valid set of elements with that cell's key
      keeps the cache valid. */
  lemma ReplaceCellKeepsValid<T>(cmp: (T, T) -> int, key: T -> int, c: Cache<T>, k: int, cell: MySet.MySet<T>)
    requires Valid(cmp, key, c) && KeyInRange(c, k)
    requires MySet.Valid(cmp, cell)
    requires forall x :: x in cell.elems ==> key(x) == k
    ensures Valid(cmp, key, c.(cells := c.cells[k := cell]))
  {
  }

  /** Pushing into a valid cache keeps it valid, and the element is then in
      the cache exactly when its key is in range. */
  lemma PushKeepsValid<T(!new)>(cmp: (T, T) -> int, key: T -> int, c: Cache<T>, e: T)
    requires IsComparator(cmp) && Valid(cmp, key, c)
    ensures var r := Push(cmp, key, Some(c), Some(e));
            && r.1.Some? && Valid(cmp, key, r.1.value)
            && (KeyInRange(c, key(e)) <==> IsIn(cmp, key, r.1, Some(e)))
  {
    var r := Push(cmp, key, Some(c), Some(e));
    var k := key(e);
    if r.0 == Success {
      MySet.AddKeepsValid(cmp, c.cells[k], e);
      MySet.AddMembers(cmp, c.cells[k], e);
      var cell := MySet.Add(cmp, Some(c.cells[k]), Some(e)).1.value;
      assert r.1.value == c.(cells := c.cells[k := cell]);
      ReplaceCellKeepsValid(cmp, key, c, k, cell);
    }
  }

  /** Freeing an element from a valid cache keeps it valid, and afterwards
      the element is no longer in the cache. */
  lemma FreeKeepsValid<T(!new)>(cmp: (T, T) -> int, key: T -> int, c: Cache<T>, e: T)
    requires IsComparator(cmp) && Valid(cmp, key, c)
    ensures var r := FreeElement(cmp, key, Some(c), Some(e));
            && r.1.Some? && Valid(cmp, key, r.1.value)
            && !IsIn(cmp, key, r.1, Some(e))
  {
    var r := FreeElement(cmp, key, Some(c), Some(e));
    var k := key(e);
    if r.0 == Success {
      MySet.ExtractKeepsValid(cmp, c.cells[k], e);
      MySet.ExtractMembers(cmp, c.cells[k], e);
      var cell := MySet.Extract(cmp, Some(c.cells[k]), Some(e)).1.value;
      assert r.1.value == c.(cells := c.cells[k := cell]);
      ReplaceCellKeepsValid(cmp, key, c, k, cell);
    }
  }

  /** Extracting by key from a valid cache takes the smallest element of the
      cell, keeps the cache valid, and leaves the rest of the cell in
      order. */
  lemma ExtractTakesSmallest<T(!new)>(cmp: (T, T) -> int, key: T -> int, c: Cache<T>, k: int)
    requires IsComparator(cmp) && Valid(cmp, key, c)
    ensures var r := ExtractElementByKey(cmp, Some(c), k);
            && (r.0.Some? <==> KeyInRange(c, k) && |c.cells[k].elems| > 0)
            && r.1.Some? && Valid(cmp, key, r.1.value)
            && (r.0.Some? ==>
                  && r.0.value == c.cells[k].elems[0]
                  && key(r.0.value) == k
                  && r.1.value.cells[k].elems == c.cells[k].elems[1..])
  {
    if KeyInRange(c, k) && |c.cells[k].elems| > 0 {
      var s := c.cells[k].elems;
      MySet.ExtractFirst(cmp, c.cells[k]);
      var cell := MySet.MySet(s[1..], None);
      var first := MySet.GetFirst(Some(c.cells[k]));
      assert MySet.Extract(cmp, first.1, first.0) == (Some(s[0]), Some(cell));
      assert ExtractElementByKey(cmp, Some(c), k) == (Some(s[0]), Some(c.(cells := c.cells[k := cell])));
      assert forall x :: x in cell.elems ==> x in s;
      ReplaceCellKeepsValid(cmp, key, c, k, cell);
    }
  }

  /** Push and free are inverse: pushing a new element and freeing it again
      gives back the same cells, except that the touched cell's own iterator
      is left invalid. */
  lemma PushThenFree<T(!new)>(cmp: (T, T) -> int, key: T -> int, c: Cache<T>, e: T)
    requires IsComparator(cmp) && Valid(cmp, key, c)
    requires KeyInRange(c, key(e)) && !IsIn(cmp, key, Some(c), Some(e))
    ensures var pushed := Push(cmp, key, Some(c), Some(e));
            && pushed.0 == Success
            && FreeElement(cmp, key, pushed.1, Some(e))
               == (Success, Some(c.(cells := c.cells[key(e) := MySet.MySet(c.cells[key(e)].elems, None)])))
  {
    MySet.AddThenRemove(cmp, c.cells[key(e)], e);
    PushThenFreeCell(cmp, key, c, e);
  }

  /** The cell-level step of `PushThenFree`: when removing the element from
      the cell it was added to gives the cell back, so does the cache. */
  lemma PushThenFreeCell<T>(cmp: (T, T) -> int, key: T -> int, c: Cache<T>, e: T)
    requires KeyInRange(c, key(e)) && !IsIn(cmp, key, Some(c), Some(e))
    requires MySet.Remove(cmp, MySet.Add(cmp, Some(c.cells[key(e)]), Some(e)).1, Some(e))
             == (MySet.Success, Some(MySet.MySet(c.cells[key(e)].elems, None)))
    ensures var pushed := Push(cmp, key, Some(c), Some(e));
            && pushed.0 == Success
            && FreeElement(cmp, key, pushed.1, Some(e))
               == (Success, Some(c.(cells := c.cells[key(e) := MySet.MySet(c.cells[key(e)].elems, None)])))
  {
    var k := key(e);
    var cell := MySet.Add(cmp, Some(c.cells[k]), Some(e)).1.value;
    var c' := c.(cells := c.cells[k := cell]);
    assert Push(cmp, key, Some(c), Some(e)) == (Success, Some(c'));
    var back := MySet.MySet(c.cells[k].elems, None);
    assert c'.cells[k := back] == c.cells[k := back];
  }

  /** The elements of consecutive cells with keys `base`, `base + 1`, ...
      are met in walk order, and they are exactly the cells' elements. */
  lemma {:induction false} ContentsFrom<T>(cmp: (T, T) -> int, key: T -> int, cells: seq<MySet.MySet<T>>, base: int)
    requires forall i :: 0 <= i < |cells| ==> MySet.Sorted(cmp, cells[i].elems)
    requires forall i, x :: 0 <= i < |cells| && x in cells[i].elems ==> key(x) == base + i
    ensures forall x :: x in Contents(cells) <==> InCells(cells, x)
    ensures forall x :: x in Contents(cells) ==> key(x) >= base
    ensures InWalkOrder(cmp, key, Contents(cells))
    decreases |cells|
  {
    if |cells| > 0 {
      var s := cells[0].elems;
      var tail := cells[1..];
      var rest := Contents(tail);
      ContentsFrom(cmp, key, tail, base + 1);
      var all := Contents(cells);
      assert all == s + rest;
      forall x ensures x in all <==> InCells(cells, x) {
        if x in rest {
          var i :| 0 <= i < |tail| && x in tail[i].elems;
          assert x in cells[i + 1].elems;
        }
        if InCells(cells, x) {
          var i :| 0 <= i < |cells| && x in cells[i].elems;
          if i > 0 {
            assert x in tail[i - 1].elems;
          }
        }
      }
      forall x | x in s ensures key(x) == base {
        assert x in cells[0].elems;
      }
      forall i, j | 0 <= i < j < |all|
        ensures key(all[i]) < key(all[j]) || (key(all[i]) == key(all[j]) && cmp(all[i], all[j]) < 0)
      {
        if j < |s| {
          assert all[i] == s[i] && all[j] == s[j];
        } else if i < |s| {
          assert all[i] == s[i];
          assert all[j] == rest[j - |s|];
        } else {
          assert all[i] == rest[i - |s|] && all[j] == rest[j - |s|];
        }
      }
    }
  }

  /** A cell-by-cell walk of a valid cache meets its elements by ascending
      key, each cell's elements in ascending order, and meets all of them. */
  lemma ContentsInWalkOrder<T>(cmp: (T, T) -> int, key: T -> int, c: Cache<T>)
    requires Valid(cmp, key, c)
    ensures forall x :: x in Contents(c.cells) <==> InCells(c.cells, x)
    ensures InWalkOrder(cmp, key, Contents(c.cells))
  {
    ContentsFrom(cmp, key, c.cells, 0);
  }

  /** A successful push adds the pushed element and nothing else. */
  lemma PushInCells<T>(cmp: (T, T) -> int, key: T -> int, c: Cache<T>, e: T)
    ensures var r := Push(cmp, key, Some(c), Some(e));
            r.0 == Success ==>
              forall x :: InCells(r.1.value.cells, x) <==> InCells(c.cells, x) || x == e
  {
    var r := Push(cmp, key, Some(c), Some(e));
    if r.0 == Success {
      var k := key(e);
      var cells' := r.1.value.cells;
      forall x ensures InCells(cells', x) <==> InCells(c.cells, x) || x == e {
        if InCells(cells', x) {
          var i :| 0 <= i < |cells'| && x in cells'[i].elems;
          if i == k {
            assert x in multiset(cells'[k].elems);
          } else {
            assert x in c.cells[i].elems;
          }
        }
        if InCells(c.cells, x) {
          var i :| 0 <= i < |c.cells| && x in c.cells[i].elems;
          if i == k {
            assert x in multiset(c.cells[k].elems);
            assert x in multiset(cells'[k].elems);
            assert x in cells'[k].elems;
          } else {
            assert x in cells'[i].elems;
          }
        }
        if x == e {
          assert e in multiset(cells'[k].elems);
          assert x in cells'[k].elems;
        }
      }
    }
  }

  /** A successful free takes out of a valid cache exactly the element of
      the freed one's cell that compares equal to it. */
  lemma FreeInCells<T(!new)>(cmp: (T, T) -> int, key: T -> int, c: Cache<T>, e: T)
    requires IsComparator(cmp) && Valid(cmp, key, c)
    ensures var r := FreeElement(cmp, key, Some(c), Some(e));
            r.0 == Success ==>
              forall x :: InCells(r.1.value.cells, x) <==>
                            InCells(c.cells, x) && !(key(x) == key(e) && cmp(x, e) == 0)
  {
    var r := FreeElement(cmp, key, Some(c), Some(e));
    if r.0 == Success {
      var k := key(e);
      var s := c.cells[k].elems;
      var pos := MySet.Position(cmp, s, e);
      var t := MySet.RemoveAt(s, pos);
      MySet.SortedMatchUnique(cmp, s, e, pos);
      MySet.RemoveMatchMembers(cmp, s, e, pos);
      assert MySet.Extract(cmp, Some(c.cells[k]), Some(e)).1 == Some(MySet.MySet(t, None));
      var cells' := r.1.value.cells;
      assert cells' == c.cells[k := MySet.MySet(t, None)];
      forall x ensures InCells(cells', x) <==> InCells(c.cells, x) && !(key(x) == k && cmp(x, e) == 0) {
        if InCells(cells', x) {
          var i :| 0 <= i < |cells'| && x in cells'[i].elems;
          assert x in c.cells[i].elems;
        }
        if InCells(c.cells, x) && !(key(x) == k && cmp(x, e) == 0) {
          var i :| 0 <= i < |c.cells| && x in c.cells[i].elems;
          assert x in cells'[i].elems;
        }
      }
    }
  }

  /** Freeing an element that is stored takes exactly that one element out
      of its cell. */
  lemma FreeRemovesStored<T(!new)>(cmp: (T, T) -> int, key: T -> int, c: Cache<T>, e: T)
    requires IsComparator(cmp) && Valid(cmp, key, c) && InCells(c.cells, e)
    ensures var r := FreeElement(cmp, key, Some(c), Some(e));
            var k := key(e);
            && r.0 == Success && 0 <= k < |c.cells|
            && r.1.value.cells == c.cells[k := r.1.value.cells[k]]
            && multiset(r.1.value.cells[k].elems) + multiset{e} == multiset(c.cells[k].elems)
  {
    var k := key(e);
    var cell := c.cells[k];
    MySet.ExtractStored(cmp, cell, e);
    var ex := MySet.Extract(cmp, Some(cell), Some(e));
    var r := FreeElement(cmp, key, Some(c), Some(e));
    assert r.1.value.cells == c.cells[k := ex.1.value];
  }

  /** A successful extraction by key takes out the extracted element and
      nothing else. */
  lemma ExtractInCells<T(!new)>(cmp: (T, T) -> int, key: T -> int, c: Cache<T>, k: int)
    requires IsComparator(cmp) && Valid(cmp, key, c)
    ensures var r := ExtractElementByKey(cmp, Some(c), k);
            r.0.Some? ==>
              forall x :: InCells(r.1.value.cells, x) <==> InCells(c.cells, x) && x != r.0.value
  {
    var r := ExtractElementByKey(cmp, Some(c), k);
    ExtractTakesSmallest(cmp, key, c, k);
    if r.0.Some? {
      var s := c.cells[k].elems;
      var cells' := r.1.value.cells;
      Reflexive(cmp, s[0]);
      assert forall j :: 0 < j < |s| ==> cmp(s[0], s[j]) < 0;
      forall x ensures InCells(cells', x) <==> InCells(c.cells, x) && x != s[0] {
        if InCells(cells', x) {
          var i :| 0 <= i < |cells'| && x in cells'[i].elems;
          if i == k {
            assert x in s[1..];
            var j :| 1 <= j < |s| && s[j] == x;
          } else {
            assert x in c.cells[i].elems;
          }
        }
        if InCells(c.cells, x) && x != s[0] {
          var i :| 0 <= i < |c.cells| && x in c.cells[i].elems;
          if i == k {
            var j :| 0 <= j < |s| && s[j] == x;
            assert x in s[1..];
            assert x in cells'[k].elems;
          } else {
            assert x in cells'[i].elems;
          }
        }
      }
    }
  }

  /** An element stored in a valid cache is found by `IsIn`. */
  lemma InCellsIsIn<T(!new)>(cmp: (T, T) -> int, key: T -> int, c: Cache<T>, x: T)
    requires IsComparator(cmp) && Valid(cmp, key, c) && InCells(c.cells, x)
    ensures IsIn(cmp, key, Some(c), Some(x))
  {
    var i :| 0 <= i < |c.cells| && x in c.cells[i].elems;
    assert key(x) == i;
    var j :| 0 <= j < |c.cells[i].elems| && c.cells[i].elems[j] == x;
    Reflexive(cmp, x);
    assert MySet.Has(cmp, c.cells[i].elems, x);
  }

  /** Clearing a valid cache leaves a valid cache in which nothing is held. */
  lemma ClearEmpties<T>(cmp: (T, T) -> int, key: T -> int, c: Cache<T>, e: T)
    requires Valid(cmp, key, c)
    ensures var r := Clear(Some(c));
            && r.1.Some? && Valid(cmp, key, r.1.value)
            && !Holds(cmp, r.1.value, e)
            && forall x :: !InCells(r.1.value.cells, x)
  {
    ContentsInWalkOrder(cmp, key, Clear(Some(c)).1.value);
  }

  /* ---------------------------------------------------------------------- */
  /* Iteration                                                              */
  /* ---------------------------------------------------------------------- */

  /** The CACHE_FOREACH macro: `GetFirst`, then `GetNext` until NULL,
      collecting each cell the loop body sees. Every cell is seen once, in
      index order, and the iterator ends invalid. */
  method ForEach<T>(c: Cache<T>) returns (visited: seq<MySet.MySet<T>>, after: Cache<T>)
    requires |c.cells| > 0
    ensures visited == c.cells
    ensures after == c.(cursor := None)
  {
    var first := GetFirst(Some(c));
    var x, cc := first.0, first.1;
    visited := [];
    while x.Some?
      invariant cc.Some? && cc.value.cells == c.cells
      invariant x == GetCurrent(cc)
      invariant x.Some? ==> cc.value.cursor == Some(|visited|) && |visited| < |c.cells|
      invariant x.Some? ==> visited == c.cells[..|visited|]
      invariant x.None? ==> visited == c.cells && cc.value.cursor.None?
      decreases |c.cells| - |visited|
    {
      visited := visited + [x.value];
      var r := GetNext(cc);
      x, cc := r.0, r.1;
    }
    after := cc.value;
  }
}
