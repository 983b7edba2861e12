/** The allocator's representation invariant and the properties every
    operation keeps: the trust graph and the quota map name the same users,
    both caches are well formed, every held block has a header recording its
    size, no block is both free and allocated, and each user's remaining
    quota plus the sizes of the live blocks it owns stays what it was. */
module MemCacheInvariant {
  import opened Wrappers
  import opened Comparators
  import MySet
  import Cache
  import Graph
  import opened MemCacheHeader
  import opened MemCache

  /** The block's header is on record with the block's size, and the block
      lies below the next fresh address. */
  ghost predicate Recorded(m: MemCache, b: Block) {
    && b.addr < m.nextAddr
    && b.addr in m.headers
    && m.headers[b.addr].size == b.size
    && b.size > 0
  }

  /** The block is kept in the free cache. */
  ghost predicate IsFree(m: MemCache, b: Block) {
    Cache.InCells(m.freeCache.cells, b)
  }

  /** The block is in the allocated index. */
  ghost predicate IsLive(m: MemCache, b: Block) {
    Cache.InCells(m.allocatedIndex.cells, b)
  }

  ghost predicate Valid(m: MemCache) {
    && Graph.Valid(m.trust) && m.trust.vertices == m.quota.Keys
    && (forall u :: u in m.quota ==> IsLegalName(u) && m.quota[u] >= 0)
    && IndexCoversAll(m.shape)
    && Cache.Valid(BlockCompare, FreeKey, m.freeCache) && |m.freeCache.cells| >= CacheableMaxSize
    && Cache.Valid(BlockCompare, AllocKey(m.shape), m.allocatedIndex) && |m.allocatedIndex.cells| == m.shape.cells
    && (forall b :: IsFree(m, b) ==> Recorded(m, b) && b.size <= CacheableMaxSize)
    && (forall b :: IsLive(m, b) ==> Recorded(m, b) && m.headers[b.addr].owner in m.quota)
    && (forall b, b' :: IsFree(m, b) && IsLive(m, b') ==> b.addr != b'.addr)
    && (forall a :: a in m.headers ==> a < m.nextAddr)
  }

  lemma BlockCompareIsComparator()
    ensures IsComparator(BlockCompare)
  {
  }

  /* ---------------------------------------------------------------------- */
  /* Charges                                                                */
  /* ---------------------------------------------------------------------- */

  /** What a block costs `u`: its size when `u` owns it. */
  ghost function Weight(headers: map<nat, Header>, u: string, b: Block): int {
    if b.addr in headers && headers[b.addr].owner == u then b.size else 0
  }

  ghost function ChargedIn(headers: map<nat, Header>, u: string, s: seq<Block>): int {
    if |s| == 0 then 0 else Weight(headers, u, s[0]) + ChargedIn(headers, u, s[1..])
  }

  ghost function Charged(headers: map<nat, Header>, u: string, cells: seq<MySet.MySet<Block>>): int {
    if |cells| == 0 then 0 else ChargedIn(headers, u, cells[0].elems) + Charged(headers, u, cells[1..])
  }

  /** A user's remaining quota plus the sizes of the live blocks it owns:
      the memory limit it was registered with. */
  ghost function Balance(m: MemCache, u: string): int
    requires u in m.quota
  {
    m.quota[u] + Charged(m.headers, u, m.allocatedIndex.cells)
  }

  lemma {:induction false} ChargedInAppend(headers: map<nat, Header>, u: string, a: seq<Block>, b: seq<Block>)
    ensures ChargedIn(headers, u, a + b) == ChargedIn(headers, u, a) + ChargedIn(headers, u, b)
    decreases |a|
  {
    if |a| == 0 {
      assert a + b == b;
    } else {
      assert (a + b)[1..] == a[1..] + b;
      ChargedInAppend(headers, u, a[1..], b);
    }
  }

  /** Taking the element at `i` out of a list. */
  lemma TakeOut(headers: map<nat, Header>, u: string, b: seq<Block>, i: nat)
    requires i < |b|
    ensures multiset(b[..i] + b[i + 1..]) == multiset(b) - multiset{b[i]}
    ensures ChargedIn(headers, u, b) == Weight(headers, u, b[i]) + ChargedIn(headers, u, b[..i] + b[i + 1..])
  {
    var before, after := b[..i], b[i + 1..];
    assert b == before + ([b[i]] + after);
    ChargedInAppend(headers, u, before, [b[i]] + after);
    ChargedInAppend(headers, u, [b[i]], after);
    ChargedInAppend(headers, u, before, after);
  }

  /** The charge of a list does not depend on its order. */
  lemma {:induction false} ChargedInPerm(headers: map<nat, Header>, u: string, a: seq<Block>, b: seq<Block>)
    requires multiset(a) == multiset(b)
    ensures ChargedIn(headers, u, a) == ChargedIn(headers, u, b)
    decreases |a|
  {
    if |a| == 0 {
      assert |multiset(b)| == 0;
    } else {
      var x := a[0];
      assert x in multiset(b);
      var i :| 0 <= i < |b| && b[i] == x;
      TakeOut(headers, u, b, i);
      var rest := b[..i] + b[i + 1..];
      assert a == [x] + a[1..];
      assert multiset(a[1..]) == multiset(a) - multiset{x};
      ChargedInPerm(headers, u, a[1..], rest);
    }
  }

  /** Adding one element to a list adds its weight to the charge. */
  lemma ChargedInAdd(headers: map<nat, Header>, u: string, s: seq<Block>, t: seq<Block>, e: Block)
    requires multiset(t) == multiset(s) + multiset{e}
    ensures ChargedIn(headers, u, t) == ChargedIn(headers, u, s) + Weight(headers, u, e)
  {
    assert multiset(s + [e]) == multiset(t);
    ChargedInPerm(headers, u, t, s + [e]);
    ChargedInAppend(headers, u, s, [e]);
  }

  /** Replacing one cell changes the charge by the difference of the two
      cells' charges. */
  lemma {:induction false} ChargedUpdate(headers: map<nat, Header>, u: string, cells: seq<MySet.MySet<Block>>, k: nat, cell: MySet.MySet<Block>)
    requires k < |cells|
    ensures Charged(headers, u, cells[k := cell])
            == Charged(headers, u, cells) - ChargedIn(headers, u, cells[k].elems) + ChargedIn(headers, u, cell.elems)
    decreases k
  {
    if k == 0 {
      assert cells[k := cell][1..] == cells[1..];
    } else {
      assert cells[k := cell][1..] == cells[1..][k - 1 := cell];
      ChargedUpdate(headers, u, cells[1..], k - 1, cell);
    }
  }

  lemma {:induction false} ChargedInFrame(h1: map<nat, Header>, h2: map<nat, Header>, u: string, s: seq<Block>)
    requires forall b :: b in s ==> Weight(h1, u, b) == Weight(h2, u, b)
    ensures ChargedIn(h1, u, s) == ChargedIn(h2, u, s)
    decreases |s|
  {
    if |s| > 0 {
      assert s[0] in s;
      ChargedInFrame(h1, h2, u, s[1..]);
    }
  }

  /** The charge depends only on the headers of the blocks charged. */
  lemma {:induction false} ChargedFrame(h1: map<nat, Header>, h2: map<nat, Header>, u: string, cells: seq<MySet.MySet<Block>>)
    requires forall b :: Cache.InCells(cells, b) ==> Weight(h1, u, b) == Weight(h2, u, b)
    ensures Charged(h1, u, cells) == Charged(h2, u, cells)
    decreases |cells|
  {
    if |cells| > 0 {
      forall b | b in cells[0].elems ensures Weight(h1, u, b) == Weight(h2, u, b) {
        assert Cache.InCells(cells, b);
      }
      ChargedInFrame(h1, h2, u, cells[0].elems);
      forall b | Cache.InCells(cells[1..], b) ensures Weight(h1, u, b) == Weight(h2, u, b) {
        var i :| 0 <= i < |cells[1..]| && b in cells[1..][i].elems;
        assert b in cells[i + 1].elems;
      }
      ChargedFrame(h1, h2, u, cells[1..]);
    }
  }

  lemma {:induction false} ChargedInNothing(headers: map<nat, Header>, u: string, s: seq<Block>)
    requires forall b :: b in s ==> Weight(headers, u, b) == 0
    ensures ChargedIn(headers, u, s) == 0
    decreases |s|
  {
    if |s| > 0 {
      assert s[0] in s;
      ChargedInNothing(headers, u, s[1..]);
    }
  }

  /** A user who owns none of the blocks is charged nothing. */
  lemma {:induction false} ChargedNothing(headers: map<nat, Header>, u: string, cells: seq<MySet.MySet<Block>>)
    requires forall b :: Cache.InCells(cells, b) ==> Weight(headers, u, b) == 0
    ensures Charged(headers, u, cells) == 0
    decreases |cells|
  {
    if |cells| > 0 {
      forall b | b in cells[0].elems ensures Weight(headers, u, b) == 0 {
        assert Cache.InCells(cells, b);
      }
      ChargedInNothing(headers, u, cells[0].elems);
      forall b | Cache.InCells(cells[1..], b) ensures Weight(headers, u, b) == 0 {
        var i :| 0 <= i < |cells[1..]| && b in cells[1..][i].elems;
        assert b in cells[i + 1].elems;
      }
      ChargedNothing(headers, u, cells[1..]);
    }
  }

  /* ---------------------------------------------------------------------- */
  /* Creation and queries                                                   */
  /* ---------------------------------------------------------------------- */

  /** A new allocator whose index gives every block a cell is valid and
      holds nothing. */
  lemma CreateIsValid(shape: IndexShape)
    requires IndexCoversAll(shape)
    ensures Create(shape).Some? && Valid(Create(shape).value)
    ensures forall b :: !IsFree(Create(shape).value, b) && !IsLive(Create(shape).value, b)
  {
    var m := Create(shape).value;
    Cache.CreateIsValid<Block>(BlockCompare, FreeKey, FreeCacheCells);
    Cache.CreateIsValid<Block>(BlockCompare, AllocKey(shape), shape.cells);
    Cache.ContentsInWalkOrder(BlockCompare, FreeKey, m.freeCache);
    Cache.ContentsInWalkOrder(BlockCompare, AllocKey(shape), m.allocatedIndex);
  }

  /** The graph and the quota map agree on who the users are, so asking
      either gives the same answer. */
  lemma UserExistsIsVertex(m: MemCache, name: Option<string>)
    requires Valid(m)
    ensures IsUserExists(m, name) <==> Graph.IsVertexExists(Some(m.trust), name)
  {
  }

  /** Two held blocks at one address are the same block. */
  lemma RecordedUnique(m: MemCache, b: Block, b': Block)
    requires Recorded(m, b) && Recorded(m, b') && b.addr == b'.addr
    ensures b == b'
  {
  }

  /** An allocated pointer names a live block. */
  lemma AllocatedIsLive(m: MemCache, p: nat)
    requires Valid(m) && IsAllocated(m, Some(p))
    ensures p in m.headers && IsLive(m, Block(p, m.headers[p].size))
  {
    var b := Block(p, m.headers[p].size);
    var k := AllocKey(m.shape)(b);
    var cell := m.allocatedIndex.cells[k].elems;
    var j :| 0 <= j < |cell| && BlockCompare(cell[j], b) == 0;
    assert IsLive(m, cell[j]);
    RecordedUnique(m, cell[j], b);
  }

  /** A live block's address is an allocated pointer. */
  lemma LiveIsAllocated(m: MemCache, b: Block)
    requires Valid(m) && IsLive(m, b)
    ensures IsAllocated(m, Some(b.addr))
  {
    BlockCompareIsComparator();
    assert Recorded(m, b);
    assert BlockAt(m, Some(b.addr)) == Some(b);
    Cache.InCellsIsIn(BlockCompare, AllocKey(m.shape), m.allocatedIndex, b);
  }

  /** A pointer is allocated exactly when the block its header describes is
      in the allocated index. */
  lemma AllocatedMeansLive(m: MemCache, p: nat)
    requires Valid(m)
    ensures IsAllocated(m, Some(p)) <==> p in m.headers && IsLive(m, Block(p, m.headers[p].size))
  {
    if IsAllocated(m, Some(p)) {
      AllocatedIsLive(m, p);
    }
    if p in m.headers && IsLive(m, Block(p, m.headers[p].size)) {
      LiveIsAllocated(m, Block(p, m.headers[p].size));
    }
  }

  /* ---------------------------------------------------------------------- */
  /* Allocate                                                               */
  /* ---------------------------------------------------------------------- */

  /** What an allocation of `size` bytes takes, as `TakeBlock` returns it
      in `t`: the lowest-addressed free block of the size when there is
      one, otherwise a fresh one; either way a block no live block shares an
      address with, and only it leaves the free cache. */
  ghost predicate Takes(m: MemCache, size: int, t: (Block, Cache.Cache<Block>, nat))
    requires size > 0 && |m.freeCache.cells| >= CacheableMaxSize
  {
    && Cache.Valid(BlockCompare, FreeKey, t.1) && |t.1.cells| == |m.freeCache.cells|
    && t.0.addr < t.2 && m.nextAddr <= t.2
    && (forall y :: IsLive(m, y) ==> y.addr != t.0.addr)
    && (forall y :: Cache.InCells(t.1.cells, y) <==> IsFree(m, y) && y.addr != t.0.addr)
    && (size <= CacheableMaxSize && |m.freeCache.cells[size - 1].elems| > 0 ==>
          t.0 == m.freeCache.cells[size - 1].elems[0])
    && (!(size <= CacheableMaxSize && |m.freeCache.cells[size - 1].elems| > 0) ==>
          t.0.addr == m.nextAddr && t.1 == m.freeCache && t.0.addr !in m.headers)
  }

  lemma TakeBlockFacts(m: MemCache, size: int)
    requires Valid(m) && size > 0
    ensures Takes(m, size, TakeBlock(m, size))
  {
    if size <= CacheableMaxSize && |m.freeCache.cells[size - 1].elems| > 0 {
      TakeReused(m, size);
    } else {
      TakeFresh(m, size);
    }
  }

  /** A free block of the size is there: the lowest-addressed one is
      taken. */
  lemma TakeReused(m: MemCache, size: int)
    requires Valid(m) && 0 < size <= CacheableMaxSize && |m.freeCache.cells[size - 1].elems| > 0
    ensures Takes(m, size, TakeBlock(m, size))
  {
    var r := Cache.ExtractElementByKey(BlockCompare, Some(m.freeCache), size - 1);
    var x := m.freeCache.cells[size - 1].elems[0];
    ReusedFacts(m, size - 1);
    TakeBlockReused(m, size);
    assert TakeBlock(m, size) == (x, r.1.value, m.nextAddr);
    TakesIntro(m, size, (x, r.1.value, m.nextAddr));
  }

  /** Taking the first block of a non-empty cell of the free cache: a free
      block of the cell's size, on record, sharing its address with no live
      block, and leaving exactly the other free blocks in a valid cache. */
  lemma ReusedFacts(m: MemCache, k: int)
    requires Valid(m) && 0 <= k < |m.freeCache.cells| && |m.freeCache.cells[k].elems| > 0
    ensures var r := Cache.ExtractElementByKey(BlockCompare, Some(m.freeCache), k);
            var x := m.freeCache.cells[k].elems[0];
            && r.0 == Some(x) && r.1.Some? && x.size == k + 1 && x.addr < m.nextAddr
            && Cache.Valid(BlockCompare, FreeKey, r.1.value) && |r.1.value.cells| == |m.freeCache.cells|
            && (forall y :: IsLive(m, y) ==> y.addr != x.addr)
            && (forall y :: Cache.InCells(r.1.value.cells, y) <==> IsFree(m, y) && y.addr != x.addr)
  {
    BlockCompareIsComparator();
    Cache.ExtractTakesSmallest(BlockCompare, FreeKey, m.freeCache, k);
    FirstFree(m, k);
    TakenIsolated(m, m.freeCache.cells[k].elems[0]);
    ReusedLeaves(m, k);
  }

  /** The first block of a non-empty cell of the free cache is free and on
      record. */
  lemma FirstFree(m: MemCache, k: int)
    requires Valid(m) && 0 <= k < |m.freeCache.cells| && |m.freeCache.cells[k].elems| > 0
    ensures IsFree(m, m.freeCache.cells[k].elems[0]) && Recorded(m, m.freeCache.cells[k].elems[0])
  {
    var x := m.freeCache.cells[k].elems[0];
    assert Cache.InCells(m.freeCache.cells, x) by { assert m.freeCache.cells[k].elems[0] == x; }
  }

  /** Taking the first block of a cell of the free cache leaves exactly the
      other free blocks. */
  lemma ReusedLeaves(m: MemCache, k: int)
    requires Valid(m) && 0 <= k < |m.freeCache.cells| && |m.freeCache.cells[k].elems| > 0
    ensures var r := Cache.ExtractElementByKey(BlockCompare, Some(m.freeCache), k);
            var x := m.freeCache.cells[k].elems[0];
            r.1.Some? &&
            forall y :: Cache.InCells(r.1.value.cells, y) <==> IsFree(m, y) && y.addr != x.addr
  {
    BlockCompareIsComparator();
    var c := m.freeCache;
    var r := Cache.ExtractElementByKey(BlockCompare, Some(c), k);
    Cache.ExtractTakesSmallest(BlockCompare, FreeKey, c, k);
    Cache.ExtractInCells(BlockCompare, FreeKey, c, k);
    var x := c.cells[k].elems[0];
    FirstFree(m, k);
    TakenIsolated(m, x);
    forall y ensures Cache.InCells(r.1.value.cells, y) <==> IsFree(m, y) && y.addr != x.addr {
      assert Cache.InCells(r.1.value.cells, y) <==> Cache.InCells(c.cells, y) && y != x;
    }
  }

  /** With a free block of the size at hand, `TakeBlock` hands out that
      block and the cache the extraction leaves. */
  lemma TakeBlockReused(m: MemCache, size: int)
    requires 0 < size <= CacheableMaxSize
    requires Cache.ExtractElementByKey(BlockCompare, Some(m.freeCache), size - 1).0.Some?
    ensures var r := Cache.ExtractElementByKey(BlockCompare, Some(m.freeCache), size - 1);
            TakeBlock(m, size) == (Block(r.0.value.addr, size), r.1.value, m.nextAddr)
  {
  }

  /** A free block shares its address with no other free block and no live
      one. */
  lemma TakenIsolated(m: MemCache, x: Block)
    requires Valid(m) && IsFree(m, x)
    ensures forall y :: IsLive(m, y) ==> y.addr != x.addr
    ensures forall y :: IsFree(m, y) ==> (y != x <==> y.addr != x.addr)
  {
    forall y | IsFree(m, y) ensures y != x <==> y.addr != x.addr {
      if y.addr == x.addr {
        RecordedUnique(m, y, x);
      }
    }
  }

  /** The facts `Takes` gathers, one by one. */
  lemma TakesIntro(m: MemCache, size: int, t: (Block, Cache.Cache<Block>, nat))
    requires size > 0 && |m.freeCache.cells| >= CacheableMaxSize
    requires Cache.Valid(BlockCompare, FreeKey, t.1) && |t.1.cells| == |m.freeCache.cells|
    requires t.0.addr < t.2 && m.nextAddr <= t.2
    requires forall y :: IsLive(m, y) ==> y.addr != t.0.addr
    requires forall y :: Cache.InCells(t.1.cells, y) <==> IsFree(m, y) && y.addr != t.0.addr
    requires size <= CacheableMaxSize && |m.freeCache.cells[size - 1].elems| > 0 ==>
               t.0 == m.freeCache.cells[size - 1].elems[0]
    requires !(size <= CacheableMaxSize && |m.freeCache.cells[size - 1].elems| > 0) ==>
               t.0.addr == m.nextAddr && t.1 == m.freeCache && t.0.addr !in m.headers
    ensures Takes(m, size, t)
  {
  }

  /** No free block of the size: a fresh block at `nextAddr` is taken. */
  lemma TakeFresh(m: MemCache, size: int)
    requires Valid(m) && size > 0
    requires !(size <= CacheableMaxSize && |m.freeCache.cells[size - 1].elems| > 0)
    ensures Takes(m, size, TakeBlock(m, size))
  {
    var t := TakeBlock(m, size);
    assert t.0.addr == m.nextAddr && t.1 == m.freeCache;
  }

  /** What handing out a block does to the two caches and the headers. */
  lemma HandOutEffect(m: MemCache, user: Option<string>, size: int)
    requires Valid(m) && IsUserExists(m, user) && 0 < size <= m.quota[user.value]
    ensures var r := HandOut(m, user.value, size);
            var t := TakeBlock(m, size);
            var b := t.0;
            var m' := r.1.value;
            var k := AllocKey(m.shape)(b);
            && r.0 == Some(b.addr) && r.1.Some?
            && m'.freeCache == t.1 && m'.nextAddr == t.2
            && m'.headers == m.headers[b.addr := Header(size, OwnerOnly, user.value)]
            && Cache.Valid(BlockCompare, AllocKey(m.shape), m'.allocatedIndex)
            && |m'.allocatedIndex.cells| == |m.allocatedIndex.cells|
            && 0 <= k < |m.allocatedIndex.cells|
            && m'.allocatedIndex.cells == m.allocatedIndex.cells[k := m'.allocatedIndex.cells[k]]
            && multiset(m'.allocatedIndex.cells[k].elems) == multiset(m.allocatedIndex.cells[k].elems) + multiset{b}
            && (forall y :: IsLive(m', y) <==> IsLive(m, y) || y == b)
  {
    TakeBlockFacts(m, size);
    var t := TakeBlock(m, size);
    PushFresh(m, t.0);
    HandOutPushes(m, user.value, size);
  }

  /** With the push into the allocated index succeeding, `HandOut` records
      the taken block under the user and charges the size. */
  lemma HandOutPushes(m: MemCache, u: string, size: int)
    requires u in m.quota
    requires Cache.Push(BlockCompare, AllocKey(m.shape), Some(m.allocatedIndex), Some(TakeBlock(m, size).0)).0 == Cache.Success
    ensures var t := TakeBlock(m, size);
            var pushed := Cache.Push(BlockCompare, AllocKey(m.shape), Some(m.allocatedIndex), Some(t.0));
            HandOut(m, u, size)
            == (Some(t.0.addr), Some(Unwalked(m.(quota := m.quota[u := m.quota[u] - size],
                                                 headers := m.headers[t.0.addr := Header(size, OwnerOnly, u)],
                                                 freeCache := t.1,
                                                 allocatedIndex := pushed.1.value,
                                                 nextAddr := t.2))))
  {
  }

  /** A block whose address no live block has goes into the allocated
      index, and only it is added. */
  lemma PushFresh(m: MemCache, b: Block)
    requires Valid(m) && forall y :: IsLive(m, y) ==> y.addr != b.addr
    ensures var key := AllocKey(m.shape);
            var c := m.allocatedIndex;
            var pushed := Cache.Push(BlockCompare, key, Some(c), Some(b));
            var k := key(b);
            && pushed.0 == Cache.Success && pushed.1.Some?
            && Cache.Valid(BlockCompare, key, pushed.1.value)
            && |pushed.1.value.cells| == |c.cells|
            && 0 <= k < |c.cells|
            && pushed.1.value.cells == c.cells[k := pushed.1.value.cells[k]]
            && multiset(pushed.1.value.cells[k].elems) == multiset(c.cells[k].elems) + multiset{b}
            && (forall x :: Cache.InCells(pushed.1.value.cells, x) <==> Cache.InCells(c.cells, x) || x == b)
  {
    BlockCompareIsComparator();
    var key := AllocKey(m.shape);
    var k := key(b);
    var c := m.allocatedIndex;
    FreshNotIn(m, b);
    Cache.PushKeepsValid(BlockCompare, key, c, b);
    Cache.PushInCells(BlockCompare, key, c, b);
    var pushed := Cache.Push(BlockCompare, key, Some(c), Some(b));
    assert pushed.1.value.cells == c.cells[k := pushed.1.value.cells[k]];
  }

  /** A block whose address no live block has is not in the allocated
      index, and the index has a cell for it. */
  lemma FreshNotIn(m: MemCache, b: Block)
    requires Valid(m) && forall y :: IsLive(m, y) ==> y.addr != b.addr
    ensures Cache.KeyInRange(m.allocatedIndex, AllocKey(m.shape)(b))
    ensures !Cache.IsIn(BlockCompare, AllocKey(m.shape), Some(m.allocatedIndex), Some(b))
  {
    var k := AllocKey(m.shape)(b);
    var c := m.allocatedIndex;
    assert Cache.KeyInRange(c, k);
    forall j | 0 <= j < |c.cells[k].elems| ensures BlockCompare(c.cells[k].elems[j], b) != 0 {
      assert IsLive(m, c.cells[k].elems[j]);
    }
  }

  /** What a successful allocation does to the two caches and the headers. */
  lemma AllocateEffect(m: MemCache, user: Option<string>, size: int)
    requires Valid(m) && IsUserExists(m, user) && 0 < size <= m.quota[user.value]
    ensures var r := Allocate(Some(m), user, size);
            var t := TakeBlock(m, size);
            var b := t.0;
            var m' := r.1.value;
            var k := AllocKey(m.shape)(b);
            && r.0 == Some(b.addr) && r.1.Some?
            && m'.freeCache == t.1 && m'.nextAddr == t.2
            && m'.headers == m.headers[b.addr := Header(size, OwnerOnly, user.value)]
            && Cache.Valid(BlockCompare, AllocKey(m.shape), m'.allocatedIndex)
            && |m'.allocatedIndex.cells| == |m.allocatedIndex.cells|
            && 0 <= k < |m.allocatedIndex.cells|
            && m'.allocatedIndex.cells == m.allocatedIndex.cells[k := m'.allocatedIndex.cells[k]]
            && multiset(m'.allocatedIndex.cells[k].elems) == multiset(m.allocatedIndex.cells[k].elems) + multiset{b}
            && (forall y :: IsLive(m', y) <==> IsLive(m, y) || y == b)
  {
    HandOutEffect(m, user, size);
    assert Allocate(Some(m), user, size) == HandOut(m, user.value, size);
  }

  /** An allocation succeeds exactly when the user exists and the size is
      positive and within the user's remaining quota. */
  lemma AllocateSucceeds(m: MemCache, user: Option<string>, size: int)
    requires Valid(m)
    ensures var r := Allocate(Some(m), user, size);
            r.0.Some? <==> IsUserExists(m, user) && 0 < size <= m.quota[user.value]
  {
    if IsUserExists(m, user) && 0 < size <= m.quota[user.value] {
      AllocateEffect(m, user, size);
    }
  }

  /** Handing out block `b` (taken out of the free cache, or fresh) keeps
      every free and live block on record, and none both. */
  lemma HandOutKeepsBlocks(m: MemCache, m': MemCache, b: Block, owner: string)
    requires Valid(m) && b.size > 0 && owner in m'.quota && m'.quota.Keys == m.quota.Keys
    requires m'.headers == m.headers[b.addr := Header(b.size, OwnerOnly, owner)]
    requires m.nextAddr <= m'.nextAddr && b.addr < m'.nextAddr
    requires forall y :: IsFree(m', y) <==> IsFree(m, y) && y.addr != b.addr
    requires forall y :: IsLive(m', y) <==> IsLive(m, y) || y == b
    requires forall y :: IsLive(m, y) ==> y.addr != b.addr
    ensures forall y :: IsFree(m', y) ==> Recorded(m', y) && y.size <= CacheableMaxSize
    ensures forall y :: IsLive(m', y) ==> Recorded(m', y) && m'.headers[y.addr].owner in m'.quota
    ensures forall y, y' :: IsFree(m', y) && IsLive(m', y') ==> y.addr != y'.addr
    ensures forall a :: a in m'.headers ==> a < m'.nextAddr
  {
    forall y | IsFree(m', y) ensures Recorded(m', y) && y.size <= CacheableMaxSize {
      assert IsFree(m, y) && y.addr != b.addr;
    }
    forall y | IsLive(m', y) ensures Recorded(m', y) && m'.headers[y.addr].owner in m'.quota {
      if y != b {
        assert IsLive(m, y) && y.addr != b.addr;
      }
    }
    forall y, y' | IsFree(m', y) && IsLive(m', y') ensures y.addr != y'.addr {
      assert IsFree(m, y) && y.addr != b.addr;
    }
  }

  /** Allocation keeps the allocator valid, and the address it returns is
      allocated afterwards. */
  lemma AllocateKeepsValid(m: MemCache, user: Option<string>, size: int)
    requires Valid(m)
    ensures var r := Allocate(Some(m), user, size);
            && r.1.Some? && Valid(r.1.value)
            && (r.0.Some? ==> IsAllocated(r.1.value, r.0))
  {
    var r := Allocate(Some(m), user, size);
    if IsUserExists(m, user) && 0 < size <= m.quota[user.value] {
      AllocateEffect(m, user, size);
      TakeBlockFacts(m, size);
      var m' := r.1.value;
      HandOutKeepsBlocks(m, m', TakeBlock(m, size).0, user.value);
      assert Valid(m');
      LiveIsAllocated(m', TakeBlock(m, size).0);
    }
  }

  /** Allocation moves `size` bytes from the user's remaining quota to its
      live blocks: every balance stays the same. */
  lemma AllocateKeepsBalance(m: MemCache, user: Option<string>, size: int, u: string)
    requires Valid(m) && u in m.quota
    ensures var r := Allocate(Some(m), user, size);
            r.1.Some? && u in r.1.value.quota && Balance(r.1.value, u) == Balance(m, u)
  {
    var r := Allocate(Some(m), user, size);
    if IsUserExists(m, user) && 0 < size <= m.quota[user.value] {
      AllocateEffect(m, user, size);
      TakenUnused(m, size);
      var m' := r.1.value;
      var b := TakeBlock(m, size).0;
      var k := AllocKey(m.shape)(b);
      var cells := m.allocatedIndex.cells;
      NewHeaderKeepsWeights(m.headers, b.addr, Header(size, OwnerOnly, user.value), u, cells);
      ChargedAdd(m.headers, m'.headers, u, cells, m'.allocatedIndex.cells, k, b);
    }
  }

  /** No live block has the address of the block an allocation takes. */
  lemma TakenUnused(m: MemCache, size: int)
    requires Valid(m) && size > 0
    ensures forall y :: Cache.InCells(m.allocatedIndex.cells, y) ==> y.addr != TakeBlock(m, size).0.addr
  {
    TakeBlockFacts(m, size);
  }

  /** A header written at an address none of the blocks has changes none
      of their costs. */
  lemma NewHeaderKeepsWeights(h: map<nat, Header>, a: nat, hd: Header, u: string, cells: seq<MySet.MySet<Block>>)
    requires forall y :: Cache.InCells(cells, y) ==> y.addr != a
    ensures forall y :: Cache.InCells(cells, y) ==> Weight(h, u, y) == Weight(h[a := hd], u, y)
  {
  }

  /** Putting `b` into cell `k` raises the charge by what `b` costs, when
      no other block's cost changes. */
  lemma ChargedAdd(h: map<nat, Header>, h': map<nat, Header>, u: string,
                   cells: seq<MySet.MySet<Block>>, cells': seq<MySet.MySet<Block>>, k: nat, b: Block)
    requires k < |cells| == |cells'| && cells' == cells[k := cells'[k]]
    requires multiset(cells'[k].elems) == multiset(cells[k].elems) + multiset{b}
    requires forall y :: Cache.InCells(cells, y) ==> Weight(h, u, y) == Weight(h', u, y)
    ensures Charged(h', u, cells') == Charged(h, u, cells) + Weight(h', u, b)
  {
    ChargedFrame(h, h', u, cells);
    ChargedUpdate(h', u, cells, k, cells'[k]);
    ChargedInAdd(h', u, cells[k].elems, cells'[k].elems, b);
  }

  /* ---------------------------------------------------------------------- */
  /* Free                                                                   */
  /* ---------------------------------------------------------------------- */

  /** The block a successful `Free` releases, and what happens to the
      allocated index: that block, and only it, leaves its cell. */
  lemma FreeUnlinks(m: MemCache, user: Option<string>, p: nat)
    requires Valid(m) && Free(Some(m), user, Some(p)).0 == Success
    ensures var m' := Free(Some(m), user, Some(p)).1.value;
            var b := Block(p, m.headers[p].size);
            var k := AllocKey(m.shape)(b);
            && p in m.headers && IsLive(m, b)
            && Cache.Valid(BlockCompare, AllocKey(m.shape), m'.allocatedIndex)
            && |m'.allocatedIndex.cells| == |m.allocatedIndex.cells|
            && 0 <= k < |m.allocatedIndex.cells|
            && m'.allocatedIndex.cells == m.allocatedIndex.cells[k := m'.allocatedIndex.cells[k]]
            && multiset(m'.allocatedIndex.cells[k].elems) + multiset{b} == multiset(m.allocatedIndex.cells[k].elems)
            && (forall y :: IsLive(m', y) <==> IsLive(m, y) && y != b)
  {
    BlockCompareIsComparator();
    AllocatedIsLive(m, p);
    var b := Block(p, m.headers[p].size);
    var key := AllocKey(m.shape);
    var c := m.allocatedIndex;
    Cache.FreeKeepsValid(BlockCompare, key, c, b);
    Cache.FreeInCells(BlockCompare, key, c, b);
    Cache.FreeRemovesStored(BlockCompare, key, c, b);
    forall y | IsLive(m, y) ensures BlockCompare(y, b) == 0 <==> y == b {
      if y.addr == p {
        RecordedUnique(m, y, b);
      }
    }
  }

  /** Pushing a live block of at most `CacheableMaxSize` bytes into the free
      cache succeeds and adds exactly that block. */
  lemma CacheLiveBlock(m: MemCache, b: Block)
    requires Valid(m) && IsLive(m, b) && b.size <= CacheableMaxSize
    ensures var r := Cache.Push(BlockCompare, FreeKey, Some(m.freeCache), Some(b));
            && r.0 == Cache.Success && Cache.Valid(BlockCompare, FreeKey, r.1.value)
            && |r.1.value.cells| == |m.freeCache.cells|
            && forall y :: Cache.InCells(r.1.value.cells, y) <==> IsFree(m, y) || y == b
  {
    BlockCompareIsComparator();
    var c := m.freeCache;
    var k := FreeKey(b);
    forall j | 0 <= j < |c.cells[k].elems| ensures BlockCompare(c.cells[k].elems[j], b) != 0 {
      assert IsFree(m, c.cells[k].elems[j]);
    }
    assert !Cache.IsIn(BlockCompare, FreeKey, Some(c), Some(b));
    Cache.PushKeepsValid(BlockCompare, FreeKey, c, b);
    Cache.PushInCells(BlockCompare, FreeKey, c, b);
  }

  /** And what happens to the free cache: a block of at most
      `CacheableMaxSize` bytes joins it, a larger one is released and its
      header dropped. */
  lemma FreeCaches(m: MemCache, user: Option<string>, p: nat)
    requires Valid(m) && Free(Some(m), user, Some(p)).0 == Success
    ensures var m' := Free(Some(m), user, Some(p)).1.value;
            var b := Block(p, m.headers[p].size);
            && p in m.headers
            && Cache.Valid(BlockCompare, FreeKey, m'.freeCache)
            && |m'.freeCache.cells| == |m.freeCache.cells|
            && (b.size <= CacheableMaxSize ==> forall y :: IsFree(m', y) <==> IsFree(m, y) || y == b)
            && (b.size > CacheableMaxSize ==> m'.freeCache == m.freeCache)
  {
    AllocatedIsLive(m, p);
    var b := Block(p, m.headers[p].size);
    if b.size <= CacheableMaxSize {
      CacheLiveBlock(m, b);
    }
  }

  /** Releasing the live block `b` (into the free cache, or for good with
      its header dropped) keeps every free and live block on record, and
      none both. */
  lemma ReleaseKeepsBlocks(m: MemCache, m': MemCache, b: Block)
    requires Valid(m) && IsLive(m, b) && m'.nextAddr == m.nextAddr && m'.quota.Keys == m.quota.Keys
    requires b.size <= CacheableMaxSize ==> m'.headers == m.headers && forall y :: IsFree(m', y) <==> IsFree(m, y) || y == b
    requires b.size > CacheableMaxSize ==> m'.headers == m.headers - {b.addr} && forall y :: IsFree(m', y) <==> IsFree(m, y)
    requires forall y :: IsLive(m', y) <==> IsLive(m, y) && y != b
    ensures forall y :: IsFree(m', y) ==> Recorded(m', y) && y.size <= CacheableMaxSize
    ensures forall y :: IsLive(m', y) ==> Recorded(m', y) && m'.headers[y.addr].owner in m'.quota
    ensures forall y, y' :: IsFree(m', y) && IsLive(m', y') ==> y.addr != y'.addr
    ensures forall a :: a in m'.headers ==> a < m'.nextAddr
  {
    forall y | IsLive(m', y) ensures Recorded(m', y) && m'.headers[y.addr].owner in m'.quota {
      assert IsLive(m, y);
      if y.addr == b.addr {
        RecordedUnique(m, y, b);
      }
    }
    forall y | IsFree(m', y) ensures Recorded(m', y) && y.size <= CacheableMaxSize {
      if y != b {
        assert IsFree(m, y);
      }
    }
    forall y, y' | IsFree(m', y) && IsLive(m', y') ensures y.addr != y'.addr {
      assert IsLive(m, y');
      if y == b {
        if y'.addr == b.addr {
          RecordedUnique(m, y', b);
        }
      } else {
        assert IsFree(m, y);
      }
    }
  }

  /** Freeing keeps the allocator valid, and `ptr` is no longer
      allocated afterwards. */
  lemma FreeKeepsValid(m: MemCache, user: Option<string>, ptr: Option<nat>)
    requires Valid(m)
    ensures var r := Free(Some(m), user, ptr);
            && r.1.Some? && Valid(r.1.value)
            && (r.0 == Success ==> !IsAllocated(r.1.value, ptr))
  {
    var r := Free(Some(m), user, ptr);
    if r.0 == Success {
      FreeStaysValid(m, user, ptr.value);
      FreeDeallocates(m, user, ptr.value);
    }
  }

  /** A successful free leaves a valid allocator. */
  lemma FreeStaysValid(m: MemCache, user: Option<string>, p: nat)
    requires Valid(m) && Free(Some(m), user, Some(p)).0 == Success
    ensures Valid(Free(Some(m), user, Some(p)).1.value)
  {
    FreeKeepsShape(m, user, p);
    FreeKeepsRecords(m, user, p);
  }

  /** A successful free keeps the users, the index shape and both caches
      well formed. */
  lemma FreeKeepsShape(m: MemCache, user: Option<string>, p: nat)
    requires Valid(m) && Free(Some(m), user, Some(p)).0 == Success
    ensures var m' := Free(Some(m), user, Some(p)).1.value;
            && Graph.Valid(m'.trust) && m'.trust.vertices == m'.quota.Keys
            && (forall u :: u in m'.quota ==> IsLegalName(u) && m'.quota[u] >= 0)
            && IndexCoversAll(m'.shape)
            && Cache.Valid(BlockCompare, FreeKey, m'.freeCache) && |m'.freeCache.cells| >= CacheableMaxSize
            && Cache.Valid(BlockCompare, AllocKey(m'.shape), m'.allocatedIndex) && |m'.allocatedIndex.cells| == m'.shape.cells
  {
    FreeUnlinks(m, user, p);
    FreeCaches(m, user, p);
  }

  /** A successful free keeps every held block on record and the free and
      live blocks apart. */
  lemma FreeKeepsRecords(m: MemCache, user: Option<string>, p: nat)
    requires Valid(m) && Free(Some(m), user, Some(p)).0 == Success
    ensures var m' := Free(Some(m), user, Some(p)).1.value;
            && (forall b :: IsFree(m', b) ==> Recorded(m', b) && b.size <= CacheableMaxSize)
            && (forall b :: IsLive(m', b) ==> Recorded(m', b) && m'.headers[b.addr].owner in m'.quota)
            && (forall b, b' :: IsFree(m', b) && IsLive(m', b') ==> b.addr != b'.addr)
            && (forall a :: a in m'.headers ==> a < m'.nextAddr)
  {
    FreeUnlinks(m, user, p);
    FreeCaches(m, user, p);
    var m' := Free(Some(m), user, Some(p)).1.value;
    ReleaseKeepsBlocks(m, m', Block(p, m.headers[p].size));
  }

  /** After a successful free the pointer is no longer allocated. */
  lemma FreeDeallocates(m: MemCache, user: Option<string>, p: nat)
    requires Valid(m) && Free(Some(m), user, Some(p)).0 == Success
    ensures !IsAllocated(Free(Some(m), user, Some(p)).1.value, Some(p))
  {
    FreeUnlinks(m, user, p);
    FreeStaysValid(m, user, p);
    var m' := Free(Some(m), user, Some(p)).1.value;
    var b := Block(p, m.headers[p].size);
    AllocatedMeansLive(m', p);
    if p in m'.headers {
      assert Block(p, m'.headers[p].size) == b;
    }
  }

  /** Taking `b` out of cell `k` lowers the charge by what `b` cost, when
      no other block's cost changes. */
  lemma ChargedRemove(h: map<nat, Header>, h': map<nat, Header>, u: string,
                      cells: seq<MySet.MySet<Block>>, cells': seq<MySet.MySet<Block>>, k: nat, b: Block)
    requires k < |cells| == |cells'| && cells' == cells[k := cells'[k]]
    requires multiset(cells'[k].elems) + multiset{b} == multiset(cells[k].elems)
    requires forall y :: Cache.InCells(cells', y) ==> Weight(h', u, y) == Weight(h, u, y)
    ensures Charged(h', u, cells') + Weight(h, u, b) == Charged(h, u, cells)
  {
    ChargedFrame(h', h, u, cells');
    ChargedUpdate(h, u, cells, k, cells'[k]);
    ChargedInAdd(h, u, cells'[k].elems, cells[k].elems, b);
  }

  /** Releasing `b` changes no other live block's cost. */
  lemma ReleaseKeepsWeights(m: MemCache, m': MemCache, b: Block, u: string)
    requires Valid(m) && IsLive(m, b)
    requires m'.headers == m.headers || m'.headers == m.headers - {b.addr}
    requires forall y :: IsLive(m', y) <==> IsLive(m, y) && y != b
    ensures forall y :: IsLive(m', y) ==> Weight(m'.headers, u, y) == Weight(m.headers, u, y)
  {
    forall y | IsLive(m', y) ensures Weight(m'.headers, u, y) == Weight(m.headers, u, y) {
      if y.addr == b.addr {
        RecordedUnique(m, y, b);
      }
    }
  }

  /** Freeing gives the block's size back to its owner's quota: every
      balance stays the same. */
  lemma FreeKeepsBalance(m: MemCache, user: Option<string>, ptr: Option<nat>, u: string)
    requires Valid(m) && u in m.quota
    ensures var r := Free(Some(m), user, ptr);
            r.1.Some? && u in r.1.value.quota && Balance(r.1.value, u) == Balance(m, u)
  {
    var r := Free(Some(m), user, ptr);
    if r.0 == Success {
      var p := ptr.value;
      FreeUnlinks(m, user, p);
      var m' := r.1.value;
      var b := Block(p, m.headers[p].size);
      var cells' := m'.allocatedIndex.cells;
      FreeCaches(m, user, p);
      ReleaseKeepsWeights(m, m', b, u);
      ChargedRemove(m.headers, m'.headers, u, m.allocatedIndex.cells, cells', AllocKey(m.shape)(b), b);
    }
  }

  /* ---------------------------------------------------------------------- */
  /* Block modes, users, trust, reset                                       */
  /* ---------------------------------------------------------------------- */

  /** Changing a block's mode keeps the allocator valid and every balance:
      sizes and owners stay as they were. */
  lemma SetBlockModeKeepsValid(m: MemCache, user: Option<string>, ptr: Option<nat>, mode: char)
    requires Valid(m)
    ensures var r := SetBlockMode(Some(m), user, ptr, mode);
            && r.1.Some? && Valid(r.1.value)
            && forall u :: u in m.quota ==> u in r.1.value.quota && Balance(r.1.value, u) == Balance(m, u)
  {
    SetBlockModeStaysValid(m, user, ptr, mode);
    var m' := SetBlockMode(Some(m), user, ptr, mode).1.value;
    forall u | u in m.quota ensures Balance(m', u) == Balance(m, u) {
      SetBlockModeKeepsBalance(m, user, ptr, mode, u);
    }
  }

  lemma SetBlockModeStaysValid(m: MemCache, user: Option<string>, ptr: Option<nat>, mode: char)
    requires Valid(m)
    ensures SetBlockMode(Some(m), user, ptr, mode).1.Some?
    ensures Valid(SetBlockMode(Some(m), user, ptr, mode).1.value)
  {
    var m' := SetBlockMode(Some(m), user, ptr, mode).1.value;
    if m' != m {
      HeaderRewriteKeepsValid(m, m'.headers);
    }
  }

  /** Rewriting headers without changing which addresses have one, nor any
      block's size or owner, keeps the allocator valid. */
  lemma HeaderRewriteKeepsValid(m: MemCache, headers: map<nat, Header>)
    requires Valid(m) && headers.Keys == m.headers.Keys
    requires forall q :: q in headers ==> headers[q].size == m.headers[q].size && headers[q].owner == m.headers[q].owner
    ensures Valid(m.(headers := headers))
  {
    var m' := m.(headers := headers);
    forall y ensures Recorded(m', y) <==> Recorded(m, y) {
    }
  }

  lemma SetBlockModeKeepsBalance(m: MemCache, user: Option<string>, ptr: Option<nat>, mode: char, u: string)
    requires Valid(m) && u in m.quota
    ensures SetBlockMode(Some(m), user, ptr, mode).1.Some?
    ensures var m' := SetBlockMode(Some(m), user, ptr, mode).1.value;
            u in m'.quota && Balance(m', u) == Balance(m, u)
  {
    var m' := SetBlockMode(Some(m), user, ptr, mode).1.value;
    ChargedFrame(m'.headers, m.headers, u, m.allocatedIndex.cells);
  }

  /** Registering a user keeps the allocator valid, leaves every existing
      balance alone and gives the new user its limit. When storing the
      quota fails the allocator is left exactly as it was. */
  lemma AddUserKeepsValid(m: MemCache, name: Option<string>, limit: int, putFails: bool)
    requires Valid(m)
    ensures var r := AddUser(Some(m), name, limit, putFails);
            && r.1.Some? && Valid(r.1.value)
            && (forall u :: u in m.quota ==> u in r.1.value.quota && Balance(r.1.value, u) == Balance(m, u))
            && (r.0 == Success ==> Balance(r.1.value, name.value) == limit)
            && (r.0 == OutOfMemory ==> r.1 == Some(m))
  {
    var r := AddUser(Some(m), name, limit, putFails);
    var m' := r.1.value;
    if r.0 == OutOfMemory {
      Graph.AddThenRemoveVertex(m.trust, name.value);
    } else if r.0 == Success {
      var n := name.value;
      forall y | IsLive(m, y) ensures Weight(m.headers, n, y) == 0 {
      }
      ChargedNothing(m.headers, n, m.allocatedIndex.cells);
    }
  }

  /** Trusting keeps the allocator valid; only the trust graph changes. */
  lemma TrustKeepsValid(m: MemCache, u1: Option<string>, u2: Option<string>)
    requires Valid(m)
    ensures var r := Trust(Some(m), u1, u2);
            && r.1.Some? && Valid(r.1.value)
            && forall u :: u in m.quota ==> u in r.1.value.quota && Balance(r.1.value, u) == Balance(m, u)
  {
  }

  /** Untrusting keeps the allocator valid; only the trust graph changes. */
  lemma UntrustKeepsValid(m: MemCache, u1: Option<string>, u2: Option<string>)
    requires Valid(m)
    ensures var r := Untrust(Some(m), u1, u2);
            && r.1.Some? && Valid(r.1.value)
            && forall u :: u in m.quota ==> u in r.1.value.quota && Balance(r.1.value, u) == Balance(m, u)
  {
  }

  /** After a reset the allocator is valid, knows no user and holds no
      block, free or live. */
  lemma ResetKeepsValid(m: MemCache)
    requires Valid(m)
    ensures var r := Reset(Some(m));
            && r.1.Some? && Valid(r.1.value)
            && (forall name :: !IsUserExists(r.1.value, name))
            && (forall b :: !IsFree(r.1.value, b) && !IsLive(r.1.value, b))
  {
    var m' := Reset(Some(m)).1.value;
    BlockCompareIsComparator();
    Cache.ClearEmpties(BlockCompare, FreeKey, m.freeCache, Block(0, 1));
    Cache.ClearEmpties(BlockCompare, AllocKey(m.shape), m.allocatedIndex, Block(0, 1));
    assert m'.freeCache == Cache.Clear(Some(m.freeCache)).1.value;
    assert m'.allocatedIndex == Cache.Clear(Some(m.allocatedIndex)).1.value;
    assert forall b :: !IsFree(m', b) && !IsLive(m', b);
    assert m'.quota == map[] && m'.headers == map[] && m'.shape == m.shape;
    assert Graph.Valid(m'.trust) && m'.trust.vertices == {};
  }
}
