/** What a user of the allocator can observe: which block an allocation
    gets, what freeing does to a pointer, what trusting twice or untrusting
    does, what a reset forgets, and the order the two block walks visit the
    blocks in. */
module MemCacheProperties {
  import opened Wrappers
  import opened Comparators
  import MySet
  import Cache
  import Graph
  import opened MemCacheHeader
  import opened MemCache
  import opened MemCacheInvariant

  /* ---------------------------------------------------------------------- */
  /* Allocation and freeing                                                 */
  /* ---------------------------------------------------------------------- */

  /** A free block of size `size` exists. */
  ghost predicate HasFreeOfSize(m: MemCache, size: int) {
    exists y :: IsFree(m, y) && y.size == size
  }

  /** A free block sits in the free cache's cell for its size. */
  lemma FreeInItsCell(m: MemCache, y: Block)
    requires Valid(m) && IsFree(m, y)
    ensures 0 <= y.size - 1 < |m.freeCache.cells| && y in m.freeCache.cells[y.size - 1].elems
  {
    var i :| 0 <= i < |m.freeCache.cells| && y in m.freeCache.cells[i].elems;
    assert FreeKey(y) == i;
  }

  /** The free cache's cell for a size starts with the lowest-addressed free
      block of that size, and is empty when there is none. */
  lemma CellHeadIsLowest(m: MemCache, size: int)
    requires Valid(m) && 0 < size <= CacheableMaxSize
    ensures var cell := m.freeCache.cells[size - 1].elems;
            && (|cell| > 0 <==> HasFreeOfSize(m, size))
            && (|cell| > 0 ==> IsFree(m, cell[0]) && forall y :: IsFree(m, y) && y.size == size ==> cell[0].addr <= y.addr)
  {
    var cell := m.freeCache.cells[size - 1].elems;
    if |cell| > 0 {
      CellHeadFree(m, size - 1);
      forall y | IsFree(m, y) && y.size == size ensures cell[0].addr <= y.addr {
        FreeInItsCell(m, y);
      }
    } else if HasFreeOfSize(m, size) {
      var y :| IsFree(m, y) && y.size == size;
      FreeInItsCell(m, y);
    }
  }

  /** The first block of a non-empty cell of the free cache is free, has
      the cell's size, and has the lowest address in the cell. */
  lemma CellHeadFree(m: MemCache, k: int)
    requires Valid(m) && 0 <= k < |m.freeCache.cells| && |m.freeCache.cells[k].elems| > 0
    ensures var cell := m.freeCache.cells[k].elems;
            && IsFree(m, cell[0]) && cell[0].size == k + 1
            && forall y :: y in cell ==> cell[0].addr <= y.addr
  {
    var cell := m.freeCache.cells[k].elems;
    assert MySet.Valid(BlockCompare, m.freeCache.cells[k]);
    SortedHeadLowest(cell);
    assert cell[0] in m.freeCache.cells[k].elems;
    assert Cache.InCells(m.freeCache.cells, cell[0]) && FreeKey(cell[0]) == k;
  }

  /** A list ordered by address starts with its lowest address. */
  lemma SortedHeadLowest(cell: seq<Block>)
    requires |cell| > 0 && MySet.Sorted(BlockCompare, cell)
    ensures forall y :: y in cell ==> cell[0].addr <= y.addr
  {
    forall y | y in cell ensures cell[0].addr <= y.addr {
      var j :| 0 <= j < |cell| && cell[j] == y;
      assert j == 0 || BlockCompare(cell[0], cell[j]) < 0;
    }
  }

  /** The block an allocation takes is the lowest-addressed free block of
      exactly that size when there is one, otherwise a fresh one. */
  lemma TakeBlockReuses(m: MemCache, size: int)
    requires Valid(m) && size > 0
    ensures var b := TakeBlock(m, size).0;
            && (size <= CacheableMaxSize && HasFreeOfSize(m, size) ==>
                  && IsFree(m, b)
                  && forall y :: IsFree(m, y) && y.size == size ==> b.addr <= y.addr)
            && (!(size <= CacheableMaxSize && HasFreeOfSize(m, size)) ==>
                  b.addr == m.nextAddr && b.addr !in m.headers)
  {
    TakeBlockFacts(m, size);
    if size <= CacheableMaxSize {
      CellHeadIsLowest(m, size);
    }
  }

  /** An allocation of a cacheable size reuses the lowest-addressed free
      block of exactly that size when there is one; otherwise it gets a
      fresh address the allocator has never handed out. */
  lemma AllocateReuses(m: MemCache, user: Option<string>, size: int)
    requires Valid(m) && IsUserExists(m, user) && 0 < size <= m.quota[user.value]
    ensures var r := Allocate(Some(m), user, size);
            && r.0.Some?
            && (size <= CacheableMaxSize && HasFreeOfSize(m, size) ==>
                  && IsFree(m, Block(r.0.value, size))
                  && forall y :: IsFree(m, y) && y.size == size ==> r.0.value <= y.addr)
            && (!(size <= CacheableMaxSize && HasFreeOfSize(m, size)) ==>
                  r.0.value == m.nextAddr && r.0.value !in m.headers)
  {
    AllocateEffect(m, user, size);
    TakeBlockReuses(m, size);
  }

  /** Freeing takes the block out of the allocated index for good: the
      pointer is no longer allocated, the block is kept free exactly when it
      is cacheable, a released block's header is gone, and every block that
      was free stays free. */
  lemma FreeReleases(m: MemCache, user: Option<string>, p: nat)
    requires Valid(m) && Free(Some(m), user, Some(p)).0 == Success
    ensures var m' := Free(Some(m), user, Some(p)).1.value;
            && p in m.headers
            && var b := Block(p, m.headers[p].size);
            && !IsAllocated(m', Some(p)) && !IsLive(m', b)
            && (IsFree(m', b) <==> b.size <= CacheableMaxSize)
            && (b.size > CacheableMaxSize ==> p !in m'.headers)
            && forall y :: IsFree(m, y) ==> IsFree(m', y)
  {
    FreeUnlinks(m, user, p);
    FreeCaches(m, user, p);
    FreeKeepsValid(m, user, Some(p));
  }

  /** A second free of the same pointer is refused: the block is no longer
      allocated (or, for a user that does not exist, the user is not
      found). */
  lemma DoubleFreeRejected(m: MemCache, user: Option<string>, user2: Option<string>, p: nat)
    requires Valid(m) && Free(Some(m), user, Some(p)).0 == Success
    ensures var again := Free(Free(Some(m), user, Some(p)).1, user2, Some(p));
            again.0 == if IsUserExists(m, user2) then BlockNotAllocated else UserNotFound
  {
    FreeKeepsValid(m, user, Some(p));
  }

  /** Freeing a cacheable block and allocating its size again for its owner
      succeeds, and gives back that block or a lower-addressed free one of
      the same size; with no other free block of that size, that very
      block. */
  lemma FreeThenAllocateReuses(m: MemCache, user: Option<string>, p: nat)
    requires Valid(m) && Free(Some(m), user, Some(p)).0 == Success
    requires p in m.headers && m.headers[p].size <= CacheableMaxSize
    ensures var m' := Free(Some(m), user, Some(p)).1.value;
            var h := m.headers[p];
            var r := Allocate(Some(m'), Some(h.owner), h.size);
            && r.0.Some? && r.0.value <= p
            && (!HasFreeOfSize(m, h.size) ==> r.0 == Some(p))
  {
    var m' := Free(Some(m), user, Some(p)).1.value;
    var h := m.headers[p];
    FreeStaysValid(m, user, p);
    FreeReleases(m, user, p);
    FreeCaches(m, user, p);
    FreedOwnerExists(m, user, p);
    ReallocateFreed(m, m', Block(p, h.size), h.owner);
  }

  /** Allocating the size of a block `b` that has just joined the free
      blocks gives back `b` or a lower-addressed free block of that size;
      `b` itself when it is the only one. */
  lemma ReallocateFreed(m: MemCache, m': MemCache, b: Block, owner: string)
    requires Valid(m') && IsUserExists(m', Some(owner)) && 0 < b.size <= m'.quota[owner]
    requires b.size <= CacheableMaxSize
    requires forall y :: IsFree(m', y) <==> IsFree(m, y) || y == b
    ensures var r := Allocate(Some(m'), Some(owner), b.size);
            && r.0.Some? && r.0.value <= b.addr
            && (!HasFreeOfSize(m, b.size) ==> r.0 == Some(b.addr))
  {
    assert IsFree(m', b);
    assert HasFreeOfSize(m', b.size);
    AllocateReuses(m', Some(owner), b.size);
    var q := Allocate(Some(m'), Some(owner), b.size).0.value;
    if !HasFreeOfSize(m, b.size) {
      SoleFreeOfSize(m, m', b);
      assert Block(q, b.size) == b;
    }
  }

  /** When `b` is the one block added to the free blocks and none of its
      size was free before, it is the only free block of its size. */
  lemma SoleFreeOfSize(m: MemCache, m': MemCache, b: Block)
    requires forall y :: IsFree(m', y) <==> IsFree(m, y) || y == b
    requires !HasFreeOfSize(m, b.size)
    ensures forall y :: IsFree(m', y) && y.size == b.size ==> y == b
  {
  }

  /** The owner of a freed block is still a user afterwards. */
  lemma FreedOwnerExists(m: MemCache, user: Option<string>, p: nat)
    requires Valid(m) && Free(Some(m), user, Some(p)).0 == Success
    ensures var m' := Free(Some(m), user, Some(p)).1.value;
            p in m.headers && IsUserExists(m', Some(m.headers[p].owner))
            && m.headers[p].size <= m'.quota[m.headers[p].owner]
  {
    AllocatedIsLive(m, p);
  }

  /* ---------------------------------------------------------------------- */
  /* Trust                                                                  */
  /* ---------------------------------------------------------------------- */

  /** Trusting twice is trusting once. */
  lemma TrustIdempotent(m: MemCache, u1: Option<string>, u2: Option<string>)
    ensures Trust(Trust(Some(m), u1, u2).1, u1, u2) == Trust(Some(m), u1, u2)
  {
  }

  /** Untrusting undoes a trust that was not there before. */
  lemma UntrustUndoesTrust(m: MemCache, u1: Option<string>, u2: Option<string>)
    requires IsUserExists(m, u1) && IsUserExists(m, u2) && Valid(m)
    requires (u1.value, u2.value) !in m.trust.edges
    ensures Untrust(Trust(Some(m), u1, u2).1, u1, u2) == (Success, Some(m))
  {
    var m' := Trust(Some(m), u1, u2).1.value;
    assert m'.trust.edges - {(u1.value, u2.value)} == m.trust.edges;
    assert m'.trust == m.trust.(edges := m'.trust.edges);
  }

  /** A group block may be freed by exactly its owner and the users the
      owner trusts; an owner-only block by its owner alone. */
  lemma GroupPermission(m: MemCache, user: Option<string>, p: nat)
    requires Valid(m) && IsUserExists(m, user) && IsAllocated(m, Some(p))
    ensures var h := m.headers[p];
            && (h.mode == Group ==>
                  (Free(Some(m), user, Some(p)).0 == Success <==>
                     user.value == h.owner || Graph.IsDirectedEdgeExists(Some(m.trust), Some(h.owner), user)))
            && (h.mode == OwnerOnly ==>
                  (Free(Some(m), user, Some(p)).0 == Success <==> user.value == h.owner))
            && (h.mode == Everyone ==> Free(Some(m), user, Some(p)).0 == Success)
  {
  }

  /* ---------------------------------------------------------------------- */
  /* Reset                                                                  */
  /* ---------------------------------------------------------------------- */

  /** After a reset no user is known, so freeing fails with "user not
      found"; both walks find nothing; and a user registered again starts
      with a fresh quota and trusts nobody. */
  lemma ResetForgets(m: MemCache, user: Option<string>, ptr: Option<nat>, name: string, limit: int)
    requires Valid(m)
    ensures var m' := Reset(Some(m)).1.value;
            && Free(Some(m'), user, ptr).0 == UserNotFound
            && FreeBlocks(m') == [] && AllocatedBlocks(m') == []
            && (IsLegalName(name) && limit > 0 ==>
                  var r := AddUser(Some(m'), Some(name), limit, false);
                  && r.0 == Success && r.1.value.quota == map[name := limit]
                  && r.1.value.trust.edges == {})
  {
    var m' := Reset(Some(m)).1.value;
    assert !IsUserExists(m', user);
    if IsLegalName(name) && limit > 0 {
      var r := AddUser(Some(m'), Some(name), limit, false);
      assert r.1.value.quota.Keys == {name};
    }
  }

  /* ---------------------------------------------------------------------- */
  /* The block walks                                                        */
  /* ---------------------------------------------------------------------- */

  /** The free walk lists exactly the free blocks, by size and then by
      address. */
  lemma FreeWalkOrder(m: MemCache)
    requires Valid(m)
    ensures var fb := FreeBlocks(m);
            && (forall i :: 0 <= i < |fb| ==> fb[i] in m.headers && IsFree(m, Block(fb[i], m.headers[fb[i]].size)))
            && (forall b :: IsFree(m, b) ==> b.addr in fb)
            && (forall i, j :: 0 <= i < j < |fb| ==>
                  var si, sj := m.headers[fb[i]].size, m.headers[fb[j]].size;
                  si < sj || (si == sj && fb[i] < fb[j]))
  {
    var bs := Cache.Contents(m.freeCache.cells);
    Cache.ContentsInWalkOrder(BlockCompare, FreeKey, m.freeCache);
    forall i | 0 <= i < |bs| ensures Block(bs[i].addr, m.headers[bs[i].addr].size) == bs[i] && bs[i].addr in m.headers {
      assert bs[i] in bs;
    }
    forall b | IsFree(m, b) ensures b.addr in FreeBlocks(m) {
      var i :| 0 <= i < |bs| && bs[i] == b;
      assert FreeBlocks(m)[i] == b.addr;
    }
  }

  /** Each entry of the allocated walk is a live block, as its header
      records it. */
  lemma AllocatedListed(m: MemCache)
    requires Valid(m)
    ensures var bs := Cache.Contents(m.allocatedIndex.cells);
            && (forall b :: b in bs <==> IsLive(m, b))
            && Cache.InWalkOrder(BlockCompare, AllocKey(m.shape), bs)
            && forall i :: 0 <= i < |bs| ==> bs[i].addr in m.headers && bs[i] == Block(bs[i].addr, m.headers[bs[i].addr].size)
  {
    var bs := Cache.Contents(m.allocatedIndex.cells);
    Cache.ContentsInWalkOrder(BlockCompare, AllocKey(m.shape), m.allocatedIndex);
    forall i | 0 <= i < |bs| ensures bs[i].addr in m.headers && bs[i] == Block(bs[i].addr, m.headers[bs[i].addr].size) {
      assert bs[i] in bs;
    }
  }

  /** The allocated walk lists exactly the allocated pointers. */
  lemma AllocatedWalkMembers(m: MemCache)
    requires Valid(m)
    ensures var ab := AllocatedBlocks(m);
            && (forall i :: 0 <= i < |ab| ==> IsAllocated(m, Some(ab[i])))
            && (forall p :: IsAllocated(m, Some(p)) ==> p in ab)
  {
    var bs := Cache.Contents(m.allocatedIndex.cells);
    var ab := AllocatedBlocks(m);
    AllocatedListed(m);
    forall i | 0 <= i < |ab| ensures IsAllocated(m, Some(ab[i])) {
      assert bs[i] in bs;
      LiveIsAllocated(m, bs[i]);
    }
    forall p | IsAllocated(m, Some(p)) ensures p in ab {
      AllocatedIsLive(m, p);
      var i :| 0 <= i < |bs| && bs[i] == Block(p, m.headers[p].size);
      assert ab[i] == p;
    }
  }

  /** The allocated walk lists each pointer once, ordered by the cell of the
      allocated index and within a cell by address. */
  lemma AllocatedWalkOrder(m: MemCache)
    requires Valid(m)
    ensures var ab := AllocatedBlocks(m);
            && (forall i :: 0 <= i < |ab| ==> ab[i] in m.headers)
            && (forall i, j :: 0 <= i < j < |ab| ==> ab[i] != ab[j])
            && (forall i, j :: 0 <= i < j < |ab| ==>
                  var ki, kj := m.shape.key(ab[i], m.headers[ab[i]].size), m.shape.key(ab[j], m.headers[ab[j]].size);
                  ki < kj || (ki == kj && ab[i] < ab[j]))
  {
    var bs := Cache.Contents(m.allocatedIndex.cells);
    var ab := AllocatedBlocks(m);
    AllocatedListed(m);
    forall i, j | 0 <= i < j < |ab|
      ensures var ki, kj := m.shape.key(ab[i], m.headers[ab[i]].size), m.shape.key(ab[j], m.headers[ab[j]].size);
              ki < kj || (ki == kj && ab[i] < ab[j])
    {
      assert AllocKey(m.shape)(bs[i]) == m.shape.key(ab[i], m.headers[ab[i]].size);
      assert AllocKey(m.shape)(bs[j]) == m.shape.key(ab[j], m.headers[ab[j]].size);
    }
  }

  /** The address-keyed index gives every block a cell. */
  lemma AddressModuloCoversAll()
    ensures IndexCoversAll(AddressModulo())
  {
  }

  /** With an index keyed by the address modulo some `modulus` (the tests
      use 1024, `AddressModulo` uses `AllocatedModulo`) the allocated walk
      is ordered by address modulo `modulus`, so the remainders never
      decrease, and within one remainder by address; when every address is
      below the modulus, the walk is in plain ascending address order. */
  lemma AddressWalkOrder(m: MemCache, modulus: int)
    requires Valid(m) && modulus > 0 && forall a: nat, n: int :: m.shape.key(a, n) == a % modulus
    ensures var ab := AllocatedBlocks(m);
            && (forall i, j :: 0 <= i < j < |ab| ==>
                  ab[i] % modulus < ab[j] % modulus
                  || (ab[i] % modulus == ab[j] % modulus && ab[i] < ab[j]))
            && ((forall i :: 0 <= i < |ab| ==> ab[i] < modulus) ==>
                  forall i, j :: 0 <= i < j < |ab| ==> ab[i] < ab[j])
  {
    var ab := AllocatedBlocks(m);
    AllocatedWalkOrder(m);
    forall i, j | 0 <= i < j < |ab|
      ensures ab[i] % modulus < ab[j] % modulus || (ab[i] % modulus == ab[j] % modulus && ab[i] < ab[j])
    {
      assert m.shape.key(ab[i], m.headers[ab[i]].size) == ab[i] % modulus;
      assert m.shape.key(ab[j], m.headers[ab[j]].size) == ab[j] % modulus;
    }
    if forall i :: 0 <= i < |ab| ==> ab[i] < modulus {
      forall i, j | 0 <= i < j < |ab| ensures ab[i] < ab[j] {
        BelowModulus(ab[i], modulus);
        BelowModulus(ab[j], modulus);
      }
    }
  }

  lemma BelowModulus(a: nat, modulus: int)
    requires a < modulus
    ensures a % modulus == a
  {
  }

  /** The free walk after `n` steps: `GetFirstFreeBlock`, then `n` calls of
      `GetNextFreeBlock`. */
  function FreeWalk(m: MemCache, n: nat): (r: Option<MemCache>)
    ensures r.Some? && r.value == m.(freeWalk := r.value.freeWalk)
  {
    if n == 0 then GetFirstFreeBlock(Some(m)).1
    else GetNextFreeBlock(FreeWalk(m, n - 1)).1
  }

  /** The free walk visits the free blocks in `FreeBlocks` order, one per
      step, and then stays at NULL. */
  lemma {:induction false} FreeWalkVisits(m: MemCache, n: nat)
    ensures FreeWalk(m, n).value.freeWalk == MySet.Walk(MySet.MySet(FreeBlocks(m), None), n)
    ensures GetCurrentFreeBlock(FreeWalk(m, n)) == if n < |FreeBlocks(m)| then Some(FreeBlocks(m)[n]) else None
  {
    if n > 0 {
      FreeWalkVisits(m, n - 1);
    }
    MySet.WalkVisitsInOrder(MySet.MySet(FreeBlocks(m), None), n);
  }

  /** The allocated walk after `n` steps. */
  function AllocatedWalk(m: MemCache, n: nat): (r: Option<MemCache>)
    ensures r.Some? && r.value == m.(allocatedWalk := r.value.allocatedWalk)
  {
    if n == 0 then GetFirstAllocatedBlock(Some(m)).1
    else GetNextAllocatedBlock(AllocatedWalk(m, n - 1)).1
  }

  /** The allocated walk visits the allocated blocks in `AllocatedBlocks`
      order, one per step, and then stays at NULL. */
  lemma {:induction false} AllocatedWalkVisits(m: MemCache, n: nat)
    ensures AllocatedWalk(m, n).value.allocatedWalk == MySet.Walk(MySet.MySet(AllocatedBlocks(m), None), n)
    ensures GetCurrentAllocatedBlock(AllocatedWalk(m, n)) == if n < |AllocatedBlocks(m)| then Some(AllocatedBlocks(m)[n]) else None
  {
    if n > 0 {
      AllocatedWalkVisits(m, n - 1);
    }
    MySet.WalkVisitsInOrder(MySet.MySet(AllocatedBlocks(m), None), n);
  }
}
