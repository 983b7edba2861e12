/** The allocator's `Free` and `Trust` as `memcache.c` writes them, next to
    the behaviour its header and tests describe (`MemCache.Free`,
    `MemCache.Trust`), with the inputs on which the two part ways.

    - `CreateAsWritten` builds the free cache with the code's 265 cells
      rather than `MemCache.Create`'s 256.
    - `FreeAsWritten` pushes blocks of up to 265 bytes (not 256) into the
      free cache, so in a 265-cell cache a 257-byte block is kept. It takes
      the block out of the allocated index with an extract-by-key whose key
      is the block's address, so for an address past the index's last cell
      nothing is taken out and the block stays allocated. A push into the
      free cache that does not succeed fails the assertion after it; in a
      256-cell cache that is what happens to a block of 257 to 265 bytes.
    - `TrustAsWritten` treats every graph result other than success as a
      failed assertion, which a repeated trust produces. */
module MemCacheFindings {
  import opened Wrappers
  import Cache
  import Graph
  import opened MemCacheHeader
  import opened MemCache
  import opened MemCacheInvariant

  /** The cacheable threshold the code uses. */
  const AsWrittenThreshold: int := 265

  /** Either the call returns, or a failed assertion aborts the program. */
  datatype Outcome = Returned(code: MemCacheResult, state: Option<MemCache>) | Aborted

  /** `memCacheCreate` as written: `MemCache.Create` with a free cache of
      `AsWrittenThreshold` cells. */
  function CreateAsWritten(shape: IndexShape): (r: Option<MemCache>)
    ensures r.Some? <==> shape.cells > 0
    ensures r.Some? ==> |r.value.freeCache.cells| == AsWrittenThreshold
  {
    var created := Create(shape);
    var freeCache := Cache.Create<Block>(AsWrittenThreshold, true, true, true, true);
    if created.None? || freeCache.None? then None
    else Some(created.value.(freeCache := freeCache.value))
  }

  /** The as-written allocator starts valid, with no users and no blocks. */
  lemma CreateAsWrittenIsValid(shape: IndexShape)
    requires IndexCoversAll(shape)
    ensures CreateAsWritten(shape).Some? && Valid(CreateAsWritten(shape).value)
    ensures CreateAsWritten(shape).value.quota == map[]
    ensures forall b :: !IsFree(CreateAsWritten(shape).value, b) && !IsLive(CreateAsWritten(shape).value, b)
  {
    CreateIsValid(shape);
    var c := Cache.Create<Block>(AsWrittenThreshold, true, true, true, true).value;
    Cache.CreateIsValid<Block>(BlockCompare, FreeKey, AsWrittenThreshold);
    Cache.ContentsInWalkOrder(BlockCompare, FreeKey, c);
    EmptyFreeCacheKeepsValid(Create(shape).value, c);
  }

  /** Any valid allocator without free blocks stays valid when its free
      cache is swapped for another empty one with enough cells. */
  lemma EmptyFreeCacheKeepsValid(m: MemCache, c: Cache.Cache<Block>)
    requires Valid(m) && Cache.Valid(BlockCompare, FreeKey, c) && |c.cells| >= CacheableMaxSize
    requires forall b :: !Cache.InCells(c.cells, b)
    ensures Valid(m.(freeCache := c))
  {
    var m' := m.(freeCache := c);
    assert forall b :: !IsFree(m', b);
    assert forall b :: IsLive(m', b) <==> IsLive(m, b);
    assert forall b :: Recorded(m', b) <==> Recorded(m, b);
  }

  /** The allocated index `memCacheCreate` builds: `AsWrittenThreshold`
      cells, keyed by the block's size minus one. */
  function SizeKeyedIndex(): IndexShape {
    IndexShape(AsWrittenThreshold, (addr: nat, size: int) => size - 1)
  }

  /** The size-keyed index has a cell exactly for blocks of 1 to 265
      bytes. It does not give every block a cell, so it is not an index
      `Valid` admits, and pushing a 266-byte block into it fails with
      out-of-range. */
  lemma SizeKeyLeavesLargeBlocks(c: Cache.Cache<Block>, addr: nat, size: int)
    requires |c.cells| == AsWrittenThreshold
    ensures !IndexCoversAll(SizeKeyedIndex())
    ensures 0 <= SizeKeyedIndex().key(addr, size) < SizeKeyedIndex().cells <==> 1 <= size <= AsWrittenThreshold
    ensures Cache.Push(BlockCompare, AllocKey(SizeKeyedIndex()), Some(c), Some(Block(addr, AsWrittenThreshold + 1))).0
            == Cache.OutOfRange
  {
    assert SizeKeyedIndex().key(0, AsWrittenThreshold + 1) == AsWrittenThreshold;
  }

  /** `memCacheFree` as written. The checks before the release are those of
      `Free`; an abort can only happen once they have all passed, when the
      push into the free cache reports anything but success. */
  function FreeAsWritten(mc: Option<MemCache>, user: Option<string>, ptr: Option<nat>): (r: Outcome)
    ensures r.Aborted? ==> Free(mc, user, ptr).0 == Success
    ensures r.Returned? ==> r.code == Free(mc, user, ptr).0
    ensures r.Returned? && r.code != Success ==> r.state == mc
    ensures r.Returned? && r.code == Success ==> r.state.Some?
  {
    if mc.None? then Returned(NullArgument, mc)
    else
      var m := mc.value;
      if !IsUserExists(m, user) then Returned(UserNotFound, mc)
      else if !IsAllocated(m, ptr) then Returned(BlockNotAllocated, mc)
      else
        var p := ptr.value;
        var h := m.headers[p];
        if !MayFree(m, h, user.value) then Returned(PermissionDenied, mc)
        else
          var b := Block(p, h.size);
          var quota := Credit(m.quota, h.owner, h.size);
          var pushed := if h.size > AsWrittenThreshold then (Cache.Success, Some(m.freeCache))
                        else Cache.Push(BlockCompare, FreeKey, Some(m.freeCache), Some(b));
          if pushed.0 != Cache.Success then Aborted
          else
            var headers := if h.size > AsWrittenThreshold then m.headers - {p} else m.headers;
            var allocatedIndex := Cache.ExtractElementByKey(BlockCompare, Some(m.allocatedIndex), p).1.value;
            Returned(Success, Some(Unwalked(m.(quota := quota, freeCache := pushed.1.value, headers := headers,
                                                allocatedIndex := allocatedIndex))))
  }

  /** As written, freeing a cacheable block whose address is past the last
      cell of the allocated index leaves it allocated. Freeing it a second
      time passes every check, and the push of a block already in the free
      cache fails the assertion, so the program aborts where
      `MemCacheProperties.DoubleFreeRejected` states the intended refusal. */
  lemma FreeAsWrittenKeepsBlock(m: MemCache, user: Option<string>, p: nat)
    requires Valid(m) && p >= |m.allocatedIndex.cells|
    requires FreeAsWritten(Some(m), user, Some(p)).Returned?
    requires FreeAsWritten(Some(m), user, Some(p)).code == Success
    requires p in m.headers && m.headers[p].size <= AsWrittenThreshold
    ensures var m' := FreeAsWritten(Some(m), user, Some(p)).state.value;
            && IsAllocated(m', Some(p))
            && FreeAsWritten(Some(m'), user, Some(p)) == Aborted
  {
    BlockCompareIsComparator();
    var h := m.headers[p];
    var b := Block(p, h.size);
    FirstFreeAsWritten(m, user, p);
    var m' := FreeAsWritten(Some(m), user, Some(p)).state.value;
    Cache.PushKeepsValid(BlockCompare, FreeKey, m.freeCache, b);
    assert IsAllocated(m', Some(p)) by {
      assert BlockAt(m', Some(p)) == BlockAt(m, Some(p));
    }
    SecondFreeAsWrittenAborts(m', user, p);
  }

  /** What the first free of `FreeAsWrittenKeepsBlock` leaves: the checks
      passed, the block was pushed, and nothing but the quota and the free
      cache changed. */
  lemma FirstFreeAsWritten(m: MemCache, user: Option<string>, p: nat)
    requires p >= |m.allocatedIndex.cells|
    requires FreeAsWritten(Some(m), user, Some(p)).Returned?
    requires FreeAsWritten(Some(m), user, Some(p)).code == Success
    requires p in m.headers && m.headers[p].size <= AsWrittenThreshold
    ensures var h := m.headers[p];
            var pushed := Cache.Push(BlockCompare, FreeKey, Some(m.freeCache), Some(Block(p, h.size)));
            && IsUserExists(m, user) && IsAllocated(m, Some(p)) && MayFree(m, h, user.value)
            && pushed.0 == Cache.Success
            && FreeAsWritten(Some(m), user, Some(p)).state
               == Some(Unwalked(m.(quota := Credit(m.quota, h.owner, h.size), freeCache := pushed.1.value)))
  {
  }

  /** A block that passes every check of the free and is already in the
      free cache makes the as-written free abort. */
  lemma SecondFreeAsWrittenAborts(m: MemCache, user: Option<string>, p: nat)
    requires IsUserExists(m, user) && IsAllocated(m, Some(p)) && MayFree(m, m.headers[p], user.value)
    requires m.headers[p].size <= AsWrittenThreshold
    requires Cache.IsIn(BlockCompare, FreeKey, Some(m.freeCache), Some(Block(p, m.headers[p].size)))
    ensures FreeAsWritten(Some(m), user, Some(p)) == Aborted
  {
  }

  /** The free cache's cells past `CacheableMaxSize` are empty, so a
      257-byte block can always be pushed into a cache that has a cell for
      it. */
  lemma PushBeyondThreshold(m: MemCache, b: Block)
    requires Valid(m) && b.size == CacheableMaxSize + 1 && |m.freeCache.cells| > CacheableMaxSize
    ensures var r := Cache.Push(BlockCompare, FreeKey, Some(m.freeCache), Some(b));
            r.0 == Cache.Success && Cache.InCells(r.1.value.cells, b)
  {
    var c := m.freeCache;
    var k := FreeKey(b);
    if |c.cells[k].elems| > 0 {
      assert FreeKey(c.cells[k].elems[0]) == k;
      assert IsFree(m, c.cells[k].elems[0]);
      assert false;
    }
    Cache.PushInCells(BlockCompare, FreeKey, c, b);
  }

  /** As written, a freed block of 257 bytes is kept in the free cache (when
      the cache has a cell for it, as the code's 265-cell cache does);
      `MemCacheProperties.FreeReleases` states that only blocks of at most
      256 bytes are kept. */
  lemma FreeAsWrittenCaches257(m: MemCache, user: Option<string>, p: nat)
    requires Valid(m) && |m.freeCache.cells| >= AsWrittenThreshold
    requires Free(Some(m), user, Some(p)).0 == Success
    requires p in m.headers && m.headers[p].size == CacheableMaxSize + 1
    ensures var r := FreeAsWritten(Some(m), user, Some(p));
            && r.Returned? && r.code == Success
            && IsFree(r.state.value, Block(p, CacheableMaxSize + 1))
  {
    var b := Block(p, CacheableMaxSize + 1);
    PushBeyondThreshold(m, b);
    assert FreeAsWritten(Some(m), user, Some(p)).state.value.freeCache
        == Cache.Push(BlockCompare, FreeKey, Some(m.freeCache), Some(b)).1.value;
  }

  /** As written, starting from `memCacheCreate`: register a user, allocate
      257 bytes and free them. The free returns success and the block is
      then in the free cache, where the test at memcache_test.c:388-391
      expects no free block. */
  lemma AsWrittenKeeps257(shape: IndexShape, u: string, limit: int)
    requires IndexCoversAll(shape) && IsLegalName(u) && limit > CacheableMaxSize
    ensures var m0 := CreateAsWritten(shape).value;
            var m1 := AddUser(Some(m0), Some(u), limit, false);
            var a := Allocate(m1.1, Some(u), CacheableMaxSize + 1);
            && m1.0 == Success && a.0.Some?
            && var r := FreeAsWritten(a.1, Some(u), a.0);
               && r.Returned? && r.code == Success
               && IsFree(r.state.value, Block(a.0.value, CacheableMaxSize + 1))
  {
    CreateAsWrittenIsValid(shape);
    var m0 := CreateAsWritten(shape).value;
    AddUserKeepsValid(m0, Some(u), limit, false);
    var m1 := AddUser(Some(m0), Some(u), limit, false).1.value;
    AllocateSucceeds(m1, Some(u), CacheableMaxSize + 1);
    AllocateKeepsValid(m1, Some(u), CacheableMaxSize + 1);
    var a := Allocate(Some(m1), Some(u), CacheableMaxSize + 1);
    var m2 := a.1.value;
    var p := a.0.value;
    assert m2.freeCache == m1.freeCache;
    assert m2.headers[p] == Header(CacheableMaxSize + 1, OwnerOnly, u);
    assert Free(Some(m2), Some(u), Some(p)).0 == Success;
    FreeAsWrittenCaches257(m2, Some(u), p);
  }

  function TrustAsWritten(mc: Option<MemCache>, u1: Option<string>, u2: Option<string>): (r: Outcome)
    ensures r.Returned? ==> (r.code, r.state) == Trust(mc, u1, u2)
  {
    if mc.None? then Returned(NullArgument, mc)
    else if !IsUserExists(mc.value, u1) || !IsUserExists(mc.value, u2) then Returned(UserNotFound, mc)
    else
      var m := mc.value;
      var added := Graph.AddDirectedEdge(Some(m.trust), u1, u2);
      if added.0 != Graph.Success then Aborted
      else Returned(Success, Some(m.(trust := added.1.value)))
  }

  /** As written, the first trust between two users returns success and
      the repeated one aborts; `MemCacheProperties.TrustIdempotent` states
      the intended no-op success. */
  lemma TrustTwiceAborts(m: MemCache, u1: Option<string>, u2: Option<string>)
    requires Valid(m) && IsUserExists(m, u1) && IsUserExists(m, u2)
    requires (u1.value, u2.value) !in m.trust.edges
    ensures TrustAsWritten(Some(m), u1, u2).Returned?
    ensures TrustAsWritten(TrustAsWritten(Some(m), u1, u2).state, u1, u2) == Aborted
  {
  }
}
