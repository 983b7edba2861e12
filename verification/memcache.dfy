/** The memory cache (`memcache`): an allocator that hands out blocks to
    registered users, charges each block's size to its owner's quota, and
    keeps freed small blocks for reuse.

    The state holds
      - `trust`: the users and who trusts whom (an edge u -> v means u
        trusts v), as a directed graph;
      - `quota`: each user's remaining memory allowance;
      - `headers`: the header written in front of each block the allocator
        holds (allocated or kept free), indexed by block address;
      - `freeCache`: the free cache, one cell per size, blocks of one size in
        ascending address order;
      - `allocatedIndex`: a cache of the live blocks whose key function
        and cell count are a parameter of the instance (`shape`);
      - `nextAddr`: the address the next fresh block gets (an abstraction
        of the system allocator);
      - `freeWalk`, `allocatedWalk`: the two block iterators.
    A MemCache pointer is an `Option<MemCache>`, `None` standing for NULL;
    so are user names (`Option<string>`) and block pointers
    (`Option<nat>`). Every operation returns its result together with the
    new state. */
module MemCache {
  import opened Wrappers
  import opened Comparators
  import MySet
  import Cache
  import Graph
  import opened MemCacheHeader

  /** Blocks of at most this many bytes are kept in the free cache when
      freed; larger ones are released. */
  const CacheableMaxSize: int := 256
  /** The free cache has one cell per cacheable size. */
  const FreeCacheCells: int := CacheableMaxSize
  /** The number of cells of an address-keyed allocated index. */
  const AllocatedModulo: int := 65536

  datatype MemCacheResult =
    | Success
    | NullArgument
    | UserNotFound
    | BlockNotAllocated
    | PermissionDenied
    | OutOfMemory
    | InvalidArgument
    | IllegalUsername
    | UsernameAlreadyUsed

  /** A block as the caches hold it: its address and its size (the size is
      the one its header records). */
  datatype Block = Block(addr: nat, size: int)

  /** Blocks compare by address. */
  function BlockCompare(a: Block, b: Block): int {
    a.addr - b.addr
  }

  /** The free cache's key: a block of size n lives in cell n - 1. */
  function FreeKey(b: Block): int {
    b.size - 1
  }

  /** How the allocated index places blocks: `cells` cells, and the cell of
      a block computed from its address and size. */
  datatype IndexShape = IndexShape(cells: int, key: (nat, int) -> int)

  function AllocKey(shape: IndexShape): Block -> int {
    (b: Block) => shape.key(b.addr, b.size)
  }

  /** Every block has a cell. */
  ghost predicate IndexCoversAll(shape: IndexShape) {
    shape.cells > 0 && forall addr: nat, size: int :: 0 <= shape.key(addr, size) < shape.cells
  }

  /** The index the block walk of the allocator expects: blocks by address
      modulo `AllocatedModulo`. */
  function AddressModulo(): IndexShape {
    IndexShape(AllocatedModulo, (addr: nat, size: int) => addr % AllocatedModulo)
  }

  datatype MemCache = MemCache(
    shape: IndexShape,
    trust: Graph.Graph<string>,
    quota: map<string, int>,
    headers: map<nat, Header>,
    freeCache: Cache.Cache<Block>,
    allocatedIndex: Cache.Cache<Block>,
    nextAddr: nat,
    freeWalk: MySet.MySet<nat>,
    allocatedWalk: MySet.MySet<nat>)

  /* ---------------------------------------------------------------------- */
  /* Queries                                                                */
  /* ---------------------------------------------------------------------- */

  predicate IsUserNameLegal(name: Option<string>) {
    name.Some? && IsLegalName(name.value)
  }

  /** A user exists when the name is legal and has a quota. */
  predicate IsUserExists(m: MemCache, name: Option<string>) {
    IsUserNameLegal(name) && name.value in m.quota
  }

  /** The block a pointer points at, read from the header in front of it;
      `None` for NULL and for addresses the allocator does not hold. */
  function BlockAt(m: MemCache, ptr: Option<nat>): (b: Option<Block>)
  {
    if ptr.None? || ptr.value !in m.headers then None
    else Some(Block(ptr.value, m.headers[ptr.value].size))
  }

  /** Reading a block agrees with the header bytes in front of it: a pointer
      the allocator holds gives the block at that address whose size is the
      one decoded from the header's first four bytes; NULL and any other
      address give no block. */
  lemma BlockAtReadsHeader(m: MemCache, ptr: Option<nat>)
    ensures BlockAt(m, ptr).Some? <==> ptr.Some? && ptr.value in m.headers
    ensures ptr.Some? && ptr.value in m.headers && WellFormed(m.headers[ptr.value]) ==>
              var bytes := Encode(m.headers[ptr.value]);
              BlockAt(m, ptr) == Some(Block(ptr.value, DecodeInt32(bytes[..4])))
  {
    if ptr.Some? && ptr.value in m.headers && WellFormed(m.headers[ptr.value]) {
      var h := m.headers[ptr.value];
      assert Encode(h)[..4] == EncodeInt32(h.size);
      DecodeEncodeInt32(h.size);
    }
  }

  /** `ptr` names a block of the allocated index. */
  predicate IsAllocated(m: MemCache, ptr: Option<nat>) {
    var b := BlockAt(m, ptr);
    b.Some? && Cache.IsIn(BlockCompare, AllocKey(m.shape), Some(m.allocatedIndex), b)
  }

  /** Who may free a block: its owner always; for a group block also every
      user the owner trusts; for an everyone block every user. */
  predicate Permits(trust: Graph.Graph<string>, h: Header, user: string) {
    || user == h.owner
    || (h.mode == Group && (h.owner, user) in trust.edges)
    || h.mode == Everyone
  }

  /** The permission switch of `Free`. */
  function MayFree(m: MemCache, h: Header, user: string): (ok: bool)
    ensures ok <==> Permits(m.trust, h, user)
  {
    match h.mode
    case OwnerOnly => user == h.owner
    case Group => user == h.owner || Graph.IsDirectedEdgeExists(Some(m.trust), Some(h.owner), Some(user))
    case Everyone => true
  }

  /** Gives `size` bytes back to `owner`'s quota. */
  function Credit(quota: map<string, int>, owner: string, size: int): (q: map<string, int>)
    ensures q.Keys == quota.Keys
    ensures owner in quota ==> q[owner] == quota[owner] + size
    ensures forall u :: u in quota && u != owner ==> q[u] == quota[u]
  {
    if owner in quota then quota[owner := quota[owner] + size] else quota
  }

  /** Changing the blocks leaves both iterators invalid. */
  function Unwalked(m: MemCache): MemCache {
    m.(freeWalk := MySet.MySet([], None), allocatedWalk := MySet.MySet([], None))
  }

  /* ---------------------------------------------------------------------- */
  /* Users and trust                                                        */
  /* ---------------------------------------------------------------------- */

  /** An empty allocator; NULL when the allocated index has no cells. */
  function Create(shape: IndexShape): (r: Option<MemCache>)
    ensures r.Some? <==> shape.cells > 0
    ensures r.Some? ==>
              && r.value.shape == shape
              && r.value.quota == map[] && r.value.headers == map[]
              && r.value.trust.vertices == {} && r.value.trust.edges == {}
              && |r.value.freeCache.cells| == FreeCacheCells && Cache.Contents(r.value.freeCache.cells) == []
              && |r.value.allocatedIndex.cells| == shape.cells && Cache.Contents(r.value.allocatedIndex.cells) == []
  {
    var freeCache := Cache.Create<Block>(FreeCacheCells, true, true, true, true);
    var allocatedIndex := Cache.Create<Block>(shape.cells, true, true, true, true);
    var trust := Graph.Create<string>(true, true, true);
    if freeCache.None? || allocatedIndex.None? || trust.None? then None
    else Some(MemCache(shape, trust.value, map[], map[], freeCache.value, allocatedIndex.value, 0,
                       MySet.MySet([], None), MySet.MySet([], None)))
  }

  /** Registers a user with a memory limit. `putFails` stands for the quota
      insertion running out of memory, after which the user's vertex is
      taken out of the graph again. */
  function AddUser(mc: Option<MemCache>, name: Option<string>, limit: int, putFails: bool): (r: (MemCacheResult, Option<MemCache>))
    ensures r.0 in {Success, NullArgument, InvalidArgument, IllegalUsername, UsernameAlreadyUsed, OutOfMemory}
    ensures r.0 == NullArgument <==> mc.None?
    ensures r.0 == InvalidArgument <==> mc.Some? && limit <= 0
    ensures r.0 == IllegalUsername <==> mc.Some? && limit > 0 && !IsUserNameLegal(name)
    ensures r.0 == UsernameAlreadyUsed <==> mc.Some? && limit > 0 && IsUserExists(mc.value, name)
    ensures r.0 == OutOfMemory <==> mc.Some? && limit > 0 && IsUserNameLegal(name) && !IsUserExists(mc.value, name) && putFails
    ensures r.0 != Success && r.0 != OutOfMemory ==> r.1 == mc
    ensures r.0 == OutOfMemory ==>
              && r.1.Some? && r.1.value == mc.value.(trust := r.1.value.trust)
              && name.value !in r.1.value.trust.vertices
    ensures r.0 == Success ==>
              && r.1.Some? && r.1.value == mc.value.(trust := r.1.value.trust, quota := r.1.value.quota)
              && IsUserExists(r.1.value, name) && r.1.value.quota[name.value] == limit
              && (forall u :: u in mc.value.quota ==> u in r.1.value.quota && r.1.value.quota[u] == mc.value.quota[u])
              && r.1.value.quota.Keys == mc.value.quota.Keys + {name.value}
              && r.1.value.trust.vertices == mc.value.trust.vertices + {name.value}
              && r.1.value.trust.edges == mc.value.trust.edges
  {
    if mc.None? then (NullArgument, mc)
    else if limit <= 0 then (InvalidArgument, mc)
    else if !IsUserNameLegal(name) then (IllegalUsername, mc)
    else if IsUserExists(mc.value, name) then (UsernameAlreadyUsed, mc)
    else
      var m := mc.value;
      var added := Graph.AddVertex(Some(m.trust), name).1.value;
      if putFails then
        (OutOfMemory, Some(m.(trust := Graph.RemoveVertex(Some(added), name).1.value)))
      else
        (Success, Some(m.(trust := added, quota := m.quota[name.value := limit])))
  }

  /** `u1` comes to trust `u2`. Trusting again is a success that changes
      nothing. */
  function Trust(mc: Option<MemCache>, u1: Option<string>, u2: Option<string>): (r: (MemCacheResult, Option<MemCache>))
    ensures r.0 in {Success, NullArgument, UserNotFound}
    ensures r.0 == NullArgument <==> mc.None?
    ensures r.0 == UserNotFound <==> mc.Some? && (!IsUserExists(mc.value, u1) || !IsUserExists(mc.value, u2))
    ensures r.0 != Success ==> r.1 == mc
    ensures r.0 == Success ==>
              && r.1.Some? && r.1.value == mc.value.(trust := r.1.value.trust)
              && r.1.value.trust.vertices == mc.value.trust.vertices
              && mc.value.trust.edges <= r.1.value.trust.edges <= mc.value.trust.edges + {(u1.value, u2.value)}
              && (u1.value in mc.value.trust.vertices && u2.value in mc.value.trust.vertices
                  ==> r.1.value.trust.edges == mc.value.trust.edges + {(u1.value, u2.value)})
  {
    if mc.None? then (NullArgument, mc)
    else if !IsUserExists(mc.value, u1) || !IsUserExists(mc.value, u2) then (UserNotFound, mc)
    else
      var m := mc.value;
      var added := Graph.AddDirectedEdge(Some(m.trust), u1, u2);
      (Success, Some(m.(trust := added.1.value)))
  }

  /** `u1` stops trusting `u2`; a success also when it did not trust it. */
  function Untrust(mc: Option<MemCache>, u1: Option<string>, u2: Option<string>): (r: (MemCacheResult, Option<MemCache>))
    ensures r.0 in {Success, NullArgument, UserNotFound}
    ensures r.0 == NullArgument <==> mc.None?
    ensures r.0 == UserNotFound <==> mc.Some? && (!IsUserExists(mc.value, u1) || !IsUserExists(mc.value, u2))
    ensures r.0 != Success ==> r.1 == mc
    ensures r.0 == Success ==>
              && r.1.Some? && r.1.value == mc.value.(trust := r.1.value.trust)
              && r.1.value.trust.vertices == mc.value.trust.vertices
              && r.1.value.trust.edges == mc.value.trust.edges - {(u1.value, u2.value)}
  {
    if mc.None? then (NullArgument, mc)
    else if !IsUserExists(mc.value, u1) || !IsUserExists(mc.value, u2) then (UserNotFound, mc)
    else
      var m := mc.value;
      var removed := Graph.RemoveDirectedEdge(Some(m.trust), u1, u2);
      (Success, Some(m.(trust := removed.1.value)))
  }

  /* ---------------------------------------------------------------------- */
  /* Blocks                                                                 */
  /* ---------------------------------------------------------------------- */

  /** The block a new allocation of `size` bytes gets and the free cache
      after taking it: the lowest-addressed free block of that size when
      there is one, otherwise a fresh block at `nextAddr`. */
  function TakeBlock(m: MemCache, size: int): (r: (Block, Cache.Cache<Block>, nat))
    ensures r.0.size == size
    ensures r.2 == m.nextAddr || (r.2 == m.nextAddr + 1 && r.0.addr == m.nextAddr && r.1 == m.freeCache)
  {
    var reused := if size <= CacheableMaxSize then Cache.ExtractElementByKey(BlockCompare, Some(m.freeCache), size - 1)
                  else (None, Some(m.freeCache));
    if reused.0.Some? then (Block(reused.0.value.addr, size), reused.1.value, m.nextAddr)
    else (Block(m.nextAddr, size), m.freeCache, m.nextAddr + 1)
  }

  /** Allocates `size` bytes for `user`: NULL for a NULL allocator, an
      unknown user, a size that is not positive or exceeds the user's
      remaining quota. The block gets a header with the size, mode 'U' and
      the user as owner, and its size is charged to the user. */
  function Allocate(mc: Option<MemCache>, user: Option<string>, size: int): (r: (Option<nat>, Option<MemCache>))
    ensures mc.None? ==> r == (None, None)
    ensures mc.Some? && (!IsUserExists(mc.value, user) || size <= 0 || size > mc.value.quota[user.value]) ==> r == (None, mc)
    ensures r.0.None? ==> r.1 == mc
    ensures r.0.Some? ==>
              var m := mc.value;
              var u := user.value;
              && r.1.Some? && IsUserExists(m, user) && 0 < size <= m.quota[u]
              && r.1.value.shape == m.shape && r.1.value.trust == m.trust
              && r.1.value.quota == m.quota[u := m.quota[u] - size]
              && r.1.value.headers == m.headers[r.0.value := Header(size, OwnerOnly, u)]
  {
    if mc.None? then (None, None)
    else
      var m := mc.value;
      if !IsUserExists(m, user) || size <= 0 || size > m.quota[user.value] then (None, mc)
      else HandOut(m, user.value, size)
  }

  /** The successful path of `Allocate`: take a block, index it, write its
      header and charge its size to `u`. */
  function HandOut(m: MemCache, u: string, size: int): (r: (Option<nat>, Option<MemCache>))
    requires u in m.quota
    ensures r.0.None? ==> r.1 == Some(m)
    ensures r.0.Some? ==>
              && r.1.Some? && r.1.value.shape == m.shape && r.1.value.trust == m.trust
              && r.1.value.quota == m.quota[u := m.quota[u] - size]
              && r.1.value.headers == m.headers[r.0.value := Header(size, OwnerOnly, u)]
  {
    var taken := TakeBlock(m, size);
    var b := taken.0;
    var pushed := Cache.Push(BlockCompare, AllocKey(m.shape), Some(m.allocatedIndex), Some(b));
    if pushed.0 != Cache.Success then (None, Some(m))
    else
      (Some(b.addr), Some(Unwalked(m.(quota := m.quota[u := m.quota[u] - size],
                                      headers := m.headers[b.addr := Header(size, OwnerOnly, u)],
                                      freeCache := taken.1,
                                      allocatedIndex := pushed.1.value,
                                      nextAddr := taken.2))))
  }

  /** Sets who may free a block. Only the owner may, whatever the block's
      current mode, and the mode character must be 'U', 'G' or 'A'. */
  function SetBlockMode(mc: Option<MemCache>, user: Option<string>, ptr: Option<nat>, mode: char): (r: (MemCacheResult, Option<MemCache>))
    ensures r.0 in {Success, NullArgument, UserNotFound, BlockNotAllocated, PermissionDenied, InvalidArgument}
    ensures r.0 == NullArgument <==> mc.None?
    ensures r.0 == UserNotFound <==> mc.Some? && !IsUserExists(mc.value, user)
    ensures r.0 == BlockNotAllocated <==> mc.Some? && IsUserExists(mc.value, user) && !IsAllocated(mc.value, ptr)
    ensures r.0 == PermissionDenied <==>
              && mc.Some? && IsUserExists(mc.value, user) && IsAllocated(mc.value, ptr)
              && mc.value.headers[ptr.value].owner != user.value
    ensures r.0 == InvalidArgument <==>
              && mc.Some? && IsUserExists(mc.value, user) && IsAllocated(mc.value, ptr)
              && mc.value.headers[ptr.value].owner == user.value && ModeOf(mode).None?
    ensures r.0 != Success ==> r.1 == mc
    ensures r.0 == Success ==>
              var m := mc.value;
              var p := ptr.value;
              && r.1.Some? && r.1.value == m.(headers := r.1.value.headers)
              && r.1.value.headers.Keys == m.headers.Keys
              && (forall q :: q in m.headers && q != p ==> r.1.value.headers[q] == m.headers[q])
              && ModeChar(r.1.value.headers[p].mode) == mode
              && r.1.value.headers[p].size == m.headers[p].size
              && r.1.value.headers[p].owner == m.headers[p].owner
  {
    if mc.None? then (NullArgument, mc)
    else
      var m := mc.value;
      if !IsUserExists(m, user) then (UserNotFound, mc)
      else if !IsAllocated(m, ptr) then (BlockNotAllocated, mc)
      else
        var p := ptr.value;
        var h := m.headers[p];
        if h.owner != user.value then (PermissionDenied, mc)
        else
          match ModeOf(mode)
          case None => (InvalidArgument, mc)
          case Some(newMode) => (Success, Some(m.(headers := m.headers[p := h.(mode := newMode)])))
  }

  /** Frees a block on behalf of `user`: its size goes back to the owner's
      quota, it leaves the allocated index, and it is kept in the free
      cache when it is small enough, otherwise released. */
  function Free(mc: Option<MemCache>, user: Option<string>, ptr: Option<nat>): (r: (MemCacheResult, Option<MemCache>))
    ensures r.0 in {Success, NullArgument, UserNotFound, BlockNotAllocated, PermissionDenied}
    ensures r.0 == NullArgument <==> mc.None?
    ensures r.0 == UserNotFound <==> mc.Some? && !IsUserExists(mc.value, user)
    ensures r.0 == BlockNotAllocated <==> mc.Some? && IsUserExists(mc.value, user) && !IsAllocated(mc.value, ptr)
    ensures r.0 == PermissionDenied <==>
              && mc.Some? && IsUserExists(mc.value, user) && IsAllocated(mc.value, ptr)
              && !Permits(mc.value.trust, mc.value.headers[ptr.value], user.value)
    ensures r.0 != Success ==> r.1 == mc
    ensures r.0 == Success ==>
              var m := mc.value;
              var h := m.headers[ptr.value];
              && r.1.Some? && r.1.value.shape == m.shape && r.1.value.trust == m.trust
              && r.1.value.quota == Credit(m.quota, h.owner, h.size)
              && (h.size <= CacheableMaxSize ==> r.1.value.headers == m.headers)
              && (h.size > CacheableMaxSize ==> r.1.value.headers == m.headers - {ptr.value} && r.1.value.freeCache == m.freeCache)
  {
    if mc.None? then (NullArgument, mc)
    else
      var m := mc.value;
      if !IsUserExists(m, user) then (UserNotFound, mc)
      else if !IsAllocated(m, ptr) then (BlockNotAllocated, mc)
      else
        var p := ptr.value;
        var h := m.headers[p];
        if !MayFree(m, h, user.value) then (PermissionDenied, mc)
        else
          var b := Block(p, h.size);
          var quota := Credit(m.quota, h.owner, h.size);
          var freeCache := if h.size > CacheableMaxSize then m.freeCache
                      else Cache.Push(BlockCompare, FreeKey, Some(m.freeCache), Some(b)).1.value;
          var headers := if h.size > CacheableMaxSize then m.headers - {p} else m.headers;
          var allocatedIndex := Cache.FreeElement(BlockCompare, AllocKey(m.shape), Some(m.allocatedIndex), Some(b)).1.value;
          (Success, Some(Unwalked(m.(quota := quota, freeCache := freeCache, headers := headers, allocatedIndex := allocatedIndex))))
  }

  /** Forgets every user, every trust and every block. */
  function Reset(mc: Option<MemCache>): (r: (MemCacheResult, Option<MemCache>))
    ensures r.0 in {Success, NullArgument}
    ensures r.0 == NullArgument <==> mc.None?
    ensures mc.None? ==> r.1 == mc
    ensures mc.Some? ==>
              && r.1.Some? && r.1.value.shape == mc.value.shape
              && r.1.value.quota == map[] && r.1.value.headers == map[]
              && r.1.value.trust.vertices == {} && r.1.value.trust.edges == {}
              && |r.1.value.freeCache.cells| == |mc.value.freeCache.cells| && Cache.Contents(r.1.value.freeCache.cells) == []
              && |r.1.value.allocatedIndex.cells| == |mc.value.allocatedIndex.cells| && Cache.Contents(r.1.value.allocatedIndex.cells) == []
  {
    if mc.None? then (NullArgument, mc)
    else
      var m := mc.value;
      (Success, Some(Unwalked(m.(trust := Graph.Clear(Some(m.trust)).1.value,
                                 quota := map[],
                                 headers := map[],
                                 allocatedIndex := Cache.Clear(Some(m.allocatedIndex)).1.value,
                                 freeCache := Cache.Clear(Some(m.freeCache)).1.value))))
  }

  /* ---------------------------------------------------------------------- */
  /* Iteration                                                              */
  /* ---------------------------------------------------------------------- */

  function Addresses(s: seq<Block>): (r: seq<nat>)
    ensures |r| == |s| && forall i :: 0 <= i < |s| ==> r[i] == s[i].addr
  {
    seq(|s|, i requires 0 <= i < |s| => s[i].addr)
  }

  /** The free blocks in walk order: by size, then by address. */
  function FreeBlocks(m: MemCache): seq<nat> {
    Addresses(Cache.Contents(m.freeCache.cells))
  }

  /** The allocated blocks in the order of the allocated index. */
  function AllocatedBlocks(m: MemCache): seq<nat> {
    Addresses(Cache.Contents(m.allocatedIndex.cells))
  }

  /** Starts a walk over the free blocks and returns the first; NULL when
      there is none. */
  function GetFirstFreeBlock(mc: Option<MemCache>): (r: (Option<nat>, Option<MemCache>))
    ensures mc.None? ==> r == (None, None)
    ensures mc.Some? ==> r.1.Some? && r.1.value == mc.value.(freeWalk := r.1.value.freeWalk)
    ensures mc.Some? ==> r.1.value.freeWalk.elems == FreeBlocks(mc.value)
    ensures r.0 == GetCurrentFreeBlock(r.1)
    ensures r.0.Some? <==> mc.Some? && |FreeBlocks(mc.value)| > 0
    ensures r.0.Some? ==> r.0.value == FreeBlocks(mc.value)[0]
  {
    if mc.None? then (None, None)
    else
      var walk := MySet.GetFirst(Some(MySet.MySet(FreeBlocks(mc.value), None)));
      (walk.0, Some(mc.value.(freeWalk := walk.1.value)))
  }

  /** Advances the free-block walk; NULL past the last block and from then
      on. */
  function GetNextFreeBlock(mc: Option<MemCache>): (r: (Option<nat>, Option<MemCache>))
    ensures mc.None? ==> r == (None, None)
    ensures mc.Some? ==> r.1.Some? && r.1.value == mc.value.(freeWalk := r.1.value.freeWalk)
    ensures mc.Some? ==> r.1.value.freeWalk.elems == mc.value.freeWalk.elems
    ensures r.0 == GetCurrentFreeBlock(r.1)
    ensures mc.Some? && mc.value.freeWalk.cursor.None? ==> r == (None, mc)
  {
    if mc.None? then (None, None)
    else
      var walk := MySet.GetNext(Some(mc.value.freeWalk));
      (walk.0, Some(mc.value.(freeWalk := walk.1.value)))
  }

  /** The free block under the walk's cursor; NULL for a NULL allocator
      and for a walk that has not started or has run past its end. */
  function GetCurrentFreeBlock(mc: Option<MemCache>): (p: Option<nat>)
    ensures p.Some? ==> mc.Some? && mc.value.freeWalk.cursor.Some?
    ensures mc.Some? && mc.value.freeWalk.cursor.Some? && mc.value.freeWalk.cursor.value < |mc.value.freeWalk.elems|
            ==> p == Some(mc.value.freeWalk.elems[mc.value.freeWalk.cursor.value])
  {
    if mc.None? then None else MySet.GetCurrent(Some(mc.value.freeWalk))
  }

  /** Starts a walk over the allocated blocks and returns the first; NULL
      when there is none. */
  function GetFirstAllocatedBlock(mc: Option<MemCache>): (r: (Option<nat>, Option<MemCache>))
    ensures mc.None? ==> r == (None, None)
    ensures mc.Some? ==> r.1.Some? && r.1.value == mc.value.(allocatedWalk := r.1.value.allocatedWalk)
    ensures mc.Some? ==> r.1.value.allocatedWalk.elems == AllocatedBlocks(mc.value)
    ensures r.0 == GetCurrentAllocatedBlock(r.1)
    ensures r.0.Some? <==> mc.Some? && |AllocatedBlocks(mc.value)| > 0
    ensures r.0.Some? ==> r.0.value == AllocatedBlocks(mc.value)[0]
  {
    if mc.None? then (None, None)
    else
      var walk := MySet.GetFirst(Some(MySet.MySet(AllocatedBlocks(mc.value), None)));
      (walk.0, Some(mc.value.(allocatedWalk := walk.1.value)))
  }

  /** Advances the allocated-block walk; NULL past the last block and from
      then on. */
  function GetNextAllocatedBlock(mc: Option<MemCache>): (r: (Option<nat>, Option<MemCache>))
    ensures mc.None? ==> r == (None, None)
    ensures mc.Some? ==> r.1.Some? && r.1.value == mc.value.(allocatedWalk := r.1.value.allocatedWalk)
    ensures mc.Some? ==> r.1.value.allocatedWalk.elems == mc.value.allocatedWalk.elems
    ensures r.0 == GetCurrentAllocatedBlock(r.1)
    ensures mc.Some? && mc.value.allocatedWalk.cursor.None? ==> r == (None, mc)
  {
    if mc.None? then (None, None)
    else
      var walk := MySet.GetNext(Some(mc.value.allocatedWalk));
      (walk.0, Some(mc.value.(allocatedWalk := walk.1.value)))
  }

  /** The allocated block under the walk's cursor; NULL for a NULL allocator
      and for a walk that has not started or has run past its end. */
  function GetCurrentAllocatedBlock(mc: Option<MemCache>): (p: Option<nat>)
    ensures p.Some? ==> mc.Some? && mc.value.allocatedWalk.cursor.Some?
    ensures mc.Some? && mc.value.allocatedWalk.cursor.Some? && mc.value.allocatedWalk.cursor.value < |mc.value.allocatedWalk.elems|
            ==> p == Some(mc.value.allocatedWalk.elems[mc.value.allocatedWalk.cursor.value])
  {
    if mc.None? then None else MySet.GetCurrent(Some(mc.value.allocatedWalk))
  }
}
