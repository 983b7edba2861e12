# A Dafny model of the `memcache` allocator and its containers

This project models four C components in Dafny and proves properties about
them:

- **`my_set`**: a generic ordered set. It is a list kept strictly ascending
  under a user comparator, with one internal iterator.
- **`cache`**: a bucketed cache. It is a fixed row of ordered sets ("cells").
  A user key function picks the cell of each element. The cache has an
  iterator over cells.
- **`graph`**: a generic directed graph, with at most one edge per ordered
  pair of vertices.
- **`memcache`**: a memory allocator built on the three.
  - Registered users have quotas.
  - Users trust other users, and the trust relation is a graph.
  - Every block carries a header with its size, mode and owner.
  - Freed small blocks are kept in a free cache for reuse.
  - Two walks list the free blocks and the allocated blocks.

Each container is an immutable value. Every C call becomes a pure function
that returns its result together with the new state. A C pointer that may
be NULL is an `Option`, with `None` for NULL, so the NULL-argument paths are
part of the model. A comparator is a function `(T, T) -> int`, and
`Comparators.IsComparator` states the laws a comparator must obey.

The allocator's representation invariant is `MemCacheInvariant.Valid`. It
says the following:

- The trust graph and the quota map name the same users.
- Every block the allocator holds has one header.
- Every held block is either free (in the free cache under its size) or
  live (in the allocated index), and never both.
- Every remaining quota is non-negative.
- The allocated index's key function gives every block, of any address
  and any size, one of the index's cells (`MemCache.IndexCoversAll`).

Conservation of quota is not part of `Valid`; it is proved operation by
operation. A user's *balance* is the user's remaining quota plus the sizes
of the live blocks it owns. `MemCacheInvariant.AddUserKeepsValid` shows
that a new user starts with a balance equal to the limit it was registered
with and that the other balances stay. `AllocateKeepsBalance`,
`FreeKeepsBalance` and `SetBlockModeKeepsBalance` show that these
operations leave every balance unchanged. `Trust` and `Untrust` change only
the trust graph.

Files, one module each:

| file | module |
|---|---|
| `wrappers.dfy` | `Option` |
| `comparators.dfy` | comparator laws |
| `my_set.dfy` | `MySet` |
| `cache.dfy` | `Cache` |
| `graph.dfy` | `Graph` |
| `memcache_header.dfy` | the 16-byte block header and its byte codec |
| `memcache.dfy` | the allocator's state and operations |
| `memcache_invariant.dfy` | the invariant, and its preservation by every operation |
| `memcache_properties.dfy` | behaviour a user of the allocator can observe |
| `memcache_findings.dfy` | `Free` and `Trust` as the C file writes them (see Findings) |

Some allocator operations are declared in `memcache/memcache.h` but have no
body in `memcache/memcache.c`:

- `memCacheAllocate`, `memCacheSetBlockMod` and `memCacheUntrust`;
- the `GetFirst…Block` functions;
- the header accessors.

For these, the model follows the header's documentation and the
expectations in `memcache/tests/memcache_test.c`.

Where the C file and that documentation disagree, the model follows the
documented behaviour. It also models the C text itself in
`MemCacheFindings`, with a lemma that shows the difference. That includes
`memCacheCreate`'s 265-cell free cache (`MemCacheFindings.CreateAsWritten`).

## Model

| member | source | states |
|---|---|---|
| MySet.Find | my_set/my_set.c:91-102 | the lookup scan finds an element exactly when some element compares equal to it |
| MySet.Position | my_set/my_set.c:188-200 | the extraction loop stops at the first element that compares equal |
| MySet.InsertionPoint | my_set/my_set.c:145-163 | the insertion walk stops in front of the first element that sorts after the new one |
| MySet.InsertKeepsSorted | my_set/my_set.c:129-165 | inserting at the insertion point keeps the list strictly ascending |
| MySet.Create | my_set/my_set.c:24-40 | a set exists exactly when all three callbacks are given; it starts empty with an invalid iterator |
| MySet.GetSize | my_set/my_set.c:78-89 | -1 exactly for NULL, otherwise the number of elements |
| MySet.IsIn | my_set/my_set.c:91-102 | true exactly when neither pointer is NULL and some element compares equal |
| MySet.GetCurrent | my_set/my_set.c:121-127 | the element under a valid iterator; NULL when the iterator is invalid |
| MySet.GetFirst | my_set/my_set.c:104-110 | leaves the elements alone; returns the head, and NULL exactly for a NULL or empty set |
| MySet.GetNext | my_set/my_set.c:112-119 | leaves the elements alone; returns the new current element; an invalid iterator stays invalid |
| MySet.Add | my_set/my_set.c:129-165 | the full error table (NULL, already present); on success the multiset of elements grows by exactly the new element |
| MySet.Extract | my_set/my_set.c:180-218 | hands back an element exactly when one compares equal; the returned element plus the remaining multiset is the original multiset |
| MySet.Remove | my_set/my_set.c:167-178 | the full error table; on success the result is the extraction's remainder |
| MySet.Clear | my_set/my_set.c:220-231 | NULL reports NULL_ARGUMENT; otherwise the set ends empty |
| MySet.Copy | my_set/my_set.c:42-62 | a copy exists exactly when the source is not NULL |
| MySet.Filter | my_set/my_set.c:233-254 | a result exists exactly when neither the set nor the condition is NULL |
| MySet.Keep | my_set/my_set.h:226-235 | the reference filter: a subsequence of the input whose every element satisfies the condition |
| MySet.AddEachAppends | my_set/my_set.c:42-62 | adding a sorted list head first appends it element by element (induction) |
| MySet.AddEachIfAppends | my_set/my_set.c:233-254 | adding the satisfying elements of a sorted list appends exactly those elements (induction) |
| MySet.CopyIsEqual | my_set/my_set.h:86-94 | a copy of a valid set holds the same elements in the same order |
| MySet.FilterKeepsOrder | my_set/my_set.h:226-235 | a filtered valid set holds exactly the satisfying elements, in their original order |
| MySet.KeepKeepsSorted | my_set/my_set.c:233-254 | the subsequence kept from a sorted list is sorted (induction) |
| MySet.KeepComplete | my_set/my_set.h:226-235 | every element that satisfies the condition survives the filter (induction) |
| MySet.AddKeepsValid | my_set/my_set.c:129-165 | adding to a valid set keeps it valid, and the element is then found |
| MySet.ExtractKeepsValid | my_set/my_set.c:180-218 | extracting keeps the set valid, and afterwards nothing compares equal to the element |
| MySet.AddMembers | my_set/my_set.c:129-165 | after a successful add, the members are the old ones plus the new element |
| MySet.ExtractMembers | my_set/my_set.c:180-218 | extraction gains no element |
| MySet.RemoveMatchMembers | my_set/my_set.c:167-178 | removal from a valid set drops exactly the element comparing equal |
| MySet.ExtractStored | my_set/my_set.h:199-213 | extracting a stored element hands back that very element |
| MySet.AddThenExtract | my_set/my_set.h:164-213 | adding a new element and extracting it gives the element back and restores the elements |
| MySet.AddThenRemove | my_set/my_set.h:164-197 | adding a new element and removing it restores the set's elements |
| MySet.ExtractFirst | my_set/my_set.h:128-141 | extracting the element `GetFirst` returns takes out the smallest element |
| MySet.FirstIsLeast | my_set/my_set.h:128-141 | the first element of a valid set sorts before every other element |
| MySet.WalkVisitsInOrder | my_set/my_set.h:143-152 | `GetFirst` then n calls of `GetNext` return the n-th element in ascending order, then NULL for good (induction) |
| MySet.ForEach | my_set/my_set.h:237-244 | the FOREACH loop visits every element in ascending order and ends with an invalid iterator |
| Cache.Create | cache/cache.c:36-66 | a cache exists exactly for a positive size and all four callbacks; it has that many cells, all empty |
| Cache.IsIn | cache/cache.c:124-135 | true exactly when the key is in range and the element's own cell has an element comparing equal |
| Cache.InCellsIsIn | cache/cache.c:124-135 | in a valid cache every stored element is found by the membership query |
| Cache.Push | cache/cache.c:68-89 | the error table (NULL, key out of range, already in); on success only the key's cell changes, by exactly the pushed element |
| Cache.FreeElement | cache/cache.c:91-106 | succeeds exactly when the element is in the cache; only its cell changes, shrinking by one |
| Cache.ExtractElementByKey | cache/cache.c:108-122 | NULL for a NULL cache, an out-of-range key or an empty cell; otherwise only cell k loses exactly the returned element |
| Cache.GetFirst | cache/cache.c:137-143 | returns cell 0 and makes it current; NULL only for a NULL cache |
| Cache.GetNext | cache/cache.c:145-158 | returns the next cell; after the last cell, or from an invalid iterator, NULL |
| Cache.GetCurrent | cache/cache.c:160-165 | the cell under a valid iterator |
| Cache.Clear | cache/cache.c:167-177 | NULL reports NULL_ARGUMENT; otherwise every cell ends empty, and the number of cells stays |
| Cache.ContentsOfEmpty | cache/cache.c:36-66 | empty cells hold no elements (induction) |
| Cache.CreateIsValid | cache/cache.c:36-66 | a new cache is valid |
| Cache.IsInMeansHolds | cache/cache.c:124-135 | when equal elements share a key, searching only the element's own cell finds exactly what a search of every cell finds |
| Cache.PushKeepsValid | cache/cache.c:68-89 | pushing keeps a valid cache valid, and the element is then in it |
| Cache.FreeKeepsValid | cache/cache.c:91-106 | freeing keeps a valid cache valid, and afterwards the element is not in it |
| Cache.ExtractTakesSmallest | cache/cache.h:79-88 | extraction by key takes the smallest element of the cell and keeps the cache valid |
| Cache.PushThenFree | cache/cache.c:68-106 | pushing a new element and freeing it restores the cache |
| Cache.ContentsFrom | cache/cache.h:173-176 | a walk over cells with consecutive keys meets exactly their elements, by key and then by comparator (induction) |
| Cache.ContentsInWalkOrder | cache/cache.h:101-131 | a cell-by-cell walk of a valid cache meets exactly its elements, by key and then by comparator |
| Cache.PushInCells | cache/cache.c:68-89 | a successful push adds exactly the pushed element |
| Cache.FreeInCells | cache/cache.c:91-106 | a successful free removes exactly the elements that compare equal within the key's cell |
| Cache.FreeRemovesStored | cache/cache.c:91-106 | freeing a stored element succeeds and takes that one element out of its cell |
| Cache.ExtractInCells | cache/cache.c:108-122 | a successful extraction removes exactly the returned element |
| Cache.ClearEmpties | cache/cache.c:167-177 | clearing keeps a valid cache valid, and nothing is held afterwards |
| Cache.ForEach | cache/cache.h:173-176 | the CACHE_FOREACH loop visits every cell in order and ends with an invalid iterator |
| Graph.Create | graph/graph.c:91-105 | a graph exists exactly when all callbacks are given; it starts with no vertices and no edges |
| Graph.QueriesFollowUpdates | graph/graph.c:116-231 | the vertex and edge queries (`Graph.IsVertexExists`, `Graph.IsDirectedEdgeExists`) are false on NULL, see exactly the added vertex or edge after an add, lose exactly the removed one (and a removed vertex's edges) after a remove, and find nothing after a clear |
| Graph.AddVertex | graph/graph.c:116-129 | the error table; on success exactly one new vertex and the same edges |
| Graph.RemoveVertex | graph/graph.c:131-157 | the error table; on success the vertex is gone together with exactly the edges touching it |
| Graph.AddDirectedEdge | graph/graph.c:167-189 | the error table (NULL, missing endpoint, repeated edge); on success exactly one new edge |
| Graph.RemoveDirectedEdge | graph/graph.c:191-206 | the error table; on success exactly that edge is gone |
| Graph.Clear | graph/graph.c:219-231 | NULL reports NULL_ARGUMENT; otherwise no vertices and no edges remain |
| Graph.RemoveIncidentEdges | graph/graph.c:143-155 | the removal loop ends with exactly the edges that avoid the vertex |
| Graph.OperationsKeepValid | graph/graph.c:116-231 | every operation keeps every edge between existing vertices |
| Graph.EdgeEndsExist | graph/graph.c:167-189 | in a valid graph an edge joins existing vertices |
| Graph.RemoveVertexDropsIncidentEdges | graph/graph.c:131-157 | after removing a vertex, no edge mentions it |
| Graph.AddThenRemoveVertex | graph/graph.c:116-157 | adding a new vertex and removing it restores a valid graph |
| Graph.AddThenRemoveEdge | graph/graph.c:167-206 | adding a new edge and removing it restores the graph |
| Graph.EdgeCompareIsComparator | graph/graph.c:82-89 | the source-then-target edge order obeys the comparator laws when the vertex order does |
| MemCacheHeader.ModeOf | memcache/memcache.h:65-84 | exactly 'U', 'G' and 'A' name a mode, and each names the mode written back as that character |
| MemCacheHeader.DecodeEncodeInt32 | memcache/tests/memcache_test.c:16-19 | a non-negative 32-bit int read back from its four little-endian bytes is itself |
| MemCacheHeader.EncodeDecodeInt32 | memcache/tests/memcache_test.c:16-19 | four bytes with a clear sign bit are the encoding of what they decode to |
| MemCacheHeader.DecodeEncode | memcache/tests/memcache_test.c:16-32 | decoding the 16 header bytes of a well-formed header gives the header back |
| MemCacheHeader.EncodeDecode | memcache/tests/memcache_test.c:16-32 | any 16 bytes that decode are exactly the encoding of the decoded header |
| MemCache.BlockAtReadsHeader | memcache/tests/memcache_test.c:16-19 | `MemCache.BlockAt` finds a block exactly for a pointer with a header, and its size is the int decoded from the header's first four bytes |
| MemCache.MayFree | memcache/memcache.c:232-246 | the permission switch allows exactly the owner; for 'G' also the users the owner trusts; for 'A' everyone |
| MemCache.Credit | memcache/memcache.c:248-249 | exactly the owner's quota grows by the size |
| MemCache.Create | memcache/memcache.c:105-159 | an allocator with no users, no trust, no headers and empty caches |
| MemCache.AddUser | memcache/memcache.c:161-191 | the result code for every case. On success only the new user's vertex and quota are added. On out-of-memory the vertex is removed again |
| MemCache.Trust | memcache/memcache.h:86-99 | NULL and unknown users are refused; on success only the trust edge u1 -> u2 is added |
| MemCache.Untrust | memcache/memcache.h:101-114 | NULL and unknown users are refused; on success only the trust edge u1 -> u2 is removed |
| MemCache.Allocate | memcache/memcache.h:116-126 | NULL for NULL, an unknown user, a non-positive size or a size over the quota. On success the size is charged and a header (size, 'U', user) is written |
| MemCache.SetBlockMode | memcache/memcache.h:65-84 | the error table (NULL, user, not allocated, not owner, bad mode). On success only that block's mode changes |
| MemCache.Free | memcache/memcache.c:220-264 | the error table (NULL, user, not allocated, permission). On success the owner is credited; a block over 256 bytes loses its header and leaves the free cache alone |
| MemCache.Reset | memcache/memcache.c:281-299 | no users, trust, headers or blocks remain, and the cache sizes stay |
| MemCache.GetFirstFreeBlock | memcache/memcache.h:184-200 | starts a walk over the free blocks and returns the first, NULL when none |
| MemCache.GetNextFreeBlock | memcache/memcache.c:274-279 | advances the free walk; NULL for a NULL allocator or an ended walk |
| MemCache.GetFirstAllocatedBlock | memcache/memcache.h:145-161 | starts a walk over the allocated blocks and returns the first, NULL when none |
| MemCache.GetNextAllocatedBlock | memcache/memcache.c:267-272 | advances the allocated walk; NULL for a NULL allocator or an ended walk |
| MemCache.GetCurrentAllocatedBlock | memcache/memcache.h:172-182 | the allocated block under the walk's cursor; NULL for a NULL allocator or a walk not on a block |
| MemCache.GetCurrentFreeBlock | memcache/memcache.h:211-221 | the free block under the walk's cursor; NULL for a NULL allocator or a walk not on a block |
| MemCacheInvariant.BlockCompareIsComparator | memcache/memcache.c:56-58 | comparing blocks by address obeys the comparator laws |
| MemCacheInvariant.ChargedInPerm | memcache/memcache.c:248-249 | the charge of a list of blocks does not depend on their order (induction) |
| MemCacheInvariant.ChargedFrame | memcache/memcache.c:248-249 | the charge depends only on the headers of the blocks charged (induction) |
| MemCacheInvariant.ChargedNothing | memcache/memcache.c:175-187 | a user who owns no block is charged nothing (induction) |
| MemCacheInvariant.CreateIsValid | memcache/memcache.c:105-159 | a new allocator is valid and knows no user |
| MemCacheInvariant.UserExistsIsVertex | memcache/memcache.c:94-103 | in a valid allocator `MemCache.IsUserExists` (a legal name with a quota) agrees with the trust graph's vertices |
| MemCacheInvariant.RecordedUnique | memcache/memcache.c:56-58 | two held blocks at one address are the same block |
| MemCacheInvariant.AllocatedMeansLive | memcache/memcache.c:229-231 | a pointer is allocated exactly when the block its header describes is in the allocated index |
| MemCacheInvariant.TakeBlockFacts | memcache/memcache.h:116-126 | an allocation takes a block whose address no live block has, and removes exactly that block from the free blocks |
| MemCacheInvariant.AllocateSucceeds | memcache/memcache.h:116-126 | allocation succeeds exactly when the user exists and 0 < size <= remaining quota |
| MemCacheInvariant.AllocateKeepsValid | memcache/memcache.h:116-126 | allocation keeps the allocator valid, and the returned pointer is allocated |
| MemCacheInvariant.AllocateKeepsBalance | memcache/memcache.h:116-126 | allocation moves the size from the quota to the owned blocks; every balance is unchanged |
| MemCacheInvariant.FreeUnlinks | memcache/memcache.c:229-261 | a successful free takes exactly the freed block out of the live blocks |
| MemCacheInvariant.FreeCaches | memcache/memcache.c:250-259 | a freed block of at most 256 bytes joins the free blocks; a larger one leaves the free cache as it was |
| MemCacheInvariant.FreeKeepsValid | memcache/memcache.c:220-264 | freeing keeps the allocator valid, and `ptr` is no longer allocated |
| MemCacheInvariant.FreeDeallocates | memcache/memcache.c:220-264 | after a successful free the pointer is no longer allocated |
| MemCacheInvariant.FreeKeepsBalance | memcache/memcache.c:248-249 | freeing gives the size back to the owner's quota; every balance is unchanged |
| MemCacheInvariant.SetBlockModeKeepsValid | memcache/memcache.h:65-84 | a mode change keeps the allocator valid and every balance |
| MemCacheInvariant.AddUserKeepsValid | memcache/memcache.c:161-191 | registering keeps the allocator valid and the old balances. The new user's balance is its limit. On out-of-memory the allocator is unchanged |
| MemCacheInvariant.TrustKeepsValid | memcache/memcache.c:193-218 | trusting keeps the allocator valid |
| MemCacheInvariant.UntrustKeepsValid | memcache/memcache.h:101-114 | untrusting keeps the allocator valid |
| MemCacheInvariant.ResetKeepsValid | memcache/memcache.c:281-299 | after a reset the allocator is valid, and no user and no block remain |
| MemCacheProperties.CellHeadIsLowest | memcache/tests/memcache_test.c:376-383 | the free cache's cell for a size is non-empty exactly when a free block of that size exists, and it starts with the lowest-addressed one |
| MemCacheProperties.TakeBlockReuses | memcache/tests/memcache_test.c:376-387 | an allocation takes the lowest-addressed free block of its size when one exists, otherwise a fresh address |
| MemCacheProperties.AllocateReuses | memcache/tests/memcache_test.c:376-387 | an allocation reuses the lowest-addressed free block of its size, otherwise a fresh address that no block holds |
| MemCacheProperties.FreeReleases | memcache/tests/memcache_test.c:388-391 | after a free the block is not allocated. It is free exactly when its size is at most 256; a larger block loses its header; other free blocks stay free |
| MemCacheProperties.DoubleFreeRejected | memcache/memcache.h:128-143 | freeing the same pointer again is refused as not allocated, or as an unknown user |
| MemCacheProperties.FreeThenAllocateReuses | memcache/tests/memcache_test.c:376-387 | the owner's re-allocation of the size succeeds, at an address no higher than the freed one; it is that address when no other free block of the size existed |
| MemCacheProperties.TrustIdempotent | memcache/memcache.h:86-99 | trusting twice is trusting once |
| MemCacheProperties.UntrustUndoesTrust | memcache/memcache.h:101-114 | untrusting a new trust restores the allocator |
| MemCacheProperties.GroupPermission | memcache/memcache.c:240-245 | a 'G' block may be freed exactly by its owner and the users the owner trusts; a 'U' block only by its owner; an 'A' block by anyone |
| MemCacheProperties.ResetForgets | memcache/tests/memcache_test.c:773-784 | after a reset a free fails with user-not-found, both walks are empty, and a user can be registered afresh with only its own quota |
| MemCacheProperties.FreeWalkOrder | memcache/memcache.h:184-200 | the free walk lists exactly the free blocks, by size and then by address |
| MemCacheProperties.AllocatedListed | memcache/memcache.h:145-161 | every entry of the allocated walk is a pointer with a header |
| MemCacheProperties.AllocatedWalkMembers | memcache/memcache.h:145-161 | the allocated walk lists exactly the allocated pointers |
| MemCacheProperties.AllocatedWalkOrder | memcache/memcache.h:145-161 | the allocated walk lists each pointer once, ordered by index cell and then by address |
| MemCacheProperties.AddressModuloCoversAll | memcache/memcache.c:17 | keying by address modulo 65536 gives every block a cell |
| MemCacheProperties.AddressWalkOrder | memcache/tests/memcache_test.c:545-566 | with an index keyed by address modulo any positive modulus (the test's 1024 included) the walk's remainders never decrease, ties in address order; below the modulus the walk is ascending |
| MemCacheProperties.FreeWalkVisits | memcache/memcache.h:184-221 | `GetFirstFreeBlock` and n calls of `GetNextFreeBlock` return the n-th free block, then NULL (induction) |
| MemCacheProperties.AllocatedWalkVisits | memcache/memcache.h:145-182 | `GetFirstAllocatedBlock` and n calls of `GetNextAllocatedBlock` return the n-th allocated block, then NULL (induction) |
| MemCacheFindings.FreeAsWritten | memcache/memcache.c:220-264 | `memCacheFree` as written either returns the code of the corrected `Free`, leaving the state alone on failure, or aborts at the assertion after the push, which only happens where `Free` succeeds |
| MemCacheFindings.FreeAsWrittenKeepsBlock | memcache/memcache.c:254-261 | as written, freeing a cacheable block whose address is past the index's last cell leaves it allocated; freeing it again passes every check and aborts at the assertion after the push |
| MemCacheFindings.PushBeyondThreshold | memcache/memcache.c:250-259 | a 257-byte block can always be pushed into a free cache that has a cell for it |
| MemCacheFindings.FreeAsWrittenCaches257 | memcache/memcache.c:16 | as written, a freed 257-byte block is kept in the free cache when that cache has at least 265 cells |
| MemCacheFindings.CreateAsWrittenIsValid | memcache/memcache.c:105-121 | the allocator created with the code's 265 free cells is valid, with no users and no blocks |
| MemCacheFindings.AsWrittenKeeps257 | memcache/tests/memcache_test.c:388-391 | as written, from a new allocator: register a user, allocate 257 bytes, free them; the free succeeds and the block is then free |
| MemCacheFindings.SizeKeyLeavesLargeBlocks | memcache/memcache.c:115-121 | the code's allocated index (265 cells keyed by size - 1) has a cell exactly for sizes 1 to 265, so it does not cover every block, and a 266-byte push is out of range |
| MemCacheFindings.TrustAsWritten | memcache/memcache.c:193-218 | `memCacheTrust` as written agrees with the corrected `Trust` whenever it returns |
| MemCacheFindings.TrustTwiceAborts | memcache/memcache.c:206-215 | as written, the first trust returns and a repeated trust fails its assertion |

## Left out

- Out-of-memory paths. The model allocates without failure, with one
  exception: `MemCache.AddUser` keeps a flag for a failed quota insertion,
  so that its rollback is modelled. Every other out-of-memory result is left
  out: the set, cache and graph copies, `memCacheTrust` (memcache.c:211-213)
  and `memCacheFree` (memcache.c:255-257).
- The missing rollback in `memCacheFree`. When the push at memcache.c:254-257
  runs out of memory, the quota has already been credited. This is
  unreachable in the model, because pushes do not fail there.
- Destroy functions and the element callbacks. Copy, free, compare and key
  callbacks are either pure functions passed as parameters or booleans
  saying whether the callback was given. Memory release is not modelled.
- Pointers. A block pointer is a natural-number address. Fresh addresses
  come from a counter `nextAddr`, which stands in for `malloc`. Payload bytes
  are not modelled. The header is modelled both as a record and as its
  16-byte encoding.
- The `map` and `set` libraries used by `memcache.c` are not part of this
  model. The quota map is a Dafny `map`. Each iteration set is a `MySet` of
  addresses, rebuilt when a walk starts.
- `Graph`: the vertex comparator is taken to be an equality test, as `strcmp`
  is on user names. Vertices and edges are therefore Dafny sets. The
  edge-copy code at graph/graph.c:40-66 is not modelled, nor is the vertex
  copy it makes.
- The allocated index's key. memcache.c:72-74 keys by size; the walk
  documented at memcache.h:145-161 is by size, then address; the tests at
  memcache_test.c:545-566 expect address order. The model makes the key a
  parameter (`IndexShape`). `MemCacheProperties.AddressWalkOrder` covers the
  address-keyed choice. The tests at memcache_test.c:502 and 545-548 need
  the addresses modulo 1024 never to decrease along the walk.
- MemCacheProperties.AddressWalkOrder: the modulus is a parameter. Neither
  memcache.c's size key nor its unused modulus 65536 (memcache.c:17) gives
  the order modulo 1024 that the test checks. So the test's order holds
  only for an index keyed by address modulo 1024.
- MemCacheInvariant.Valid: it requires an allocated-index key that gives
  every block a cell. That excludes memcache.c's own index, which has 265
  cells keyed by size - 1 (memcache.c:72-74, 115-121) and so has no cell
  for a block over 265 bytes (`MemCacheFindings.SizeKeyLeavesLargeBlocks`).
  Pushing such a block into it fails with CACHE_OUT_OF_RANGE, although the
  tests allocate blocks of up to 2048 bytes (memcache_test.c:503-512).
  `CreateIsValid`, every `…KeepsValid` and `…KeepsBalance` lemma and the
  walk lemmas are proved for covering keys only. The by-size order that
  memcache.h:145-161 documents for the allocated walk is therefore not
  proved for any valid state.
- MemCacheInvariant.BlockCompareIsComparator: addresses are unbounded. The
  C `BlockCompare` (memcache.c:56-58) converts the pointer difference to an
  `int`, so blocks 2^31 or more bytes apart can compare the wrong way round
  and break the comparator laws. The model takes the exact difference.
- The header's size field is encoded little-endian
  (`MemCacheHeader.EncodeInt32`). The test at memcache_test.c:16-19 reads
  it as a native `int`, so the byte order is that of the machine.
- The free cache's cell count. memcache.c:109-114 creates 265 cells.
  `MemCache.Create` creates 256, one per cacheable size;
  `MemCacheFindings.CreateAsWritten` creates 265.
- MemCacheFindings.FreeAsWritten: on the 256-cell free cache that
  `MemCache.Create` builds, the push of a 257- to 265-byte block is out of
  range, so the as-written free aborts where memcache.c, with 265 cells,
  succeeds. The as-written behaviour is stated for a 265-cell cache
  (`FreeAsWrittenCaches257`, `AsWrittenKeeps257`).
- `Cache.GetFirst` requires at least one cell, which every created cache has.
- Assertions (`assert` in memcache.c) are modelled as if they hold in the
  corrected operations. The as-written `MemCacheFindings.FreeAsWritten` and
  `MemCacheFindings.TrustAsWritten` model a failed assertion as an abort.
- The iteration macros at memcache.h:234-250 name functions that do not
  exist and are not modelled. The FOREACH macros of `my_set.h` and
  `cache.h` are modelled as `MySet.ForEach` and `Cache.ForEach`.
- A walk is invalidated by every operation that changes the blocks. The
  model empties both walks after such an operation, so any further
  `GetNext` returns NULL.
- MySet.Copy and MySet.Filter: their own contracts state only when a result
  exists. What they contain is stated by MySet.CopyIsEqual and
  MySet.FilterKeepsOrder, which need a valid set.
- Cache.FreeElement: its contract states the size of the changed cell.
  Which element leaves is stated by Cache.FreeInCells and
  Cache.FreeRemovesStored.
- Concurrency and `NDEBUG` builds are out of scope.

## Findings

| source | as written | input that shows it | evidently intended | confidence | as-written member | corrected member |
|---|---|---|---|---|---|---|
| memcache/memcache.c:16 | blocks of up to 265 bytes are kept in the free cache | freeing a 257-byte block; the test at memcache_test.c:388-391 then expects no free block | only blocks of at most 256 bytes are kept, as the test at memcache_test.c:388-391 expects | high, not executed | MemCacheFindings.AsWrittenKeeps257 | MemCacheProperties.FreeReleases |
| memcache/memcache.c:261 | the block is taken out of the allocated index with `cacheExtractElementByKey(…, ptr)`, which uses the block address as a cell key | freeing a block of at most 265 bytes whose address is at or past the index's cell count: nothing is extracted, and a second free passes every check and aborts at the assertion at memcache.c:258 | the freed block itself leaves the index, so a second free reports BLOCK_NOT_ALLOCATED | high, not executed | MemCacheFindings.FreeAsWrittenKeepsBlock | MemCacheProperties.DoubleFreeRejected |
| memcache/memcache.c:206-215 | any graph result other than success is treated as impossible (`assert`) | trusting the same pair twice: the graph reports EDGE_ALREADY_EXISTS | trusting again is a success that changes nothing (memcache.h:86-99) | medium, not executed | MemCacheFindings.TrustTwiceAborts | MemCacheProperties.TrustIdempotent |
