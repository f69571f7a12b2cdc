# MemPool: an aligned, size-classed chunk allocator

This project models the allocator engine of `MemoryPoolAligned/MemPool.cpp` and
`MemoryPoolAligned/MemPool.h` in Dafny and proves properties of it.

A `MemPool` owns one backing buffer of `max_memory` bytes and a carve cursor (`read_buffer`,
`available_size`). It keeps the normalised list of chunk sizes, one `SubPool` per size, and
`subpool_register`, which sends every carved chunk back to the pool that owns it.

A `SubPool` tracks the chunks of one size. It holds a map from address to an "is free" flag
and counts the chunks ever added to it.

- `Initialize` sorts and de-duplicates the requested sizes. It checks that each size is a
  multiple of the alignment and that the sizes add up to at most `max_memory`. It then creates
  the pools.
- `Alloc(size)` serves a request from the smallest class that fits. It reuses that class's
  lowest free chunk; otherwise it carves a new aligned chunk at the cursor with `std::align`
  (section 23.10.5 [ptr.align] of ISO C++17).
- `Free` sends an address back to its pool through the register. The pool refuses unknown
  addresses and double frees.

The model has three layers.

- **Plain values.** Modules `Alignment`, `ChunkSizes`, `Carving` and `PoolStates`.
  - `PoolStates.PoolState` holds the layout, each class's flag map and each class's count.
  - Each operation has a step function: `TakeStep`, `CarveStep`, `AllocStep`,
    `AllocAsWrittenStep`, `FreeStep`, `AddClasses` and `StatsOf`.
  - The allocator's properties are proved about these functions. The invariant they keep is
    `Consistent`:
    - the layout is sound: `(cursor - buffer) + available == max_memory`, and every chunk is
      aligned, inside the buffer and disjoint from the others;
    - every class is a positive multiple of the alignment;
    - every `chunk_count` is the number of chunks in its pool;
    - the register and the pools agree.
- **Classes.** `SubPools.SubPool` and `MemPools.MemPool` have the source's fields, updated in
  place by methods with `modifies` clauses.
  - `MemPool` carries a ghost `model: PoolState`.
  - `Valid()` ties the fields to `model` and requires `Consistent`.
  - Every `MemPool` method is proved to update `model` by its step function, so the properties
    proved on values hold of the object.
- **Environment as parameters.**
  - Addresses are naturals.
  - The address `new uint8_t[max_memory]` returned is a constructor parameter.
  - A pointer result or argument is an `Option<nat>`, where `None` is `nullptr`.
  - `DumpStats` returns its statistics as a map from chunk size to `PoolStats` instead of
    printing them.

The intended `Alloc` stops at the first class that fits. The loop as written does not: it has
no `break` after a successful reuse (see Findings). `MemPool.AllocAsWritten` models the loop as
written, and `MemPool.Alloc` models the intended one.

## Model

| member | source | states |
|---|---|---|
| SubPools.SubPool.constructor | MemoryPoolAligned/MemPool.cpp:7-8 | A new pool holds the given chunk size, no chunks and a zero count. |
| SubPools.SubPool.Alloc | MemoryPoolAligned/MemPool.cpp:10-30 | Returns None exactly when no chunk is free, and then nothing changes. Otherwise it returns the lowest-addressed free chunk and flips only that entry to used. |
| SubPools.SubPool.Free | MemoryPoolAligned/MemPool.cpp:32-63 | Returns true exactly when the address is in the pool and in use, and then flips only that entry to free. An unknown address or a double free returns false and changes nothing. |
| SubPools.SubPool.AddNewChunk | MemoryPoolAligned/MemPool.cpp:65-73 | Always returns true. The address is inserted as free unless it is already present (insert keeps the old entry), and the count grows by exactly one. |
| SubPools.SubPool.NumUnfreedChunks | MemoryPoolAligned/MemPool.cpp:75-85 | Returns the number of entries flagged in use and changes nothing. |
| SubPools.Unfreed | MemoryPoolAligned/MemPool.h:65-68 | The number of chunks in use never exceeds the number of chunks in the pool. |
| SubPools.LowestFree | MemoryPoolAligned/MemPool.cpp:14-25 | The chunk the ascending map walk stops at is free, and no lower chunk is free. |
| SubPools.LowestFreeUnique | MemoryPoolAligned/MemPool.cpp:14-25 | Only one chunk has that property. |
| SubPools.LeastKey | MemoryPoolAligned/MemPool.cpp:15 | Picks the least address of a non-empty set. This is the order in which the `std::map` iterator visits keys, and the three walks in the model use it: `SubPool.Alloc`, `SubPool.NumUnfreedChunks` and `MemPool.CollectStats`. |
| SubPools.NoneFreeIffAllUnfreed | MemoryPoolAligned/MemPool.cpp:75-85 | No chunk is free exactly when the unfreed count equals the number of chunks. |
| SubPools.SubPool.NumChunks | MemoryPoolAligned/MemPool.h:63 | `getNumChunks`: returns `chunk_count`, a plain getter with no contract of its own. |
| SubPools.UnfreedMarkUsed | MemoryPoolAligned/MemPool.cpp:17-20 | Handing out a free chunk raises the unfreed count by one. |
| SubPools.UnfreedMarkFree | MemoryPoolAligned/MemPool.cpp:47-52 | Releasing a chunk in use lowers the unfreed count by one. |
| SubPools.UnfreedAddUsed | MemoryPoolAligned/MemPool.cpp:200-207 | A new chunk that is admitted and at once handed out raises the unfreed count by one. |
| ChunkSizes.SortUnique | MemoryPoolAligned/MemPool.cpp:117-123 | The normalised sizes are strictly ascending and hold exactly the requested sizes. |
| ChunkSizes.NormalizationUnique | MemoryPoolAligned/MemPool.cpp:117-123 | Two strictly ascending lists with the same elements are equal. So the normalised list depends only on the set of requested sizes. |
| ChunkSizes.NormalizeExample | MemoryPoolAligned/MemPool.cpp:117-123 | `[128, 64, 128, 256]` normalises to `[64, 128, 256]`. |
| ChunkSizes.AllMultiplesOfElems | MemoryPoolAligned/MemPool.cpp:127-137 | Whether every size is aligned depends only on the set of sizes, not on their order or repetition. |
| ChunkSizes.ValidateChunkSizes | MemoryPoolAligned/MemPool.cpp:125-144 | Accepts exactly when every size is a multiple of the alignment and the exact sum is at most `max_memory`. This is the corrected check; see Findings. |
| ChunkSizes.Sum | MemoryPoolAligned/MemPool.cpp:125-136 | The exact sum of the sizes, added from the front as the loop does. |
| ChunkSizes.ValidationExamples | MemPoolTest/test.cpp:22-46 | `{64, 128, 256}` passes with 1024 bytes and alignment 8. `{64, 126, 256}` is not aligned. `{64, 128, 256, 1024}` exceeds 1024 bytes. |
| ChunkSizes.WrappedSum | MemoryPoolAligned/MemPool.cpp:125-136 | The `uint32_t` running sum is the exact sum modulo 2^32. |
| ChunkSizes.AcceptsAsWritten | MemoryPoolAligned/MemPool.cpp:125-144 | The validation as written: every size aligned and the wrapping `uint32_t` sum at most `max_memory`. This is the as-written half of the first finding. |
| ChunkSizes.WrappedSumAcceptsOversized | MemoryPoolAligned/MemPool.cpp:125-144 | With the wrapping sum, the check accepts two sizes whose true sum exceeds the pool. |
| ChunkSizes.FirstFit | MemoryPoolAligned/MemPool.cpp:178-180 | The class tried is None exactly when every size is below the request. Otherwise it is a configured size not below the request, and in a strictly ascending list it is the smallest such size. |
| ChunkSizes.FirstFitIndex | MemoryPoolAligned/MemPool.cpp:178-180 | The first index whose size fits gives the class FirstFit picks. |
| Alignment.IsMultipleIff | MemoryPoolAligned/MemPool.cpp:130 | The model's multiple-of test agrees with `chunk_size % alignment == 0`. |
| Alignment.Padding | MemoryPoolAligned/MemPool.cpp:195 | The padding is below the alignment and reaches an aligned address, and no address skipped is aligned. |
| Alignment.PaddingClosedForm | MemoryPoolAligned/MemPool.cpp:195 | The padding equals `(a - p mod a) mod a`, as `std::align` computes it. |
| Alignment.Align | MemoryPoolAligned/MemPool.cpp:195-197 | `std::align` fails exactly when padding plus size exceeds the space. Otherwise the address is the first aligned one at or after `ptr`, less than one alignment past it, and the padding is taken from the space. |
| Carving.CarveChunk | MemoryPoolAligned/MemPool.cpp:195-204 | One carve on the layout. `std::align` runs from the cursor; the chunk found is recorded with its size, the cursor moves past it, and the room left shrinks by its size. None when it does not fit. |
| Carving.CarveKeepsSound | MemoryPoolAligned/MemPool.cpp:195-204 | A carve keeps the layout sound: the bookkeeping still adds up, and the new chunk is aligned, inside the buffer, after the cursor and disjoint from every earlier chunk. |
| Carving.TightCarvesFill | MemPoolTest/test.cpp:92-112 | From an aligned cursor, `n` aligned chunks of a size fill exactly `n * size` bytes with no padding. After that nothing of positive size can be carved. |
| Carving.CarveRepeat | MemPoolTest/test.cpp:92-112 | `n` carves of one size in a row, or None as soon as one does not fit. |
| PoolStates.CountIsSize | MemoryPoolAligned/MemPool.h:23-24 | Counting a pool's chunks one by one gives the size of its map. |
| PoolStates.TakeStep | MemoryPoolAligned/MemPool.cpp:183 | `sub_pools[cs]->Alloc()` on a pool with a free chunk (lines 14-24): returns the lowest free chunk and flags it used. |
| PoolStates.CarveStep | MemoryPoolAligned/MemPool.cpp:193-217 | The carve path. The chunk `std::align` finds is admitted to the pool and counted (`AddNewChunk`), handed out and registered, and the cursor moves past it. When the chunk does not fit, nothing changes and the result is None. |
| PoolStates.AllocStep | MemoryPoolAligned/MemPool.cpp:173-246 | The intended `Alloc`, which tries exactly the first class that fits (FirstFit). It reuses that class's lowest free chunk, and otherwise takes the carve path. None with nothing changed when no class fits. |
| PoolStates.AllocAsWrittenStep | MemoryPoolAligned/MemPool.cpp:178-243 | The loop as written; the as-written half of the second finding. After a successful reuse it goes on through every larger class, and each reuse overwrites the pointer found before. The first carve ends the call, with its chunk or with nothing. |
| PoolStates.FreeStep | MemoryPoolAligned/MemPool.cpp:248-268 | `Free`. nullptr and unregistered addresses give false. Otherwise the owning pool's `SubPool::Free` (lines 32-63) flags a chunk in use free and gives true, or refuses. |
| PoolStates.StatsOf | MemoryPoolAligned/MemPool.cpp:159-171 | What `DumpStats` prints for each pool: its size, `chunk_count` and `getNumUnfreedChunks`. |
| PoolStates.AddClass | MemoryPoolAligned/MemPool.cpp:152-153 | `sub_pools.insert`: a new empty pool with a zero count for a new size. A size that already has a pool keeps it. |
| PoolStates.AddClasses | MemoryPoolAligned/MemPool.cpp:150-154 | The construction loop: AddClass for each size in order. |
| PoolStates.AdmitKeepsAgree | MemoryPoolAligned/MemPool.cpp:200-213 | Admitting an unregistered chunk to a pool and registering it there keeps the register and the pools in agreement. |
| PoolStates.FlipKeepsAgree | MemoryPoolAligned/MemPool.cpp:17-20 | Changing the flag of a chunk keeps that agreement. |
| PoolStates.FlipKeepsCounted | MemoryPoolAligned/MemPool.cpp:17-20 | A flag change leaves every count right. |
| PoolStates.AdmitKeepsCounted | MemoryPoolAligned/MemPool.cpp:65-73 | Admitting a fresh chunk and counting it keeps `chunk_count` equal to the number of chunks. |
| PoolStates.FlipKeepsConsistent | MemoryPoolAligned/MemPool.cpp:47-52 | A flag change keeps the whole invariant. |
| PoolStates.CarveKeepsConsistent | MemoryPoolAligned/MemPool.cpp:193-217 | A carve keeps the invariant and touches no class but its own. The chunk it returns is new: neither registered nor in the pool. |
| PoolStates.CarveFresh | MemoryPoolAligned/MemPool.cpp:195-213 | The chunk a carve returns is neither registered nor in the pool. |
| PoolStates.AllocKeepsConsistent | MemoryPoolAligned/MemPool.cpp:173-246 | Alloc keeps the invariant, and every configured size keeps its pool. |
| PoolStates.FreeKeepsConsistent | MemoryPoolAligned/MemPool.cpp:248-268 | Free keeps the invariant and changes neither the classes nor the counts. |
| PoolStates.AddClassKeepsAgree | MemoryPoolAligned/MemPool.cpp:150-154 | A new empty pool keeps the register and the pools in agreement. |
| PoolStates.AddClassKeepsConsistent | MemoryPoolAligned/MemPool.cpp:150-154 | A new class of positive, aligned size keeps the invariant. |
| PoolStates.AddClassesShape | MemoryPoolAligned/MemPool.cpp:150-154 | The pool construction loop gives every size a pool, keeps the existing pools untouched and leaves the layout alone. |
| PoolStates.AddClassesKeepsConsistent | MemoryPoolAligned/MemPool.cpp:150-154 | The whole construction loop keeps the invariant. |
| PoolStates.RegisteredChunkPlacement | MemoryPoolAligned/MemPool.h:72-76 | Every registered chunk is aligned, lies inside the buffer and overlaps no other registered chunk. |
| PoolStates.AllocReturnsFreeFittingChunk | MemoryPoolAligned/MemPool.cpp:173-246 | A returned chunk is registered to the class FirstFit picks and that class fits the request. The chunk is now in use, and if it existed before it was free: no chunk is handed out twice. |
| PoolStates.AllocFailsOnlyWhenExhausted | MemoryPoolAligned/MemPool.cpp:186-231 | Alloc fails exactly when no class fits, or when the class has no free chunk and the padded chunk does not fit in what is left. A failed Alloc changes nothing. |
| PoolStates.AllocReusesBeforeCarving | MemoryPoolAligned/MemPool.cpp:183-186 | When the class has a free chunk, Alloc returns its lowest free chunk and moves neither the cursor nor any count. |
| PoolStates.AllocTouchesOnlyItsClass | MemoryPoolAligned/MemPool.cpp:178-186 | Only the smallest class that fits is touched. A successful request keeps the set of classes and leaves every other class's flags unchanged. The chosen class changes only by the returned chunk now being flagged used. This is the intended half of the missing-`break` finding. |
| PoolStates.FreeRefuses | MemoryPoolAligned/MemPool.cpp:248-268 | Free succeeds exactly for a registered chunk in use. nullptr, an unknown address and a chunk already free are refused with nothing changed. |
| PoolStates.DoubleFreeRefused | MemoryPoolAligned/MemPool.cpp:42-46 | After a successful release, releasing the same address again fails and changes nothing. |
| PoolStates.TakeThenFree | MemoryPoolAligned/MemPool.cpp:248-268 | Releasing a reused chunk restores the state exactly. |
| PoolStates.CarveThenFree | MemoryPoolAligned/MemPool.cpp:195-213 | A freshly carved chunk can be released. It is then free in its pool while the layout and the counts stay as the carve left them. |
| PoolStates.AllocThenFree | MemPoolTest/test.cpp:72-90 | Every chunk Alloc returns can be released. Releasing a reused chunk restores the state; releasing a carved one leaves it free. |
| PoolStates.FreedChunkIsReused | MemoryPoolAligned/MemPool.cpp:183-213 | After a release, the next request for that class reuses a chunk no higher than the released one and carves nothing. When it was the only free chunk, the request returns it and restores the state before the release. |
| PoolStates.AllocKeepsServes | MemoryPoolAligned/MemPool.cpp:173-246 | Alloc removes no pool, so every configured size still has one. |
| PoolStates.AllocRepeat | MemPoolTest/test.cpp:99-103 | `n` calls of `Alloc(size)` in a row, or None as soon as one returns nullptr. Every configured size still has a pool afterwards. |
| PoolStates.AllocCarves | MemoryPoolAligned/MemPool.cpp:186-217 | A request whose class has no free chunk, when the carve fits, succeeds. It moves the layout as that carve does, leaves the class with no free chunk and leaves every other class alone. |
| PoolStates.AllocsCarveInARow | MemoryPoolAligned/MemPool.cpp:186-217 | While the class serving a size has no free chunk, `n` consecutive requests all succeed as long as `n` carves fit. The layout ends where those `n` carves leave it, and the other classes are untouched. |
| PoolStates.AllocOverload | MemPoolTest/test.cpp:92-112 | Classes 64, 128 and 256, alignment 8, 2048 bytes left at an aligned cursor, and no free chunk in classes 64 and 256. Eight `Alloc(256)` all succeed, and the following `Alloc(20)` returns nullptr. |
| PoolStates.StatsBounded | MemoryPoolAligned/MemPool.cpp:159-171 | The statistics cover exactly the configured classes, and per class the unfreed chunks never outnumber the chunks ever added. |
| PoolStates.AllocCountsOneMore | MemoryPoolAligned/MemPool.cpp:173-246 | A successful Alloc raises its class's unfreed count by one. It raises that class's `chunk_count` by one on a carve and keeps it on a reuse, and it leaves every other class's statistics alone. |
| PoolStates.AllocOnlyRegistersItsChunk | MemoryPoolAligned/MemPool.cpp:200-213 | Alloc keeps every registered chunk with its owner; the only new register entry is the chunk it returns. No class's `chunk_count` decreases (MemPool.h:60-63). |
| PoolStates.FreeCountsOneLess | MemoryPoolAligned/MemPool.cpp:248-268 | A successful Free lowers its class's unfreed count by one and leaves every other class's statistics alone. |
| PoolStates.AsWrittenTail | MemoryPoolAligned/MemPool.cpp:178-243 | Once a chunk of a class has been taken, the larger classes the loop as written goes on to never return that chunk and leave its pool alone. |
| PoolStates.AsWrittenLeaks | MemoryPoolAligned/MemPool.cpp:178-243 | Suppose the class that fits has a free chunk and is not the largest. Then the loop as written marks that chunk used but returns something else, while the intended Alloc returns it. |
| PoolStates.LeakAtFirstClass | MemoryPoolAligned/MemPool.cpp:178-243 | The same leak when the first class already fits. |
| PoolStates.AsWrittenAgrees | MemoryPoolAligned/MemPool.cpp:178-243 | The loop as written and the intended Alloc agree when nothing fits, when the class has no free chunk, or when it is the largest class. |
| MemPools.MemPool.constructor | MemoryPoolAligned/MemPool.cpp:88-97 | Takes a non-null buffer address and a power-of-two alignment that fits the `uint32_t` field. The cursor starts at the buffer with all `max_memory` bytes available. Nothing is carved, nothing is configured, and the invariant holds. |
| MemPools.MemPool.Initialize | MemoryPoolAligned/MemPool.cpp:115-157 | Leaves the sizes strictly ascending with the requested elements, even on failure. Returns true exactly when all sizes are aligned and their exact distinct sum fits. This is the corrected check; the source's `uint32_t` sum wraps (see Findings). On success every size has a pool, old pools are kept and new ones are fresh. On failure nothing else changes. |
| MemPools.MemPool.AddPools | MemoryPoolAligned/MemPool.cpp:150-154 | The construction loop updates the state by AddClasses, keeping every existing pool object. |
| MemPools.MemPool.AddPool | MemoryPoolAligned/MemPool.cpp:152-153 | `insert` of a new SubPool keeps an existing pool and adds a fresh one only for a new size. |
| MemPools.MemPool.TakeFree | MemoryPoolAligned/MemPool.cpp:183 | The pool of the class returns nothing exactly when it has no free chunk; otherwise the state moves by TakeStep. |
| MemPools.MemPool.AdmitAndTake | MemoryPoolAligned/MemPool.cpp:200-207 | In a pool with no free chunk, admitting a new chunk and allocating returns exactly that chunk, now in use and counted. |
| MemPools.MemPool.Carve | MemoryPoolAligned/MemPool.cpp:193-217 | The carve path updates the cursor, the pool and the register as CarveStep says. |
| MemPools.MemPool.AdvanceCursor | MemoryPoolAligned/MemPool.cpp:203-213 | The cursor moves past the chunk, the room shrinks by the chunk size, and the register records the chunk. |
| MemPools.MemPool.Reuse | MemoryPoolAligned/MemPool.cpp:183-186 | Reuse on a configured class keeps the invariant: it hands out the lowest free chunk, or nothing when there is none. |
| MemPools.MemPool.CarveNew | MemoryPoolAligned/MemPool.cpp:186-231 | A carve on a configured class with no free chunk keeps the invariant and follows CarveStep. |
| MemPools.MemPool.Alloc | MemoryPoolAligned/MemPool.cpp:173-246 | The corrected Alloc keeps the invariant and follows AllocStep. That is the behaviour the PoolStates lemmas describe. |
| MemPools.MemPool.AllocAsWritten | MemoryPoolAligned/MemPool.cpp:173-246 | The loop as written keeps the invariant and follows AllocAsWrittenStep. |
| MemPools.MemPool.Free | MemoryPoolAligned/MemPool.cpp:248-268 | Keeps the invariant and the register, and follows FreeStep. |
| MemPools.MemPool.ReleaseRegistered | MemoryPoolAligned/MemPool.cpp:267 | The owning pool's Free decides, as FreeStep says. |
| MemPools.MemPool.DumpStats | MemoryPoolAligned/MemPool.cpp:159-171 | Returns, per chunk size, the pool's count and its unfreed count (StatsOf), and changes nothing. |
| MemPools.MemPool.CollectStats | MemoryPoolAligned/MemPool.cpp:161-169 | The walk over the pools in ascending size collects StatsOf. |

## Left out

- Mutexes and locking are not modelled; the model runs sequentially. This includes the
  unlocked `chunk_count++`, the unlocked walk of `getNumUnfreedChunks` and the use of an
  iterator after unlocking in `Free`.
- `printf` diagnostics are left out: callers see only the returned value.
- The destructor (`DumpStats`, deleting the SubPools and the buffer) is left out, including its
  `delete` of an array allocated with `new[]`.
- The demo driver `MemoryPoolAligned/MemoryPoolAligned.cpp` and the test main are not modelled.
  The tests' configurations appear as `ValidationExamples`, `NormalizeExample`,
  `TightCarvesFill` and `AllocOverload`. The test's
  uninitialised pointer is modelled as an address not in the register (`FreeRefuses`).
- Widths: sizes, counts, addresses and `available_size` are unbounded naturals. The
  constructor requires `max_memory` and `alignment` to fit in a `uint32_t`.
- MemPools.MemPool.Initialize: validates with the exact sum (`ValidateChunkSizes`), not with the
  source's wrapping `uint32_t` sum. The wrap is modelled only in `ChunkSizes.WrappedSum` and
  `ChunkSizes.AcceptsAsWritten` (see Findings).
- MemPools.MemPool.constructor: requires a non-null buffer address, since `new` never returns
  null and a chunk at address 0 would read as `nullptr`. It also requires a power-of-two
  alignment. The source accepts any alignment, but `std::align` is undefined for the others.
- MemPools.MemPool.Initialize: requires every requested size to be positive. The source
  accepts 0. A carve of size 0 leaves the cursor at the aligned address it returns. The next carve of that
  class finds the address already in the pool's map: `insert` keeps the used entry,
  `chunk_count` still grows, `SubPool::Alloc` returns nullptr, nothing is registered and the
  request returns nullptr. The next chunk of another class is carved at the same address, so
  two pools hold it and its register entry is overwritten.
- MemPools.MemPool.Alloc: requires that every configured size has a pool (`Ready`). After a
  failed Initialize, `sub_pools[chunk_size]` inserts a null pool, and dereferencing it is
  undefined behaviour.
- MemPools.MemPool.AllocAsWritten: carries the same `Ready` requirement, for the same reason.
- Lines 233-239 of `MemoryPoolAligned/MemPool.cpp` are unreachable: every branch before them
  breaks or returns. They have no counterpart in the model.
- SubPools.SubPool.NumChunks: a plain getter of `chunk_count` with no contract of its own.
  What the count means is `Counted` inside `Consistent`, and that it only grows is the
  `AddNewChunk` postcondition.
- `subpool_register` maps each chunk to the chunk size of its pool, not to a `SubPool*`. There
  is exactly one pool per size, so the two determine each other.
- The SubPool an `insert` does not keep (a size that already has a pool) is allocated but not
  tracked, just as the source leaks it.
- `DumpStats` returns a map rather than printing lines in ascending size order.
- The backing buffer's address is a constructor parameter rather than the result of `new`.

## Findings

| source | as written | input that shows it | evidently intended | confidence | as-written member | corrected member |
|---|---|---|---|---|---|---|
| MemoryPoolAligned/MemPool.cpp:125-144 | `sum_chunk_size` is a `uint32_t`, so the sum wraps modulo 2^32 before it is compared with `max_memory` | sizes `0x80000000` and `0x80000008` with alignment 8 and `max_memory` 1024: the sum wraps to 8 and Initialize accepts | reject sizes whose true sum exceeds `max_memory` | not executed | ChunkSizes.WrappedSumAcceptsOversized | ChunkSizes.ValidateChunkSizes |
| MemoryPoolAligned/MemPool.cpp:178-243 | no `break` after a successful reuse at lines 183-186, so the loop goes on to the larger classes, marks their chunks used or carves, and overwrites `chunk_ptr` | classes 64, 128 and 256 with a free chunk in class 64; `Alloc(50)` marks that chunk used but returns another chunk or nothing | stop at the first class that fits | not executed | PoolStates.AsWrittenLeaks | MemPools.MemPool.Alloc |
