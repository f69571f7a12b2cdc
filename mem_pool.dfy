/**
 * The MemPool: one backing buffer of `maxMemory` bytes starting at address `buffer`, a carve
 * cursor (`readBuffer`, `availableSize`), the normalised chunk sizes, one SubPool per size and
 * `subpoolRegister`, which maps every carved chunk to the SubPool that owns it.
 * The ghost field `model` is the same state as a value (module PoolStates); every operation
 * is proved to update it by its step function, and the allocator's properties are proved
 * about those functions.
 * Everything runs sequentially: the source's mutexes are not modelled.
 */
module MemPools {

  import opened Wrappers
  import opened Alignment
  import opened ChunkSizes
  import opened SubPools
  import opened Carving
  import opened PoolStates

  class MemPool {
    const maxMemory: nat
    const alignment: nat
    /** Address of the backing buffer obtained at construction. */
    const buffer: nat
    var chunkSizes: seq<nat>
    var subPools: map<nat, SubPool>
    /** First address not yet carved into a chunk. */
    var readBuffer: nat
    var availableSize: nat
    var subpoolRegister: map<nat, nat>
    /** The layout, the pools' chunk maps and counts, as one value. */
    ghost var model: PoolState

    /**
     * The fields are what `model` says: the cursor and the room left; one pool per size,
     * holding that size, with the chunks and the count of `model`; and the register, which
     * sends each registered chunk to the pool of the size `model` records for it.
     */
    ghost predicate Coupled()
      reads this, subPools.Values
    {
      model.layout.buffer == buffer && model.layout.cursor == readBuffer &&
      model.layout.available == availableSize &&
      (forall s :: s in subPools <==> s in model.chunks) &&
      (forall s :: s in subPools ==>
        subPools[s].chunkSize == s && subPools[s].chunks == model.chunks[s] &&
        s in model.counts && subPools[s].chunkCount == model.counts[s]) &&
      subpoolRegister == model.layout.owner
    }

    /** The invariant every operation keeps. */
    ghost predicate Valid()
      reads this, subPools.Values
    {
      alignment > 0 && StrictlyAscending(chunkSizes) && Coupled() &&
      Consistent(model, alignment, maxMemory)
    }

    /** Every configured size has its pool: what `Alloc` needs of `Initialize`. */
    ghost predicate Ready()
      reads this
    {
      Serves(model, chunkSizes)
    }

    /**
     * The buffer `[buffer, buffer + maxMemory)` is what `new uint8_t[maxMemory]` returned, so
     * its address is never the null address 0; the alignment fits the `uint32_t` field.
     * Nothing is carved yet and no size is configured.
     */
    constructor (maxMemory: nat, alignment: nat, buffer: nat)
      requires maxMemory < U32
      requires IsPowerOfTwo(alignment) && alignment < U32
      requires buffer > 0
      ensures Valid() && Ready()
      ensures this.maxMemory == maxMemory && this.alignment == alignment && this.buffer == buffer
      ensures chunkSizes == [] && subPools == map[] && subpoolRegister == map[]
      ensures model == PoolState(Layout(buffer, buffer, maxMemory, map[]), map[], map[])
    {
      this.maxMemory := maxMemory;
      this.alignment := alignment;
      this.buffer := buffer;
      chunkSizes := [];
      subPools := map[];
      subpoolRegister := map[];
      readBuffer := buffer;
      availableSize := maxMemory;
      model := PoolState(Layout(buffer, buffer, maxMemory, map[]), map[], map[]);
    }

    /**
     * Normalises the requested sizes into `chunkSizes` (kept even when validation fails) and,
     * when every size is a multiple of the alignment and the distinct sizes add up to at most
     * `maxMemory`, gives every size without a pool a new empty SubPool (`std::map::insert`
     * keeps a pool that already exists).
     */
    method Initialize(sizes: seq<nat>) returns (ok: bool)
      requires Valid()
      requires forall x :: x in sizes ==> x > 0
      modifies this
      ensures Valid()
      ensures StrictlyAscending(chunkSizes) && Elems(chunkSizes) == Elems(sizes)
      ensures ok <==> AllMultiplesOf(sizes, alignment) && Sum(chunkSizes) <= maxMemory
      ensures ok ==> Ready() && model == AddClasses(old(model), chunkSizes)
      ensures !ok ==> model == old(model) && subPools == old(subPools)
      ensures forall s :: s in old(subPools) ==> s in subPools && subPools[s] == old(subPools)[s]
      ensures forall s :: s in subPools && s !in old(subPools) ==> fresh(subPools[s])
      ensures subpoolRegister == old(subpoolRegister)
    {
      chunkSizes := SortUnique(sizes);
      ok := ValidateChunkSizes(chunkSizes, alignment, maxMemory);
      AllMultiplesOfElems(chunkSizes, sizes, alignment);
      if !ok {
        return;
      }
      forall s | s in chunkSizes
        ensures s > 0 && IsMultiple(s, alignment)
      {
        assert s in Elems(chunkSizes);
        IsMultipleIff(s, alignment);
      }
      AddClassesKeepsConsistent(model, chunkSizes, alignment, maxMemory);
      AddClassesShape(model, chunkSizes);
      AddPools();
    }

    /** The loop of `Initialize` that inserts a new SubPool for every size that has none. */
    method AddPools()
      requires Coupled()
      modifies this
      ensures Coupled()
      ensures model == AddClasses(old(model), chunkSizes)
      ensures chunkSizes == old(chunkSizes) && subpoolRegister == old(subpoolRegister)
      ensures forall s :: s in old(subPools) ==> s in subPools && subPools[s] == old(subPools)[s]
      ensures forall s :: s in subPools && s !in old(subPools) ==> fresh(subPools[s])
    {
      var i := 0;
      while i < |chunkSizes|
        invariant 0 <= i <= |chunkSizes|
        invariant model == AddClasses(old(model), chunkSizes[..i])
        invariant Coupled()
        invariant chunkSizes == old(chunkSizes) && subpoolRegister == old(subpoolRegister)
        invariant forall s :: s in old(subPools) ==> s in subPools && subPools[s] == old(subPools)[s]
        invariant forall s :: s in subPools && s !in old(subPools) ==> fresh(subPools[s])
      {
        assert chunkSizes[..i + 1][..i] == chunkSizes[..i];
        AddPool(chunkSizes[i]);
        i := i + 1;
      }
      assert chunkSizes[..i] == chunkSizes;
    }

    /**
     * `sub_pools.insert({s, new SubPool(s)})`: the new pool is allocated in any case, and kept
     * only when no pool of that size exists.
     */
    method AddPool(s: nat)
      requires Coupled()
      modifies this`subPools, this`model
      ensures Coupled()
      ensures model == AddClass(old(model), s)
      ensures forall t :: t in old(subPools) ==> t in subPools && subPools[t] == old(subPools)[t]
      ensures forall t :: t in subPools && t !in old(subPools) ==> fresh(subPools[t])
    {
      var pool := new SubPool(s);
      if s !in subPools {
        subPools := subPools[s := pool];
      }
      model := AddClass(model, s);
    }

    /**
     * `sub_pools[cs]->Alloc()`: the pool of `cs` hands out its lowest free chunk, or nothing
     * and nothing changes.
     */
    method TakeFree(cs: nat) returns (r: Option<nat>)
      requires Coupled() && cs in subPools
      modifies this, subPools[cs]
      ensures Coupled()
      ensures chunkSizes == old(chunkSizes) && subPools == old(subPools)
      ensures r.None? <==> NoneFree(old(model).chunks[cs])
      ensures r.None? ==> model == old(model)
      ensures r.Some? ==> (r, model) == TakeStep(old(model), cs)
    {
      var pool := subPools[cs];
      r := pool.Alloc();
      if r.Some? {
        LowestFreeUnique(model.chunks[cs], r.value);
        model := TakeStep(model, cs).1;
      }
    }

    /**
     * Admits the freshly carved `chunk` to `pool` (`AddNewChunk`) and has the pool hand it out
     * (`SubPool::Alloc`): having no other free chunk, the pool returns exactly that one.
     */
    static method AdmitAndTake(pool: SubPool, chunk: nat) returns (r: Option<nat>)
      requires NoneFree(pool.chunks) && chunk !in pool.chunks
      modifies pool
      ensures r == Some(chunk)
      ensures pool.chunks == old(pool.chunks)[chunk := false]
      ensures pool.chunkCount == old(pool.chunkCount) + 1
    {
      var added := pool.AddNewChunk(chunk);
      assert pool.chunks[chunk] && forall p :: p in pool.chunks && pool.chunks[p] ==> p == chunk;
      r := pool.Alloc();
    }

    /**
     * The carve path of `Alloc` for class `cs`, whose pool has no free chunk: `std::align`
     * moves the cursor to the first aligned address with room for `cs` bytes; the chunk there is
     * admitted to the pool, the cursor moves past it, the pool hands it out and the register
     * records its owner. When nothing is left, or the aligned chunk does not fit, nothing
     * changes. (With `cs > 0` an empty buffer already makes `std::align` fail, so the
     * `available_size > 0` test only short-cuts that case.) The caller supplies what
     * CarveFresh proves: the chunk a carve finds is new.
     */
    method Carve(cs: nat) returns (r: Option<nat>)
      requires Coupled() && alignment > 0 && cs > 0 && cs in subPools
      requires NoneFree(subPools[cs].chunks)
      requires var c := CarveStep(model, alignment, cs).0;
        c.Some? ==> c.value !in model.layout.owner && c.value !in model.chunks[cs]
      modifies this, subPools[cs]
      ensures Coupled()
      ensures chunkSizes == old(chunkSizes) && subPools == old(subPools)
      ensures (r, model) == CarveStep(old(model), alignment, cs)
    {
      var pool := subPools[cs];
      r := None;
      if availableSize > 0 {
        var res := Align(alignment, cs, readBuffer, availableSize);
        if res.Some? {
          // std::align returns the aligned address and the room left from there
          var chunk, space := res.value.0, res.value.1;
          r := AdmitAndTake(pool, chunk);
          AdvanceCursor(chunk, cs, space, CarveStep(model, alignment, cs).1);
        }
      }
    }

    /**
     * The bookkeeping after a carve: the cursor moves past the `cs` bytes at `chunk`, which
     * `std::align` left with `space` bytes of room, and the register records the chunk's size;
     * `next` is the state as a value after the carve.
     */
    method AdvanceCursor(chunk: nat, cs: nat, space: nat, ghost next: PoolState)
      requires cs <= space
      modifies this`readBuffer, this`availableSize, this`subpoolRegister, this`model
      ensures readBuffer == chunk + cs && availableSize == space - cs
      ensures subpoolRegister == old(subpoolRegister)[chunk := cs] && model == next
    {
      readBuffer, availableSize := chunk + cs, space - cs;
      subpoolRegister := subpoolRegister[chunk := cs];
      model := next;
    }

    /**
     * `sub_pools[cs]->Alloc()` on a configured class, keeping the invariant: the lowest free
     * chunk is handed out, or nothing when the class has none.
     */
    method Reuse(cs: nat) returns (r: Option<nat>)
      requires Valid() && Ready() && cs in chunkSizes
      modifies this, subPools.Values
      ensures Valid() && Ready()
      ensures chunkSizes == old(chunkSizes) && subPools == old(subPools)
      ensures r.None? <==> NoneFree(old(model).chunks[cs])
      ensures r.None? ==> model == old(model)
      ensures r.Some? ==> (r, model) == TakeStep(old(model), cs)
    {
      if !NoneFree(model.chunks[cs]) {
        FlipKeepsConsistent(model, alignment, maxMemory, cs, LowestFree(model.chunks[cs]), false);
      }
      r := TakeFree(cs);
    }

    /** A carve for a configured class whose pool has no free chunk, keeping the invariant. */
    method CarveNew(cs: nat) returns (r: Option<nat>)
      requires Valid() && Ready() && cs in chunkSizes
      requires NoneFree(model.chunks[cs])
      modifies this, subPools.Values
      ensures Valid() && Ready()
      ensures chunkSizes == old(chunkSizes) && subPools == old(subPools)
      ensures (r, model) == CarveStep(old(model), alignment, cs)
    {
      CarveKeepsConsistent(model, alignment, maxMemory, cs);
      CarveFresh(model, alignment, maxMemory, cs);
      r := Carve(cs);
    }

    /**
     * `Alloc(size)` with the search stopping at the first class that fits: its lowest free
     * chunk is reused, otherwise a new chunk is carved (the intended loop, with a `break` after
     * a reuse as well as after a carve); None when no class fits.
     */
    method Alloc(size: nat) returns (r: Option<nat>)
      requires Valid() && Ready()
      modifies this, subPools.Values
      ensures Valid() && Ready()
      ensures chunkSizes == old(chunkSizes) && subPools == old(subPools)
      ensures (r, model) == AllocStep(old(model), chunkSizes, alignment, size)
    {
      var i := 0;
      while i < |chunkSizes| && chunkSizes[i] < size
        invariant 0 <= i <= |chunkSizes|
        invariant forall j :: 0 <= j < i ==> chunkSizes[j] < size
      {
        i := i + 1;
      }
      if i == |chunkSizes| {
        return None;
      }
      var cs := chunkSizes[i];
      FirstFitIndex(chunkSizes, size, i);
      assert cs in chunkSizes;
      r := Reuse(cs);
      if r.None? {
        r := CarveNew(cs);
      }
    }

    /**
     * The loop of `Alloc` as written: after a successful reuse there is no `break`, so every
     * larger class is tried as well and each reuse overwrites the pointer found before; the
     * first carve ends the call, with the new chunk (`break`) or nothing (`return nullptr`).
     */
    method AllocAsWritten(size: nat) returns (r: Option<nat>)
      requires Valid() && Ready()
      modifies this, subPools.Values
      ensures Valid() && Ready()
      ensures chunkSizes == old(chunkSizes) && subPools == old(subPools)
      ensures (r, model) == AllocAsWrittenStep(old(model), chunkSizes, alignment, size, None)
    {
      r := None;
      var i := 0;
      while i < |chunkSizes|
        invariant 0 <= i <= |chunkSizes|
        invariant Valid() && Ready()
        invariant chunkSizes == old(chunkSizes) && subPools == old(subPools)
        invariant AllocAsWrittenStep(model, chunkSizes[i..], alignment, size, r) ==
                  AllocAsWrittenStep(old(model), chunkSizes, alignment, size, None)
      {
        var cs := chunkSizes[i];
        assert cs in chunkSizes && chunkSizes[i..][1..] == chunkSizes[i + 1..];
        if size <= cs {
          r := Reuse(cs);
          if r.None? {
            r := CarveNew(cs);
            return;
          }
        }
        i := i + 1;
      }
    }

    /**
     * `Free(ptr)`: nullptr and unregistered addresses are refused; otherwise the owning pool
     * decides (`SubPool::Free`).
     */
    method Free(ptr: Option<nat>) returns (ok: bool)
      requires Valid()
      modifies this, subPools.Values
      ensures Valid() && (old(Ready()) ==> Ready())
      ensures chunkSizes == old(chunkSizes) && subPools == old(subPools)
      ensures subpoolRegister == old(subpoolRegister)
      ensures (ok, model) == FreeStep(old(model), ptr)
    {
      if ptr.None? {
        return false;
      }
      if ptr.value !in subpoolRegister {
        return false;
      }
      FreeKeepsConsistent(model, alignment, maxMemory, ptr);
      ok := ReleaseRegistered(ptr.value);
    }

    /** `it->second->Free(ptr)` for a registered chunk: its owning pool decides. */
    method ReleaseRegistered(p: nat) returns (ok: bool)
      requires Coupled() && p in subpoolRegister && subpoolRegister[p] in subPools
      modifies this, subPools[subpoolRegister[p]]
      ensures Coupled()
      ensures chunkSizes == old(chunkSizes) && subPools == old(subPools)
      ensures subpoolRegister == old(subpoolRegister)
      ensures (ok, model) == FreeStep(old(model), Some(p))
    {
      var pool := subPools[subpoolRegister[p]];
      ok := pool.Free(p);
      model := FreeStep(model, Some(p)).1;
    }

    /**
     * `DumpStats`, returned instead of printed: per chunk size, the pool's `chunk_count`
     * and its `getNumUnfreedChunks`, walking the pools in ascending size; changes nothing.
     */
    method DumpStats() returns (stats: map<nat, PoolStats>)
      requires Valid()
      ensures stats == StatsOf(model)
    {
      stats := CollectStats();
    }

    /** The walk of `DumpStats` over the pools, which needs only the coupling. */
    method CollectStats() returns (stats: map<nat, PoolStats>)
      requires Coupled()
      ensures stats == StatsOf(model)
    {
      stats := map[];
      var unvisited := subPools.Keys;
      while unvisited != {}
        invariant unvisited <= subPools.Keys
        invariant forall s :: s in stats <==> s in subPools && s !in unvisited
        invariant forall s :: s in stats ==>
          stats[s] == PoolStats(model.counts[s], Unfreed(model.chunks[s]))
        decreases |unvisited|
      {
        var s := LeastKey(unvisited);
        var pool := subPools[s];
        var unfreed := pool.NumUnfreedChunks();
        stats := stats[s := PoolStats(pool.NumChunks(), unfreed)];
        unvisited := unvisited - {s};
      }
    }
  }
}
