/**
 * The allocator's bookkeeping as plain values, and one function per MemPool operation saying
 * what the operation does to it. The MemPool class is proved to follow these functions; the
 * properties of the allocator (alignment, disjointness, no chunk handed out twice, what a
 * release undoes, the counters of DumpStats) are proved here, on values.
 */
module PoolStates {

  import opened Wrappers
  import opened Alignment
  import opened ChunkSizes
  import opened SubPools
  import opened Carving

  /** One line of `DumpStats`: chunks ever added to a class and chunks of it in use. */
  datatype PoolStats = PoolStats(chunkCount: nat, unfreed: nat)

  /**
   * `layout`: the cursor, the room left and the size of every registered chunk (a SubPool is
   * identified by its chunk size, so this is also the class the register sends the chunk to);
   * `chunks`: each class's map from chunk address to "is free"; `counts`: each class's
   * `chunk_count`.
   */
  datatype PoolState = PoolState(layout: Layout, chunks: map<nat, map<nat, bool>>, counts: map<nat, nat>)

  /**
   * The register and the pools agree: every registered chunk sits in the pool of its own
   * size, and every chunk of a pool is registered to that pool.
   */
  ghost predicate Agree(chunks: map<nat, map<nat, bool>>, owner: map<nat, nat>)
  {
    (forall p :: p in owner ==> owner[p] in chunks && p in chunks[owner[p]]) &&
    (forall s, p {:trigger chunks[s][p]} :: s in chunks && p in chunks[s] ==> p in owner && owner[p] == s)
  }

  /**
   * The number of chunks of a pool, counted one key at a time; CountIsSize shows it is `|m|`.
   * Stating the invariant with it keeps map cardinalities out of the proofs that do not
   * need them.
   */
  ghost function Count(m: map<nat, bool>): nat
    decreases |m|
  {
    if m.Keys == {} then 0 else 1 + Count(m - {Least(m.Keys)})
  }

  lemma {:induction false} CountIsSize(m: map<nat, bool>)
    ensures Count(m) == |m|
    decreases |m|
  {
    if m.Keys != {} {
      CountIsSize(m - {Least(m.Keys)});
    }
  }

  /** Every pool's `chunk_count` is the number of chunks it holds. */
  ghost predicate Counted(counts: map<nat, nat>, chunks: map<nat, map<nat, bool>>)
  {
    counts.Keys == chunks.Keys && forall s :: s in counts ==> counts[s] == Count(chunks[s])
  }

  /**
   * What every MemPool operation keeps: the layout is sound, every class is a positive
   * multiple of the alignment, the counts are right and the register agrees with the pools.
   */
  ghost predicate Consistent(st: PoolState, alignment: nat, maxMemory: nat)
    requires alignment > 0
  {
    Sound(st.layout, alignment, maxMemory) &&
    (forall s :: s in st.chunks ==> s > 0 && IsMultiple(s, alignment)) &&
    Counted(st.counts, st.chunks) &&
    Agree(st.chunks, st.layout.owner)
  }

  /** Every configured size has a pool: `sub_pools[chunk_size]` finds one. */
  predicate Serves(st: PoolState, sizes: seq<nat>)
  {
    forall s :: s in sizes ==> s in st.chunks && s in st.counts
  }

  /** Sets the flag of chunk `p` in pool `s`, adding the chunk when it is not there. */
  function SetFlag(chunks: map<nat, map<nat, bool>>, s: nat, p: nat, flag: bool)
    : (r: map<nat, map<nat, bool>>)
    requires s in chunks
    ensures r.Keys == chunks.Keys
    ensures r[s] == chunks[s][p := flag]
    ensures forall t :: t in chunks && t != s ==> r[t] == chunks[t]
  {
    var inner: map<nat, bool> := chunks[s][p := flag];
    chunks[s := inner]
  }

  /** Admitting an unregistered chunk to pool `s` and registering it there keeps the agreement. */
  lemma AdmitKeepsAgree(chunks: map<nat, map<nat, bool>>, owner: map<nat, nat>,
                        s: nat, chunk: nat, flag: bool)
    requires Agree(chunks, owner) && s in chunks && chunk !in owner
    ensures Agree(SetFlag(chunks, s, chunk, flag), owner[chunk := s])
  {
    var chunks' := SetFlag(chunks, s, chunk, flag);
    forall t, p | t in chunks' && p in chunks'[t]
      ensures p in owner[chunk := s] && owner[chunk := s][p] == t
    {
      if p != chunk {
        assert p in chunks[t];
      } else if t != s {
        assert false;
      }
    }
  }

  /** Changing the flag of a chunk a pool already holds keeps the agreement. */
  lemma FlipKeepsAgree(chunks: map<nat, map<nat, bool>>, owner: map<nat, nat>,
                       s: nat, p: nat, flag: bool)
    requires Agree(chunks, owner) && s in chunks && p in chunks[s]
    ensures Agree(SetFlag(chunks, s, p, flag), owner)
  {
  }

  // ---------------------------------------------------------------------------------------
  // The operations.

  /** `SubPool::Alloc` on pool `cs` when it has a free chunk: the lowest one is marked used. */
  ghost function TakeStep(st: PoolState, cs: nat): (Option<nat>, PoolState)
    requires cs in st.chunks && !NoneFree(st.chunks[cs])
  {
    var p := LowestFree(st.chunks[cs]);
    (Some(p), st.(chunks := SetFlag(st.chunks, cs, p, false)))
  }

  /**
   * The carve path of `MemPool::Alloc` for class `cs`: `std::align` from the cursor; the chunk
   * found is admitted to the pool (`AddNewChunk`), counted, handed out and registered.
   */
  function CarveStep(st: PoolState, alignment: nat, cs: nat): (Option<nat>, PoolState)
    requires alignment > 0 && cs in st.chunks && cs in st.counts
  {
    match CarveChunk(st.layout, alignment, cs)
    case None => (None, st)
    case Some((chunk, l)) =>
      (Some(chunk), PoolState(l, SetFlag(st.chunks, cs, chunk, false), st.counts[cs := st.counts[cs] + 1]))
  }

  /**
   * `MemPool::Alloc(size)` with the search stopping at the first class that fits: reuse that
   * class's lowest free chunk, otherwise carve a new one; None when no class fits.
   */
  ghost function AllocStep(st: PoolState, sizes: seq<nat>, alignment: nat, size: nat)
    : (Option<nat>, PoolState)
    requires alignment > 0 && Serves(st, sizes)
  {
    match FirstFit(sizes, size)
    case None => (None, st)
    case Some(cs) =>
      if NoneFree(st.chunks[cs]) then CarveStep(st, alignment, cs) else TakeStep(st, cs)
  }

  /**
   * The loop of `MemPool::Alloc` as written: it goes on through every class that fits after a
   * successful reuse (no `break` there), each reuse overwriting the pointer found before; it
   * ends at the first carve, whether that succeeds (`break`) or fails (`return nullptr`).
   */
  ghost function AllocAsWrittenStep(st: PoolState, sizes: seq<nat>, alignment: nat, size: nat,
                                    found: Option<nat>): (Option<nat>, PoolState)
    requires alignment > 0 && Serves(st, sizes)
    decreases |sizes|
  {
    if sizes == [] then (found, st)
    else if size > sizes[0] then AllocAsWrittenStep(st, sizes[1..], alignment, size, found)
    else if NoneFree(st.chunks[sizes[0]]) then CarveStep(st, alignment, sizes[0])
    else
      var (p, st') := TakeStep(st, sizes[0]);
      AllocAsWrittenStep(st', sizes[1..], alignment, size, p)
  }

  /**
   * `MemPool::Free(ptr)`: nullptr and unregistered addresses are refused; otherwise the owning
   * pool's `SubPool::Free` decides, refusing a chunk it does not hold or one already free.
   */
  function FreeStep(st: PoolState, ptr: Option<nat>): (bool, PoolState)
  {
    match ptr
    case None => (false, st)
    case Some(p) =>
      if p !in st.layout.owner then (false, st)
      else
        var cs := st.layout.owner[p];
        if cs in st.chunks && p in st.chunks[cs] && !st.chunks[cs][p] then
          (true, st.(chunks := SetFlag(st.chunks, cs, p, true)))
        else (false, st)
  }

  /** `DumpStats` as data: per class, the chunks ever added and the chunks in use. */
  function StatsOf(st: PoolState): map<nat, PoolStats>
  {
    map s | s in st.chunks && s in st.counts :: PoolStats(st.counts[s], Unfreed(st.chunks[s]))
  }

  /** The pool construction of `Initialize` for one size: a new empty SubPool unless one exists. */
  function AddClass(st: PoolState, s: nat): PoolState
  {
    if s in st.chunks then st
    else PoolState(st.layout, st.chunks[s := map[]], st.counts[s := 0])
  }

  /** The pool construction loop of `Initialize`, over the sizes in order. */
  function AddClasses(st: PoolState, sizes: seq<nat>): PoolState
    decreases |sizes|
  {
    if sizes == [] then st else AddClass(AddClasses(st, sizes[..|sizes| - 1]), sizes[|sizes| - 1])
  }

  // ---------------------------------------------------------------------------------------
  // Every operation keeps the state consistent.

  /** A flag change leaves the number of chunks, and so every count, as it was. */
  lemma FlipKeepsCounted(counts: map<nat, nat>, chunks: map<nat, map<nat, bool>>,
                         s: nat, p: nat, flag: bool)
    requires Counted(counts, chunks) && s in chunks && p in chunks[s]
    ensures Counted(counts, SetFlag(chunks, s, p, flag))
  {
    CountIsSize(chunks[s]);
    CountIsSize(chunks[s][p := flag]);
    assert |chunks[s][p := flag]| == |chunks[s]|;
  }

  /** Admitting a new chunk to pool `s` goes with counting it there. */
  lemma AdmitKeepsCounted(counts: map<nat, nat>, chunks: map<nat, map<nat, bool>>,
                          s: nat, chunk: nat, flag: bool)
    requires Counted(counts, chunks) && s in chunks && chunk !in chunks[s]
    ensures Counted(counts[s := counts[s] + 1], SetFlag(chunks, s, chunk, flag))
  {
    CountIsSize(chunks[s]);
    CountIsSize(chunks[s][chunk := flag]);
    assert |chunks[s][chunk := flag]| == |chunks[s]| + 1;
  }

  lemma FlipKeepsConsistent(st: PoolState, alignment: nat, maxMemory: nat, s: nat, p: nat, flag: bool)
    requires alignment > 0 && Consistent(st, alignment, maxMemory)
    requires s in st.chunks && p in st.chunks[s]
    ensures Consistent(st.(chunks := SetFlag(st.chunks, s, p, flag)), alignment, maxMemory)
  {
    FlipKeepsAgree(st.chunks, st.layout.owner, s, p, flag);
    FlipKeepsCounted(st.counts, st.chunks, s, p, flag);
  }

  /**
   * A carve keeps the state consistent and touches no class but `cs`; the chunk it returns
   * is new: not registered and not in the pool.
   */
  lemma CarveKeepsConsistent(st: PoolState, alignment: nat, maxMemory: nat, cs: nat)
    requires alignment > 0 && Consistent(st, alignment, maxMemory)
    requires cs in st.chunks && cs in st.counts
    ensures var (r, st') := CarveStep(st, alignment, cs);
      Consistent(st', alignment, maxMemory) &&
      st'.chunks.Keys == st.chunks.Keys && st'.counts.Keys == st.counts.Keys &&
      (forall t :: t in st.chunks && t != cs ==> st'.chunks[t] == st.chunks[t]) &&
      (r.Some? ==> r.value !in st.layout.owner && r.value !in st.chunks[cs])
  {
    match CarveChunk(st.layout, alignment, cs)
    case None =>
    case Some((chunk, l)) =>
      CarveKeepsSound(st.layout, alignment, maxMemory, cs);
      assert chunk !in st.chunks[cs];
      AdmitKeepsAgree(st.chunks, st.layout.owner, cs, chunk, false);
      AdmitKeepsCounted(st.counts, st.chunks, cs, chunk, false);
  }

  /** The chunk a carve hands out is new: it is neither registered nor in the pool. */
  lemma CarveFresh(st: PoolState, alignment: nat, maxMemory: nat, cs: nat)
    requires alignment > 0 && Sound(st.layout, alignment, maxMemory)
    requires Agree(st.chunks, st.layout.owner)
    requires cs > 0 && cs in st.chunks && cs in st.counts
    ensures var r := CarveStep(st, alignment, cs).0;
      r.Some? ==> r.value !in st.layout.owner && r.value !in st.chunks[cs]
  {
  }

  lemma AllocKeepsConsistent(st: PoolState, sizes: seq<nat>, alignment: nat, maxMemory: nat, size: nat)
    requires alignment > 0 && Consistent(st, alignment, maxMemory) && Serves(st, sizes)
    ensures var st' := AllocStep(st, sizes, alignment, size).1;
      Consistent(st', alignment, maxMemory) && Serves(st', sizes)
  {
    match FirstFit(sizes, size)
    case None =>
    case Some(cs) =>
      if NoneFree(st.chunks[cs]) {
        CarveKeepsConsistent(st, alignment, maxMemory, cs);
      } else {
        FlipKeepsConsistent(st, alignment, maxMemory, cs, LowestFree(st.chunks[cs]), false);
      }
  }

  lemma FreeKeepsConsistent(st: PoolState, alignment: nat, maxMemory: nat, ptr: Option<nat>)
    requires alignment > 0 && Consistent(st, alignment, maxMemory)
    ensures var st' := FreeStep(st, ptr).1;
      Consistent(st', alignment, maxMemory) && st'.chunks.Keys == st.chunks.Keys &&
      st'.counts == st.counts
  {
    if ptr.Some? && ptr.value in st.layout.owner {
      var p := ptr.value;
      var cs := st.layout.owner[p];
      if cs in st.chunks && p in st.chunks[cs] && !st.chunks[cs][p] {
        FlipKeepsConsistent(st, alignment, maxMemory, cs, p, true);
      }
    }
  }

  lemma AddClassKeepsAgree(chunks: map<nat, map<nat, bool>>, owner: map<nat, nat>, s: nat)
    requires Agree(chunks, owner) && s !in chunks
    ensures Agree(chunks[s := map[]], owner)
  {
  }

  /** A new class starts with no chunks and a zero count, and the rest is untouched. */
  lemma AddClassKeepsConsistent(st: PoolState, s: nat, alignment: nat, maxMemory: nat)
    requires alignment > 0 && Consistent(st, alignment, maxMemory)
    requires s > 0 && IsMultiple(s, alignment)
    ensures Consistent(AddClass(st, s), alignment, maxMemory)
  {
    if s !in st.chunks {
      AddClassKeepsAgree(st.chunks, st.layout.owner, s);
      assert Count(map[]) == 0;
    }
  }

  /**
   * The pool construction of `Initialize` gives every size a pool, keeps the existing pools
   * and leaves the carved layout alone.
   */
  lemma {:induction false} AddClassesShape(st: PoolState, sizes: seq<nat>)
    requires st.counts.Keys == st.chunks.Keys
    ensures var st' := AddClasses(st, sizes);
      st'.chunks.Keys == st.chunks.Keys + Elems(sizes) && st'.counts.Keys == st'.chunks.Keys &&
      Serves(st', sizes) && st'.layout == st.layout &&
      (forall s :: s in st.chunks ==> st'.chunks[s] == st.chunks[s] && st'.counts[s] == st.counts[s])
    decreases |sizes|
  {
    if sizes != [] {
      var init, s := sizes[..|sizes| - 1], sizes[|sizes| - 1];
      assert sizes == init + [s];
      assert Elems(sizes) == Elems(init) + {s};
      AddClassesShape(st, init);
    }
  }

  lemma {:induction false} AddClassesKeepsConsistent(st: PoolState, sizes: seq<nat>,
                                                     alignment: nat, maxMemory: nat)
    requires alignment > 0 && Consistent(st, alignment, maxMemory)
    requires forall s :: s in sizes ==> s > 0 && IsMultiple(s, alignment)
    ensures Consistent(AddClasses(st, sizes), alignment, maxMemory)
    decreases |sizes|
  {
    if sizes != [] {
      var init, s := sizes[..|sizes| - 1], sizes[|sizes| - 1];
      assert sizes == init + [s];
      assert s in sizes && forall x :: x in init ==> x in sizes;
      AddClassesKeepsConsistent(st, init, alignment, maxMemory);
      AddClassKeepsConsistent(AddClasses(st, init), s, alignment, maxMemory);
    }
  }

  // ---------------------------------------------------------------------------------------
  // What Alloc hands out.

  /**
   * Every registered chunk is aligned, lies inside the buffer and overlaps no other
   * registered chunk.
   */
  lemma RegisteredChunkPlacement(st: PoolState, alignment: nat, maxMemory: nat, p: nat)
    requires alignment > 0 && Consistent(st, alignment, maxMemory) && p in st.layout.owner
    ensures var n := st.layout.owner[p];
      IsMultiple(p, alignment) &&
      st.layout.buffer <= p && p + n <= st.layout.buffer + maxMemory &&
      forall q :: q in st.layout.owner && q != p ==> q + st.layout.owner[q] <= p || p + n <= q
  {
    var owner := st.layout.owner;
    forall q | q in owner && q != p
      ensures q + owner[q] <= p || p + owner[p] <= q
    {
      if q < p {
        assert EndsBefore(st.layout, q, p);
      } else {
        assert EndsBefore(st.layout, p, q);
      }
    }
  }

  /**
   * A chunk returned by Alloc is registered to the smallest class that fits the request and
   * is now in use; it was free or new before: no chunk is handed out twice. (Where it lies is
   * RegisteredChunkPlacement.)
   */
  lemma AllocReturnsFreeFittingChunk(st: PoolState, sizes: seq<nat>, alignment: nat,
                                     maxMemory: nat, size: nat)
    requires alignment > 0 && Consistent(st, alignment, maxMemory) && Serves(st, sizes)
    ensures var (r, st') := AllocStep(st, sizes, alignment, size);
      r.Some? ==>
        var p := r.value;
        p in st'.layout.owner &&
        var cs := st'.layout.owner[p];
        FirstFit(sizes, size) == Some(cs) && size <= cs &&
        cs in st'.chunks && p in st'.chunks[cs] && !st'.chunks[cs][p] &&
        (p in st.layout.owner ==> st.chunks[cs][p])
  {
  }

  /**
   * Alloc fails exactly when no class fits, or when the class that fits has no free chunk and
   * the aligned chunk does not fit in what is left of the buffer; a failed Alloc changes
   * nothing.
   */
  lemma AllocFailsOnlyWhenExhausted(st: PoolState, sizes: seq<nat>, alignment: nat, size: nat)
    requires alignment > 0 && Serves(st, sizes)
    ensures var (r, st') := AllocStep(st, sizes, alignment, size);
      (r.None? <==>
        FirstFit(sizes, size).None? ||
        (NoneFree(st.chunks[FirstFit(sizes, size).value]) &&
         Padding(alignment, st.layout.cursor) + FirstFit(sizes, size).value > st.layout.available)) &&
      (r.None? ==> st' == st)
  {
  }

  /**
   * A free chunk is reused before any memory is carved: the cursor does not move and the
   * chunk handed out is the lowest free one of the class.
   */
  lemma AllocReusesBeforeCarving(st: PoolState, sizes: seq<nat>, alignment: nat, size: nat)
    requires alignment > 0 && Serves(st, sizes)
    requires FirstFit(sizes, size).Some? && !NoneFree(st.chunks[FirstFit(sizes, size).value])
    ensures var (r, st') := AllocStep(st, sizes, alignment, size);
      r.Some? && IsLowestFree(st.chunks[FirstFit(sizes, size).value], r.value) &&
      st'.layout == st.layout && st'.counts == st.counts
  {
  }

  /**
   * Only the smallest class that fits is touched: a successful Alloc keeps the set of
   * classes, leaves every other class's flags as they were, and changes the chosen class only
   * by flagging the returned chunk used (whether it was reused or newly carved).
   */
  lemma AllocTouchesOnlyItsClass(st: PoolState, sizes: seq<nat>, alignment: nat, maxMemory: nat,
                                 size: nat)
    requires alignment > 0 && Consistent(st, alignment, maxMemory) && Serves(st, sizes)
    ensures var (r, st') := AllocStep(st, sizes, alignment, size);
      r.Some? ==>
        FirstFit(sizes, size).Some? &&
        var cs := FirstFit(sizes, size).value;
        st'.chunks.Keys == st.chunks.Keys &&
        (forall t :: t in st.chunks && t != cs ==> st'.chunks[t] == st.chunks[t]) &&
        st'.chunks[cs] == st.chunks[cs][r.value := false]
  {
  }

  /**
   * Register entries are added only at carve time and never removed: Alloc keeps every
   * registered chunk with its owner, the only new entry is the chunk it returns, and no
   * class's `chunk_count` goes down.
   */
  lemma AllocOnlyRegistersItsChunk(st: PoolState, sizes: seq<nat>, alignment: nat, maxMemory: nat,
                                   size: nat)
    requires alignment > 0 && Consistent(st, alignment, maxMemory) && Serves(st, sizes)
    ensures var (r, st') := AllocStep(st, sizes, alignment, size);
      (forall p :: p in st.layout.owner ==>
        p in st'.layout.owner && st'.layout.owner[p] == st.layout.owner[p]) &&
      (forall p :: p in st'.layout.owner && p !in st.layout.owner ==> r == Some(p)) &&
      (forall s :: s in st.counts ==> s in st'.counts && st.counts[s] <= st'.counts[s])
  {
    match FirstFit(sizes, size)
    case None =>
    case Some(cs) =>
      if NoneFree(st.chunks[cs]) {
        CarveFresh(st, alignment, maxMemory, cs);
      }
  }

  // ---------------------------------------------------------------------------------------
  // What Free undoes.

  /** nullptr, an address that was never handed out, and a chunk already free are refused. */
  lemma FreeRefuses(st: PoolState, alignment: nat, maxMemory: nat, ptr: Option<nat>)
    requires alignment > 0 && Consistent(st, alignment, maxMemory)
    ensures var (ok, st') := FreeStep(st, ptr);
      (ok <==> ptr.Some? && ptr.value in st.layout.owner &&
               !st.chunks[st.layout.owner[ptr.value]][ptr.value]) &&
      (!ok ==> st' == st)
  {
  }

  /** Freeing the same chunk twice: the second release is refused and changes nothing. */
  lemma DoubleFreeRefused(st: PoolState, p: nat)
    ensures var (ok, st') := FreeStep(st, Some(p));
      ok ==> FreeStep(st', Some(p)) == (false, st')
  {
  }

  /** Setting a flag back to the value it had gives the maps back. */
  lemma SetFlagRestores(chunks: map<nat, map<nat, bool>>, s: nat, p: nat, flag: bool)
    requires s in chunks && p in chunks[s] && chunks[s][p] == flag
    ensures SetFlag(SetFlag(chunks, s, p, !flag), s, p, flag) == chunks
  {
    var back := SetFlag(SetFlag(chunks, s, p, !flag), s, p, flag);
    assert back[s] == chunks[s];
  }

  /** Releasing the chunk a reuse handed out restores the state exactly. */
  lemma TakeThenFree(st: PoolState, alignment: nat, maxMemory: nat, cs: nat)
    requires alignment > 0 && Consistent(st, alignment, maxMemory)
    requires cs in st.chunks && !NoneFree(st.chunks[cs])
    ensures var (r, st1) := TakeStep(st, cs);
      FreeStep(st1, r) == (true, st)
  {
    var p := LowestFree(st.chunks[cs]);
    assert p in st.chunks[cs] && st.chunks[cs][p];
    assert st.layout.owner[p] == cs;
    SetFlagRestores(st.chunks, cs, p, true);
  }

  /** Releasing a freshly carved chunk leaves it free in its pool; the layout stays carved. */
  lemma CarveThenFree(st: PoolState, alignment: nat, cs: nat)
    requires alignment > 0 && cs in st.chunks && cs in st.counts
    ensures var (r, st1) := CarveStep(st, alignment, cs);
      r.Some? ==>
        var (ok, st2) := FreeStep(st1, r);
        ok && st2.layout == st1.layout && st2.counts == st1.counts &&
        st2.chunks[cs] == st.chunks[cs][r.value := true]
  {
  }

  /**
   * Every chunk Alloc hands out can be released once; releasing a reused chunk restores the
   * state exactly, releasing a carved one leaves it free in its pool for the next request.
   */
  lemma AllocThenFree(st: PoolState, sizes: seq<nat>, alignment: nat, maxMemory: nat, size: nat)
    requires alignment > 0 && Consistent(st, alignment, maxMemory) && Serves(st, sizes)
    ensures var (r, st1) := AllocStep(st, sizes, alignment, size);
      r.Some? ==>
        var (ok, st2) := FreeStep(st1, r);
        var cs := FirstFit(sizes, size).value;
        ok && st2.layout == st1.layout && st2.counts == st1.counts &&
        (!NoneFree(st.chunks[cs]) ==> st2 == st) &&
        (NoneFree(st.chunks[cs]) ==> st2.chunks[cs] == st.chunks[cs][r.value := true])
  {
    match FirstFit(sizes, size)
    case None =>
    case Some(cs) =>
      if NoneFree(st.chunks[cs]) {
        CarveThenFree(st, alignment, cs);
      } else {
        TakeThenFree(st, alignment, maxMemory, cs);
      }
  }

  /**
   * After a chunk is released, the next request served by its class reuses a chunk (the
   * released one when it was the only free chunk) instead of carving new memory.
   */
  lemma FreedChunkIsReused(st: PoolState, sizes: seq<nat>, alignment: nat, maxMemory: nat,
                           p: nat, size: nat)
    requires alignment > 0 && Consistent(st, alignment, maxMemory) && Serves(st, sizes)
    requires FreeStep(st, Some(p)).0
    requires FirstFit(sizes, size) == Some(st.layout.owner[p])
    ensures var st1 := FreeStep(st, Some(p)).1;
      var (r, st2) := AllocStep(st1, sizes, alignment, size);
      r.Some? && r.value <= p && st2.layout == st.layout &&
      (NoneFree(st.chunks[st.layout.owner[p]]) ==> r == Some(p) && st2 == st)
  {
    var cs := st.layout.owner[p];
    var st1 := FreeStep(st, Some(p)).1;
    assert st1.chunks[cs][p];
    var q := LowestFree(st1.chunks[cs]);
    if NoneFree(st.chunks[cs]) {
      assert IsLowestFree(st1.chunks[cs], p);
      LowestFreeUnique(st1.chunks[cs], p);
      assert st1.chunks[cs][p := false] == st.chunks[cs];
      assert SetFlag(st1.chunks, cs, p, false) == st.chunks;
    }
  }

  // ---------------------------------------------------------------------------------------
  // Requests in a row.

  /** Alloc never removes a pool, so a configuration it serves stays served. */
  lemma AllocKeepsServes(st: PoolState, sizes: seq<nat>, alignment: nat, size: nat)
    requires alignment > 0 && Serves(st, sizes)
    ensures Serves(AllocStep(st, sizes, alignment, size).1, sizes)
  {
  }

  /** `n` calls of `Alloc(size)` in a row; None when one of them returns nullptr. */
  ghost function AllocRepeat(st: PoolState, sizes: seq<nat>, alignment: nat, size: nat, n: nat)
    : (after: Option<PoolState>)
    requires alignment > 0 && Serves(st, sizes)
    ensures after.Some? ==> Serves(after.value, sizes)
    decreases n
  {
    if n == 0 then Some(st)
    else
      var (r, st1) := AllocStep(st, sizes, alignment, size);
      if r.None? then None
      else
        AllocKeepsServes(st, sizes, alignment, size);
        AllocRepeat(st1, sizes, alignment, size, n - 1)
  }

  /**
   * While the class serving `size` has no free chunk, consecutive requests all carve: they
   * succeed as long as the carves fit, they move the layout exactly as that many carves do,
   * and every other class is left alone.
   */
  lemma {:induction false} AllocsCarveInARow(st: PoolState, sizes: seq<nat>, alignment: nat,
                                             size: nat, cs: nat, n: nat)
    requires alignment > 0 && Serves(st, sizes)
    requires FirstFit(sizes, size) == Some(cs) && NoneFree(st.chunks[cs])
    requires CarveRepeat(st.layout, alignment, cs, n).Some?
    ensures AllocRepeat(st, sizes, alignment, size, n).Some?
    ensures AllocRepeat(st, sizes, alignment, size, n).value.layout == CarveRepeat(st.layout, alignment, cs, n).value
    ensures NoneFree(AllocRepeat(st, sizes, alignment, size, n).value.chunks[cs])
    ensures forall t :: t in st.chunks && t != cs ==>
      t in AllocRepeat(st, sizes, alignment, size, n).value.chunks &&
      AllocRepeat(st, sizes, alignment, size, n).value.chunks[t] == st.chunks[t]
    decreases n
  {
    if n > 0 {
      AllocCarves(st, sizes, alignment, size, cs);
      var st1 := AllocStep(st, sizes, alignment, size).1;
      AllocsCarveInARow(st1, sizes, alignment, size, cs, n - 1);
    }
  }

  /** One request whose class has no free chunk and whose carve fits: the carve path, taken. */
  lemma AllocCarves(st: PoolState, sizes: seq<nat>, alignment: nat, size: nat, cs: nat)
    requires alignment > 0 && Serves(st, sizes)
    requires FirstFit(sizes, size) == Some(cs) && NoneFree(st.chunks[cs])
    requires CarveChunk(st.layout, alignment, cs).Some?
    ensures var (r, st1) := AllocStep(st, sizes, alignment, size);
      r.Some? && Serves(st1, sizes) && st1.layout == CarveChunk(st.layout, alignment, cs).value.1 &&
      cs in st1.chunks && NoneFree(st1.chunks[cs]) &&
      forall t :: t in st.chunks && t != cs ==> t in st1.chunks && st1.chunks[t] == st.chunks[t]
  {
    assert cs in sizes;
  }

  /**
   * The overload scenario of the tests: in a 2048-byte pool with classes 64, 128 and 256,
   * alignment 8, an aligned cursor and no free chunk in classes 64 and 256, eight requests
   * of 256 bytes all succeed and the following request of 20 bytes fails.
   */
  lemma AllocOverload(st: PoolState)
    requires Serves(st, [64, 128, 256])
    requires st.layout.available == 2048 && IsMultiple(st.layout.cursor, 8)
    requires NoneFree(st.chunks[256]) && NoneFree(st.chunks[64])
    ensures AllocRepeat(st, [64, 128, 256], 8, 256, 8).Some?
    ensures AllocStep(AllocRepeat(st, [64, 128, 256], 8, 256, 8).value, [64, 128, 256], 8, 20).0.None?
  {
    var sizes: seq<nat> := [64, 128, 256];
    assert FirstFit(sizes, 256) == Some(256);
    assert FirstFit(sizes, 20) == Some(64);
    IsMultipleIff(256, 8);
    TightCarvesFill(st.layout, 8, 256, 8);
    AllocsCarveInARow(st, sizes, 8, 256, 256, 8);
    var st8 := AllocRepeat(st, sizes, 8, 256, 8).value;
    assert st8.chunks[64] == st.chunks[64];
    assert CarveChunk(st8.layout, 8, 64).None?;
  }

  // ---------------------------------------------------------------------------------------
  // DumpStats.

  /** Per class, the chunks in use never outnumber the chunks ever added. */
  lemma StatsBounded(st: PoolState, alignment: nat, maxMemory: nat)
    requires alignment > 0 && Consistent(st, alignment, maxMemory)
    ensures StatsOf(st).Keys == st.chunks.Keys
    ensures forall s :: s in StatsOf(st) ==> StatsOf(st)[s].unfreed <= StatsOf(st)[s].chunkCount
  {
    forall s | s in StatsOf(st)
      ensures StatsOf(st)[s].unfreed <= StatsOf(st)[s].chunkCount
    {
      CountIsSize(st.chunks[s]);
    }
  }

  /** A successful Alloc puts one more chunk of its class in use; the other classes keep theirs. */
  lemma AllocCountsOneMore(st: PoolState, sizes: seq<nat>, alignment: nat, maxMemory: nat, size: nat)
    requires alignment > 0 && Consistent(st, alignment, maxMemory) && Serves(st, sizes)
    ensures var (r, st') := AllocStep(st, sizes, alignment, size);
      r.Some? ==>
        var cs := FirstFit(sizes, size).value;
        StatsOf(st').Keys == StatsOf(st).Keys &&
        StatsOf(st')[cs].unfreed == StatsOf(st)[cs].unfreed + 1 &&
        StatsOf(st')[cs].chunkCount == StatsOf(st)[cs].chunkCount + (if NoneFree(st.chunks[cs]) then 1 else 0) &&
        (forall t :: t in StatsOf(st) && t != cs ==> StatsOf(st')[t] == StatsOf(st)[t])
  {
    var (r, st') := AllocStep(st, sizes, alignment, size);
    if r.Some? {
      var cs := FirstFit(sizes, size).value;
      if NoneFree(st.chunks[cs]) {
        CarveFresh(st, alignment, maxMemory, cs);
        UnfreedAddUsed(st.chunks[cs], r.value);
      } else {
        UnfreedMarkUsed(st.chunks[cs], r.value);
      }
    }
  }

  /** A successful Free puts one chunk fewer of its class in use. */
  lemma FreeCountsOneLess(st: PoolState, alignment: nat, maxMemory: nat, p: nat)
    requires alignment > 0 && Consistent(st, alignment, maxMemory)
    ensures var (ok, st') := FreeStep(st, Some(p));
      ok ==>
        var cs := st.layout.owner[p];
        StatsOf(st').Keys == StatsOf(st).Keys &&
        StatsOf(st')[cs].unfreed + 1 == StatsOf(st)[cs].unfreed &&
        (forall t :: t in StatsOf(st) && t != cs ==> StatsOf(st')[t] == StatsOf(st)[t])
  {
    var (ok, st') := FreeStep(st, Some(p));
    if ok {
      UnfreedMarkFree(st.chunks[st.layout.owner[p]], p);
    }
  }

  // ---------------------------------------------------------------------------------------
  // The loop as written against the intended one.

  /**
   * Once a chunk `q` of class `cs` has been taken, the classes after `cs` never return `q`
   * and leave the pool of `cs` as it is.
   */
  lemma {:induction false} AsWrittenTail(st: PoolState, sizes: seq<nat>, alignment: nat,
                                         maxMemory: nat, size: nat, found: Option<nat>,
                                         cs: nat, q: nat)
    requires alignment > 0 && Sound(st.layout, alignment, maxMemory)
    requires Agree(st.chunks, st.layout.owner) && Serves(st, sizes)
    requires sizes != []
    requires forall s :: s in sizes ==> size <= s && cs < s
    requires cs in st.chunks && q in st.chunks[cs]
    ensures var (r, st') := AllocAsWrittenStep(st, sizes, alignment, size, found);
      r != Some(q) && cs in st'.chunks && st'.chunks[cs] == st.chunks[cs]
    decreases |sizes|
  {
    var s0 := sizes[0];
    assert s0 in sizes;
    assert st.layout.owner[q] == cs;
    if NoneFree(st.chunks[s0]) {
      CarveFresh(st, alignment, maxMemory, s0);
    } else {
      var (p, st1) := TakeStep(st, s0);
      assert p.value in st.chunks[s0];
      assert st.layout.owner[p.value] == s0;
      FlipKeepsAgree(st.chunks, st.layout.owner, s0, p.value, false);
      if sizes[1..] != [] {
        assert forall s :: s in sizes[1..] ==> s in sizes;
        AsWrittenTail(st1, sizes[1..], alignment, maxMemory, size, p, cs, q);
      }
    }
  }

  /**
   * The finding: when the class that fits has a free chunk and a larger class exists, the
   * loop as written marks that free chunk used but returns something else (a chunk of a larger
   * class, or nothing), so the chunk leaks; the intended Alloc returns it.
   */
  lemma {:induction false} AsWrittenLeaks(st: PoolState, sizes: seq<nat>, alignment: nat,
                                          maxMemory: nat, size: nat)
    requires alignment > 0 && Sound(st.layout, alignment, maxMemory)
    requires Agree(st.chunks, st.layout.owner) && Serves(st, sizes)
    requires StrictlyAscending(sizes)
    requires FirstFit(sizes, size).Some?
    requires !NoneFree(st.chunks[FirstFit(sizes, size).value])
    requires FirstFit(sizes, size).value < sizes[|sizes| - 1]
    ensures var cs := FirstFit(sizes, size).value;
      var q := LowestFree(st.chunks[cs]);
      var (r, st') := AllocAsWrittenStep(st, sizes, alignment, size, None);
      AllocStep(st, sizes, alignment, size).0 == Some(q) &&
      r != Some(q) && cs in st'.chunks && q in st'.chunks[cs] && !st'.chunks[cs][q]
    decreases |sizes|
  {
    if size > sizes[0] {
      assert forall s :: s in sizes[1..] ==> s in sizes;
      assert sizes[1..][|sizes[1..]| - 1] == sizes[|sizes| - 1];
      AsWrittenLeaks(st, sizes[1..], alignment, maxMemory, size);
    } else {
      LeakAtFirstClass(st, sizes, alignment, maxMemory, size);
    }
  }

  /** AsWrittenLeaks when the first class already fits the request. */
  lemma LeakAtFirstClass(st: PoolState, sizes: seq<nat>, alignment: nat, maxMemory: nat, size: nat)
    requires alignment > 0 && Sound(st.layout, alignment, maxMemory)
    requires Agree(st.chunks, st.layout.owner) && Serves(st, sizes)
    requires StrictlyAscending(sizes) && |sizes| > 1 && size <= sizes[0]
    requires !NoneFree(st.chunks[sizes[0]])
    ensures var q := LowestFree(st.chunks[sizes[0]]);
      var (r, st') := AllocAsWrittenStep(st, sizes, alignment, size, None);
      AllocStep(st, sizes, alignment, size).0 == Some(q) &&
      r != Some(q) && sizes[0] in st'.chunks && q in st'.chunks[sizes[0]] && !st'.chunks[sizes[0]][q]
  {
    var cs := sizes[0];
    assert cs in sizes;
    var q := LowestFree(st.chunks[cs]);
    var (p, st1) := TakeStep(st, cs);
    FlipKeepsAgree(st.chunks, st.layout.owner, cs, q, false);
    forall s | s in sizes[1..]
      ensures size <= s && cs < s
    {
      var k :| 0 <= k < |sizes[1..]| && sizes[1..][k] == s;
      assert sizes[0] < sizes[k + 1];
    }
    AsWrittenTail(st1, sizes[1..], alignment, maxMemory, size, p, cs, q);
  }

  /**
   * Where the missing `break` makes no difference: nothing fits, the class that fits has no
   * free chunk, or it is the largest class. Then the loop as written and the intended Alloc
   * agree.
   */
  lemma {:induction false} AsWrittenAgrees(st: PoolState, sizes: seq<nat>, alignment: nat, size: nat)
    requires alignment > 0 && Serves(st, sizes)
    requires StrictlyAscending(sizes)
    requires FirstFit(sizes, size).Some? ==>
      NoneFree(st.chunks[FirstFit(sizes, size).value]) ||
      FirstFit(sizes, size).value == sizes[|sizes| - 1]
    ensures AllocAsWrittenStep(st, sizes, alignment, size, None) == AllocStep(st, sizes, alignment, size)
    decreases |sizes|
  {
    if sizes != [] {
      if size > sizes[0] {
        assert forall s :: s in sizes[1..] ==> s in sizes;
        if |sizes| > 1 {
          assert sizes[1..][|sizes[1..]| - 1] == sizes[|sizes| - 1];
        }
        AsWrittenAgrees(st, sizes[1..], alignment, size);
      } else if !NoneFree(st.chunks[sizes[0]]) {
        assert |sizes| == 1;
      }
    }
  }
}
