/**
 * A SubPool tracks the chunks of one size: a map from chunk address to an "is free" flag
 * (true = free, available to allocate; false = in use) and the number of chunks ever added.
 * It never creates chunks itself; the MemPool carves them and hands them in.
 */
module SubPools {

  import opened Wrappers

  /** The addresses flagged in use. */
  function UsedChunks(chunks: map<nat, bool>): set<nat>
  {
    set p | p in chunks && !chunks[p]
  }

  /** The number of chunks flagged in use; never more than the number of chunks. */
  function Unfreed(chunks: map<nat, bool>): (n: nat)
    ensures n <= |chunks|
  {
    assert UsedChunks(chunks) <= chunks.Keys;
    SubsetCard(UsedChunks(chunks), chunks.Keys);
    |UsedChunks(chunks)|
  }

  lemma SubsetCard(a: set<nat>, b: set<nat>)
    requires a <= b
    ensures |a| <= |b|
  {
    assert b == a + (b - a);
  }

  predicate NoneFree(chunks: map<nat, bool>)
  {
    forall p :: p in chunks ==> !chunks[p]
  }

  /** `p` is the free chunk met first when the map is walked in ascending address order. */
  predicate IsLowestFree(chunks: map<nat, bool>, p: nat)
  {
    p in chunks && chunks[p] && forall q :: q in chunks && q < p ==> !chunks[q]
  }

  /** The free chunks. */
  function FreeChunks(chunks: map<nat, bool>): set<nat>
  {
    set p | p in chunks && chunks[p]
  }

  /** The least element of a non-empty set. */
  ghost function Least(s: set<nat>): (m: nat)
    requires s != {}
    ensures m in s && forall x :: x in s ==> m <= x
    decreases |s|
  {
    var x :| x in s;
    if forall y :: y in s ==> x <= y then x
    else
      var y :| y in s && y < x;
      assert y in s - {x};
      var m := Least(s - {x});
      assert m <= y && forall z :: z in s && z != x ==> z in s - {x};
      m
  }

  /** The free chunk `SubPool::Alloc` hands out: the lowest-addressed one. */
  ghost function LowestFree(chunks: map<nat, bool>): (p: nat)
    requires !NoneFree(chunks)
    ensures IsLowestFree(chunks, p)
  {
    var q :| q in chunks && chunks[q];
    assert q in FreeChunks(chunks);
    var p := Least(FreeChunks(chunks));
    assert forall q :: q in chunks && chunks[q] ==> q in FreeChunks(chunks);
    p
  }

  /** There is only one lowest free chunk. */
  lemma LowestFreeUnique(chunks: map<nat, bool>, p: nat)
    requires IsLowestFree(chunks, p)
    ensures p == LowestFree(chunks)
  {
  }

  /** Handing out a free chunk raises the unfreed count by one. */
  lemma UnfreedMarkUsed(chunks: map<nat, bool>, p: nat)
    requires p in chunks && chunks[p]
    ensures Unfreed(chunks[p := false]) == Unfreed(chunks) + 1
  {
    assert UsedChunks(chunks[p := false]) == UsedChunks(chunks) + {p};
  }

  /** Releasing a chunk in use lowers the unfreed count by one. */
  lemma UnfreedMarkFree(chunks: map<nat, bool>, p: nat)
    requires p in chunks && !chunks[p]
    ensures Unfreed(chunks[p := true]) + 1 == Unfreed(chunks)
  {
    assert UsedChunks(chunks) == UsedChunks(chunks[p := true]) + {p};
  }

  /** Admitting a new chunk already in use raises the unfreed count by one. */
  lemma UnfreedAddUsed(chunks: map<nat, bool>, p: nat)
    requires p !in chunks
    ensures Unfreed(chunks[p := false]) == Unfreed(chunks) + 1
  {
    assert UsedChunks(chunks[p := false]) == UsedChunks(chunks) + {p};
  }

  /** No chunk is free exactly when every chunk is counted as unfreed. */
  lemma NoneFreeIffAllUnfreed(chunks: map<nat, bool>)
    ensures NoneFree(chunks) <==> Unfreed(chunks) == |chunks|
  {
    if NoneFree(chunks) {
      assert UsedChunks(chunks) == chunks.Keys;
    } else {
      var p :| p in chunks && chunks[p];
      assert UsedChunks(chunks) <= chunks.Keys - {p};
      SubsetCard(UsedChunks(chunks), chunks.Keys - {p});
    }
  }

  /**
   * The least address of a non-empty set: `std::map` iterates its keys in ascending order, and
   * this is how the model visits them.
   */
  method LeastKey(s: set<nat>) returns (m: nat)
    requires s != {}
    ensures m in s
    ensures forall x :: x in s ==> m <= x
  {
    m :| m in s;
    var rest := s - {m};
    while rest != {}
      invariant rest <= s && m in s
      invariant forall x :: x in s && x !in rest ==> m <= x
      decreases |rest|
    {
      var x :| x in rest;
      if x < m {
        m := x;
      }
      rest := rest - {x};
    }
  }

  class SubPool {
    /** Size in bytes of every chunk of this pool. */
    const chunkSize: nat
    /** Number of chunks ever added (`chunk_count`). */
    var chunkCount: nat
    /** Chunk address to "is free" flag. */
    var chunks: map<nat, bool>

    constructor (size: nat)
      ensures chunkSize == size && chunkCount == 0 && chunks == map[]
    {
      chunkSize := size;
      chunkCount := 0;
      chunks := map[];
    }

    /**
     * Marks the lowest-addressed free chunk as used and returns it; None, with nothing changed,
     * when no chunk is free. No address is ever added here.
     */
    method Alloc() returns (r: Option<nat>)
      modifies this`chunks
      ensures r.None? <==> NoneFree(old(chunks))
      ensures r.Some? ==> IsLowestFree(old(chunks), r.value)
      ensures chunks == if r.Some? then old(chunks)[r.value := false] else old(chunks)
    {
      var unvisited := chunks.Keys;
      while unvisited != {}
        invariant unvisited <= chunks.Keys
        invariant chunks == old(chunks)
        invariant forall p :: p in chunks && p !in unvisited ==> !chunks[p]
        decreases |unvisited|
      {
        var p := LeastKey(unvisited);
        if chunks[p] {
          chunks := chunks[p := false];
          return Some(p);
        }
        unvisited := unvisited - {p};
      }
      return None;
    }

    /**
     * Releases chunk `p`: true only when `p` belongs to the pool and is in use, and then it is
     * flagged free; an unknown address or a double free returns false and changes nothing.
     */
    method Free(p: nat) returns (ok: bool)
      modifies this`chunks
      ensures ok <==> p in old(chunks) && !old(chunks)[p]
      ensures chunks == if ok then old(chunks)[p := true] else old(chunks)
    {
      ok := false;
      if p in chunks {
        if chunks[p] {
          ok := false;
        } else {
          chunks := chunks[p := true];
          ok := true;
        }
      } else {
        ok := false;
      }
    }

    /**
     * Admits `p` as a free chunk (`std::map::insert` keeps an existing entry as it is) and
     * counts it; always succeeds.
     */
    method AddNewChunk(p: nat) returns (ok: bool)
      modifies this`chunks, this`chunkCount
      ensures ok
      ensures chunks == if p in old(chunks) then old(chunks) else old(chunks)[p := true]
      ensures chunkCount == old(chunkCount) + 1
    {
      if p !in chunks {
        chunks := chunks[p := true];
      }
      chunkCount := chunkCount + 1;
      return true;
    }

    /** `getNumChunks`: the number of chunks ever added. */
    function NumChunks(): nat
      reads this
    {
      chunkCount
    }

    /** `getNumUnfreedChunks`: walks the chunks and counts those in use; changes nothing. */
    method NumUnfreedChunks() returns (n: nat)
      ensures n == Unfreed(chunks)
    {
      n := 0;
      var unvisited := chunks.Keys;
      while unvisited != {}
        invariant unvisited <= chunks.Keys
        invariant n == |UsedChunks(chunks) - unvisited|
        decreases |unvisited|
      {
        var p := LeastKey(unvisited);
        if !chunks[p] {
          assert UsedChunks(chunks) - (unvisited - {p}) == (UsedChunks(chunks) - unvisited) + {p};
          n := n + 1;
        } else {
          assert UsedChunks(chunks) - (unvisited - {p}) == UsedChunks(chunks) - unvisited;
        }
        unvisited := unvisited - {p};
      }
      assert UsedChunks(chunks) - unvisited == UsedChunks(chunks);
    }
  }
}
