/**
 * The layout of the backing buffer as plain values: where the cursor is, how much is left and
 * which chunks (address and size) have been carved. A MemPool's state projects onto this view.
 */
module Carving {

  import opened Wrappers
  import opened Alignment

  /** `owner` maps each carved chunk address to its size. */
  datatype Layout = Layout(buffer: nat, cursor: nat, available: nat, owner: map<nat, nat>)

  /**
   * The cursor stays inside the buffer with `(cursor - buffer) + available == maxMemory`, and
   * every carved chunk is aligned, lies before the cursor and overlaps no other chunk.
   */
  ghost predicate Sound(l: Layout, alignment: nat, maxMemory: nat)
    requires alignment > 0
  {
    l.buffer <= l.cursor && (l.cursor - l.buffer) + l.available == maxMemory &&
    (forall p :: p in l.owner ==>
      0 < l.owner[p] && l.buffer <= p && p + l.owner[p] <= l.cursor && IsMultiple(p, alignment)) &&
    (forall p, q {:trigger EndsBefore(l, p, q)} ::
      p in l.owner && q in l.owner && p < q ==> EndsBefore(l, p, q))
  }

  /** Chunk `p` is carved and ends at or before address `q`. */
  ghost predicate EndsBefore(l: Layout, p: nat, q: nat)
  {
    p in l.owner && p + l.owner[p] <= q
  }

  /**
   * One carve of `size` bytes: `std::align` from the cursor, then the cursor moves past the
   * chunk; None when the aligned chunk does not fit in what is left.
   */
  function CarveChunk(l: Layout, alignment: nat, size: nat): (r: Option<(nat, Layout)>)
    requires alignment > 0
  {
    match Align(alignment, size, l.cursor, l.available)
    case None => None
    case Some((chunk, space)) =>
      Some((chunk, Layout(l.buffer, chunk + size, space - size, l.owner[chunk := size])))
  }

  /**
   * Carving keeps the layout sound: the new chunk is aligned, inside the buffer, after the
   * cursor and so disjoint from every earlier chunk, and the bookkeeping still adds up.
   */
  lemma CarveKeepsSound(l: Layout, alignment: nat, maxMemory: nat, size: nat)
    requires alignment > 0 && size > 0
    requires Sound(l, alignment, maxMemory)
    requires CarveChunk(l, alignment, size).Some?
    ensures var (chunk, l') := CarveChunk(l, alignment, size).value;
      chunk !in l.owner &&
      l.cursor <= chunk && chunk + size <= l.buffer + maxMemory &&
      Sound(l', alignment, maxMemory)
  {
    var (chunk, space) := Align(alignment, size, l.cursor, l.available).value;
    assert IsMultiple(chunk, alignment) && l.cursor <= chunk;
    assert (chunk - l.cursor) + space == l.available && size <= space;
    var l' := Layout(l.buffer, chunk + size, space - size, l.owner[chunk := size]);
    assert CarveChunk(l, alignment, size).value == (chunk, l');
    assert (l'.cursor - l'.buffer) + l'.available == maxMemory;
    forall p | p in l'.owner
      ensures 0 < l'.owner[p] && l'.buffer <= p && p + l'.owner[p] <= l'.cursor && IsMultiple(p, alignment)
    {
      if p != chunk {
        assert p in l.owner;
      }
    }
    forall p, q | p in l'.owner && q in l'.owner && p < q
      ensures EndsBefore(l', p, q)
    {
      if q == chunk {
        assert p in l.owner && l'.owner[p] == l.owner[p];
        assert p + l.owner[p] <= l.cursor;
      } else if p == chunk {
        assert false;
      } else {
        assert p in l.owner && q in l.owner && l'.owner[p] == l.owner[p];
        assert EndsBefore(l, p, q);
      }
    }
  }

  /** `n` carves of `size` bytes in a row; None when one of them does not fit. */
  function CarveRepeat(l: Layout, alignment: nat, size: nat, n: nat): Option<Layout>
    requires alignment > 0
    decreases n
  {
    if n == 0 then Some(l)
    else
      match CarveChunk(l, alignment, size)
      case None => None
      case Some((_, l1)) => CarveRepeat(l1, alignment, size, n - 1)
  }

  /**
   * From an aligned cursor, chunks whose size is a multiple of the alignment need no padding:
   * `n` of them fill exactly `n * size` bytes, and then nothing of any positive size can be
   * carved. (Eight chunks of 256 bytes fill a 2048-byte pool and the next request fails.)
   */
  lemma {:induction false} TightCarvesFill(l: Layout, alignment: nat, size: nat, n: nat)
    requires alignment > 0 && size > 0
    requires IsMultiple(l.cursor, alignment) && IsMultiple(size, alignment)
    requires l.available == n * size
    ensures CarveRepeat(l, alignment, size, n).Some?
    ensures var l' := CarveRepeat(l, alignment, size, n).value;
      l'.cursor == l.cursor + n * size && l'.available == 0 &&
      forall s :: s > 0 ==> CarveChunk(l', alignment, s).None?
    decreases n
  {
    if n > 0 {
      assert Padding(alignment, l.cursor) == 0;
      var l1 := Layout(l.buffer, l.cursor + size, l.available - size, l.owner[l.cursor := size]);
      assert CarveChunk(l, alignment, size) == Some((l.cursor, l1));
      MultipleSum(l.cursor, size, alignment);
      assert l1.available == (n - 1) * size;
      TightCarvesFill(l1, alignment, size, n - 1);
    }
  }
}
