/**
 * The chunk-size configuration of a MemPool: how `Initialize` normalises the requested sizes
 * (`std::sort` followed by `std::unique` and `erase`), how it validates them, and how `Alloc`
 * picks the size class that serves a request.
 */
module ChunkSizes {

  import opened Wrappers

  /** The range of a `uint32_t`. */
  const U32: nat := 0x1_0000_0000

  function Elems(s: seq<nat>): set<nat>
  {
    set x | x in s
  }

  /** Sorted ascending with no duplicates: the shape `Initialize` leaves `chunk_sizes` in. */
  predicate StrictlyAscending(s: seq<nat>)
  {
    forall i, j :: 0 <= i < j < |s| ==> s[i] < s[j]
  }

  predicate AllMultiplesOf(s: seq<nat>, alignment: nat)
    requires alignment > 0
  {
    forall x :: x in s ==> x % alignment == 0
  }

  /** Being aligned is a property of the set of sizes, not of their order or repetition. */
  lemma AllMultiplesOfElems(a: seq<nat>, b: seq<nat>, alignment: nat)
    requires alignment > 0 && Elems(a) == Elems(b)
    ensures AllMultiplesOf(a, alignment) <==> AllMultiplesOf(b, alignment)
  {
    assert forall x :: x in a <==> x in Elems(a);
    assert forall x :: x in b <==> x in Elems(b);
  }

  /** The exact sum of the sizes, summed from the front as the validation loop does. */
  function Sum(s: seq<nat>): nat
  {
    if s == [] then 0 else Sum(s[..|s| - 1]) + s[|s| - 1]
  }

  /**
   * Inserts `x` at its place in a strictly ascending sequence, dropping it when it is already
   * there; one step of sorting and de-duplicating the requested sizes.
   */
  method InsertUnique(r: seq<nat>, x: nat) returns (t: seq<nat>)
    requires StrictlyAscending(r)
    ensures StrictlyAscending(t)
    ensures Elems(t) == Elems(r) + {x}
  {
    var i := 0;
    while i < |r| && r[i] < x
      invariant 0 <= i <= |r|
      invariant forall j :: 0 <= j < i ==> r[j] < x
    {
      i := i + 1;
    }
    if i < |r| && r[i] == x {
      t := r;
    } else {
      t := r[..i] + [x] + r[i..];
      assert forall j :: 0 <= j < |t| ==> t[j] == (if j < i then r[j] else if j == i then x else r[j - 1]);
      assert Elems(t) == Elems(r) + {x} by {
        assert r == r[..i] + r[i..];
      }
    }
  }

  /**
   * The effect of `std::sort` and `std::unique` + `erase` on `chunk_sizes`: the result is
   * strictly ascending and holds exactly the requested sizes.
   */
  method SortUnique(s: seq<nat>) returns (r: seq<nat>)
    ensures StrictlyAscending(r)
    ensures Elems(r) == Elems(s)
  {
    r := [];
    var i := 0;
    while i < |s|
      invariant 0 <= i <= |s|
      invariant StrictlyAscending(r)
      invariant Elems(r) == Elems(s[..i])
    {
      r := InsertUnique(r, s[i]);
      assert s[..i + 1] == s[..i] + [s[i]];
      i := i + 1;
    }
    assert s[..i] == s;
  }

  lemma ElemsEmpty(s: seq<nat>)
    ensures Elems(s) == {} <==> s == []
  {
    if s != [] {
      assert s[0] in Elems(s);
    }
  }

  /**
   * The normalised form is determined by the set of requested sizes alone, so inputs that
   * differ only in order and repetition configure the same classes.
   */
  lemma {:induction false} NormalizationUnique(a: seq<nat>, b: seq<nat>)
    requires StrictlyAscending(a) && StrictlyAscending(b)
    requires Elems(a) == Elems(b)
    ensures a == b
  {
    ElemsEmpty(a);
    ElemsEmpty(b);
    if a != [] && b != [] {
      assert a[0] in Elems(b);
      assert b[0] in Elems(a);
      assert a[0] == b[0];
      assert Elems(a[1..]) == Elems(a) - {a[0]} by {
        assert a == [a[0]] + a[1..];
      }
      assert Elems(b[1..]) == Elems(b) - {b[0]} by {
        assert b == [b[0]] + b[1..];
      }
      NormalizationUnique(a[1..], b[1..]);
      assert a == [a[0]] + a[1..];
      assert b == [b[0]] + b[1..];
    }
  }

  /**
   * The validation loop of `Initialize`: every size must be a multiple of the alignment (the
   * loop stops at the first one that is not) and the sizes must add up to at most `maxMemory`.
   * The sum is kept exact here; the source keeps it in a `uint32_t`, see WrappedSum.
   */
  method ValidateChunkSizes(sizes: seq<nat>, alignment: nat, maxMemory: nat) returns (ok: bool)
    requires alignment > 0
    ensures ok <==> AllMultiplesOf(sizes, alignment) && Sum(sizes) <= maxMemory
  {
    var sum := 0;
    var i := 0;
    while i < |sizes|
      invariant 0 <= i <= |sizes|
      invariant AllMultiplesOf(sizes[..i], alignment)
      invariant sum == Sum(sizes[..i])
    {
      if sizes[i] % alignment != 0 {
        assert sizes[i] in sizes;
        return false;
      }
      assert sizes[..i + 1] == sizes[..i] + [sizes[i]];
      sum := sum + sizes[i];
      i := i + 1;
    }
    assert sizes[..i] == sizes;
    ok := sum <= maxMemory;
  }

  /**
   * The size class `Alloc` tries: the first configured size not below the request, which in a
   * strictly ascending configuration is the smallest one that fits.
   */
  function FirstFit(sizes: seq<nat>, size: nat): (r: Option<nat>)
    ensures r.None? <==> forall i :: 0 <= i < |sizes| ==> sizes[i] < size
    ensures r.Some? ==> r.value in sizes && size <= r.value
    ensures r.Some? && StrictlyAscending(sizes) ==>
      forall x :: x in sizes && size <= x ==> r.value <= x
  {
    if sizes == [] then None
    else if size <= sizes[0] then Some(sizes[0])
    else
      assert forall x :: x in sizes && x != sizes[0] ==> x in sizes[1..];
      FirstFit(sizes[1..], size)
  }

  /** The first fit is also the first fit of any prefix that contains a fitting size. */
  lemma {:induction false} FirstFitIndex(sizes: seq<nat>, size: nat, i: nat)
    requires i < |sizes| && size <= sizes[i]
    requires forall j :: 0 <= j < i ==> sizes[j] < size
    ensures FirstFit(sizes, size) == Some(sizes[i])
  {
    if i > 0 {
      FirstFitIndex(sizes[1..], size, i - 1);
    }
  }

  // ---------------------------------------------------------------------------------------
  // The source accumulates the sum in a `uint32_t`, so it wraps modulo 2^32.

  /** `sum_chunk_size` as the source computes it: each addition wraps modulo 2^32. */
  function WrappedSum(s: seq<nat>): (r: nat)
    ensures r < U32
    ensures r == Sum(s) % U32
  {
    if s == [] then 0 else (WrappedSum(s[..|s| - 1]) + s[|s| - 1]) % U32
  }

  /** The verdict of the validation loop as written, with the wrapping sum. */
  function AcceptsAsWritten(sizes: seq<nat>, alignment: nat, maxMemory: nat): bool
    requires alignment > 0
  {
    AllMultiplesOf(sizes, alignment) && WrappedSum(sizes) <= maxMemory
  }

  /**
   * Two distinct aligned `uint32_t` sizes whose true sum exceeds a 1024-byte pool pass the
   * check as written (the sum wraps to 8), while the exact check rejects them.
   */
  lemma WrappedSumAcceptsOversized()
    ensures AcceptsAsWritten([0x8000_0000, 0x8000_0008], 8, 1024)
    ensures Sum([0x8000_0000, 0x8000_0008]) > 1024
  {
  }

  // ---------------------------------------------------------------------------------------
  // Configurations from the initialisation tests (pool of 1024 bytes, alignment 8).

  /** `[128, 64, 128, 256]` normalises to `[64, 128, 256]`. */
  lemma NormalizeExample(r: seq<nat>)
    requires StrictlyAscending(r)
    requires Elems(r) == Elems([128, 64, 128, 256])
    ensures r == [64, 128, 256]
  {
    assert Elems([64, 128, 256]) == Elems([128, 64, 128, 256]);
    NormalizationUnique(r, [64, 128, 256]);
  }

  lemma ValidationExamples()
    ensures AllMultiplesOf([64, 128, 256], 8) && Sum([64, 128, 256]) <= 1024
    ensures !AllMultiplesOf([64, 126, 256], 8)
    ensures Sum([64, 128, 256, 1024]) > 1024
  {
    assert [64, 128, 256][..2] == [64, 128];
    assert [64, 128, 256, 1024][..3] == [64, 128, 256];
    assert [64, 128][..1] == [64];
    assert [64][..0] == [];
    assert 126 in [64, 126, 256];
  }
}
