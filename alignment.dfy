/**
 * The carving step of the allocator asks `std::align` for the first address at or after the
 * cursor that satisfies the alignment (section 23.10.5 [ptr.align] of ISO C++17).
 * Addresses are modelled as naturals, so the padding is meaningful in absolute terms.
 */
module Alignment {

  import opened Wrappers

  /** `std::align` requires its alignment to be a power of two. */
  predicate IsPowerOfTwo(n: nat)
    decreases n
  {
    n == 1 || (n > 1 && n % 2 == 0 && IsPowerOfTwo(n / 2))
  }

  /**
   * `x` is a multiple of `a`. Defined by repeated subtraction rather than with `%` so that
   * invariants mentioning it do not draw the solver into non-linear arithmetic; IsMultipleIff
   * connects the two.
   */
  predicate IsMultiple(x: nat, a: nat)
    requires a > 0
    decreases x
  {
    if x < a then x == 0 else IsMultiple(x - a, a)
  }

  lemma {:induction false} IsMultipleIff(x: nat, a: nat)
    requires a > 0
    ensures IsMultiple(x, a) <==> x % a == 0
    decreases x
  {
    if x < a {
      ModOfMultiplePlus(a, 0, x);
    } else {
      IsMultipleIff(x - a, a);
      ModShift(a, x);
    }
  }

  /**
   * Bytes to skip from `p` to reach the next multiple of `a`, by repeated subtraction; the
   * closed form `(a - p mod a) mod a` that `std::align` computes is PaddingClosedForm.
   */
  function Padding(a: nat, p: nat): (d: nat)
    requires a > 0
    ensures d < a
    ensures IsMultiple(p + d, a)
    ensures forall q :: p <= q < p + d ==> !IsMultiple(q, a)
    decreases p
  {
    if p < a then (if p == 0 then 0 else a - p) else Padding(a, p - a)
  }

  lemma {:induction false} PaddingClosedForm(a: nat, p: nat)
    requires a > 0
    ensures Padding(a, p) == (a - p % a) % a
    decreases p
  {
    if p < a {
      ModOfMultiplePlus(a, 0, p);
      if p == 0 {
        ModOfMultiplePlus(a, 1, 0);
      } else {
        ModOfMultiplePlus(a, 0, a - p);
      }
    } else {
      PaddingClosedForm(a, p - a);
      ModShift(a, p);
    }
  }

  /** The sum of two multiples of `a` is a multiple of `a`. */
  lemma {:induction false} MultipleSum(x: nat, y: nat, a: nat)
    requires a > 0 && IsMultiple(x, a) && IsMultiple(y, a)
    ensures IsMultiple(x + y, a)
    decreases y
  {
    if y >= a {
      MultipleSum(x, y - a, a);
    }
  }

  /** Subtracting `a` does not change the remainder modulo `a`. */
  lemma ModShift(a: nat, p: nat)
    requires a > 0 && p >= a
    ensures p % a == (p - a) % a
  {
    var k, r := (p - a) / a, (p - a) % a;
    ModOfMultiplePlus(a, k + 1, r);
    assert p == (k + 1) * a + r;
  }

  /** `(k * a + r) % a == r` for a remainder `r`, by the uniqueness of Euclidean division. */
  lemma ModOfMultiplePlus(a: nat, k: nat, r: nat)
    requires a > 0 && r < a
    ensures (k * a + r) % a == r
  {
    var x := k * a + r;
    var q, s := x / a, x % a;
    assert x == q * a + s;
    if q > k {
      MulAtLeast(q - k, a);
      assert false;
    } else if q < k {
      MulAtLeast(k - q, a);
      assert false;
    }
  }

  lemma MulAtLeast(d: nat, a: nat)
    requires d >= 1
    ensures d * a >= a
  {
  }

  /**
   * `std::align(alignment, size, ptr, space)`: when `size` bytes fit after the padding, the
   * updated `(ptr, space)` pair (the returned pointer equals the updated `ptr`); otherwise None,
   * and the caller's `ptr` and `space` are left as they were.
   */
  function Align(alignment: nat, size: nat, ptr: nat, space: nat): (r: Option<(nat, nat)>)
    requires alignment > 0
    ensures r.None? <==> Padding(alignment, ptr) + size > space
    ensures r.Some? ==>
      var (aligned, rest) := r.value;
      IsMultiple(aligned, alignment) &&
      ptr <= aligned < ptr + alignment &&
      (aligned - ptr) + rest == space &&
      size <= rest
    /* the address is the first aligned one at or after `ptr` */
    ensures r.Some? ==> forall q :: ptr <= q < r.value.0 ==> !IsMultiple(q, alignment)
  {
    var d := Padding(alignment, ptr);
    if d + size > space then None else Some((ptr + d, space - d))
  }
}
