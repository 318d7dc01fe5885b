// Wrapping 32-bit signed arithmetic of src/platform/arithmetic.h.
// __builtin_s*_overflow stores the two's-complement result even when the
// operation overflows, so each function returns the int32 value congruent
// to the exact result modulo 2^32.
module Arith {
  const Two32: int := 0x1_0000_0000
  const Int32Min: int := -0x8000_0000
  const Int32Max: int := 0x7fff_ffff

  predicate IsInt32(x: int) { Int32Min <= x <= Int32Max }

  /** int32_t */
  type Int32 = x: int | IsInt32(x)

  /** The int32 value a 32-bit two's-complement register holds for x. */
  function Wrap(x: int): (r: Int32)
    ensures IsInt32(r)
    ensures (r - x) % Two32 == 0
    ensures IsInt32(x) ==> r == x
  {
    var m := x % Two32;
    if m <= Int32Max then m else m - Two32
  }

  /** There is exactly one int32 in each residue class modulo 2^32. */
  lemma WrapUnique(x: int, r: int)
    requires IsInt32(r) && (r - x) % Two32 == 0
    ensures r == Wrap(x)
  {
    var w := Wrap(x);
    assert (r - w) % Two32 == 0;
    assert -Two32 < r - w < Two32;
  }

  /** au_platform_iadd_wrap */
  function IAddWrap(a: int, b: int): (r: Int32)
    requires IsInt32(a) && IsInt32(b)
    ensures IsInt32(r) && (r - (a + b)) % Two32 == 0
    ensures IsInt32(a + b) ==> r == a + b
  {
    Wrap(a + b)
  }

  /** au_platform_isub_wrap */
  function ISubWrap(a: int, b: int): (r: Int32)
    requires IsInt32(a) && IsInt32(b)
    ensures IsInt32(r) && (r - (a - b)) % Two32 == 0
    ensures IsInt32(a - b) ==> r == a - b
  {
    Wrap(a - b)
  }

  /** au_platform_imul_wrap */
  function IMulWrap(a: int, b: int): (r: Int32)
    requires IsInt32(a) && IsInt32(b)
    ensures IsInt32(r) && (r - a * b) % Two32 == 0
    ensures IsInt32(a * b) ==> r == a * b
  {
    Wrap(a * b)
  }

  /** Adding one to the largest int32 wraps to the smallest. */
  lemma AddWrapsAtMax()
    ensures IAddWrap(Int32Max, 1) == Int32Min
  {}

  /** Subtraction is addition of the negation, both wrapped. */
  lemma SubIsAddNeg(a: int, b: int)
    requires IsInt32(a) && IsInt32(b)
    ensures ISubWrap(a, b) == IAddWrap(a, Wrap(-b))
  {
    var r := IAddWrap(a, Wrap(-b));
    assert ((a + Wrap(-b)) - (a - b)) % Two32 == 0 by {
      assert (Wrap(-b) - (-b)) % Two32 == 0;
    }
    WrapUnique(a - b, r);
  }
}
