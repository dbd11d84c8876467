/** ECMAScript's ToInt32 conversion, which the bitwise operator `x | 0` applies
    to its operand, restricted to operands that are already integers. */
module Int32 {

  const TwoTo31: int := 0x8000_0000
  const TwoTo32: int := 0x1_0000_0000

  /** True of the values a 32-bit signed integer can hold. */
  predicate IsInt32(x: int) {
    -TwoTo31 <= x < TwoTo32 - TwoTo31
  }

  /** `x | 0` for an integer `x`: reduce modulo 2^32, then read the low 32 bits
      as a two's-complement number. */
  function ToInt32(x: int): (r: int)
    ensures IsInt32(r)
    ensures (r - x) % TwoTo32 == 0
    ensures IsInt32(x) ==> r == x
    ensures TwoTo31 <= x < TwoTo32 ==> r == x - TwoTo32 < 0
  {
    var m := x % TwoTo32;
    if m >= TwoTo31 then m - TwoTo32 else m
  }

  /** ToInt32 picks THE representative of x's residue class modulo 2^32 that
      lies in the signed 32-bit range: no other 32-bit value is congruent. */
  lemma ToInt32Unique(x: int, y: int)
    requires IsInt32(y)
    requires (y - x) % TwoTo32 == 0
    ensures ToInt32(x) == y
  {
  }

  /** Adding a whole number of 2^32 periods does not change the conversion. */
  lemma {:induction false} ToInt32Periodic(x: int, k: int)
    ensures ToInt32(x + k * TwoTo32) == ToInt32(x)
  {
    var r := ToInt32(x);
    assert r - (x + k * TwoTo32) == (r - x) + (-k) * TwoTo32;
    ModMultipleShift(r - x, -k);
    ToInt32Unique(x + k * TwoTo32, r);
  }

  /** Shifting a multiple of the modulus by further multiples keeps it one. */
  lemma ModMultipleShift(d: int, k: int)
    requires d % TwoTo32 == 0
    ensures (d + k * TwoTo32) % TwoTo32 == 0
  {
    var q := d / TwoTo32;
    assert d == q * TwoTo32;
    assert d + k * TwoTo32 == (q + k) * TwoTo32;
  }
}
