/** FixedPoint: the 16-bit arithmetic of the fixed-point build. Sums are exact: 32-bit accumulators do not overflow. */
module FixedPoint {
  import Bytes
  import opened BitOps

  type int16 = x: int | -0x8000 <= x < 0x8000

  /** MULT16_16 */
  function Mult16(a: int16, b: int16): int {
    var x: int, y: int := a, b;
    x * y
  }

  lemma Mult16OfNegation(a: int16, b: int16)
    requires b != -0x8000
    ensures Mult16(a, -b) == -Mult16(a, b)
  {
  }

  /** The conversion of a sum to 16 bits: ADD16, and what MULT16_16 does to NEG16 and SUB16. */
  function Wrap16(x: int): (r: int16)
    ensures -0x8000 <= x < 0x8000 <==> r == x
  {
    (x + 0x8000) % 0x1_0000 - 0x8000
  }

  /** Wrapping changes a sum by a multiple of 2 to the 16. */
  lemma WrapIs(x: int, r: int16)
    ensures r == Wrap16(x) <==> (x - r) % 0x1_0000 == 0
  {
  }

  lemma Mult16OfSum(a: int16, b: int16, c: int16)
    requires -0x8000 <= (b as int) + (c as int) < 0x8000
    ensures Mult16(a, Wrap16((b as int) + (c as int))) == Mult16(a, b) + Mult16(a, c)
  {
  }

  lemma Mult16OfDifference(a: int16, b: int16, c: int16)
    requires -0x8000 <= (b as int) - (c as int) < 0x8000
    ensures Mult16(a, Wrap16((b as int) - (c as int))) == Mult16(a, b) - Mult16(a, c)
  {
  }

  /** SATURATE to 32767 and EXTRACT16: the least 16-bit value is never the result. */
  function Saturate(x: int): (r: int16)
    ensures -32767 <= r <= 32767
    ensures -32767 <= x <= 32767 <==> r == x
    ensures r < x ==> r == 32767
    ensures x < r ==> r == -32767
  {
    if x > 32767 then 32767 else if x < -32767 then -32767 else x
  }

  /** PSHR32: shift right arithmetically, with half a unit added first. */
  function RoundShift(a: int, shift: nat): int {
    (a + Pow2(shift) / 2) / Pow2(shift)
  }

  /** RoundShift divides by a power of two, to the nearest, ties upwards. */
  lemma RoundShiftIsNearest(a: int, shift: nat, r: int)
    requires shift > 0
    ensures r == RoundShift(a, shift) <==> 0 <= 2 * a - 2 * (Pow2(shift) * r) + Pow2(shift) < 2 * Pow2(shift)
  {
    var d := Pow2(shift);
    var h := d / 2;
    var q := RoundShift(a, shift);
    assert d == 2 * Pow2(shift - 1);
    assert d == 2 * h;
    Bytes.DivideUnique(a + h, d, q);
    if 0 <= 2 * a - 2 * (d * r) + d < 2 * d {
      Bytes.DivideUnique(a + h, d, r);
    }
  }

  /** Rounding a value and its negation cancels, except on a tie, where both round up. */
  lemma RoundShiftOfNegation(a: int, shift: nat)
    requires shift > 0
    ensures RoundShift(a, shift) + RoundShift(-a, shift) == if a % Pow2(shift) == Pow2(shift) / 2 then 1 else 0
  {
    PowIsEven(shift);
    hide RoundShift, Pow2;
    DivMod(a, Pow2(shift));
    RoundBothWays(a, shift, a / Pow2(shift), a % Pow2(shift));
  }

  lemma PowIsEven(k: nat)
    requires k > 0
    ensures Pow2(k) == 2 * (Pow2(k) / 2)
  {
    assert Pow2(k) == 2 * Pow2(k - 1);
  }

  lemma DivMod(a: int, d: nat)
    requires d > 0
    ensures a == d * (a / d) + a % d && 0 <= a % d < d
  {
  }

  lemma RoundBothWays(a: int, shift: nat, q: int, m: nat)
    requires a == Pow2(shift) * q + m && m < Pow2(shift) && shift > 0
    ensures RoundShift(a, shift) == q + if 2 * m < Pow2(shift) then 0 else 1
    ensures RoundShift(-a, shift) == -q - if 2 * m <= Pow2(shift) then 0 else 1
  {
    hide RoundShift, Pow2;
    var d := Pow2(shift);
    var up := if 2 * m < d then 0 else 1;
    var down := if 2 * m <= d then 0 else 1;
    Distribute(d, q, up);
    Distribute(d, -q, -down);
    NegativeTimes(d, q);
    RoundShiftIsNearest(a, shift, q + up);
    RoundShiftIsNearest(-a, shift, -q + -down);
  }

  lemma Distribute(d: int, q: int, k: int)
    requires -1 <= k <= 1
    ensures d * (q + k) == d * q + (if k == 0 then 0 else if k == 1 then d else -d)
  {
  }

  lemma NegativeTimes(d: int, q: int)
    ensures d * -q == -(d * q)
  {
  }
}
