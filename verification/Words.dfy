/** Fixed-width integers of the target: `unsigned int` is 16 bits and
    `unsigned long` is 32 bits wide; signed values are two's complement. */
module Words {

  /** The low 16 bits of `x`, as an unsigned value. */
  function U16(x: int): int {
    x % 0x1_0000
  }

  /** The low 16 bits of `x`, as a signed value. */
  function S16(x: int): int {
    if x % 0x1_0000 < 0x8000 then x % 0x1_0000 else x % 0x1_0000 - 0x1_0000
  }

  /** The low 32 bits of `x`, as an unsigned value. */
  function U32(x: int): int {
    x % 0x1_0000_0000
  }

  /** The low 32 bits of `x`, as a signed value. */
  function S32(x: int): int {
    if x % 0x1_0000_0000 < 0x8000_0000 then x % 0x1_0000_0000 else x % 0x1_0000_0000 - 0x1_0000_0000
  }

  /** Adding whole ranges changes neither the low 32 nor the low 16 bits. */
  lemma {:induction false} WholeRanges(x: int, k: int)
    ensures U32(x + 0x1_0000_0000 * k) == U32(x)
    ensures U16(x + 0x1_0000_0000 * k) == U16(x)
  {
    assert x + 0x1_0000_0000 * k == x + 0x1_0000 * (0x1_0000 * k);
    WholeCycles(x, 0x1_0000 * k);
  }

  lemma {:induction false} WholeCycles(x: int, k: int)
    ensures U16(x + 0x1_0000 * k) == U16(x)
    ensures (x + 0x1_0000 * k) / 0x1_0000 == x / 0x1_0000 + k
  {
  }

  /** A signed value differs from the value it was cut from by whole ranges. */
  lemma {:induction false} SignedRanges(x: int) returns (k: int)
    ensures S32(x) == x + 0x1_0000_0000 * k
    ensures -0x8000_0000 <= S32(x) < 0x8000_0000
  {
    k := -(x / 0x1_0000_0000) - if U32(x) < 0x8000_0000 then 0 else 1;
  }

  /** The difference of two wrapped clock readings is the true difference,
      as long as the true times are within half the clock's range. */
  lemma {:induction false} SignedDistance(a: int, b: int)
    requires -0x8000_0000 <= a - b < 0x8000_0000
    ensures S32(U32(a) - U32(b)) == a - b
  {
  }

  /** The time that a 32-bit setting means, seen from `now`, reads back as that
      setting and is within half the clock's range of `now`. */
  lemma {:induction false} MeantTime(now: int, setting: int)
    requires 0 <= setting < 0x1_0000_0000
    ensures var due := now + S32(setting - U32(now));
            U32(due) == setting && U16(due) == U16(setting) && -0x8000_0000 <= due - now < 0x8000_0000
  {
    var j := SignedRanges(setting - U32(now));
    var k := now / 0x1_0000_0000;
    assert now + S32(setting - U32(now)) == setting + 0x1_0000_0000 * (k + j);
    WholeRanges(setting, k + j);
  }

  /** Equal cycle numbers are a multiple of 2^16 apart. */
  lemma {:induction false} SameCycle(x: int, y: int)
    ensures U16(x) == U16(y) <==> U16(x - y) == 0
  {
  }

  /** One more tick passes a multiple of 2^16 exactly when it reaches it. */
  lemma {:induction false} NextTick(m: int, c: int)
    requires 0 <= c < 0x1_0000
    ensures (m + 1 - c) / 0x1_0000 == (m - c) / 0x1_0000 + if U16(m + 1) == c then 1 else 0
  {
  }

  /** Counting in 32 bits is counting. */
  lemma {:induction false} CountOn(c: int)
    ensures U32(U32(c) + 1) == U32(c + 1)
  {
  }

  /** A 16-bit counter below a wrapped 32-bit cycle count reads the low 32 bits
      of the time. */
  lemma {:induction false} Join(c: int, r: int)
    requires 0 <= r < 0x1_0000
    ensures U32(U32(c) * 0x1_0000 + r) == U32(c * 0x1_0000 + r)
  {
    var k := c / 0x1_0000_0000;
    assert c * 0x1_0000 + r == U32(c) * 0x1_0000 + r + 0x1_0000_0000 * (k * 0x1_0000);
    WholeRanges(U32(c) * 0x1_0000 + r, k * 0x1_0000);
  }

  /** The cycle number in the upper half of a 32-bit time. */
  lemma {:induction false} UpperHalf(t: int)
    ensures U32(t) / 0x1_0000 == U16(t / 0x1_0000)
  {
  }

  lemma {:induction false} LowerHalf(t: int)
    ensures U16(U32(t)) == U16(t)
  {
  }
}
