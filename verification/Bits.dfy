/** Bitwise operators of C on non-negative integers. */
module Bits {

  predicate PowerOfTwo(n: nat) {
    n == 1 || (n > 0 && n % 2 == 0 && PowerOfTwo(n / 2))
  }

  /** The operator `&`. */
  function And(x: nat, y: nat): (r: nat)
    ensures r <= x && r <= y
    decreases x
  {
    if x == 0 || y == 0 then 0
    else 2 * And(x / 2, y / 2) + if x % 2 == 1 && y % 2 == 1 then 1 else 0
  }

  /** The operator `^` on the values below `size`. */
  function XorBelow(x: nat, y: nat, size: nat): (r: nat)
    requires PowerOfTwo(size)
    ensures r < size
    decreases size
  {
    if size == 1 then 0
    else 2 * XorBelow(x / 2, y / 2, size / 2) + if x % 2 == y % 2 then 0 else 1
  }

  type Octet = x | 0 <= x < 256

  function Xor(x: Octet, y: Octet): Octet {
    EightDoublings();
    XorBelow(x, y, 256)
  }

  lemma {:induction false} EightDoublings()
    ensures PowerOfTwo(256)
  {
  }

  // ----- bit by bit -----

  predicate Bit(x: nat, i: nat) {
    if i == 0 then x % 2 == 1 else Bit(x / 2, i - 1)
  }

  lemma {:induction false} BitOfDouble(x: nat, low: nat, i: nat)
    requires low < 2
    ensures Bit(2 * x + low, i) == if i == 0 then low == 1 else Bit(x, i - 1)
  {
    assert (2 * x + low) / 2 == x;
  }

  function Power(n: nat): (p: nat)
    ensures 0 < p
  {
    if n == 0 then 1 else 2 * Power(n - 1)
  }

  lemma {:induction false} XorBelowBit(x: nat, y: nat, n: nat, i: nat)
    requires i < n && PowerOfTwo(Power(n))
    ensures Bit(XorBelow(x, y, Power(n)), i) <==> Bit(x, i) != Bit(y, i)
    decreases n
  {
    assert Power(n) / 2 == Power(n - 1);
    var r, low := XorBelow(x / 2, y / 2, Power(n - 1)), if x % 2 == y % 2 then 0 else 1;
    BitOfDouble(r, low, i);
    if i > 0 {
      XorBelowBit(x / 2, y / 2, n - 1, i - 1);
    }
  }

  /** A bit of `x ^ y` is set iff it is set in just one of them. */
  lemma {:induction false} XorBit(x: Octet, y: Octet, i: nat)
    requires i < 8
    ensures Bit(Xor(x, y), i) <==> Bit(x, i) != Bit(y, i)
  {
    EightDoublings();
    assert Power(8) == 256 by { assert Power(4) == 16; }
    XorBelowBit(x, y, 8, i);
  }

  /** A bit of `x & y` is set iff it is set in both. */
  lemma {:induction false} AndBit(x: nat, y: nat, i: nat)
    ensures Bit(And(x, y), i) <==> Bit(x, i) && Bit(y, i)
    decreases i
  {
    if x == 0 || y == 0 {
      NoBits(i);
    } else {
      BitOfDouble(And(x / 2, y / 2), if x % 2 == 1 && y % 2 == 1 then 1 else 0, i);
      if i > 0 {
        AndBit(x / 2, y / 2, i - 1);
      }
    }
  }

  lemma {:induction false} NoBits(i: nat)
    ensures !Bit(0, i)
  {
    if i > 0 {
      NoBits(i - 1);
    }
  }
}
