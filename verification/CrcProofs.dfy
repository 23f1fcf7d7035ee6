/** What the CRCs are: the remainder by x^8 + x^5 + x^4 + 1, its mirror image, and
    what errors they cannot miss. */
module CrcProofs {
  import opened Crc

  // ----- polynomials over GF(2): coefficients, highest power first -----

  /** x^8 + x^5 + x^4 + 1. */
  const DIVISOR: Bits := [true] + Hex(3, 1)

  /** `q` times the divisor: for each term of `q` the divisor, shifted. */
  function TimesDivisor(q: Bits): (p: Bits)
    ensures |p| == |q| + 8
  {
    if q == [] then Zeros(8)
    else
      var n := |q| - 1;
      Xor(TimesDivisor(q[..n]) + [false], Zeros(n) + if q[n] then DIVISOR else Zeros(9))
  }

  /** A message as a polynomial. */
  function Message(data: seq<Byte>): (m: Bits)
    ensures |m| == 8 * |data|
  {
    if data == [] then [] else Message(data[..|data| - 1]) + data[|data| - 1]
  }

  /** `r` is what is left of m(x) x^8 after taking away some multiple of the divisor. */
  ghost predicate IsRemainder(m: Bits, r: Byte) {
    exists q: Bits :: |q| == |m| && m + Zeros(8) == Xor(TimesDivisor(q), Zeros(|m|) + r)
  }

  // ----- the loop, bit by bit -----

  function BitStep(c: Byte, b: bool): Byte {
    ShtShift(c[0 := c[0] != b])
  }

  function BitCrc(c: Byte, m: Bits): Byte {
    if m == [] then c else BitStep(BitCrc(c, m[..|m| - 1]), m[|m| - 1])
  }

  lemma {:induction false} BitCrcSplit(c: Byte, m: Bits, n: Bits)
    ensures BitCrc(c, m + n) == BitCrc(BitCrc(c, m), n)
  {
    hide BitStep;
    if n == [] {
      assert m + n == m;
    } else {
      var k := |n| - 1;
      assert (m + n)[..|m + n| - 1] == m + n[..k];
      BitCrcSplit(c, m, n[..k]);
    }
  }

  /** After `k` turns the register is that of the first `k` bits alone, with the
      others still waiting in its upper bits. */
  lemma {:induction false} ByteInBits(c: Byte, d: Byte, k: nat)
    requires k <= 8
    ensures ShtShifts(Xor(c, d), k) == Xor(BitCrc(c, d[..k]), Left(d, k))
  {
    if k == 0 {
      assert d[..0] == [] && Left(d, 0) == d;
    } else {
      hide ShtShift, BitStep;
      ByteInBits(c, d, k - 1);
      assert d[..k][..k - 1] == d[..k - 1];
      ShiftTakesTopBit(BitCrc(c, d[..k - 1]), Left(d, k - 1));
      assert Left(Left(d, k - 1), 1) == Left(d, k);
    }
  }

  lemma {:induction false} ShiftTakesTopBit(c: Byte, y: Byte)
    ensures ShtShift(Xor(c, y)) == Xor(BitStep(c, y[0]), Left(y, 1))
  {
  }

  lemma {:induction false} ByteIsEightBits(c: Byte, d: Byte)
    ensures ShtShifts(Xor(c, d), 8) == BitCrc(c, d)
  {
    hide BitStep, BitCrc, ShtShifts;
    ByteInBits(c, d, 8);
    assert d[..8] == d;
    assert Xor(BitCrc(c, d), Left(d, 8)) == BitCrc(c, d);
  }

  lemma {:induction false} CrcIsBitCrc(data: seq<Byte>)
    ensures ShtCrc(data) == BitCrc(Zeros(8), Message(data))
  {
    hide ShtShifts, BitStep;
    if data != [] {
      var n := |data| - 1;
      CrcIsBitCrc(data[..n]);
      BitCrcSplit(Zeros(8), Message(data[..n]), data[n]);
      ByteIsEightBits(ShtCrc(data[..n]), data[n]);
    }
  }

  // ----- the remainder -----

  /** The loop performs long division: `q` is the quotient it passes over. */
  lemma {:induction false} LoopDivides(m: Bits) returns (q: Bits)
    ensures |q| == |m| && m + Zeros(8) == Xor(TimesDivisor(q), Zeros(|m|) + BitCrc(Zeros(8), m))
  {
    if m == [] {
      q := [];
      assert m + Zeros(8) == Zeros(8) && Zeros(0) + BitCrc(Zeros(8), m) == Zeros(8);
    } else {
      var n := |m| - 1;
      var p := LoopDivides(m[..n]);
      var c := BitCrc(Zeros(8), m[..n]);
      var t := c[0] != m[n];
      q := p + [t];
      assert q[..n] == p;
      DivisionStep(m, n, p, c, t);
    }
  }

  lemma {:induction false} DivisionStep(m: Bits, n: nat, p: Bits, c: Byte, t: bool)
    requires |m| == n + 1 && |p| == n && t == (c[0] != m[n])
    requires m[..n] + Zeros(8) == Xor(TimesDivisor(p), Zeros(n) + c)
    ensures m + Zeros(8) == Xor(Xor(TimesDivisor(p) + [false], Zeros(n) + if t then DIVISOR else Zeros(9)),
                                Zeros(n + 1) + BitStep(c, m[n]))
  {
    hide TimesDivisor, BitStep;
    var x, d, z := TimesDivisor(p), if t then DIVISOR else Zeros(9), BitStep(c, m[n]);
    DividedSoFar(m[..n], x, c);
    BitStepAt(c, m[n]);
    var l, r := m + Zeros(8), Xor(Xor(x + [false], Zeros(n) + d), Zeros(n + 1) + z);
    forall i | 0 <= i < n + 9 ensures l[i] == r[i] {
      assert r[i] == (((x + [false])[i] != (Zeros(n) + d)[i]) != (Zeros(n + 1) + z)[i]);
    }
  }

  lemma {:induction false} DividedSoFar(m: Bits, x: Bits, c: Byte)
    requires |x| == |m| + 8 && m + Zeros(8) == Xor(x, Zeros(|m|) + c)
    ensures forall i | 0 <= i < |x| :: x[i] == if i < |m| then m[i] else c[i - |m|]
  {
  }

  lemma {:induction false} BitStepAt(c: Byte, b: bool)
    ensures forall j | 0 <= j < 8 ::
              BitStep(c, b)[j] == ((if j < 7 then c[j + 1] else false) != (c[0] != b && DIVISOR[j + 1]))
  {
  }

  /** Long division with the bits shifted in at the low end. */
  function DivStep(r: Byte, b: bool): Byte {
    var s := ShtShift(r);
    s[7 := s[7] != b]
  }

  function DivRun(m: Bits): Byte {
    if m == [] then Zeros(8) else DivStep(DivRun(m[..|m| - 1]), m[|m| - 1])
  }

  lemma {:induction false} DivStepLinear(r: Byte, s: Byte, a: bool, b: bool)
    ensures DivStep(Xor(r, s), a != b) == Xor(DivStep(r, a), DivStep(s, b))
  {
  }

  lemma {:induction false} DivRunLinear(a: Bits, b: Bits)
    requires |a| == |b|
    ensures DivRun(Xor(a, b)) == Xor(DivRun(a), DivRun(b))
  {
    hide DivStep;
    if a != [] {
      var n := |a| - 1;
      DivRunLinear(a[..n], b[..n]);
      assert Xor(a, b)[..n] == Xor(a[..n], b[..n]);
      DivStepLinear(DivRun(a[..n]), DivRun(b[..n]), a[n], b[n]);
    }
  }

  /** Fewer than nine bits after zeros are their own remainder. */
  lemma {:induction false} DivRunShort(n: nat, r: Bits)
    requires |r| <= 8
    ensures DivRun(Zeros(n) + r) == Zeros(8 - |r|) + r
    decreases n + |r|
  {
    var m := Zeros(n) + r;
    if m != [] {
      var k := |m| - 1;
      if r == [] {
        assert m[..k] == Zeros(n - 1) + [];
        DivRunShort(n - 1, []);
      } else {
        assert m[..k] == Zeros(n) + r[..|r| - 1];
        DivRunShort(n, r[..|r| - 1]);
      }
    }
  }

  lemma {:induction false} DivRunOne(m: Bits, b: bool)
    ensures DivRun(m + [b]) == DivStep(DivRun(m), b)
  {
  }

  lemma {:induction false} DivRunMultiple(q: Bits)
    ensures DivRun(TimesDivisor(q)) == Zeros(8)
  {
    hide DivRun, DivStep;
    if q == [] {
      DivRunShort(0, Zeros(8));
      assert Zeros(0) + Zeros(8) == Zeros(8);
    } else {
      var n := |q| - 1;
      DivRunMultiple(q[..n]);
      var x, d := TimesDivisor(q[..n]), if q[n] then DIVISOR else Zeros(9);
      DivRunOne(x, false);
      DivRunDivisor(n, d);
      DivRunLinear(x + [false], Zeros(n) + d);
      DivStepZero();
      assert Xor(Zeros(8), Zeros(8)) == Zeros(8);
    }
  }

  lemma {:induction false} DivStepZero()
    ensures DivStep(Zeros(8), false) == Zeros(8)
  {
  }

  /** The divisor leaves nothing. */
  lemma {:induction false} DivRunDivisor(n: nat, d: Bits)
    requires d == DIVISOR || d == Zeros(9)
    ensures DivRun(Zeros(n) + d) == Zeros(8)
  {
    hide DivRun;
    DivRunShort(n, d[..8]);
    assert Zeros(0) + d[..8] == d[..8];
    DivRunOne(Zeros(n) + d[..8], d[8]);
    assert Zeros(n) + d == Zeros(n) + d[..8] + [d[8]];
    assert DivStep(d[..8], d[8]) == Zeros(8);
  }

  /** The SHT21 loop computes the remainder of M(x) x^8 by x^8 + x^5 + x^4 + 1, for
      messages of any length, and there is no other. */
  lemma {:induction false} CrcIsTheRemainder(data: seq<Byte>, r: Byte)
    ensures IsRemainder(Message(data), r) <==> r == ShtCrc(data)
  {
    hide ShtCrc, BitCrc, Message, TimesDivisor;
    var m := Message(data);
    var q := LoopDivides(m);
    CrcIsBitCrc(data);
    RemainderIsDivRun(m, q, ShtCrc(data));
    if IsRemainder(m, r) {
      var p :| |p| == |m| && m + Zeros(8) == Xor(TimesDivisor(p), Zeros(|m|) + r);
      RemainderIsDivRun(m, p, r);
    }
  }

  lemma {:induction false} RemainderIsDivRun(m: Bits, q: Bits, r: Byte)
    requires |q| == |m| && m + Zeros(8) == Xor(TimesDivisor(q), Zeros(|m|) + r)
    ensures DivRun(m + Zeros(8)) == r
  {
    hide DivRun, TimesDivisor;
    DivRunLinear(TimesDivisor(q), Zeros(|m|) + r);
    DivRunMultiple(q);
    DivRunShort(|m|, r);
    assert Zeros(0) + r == r && Xor(Zeros(8), r) == r;
  }

  // ----- checking and error detection -----

  lemma {:induction false} ShiftInjective(c: Byte, d: Byte)
    requires ShtShift(c) == ShtShift(d)
    ensures c == d
  {
    var x, y := ShtShift(c), ShtShift(d);
    assert x[7] == c[0] && y[7] == d[0];
    forall i | 1 <= i < 8 ensures c[i] == d[i] {
      assert x[i - 1] == (c[i] != (c[0] && Hex(3, 1)[i - 1]));
      assert y[i - 1] == (d[i] != (d[0] && Hex(3, 1)[i - 1]));
    }
  }

  lemma {:induction false} ShiftsInjective(c: Byte, d: Byte, n: nat)
    requires ShtShifts(c, n) == ShtShifts(d, n)
    ensures c == d
  {
    hide ShtShift;
    if n > 0 {
      ShiftInjective(ShtShifts(c, n - 1), ShtShifts(d, n - 1));
      ShiftsInjective(c, d, n - 1);
    }
  }

  lemma {:induction false} ZeroStaysZero(n: nat)
    ensures ShtShifts(Zeros(8), n) == Zeros(8)
  {
    if n > 0 {
      ZeroStaysZero(n - 1);
    }
  }

  /** The check over data and checksum gives 0 exactly for the right checksum. */
  lemma {:induction false} ZeroCheck(data: seq<Byte>, sum: Byte)
    ensures ShtCrc(data + [sum]) == Zeros(8) <==> sum == ShtCrc(data)
  {
    hide ShtShifts;
    assert (data + [sum])[..|data|] == data;
    var x := Xor(ShtCrc(data), sum);
    ZeroStaysZero(8);
    if sum == ShtCrc(data) {
      assert x == Zeros(8);
    }
    if ShtShifts(x, 8) == Zeros(8) {
      ShiftsInjective(x, Zeros(8), 8);
      forall i | 0 <= i < 8 ensures ShtCrc(data)[i] == sum[i] {
        assert !x[i];
      }
    }
  }

  lemma {:induction false} BitCrcInjective(c: Byte, d: Byte, m: Bits)
    requires BitCrc(c, m) == BitCrc(d, m)
    ensures c == d
  {
    hide BitStep;
    if m != [] {
      var n := |m| - 1;
      StepInjective(BitCrc(c, m[..n]), BitCrc(d, m[..n]), m[n]);
      BitCrcInjective(c, d, m[..n]);
    }
  }

  lemma {:induction false} StepInjective(x: Byte, y: Byte, b: bool)
    requires BitStep(x, b) == BitStep(y, b)
    ensures x == y
  {
    var u, v: Byte := x[0 := x[0] != b], y[0 := y[0] != b];
    ShiftInjective(u, v);
    assert x == u[0 := u[0] != b] && y == v[0 := v[0] != b];
  }

  lemma {:induction false} WindowInjective(c: Byte, v: Byte, w: Byte)
    requires BitCrc(c, v) == BitCrc(c, w)
    ensures v == w
  {
    hide ShtShifts, BitCrc;
    ByteIsEightBits(c, v);
    ByteIsEightBits(c, w);
    ShiftsInjective(Xor(c, v), Xor(c, w), 8);
    forall i | 0 <= i < 8 ensures v[i] == w[i] {
      assert Xor(c, v)[i] == Xor(c, w)[i];
    }
  }

  lemma {:induction false} MessageInjective(a: seq<Byte>, b: seq<Byte>)
    requires |a| == |b| && Message(a) == Message(b)
    ensures a == b
  {
    if a != [] {
      var n := |a| - 1;
      assert Message(a)[..8 * n] == Message(a[..n]) && Message(b)[..8 * n] == Message(b[..n]);
      assert Message(a)[8 * n..] == a[n] && Message(b)[8 * n..] == b[n];
      MessageInjective(a[..n], b[..n]);
      assert a == a[..n] + [a[n]] && b == b[..n] + [b[n]];
    }
  }

  /** Any error confined to eight consecutive bits changes the checksum; so it is
      caught wherever it hits data and checksum, where the check should give 0. */
  lemma {:induction false} BurstDetected(a: seq<Byte>, b: seq<Byte>, i: nat)
    requires |a| == |b| && a != b && i + 8 <= 8 * |a|
    requires Message(a)[..i] == Message(b)[..i] && Message(a)[i + 8..] == Message(b)[i + 8..]
    ensures ShtCrc(a) != ShtCrc(b)
  {
    hide ShtCrc, BitCrc, Message;
    var m, n := Message(a), Message(b);
    CrcIsBitCrc(a);
    CrcIsBitCrc(b);
    SplitAtWindow(m, i);
    SplitAtWindow(n, i);
    if ShtCrc(a) == ShtCrc(b) {
      var c := BitCrc(Zeros(8), m[..i]);
      BitCrcInjective(BitCrc(c, m[i..i + 8]), BitCrc(c, n[i..i + 8]), m[i + 8..]);
      WindowInjective(c, m[i..i + 8], n[i..i + 8]);
      assert m == m[..i] + m[i..i + 8] + m[i + 8..] && n == n[..i] + n[i..i + 8] + n[i + 8..];
      MessageInjective(a, b);
      assert false;
    }
  }

  lemma {:induction false} SplitAtWindow(m: Bits, i: nat)
    requires i + 8 <= |m|
    ensures BitCrc(Zeros(8), m) == BitCrc(BitCrc(BitCrc(Zeros(8), m[..i]), m[i..i + 8]), m[i + 8..])
  {
    assert m == m[..i] + m[i..i + 8] + m[i + 8..];
    BitCrcSplit(Zeros(8), m[..i], m[i..i + 8]);
    BitCrcSplit(Zeros(8), m[..i] + m[i..i + 8], m[i + 8..]);
  }

  // ----- the mirror image -----

  /** The masks and shifts of `reverse_bits` do reverse the bits. */
  lemma {:induction false} ReverseBitsReverses(c: Byte)
    ensures forall i | 0 <= i < 8 :: ReverseBits(c)[i] == c[7 - i]
  {
    hide Or, And, Left, Right, Hex;
    var a := Or(Right(And(c, Hex(0xA, 0xA)), 1), Left(And(c, Hex(5, 5)), 1));
    SwapNeighbours(c);
    var b := Or(Right(And(a, Hex(0xC, 0xC)), 2), Left(And(a, Hex(3, 3)), 2));
    SwapPairs(a);
    SwapHalves(b);
    assert ReverseBits(c) == Or(Right(And(b, Hex(0xF, 0)), 4), Left(And(b, Hex(0, 0xF)), 4));
  }

  lemma {:induction false} SwapNeighbours(c: Byte)
    ensures Or(Right(And(c, Hex(0xA, 0xA)), 1), Left(And(c, Hex(5, 5)), 1)) ==
            [c[1], c[0], c[3], c[2], c[5], c[4], c[7], c[6]]
  {
    assert Hex(0xA, 0xA) == [true, false, true, false, true, false, true, false];
    assert Hex(5, 5) == [false, true, false, true, false, true, false, true];
  }

  lemma {:induction false} SwapPairs(c: Byte)
    ensures Or(Right(And(c, Hex(0xC, 0xC)), 2), Left(And(c, Hex(3, 3)), 2)) ==
            [c[2], c[3], c[0], c[1], c[6], c[7], c[4], c[5]]
  {
    assert Hex(0xC, 0xC) == [true, true, false, false, true, true, false, false];
    assert Hex(3, 3) == [false, false, true, true, false, false, true, true];
  }

  lemma {:induction false} SwapHalves(c: Byte)
    ensures Or(Right(And(c, Hex(0xF, 0)), 4), Left(And(c, Hex(0, 0xF)), 4)) ==
            [c[4], c[5], c[6], c[7], c[0], c[1], c[2], c[3]]
  {
    assert Hex(0xF, 0) == [true, true, true, true, false, false, false, false];
    assert Hex(0, 0xF) == [false, false, false, false, true, true, true, true];
  }

  lemma {:induction false} ReverseTwice(c: Byte)
    ensures ReverseBits(ReverseBits(c)) == c
  {
    hide ReverseBits;
    ReverseBitsReverses(c);
    ReverseBitsReverses(ReverseBits(c));
  }

  lemma {:induction false} ReverseXor(c: Byte, d: Byte)
    ensures ReverseBits(Xor(c, d)) == Xor(ReverseBits(c), ReverseBits(d))
  {
    hide ReverseBits;
    ReverseBitsReverses(c);
    ReverseBitsReverses(d);
    ReverseBitsReverses(Xor(c, d));
  }

  /** A turn of one loop is a turn of the other in the mirror. */
  lemma {:induction false} TurnsMirrored(c: Byte)
    ensures ReverseBits(OwShift(c)) == ShtShift(ReverseBits(c))
  {
    hide ReverseBits, Hex, Left, Right;
    MirroredParts(c);
    ReverseBitsReverses(c);
    ReverseBitsReverses(OwShift(c));
    var x, y := ReverseBits(OwShift(c)), ShtShift(ReverseBits(c));
    forall i | 0 <= i < 8 ensures x[i] == y[i] {
      assert x[i] == OwShift(c)[7 - i];
    }
  }

  lemma {:induction false} MirroredParts(c: Byte)
    ensures forall i | 0 <= i < 8 :: Hex(8, 0xC)[7 - i] == Hex(3, 1)[i]
    ensures forall i | 0 <= i < 8 :: Right(c, 1)[i] == if i == 0 then false else c[i - 1]
    ensures forall d: Byte, i | 0 <= i < 8 :: Left(d, 1)[i] == if i == 7 then false else d[i + 1]
  {
  }

  lemma {:induction false} ShiftsMirrored(c: Byte, n: nat)
    ensures ReverseBits(OwShifts(c, n)) == ShtShifts(ReverseBits(c), n)
  {
    hide ReverseBits, OwShift, ShtShift;
    if n > 0 {
      ShiftsMirrored(c, n - 1);
      TurnsMirrored(OwShifts(c, n - 1));
    }
  }

  function Mirrored(data: seq<Byte>): (m: seq<Byte>)
    ensures |m| == |data| && forall i | 0 <= i < |m| :: m[i] == ReverseBits(data[i])
  {
    seq(|data|, i requires 0 <= i < |data| => ReverseBits(data[i]))
  }

  /** The two sensors' checksums are the same code, read in opposite bit orders. */
  lemma {:induction false} CrcsMirrored(data: seq<Byte>)
    ensures ReverseBits(OwCrc(data)) == ShtCrc(Mirrored(data))
  {
    hide ReverseBits, OwShifts, ShtShifts;
    if data == [] {
      ReverseBitsReverses(Zeros(8));
      assert ReverseBits(Zeros(8)) == Zeros(8);
    } else {
      var n := |data| - 1;
      CrcsMirrored(data[..n]);
      assert Mirrored(data)[..n] == Mirrored(data[..n]);
      ReverseXor(OwCrc(data[..n]), data[n]);
      ShiftsMirrored(Xor(OwCrc(data[..n]), data[n]), 8);
    }
  }

  /** Hence the check of a serial number read from a 1-Wire bus, too, passes exactly
      for the right checksum octet. */
  lemma {:induction false} OnewireZeroCheck(data: seq<Byte>, sum: Byte)
    ensures OwCrc(data + [sum]) == Zeros(8) <==> sum == OwCrc(data)
  {
    hide ReverseBits, OwCrc, ShtCrc;
    CrcsMirrored(data + [sum]);
    CrcsMirrored(data);
    assert Mirrored(data + [sum]) == Mirrored(data) + [ReverseBits(sum)];
    ZeroCheck(Mirrored(data), ReverseBits(sum));
    ReverseBitsReverses(Zeros(8));
    assert ReverseBits(Zeros(8)) == Zeros(8);
    ReverseTwice(OwCrc(data + [sum]));
    ReverseTwice(OwCrc(data));
    ReverseTwice(sum);
  }
}
