/** The two CRC-8 loops, `iBSP430sensorsSHT21crc` of `src/sensors/sht21.c` and
    `iBSP430onewireComputeCRC` of `src/utility/onewire.c`, and the bit reversal
    of `src/utility/sharplcd.c`.  An octet is its eight bits, highest first. */
module Crc {

  type Bits = seq<bool>

  type Byte = b: seq<bool> | |b| == 8 witness seq(8, _ => false)

  function Zeros(n: nat): (z: Bits)
    ensures |z| == n && forall i | 0 <= i < n :: !z[i]
  {
    seq(n, _ => false)
  }

  /** Bitwise `^`. */
  function Xor(a: Bits, b: Bits): (c: Bits)
    requires |a| == |b|
    ensures |c| == |a| && forall i | 0 <= i < |a| :: c[i] == (a[i] != b[i])
  {
    seq(|a|, i requires 0 <= i < |a| => a[i] != b[i])
  }

  /** Bitwise `&` and `|`. */
  function And(a: Byte, b: Byte): (c: Byte)
    ensures forall i | 0 <= i < 8 :: c[i] == (a[i] && b[i])
  {
    seq(8, i requires 0 <= i < 8 => a[i] && b[i])
  }

  function Or(a: Byte, b: Byte): (c: Byte)
    ensures forall i | 0 <= i < 8 :: c[i] == (a[i] || b[i])
  {
    seq(8, i requires 0 <= i < 8 => a[i] || b[i])
  }

  /** `<<` and `>>` on eight bits. */
  function Left(c: Byte, n: nat): Byte
    requires n <= 8
  {
    c[n..] + Zeros(n)
  }

  function Right(c: Byte, n: nat): Byte
    requires n <= 8
  {
    Zeros(n) + c[..8 - n]
  }

  /** The octet with these two hexadecimal digits. */
  function Hex(hi: int, lo: int): Byte {
    [hi / 8 % 2 == 1, hi / 4 % 2 == 1, hi / 2 % 2 == 1, hi % 2 == 1,
     lo / 8 % 2 == 1, lo / 4 % 2 == 1, lo / 2 % 2 == 1, lo % 2 == 1]
  }

  // ----- the loops as functions -----

  /** One turn of the SHT21 inner loop; its constant 0x131 is cut to 8 bits. */
  function ShtShift(c: Byte): Byte {
    if c[0] then Xor(Left(c, 1), Hex(3, 1)) else Left(c, 1)
  }

  /** One turn of the 1-Wire inner loop. */
  function OwShift(c: Byte): Byte {
    if c[7] then Xor(Right(c, 1), Hex(8, 0xC)) else Right(c, 1)
  }

  function ShtShifts(c: Byte, n: nat): Byte {
    if n == 0 then c else ShtShift(ShtShifts(c, n - 1))
  }

  function OwShifts(c: Byte, n: nat): Byte {
    if n == 0 then c else OwShift(OwShifts(c, n - 1))
  }

  function ShtCrc(data: seq<Byte>): Byte {
    if data == [] then Zeros(8) else ShtShifts(Xor(ShtCrc(data[..|data| - 1]), data[|data| - 1]), 8)
  }

  function OwCrc(data: seq<Byte>): Byte {
    if data == [] then Zeros(8) else OwShifts(Xor(OwCrc(data[..|data| - 1]), data[|data| - 1]), 8)
  }

  /** `reverse_bits`, portable version. */
  function ReverseBits(i: Byte): Byte {
    var a := Or(Right(And(i, Hex(0xA, 0xA)), 1), Left(And(i, Hex(5, 5)), 1));
    var b := Or(Right(And(a, Hex(0xC, 0xC)), 2), Left(And(a, Hex(3, 3)), 2));
    Or(Right(And(b, Hex(0xF, 0)), 4), Left(And(b, Hex(0, 0xF)), 4))
  }

  // ----- the loops -----

  method Sht21Crc(data: seq<Byte>) returns (crc: Byte)
    ensures crc == ShtCrc(data)
  {
    hide ShtShift;
    crc := Zeros(8);
    for i := 0 to |data|
      invariant crc == ShtCrc(data[..i])
    {
      ghost var start := Xor(crc, data[i]);
      crc := Xor(crc, data[i]);
      for bi := 0 to 8
        invariant crc == ShtShifts(start, bi)
      {
        crc := ShtTurn(crc);
      }
      assert data[..i + 1][..i] == data[..i];
    }
    assert data[..|data|] == data;
  }

  method ShtTurn(crc0: Byte) returns (crc: Byte)
    ensures crc == ShtShift(crc0)
  {
    crc := crc0;
    if crc[0] {
      crc := Xor(Left(crc, 1), Hex(3, 1));
    } else {
      crc := Left(crc, 1);
    }
  }

  method OnewireCrc(romp: seq<Byte>) returns (crc: Byte)
    ensures crc == OwCrc(romp)
  {
    hide OwShift;
    crc := Zeros(8);
    for i := 0 to |romp|
      invariant crc == OwCrc(romp[..i])
    {
      ghost var start := Xor(crc, romp[i]);
      crc := Xor(crc, romp[i]);
      for bi := 0 to 8
        invariant crc == OwShifts(start, bi)
      {
        crc := OwTurn(crc);
      }
      assert romp[..i + 1][..i] == romp[..i];
    }
    assert romp[..|romp|] == romp;
  }

  method OwTurn(crc0: Byte) returns (crc: Byte)
    ensures crc == OwShift(crc0)
  {
    crc := crc0;
    if crc[7] {
      crc := Xor(Right(crc, 1), Hex(8, 0xC));
    } else {
      crc := Right(crc, 1);
    }
  }
}
