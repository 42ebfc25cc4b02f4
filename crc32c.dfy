/** CRC-32C, the Castagnoli checksum (section 12.1 of RFC 3720), in the reflected,
    bit-at-a-time form: the register starts at all ones, each input byte is folded
    in least significant bit first with the reversed polynomial 0x82F63B78, and the
    register is inverted at the end. This is what crc32.Checksum computes with a
    Castagnoli table. */
module Crc32c {
  import opened Bytes

  /** The 32-bit CRC register. */
  type Register = bv32

  /** The Castagnoli polynomial 0x1EDC6F41, bit-reversed. */
  const Poly: Register := 0x82F6_3B78

  /** One shift of the CRC register. */
  function ShiftBit(crc: Register): Register {
    if crc & 1 == 1 then (crc >> 1) ^ Poly else crc >> 1
  }

  function ShiftBits(crc: Register, k: nat): Register
    decreases k
  {
    if k == 0 then crc else ShiftBits(ShiftBit(crc), k - 1)
  }

  /** The bits of n, least significant first, k of them. */
  function Bits(n: nat, k: nat): (r: seq<bool>)
    ensures |r| == k
    decreases k
  {
    if k == 0 then [] else [n % 2 == 1] + Bits(n / 2, k - 1)
  }

  /** n with its k low bits shifted out. */
  function DropBits(n: nat, k: nat): nat
    decreases k
  {
    if k == 0 then n else DropBits(n / 2, k - 1)
  }

  /** A byte as a register value: its eight bits in the low eight bits of the register. */
  function ByteBits(b: Byte): Register {
    var bits := Bits(b, 8);
    (if bits[0] then 0x01 else 0) | (if bits[1] then 0x02 else 0) |
    (if bits[2] then 0x04 else 0) | (if bits[3] then 0x08 else 0) |
    (if bits[4] then 0x10 else 0) | (if bits[5] then 0x20 else 0) |
    (if bits[6] then 0x40 else 0) | (if bits[7] then 0x80 else 0)
  }

  /** Two numbers with the same k low bits and the same remaining high part are equal. */
  lemma {:induction false} BitsInjective(n: nat, m: nat, k: nat)
    requires Bits(n, k) == Bits(m, k) && DropBits(n, k) == DropBits(m, k)
    ensures n == m
    decreases k
  {
    if k > 0 {
      assert Bits(n, k)[0] == Bits(m, k)[0];
      assert Bits(n, k)[1..] == Bits(n / 2, k - 1);
      assert Bits(m, k)[1..] == Bits(m / 2, k - 1);
      BitsInjective(n / 2, m / 2, k - 1);
    }
  }

  /** A byte has nothing above its eighth bit. */
  lemma ByteHasEightBits(b: Byte)
    ensures DropBits(b, 8) == 0
  {
    var x1: nat := b / 2;
    var x2: nat := x1 / 2;
    var x3: nat := x2 / 2;
    var x4: nat := x3 / 2;
    var x5: nat := x4 / 2;
    var x6: nat := x5 / 2;
    var x7: nat := x6 / 2;
    var x8: nat := x7 / 2;
    assert x1 < 128 && x2 < 64 && x3 < 32 && x4 < 16 && x5 < 8 && x6 < 4 && x7 < 2 && x8 == 0;
    assert DropBits(x8, 0) == 0;
    assert DropBits(x7, 1) == 0;
    assert DropBits(x6, 2) == 0;
    assert DropBits(x5, 3) == 0;
    assert DropBits(x4, 4) == 0;
    assert DropBits(x3, 5) == 0;
    assert DropBits(x2, 6) == 0;
    assert DropBits(x1, 7) == 0;
  }

  /** The register image of a byte determines its bits. */
  lemma ByteBitsDetermineBits(a: Byte, b: Byte)
    requires ByteBits(a) == ByteBits(b)
    ensures Bits(a, 8) == Bits(b, 8)
  {
    var x, y := Bits(a, 8), Bits(b, 8);
    var px, py := ByteBits(a), ByteBits(b);
    assert x[0] == (px & 0x01 != 0) && y[0] == (py & 0x01 != 0);
    assert x[1] == (px & 0x02 != 0) && y[1] == (py & 0x02 != 0);
    assert x[2] == (px & 0x04 != 0) && y[2] == (py & 0x04 != 0);
    assert x[3] == (px & 0x08 != 0) && y[3] == (py & 0x08 != 0);
    assert x[4] == (px & 0x10 != 0) && y[4] == (py & 0x10 != 0);
    assert x[5] == (px & 0x20 != 0) && y[5] == (py & 0x20 != 0);
    assert x[6] == (px & 0x40 != 0) && y[6] == (py & 0x40 != 0);
    assert x[7] == (px & 0x80 != 0) && y[7] == (py & 0x80 != 0);
  }

  /** Distinct bytes enter the register as distinct values. */
  lemma ByteBitsInjective(a: Byte, b: Byte)
    requires a != b
    ensures ByteBits(a) != ByteBits(b)
  {
    if ByteBits(a) == ByteBits(b) {
      ByteBitsDetermineBits(a, b);
      ByteHasEightBits(a);
      ByteHasEightBits(b);
      BitsInjective(a, b, 8);
    }
  }

  /** Folds one input byte into the register (one table lookup in the table-driven form). */
  function UpdateByte(crc: Register, b: Byte): Register {
    ShiftBits(crc ^ ByteBits(b), 8)
  }

  /** Folds a byte string into the register, first byte first. */
  function UpdateRegister(crc: Register, p: seq<Byte>): Register
    decreases |p|
  {
    if |p| == 0 then crc else UpdateRegister(UpdateByte(crc, p[0]), p[1..])
  }

  /** crc32.Checksum(p, crc32c), as an unsigned 32-bit number. */
  function Checksum(p: seq<Byte>): Word {
    Value(UpdateRegister(0xFFFF_FFFF, p) ^ 0xFFFF_FFFF)
  }

  /** The register read as an unsigned number. */
  function Value(r: Register): Word {
    r as int
  }

  lemma ValueInjective(a: Register, b: Register)
    requires a != b
    ensures Value(a) != Value(b)
  {
    assert (Value(a) as Register) == a;
    assert (Value(b) as Register) == b;
  }

  /** Checksumming a string in two pieces gives the same register as in one piece. */
  lemma {:induction false} UpdateRegisterConcat(crc: Register, a: seq<Byte>, b: seq<Byte>)
    ensures UpdateRegister(crc, a + b) == UpdateRegister(UpdateRegister(crc, a), b)
    decreases |a|
  {
    if |a| == 0 {
      assert a + b == b;
    } else {
      assert (a + b)[0] == a[0];
      assert (a + b)[1..] == a[1..] + b;
      UpdateRegisterConcat(UpdateByte(crc, a[0]), a[1..], b);
    }
  }

  lemma LowBitCases(c: Register)
    ensures c & 1 == 0 || c & 1 == 1
  {
  }

  lemma ShiftBitInjectiveSameLowBit(a: Register, b: Register)
    requires a & 1 == b & 1 && ShiftBit(a) == ShiftBit(b)
    ensures a == b
  {
  }

  /** An odd register shifts to a word with the top bit set (the polynomial's top
      bit), an even one to a word with the top bit clear. */
  lemma ShiftBitSeparatesLowBit(a: Register, b: Register)
    requires a & 1 == 1 && b & 1 == 0
    ensures ShiftBit(a) != ShiftBit(b)
  {
    assert ShiftBit(a) >> 31 == 1;
    assert ShiftBit(b) >> 31 == 0;
  }

  /** One shift of the register loses no information. */
  lemma ShiftBitInjective(a: Register, b: Register)
    requires ShiftBit(a) == ShiftBit(b)
    ensures a == b
  {
    LowBitCases(a);
    LowBitCases(b);
    if a & 1 == 1 && b & 1 == 0 {
      ShiftBitSeparatesLowBit(a, b);
    } else if a & 1 == 0 && b & 1 == 1 {
      ShiftBitSeparatesLowBit(b, a);
    } else {
      ShiftBitInjectiveSameLowBit(a, b);
    }
  }

  lemma {:induction false} ShiftBitsInjective(a: Register, b: Register, k: nat)
    requires ShiftBits(a, k) == ShiftBits(b, k)
    ensures a == b
    decreases k
  {
    if k > 0 {
      ShiftBitsInjective(ShiftBit(a), ShiftBit(b), k - 1);
      ShiftBitInjective(a, b);
    }
  }

  /** Different bytes folded into the same register give different registers. */
  lemma UpdateByteSeparates(crc: Register, a: Byte, b: Byte)
    requires a != b
    ensures UpdateByte(crc, a) != UpdateByte(crc, b)
  {
    ByteBitsInjective(a, b);
    XorSeparates(crc, ByteBits(a), ByteBits(b));
    if UpdateByte(crc, a) == UpdateByte(crc, b) {
      ShiftBitsInjective(crc ^ ByteBits(a), crc ^ ByteBits(b), 8);
    }
  }

  lemma XorSeparates(c: Register, x: Register, y: Register)
    requires x != y
    ensures c ^ x != c ^ y
  {
  }

  lemma XorCancels(c1: Register, c2: Register, x: Register)
    requires c1 ^ x == c2 ^ x
    ensures c1 == c2
  {
  }

  lemma ShiftXorInjective(c1: Register, c2: Register, x: Register)
    requires ShiftBits(c1 ^ x, 8) == ShiftBits(c2 ^ x, 8)
    ensures c1 == c2
  {
    ShiftBitsInjective(c1 ^ x, c2 ^ x, 8);
    XorCancels(c1, c2, x);
  }

  lemma UpdateByteInjective(c1: Register, c2: Register, b: Byte)
    requires UpdateByte(c1, b) == UpdateByte(c2, b)
    ensures c1 == c2
  {
    ShiftXorInjective(c1, c2, ByteBits(b));
  }

  /** Two different registers stay different whatever string is folded into both. */
  lemma {:induction false} UpdateRegisterInjective(c1: Register, c2: Register, p: seq<Byte>)
    requires UpdateRegister(c1, p) == UpdateRegister(c2, p)
    ensures c1 == c2
    decreases |p|
  {
    if |p| > 0 {
      UpdateRegisterInjective(UpdateByte(c1, p[0]), UpdateByte(c2, p[0]), p[1..]);
      UpdateByteInjective(c1, c2, p[0]);
    }
  }

  /** The register after a string, seen as: the prefix before position i, then the
      byte at i, then the rest. */
  lemma UpdateRegisterAround(crc: Register, p: seq<Byte>, i: nat)
    requires i < |p|
    ensures UpdateRegister(crc, p)
         == UpdateRegister(UpdateByte(UpdateRegister(crc, p[..i]), p[i]), p[i + 1..])
  {
    assert p == p[..i] + ([p[i]] + p[i + 1..]);
    UpdateRegisterConcat(crc, p[..i], [p[i]] + p[i + 1..]);
    assert ([p[i]] + p[i + 1..])[1..] == p[i + 1..];
  }

  /** The final inversion keeps different registers different. */
  lemma FinishInjective(s1: Register, s2: Register)
    requires s1 != s2
    ensures Value(s1 ^ 0xFFFF_FFFF) != Value(s2 ^ 0xFFFF_FFFF)
  {
    XorSeparates(0xFFFF_FFFF, s1, s2);
    assert s1 ^ 0xFFFF_FFFF == 0xFFFF_FFFF ^ s1 && s2 ^ 0xFFFF_FFFF == 0xFFFF_FFFF ^ s2;
    ValueInjective(s1 ^ 0xFFFF_FFFF, s2 ^ 0xFFFF_FFFF);
  }

  /** Two different bytes folded into one register, followed by the same string,
      end in different registers. */
  lemma RegistersSeparate(r: Register, a: Byte, b: Byte, y: seq<Byte>)
    requires a != b
    ensures UpdateRegister(UpdateByte(r, a), y) != UpdateRegister(UpdateByte(r, b), y)
  {
    UpdateByteSeparates(r, a, b);
    if UpdateRegister(UpdateByte(r, a), y) == UpdateRegister(UpdateByte(r, b), y) {
      UpdateRegisterInjective(UpdateByte(r, a), UpdateByte(r, b), y);
    }
  }

  /** CRC-32C detects every error confined to one byte: changing any one byte of a
      string changes its checksum. */
  lemma SingleByteErrorDetected(p: seq<Byte>, i: nat, v: Byte)
    requires i < |p| && v != p[i]
    ensures Checksum(p[i := v]) != Checksum(p)
  {
    var q := p[i := v];
    assert q[..i] == p[..i] && q[i + 1..] == p[i + 1..];
    UpdateRegisterAround(0xFFFF_FFFF, p, i);
    UpdateRegisterAround(0xFFFF_FFFF, q, i);
    RegistersSeparate(UpdateRegister(0xFFFF_FFFF, p[..i]), p[i], v, p[i + 1..]);
    FinishInjective(UpdateRegister(0xFFFF_FFFF, p), UpdateRegister(0xFFFF_FFFF, q));
  }

  /** The check value of CRC-32C: the checksum of the ASCII string "123456789",
      computed one byte at a time. */
  lemma CheckValue()
    ensures Checksum([0x31, 0x32, 0x33, 0x34, 0x35, 0x36, 0x37, 0x38, 0x39]) == 0xE306_9283
  {
    CheckFrom0();
    assert Value(0x1CF9_6D7C ^ 0xFFFF_FFFF) == 0xE306_9283;
  }

  lemma UpdateRegisterStep(crc: Register, p: seq<Byte>)
    requires |p| > 0
    ensures UpdateRegister(crc, p) == UpdateRegister(UpdateByte(crc, p[0]), p[1..])
  {
  }

  /* The register of "123456789" folded from the k-th digit on (CheckFromk). */

  lemma CheckFrom8()
    ensures UpdateRegister(0x9F78_7F65, [0x39]) == 0x1CF9_6D7C
  {
    var p: seq<Byte> := [0x39];
    CheckRegisters();
    UpdateRegisterStep(0x9F78_7F65, p);
    assert p[1..] == [];
  }

  lemma CheckFrom7()
    ensures UpdateRegister(0xEDBD_6815, [0x38, 0x39]) == 0x1CF9_6D7C
  {
    var p: seq<Byte> := [0x38, 0x39];
    CheckRegisters();
    UpdateRegisterStep(0xEDBD_6815, p);
    assert p[1..] == [0x39];
    CheckFrom8();
  }

  lemma CheckFrom6()
    ensures UpdateRegister(0xBECA_8E79, [0x37, 0x38, 0x39]) == 0x1CF9_6D7C
  {
    var p: seq<Byte> := [0x37, 0x38, 0x39];
    CheckRegisters();
    UpdateRegisterStep(0xBECA_8E79, p);
    assert p[1..] == [0x38, 0x39];
    CheckFrom7();
  }

  lemma CheckFrom5()
    ensures UpdateRegister(0xE72E_DCCA, [0x36, 0x37, 0x38, 0x39]) == 0x1CF9_6D7C
  {
    var p: seq<Byte> := [0x36, 0x37, 0x38, 0x39];
    CheckRegisters();
    UpdateRegisterStep(0xE72E_DCCA, p);
    assert p[1..] == [0x37, 0x38, 0x39];
    CheckFrom6();
  }

  lemma CheckFrom4()
    ensures UpdateRegister(0x09C5_0B11, [0x35, 0x36, 0x37, 0x38, 0x39]) == 0x1CF9_6D7C
  {
    var p: seq<Byte> := [0x35, 0x36, 0x37, 0x38, 0x39];
    CheckRegisters();
    UpdateRegisterStep(0x09C5_0B11, p);
    assert p[1..] == [0x36, 0x37, 0x38, 0x39];
    CheckFrom5();
  }

  lemma CheckFrom3()
    ensures UpdateRegister(0xEF84_D04D, [0x34, 0x35, 0x36, 0x37, 0x38, 0x39]) == 0x1CF9_6D7C
  {
    var p: seq<Byte> := [0x34, 0x35, 0x36, 0x37, 0x38, 0x39];
    CheckRegisters();
    UpdateRegisterStep(0xEF84_D04D, p);
    assert p[1..] == [0x35, 0x36, 0x37, 0x38, 0x39];
    CheckFrom4();
  }

  lemma CheckFrom2()
    ensures UpdateRegister(0x8CAA_3B9F, [0x33, 0x34, 0x35, 0x36, 0x37, 0x38, 0x39]) == 0x1CF9_6D7C
  {
    var p: seq<Byte> := [0x33, 0x34, 0x35, 0x36, 0x37, 0x38, 0x39];
    CheckRegisters();
    UpdateRegisterStep(0x8CAA_3B9F, p);
    assert p[1..] == [0x34, 0x35, 0x36, 0x37, 0x38, 0x39];
    CheckFrom3();
  }

  lemma CheckFrom1()
    ensures UpdateRegister(0x6F0A_661C, [0x32, 0x33, 0x34, 0x35, 0x36, 0x37, 0x38, 0x39]) == 0x1CF9_6D7C
  {
    var p: seq<Byte> := [0x32, 0x33, 0x34, 0x35, 0x36, 0x37, 0x38, 0x39];
    CheckRegisters();
    UpdateRegisterStep(0x6F0A_661C, p);
    assert p[1..] == [0x33, 0x34, 0x35, 0x36, 0x37, 0x38, 0x39];
    CheckFrom2();
  }

  lemma CheckFrom0()
    ensures UpdateRegister(0xFFFF_FFFF, [0x31, 0x32, 0x33, 0x34, 0x35, 0x36, 0x37, 0x38, 0x39]) == 0x1CF9_6D7C
  {
    var p: seq<Byte> := [0x31, 0x32, 0x33, 0x34, 0x35, 0x36, 0x37, 0x38, 0x39];
    CheckRegisters();
    UpdateRegisterStep(0xFFFF_FFFF, p);
    assert p[1..] == [0x32, 0x33, 0x34, 0x35, 0x36, 0x37, 0x38, 0x39];
    CheckFrom1();
  }

  /** The register after each digit of "123456789". */
  lemma CheckRegisters()
    ensures UpdateByte(0xFFFF_FFFF, 0x31) == 0x6F0A_661C
    ensures UpdateByte(0x6F0A_661C, 0x32) == 0x8CAA_3B9F
    ensures UpdateByte(0x8CAA_3B9F, 0x33) == 0xEF84_D04D
    ensures UpdateByte(0xEF84_D04D, 0x34) == 0x09C5_0B11
    ensures UpdateByte(0x09C5_0B11, 0x35) == 0xE72E_DCCA
    ensures UpdateByte(0xE72E_DCCA, 0x36) == 0xBECA_8E79
    ensures UpdateByte(0xBECA_8E79, 0x37) == 0xEDBD_6815
    ensures UpdateByte(0xEDBD_6815, 0x38) == 0x9F78_7F65
    ensures UpdateByte(0x9F78_7F65, 0x39) == 0x1CF9_6D7C
  {
    DigitBits();
    assert ShiftBits(0xFFFF_FFFF ^ 0x31, 8) == 0x6F0A_661C;
    assert ShiftBits(0x6F0A_661C ^ 0x32, 8) == 0x8CAA_3B9F;
    assert ShiftBits(0x8CAA_3B9F ^ 0x33, 8) == 0xEF84_D04D;
    assert ShiftBits(0xEF84_D04D ^ 0x34, 8) == 0x09C5_0B11;
    assert ShiftBits(0x09C5_0B11 ^ 0x35, 8) == 0xE72E_DCCA;
    assert ShiftBits(0xE72E_DCCA ^ 0x36, 8) == 0xBECA_8E79;
    assert ShiftBits(0xBECA_8E79 ^ 0x37, 8) == 0xEDBD_6815;
    assert ShiftBits(0xEDBD_6815 ^ 0x38, 8) == 0x9F78_7F65;
    assert ShiftBits(0x9F78_7F65 ^ 0x39, 8) == 0x1CF9_6D7C;
  }

  /** The register images of the ASCII digits 1 to 9. */
  lemma DigitBits()
    ensures ByteBits(0x31) == 0x31 && ByteBits(0x32) == 0x32 && ByteBits(0x33) == 0x33
    ensures ByteBits(0x34) == 0x34 && ByteBits(0x35) == 0x35 && ByteBits(0x36) == 0x36
    ensures ByteBits(0x37) == 0x37 && ByteBits(0x38) == 0x38 && ByteBits(0x39) == 0x39
  {
    ByteBitsOf31();
    ByteBitsOf32();
    ByteBitsOf33();
    ByteBitsOf34();
    ByteBitsOf35();
    ByteBitsOf36();
    ByteBitsOf37();
    ByteBitsOf38();
    ByteBitsOf39();
  }

  lemma ByteBitsOf31()
    ensures ByteBits(0x31) == 0x31
  {
    assert Bits(0x31, 8) == [true, false, false, false, true, true, false, false];
  }

  lemma ByteBitsOf32()
    ensures ByteBits(0x32) == 0x32
  {
    assert Bits(0x32, 8) == [false, true, false, false, true, true, false, false];
  }

  lemma ByteBitsOf33()
    ensures ByteBits(0x33) == 0x33
  {
    assert Bits(0x33, 8) == [true, true, false, false, true, true, false, false];
  }

  lemma ByteBitsOf34()
    ensures ByteBits(0x34) == 0x34
  {
    assert Bits(0x34, 8) == [false, false, true, false, true, true, false, false];
  }

  lemma ByteBitsOf35()
    ensures ByteBits(0x35) == 0x35
  {
    assert Bits(0x35, 8) == [true, false, true, false, true, true, false, false];
  }

  lemma ByteBitsOf36()
    ensures ByteBits(0x36) == 0x36
  {
    assert Bits(0x36, 8) == [false, true, true, false, true, true, false, false];
  }

  lemma ByteBitsOf37()
    ensures ByteBits(0x37) == 0x37
  {
    assert Bits(0x37, 8) == [true, true, true, false, true, true, false, false];
  }

  lemma ByteBitsOf38()
    ensures ByteBits(0x38) == 0x38
  {
    assert Bits(0x38, 8) == [false, false, false, true, true, true, false, false];
  }

  lemma ByteBitsOf39()
    ensures ByteBits(0x39) == 0x39
  {
    assert Bits(0x39, 8) == [true, false, false, true, true, true, false, false];
  }
}
