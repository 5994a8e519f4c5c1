/** The check values that tie both CRCs to their parameters: the CRCs of the digits 1 to 9. */
module CheckValues {
  import opened Bytes
  import Crc8
  import Crc32

  const DIGITS: seq<byte> := [0x31, 0x32, 0x33, 0x34, 0x35, 0x36, 0x37, 0x38, 0x39]

  lemma Octet(b: byte, x: bv8)
    requires Num(x) == b
    ensures Bv(b) == x
  {
    NumInjective(Bv(b), x);
  }

  // ---- CRC-8 ----

  function Shift8(c: bv8): bv8 {
    Crc8.Shift(Crc8.Shift(Crc8.Shift(Crc8.Shift(Crc8.Shift(Crc8.Shift(Crc8.Shift(Crc8.Shift(c))))))))
  }

  lemma Next8(c: bv8, s: seq<byte>, x: bv8)
    requires s != [] && s[0] == Num(x)
    ensures Crc8.Fold(c, s) == Crc8.Fold(Shift8(Crc8.Xor(c, x)), s[1..])
  {
    hide Crc8.Shift, Crc8.Bits, Num, Crc8.Xor;
    Octet(s[0], x);
    Crc8.Unroll8(Crc8.Xor(c, x));
    assert Crc8.Step(c, s[0]) == Shift8(Crc8.Xor(c, x));
  }

  lemma FirstDigits8()
    ensures Crc8.Fold(0x00, DIGITS) == Crc8.Fold(0xCB, DIGITS[5..])
  {
    hide Crc8.Fold, Crc8.Step;
    Next8(0x00, DIGITS, 0x31);
    Next8(0x97, DIGITS[1..], 0x32);
    Next8(0x72, DIGITS[2..], 0x33);
    Next8(0xC0, DIGITS[3..], 0x34);
    Next8(0xC2, DIGITS[4..], 0x35);
  }

  lemma Crc8OfDigits()
    ensures Crc8.Crc8(DIGITS) == 0xF4
  {
    hide Crc8.Fold, Crc8.Step;
    FirstDigits8();
    Next8(0xCB, DIGITS[5..], 0x36);
    Next8(0xFD, DIGITS[6..], 0x37);
    Next8(0x78, DIGITS[7..], 0x38);
    Next8(0xC7, DIGITS[8..], 0x39);
    assert DIGITS[8..][1..] == [];
    NoMore8(0xF4);
  }

  lemma NoMore8(c: bv8)
    ensures Crc8.Fold(c, []) == c
  {
  }

  // ---- CRC-32 ----

  function Shift32(c: bv32): bv32 {
    Crc32.Shift(Crc32.Shift(Crc32.Shift(Crc32.Shift(Crc32.Shift(Crc32.Shift(Crc32.Shift(Crc32.Shift(c))))))))
  }

  lemma Next32(c: bv32, s: seq<byte>, x: bv8)
    requires s != [] && s[0] == Num(x)
    ensures Crc32.Fold(c, s) == Crc32.Fold(Shift32(Crc32.Xor(c, x as bv32)), s[1..])
  {
    hide Crc32.Shift, Crc32.Bits, Num, Crc32.Xor;
    Octet(s[0], x);
    Crc32.Unroll8(Crc32.Xor(c, x as bv32));
    assert Crc32.Step(c, s[0]) == Shift32(Crc32.Xor(c, x as bv32));
  }

  lemma NoMore32(c: bv32)
    ensures Crc32.Fold(c, []) == c
  {
  }

  lemma FirstDigits32()
    ensures Crc32.Fold(0xFFFF_FFFF, DIGITS) == Crc32.Fold(0x340A_C5E3, DIGITS[5..])
  {
    hide Crc32.Fold, Crc32.Step;
    Next32(0xFFFF_FFFF, DIGITS, 0x31);
    Next32(0x7C23_1048, DIGITS[1..], 0x32);
    Next32(0xB0AC_BB32, DIGITS[2..], 0x33);
    Next32(0x77B7_9C2D, DIGITS[3..], 0x34);
    Next32(0x641C_1F5C, DIGITS[4..], 0x35);
  }

  lemma Crc32OfDigits()
    ensures Crc32.Crc32(DIGITS) == 0xCBF4_3926
  {
    hide Crc32.Fold, Crc32.Step;
    FirstDigits32();
    Next32(0x340A_C5E3, DIGITS[5..], 0x36);
    Next32(0xF68D_2C9E, DIGITS[6..], 0x37);
    Next32(0xAFFC_9660, DIGITS[7..], 0x38);
    Next32(0x651F_2550, DIGITS[8..], 0x39);
    assert DIGITS[8..][1..] == [];
    NoMore32(0x340B_C6D9);
  }
}
