/** Frame CRC: CRC-8 with the parameters of the packet error code in section 5.4 of SMBus 2.0
    (polynomial 0x07, initial value 0, most significant bit first). */
module Crc8 {
  import opened Bytes

  /** One bit of the register, as a linear map: shift left, add 0x07 when a one falls out. */
  function Shift(c: bv8): bv8 {
    (c << 1) ^ ((c >> 7) * 0x07)
  }

  function Bits(c: bv8, k: nat): bv8
    decreases k
  {
    if k == 0 then c else Bits(Shift(c), k - 1)
  }

  function Xor(x: bv8, y: bv8): bv8 {
    x ^ y
  }

  function Step(crc: bv8, b: byte): bv8 {
    Bits(Xor(crc, Bv(b)), 8)
  }

  function Fold(crc: bv8, s: seq<byte>): bv8
    decreases s
  {
    if s == [] then crc else Fold(Step(crc, s[0]), s[1..])
  }

  function Crc8(s: seq<byte>): byte {
    Num(Fold(0, s))
  }

  lemma {:induction false} FoldAppend(crc: bv8, s: seq<byte>, t: seq<byte>)
    ensures Fold(crc, s + t) == Fold(Fold(crc, s), t)
    decreases s
  {
    hide Step;
    if s == [] {
      assert s + t == t;
    } else {
      assert (s + t)[1..] == s[1..] + t;
      FoldAppend(Step(crc, s[0]), s[1..], t);
    }
  }

  // ---- the two programs ----

  lemma ShiftIsConditional(c: bv8)
    ensures Shift(c) == if c & 0x80 != 0 then (c << 1) ^ 0x07 else c << 1
  {
  }

  /** Host: one byte into the register. */
  method Crc8Step(crc0: bv8, b: byte) returns (crc: bv8)
    ensures crc == Step(crc0, b)
  {
    crc := crc0 ^ Bv(b);
    assert crc == Xor(crc0, Bv(b));
    var bit := 0;
    while bit < 8
      invariant 0 <= bit <= 8
      invariant Bits(crc, 8 - bit) == Step(crc0, b)
    {
      hide Num, Bv;
      ShiftIsConditional(crc);
      if crc & 0x80 != 0 {
        crc := (crc << 1) ^ 0x07;
      } else {
        crc := crc << 1;
      }
      bit := bit + 1;
    }
  }

  /** Device: the shift is done in a wider word and masked back to eight bits. */
  method UpdCrc8(p: seq<byte>) returns (r: byte)
    ensures r == Crc8(p)
  {
    hide Num, Bv;
    var crc: bv8 := 0;
    for i := 0 to |p|
      invariant Fold(crc, p[i..]) == Fold(0, p)
    {
      ghost var start := crc;
      crc := crc ^ Bv(p[i]);
      assert crc == Xor(start, Bv(p[i]));
      for k := 0 to 8
        invariant Bits(crc, 8 - k) == Step(start, p[i])
      {
        ghost var before := crc;
        var v: bv16 := (crc as bv16) << 1;
        if crc & 0x80 != 0 {
          v := v ^ 0x07;
        }
        crc := (v & 0xFF) as bv8;
        assert crc == Shift(before);
      }
      assert p[i..][1..] == p[i + 1..];
    }
    r := Num(crc);
  }

  // ---- linearity and injectivity ----

  lemma ShiftLinear(x: bv8, y: bv8)
    ensures Shift(Xor(x, y)) == Xor(Shift(x), Shift(y))
  {
  }

  lemma ShiftInjective(x: bv8, y: bv8)
    requires Shift(x) == Shift(y)
    ensures x == y
  {
  }

  lemma {:induction false} BitsLinear(x: bv8, y: bv8, k: nat)
    ensures Bits(Xor(x, y), k) == Xor(Bits(x, k), Bits(y, k))
    decreases k
  {
    hide Shift, Xor;
    if k > 0 {
      ShiftLinear(x, y);
      BitsLinear(Shift(x), Shift(y), k - 1);
    }
  }

  lemma {:induction false} BitsInjective(x: bv8, y: bv8, k: nat)
    requires Bits(x, k) == Bits(y, k)
    ensures x == y
    decreases k
  {
    hide Shift;
    if k > 0 {
      BitsInjective(Shift(x), Shift(y), k - 1);
      ShiftInjective(x, y);
    }
  }

  lemma BitsOfZero(k: nat)
    ensures Bits(0, k) == 0
  {
  }

  lemma XorZero(x: bv8, y: bv8)
    ensures Xor(x, y) == 0 <==> x == y
  {
  }

  lemma XorCancel(x: bv8, y: bv8, z: bv8)
    requires Xor(x, z) == Xor(y, z)
    ensures x == y
  {
  }

  lemma XorSwap(a: bv8, x: bv8, b: bv8, y: bv8)
    requires Xor(a, x) == Xor(b, y)
    ensures Xor(a, b) == Xor(x, y)
  {
  }

  lemma XorCommon(c: bv8, x: bv8, y: bv8)
    ensures Xor(Xor(c, x), Xor(c, y)) == Xor(x, y)
  {
  }

  lemma {:induction false} FoldInjective(c: bv8, d: bv8, s: seq<byte>)
    requires Fold(c, s) == Fold(d, s)
    ensures c == d
    decreases s
  {
    hide Xor, Bits;
    if s != [] {
      FoldInjective(Step(c, s[0]), Step(d, s[0]), s[1..]);
      BitsInjective(Xor(c, Bv(s[0])), Xor(d, Bv(s[0])), 8);
      XorCancel(c, d, Bv(s[0]));
    }
  }

  /** A body followed by its own CRC, and nothing else, leaves the register at zero. */
  lemma Residue(body: seq<byte>, crc: byte)
    ensures Fold(0, body + [crc]) == 0 <==> crc == Crc8(body)
  {
    hide Xor, Bits, Num, Bv;
    FoldAppend(0, body, [crc]);
    var c := Fold(0, body);
    assert Fold(c, [crc]) == Step(c, crc) by { assert [crc][1..] == []; }
    BitsOfZero(8);
    XorZero(c, Bv(crc));
    BvOfNum(c);
    if Step(c, crc) == 0 {
      BitsInjective(Xor(c, Bv(crc)), 0, 8);
    }
  }

  // ---- burst detection ----

  /** The error pattern `e1`, `e2` of two adjacent octets lies within eight consecutive bits:
      the low `j` bits of the first and the high `8 - j` bits of the second. */
  predicate Burst(e1: bv8, e2: bv8, j: nat)
    requires j <= 8
  {
    e1 >> j == 0 && e2 << (8 - j) == 0 && (e1 != 0 || e2 != 0)
  }

  lemma Unroll8(c: bv8)
    ensures Bits(c, 8) == Shift(Shift(Shift(Shift(Shift(Shift(Shift(Shift(c))))))))
  {
    hide Shift;
    var c1 := Shift(c); var c2 := Shift(c1); var c3 := Shift(c2); var c4 := Shift(c3);
    var c5 := Shift(c4); var c6 := Shift(c5); var c7 := Shift(c6);
    assert Bits(c, 8) == Bits(c1, 7) == Bits(c2, 6) == Bits(c3, 5) == Bits(c4, 4);
    assert Bits(c4, 4) == Bits(c5, 3) == Bits(c6, 2) == Bits(c7, 1) == Bits(Shift(c7), 0);
  }

  lemma BurstNotCancelled(e1: bv8, e2: bv8, j: nat)
    requires j <= 8 && Burst(e1, e2, j)
    ensures Bits(e1, 8) != e2
  {
    Unroll8(e1);
    if j == 0 {} else if j == 1 {} else if j == 2 {} else if j == 3 {} else if j == 4 {}
    else if j == 5 {} else if j == 6 {} else if j == 7 {} else {}
  }

  function Difference(a: byte, b: byte): bv8 {
    Xor(Bv(a), Bv(b))
  }

  lemma NoDifference(a: byte, b: byte)
    ensures Difference(a, b) == 0 <==> a == b
  {
    hide Xor, Num, Bv;
    XorZero(Bv(a), Bv(b));
    assert Num(Bv(a)) == a && Num(Bv(b)) == b;
  }

  /** Two octets that differ by such a burst drive the register to different values. */
  lemma BurstChangesFold(c: bv8, s: seq<byte>, t: seq<byte>, j: nat)
    requires |s| == |t| == 2 && j <= 8 && Burst(Difference(s[0], t[0]), Difference(s[1], t[1]), j)
    ensures Fold(c, s) != Fold(c, t)
  {
    hide Xor, Bits, Burst, Num, Bv;
    var a, b := Step(c, s[0]), Step(c, t[0]);
    assert s[1..] == [s[1]] && t[1..] == [t[1]] && s[1..][1..] == [] && t[1..][1..] == [];
    assert Fold(c, s) == Fold(a, s[1..]) == Fold(Step(a, s[1]), s[1..][1..]);
    assert Fold(c, t) == Fold(b, t[1..]) == Fold(Step(b, t[1]), t[1..][1..]);
    if Step(a, s[1]) == Step(b, t[1]) {
      BitsInjective(Xor(a, Bv(s[1])), Xor(b, Bv(t[1])), 8);
      XorSwap(a, Bv(s[1]), b, Bv(t[1]));
      XorCommon(c, Bv(s[0]), Bv(t[0]));
      BitsLinear(Xor(c, Bv(s[0])), Xor(c, Bv(t[0])), 8);
      BurstNotCancelled(Difference(s[0], t[0]), Difference(s[1], t[1]), j);
    }
  }

  lemma FoldOfParts(c: bv8, s: seq<byte>, i: nat)
    requires i + 2 <= |s|
    ensures Fold(c, s) == Fold(Fold(Fold(c, s[..i]), s[i..i + 2]), s[i + 2..])
  {
    hide Fold;
    Rejoin(s, i, i + 2);
    FoldAppend(c, s[..i] + s[i..i + 2], s[i + 2..]);
    FoldAppend(c, s[..i], s[i..i + 2]);
  }

  /** The register distinguishes any two strings that differ only by a burst at `i`, `i + 1`. */
  lemma BurstDetected(s: seq<byte>, t: seq<byte>, i: nat, j: nat)
    requires |s| == |t| && i + 2 <= |s| && j <= 8
    requires s[..i] == t[..i] && s[i + 2..] == t[i + 2..]
    requires Burst(Difference(s[i], t[i]), Difference(s[i + 1], t[i + 1]), j)
    ensures Fold(0, s) != Fold(0, t)
  {
    hide Difference, Bits, Burst, Fold, Num, Bv;
    var c := Fold(0, s[..i]);
    FoldOfParts(0, s, i);
    FoldOfParts(0, t, i);
    assert s[i..i + 2][0] == s[i] && s[i..i + 2][1] == s[i + 1];
    assert t[i..i + 2][0] == t[i] && t[i..i + 2][1] == t[i + 1];
    if Fold(0, s) == Fold(0, t) {
      FoldInjective(Fold(c, s[i..i + 2]), Fold(c, t[i..i + 2]), s[i + 2..]);
      BurstChangesFold(c, s[i..i + 2], t[i..i + 2], j);
    }
  }
}
