/** Image CRC: the frame check sequence of clause 3.2.9 of IEEE 802.3-2018, in reflected form
    (polynomial 0xEDB88320, initial value and final XOR all ones). */
module Crc32 {
  import opened Bytes

  const ONES: bv32 := 0xFFFF_FFFF

  function Xor(x: bv32, y: bv32): bv32 {
    x ^ y
  }

  function Half(c: bv32): bv32 {
    c >> 1
  }

  const POLY: bv32 := 0xEDB8_8320

  /** A one is about to fall out of the register. */
  predicate Low(c: bv32) {
    c & 1 != 0
  }

  /** The polynomial, when a one falls out. */
  function Tap(c: bv32): bv32 {
    if Low(c) then POLY else 0
  }

  /** One bit of the register: shift right, add the polynomial when a one falls out. */
  function Shift(c: bv32): bv32 {
    Xor(Half(c), Tap(c))
  }

  function Bits(c: bv32, k: nat): bv32
    decreases k
  {
    if k == 0 then c else Bits(Shift(c), k - 1)
  }

  function Wide(b: byte): bv32 {
    Bv(b) as bv32
  }

  function Step(crc: bv32, b: byte): bv32 {
    Bits(Xor(crc, Wide(b)), 8)
  }

  function Fold(crc: bv32, s: seq<byte>): bv32
    decreases s
  {
    if s == [] then crc else Fold(Step(crc, s[0]), s[1..])
  }

  function Crc32(s: seq<byte>): bv32 {
    Xor(Fold(ONES, s), ONES)
  }

  // ---- the two programs ----

  lemma ShiftIsConditional(c: bv32)
    ensures Shift(c) == if c & 1 != 0 then (c >> 1) ^ 0xEDB8_8320 else c >> 1
  {
    assert Low(c) <==> c & 1 != 0;
    hide Low, Xor;
    XorZero(Half(c));
    XorPoly(Half(c));
  }

  lemma XorPoly(x: bv32)
    ensures Xor(x, POLY) == x ^ 0xEDB8_8320
  {
  }

  /** Device: one byte into the register. */
  method UpdCrc32Update(crc0: bv32, b: byte) returns (crc: bv32)
    ensures crc == Step(crc0, b)
  {
    crc := crc0 ^ (Bv(b) as bv32);
    assert crc == Xor(crc0, Wide(b));
    for k := 0 to 8
      invariant Bits(crc, 8 - k) == Step(crc0, b)
    {
      hide Shift, Step, Xor;
      ShiftIsConditional(crc);
      crc := if crc & 1 != 0 then (crc >> 1) ^ 0xEDB8_8320 else crc >> 1;
    }
  }

  /** Host: the CRC of a whole image. */
  method HostCrc32(data: seq<byte>) returns (crc: bv32)
    ensures crc == Crc32(data)
  {
    hide Shift, Xor;
    crc := ONES;
    for i := 0 to |data|
      invariant Fold(crc, data[i..]) == Fold(ONES, data)
    {
      ghost var start := crc;
      XorIsBitwise(crc, data[i]);
      crc := crc ^ (Bv(data[i]) as bv32);
      for k := 0 to 8
        invariant Bits(crc, 8 - k) == Step(start, data[i])
      {
        ShiftIsConditional(crc);
        crc := if crc & 1 != 0 then (crc >> 1) ^ 0xEDB8_8320 else crc >> 1;
      }
      assert data[i..][1..] == data[i + 1..];
    }
    FinalXor(crc);
    crc := crc ^ ONES;
  }

  lemma XorIsBitwise(c: bv32, b: byte)
    ensures Xor(c, Wide(b)) == c ^ (Bv(b) as bv32)
  {
  }

  lemma FinalXor(c: bv32)
    ensures Xor(c, ONES) == c ^ ONES
  {
  }

  // ---- exclusive or is a group operation, and Shift respects it ----

  lemma XorZero(x: bv32)
    ensures Xor(x, 0) == x
  {
  }

  lemma XorAssoc(x: bv32, y: bv32, z: bv32)
    ensures Xor(Xor(x, y), z) == Xor(x, Xor(y, z))
  {
  }

  lemma XorCancel(x: bv32, y: bv32, z: bv32)
    requires Xor(x, z) == Xor(y, z) || Xor(z, x) == Xor(z, y)
    ensures x == y
  {
  }

  lemma XorCommutes(x: bv32, y: bv32)
    ensures Xor(x, y) == Xor(y, x)
  {
  }

  lemma XorSwap(a: bv32, b: bv32, p: bv32, q: bv32)
    ensures Xor(Xor(a, b), Xor(p, q)) == Xor(Xor(a, p), Xor(b, q))
  {
    hide Xor;
    XorAssoc(a, b, Xor(p, q));
    XorAssoc(b, p, q);
    XorCommutes(b, p);
    XorAssoc(p, b, q);
    XorAssoc(a, p, Xor(b, q));
  }

  lemma HalfLinear(x: bv32, y: bv32)
    ensures Half(Xor(x, y)) == Xor(Half(x), Half(y))
  {
  }

  lemma LowLinear(x: bv32, y: bv32)
    ensures Low(Xor(x, y)) == (Low(x) != Low(y))
  {
  }

  lemma PolyXors()
    ensures Xor(0, 0) == 0 && Xor(POLY, POLY) == 0 && Xor(POLY, 0) == POLY && Xor(0, POLY) == POLY
  {
  }

  lemma TapLinear(x: bv32, y: bv32)
    ensures Tap(Xor(x, y)) == Xor(Tap(x), Tap(y))
  {
    hide Xor, Low;
    LowLinear(x, y);
    PolyXors();
  }

  lemma ShiftLinear(x: bv32, y: bv32)
    ensures Shift(Xor(x, y)) == Xor(Shift(x), Shift(y))
  {
    hide Xor, Half, Tap;
    HalfLinear(x, y);
    TapLinear(x, y);
    XorSwap(Half(x), Half(y), Tap(x), Tap(y));
  }

  lemma ShiftInjective(x: bv32, y: bv32)
    requires Shift(x) == Shift(y)
    ensures x == y
  {
  }

  lemma {:induction false} BitsLinear(x: bv32, y: bv32, k: nat)
    ensures Bits(Xor(x, y), k) == Xor(Bits(x, k), Bits(y, k))
    decreases k
  {
    hide Shift, Xor;
    if k > 0 {
      ShiftLinear(x, y);
      BitsLinear(Shift(x), Shift(y), k - 1);
    }
  }

  lemma {:induction false} BitsInjective(x: bv32, y: bv32, k: nat)
    requires Bits(x, k) == Bits(y, k)
    ensures x == y
    decreases k
  {
    hide Shift;
    if k > 0 {
      BitsInjective(Shift(x), Shift(y), k - 1);
      ShiftInjective(x, y);
    }
  }

  lemma {:induction false} BitsAdd(c: bv32, j: nat, k: nat)
    ensures Bits(c, j + k) == Bits(Bits(c, j), k)
    decreases j
  {
    hide Shift;
    if j > 0 {
      BitsAdd(Shift(c), j - 1, k);
    }
  }

  lemma {:induction false} FoldAppend(crc: bv32, s: seq<byte>, t: seq<byte>)
    ensures Fold(crc, s + t) == Fold(Fold(crc, s), t)
    decreases s
  {
    hide Step;
    if s == [] {
      assert s + t == t;
    } else {
      assert (s + t)[1..] == s[1..] + t;
      FoldAppend(Step(crc, s[0]), s[1..], t);
    }
  }

  lemma {:induction false} FoldInjective(c: bv32, d: bv32, s: seq<byte>)
    requires Fold(c, s) == Fold(d, s)
    ensures c == d
    decreases s
  {
    hide Xor, Bits;
    if s != [] {
      FoldInjective(Step(c, s[0]), Step(d, s[0]), s[1..]);
      BitsInjective(Xor(c, Wide(s[0])), Xor(d, Wide(s[0])), 8);
      XorCancel(c, d, Wide(s[0]));
    }
  }

  // ---- up to four octets act on the register as one word ----

  function Up8(w: bv32): bv32 {
    w << 8
  }

  predicate Top8Clear(w: bv32) {
    w & 0xFF00_0000 == 0
  }

  /** The octets as one little-endian word. */
  function Word(s: seq<byte>): bv32
    requires |s| <= 4
  {
    if s == [] then 0 else Xor(Wide(s[0]), Up8(Word(s[1..])))
  }

  lemma Unroll8(c: bv32)
    ensures Bits(c, 8) == Shift(Shift(Shift(Shift(Shift(Shift(Shift(Shift(c))))))))
  {
    hide Shift;
    var c1 := Shift(c); var c2 := Shift(c1); var c3 := Shift(c2); var c4 := Shift(c3);
    var c5 := Shift(c4); var c6 := Shift(c5); var c7 := Shift(c6);
    assert Bits(c, 8) == Bits(c1, 7) == Bits(c2, 6) == Bits(c3, 5) == Bits(c4, 4);
    assert Bits(c4, 4) == Bits(c5, 3) == Bits(c6, 2) == Bits(c7, 1) == Bits(Shift(c7), 0);
  }

  /** Bits above the low octet only move down while eight bits are shifted out. */
  lemma OctetShift(w: bv32)
    requires Top8Clear(w)
    ensures Bits(Up8(w), 8) == w
  {
    Unroll8(w << 8);
  }

  lemma WordTopClear(s: seq<byte>)
    requires |s| <= 3
    ensures Top8Clear(Word(s))
  {
    if |s| == 1 {
      assert s[1..] == [];
    } else if |s| == 2 {
      assert s[1..][1..] == [];
      assert Word(s) == Xor(Wide(s[0]), Up8(Xor(Wide(s[1]), Up8(0))));
    } else if |s| == 3 {
      assert s[1..][1..][1..] == [];
      assert Word(s[1..]) == Xor(Wide(s[1]), Up8(Word(s[1..][1..])));
      assert Word(s) == Xor(Wide(s[0]), Up8(Xor(Wide(s[1]), Up8(Xor(Wide(s[2]), Up8(0))))));
    }
  }

  lemma WordSplit(a: bv8, v: bv32, b: bv8, w: bv32)
    requires Top8Clear(v) && Top8Clear(w)
    requires Xor(a as bv32, Up8(v)) == Xor(b as bv32, Up8(w))
    ensures a == b && v == w
  {
  }

  lemma {:induction false} WordInjective(s: seq<byte>, t: seq<byte>)
    requires |s| == |t| <= 4 && Word(s) == Word(t)
    ensures s == t
  {
    hide Xor, Up8, Top8Clear, Num, Bv;
    if s != [] {
      WordTopClear(s[1..]);
      WordTopClear(t[1..]);
      WordSplit(Bv(s[0]), Word(s[1..]), Bv(t[0]), Word(t[1..]));
      assert Num(Bv(s[0])) == Num(Bv(t[0]));
      WordInjective(s[1..], t[1..]);
      assert s == [s[0]] + s[1..] && t == [t[0]] + t[1..];
    }
  }

  lemma {:induction false} FoldAsWord(c: bv32, s: seq<byte>)
    requires |s| <= 4
    ensures Fold(c, s) == Bits(Xor(c, Word(s)), 8 * |s|)
    decreases s
  {
    hide Xor, Up8, Top8Clear, Wide, Shift;
    if s == [] {
      XorZero(c);
    } else {
      var x, w := Xor(c, Wide(s[0])), Word(s[1..]);
      FoldAsWord(Step(c, s[0]), s[1..]);
      WordTopClear(s[1..]);
      BitsLinear(x, Up8(w), 8);
      OctetShift(w);
      XorAssoc(c, Wide(s[0]), Up8(w));
      BitsAdd(Xor(c, Word(s)), 8, 8 * |s[1..]|);
    }
  }

  /** Any change confined to at most four consecutive octets changes the CRC, whatever surrounds them. */
  lemma BurstDetected(pre: seq<byte>, s: seq<byte>, t: seq<byte>, post: seq<byte>)
    requires |s| == |t| <= 4 && s != t
    ensures Crc32(pre + s + post) != Crc32(pre + t + post)
  {
    hide Xor, Bits, Step, Word;
    var c := Fold(ONES, pre);
    FoldAppend(ONES, pre + s, post);
    FoldAppend(ONES, pre + t, post);
    FoldAppend(ONES, pre, s);
    FoldAppend(ONES, pre, t);
    var x, y := Fold(c, s), Fold(c, t);
    if Crc32(pre + s + post) == Crc32(pre + t + post) {
      XorCancel(Fold(x, post), Fold(y, post), ONES);
      FoldInjective(x, y, post);
      FoldAsWord(c, s);
      FoldAsWord(c, t);
      BitsInjective(Xor(c, Word(s)), Xor(c, Word(t)), 8 * |s|);
      XorCancel(Word(s), Word(t), c);
      WordInjective(s, t);
    }
  }
}
