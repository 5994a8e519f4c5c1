/** Octets as they appear on the wire and in flash, and the little-endian fields built from them. */
module Bytes {
  type byte = b: nat | b < 0x100

  datatype Option<+T> = None | Some(value: T)

  /** Erased flash, and the filler of padded reads. */
  const BLANK: byte := 0xFF

  function Fill(n: nat): (s: seq<byte>)
    ensures |s| == n && forall i :: 0 <= i < n ==> s[i] == BLANK
  {
    seq(n, _ => BLANK)
  }

  function Min(a: int, b: int): int {
    if a < b then a else b
  }

  /** `s` with `data` written over it from offset `at`. */
  function Overlay(s: seq<byte>, at: nat, data: seq<byte>): (r: seq<byte>)
    requires at + |data| <= |s|
    ensures |r| == |s|
    ensures forall i :: 0 <= i < |s| ==> r[i] == if at <= i < at + |data| then data[i - at] else s[i]
  {
    s[..at] + data + s[at + |data|..]
  }

  // ---- u16 and u32 length fields, little endian ----

  function Le16(n: nat): (s: seq<byte>)
    requires n < 0x1_0000
    ensures |s| == 2
  {
    [n % 0x100, n / 0x100]
  }

  function FromLe16(s: seq<byte>): (n: nat)
    requires |s| == 2
    ensures n < 0x1_0000
  {
    s[0] as int + 0x100 * s[1] as int
  }

  lemma Le16RoundTrip(n: nat)
    requires n < 0x1_0000
    ensures FromLe16(Le16(n)) == n
  {
  }

  lemma Le16Inverse(s: seq<byte>)
    requires |s| == 2
    ensures Le16(FromLe16(s)) == s
  {
  }

  function Le32(n: nat): (s: seq<byte>)
    requires n < 0x1_0000_0000
    ensures |s| == 4
  {
    Le16(n % 0x1_0000) + Le16(n / 0x1_0000)
  }

  function FromLe32(s: seq<byte>): (n: nat)
    requires |s| == 4
    ensures n < 0x1_0000_0000
    ensures n >= 0x100_0000 * s[3] as int
  {
    FromLe16(s[..2]) + 0x1_0000 * FromLe16(s[2..])
  }

  lemma Le32RoundTrip(n: nat)
    requires n < 0x1_0000_0000
    ensures FromLe32(Le32(n)) == n
  {
    var s := Le32(n);
    assert s[..2] == Le16(n % 0x1_0000) && s[2..] == Le16(n / 0x1_0000);
    Le16RoundTrip(n % 0x1_0000);
    Le16RoundTrip(n / 0x1_0000);
  }

  lemma Le32Inverse(s: seq<byte>)
    requires |s| == 4
    ensures Le32(FromLe32(s)) == s
  {
    var lo, hi := FromLe16(s[..2]), FromLe16(s[2..]);
    assert (lo + 0x1_0000 * hi) % 0x1_0000 == lo && (lo + 0x1_0000 * hi) / 0x1_0000 == hi;
    Le16Inverse(s[..2]);
    Le16Inverse(s[2..]);
    assert s[..2] + s[2..] == s;
  }

  /** A string is its parts up to, between and after two positions. */
  lemma Rejoin(s: seq<byte>, i: nat, j: nat)
    requires i <= j <= |s|
    ensures s == s[..i] + s[i..j] + s[j..]
  {
  }

  lemma SliceOfSlice(s: seq<byte>, i: nat, j: nat, a: nat, b: nat)
    requires i <= j <= |s| && a <= b <= j - i
    ensures s[i..j][a..b] == s[i + a..i + b]
  {
    var part := s[i..j];
    assert |part[a..b]| == |s[i + a..i + b]|;
    forall k | 0 <= k < b - a
      ensures part[a..b][k] == s[i + a..i + b][k]
    {
      assert part[a + k] == s[i + a + k];
    }
  }

  /** Written behind its first `at` octets, a string grows by a prefix of what comes next. */
  lemma GrowPrefix(s: seq<byte>, at: nat, count: nat)
    requires at + count <= |s|
    ensures Overlay(s[..at] + Fill(|s| - at), at, s[at..at + count]) == s[..at + count] + Fill(|s| - at - count)
  {
  }

  /** What is there already may be written again. */
  lemma RegrowPrefix(s: seq<byte>, at: nat, count: nat, limit: nat)
    requires at + count <= limit <= |s|
    ensures var now := s[..limit] + Fill(|s| - limit);
            Overlay(now, at, s[at..at + count]) == now
  {
  }

  // ---- octets as bit vectors ----

  function Num(c: bv8): byte {
    c as nat
  }

  function Bv(b: byte): (c: bv8)
    ensures Num(c) == b
  {
    if b == 0 then 0 else Bv(b - 1) + 1
  }

  lemma NumInjective(c: bv8, d: bv8)
    requires Num(c) == Num(d)
    ensures c == d
  {
  }

  lemma BvOfNum(c: bv8)
    ensures Bv(Num(c)) == c
  {
    NumInjective(Bv(Num(c)), c);
  }

  // ---- u32 CRC fields ----

  function CrcField(c: bv32): (s: seq<byte>)
    ensures |s| == 4
  {
    [Num((c & 0xFF) as bv8), Num(((c >> 8) & 0xFF) as bv8), Num(((c >> 16) & 0xFF) as bv8), Num((c >> 24) as bv8)]
  }

  function Join(b0: bv8, b1: bv8, b2: bv8, b3: bv8): bv32 {
    (b0 as bv32) | ((b1 as bv32) << 8) | ((b2 as bv32) << 16) | ((b3 as bv32) << 24)
  }

  function FromCrcField(s: seq<byte>): bv32
    requires |s| == 4
  {
    Join(Bv(s[0]), Bv(s[1]), Bv(s[2]), Bv(s[3]))
  }

  lemma JoinOfParts(c: bv32)
    ensures Join((c & 0xFF) as bv8, ((c >> 8) & 0xFF) as bv8, ((c >> 16) & 0xFF) as bv8, (c >> 24) as bv8) == c
  {
  }

  lemma JoinInjective(a: bv8, b: bv8, c: bv8, d: bv8, a': bv8, b': bv8, c': bv8, d': bv8)
    requires Join(a, b, c, d) == Join(a', b', c', d')
    ensures a == a' && b == b' && c == c' && d == d'
  {
  }

  lemma CrcFieldRoundTrip(c: bv32)
    ensures FromCrcField(CrcField(c)) == c
  {
    hide Num, Join, Bv;
    BvOfNum((c & 0xFF) as bv8);
    BvOfNum(((c >> 8) & 0xFF) as bv8);
    BvOfNum(((c >> 16) & 0xFF) as bv8);
    BvOfNum((c >> 24) as bv8);
    JoinOfParts(c);
  }

  lemma FromCrcFieldInjective(s: seq<byte>, t: seq<byte>)
    requires |s| == |t| == 4 && FromCrcField(s) == FromCrcField(t)
    ensures s == t
  {
    hide Num, Join, Bv;
    JoinInjective(Bv(s[0]), Bv(s[1]), Bv(s[2]), Bv(s[3]), Bv(t[0]), Bv(t[1]), Bv(t[2]), Bv(t[3]));
    assert forall i :: 0 <= i < 4 ==> s[i] == Num(Bv(s[i])) && t[i] == Num(Bv(t[i]));
  }
}
