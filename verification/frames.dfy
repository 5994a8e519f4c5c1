/** The wire frame `CMD LEN payload CRC8` and the two codecs that speak it. */
module Frames {
  import opened Bytes
  import Crc8

  const CMD_INFO: byte := 0x01
  const CMD_ERASE_APP: byte := 0x02
  const CMD_WRITE_PAGE: byte := 0x03
  const CMD_VERIFY: byte := 0x04
  const CMD_BOOT: byte := 0x05
  const CMD_ECHO: byte := 0x06
  const RSP_FLAG: byte := 0x80

  const ST_OK: byte := 0x00
  const ST_BAD_FRAME: byte := 0x01
  const ST_BAD_CMD: byte := 0x02
  const ST_NOT_ERASED: byte := 0x03
  const ST_OUT_OF_RANGE: byte := 0x04
  const ST_BAD_CRC: byte := 0x05
  const ST_BAD_MAGIC: byte := 0x06
  const ST_NO_APP: byte := 0x07

  const PROTO_VERSION: byte := 0x01
  const ECHO_MAX: nat := 16
  const FRAME_OVERHEAD: nat := 3
  const PAYLOAD_MAX: nat := 252

  /** The host's error type; `Transport` stands for whatever the transport reports. */
  datatype Error =
    | Transport
    | BadFrame
    | Device(status: byte)
    | PayloadTooLarge(len: nat)
    | BufferTooSmall(needed: nat)
    | ImageTooLarge(length: nat, capacity: nat)
    | BadGeometry(pageSize: nat, appPages: nat)
    | PageOutOfRange(index: nat)
    | ProtocolVersion(device: byte)

  datatype Result<+T> = Ok(value: T) | Err(error: Error)

  datatype Frame = Frame(cmd: byte, payload: seq<byte>)

  predicate Encodable(f: Frame) {
    |f.payload| <= PAYLOAD_MAX
  }

  function Body(f: Frame): (s: seq<byte>)
    requires Encodable(f)
    ensures |s| == 2 + |f.payload|
  {
    [f.cmd, |f.payload|] + f.payload
  }

  /** The octets of a frame on the wire. */
  function Encoded(f: Frame): (s: seq<byte>)
    requires Encodable(f)
    ensures |s| == |f.payload| + FRAME_OVERHEAD
  {
    Body(f) + [Crc8.Crc8(Body(f))]
  }

  /** The accept set: LEN fixes the extent, at most 255 octets, CRC last. */
  predicate IsFrame(s: seq<byte>) {
    && FRAME_OVERHEAD <= |s| <= PAYLOAD_MAX + FRAME_OVERHEAD
    && s[1] + FRAME_OVERHEAD == |s|
    && Crc8.Crc8(s[..|s| - 1]) == s[|s| - 1]
  }

  function Parse(s: seq<byte>): (r: Option<Frame>)
    ensures r.Some? ==> |r.value.payload| + FRAME_OVERHEAD == |s| && Encodable(r.value)
  {
    if IsFrame(s) then Some(Frame(s[0], s[2..|s| - 1])) else None
  }

  /** Decoding inverts encoding, and encoding inverts decoding on the accept set. */
  lemma ParseInvertsEncoded(f: Frame)
    requires Encodable(f)
    ensures Parse(Encoded(f)) == Some(f)
  {
    var s := Encoded(f);
    assert s[..|s| - 1] == Body(f);
    assert s[2..|s| - 1] == f.payload;
  }

  lemma EncodedInvertsParse(s: seq<byte>)
    requires IsFrame(s)
    ensures Encoded(Parse(s).value) == s
  {
    var f := Parse(s).value;
    assert Body(f) == s[..|s| - 1];
  }

  // ---- device codec ----

  /** `buf` is the received octets, so its length fits the device's eight-bit counter. */
  method UpdFrameParse(buf: seq<byte>) returns (r: Option<Frame>)
    requires |buf| < 256
    ensures r == Parse(buf)
  {
    if |buf| < FRAME_OVERHEAD {
      return None;
    }
    var len := buf[1];
    if len + FRAME_OVERHEAD != |buf| {
      return None;
    }
    var crc := Crc8.UpdCrc8(buf[..|buf| - 1]);
    if crc != buf[|buf| - 1] {
      return None;
    }
    return Some(Frame(buf[0], buf[2..2 + len]));
  }

  /** The ascending copy, destination never past source. */
  method CopyBody(buf: array<byte>, cmd: byte, src: array<byte>, off: nat, len: nat)
    requires len <= PAYLOAD_MAX && len + FRAME_OVERHEAD <= buf.Length && off + len <= src.Length
    requires src == buf && len > 0 ==> off >= 2
    modifies buf
    ensures buf[..2 + len] == Body(Frame(cmd, old(src[off..off + len])))
    ensures buf[2 + len..] == old(buf[2 + len..])
  {
    ghost var payload := src[off..off + len];
    buf[0] := cmd;
    buf[1] := len;
    for i := 0 to len
      invariant buf[0] == cmd && buf[1] == len
      invariant forall k :: 0 <= k < i ==> buf[2 + k] == payload[k]
      invariant forall k :: i <= k < len ==> src[off + k] == payload[k]
      invariant forall k :: 2 + len <= k < buf.Length ==> buf[k] == old(buf[k])
    {
      buf[2 + i] := src[off + i];
    }
  }

  /** Builds a frame from the `len` octets of `src` at `off`. The source may be the buffer being
      built, from its third octet on: the ascending copy never overwrites an octet it still needs. */
  method UpdFrameBuild(buf: array<byte>, cap: nat, cmd: byte, src: array<byte>, off: nat, len: nat)
    returns (n: nat)
    requires cap <= buf.Length && len < 256 && off + len <= src.Length
    requires src == buf && len > 0 ==> off >= 2
    modifies buf
    ensures n == 0 <==> len > PAYLOAD_MAX || cap < len + FRAME_OVERHEAD
    ensures n == 0 ==> buf[..] == old(buf[..])
    ensures n > 0 ==> n == len + FRAME_OVERHEAD
    ensures n > 0 ==> buf[..n] == Encoded(Frame(cmd, old(src[off..off + len])))
    ensures n > 0 ==> buf[n..] == old(buf[n..])
  {
    var total := len + FRAME_OVERHEAD;
    if total > 255 || cap < total {
      return 0;
    }
    ghost var f := Frame(cmd, src[off..off + len]);
    CopyBody(buf, cmd, src, off, len);
    hide Body;
    assert buf[total..] == buf[2 + len..][1..];
    assert old(buf[total..]) == old(buf[2 + len..])[1..];
    var crc := Crc8.UpdCrc8(buf[..total - 1]);
    hide Crc8.Crc8;
    buf[total - 1] := crc;
    assert buf[..total] == buf[..total - 1] + [crc];
    return total;
  }

  // ---- host codec ----

  /** The host folds the two header octets and then the payload. */
  lemma FoldOfBody(f: Frame)
    requires Encodable(f)
    ensures Crc8.Fold(0, Body(f)) == Crc8.Fold(Crc8.Step(Crc8.Step(0, f.cmd), |f.payload|), f.payload)
  {
    hide Crc8.Step;
    var header := [f.cmd, |f.payload|];
    Crc8.FoldAppend(0, header, f.payload);
    assert header[1..] == [|f.payload|] && header[1..][1..] == [];
    var c := Crc8.Step(0, f.cmd);
    assert Crc8.Fold(0, header) == Crc8.Fold(c, header[1..]);
    assert Crc8.Fold(c, header[1..]) == Crc8.Fold(Crc8.Step(c, |f.payload|), header[1..][1..]);
  }

  /** Command, length and payload, at the front of `out`. */
  method PutBody(f: Frame, out: array<byte>)
    requires Encodable(f) && out.Length >= |f.payload| + FRAME_OVERHEAD
    modifies out
    ensures out[..2 + |f.payload|] == Body(f)
    ensures out[2 + |f.payload|..] == old(out[2 + |f.payload|..])
  {
    out[0] := f.cmd;
    out[1] := |f.payload|;
    forall i | 0 <= i < |f.payload| {
      out[2 + i] := f.payload[i];
    }
  }

  /** `out` holds the frame in its first `value` octets; on an error it is untouched. */
  method Encode(cmd: byte, payload: seq<byte>, out: array<byte>) returns (r: Result<nat>)
    modifies out
    ensures |payload| > PAYLOAD_MAX ==> r == Err(PayloadTooLarge(|payload|))
    ensures |payload| <= PAYLOAD_MAX && out.Length < |payload| + FRAME_OVERHEAD ==>
              r == Err(BufferTooSmall(|payload| + FRAME_OVERHEAD))
    ensures |payload| <= PAYLOAD_MAX && out.Length >= |payload| + FRAME_OVERHEAD ==>
              && r == Ok(|payload| + FRAME_OVERHEAD)
              && out[..r.value] == Encoded(Frame(cmd, payload))
              && out[r.value..] == old(out[r.value..])
    ensures r.Err? ==> out[..] == old(out[..])
  {
    hide Crc8.Fold, Crc8.Step, Body;
    var len := |payload|;
    if len > PAYLOAD_MAX {
      return Err(PayloadTooLarge(len));
    }
    var total := len + FRAME_OVERHEAD;
    if out.Length < total {
      return Err(BufferTooSmall(total));
    }
    var f := Frame(cmd, payload);
    PutBody(f, out);
    assert out[total..] == out[2 + len..][1..];
    assert old(out[total..]) == old(out[2 + len..])[1..];
    var crc := Crc8.Crc8Step(0, cmd);
    crc := Crc8.Crc8Step(crc, len);
    crc := Crc8.Fold(crc, payload);
    FoldOfBody(f);
    out[total - 1] := Num(crc);
    assert out[..total] == out[..total - 1] + [Num(crc)];
    return Ok(total);
  }

  function Decode(raw: seq<byte>): Result<Frame> {
    if |raw| < 2 then Err(BadFrame)
    else
      var rest := raw[2..];
      if raw[1] > PAYLOAD_MAX || |rest| != raw[1] + 1 then Err(BadFrame)
      else
        var payload := rest[..|rest| - 1];
        var crc := Num(Crc8.Fold(Crc8.Step(Crc8.Step(0, raw[0]), raw[1]), payload));
        if crc != rest[|rest| - 1] then Err(BadFrame) else Ok(Frame(raw[0], payload))
  }

  /** Host and device accept the same octet strings and read the same frame from them. */
  lemma AcceptSetsCoincide(raw: seq<byte>)
    ensures Decode(raw) == if Parse(raw).Some? then Ok(Parse(raw).value) else Err(BadFrame)
  {
    hide Crc8.Step;
    if |raw| >= 3 {
      var rest := raw[2..];
      var payload := rest[..|rest| - 1];
      assert payload == raw[2..|raw| - 1];
      if raw[1] <= PAYLOAD_MAX && |rest| == raw[1] + 1 {
        var f := Frame(raw[0], payload);
        assert raw[..|raw| - 1] == Body(f);
        FoldOfBody(f);
      }
    }
  }

  function DecodePadded(raw: seq<byte>): Result<Frame> {
    if |raw| < 2 then Err(BadFrame)
    else
      var total := raw[1] + FRAME_OVERHEAD;
      if |raw| < total || exists i :: total <= i < |raw| && raw[i] != BLANK then Err(BadFrame)
      else Decode(raw[..total])
  }

  /** The padded decoder accepts exactly an encoded frame followed by 0xFF filler, of any length. */
  lemma PaddedAcceptsFiller(raw: seq<byte>, f: Frame)
    ensures DecodePadded(raw) == Ok(f) <==>
            (&& Encodable(f)
             && |f.payload| + FRAME_OVERHEAD <= |raw|
             && raw == Encoded(f) + Fill(|raw| - |f.payload| - FRAME_OVERHEAD))
  {
    if DecodePadded(raw) == Ok(f) {
      var total := raw[1] + FRAME_OVERHEAD;
      AcceptSetsCoincide(raw[..total]);
      EncodedInvertsParse(raw[..total]);
      assert raw == raw[..total] + Fill(|raw| - total);
    }
    if && Encodable(f)
       && |f.payload| + FRAME_OVERHEAD <= |raw|
       && raw == Encoded(f) + Fill(|raw| - |f.payload| - FRAME_OVERHEAD)
    {
      var s := Encoded(f);
      assert raw[1] == s[1] == |f.payload|;
      assert raw[..|s|] == s;
      AcceptSetsCoincide(s);
      ParseInvertsEncoded(f);
    }
  }

  // ---- what the frame CRC detects ----

  /** Changing bits within eight consecutive bits of a valid frame, anywhere in it, leaves a string
      that neither codec accepts. */
  lemma BurstRejected(s: seq<byte>, t: seq<byte>, i: nat, j: nat)
    requires IsFrame(s) && |t| == |s| && i + 2 <= |s| && j <= 8
    requires s[..i] == t[..i] && s[i + 2..] == t[i + 2..]
    requires Crc8.Burst(Crc8.Difference(s[i], t[i]), Crc8.Difference(s[i + 1], t[i + 1]), j)
    ensures Parse(t).None? && Decode(t).Err?
  {
    hide Crc8.Burst, Crc8.Step;
    var n := |s| - 1;
    assert s == s[..n] + [s[n]] && t == t[..n] + [t[n]];
    Crc8.Residue(s[..n], s[n]);
    Crc8.Residue(t[..n], t[n]);
    Crc8.BurstDetected(s, t, i, j);
    AcceptSetsCoincide(t);
  }

  lemma BurstInFirst(e: bv8)
    requires e != 0
    ensures Crc8.Burst(e, 0, 8)
  {
  }

  lemma BurstInSecond(e: bv8)
    requires e != 0
    ensures Crc8.Burst(0, e, 0)
  {
  }

  /** In particular any change to a single octet is rejected. */
  lemma OctetRejected(s: seq<byte>, i: nat, b: byte)
    requires IsFrame(s) && i < |s| && b != s[i]
    ensures Parse(s[i := b]).None? && Decode(s[i := b]).Err?
  {
    hide Crc8.Difference;
    var t := s[i := b];
    Crc8.NoDifference(s[i], b);
    if i + 2 <= |s| {
      Crc8.NoDifference(s[i + 1], t[i + 1]);
      BurstInFirst(Crc8.Difference(s[i], b));
      BurstRejected(s, t, i, 8);
    } else {
      Crc8.NoDifference(s[i - 1], t[i - 1]);
      assert s[i + 1..] == t[i + 1..];
      BurstInSecond(Crc8.Difference(s[i], b));
      BurstRejected(s, t, i - 1, 0);
    }
  }
}
