/** The host's update session over a faulty wire, as functions of the schedule of faults. */
module Session {
  import opened Bytes
  import opened Frames
  import opened Images
  import opened Device

  // ---- the fault model ----

  /** Damage that the frame CRC and length check see: nothing else reaches a receiver damaged. */
  type Unparsable = s: seq<byte> | Parse(s).None? witness []
  type Undecodable = s: seq<byte> | DecodePadded(s).Err? witness []

  datatype RequestFate = Arrives | RequestLost | RequestMangled(bytes: Unparsable)

  /** A returned reply may be followed by 0xFF filler, as a fixed-length read delivers it. */
  datatype ReplyFate = Returns(filler: nat) | ReplyLost | ReplyMangled(octets: Undecodable)

  datatype Cut = Cut(flashOps: nat, tear: nat)

  /** What surrounds one request: a reboot just before it, in which the entry window may run out and
      try the boot gate; a power failure armed for the n-th flash operation from here; and what the
      wire does to the request and to its reply. Each request has at most one reply, its own. */
  datatype Event = Event(reboot: Option<bool>, cut: Option<Cut>, request: RequestFate, reply: ReplyFate)

  type Schedule = nat -> Event

  /** The device, and the number of requests sent so far. */
  datatype World = World(dev: Dev, sent: nat)

  function Power(d: Dev, e: Event): (r: Dev)
    requires d.Valid()
    ensures r.Valid() && r.info == d.info
  {
    var d1 := if e.reboot.None? then d
              else if e.reboot.value then BootIfValid(Reset(d)) else Reset(d);
    if e.cut.None? then d1 else ArmCut(d1, e.cut.value.flashOps, e.cut.value.tear)
  }

  function Deliver(d: Dev, tx: seq<byte>, fate: RequestFate): (r: (Dev, seq<byte>))
    requires d.Valid()
    ensures r.0.Valid() && r.0.info == d.info
  {
    match fate
    case Arrives => Request(d, tx)
    case RequestLost => (d, [])
    case RequestMangled(bytes) => Request(d, bytes)
  }

  /** What the host finds in a receive window of `cap` octets. */
  function Receive(reply: seq<byte>, fate: ReplyFate, cap: nat): (r: Result<seq<byte>>)
    ensures r.Ok? ==> |r.value| <= cap
  {
    if reply == [] then Err(Transport)
    else
      match fate
      case ReplyLost => Err(Transport)
      case ReplyMangled(octets) => if |octets| <= cap then Ok(octets) else Err(Transport)
      case Returns(filler) =>
        if |reply| > cap then Ok(reply[..cap]) else Ok(reply + Fill(Min(filler, cap - |reply|)))
  }

  function Transmit(sch: Schedule, w: World, tx: seq<byte>, cap: nat): (r: (World, Result<seq<byte>>))
    requires w.dev.Valid()
    ensures r.0.dev.Valid() && r.0.dev.info == w.dev.info && r.0.sent == w.sent + 1
    ensures r.1.Ok? ==> |r.1.value| <= cap
  {
    var e := sch(w.sent);
    var (d, reply) := Deliver(Power(w.dev, e), tx, e.request);
    (World(d, w.sent + 1), Receive(reply, e.reply, cap))
  }

  // ---- one exchange, with its retries ----

  const ATTEMPTS: nat := 4
  const INFO_RSP_PAYLOAD: nat := 12
  const ST_RSP_PAYLOAD: nat := 1

  datatype Verdict = Accepted | Mangled | DeviceBadFrame | Fatal(status: byte)

  function Validate(raw: seq<byte>, want: byte): Verdict {
    var decoded := DecodePadded(raw);
    if decoded.Err? || decoded.value.cmd != want || decoded.value.payload == [] then Mangled
    else if decoded.value.payload[0] == ST_OK then Accepted
    else if decoded.value.payload[0] == ST_BAD_FRAME then DeviceBadFrame
    else Fatal(decoded.value.payload[0])
  }

  datatype Judgement = Done | Stop(final: Error) | Retry(why: Error)

  function Judge(received: Result<seq<byte>>, want: byte): (j: Judgement)
    ensures j.Done? <==> received.Ok? && Validate(received.value, want) == Accepted
  {
    if received.Err? then Retry(received.error)
    else
      match Validate(received.value, want)
      case Accepted => Done
      case Mangled => Retry(BadFrame)
      case DeviceBadFrame => Retry(Error.Device(ST_BAD_FRAME))
      case Fatal(st) => Stop(Error.Device(st))
  }

  /** At most `tries` transmissions of the same request; `last` is the error if all of them fail. */
  function Exchange(sch: Schedule, w: World, tx: seq<byte>, cap: nat, want: byte, tries: nat, last: Error)
    : (r: (World, Result<seq<byte>>))
    requires w.dev.Valid()
    ensures r.0.dev.Valid() && r.0.dev.info == w.dev.info && w.sent <= r.0.sent <= w.sent + tries
    ensures r.1.Ok? ==> |r.1.value| <= cap && Validate(r.1.value, want) == Accepted
    decreases tries
  {
    if tries == 0 then (w, Err(last))
    else
      var (w1, received) := Transmit(sch, w, tx, cap);
      match Judge(received, want)
      case Done => (w1, received)
      case Stop(error) => (w1, Err(error))
      case Retry(error) => Exchange(sch, w1, tx, cap, want, tries - 1, error)
  }

  /** Sends `f` and returns the reply payload behind the status octet. The transmit and receive
      windows share a buffer of `room` octets. */
  function Transact(sch: Schedule, w: World, room: nat, f: Frame, cap: nat): (r: (World, Result<seq<byte>>))
    requires w.dev.Valid()
    ensures r.0.dev.Valid() && r.0.dev.info == w.dev.info && w.sent <= r.0.sent <= w.sent + ATTEMPTS
  {
    var needed := |f.payload| + FRAME_OVERHEAD + cap + FRAME_OVERHEAD;
    if room < needed then (w, Err(BufferTooSmall(needed)))
    else if !Encodable(f) then (w, Err(PayloadTooLarge(|f.payload|)))
    else
      var (w1, r) := Exchange(sch, w, Encoded(f), cap + FRAME_OVERHEAD, Response(f.cmd), ATTEMPTS, BadFrame);
      if r.Err? then (w1, r) else (w1, Ok(DecodePadded(r.value).value.payload[1..]))
  }

  // ---- the update ----

  datatype DeviceInfo = DeviceInfo(
    proto: byte, blVersion: byte, deviceId: seq<byte>, pageSize: nat, appPages: nat, appValid: bool)

  function ParseInfo(rest: seq<byte>): Result<DeviceInfo> {
    if |rest| != INFO_RSP_PAYLOAD - 1 then Err(BadFrame)
    else Ok(DeviceInfo(rest[0], rest[1], rest[2..6], FromLe16(rest[6..8]), FromLe16(rest[8..10]), rest[10] != 0))
  }

  /** Whether the host goes on with a device: it speaks this protocol, and the image is for its geometry. */
  function Admit(info: DeviceInfo, img: Image): Result<()> {
    if info.proto != PROTO_VERSION then Err(ProtocolVersion(info.proto))
    else if info.pageSize != img.pageSize || info.appPages != img.appPages then
      Err(BadGeometry(info.pageSize, info.appPages))
    else Ok(())
  }

  function Info(sch: Schedule, w: World, room: nat): (r: (World, Result<DeviceInfo>))
    requires w.dev.Valid()
    ensures r.0.dev.Valid() && r.0.dev.info == w.dev.info && w.sent <= r.0.sent <= w.sent + ATTEMPTS
  {
    var (w1, r) := Transact(sch, w, room, Frame(CMD_INFO, []), INFO_RSP_PAYLOAD);
    if r.Err? then (w1, Err(r.error)) else (w1, ParseInfo(r.value))
  }

  function Erase(sch: Schedule, w: World, room: nat): (r: (World, Result<()>))
    requires w.dev.Valid()
    ensures r.0.dev.Valid() && r.0.dev.info == w.dev.info && w.sent <= r.0.sent <= w.sent + ATTEMPTS
  {
    var (w1, r) := Transact(sch, w, room, Frame(CMD_ERASE_APP, ERASE_MAGIC), ST_RSP_PAYLOAD);
    if r.Err? then (w1, Err(r.error)) else (w1, Ok(()))
  }

  /** INFO, the protocol and geometry checks, ERASE_APP. */
  function Prepare(sch: Schedule, w: World, room: nat, img: Image): (r: (World, Result<()>))
    requires w.dev.Valid()
    ensures r.0.dev.Valid() && r.0.dev.info == w.dev.info && w.sent <= r.0.sent <= w.sent + 2 * ATTEMPTS
  {
    var (w1, info) := Info(sch, w, room);
    if info.Err? then (w1, Err(info.error))
    else if Admit(info.value, img).Err? then (w1, Admit(info.value, img))
    else Erase(sch, w1, room)
  }

  ghost function WriteFrame(img: Image, index: nat): (f: Frame)
    requires img.Fits() && index < img.appPages
    ensures Encodable(f)
  {
    Frame(CMD_WRITE_PAGE, Le16(index) + PageOf(img, index))
  }

  ghost function WritePage(sch: Schedule, w: World, room: nat, img: Image, index: nat): (r: (World, Result<()>))
    requires w.dev.Valid() && img.Fits() && index < img.appPages
    ensures r.0.dev.Valid() && r.0.dev.info == w.dev.info && w.sent <= r.0.sent <= w.sent + ATTEMPTS
  {
    var (w1, r) := Transact(sch, w, room, WriteFrame(img, index), ST_RSP_PAYLOAD);
    if r.Err? then (w1, Err(r.error)) else (w1, Ok(()))
  }

  /** One WRITE_PAGE for each page from `cursor` on that must be written; stops at the first error. */
  ghost function WritePages(sch: Schedule, w: World, room: nat, img: Image, cursor: nat): (r: (World, Result<()>))
    requires w.dev.Valid() && img.Fits() && cursor <= img.appPages
    ensures r.0.dev.Valid() && r.0.dev.info == w.dev.info
    ensures w.sent <= r.0.sent <= w.sent + ATTEMPTS * |PageList(img, cursor)|
    decreases img.appPages - cursor
  {
    if cursor == img.appPages then (w, Ok(()))
    else if !MustWrite(img, cursor) then WritePages(sch, w, room, img, cursor + 1)
    else
      var (w1, r) := WritePage(sch, w, room, img, cursor);
      if r.Err? then (w1, r) else WritePages(sch, w1, room, img, cursor + 1)
  }

  function VerifyFrame(img: Image): (f: Frame)
    requires |img.data| < 0x1_0000_0000
    ensures Encodable(f) && f.cmd == CMD_VERIFY
  {
    Frame(CMD_VERIFY, Le32(|img.data|) + CrcField(img.crc))
  }

  function Verify(sch: Schedule, w: World, room: nat, img: Image): (r: (World, Result<()>))
    requires w.dev.Valid() && |img.data| < 0x1_0000_0000
    ensures r.0.dev.Valid() && r.0.dev.info == w.dev.info && w.sent <= r.0.sent <= w.sent + ATTEMPTS
  {
    var (w1, r) := Transact(sch, w, room, VerifyFrame(img), ST_RSP_PAYLOAD);
    if r.Err? then (w1, Err(r.error)) else (w1, Ok(()))
  }

  /** Asks the device to jump. */
  function Boot(sch: Schedule, w: World, room: nat): (r: (World, Result<()>))
    requires w.dev.Valid()
    ensures r.0.dev.Valid() && r.0.dev.info == w.dev.info && w.sent <= r.0.sent <= w.sent + ATTEMPTS
  {
    var (w1, r) := Transact(sch, w, room, Frame(CMD_BOOT, []), ST_RSP_PAYLOAD);
    if r.Err? then (w1, Err(r.error)) else (w1, Ok(()))
  }

  lemma DataBound(img: Image)
    requires img.Fits()
    ensures |img.data| < 0x100_0000
  {
    assert Region(img) >= |img.data|;
  }

  /** The whole update: INFO, ERASE_APP, the pages, VERIFY. */
  ghost function Flash(sch: Schedule, w: World, room: nat, img: Image): (r: (World, Result<()>))
    requires w.dev.Valid() && img.Fits()
    ensures r.0.dev.Valid() && r.0.dev.info == w.dev.info
  {
    var (w1, prepared) := Prepare(sch, w, room, img);
    if prepared.Err? then (w1, prepared)
    else
      var (w2, written) := WritePages(sch, w1, room, img, 0);
      if written.Err? then (w2, written) else DataBound(img); Verify(sch, w2, room, img)
  }
}
