/** What the bootloader core does to the device, as functions of its state: the boot gate, the
    command handlers, and a flash whose operations can tear when power fails. */
module Device {
  import opened Bytes
  import opened Frames
  import opened Geometry
  import opened Images
  import Crc32
  import Holdback

  datatype PortInfo = PortInfo(pageSize: nat, appPages: nat, deviceId: seq<byte>, blVersion: byte) {
    /** The fields are two 16-bit numbers and four octets. */
    predicate Valid() {
      pageSize < 0x1_0000 && appPages < 0x1_0000 && |deviceId| == 4
    }
  }

  /** The boot gate: the last 16 octets of the region name a length inside it and the CRC of that
      many octets. A region too small for a footer is refused. */
  predicate GateAccepts(flash: seq<byte>) {
    && |flash| >= FOOTER_LEN
    && var base := |flash| - FOOTER_LEN;
       && flash[base..base + 4] == FOOTER_MAGIC
       && var len := FromLe32(flash[base + 4..base + 8]);
          && len <= base
          && Crc32.Crc32(flash[..len]) == FromCrcField(flash[base + 8..base + 12])
  }

  /** `erased` and `bootPending` are the session, gone at a reboot; `cutAt` is the number of the flash
      operation during which power fails (0: never) and `tear` how many octets of it are still
      programmed. A `dead` or `jumped` device is silent. `flash` is what the core reads; a port that
      holds pages back has the chip `under` it, and loses what it holds at a reboot. */
  datatype Dev = Dev(
    info: PortInfo,
    flash: seq<byte>,
    under: Option<Holdback.Chip>,
    erased: bool,
    bootPending: bool,
    ops: nat,
    cutAt: nat,
    tear: nat,
    dead: bool,
    jumped: bool)
  {
    predicate Valid() {
      && info.Valid()
      && |flash| == Area(info.pageSize, info.appPages)
      && (under.Some? ==>
            && info.pageSize == Holdback.PAGE
            && under.value.Valid(info.appPages)
            && flash == Holdback.View(under.value, info.appPages))
    }

    predicate Silent() {
      dead || jumped
    }
  }

  /** A device over a flat port, or over one that holds pages back. */
  predicate SamePort(d: Dev, r: Dev) {
    r.info == d.info && (r.under.Some? <==> d.under.Some?)
  }

  // ---- flash operations ----

  predicate Tears(d: Dev) {
    d.cutAt != 0 && d.ops + 1 == d.cutAt
  }

  /** One operation of a port that holds pages back: it leaves `done`, or `torn` if power fails now. */
  function ChipOp(d: Dev, done: Holdback.Chip, torn: seq<byte>): (r: Dev)
    requires d.Valid() && d.under.Some? && done.Valid(d.info.appPages) && |torn| == |d.under.value.nor|
    ensures r.Valid() && SamePort(d, r)
  {
    if d.dead then d
    else if Tears(d) then
      d.(ops := d.ops + 1, dead := true, under := Some(Holdback.Chip(torn, None)), flash := torn)
    else
      d.(ops := d.ops + 1, under := Some(done), flash := Holdback.View(done, d.info.appPages))
  }

  /** One write of page `page`: `data` lands there, or its prefix if power fails now. */
  function FlashOp(d: Dev, page: nat, data: seq<byte>): (r: Dev)
    requires d.Valid() && page < d.info.appPages && |data| == d.info.pageSize
    ensures r.Valid() && SamePort(d, r)
  {
    if d.under.Some? then
      var c := d.under.value;
      Holdback.ProgramsPerformed(c, d.info.appPages, page, data);
      ChipOp(d, Holdback.Write(c, d.info.appPages, page, data),
             Holdback.TornBy(c.nor, Holdback.WritePrograms(c, page, data), d.tear))
    else
      var at := PageAt(d.info.pageSize, d.info.appPages, page);
      if d.dead then d
      else if Tears(d) then
        d.(ops := d.ops + 1, dead := true, flash := Overlay(d.flash, at, data[..Min(d.tear, |data|)]))
      else
        d.(ops := d.ops + 1, flash := Overlay(d.flash, at, data))
  }

  function EraseOp(d: Dev, page: nat): (r: Dev)
    requires d.Valid() && page < d.info.appPages
    ensures r.Valid() && SamePort(d, r)
  {
    if d.under.Some? then
      var c := d.under.value;
      ChipOp(d, Holdback.Erase(c, d.info.appPages, page), Holdback.TornErase(c, d.info.appPages, page, d.tear))
    else FlashOp(d, page, Fill(d.info.pageSize))
  }

  /** Reading flash makes the port program what it holds. */
  function ReadOp(d: Dev): (r: Dev)
    requires d.Valid()
    ensures r.Valid() && SamePort(d, r)
    ensures d.under.None? ==> r == d
    ensures r.erased == d.erased && r.bootPending == d.bootPending && r.jumped == d.jumped
  {
    if d.under.None? || d.under.value.hold.None? then d
    else
      var c := d.under.value;
      Holdback.FlushPerformed(c, d.info.appPages);
      ChipOp(d, Holdback.Flush(c, d.info.appPages), Holdback.TornBy(c.nor, Holdback.FlushPrograms(c), d.tear))
  }

  function EraseFrom(d: Dev, page: nat): (r: Dev)
    requires d.Valid() && page <= d.info.appPages
    ensures r.Valid() && SamePort(d, r)
    decreases d.info.appPages - page
  {
    if page == d.info.appPages then d else EraseFrom(EraseOp(d, page), page + 1)
  }

  lemma {:induction false} EraseLeavesSession(d: Dev, page: nat)
    requires d.Valid() && page <= d.info.appPages
    ensures EraseFrom(d, page).bootPending == d.bootPending && EraseFrom(d, page).jumped == d.jumped
    decreases d.info.appPages - page
  {
    hide Holdback.Erase, Holdback.TornErase, Holdback.View, Overlay, PageAt;
    if page < d.info.appPages {
      EraseLeavesSession(EraseOp(d, page), page + 1);
    }
  }

  // ---- command handlers ----

  const ERASE_MAGIC: seq<byte> := [0x45, 0x52, 0x41, 0x53]

  function HandleInfo(d: Dev, cap: nat): (rsp: seq<byte>)
    requires d.Valid()
    ensures |rsp| == if cap < 12 then 1 else 12
  {
    if cap < 12 then [ST_BAD_FRAME]
    else [ST_OK, PROTO_VERSION, d.info.blVersion] + d.info.deviceId
         + Le16(d.info.pageSize) + Le16(d.info.appPages) + [if GateAccepts(d.flash) then 1 else 0]
  }

  function HandleErase(d: Dev, payload: seq<byte>): (r: (Dev, byte))
    requires d.Valid()
    ensures r.0.Valid() && SamePort(d, r.0)
  {
    if payload != ERASE_MAGIC then (d, ST_BAD_MAGIC)
    else (EraseFrom(d, 0).(erased := true), ST_OK)
  }

  function HandleWrite(d: Dev, payload: seq<byte>): (r: (Dev, byte))
    requires d.Valid()
    ensures r.0.Valid() && SamePort(d, r.0)
  {
    if !d.erased then (d, ST_NOT_ERASED)
    else if |payload| != d.info.pageSize + 2 then (d, ST_BAD_FRAME)
    else if FromLe16(payload[..2]) >= d.info.appPages then (d, ST_OUT_OF_RANGE)
    else (FlashOp(d, FromLe16(payload[..2]), payload[2..]), ST_OK)
  }

  /** VERIFY reads flash when it is asked for a length inside the region. */
  predicate VerifyReads(d: Dev, payload: seq<byte>) {
    |payload| == 8 && |d.flash| >= FOOTER_LEN && 0 < FromLe32(payload[..4]) <= |d.flash| - FOOTER_LEN
  }

  function HandleVerify(d: Dev, payload: seq<byte>): byte
    requires d.Valid()
  {
    if |payload| != 8 then ST_BAD_FRAME
    else if |d.flash| < FOOTER_LEN || FromLe32(payload[..4]) > |d.flash| - FOOTER_LEN then ST_OUT_OF_RANGE
    else if Crc32.Crc32(d.flash[..FromLe32(payload[..4])]) == FromCrcField(payload[4..]) then ST_OK
    else ST_BAD_CRC
  }

  function HandleEcho(payload: seq<byte>, cap: nat): seq<byte> {
    if |payload| > ECHO_MAX || |payload| + 1 > cap then [ST_BAD_FRAME] else [ST_OK] + payload
  }

  function HandleBoot(d: Dev): (r: (Dev, byte))
    requires d.Valid()
    ensures r.0.Valid() && SamePort(d, r.0)
  {
    var d1 := ReadOp(d);
    if GateAccepts(d.flash) && (d1.dead ==> d.dead) then (d1.(bootPending := true), ST_OK) else (d1, ST_NO_APP)
  }

  function Handle(d: Dev, f: Frame, cap: nat): (r: (Dev, seq<byte>))
    requires d.Valid()
    ensures r.0.Valid() && SamePort(d, r.0)
    ensures |r.1| <= if cap < 1 + ECHO_MAX then cap else 1 + ECHO_MAX
    ensures r.1 == [] <==> cap == 0
  {
    if cap == 0 then (d, [])
    else if f.cmd == CMD_INFO then (if cap < 12 then d else ReadOp(d), HandleInfo(d, cap))
    else if f.cmd == CMD_ERASE_APP then (HandleErase(d, f.payload).0, [HandleErase(d, f.payload).1])
    else if f.cmd == CMD_WRITE_PAGE then (HandleWrite(d, f.payload).0, [HandleWrite(d, f.payload).1])
    else if f.cmd == CMD_VERIFY then
      (if VerifyReads(d, f.payload) then ReadOp(d) else d, [HandleVerify(d, f.payload)])
    else if f.cmd == CMD_BOOT then (HandleBoot(d).0, [HandleBoot(d).1])
    else if f.cmd == CMD_ECHO then (d, HandleEcho(f.payload, cap))
    else (d, [ST_BAD_CMD])
  }

  // ---- one request, as the reference main loop serves it ----

  const RSP_CAP: nat := 252

  function Response(cmd: byte): byte {
    if cmd < RSP_FLAG then cmd + RSP_FLAG else cmd
  }

  /** The jump: taken only through the gate, at the moment it is taken. */
  function BootIfValid(d: Dev): (r: Dev)
    requires d.Valid()
    ensures r.Valid() && SamePort(d, r)
  {
    var d1 := ReadOp(d);
    if GateAccepts(d.flash) && (d1.dead ==> d.dead) then d1.(jumped := true) else d1
  }

  /** `reply` is empty when nothing leaves the device. */
  function Request(d: Dev, bytes: seq<byte>): (r: (Dev, seq<byte>))
    requires d.Valid()
    ensures r.0.Valid() && SamePort(d, r.0)
  {
    if d.Silent() then (d, [])
    else
      var cmd := if Parse(bytes).Some? then Parse(bytes).value.cmd else if |bytes| >= 1 then bytes[0] else 0;
      var (d1, payload) := if Parse(bytes).Some? then Handle(d, Parse(bytes).value, RSP_CAP) else (d, [ST_BAD_FRAME]);
      if d1.dead then (d1, []) else (AfterReply(d1), Encoded(Frame(Response(cmd), payload)))
  }

  /** An accepted BOOT tries the gate once its reply is out. */
  function AfterReply(d: Dev): (r: Dev)
    requires d.Valid()
    ensures r.Valid() && SamePort(d, r)
  {
    if d.bootPending then BootIfValid(d.(bootPending := false)) else d
  }

  /** Reset: the session is gone, and so is what a port held; flash is what has been programmed. */
  function Reset(d: Dev): (r: Dev)
    requires d.Valid()
    ensures r.Valid() && SamePort(d, r)
  {
    var d1 := d.(erased := false, bootPending := false, ops := 0, cutAt := 0, dead := false, jumped := false);
    if d.under.None? then d1
    else d1.(flash := d.under.value.nor, under := Some(Holdback.Chip(d.under.value.nor, None)))
  }

  function ArmCut(d: Dev, flashOps: nat, tear: nat): Dev {
    d.(cutAt := if flashOps == 0 then 0 else d.ops + flashOps, tear := tear)
  }
}
