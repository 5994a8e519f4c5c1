/** The host session as a program: one frame buffer, split into a transmit and a receive window for
    each exchange, over a transport that follows a fault schedule. */
module Host {
  import opened Bytes
  import opened Frames
  import opened Images
  import opened Device
  import opened SimPort
  import opened Session
  import Crc8

  class Wire {
    const sim: Sim
    const schedule: Schedule
    var sent: nat

    ghost predicate Valid() {
      sim.Valid()
    }

    ghost function State(): (w: World)
      requires Valid()
      reads this, sim, sim.flash
      ensures w.dev.Valid()
    {
      World(sim.State(), sent)
    }

    constructor (sim: Sim, schedule: Schedule)
      requires sim.Valid()
      ensures Valid() && this.sim == sim && this.schedule == schedule && State() == World(sim.State(), 0)
    {
      this.sim, this.schedule, sent := sim, schedule, 0;
    }

    method PowerEvents(e: Event)
      requires Valid()
      modifies sim, sim.flash
      ensures sim.State() == Power(old(sim.State()), e)
    {
      hide GateAccepts;
      if e.reboot.Some? {
        sim.SimReset(true);
        if e.reboot.value {
          var taken := sim.UpdBootIfValid();
        }
      }
      if e.cut.Some? {
        sim.SimPowercutAfter(e.cut.value.flashOps, e.cut.value.tear);
      }
    }

    method Request(req: seq<byte>, cap: nat) returns (r: Result<seq<byte>>)
      requires Valid()
      modifies this, sim, sim.flash
      ensures (State(), r) == Transmit(schedule, old(State()), req, cap)
    {
      hide Power, Device.Request;
      var e := schedule(sent);
      sent := sent + 1;
      PowerEvents(e);
      var reply: seq<byte> := [];
      match e.request {
        case Arrives => reply := sim.SimRequest(req);
        case RequestLost =>
        case RequestMangled(bytes) => reply := sim.SimRequest(bytes);
      }
      r := Receive(reply, e.reply, cap);
    }
  }

  class HostSession {
    const wire: Wire
    const buf: array<byte>

    ghost predicate Valid() {
      wire.Valid() && buf != wire.sim.flash
    }

    constructor (wire: Wire, buf: array<byte>)
      requires wire.Valid() && buf != wire.sim.flash
      ensures Valid() && this.wire == wire && this.buf == buf
    {
      this.wire, this.buf := wire, buf;
    }

    /** The retry loop: request in `buf[..txLen]`, reply in the `rxLen` octets behind it. */
    method DoExchange(txLen: nat, rxLen: nat, want: byte) returns (r: Result<nat>)
      requires Valid() && txLen + rxLen <= buf.Length
      modifies wire, wire.sim, wire.sim.flash, buf
      ensures var tx := old(buf[..txLen]);
              var (w, s) := Exchange(wire.schedule, old(wire.State()), tx, rxLen, want, ATTEMPTS, BadFrame);
              && wire.State() == w
              && (if s.Err? then r == Err(s.error)
                  else r == Ok(|s.value|) && |s.value| <= rxLen && buf[txLen..txLen + |s.value|] == s.value)
    {
      hide Transmit, Validate, Judge, DecodePadded;
      ghost var w0, tx, sch := wire.State(), buf[..txLen], wire.schedule;
      var last := BadFrame;
      for attempt := 0 to ATTEMPTS
        invariant buf[..txLen] == tx
        invariant Exchange(sch, wire.State(), tx, rxLen, want, ATTEMPTS - attempt, last)
               == Exchange(sch, w0, tx, rxLen, want, ATTEMPTS, BadFrame)
      {
        var received := wire.Request(buf[..txLen], rxLen);
        if received.Ok? {
          forall i | 0 <= i < |received.value| {
            buf[txLen + i] := received.value[i];
          }
          assert buf[txLen..txLen + |received.value|] == received.value;
          assert buf[..txLen] == tx;
        }
        match Judge(received, want) {
          case Done => return Ok(|received.value|);
          case Stop(error) => return Err(error);
          case Retry(error) => last := error;
        }
      }
      return Err(last);
    }

    method DoTransact(cmd: byte, payload: seq<byte>, cap: nat) returns (r: Result<seq<byte>>)
      requires Valid()
      modifies wire, wire.sim, wire.sim.flash, buf
      ensures (wire.State(), r) == Transact(wire.schedule, old(wire.State()), buf.Length, Frame(cmd, payload), cap)
    {
      hide Exchange, DecodePadded, Encoded;
      var txLen := |payload| + FRAME_OVERHEAD;
      var rxLen := cap + FRAME_OVERHEAD;
      if buf.Length < txLen + rxLen {
        return Err(BufferTooSmall(txLen + rxLen));
      }
      ghost var w0 := wire.State();
      var encoded := Encode(cmd, payload, buf);
      if encoded.Err? {
        return Err(encoded.error);
      }
      assert wire.State() == w0;
      var n := DoExchange(txLen, rxLen, Response(cmd));
      if n.Err? {
        return Err(n.error);
      }
      var raw := buf[txLen..txLen + n.value];
      return Ok(DecodePadded(raw).value.payload[1..]);
    }

    method DoInfo() returns (r: Result<DeviceInfo>)
      requires Valid()
      modifies wire, wire.sim, wire.sim.flash, buf
      ensures (wire.State(), r) == Info(wire.schedule, old(wire.State()), buf.Length)
    {
      hide Transact, ParseInfo;
      var rest := DoTransact(CMD_INFO, [], INFO_RSP_PAYLOAD);
      if rest.Err? {
        return Err(rest.error);
      }
      return ParseInfo(rest.value);
    }

    method DoBoot() returns (r: Result<()>)
      requires Valid()
      modifies wire, wire.sim, wire.sim.flash, buf
      ensures (wire.State(), r) == Boot(wire.schedule, old(wire.State()), buf.Length)
    {
      hide Transact;
      var rest := DoTransact(CMD_BOOT, [], ST_RSP_PAYLOAD);
      if rest.Err? {
        return Err(rest.error);
      }
      return Ok(());
    }

    /** Renders the page straight into the transmit window and seals the frame there. */
    method DoWritePage(img: Image, index: nat) returns (r: Result<()>)
      requires Valid() && img.Fits() && index < img.appPages
      modifies wire, wire.sim, wire.sim.flash, buf
      ensures (wire.State(), r) == WritePage(wire.schedule, old(wire.State()), buf.Length, img, index)
    {
      var ps := img.pageSize;
      var txLen := ps + 2 + FRAME_OVERHEAD;
      var rxLen := ST_RSP_PAYLOAD + FRAME_OVERHEAD;
      if buf.Length < txLen + rxLen {
        return Err(BufferTooSmall(txLen + rxLen));
      }
      ghost var w0 := wire.State();
      SealWriteFrame(img, index);
      assert wire.State() == w0;
      hide Exchange, WriteFrame;
      var n := DoExchange(txLen, rxLen, Response(CMD_WRITE_PAGE));
      if n.Err? {
        return Err(n.error);
      }
      return Ok(());
    }

    method SealWriteFrame(img: Image, index: nat)
      requires img.Fits() && index < img.appPages && buf.Length >= img.pageSize + 5
      modifies buf
      ensures buf[..img.pageSize + 5] == Encoded(WriteFrame(img, index))
    {
      hide PageOf, Crc8.Crc8, Le16;
      var ps := img.pageSize;
      var header := [CMD_WRITE_PAGE, ps + 2] + Le16(index);
      forall k | 0 <= k < 4 {
        buf[k] := header[k];
      }
      var rendered := PageInto(img, index, buf, 4, ps);
      assert buf[..4] == header;
      assert buf[..4 + ps] == buf[..4] + buf[4..4 + ps];
      assert buf[..4 + ps] == Body(WriteFrame(img, index));
      var crc := Crc8.UpdCrc8(buf[..4 + ps]);
      buf[4 + ps] := crc;
      assert buf[..4 + ps + 1] == buf[..4 + ps] + [crc];
    }

    /** The whole update; pages come from the iterator. */
    method DoFlash(img: Image) returns (r: Result<()>)
      requires Valid() && img.Fits()
      modifies wire, wire.sim, wire.sim.flash, buf
      ensures (wire.State(), r) == Flash(wire.schedule, old(wire.State()), buf.Length, img)
    {
      hide Info, Transact, WritePage;
      ghost var w0, sch, room := wire.State(), wire.schedule, buf.Length;
      var info := DoInfo();
      if info.Err? {
        return Err(info.error);
      }
      if info.value.proto != PROTO_VERSION {
        return Err(ProtocolVersion(info.value.proto));
      }
      if info.value.pageSize != img.pageSize || info.value.appPages != img.appPages {
        return Err(BadGeometry(info.value.pageSize, info.value.appPages));
      }
      var erased := DoTransact(CMD_ERASE_APP, ERASE_MAGIC, ST_RSP_PAYLOAD);
      if erased.Err? {
        return Err(erased.error);
      }
      r := DoWritePages(img);
      if r.Err? {
        return;
      }
      DataBound(img);
      var verified := DoTransact(CMD_VERIFY, Le32(|img.data|) + CrcField(img.crc), ST_RSP_PAYLOAD);
      if verified.Err? {
        return Err(verified.error);
      }
      return Ok(());
    }

    method DoWritePages(img: Image) returns (r: Result<()>)
      requires Valid() && img.Fits()
      modifies wire, wire.sim, wire.sim.flash, buf
      ensures (wire.State(), r) == WritePages(wire.schedule, old(wire.State()), buf.Length, img, 0)
    {
      hide WritePage, MustWrite, PageList;
      ghost var w0, sch, room := wire.State(), wire.schedule, buf.Length;
      var pages := new Pages(img);
      while true
        invariant pages.img == img && pages.cursor <= img.appPages && fresh(pages)
        invariant WritePages(sch, wire.State(), room, img, pages.cursor) == WritePages(sch, w0, room, img, 0)
        decreases img.appPages - pages.cursor
      {
        ghost var cursor, w := pages.cursor, wire.State();
        var next := pages.Next();
        assert wire.State() == w;
        SkipTo(sch, w, room, img, cursor, if next.Some? then next.value else img.appPages);
        if next.None? {
          return Ok(());
        }
        r := DoWritePage(img, next.value);
        if r.Err? {
          return;
        }
      }
    }

    /** Pages that need no write cost no request. */
    static lemma {:induction false} SkipTo(sch: Schedule, w: World, room: nat, img: Image, cursor: nat, next: nat)
      requires w.dev.Valid() && img.Fits() && cursor <= next <= img.appPages
      requires forall i :: cursor <= i < next ==> !MustWrite(img, i)
      ensures WritePages(sch, w, room, img, cursor) == WritePages(sch, w, room, img, next)
      decreases next - cursor
    {
      hide WritePage, MustWrite;
      if cursor < next {
        SkipTo(sch, w, room, img, cursor + 1, next);
      }
    }
  }
}
