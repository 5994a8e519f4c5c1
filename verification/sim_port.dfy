/** The bootloader core running over a flash array whose operations can tear: the programs, each
    proved to take the device from `State()` to the state `Device` gives. */
module SimPort {
  import opened Bytes
  import opened Frames
  import opened Geometry
  import opened Images
  import opened Device
  import Crc32

  class Sim {
    const info: PortInfo
    const flash: array<byte>
    var erased: bool
    var bootPending: bool
    var ops: nat
    var cutAt: nat
    var tear: nat
    var dead: bool
    var jumped: bool

    ghost predicate Valid() {
      info.Valid() && flash.Length == Area(info.pageSize, info.appPages)
    }

    ghost function State(): (d: Dev)
      requires Valid()
      reads this, flash
      ensures d.Valid()
    {
      Dev(info, flash[..], None, erased, bootPending, ops, cutAt, tear, dead, jumped)
    }

    /** A device as it comes out of a power failure, or out of the factory: any flash contents. */
    constructor (info: PortInfo, flash: array<byte>)
      requires info.Valid() && flash.Length == Area(info.pageSize, info.appPages)
      ensures Valid() && this.info == info && this.flash == flash
      ensures State() == Dev(info, flash[..], None, false, false, 0, 0, 0, false, false)
    {
      this.info := info;
      this.flash := flash;
      erased, bootPending, dead, jumped := false, false, false, false;
      ops, cutAt, tear := 0, 0, 0;
    }

    // ---- the flash port ----

    method OpTears() returns (t: bool)
      requires Valid()
      modifies this
      ensures t == old(Tears(State()))
      ensures State() == old(State()).(ops := old(ops) + 1, dead := t || old(dead))
    {
      ops := ops + 1;
      if cutAt != 0 && ops == cutAt {
        dead := true;
        return true;
      }
      return false;
    }

    method Program(at: nat, data: seq<byte>)
      requires Valid() && at + |data| <= flash.Length
      modifies flash
      ensures flash[..] == Overlay(old(flash[..]), at, data)
    {
      forall k | 0 <= k < |data| {
        flash[at + k] := data[k];
      }
    }

    method PortFlashErasePage(page: nat)
      requires Valid() && page < info.appPages
      modifies this, flash
      ensures State() == EraseOp(old(State()), page)
    {
      if dead {
        return;
      }
      var at := PageAt(info.pageSize, info.appPages, page);
      var torn := OpTears();
      var extent := if torn then Min(tear, info.pageSize) else info.pageSize;
      assert Fill(extent) == Fill(info.pageSize)[..extent];
      Program(at, Fill(extent));
    }

    method PortFlashWritePage(page: nat, data: seq<byte>)
      requires Valid() && page < info.appPages && |data| == info.pageSize
      modifies this, flash
      ensures State() == FlashOp(old(State()), page, data)
    {
      if dead {
        return;
      }
      var at := PageAt(info.pageSize, info.appPages, page);
      var torn := OpTears();
      if torn {
        Program(at, data[..Min(tear, |data|)]);
      } else {
        Program(at, data);
      }
    }

    method PortFlashReadByte(offset: nat) returns (b: byte)
      requires Valid() && offset < flash.Length
      ensures b == flash[offset]
    {
      b := flash[offset];
    }

    // ---- the boot gate ----

    method FlashCrc(length: nat) returns (crc: bv32)
      requires Valid() && length <= flash.Length
      ensures crc == Crc32.Crc32(flash[..length])
    {
      hide Crc32.Step;
      var c := Crc32.ONES;
      for off := 0 to length
        invariant Crc32.Fold(c, flash[off..length]) == Crc32.Fold(Crc32.ONES, flash[..length])
      {
        var b := PortFlashReadByte(off);
        c := Crc32.UpdCrc32Update(c, b);
        assert flash[off..length][1..] == flash[off + 1..length];
      }
      Crc32.FinalXor(c);
      crc := c ^ Crc32.ONES;
    }

    method ReadField(at: nat, size: nat) returns (s: seq<byte>)
      requires Valid() && at + size <= flash.Length
      ensures s == flash[at..at + size]
    {
      s := [];
      for i := 0 to size
        invariant s == flash[at..at + i]
      {
        var b := PortFlashReadByte(at + i);
        s := s + [b];
      }
    }

    method UpdAppValid() returns (valid: bool)
      requires Valid()
      ensures valid == GateAccepts(flash[..])
    {
      hide Crc32.Crc32, FromCrcField, FromLe32;
      ghost var f := flash[..];
      if flash.Length < FOOTER_LEN {
        return false;
      }
      var base := flash.Length - FOOTER_LEN;
      for i := 0 to 4
        invariant f[base..base + i] == FOOTER_MAGIC[..i]
      {
        var b := PortFlashReadByte(base + i);
        if b != FOOTER_MAGIC[i] {
          assert f[base..base + 4][i] != FOOTER_MAGIC[i];
          return false;
        }
        assert f[base..base + i + 1] == f[base..base + i] + [b];
        assert FOOTER_MAGIC[..i + 1] == FOOTER_MAGIC[..i] + [b];
      }
      var lenField := ReadField(base + 4, 4);
      var crcField := ReadField(base + 8, 4);
      var len := FromLe32(lenField);
      assert lenField == f[base + 4..base + 8] && crcField == f[base + 8..base + 12];
      if len > base {
        return false;
      }
      var crc := FlashCrc(len);
      assert flash[..len] == f[..len];
      return crc == FromCrcField(crcField);
    }

    method UpdBootIfValid() returns (taken: bool)
      requires Valid()
      modifies this
      ensures taken == old(GateAccepts(flash[..]))
      ensures State() == BootIfValid(old(State()))
    {
      var valid := UpdAppValid();
      if !valid {
        return false;
      }
      jumped := true;
      return true;
    }

    method UpdInit()
      requires Valid()
      modifies this
      ensures State() == old(State()).(erased := false, bootPending := false)
    {
      erased := false;
      bootPending := false;
    }

    // ---- command handlers ----

    method UpdHandleInfo(cap: nat) returns (rsp: seq<byte>)
      requires Valid()
      ensures rsp == HandleInfo(State(), cap)
    {
      if cap < 12 {
        return [ST_BAD_FRAME];
      }
      var valid := UpdAppValid();
      return [ST_OK, PROTO_VERSION, info.blVersion] + info.deviceId
             + Le16(info.pageSize) + Le16(info.appPages) + [if valid then 1 else 0];
    }

    method UpdHandleErase(payload: seq<byte>) returns (st: byte)
      requires Valid()
      modifies this, flash
      ensures (State(), st) == HandleErase(old(State()), payload)
    {
      if payload != ERASE_MAGIC {
        return ST_BAD_MAGIC;
      }
      for p := 0 to info.appPages
        invariant EraseFrom(State(), p) == EraseFrom(old(State()), 0)
      {
        PortFlashErasePage(p);
      }
      erased := true;
      return ST_OK;
    }

    method UpdHandleWrite(payload: seq<byte>) returns (st: byte)
      requires Valid()
      modifies this, flash
      ensures (State(), st) == HandleWrite(old(State()), payload)
    {
      if !erased {
        return ST_NOT_ERASED;
      }
      if |payload| != info.pageSize + 2 {
        return ST_BAD_FRAME;
      }
      var index := FromLe16(payload[..2]);
      if index >= info.appPages {
        return ST_OUT_OF_RANGE;
      }
      PortFlashWritePage(index, payload[2..]);
      return ST_OK;
    }

    method UpdHandleVerify(payload: seq<byte>) returns (st: byte)
      requires Valid()
      ensures st == HandleVerify(State(), payload)
    {
      hide Crc32.Crc32, FromCrcField, FromLe32;
      if |payload| != 8 {
        return ST_BAD_FRAME;
      }
      var length := FromLe32(payload[..4]);
      if flash.Length < FOOTER_LEN || length > flash.Length - FOOTER_LEN {
        return ST_OUT_OF_RANGE;
      }
      var crc := FlashCrc(length);
      assert flash[..length] == flash[..][..length];
      return if crc == FromCrcField(payload[4..]) then ST_OK else ST_BAD_CRC;
    }

    method UpdHandleEcho(payload: seq<byte>, cap: nat) returns (rsp: seq<byte>)
      ensures rsp == HandleEcho(payload, cap)
    {
      if |payload| > ECHO_MAX || |payload| + 1 > cap {
        return [ST_BAD_FRAME];
      }
      rsp := [ST_OK];
      for i := 0 to |payload|
        invariant rsp == [ST_OK] + payload[..i]
      {
        rsp := rsp + [payload[i]];
      }
    }

    method UpdHandle(f: Frame, cap: nat) returns (rsp: seq<byte>)
      requires Valid()
      modifies this, flash
      ensures (State(), rsp) == Handle(old(State()), f, cap)
    {
      hide HandleInfo, HandleErase, HandleWrite, HandleVerify, HandleEcho, GateAccepts;
      if cap == 0 {
        return [];
      }
      if f.cmd == CMD_INFO {
        rsp := UpdHandleInfo(cap);
      } else if f.cmd == CMD_ERASE_APP {
        var st := UpdHandleErase(f.payload);
        rsp := [st];
      } else if f.cmd == CMD_WRITE_PAGE {
        var st := UpdHandleWrite(f.payload);
        rsp := [st];
      } else if f.cmd == CMD_VERIFY {
        var st := UpdHandleVerify(f.payload);
        rsp := [st];
      } else if f.cmd == CMD_BOOT {
        var valid := UpdAppValid();
        if valid {
          bootPending := true;
          rsp := [ST_OK];
        } else {
          rsp := [ST_NO_APP];
        }
      } else if f.cmd == CMD_ECHO {
        rsp := UpdHandleEcho(f.payload, cap);
      } else {
        rsp := [ST_BAD_CMD];
      }
    }

    // ---- one request, and the controls ----

    method SimRequest(bytes: seq<byte>) returns (reply: seq<byte>)
      requires Valid()
      modifies this, flash
      ensures (State(), reply) == Request(old(State()), bytes)
    {
      hide Handle, GateAccepts, Encoded, IsFrame;
      if dead || jumped {
        return [];
      }
      var cmd: byte;
      var payload: seq<byte>;
      var req: Option<Frame> := None;
      if |bytes| <= 255 {
        req := UpdFrameParse(bytes);
      } else {
        LongIsNoFrame(bytes);
      }
      if req.Some? {
        cmd := req.value.cmd;
        payload := UpdHandle(req.value, RSP_CAP);
      } else {
        cmd := if |bytes| >= 1 then bytes[0] else 0;
        payload := [ST_BAD_FRAME];
      }
      reply := Encoded(Frame(Response(cmd), payload));
      if dead {
        return [];
      }
      if bootPending {
        bootPending := false;
        var taken := UpdBootIfValid();
      }
    }

    method SimReset(preserveFlash: bool)
      requires Valid()
      modifies this, flash
      ensures State() == Reset(old(State())).(flash := if preserveFlash then old(flash[..]) else Fill(flash.Length))
    {
      if !preserveFlash {
        Program(0, Fill(flash.Length));
      }
      ops, cutAt := 0, 0;
      dead, jumped := false, false;
      UpdInit();
    }

    method SimPowercutAfter(flashOps: nat, tear: nat)
      requires Valid()
      modifies this
      ensures State() == ArmCut(old(State()), flashOps, tear)
    {
      cutAt := if flashOps == 0 then 0 else ops + flashOps;
      this.tear := tear;
    }
  }

  lemma LongIsNoFrame(s: seq<byte>)
    requires |s| > 255
    ensures Parse(s).None?
  {
  }
}
