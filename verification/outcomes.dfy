/** What the result of an update says about the requests behind it. */
module Outcomes {
  import opened Bytes
  import opened Frames
  import opened Images
  import opened Device
  import opened Gate
  import opened Session
  import opened Install
  import Crc32

  /** The last request of an update that returns Ok is a VERIFY of the whole image, and the device has
      answered it ST_OK: the CRC over as many octets of its flash is the image's. */
  lemma OkMeansVerified(sch: Schedule, w: World, room: nat, img: Image) returns (w0: World)
    requires w.dev.Valid() && img.Fits() && |img.data| < 0x1_0000_0000
    requires Flash(sch, w, room, img).1.Ok?
    ensures w0.dev.Valid()
    ensures var f := Frame(0x04, Le32(|img.data|) + CrcField(img.crc));
            var (w1, r) := Transmit(sch, w0, Encoded(f), 4);
            var d := Power(w0.dev, sch(w0.sent));
            && w1 == Flash(sch, w, room, img).0
            && r.Ok? && DecodePadded(r.value) == Ok(Frame(0x84, [ST_OK]))
            && Handle(d, f, RSP_CAP).1 == [ST_OK]
            && |img.data| <= |d.flash| && Crc32.Crc32(d.flash[..|img.data|]) == img.crc
  {
    hide Transmit, Exchange, Validate, Encoded, Power, DecodePadded, Prepare, WritePages, Le32, CrcField, Crc32.Crc32;
    hide Handle, Image.Fits;
    var f := Frame(0x04, Le32(|img.data|) + CrcField(img.crc));
    var w2 := WritePages(sch, Prepare(sch, w, room, img).0, room, img, 0).0;
    w0 := LastAttempt(sch, w2, f, 4, ATTEMPTS, BadFrame);
    AcceptedMeansServed(sch, w0, f, 4);
    VerifyAccepts(Power(w0.dev, sch(w0.sent)), |img.data|, img.crc);
  }

  lemma VerifyAccepts(d: Dev, len: nat, crc: bv32)
    requires d.Valid() && len < 0x1_0000_0000
    requires Handle(d, Frame(0x04, Le32(len) + CrcField(crc)), RSP_CAP).1[0] == ST_OK
    ensures Handle(d, Frame(0x04, Le32(len) + CrcField(crc)), RSP_CAP).1 == [ST_OK]
    ensures len <= |d.flash| && Crc32.Crc32(d.flash[..len]) == crc
  {
    hide Le32, FromLe32, CrcField, FromCrcField, Crc32.Crc32, ReadOp;
    var payload := Le32(len) + CrcField(crc);
    assert payload[..4] == Le32(len) && payload[4..] == CrcField(crc);
    Le32RoundTrip(len);
    CrcFieldRoundTrip(crc);
  }

  /** It has sent an INFO, an ERASE_APP, every listed page and a VERIFY at least. */
  lemma OkMeansAllSent(sch: Schedule, w: World, room: nat, img: Image)
    requires w.dev.Valid() && img.Fits() && Flash(sch, w, room, img).1.Ok?
    ensures Flash(sch, w, room, img).0.sent >= w.sent + |PageList(img, 0)| + 3
  {
    hide Exchange, Encoded, DecodePadded, WritePages, Response;
    DataBound(img);
    InfoSends(sch, w, room);
    var w1 := Prepare(sch, w, room, img).0;
    PagesSend(sch, w1, room, img, 0);
    var w2 := WritePages(sch, w1, room, img, 0).0;
    OkSends(sch, w2, room, VerifyFrame(img), 1);
    OkSends(sch, Info(sch, w, room).0, room, Frame(CMD_ERASE_APP, ERASE_MAGIC), 1);
  }

  lemma OkSends(sch: Schedule, w: World, room: nat, f: Frame, cap: nat)
    requires w.dev.Valid() && Transact(sch, w, room, f, cap).1.Ok?
    ensures Transact(sch, w, room, f, cap).0.sent > w.sent
  {
    hide Transmit, Judge, Validate, Encoded, DecodePadded;
  }

  lemma InfoSends(sch: Schedule, w: World, room: nat)
    requires w.dev.Valid() && Info(sch, w, room).1.Ok?
    ensures Info(sch, w, room).0.sent > w.sent
  {
    hide Transact;
    OkSends(sch, w, room, Frame(CMD_INFO, []), INFO_RSP_PAYLOAD);
  }

  lemma {:induction false} PagesSend(sch: Schedule, w: World, room: nat, img: Image, cursor: nat)
    requires w.dev.Valid() && img.Fits() && cursor <= img.appPages
    requires WritePages(sch, w, room, img, cursor).1.Ok?
    ensures WritePages(sch, w, room, img, cursor).0.sent >= w.sent + |PageList(img, cursor)|
    decreases img.appPages - cursor
  {
    hide Transact, MustWrite, WriteFrame;
    if cursor < img.appPages {
      if MustWrite(img, cursor) {
        OkSends(sch, w, room, WriteFrame(img, cursor), 1);
        PagesSend(sch, WritePage(sch, w, room, img, cursor).0, room, img, cursor + 1);
      } else {
        PagesSend(sch, w, room, img, cursor + 1);
      }
    }
  }

  /** A device of another geometry is left alone: nothing is sent behind INFO. */
  lemma OtherGeometryRefused(sch: Schedule, w: World, room: nat, img: Image)
    requires w.dev.Valid() && img.Fits()
    requires img.pageSize != w.dev.info.pageSize || img.appPages != w.dev.info.appPages
    ensures var (w1, r) := Flash(sch, w, room, img);
            && w1 == Info(sch, w, room).0
            && r.Err?
            && (Info(sch, w, room).1.Ok? ==> r.error == BadGeometry(w.dev.info.pageSize, w.dev.info.appPages))
            && (Info(sch, w, room).1.Err? ==> r.error == Info(sch, w, room).1.error)
  {
    hide Transact, Erase;
    if Info(sch, w, room).1.Ok? {
      InfoIsTrue(sch, w, room);
    }
  }

  /** The requests of an update, in the host's order. */
  datatype Stage = AskInfo | AskErase | AskPage(index: nat) | AskVerify

  ghost function Ask(sch: Schedule, w: World, room: nat, img: Image, s: Stage): (r: (World, Result<seq<byte>>))
    requires w.dev.Valid() && img.Fits() && |img.data| < 0x1_0000_0000 && (s.AskPage? ==> s.index < img.appPages)
  {
    match s
    case AskInfo => Transact(sch, w, room, Frame(0x01, []), 12)
    case AskErase => Transact(sch, w, room, Frame(0x02, [0x45, 0x52, 0x41, 0x53]), 1)
    case AskPage(index) => Transact(sch, w, room, Frame(0x03, Le16(index) + PageOf(img, index)), 1)
    case AskVerify => Transact(sch, w, room, Frame(0x04, Le32(|img.data|) + CrcField(img.crc)), 1)
  }

  /** An update stops at the first request that fails, with that request's error. */
  lemma FailureIsFinal(sch: Schedule, w: World, room: nat, img: Image) returns (w0: World, s: Stage)
    requires w.dev.Valid() && img.Fits() && |img.data| < 0x1_0000_0000 && Flash(sch, w, room, img).1.Err?
    requires img.pageSize == w.dev.info.pageSize && img.appPages == w.dev.info.appPages
    ensures w0.dev.Valid() && (s.AskPage? ==> s.index < img.appPages && MustWrite(img, s.index))
    ensures var r := Ask(sch, w0, room, img, s);
            r.0 == Flash(sch, w, room, img).0 && r.1.Err? && r.1.error == Flash(sch, w, room, img).1.error
  {
    hide Transact, WritePages, MustWrite, PageOf, Le16, Le32, CrcField, Image.Fits;
    var (w1, info) := Info(sch, w, room);
    if Ask(sch, w, room, img, AskInfo).1.Err? {
      return w, AskInfo;
    }
    InfoIsTrue(sch, w, room);
    var (w2, erased) := Erase(sch, w1, room);
    if erased.Err? {
      return w1, AskErase;
    }
    var (w3, written) := WritePages(sch, w2, room, img, 0);
    if written.Err? {
      w0, s := PageFails(sch, w2, room, img, 0);
      return;
    }
    return w3, AskVerify;
  }

  lemma {:induction false} PageFails(sch: Schedule, w: World, room: nat, img: Image, cursor: nat)
    returns (w0: World, s: Stage)
    requires w.dev.Valid() && img.Fits() && |img.data| < 0x1_0000_0000 && cursor <= img.appPages
    requires WritePages(sch, w, room, img, cursor).1.Err?
    ensures w0.dev.Valid() && s.AskPage? && s.index < img.appPages && MustWrite(img, s.index)
    ensures var r := Ask(sch, w0, room, img, s);
            r.0 == WritePages(sch, w, room, img, cursor).0
            && r.1.Err? && r.1.error == WritePages(sch, w, room, img, cursor).1.error
    decreases img.appPages - cursor
  {
    hide Transact, MustWrite, PageOf, Le16, Image.Fits;
    if !MustWrite(img, cursor) {
      w0, s := PageFails(sch, w, room, img, cursor + 1);
    } else if WritePage(sch, w, room, img, cursor).1.Err? {
      w0, s := w, AskPage(cursor);
    } else {
      w0, s := PageFails(sch, WritePage(sch, w, room, img, cursor).0, room, img, cursor + 1);
    }
  }

  // ---- INFO, as the host reads it ----

  /** The host goes on exactly with a device of this protocol and of the image's geometry; else it says
      what it found. */
  lemma AdmitsExactly(info: DeviceInfo, img: Image)
    ensures Admit(info, img).Ok? <==>
            info.proto == 0x01 && info.pageSize == img.pageSize && info.appPages == img.appPages
    ensures info.proto != 0x01 ==> Admit(info, img) == Err(ProtocolVersion(info.proto))
    ensures info.proto == 0x01 && Admit(info, img).Err? ==>
              Admit(info, img).error == BadGeometry(info.pageSize, info.appPages)
  {
  }

  /** INFO's payload behind the status, read back; any octet but zero means a valid application, and any
      other length is a bad frame. */
  lemma InfoRoundTrip(info: DeviceInfo, valid: byte)
    requires |info.deviceId| == 4 && info.pageSize < 0x1_0000 && info.appPages < 0x1_0000
    ensures var rest := [info.proto, info.blVersion] + info.deviceId + Le16(info.pageSize) + Le16(info.appPages)
                        + [valid];
            ParseInfo(rest) == Ok(info.(appValid := valid != 0x00))
  {
    hide Le16, FromLe16;
    var sizes := Le16(info.pageSize) + Le16(info.appPages);
    var rest := [info.proto, info.blVersion] + info.deviceId + Le16(info.pageSize) + Le16(info.appPages) + [valid];
    assert rest[2..6] == info.deviceId && rest[6..8] == Le16(info.pageSize) && rest[8..10] == Le16(info.appPages);
    Le16RoundTrip(info.pageSize);
    Le16RoundTrip(info.appPages);
  }

  lemma InfoOfOtherLength(rest: seq<byte>)
    requires |rest| != 11
    ensures ParseInfo(rest) == Err(BadFrame)
  {
  }

  // ---- the schedule bites ----

  /** What an event does to one page write on a listening device: a power failure tears it at any octet,
      a lost request leaves the device alone, and a lost reply leaves it with the page written. The
      host is told nothing in any of the three. */
  lemma FaultsHappen(sch: Schedule, w: World, img: Image, index: nat)
    requires img.Fits() && index < img.appPages && Matches(img, w.dev) && w.dev.under.None?
    requires !w.dev.Silent() && !w.dev.bootPending && w.dev.erased && w.dev.cutAt == 0
    requires w.dev.flash == Upto(img, Start(img, index)) && sch(w.sent).reboot.None?
    ensures var e := sch(w.sent);
            var (w1, r) := Transmit(sch, w, Encoded(WriteFrame(img, index)), 4);
            && (e.request.Arrives? && e.cut.Some? && e.cut.value.flashOps == 1 ==>
                  && r == Err(Transport) && w1.dev.dead
                  && w1.dev.flash == Upto(img, Start(img, index) + Min(e.cut.value.tear, img.pageSize)))
            && (e.request.RequestLost? && e.cut.None? ==> r == Err(Transport) && w1.dev == w.dev)
            && (e.request.Arrives? && e.cut.None? && e.reply.ReplyLost? ==>
                  r == Err(Transport) && !w1.dev.dead && w1.dev.flash == Upto(img, Start(img, index + 1)))
  {
    hide Handle, Encoded, IsFrame, Parse, FlashOp, Upto, Start, PageOf, WriteFrame, Image.Fits;
    var e, f := sch(w.sent), WriteFrame(img, index);
    var d := Power(w.dev, e);
    ParseInvertsEncoded(f);
    WriteFrameServed(img, d, index);
    FlatWrite(img, d, index);
    if Upto(img, Start(img, index)) == Upto(img, Start(img, index + 1)) {
      BetweenIsSame(img, index, if e.cut.Some? then Min(e.cut.value.tear, img.pageSize) else 0);
    }
  }

  /** If a whole page adds nothing, neither does a part of it. */
  lemma BetweenIsSame(img: Image, index: nat, count: nat)
    requires img.Fits() && index < img.appPages && count <= img.pageSize
    requires Upto(img, Start(img, index)) == Upto(img, Start(img, index + 1))
    ensures Upto(img, Start(img, index) + count) == Upto(img, Start(img, index))
  {
    hide Render, Region, Start;
    NextStart(img, index);
    var a, b, c := Upto(img, Start(img, index)), Upto(img, Start(img, index) + count), Upto(img, Start(img, index + 1));
    forall i | 0 <= i < |a|
      ensures b[i] == a[i]
    {
      assert a[i] == c[i];
    }
  }
}
