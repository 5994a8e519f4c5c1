/** The other direction: from when on the power holds and no four transmissions in a row are lost, an
    update succeeds, from any flash contents, so one reflash recovers whatever came before. */
module Progress {
  import opened Bytes
  import opened Frames
  import opened Images
  import opened Device
  import opened Gate
  import opened Session
  import opened Install
  import Outcomes

  predicate Clean(e: Event) {
    e.request.Arrives? && e.reply.Returns?
  }

  predicate GetsThrough(sch: Schedule, i: nat) {
    exists k :: i <= k < i + ATTEMPTS && Clean(sch(k))
  }

  /** From transmission `from` on no reboot and no power failure, and at least one transmission in any
      four gets through. */
  ghost predicate Calm(sch: Schedule, from: nat) {
    && (forall i: nat :: i >= from ==> sch(i).reboot.None? && sch(i).cut.None?)
    && (forall i: nat :: i >= from ==> GetsThrough(sch, i))
  }

  /** The same, but that the first event may still bring a reboot. */
  ghost predicate SettlesDown(sch: Schedule, from: nat) {
    sch(from).cut.None? && GetsThrough(sch, from) && Calm(sch, from + 1)
  }

  lemma CalmLater(sch: Schedule, i: nat, j: nat)
    requires Calm(sch, i) && i <= j
    ensures Calm(sch, j) && SettlesDown(sch, j)
  {
  }

  lemma NextClean(sch: Schedule, i: nat) returns (k: nat)
    requires SettlesDown(sch, i)
    ensures i <= k < i + ATTEMPTS && Clean(sch(k))
    ensures forall j: nat :: j > i ==> sch(j).reboot.None? && sch(j).cut.None?
  {
    k :| i <= k < i + ATTEMPTS && Clean(sch(k));
  }

  /** A device that listens, with nothing pending and no power failure armed: as any reset leaves it. */
  predicate Steady(d: Dev)
    ensures Steady(d) ==> d.Valid()
  {
    d.Valid() && !d.dead && !d.jumped && !d.bootPending && d.cutAt == 0
  }

  lemma ResetIsSteady(d: Dev)
    requires d.Valid()
    ensures Steady(Reset(d)) && SamePort(d, Reset(d))
    ensures Reset(d).flash == if d.under.None? then d.flash else d.under.value.nor
  {
  }

  /** Its flash operations are carried through, and reading changes nothing that is read. */
  lemma ReadStaysSteady(d: Dev)
    requires Steady(d)
    ensures Steady(ReadOp(d)) && ReadOp(d).flash == d.flash
  {
    hide Holdback.Flush, Holdback.TornBy, Holdback.View;
    if d.under.Some? {
      Holdback.FlushIsInvisible(d.under.value, d.info.appPages);
    }
  }

  lemma EraseStaysSteady(d: Dev, page: nat)
    requires Steady(d) && page < d.info.appPages
    ensures Steady(EraseOp(d, page))
  {
    hide Holdback.Erase, Holdback.TornErase, Holdback.View, Overlay;
  }

  lemma WriteStaysSteady(d: Dev, page: nat, data: seq<byte>)
    requires Steady(d) && page < d.info.appPages && |data| == d.info.pageSize
    ensures Steady(FlashOp(d, page, data)) && FlashOp(d, page, data).erased == d.erased
  {
    hide Holdback.Write, Holdback.TornBy, Holdback.View, Overlay;
  }

  /** A steady device that answers `f` with ST_OK in a reply that fits. */
  predicate Serves(d: Dev, f: Frame, cap: nat)
    ensures Serves(d, f, cap) ==> d.Valid() && Encodable(f)
  {
    Steady(d) && Encodable(f)
    && var (d1, payload) := Handle(d, f, RSP_CAP);
       Steady(d1) && payload[0] == ST_OK && |payload| + FRAME_OVERHEAD <= cap
  }

  lemma RequestServed(d: Dev, f: Frame, cap: nat)
    requires Serves(d, f, cap)
    ensures var (d1, payload) := Handle(d, f, RSP_CAP);
            Request(d, Encoded(f)) == (d1, Encoded(Frame(Response(f.cmd), payload)))
  {
    hide Handle, Encoded, IsFrame, Parse, GateAccepts;
    ParseInvertsEncoded(f);
  }

  lemma MangledAnswered(d: Dev, bytes: Unparsable, e: Event, cap: nat, want: byte)
    requires Steady(d)
    ensures Request(d, bytes).0 == d
    ensures Judge(Receive(Request(d, bytes).1, e.reply, cap), want).Retry?
  {
    hide Handle, Encoded, IsFrame, Parse, GateAccepts, DecodePadded;
    var cmd := if |bytes| >= 1 then bytes[0] else 0;
    if e.reply.Returns? {
      ReplyDecodes(Frame(Response(cmd), [ST_BAD_FRAME]), e.reply.filler, cap);
    }
  }

  /** One attempt on a device that is steady when it comes: it stays in step, and the host is done or
      tries again; it is done when the attempt is clean. */
  lemma CalmAttempt(sch: Schedule, w: World, f: Frame, cap: nat)
    requires w.dev.Valid() && Serves(Power(w.dev, sch(w.sent)), f, cap)
    ensures var (w1, r) := Transmit(sch, w, Encoded(f), cap);
            var d := Power(w.dev, sch(w.sent));
            && (w1.dev == d || w1.dev == Handle(d, f, RSP_CAP).0)
            && !Judge(r, Response(f.cmd)).Stop?
            && (Clean(sch(w.sent)) ==> Judge(r, Response(f.cmd)).Done?)
  {
    hide Handle, Encoded, DecodePadded, GateAccepts, IsFrame, Request, Power;
    var e, d := sch(w.sent), Power(w.dev, sch(w.sent));
    var (d1, payload) := Handle(d, f, RSP_CAP);
    RequestServed(d, f, cap);
    match e.request {
      case Arrives =>
        match e.reply {
          case Returns(filler) => ReplyDecodes(Frame(Response(f.cmd), payload), filler, cap);
          case ReplyLost =>
          case ReplyMangled(octets) =>
        }
      case RequestLost =>
      case RequestMangled(bytes) => MangledAnswered(d, bytes, e, cap, Response(f.cmd));
    }
  }

  lemma NothingHappens(d: Dev, e: Event)
    requires d.Valid() && e.reboot.None? && e.cut.None?
    ensures Power(d, e) == d
  {
  }

  /** With a clean attempt within reach, an exchange that is served in every state it can bring about
      succeeds. `stay` describes those states. */
  lemma {:induction false} ExchangeSucceeds(
    stay: Dev -> bool, sch: Schedule, w: World, f: Frame, cap: nat, tries: nat, last: Error, k: nat)
    requires Encodable(f) && w.dev.Valid()
    requires forall d :: stay(d) ==> Serves(d, f, cap) && stay(Handle(d, f, RSP_CAP).0)
    requires forall i: nat :: i > w.sent ==> sch(i).reboot.None? && sch(i).cut.None?
    requires stay(Power(w.dev, sch(w.sent))) && w.sent <= k < w.sent + tries && Clean(sch(k))
    ensures var (w1, r) := Exchange(sch, w, Encoded(f), cap, Response(f.cmd), tries, last);
            r.Ok? && stay(w1.dev) && w1.sent > w.sent
    decreases tries
  {
    hide Handle, Encoded, Transmit, Judge, Validate, DecodePadded, Serves, Clean, Power;
    assert Serves(Power(w.dev, sch(w.sent)), f, cap);
    CalmAttempt(sch, w, f, cap);
    var (w1, received) := Transmit(sch, w, Encoded(f), cap);
    if !Judge(received, Response(f.cmd)).Done? {
      NothingHappens(w1.dev, sch(w1.sent));
      ExchangeSucceeds(stay, sch, w1, f, cap, tries - 1, Judge(received, Response(f.cmd)).why, k);
    }
  }

  lemma CalmNow(sch: Schedule, w: World)
    requires Calm(sch, w.sent) && w.dev.Valid()
    ensures SettlesDown(sch, w.sent) && Power(w.dev, sch(w.sent)) == w.dev
  {
    hide GetsThrough;
  }

  // ---- the four kinds of request ----

  function RoomNeeded(img: Image): nat {
    img.pageSize + 9
  }

  ghost predicate Ready(img: Image, d: Dev)
    requires img.Fits()
    ensures Ready(img, d) ==> Matches(img, d)
  {
    Steady(d) && Matches(img, d)
  }

  ghost predicate ReadyErased(img: Image, d: Dev)
    requires img.Fits()
    ensures ReadyErased(img, d) ==> Ready(img, d)
  {
    Ready(img, d) && d.erased
  }

  lemma InfoServed(img: Image, d: Dev)
    requires img.Fits() && Ready(img, d)
    ensures var f := Frame(CMD_INFO, []);
            Serves(d, f, INFO_RSP_PAYLOAD + FRAME_OVERHEAD) && Ready(img, Handle(d, f, RSP_CAP).0)
  {
    hide ReadOp, GateAccepts, Image.Fits;
    ReadStaysSteady(d);
    var f := Frame(CMD_INFO, []);
    assert Handle(d, f, RSP_CAP) == (ReadOp(d), HandleInfo(d, RSP_CAP));
  }

  lemma InfoSucceeds(sch: Schedule, w: World, room: nat, img: Image)
    requires SettlesDown(sch, w.sent) && img.Fits() && w.dev.Valid() && room >= RoomNeeded(img)
    requires Ready(img, Power(w.dev, sch(w.sent)))
    ensures var (w1, r) := Info(sch, w, room);
            && Ready(img, w1.dev) && w1.sent > w.sent && r.Ok? && r.value.proto == PROTO_VERSION
            && r.value.pageSize == img.pageSize && r.value.appPages == img.appPages
  {
    hide Exchange, Encoded, DecodePadded, Clean, SettlesDown, Serves, Handle, Power;
    var f, cap := Frame(CMD_INFO, []), INFO_RSP_PAYLOAD + FRAME_OVERHEAD;
    var k := NextClean(sch, w.sent);
    forall d | Ready(img, d)
      ensures Serves(d, f, cap) && Ready(img, Handle(d, f, RSP_CAP).0)
    {
      InfoServed(img, d);
    }
    ExchangeSucceeds((d: Dev) => Ready(img, d), sch, w, f, cap, ATTEMPTS, BadFrame, k);
    InfoIsTrue(sch, w, room);
  }

  lemma {:induction false} EraseStaysReady(img: Image, d: Dev, page: nat)
    requires img.Fits() && Ready(img, d) && page <= d.info.appPages
    ensures Ready(img, EraseFrom(d, page))
    decreases d.info.appPages - page
  {
    hide EraseOp, Image.Fits;
    if page < d.info.appPages {
      EraseStaysSteady(d, page);
      EraseStaysReady(img, EraseOp(d, page), page + 1);
    }
  }

  lemma EraseServed(img: Image, d: Dev)
    requires img.Fits() && Ready(img, d)
    ensures var f := Frame(CMD_ERASE_APP, ERASE_MAGIC);
            Serves(d, f, ST_RSP_PAYLOAD + FRAME_OVERHEAD) && Ready(img, Handle(d, f, RSP_CAP).0)
  {
    EraseStaysReady(img, d, 0);
  }

  lemma EraseSucceeds(sch: Schedule, w: World, room: nat, img: Image)
    requires Calm(sch, w.sent) && img.Fits() && Ready(img, w.dev) && room >= RoomNeeded(img)
    ensures var (w1, r) := Erase(sch, w, room);
            && r.Ok? && ReadyErased(img, w1.dev) && Phase(img, w1.dev, 0, 0)
  {
    hide Exchange, Encoded, DecodePadded, Clean, Calm, SettlesDown, Power, Serves, Ready, Handle;
    var f := Frame(CMD_ERASE_APP, ERASE_MAGIC);
    CalmNow(sch, w);
    var k := NextClean(sch, w.sent);
    forall d | Ready(img, d)
      ensures Serves(d, f, ST_RSP_PAYLOAD + FRAME_OVERHEAD) && Ready(img, Handle(d, f, RSP_CAP).0)
    {
      EraseServed(img, d);
    }
    ExchangeSucceeds((d: Dev) => Ready(img, d), sch, w, f, ST_RSP_PAYLOAD + FRAME_OVERHEAD, ATTEMPTS, BadFrame, k);
    EraseStartsPhase(sch, w, room, img);
  }

  lemma WriteServed(img: Image, d: Dev, index: nat)
    requires img.Fits() && index < img.appPages && ReadyErased(img, d)
    ensures var f := WriteFrame(img, index);
            Serves(d, f, ST_RSP_PAYLOAD + FRAME_OVERHEAD) && ReadyErased(img, Handle(d, f, RSP_CAP).0)
  {
    hide Handle, PageOf, FlashOp;
    WriteFrameServed(img, d, index);
    WriteStaysSteady(d, index, PageOf(img, index));
  }

  lemma WriteSucceeds(sch: Schedule, w: World, room: nat, img: Image, index: nat)
    requires Calm(sch, w.sent) && img.Fits() && index < img.appPages
    requires ReadyErased(img, w.dev) && room >= RoomNeeded(img)
    ensures var (w1, r) := WritePage(sch, w, room, img, index);
            r.Ok? && ReadyErased(img, w1.dev)
  {
    hide Exchange, Encoded, DecodePadded, Clean, Calm, SettlesDown, Power, Serves, ReadyErased, Handle, PageOf, Le16;
    var f := WriteFrame(img, index);
    CalmNow(sch, w);
    var k := NextClean(sch, w.sent);
    forall d | ReadyErased(img, d)
      ensures Serves(d, f, ST_RSP_PAYLOAD + FRAME_OVERHEAD) && ReadyErased(img, Handle(d, f, RSP_CAP).0)
    {
      WriteServed(img, d, index);
    }
    var cap := ST_RSP_PAYLOAD + FRAME_OVERHEAD;
    ExchangeSucceeds((d: Dev) => ReadyErased(img, d), sch, w, f, cap, ATTEMPTS, BadFrame, k);
  }

  lemma {:induction false} WritesSucceed(sch: Schedule, w: World, room: nat, img: Image, cursor: nat)
    requires Calm(sch, w.sent) && img.Fits() && cursor <= img.appPages
    requires ReadyErased(img, w.dev) && room >= RoomNeeded(img)
    ensures var (w1, r) := WritePages(sch, w, room, img, cursor);
            r.Ok? && ReadyErased(img, w1.dev)
    decreases img.appPages - cursor
  {
    hide ReadyErased, WritePage, MustWrite, Calm;
    if cursor < img.appPages {
      if MustWrite(img, cursor) {
        WriteSucceeds(sch, w, room, img, cursor);
        var w1 := WritePage(sch, w, room, img, cursor).0;
        CalmLater(sch, w.sent, w1.sent);
        WritesSucceed(sch, w1, room, img, cursor + 1);
      } else {
        WritesSucceed(sch, w, room, img, cursor + 1);
      }
    }
  }

  /** Ready, with the image to be read in flash. */
  ghost predicate Installed(img: Image, d: Dev)
    requires img.Fits()
    ensures Installed(img, d) ==> Ready(img, d)
  {
    Ready(img, d) && d.flash == Render(img)
  }

  lemma VerifyServed(img: Image, d: Dev)
    requires img.Valid() && Installed(img, d)
    ensures Serves(d, VerifyFrame(img), ST_RSP_PAYLOAD + FRAME_OVERHEAD)
    ensures Installed(img, Handle(d, VerifyFrame(img), RSP_CAP).0)
    ensures Handle(d, VerifyFrame(img), RSP_CAP).1 == [ST_OK]
  {
    hide Render, Le32, CrcField, FromLe32, FromCrcField, Crc32.Crc32, GateAccepts, Region, ReadOp, Image.Fits;
    DataBound(img);
    var payload := VerifyFrame(img).payload;
    FooterParts(img);
    assert payload[..4] == Le32(|img.data|) && payload[4..] == CrcField(img.crc);
    Le32RoundTrip(|img.data|);
    CrcFieldRoundTrip(img.crc);
    assert |d.flash| == Region(img);
    assert HandleVerify(d, payload) == ST_OK;
    ReadStaysSteady(d);
  }

  lemma VerifySucceeds(sch: Schedule, w: World, room: nat, img: Image)
    requires Calm(sch, w.sent) && img.Valid() && |img.data| < 0x1_0000_0000
    requires Installed(img, w.dev) && room >= RoomNeeded(img)
    ensures Verify(sch, w, room, img).1.Ok? && Installed(img, Verify(sch, w, room, img).0.dev)
  {
    hide Exchange, Encoded, DecodePadded, Clean, Calm, SettlesDown, Power, Serves, Handle, Installed;
    hide Le32, CrcField, Response, Region;
    var f := VerifyFrame(img);
    CalmNow(sch, w);
    var k := NextClean(sch, w.sent);
    forall d | Installed(img, d)
      ensures Serves(d, f, ST_RSP_PAYLOAD + FRAME_OVERHEAD) && Installed(img, Handle(d, f, RSP_CAP).0)
    {
      VerifyServed(img, d);
    }
    var cap := ST_RSP_PAYLOAD + FRAME_OVERHEAD;
    ExchangeSucceeds((d: Dev) => Installed(img, d), sch, w, f, cap, ATTEMPTS, BadFrame, k);
  }

  /** An update succeeds from any flash contents (a torn or half-written image included), and installs
      the image, if from its first transmission on the schedule is calm, but for a reboot just before it,
      and finds the device listening. */
  lemma CalmUpdateInstalls(sch: Schedule, w: World, room: nat, img: Image)
    requires SettlesDown(sch, w.sent) && img.Valid() && w.dev.Valid() && room >= RoomNeeded(img)
    requires Ready(img, Power(w.dev, sch(w.sent)))
    ensures Flash(sch, w, room, img).1.Ok? && Ready(img, Flash(sch, w, room, img).0.dev)
    ensures Flash(sch, w, room, img).0.dev.flash == Render(img)
  {
    hide Calm, Ready, ReadyErased, WritePages, Verify, Info, Erase, Render, Phase, Region, GateIsExact, Image.Fits;
    hide Power, GetsThrough;
    InfoSucceeds(sch, w, room, img);
    var w0 := Info(sch, w, room).0;
    CalmLater(sch, w.sent + 1, w0.sent);
    EraseSucceeds(sch, w0, room, img);
    var w1 := Prepare(sch, w, room, img).0;
    CalmLater(sch, w0.sent, w1.sent);
    WritesSucceed(sch, w1, room, img, 0);
    WritePhaseGate(sch, w1, room, img, 0);
    var w2 := WritePages(sch, w1, room, img, 0).0;
    CalmLater(sch, w1.sent, w2.sent);
    PhaseGate(img, w2.dev, img.appPages, img.appPages);
    DataBound(img);
    VerifySucceeds(sch, w2, room, img);
    OkMeansInstalled(sch, w, room, img);
  }

  // ---- recovery ----

  /** A reset leaves a device that listens; with the entry window running out behind it, unless the gate
      accepts what is in flash. */
  lemma RebootListens(img: Image, d: Dev, e: Event)
    requires img.Fits() && Matches(img, d) && e.reboot.Some? && e.cut.None?
    ensures var d1 := Power(d, e);
            && Matches(img, d1) && d1.flash == Reset(d).flash
            && (d1.jumped <==> e.reboot.value && GateAccepts(Reset(d).flash))
            && (!d1.jumped ==> Ready(img, d1))
  {
    hide GateAccepts, Reset, Image.Fits;
    ResetIsSteady(d);
    ResetHoldsNothing(d);
  }

  lemma ResetHoldsNothing(d: Dev)
    requires d.Valid()
    ensures ReadOp(Reset(d)) == Reset(d)
  {
  }

  /** One reflash recovers: whatever has happened to a device, torn, dead or in the middle of an update,
      once it has been reset and stays in the bootloader, a calm update succeeds. */
  lemma OneReflashRecovers(sch: Schedule, w: World, room: nat, img: Image)
    requires img.Valid() && Matches(img, w.dev) && room >= RoomNeeded(img) && SettlesDown(sch, w.sent)
    requires var reboot := sch(w.sent).reboot;
             reboot.Some? && (reboot.value ==> !GateAccepts(Reset(w.dev).flash))
    ensures Flash(sch, w, room, img).1.Ok?
    ensures Flash(sch, w, room, img).0.dev.flash == Render(img)
  {
    hide Calm, GetsThrough, Flash, Power, Reset, GateAccepts, Render, Image.Fits;
    RebootListens(img, w.dev, sch(w.sent));
    CalmUpdateInstalls(sch, w, room, img);
  }

  /** An update of which ERASE_APP was acknowledged may then end anywhere, through any faults. Reset the
      device: either it starts, and then exactly the image of that update, or it stays in the bootloader,
      and the next calm update installs its own. */
  lemma TornUpdateRecovers(sch: Schedule, w: World, room: nat, torn: Image, img: Image)
    requires w.dev.Valid() && torn.Valid() && img.Valid() && room >= RoomNeeded(img)
    requires torn.pageSize == img.pageSize && torn.appPages == img.appPages
    requires Prepare(sch, w, room, torn).1.Ok?
    requires var w1 := Flash(sch, w, room, torn).0; SettlesDown(sch, w1.sent) && sch(w1.sent).reboot.Some?
    ensures var w1 := Flash(sch, w, room, torn).0;
            var d := Power(w1.dev, sch(w1.sent));
            if d.jumped then d.flash == Render(torn)
            else var (w2, r) := Flash(sch, w1, room, img); r.Ok? && w2.dev.flash == Render(img)
  {
    hide Calm, GetsThrough, Prepare, Flash, Power, Reset, GateAccepts, Render, Image.Fits;
    var w1 := Flash(sch, w, room, torn).0;
    PreparedUpdate(sch, w, room, torn);
    RebootListens(img, w1.dev, sch(w1.sent));
    if !Power(w1.dev, sch(w1.sent)).jumped {
      OneReflashRecovers(sch, w1, room, img);
    }
  }

  // ---- BOOT ----

  /** A silent device answers nothing any more. */
  lemma {:induction false} SilentExchange(
    sch: Schedule, w: World, tx: seq<byte>, cap: nat, want: byte, tries: nat, last: Error)
    requires w.dev.Valid() && w.dev.Silent()
    requires forall i: nat :: i >= w.sent ==> sch(i).reboot.None? && sch(i).cut.None?
    ensures var (w1, r) := Exchange(sch, w, tx, cap, want, tries, last);
            w1.dev == w.dev && r == Err(if tries == 0 then last else Transport)
    decreases tries
  {
    hide Validate;
    if tries > 0 {
      SilentExchange(sch, Transmit(sch, w, tx, cap).0, tx, cap, want, tries - 1, Transport);
    }
  }

  /** BOOT of a valid image: the first transmission that reaches the device makes it jump, behind its
      reply; the host gets its OK exactly if that reply comes back, and silence from then on. */
  lemma {:induction false} BootExchange(sch: Schedule, w: World, tries: nat, last: Error, k: nat)
    requires Steady(w.dev) && GateAccepts(w.dev.flash) && w.sent <= k < w.sent + tries
    requires forall i: nat :: i >= w.sent ==> sch(i).reboot.None? && sch(i).cut.None?
    requires sch(k).request.Arrives? && forall i :: w.sent <= i < k ==> !sch(i).request.Arrives?
    ensures var (w1, r) := Exchange(sch, w, Encoded(Frame(CMD_BOOT, [])), 4, 0x85, tries, last);
            && w1.dev.jumped && w1.dev.flash == w.dev.flash
            && (r.Ok? <==> sch(k).reply.Returns?)
    decreases tries
  {
    hide Encoded, Judge, Validate, DecodePadded, GateAccepts, ReadOp, Request;
    var f := Frame(CMD_BOOT, []);
    var (w1, received) := Transmit(sch, w, Encoded(f), 4);
    if k == w.sent {
      BootRequest(w.dev);
      ReplyToBoot(sch(k).reply);
      if Judge(received, 0x85).Retry? {
        SilentExchange(sch, w1, Encoded(f), 4, 0x85, tries - 1, Judge(received, 0x85).why);
      }
    } else {
      BootNotSeen(sch, w);
      BootExchange(sch, w1, tries - 1, Judge(received, 0x85).why, k);
    }
  }

  lemma BootNotSeen(sch: Schedule, w: World)
    requires Steady(w.dev) && !sch(w.sent).request.Arrives? && sch(w.sent).reboot.None? && sch(w.sent).cut.None?
    ensures var (w1, received) := Transmit(sch, w, Encoded(Frame(CMD_BOOT, [])), 4);
            w1.dev == w.dev && Judge(received, 0x85).Retry?
  {
    hide Encoded, Request;
    var e := sch(w.sent);
    if e.request.RequestMangled? {
      MangledAnswered(w.dev, e.request.bytes, e, 4, 0x85);
    }
  }

  lemma BootRequest(d: Dev)
    requires Steady(d) && GateAccepts(d.flash)
    ensures var (d1, reply) := Request(d, Encoded(Frame(CMD_BOOT, [])));
            d1.jumped && d1.flash == d.flash && reply == Encoded(Frame(0x85, [ST_OK]))
  {
    hide Encoded, GateAccepts, ReadOp, IsFrame, Parse;
    ParseInvertsEncoded(Frame(CMD_BOOT, []));
    ReadStaysSteady(d);
    ReadStaysSteady(ReadOp(d));
    ReadAgain(d);
  }

  lemma ReadAgain(d: Dev)
    requires Steady(d)
    ensures ReadOp(ReadOp(d)) == ReadOp(d)
    ensures ReadOp(ReadOp(d).(bootPending := true).(bootPending := false)) == ReadOp(d)
  {
    hide Holdback.Flush, Holdback.TornBy, Holdback.View;
  }

  lemma ReplyToBoot(fate: ReplyFate)
    ensures var received := Receive(Encoded(Frame(0x85, [ST_OK])), fate, 4);
            if fate.Returns? then Judge(received, 0x85).Done? else Judge(received, 0x85).Retry?
  {
    hide Encoded, DecodePadded;
    if fate.Returns? {
      ReplyDecodes(Frame(0x85, [ST_OK]), fate.filler, 4);
    }
  }

  /** Update and BOOT over a calm schedule start the image; the host is told so exactly if the reply to the
      first BOOT that reaches the device comes back. */
  lemma CalmUpdateStarts(sch: Schedule, w: World, room: nat, img: Image) returns (k: nat)
    requires SettlesDown(sch, w.sent) && img.Valid() && w.dev.Valid() && room >= RoomNeeded(img)
    requires Ready(img, Power(w.dev, sch(w.sent)))
    ensures var w1 := Flash(sch, w, room, img).0;
            var (w2, r) := Boot(sch, w1, room);
            && w2.dev.jumped && w2.dev.flash == Render(img)
            && w1.sent <= k < w1.sent + 4 && sch(k).request.Arrives?
            && (forall i :: w1.sent <= i < k ==> !sch(i).request.Arrives?)
            && (r.Ok? <==> sch(k).reply.Returns?)
  {
    hide Flash, Encoded, Exchange, DecodePadded, GateAccepts, Render, Power, Clean, GetsThrough, Phase;
    CalmUpdateInstalls(sch, w, room, img);
    OkMeansInstalled(sch, w, room, img);
    Outcomes.OkMeansAllSent(sch, w, room, img);
    var w1 := Flash(sch, w, room, img).0;
    CalmLater(sch, w.sent + 1, w1.sent);
    k := NextClean(sch, w1.sent);
    k := FirstArrival(sch, w1.sent, k);
    BootExchange(sch, w1, 4, BadFrame, k);
  }

  lemma {:induction false} FirstArrival(sch: Schedule, from: nat, k: nat) returns (first: nat)
    requires from <= k && Clean(sch(k))
    ensures from <= first <= k && sch(first).request.Arrives?
    ensures forall i :: from <= i < first ==> !sch(i).request.Arrives?
    decreases k - from
  {
    if sch(from).request.Arrives? {
      first := from;
    } else {
      first := FirstArrival(sch, from + 1, k);
    }
  }

  /** A buffer too small for a WRITE_PAGE never yields a success: `RoomNeeded` is exact. */
  lemma RoomIsNeeded(sch: Schedule, w: World, room: nat, img: Image)
    requires w.dev.Valid() && img.Fits() && room < RoomNeeded(img)
    ensures Flash(sch, w, room, img).1.Err?
  {
    hide Prepare, Verify, Exchange, Encoded;
    var w1 := Prepare(sch, w, room, img).0;
    SomeWriteFails(sch, w1, room, img, 0);
  }

  lemma {:induction false} SomeWriteFails(sch: Schedule, w: World, room: nat, img: Image, cursor: nat)
    requires w.dev.Valid() && img.Fits() && room < RoomNeeded(img) && cursor < img.appPages
    ensures WritePages(sch, w, room, img, cursor).1.Err?
    decreases img.appPages - cursor
  {
    hide Exchange, Encoded, PageOf, MustWrite;
    if cursor + 1 == img.appPages {
      FooterPageWritten(img);
    } else if !MustWrite(img, cursor) {
      SomeWriteFails(sch, w, room, img, cursor + 1);
    }
  }
}
