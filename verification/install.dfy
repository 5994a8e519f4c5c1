/** Whole-run safety of an update, over every schedule of lost and damaged frames, power failures and
    reboots, and from any flash contents. */
module Install {
  import opened Bytes
  import opened Frames
  import opened Geometry
  import opened Images
  import opened Device
  import opened Gate
  import opened Session
  import Durable
  import Holdback

  // ---- what an accepted reply proves ----

  lemma ReplyDecodes(g: Frame, filler: nat, cap: nat)
    requires Encodable(g)
    ensures var r := Receive(Encoded(g), Returns(filler), cap);
            r.Ok? && DecodePadded(r.value) ==
                     if |g.payload| + FRAME_OVERHEAD <= cap then Ok(g) else Err(BadFrame)
  {
    hide Crc8.Crc8, Decode;
    var s := Encoded(g);
    if |s| <= cap {
      var raw := s + Fill(Min(filler, cap - |s|));
      assert raw == s + Fill(|raw| - |s|);
      PaddedAcceptsFiller(raw, g);
    } else if cap >= 2 {
      assert s[..cap][1] == |g.payload|;
    }
  }

  /** The host accepts a reply only if its request reached a live device intact, was carried through
      without power failing, and was answered ST_OK. */
  lemma AcceptedMeansServed(sch: Schedule, w: World, f: Frame, cap: nat)
    requires w.dev.Valid() && Encodable(f)
    requires var r := Transmit(sch, w, Encoded(f), cap).1;
             r.Ok? && Validate(r.value, Response(f.cmd)) == Accepted
    ensures var (w1, r) := Transmit(sch, w, Encoded(f), cap);
            var d := Power(w.dev, sch(w.sent));
            var (d1, payload) := Handle(d, f, RSP_CAP);
            && !d.Silent() && !d1.dead
            && payload[0] == ST_OK
            && w1.dev == AfterReply(d1)
            && DecodePadded(r.value) == Ok(Frame(Response(f.cmd), payload))
  {
    hide Handle, Power, Encoded, DecodePadded, GateAccepts, IsFrame, Parse;
    var e := sch(w.sent);
    var d := Power(w.dev, e);
    ParseInvertsEncoded(f);
    match e.request {
      case Arrives =>
        var (d1, payload) := Handle(d, f, RSP_CAP);
        if !d.Silent() && !d1.dead {
          match e.reply {
            case Returns(filler) => ReplyDecodes(Frame(Response(f.cmd), payload), filler, cap);
            case ReplyLost =>
            case ReplyMangled(octets) =>
          }
        }
      case RequestLost =>
      case RequestMangled(bytes) =>
        if !d.Silent() && !d.dead {
          var cmd := if |bytes| >= 1 then bytes[0] else 0;
          match e.reply {
            case Returns(filler) => ReplyDecodes(Frame(Response(cmd), [ST_BAD_FRAME]), filler, cap);
            case ReplyLost =>
            case ReplyMangled(octets) =>
          }
        }
    }
  }

  /** An exchange that succeeds does so in one attempt, whatever came before it. */
  lemma {:induction false} LastAttempt(sch: Schedule, w: World, f: Frame, cap: nat, tries: nat, last: Error)
    returns (w0: World)
    requires w.dev.Valid() && Encodable(f)
    requires Exchange(sch, w, Encoded(f), cap, Response(f.cmd), tries, last).1.Ok?
    ensures w0.dev.Valid() && w0.dev.info == w.dev.info
    ensures Transmit(sch, w0, Encoded(f), cap) == Exchange(sch, w, Encoded(f), cap, Response(f.cmd), tries, last)
    decreases tries
  {
    hide Transmit, Validate, Judge, Encoded;
    w0 := w;
    var (w1, received) := Transmit(sch, w, Encoded(f), cap);
    if Judge(received, Response(f.cmd)).Retry? {
      w0 := LastAttempt(sch, w1, f, cap, tries - 1, Judge(received, Response(f.cmd)).why);
    }
  }

  // ---- INFO and ERASE_APP ----

  /** An acknowledged INFO reports the device as it is, and whether the gate accepts what is in its flash. */
  lemma InfoIsTrue(sch: Schedule, w: World, room: nat)
    requires w.dev.Valid()
    requires Transact(sch, w, room, Frame(CMD_INFO, []), INFO_RSP_PAYLOAD).1.Ok?
    ensures var (w1, r) := Info(sch, w, room);
            var info := w.dev.info;
            r == Ok(DeviceInfo(PROTO_VERSION, info.blVersion, info.deviceId, info.pageSize, info.appPages,
                               GateAccepts(w1.dev.flash)))
  {
    hide Transmit, Exchange, Validate, Encoded, Power, DecodePadded, GateAccepts, Le16, FromLe16, AfterReply, ReadOp;
    var f := Frame(CMD_INFO, []);
    var cap := INFO_RSP_PAYLOAD + FRAME_OVERHEAD;
    var w0 := LastAttempt(sch, w, f, cap, ATTEMPTS, BadFrame);
    AcceptedMeansServed(sch, w0, f, cap);
    var d := Power(w0.dev, sch(w0.sent));
    ReadShowsSame(d);
    var payload := HandleInfo(d, RSP_CAP);
    var rest := payload[1..];
    assert rest[0] == payload[1] && rest[1] == payload[2] && rest[2..6] == payload[3..7] == d.info.deviceId;
    assert rest[6..8] == payload[7..9] == Le16(d.info.pageSize);
    assert rest[8..10] == payload[9..11] == Le16(d.info.appPages);
    assert rest[10] == payload[11];
    Le16RoundTrip(d.info.pageSize);
    Le16RoundTrip(d.info.appPages);
  }

  /** Reading that power survives shows what there was, also if a jump is tried behind it. */
  lemma ReadShowsSame(d: Dev)
    requires d.Valid() && !ReadOp(d).dead
    ensures ReadOp(d).flash == d.flash && AfterReply(ReadOp(d)).flash == d.flash
  {
    hide GateAccepts, Holdback.Flush, Holdback.TornBy, Holdback.View;
    if d.under.Some? {
      Holdback.FlushIsInvisible(d.under.value, d.info.appPages);
    }
  }

  /** Everything before page `page` is blank. */
  predicate BlankUpTo(d: Dev, page: nat)
    requires d.Valid() && page <= d.info.appPages
  {
    forall i :: 0 <= i < |d.flash| && i < PageAt(d.info.pageSize, d.info.appPages, page) ==> d.flash[i] == BLANK
  }

  lemma FlatEraseAdvances(d: Dev, page: nat)
    requires d.Valid() && d.under.None? && page < d.info.appPages && BlankUpTo(d, page)
    requires !EraseOp(d, page).dead
    ensures BlankUpTo(EraseOp(d, page), page + 1) && |EraseOp(d, page).flash| == |d.flash|
  {
    NextPage(d.info.pageSize, d.info.appPages, page);
    hide PageAt, Area;
  }

  lemma {:induction false} FlatErase(d: Dev, page: nat)
    requires d.Valid() && d.under.None? && page <= d.info.appPages && !EraseFrom(d, page).dead
    requires BlankUpTo(d, page)
    ensures EraseFrom(d, page).flash == Fill(|d.flash|)
    decreases d.info.appPages - page
  {
    hide EraseOp, PageAt, Area;
    if page < d.info.appPages {
      var d1 := EraseOp(d, page);
      if d1.dead {
        DeadStaysDead(d1, page + 1);
      }
      FlatEraseAdvances(d, page);
      FlatErase(d1, page + 1);
    }
  }

  lemma {:induction false} ChipErase(d: Dev, page: nat)
    requires d.Valid() && d.under.Some? && page <= d.info.appPages && !EraseFrom(d, page).dead
    ensures EraseFrom(d, page).under == Some(Holdback.EraseFrom(d.under.value, d.info.appPages, page))
    decreases d.info.appPages - page
  {
    hide Holdback.Erase, Holdback.TornErase, Holdback.View;
    if page < d.info.appPages {
      var d1 := EraseOp(d, page);
      if d1.dead {
        DeadStaysDead(d1, page + 1);
      }
      ChipErase(d1, page + 1);
    }
  }

  /** An erase that power does not interrupt leaves every octet blank, and nothing held back. */
  lemma EraseCompletes(d: Dev)
    requires d.Valid() && !EraseFrom(d, 0).dead
    ensures EraseFrom(d, 0).flash == Fill(|d.flash|)
    ensures d.under.Some? ==> EraseFrom(d, 0).under == Some(Holdback.Chip(Fill(|d.flash|), None))
    ensures EraseFrom(d, 0).bootPending == d.bootPending && EraseFrom(d, 0).jumped == d.jumped
  {
    hide EraseFrom;
    EraseLeavesSession(d, 0);
    if d.under.None? {
      FlatErase(d, 0);
    } else {
      ChipEraseCompletes(d);
    }
  }

  lemma ChipEraseCompletes(d: Dev)
    requires d.Valid() && d.under.Some? && !EraseFrom(d, 0).dead
    ensures EraseFrom(d, 0).flash == Fill(|d.flash|)
    ensures EraseFrom(d, 0).under == Some(Holdback.Chip(Fill(|d.flash|), None))
  {
    hide EraseFrom, Holdback.EraseFrom, Holdback.View;
    ChipErase(d, 0);
    ChipEndsBlank(d.under.value, d.info.appPages);
  }

  lemma ChipEndsBlank(c: Holdback.Chip, appPages: nat)
    requires c.Valid(appPages)
    ensures Holdback.EraseFrom(c, appPages, 0) == Holdback.Chip(Fill(Holdback.PAGE * appPages), None)
    ensures Holdback.View(Holdback.EraseFrom(c, appPages, 0), appPages) == Fill(Holdback.PAGE * appPages)
  {
    hide Holdback.View, Holdback.EraseFrom;
    Holdback.EraseCovers(c, appPages, 0);
    Holdback.ViewOfUnheld(Holdback.EraseFrom(c, appPages, 0), appPages);
  }

  lemma {:induction false} DeadStaysDead(d: Dev, page: nat)
    requires d.Valid() && page <= d.info.appPages && d.dead
    ensures EraseFrom(d, page) == d
    decreases d.info.appPages - page
  {
    if page < d.info.appPages {
      DeadStaysDead(d, page + 1);
    }
  }

  ghost predicate Matches(img: Image, d: Dev)
    requires img.Fits()
    ensures Matches(img, d) ==> d.Valid()
    ensures Matches(img, d) && d.under.Some? ==> img.pageSize == Holdback.PAGE && d.under.value.Valid(img.appPages)
  {
    d.Valid() && d.info.pageSize == img.pageSize && d.info.appPages == img.appPages
  }

  // ---- the write phase ----

  predicate Unheld(d: Dev) {
    d.under.Some? ==> d.under.value.hold.None?
  }

  /** A chip between two pages of the update: it has settled behind page `n`, and the pages from there
      to page `index` are blank. */
  ghost predicate SettledFrom(img: Image, c: Holdback.Chip, n: nat, index: nat)
    requires img.Fits() && img.pageSize == Holdback.PAGE
  {
    n <= index && Durable.Settled(img, c, n) && forall j :: n <= j < index ==> !MustWrite(img, j)
  }

  /** Flash reads as the image up to page `index`, which comes next. */
  ghost predicate At(img: Image, d: Dev, index: nat)
    requires img.Fits() && index <= img.appPages && Matches(img, d)
  {
    && d.flash == Upto(img, Start(img, index))
    && (d.under.Some? ==> exists n: nat :: SettledFrom(img, d.under.value, n, index))
  }

  /** Between ERASE_APP and the end of the update, while the pages from `i` to `j` are being written:
      what flash reads as, and what a reboot would find in it, are prefixes of the image; a live
      session that may write is at one of the two ends; a device that has jumped has the whole image;
      and once all pages are written it stays. */
  ghost predicate Phase(img: Image, d: Dev, i: nat, j: nat)
    requires img.Fits() && i <= j <= img.appPages
    ensures Phase(img, d, i, j) ==> Matches(img, d)
  {
    && Matches(img, d)
    && !d.bootPending
    && Durable.IsUpto(img, d.flash)
    && (d.under.Some? ==> Durable.IsUpto(img, d.under.value.nor))
    && (if d.erased && !d.dead then At(img, d, i) || At(img, d, j) else Unheld(d))
    && (d.jumped ==> d.flash == Render(img))
    && (i == img.appPages ==> d.flash == Render(img) && Unheld(d))
  }

  lemma EraseStartsPhase(sch: Schedule, w: World, room: nat, img: Image)
    requires img.Fits() && Matches(img, w.dev)
    requires Erase(sch, w, room).1.Ok?
    ensures Phase(img, Erase(sch, w, room).0.dev, 0, 0)
    ensures !Erase(sch, w, room).0.dev.dead && Erase(sch, w, room).0.dev.erased
  {
    hide Transmit, Exchange, Validate, Encoded, Power, DecodePadded, Render, EraseFrom, Phase, AfterReply;
    var f := Frame(CMD_ERASE_APP, ERASE_MAGIC);
    var cap := ST_RSP_PAYLOAD + FRAME_OVERHEAD;
    var w0 := LastAttempt(sch, w, f, cap, ATTEMPTS, BadFrame);
    AcceptedMeansServed(sch, w0, f, cap);
    var d := Power(w0.dev, sch(w0.sent));
    EraseCompletes(d);
    PowerKeepsGeometry(img, w0.dev, sch(w0.sent));
    BlankStartsPhase(img, EraseFrom(d, 0).(erased := true));
  }

  lemma PowerKeepsGeometry(img: Image, d: Dev, e: Event)
    requires img.Fits() && Matches(img, d)
    ensures Matches(img, Power(d, e)) && |Power(d, e).flash| == Region(img)
    ensures Matches(img, EraseFrom(Power(d, e), 0).(erased := true))
  {
    hide EraseFrom, GateAccepts;
  }

  lemma BlankStartsPhase(img: Image, d: Dev)
    requires img.Fits() && Matches(img, d) && d.erased && !d.jumped && !d.dead && d.flash == Fill(Region(img))
    requires d.under.Some? ==> d.under == Some(Holdback.Chip(Fill(Region(img)), None))
    ensures Phase(img, AfterReply(d), 0, 0) && AfterReply(d).erased && !AfterReply(d).dead
  {
    hide Render, Upto, Region, GateAccepts;
    BlankRefused(Region(img));
    UptoEnds(img);
    assert Start(img, 0) == 0;
    Durable.PrefixIsUpto(img, 0);
    if d.under.Some? {
      assert SettledFrom(img, d.under.value, 0, 0);
    }
  }

  lemma BlankRefused(n: nat)
    ensures !GateAccepts(Fill(n))
  {
    if n >= FOOTER_LEN {
      var base := n - FOOTER_LEN;
      assert Fill(n)[base..base + 4][0] == BLANK;
    }
  }

  lemma GateOnPrefix(img: Image, s: seq<byte>)
    requires img.Valid() && Durable.IsUpto(img, s)
    ensures GateAccepts(s) <==> s == Render(img)
  {
    hide Render, Region, GateAccepts, Upto;
    var limit :| 0 <= limit <= Region(img) && s == Upto(img, limit);
    GateIffInstalled(img, limit);
  }

  /** A reboot finds a prefix of the image, although pages that have been acknowledged may be gone. */
  lemma ResetKeepsPhase(img: Image, d: Dev, i: nat, j: nat)
    requires img.Valid() && i <= j <= img.appPages && Phase(img, d, i, j)
    ensures Phase(img, Reset(d), i, j) && Phase(img, BootIfValid(Reset(d)), i, j)
  {
    hide Render, GateAccepts, Durable.IsUpto, At;
    GateOnPrefix(img, Reset(d).flash);
  }

  lemma ArmCutKeepsPhase(img: Image, d: Dev, cut: Cut, i: nat, j: nat)
    requires img.Fits() && i <= j <= img.appPages && Phase(img, d, i, j)
    ensures Phase(img, ArmCut(d, cut.flashOps, cut.tear), i, j)
  {
    hide Render, Upto, Durable.IsUpto, SettledFrom, Image.Fits;
  }

  lemma PowerKeepsPhase(img: Image, d: Dev, e: Event, i: nat, j: nat)
    requires img.Valid() && i <= j <= img.appPages && Phase(img, d, i, j)
    ensures Phase(img, Power(d, e), i, j)
  {
    hide Phase, Reset, BootIfValid, ArmCut, Image.Fits;
    var d1 := d;
    if e.reboot.Some? {
      ResetKeepsPhase(img, d, i, j);
      d1 := if e.reboot.value then BootIfValid(Reset(d)) else Reset(d);
    }
    if e.cut.Some? {
      ArmCutKeepsPhase(img, d1, e.cut.value, i, j);
    }
  }

  /** What the flash operation of a WRITE_PAGE does on a flat port, the first time and again. */
  lemma FlatWrite(img: Image, d: Dev, index: nat)
    requires img.Fits() && index < img.appPages && Matches(img, d) && d.under.None? && !d.dead
    requires d.flash == Upto(img, Start(img, index)) || d.flash == Upto(img, Start(img, index + 1))
    ensures FlashOp(d, index, PageOf(img, index)) ==
            d.(ops := d.ops + 1, dead := Tears(d),
               flash := if !Tears(d) then Upto(img, Start(img, index + 1))
                        else if d.flash == Upto(img, Start(img, index + 1)) then d.flash
                        else Upto(img, Start(img, index) + Min(d.tear, img.pageSize)))
  {
    hide Upto, Overlay, Start, PageOf, PageAt, Area, Region, Image.Fits, Dev.Valid;
    var page, count := PageOf(img, index), Min(d.tear, img.pageSize);
    PageStarts(img, d, index);
    WritePrefix(img, index, img.pageSize);
    RewritePrefix(img, index, img.pageSize);
    WritePrefix(img, index, count);
    RewritePrefix(img, index, count);
    assert page[..img.pageSize] == page;
  }

  lemma PageStarts(img: Image, d: Dev, index: nat)
    requires img.Fits() && index < img.appPages && Matches(img, d)
    ensures Start(img, index) == PageAt(d.info.pageSize, d.info.appPages, index)
    ensures Start(img, index + 1) == Start(img, index) + img.pageSize && |d.flash| == Region(img)
  {
    NextStart(img, index);
  }

  /** The flash operation of a WRITE_PAGE of the page under way, on a flat port. */
  lemma FlatWriteKeepsPhase(img: Image, d: Dev, index: nat)
    requires img.Fits() && index < img.appPages && d.erased && !d.Silent() && d.under.None?
    requires Phase(img, d, index, index + 1)
    ensures var d1 := FlashOp(d, index, PageOf(img, index));
            && Phase(img, d1, index, index + 1)
            && (!d1.dead ==> d1.erased && At(img, d1, index + 1))
  {
    hide Render, Region, Upto, Start, PageOf, FlashOp, Durable.IsUpto, Image.Fits;
    FlatWrite(img, d, index);
    UptoIsUpto(img, Start(img, index) + Min(d.tear, img.pageSize));
    Durable.PrefixIsUpto(img, index + 1);
    WholeIsWhole(img, index + 1);
  }

  lemma UptoIsUpto(img: Image, limit: nat)
    requires img.Fits() && limit <= Region(img)
    ensures Durable.IsUpto(img, Upto(img, limit))
  {
    hide Upto, Region;
  }

  lemma WholeIsWhole(img: Image, index: nat)
    requires img.Fits() && index <= img.appPages
    ensures index == img.appPages ==> Upto(img, Start(img, index)) == Render(img)
  {
    hide Upto, Render, Region;
    UptoEnds(img);
  }

  /** The same for the chip of a port that holds pages back: held, programmed with its partner, or torn. */
  lemma ChipWrite(img: Image, c: Holdback.Chip, index: nat, n: nat, count: nat)
    requires img.Fits() && img.pageSize == Holdback.PAGE && index < img.appPages && Durable.Settled(img, c, n)
    requires SettledFrom(img, c, n, index) || SettledFrom(img, c, n, index + 1)
    ensures Durable.Settled(img, Holdback.Write(c, img.appPages, index, PageOf(img, index)), index + 1)
    ensures var programs := Holdback.WritePrograms(c, index, PageOf(img, index));
            && Holdback.InFlash(|c.nor|, programs)
            && Durable.IsUpto(img, Holdback.TornBy(c.nor, programs, count))
  {
    hide Upto, Start, PageOf, Holdback.Write, Holdback.TornBy, Holdback.View, Durable.Settled, MustWrite, Image.Fits;
    hide Durable.IsUpto, Holdback.InFlash;
    var programs := Holdback.WritePrograms(c, index, PageOf(img, index));
    Holdback.ProgramsPerformed(c, img.appPages, index, PageOf(img, index));
    Durable.PageKeeps(img, c, n, index, Holdback.TornBy(c.nor, programs, count));
    Durable.TornLeaves(c.nor, programs, count);
  }

  lemma ChipWriteKeepsPhase(img: Image, d: Dev, index: nat)
    requires img.Fits() && index < img.appPages && d.erased && !d.Silent() && d.under.Some?
    requires Phase(img, d, index, index + 1)
    ensures var d1 := FlashOp(d, index, PageOf(img, index));
            && Phase(img, d1, index, index + 1)
            && (!d1.dead ==> d1.erased && At(img, d1, index + 1))
  {
    hide Render, Upto, Start, PageOf, Holdback.Write, Holdback.TornBy, Holdback.View, Durable.Settled, MustWrite;
    hide Durable.IsUpto, Image.Fits, Holdback.WritePrograms, Holdback.InFlash;
    var c := d.under.value;
    var n: nat;
    if At(img, d, index) {
      n :| SettledFrom(img, c, n, index);
    } else {
      n :| SettledFrom(img, c, n, index + 1);
    }
    ChipWrite(img, c, index, n, d.tear);
    var c' := Holdback.Write(c, img.appPages, index, PageOf(img, index));
    SettledIsAt(img, c', index + 1);
    assert SettledFrom(img, c', index + 1, index + 1);
  }

  /** What a settled chip shows, and what a reboot finds in it. */
  lemma SettledIsAt(img: Image, c: Holdback.Chip, index: nat)
    requires img.Fits() && img.pageSize == Holdback.PAGE && Durable.Settled(img, c, index)
    ensures Holdback.View(c, img.appPages) == Upto(img, Start(img, index))
    ensures Durable.IsUpto(img, c.nor) && Durable.IsUpto(img, Upto(img, Start(img, index)))
  {
    hide Upto, Start;
    Durable.FlushKeeps(img, c, index, c.nor);
    Durable.PrefixIsUpto(img, index);
  }

  lemma WriteFrameServed(img: Image, d: Dev, index: nat)
    requires img.Fits() && index < img.appPages && Matches(img, d)
    ensures Handle(d, WriteFrame(img, index), RSP_CAP)
         == if d.erased then (FlashOp(d, index, PageOf(img, index)), [ST_OK]) else (d, [ST_NOT_ERASED])
  {
    hide PageOf, FlashOp, Le16, FromLe16;
    var f := WriteFrame(img, index);
    assert f.payload[..2] == Le16(index) && f.payload[2..] == PageOf(img, index);
    Le16RoundTrip(index);
  }

  lemma WriteKeepsPhase(img: Image, d: Dev, index: nat)
    requires img.Fits() && index < img.appPages && !d.Silent()
    requires Phase(img, d, index, index + 1)
    ensures var (d1, payload) := Handle(d, WriteFrame(img, index), RSP_CAP);
            && Phase(img, d1, index, index + 1)
            && (payload[0] == ST_OK && !d1.dead ==> Phase(img, d1, index + 1, index + 1))
  {
    hide Handle, FlashOp, PageOf, Start, WriteFrame, At;
    WriteFrameServed(img, d, index);
    if d.erased {
      if d.under.None? {
        FlatWriteKeepsPhase(img, d, index);
      } else {
        ChipWriteKeepsPhase(img, d, index);
      }
      var d1 := FlashOp(d, index, PageOf(img, index));
      if !d1.dead {
        AtStartsPhase(img, d1, index);
      }
    }
  }

  lemma AtStartsPhase(img: Image, d: Dev, index: nat)
    requires img.Fits() && index < img.appPages && Phase(img, d, index, index + 1)
    requires d.erased && !d.dead && At(img, d, index + 1)
    ensures Phase(img, d, index + 1, index + 1)
  {
    hide Render, Upto, Durable.IsUpto;
    WholeIsWhole(img, index + 1);
    if index + 1 == img.appPages && d.under.Some? {
      FooterPageWritten(img);
      var n: nat :| SettledFrom(img, d.under.value, n, index + 1);
      assert n <= index ==> !MustWrite(img, index);
      Durable.FooterIsDurable(img, d.under.value);
    }
  }

  /** What one attempt at a request can do to the device. */
  lemma TransmitOutcomes(sch: Schedule, w: World, f: Frame, cap: nat)
    requires w.dev.Valid() && Encodable(f)
    ensures var d := Power(w.dev, sch(w.sent));
            var d1, d2 := Handle(d, f, RSP_CAP).0, Transmit(sch, w, Encoded(f), cap).0.dev;
            d2 == d || d2 == AfterReply(d) || (!d.Silent() && (d2 == d1 || d2 == AfterReply(d1)))
  {
    hide Handle, Power, Encoded, IsFrame, Parse, Receive, AfterReply;
    ParseInvertsEncoded(f);
  }

  /** One attempt at it, through whatever the schedule does. */
  lemma TransmitKeepsPhase(sch: Schedule, w: World, img: Image, index: nat, cap: nat)
    requires img.Valid() && index < img.appPages
    requires w.dev.Valid() && Phase(img, w.dev, index, index + 1)
    ensures var f := WriteFrame(img, index);
            var (w1, r) := Transmit(sch, w, Encoded(f), cap);
            && Phase(img, w1.dev, index, index + 1)
            && (r.Ok? && Validate(r.value, Response(f.cmd)) == Accepted ==> Phase(img, w1.dev, index + 1, index + 1))
  {
    hide Phase, Handle, Power, Encoded, DecodePadded, Validate, WriteFrame, Transmit, AfterReply;
    var f := WriteFrame(img, index);
    var d := Power(w.dev, sch(w.sent));
    PowerKeepsPhase(img, w.dev, sch(w.sent), index, index + 1);
    PhaseIsCalm(img, d, index, index + 1);
    if !d.Silent() {
      WriteKeepsPhase(img, d, index);
      PhaseIsCalm(img, Handle(d, f, RSP_CAP).0, index, index + 1);
    }
    TransmitOutcomes(sch, w, f, cap);
    var r := Transmit(sch, w, Encoded(f), cap).1;
    if r.Ok? && Validate(r.value, Response(f.cmd)) == Accepted {
      AcceptedMeansServed(sch, w, f, cap);
    }
  }

  /** Nothing is pending in the write phase, so a reply is followed by no jump. */
  lemma PhaseIsCalm(img: Image, d: Dev, i: nat, j: nat)
    requires img.Fits() && i <= j <= img.appPages && Phase(img, d, i, j)
    ensures Matches(img, d) && AfterReply(d) == d
  {
  }

  /** All its attempts: in the phase throughout, past the page when one is accepted. */
  lemma {:induction false} ExchangeKeepsPhase(
    sch: Schedule, w: World, img: Image, index: nat, cap: nat, tries: nat, last: Error)
    requires img.Valid() && index < img.appPages
    requires w.dev.Valid() && Phase(img, w.dev, index, index + 1)
    ensures var f := WriteFrame(img, index);
            var (w1, r) := Exchange(sch, w, Encoded(f), cap, Response(f.cmd), tries, last);
            && Phase(img, w1.dev, index, index + 1)
            && (r.Ok? ==> Phase(img, w1.dev, index + 1, index + 1))
    decreases tries
  {
    hide Phase, Transmit, Encoded, Validate, Judge, WriteFrame, DecodePadded, Response;
    if tries > 0 {
      var f := WriteFrame(img, index);
      var (w1, received) := Transmit(sch, w, Encoded(f), cap);
      TransmitKeepsPhase(sch, w, img, index, cap);
      if Judge(received, Response(f.cmd)).Retry? {
        ExchangeKeepsPhase(sch, w1, img, index, cap, tries - 1, Judge(received, Response(f.cmd)).why);
      }
    }
  }

  /** What the write phase guarantees wherever it ends: the gate tells exactly whether the image is
      installed, now and after a reboot, and only an installed image has been jumped to. */
  ghost predicate GateIsExact(img: Image, d: Dev)
    requires img.Fits()
  {
    && Matches(img, d)
    && (GateAccepts(d.flash) <==> d.flash == Render(img))
    && (GateAccepts(Reset(d).flash) <==> Reset(d).flash == Render(img))
    && (d.jumped ==> d.flash == Render(img))
  }

  lemma PhaseGate(img: Image, d: Dev, i: nat, j: nat)
    requires img.Valid() && i <= j <= img.appPages && Phase(img, d, i, j)
    ensures GateIsExact(img, d)
    ensures i == img.appPages ==> d.flash == Render(img) && Reset(d).flash == Render(img)
  {
    hide Render, GateAccepts, At, Durable.IsUpto;
    GateOnPrefix(img, d.flash);
    GateOnPrefix(img, Reset(d).flash);
  }

  lemma SkipKeepsPhase(img: Image, d: Dev, index: nat)
    requires img.Fits() && index < img.appPages && !MustWrite(img, index)
    requires Phase(img, d, index, index)
    ensures Phase(img, d, index + 1, index + 1)
  {
    hide Render, Start, Upto, MustWrite, Durable.IsUpto, Durable.Settled;
    SkipBlank(img, index);
    assert index + 1 < img.appPages by { FooterPageWritten(img); }
    if d.erased && !d.dead && d.under.Some? {
      var n: nat :| SettledFrom(img, d.under.value, n, index);
      assert SettledFrom(img, d.under.value, n, index + 1);
    }
  }

  lemma WidenPhase(img: Image, d: Dev, index: nat)
    requires img.Fits() && index < img.appPages && Phase(img, d, index, index)
    ensures Phase(img, d, index, index + 1)
  {
    hide At, Render, Durable.IsUpto;
  }

  lemma WritePageKeepsPhase(sch: Schedule, w: World, room: nat, img: Image, index: nat)
    requires img.Valid() && index < img.appPages
    requires w.dev.Valid() && Phase(img, w.dev, index, index)
    ensures var (w1, r) := WritePage(sch, w, room, img, index);
            GateIsExact(img, w1.dev) && (r.Ok? ==> Phase(img, w1.dev, index + 1, index + 1))
  {
    hide Phase, GateIsExact, Exchange, Encoded, DecodePadded, PageOf;
    WidenPhase(img, w.dev, index);
    ExchangeKeepsPhase(sch, w, img, index, ST_RSP_PAYLOAD + FRAME_OVERHEAD, ATTEMPTS, BadFrame);
    PhaseGate(img, WritePage(sch, w, room, img, index).0.dev, index, index + 1);
  }

  /** The boot gate is exact at every cut in the write phase: after any number of WRITE_PAGEs in the
      host's order, any prefix of the next one, and any wire faults, reboots and autoboots between. */
  lemma {:induction false} WritePhaseGate(sch: Schedule, w: World, room: nat, img: Image, cursor: nat)
    requires img.Valid() && cursor <= img.appPages
    requires w.dev.Valid() && Phase(img, w.dev, cursor, cursor)
    ensures GateIsExact(img, WritePages(sch, w, room, img, cursor).0.dev)
    ensures WritePages(sch, w, room, img, cursor).1.Ok? ==>
              Phase(img, WritePages(sch, w, room, img, cursor).0.dev, img.appPages, img.appPages)
    decreases img.appPages - cursor
  {
    hide Phase, GateIsExact, MustWrite, WritePage;
    PhaseGate(img, w.dev, cursor, cursor);
    if cursor < img.appPages {
      if !MustWrite(img, cursor) {
        SkipKeepsPhase(img, w.dev, cursor);
        WritePhaseGate(sch, w, room, img, cursor + 1);
      } else {
        WritePageKeepsPhase(sch, w, room, img, cursor);
        var (w1, r) := WritePage(sch, w, room, img, cursor);
        if r.Ok? {
          WritePhaseGate(sch, w1, room, img, cursor + 1);
        }
      }
    }
  }

  // ---- a reboot ends the write phase ----

  lemma PowerNeverErases(d: Dev, e: Event)
    requires d.Valid() && (!d.erased || e.reboot.Some?)
    ensures !Power(d, e).erased
  {
    hide GateAccepts;
  }

  /** Without the erased latch no WRITE_PAGE succeeds, however often it is sent. */
  lemma {:induction false} UnerasedRefused(
    sch: Schedule, w: World, img: Image, index: nat, cap: nat, tries: nat, last: Error)
    requires img.Fits() && index < img.appPages && Matches(img, w.dev)
    requires !w.dev.erased || sch(w.sent).reboot.Some?
    ensures var f := WriteFrame(img, index);
            Exchange(sch, w, Encoded(f), cap, Response(f.cmd), tries, last).1.Err?
    decreases tries
  {
    hide Handle, Power, Encoded, DecodePadded, Validate, WriteFrame, Transmit, Judge, Response;
    if tries > 0 {
      var f := WriteFrame(img, index);
      var (w1, r) := Transmit(sch, w, Encoded(f), cap);
      PowerNeverErases(w.dev, sch(w.sent));
      WriteFrameServed(img, Power(w.dev, sch(w.sent)), index);
      TransmitOutcomes(sch, w, f, cap);
      if r.Ok? && Validate(r.value, Response(f.cmd)) == Accepted {
        AcceptedMeansServed(sch, w, f, cap);
      } else if Judge(r, Response(f.cmd)).Retry? {
        UnerasedRefused(sch, w1, img, index, cap, tries - 1, Judge(r, Response(f.cmd)).why);
      }
    }
  }

  /** A page write that starts after a reboot fails, and the update with it. */
  lemma RebootEndsUpdate(sch: Schedule, w: World, room: nat, img: Image, cursor: nat)
    requires img.Fits() && cursor < img.appPages && Matches(img, w.dev)
    requires !w.dev.erased || sch(w.sent).reboot.Some?
    ensures MustWrite(img, cursor) ==> WritePage(sch, w, room, img, cursor).1.Err?
    ensures WritePages(sch, w, room, img, cursor).1.Err?
    decreases img.appPages - cursor
  {
    hide Exchange, Encoded, DecodePadded, MustWrite, WriteFrame;
    if MustWrite(img, cursor) {
      UnerasedRefused(sch, w, img, cursor, ST_RSP_PAYLOAD + FRAME_OVERHEAD, ATTEMPTS, BadFrame);
    } else if cursor + 1 == img.appPages {
      FooterPageWritten(img);
    } else {
      RebootEndsUpdate(sch, w, room, img, cursor + 1);
    }
  }

  // ---- VERIFY ----

  lemma VerifyReadsOnly(d: Dev, f: Frame, cap: nat)
    requires d.Valid() && f.cmd == CMD_VERIFY && Unheld(d)
    ensures Handle(d, f, cap).0 == d
  {
    hide VerifyReads, HandleVerify;
  }

  lemma InstalledIsUnheld(img: Image, d: Dev)
    requires img.Fits() && Phase(img, d, img.appPages, img.appPages)
    ensures Unheld(d)
  {
  }

  lemma TransmitKeepsInstalled(sch: Schedule, w: World, img: Image, cap: nat)
    requires img.Valid() && w.dev.Valid() && Phase(img, w.dev, img.appPages, img.appPages)
    ensures Phase(img, Transmit(sch, w, Encoded(VerifyFrame(img)), cap).0.dev, img.appPages, img.appPages)
  {
    hide Power, Encoded, Phase, Handle, Transmit, AfterReply, VerifyFrame, Unheld, Matches, Image.Fits;
    DataBound(img);
    var r, d := img.appPages, Power(w.dev, sch(w.sent));
    PowerKeepsPhase(img, w.dev, sch(w.sent), r, r);
    PhaseIsCalm(img, d, r, r);
    TransmitOutcomes(sch, w, VerifyFrame(img), cap);
    InstalledIsUnheld(img, d);
    VerifyReadsOnly(d, VerifyFrame(img), RSP_CAP);
  }

  lemma {:induction false} VerifyKeepsInstalled(sch: Schedule, w: World, img: Image, cap: nat, tries: nat, last: Error)
    requires img.Valid() && w.dev.Valid() && Phase(img, w.dev, img.appPages, img.appPages)
    ensures var f := VerifyFrame(img);
            var w1 := Exchange(sch, w, Encoded(f), cap, Response(f.cmd), tries, last).0;
            Phase(img, w1.dev, img.appPages, img.appPages)
    decreases tries
  {
    hide Phase, Transmit, Encoded, Validate, Judge, VerifyFrame, Region, DecodePadded, Response, Image.Fits;
    DataBound(img);
    if tries > 0 {
      var f := VerifyFrame(img);
      var (w1, received) := Transmit(sch, w, Encoded(f), cap);
      TransmitKeepsInstalled(sch, w, img, cap);
      if Judge(received, Response(f.cmd)).Retry? {
        VerifyKeepsInstalled(sch, w1, img, cap, tries - 1, Judge(received, Response(f.cmd)).why);
      }
    }
  }

  // ---- the whole update ----

  /** Once ERASE_APP has been acknowledged, the gate is exact wherever the update ends. */
  lemma PreparedUpdate(sch: Schedule, w: World, room: nat, img: Image)
    requires w.dev.Valid() && img.Valid()
    requires Prepare(sch, w, room, img).1.Ok?
    ensures GateIsExact(img, Flash(sch, w, room, img).0.dev)
  {
    hide Phase, GateIsExact, Region, Exchange, Encoded, DecodePadded, WritePages, Start, Render;
    InfoIsTrue(sch, w, room);
    EraseStartsPhase(sch, Info(sch, w, room).0, room, img);
    var w1 := Prepare(sch, w, room, img).0;
    WritePhaseGate(sch, w1, room, img, 0);
    var (w2, written) := WritePages(sch, w1, room, img, 0);
    if written.Ok? {
      VerifyKeepsInstalled(sch, w2, img, ST_RSP_PAYLOAD + FRAME_OVERHEAD, ATTEMPTS, BadFrame);
      PhaseGate(img, w2.dev, img.appPages, img.appPages);
      PhaseGate(img, Flash(sch, w, room, img).0.dev, img.appPages, img.appPages);
    }
  }

  lemma SuccessIsInstalled(sch: Schedule, w: World, room: nat, img: Image)
    requires w.dev.Valid() && img.Valid()
    requires Flash(sch, w, room, img).1.Ok?
    ensures Phase(img, Flash(sch, w, room, img).0.dev, img.appPages, img.appPages)
  {
    hide Phase, GateIsExact, Region, Exchange, Encoded, DecodePadded, WritePages, Start, Render;
    InfoIsTrue(sch, w, room);
    EraseStartsPhase(sch, Info(sch, w, room).0, room, img);
    var w1 := Prepare(sch, w, room, img).0;
    WritePhaseGate(sch, w1, room, img, 0);
    var w2 := WritePages(sch, w1, room, img, 0).0;
    VerifyKeepsInstalled(sch, w2, img, ST_RSP_PAYLOAD + FRAME_OVERHEAD, ATTEMPTS, BadFrame);
  }

  /** Ok means installed: for every fault schedule, every starting device on either kind of port, and
      every buffer, a success leaves exactly the rendered image in flash, also after a reboot, and the
      boot gate accepts it. */
  lemma OkMeansInstalled(sch: Schedule, w: World, room: nat, img: Image)
    requires w.dev.Valid() && img.Valid()
    requires Flash(sch, w, room, img).1.Ok?
    ensures var d := Flash(sch, w, room, img).0.dev;
            d.flash == Reset(d).flash == Render(img) && GateAccepts(d.flash)
  {
    hide Phase, GateAccepts, Render, Region, Flash;
    SuccessIsInstalled(sch, w, room, img);
    PhaseGate(img, Flash(sch, w, room, img).0.dev, img.appPages, img.appPages);
  }

  // ---- BOOT after an update ----

  lemma BootServed(img: Image, d: Dev)
    requires img.Valid() && Phase(img, d, img.appPages, img.appPages) && !d.Silent()
    ensures var d1 := Handle(d, Frame(CMD_BOOT, []), RSP_CAP).0;
            !d1.dead && Phase(img, AfterReply(d1), img.appPages, img.appPages)
  {
    hide GateAccepts, Render, At, Durable.IsUpto;
    PhaseGate(img, d, img.appPages, img.appPages);
    assert ReadOp(d) == d;
    assert AfterReply(Handle(d, Frame(CMD_BOOT, []), RSP_CAP).0) == d.(jumped := true);
    AtIgnoresJump(img, d);
  }

  lemma AtIgnoresJump(img: Image, d: Dev)
    requires img.Fits() && Matches(img, d)
    ensures At(img, d.(jumped := true), img.appPages) <==> At(img, d, img.appPages)
  {
  }

  lemma BootKeepsInstalled(sch: Schedule, w: World, img: Image, cap: nat)
    requires img.Valid() && w.dev.Valid() && Phase(img, w.dev, img.appPages, img.appPages)
    ensures Phase(img, Transmit(sch, w, Encoded(Frame(CMD_BOOT, [])), cap).0.dev, img.appPages, img.appPages)
  {
    hide Power, Encoded, Phase, Region, Handle, AfterReply, Receive, IsFrame, Parse;
    var r, d := img.appPages, Power(w.dev, sch(w.sent));
    PowerKeepsPhase(img, w.dev, sch(w.sent), r, r);
    PhaseIsCalm(img, d, r, r);
    ParseInvertsEncoded(Frame(CMD_BOOT, []));
    if !d.Silent() {
      BootServed(img, d);
    }
  }

  lemma {:induction false} BootTriesKeepInstalled(
    sch: Schedule, w: World, img: Image, cap: nat, tries: nat, last: Error)
    requires img.Valid() && w.dev.Valid() && Phase(img, w.dev, img.appPages, img.appPages)
    ensures var f := Frame(CMD_BOOT, []);
            var w1 := Exchange(sch, w, Encoded(f), cap, Response(f.cmd), tries, last).0;
            Phase(img, w1.dev, img.appPages, img.appPages)
    decreases tries
  {
    hide Phase, Transmit, Encoded, Validate, Judge, Region, DecodePadded, Response;
    if tries > 0 {
      var f := Frame(CMD_BOOT, []);
      var (w1, received) := Transmit(sch, w, Encoded(f), cap);
      BootKeepsInstalled(sch, w, img, cap);
      if Judge(received, Response(f.cmd)).Retry? {
        BootTriesKeepInstalled(sch, w1, img, cap, tries - 1, Judge(received, Response(f.cmd)).why);
      }
    }
  }

  /** An acknowledged BOOT has jumped, through the gate. */
  lemma BootOkMeansJumped(sch: Schedule, w: World, room: nat)
    requires w.dev.Valid() && Boot(sch, w, room).1.Ok?
    ensures var d := Boot(sch, w, room).0.dev;
            d.jumped && GateAccepts(d.flash)
  {
    hide Transmit, Exchange, Validate, Encoded, Power, DecodePadded, GateAccepts;
    var f, cap := Frame(CMD_BOOT, []), ST_RSP_PAYLOAD + FRAME_OVERHEAD;
    var w0 := LastAttempt(sch, w, f, cap, ATTEMPTS, BadFrame);
    AcceptedMeansServed(sch, w0, f, cap);
  }

  /** An update that succeeds, followed by a BOOT that succeeds, has started exactly the image, through
      whatever faults and reboots surround the two. */
  lemma UpdateThenBoot(sch: Schedule, w: World, room: nat, img: Image)
    requires w.dev.Valid() && img.Valid()
    requires Flash(sch, w, room, img).1.Ok? && Boot(sch, Flash(sch, w, room, img).0, room).1.Ok?
    ensures var d := Boot(sch, Flash(sch, w, room, img).0, room).0.dev;
            d.jumped && d.flash == Render(img)
  {
    hide Phase, Exchange, Encoded, DecodePadded, Render, Region, Flash, GateAccepts;
    var w1 := Flash(sch, w, room, img).0;
    SuccessIsInstalled(sch, w, room, img);
    BootTriesKeepInstalled(sch, w1, img, ST_RSP_PAYLOAD + FRAME_OVERHEAD, ATTEMPTS, BadFrame);
    BootOkMeansJumped(sch, w1, room);
    PhaseGate(img, Boot(sch, w1, room).0.dev, img.appPages, img.appPages);
  }

  /** Whatever the faults, an update sends at most four requests per page written and twelve more. */
  lemma BoundedRequests(sch: Schedule, w: World, room: nat, img: Image)
    requires w.dev.Valid() && img.Fits()
    ensures Flash(sch, w, room, img).0.sent <= w.sent + 4 * (|PageList(img, 0)| + 3)
  {
    hide Prepare, WritePages, Verify;
    DataBound(img);
  }
}
