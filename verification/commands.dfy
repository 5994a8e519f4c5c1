/** What the answers of the bootloader core mean, and what only certain requests can do. */
module Commands {
  import opened Bytes
  import opened Frames
  import opened Geometry
  import opened Device
  import Crc8
  import Crc32
  import Holdback
  import Install

  /** Two and four octets of a payload as a number. */
  function Num16(s: seq<byte>): nat
    requires |s| >= 2
  {
    s[0] as nat + 256 * s[1] as nat
  }

  function Num32(s: seq<byte>): nat
    requires |s| >= 4
  {
    s[0] as nat + 256 * s[1] as nat + 65536 * s[2] as nat + 16777216 * s[3] as nat
  }

  lemma NumsAre(s: seq<byte>)
    ensures |s| >= 2 ==> FromLe16(s[..2]) == Num16(s)
    ensures |s| >= 4 ==> FromLe32(s[..4]) == Num32(s)
  {
    if |s| >= 4 {
      assert s[..4][..2] == s[..2] && s[..4][2..] == s[2..4];
    }
  }

  /** A VERIFY whose length lies in the region, and what its CRC is compared with. */
  predicate InRegion(d: Dev, payload: seq<byte>)
    requires |payload| == 8
  {
    |d.flash| >= 16 && Num32(payload) <= |d.flash| - 16
  }

  predicate CrcMatches(d: Dev, payload: seq<byte>)
    requires |payload| == 8 && InRegion(d, payload)
  {
    Crc32.Crc32(d.flash[..Num32(payload)]) == FromCrcField(payload[4..])
  }

  /** The malformed requests. */
  predicate Malformed(d: Dev, f: Frame, cap: nat) {
    || (f.cmd == 0x01 && cap < 12)
    || (f.cmd == 0x03 && d.erased && |f.payload| != d.info.pageSize + 2)
    || (f.cmd == 0x04 && |f.payload| != 8)
    || (f.cmd == 0x06 && (|f.payload| > 16 || |f.payload| + 1 > cap))
  }

  /** What each status tells: it is given exactly then. */
  lemma StatusMeans(d: Dev, f: Frame, cap: nat)
    requires d.Valid() && cap > 0
    ensures var st := Handle(d, f, cap).1[0];
            && st <= 0x07
            && (st == 0x01 <==> Malformed(d, f, cap))
            && (st == 0x02 <==> f.cmd == 0x00 || f.cmd > 0x06)
            && (st == 0x03 <==> f.cmd == 0x03 && !d.erased)
            && (st == 0x04 <==> || (f.cmd == 0x03 && d.erased && |f.payload| == d.info.pageSize + 2
                                    && Num16(f.payload) >= d.info.appPages)
                                || (f.cmd == 0x04 && |f.payload| == 8 && !InRegion(d, f.payload)))
            && (st == 0x05 <==> f.cmd == 0x04 && |f.payload| == 8 && InRegion(d, f.payload)
                                && !CrcMatches(d, f.payload))
            && (st == 0x06 <==> f.cmd == 0x02 && f.payload != [0x45, 0x52, 0x41, 0x53])
            && (st == 0x07 <==> f.cmd == 0x05 && !(GateAccepts(d.flash) && (ReadOp(d).dead ==> d.dead)))
  {
    hide GateAccepts, ReadOp, EraseFrom, FlashOp, Crc32.Crc32, FromCrcField, FromLe16, FromLe32, Num32, Num16;
    NumsAre(f.payload);
  }

  /** A refusal leaves the device as it was, but that BOOT, and VERIFY of any octets, have had to read. */
  lemma RefusalChangesNothing(d: Dev, f: Frame, cap: nat)
    requires d.Valid() && cap > 0 && Handle(d, f, cap).1[0] != 0x00
    ensures var (d1, reply) := Handle(d, f, cap);
            && reply == [reply[0]]
            && d1 == if reply[0] == 0x07 || (reply[0] == 0x05 && Num32(f.payload) > 0) then ReadOp(d) else d
  {
    hide GateAccepts, ReadOp, EraseFrom, FlashOp, Crc32.Crc32, FromCrcField, FromLe16, FromLe32, Num32;
    NumsAre(f.payload);
  }

  /** ERASE_APP without its magic, of any length and content, is refused. */
  lemma EraseNeedsMagic(d: Dev, payload: seq<byte>, cap: nat)
    requires d.Valid() && cap > 0 && payload != [0x45, 0x52, 0x41, 0x53]
    ensures Handle(d, Frame(0x02, payload), cap) == (d, [0x06])
  {
  }

  /** A whole page, in range, on a device that has been erased in this session. */
  predicate WritesPage(d: Dev, f: Frame) {
    && f.cmd == 0x03 && d.erased
    && |f.payload| == d.info.pageSize + 2 && Num16(f.payload) < d.info.appPages
  }

  /** As long as power holds, flash reads otherwise only after an ERASE_APP with its magic or a whole
      WRITE_PAGE in range behind one; and only the first sets the latch. */
  lemma OnlyWritersWrite(d: Dev, f: Frame, cap: nat)
    requires d.Valid()
    ensures var d1 := Handle(d, f, cap).0;
            && (d1.erased && !d.erased ==> f == Frame(0x02, [0x45, 0x52, 0x41, 0x53]))
            && (d1.flash != d.flash && (d1.dead ==> d.dead) ==>
                  f == Frame(0x02, [0x45, 0x52, 0x41, 0x53]) || WritesPage(d, f))
            && (d1.flash != d.flash && d.under.None? ==>
                  f == Frame(0x02, [0x45, 0x52, 0x41, 0x53]) || WritesPage(d, f))
  {
    hide GateAccepts, ReadOp, EraseFrom, FlashOp, Crc32.Crc32, FromCrcField, FromLe16, FromLe32, Num16;
    NumsAre(f.payload);
    ReadShows(d);
    if f.cmd == 0x03 && HandleWrite(d, f.payload).1 == 0x00 {
      WriteLeavesLatch(d, FromLe16(f.payload[..2]), f.payload[2..]);
    }
  }

  lemma ReadShows(d: Dev)
    requires d.Valid()
    ensures (ReadOp(d).dead ==> d.dead) || d.under.None? ==> ReadOp(d).flash == d.flash
  {
    hide Holdback.Flush, Holdback.TornBy, Holdback.View;
    if d.under.Some? {
      Holdback.FlushIsInvisible(d.under.value, d.info.appPages);
    }
  }

  lemma WriteLeavesLatch(d: Dev, page: nat, data: seq<byte>)
    requires d.Valid() && page < d.info.appPages && |data| == d.info.pageSize
    ensures FlashOp(d, page, data).erased == d.erased
  {
    hide Holdback.Write, Holdback.TornBy, Holdback.View, Overlay;
  }

  /** ECHO returns what it is sent, if that fits. */
  lemma EchoReturns(d: Dev, payload: seq<byte>, cap: nat)
    requires d.Valid() && |payload| <= 16 && |payload| < cap
    ensures Handle(d, Frame(0x06, payload), cap) == (d, [0x00] + payload)
  {
  }

  /** The octets of INFO. */
  lemma InfoReturns(d: Dev, payload: seq<byte>, cap: nat)
    requires d.Valid() && cap >= 12
    ensures Handle(d, Frame(0x01, payload), cap).1 ==
            [0x00, 0x01, d.info.blVersion]
            + d.info.deviceId
            + [d.info.pageSize % 256, d.info.pageSize / 256, d.info.appPages % 256, d.info.appPages / 256,
               if GateAccepts(d.flash) then 0x01 else 0x00]
  {
    hide GateAccepts, ReadOp;
  }

  /** A page written to a flat port, with power holding, is there, and everything else is as it was. */
  lemma PageIsWritten(d: Dev, payload: seq<byte>, cap: nat, i: nat)
    requires d.Valid() && d.under.None? && !d.dead && !Tears(d) && cap > 0 && WritesPage(d, Frame(0x03, payload))
    requires i < |d.flash|
    ensures var d1 := Handle(d, Frame(0x03, payload), cap).0;
            var at := PageAt(d.info.pageSize, d.info.appPages, Num16(payload));
            && d1.flash[i] == (if at <= i < at + d.info.pageSize then payload[2 + i - at] else d.flash[i])
            && !d1.dead && d1.erased
  {
    hide GateAccepts, FromLe16, Num16, PageAt;
    NumsAre(payload);
  }

  /** INFO, BOOT and a VERIFY of some octets in the region make a port program the page it holds: flash then
      is what was read. */
  lemma ReadersFlush(d: Dev, f: Frame, cap: nat)
    requires d.Valid() && d.under.Some? && !d.dead
    requires (f.cmd == 0x01 && cap >= 12) || (f.cmd == 0x05 && cap > 0)
             || (f.cmd == 0x04 && cap > 0 && |f.payload| == 8 && InRegion(d, f.payload) && Num32(f.payload) > 0)
    ensures var d1 := Handle(d, f, cap).0;
            d1.dead || (d1.under == Some(Holdback.Chip(d.flash, None)) && d1.flash == d.flash)
  {
    hide GateAccepts, FromLe32, Num32, Crc32.Crc32, Holdback.Flush, Holdback.TornBy, Holdback.View;
    NumsAre(f.payload);
    FlushedIsView(d.under.value, d.info.appPages);
    Holdback.FlushIsInvisible(d.under.value, d.info.appPages);
  }

  lemma FlushedIsView(c: Holdback.Chip, appPages: nat)
    requires c.Valid(appPages)
    ensures Holdback.Flush(c, appPages) == Holdback.Chip(Holdback.View(c, appPages), None)
  {
  }

  // ---- a request that cannot be read, and the reply flag ----

  /** It is answered BAD_FRAME, to the command its first octet seems to be. */
  lemma UnreadableAnswered(d: Dev, bytes: seq<byte>)
    requires d.Valid() && !d.Silent() && !d.bootPending && Parse(bytes).None?
    ensures Request(d, bytes) == (d, Encoded(Frame(Response(if bytes == [] then 0x00 else bytes[0]), [0x01])))
  {
    hide Encoded, Parse;
  }

  /** A reply carries the command with its top bit set. */
  lemma ResponseSetsTopBit(cmd: byte)
    ensures Bv(Response(cmd)) == Bv(cmd) | 0x80
  {
    var c := Bv(cmd);
    TopBit(c);
    NumInjective(Bv(Response(cmd)), c | 0x80);
  }

  lemma TopBit(c: bv8)
    ensures Num(c | 0x80) == if Num(c) < 0x80 then Num(c) + 0x80 else Num(c)
  {
  }

  // ---- power failing in an erase ----

  /** Armed for the n-th flash operation from here, power fails in page `n - 1` of an erase: the pages
      before it are blank, so is the torn prefix of that page, and the rest is as it was. Armed for a
      later one, or disarmed, it does not fail. */
  lemma EraseTornAt(d: Dev, n: nat, tear: nat)
    requires d.Valid() && d.under.None? && !d.dead
    ensures var d1 := EraseFrom(ArmCut(d, n, tear), 0);
            && (d1.dead <==> 1 <= n <= d.info.appPages)
            && (1 <= n <= d.info.appPages ==>
                  var end := PageAt(d.info.pageSize, d.info.appPages, n - 1) + Min(tear, d.info.pageSize);
                  && end <= |d.flash|
                  && d1.flash == Fill(end) + d.flash[end..])
  {
    hide EraseFrom, PageAt;
    if n == 0 {
      EraseUncut(ArmCut(d, n, tear), 0);
    } else {
      EraseTorn(ArmCut(d, n, tear), 0, n);
      PageZero(d.info.pageSize, d.info.appPages);
    }
  }

  lemma {:induction false} EraseUncut(d: Dev, page: nat)
    requires d.Valid() && d.under.None? && !d.dead && page <= d.info.appPages && d.cutAt == 0
    ensures !EraseFrom(d, page).dead
    decreases d.info.appPages - page
  {
    hide EraseOp, Overlay, PageAt;
    if page < d.info.appPages {
      EraseOne(d, page);
      EraseUncut(EraseOp(d, page), page + 1);
    }
  }

  lemma PageZero(pageSize: nat, pages: nat)
    ensures PageAt(pageSize, pages, 0) == 0
  {
  }

  lemma {:induction false} EraseTorn(d: Dev, page: nat, n: nat)
    requires d.Valid() && d.under.None? && !d.dead && page <= d.info.appPages && n > 0 && d.cutAt == d.ops + n
    ensures EraseFrom(d, page).dead <==> page + n <= d.info.appPages
    ensures page + n <= d.info.appPages ==>
              var from := PageAt(d.info.pageSize, d.info.appPages, page);
              var end := PageAt(d.info.pageSize, d.info.appPages, page + n - 1) + Min(d.tear, d.info.pageSize);
              && from <= end <= |d.flash|
              && EraseFrom(d, page).flash == Overlay(d.flash, from, Fill(end - from))
    decreases d.info.appPages - page
  {
    hide Overlay, PageAt, EraseOp, Fill;
    if page < d.info.appPages {
      var d1 := EraseOp(d, page);
      EraseOne(d, page);
      if n == 1 {
        Install.DeadStaysDead(d1, page + 1);
      } else {
        NextPage(d.info.pageSize, d.info.appPages, page);
        EraseTorn(d1, page + 1, n - 1);
        if page + n <= d.info.appPages {
          var ps, from := d.info.pageSize, PageAt(d.info.pageSize, d.info.appPages, page);
          var end := PageAt(ps, d.info.appPages, page + n - 1) + Min(d.tear, ps);
          FillOn(d.flash, from, ps, end - from - ps);
        }
      }
    }
  }

  /** One page of it. */
  lemma EraseOne(d: Dev, page: nat)
    requires d.Valid() && d.under.None? && !d.dead && page < d.info.appPages
    ensures var from, n := PageAt(d.info.pageSize, d.info.appPages, page),
                           if Tears(d) then Min(d.tear, d.info.pageSize) else d.info.pageSize;
            && from + n <= |d.flash|
            && EraseOp(d, page) == d.(ops := d.ops + 1, dead := Tears(d), flash := Overlay(d.flash, from, Fill(n)))
  {
    hide Overlay, PageAt;
    FillPrefix(d.info.pageSize, d.tear);
  }

  lemma FillPrefix(n: nat, tear: nat)
    ensures Fill(n)[..Min(tear, n)] == Fill(Min(tear, n))
  {
  }

  lemma FillOn(s: seq<byte>, from: nat, a: nat, b: nat)
    requires from + a + b <= |s|
    ensures Overlay(Overlay(s, from, Fill(a)), from + a, Fill(b)) == Overlay(s, from, Fill(a + b))
  {
  }

  /** Armed for the next operation of a port that holds page `page`, power fails while it programs that page
      with its partner: exactly a prefix of the two has been programmed. */
  lemma PairTornAt(d: Dev, data: seq<byte>, tear: nat)
    requires d.Valid() && d.under.Some? && !d.dead && d.under.value.hold.Some? && |data| == 128
    ensures var held := d.under.value.hold.value;
            held.page + 1 < d.info.appPages
            && var d1 := FlashOp(ArmCut(d, 1, tear), held.page + 1, data);
               var octets := (held.data + data)[..Min(tear, 256)];
               && d1.dead && 128 * held.page + |octets| <= |d.under.value.nor|
               && d1.flash == Holdback.Programmed(d.under.value.nor, 128 * held.page, octets)
               && d1.under == Some(Holdback.Chip(d1.flash, None))
  {
    hide Holdback.Programmed, Holdback.Write, Holdback.View;
    var c := d.under.value;
    Holdback.PartnerInside(d.info.appPages, c.hold.value.page);
    Holdback.ProgramsPerformed(c, d.info.appPages, c.hold.value.page + 1, data);
    var p := Holdback.Unit(c.hold.value.page, c.hold.value.data, data);
    assert p.octets[..256] == p.octets;
    if tear >= 256 {
      assert Holdback.TornBy(c.nor, [p], tear) == Holdback.TornBy(Holdback.Apply(c.nor, p), [p][1..], tear - 256);
      assert [p][1..] == [];
    }
  }
}
