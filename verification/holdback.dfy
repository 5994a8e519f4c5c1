/** The RP2350 flash port: protocol pages of 128 octets over NOR flash that programs 256 octets at a
    time by clearing bits and erases 32 pages at a time. An even page is held back in RAM until its
    odd partner or any other event. */
module Holdback {
  import opened Bytes

  const PAGE: nat := 128
  const UNIT: nat := 256
  const PAGES_PER_SECTOR: nat := 32

  /** Programming clears bits: over erased flash it writes, over the same octet it does nothing. */
  function And(a: byte, b: byte): (r: byte)
    ensures a == BLANK ==> r == b
    ensures b == BLANK || a == b ==> r == a
  {
    var c, d := Bv(a), Bv(b);
    NumInjective(Bv(BLANK), 0xFF);
    assert a == BLANK ==> c & d == d;
    assert b == BLANK ==> c & d == c;
    assert c & c == c;
    Num(c & d)
  }

  function Programmed(nor: seq<byte>, at: nat, data: seq<byte>): (r: seq<byte>)
    requires at + |data| <= |nor|
    ensures |r| == |nor|
    ensures forall i :: 0 <= i < |nor| ==> r[i] == if at <= i < at + |data| then And(nor[i], data[i - at]) else nor[i]
  {
    seq(|nor|, i requires 0 <= i < |nor| => if at <= i < at + |data| then And(nor[i], data[i - at]) else nor[i])
  }

  // ---- the chip and its port, as values ----

  datatype Held = Held(page: nat, data: seq<byte>)

  datatype Chip = Chip(nor: seq<byte>, hold: Option<Held>) {
    predicate Valid(appPages: nat) {
      && appPages % PAGES_PER_SECTOR == 0
      && |nor| == PAGE * appPages
      && (hold.Some? ==> hold.value.page < appPages && hold.value.page % 2 == 0 && |hold.value.data| == PAGE)
    }
  }

  /** One program operation: `octets` go to flash from `at` on. */
  datatype Program = Program(at: nat, octets: seq<byte>)

  /** Both halves of the unit that starts at page `even`. */
  function Unit(even: nat, lo: seq<byte>, hi: seq<byte>): Program {
    Program(PAGE * even, lo + hi)
  }

  function Apply(nor: seq<byte>, p: Program): (r: seq<byte>)
    requires p.at + |p.octets| <= |nor|
    ensures |r| == |nor|
  {
    Programmed(nor, p.at, p.octets)
  }

  /** The region is a whole number of sectors, so units and sectors lie inside it. */
  lemma PartnerInside(appPages: nat, page: nat)
    requires appPages % PAGES_PER_SECTOR == 0 && page < appPages
    ensures page % 2 == 0 ==> page + 1 < appPages
    ensures page % PAGES_PER_SECTOR == 0 ==> page + PAGES_PER_SECTOR <= appPages
  {
    assert appPages == 2 * (16 * (appPages / 32));
  }

  function Flush(c: Chip, appPages: nat): (r: Chip)
    requires c.Valid(appPages)
    ensures r.Valid(appPages) && r.hold.None?
  {
    if c.hold.None? then c
    else
      PartnerInside(appPages, c.hold.value.page);
      Chip(Apply(c.nor, Unit(c.hold.value.page, c.hold.value.data, Fill(PAGE))), None)
  }

  function Erase(c: Chip, appPages: nat, page: nat): (r: Chip)
    requires c.Valid(appPages) && page < appPages
    ensures r.Valid(appPages)
  {
    PartnerInside(appPages, page);
    Chip(if page % PAGES_PER_SECTOR != 0 then c.nor
         else Overlay(c.nor, PAGE * page, Fill(PAGE * PAGES_PER_SECTOR)), None)
  }

  function Write(c: Chip, appPages: nat, page: nat, data: seq<byte>): (r: Chip)
    requires c.Valid(appPages) && page < appPages && |data| == PAGE
    ensures r.Valid(appPages)
  {
    PartnerInside(appPages, page);
    if c.hold.Some? && page == c.hold.value.page then Chip(c.nor, Some(Held(page, data)))
    else if c.hold.Some? && page == c.hold.value.page + 1 then
      Chip(Apply(c.nor, Unit(page - 1, c.hold.value.data, data)), None)
    else
      var nor := Flush(c, appPages).nor;
      if page % 2 == 0 then Chip(nor, Some(Held(page, data)))
      else Chip(Apply(nor, Unit(page - 1, Fill(PAGE), data)), None)
  }

  /** What a read sees: it flushes first. */
  function View(c: Chip, appPages: nat): (s: seq<byte>)
    requires c.Valid(appPages)
    ensures |s| == |c.nor|
  {
    Flush(c, appPages).nor
  }

  /** The program operations behind a flush, in the order they are issued. */
  function FlushPrograms(c: Chip): seq<Program> {
    if c.hold.None? then [] else [Unit(c.hold.value.page, c.hold.value.data, Fill(PAGE))]
  }

  /** Those behind a write. */
  function WritePrograms(c: Chip, page: nat, data: seq<byte>): seq<Program> {
    if c.hold.Some? && page == c.hold.value.page then []
    else if c.hold.Some? && page == c.hold.value.page + 1 then [Unit(c.hold.value.page, c.hold.value.data, data)]
    else FlushPrograms(c) + if page % 2 == 0 then [] else [Unit(page - 1, Fill(PAGE), data)]
  }

  /** What is left of an erase when power fails in it: the page that starts a sector erases it, `count`
      octets of it before that; other pages erase nothing. */
  function TornErase(c: Chip, appPages: nat, page: nat, count: nat): (r: seq<byte>)
    requires c.Valid(appPages) && page < appPages
    ensures |r| == |c.nor|
  {
    PartnerInside(appPages, page);
    if page % PAGES_PER_SECTOR != 0 then c.nor
    else Overlay(c.nor, PAGE * page, Fill(Min(count, PAGE * PAGES_PER_SECTOR)))
  }

  /** The sectors erased behind an erase of page `page`, by their first page. */
  function SectorsErased(page: nat): seq<nat> {
    if page % PAGES_PER_SECTOR != 0 then [] else [page]
  }

  predicate InFlash(size: nat, programs: seq<Program>) {
    forall k :: 0 <= k < |programs| ==> programs[k].at + |programs[k].octets| <= size
  }

  function ApplyAll(nor: seq<byte>, programs: seq<Program>): (r: seq<byte>)
    requires InFlash(|nor|, programs)
    ensures |r| == |nor|
    decreases programs
  {
    if programs == [] then nor else ApplyAll(Apply(nor, programs[0]), programs[1..])
  }

  lemma FlushPerformed(c: Chip, appPages: nat)
    requires c.Valid(appPages)
    ensures InFlash(|c.nor|, FlushPrograms(c)) && ApplyAll(c.nor, FlushPrograms(c)) == Flush(c, appPages).nor
  {
    hide Apply;
    var programs := FlushPrograms(c);
    if c.hold.Some? {
      PartnerInside(appPages, c.hold.value.page);
      assert ApplyAll(c.nor, programs) == ApplyAll(Apply(c.nor, programs[0]), []);
    }
  }

  /** The operations the port logs are those that make its next state. */
  lemma ProgramsPerformed(c: Chip, appPages: nat, page: nat, data: seq<byte>)
    requires c.Valid(appPages) && page < appPages && |data| == PAGE
    ensures InFlash(|c.nor|, WritePrograms(c, page, data))
    ensures ApplyAll(c.nor, WritePrograms(c, page, data)) == Write(c, appPages, page, data).nor
  {
    hide Apply;
    FlushPerformed(c, appPages);
    PartnerInside(appPages, page);
    if c.hold.Some? {
      PartnerInside(appPages, c.hold.value.page);
    }
    var programs := WritePrograms(c, page, data);
    if |programs| == 2 {
      var flushed := Apply(c.nor, programs[0]);
      assert programs[1..] == [programs[1]];
      assert ApplyAll(flushed, programs[1..]) == ApplyAll(Apply(flushed, programs[1]), []);
    } else if |programs| == 1 {
      assert ApplyAll(c.nor, programs) == ApplyAll(Apply(c.nor, programs[0]), []);
    }
  }

  /** What is left of the operations when power fails after `count` octets of them. */
  function TornBy(nor: seq<byte>, programs: seq<Program>, count: nat): (r: seq<byte>)
    requires InFlash(|nor|, programs)
    ensures |r| == |nor|
    decreases programs
  {
    if programs == [] then nor
    else if count < |programs[0].octets| then Apply(nor, Program(programs[0].at, programs[0].octets[..count]))
    else TornBy(Apply(nor, programs[0]), programs[1..], count - |programs[0].octets|)
  }

  // ---- the port ----

  class FlashPort {
    const appPages: nat
    const nor: array<byte>
    const hold: array<byte>
    const unit: array<byte>
    var holdPage: nat
    var holdValid: bool
    /** Every program operation issued to flash so far. */
    ghost var log: seq<Program>
    /** The page at the start of every sector erased so far. */
    ghost var erased: seq<nat>

    ghost predicate Valid()
      reads this`holdPage, this`holdValid, nor, hold
    {
      && unit.Length == UNIT && hold.Length == PAGE && nor != hold && nor != unit && hold != unit
      && State().Valid(appPages)
    }

    ghost function State(): Chip
      reads this`holdPage, this`holdValid, nor, hold
    {
      Chip(nor[..], if holdValid then Some(Held(holdPage, hold[..])) else None)
    }

    /** Power on: flash is what it was, the held page is gone. */
    constructor (nor: array<byte>, appPages: nat)
      requires appPages % PAGES_PER_SECTOR == 0 && nor.Length == PAGE * appPages
      ensures Valid() && this.nor == nor && this.appPages == appPages
      ensures State() == Chip(nor[..], None) && log == [] && erased == []
    {
      log, erased := [], [];
      this.appPages, this.nor := appPages, nor;
      hold, unit := new byte[PAGE], new byte[UNIT];
      holdPage, holdValid := 0, false;
    }

    method FlashRangeProgram(at: nat)
      requires Valid() && at + UNIT <= nor.Length
      modifies nor, this`log
      ensures nor[..] == Programmed(old(nor[..]), at, unit[..])
      ensures log == old(log) + [Program(at, unit[..])]
    {
      hide And;
      log := log + [Program(at, unit[..])];
      for i := 0 to UNIT
        invariant unit[..] == old(unit[..]) && log == old(log) + [Program(at, unit[..])]
        invariant forall k :: 0 <= k < nor.Length ==>
          nor[k] == if at <= k < at + i then And(old(nor[k]), unit[k - at]) else old(nor[k])
      {
        nor[at + i] := And(nor[at + i], unit[i]);
      }
    }

    method ProgFlashPage(evenPage: nat, lo: Option<seq<byte>>, hi: Option<seq<byte>>)
      requires Valid() && evenPage % 2 == 0 && evenPage < appPages
      requires (lo.Some? ==> |lo.value| == PAGE) && (hi.Some? ==> |hi.value| == PAGE)
      modifies nor, unit, this`log
      ensures var p := Unit(evenPage, if lo.Some? then lo.value else Fill(PAGE),
                            if hi.Some? then hi.value else Fill(PAGE));
              nor[..] == Apply(old(nor[..]), p) && log == old(log) + [p]
    {
      hide And, Programmed;
      PartnerInside(appPages, evenPage);
      var l := if lo.Some? then lo.value else Fill(PAGE);
      var h := if hi.Some? then hi.value else Fill(PAGE);
      for i := 0 to PAGE
        invariant nor[..] == old(nor[..]) && log == old(log)
        invariant forall k :: 0 <= k < i ==> unit[k] == l[k]
      {
        unit[i] := l[i];
      }
      for i := 0 to PAGE
        invariant nor[..] == old(nor[..]) && log == old(log)
        invariant forall k :: 0 <= k < PAGE + i ==> unit[k] == (l + h)[k]
      {
        unit[PAGE + i] := h[i];
      }
      assert unit[..] == l + h;
      FlashRangeProgram(PAGE * evenPage);
    }

    method HoldFlush()
      requires Valid()
      modifies this`holdValid, this`log, nor, unit
      ensures Valid() && State() == Flush(old(State()), appPages)
      ensures log == old(log) + FlushPrograms(old(State()))
    {
      hide And, Programmed;
      if !holdValid {
        return;
      }
      holdValid := false;
      ProgFlashPage(holdPage, Some(hold[..]), None);
    }

    method FlashRangeErase(at: nat, ghost page: nat)
      requires Valid() && !holdValid && at == PAGE * page && at + PAGE * PAGES_PER_SECTOR <= nor.Length
      modifies nor, this`erased
      ensures nor[..] == Overlay(old(nor[..]), at, Fill(PAGE * PAGES_PER_SECTOR)) && erased == old(erased) + [page]
    {
      erased := erased + [page];
      for i := 0 to PAGE * PAGES_PER_SECTOR
        invariant erased == old(erased) + [page]
        invariant forall k :: 0 <= k < nor.Length ==> nor[k] == if at <= k < at + i then BLANK else old(nor[k])
      {
        nor[at + i] := BLANK;
      }
      assert nor[..] == Overlay(old(nor[..]), at, Fill(PAGE * PAGES_PER_SECTOR));
    }

    method ErasePage(page: nat)
      requires Valid() && page < appPages
      modifies this`holdValid, this`erased, nor
      ensures Valid() && State() == Erase(old(State()), appPages, page)
      ensures erased == old(erased) + SectorsErased(page)
    {
      holdValid := false;
      if page % PAGES_PER_SECTOR != 0 {
        return;
      }
      PartnerInside(appPages, page);
      FlashRangeErase(PAGE * page, page);
    }

    method WritePage(page: nat, data: seq<byte>)
      requires Valid() && page < appPages && |data| == PAGE
      modifies this, nor, hold, unit
      ensures Valid() && State() == Write(old(State()), appPages, page, data)
      ensures log == old(log) + WritePrograms(old(State()), page, data) && erased == old(erased)
    {
      hide And, Programmed;
      if holdValid && page == holdPage {
        HoldData(data);
        return;
      }
      if holdValid && page == holdPage + 1 {
        holdValid := false;
        ProgFlashPage(holdPage, Some(hold[..]), Some(data));
        return;
      }
      HoldFlush();
      if page % 2 == 0 {
        HoldData(data);
        holdPage := page;
        holdValid := true;
      } else {
        ProgFlashPage(page - 1, None, Some(data));
      }
    }

    method HoldData(data: seq<byte>)
      requires Valid() && |data| == PAGE
      modifies hold
      ensures Valid() && hold[..] == data
    {
      for i := 0 to PAGE
        invariant hold[..i] == data[..i]
      {
        hold[i] := data[i];
      }
    }

    method ReadByte(offset: nat) returns (b: byte)
      requires Valid() && offset < nor.Length
      modifies this`holdValid, this`log, nor, unit
      ensures Valid() && State() == Flush(old(State()), appPages)
      ensures log == old(log) + FlushPrograms(old(State()))
      ensures b == View(old(State()), appPages)[offset]
    {
      HoldFlush();
      b := nor[offset];
    }
  }

  lemma ViewOfUnheld(c: Chip, appPages: nat)
    requires c.Valid(appPages) && c.hold.None?
    ensures View(c, appPages) == c.nor
  {
  }

  // ---- a flat array of pages ----

  lemma ViewAt(c: Chip, appPages: nat, i: nat)
    requires c.Valid(appPages) && i < |c.nor|
    ensures View(c, appPages)[i] ==
            if c.hold.Some? && PAGE * c.hold.value.page <= i < PAGE * c.hold.value.page + PAGE
            then And(c.nor[i], c.hold.value.data[i - PAGE * c.hold.value.page]) else c.nor[i]
  {
    hide And;
  }

  /** After a write only its own page is held; everything else is in flash as it was visible. */
  lemma WriteAt(c: Chip, appPages: nat, page: nat, data: seq<byte>, i: nat)
    requires c.Valid(appPages) && page < appPages && |data| == PAGE && i < |c.nor|
    ensures var c' := Write(c, appPages, page, data);
            && (c'.hold.Some? ==> c'.hold.value == Held(page, data))
            && c'.nor[i] == if !(PAGE * page <= i < PAGE * page + PAGE) then View(c, appPages)[i]
                            else if c'.hold.Some? then c.nor[i]
                            else And(c.nor[i], data[i - PAGE * page])
  {
    hide And;
    ViewAt(c, appPages, i);
    if c.hold.Some? && page == c.hold.value.page {
    } else if c.hold.Some? && page == c.hold.value.page + 1 {
    } else if page % 2 == 0 {
    } else {
    }
  }

  lemma WriteViewAt(c: Chip, appPages: nat, page: nat, data: seq<byte>, i: nat)
    requires c.Valid(appPages) && page < appPages && |data| == PAGE && i < |c.nor|
    ensures View(Write(c, appPages, page, data), appPages)[i] ==
            if PAGE * page <= i < PAGE * page + PAGE then And(c.nor[i], data[i - PAGE * page])
            else View(c, appPages)[i]
  {
    hide And, View, Write;
    WriteAt(c, appPages, page, data, i);
    ViewAt(Write(c, appPages, page, data), appPages, i);
  }

  /** What a write does to the visible contents, in every state: the page becomes the data, as far as
      the flash below it can still be programmed. */
  lemma WriteView(c: Chip, appPages: nat, page: nat, data: seq<byte>)
    requires c.Valid(appPages) && page < appPages && |data| == PAGE
    ensures forall i :: 0 <= i < |c.nor| ==>
              View(Write(c, appPages, page, data), appPages)[i] ==
              if PAGE * page <= i < PAGE * page + PAGE then And(c.nor[i], data[i - PAGE * page])
              else View(c, appPages)[i]
  {
    hide And, View, Write;
    forall i | 0 <= i < |c.nor|
      ensures View(Write(c, appPages, page, data), appPages)[i] ==
              if PAGE * page <= i < PAGE * page + PAGE then And(c.nor[i], data[i - PAGE * page])
              else View(c, appPages)[i]
    {
      WriteViewAt(c, appPages, page, data, i);
    }
  }

  /** Flash under page `page` has no bit cleared that `data` needs set. */
  predicate Programmable(nor: seq<byte>, page: nat, data: seq<byte>)
    requires PAGE * page + |data| <= |nor|
  {
    forall k :: 0 <= k < |data| ==> And(nor[PAGE * page + k], data[k]) == data[k]
  }

  /** A write acts as on a flat array of pages exactly when flash can still take it. */
  lemma WriteIsFlatIff(c: Chip, appPages: nat, page: nat, data: seq<byte>)
    requires c.Valid(appPages) && page < appPages && |data| == PAGE
    ensures (View(Write(c, appPages, page, data), appPages) == Overlay(View(c, appPages), PAGE * page, data))
            <==> Programmable(c.nor, page, data)
  {
    hide And, View, Write;
    WriteView(c, appPages, page, data);
    var at, v, flat := PAGE * page, View(Write(c, appPages, page, data), appPages),
                       Overlay(View(c, appPages), PAGE * page, data);
    if v == flat {
      forall k | 0 <= k < PAGE
        ensures And(c.nor[at + k], data[k]) == data[k]
      {
        assert v[at + k] == flat[at + k];
      }
    }
    if Programmable(c.nor, page, data) {
      forall i | 0 <= i < |v|
        ensures v[i] == flat[i]
      {
        if at <= i < at + PAGE {
          assert And(c.nor[at + (i - at)], data[i - at]) == data[i - at];
        }
      }
    }
  }

  lemma AndTwice(a: byte, b: byte)
    ensures And(And(a, b), b) == And(a, b)
  {
    var c, d := Bv(a), Bv(b);
    hide Bv, Num;
    BvOfNum(c & d);
    assert (c & d) & d == c & d;
  }

  /** The octets of page `even + 1`, once its unit has been programmed. */
  lemma OddHalf(nor: seq<byte>, even: nat, lo: seq<byte>, hi: seq<byte>)
    requires 128 * even + 256 <= |nor| && |lo| == |hi| == PAGE
    ensures var at, p := 128 * even + 128, Unit(even, lo, hi);
            p.at + |p.octets| <= |nor|
            && forall i :: at <= i < at + PAGE ==> Apply(nor, p)[i] == And(nor[i], hi[i - at])
  {
    hide And;
  }

  /** A neutral first half leaves everything else alone. */
  lemma OnlyOddHalf(nor: seq<byte>, even: nat, hi: seq<byte>)
    requires 128 * even + 256 <= |nor| && |hi| == PAGE
    ensures var at, p := 128 * even + 128, Unit(even, Fill(PAGE), hi);
            p.at + |p.octets| <= |nor|
            && forall i :: 0 <= i < |nor| && !(at <= i < at + PAGE) ==> Apply(nor, p)[i] == nor[i]
  {
    hide And;
  }

  /** Programming the same octets over themselves changes nothing. */
  lemma SameAgain(nor: seq<byte>, once: seq<byte>, twice: seq<byte>, hi: seq<byte>, at: nat)
    requires |once| == |twice| == |nor| && |hi| == PAGE && at + PAGE <= |nor|
    requires forall i :: at <= i < at + PAGE ==> once[i] == And(nor[i], hi[i - at])
    requires forall i :: at <= i < at + PAGE ==> twice[i] == And(once[i], hi[i - at])
    requires forall i :: 0 <= i < |nor| && !(at <= i < at + PAGE) ==> twice[i] == once[i]
    ensures twice == once
  {
    hide And;
    forall i | at <= i < at + PAGE
      ensures twice[i] == once[i]
    {
      AndTwice(nor[i], hi[i - at]);
    }
  }

  lemma ProgrammedTwice(nor: seq<byte>, lo: seq<byte>, hi: seq<byte>, even: nat)
    requires 128 * even + 256 <= |nor| && |lo| == |hi| == PAGE
    ensures Apply(Apply(nor, Unit(even, lo, hi)), Unit(even, Fill(PAGE), hi)) == Apply(nor, Unit(even, lo, hi))
  {
    hide And, Apply, Unit;
    OddHalf(nor, even, lo, hi);
    var once := Apply(nor, Unit(even, lo, hi));
    OddHalf(once, even, Fill(PAGE), hi);
    OnlyOddHalf(once, even, hi);
    SameAgain(nor, once, Apply(once, Unit(even, Fill(PAGE), hi)), hi, 128 * even + 128);
  }

  /** A write may be repeated in every state: held again, or programmed over itself. */
  lemma WriteTwice(c: Chip, appPages: nat, page: nat, data: seq<byte>)
    requires c.Valid(appPages) && page < appPages && |data| == PAGE
    ensures Write(Write(c, appPages, page, data), appPages, page, data) == Write(c, appPages, page, data)
  {
    hide Apply, Unit;
    PartnerInside(appPages, page);
    if c.hold.Some? && page == c.hold.value.page + 1 {
      ProgrammedTwice(c.nor, c.hold.value.data, data, page - 1);
    } else if page % 2 != 0 {
      PartnerInside(appPages, page - 1);
      ProgrammedTwice(Flush(c, appPages).nor, Fill(PAGE), data, page - 1);
    }
  }

  /** Flushing shows nothing. */
  lemma FlushIsInvisible(c: Chip, appPages: nat)
    requires c.Valid(appPages)
    ensures View(Flush(c, appPages), appPages) == View(c, appPages)
    ensures View(c, appPages) != c.nor ==> c.hold.Some?
  {
  }

  /** The core erases page after page. */
  function EraseFrom(c: Chip, appPages: nat, page: nat): (r: Chip)
    requires c.Valid(appPages) && page <= appPages
    ensures r.Valid(appPages)
    decreases appPages - page
  {
    if page == appPages then c else EraseFrom(Erase(c, appPages, page), appPages, page + 1)
  }

  /** Where the first sector starts that begins at page `page` or behind it. */
  function NextSector(page: nat): nat {
    PAGE * ((page + 31) / 32 * 32)
  }

  predicate BlankBefore(nor: seq<byte>, page: nat) {
    forall i :: 0 <= i < |nor| && i < NextSector(page) ==> nor[i] == BLANK
  }

  lemma EraseAdvances(c: Chip, appPages: nat, page: nat)
    requires c.Valid(appPages) && page < appPages && BlankBefore(c.nor, page)
    ensures BlankBefore(Erase(c, appPages, page).nor, page + 1) && Erase(c, appPages, page).hold.None?
  {
    hide NextSector;
    SectorStep(page);
  }

  lemma SectorStep(page: nat)
    ensures page % 32 == 0 ==> NextSector(page) == PAGE * page && NextSector(page + 1) == PAGE * page + PAGE * 32
    ensures page % 32 != 0 ==> NextSector(page + 1) == NextSector(page)
  {
  }

  lemma AllBlank(nor: seq<byte>, appPages: nat)
    requires appPages % PAGES_PER_SECTOR == 0 && |nor| == PAGE * appPages && BlankBefore(nor, appPages)
    ensures nor == Fill(PAGE * appPages)
  {
    assert NextSector(appPages) == PAGE * appPages;
  }

  /** Although most of its calls do nothing, the loop leaves no octet and no held page. */
  lemma {:induction false} EraseCovers(c: Chip, appPages: nat, page: nat)
    requires c.Valid(appPages) && page <= appPages && (page == appPages ==> c.hold.None?)
    requires BlankBefore(c.nor, page)
    ensures EraseFrom(c, appPages, page) == Chip(Fill(PAGE * appPages), None)
    decreases appPages - page
  {
    hide BlankBefore, Erase;
    if page == appPages {
      AllBlank(c.nor, appPages);
    } else {
      EraseAdvances(c, appPages, page);
      EraseCovers(Erase(c, appPages, page), appPages, page + 1);
    }
  }

  datatype Call = EraseApp | WritePage(page: nat, data: seq<byte>) | ReadByte(offset: nat) | Init

  /** The store the core believes in; `open` is its erased latch, without which it writes nothing. */
  datatype Flat = Flat(bytes: seq<byte>, open: bool)

  /** What the core and its host issue: writes after an erase, each page once or again with the data
      it has; anything else at any moment. */
  predicate Issues(f: Flat, appPages: nat, call: Call)
    requires |f.bytes| == PAGE * appPages
  {
    match call
    case EraseApp => true
    case Init => true
    case ReadByte(offset) => offset < |f.bytes|
    case WritePage(page, data) =>
      && f.open && page < appPages && |data| == PAGE
      && (var now := f.bytes[PAGE * page..PAGE * page + PAGE]; now == Fill(PAGE) || now == data)
  }

  function FlatStep(f: Flat, appPages: nat, call: Call): (r: (Flat, Option<byte>))
    requires |f.bytes| == PAGE * appPages && Issues(f, appPages, call)
    ensures |r.0.bytes| == |f.bytes|
  {
    match call
    case EraseApp => (Flat(Fill(|f.bytes|), true), None)
    case Init => (f.(open := false), None)
    case ReadByte(offset) => (f, Some(f.bytes[offset]))
    case WritePage(page, data) => (f.(bytes := Overlay(f.bytes, PAGE * page, data)), None)
  }

  function ChipStep(c: Chip, appPages: nat, call: Call): (r: (Chip, Option<byte>))
    requires c.Valid(appPages)
    requires call.ReadByte? ==> call.offset < |c.nor|
    requires call.WritePage? ==> call.page < appPages && |call.data| == PAGE
    ensures r.0.Valid(appPages)
  {
    match call
    case EraseApp => (EraseFrom(c, appPages, 0), None)
    case Init => (c, None)
    case ReadByte(offset) => (Flush(c, appPages), Some(View(c, appPages)[offset]))
    case WritePage(page, data) => (Write(c, appPages, page, data), None)
  }

  /** The chip shows the flat contents; while writes are open, flash below is still blank wherever it
      does not hold them yet. */
  ghost predicate Refines(c: Chip, appPages: nat, f: Flat)
    ensures Refines(c, appPages, f) ==> c.Valid(appPages)
  {
    && c.Valid(appPages)
    && View(c, appPages) == f.bytes
    && (f.open ==>
          && (forall i :: 0 <= i < |c.nor| ==> c.nor[i] == BLANK || c.nor[i] == f.bytes[i])
          && (c.hold.Some? ==>
                var at := PAGE * c.hold.value.page;
                at + PAGE <= |f.bytes| && c.hold.value.data == f.bytes[at..at + PAGE]))
  }

  /** An issued write finds flash that can take it, and leaves flash behind the flat contents. */
  lemma IssuedWrite(c: Chip, appPages: nat, f: Flat, page: nat, data: seq<byte>, i: nat)
    requires Refines(c, appPages, f) && |f.bytes| == PAGE * appPages && Issues(f, appPages, WritePage(page, data))
    requires i < |f.bytes|
    ensures PAGE * page <= i < PAGE * page + PAGE ==> And(c.nor[i], data[i - PAGE * page]) == data[i - PAGE * page]
    ensures var n := Write(c, appPages, page, data).nor[i];
            n == BLANK || n == Overlay(f.bytes, PAGE * page, data)[i]
  {
    hide And, View, Write;
    WriteAt(c, appPages, page, data, i);
    var at := PAGE * page;
    var now := f.bytes[at..at + PAGE];
    if at <= i < at + PAGE {
      assert now[i - at] == f.bytes[i];
      assert now == Fill(PAGE) ==> now[i - at] == BLANK;
    }
  }

  lemma WriteRefines(c: Chip, appPages: nat, f: Flat, page: nat, data: seq<byte>)
    requires Refines(c, appPages, f) && |f.bytes| == PAGE * appPages && Issues(f, appPages, WritePage(page, data))
    ensures Refines(Write(c, appPages, page, data), appPages, FlatStep(f, appPages, WritePage(page, data)).0)
  {
    var at, c' := PAGE * page, Write(c, appPages, page, data);
    forall i | 0 <= i < |f.bytes|
      ensures c'.nor[i] == BLANK || c'.nor[i] == Overlay(f.bytes, at, data)[i]
      ensures at <= i < at + PAGE ==> And(c.nor[i], data[i - at]) == data[i - at]
    {
      IssuedWrite(c, appPages, f, page, data, i);
    }
    hide And, View, Write;
    WriteIsFlatIff(c, appPages, page, data);
    WriteAt(c, appPages, page, data, at);
    assert Overlay(f.bytes, at, data)[at..at + PAGE] == data;
  }

  lemma StepRefines(c: Chip, appPages: nat, f: Flat, call: Call)
    requires Refines(c, appPages, f) && |f.bytes| == PAGE * appPages && Issues(f, appPages, call)
    ensures Refines(ChipStep(c, appPages, call).0, appPages, FlatStep(f, appPages, call).0)
    ensures ChipStep(c, appPages, call).1 == FlatStep(f, appPages, call).1
  {
    hide And, Programmed, Write;
    match call {
      case EraseApp => EraseCovers(c, appPages, 0);
      case Init =>
      case ReadByte(offset) =>
      case WritePage(page, data) => WriteRefines(c, appPages, f, page, data);
    }
  }

  ghost predicate AllIssued(f: Flat, appPages: nat, calls: seq<Call>)
    requires |f.bytes| == PAGE * appPages
    decreases calls
  {
    calls == [] ||
    (Issues(f, appPages, calls[0]) && AllIssued(FlatStep(f, appPages, calls[0]).0, appPages, calls[1..]))
  }

  ghost function FlatAnswers(f: Flat, appPages: nat, calls: seq<Call>): seq<Option<byte>>
    requires |f.bytes| == PAGE * appPages && AllIssued(f, appPages, calls)
    decreases calls
  {
    if calls == [] then []
    else var (f', a) := FlatStep(f, appPages, calls[0]); [a] + FlatAnswers(f', appPages, calls[1..])
  }

  ghost predicate InRange(appPages: nat, call: Call) {
    && (call.ReadByte? ==> call.offset < PAGE * appPages)
    && (call.WritePage? ==> call.page < appPages && |call.data| == PAGE)
  }

  ghost function ChipAnswers(c: Chip, appPages: nat, calls: seq<Call>): seq<Option<byte>>
    requires c.Valid(appPages) && forall call :: call in calls ==> InRange(appPages, call)
    decreases calls
  {
    if calls == [] then []
    else
      assert InRange(appPages, calls[0]);
      var (c', a) := ChipStep(c, appPages, calls[0]); [a] + ChipAnswers(c', appPages, calls[1..])
  }

  lemma {:induction false} AnswersAgree(c: Chip, appPages: nat, f: Flat, calls: seq<Call>)
    requires Refines(c, appPages, f) && |f.bytes| == PAGE * appPages && AllIssued(f, appPages, calls)
    ensures forall call :: call in calls ==> InRange(appPages, call)
    ensures ChipAnswers(c, appPages, calls) == FlatAnswers(f, appPages, calls)
    decreases calls
  {
    hide Refines, ChipStep, FlatStep;
    if calls != [] {
      StepRefines(c, appPages, f, calls[0]);
      AnswersAgree(ChipStep(c, appPages, calls[0]).0, appPages, FlatStep(f, appPages, calls[0]).0, calls[1..]);
    }
  }

  /** The coalescing port is a flat array of pages: after power on, every read of every sequence of
      calls the core can issue returns the octet of the flat array. */
  lemma CoalescingIsFlat(nor: seq<byte>, appPages: nat, calls: seq<Call>)
    requires appPages % PAGES_PER_SECTOR == 0 && |nor| == PAGE * appPages
    requires AllIssued(Flat(nor, false), appPages, calls)
    ensures forall call :: call in calls ==> InRange(appPages, call)
    ensures ChipAnswers(Chip(nor, None), appPages, calls) == FlatAnswers(Flat(nor, false), appPages, calls)
  {
    AnswersAgree(Chip(nor, None), appPages, Flat(nor, false), calls);
  }
}
