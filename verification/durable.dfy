/** What an update leaves in flash behind the RP2350's held page, whenever power fails. */
module Durable {
  import opened Bytes
  import opened Images
  import opened Holdback
  import Device
  import Gate

  // ---- what a power failure leaves of the program operations behind a call ----

  predicate Torn(before: seq<byte>, p: Program, count: nat, after: seq<byte>)
    requires p.at + |p.octets| <= |before|
  {
    count <= |p.octets| && after == Programmed(before, p.at, p.octets[..count])
  }

  /** Power fails at some moment of the operations: any prefix of any of them has been programmed. */
  ghost predicate Leaves(nor: seq<byte>, programs: seq<Program>, after: seq<byte>)
    requires InFlash(|nor|, programs)
    decreases programs
  {
    || after == nor
    || (programs != [] &&
        ((exists count :: Torn(nor, programs[0], count, after))
         || Leaves(Apply(nor, programs[0]), programs[1..], after)))
  }

  lemma {:induction false} TornLeaves(nor: seq<byte>, programs: seq<Program>, count: nat)
    requires InFlash(|nor|, programs)
    ensures Leaves(nor, programs, TornBy(nor, programs, count))
    decreases programs
  {
    hide Programmed;
    if programs != [] {
      var p := programs[0];
      if count < |p.octets| {
        assert Torn(nor, p, count, TornBy(nor, programs, count));
      } else {
        TornLeaves(Apply(nor, p), programs[1..], count - |p.octets|);
      }
    }
  }

  // ---- an ascending update ----

  /** The pages of the image in order, each again if its reply was lost, with reads at any moment. */
  datatype Step = Page(index: nat) | Read

  predicate MayFollow(img: Image, next: nat, s: Step) {
    s.Page? ==>
      && s.index < img.appPages
      && (s.index + 1 == next || (next <= s.index && forall j :: next <= j < s.index ==> !MustWrite(img, j)))
  }

  function NextAfter(next: nat, s: Step): nat {
    if s.Page? then s.index + 1 else next
  }

  predicate Ascends(img: Image, next: nat, steps: seq<Step>)
    decreases steps
  {
    steps == [] || (MayFollow(img, next, steps[0]) && Ascends(img, NextAfter(next, steps[0]), steps[1..]))
  }

  ghost function Take(img: Image, c: Chip, s: Step): (r: Chip)
    requires img.Fits() && img.pageSize == PAGE && c.Valid(img.appPages) && (s.Page? ==> s.index < img.appPages)
    ensures r.Valid(img.appPages)
  {
    if s.Page? then Write(c, img.appPages, s.index, PageOf(img, s.index)) else Flush(c, img.appPages)
  }

  ghost function Programs(img: Image, c: Chip, s: Step): (r: seq<Program>)
    requires img.Fits() && img.pageSize == PAGE && c.Valid(img.appPages) && (s.Page? ==> s.index < img.appPages)
    ensures InFlash(|c.nor|, r) && ApplyAll(c.nor, r) == Take(img, c, s).nor
  {
    if s.Page? then
      ProgramsPerformed(c, img.appPages, s.index, PageOf(img, s.index));
      WritePrograms(c, s.index, PageOf(img, s.index))
    else
      FlushPerformed(c, img.appPages);
      FlushPrograms(c)
  }

  /** Flash after a power failure at any moment of the steps. What is held in RAM is lost. */
  ghost predicate CanBeLeft(img: Image, c: Chip, next: nat, steps: seq<Step>, after: seq<byte>)
    requires img.Fits() && img.pageSize == PAGE && c.Valid(img.appPages) && Ascends(img, next, steps)
    decreases steps
  {
    if steps == [] then after == c.nor
    else
      || Leaves(c.nor, Programs(img, c, steps[0]), after)
      || CanBeLeft(img, Take(img, c, steps[0]), NextAfter(next, steps[0]), steps[1..], after)
  }

  // ---- flash is always a prefix of the image ----

  ghost predicate IsUpto(img: Image, s: seq<byte>)
    requires img.Fits()
  {
    exists limit :: 0 <= limit <= Region(img) && s == Upto(img, limit)
  }

  /** Programming octets that are blank or the image's own, without a gap, extends the prefix. */
  lemma ProgramExtends(img: Image, from: nat, to: nat, at: nat, octets: seq<byte>)
    requires img.Fits() && from <= to <= Region(img) && at + |octets| <= Region(img)
    requires forall k :: 0 <= k < |octets| && at + k >= to ==> octets[k] == BLANK
    requires forall k :: 0 <= k < |octets| ==> octets[k] == BLANK || octets[k] == Render(img)[at + k]
    requires from < to ==> at <= from && to <= at + |octets|
    requires forall i :: from <= i < to ==> octets[i - at] == Render(img)[i]
    ensures Programmed(Upto(img, from), at, octets) == Upto(img, to)
  {
    hide And, Render, Region, Upto;
    var p, u := Programmed(Upto(img, from), at, octets), Upto(img, to);
    forall i | 0 <= i < |p|
      ensures p[i] == u[i]
    {
      if at <= i < at + |octets| {
        assert octets[i - at] == BLANK || octets[i - at] == Render(img)[at + (i - at)];
      }
    }
  }

  lemma StartIs(img: Image, index: nat)
    requires img.Fits() && img.pageSize == PAGE && index <= img.appPages
    ensures Start(img, index) == PAGE * index <= Region(img) == PAGE * img.appPages
  {
  }

  function Max(a: nat, b: nat): nat {
    if a < b then b else a
  }

  ghost function Half(img: Image, index: nat, present: bool): (s: seq<byte>)
    requires img.Fits() && img.pageSize == PAGE && index < img.appPages
    ensures |s| == PAGE
    ensures !present ==> s == Fill(PAGE)
    ensures present ==> forall k :: 0 <= k < PAGE ==>
              PAGE * index + k < Region(img) && s[k] == Render(img)[PAGE * index + k]
  {
    StartIs(img, index);
    if present then PageOf(img, index) else Fill(PAGE)
  }

  lemma HalfIs(img: Image, index: nat)
    requires img.Fits() && img.pageSize == PAGE && index < img.appPages
    ensures Half(img, index, true) == PageOf(img, index) && Half(img, index, false) == Fill(PAGE)
  {
  }

  lemma UnitOctet(img: Image, even: nat, lo: bool, hi: bool, k: nat)
    requires img.Fits() && img.pageSize == PAGE && even + 1 < img.appPages && k < UNIT
    ensures var octets := Half(img, even, lo) + Half(img, even + 1, hi);
            && PAGE * even + k < Region(img)
            && octets[k] == if (if k < PAGE then lo else hi) then Render(img)[PAGE * even + k] else BLANK
  {
    StartIs(img, even);
    hide Half, Render, Region;
    var octets := Half(img, even, lo) + Half(img, even + 1, hi);
    if k < PAGE {
      assert octets[k] == Half(img, even, lo)[k];
    } else {
      assert octets[k] == Half(img, even + 1, hi)[k - PAGE];
      assert PAGE * (even + 1) + (k - PAGE) == PAGE * even + k;
    }
  }

  /** A prefix of a unit: `from` is where the image's prefix ends before, at a page start. */
  lemma UnitTorn(img: Image, even: nat, lo: bool, hi: bool, from: nat, count: nat) returns (to: nat)
    requires img.Fits() && img.pageSize == PAGE && even + 1 < img.appPages && (lo || hi) && count <= UNIT
    requires if lo then from == PAGE * even || from == PAGE * even + PAGE
             else from == PAGE * even + PAGE || from == PAGE * even + UNIT
    ensures to <= Region(img)
    ensures var u := Unit(even, Half(img, even, lo), Half(img, even + 1, hi));
            Programmed(Upto(img, from), u.at, u.octets[..count]) == Upto(img, to)
    ensures count == UNIT ==> to == PAGE * (even + if hi then 2 else 1)
  {
    StartIs(img, even);
    hide Half, Render, Region, Upto, Image.Fits;
    var at, octets := PAGE * even, Half(img, even, lo) + Half(img, even + 1, hi);
    to := Max(from, at + if hi then count else Min(count, PAGE));
    forall k | 0 <= k < count
      ensures octets[..count][k] == if (if k < PAGE then lo else hi) then Render(img)[at + k] else BLANK
    {
      UnitOctet(img, even, lo, hi, k);
    }
    ProgramExtends(img, from, to, at, octets[..count]);
  }

  lemma SingleLeaves(nor: seq<byte>, u: Program, after: seq<byte>)
    requires u.at + |u.octets| <= |nor|
    ensures InFlash(|nor|, [u]) && ApplyAll(nor, [u]) == Apply(nor, u)
    ensures Leaves(nor, [u], after) ==>
              after == nor || after == Apply(nor, u) || exists count :: Torn(nor, u, count, after)
    ensures ApplyAll(nor, []) == nor && (Leaves(nor, [], after) ==> after == nor)
  {
    hide Apply, Torn;
    assert [u][1..] == [];
    assert ApplyAll(nor, [u]) == ApplyAll(Apply(nor, u), []);
    assert Leaves(Apply(nor, u), [], after) ==> after == Apply(nor, u);
  }

  /** Programming one unit leaves a prefix of the image, at every moment of it. */
  lemma UnitLeaves(img: Image, even: nat, lo: bool, hi: bool, first: nat, after: seq<byte>)
    requires img.Fits() && img.pageSize == PAGE && even + 1 < img.appPages && (lo || hi)
    requires if lo then even <= first <= even + 1 else even + 1 <= first <= even + 2
    ensures var nor, u := Upto(img, Start(img, first)), Unit(even, Half(img, even, lo), Half(img, even + 1, hi));
            && InFlash(|nor|, [u])
            && ApplyAll(nor, [u]) == Upto(img, Start(img, even + if hi then 2 else 1))
            && (Leaves(nor, [u], after) ==> IsUpto(img, after))
  {
    hide Half, Render, Region, Upto, Programmed, Leaves, ApplyAll, Start;
    StartIs(img, even);
    StartIs(img, first);
    StartIs(img, even + if hi then 2 else 1);
    var from := PAGE * first;
    var nor, u := Upto(img, from), Unit(even, Half(img, even, lo), Half(img, even + 1, hi));
    var end := UnitTorn(img, even, lo, hi, from, UNIT);
    assert u.octets[..UNIT] == u.octets;
    SingleLeaves(nor, u, after);
    if count :| Torn(nor, u, count, after) {
      var to := UnitTorn(img, even, lo, hi, from, count);
    }
  }

  /** Between calls of an ascending update flash holds the image up to the last page written, or up
      to the page before it, which is then the one held. */
  ghost predicate Settled(img: Image, c: Chip, next: nat)
    requires img.Fits() && img.pageSize == PAGE
    ensures Settled(img, c, next) ==> c.Valid(img.appPages) && next <= img.appPages
  {
    && c.Valid(img.appPages) && next <= img.appPages
    && (match c.hold
        case None => c.nor == Upto(img, Start(img, next))
        case Some(h) =>
          && h.page + 1 == next && h.data == PageOf(img, h.page)
          && (c.nor == Upto(img, Start(img, h.page)) || c.nor == Upto(img, Start(img, next))))
  }

  /** Pages skipped as blank are right already. */
  lemma {:induction false} SkipBlanks(img: Image, from: nat, index: nat)
    requires img.Fits() && from <= index <= img.appPages
    requires forall j :: from <= j < index ==> !MustWrite(img, j)
    ensures Upto(img, Start(img, from)) == Upto(img, Start(img, index))
    decreases index
  {
    hide MustWrite, Upto, Start;
    if from < index {
      SkipBlank(img, index - 1);
      SkipBlanks(img, from, index - 1);
    }
  }

  lemma FlushKeeps(img: Image, c: Chip, next: nat, after: seq<byte>)
    requires img.Fits() && img.pageSize == PAGE && Settled(img, c, next)
    ensures Flush(c, img.appPages).nor == Upto(img, Start(img, next))
    ensures InFlash(|c.nor|, FlushPrograms(c))
    ensures IsUpto(img, c.nor)
    ensures Leaves(c.nor, FlushPrograms(c), after) ==> IsUpto(img, after)
  {
    hide Render, Region, Upto, Apply, ApplyAll, Torn, Flush, Start, Unit, Half, PageOf, Image.Fits, InFlash;
    FlushPerformed(c, img.appPages);
    match c.hold {
      case None =>
        assert FlushPrograms(c) == [];
        SingleLeaves(c.nor, Program(0, []), after);
      case Some(h) =>
        hide Leaves, IsUpto;
        PartnerInside(img.appPages, h.page);
        HalfIs(img, h.page);
        HalfIs(img, h.page + 1);
        UnitLeaves(img, h.page, true, false, if c.nor == Upto(img, Start(img, next)) then next else h.page, after);
        PrefixIsUpto(img, next);
        PrefixIsUpto(img, h.page);
    }
    PrefixIsUpto(img, next);
  }

  lemma PrefixIsUpto(img: Image, index: nat)
    requires img.Fits() && index <= img.appPages
    ensures IsUpto(img, Upto(img, Start(img, index)))
  {
    hide Upto;
    assert Start(img, index) <= Region(img);
  }

  /** Power fails in the first list of operations, or in the second after all of the first. */
  lemma {:induction false} LeavesConcat(nor: seq<byte>, a: seq<Program>, b: seq<Program>, after: seq<byte>)
    requires InFlash(|nor|, a) && InFlash(|nor|, b)
    ensures InFlash(|nor|, a + b) && ApplyAll(nor, a + b) == ApplyAll(ApplyAll(nor, a), b)
    ensures Leaves(nor, a + b, after) ==> Leaves(nor, a, after) || Leaves(ApplyAll(nor, a), b, after)
    decreases a
  {
    hide Apply, Torn;
    if a == [] {
      assert a + b == b;
    } else {
      assert (a + b)[1..] == a[1..] + b;
      LeavesConcat(Apply(nor, a[0]), a[1..], b, after);
    }
  }

  /** An odd page: with nothing held over a blank low half, or together with its held partner. */
  lemma OddPage(img: Image, nor: seq<byte>, even: nat, held: bool, first: nat, after: seq<byte>)
    requires img.Fits() && img.pageSize == PAGE && even + 1 < img.appPages
    requires if held then even <= first <= even + 1 else even + 1 <= first <= even + 2
    requires nor == Upto(img, Start(img, first))
    ensures var programs := [Unit(even, if held then PageOf(img, even) else Fill(PAGE), PageOf(img, even + 1))];
            && InFlash(|nor|, programs)
            && ApplyAll(nor, programs) == Upto(img, Start(img, even + 2))
            && (Leaves(nor, programs, after) ==> IsUpto(img, after))
  {
    hide Render, Region, Upto, ApplyAll, Leaves, Start, Unit, InFlash, Half, PageOf, Image.Fits, IsUpto;
    UnitLeaves(img, even, held, true, first, after);
    HalfIs(img, even);
    HalfIs(img, even + 1);
  }

  /** Every page of an ascending update keeps flash a prefix of the image, at every moment of it. */
  lemma PageKeeps(img: Image, c: Chip, next: nat, page: nat, after: seq<byte>)
    requires img.Fits() && img.pageSize == PAGE && Settled(img, c, next) && MayFollow(img, next, Page(page))
    ensures Settled(img, Write(c, img.appPages, page, PageOf(img, page)), page + 1)
    ensures Leaves(c.nor, Programs(img, c, Page(page)), after) ==> IsUpto(img, after)
  {
    hide Render, Region, Upto, Start, Apply, ApplyAll, Flush, MustWrite, Unit, PageOf, Image.Fits;
    hide InFlash, Leaves, IsUpto;
    var data, flushed := PageOf(img, page), Flush(c, img.appPages);
    ProgramsPerformed(c, img.appPages, page, data);
    FlushPerformed(c, img.appPages);
    FlushKeeps(img, c, next, after);
    if page >= next {
      SkipBlanks(img, next, page);
    }
    if c.hold.Some? && page == c.hold.value.page {
      assert WritePrograms(c, page, data) == [];
      SingleLeaves(c.nor, Program(0, []), after);
    } else if c.hold.Some? && page == c.hold.value.page + 1 {
      var first := if c.nor == Upto(img, Start(img, next)) then next else next - 1;
      OddPage(img, c.nor, c.hold.value.page, true, first, after);
    } else if page % 2 == 0 {
      assert WritePrograms(c, page, data) == FlushPrograms(c);
    } else {
      OddPage(img, flushed.nor, page - 1, false, if page < next then page + 1 else page, after);
      FlushPerformed(c, img.appPages);
      LeavesConcat(c.nor, FlushPrograms(c), [Unit(page - 1, Fill(PAGE), data)], after);
    }
  }

  lemma StepKeeps(img: Image, c: Chip, next: nat, s: Step, after: seq<byte>)
    requires img.Fits() && img.pageSize == PAGE && Settled(img, c, next) && MayFollow(img, next, s)
    ensures Settled(img, Take(img, c, s), NextAfter(next, s))
    ensures Leaves(c.nor, Programs(img, c, s), after) ==> IsUpto(img, after)
  {
    hide Leaves, IsUpto, InFlash, Start, Upto, Write, Region, Apply, ApplyAll, Render, PageOf, Image.Fits, Unit;
    if s.Page? {
      PageKeeps(img, c, next, s.index, after);
    } else {
      FlushKeeps(img, c, next, after);
    }
  }

  lemma {:induction false} UpdateLeaves(img: Image, c: Chip, next: nat, steps: seq<Step>, after: seq<byte>)
    requires img.Fits() && img.pageSize == PAGE && Settled(img, c, next)
    requires Ascends(img, next, steps) && CanBeLeft(img, c, next, steps, after)
    ensures IsUpto(img, after)
    decreases steps
  {
    hide Leaves, IsUpto, Settled, Take, Programs, MayFollow;
    if steps == [] {
      FlushKeeps(img, c, next, after);
    } else {
      StepKeeps(img, c, next, steps[0], after);
      if !Leaves(c.nor, Programs(img, c, steps[0]), after) {
        UpdateLeaves(img, Take(img, c, steps[0]), NextAfter(next, steps[0]), steps[1..], after);
      }
    }
  }

  /** Durability through the held page: start an ascending update on erased flash and let power fail
      at any moment of it, losing the held page. What is left is the image up to some octet, so no
      octet of the footer got there before every page, and the gate accepts it exactly when it is the
      whole image. */
  lemma PowerLossIsSafe(img: Image, steps: seq<Step>, after: seq<byte>)
    requires img.Valid() && img.pageSize == PAGE && img.appPages % PAGES_PER_SECTOR == 0
    requires Ascends(img, 0, steps)
    requires Region(img) == PAGE * img.appPages && CanBeLeft(img, Chip(Fill(Region(img)), None), 0, steps, after)
    ensures exists limit :: 0 <= limit <= Region(img) && after == Upto(img, limit)
    ensures Device.GateAccepts(after) <==> after == Render(img)
  {
    hide Leaves, Take, Programs, MayFollow, CanBeLeft, Ascends, Upto, Render, Region, Device.GateAccepts;
    UptoEnds(img);
    UpdateLeaves(img, Chip(Fill(Region(img)), None), 0, steps, after);
    var limit :| 0 <= limit <= Region(img) && after == Upto(img, limit);
    Gate.GateIffInstalled(img, limit);
  }

  /** Once the footer page is written the image is in flash itself: the page is odd, never held. */
  lemma FooterIsDurable(img: Image, c: Chip)
    requires img.Fits() && img.pageSize == PAGE && Settled(img, c, img.appPages)
    ensures c == Chip(Render(img), None)
  {
    hide Upto, Render, Region;
    if c.hold.Some? {
      PartnerInside(img.appPages, c.hold.value.page);
      assert false;
    }
    UptoEnds(img);
  }
}
