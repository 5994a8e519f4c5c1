/** WRITE_PAGE commands commute: after an erase, only which pages were written matters. */
module OrderFree {
  import opened Bytes
  import opened Frames
  import opened Geometry
  import opened Images
  import opened Device
  import opened Session
  import opened Install
  import opened Progress
  import Holdback

  ghost predicate InRange(img: Image, pages: seq<nat>) {
    forall k :: 0 <= k < |pages| ==> pages[k] < img.appPages
  }

  /** The device after it has served one WRITE_PAGE per entry of `pages`, in that order. */
  ghost function Serve(img: Image, d: Dev, pages: seq<nat>): (r: Dev)
    requires img.Fits() && d.Valid() && InRange(img, pages)
    ensures r.Valid()
    decreases pages
  {
    if pages == [] then d
    else Serve(img, Handle(d, WriteFrame(img, pages[0]), RSP_CAP).0, pages[1..])
  }

  ghost function Slice(img: Image, flash: seq<byte>, index: nat): seq<byte>
    requires img.Fits() && |flash| == Region(img) && index < img.appPages
  {
    flash[Start(img, index)..Start(img, index) + img.pageSize]
  }

  /** Exactly the pages in `done` have been rendered; the others are blank. */
  ghost predicate Holds(img: Image, flash: seq<byte>, done: set<nat>)
    requires img.Fits()
  {
    && |flash| == Region(img)
    && forall i :: 0 <= i < img.appPages ==>
         Slice(img, flash, i) == if i in done then PageOf(img, i) else Fill(img.pageSize)
  }

  lemma BlankHoldsNone(img: Image)
    requires img.Fits()
    ensures Holds(img, Fill(Region(img)), {})
  {
    hide Region, Start, PageOf;
  }

  lemma OverlayOtherPage(img: Image, flash: seq<byte>, index: nat, i: nat)
    requires img.Fits() && |flash| == Region(img) && index < img.appPages && i < img.appPages
    ensures Slice(img, Overlay(flash, Start(img, index), PageOf(img, index)), i)
         == if i == index then PageOf(img, index) else Slice(img, flash, i)
  {
    if i < index {
      PagesApart(img.pageSize, img.appPages, i, index);
    } else if index < i {
      PagesApart(img.pageSize, img.appPages, index, i);
    }
    assert i != index ==> Start(img, i) + img.pageSize <= Start(img, index)
                          || Start(img, index) + img.pageSize <= Start(img, i);
    hide Region, Start, PageOf;
  }

  /** A port that holds pages back still follows the flat array the host believes in. */
  ghost predicate Follows(d: Dev)
    requires d.Valid()
  {
    d.under.Some? ==> Holdback.Refines(d.under.value, d.info.appPages, Holdback.Flat(d.flash, true))
  }

  ghost predicate Writable(img: Image, d: Dev, done: set<nat>)
    requires img.Fits()
    ensures Writable(img, d, done) ==> ReadyErased(img, d)
  {
    ReadyErased(img, d) && Holds(img, d.flash, done) && Follows(d)
  }

  lemma WriteOverlays(img: Image, d: Dev, index: nat)
    requires img.Fits() && index < img.appPages && ReadyErased(img, d) && Follows(d)
    requires var now := Slice(img, d.flash, index); now == Fill(img.pageSize) || now == PageOf(img, index)
    ensures var d1 := FlashOp(d, index, PageOf(img, index));
            d1.flash == Overlay(d.flash, Start(img, index), PageOf(img, index)) && Follows(d1)
  {
    var page := PageOf(img, index);
    assert Start(img, index) == PageAt(d.info.pageSize, d.info.appPages, index);
    if d.under.Some? {
      assert Start(img, index) == Holdback.PAGE * index;
      Holdback.WriteRefines(d.under.value, img.appPages, Holdback.Flat(d.flash, true), index, page);
    }
    hide PageOf, Start, PageAt, Overlay, Holdback.Write, Holdback.View, Holdback.TornBy;
  }

  lemma WriteAddsPage(img: Image, d: Dev, index: nat, done: set<nat>)
    requires img.Fits() && index < img.appPages && Writable(img, d, done)
    ensures Writable(img, Handle(d, WriteFrame(img, index), RSP_CAP).0, done + {index})
  {
    hide Handle, WriteFrame, FlashOp, PageOf, Start, Region, Overlay, Slice, Follows;
    WriteFrameServed(img, d, index);
    WriteOverlays(img, d, index);
    var d1 := FlashOp(d, index, PageOf(img, index));
    WriteStaysSteady(d, index, PageOf(img, index));
    forall i | 0 <= i < img.appPages
      ensures Slice(img, d1.flash, i) == if i in done + {index} then PageOf(img, i) else Fill(img.pageSize)
    {
      OverlayOtherPage(img, d.flash, index, i);
    }
  }

  lemma {:induction false} ServeHolds(img: Image, d: Dev, pages: seq<nat>, done: set<nat>)
    requires img.Fits() && InRange(img, pages) && Writable(img, d, done)
    ensures Writable(img, Serve(img, d, pages), done + set i | i in pages)
    decreases pages
  {
    hide Writable, Handle, WriteFrame, Region;
    if pages == [] {
      assert done + (set i | i in pages) == done;
    } else {
      WriteAddsPage(img, d, pages[0], done);
      ServeHolds(img, Handle(d, WriteFrame(img, pages[0]), RSP_CAP).0, pages[1..], done + {pages[0]});
      assert pages == [pages[0]] + pages[1..];
      assert (set i | i in pages) == {pages[0]} + set i | i in pages[1..];
      assert done + {pages[0]} + (set i | i in pages[1..]) == done + set i | i in pages;
    }
  }

  lemma {:induction false} SlicesDetermine(img: Image, a: seq<byte>, b: seq<byte>, count: nat)
    requires img.Fits() && |a| == |b| == Region(img) && count <= img.appPages
    requires forall i :: 0 <= i < count ==> Slice(img, a, i) == Slice(img, b, i)
    ensures Start(img, count) <= Region(img) && a[..Start(img, count)] == b[..Start(img, count)]
  {
    hide Region, Start;
    if count > 0 {
      SlicesDetermine(img, a, b, count - 1);
      NextStart(img, count - 1);
      var s, e := Start(img, count - 1), Start(img, count);
      assert a[..e] == a[..s] + Slice(img, a, count - 1);
      assert b[..e] == b[..s] + Slice(img, b, count - 1);
    }
  }

  lemma HoldsRender(img: Image, flash: seq<byte>, done: set<nat>)
    requires img.Fits() && Holds(img, flash, done)
    ensures flash == Render(img) <==> forall i :: 0 <= i < img.appPages && MustWrite(img, i) ==> i in done
  {
    hide Render, Region, Start, MustWrite;
    forall i | 0 <= i < img.appPages
      ensures Slice(img, flash, i) == PageOf(img, i) <==> (MustWrite(img, i) ==> i in done)
    {
      MustWriteIffNotBlank(img, i);
    }
    if forall i :: 0 <= i < img.appPages && MustWrite(img, i) ==> i in done {
      forall i | 0 <= i < img.appPages
        ensures Slice(img, flash, i) == Slice(img, Render(img), i)
      {
        assert Slice(img, flash, i) == PageOf(img, i);
      }
      SlicesDetermine(img, flash, Render(img), img.appPages);
      assert flash[..Start(img, img.appPages)] == flash;
      assert Render(img)[..Start(img, img.appPages)] == Render(img);
    }
    if flash == Render(img) {
      forall i | 0 <= i < img.appPages && MustWrite(img, i)
        ensures i in done
      {
        assert Slice(img, flash, i) == PageOf(img, i);
      }
    }
  }

  /** As an erase leaves the device. */
  ghost predicate JustErased(img: Image, d: Dev)
    requires img.Fits()
    ensures JustErased(img, d) ==> ReadyErased(img, d)
  {
    && ReadyErased(img, d)
    && d.flash == Fill(Region(img))
    && (d.under.Some? ==> d.under == Some(Holdback.Chip(Fill(Region(img)), None)))
  }

  lemma ErasedIsWritable(img: Image, d: Dev)
    requires img.Fits() && JustErased(img, d)
    ensures Writable(img, d, {})
  {
    hide Region, Holds, Holdback.And;
    BlankHoldsNone(img);
  }

  /** Any pages in any order, any number of times: after an erase the image is installed exactly when
      every page that is not blank is among them, and then VERIFY answers ST_OK. */
  lemma AnyOrderInstalls(img: Image, d: Dev, pages: seq<nat>)
    requires img.Valid() && JustErased(img, d) && InRange(img, pages)
    ensures var d1 := Serve(img, d, pages);
            && (d1.flash == Render(img) <==> forall i :: i in PageList(img, 0) ==> i in pages)
            && (d1.flash == Render(img) ==>
                  var (d2, reply) := Handle(d1, VerifyFrame(img), RSP_CAP); reply == [ST_OK] && Installed(img, d2))
  {
    hide ReadyErased, JustErased, Holds, Follows, Handle, Render, Region, MustWrite, PageList, PageOf;
    ErasedIsWritable(img, d);
    ServeHolds(img, d, pages, {});
    var d1 := Serve(img, d, pages);
    var done := {} + set i | i in pages;
    HoldsRender(img, d1.flash, done);
    forall i: nat
      ensures i in PageList(img, 0) <==> i < img.appPages && MustWrite(img, i)
    {
      PageListHolds(img, 0, i);
      if i < img.appPages {
        MustWriteIffNotBlank(img, i);
      }
    }
    if d1.flash == Render(img) {
      VerifyServed(img, d1);
    }
  }
}
