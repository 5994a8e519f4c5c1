/** The host's image: rendering into flash pages, and the pages an update must write. */
module Images {
  import opened Bytes
  import opened Frames
  import opened Geometry
  import Crc32

  const FOOTER_LEN: nat := 16
  const PAGE_SIZE_MAX: nat := 250
  const FOOTER_MAGIC: seq<byte> := [0x4F, 0x54, 0x41, 0x55]

  datatype Image = Image(data: seq<byte>, pageSize: nat, appPages: nat, crc: bv32) {
    /** The data fits the geometry, and the geometry fits the wire. */
    ghost predicate Fits() {
      && 1 <= appPages < 0x1_0000
      && FOOTER_LEN <= pageSize <= PAGE_SIZE_MAX
      && |data| + FOOTER_LEN <= pageSize * appPages
    }

    ghost predicate Valid() {
      Fits() && crc == Crc32.Crc32(data)
    }
  }

  /** Size of the app region. It is far below the 32-bit range, so the length field of a footer has
      a zero top octet. */
  function Region(img: Image): (n: nat)
    requires img.Fits()
    ensures FOOTER_LEN + |img.data| <= n < 0x100_0000
  {
    ProductBound(img.pageSize, img.appPages, PAGE_SIZE_MAX, 0x1_0000);
    Area(img.pageSize, img.appPages)
  }

  /** Where page `index` starts. */
  function Start(img: Image, index: nat): (n: nat)
    requires img.Fits() && index <= img.appPages
    ensures index < img.appPages ==> n + img.pageSize <= Region(img)
    ensures index == img.appPages ==> n == Region(img)
    ensures index == 0 ==> n == 0
  {
    PageAt(img.pageSize, img.appPages, index)
  }

  lemma NextStart(img: Image, index: nat)
    requires img.Fits() && index < img.appPages
    ensures Start(img, index + 1) == Start(img, index) + img.pageSize
  {
    NextPage(img.pageSize, img.appPages, index);
  }

  method FromBin(bytes: seq<byte>, pageSize: nat, appPages: nat) returns (r: Result<Image>)
    requires pageSize < 0x1_0000 && appPages < 0x1_0000
    ensures r.Ok? <==> (&& appPages > 0 && FOOTER_LEN <= pageSize <= PAGE_SIZE_MAX
                        && |bytes| <= pageSize * appPages - FOOTER_LEN)
    ensures r.Ok? ==> r.value.Valid()
                      && r.value.data == bytes && r.value.pageSize == pageSize && r.value.appPages == appPages
    ensures r.Err? ==> r.error == if appPages == 0 || !(FOOTER_LEN <= pageSize <= PAGE_SIZE_MAX)
                                  then BadGeometry(pageSize, appPages)
                                  else ImageTooLarge(|bytes|, pageSize * appPages - FOOTER_LEN)
  {
    if appPages == 0 || !(FOOTER_LEN <= pageSize <= PAGE_SIZE_MAX) {
      return Err(BadGeometry(pageSize, appPages));
    }
    NextPage(pageSize, appPages, 0);
    var capacity := pageSize * appPages - FOOTER_LEN;
    if |bytes| > capacity {
      return Err(ImageTooLarge(|bytes|, capacity));
    }
    var crc := Crc32.HostCrc32(bytes);
    return Ok(Image(bytes, pageSize, appPages, crc));
  }

  function Footer(img: Image): (s: seq<byte>)
    requires |img.data| < 0x1_0000_0000
    ensures |s| == FOOTER_LEN
  {
    FOOTER_MAGIC + Le32(|img.data|) + CrcField(img.crc) + [0xFF, 0xFF, 0xFF, 0xFF]
  }

  /** The whole app region as an installed image leaves it. */
  ghost function Render(img: Image): (s: seq<byte>)
    requires img.Fits()
    ensures |s| == Region(img)
  {
    img.data + Fill(Region(img) - FOOTER_LEN - |img.data|) + Footer(img)
  }

  ghost function PageOf(img: Image, index: nat): (s: seq<byte>)
    requires img.Fits() && index < img.appPages
    ensures |s| == img.pageSize
  {
    Render(img)[Start(img, index)..Start(img, index) + img.pageSize]
  }

  ghost function FirstPages(img: Image, count: nat): seq<byte>
    requires img.Fits() && count <= img.appPages
  {
    if count == 0 then [] else FirstPages(img, count - 1) + PageOf(img, count - 1)
  }

  lemma {:induction false} FirstPagesAre(img: Image, count: nat)
    requires img.Fits() && count <= img.appPages
    ensures Start(img, count) <= Region(img) && FirstPages(img, count) == Render(img)[..Start(img, count)]
  {
    hide Start, Region, Render;
    if count > 0 {
      FirstPagesAre(img, count - 1);
      NextStart(img, count - 1);
      var r, a, b := Render(img), Start(img, count - 1), Start(img, count);
      assert r[..b] == r[..a] + r[a..b];
    }
  }

  /** The pages, laid side by side, are the data, filler, and the footer. */
  lemma PagesMakeRegion(img: Image)
    requires img.Fits()
    ensures FirstPages(img, img.appPages)
         == img.data + Fill(Region(img) - FOOTER_LEN - |img.data|) + Footer(img)
  {
    hide Start, Region, Footer, FirstPages;
    FirstPagesAre(img, img.appPages);
    assert Render(img)[..Region(img)] == Render(img);
  }

  function Padded(data: seq<byte>, i: nat): byte {
    if i < |data| then data[i] else BLANK
  }

  lemma PageOctet(img: Image, index: nat, k: nat)
    requires img.Fits() && index < img.appPages && k < img.pageSize
    ensures PageOf(img, index)[k] == if index + 1 == img.appPages && k + FOOTER_LEN >= img.pageSize
                                     then Footer(img)[k + FOOTER_LEN - img.pageSize]
                                     else Padded(img.data, Start(img, index) + k)
  {
    NextStart(img, index);
    hide Start, Region, Footer;
    assert PageOf(img, index)[k] == Render(img)[Start(img, index) + k];
  }

  /** Renders page `index` into the `room` octets of `out` from `at`: the pages, laid side by side,
      are the region. Nothing else is written, and nothing at all on an error. */
  method PageInto(img: Image, index: nat, out: array<byte>, at: nat, room: nat) returns (r: Result<()>)
    requires img.Fits() && at + room <= out.Length
    modifies out
    ensures r == if index >= img.appPages then Err(PageOutOfRange(index))
                 else if room < img.pageSize then Err(BufferTooSmall(img.pageSize))
                 else Ok(())
    ensures r.Err? ==> out[..] == old(out[..])
    ensures r.Ok? ==> out[at..at + img.pageSize] == PageOf(img, index)
    ensures forall k :: 0 <= k < out.Length && !(at <= k < at + img.pageSize) ==> out[k] == old(out[k])
  {
    if index >= img.appPages {
      return Err(PageOutOfRange(index));
    }
    var ps := img.pageSize;
    if room < ps {
      return Err(BufferTooSmall(ps));
    }
    var start := index * ps;
    assert start == Start(img, index);
    hide Start, Region, Footer, PageOf, Image.Fits;
    for j := 0 to ps
      invariant forall k :: at <= k < at + j ==> out[k] == Padded(img.data, start + k - at)
      invariant forall k :: 0 <= k < out.Length && !(at <= k < at + j) ==> out[k] == old(out[k])
    {
      out[at + j] := if start + j < |img.data| then img.data[start + j] else BLANK;
    }
    if index == img.appPages - 1 {
      var offset := at + ps - FOOTER_LEN;
      var footer := Footer(img);
      for j := 0 to FOOTER_LEN
        invariant forall k :: at <= k < offset ==> out[k] == Padded(img.data, start + k - at)
        invariant forall k :: offset <= k < offset + j ==> out[k] == footer[k - offset]
        invariant forall k :: 0 <= k < out.Length && !(at <= k < at + ps) ==> out[k] == old(out[k])
      {
        out[offset + j] := footer[j];
      }
    }
    forall k | 0 <= k < ps
      ensures out[at + k] == PageOf(img, index)[k]
    {
      PageOctet(img, index, k);
    }
    assert out[at..at + ps] == PageOf(img, index);
    return Ok(());
  }

  // ---- the pages an update writes ----

  function MustWrite(img: Image, index: nat): bool {
    index + 1 == img.appPages ||
    (var start := index * img.pageSize;
     var end := Min(start + img.pageSize, |img.data|);
     exists i :: start <= i < end && img.data[i] != BLANK)
  }

  /** A page is written exactly when its rendering is not what erased flash already holds. */
  lemma MustWriteIffNotBlank(img: Image, index: nat)
    requires img.Fits() && index < img.appPages
    ensures MustWrite(img, index) <==> PageOf(img, index) != Fill(img.pageSize)
  {
    var start := index * img.pageSize;
    assert start == Start(img, index);
    NextStart(img, index);
    hide Start, Region, Footer;
    var page := PageOf(img, index);
    if index + 1 == img.appPages {
      FooterNotBlank(img);
      assert page[img.pageSize - FOOTER_LEN] == Footer(img)[0];
    } else if i :| start <= i < Min(start + img.pageSize, |img.data|) && img.data[i] != BLANK {
      assert page[i - start] == img.data[i];
    } else {
      assert page == Fill(img.pageSize);
    }
  }

  lemma FooterNotBlank(img: Image)
    requires |img.data| < 0x1_0000_0000
    ensures Footer(img)[0] != BLANK
  {
  }

  /** The pages still to write, in order, from page `cursor` on. */
  function PageList(img: Image, cursor: nat): (s: seq<nat>)
    ensures |s| <= if cursor < img.appPages then img.appPages - cursor else 0
    decreases img.appPages - cursor
  {
    if cursor >= img.appPages then []
    else (if MustWrite(img, cursor) then [cursor] else []) + PageList(img, cursor + 1)
  }

  /** Exactly the pages that are not blank are listed. */
  lemma {:induction false} PageListHolds(img: Image, cursor: nat, i: nat)
    requires img.Fits() && cursor <= img.appPages
    ensures i in PageList(img, cursor) <==>
            cursor <= i < img.appPages && PageOf(img, i) != Fill(img.pageSize)
    decreases img.appPages - cursor
  {
    hide PageOf, MustWrite;
    if cursor < img.appPages {
      MustWriteIffNotBlank(img, cursor);
      PageListHolds(img, cursor + 1, i);
    }
  }

  predicate Ascending(list: seq<nat>, least: nat) {
    forall k :: 0 <= k < |list| ==> least <= list[k] && (k > 0 ==> list[k - 1] < list[k])
  }

  lemma FooterPageWritten(img: Image)
    requires img.appPages > 0
    ensures MustWrite(img, img.appPages - 1)
  {
  }

  lemma PageListNext(img: Image, cursor: nat)
    requires cursor < img.appPages
    ensures PageList(img, cursor) == (if MustWrite(img, cursor) then [cursor] else []) + PageList(img, cursor + 1)
    ensures PageList(img, img.appPages) == []
  {
    hide MustWrite;
  }

  /** They come in ascending order, the footer page last. */
  lemma {:induction false} PageListAscends(img: Image, cursor: nat)
    requires cursor < img.appPages
    ensures Ascending(PageList(img, cursor), cursor)
    ensures |PageList(img, cursor)| > 0
    ensures PageList(img, cursor)[|PageList(img, cursor)| - 1] == img.appPages - 1
    decreases img.appPages - cursor
  {
    hide MustWrite, PageList;
    PageListNext(img, cursor);
    if cursor + 1 < img.appPages {
      PageListAscends(img, cursor + 1);
    } else {
      FooterPageWritten(img);
    }
  }

  class Pages {
    const img: Image
    var cursor: nat

    constructor (img: Image)
      ensures this.img == img && cursor == 0
    {
      this.img := img;
      cursor := 0;
    }

    /** Yields the head of the remaining list and keeps its tail. */
    method Next() returns (r: Option<nat>)
      modifies this
      ensures PageList(img, old(cursor)) == (if r.Some? then [r.value] else []) + PageList(img, cursor)
      ensures r.None? ==> PageList(img, old(cursor)) == []
      ensures r.None? ==> forall i :: old(cursor) <= i < img.appPages ==> !MustWrite(img, i)
      ensures r.Some? ==> old(cursor) <= r.value < img.appPages && cursor == r.value + 1 && MustWrite(img, r.value)
      ensures r.Some? ==> forall i :: old(cursor) <= i < r.value ==> !MustWrite(img, i)
    {
      while cursor < img.appPages
        invariant old(cursor) <= cursor
        invariant PageList(img, cursor) == PageList(img, old(cursor))
        invariant forall i :: old(cursor) <= i < cursor ==> !MustWrite(img, i)
      {
        hide MustWrite;
        var index := cursor;
        cursor := cursor + 1;
        if MustWrite(img, index) {
          return Some(index);
        }
        assert PageList(img, index) == [] + PageList(img, cursor);
      }
      return None;
    }
  }

  // ---- flash during the write phase ----

  /** Rendered up to octet `limit`, erased beyond: flash while an ascending update is under way. */
  ghost function Upto(img: Image, limit: nat): (s: seq<byte>)
    requires img.Fits() && limit <= Region(img)
    ensures |s| == Region(img)
    ensures forall i :: 0 <= i < |s| ==> s[i] == if i < limit then Render(img)[i] else BLANK
  {
    Render(img)[..limit] + Fill(Region(img) - limit)
  }

  lemma UptoEnds(img: Image)
    requires img.Fits()
    ensures Upto(img, 0) == Fill(Region(img))
    ensures Upto(img, Region(img)) == Render(img)
  {
    hide Render, Region;
  }

  /** A prefix of page `index`, written over flash that holds all earlier pages, is again such a state. */
  lemma WritePrefix(img: Image, index: nat, count: nat)
    requires img.Fits() && index < img.appPages && count <= img.pageSize
    ensures Overlay(Upto(img, Start(img, index)), Start(img, index), PageOf(img, index)[..count])
         == Upto(img, Start(img, index) + count)
  {
    hide Render, Region, Start, Image.Fits, Overlay, Fill;
    var a := Start(img, index);
    SliceOfSlice(Render(img), a, a + img.pageSize, 0, count);
    assert PageOf(img, index)[..count] == PageOf(img, index)[0..count];
    GrowPrefix(Render(img), a, count);
  }

  /** Writing it again, where the whole page is already present, changes nothing. */
  lemma RewritePrefix(img: Image, index: nat, count: nat)
    requires img.Fits() && index < img.appPages && count <= img.pageSize
    ensures Overlay(Upto(img, Start(img, index + 1)), Start(img, index), PageOf(img, index)[..count])
         == Upto(img, Start(img, index + 1))
  {
    hide Render, Region, Start, Image.Fits, Overlay, Fill;
    var a := Start(img, index);
    NextStart(img, index);
    SliceOfSlice(Render(img), a, a + img.pageSize, 0, count);
    assert PageOf(img, index)[..count] == PageOf(img, index)[0..count];
    RegrowPrefix(Render(img), a, count, Start(img, index + 1));
  }

  /** Pages that need no write are already right. */
  lemma SkipBlank(img: Image, index: nat)
    requires img.Fits() && index < img.appPages && !MustWrite(img, index)
    ensures Upto(img, Start(img, index)) == Upto(img, Start(img, index + 1))
  {
    MustWriteIffNotBlank(img, index);
    NextStart(img, index);
    hide Render, MustWrite, Region, Start;
    var a, b := Upto(img, Start(img, index)), Upto(img, Start(img, index + 1));
    forall i | 0 <= i < |a|
      ensures a[i] == b[i]
    {
      if Start(img, index) <= i < Start(img, index + 1) {
        assert Render(img)[i] == PageOf(img, index)[i - Start(img, index)] == BLANK;
      }
    }
  }
}
