/** What the boot gate means: it accepts footers of their own prefix, it tells an installed image
    from every state an update passes through, and it sees small corruption anywhere in the image. */
module Gate {
  import opened Bytes
  import opened Frames
  import opened Images
  import opened Device
  import Crc32

  /** The twelve octets the gate reads, for a prefix of `len` octets. */
  function FooterOf(flash: seq<byte>, len: nat): seq<byte>
    requires len <= |flash| < 0x1_0000_0000
  {
    FOOTER_MAGIC + Le32(len) + CrcField(Crc32.Crc32(flash[..len]))
  }

  /** The gate accepts exactly the regions whose footer describes a prefix of them. */
  lemma GateMeaning(flash: seq<byte>)
    requires FOOTER_LEN <= |flash| < 0x1_0000_0000
    ensures GateAccepts(flash) <==>
            exists len :: 0 <= len <= |flash| - FOOTER_LEN
                          && flash[|flash| - FOOTER_LEN..|flash| - 4] == FooterOf(flash, len)
  {
    hide Le32, FromLe32, CrcField, FromCrcField, Crc32.Crc32;
    var base := |flash| - FOOTER_LEN;
    var footer := flash[base..|flash| - 4];
    SliceOfSlice(flash, base, base + 12, 0, 4);
    SliceOfSlice(flash, base, base + 12, 4, 8);
    SliceOfSlice(flash, base, base + 12, 8, 12);
    assert footer[..4] == footer[0..4] && footer[8..] == footer[8..12];
    if GateAccepts(flash) {
      var len := FromLe32(footer[4..8]);
      Le32Inverse(footer[4..8]);
      CrcFieldRoundTrip(Crc32.Crc32(flash[..len]));
      FromCrcFieldInjective(footer[8..], CrcField(Crc32.Crc32(flash[..len])));
      assert footer == footer[..4] + footer[4..8] + footer[8..];
      assert footer == FooterOf(flash, len);
    }
    if len :| 0 <= len <= base && footer == FooterOf(flash, len) {
      assert footer[..4] == FOOTER_MAGIC && footer[4..8] == Le32(len)
          && footer[8..] == CrcField(Crc32.Crc32(flash[..len]));
      Le32RoundTrip(len);
      CrcFieldRoundTrip(Crc32.Crc32(flash[..len]));
    }
  }

  // ---- the gate during an update ----

  lemma FooterFields(img: Image)
    requires |img.data| < 0x1_0000_0000
    ensures var f := Footer(img);
            && f[..4] == FOOTER_MAGIC && f[4..8] == Le32(|img.data|) && f[8..12] == CrcField(img.crc)
            && f[12..] == Fill(4)
  {
    hide Le32, CrcField;
  }

  lemma FooterParts(img: Image)
    requires img.Fits()
    ensures var base, r := Region(img) - FOOTER_LEN, Render(img);
            && r[..|img.data|] == img.data
            && r[base..base + 4] == FOOTER_MAGIC
            && r[base + 4..base + 8] == Le32(|img.data|)
            && r[base + 8..base + 12] == CrcField(img.crc)
            && r[base + 12..] == Fill(4)
  {
    hide Region, Le32, CrcField, Footer, Image.Fits;
    var base, r, f := Region(img) - FOOTER_LEN, Render(img), Footer(img);
    FooterFields(img);
    assert r[base..] == f && r[..|img.data|] == img.data;
    hide Render;
    assert r[base..base + 4] == r[base..][..4];
    assert r[base + 4..base + 8] == r[base..][4..8];
    assert r[base + 8..base + 12] == r[base..][8..12];
    assert r[base + 12..] == r[base..][12..];
  }

  lemma InstalledIsAccepted(img: Image)
    requires img.Valid()
    ensures GateAccepts(Render(img))
  {
    hide Render, Region, Le32, FromLe32, CrcField, FromCrcField, Crc32.Crc32, Footer;
    FooterParts(img);
    Le32RoundTrip(|img.data|);
    CrcFieldRoundTrip(img.crc);
  }

  /** Every state an ascending update can stop in, with any prefix of the page being written: the
      gate accepts it exactly when the whole image is there. No property of the CRC is used. */
  lemma GateIffInstalled(img: Image, limit: nat)
    requires img.Valid() && limit <= Region(img)
    ensures GateAccepts(Upto(img, limit)) <==> Upto(img, limit) == Render(img)
  {
    hide Render, Region, Le32, FromLe32, CrcField, FromCrcField, Crc32.Crc32, Footer;
    InstalledIsAccepted(img);
    var f, r := Upto(img, limit), Render(img);
    var base := Region(img) - FOOTER_LEN;
    if GateAccepts(f) {
      FooterParts(img);
      // the last octet of the magic is not blank, so the magic has been written
      assert f[base + 3] == f[base..base + 4][3] == 0x55;
      // a blank top octet would make the length exceed any region
      assert f[base + 7] == f[base + 4..base + 8][3];
      assert limit >= base + 8;
      assert f[base + 4..base + 8] == r[base + 4..base + 8];
      Le32RoundTrip(|img.data|);
      assert f[..|img.data|] == img.data by { assert f[..|img.data|] == r[..|img.data|]; }
      // so the gate compares the CRC field with the CRC of the very image, and what is still
      // blank of that field is blank in the image too
      CrcFieldRoundTrip(img.crc);
      FromCrcFieldInjective(f[base + 8..base + 12], r[base + 8..base + 12]);
      TailIsBlank(f, r, base, limit);
    }
  }

  /** `f` is `r` up to `limit` and blank from there; so is `r` behind the twelve octets at `base`. */
  lemma TailIsBlank(f: seq<byte>, r: seq<byte>, base: nat, limit: nat)
    requires |f| == |r| == base + FOOTER_LEN && base + 8 <= limit
    requires forall i :: 0 <= i < |f| ==> f[i] == if i < limit then r[i] else BLANK
    requires f[base + 8..base + 12] == r[base + 8..base + 12] && r[base + 12..] == Fill(4)
    ensures f == r
  {
    forall i | 0 <= i < |f|
      ensures f[i] == r[i]
    {
      if i >= base + 12 {
        assert r[i] == r[base + 12..][i - base - 12];
      } else if i >= base + 8 {
        assert f[i] == f[base + 8..base + 12][i - base - 8];
        assert r[i] == r[base + 8..base + 12][i - base - 8];
      }
    }
  }

  // ---- corruption ----

  /** `t` is `s` with a change that lies within four consecutive octets before `len`. */
  predicate BurstBefore(s: seq<byte>, t: seq<byte>, at: nat, len: nat) {
    && |s| == |t| && at < len <= |s| && s != t
    && s[..at] == t[..at]
    && var end := Min(at + 4, len);
       s[end..] == t[end..]
  }

  lemma BurstChangesCrc(s: seq<byte>, t: seq<byte>, at: nat, len: nat)
    requires BurstBefore(s, t, at, len)
    ensures Crc32.Crc32(s[..len]) != Crc32.Crc32(t[..len])
  {
    hide Crc32.Crc32;
    var end := Min(at + 4, len);
    Rejoin(s, at, end);
    Rejoin(t, at, end);
    Crc32.BurstDetected(s[..at], s[at..end], t[at..end], s[end..len]);
    assert s[end..len] == s[end..][..len - end] == t[end..][..len - end] == t[end..len];
    assert s[..len] == s[..at] + s[at..end] + s[end..len] && t[..len] == t[..at] + t[at..end] + t[end..len];
  }

  lemma Fields(s: seq<byte>, base: nat)
    requires base + FOOTER_LEN == |s|
    ensures s[base + 4..base + 8] == s[base..][4..8] == s[base + 4..base + 12][..4]
    ensures s[base + 8..base + 12] == s[base..][8..12] == s[base + 4..base + 12][4..]
  {
  }

  /** A corruption of an accepted image confined to four consecutive octets of its payload is refused
      by the gate, and VERIFY reports it, for every image and every length. */
  lemma CorruptionRefused(d: Dev, d': Dev, at: nat)
    requires d.Valid() && d'.Valid() && d.info == d'.info && GateAccepts(d.flash)
    requires var base := |d.flash| - FOOTER_LEN;
             BurstBefore(d.flash, d'.flash, at, FromLe32(d.flash[base + 4..base + 8]))
    ensures !GateAccepts(d'.flash)
    ensures var base := |d.flash| - FOOTER_LEN;
            HandleVerify(d', d.flash[base + 4..base + 12]) == ST_BAD_CRC
            && HandleVerify(d, d.flash[base + 4..base + 12]) == ST_OK
  {
    hide FromLe32, FromCrcField, Crc32.Crc32;
    var s, t, base := d.flash, d'.flash, |d.flash| - FOOTER_LEN;
    var len := FromLe32(s[base + 4..base + 8]);
    BurstChangesCrc(s, t, at, len);
    var end := Min(at + 4, len);
    assert s[base..] == s[end..][base - end..] == t[end..][base - end..] == t[base..];
    Fields(s, base);
    Fields(t, base);
  }
}
