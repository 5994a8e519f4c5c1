/** How often the RP2350's flash is erased and programmed in an update. */
module Wear {
  import opened Bytes
  import opened Holdback

  // ---- erasing ----

  /** The sectors erased by the core's loop over the first `count` pages, in order. */
  function EraseLoop(count: nat): seq<nat>
    decreases count
  {
    if count == 0 then [] else EraseLoop(count - 1) + SectorsErased(count - 1)
  }

  /** Erasing a region page by page erases each of its sectors once, in ascending order. */
  lemma {:induction false} EachSectorOnce(count: nat)
    ensures |EraseLoop(count)| == (count + 31) / 32
    ensures forall k :: 0 <= k < |EraseLoop(count)| ==> EraseLoop(count)[k] == 32 * k
    decreases count
  {
    if count > 0 {
      EachSectorOnce(count - 1);
    }
  }

  /** One call erases the whole sector that starts at its page, and nothing if none does. */
  lemma EraseAt(c: Chip, appPages: nat, page: nat, i: nat)
    requires c.Valid(appPages) && page < appPages && i < |c.nor|
    ensures Erase(c, appPages, page).nor[i] ==
            if page % 32 == 0 && 128 * page <= i < 128 * page + 4096 then 0xFF else c.nor[i]
    ensures Erase(c, appPages, page).hold == None
  {
  }

  // ---- programming ----

  /** Every page of `pages` written once, in ascending order. */
  function WriteLoop(c: Chip, appPages: nat, pages: seq<seq<byte>>, count: nat): (r: (Chip, seq<Program>))
    requires c.Valid(appPages) && count <= |pages| <= appPages && forall k :: 0 <= k < |pages| ==> |pages[k]| == PAGE
    ensures r.0.Valid(appPages)
    decreases count
  {
    if count == 0 then (c, [])
    else
      var (c1, done) := WriteLoop(c, appPages, pages, count - 1);
      (Write(c1, appPages, count - 1, pages[count - 1]), done + WritePrograms(c1, count - 1, pages[count - 1]))
  }

  /** An even page is held if nothing is; its partner then goes to flash with it. */
  lemma NextPage(c: Chip, appPages: nat, page: nat, data: seq<byte>)
    requires c.Valid(appPages) && page < appPages && |data| == PAGE
    requires page % 2 == 0 ==> c.hold.None?
    requires page % 2 == 1 ==> c.hold.Some? && c.hold.value.page == page - 1
    ensures page % 2 == 0 ==> Write(c, appPages, page, data).hold == Some(Held(page, data))
                              && WritePrograms(c, page, data) == []
    ensures page % 2 == 1 ==> Write(c, appPages, page, data).hold == None
                              && WritePrograms(c, page, data) == [Program(128 * (page - 1), c.hold.value.data + data)]
  {
    hide Apply;
  }

  /** The units made of these pages, one program each. */
  predicate Paired(programs: seq<Program>, pages: seq<seq<byte>>, count: nat) {
    && |programs| == count <= |pages| / 2
    && forall u :: 0 <= u < count ==> programs[u] == Program(256 * u, pages[2 * u] + pages[2 * u + 1])
  }

  lemma PairedOnce(programs: seq<Program>, pages: seq<seq<byte>>, count: nat)
    requires Paired(programs, pages, count) && 2 * count + 2 <= |pages|
    ensures Paired(programs + [Program(256 * count, pages[2 * count] + pages[2 * count + 1])], pages, count + 1)
  {
  }

  /** An ascending update programs each unit of 256 octets exactly once, with both its pages; only the
      last page of an odd number of them is held. */
  lemma {:induction false} EachUnitOnce(c: Chip, appPages: nat, pages: seq<seq<byte>>, count: nat)
    requires c.Valid(appPages) && c.hold.None?
    requires count <= |pages| <= appPages && forall k :: 0 <= k < |pages| ==> |pages[k]| == PAGE
    ensures var (c1, programs) := WriteLoop(c, appPages, pages, count);
            && Paired(programs, pages, count / 2)
            && c1.hold == if count % 2 == 0 then None else Some(Held(count - 1, pages[count - 1]))
    decreases count
  {
    hide Write, WritePrograms;
    if count == 0 {
      assert Paired([], pages, 0);
    } else {
      hide Paired;
      EachUnitOnce(c, appPages, pages, count - 1);
      var (c1, programs) := WriteLoop(c, appPages, pages, count - 1);
      NextPage(c1, appPages, count - 1, pages[count - 1]);
      if count % 2 == 0 {
        PairedOnce(programs, pages, count / 2 - 1);
      } else {
        assert programs + [] == programs;
      }
    }
  }

  /** A held page that is written again, as the host's retry does, programs nothing. */
  lemma RetryOfHeld(c: Chip, appPages: nat, data: seq<byte>)
    requires c.Valid(appPages) && c.hold.Some? && |data| == PAGE
    ensures WritePrograms(c, c.hold.value.page, data) == []
    ensures Write(c, appPages, c.hold.value.page, data) == Chip(c.nor, Some(Held(c.hold.value.page, data)))
  {
  }

  /** Whatever else comes first makes the held page permanent: a write elsewhere or a read programs it, with
      0xFF for its partner. */
  lemma HeldIsFlushed(c: Chip, appPages: nat, page: nat, data: seq<byte>)
    requires c.Valid(appPages) && c.hold.Some? && page < appPages && |data| == PAGE
    requires page != c.hold.value.page && page != c.hold.value.page + 1
    ensures var first := Program(128 * c.hold.value.page, c.hold.value.data + Fill(128));
            && FlushPrograms(c) == [first]
            && WritePrograms(c, page, data)
               == if page % 2 == 0 then [first] else [first, Program(128 * (page - 1), Fill(128) + data)]
  {
  }
}
