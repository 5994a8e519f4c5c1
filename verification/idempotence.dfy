/** Every command may be repeated: what makes the host's retries safe. */
module Idempotence {
  import opened Bytes
  import opened Frames
  import opened Geometry
  import opened Device
  import opened Install
  import Holdback

  /** An erase with the power on, as a whole. */
  lemma {:induction false} EraseWhole(d: Dev, page: nat)
    requires d.Valid() && page <= d.info.appPages && !d.dead && d.cutAt == 0
    ensures var d1 := EraseFrom(d, page);
            d1 == d.(flash := d1.flash, under := d1.under, ops := d.ops + d.info.appPages - page)
    decreases d.info.appPages - page
  {
    hide PageAt, Overlay, Holdback.Erase, Holdback.TornErase, Holdback.View;
    if page < d.info.appPages {
      EraseWhole(EraseOp(d, page), page + 1);
    }
  }

  lemma EraseTwice(d: Dev)
    requires d.Valid() && !d.dead && d.cutAt == 0
    ensures var blank := Fill(|d.flash|);
            EraseFrom(d, 0) == d.(flash := blank, ops := d.ops + d.info.appPages,
                                  under := if d.under.None? then None else Some(Holdback.Chip(blank, None)))
  {
    hide EraseFrom;
    EraseWhole(d, 0);
    EraseCompletes(d);
  }

  lemma ReadTwice(d: Dev)
    requires d.Valid() && !d.dead && d.cutAt == 0
    ensures var d1 := ReadOp(d);
            ReadOp(d1) == d1 && !d1.dead && d1.flash == d.flash && d1.cutAt == 0
  {
    hide Holdback.Flush, Holdback.TornBy, Holdback.View;
    if d.under.Some? {
      Holdback.FlushIsInvisible(d.under.value, d.info.appPages);
    }
  }

  lemma WriteTwice(d: Dev, page: nat, data: seq<byte>)
    requires d.Valid() && page < d.info.appPages && |data| == d.info.pageSize && !d.dead && d.cutAt == 0
    ensures var d1 := FlashOp(d, page, data);
            FlashOp(d1, page, data) == d1.(ops := d1.ops + 1) && d1.erased == d.erased
  {
    hide PageAt, Holdback.Write, Holdback.TornBy, Holdback.View;
    if d.under.Some? {
      Holdback.WriteTwice(d.under.value, d.info.appPages, page, data);
    }
  }

  lemma BootTwice(d: Dev)
    requires d.Valid() && !d.dead && d.cutAt == 0
    ensures HandleBoot(HandleBoot(d).0) == HandleBoot(d)
  {
    hide GateAccepts, Holdback.Flush, Holdback.TornBy, Holdback.View;
    ReadTwice(d);
  }

  lemma EraseRepeats(d: Dev, payload: seq<byte>)
    requires d.Valid() && !d.dead && d.cutAt == 0
    ensures var (d1, r1) := HandleErase(d, payload);
            var (d2, r2) := HandleErase(d1, payload);
            d2 == d1.(ops := d2.ops) && r2 == r1
  {
    hide EraseFrom;
    EraseTwice(d);
    EraseTwice(EraseFrom(d, 0).(erased := true));
  }

  lemma WriteRepeats(d: Dev, payload: seq<byte>)
    requires d.Valid() && !d.dead && d.cutAt == 0
    ensures var (d1, r1) := HandleWrite(d, payload);
            var (d2, r2) := HandleWrite(d1, payload);
            d2 == d1.(ops := d2.ops) && r2 == r1
  {
    hide FlashOp, FromLe16;
    if HandleWrite(d, payload).1 == ST_OK {
      WriteTwice(d, FromLe16(payload[..2]), payload[2..]);
    }
  }

  /** INFO and VERIFY are answered from the port's data and from what flash reads as. */
  lemma AnsweredAlike(d: Dev, d1: Dev, payload: seq<byte>, cap: nat)
    requires d.Valid() && d1.Valid() && d1.info == d.info && d1.flash == d.flash
    ensures HandleInfo(d1, cap) == HandleInfo(d, cap)
    ensures HandleVerify(d1, payload) == HandleVerify(d, payload)
    ensures VerifyReads(d1, payload) == VerifyReads(d, payload)
  {
    hide GateAccepts;
  }

  /** Executing any request again, with power holding, changes nothing but the count of flash
      operations, and is answered alike. */
  lemma EveryCommandRepeats(d: Dev, f: Frame, cap: nat)
    requires d.Valid() && !d.dead && d.cutAt == 0
    ensures var (d1, r1) := Handle(d, f, cap);
            var (d2, r2) := Handle(d1, f, cap);
            d2 == d1.(ops := d2.ops) && r2 == r1
  {
    hide HandleEcho, ReadOp, HandleBoot, HandleErase, HandleWrite, HandleInfo, HandleVerify, VerifyReads;
    hide Dev.Valid;
    ReadTwice(d);
    AnsweredAlike(d, ReadOp(d), f.payload, cap);
    BootTwice(d);
    EraseRepeats(d, f.payload);
    WriteRepeats(d, f.payload);
  }
}
