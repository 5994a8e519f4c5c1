/** How an exchange ends: a reply the device gave is final, a lost one is tried again. */
module Exchanges {
  import opened Bytes
  import opened Frames
  import opened Device
  import opened Session
  import opened Install

  // ---- what the host takes a reply for ----

  /** The receive window holds a reply with status `st` to the command behind `want`, and filler. */
  ghost predicate Says(raw: seq<byte>, want: byte, st: byte) {
    exists rest: seq<byte>, n: nat :: IsReply(raw, want, st, rest, n)
  }

  predicate IsReply(raw: seq<byte>, want: byte, st: byte, rest: seq<byte>, n: nat) {
    |rest| < PAYLOAD_MAX && raw == Encoded(Frame(want, [st] + rest)) + Fill(n)
  }

  /** The verdict is the status of the reply that is there; anything else is mangled. */
  lemma ValidateMeaning(raw: seq<byte>, want: byte, st: byte)
    ensures Says(raw, want, st) <==>
            Validate(raw, want) == if st == 0x00 then Accepted else if st == 0x01 then DeviceBadFrame else Fatal(st)
  {
    hide Encoded, DecodePadded;
    if Says(raw, want, st) {
      var rest: seq<byte>, n: nat :| IsReply(raw, want, st, rest, n);
      var g := Frame(want, [st] + rest);
      assert raw == Encoded(g) + Fill(|raw| - |Encoded(g)|);
      PaddedAcceptsFiller(raw, g);
    }
    var decoded := DecodePadded(raw);
    if decoded.Ok? && decoded.value.cmd == want && decoded.value.payload != [] && decoded.value.payload[0] == st {
      var g := decoded.value;
      PaddedAcceptsFiller(raw, g);
      assert g == Frame(want, [st] + g.payload[1..]);
      assert IsReply(raw, want, st, g.payload[1..], |raw| - |Encoded(g)|);
    }
  }

  /** An attempt that leads to another one: nothing came back, or nothing usable, or the device could not
      read the request. */
  predicate Lost(received: Result<seq<byte>>, want: byte) {
    received.Ok? ==> var v := Validate(received.value, want); v.Mangled? || v.DeviceBadFrame?
  }

  /** What the host then makes of it. */
  function Why(received: Result<seq<byte>>, want: byte): Error {
    if received.Err? then received.error
    else if Validate(received.value, want).Mangled? then BadFrame
    else Error.Device(0x01)
  }

  // ---- attempt by attempt ----

  /** The world after `i` transmissions of the same request, and what comes back from the next. */
  function After(sch: Schedule, w: World, tx: seq<byte>, cap: nat, i: nat): (w1: World)
    requires w.dev.Valid()
    ensures w1.dev.Valid() && w1.sent == w.sent + i
    decreases i
  {
    if i == 0 then w else After(sch, Transmit(sch, w, tx, cap).0, tx, cap, i - 1)
  }

  function Received(sch: Schedule, w: World, tx: seq<byte>, cap: nat, i: nat): Result<seq<byte>>
    requires w.dev.Valid()
  {
    Transmit(sch, After(sch, w, tx, cap, i), tx, cap).1
  }

  /** The first `i` attempts are lost. */
  predicate LostBefore(sch: Schedule, w: World, tx: seq<byte>, cap: nat, want: byte, i: nat)
    requires w.dev.Valid()
  {
    forall j :: 0 <= j < i ==> Lost(Received(sch, w, tx, cap, j), want)
  }

  lemma OneOn(sch: Schedule, w: World, tx: seq<byte>, cap: nat, i: nat)
    requires w.dev.Valid()
    ensures var w1 := Transmit(sch, w, tx, cap).0;
            && After(sch, w, tx, cap, i + 1) == After(sch, w1, tx, cap, i)
            && Received(sch, w, tx, cap, i + 1) == Received(sch, w1, tx, cap, i)
            && Received(sch, w, tx, cap, 0) == Transmit(sch, w, tx, cap).1
  {
    hide Transmit;
  }

  /** The first answer the device gave, in whichever attempt, is the last request sent: its status is the
      error, unless it is ST_OK. */
  lemma {:induction false} AnswerIsFinal(
    sch: Schedule, w: World, tx: seq<byte>, cap: nat, want: byte, tries: nat, last: Error, i: nat)
    requires w.dev.Valid() && i < tries && !Lost(Received(sch, w, tx, cap, i), want)
    requires LostBefore(sch, w, tx, cap, want, i)
    ensures var raw := Received(sch, w, tx, cap, i);
            Exchange(sch, w, tx, cap, want, tries, last) ==
            (After(sch, w, tx, cap, i + 1),
             match Validate(raw.value, want)
             case Accepted => raw
             case Fatal(st) => Err(Error.Device(st)))
    decreases tries
  {
    hide Transmit, Received, Validate;
    var (w1, received) := Transmit(sch, w, tx, cap);
    OneOn(sch, w, tx, cap, 0);
    assert After(sch, w1, tx, cap, 0) == w1;
    if i > 0 {
      OneOn(sch, w, tx, cap, i - 1);
      OneOn(sch, w, tx, cap, i);
      forall j | 0 <= j < i - 1
        ensures Lost(Received(sch, w1, tx, cap, j), want)
      {
        OneOn(sch, w, tx, cap, j);
        assert Lost(Received(sch, w, tx, cap, j + 1), want);
      }
      assert Lost(Received(sch, w, tx, cap, 0), want);
      AnswerIsFinal(sch, w1, tx, cap, want, tries - 1, Why(received, want), i - 1);
    }
  }

  /** When every attempt is lost, all of them are made, and the error is the last one's own. */
  lemma {:induction false} AllAttemptsLost(
    sch: Schedule, w: World, tx: seq<byte>, cap: nat, want: byte, tries: nat, last: Error)
    requires w.dev.Valid() && tries > 0
    requires LostBefore(sch, w, tx, cap, want, tries)
    ensures Exchange(sch, w, tx, cap, want, tries, last)
         == (After(sch, w, tx, cap, tries), Err(Why(Received(sch, w, tx, cap, tries - 1), want)))
    decreases tries
  {
    hide Transmit, Received, Validate;
    var (w1, received) := Transmit(sch, w, tx, cap);
    OneOn(sch, w, tx, cap, 0);
    assert After(sch, w1, tx, cap, 0) == w1;
    assert Lost(Received(sch, w, tx, cap, 0), want);
    if tries > 1 {
      OneOn(sch, w, tx, cap, tries - 1);
      OneOn(sch, w, tx, cap, tries - 2);
      forall j | 0 <= j < tries - 1
        ensures Lost(Received(sch, w1, tx, cap, j), want)
      {
        OneOn(sch, w, tx, cap, j);
        assert Lost(Received(sch, w, tx, cap, j + 1), want);
      }
      AllAttemptsLost(sch, w1, tx, cap, want, tries - 1, Why(received, want));
    }
  }

  /** A whole transaction that the device answers, in attempt `i` of four at most: no request after that,
      and the payload behind the status, or that status. */
  lemma TransactAnswered(sch: Schedule, w: World, room: nat, f: Frame, cap: nat, i: nat)
    requires w.dev.Valid() && Encodable(f) && room >= |f.payload| + cap + 6 && i < 4
    requires !Lost(Received(sch, w, Encoded(f), cap + 3, i), Response(f.cmd))
    requires LostBefore(sch, w, Encoded(f), cap + 3, Response(f.cmd), i)
    ensures var raw := Received(sch, w, Encoded(f), cap + 3, i);
            Transact(sch, w, room, f, cap) ==
            (After(sch, w, Encoded(f), cap + 3, i + 1),
             match Validate(raw.value, Response(f.cmd))
             case Accepted => Ok(DecodePadded(raw.value).value.payload[1..])
             case Fatal(st) => Err(Error.Device(st)))
  {
    hide Exchange, Encoded, Received, Validate, After, Response;
    AnswerIsFinal(sch, w, Encoded(f), cap + 3, Response(f.cmd), 4, BadFrame, i);
  }

  /** One that it never answers: four requests, and the last one's error. */
  lemma TransactLost(sch: Schedule, w: World, room: nat, f: Frame, cap: nat)
    requires w.dev.Valid() && Encodable(f) && room >= |f.payload| + cap + 6
    requires LostBefore(sch, w, Encoded(f), cap + 3, Response(f.cmd), 4)
    ensures Transact(sch, w, room, f, cap)
         == (After(sch, w, Encoded(f), cap + 3, 4), Err(Why(Received(sch, w, Encoded(f), cap + 3, 3), Response(f.cmd))))
  {
    hide Exchange, Encoded, Received, Validate, After, Response;
    AllAttemptsLost(sch, w, Encoded(f), cap + 3, Response(f.cmd), 4, BadFrame);
  }

  /** Without room for both windows nothing is sent. */
  lemma TransactNeedsRoom(sch: Schedule, w: World, room: nat, f: Frame, cap: nat)
    requires w.dev.Valid() && room < |f.payload| + cap + 6
    ensures Transact(sch, w, room, f, cap) == (w, Err(BufferTooSmall(|f.payload| + cap + 6)))
  {
  }

  // ---- what the device refuses ----

  /** A status the device returns over a clean wire is the error, after that one request. */
  lemma RefusedOnce(sch: Schedule, w: World, room: nat, f: Frame, cap: nat)
    requires w.dev.Valid() && Encodable(f) && room >= |f.payload| + cap + 6
    requires sch(w.sent).request.Arrives? && sch(w.sent).reply.Returns?
    requires var d := Power(w.dev, sch(w.sent));
             var (d1, payload) := Handle(d, f, RSP_CAP);
             !d.Silent() && !d1.dead && |payload| <= cap && payload[0] != ST_OK && payload[0] != ST_BAD_FRAME
    ensures var r := Transact(sch, w, room, f, cap);
            r.1 == Err(Error.Device(Handle(Power(w.dev, sch(w.sent)), f, RSP_CAP).1[0])) && r.0.sent == w.sent + 1
  {
    hide Handle, Power, Encoded, DecodePadded, IsFrame, Parse, AfterReply, Exchange, Response;
    var payload := Handle(Power(w.dev, sch(w.sent)), f, RSP_CAP).1;
    ParseInvertsEncoded(f);
    ReplyDecodes(Frame(Response(f.cmd), payload), sch(w.sent).reply.filler, cap + 3);
    assert Received(sch, w, Encoded(f), cap + 3, 0) == Transmit(sch, w, Encoded(f), cap + 3).1;
    TransactAnswered(sch, w, room, f, cap, 0);
  }

  /** BOOT of a device without a valid image, over a clean wire: one request, and NO_APP. */
  lemma NoAppIsFinal(sch: Schedule, w: World, room: nat)
    requires w.dev.Valid() && room >= 7 && sch(w.sent).request.Arrives? && sch(w.sent).reply.Returns?
    requires var d := Power(w.dev, sch(w.sent));
             !d.Silent() && !ReadOp(d).dead && !GateAccepts(d.flash)
    ensures Boot(sch, w, room).1 == Err(Error.Device(0x07)) && Boot(sch, w, room).0.sent == w.sent + 1
  {
    hide GateAccepts, Power, ReadOp, Transact;
    RefusedOnce(sch, w, room, Frame(CMD_BOOT, []), 1);
  }
}
