/** What the main loops owe: an application is started as soon as it may be, and every frame is answered. */
module LoopProgress {
  import opened Bytes
  import opened Frames
  import opened Device
  import opened Progress
  import Holdback
  import MainLoop
  import Stream
  import Twi
  import TwiLoop

  // ---- the device, with power holding ----

  lemma {:induction false} EraseHolds(d: Dev, page: nat)
    requires Steady(d) && page <= d.info.appPages
    ensures Steady(EraseFrom(d, page))
    decreases d.info.appPages - page
  {
    hide EraseOp;
    if page < d.info.appPages {
      EraseStaysSteady(d, page);
      EraseHolds(EraseOp(d, page), page + 1);
    }
  }

  /** A request leaves a steady device steady, but for the jump that an accepted BOOT asks for; and BOOT
      is accepted exactly through the gate. */
  lemma HandleHolds(d: Dev, f: Frame, cap: nat)
    requires Steady(d) && cap > 0
    ensures var (d1, payload) := Handle(d, f, cap);
            && Steady(d1.(bootPending := false))
            && (d1.bootPending <==> f.cmd == CMD_BOOT && GateAccepts(d.flash))
            && (f.cmd == CMD_BOOT ==> d1.flash == d.flash && (payload == [ST_OK] <==> GateAccepts(d.flash)))
  {
    hide GateAccepts, ReadOp, EraseFrom, FlashOp, HandleInfo, HandleVerify, HandleEcho, FromLe16, VerifyReads;
    ReadStaysSteady(d);
    EraseHolds(d, 0);
    if f.cmd == CMD_WRITE_PAGE && HandleWrite(d, f.payload).1 == ST_OK {
      WriteStaysSteady(d, FromLe16(f.payload[..2]), f.payload[2..]);
    }
  }

  /** An attempt to boot is taken exactly through the gate. */
  lemma BootHolds(d: Dev)
    requires Steady(d)
    ensures var d1 := BootIfValid(d);
            && !d1.dead && (d1.jumped <==> GateAccepts(d.flash)) && (!d1.jumped ==> Steady(d1))
  {
    hide GateAccepts, ReadOp;
    ReadStaysSteady(d);
  }

  // ---- the UART loop ----

  predicate NoFrames(inputs: seq<MainLoop.Input>) {
    forall k :: 0 <= k < |inputs| ==> inputs[k].polled.None?
  }

  /** The tick is seen past the entry window. */
  predicate Expires(inputs: seq<MainLoop.Input>) {
    exists k :: 0 <= k < |inputs| && inputs[k].ms >= 300
  }

  /** One lap without a frame. */
  lemma QuietLap(l: MainLoop.Loop, i: MainLoop.Input)
    requires Steady(l.dev) && i.polled.None?
    ensures var l1 := MainLoop.Lap(l, i);
            if l.resident || i.ms < 300 then l1.dev == l.dev && l1.resident == l.resident
            else (l1.dev.jumped <==> GateAccepts(l.dev.flash)) && (!l1.dev.jumped ==> Steady(l1.dev) && l1.resident)
  {
    hide GateAccepts, BootIfValid;
    BootHolds(l.dev);
  }

  lemma {:induction false} SilentRun(l: MainLoop.Loop, inputs: seq<MainLoop.Input>)
    requires l.dev.Valid() && l.dev.Silent()
    ensures MainLoop.Run(l, inputs) == l
    decreases inputs
  {
    if inputs != [] {
      SilentRun(l, inputs[1..]);
    }
  }

  lemma {:induction false} ResidentRun(l: MainLoop.Loop, inputs: seq<MainLoop.Input>)
    requires Steady(l.dev) && l.resident && NoFrames(inputs)
    ensures MainLoop.Run(l, inputs).dev == l.dev
    decreases inputs
  {
    hide MainLoop.Lap;
    if inputs != [] {
      QuietLap(l, inputs[0]);
      assert inputs == [inputs[0]] + inputs[1..];
      ResidentRun(MainLoop.Lap(l, inputs[0]), inputs[1..]);
    }
  }

  lemma {:induction false} WindowRun(l: MainLoop.Loop, inputs: seq<MainLoop.Input>)
    requires Steady(l.dev) && !l.resident && NoFrames(inputs)
    ensures MainLoop.Run(l, inputs).dev.jumped <==> Expires(inputs) && GateAccepts(l.dev.flash)
    decreases inputs
  {
    hide MainLoop.Lap, GateAccepts;
    if inputs != [] {
      var i, rest := inputs[0], inputs[1..];
      assert forall k :: 0 <= k < |rest| ==> rest[k] == inputs[k + 1];
      assert Expires(inputs) <==> i.ms >= 300 || Expires(rest) by {
        assert forall k :: 0 < k < |inputs| ==> inputs[k] == rest[k - 1];
      }
      var l1 := MainLoop.Lap(l, i);
      QuietLap(l, i);
      if i.ms < 300 {
        WindowRun(l1, rest);
      } else if l1.dev.jumped {
        SilentRun(l1, rest);
      } else {
        ResidentRun(l1, rest);
      }
    }
  }

  /** From a reset without an entry request, on a line that stays quiet and with power holding, the
      application is started exactly if it is valid and the entry window runs out; with a request it is
      not. Over either kind of flash port. */
  lemma WindowStarts(d: Dev, entry: bool, inputs: seq<MainLoop.Input>)
    requires Steady(d) && NoFrames(inputs)
    ensures var l := MainLoop.Run(MainLoop.Loop(d, entry, MainLoop.Line([], []), []), inputs);
            l.dev.jumped <==> !entry && Expires(inputs) && GateAccepts(d.flash)
  {
    hide GateAccepts;
    var l := MainLoop.Loop(d, entry, MainLoop.Line([], []), []);
    if entry {
      ResidentRun(l, inputs);
    } else {
      WindowRun(l, inputs);
    }
  }

  /** Every frame the link completes is answered, with power holding, in the lap it comes: sync, command
      with the reply flag, and what the handler says go to the transmitter behind everything before; and
      the lap ends with a jump exactly if the frame is a BOOT and the gate accepts. */
  lemma FrameServed(l: MainLoop.Loop, i: MainLoop.Input)
    requires Steady(l.dev) && i.polled.Some?
    ensures var f, l1 := i.polled.value, MainLoop.Lap(l, i);
            var reply := Encoded(Frame(Response(f.cmd), Handle(l.dev, f, 17).1));
            && l.trace + [MainLoop.Served(f.cmd), MainLoop.Sent(reply)] <= l1.trace
            && l1.line.sent + l1.line.queued == l.line.sent + l.line.queued + [0x7E] + reply
            && l1.resident
            && (l1.dev.jumped <==> f.cmd == 0x05 && GateAccepts(l.dev.flash))
            && (!l1.dev.jumped ==> Steady(l1.dev))
  {
    hide GateAccepts, Handle, BootIfValid, MainLoop.Reply, Encoded;
    var f := i.polled.value;
    HandleHolds(l.dev, f, 17);
    ReplyIs(f, Handle(l.dev, f, 17).1);
    BootHolds(Handle(l.dev, f, 17).0.(bootPending := false));
    assert MainLoop.Lap(l, i).trace[..|l.trace| + 2] ==
           l.trace + [MainLoop.Served(f.cmd), MainLoop.Sent(MainLoop.Reply(f.cmd, Handle(l.dev, f, 17).1))];
  }

  lemma ReplyIs(f: Frame, payload: seq<byte>)
    requires |payload| <= 17
    ensures MainLoop.Reply(f.cmd, payload) == Encoded(Frame(Response(f.cmd), payload))
  {
  }

  // ---- the TWI loop ----

  predicate ExpiresTwi(inputs: seq<TwiLoop.Input>) {
    exists k :: 0 <= k < |inputs| && inputs[k].ms >= 300
  }

  /** No frame among these is valid. */
  predicate Invalid(frames: seq<seq<byte>>) {
    forall k :: 0 <= k < |frames| ==> Parse(frames[k]).None?
  }

  /** What the client hands over in this turn, if anything. */
  function Handed(l: TwiLoop.Loop, i: TwiLoop.Input): Option<seq<byte>> {
    Twi.Fetch(Twi.PollStep(l.port.c, i.e).client).1
  }

  lemma HandedIsDelivered(l: TwiLoop.Loop, i: TwiLoop.Input)
    requires l.dev.Valid() && !l.dev.Silent()
    ensures TwiLoop.Turn(l, i).port.delivered
         == l.port.delivered + if Handed(l, i).Some? then [Handed(l, i).value] else []
  {
    hide GateAccepts, BootIfValid, Handle, Parse, Twi.PollStep, TwiLoop.BadFrameReply, MainLoop.Reply;
  }

  lemma {:induction false} DeliveredGrows(l: TwiLoop.Loop, inputs: seq<TwiLoop.Input>)
    requires l.dev.Valid()
    ensures l.port.delivered <= TwiLoop.Turns(l, inputs).port.delivered
    decreases inputs
  {
    hide TwiLoop.Turn, Handed;
    if inputs != [] {
      if l.dev.Silent() {
        TwiLoop.SilentTurn(l, inputs[0]);
      } else {
        HandedIsDelivered(l, inputs[0]);
      }
      DeliveredGrows(TwiLoop.Turn(l, inputs[0]), inputs[1..]);
    }
  }

  /** One turn without a valid frame. */
  lemma QuietTurn(l: TwiLoop.Loop, i: TwiLoop.Input)
    requires Steady(l.dev) && (Handed(l, i).Some? ==> Parse(Handed(l, i).value).None?)
    ensures var l1 := TwiLoop.Turn(l, i);
            if l.resident || i.ms < 300 then l1.dev == l.dev && l1.resident == l.resident
            else (l1.dev.jumped <==> GateAccepts(l.dev.flash)) && (!l1.dev.jumped ==> Steady(l1.dev) && l1.resident)
  {
    hide GateAccepts, BootIfValid, Parse, Twi.PollStep, TwiLoop.BadFrameReply, Twi.Do;
    BootHolds(l.dev);
  }

  lemma {:induction false} SilentTurns(l: TwiLoop.Loop, inputs: seq<TwiLoop.Input>)
    requires l.dev.Valid() && l.dev.Silent()
    ensures TwiLoop.Turns(l, inputs) == l
    decreases inputs
  {
    if inputs != [] {
      SilentTurns(l, inputs[1..]);
    }
  }

  lemma NothingValid(l: TwiLoop.Loop, i: TwiLoop.Input, rest: seq<TwiLoop.Input>)
    requires Steady(l.dev) && Invalid(TwiLoop.Turns(TwiLoop.Turn(l, i), rest).port.delivered)
    ensures Handed(l, i).Some? ==> Parse(Handed(l, i).value).None?
  {
    hide TwiLoop.Turn, TwiLoop.Turns, Handed, Parse;
    HandedIsDelivered(l, i);
    DeliveredGrows(TwiLoop.Turn(l, i), rest);
    var all, n := TwiLoop.Turns(TwiLoop.Turn(l, i), rest).port.delivered, |l.port.delivered|;
    if Handed(l, i).Some? {
      assert all[n] == TwiLoop.Turn(l, i).port.delivered[n] == Handed(l, i).value;
    }
  }

  lemma {:induction false} ResidentTurns(l: TwiLoop.Loop, inputs: seq<TwiLoop.Input>)
    requires Steady(l.dev) && l.resident && Invalid(TwiLoop.Turns(l, inputs).port.delivered)
    ensures TwiLoop.Turns(l, inputs).dev == l.dev
    decreases inputs
  {
    hide TwiLoop.Turn, Handed, Invalid;
    if inputs != [] {
      NothingValid(l, inputs[0], inputs[1..]);
      QuietTurn(l, inputs[0]);
      ResidentTurns(TwiLoop.Turn(l, inputs[0]), inputs[1..]);
    }
  }

  lemma {:induction false} WindowTurns(l: TwiLoop.Loop, inputs: seq<TwiLoop.Input>)
    requires Steady(l.dev) && !l.resident && Invalid(TwiLoop.Turns(l, inputs).port.delivered)
    ensures TwiLoop.Turns(l, inputs).dev.jumped <==> ExpiresTwi(inputs) && GateAccepts(l.dev.flash)
    decreases inputs
  {
    hide TwiLoop.Turn, GateAccepts, Handed, Invalid;
    if inputs != [] {
      var i, rest := inputs[0], inputs[1..];
      assert forall k :: 0 <= k < |rest| ==> rest[k] == inputs[k + 1];
      assert ExpiresTwi(inputs) <==> i.ms >= 300 || ExpiresTwi(rest) by {
        assert forall k :: 0 < k < |inputs| ==> inputs[k] == rest[k - 1];
      }
      var l1 := TwiLoop.Turn(l, i);
      NothingValid(l, i, rest);
      QuietTurn(l, i);
      if i.ms < 300 {
        WindowTurns(l1, rest);
      } else if l1.dev.jumped {
        SilentTurns(l1, rest);
      } else {
        ResidentTurns(l1, rest);
      }
    }
  }

  /** The same on the TWI port, whatever the bus does, as long as no valid frame comes: damaged ones do
      not hold the device. */
  lemma WindowStartsTwi(d: Dev, entry: bool, inputs: seq<TwiLoop.Input>)
    requires Steady(d)
    requires Invalid(TwiLoop.Turns(TwiLoop.Loop(Twi.START, d, entry, []), inputs).port.delivered)
    ensures TwiLoop.Turns(TwiLoop.Loop(Twi.START, d, entry, []), inputs).dev.jumped
            <==> !entry && ExpiresTwi(inputs) && GateAccepts(d.flash)
  {
    hide GateAccepts, Invalid, Twi.START;
    var l := TwiLoop.Loop(Twi.START, d, entry, []);
    if entry {
      ResidentTurns(l, inputs);
    } else {
      WindowTurns(l, inputs);
    }
  }

  /** A frame the client hands over is answered in the same turn, with power holding: what reads get from
      then on is the handler's reply, or BAD_FRAME to a damaged frame, which does not change the device. */
  lemma FrameAnsweredTwi(l: TwiLoop.Loop, i: TwiLoop.Input)
    requires Steady(l.dev) && Handed(l, i).Some?
    ensures var bytes, l1 := Handed(l, i).value, TwiLoop.Turn(l, i);
            && l1.port.answered == l.port.answered + 1
            && l1.port.live == (match Parse(bytes)
                                case Some(f) => Encoded(Frame(Response(f.cmd), Handle(l.dev, f, 17).1))
                                case None => Encoded(Frame(Response(if |bytes| >= 1 then bytes[0] else 0), [0x01])))
            && (Parse(bytes).None? && i.ms < 300 ==> l1.dev == l.dev && l1.resident == l.resident)
  {
    hide GateAccepts, Handle, BootIfValid, Parse, Encoded, Twi.PollStep;
    var bytes := Handed(l, i).value;
    if Parse(bytes).Some? {
      var f := Parse(bytes).value;
      HandleHolds(l.dev, f, 17);
      ReplyIs(f, Handle(l.dev, f, 17).1);
      var reply := Encoded(Frame(Response(f.cmd), Handle(l.dev, f, 17).1));
      assert reply[..Min(|reply|, 20)] == reply;
    } else {
      var reply := TwiLoop.BadFrameReply(bytes);
      assert reply[..Min(|reply|, 20)] == reply;
    }
  }

  /** Between turns: no boot is left pending that could have been tried. */
  ghost predicate Prompt(l: TwiLoop.Loop) {
    !l.dev.Silent() ==>
      && l.port.answered == |l.port.delivered|
      && (TwiLoop.BootBefore(l.trace, |l.trace|) ==> l.dev.bootPending)
      && !(l.dev.bootPending && l.port.c.consumed)
  }

  /** A reply that is the one to an accepted BOOT is given to an accepted BOOT. */
  lemma OwnPayload(f: Frame, payload: seq<byte>)
    requires 1 <= |payload| <= 17 && MainLoop.Reply(f.cmd, payload) == TwiLoop.Own()
    ensures payload == [ST_OK]
  {
    hide Response;
    var reply := MainLoop.Reply(f.cmd, payload);
    assert reply[2] == payload[0] && TwiLoop.Own()[2] == ST_OK;
  }

  lemma NotBefore(trace: seq<TwiLoop.Event>, e: TwiLoop.Event)
    requires e.Tried?
    ensures !TwiLoop.BootBefore(trace + [e], |trace| + 1)
  {
    hide TwiLoop.Own;
    var t := trace + [e];
    forall j: nat
      ensures !TwiLoop.BootAt(t, j, |t|)
    {
      if j + 1 < |t| {
        assert t[|trace|].Tried?;
        assert j + 1 == |trace| ==> !t[j + 1].Answered?;
      }
    }
  }

  lemma BeforeExtends(trace: seq<TwiLoop.Event>, e: TwiLoop.Event)
    requires TwiLoop.BootBefore(trace + [e], |trace| + 1)
    ensures TwiLoop.BootBefore(trace, |trace|)
            || (trace != [] && trace[|trace| - 1] == TwiLoop.Served(CMD_BOOT) && e == TwiLoop.Answered(TwiLoop.Own()))
  {
    hide TwiLoop.Own;
    var t := trace + [e];
    var j: nat :| TwiLoop.BootAt(t, j, |t|);
    if j + 1 < |trace| {
      assert TwiLoop.BootAt(trace, j, |trace|) by {
        assert forall i :: 0 <= i < |trace| ==> t[i] == trace[i];
      }
    }
  }

  lemma AnswerIsPrompt(l: TwiLoop.Loop, bytes: seq<byte>)
    requires l.dev.Valid() && !l.dev.Silent() && l.port.answered + 1 == |l.port.delivered|
    requires TwiLoop.BootBefore(l.trace, |l.trace|) ==> l.dev.bootPending
    ensures Prompt(TwiLoop.Answer(l, bytes)) && SamePort(l.dev, TwiLoop.Answer(l, bytes).dev)
  {
    hide GateAccepts, Handle, Parse, TwiLoop.BootBefore, TwiLoop.Own, MainLoop.Reply, TwiLoop.BadFrameReply;
    TwiLoop.OwnIsForBoot(l.dev, bytes);
    var l1 := TwiLoop.Answer(l, bytes);
    if Parse(bytes).None? {
      if TwiLoop.BootBefore(l1.trace, |l1.trace|) {
        BeforeExtends(l.trace, TwiLoop.Answered(TwiLoop.BadFrameReply(bytes)));
      }
    } else {
      var f := Parse(bytes).value;
      var (d, payload) := Handle(l.dev, f, MainLoop.RSP_MAX);
      MainLoop.BootIsAnswered(l.dev, f);
      var t, reply := l.trace + [TwiLoop.Served(f.cmd)], MainLoop.Reply(f.cmd, payload);
      assert !d.dead ==> l1.trace == t + [TwiLoop.Answered(reply)];
      if !d.dead && TwiLoop.BootBefore(l1.trace, |l1.trace|) {
        BeforeExtends(t, TwiLoop.Answered(reply));
        if TwiLoop.BootBefore(t, |t|) {
          BeforeExtends(l.trace, TwiLoop.Served(f.cmd));
        } else {
          OwnPayload(f, payload);
        }
      }
    }
  }

  /** An attempt leaves nothing to be tried, and what follows it does not change that. */
  lemma TriesArePrompt(l: TwiLoop.Loop, ms: nat)
    requires l.dev.Valid() && l.dev.under.None? && !l.dev.Silent() && l.port.answered == |l.port.delivered|
    requires TwiLoop.BootBefore(l.trace, |l.trace|) ==> l.dev.bootPending
    ensures var l1 := TwiLoop.TryBoot(l);
            Prompt(if l1.dev.Silent() then l1 else TwiLoop.TryWindow(l1, ms))
  {
    hide GateAccepts, TwiLoop.BootBefore, Twi.LastHanded;
    var l1 := TwiLoop.TryBoot(l);
    var e := TwiLoop.Tried(MainLoop.BootCommand, l.dev.flash, GateAccepts(l.dev.flash), l.port.response,
                           Twi.LastHanded(l.port));
    NotBefore(l.trace, e);
    NotBefore(l1.trace, TwiLoop.Tried(MainLoop.Window(ms), l1.dev.flash, GateAccepts(l1.dev.flash), [], false));
  }

  lemma TurnIsPrompt(l: TwiLoop.Loop, i: TwiLoop.Input)
    requires l.dev.Valid() && l.dev.under.None? && Twi.ReadsInv(l.port) && Prompt(l)
    requires i.e.Out? ==> Twi.InRead(l.port.bus)
    ensures Prompt(TwiLoop.Turn(l, i))
  {
    hide TwiLoop.Answer, TwiLoop.TryBoot, TwiLoop.TryWindow, Twi.PollStep, Twi.ReadTracks, Twi.Reading, Twi.Handed;
    hide TwiLoop.BootBefore;
    if !l.dev.Silent() {
      Twi.LapKeepsReads(l.port, i.e);
      var l0 := l.(port := Twi.Do(l.port, Twi.Lap(i.e)));
      var l1 := if Handed(l, i).Some? then TwiLoop.Answer(l0, Handed(l, i).value) else l0;
      if Handed(l, i).Some? {
        AnswerIsPrompt(l0, Handed(l, i).value);
      }
      if !l1.dev.Silent() {
        TriesArePrompt(l1, i.ms);
      }
    }
  }

  lemma {:induction false} TurnsArePrompt(entry: bool, l: TwiLoop.Loop, inputs: seq<TwiLoop.Input>)
    requires TwiLoop.Inv(entry, l) && Prompt(l) && TwiLoop.LegalBus(l, inputs)
    ensures TwiLoop.Inv(entry, TwiLoop.Turns(l, inputs)) && Prompt(TwiLoop.Turns(l, inputs))
    decreases inputs
  {
    hide TwiLoop.Turn, Prompt, Twi.InRead, Twi.ReadsInv, TwiLoop.Policy;
    if inputs != [] {
      TwiLoop.TurnKeeps(entry, l, inputs[0]);
      TurnIsPrompt(l, inputs[0]);
      TurnsArePrompt(entry, TwiLoop.Turn(l, inputs[0]), inputs[1..]);
    }
  }

  /** No accepted BOOT is left waiting: in every run of the TWI port from a reset, on every legal bus, once
      the reply given last has been read whole and the read ended, the boot gate has been tried (and by
      `TwiLoop.JumpPolicy` the jump taken if it accepts), unless power has failed. */
  lemma BootIsTried(d: Dev, entry: bool, inputs: seq<TwiLoop.Input>, j: nat)
    requires d.Valid() && d.under.None? && !d.bootPending && !d.jumped
    requires TwiLoop.LegalBus(TwiLoop.Loop(Twi.START, d, entry, []), inputs)
    requires var l := TwiLoop.Turns(TwiLoop.Loop(Twi.START, d, entry, []), inputs);
             && !l.dev.dead && Twi.LastHanded(l.port) && j + 1 < |l.trace|
             && l.trace[j] == TwiLoop.Served(CMD_BOOT) && l.trace[j + 1] == TwiLoop.Answered(TwiLoop.Own())
    ensures var l := TwiLoop.Turns(TwiLoop.Loop(Twi.START, d, entry, []), inputs);
            exists k :: j + 1 < k < |l.trace| && l.trace[k].Tried?
  {
    hide TwiLoop.Turns, TwiLoop.LegalBus, TwiLoop.Own, TwiLoop.Policy, Twi.Handed, Twi.Reading, Twi.ReadTracks;
    var l0 := TwiLoop.Loop(Twi.START, d, entry, []);
    var l := TwiLoop.Turns(l0, inputs);
    TwiLoop.ResetInv(d, entry);
    TurnsArePrompt(entry, l0, inputs);
    if l.dev.jumped {
      assert l.trace[|l.trace| - 1].Tried?;
    } else {
      NotWaiting(l);
      assert !TwiLoop.BootAt(l.trace, j, |l.trace|);
    }
  }

  lemma NotWaiting(l: TwiLoop.Loop)
    requires Prompt(l) && !l.dev.Silent() && Twi.ReadsInv(l.port) && Twi.LastHanded(l.port)
    ensures !TwiLoop.BootBefore(l.trace, |l.trace|)
  {
    hide TwiLoop.BootBefore, Twi.LastHanded, Twi.Reading, Twi.ReadTracks;
  }
}
