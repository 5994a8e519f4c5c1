/** The UART port's main loop: who is served, and when the bootloader jumps to the application. */
module MainLoop {
  import opened Bytes
  import opened Frames
  import opened Device
  import opened SimPort
  import Stream
  import Holdback

  const T_ENTRY_MS: nat := 300
  const RSP_MAX: nat := 17

  datatype Cause = BootCommand | Window(ms: nat)

  /** The transmitter: octets handed to it that are still inside, and those that have left it. */
  datatype Line = Line(queued: seq<byte>, sent: seq<byte>)

  /** What the loop does that the outside can see. `Tried` is an attempt to jump, with flash and the
      transmitter as they are then; a taken jump does not come back. If power fails meanwhile there is
      no event. */
  datatype Event =
    | Served(cmd: byte)
    | Sent(frame: seq<byte>)
    | Tried(cause: Cause, flash: seq<byte>, taken: bool, line: Line)

  datatype Loop = Loop(dev: Dev, resident: bool, line: Line, trace: seq<Event>)

  /** One lap: how many octets the transmitter shifts out before it, the frame the link has completed,
      if any, and the tick. */
  datatype Input = Input(shifted: nat, polled: Option<Frame>, ms: nat)

  function Shifted(line: Line, count: nat): Line {
    var n := Min(count, |line.queued|);
    Line(line.queued[n..], line.sent + line.queued[..n])
  }

  function Reply(cmd: byte, payload: seq<byte>): (s: seq<byte>)
    requires |payload| <= RSP_MAX
    ensures |s| == |payload| + FRAME_OVERHEAD
  {
    Encoded(Frame(Response(cmd), payload))
  }

  function Serve(l: Loop, f: Frame): (r: Loop)
    requires l.dev.Valid()
    ensures r.dev.Valid()
  {
    var (d, payload) := Handle(l.dev, f, RSP_MAX);
    if d.dead then Loop(d, true, l.line, l.trace)
    else
      var reply := Reply(f.cmd, payload);
      Loop(d, true, l.line.(queued := l.line.queued + [Stream.SYNC] + reply), l.trace + [Served(f.cmd), Sent(reply)])
  }

  /** The gate reads flash; on a port that holds pages back power may fail in that. */
  function TryBoot(l: Loop): (r: Loop)
    requires l.dev.Valid()
    ensures r.dev.Valid()
  {
    if !l.dev.bootPending then l
    else
      var line, d := Shifted(l.line, |l.line.queued|), BootIfValid(l.dev.(bootPending := false));
      Loop(d, l.resident, line,
           if d.dead then l.trace
           else l.trace + [Tried(BootCommand, l.dev.flash, GateAccepts(l.dev.flash), line)])
  }

  function TryWindow(l: Loop, ms: nat): (r: Loop)
    requires l.dev.Valid()
    ensures r.dev.Valid()
  {
    if l.resident || ms < T_ENTRY_MS then l
    else
      var d := BootIfValid(l.dev);
      if d.dead then l.(dev := d)
      else Loop(d, !GateAccepts(l.dev.flash), l.line,
                l.trace + [Tried(Window(ms), l.dev.flash, GateAccepts(l.dev.flash), l.line)])
  }

  function Lap(l: Loop, i: Input): (r: Loop)
    requires l.dev.Valid()
    ensures r.dev.Valid()
  {
    if l.dev.Silent() then l
    else
      var l0 := l.(line := Shifted(l.line, i.shifted));
      var l1 := if i.polled.Some? then Serve(l0, i.polled.value) else l0;
      var l2 := if l1.dev.Silent() then l1 else TryBoot(l1);
      if l2.dev.Silent() then l2 else TryWindow(l2, i.ms)
  }

  class Main {
    const sim: Sim
    var resident: bool
    var queued: seq<byte>
    var sent: seq<byte>
    /** The transmitter's completion flag: cleared by every write, set when it runs dry. */
    var txc: bool
    /** What has happened so far. */
    ghost var trace: seq<Event>

    ghost predicate Valid()
      reads this, sim
    {
      && sim.Valid()
      && (txc ==> queued == [])
      && (sim.bootPending ==> txc || queued != [])
    }

    ghost function State(): (l: Loop)
      requires Valid()
      reads this, sim, sim.flash
      ensures l.dev.Valid()
    {
      Loop(sim.State(), resident, Line(queued, sent), trace)
    }

    /** Reset: the session starts afresh, and an application's request to enter skips the window. */
    constructor (sim: Sim, entryRequested: bool)
      requires sim.Valid()
      modifies sim
      ensures Valid() && this.sim == sim
      ensures State() == Loop(old(sim.State()).(erased := false, bootPending := false), entryRequested,
                              Line([], []), [])
    {
      this.sim := sim;
      resident, queued, sent, txc, trace := entryRequested, [], [], false, [];
      new;
      sim.UpdInit();
    }

    /** The transmitter shifts out up to `count` octets: this is hardware. */
    method Transmit(count: nat)
      requires Valid()
      modifies this`queued, this`sent, this`txc
      ensures Valid() && Line(queued, sent) == Shifted(old(Line(queued, sent)), count)
      ensures 0 < |old(queued)| <= count ==> txc
    {
      for i := 0 to count
        invariant Valid() && Line(queued, sent) == Shifted(old(Line(queued, sent)), i)
        invariant 0 < |old(queued)| <= i ==> txc
      {
        if queued != [] {
          sent := sent + [queued[0]];
          queued := queued[1..];
          txc := queued == [];
        }
      }
    }

    /** Waits for the completion flag: by then the transmitter is dry. */
    method UartTxDrain()
      requires Valid() && (txc || queued != [])
      modifies this`queued, this`sent, this`txc
      ensures Valid() && txc && Line(queued, sent) == Shifted(old(Line(queued, sent)), |old(queued)|)
    {
      while !txc
        invariant Valid() && (txc || queued != []) && |queued| <= |old(queued)|
        invariant Line(queued, sent) == Shifted(old(Line(queued, sent)), |old(queued)| - |queued|)
        decreases |queued|
      {
        Transmit(1);
      }
    }

    method PutByte(b: byte)
      modifies this`queued, this`txc
      ensures !txc && queued == old(queued) + [b]
    {
      txc := false;
      queued := queued + [b];
    }

    method LinkSend(frame: seq<byte>)
      modifies this`queued, this`txc
      ensures !txc && queued == old(queued) + [Stream.SYNC] + frame
    {
      PutByte(Stream.SYNC);
      for i := 0 to |frame|
        invariant !txc && queued == old(queued) + [Stream.SYNC] + frame[..i]
      {
        PutByte(frame[i]);
      }
    }

    method ServeFrame(f: Frame)
      requires Valid() && !sim.dead
      modifies this, sim, sim.flash
      ensures Valid() && State() == Serve(old(State()), f)
    {
      hide Handle, GateAccepts, Reply;
      BootIsAnswered(sim.State(), f);
      var payload := sim.UpdHandle(f, RSP_MAX);
      resident := true;
      if sim.dead {
        return;
      }
      var reply := Reply(f.cmd, payload);
      LinkSend(reply);
      trace := trace + [Served(f.cmd), Sent(reply)];
    }

    method AttemptBoot()
      requires Valid() && !sim.dead
      modifies this, sim
      ensures Valid() && State() == TryBoot(old(State()))
    {
      hide GateAccepts, Shifted;
      if sim.bootPending {
        sim.bootPending := false;
        UartTxDrain();
        var taken := sim.UpdBootIfValid();
        trace := trace + [Tried(BootCommand, sim.flash[..], taken, Line(queued, sent))];
      }
    }

    method AttemptWindow(ms: nat)
      requires Valid() && !sim.dead
      modifies this, sim
      ensures Valid() && State() == TryWindow(old(State()), ms)
    {
      hide GateAccepts;
      if !resident && ms >= T_ENTRY_MS {
        var taken := sim.UpdBootIfValid();
        trace := trace + [Tried(Window(ms), sim.flash[..], taken, Line(queued, sent))];
        if !taken {
          resident := true;
        }
      }
    }

    /** One turn of the endless loop. */
    method Turn(i: Input)
      requires Valid() && !sim.dead && !sim.jumped
      modifies this, sim, sim.flash
      ensures Valid() && State() == Lap(old(State()), i)
    {
      hide Serve, TryBoot, TryWindow, Shifted;
      Transmit(i.shifted);
      if i.polled.Some? {
        ServeFrame(i.polled.value);
      }
      if sim.dead || sim.jumped {
        return;
      }
      AttemptBoot();
      if sim.dead || sim.jumped {
        return;
      }
      AttemptWindow(i.ms);
    }
  }

  // ---- runs ----

  function Run(l: Loop, inputs: seq<Input>): (r: Loop)
    requires l.dev.Valid()
    ensures r.dev.Valid()
    decreases inputs
  {
    if inputs == [] then l else Run(Lap(l, inputs[0]), inputs[1..])
  }

  /** Everything handed to the transmitter before `k`. */
  function Transmitted(trace: seq<Event>, k: nat): seq<byte>
    requires k <= |trace|
  {
    if k == 0 then []
    else Transmitted(trace, k - 1) + if trace[k - 1].Sent? then [Stream.SYNC] + trace[k - 1].frame else []
  }

  /** The jump policy, at one attempt: it is taken exactly through the gate, and is then the last
      thing that happens. It follows an accepted BOOT, with that reply and all before it out of the
      transmitter; or it is the first thing that happens at all since a reset without an entry
      request, after the window. */
  ghost predicate PolicyAt(entry: bool, trace: seq<Event>, k: nat) {
    k < |trace| && trace[k].Tried? ==>
      && trace[k].taken == GateAccepts(trace[k].flash)
      && (trace[k].taken ==> k + 1 == |trace|)
      && (match trace[k].cause
          case BootCommand =>
            && k >= 2 && trace[k - 2] == Served(CMD_BOOT) && trace[k - 1] == Sent(Reply(CMD_BOOT, [ST_OK]))
            && trace[k].line == Line([], Transmitted(trace, k))
          case Window(ms) => k == 0 && !entry && ms >= T_ENTRY_MS)
  }

  ghost predicate Policy(entry: bool, trace: seq<Event>) {
    forall k: nat {:trigger PolicyAt(entry, trace, k)} :: PolicyAt(entry, trace, k)
  }

  predicate JustJumped(trace: seq<Event>) {
    trace != [] && trace[|trace| - 1].Tried? && trace[|trace| - 1].taken
  }

  /** The gate accepts what is in flash, also after a reset: nothing of it is only held. */
  predicate Programmed(d: Dev)
    requires d.Valid()
  {
    Reset(d).flash == d.flash && GateAccepts(d.flash)
  }

  /** A jump finds its application programmed: the gate's own read has seen to that. */
  lemma JumpIsProgrammed(d: Dev)
    requires d.Valid() && !d.dead && BootIfValid(d).jumped && !d.jumped
    ensures Programmed(BootIfValid(d))
  {
    hide GateAccepts, Holdback.Flush, Holdback.TornBy, Holdback.View;
    if d.under.Some? {
      Holdback.FlushIsInvisible(d.under.value, d.info.appPages);
    }
  }

  /** What every lap keeps. */
  ghost predicate Inv(entry: bool, l: Loop)
    ensures Inv(entry, l) ==> l.dev.Valid()
  {
    && l.dev.Valid()
    && !l.dev.bootPending
    && (!l.resident ==> !entry && (l.trace == [] || l.dev.jumped))
    && (l.dev.jumped <==> JustJumped(l.trace))
    && (l.dev.jumped ==> Programmed(l.dev))
    && Policy(entry, l.trace)
    && l.line.sent + l.line.queued == Transmitted(l.trace, |l.trace|)
    && (JustJumped(l.trace) && l.trace[|l.trace| - 1].cause == BootCommand ==> l.line.queued == [])
  }

  /** Only an accepted BOOT sets the flag, and its reply says so. */
  lemma BootIsAnswered(d: Dev, f: Frame)
    requires d.Valid() && !d.dead
    ensures var (d', payload) := Handle(d, f, RSP_MAX);
            && d'.jumped == d.jumped
            && (d'.bootPending <==> d.bootPending || (f.cmd == CMD_BOOT && payload == [ST_OK]))
            && (d'.dead ==> d'.bootPending == d.bootPending)
  {
    hide GateAccepts, ReadOp, EraseFrom, FlashOp, HandleInfo, HandleVerify, HandleEcho, FromLe16;
    EraseLeavesSession(d, 0);
    if f.cmd == CMD_WRITE_PAGE && HandleWrite(d, f.payload).1 == ST_OK {
      FlashOpLeavesSession(d, FromLe16(f.payload[..2]), f.payload[2..]);
    }
  }

  lemma FlashOpLeavesSession(d: Dev, page: nat, data: seq<byte>)
    requires d.Valid() && page < d.info.appPages && |data| == d.info.pageSize
    ensures FlashOp(d, page, data).bootPending == d.bootPending && FlashOp(d, page, data).jumped == d.jumped
  {
  }

  lemma {:induction false} SameTransmitted(t: seq<Event>, u: seq<Event>, k: nat)
    requires k <= |t| && k <= |u| && t[..k] == u[..k]
    ensures Transmitted(t, k) == Transmitted(u, k)
    decreases k
  {
    if k > 0 {
      assert t[k - 1] == t[..k][k - 1] == u[..k][k - 1] == u[k - 1];
      assert t[..k - 1] == t[..k][..k - 1] == u[..k][..k - 1] == u[..k - 1];
      SameTransmitted(t, u, k - 1);
    }
  }

  lemma OlderKeeps(entry: bool, trace: seq<Event>, e: Event, k: nat)
    requires PolicyAt(entry, trace, k) && !JustJumped(trace) && k != |trace|
    ensures PolicyAt(entry, trace + [e], k)
  {
    hide GateAccepts, Reply, Transmitted;
    if k < |trace| {
      assert (trace + [e])[..k] == trace[..k];
      SameTransmitted(trace + [e], trace, k);
    }
  }

  /** One more event that meets the policy, as long as no jump was taken before. */
  lemma Extend(entry: bool, trace: seq<Event>, e: Event)
    requires Policy(entry, trace) && !JustJumped(trace) && PolicyAt(entry, trace + [e], |trace|)
    ensures Policy(entry, trace + [e])
    ensures Transmitted(trace + [e], |trace| + 1)
         == Transmitted(trace, |trace|) + if e.Sent? then [Stream.SYNC] + e.frame else []
  {
    hide PolicyAt;
    assert (trace + [e])[..|trace|] == trace[..|trace|];
    SameTransmitted(trace + [e], trace, |trace|);
    forall k: nat
      ensures PolicyAt(entry, trace + [e], k)
    {
      if k != |trace| {
        OlderKeeps(entry, trace, e, k);
      }
    }
  }

  lemma ServeKeeps(entry: bool, l: Loop, f: Frame)
    requires Inv(entry, l) && !l.dev.Silent()
    ensures var l1 := Serve(l, f);
            l1.resident && Inv(entry, if l1.dev.Silent() then l1 else TryBoot(l1))
  {
    hide GateAccepts, Reply, Handle, Policy, Transmitted, Programmed;
    BootIsAnswered(l.dev, f);
    var l1 := Serve(l, f);
    if !l1.dev.dead {
      var (d, payload) := Handle(l.dev, f, RSP_MAX);
      var reply := Reply(f.cmd, payload);
      var t := l.trace + [Served(f.cmd)];
      Extend(entry, l.trace, Served(f.cmd));
      Extend(entry, t, Sent(reply));
      assert l1.trace == t + [Sent(reply)];
      assert l1.line.sent + l1.line.queued == Transmitted(l1.trace, |l1.trace|);
      if d.bootPending {
        AttemptKeeps(entry, l1);
      }
    }
  }

  lemma AttemptKeeps(entry: bool, l: Loop)
    requires l.dev.Valid() && l.dev.bootPending && !l.dev.Silent() && l.resident
    requires Policy(entry, l.trace) && !JustJumped(l.trace)
    requires l.line.sent + l.line.queued == Transmitted(l.trace, |l.trace|)
    requires var n := |l.trace|;
             n >= 2 && l.trace[n - 2] == Served(CMD_BOOT) && l.trace[n - 1] == Sent(Reply(CMD_BOOT, [ST_OK]))
    ensures Inv(entry, TryBoot(l))
  {
    hide GateAccepts, Reply, Policy, Transmitted, Programmed, ReadOp;
    var d := l.dev.(bootPending := false);
    if BootIfValid(d).jumped {
      JumpIsProgrammed(d);
    }
    var n, line := |l.trace|, Shifted(l.line, |l.line.queued|);
    var e := Tried(BootCommand, l.dev.flash, GateAccepts(l.dev.flash), line);
    assert (l.trace + [e])[..n] == l.trace[..n];
    SameTransmitted(l.trace + [e], l.trace, n);
    assert PolicyAt(entry, l.trace + [e], n);
    Extend(entry, l.trace, e);
  }

  lemma WindowKeeps(entry: bool, l: Loop, ms: nat)
    requires Inv(entry, l) && !l.dev.Silent()
    ensures Inv(entry, TryWindow(l, ms))
  {
    hide GateAccepts, Reply, Policy, Transmitted, Programmed, ReadOp;
    if BootIfValid(l.dev).jumped {
      JumpIsProgrammed(l.dev);
    }
    if !l.resident && ms >= T_ENTRY_MS {
      var e := Tried(Window(ms), l.dev.flash, GateAccepts(l.dev.flash), l.line);
      assert PolicyAt(entry, l.trace + [e], 0);
      Extend(entry, l.trace, e);
    }
  }

  lemma LapKeeps(entry: bool, l: Loop, i: Input)
    requires Inv(entry, l)
    ensures Inv(entry, Lap(l, i))
  {
    hide GateAccepts, Reply, Policy, Serve, TryWindow, Transmitted, Programmed;
    if !l.dev.Silent() {
      var l0 := l.(line := Shifted(l.line, i.shifted));
      assert Inv(entry, l0);
      if i.polled.Some? {
        ServeKeeps(entry, l0, i.polled.value);
      }
      var l1 := if i.polled.Some? then Serve(l0, i.polled.value) else l0;
      var l2 := if l1.dev.Silent() then l1 else TryBoot(l1);
      if !l2.dev.Silent() {
        WindowKeeps(entry, l2, i.ms);
      }
    }
  }

  lemma {:induction false} RunKeeps(entry: bool, l: Loop, inputs: seq<Input>)
    requires Inv(entry, l)
    ensures Inv(entry, Run(l, inputs))
    decreases inputs
  {
    hide Inv, Lap;
    if inputs != [] {
      LapKeeps(entry, l, inputs[0]);
      RunKeeps(entry, Lap(l, inputs[0]), inputs[1..]);
    }
  }

  /** Whole-run jump policy, over either kind of flash port: from a reset, whatever flash holds, whatever
      frames arrive, however slowly the transmitter shifts and whenever power fails, every attempt to
      jump meets the policy, the device has jumped exactly if the last event is a taken attempt, and then
      into an application that is all programmed, nothing is left in the transmitter of a device that has
      jumped after a BOOT, and after a refused window it never tries the window again. */
  lemma JumpPolicy(d: Dev, entry: bool, inputs: seq<Input>)
    requires d.Valid() && !d.bootPending && !d.jumped
    ensures var l := Run(Loop(d, entry, Line([], []), []), inputs);
            && Policy(entry, l.trace)
            && (l.dev.jumped <==> JustJumped(l.trace))
            && (l.dev.jumped ==> Programmed(l.dev))
            && (l.dev.jumped && l.trace[|l.trace| - 1].cause == BootCommand ==>
                  l.line == Line([], Transmitted(l.trace, |l.trace|)))
            && forall j, k :: 0 <= j < k < |l.trace| && l.trace[j].Tried? && l.trace[k].Tried?
                              ==> l.trace[k].cause == BootCommand
  {
    hide GateAccepts, Policy, PolicyAt, Run, Transmitted, Programmed, Dev.Valid;
    var l0 := Loop(d, entry, Line([], []), []);
    ResetInv(d, entry);
    RunKeeps(entry, l0, inputs);
    var l := Run(l0, inputs);
    assert l.line.queued == [] ==> l.line.sent == l.line.sent + l.line.queued;
    forall j, k | 0 <= j < k < |l.trace| && l.trace[j].Tried? && l.trace[k].Tried?
      ensures l.trace[k].cause == BootCommand
    {
      LaterIsBoot(entry, l.trace, k);
    }
  }

  lemma ResetInv(d: Dev, entry: bool)
    requires d.Valid() && !d.bootPending && !d.jumped
    ensures Inv(entry, Loop(d, entry, Line([], []), []))
  {
  }

  lemma LaterIsBoot(entry: bool, trace: seq<Event>, k: nat)
    requires Policy(entry, trace) && 0 < k < |trace| && trace[k].Tried?
    ensures trace[k].cause == BootCommand
  {
    assert PolicyAt(entry, trace, k);
  }
}
