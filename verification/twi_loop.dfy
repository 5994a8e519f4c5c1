/** The TWI port's main loop on top of its bus client. It cannot push a reply: it jumps once the host
    has read one. */
module TwiLoop {
  import opened Bytes
  import opened Frames
  import opened Device
  import opened Twi
  import opened SimPort
  import Crc8
  import MainLoop

  /** `response` is the reply given last, and `handed` whether some read transaction begun since it was
      given had got all of it by then. */
  datatype Event =
    | Served(cmd: byte)
    | Answered(frame: seq<byte>)
    | Tried(cause: MainLoop.Cause, flash: seq<byte>, taken: bool, response: seq<byte>, handed: bool)

  datatype Loop = Loop(port: World, dev: Dev, resident: bool, trace: seq<Event>)

  datatype Input = Input(e: Bus, ms: nat)

  function BadFrameReply(bytes: seq<byte>): (s: seq<byte>)
    ensures |s| == 1 + FRAME_OVERHEAD
  {
    MainLoop.Reply(if |bytes| >= 1 then bytes[0] else 0, [ST_BAD_FRAME])
  }

  /** Answers a frame the client has handed over; only a valid one makes the loop stay. */
  function Answer(l: Loop, bytes: seq<byte>): (r: Loop)
    requires l.dev.Valid()
    ensures r.dev.Valid()
  {
    if Parse(bytes).None? then
      var reply := BadFrameReply(bytes);
      l.(port := Do(l.port, Send(reply)), trace := l.trace + [Answered(reply)])
    else
      var f := Parse(bytes).value;
      var (d, payload) := Handle(l.dev, f, MainLoop.RSP_MAX);
      if d.dead then Loop(l.port, d, true, l.trace)
      else
        var reply := MainLoop.Reply(f.cmd, payload);
        Loop(Do(l.port, Send(reply)), d, true, l.trace + [Served(f.cmd), Answered(reply)])
  }

  function TryBoot(l: Loop): (r: Loop)
    requires l.dev.Valid()
    ensures r.dev.Valid()
  {
    if !l.dev.bootPending || !l.port.c.consumed then l
    else l.(dev := BootIfValid(l.dev.(bootPending := false)),
            trace := l.trace + [Tried(MainLoop.BootCommand, l.dev.flash, GateAccepts(l.dev.flash), l.port.response,
                                      LastHanded(l.port))])
  }

  function TryWindow(l: Loop, ms: nat): (r: Loop)
    requires l.dev.Valid()
    ensures r.dev.Valid()
  {
    if l.resident || ms < MainLoop.T_ENTRY_MS then l
    else l.(dev := BootIfValid(l.dev), resident := !GateAccepts(l.dev.flash),
            trace := l.trace + [Tried(MainLoop.Window(ms), l.dev.flash, GateAccepts(l.dev.flash), [], false)])
  }

  function Turn(l: Loop, i: Input): (r: Loop)
    requires l.dev.Valid()
    ensures r.dev.Valid()
  {
    if l.dev.Silent() then l
    else
      var frame := Fetch(PollStep(l.port.c, i.e).client).1;
      var l0 := l.(port := Do(l.port, Twi.Lap(i.e)));
      var l1 := if frame.Some? then Answer(l0, frame.value) else l0;
      var l2 := if l1.dev.Silent() then l1 else TryBoot(l1);
      if l2.dev.Silent() then l2 else TryWindow(l2, i.ms)
  }

  lemma WorldFollows(w: World, e: Bus, frame: seq<byte>)
    ensures Do(w, Twi.Lap(e)).c == Fetch(PollStep(w.c, e).client).0
    ensures Do(w, Send(frame)).c == Arm(w.c, frame)
  {
    hide PollStep;
  }

  class Main {
    const sim: Sim
    const port: Port
    var resident: bool
    /** What has happened so far, and the port's state with what the bus has seen. */
    ghost var trace: seq<Event>
    ghost var world: World

    ghost predicate Valid()
      reads this, port, port.rxBuf, port.txBuf
    {
      && sim.Valid() && port.Valid() && port.State() == world.c
      && sim.flash != port.rxBuf && sim.flash != port.txBuf
    }

    ghost function State(): (l: Loop)
      requires Valid()
      reads this, sim, sim.flash, port, port.rxBuf, port.txBuf
      ensures l.dev.Valid()
    {
      Loop(world, sim.State(), resident, trace)
    }

    constructor (sim: Sim, entryRequested: bool)
      requires sim.Valid()
      modifies sim
      ensures Valid() && this.sim == sim && fresh(port) && fresh(port.rxBuf) && fresh(port.txBuf)
      ensures State() == Loop(START, old(sim.State()).(erased := false, bootPending := false), entryRequested, [])
    {
      this.sim := sim;
      port := new Port();
      resident, trace, world := entryRequested, [], START;
      new;
      sim.UpdInit();
    }

    method AnswerFrame(bytes: seq<byte>)
      requires Valid() && |bytes| < 0x100
      modifies this, sim, sim.flash, port, port.txBuf
      ensures Valid() && State() == Answer(old(State()), bytes)
    {
      hide Handle, IsFrame, Do, MainLoop.Reply, BadFrameReply;
      var req := UpdFrameParse(bytes);
      var reply: seq<byte>;
      if req.Some? {
        var payload := sim.UpdHandle(req.value, MainLoop.RSP_MAX);
        resident := true;
        if sim.dead {
          return;
        }
        reply := MainLoop.Reply(req.value.cmd, payload);
        trace := trace + [Served(req.value.cmd), Answered(reply)];
      } else {
        reply := BadFrameReply(bytes);
        trace := trace + [Answered(reply)];
      }
      WorldFollows(world, Idle, reply);
      port.Send(reply);
      world := Do(world, Send(reply));
    }

    method AttemptBoot()
      requires Valid()
      modifies this, sim
      ensures Valid() && State() == TryBoot(old(State()))
    {
      hide GateAccepts, LastHanded;
      if sim.bootPending && port.txConsumed {
        sim.bootPending := false;
        var jump := sim.UpdBootIfValid();
        trace := trace + [Tried(MainLoop.BootCommand, sim.flash[..], jump, world.response, LastHanded(world))];
      }
    }

    method AttemptWindow(ms: nat)
      requires Valid()
      modifies this, sim
      ensures Valid() && State() == TryWindow(old(State()), ms)
    {
      hide GateAccepts;
      if !resident && ms >= MainLoop.T_ENTRY_MS {
        var jump := sim.UpdBootIfValid();
        trace := trace + [Tried(MainLoop.Window(ms), sim.flash[..], jump, [], false)];
        if !jump {
          resident := true;
        }
      }
    }

    /** One turn of the endless loop. */
    method DoTurn(i: Input)
      requires Valid() && !sim.dead && !sim.jumped
      modifies this, sim, sim.flash, port, port.rxBuf, port.txBuf
      ensures Valid() && State() == Turn(old(State()), i)
    {
      hide Answer, TryBoot, TryWindow, Do, PollStep, Fetch;
      WorldFollows(world, i.e, []);
      var frame, taken, sent := port.Recv(i.e);
      world := Do(world, Twi.Lap(i.e));
      if frame.Some? {
        AnswerFrame(frame.value);
      }
      if sim.dead || sim.jumped {
        return;
      }
      AttemptBoot();
      if sim.dead || sim.jumped {
        return;
      }
      AttemptWindow(i.ms);
    }
  }

  function Turns(l: Loop, inputs: seq<Input>): (r: Loop)
    requires l.dev.Valid()
    ensures r.dev.Valid()
    decreases inputs
  {
    if inputs == [] then l else Turns(Turn(l, inputs[0]), inputs[1..])
  }

  /** The bus asks for octets only inside a read. */
  ghost predicate LegalBus(l: Loop, inputs: seq<Input>)
    requires l.dev.Valid()
    decreases inputs
  {
    inputs == [] ||
    ((inputs[0].e.Out? ==> InRead(l.port.bus)) && LegalBus(Turn(l, inputs[0]), inputs[1..]))
  }

  // ---- the policy ----

  /** A BOOT was served and accepted before `k`, and nothing has been tried since. */
  ghost predicate BootBefore(trace: seq<Event>, k: nat) {
    exists j: nat :: BootAt(trace, j, k)
  }

  /** The reply to an accepted BOOT. */
  function Own(): seq<byte> {
    MainLoop.Reply(CMD_BOOT, [ST_OK])
  }

  predicate BootAt(trace: seq<Event>, j: nat, k: nat) {
    && j + 1 < k <= |trace|
    && trace[j] == Served(CMD_BOOT) && trace[j + 1] == Answered(Own())
    && forall i :: j < i < k ==> !trace[i].Tried?
  }

  /** The last reply before `k`. */
  function LastAnswer(trace: seq<Event>, k: nat): seq<byte>
    requires k <= |trace|
  {
    if k == 0 then [] else if trace[k - 1].Answered? then trace[k - 1].frame else LastAnswer(trace, k - 1)
  }

  /** An attempt is taken exactly through the gate and then ends the run. After a BOOT it waits until
      one read has got all of the last reply. Without one it comes before any valid frame, once. */
  ghost predicate PolicyAt(entry: bool, trace: seq<Event>, k: nat) {
    k < |trace| && trace[k].Tried? ==>
      && trace[k].taken == GateAccepts(trace[k].flash)
      && (trace[k].taken ==> k + 1 == |trace|)
      && (match trace[k].cause
          case BootCommand =>
            BootBefore(trace, k) && trace[k].handed && trace[k].response == LastAnswer(trace, k)
          case Window(ms) =>
            && !entry && ms >= MainLoop.T_ENTRY_MS
            && forall i :: 0 <= i < k ==> trace[i].Answered?)
  }

  ghost predicate Policy(entry: bool, trace: seq<Event>) {
    forall k: nat {:trigger PolicyAt(entry, trace, k)} :: PolicyAt(entry, trace, k)
  }

  /** The reply to an accepted BOOT is given to nothing else. */
  predicate OwnFollowsBoot(trace: seq<Event>) {
    forall i :: 0 <= i < |trace| && trace[i] == Answered(Own()) ==> i > 0 && trace[i - 1] == Served(CMD_BOOT)
  }

  predicate JustJumped(trace: seq<Event>) {
    trace != [] && trace[|trace| - 1].Tried? && trace[|trace| - 1].taken
  }

  ghost predicate Inv(entry: bool, l: Loop)
    ensures Inv(entry, l) ==> l.dev.Valid()
  {
    && l.dev.Valid() && l.dev.under.None?
    && ReadsInv(l.port)
    && Policy(entry, l.trace)
    && (l.dev.jumped <==> JustJumped(l.trace))
    && (l.dev.bootPending ==> BootBefore(l.trace, |l.trace|))
    && (!l.resident ==> !entry && (l.dev.jumped || forall i :: 0 <= i < |l.trace| ==> l.trace[i].Answered?))
    && (LastAnswer(l.trace, |l.trace|) == l.port.response)
    && OwnFollowsBoot(l.trace)
    && (JustJumped(l.trace) && l.trace[|l.trace| - 1].cause == MainLoop.BootCommand ==> LastHanded(l.port))
  }

  lemma {:induction false} AnswerBefore(t: seq<Event>, u: seq<Event>, k: nat)
    requires k <= |t| && k <= |u| && t[..k] == u[..k]
    ensures LastAnswer(t, k) == LastAnswer(u, k)
    decreases k
  {
    if k > 0 {
      assert t[k - 1] == t[..k][k - 1] == u[..k][k - 1] == u[k - 1];
      assert t[..k - 1] == t[..k][..k - 1] == u[..k][..k - 1] == u[..k - 1];
      AnswerBefore(t, u, k - 1);
    }
  }

  /** More events keep the policy of those before, as long as nothing follows a taken jump. */
  lemma OlderKeeps(entry: bool, trace: seq<Event>, e: Event, k: nat)
    requires PolicyAt(entry, trace, k) && !JustJumped(trace) && k < |trace|
    ensures PolicyAt(entry, trace + [e], k)
  {
    hide GateAccepts, MainLoop.Reply, LastAnswer;
    var t := trace + [e];
    if trace[k].Tried? && trace[k].cause == MainLoop.BootCommand {
      assert t[..k] == trace[..k];
      AnswerBefore(t, trace, k);
      var j: nat :| BootAt(trace, j, k);
      assert BootAt(t, j, k);
    }
  }

  lemma Extend(entry: bool, trace: seq<Event>, e: Event)
    requires Policy(entry, trace) && !JustJumped(trace)
    requires PolicyAt(entry, trace + [e], |trace|)
    ensures Policy(entry, trace + [e])
    ensures LastAnswer(trace + [e], |trace| + 1) == if e.Answered? then e.frame else LastAnswer(trace, |trace|)
    ensures !e.Tried? && BootBefore(trace, |trace|) ==> BootBefore(trace + [e], |trace| + 1)
  {
    hide MainLoop.Reply, PolicyAt;
    var t := trace + [e];
    AnswerBefore(t, trace, |trace|);
    forall k: nat
      ensures PolicyAt(entry, t, k)
    {
      if k < |trace| {
        OlderKeeps(entry, trace, e, k);
      } else if k > |trace| {
        Beyond(entry, t, k);
      }
    }
    if !e.Tried? && BootBefore(trace, |trace|) {
      var j: nat :| BootAt(trace, j, |trace|);
      assert BootAt(t, j, |trace| + 1);
    }
  }

  lemma Beyond(entry: bool, trace: seq<Event>, k: nat)
    requires k >= |trace|
    ensures PolicyAt(entry, trace, k)
  {
  }

  // ---- every turn keeps it ----

  lemma AnswerKeeps(entry: bool, l: Loop, bytes: seq<byte>)
    requires Inv(entry, l) && !l.dev.Silent() && l.port.answered < |l.port.delivered|
    ensures Inv(entry, Answer(l, bytes))
  {
    hide GateAccepts, MainLoop.Reply, ReadsInv, Policy, Do, Handle, BootBefore, LastAnswer, Parse, Own;
    var n := |l.trace|;
    OwnIsForBoot(l.dev, bytes);
    if Parse(bytes).None? {
      var reply := BadFrameReply(bytes);
      SendKeepsReads(l.port, reply);
      Extend(entry, l.trace, Answered(reply));
    } else {
      var f := Parse(bytes).value;
      MainLoop.BootIsAnswered(l.dev, f);
      var (d, payload) := Handle(l.dev, f, MainLoop.RSP_MAX);
      if !d.dead {
        var reply := MainLoop.Reply(f.cmd, payload);
        SendKeepsReads(l.port, reply);
        Extend(entry, l.trace, Served(f.cmd));
        var t := l.trace + [Served(f.cmd)];
        Extend(entry, t, Answered(reply));
        assert t + [Answered(reply)] == l.trace + [Served(f.cmd), Answered(reply)];
        if f.cmd == CMD_BOOT && payload == [ST_OK] {
          BootJustServed(l.trace);
        }
      }
    }
  }

  lemma OwnIsForBoot(d: Dev, bytes: seq<byte>)
    requires d.Valid()
    ensures BadFrameReply(bytes) != Own()
    ensures Parse(bytes).Some? ==>
              var f := Parse(bytes).value;
              var payload := Handle(d, f, MainLoop.RSP_MAX).1;
              && (MainLoop.Reply(f.cmd, payload) == Own() ==> f.cmd == CMD_BOOT)
              && (f.cmd == CMD_BOOT && payload == [ST_OK] ==> MainLoop.Reply(f.cmd, payload) == Own())
  {
    hide Crc8.Crc8, GateAccepts, Parse, HandleInfo, HandleErase, HandleWrite, HandleVerify, HandleEcho, EraseFrom;
    assert BadFrameReply(bytes)[2] == ST_BAD_FRAME && Own()[2] == ST_OK && Own()[0] == 0x85;
    if Parse(bytes).Some? {
      var f := Parse(bytes).value;
      var payload := Handle(d, f, MainLoop.RSP_MAX).1;
      var reply := MainLoop.Reply(f.cmd, payload);
      assert reply[0] == Response(f.cmd) && reply[2] == payload[0];
    }
  }

  lemma BootJustServed(trace: seq<Event>)
    ensures BootBefore(trace + [Served(CMD_BOOT), Answered(Own())], |trace| + 2)
  {
    hide Own;
    assert BootAt(trace + [Served(CMD_BOOT), Answered(Own())], |trace|, |trace| + 2);
  }

  lemma TryBootKeeps(entry: bool, l: Loop)
    requires Inv(entry, l) && !l.dev.Silent()
    ensures Inv(entry, TryBoot(l))
  {
    hide GateAccepts, Own, LastHanded, LastAnswer;
    if l.dev.bootPending && l.port.c.consumed {
      var e := Tried(MainLoop.BootCommand, l.dev.flash, GateAccepts(l.dev.flash), l.port.response, LastHanded(l.port));
      var t, n := l.trace + [e], |l.trace|;
      var j: nat :| BootAt(l.trace, j, n);
      assert BootAt(t, j, n);
      assert l.trace[j].Served?;
      assert t[..n] == l.trace[..n];
      AnswerBefore(t, l.trace, n);
      assert PolicyAt(entry, t, n);
      hide Policy, ReadsInv;
      Extend(entry, l.trace, e);
    }
  }

  lemma NoBootYet(trace: seq<Event>)
    requires forall i :: 0 <= i < |trace| ==> trace[i].Answered?
    ensures !BootBefore(trace, |trace|)
  {
    hide MainLoop.Reply;
  }

  lemma TryWindowKeeps(entry: bool, l: Loop, ms: nat)
    requires Inv(entry, l) && !l.dev.Silent()
    ensures Inv(entry, TryWindow(l, ms))
  {
    hide GateAccepts, MainLoop.Reply, ReadsInv, Policy, LastAnswer;
    if !l.resident && ms >= MainLoop.T_ENTRY_MS {
      var e := Tried(MainLoop.Window(ms), l.dev.flash, GateAccepts(l.dev.flash), [], false);
      assert PolicyAt(entry, l.trace + [e], |l.trace|);
      Extend(entry, l.trace, e);
      NoBootYet(l.trace);
    }
  }

  lemma HandedOver(w: World, e: Bus)
    requires ReadsInv(w) && (e.Out? ==> InRead(w.bus)) && Fetch(PollStep(w.c, e).client).1.Some?
    ensures Do(w, Twi.Lap(e)).answered < |Do(w, Twi.Lap(e)).delivered|
  {
    LapKeepsReads(w, e);
    hide PollStep, ReadTracks, Reading, Handed, Faithful;
  }

  lemma TurnKeeps(entry: bool, l: Loop, i: Input)
    requires Inv(entry, l) && (i.e.Out? ==> InRead(l.port.bus))
    ensures Inv(entry, Turn(l, i))
  {
    hide GateAccepts, MainLoop.Reply, ReadsInv, Policy, LastAnswer, BootBefore;
    hide Answer, TryBoot, TryWindow, PollStep, InRead;
    if !l.dev.Silent() {
      LapKeepsReads(l.port, i.e);
      var frame := Fetch(PollStep(l.port.c, i.e).client).1;
      var l0 := l.(port := Do(l.port, Twi.Lap(i.e)));
      assert Inv(entry, l0);
      hide Inv, Do;
      if frame.Some? {
        HandedOver(l.port, i.e);
        AnswerKeeps(entry, l0, frame.value);
      }
      var l1 := if frame.Some? then Answer(l0, frame.value) else l0;
      if !l1.dev.Silent() {
        TryBootKeeps(entry, l1);
        var l2 := TryBoot(l1);
        if !l2.dev.Silent() {
          TryWindowKeeps(entry, l2, i.ms);
        }
      }
    }
  }

  lemma {:induction false} RunKeeps(entry: bool, l: Loop, inputs: seq<Input>)
    requires Inv(entry, l) && LegalBus(l, inputs)
    ensures Inv(entry, Turns(l, inputs))
    decreases inputs
  {
    hide Inv, Turn, InRead;
    if inputs != [] {
      TurnKeeps(entry, l, inputs[0]);
      RunKeeps(entry, Turn(l, inputs[0]), inputs[1..]);
    }
  }

  /** Whole-run jump policy of the TWI port, from a reset and on every legal bus. A device that has
      jumped after a BOOT has had the reply it gave last read, in one transaction begun since. */
  lemma JumpPolicy(d: Dev, entry: bool, inputs: seq<Input>)
    requires d.Valid() && d.under.None? && !d.bootPending && !d.jumped
    requires LegalBus(Loop(START, d, entry, []), inputs)
    ensures var l := Turns(Loop(START, d, entry, []), inputs);
            && Policy(entry, l.trace) && OwnFollowsBoot(l.trace)
            && (l.dev.jumped <==> JustJumped(l.trace))
            && (l.dev.jumped && l.trace[|l.trace| - 1].cause == MainLoop.BootCommand ==>
                  LastHanded(l.port) && l.port.response == LastAnswer(l.trace, |l.trace|))
  {
    hide Turns, LegalBus, ReadsInv, GateAccepts, Dev.Valid, LastHanded, OwnFollowsBoot, Policy;
    var l0 := Loop(START, d, entry, []);
    ResetInv(d, entry);
    RunKeeps(entry, l0, inputs);
    assert Inv(entry, Turns(l0, inputs));
  }

  lemma ResetInv(d: Dev, entry: bool)
    requires d.Valid() && d.under.None? && !d.bootPending && !d.jumped
    ensures Inv(entry, Loop(START, d, entry, []))
  {
  }

  // ---- whose reply has left the wire ----

  /** The reply that has been read is the BOOT's own exactly when nothing else has been answered since
      the last BOOT that was accepted. */
  lemma OwnReplyRead(entry: bool, trace: seq<Event>, j: nat, k: nat)
    requires Policy(entry, trace) && OwnFollowsBoot(trace)
    requires k < |trace| && trace[k].Tried? && trace[k].cause == MainLoop.BootCommand
    requires BootAt(trace, j, k) && forall i: nat :: BootAt(trace, i, k) ==> i <= j
    ensures trace[k].handed
    ensures trace[k].response == Own() <==> forall i :: j + 1 < i < k ==> !trace[i].Answered?
  {
    hide Own, GateAccepts;
    assert PolicyAt(entry, trace, k);
    var m := LastAnswerAt(trace, j + 1, k);
    if trace[k].response == Own() {
      assert trace[m] == Answered(Own());
      assert BootAt(trace, m - 1, k);
    }
  }

  lemma {:induction false} LastAnswerAt(trace: seq<Event>, j: nat, k: nat) returns (m: nat)
    requires j < k <= |trace| && trace[j].Answered?
    ensures j <= m < k && trace[m] == Answered(LastAnswer(trace, k))
    ensures forall i :: m < i < k ==> !trace[i].Answered?
    decreases k
  {
    m := k - 1;
    if !trace[k - 1].Answered? {
      m := LastAnswerAt(trace, j, k - 1);
    }
  }

  /** A turn in which the bus event completes nothing. */
  lemma QuietTurn(l: Loop, e: Bus)
    requires l.dev.Valid() && !l.dev.Silent()
    requires var w := Do(l.port, Twi.Lap(e));
             && w.c.parked.None? && w.delivered == l.port.delivered && (l.dev.bootPending ==> !w.c.consumed)
    ensures Turn(l, Input(e, 0)) == l.(port := Do(l.port, Twi.Lap(e)))
  {
    hide PollStep, Answer;
  }

  /** A turn in which it completes a frame. */
  lemma FrameTurn(l: Loop, e: Bus, frame: seq<byte>)
    requires l.dev.Valid() && !l.dev.Silent() && Fetch(PollStep(l.port.c, e).client).1 == Some(frame)
    requires var l1 := Answer(l.(port := Do(l.port, Twi.Lap(e))), frame);
             !l1.dev.Silent() && !l1.port.c.consumed
    ensures Turn(l, Input(e, 0)) == Answer(l.(port := Do(l.port, Twi.Lap(e))), frame)
  {
    hide PollStep, Answer, Do;
  }

  /** The bus while the host writes `bytes`, and while it reads `n` octets, refusing one more or not. */
  function Writing(bytes: seq<byte>): seq<Bus> {
    [Address(false)] + seq(|bytes|, k requires 0 <= k < |bytes| => In(bytes[k])) + [Stop]
  }

  function ReadingOf(n: nat, nack: bool): seq<Bus> {
    [Address(true)] + seq(n, _ => Out(false)) + (if nack then [Out(true)] else []) + [Stop]
  }

  /** One turn for each event, while the entry window is open. */
  function Early(events: seq<Bus>): (s: seq<Input>)
    ensures |s| == |events| && forall k :: 0 <= k < |s| ==> s[k] == Input(events[k], 0)
  {
    seq(|events|, k requires 0 <= k < |events| => Input(events[k], 0))
  }

  /** `l` can come about from `l0` on a legal bus. */
  ghost predicate Reaches(l0: Loop, inputs: seq<Input>, l: Loop) {
    l0.dev.Valid() && LegalBus(l0, inputs) && Turns(l0, inputs) == l
  }

  lemma {:induction false} OneTurn(l0: Loop, inputs: seq<Input>, l: Loop, i: Input)
    requires Reaches(l0, inputs, l) && (i.e.Out? ==> InRead(l.port.bus))
    ensures l.dev.Valid() && Reaches(l0, inputs + [i], Turn(l, i))
    decreases inputs
  {
    hide Turn, InRead;
    if inputs == [] {
      assert [] + [i] == [i] && [i][1..] == [];
      assert Turns(l, [i]) == Turns(Turn(l, i), [i][1..]);
      assert LegalBus(Turn(l, i), [i][1..]);
    } else {
      OneTurn(Turn(l0, inputs[0]), inputs[1..], l, i);
      assert (inputs + [i])[0] == inputs[0] && (inputs + [i])[1..] == inputs[1..] + [i];
    }
  }

  /** A listening loop between bus transactions, with no response read yet. */
  predicate Ready(l: Loop)
    ensures Ready(l) ==> l.dev.Valid()
  {
    l.dev.Valid() && !l.dev.Silent()
    && l.port.c.segment.None? && l.port.c.parked.None? && !l.port.c.awaiting && !l.port.c.active && !l.port.c.consumed
    && Reading(l.port.bus).None?
  }

  /** The host writes `bytes`, but does not end the transaction yet. */
  lemma Written(l0: Loop, inputs: seq<Input>, l: Loop, bytes: seq<byte>) returns (inputs': seq<Input>, l': Loop)
    requires Reaches(l0, inputs, l) && Ready(l) && |bytes| <= RX_SIZE
    ensures Reaches(l0, inputs', l')
    ensures inputs' + [Input(Stop, 0)] == inputs + Early(Writing(bytes)) && Reading(l'.port.bus).None?
    ensures l' == l.(port := l.port.(c := l.port.c.(segment := Some(Segment(bytes, false)), armed := []),
                                     bus := l'.port.bus, live := []))
  {
    hide Answer, LegalBus, Turns, Turn, Reaches, Reading;
    NextReading(l.port.bus, Seen(Address(false), true, None));
    QuietTurn(l, Address(false));
    OneTurn(l0, inputs, l, Input(Address(false), 0));
    l' := Turn(l, Input(Address(false), 0));
    inputs' := inputs + [Input(Address(false), 0)];
    for n := 0 to |bytes|
      invariant Reaches(l0, inputs', l') && Reading(l'.port.bus).None?
      invariant |inputs'| == |inputs| + 1 + n && inputs'[..|inputs|] == inputs
      invariant inputs'[|inputs|] == Input(Address(false), 0)
      invariant forall k :: 0 <= k < n ==> inputs'[|inputs| + 1 + k] == Input(In(bytes[k]), 0)
      invariant l' == l.(port := l.port.(c := l.port.c.(segment := Some(Segment(bytes[..n], false)), armed := []),
                                         bus := l'.port.bus, live := []))
    {
      var l1 := l';
      QuietTurn(l', In(bytes[n]));
      OneTurn(l0, inputs', l', Input(In(bytes[n]), 0));
      inputs', l' := inputs' + [Input(In(bytes[n]), 0)], Turn(l', Input(In(bytes[n]), 0));
      assert bytes[..n + 1] == bytes[..n] + [bytes[n]];
      NextReading(l1.port.bus, Seen(In(bytes[n]), true, None));
    }
    assert bytes[..|bytes|] == bytes;
  }

  /** The host writes a whole request, and the loop answers it. */
  lemma Requested(l0: Loop, inputs: seq<Input>, l: Loop, bytes: seq<byte>)
    returns (inputs': seq<Input>, l': Loop, w: World)
    requires Reaches(l0, inputs, l) && Ready(l) && 1 <= |bytes| <= RX_SIZE
    requires forall v: World :: !Answer(l.(port := v), bytes).dev.Silent()
    ensures inputs' == inputs + Early(Writing(bytes))
    ensures Reaches(l0, inputs', l') && l' == Answer(l.(port := w), bytes)
    ensures w.c == l.port.c.(parked := None, awaiting := true, armed := [], consumed := false)
    ensures w.transactions == l.port.transactions && Reading(w.bus).None?
  {
    var inputs1, l1 := Written(l0, inputs, l, bytes);
    w := Do(l1.port, Twi.Lap(Stop));
    NextReading(l1.port.bus, Seen(Stop, true, None));
    hide Reaches, Reading;
    assert Fetch(PollStep(l1.port.c, Stop).client).1 == Some(bytes);
    AnswerArms(l1.(port := w), bytes);
    hide Answer, Do, PollStep;
    assert l1.(port := w) == l.(port := w);
    FrameTurn(l1, Stop, bytes);
    OneTurn(l0, inputs1, l1, Input(Stop, 0));
    inputs', l' := inputs1 + [Input(Stop, 0)], Turn(l1, Input(Stop, 0));
  }

  lemma AnswerArms(l: Loop, bytes: seq<byte>)
    requires l.dev.Valid() && !Answer(l, bytes).dev.Silent()
    ensures !Answer(l, bytes).port.c.consumed
    ensures Answer(l, bytes).port.c == l.port.c.(armed := Answer(l, bytes).port.response, idx := 0,
                                                 consumed := false, awaiting := false)
    ensures Answer(l, bytes).port.transactions == l.port.transactions
    ensures Answer(l, bytes).port.bus == l.port.bus && Answer(l, bytes).port.live == Answer(l, bytes).port.response
    ensures Parse(bytes).None? ==> Answer(l, bytes).port.response == BadFrameReply(bytes)
                                   && Answer(l, bytes).dev == l.dev
    ensures Parse(bytes).Some? ==>
              var f := Parse(bytes).value;
              Answer(l, bytes).port.response == MainLoop.Reply(f.cmd, Handle(l.dev, f, MainLoop.RSP_MAX).1)
  {
    hide Handle, MainLoop.Reply, BadFrameReply, Parse;
    var reply := BadFrameReply(bytes);
    assert reply[..Min(|reply|, TX_SIZE)] == reply;
    if Parse(bytes).Some? {
      var own := MainLoop.Reply(Parse(bytes).value.cmd, Handle(l.dev, Parse(bytes).value, MainLoop.RSP_MAX).1);
      assert own[..Min(|own|, TX_SIZE)] == own;
    }
  }

  /** A turn in which a pending boot finds a response consumed, and a gate that accepts. */
  lemma JumpTurn(l: Loop, e: Bus)
    requires l.dev.Valid() && l.dev.under.None? && !l.dev.Silent() && l.dev.bootPending && GateAccepts(l.dev.flash)
    requires var w := Do(l.port, Twi.Lap(e));
             w.c.parked.None? && w.delivered == l.port.delivered && w.c.consumed
    ensures Turn(l, Input(e, 0)).dev.jumped && Turn(l, Input(e, 0)).port == Do(l.port, Twi.Lap(e))
  {
    hide PollStep, Answer, GateAccepts, LastHanded;
  }

  /** The host begins to read. */
  lemma ReadBegun(l0: Loop, inputs: seq<Input>, l: Loop, n: nat) returns (inputs': seq<Input>, l': Loop)
    requires Reaches(l0, inputs, l) && Ready(l) && l.port.c.armed == l.port.live == l.port.response
    requires n <= |l.port.response|
    ensures Reaches(l0, inputs', l') && Reading(l'.port.bus) == Some(n)
    ensures inputs' == inputs + Early([Address(true)] + seq(n, _ => Out(false)))
    ensures l' == l.(port := l.port.(
              c := l.port.c.(idx := n, first := n == 0, active := true),
              bus := l'.port.bus,
              transactions := l.port.transactions + [Read(l.port.response, l.port.response[..n], false)]))
    decreases n
  {
    hide Answer, Reaches, Turn, GateAccepts, Reading;
    var response := l.port.response;
    if n == 0 {
      NextReading(l.port.bus, Seen(Address(true), true, None));
      QuietTurn(l, Address(true));
      OneTurn(l0, inputs, l, Input(Address(true), 0));
      inputs', l' := inputs + [Input(Address(true), 0)], Turn(l, Input(Address(true), 0));
      assert [Address(true)] + seq(0, _ => Out(false)) == [Address(true)];
    } else {
      var inputs1, l1 := ReadBegun(l0, inputs, l, n - 1);
      NextReading(l1.port.bus, Seen(Out(false), true, Some(response[n - 1])));
      QuietTurn(l1, Out(false));
      OneTurn(l0, inputs1, l1, Input(Out(false), 0));
      inputs', l' := inputs1 + [Input(Out(false), 0)], Turn(l1, Input(Out(false), 0));
      assert response[..n] == response[..n - 1] + [response[n - 1]];
    }
  }

  /** The host reads the whole response, and the loop jumps when it ends the read. */
  lemma Collected(l0: Loop, inputs: seq<Input>, l: Loop, nack: bool) returns (inputs': seq<Input>, l': Loop)
    requires Reaches(l0, inputs, l) && Ready(l) && l.port.c.armed == l.port.live == l.port.response != []
    requires l.dev.under.None? && l.dev.bootPending && GateAccepts(l.dev.flash)
    ensures inputs' == inputs + Early(ReadingOf(|l.port.response|, nack))
    ensures Reaches(l0, inputs', l') && l'.dev.jumped
    ensures l'.port.transactions == l.port.transactions + [Read(l.port.response, l.port.response, true)]
  {
    hide Answer, Reaches, Turn, GateAccepts, Reading;
    var response := l.port.response;
    var inputs1, l1 := ReadBegun(l0, inputs, l, |response|);
    assert response[..|response|] == response && response + [] == response;
    var end := if nack then Out(true) else Stop;
    JumpTurn(l1, end);
    OneTurn(l0, inputs1, l1, Input(end, 0));
    inputs', l' := inputs1 + [Input(end, 0)], Turn(l1, Input(end, 0));
    if nack {
      SilentTurn(l', Input(Stop, 0));
      OneTurn(l0, inputs', l', Input(Stop, 0));
      inputs' := inputs' + [Input(Stop, 0)];
    }
  }

  lemma SilentTurn(l: Loop, i: Input)
    requires l.dev.Valid() && l.dev.Silent()
    ensures Turn(l, i) == l
  {
  }

  lemma BootAccepted(l: Loop, bytes: seq<byte>)
    requires l.dev.Valid() && l.dev.under.None? && !l.dev.Silent() && GateAccepts(l.dev.flash)
    requires Parse(bytes) == Some(Frame(CMD_BOOT, []))
    ensures Answer(l, bytes).dev == l.dev.(bootPending := true)
    ensures Handle(l.dev, Frame(CMD_BOOT, []), MainLoop.RSP_MAX).1 == [ST_OK]
  {
    hide GateAccepts, Parse, MainLoop.Reply, Do;
  }

  /** The ordinary course: the host writes BOOT and reads the four octets of the reply, refusing a fifth
      or not; by the stop the device has jumped. */
  lemma BootReadStarts(d: Dev, entry: bool, nack: bool)
    requires d.Valid() && d.under.None? && !d.Silent() && !d.bootPending && GateAccepts(d.flash)
    ensures var l0 := Loop(START, d, entry, []);
            var inputs := Early(Writing(Encoded(Frame(CMD_BOOT, []))) + ReadingOf(4, nack));
            LegalBus(l0, inputs) && Turns(l0, inputs).dev.jumped
  {
    hide GateAccepts, Turns, LegalBus, IsFrame, Answer, Encoded, Handle, Writing, ReadingOf, Parse;
    var l0, boot := Loop(START, d, entry, []), Encoded(Frame(CMD_BOOT, []));
    StartReaches(l0);
    ParseInvertsEncoded(Frame(CMD_BOOT, []));
    forall w: World {
      BootAccepted(l0.(port := w), boot);
    }
    BootAccepted(l0, boot);
    var inputs1, l1 := Exchanged(l0, [], l0, boot);
    var inputs2, l2 := Collected(l0, inputs1, l1, nack);
    assert inputs2 == Early(Writing(boot) + ReadingOf(4, nack));
  }

  /** A request that keeps the device listening leaves the loop ready for the next, its response armed. */
  lemma Exchanged(l0: Loop, inputs: seq<Input>, l: Loop, bytes: seq<byte>) returns (inputs': seq<Input>, l': Loop)
    requires Reaches(l0, inputs, l) && Ready(l) && 1 <= |bytes| <= RX_SIZE
    requires forall v: World :: !Answer(l.(port := v), bytes).dev.Silent()
    requires forall v: World :: Answer(l.(port := v), bytes).dev == Answer(l, bytes).dev
    ensures Reaches(l0, inputs', l') && Ready(l') && l'.dev == Answer(l, bytes).dev
    ensures inputs' == inputs + Early(Writing(bytes))
    ensures l'.port.c.armed == l'.port.live == l'.port.response && l'.port.transactions == l.port.transactions
    ensures Parse(bytes).None? ==> l'.port.response == BadFrameReply(bytes)
    ensures Parse(bytes).Some? ==>
              var f := Parse(bytes).value;
              l'.port.response == MainLoop.Reply(f.cmd, Handle(l.dev, f, MainLoop.RSP_MAX).1)
  {
    hide Reaches, Answer, MainLoop.Reply, Handle, BadFrameReply, Parse;
    var w: World;
    inputs', l', w := Requested(l0, inputs, l, bytes);
    AnswerArms(l.(port := w), bytes);
  }

  /** The documentation has the device jump only once the reply to BOOT has been read. It jumps once
      the last reply has: a host that writes anything else before it reads makes the reply to an
      accepted BOOT disappear, and reading the other reply starts the application. */
  lemma BootReplyCanBeSkipped(d: Dev, entry: bool) returns (inputs: seq<Input>, l: Loop)
    requires d.Valid() && d.under.None? && !d.Silent() && !d.bootPending && GateAccepts(d.flash)
    ensures LegalBus(Loop(START, d, entry, []), inputs) && Turns(Loop(START, d, entry, []), inputs) == l
    ensures l.dev.jumped
    ensures forall r :: r in l.port.transactions ==> r.response != Own()
  {
    hide GateAccepts, Turns, LegalBus, IsFrame, Answer, Encoded, Own, BadFrameReply;
    var l0, boot := Loop(START, d, entry, []), Encoded(Frame(CMD_BOOT, []));
    StartReaches(l0);
    ParseInvertsEncoded(Frame(CMD_BOOT, []));
    forall w: World {
      BootAccepted(l0.(port := w), boot);
    }
    BootAccepted(l0, boot);
    var inputs1, l1 := Exchanged(l0, [], l0, boot);
    NotAFrame([0]);
    forall w: World {
      BadFrameAnswered(l1.(port := w), [0]);
    }
    BadFrameAnswered(l1, [0]);
    var inputs2, l2 := Exchanged(l0, inputs1, l1, [0]);
    inputs, l := Collected(l0, inputs2, l2, false);
    RepliesDiffer();
  }

  lemma BadFrameAnswered(l: Loop, bytes: seq<byte>)
    requires l.dev.Valid() && Parse(bytes).None?
    ensures Answer(l, bytes).dev == l.dev
  {
  }

  lemma StartReaches(l: Loop)
    requires l.dev.Valid()
    ensures Reaches(l, [], l)
  {
  }

  lemma NotAFrame(s: seq<byte>)
    requires |s| < FRAME_OVERHEAD
    ensures Parse(s).None?
  {
  }

  lemma RepliesDiffer()
    ensures BadFrameReply([0])[0] != Own()[0]
  {
  }
}
