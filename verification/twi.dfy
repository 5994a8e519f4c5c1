/** The TWI client of the AVR port: whole frames come out of bus transactions, and responses go into
    them. Every poll services one bus event. */
module Twi {
  import opened Bytes

  const RX_SIZE: nat := 136
  const TX_SIZE: nat := 20

  datatype Bus = Idle | Fault | Address(isRead: bool) | Stop | Out(nack: bool) | In(b: byte)

  /** A write segment under way: its octets, as far as they fit. */
  datatype Segment = Segment(data: seq<byte>, over: bool)

  /** `parked` is a complete frame the loop has not fetched, `awaiting` that it has not answered yet. */
  datatype Client = Client(
    segment: Option<Segment>,
    parked: Option<seq<byte>>,
    awaiting: bool,
    armed: seq<byte>,
    idx: nat,
    first: bool,
    active: bool,
    consumed: bool)

  /** What a poll makes of its event: an event not taken stays pending, with the clock held. */
  datatype Polled = Polled(client: Client, taken: bool, sent: Option<byte>)

  function Park(c: Client): Client {
    if c.segment.None? then c
    else
      var s := c.segment.value;
      c.(segment := None, parked := if s.data != [] && !s.over then Some(s.data) else c.parked)
  }

  function EndRead(c: Client): Client {
    c.(active := false, first := false, consumed := c.consumed || (c.armed != [] && c.idx >= |c.armed|))
  }

  /** Start, or repeated start: it ends a segment under way, and waits while a frame is unanswered. */
  function OnAddress(c: Client, isRead: bool): Polled {
    var p := Park(c);
    if p.parked.Some? || p.awaiting then Polled(p, false, None)
    else if isRead then Polled(p.(first := true, idx := 0, active := true), true, None)
    else Polled(p.(segment := Some(Segment([], false)), armed := []), true, None)
  }

  function OnOut(c: Client, nack: bool): Polled {
    if !c.first && nack then Polled(EndRead(c), true, None)
    else if c.idx < |c.armed| then Polled(c.(first := false, idx := c.idx + 1), true, Some(c.armed[c.idx]))
    else Polled(c.(first := false), true, Some(BLANK))
  }

  function OnIn(c: Client, b: byte): Client {
    if c.segment.None? then c
    else
      var s := c.segment.value;
      c.(segment := Some(if |s.data| < RX_SIZE then s.(data := s.data + [b]) else s.(over := true)))
  }

  function PollStep(c: Client, e: Bus): Polled {
    match e
    case Idle => Polled(c, true, None)
    case Fault => Polled(c.(segment := None, active := false, first := false), true, None)
    case Address(isRead) => OnAddress(c, isRead)
    case Stop => Polled(Park(if c.active then EndRead(c) else c), true, None)
    case Out(nack) => OnOut(c, nack)
    case In(b) => Polled(OnIn(c, b), true, None)
  }

  function Fetch(c: Client): (r: (Client, Option<seq<byte>>)) {
    if c.parked.None? then (c, None)
    else (c.(parked := None, awaiting := true, armed := [], consumed := false), c.parked)
  }

  function Arm(c: Client, frame: seq<byte>): Client {
    c.(armed := frame[..Min(|frame|, TX_SIZE)], idx := 0, consumed := false, awaiting := false)
  }

  class Port {
    const rxBuf: array<byte>
    const txBuf: array<byte>
    var rxLen: nat
    var rxFrame: nat
    var rxOver: bool
    var rxDone: bool
    var inWrite: bool
    var awaiting: bool
    var txLen: nat
    var txIdx: nat
    var txFirst: bool
    var txActive: bool
    var txConsumed: bool

    ghost predicate Valid()
      reads this
    {
      && rxBuf.Length == RX_SIZE && txBuf.Length == TX_SIZE && rxBuf != txBuf
      && rxLen <= RX_SIZE && txLen <= TX_SIZE
      && (rxDone ==> 1 <= rxFrame <= RX_SIZE && !inWrite)
    }

    ghost function State(): Client
      requires Valid()
      reads this, rxBuf, txBuf
    {
      Client(if inWrite then Some(Segment(rxBuf[..rxLen], rxOver)) else None,
             if rxDone then Some(rxBuf[..rxFrame]) else None,
             awaiting, txBuf[..txLen], txIdx, txFirst, txActive, txConsumed)
    }

    constructor ()
      ensures Valid() && fresh(rxBuf) && fresh(txBuf)
      ensures State() == Client(None, None, false, [], 0, false, false, false)
    {
      rxBuf, txBuf := new byte[RX_SIZE], new byte[TX_SIZE];
      rxLen, rxFrame, txLen, txIdx := 0, 0, 0, 0;
      rxOver, rxDone, inWrite, awaiting := false, false, false, false;
      txFirst, txActive, txConsumed := false, false, false;
    }

    method ParkSegment()
      requires Valid()
      modifies this
      ensures Valid() && State() == Park(old(State())) && !inWrite
    {
      if inWrite {
        inWrite := false;
        if rxLen != 0 && !rxOver {
          rxDone := true;
          rxFrame := rxLen;
        }
        rxLen := 0;
        rxOver := false;
      }
    }

    method EndReadTxn()
      requires Valid()
      modifies this
      ensures Valid() && State() == EndRead(old(State()))
    {
      txActive := false;
      txFirst := false;
      if txLen != 0 && txIdx >= txLen {
        txConsumed := true;
      }
    }

    method PollAddress(isRead: bool) returns (taken: bool)
      requires Valid()
      modifies this
      ensures Valid() && Polled(State(), taken, None) == OnAddress(old(State()), isRead)
    {
      ParkSegment();
      if rxDone || awaiting {
        return false;
      }
      if isRead {
        txFirst, txIdx, txActive := true, 0, true;
      } else {
        inWrite, rxLen, rxOver, txLen := true, 0, false, 0;
        assert rxBuf[..rxLen] == [] && txBuf[..txLen] == [];
      }
      return true;
    }

    method PollOut(nack: bool) returns (sent: Option<byte>)
      requires Valid()
      modifies this
      ensures Valid() && Polled(State(), true, sent) == OnOut(old(State()), nack)
    {
      if !txFirst && nack {
        EndReadTxn();
        return None;
      }
      txFirst := false;
      if txIdx < txLen {
        sent := Some(txBuf[txIdx]);
        txIdx := txIdx + 1;
      } else {
        sent := Some(BLANK);
      }
    }

    method PollIn(b: byte)
      requires Valid()
      modifies this, rxBuf
      ensures Valid() && State() == OnIn(old(State()), b)
    {
      if inWrite {
        if rxLen < RX_SIZE {
          rxBuf[rxLen] := b;
          rxLen := rxLen + 1;
          assert rxBuf[..rxLen] == old(rxBuf[..rxLen]) + [b];
        } else {
          rxOver := true;
        }
      }
    }

    method Poll(e: Bus) returns (taken: bool, sent: Option<byte>)
      requires Valid()
      modifies this, rxBuf
      ensures Valid() && Polled(State(), taken, sent) == PollStep(old(State()), e)
    {
      hide OnAddress, OnOut, OnIn, Park, EndRead;
      taken, sent := true, None;
      match e {
        case Idle =>
        case Fault =>
          rxLen, rxOver, inWrite, txActive, txFirst := 0, false, false, false, false;
        case Address(isRead) =>
          taken := PollAddress(isRead);
        case Stop =>
          if txActive {
            EndReadTxn();
          }
          ParkSegment();
        case Out(nack) =>
          sent := PollOut(nack);
        case In(b) =>
          PollIn(b);
      }
    }

    /** Polls once, and hands over a parked frame. */
    method Recv(e: Bus) returns (frame: Option<seq<byte>>, taken: bool, sent: Option<byte>)
      requires Valid()
      modifies this, rxBuf
      ensures Valid()
      ensures var p := PollStep(old(State()), e);
              taken == p.taken && sent == p.sent && (State(), frame) == Fetch(p.client)
      ensures frame.Some? ==> 1 <= |frame.value| <= RX_SIZE
    {
      taken, sent := Poll(e);
      if !rxDone {
        return None, taken, sent;
      }
      frame := Some(rxBuf[..rxFrame]);
      rxDone := false;
      awaiting := true;
      txLen := 0;
      txConsumed := false;
    }

    method Send(frame: seq<byte>)
      requires Valid()
      modifies this, txBuf
      ensures Valid() && State() == Arm(old(State()), frame)
    {
      var len := Min(|frame|, TX_SIZE);
      for i := 0 to len
        invariant unchanged(this) && txBuf[..i] == frame[..i]
      {
        txBuf[i] := frame[i];
      }
      txLen, txIdx, txConsumed, awaiting := len, 0, false, false;
    }
  }

  // ---- runs ----

  /** A poll as the bus saw it. */
  datatype Seen = Seen(e: Bus, taken: bool, sent: Option<byte>)

  /** One bus transaction in which the host read: the response there was for it, the octets it was sent,
      and whether the host has ended it, by a stop or by refusing to take more. */
  datatype Read = Read(response: seq<byte>, sent: seq<byte>, ended: bool)

  datatype Act = Lap(e: Bus) | Send(frame: seq<byte>)

  /** What has happened, told without the client's own state: the bus, the frames it handed over and how
      many of them have been answered, the response there is for a read now (none from the next request
      on), the one given last, and the read transactions, `since` of them begun before that. */
  datatype World = World(
    c: Client,
    bus: seq<Seen>,
    delivered: seq<seq<byte>>,
    answered: nat,
    live: seq<byte>,
    response: seq<byte>,
    since: nat,
    transactions: seq<Read>)

  const START := World(Client(None, None, false, [], 0, false, false, false), [], [], 0, [], [], 0, [])

  /** How many octets the host has clocked in the read the bus is in, if it is in one. The host ends a
      read by refusing an octet; before the first there is none to refuse. */
  function Reading(bus: seq<Seen>): Option<nat> {
    if bus == [] then None
    else
      var before, last := Reading(bus[..|bus| - 1]), bus[|bus| - 1];
      match last.e
      case Address(isRead) => if isRead && last.taken then Some(0) else None
      case Out(nack) => if before.None? || (nack && before.value > 0) then None else Some(before.value + 1)
      case Stop => None
      case Fault => None
      case _ => before
  }

  function Transactions(rs: seq<Read>, reading: Option<nat>, live: seq<byte>, s: Seen): seq<Read> {
    if s.e == Address(true) && s.taken then rs + [Read(live, [], false)]
    else if rs == [] || reading.None? then rs
    else
      var last := rs[|rs| - 1];
      rs[|rs| - 1 := Read(last.response, last.sent + (if s.sent.Some? then [s.sent.value] else []),
                          s.e.Stop? || (s.e == Out(true) && reading.value > 0))]
  }

  function Do(w: World, a: Act): World {
    match a
    case Lap(e) =>
      var p := PollStep(w.c, e);
      var (c, frame) := Fetch(p.client);
      var s := Seen(e, p.taken, p.sent);
      World(c, w.bus + [s],
            w.delivered + (if frame.Some? then [frame.value] else []), w.answered,
            if frame.Some? || (s.e == Address(false) && s.taken) then [] else w.live,
            w.response, w.since, Transactions(w.transactions, Reading(w.bus), w.live, s))
    case Send(frame) =>
      var response := frame[..Min(|frame|, 20)];
      w.(c := Arm(w.c, frame), answered := w.answered + 1,
         live := response, response := response, since := |w.transactions|)
  }

  function Run(w: World, acts: seq<Act>): World
    decreases acts
  {
    if acts == [] then w else Run(Do(w, acts[0]), acts[1..])
  }

  // ---- frames are write segments ----

  /** The octets of the write segment the bus is in, if it is in one. */
  function Open(bus: seq<Seen>): Option<seq<byte>> {
    if bus == [] then None
    else
      var before, last := Open(bus[..|bus| - 1]), bus[|bus| - 1];
      match last.e
      case Idle => before
      case Fault => None
      case Address(isRead) => if last.taken && !isRead then Some([]) else None
      case Stop => None
      case Out(_) => before
      case In(b) => if before.Some? then Some(before.value + [b]) else None
  }

  /** The write segments that a stop or a repeated start has completed and that fit the buffer. */
  function Segments(bus: seq<Seen>): seq<seq<byte>> {
    if bus == [] then []
    else
      var before, last := Open(bus[..|bus| - 1]), bus[|bus| - 1];
      var completed := (last.e.Stop? || last.e.Address?) && before.Some? && 1 <= |before.value| <= 136;
      Segments(bus[..|bus| - 1]) + (if completed then [before.value] else [])
  }

  /** What the client has of the segment under way. */
  predicate Tracks(c: Client, open: Option<seq<byte>>) {
    if open.None? then c.segment.None?
    else c.segment == Some(Segment(open.value[..Min(|open.value|, RX_SIZE)], |open.value| > RX_SIZE))
  }

  ghost predicate FramesInv(w: World) {
    && Tracks(w.c, Open(w.bus))
    && w.c.parked.None?
    && (w.c.segment.Some? ==> !w.c.awaiting)
    && w.delivered == Segments(w.bus)
  }

  lemma LapKeepsFrames(w: World, e: Bus)
    requires FramesInv(w)
    ensures FramesInv(Do(w, Lap(e)))
  {
    var p, before := PollStep(w.c, e), Open(w.bus);
    var bus := w.bus + [Seen(e, p.taken, p.sent)];
    assert bus[..|bus| - 1] == w.bus;
    if e.In? {
      assert Open(bus) == if before.Some? then Some(before.value + [e.b]) else None;
      OctetTracked(w.c, before, e.b);
    } else if before.Some? {
      hide OnOut;
      assert before.value[..|before.value|] == before.value;
    }
  }

  lemma OctetTracked(c: Client, open: Option<seq<byte>>, b: byte)
    requires Tracks(c, open)
    ensures Tracks(OnIn(c, b), if open.Some? then Some(open.value + [b]) else None)
  {
    if open.Some? {
      var v, n := open.value, Min(|open.value|, RX_SIZE);
      assert (v + [b])[..Min(|v| + 1, RX_SIZE)] == if |v| < RX_SIZE then v[..n] + [b] else v[..n];
    }
  }

  lemma {:induction false} FramesAreSegments(w: World, acts: seq<Act>)
    requires FramesInv(w)
    ensures FramesInv(Run(w, acts))
    decreases acts
  {
    hide FramesInv, Open, Segments;
    if acts != [] {
      match acts[0] {
        case Lap(e) => LapKeepsFrames(w, e);
        case Send(_) => SendKeepsFrames(w, acts[0]);
      }
      FramesAreSegments(Do(w, acts[0]), acts[1..]);
    }
  }

  lemma SendKeepsFrames(w: World, a: Act)
    requires FramesInv(w) && a.Send?
    ensures FramesInv(Do(w, a))
  {
  }

  /** On every bus, the frames handed to the loop are exactly the completed write segments of 1 to 136
      octets, in order, each once and unaltered. */
  lemma ReceivesSegments(acts: seq<Act>)
    ensures Run(START, acts).delivered == Segments(Run(START, acts).bus)
  {
    FramesAreSegments(START, acts);
  }

  // ---- responses are what the host reads ----

  /** The bus is in a read the host has not ended: octets are asked for only there. */
  predicate InRead(bus: seq<Seen>) {
    Reading(bus).Some?
  }

  /** A legal bus, and a loop that answers frames it was handed. */
  ghost predicate Legal(w: World, acts: seq<Act>)
    decreases acts
  {
    acts == [] ||
    (&& (match acts[0]
         case Lap(e) => e.Out? ==> InRead(w.bus)
         case Send(_) => w.answered < |w.delivered|)
     && Legal(Do(w, acts[0]), acts[1..]))
  }

  /** The first `n` octets of a response with filler behind it. */
  function Padded(response: seq<byte>, n: nat): (s: seq<byte>)
    ensures |s| == n
  {
    seq(n, k requires 0 <= k < n => if k < |response| then response[k] else BLANK)
  }

  predicate Faithful(rs: seq<Read>) {
    forall k :: 0 <= k < |rs| ==> rs[k].sent == Padded(rs[k].response, |rs[k].sent|)
  }

  /** Some transaction from number `since` on got all of `response`, and the host has ended it. */
  predicate Handed(rs: seq<Read>, response: seq<byte>, since: nat) {
    response != [] && exists k :: since <= k < |rs| && Got(rs[k], response)
  }

  predicate Got(r: Read, response: seq<byte>) {
    r.ended && r.response == response && |r.sent| >= |response|
  }

  /** Some transaction begun since the last response was given got all of it, and has been ended. */
  predicate LastHanded(w: World) {
    Handed(w.transactions, w.response, w.since)
  }

  /** The transaction under way, `n` octets into it. */
  predicate ReadTracks(c: Client, live: seq<byte>, last: Read, n: nat) {
    && c.segment.None? && !c.awaiting && c.active && (c.first <==> n == 0) && c.idx == Min(n, |live|)
    && last.response == live && |last.sent| == n && !last.ended
  }

  ghost predicate ReadsInv(w: World) {
    && w.c.parked.None? && (w.c.segment.Some? ==> !w.c.awaiting)
    && w.answered <= |w.delivered| <= w.answered + 1 && (w.c.awaiting <==> w.answered < |w.delivered|)
    && w.c.armed == w.live && (w.live != [] ==> w.live == w.response)
    && w.since <= |w.transactions| && Faithful(w.transactions)
    && (match Reading(w.bus)
        case Some(n) =>
          w.since < |w.transactions| && ReadTracks(w.c, w.live, w.transactions[|w.transactions| - 1], n)
        case None => w.c.active ==> w.live == [] || w.c.idx == 0)
    && (w.c.consumed <==> !w.c.awaiting && LastHanded(w))
  }

  /** The last transaction counts from when it has been ended. */
  lemma HandedUpdate(rs: seq<Read>, r: Read, response: seq<byte>, since: nat)
    requires since < |rs| && !rs[|rs| - 1].ended
    ensures Handed(rs[|rs| - 1 := r], response, since)
            <==> Handed(rs, response, since) || (response != [] && Got(r, response))
  {
    hide Got;
    var rs', n := rs[|rs| - 1 := r], |rs| - 1;
    assert !Got(rs[n], response) by { NotEnded(rs[n], response); }
    if Handed(rs, response, since) {
      var k :| since <= k < |rs| && Got(rs[k], response);
      assert Got(rs'[k], response);
    }
    if response != [] && Got(r, response) {
      assert Got(rs'[n], response);
    }
    if Handed(rs', response, since) {
      var k :| since <= k < |rs'| && Got(rs'[k], response);
      assert k == n || Got(rs[k], response);
    }
  }

  lemma NotEnded(r: Read, response: seq<byte>)
    requires !r.ended
    ensures !Got(r, response)
  {
  }

  lemma HandedAppend(rs: seq<Read>, r: Read, response: seq<byte>, since: nat)
    requires !r.ended
    ensures Handed(rs + [r], response, since) <==> Handed(rs, response, since)
  {
    if Handed(rs, response, since) {
      var k :| since <= k < |rs| && Got(rs[k], response);
      assert Got((rs + [r])[k], response);
    }
    if Handed(rs + [r], response, since) {
      var k :| since <= k < |rs + [r]| && Got((rs + [r])[k], response);
      assert Got(rs[k], response);
    }
  }

  /** One more octet of the response, or of the filler, in the transaction under way, or its end. */
  lemma OutKeepsReads(w: World, nack: bool)
    requires ReadsInv(w) && InRead(w.bus)
    ensures ReadsInv(Do(w, Lap(Out(nack))))
  {
    hide Reading, Handed, Got;
    var n, rs := Reading(w.bus).value, w.transactions;
    var last, p := rs[|rs| - 1], OnOut(w.c, nack);
    var ended := nack && n > 0;
    NextReading(w.bus, Seen(Out(nack), true, p.sent));
    var r := Read(last.response, last.sent + (if p.sent.Some? then [p.sent.value] else []), ended);
    assert Do(w, Lap(Out(nack))).transactions == rs[|rs| - 1 := r];
    assert r.sent == Padded(r.response, |r.sent|);
    HandedUpdate(rs, r, w.response, w.since);
    GotIff(r, w.response);
  }

  lemma GotIff(r: Read, response: seq<byte>)
    ensures Got(r, response) <==> r.ended && r.response == response && |r.sent| >= |response|
  {
  }

  lemma NextReading(bus: seq<Seen>, s: Seen)
    ensures Reading(bus + [s]) ==
            match s.e
            case Address(isRead) => if isRead && s.taken then Some(0) else None
            case Out(nack) =>
              if Reading(bus).None? || (nack && Reading(bus).value > 0) then None
              else Some(Reading(bus).value + 1)
            case Stop => None
            case Fault => None
            case _ => Reading(bus)
  {
    assert (bus + [s])[..|bus|] == bus;
  }

  lemma AddressKeepsReads(w: World, isRead: bool)
    requires ReadsInv(w)
    ensures ReadsInv(Do(w, Lap(Address(isRead))))
  {
    hide Handed, Reading, Got;
    var p, rs := OnAddress(w.c, isRead), w.transactions;
    NextReading(w.bus, Seen(Address(isRead), p.taken, None));
    if isRead && p.taken {
      assert Padded(w.live, 0) == [];
      HandedAppend(rs, Read(w.live, [], false), w.response, w.since);
    } else if Reading(w.bus).Some? {
      UnchangedLast(rs);
    }
  }

  lemma UnchangedLast(rs: seq<Read>)
    requires rs != [] && !rs[|rs| - 1].ended
    ensures var last := rs[|rs| - 1];
            rs[|rs| - 1 := Read(last.response, last.sent + [], false)] == rs
  {
    assert rs[|rs| - 1].sent + [] == rs[|rs| - 1].sent;
  }

  lemma StopKeepsReads(w: World)
    requires ReadsInv(w)
    ensures ReadsInv(Do(w, Lap(Stop)))
  {
    hide Handed, Reading, Got;
    var rs := w.transactions;
    NextReading(w.bus, Seen(Stop, true, None));
    if Reading(w.bus).Some? {
      var last := rs[|rs| - 1];
      var r := Read(last.response, last.sent + [], true);
      assert last.sent + [] == last.sent;
      assert Do(w, Lap(Stop)).transactions == rs[|rs| - 1 := r];
      HandedUpdate(rs, r, w.response, w.since);
      GotIff(r, w.response);
    }
  }

  lemma OtherKeepsReads(w: World, e: Bus)
    requires ReadsInv(w) && (e.Idle? || e.Fault? || e.In?)
    ensures ReadsInv(Do(w, Lap(e)))
  {
    hide Handed, Reading, Got;
    NextReading(w.bus, Seen(e, true, None));
    if Reading(w.bus).Some? {
      UnchangedLast(w.transactions);
    }
  }

  lemma SendKeepsReads(w: World, frame: seq<byte>)
    requires ReadsInv(w) && w.answered < |w.delivered|
    ensures ReadsInv(Do(w, Send(frame)))
    ensures |frame| <= TX_SIZE ==> Do(w, Send(frame)).response == frame
  {
    hide Faithful, Reading;
  }

  lemma LapKeepsReads(w: World, e: Bus)
    requires ReadsInv(w) && (e.Out? ==> InRead(w.bus))
    ensures ReadsInv(Do(w, Lap(e)))
  {
    hide ReadsInv, Do;
    if e.Out? {
      OutKeepsReads(w, e.nack);
    } else if e.Address? {
      AddressKeepsReads(w, e.isRead);
    } else if e.Stop? {
      StopKeepsReads(w);
    } else {
      OtherKeepsReads(w, e);
    }
  }

  lemma {:induction false} RunKeepsReads(w: World, acts: seq<Act>)
    requires ReadsInv(w) && Legal(w, acts)
    ensures ReadsInv(Run(w, acts))
    decreases acts
  {
    hide ReadsInv, Do;
    if acts != [] {
      match acts[0] {
        case Lap(e) => LapKeepsReads(w, e);
        case Send(frame) => SendKeepsReads(w, frame);
      }
      RunKeepsReads(Do(w, acts[0]), acts[1..]);
    }
  }

  /** On every legal bus, each read transaction was sent a prefix of the response there was for it, with
      filler behind it, and the client reports the response consumed exactly when all frames handed over
      are answered and some transaction begun since the response was given got all of it and was ended. */
  lemma ReadsAreResponses(acts: seq<Act>)
    requires Legal(START, acts)
    ensures var w := Run(START, acts);
            && Faithful(w.transactions)
            && (w.c.consumed <==> w.answered == |w.delivered| && LastHanded(w))
  {
    RunKeepsReads(START, acts);
  }

  /** What the client does with the next event: the clock is held exactly at an address while a frame is
      unanswered, and every octet asked for is the next one of the response there is, from its start
      again in every read, or filler; but the one that the host refuses to take ends the read. */
  lemma NextEvent(acts: seq<Act>, e: Bus)
    requires Legal(START, acts) && (e.Out? ==> InRead(Run(START, acts).bus))
    ensures var w, w' := Run(START, acts), Do(Run(START, acts), Lap(e));
            var s := w'.bus[|w'.bus| - 1];
            && w'.bus == w.bus + [s] && s.e == e
            && (s.taken <==> (e.Address? ==> w'.answered == |w'.delivered|))
            && s.sent == if !e.Out? then None
                         else var n := Reading(w.bus).value;
                              if e.nack && n > 0 then None
                              else Some(if n < |w.live| then w.live[n] else BLANK)
  {
    StartReads();
    hide Reading, Handed, Faithful;
    RunKeepsReads(START, acts);
  }

  lemma StartReads()
    ensures ReadsInv(START)
  {
  }
}
