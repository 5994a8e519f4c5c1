/** The two receivers: the device's pull loop over a port FIFO and the host's push scanner. Both are
    the machine of `Stream`. */
module Receivers {
  import opened Bytes
  import opened Frames
  import opened Stream

  /** One poll of a machine in state `st` over the queued octets: it stops behind the first complete
      frame and leaves the rest queued, or drains the queue. */
  function PollStep(cap: nat, st: State, queue: seq<byte>): (r: (State, seq<byte>, Option<seq<byte>>))
    ensures r.2.None? ==> r.1 == []
    ensures |r.1| <= |queue|
    decreases queue
  {
    if queue == [] then (st, [], None)
    else
      var (st', out) := Push(cap, st, queue[0]);
      if out.Complete? then (st', queue[1..], Some(out.frame)) else PollStep(cap, st', queue[1..])
  }

  // ---- device ----

  class Link {
    const buf: array<byte>
    var n: nat
    var inFrame: bool
    /** Octets waiting in the port, and octets put on the wire. */
    var queue: seq<byte>
    var wire: seq<byte>

    ghost predicate Valid()
      reads this`n, this`inFrame, buf
    {
      && buf.Length < 256
      && (inFrame ==> n < buf.Length)
      && Reachable(buf.Length, State())
    }

    ghost function State(): Stream.State
      reads this`n, this`inFrame, buf
    {
      if inFrame && n <= buf.Length then InFrame(buf[..n]) else Hunting
    }

    constructor (buf: array<byte>)
      requires buf.Length < 256
      ensures Valid() && this.buf == buf && State() == Hunting && queue == [] && wire == []
    {
      this.buf := buf;
      n, inFrame, queue, wire := 0, false, [], [];
    }

    method GetByte() returns (b: Option<byte>)
      modifies this`queue
      ensures old(queue) == [] ==> b.None? && queue == []
      ensures old(queue) != [] ==> b == Some(old(queue)[0]) && queue == old(queue)[1..]
    {
      if queue == [] {
        return None;
      }
      b := Some(queue[0]);
      queue := queue[1..];
    }

    /** One octet into the machine; a complete frame occupies the front of `buf`. */
    method Take(b: byte) returns (done: Option<Frame>)
      requires Valid()
      modifies this`n, this`inFrame, buf
      ensures Valid()
      ensures var (st, out) := Push(buf.Length, old(State()), b);
              && State() == st
              && (if out.Complete? then Parse(out.frame) == done && done.Some? else done == None)
    {
      hide IsFrame;
      ghost var got := if inFrame then buf[..n] else [];
      if !inFrame {
        if b == SYNC && buf.Length >= FRAME_OVERHEAD {
          inFrame := true;
          n := 0;
        }
        return None;
      }
      buf[n] := b;
      n := n + 1;
      assert buf[..n] == got + [b];
      if n < 2 {
        return None;
      }
      var total := buf[1] + FRAME_OVERHEAD;
      if total > buf.Length {
        inFrame := false;
        return None;
      }
      if n < total {
        return None;
      }
      inFrame := false;
      done := UpdFrameParse(buf[..n]);
    }

    /** Terminates on whatever is queued. */
    method Poll() returns (r: Option<Frame>)
      requires Valid()
      modifies this`n, this`inFrame, this`queue, buf
      ensures Valid()
      ensures var (st, rest, f) := PollStep(buf.Length, old(State()), old(queue));
              && State() == st && queue == rest
              && r == (if f.Some? then Parse(f.value) else None)
              && (f.Some? ==> r.Some?)
    {
      hide Push, Valid, IsFrame;
      ghost var st0, q0 := State(), queue;
      while true
        invariant Valid()
        invariant PollStep(buf.Length, State(), queue) == PollStep(buf.Length, st0, q0)
        decreases |queue|
      {
        var b := GetByte();
        if b.None? {
          return None;
        }
        var done := Take(b.value);
        if done.Some? {
          return done;
        }
      }
    }

    method Send(frame: seq<byte>)
      modifies this`wire
      ensures wire == old(wire) + [SYNC] + frame
    {
      wire := wire + [SYNC];
      for i := 0 to |frame|
        invariant wire == old(wire) + [SYNC] + frame[..i]
      {
        wire := wire + [frame[i]];
      }
    }
  }

  // ---- any interleaving of arrivals and polls ----

  datatype Act = Arrive(octets: seq<byte>) | Poll

  datatype Receiver = Receiver(st: State, queue: seq<byte>, arrived: seq<byte>, reported: seq<Hit>)

  function Do(cap: nat, r: Receiver, a: Act): Receiver {
    match a
    case Arrive(octets) => r.(queue := r.queue + octets, arrived := r.arrived + octets)
    case Poll =>
      var (st, rest, f) := PollStep(cap, r.st, r.queue);
      var end := |r.arrived| - |rest|;
      r.(st := st, queue := rest,
         reported := r.reported + if f.Some? && end >= 0 then [Hit(f.value, end)] else [])
  }

  function Run(cap: nat, r: Receiver, acts: seq<Act>): Receiver
    decreases acts
  {
    if acts == [] then r else Run(cap, Do(cap, r, acts[0]), acts[1..])
  }

  /** The receiver has seen the octets up to those still queued, and reported their frames. */
  ghost predicate InStep(cap: nat, r: Receiver) {
    var seen := |r.arrived| - |r.queue|;
    && 0 <= seen && r.queue == r.arrived[seen..]
    && r.st == After(cap, Hunting, r.arrived, 0, seen)
    && r.reported == Hits(cap, Hunting, r.arrived, 0, seen)
  }

  /** One poll looks at the octets `[i, k)` of the stream and reports the frame they complete, if any. */
  lemma {:induction false} PollIsHits(cap: nat, st: State, s: seq<byte>, i: nat)
    returns (k: nat)
    requires i <= |s|
    ensures i <= k <= |s|
    ensures var (st', rest, f) := PollStep(cap, st, s[i..]);
            && st' == After(cap, st, s, i, k) && rest == s[k..]
            && Hits(cap, st, s, i, k) == if f.Some? then [Hit(f.value, k)] else []
    decreases |s| - i
  {
    hide Push;
    if i == |s| {
      k := i;
    } else {
      assert s[i..][0] == s[i] && s[i..][1..] == s[i + 1..];
      var (st', out) := Push(cap, st, s[i]);
      if out.Complete? {
        k := i + 1;
        assert Hits(cap, st', s, k, k) == [];
      } else {
        k := PollIsHits(cap, st', s, i + 1);
      }
    }
  }

  lemma ArriveKeepsStep(cap: nat, r: Receiver, octets: seq<byte>)
    requires InStep(cap, r)
    ensures InStep(cap, Do(cap, r, Arrive(octets)))
  {
    hide Push, After, Hits, PollStep;
    var seen, all := |r.arrived| - |r.queue|, r.arrived + octets;
    assert all[seen..] == r.queue + octets;
    SamePrefix(cap, r.arrived, all, seen);
  }

  lemma PollKeepsStep(cap: nat, r: Receiver)
    requires InStep(cap, r)
    ensures InStep(cap, Do(cap, r, Poll))
  {
    hide Push, After, Hits, PollStep;
    var seen := |r.arrived| - |r.queue|;
    var k := PollIsHits(cap, r.st, r.arrived, seen);
    Split(cap, Hunting, r.arrived, 0, seen, k);
  }

  lemma DoKeepsStep(cap: nat, r: Receiver, a: Act)
    requires InStep(cap, r)
    ensures InStep(cap, Do(cap, r, a))
  {
    hide InStep, Do;
    match a {
      case Arrive(octets) => ArriveKeepsStep(cap, r, octets);
      case Poll => PollKeepsStep(cap, r);
    }
  }

  lemma {:induction false} RunKeepsStep(cap: nat, r: Receiver, acts: seq<Act>)
    requires InStep(cap, r)
    ensures InStep(cap, Run(cap, r, acts))
    decreases acts
  {
    hide InStep, Do;
    if acts != [] {
      DoKeepsStep(cap, r, acts[0]);
      RunKeepsStep(cap, Do(cap, r, acts[0]), acts[1..]);
    }
  }

  /** What a machine reports of a stream so far is what the parser finds in the octets so far. */
  lemma PrefixParsed(cap: nat, s: seq<byte>, k: nat)
    requires k <= |s|
    ensures Hits(cap, Hunting, s, 0, k) == Scan(cap, s[..k], 0)
  {
    hide Push, Hits, After, Scan;
    var t := s[..k];
    SamePrefix(cap, s, t, k);
    MachineIsParser(cap, t, 0);
  }

  /** However the stream is cut into arrivals and polls, the link reports the frames of the pure
      parser at the same positions: those of the octets seen so far, and all of them once drained. */
  lemma PollingIsParsing(cap: nat, acts: seq<Act>)
    ensures var r := Run(cap, Receiver(Hunting, [], [], []), acts);
            var seen := |r.arrived| - |r.queue|;
            && 0 <= seen
            && r.reported == Scan(cap, r.arrived[..seen], 0)
            && (r.queue == [] ==> r.reported == Scan(cap, r.arrived, 0))
  {
    hide Push, Scan, Run;
    var r0 := Receiver(Hunting, [], [], []);
    assert InStep(cap, r0);
    RunKeepsStep(cap, r0, acts);
    var r := Run(cap, r0, acts);
    var seen := |r.arrived| - |r.queue|;
    PrefixParsed(cap, r.arrived, seen);
    assert r.queue == [] ==> r.arrived[..seen] == r.arrived;
  }

  // ---- host ----

  datatype ScanResult = Hunt | Assembling | Done(len: nat) | Drop

  class RxScanner {
    var n: nat
    var inFrame: bool

    /** What a scanner and its buffer stand for, and what every push of one buffer keeps. */
    ghost function State(buf: array<byte>): Stream.State
      reads this, buf
    {
      if inFrame && n <= buf.Length then InFrame(buf[..n]) else Hunting
    }

    ghost predicate Valid(buf: array<byte>)
      reads this, buf
    {
      (inFrame ==> n < buf.Length) && Reachable(Capacity(buf.Length), State(buf))
    }

    constructor ()
      ensures !inFrame && n == 0
    {
      n, inFrame := 0, false;
    }

    method Reset()
      modifies this
      ensures !inFrame && n == 0
    {
      n := 0;
      inFrame := false;
    }

    /** Total for every state and buffer; on the states a buffer has been through, one step of the
        machine, whose capacity a larger buffer does not widen. */
    method Push(b: byte, buf: array<byte>) returns (r: ScanResult)
      modifies this, buf
      ensures old(Valid(buf)) ==>
                && Valid(buf)
                && var (st, out) := Stream.Push(Capacity(buf.Length), old(State(buf)), b);
                   && State(buf) == st
                   && r == Reported(out)
                   && (out.Complete? ==> |out.frame| <= buf.Length && buf[..|out.frame|] == out.frame)
    {
      hide IsFrame, Decode;
      ghost var before, got := State(buf), if n <= buf.Length then buf[..n] else [];
      if !inFrame {
        if b == SYNC && buf.Length >= FRAME_OVERHEAD {
          inFrame := true;
          n := 0;
          return Assembling;
        }
        return Hunt;
      }
      if n >= buf.Length {
        Reset();
        return Drop;
      }
      buf[n] := b;
      n := n + 1;
      assert buf[..n] == got + [b];
      if n < 2 {
        return Assembling;
      }
      var declared := buf[1];
      var total := declared + FRAME_OVERHEAD;
      if declared > PAYLOAD_MAX || total > buf.Length {
        Reset();
        return Drop;
      }
      if n < total {
        return Assembling;
      }
      Reset();
      AcceptSetsCoincide(buf[..total]);
      if Decode(buf[..total]).Ok? {
        return Done(total);
      }
      return Drop;
    }
  }

  /** A host buffer beyond the largest frame takes no longer frames than the device's. */
  function Capacity(length: nat): nat {
    Min(length, PAYLOAD_MAX + FRAME_OVERHEAD)
  }

  function Reported(out: Outcome): ScanResult {
    match out
    case Skipped => Hunt
    case Taken => Assembling
    case Complete(frame) => Done(|frame|)
    case Dropped => Drop
  }
}
