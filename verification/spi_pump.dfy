/** The device's SPI response queue. The octet on MISO during an exchange was staked before it, so
    everything goes out one exchange late. */
module SpiPump {
  import opened Bytes
  import opened Frames
  import opened Stream
  import opened Receivers
  import opened Transports
  import opened Device
  import Crc8

  const IDLE: byte := 0x00

  /** What the next `n` exchanges carry: the staked octet, the queue, then idle octets. */
  function Wire(staked: byte, queue: seq<byte>, n: nat): (s: seq<byte>)
    ensures |s| == n
  {
    seq(n, i requires 0 <= i < n => Slot(staked, queue, i))
  }

  /** What is left of the queue after `i` exchanges. */
  function Rest(queue: seq<byte>, i: nat): (s: seq<byte>)
    ensures |s| == if i < |queue| then |queue| - i else 0
  {
    queue[Min(i, |queue|)..]
  }

  function Slot(staked: byte, queue: seq<byte>, i: nat): byte {
    if i == 0 then staked else if i - 1 < |queue| then queue[i - 1] else IDLE
  }

  class Pump {
    const txBuf: array<byte>
    const txCap: nat
    var txLen: nat
    var txIdx: nat
    var stakedFromQueue: bool
    /** The shift register, the octet of a completed exchange not yet read, and all of MISO so far. */
    var shift: byte
    var received: Option<byte>
    var miso: seq<byte>

    ghost predicate Valid()
      reads this
    {
      txIdx <= txLen <= txCap <= txBuf.Length && txCap < 0x100
    }

    ghost function Queue(): seq<byte>
      reads this, txBuf
      requires Valid()
    {
      txBuf[txIdx..txLen]
    }

    constructor (txBuf: array<byte>, txCap: nat)
      requires txCap <= txBuf.Length && txCap < 0x100
      ensures Valid() && this.txBuf == txBuf && this.txCap == txCap
      ensures Queue() == [] && !stakedFromQueue && shift == IDLE && received == None && miso == []
    {
      this.txBuf, this.txCap := txBuf, txCap;
      txLen, txIdx, stakedFromQueue := 0, 0, false;
      shift, received, miso := IDLE, None, [];
    }

    method NextOut() returns (b: byte)
      requires Valid()
      modifies this`txIdx, this`stakedFromQueue
      ensures Valid()
      ensures stakedFromQueue == (old(Queue()) != [])
      ensures if old(Queue()) != [] then b == old(Queue())[0] && Queue() == old(Queue())[1..]
              else b == IDLE && Queue() == []
    {
      if txIdx < txLen {
        stakedFromQueue := true;
        b := txBuf[txIdx];
        txIdx := txIdx + 1;
      } else {
        stakedFromQueue := false;
        b := IDLE;
      }
    }

    method GetByte() returns (b: Option<byte>)
      requires Valid()
      modifies this
      ensures Valid() && b == old(received) && received == None && miso == old(miso)
      ensures b == None ==> shift == old(shift) && stakedFromQueue == old(stakedFromQueue) && Queue() == old(Queue())
      ensures b.Some? ==> stakedFromQueue == (old(Queue()) != [])
                          && (if old(Queue()) != [] then shift == old(Queue())[0] && Queue() == old(Queue())[1..]
                              else shift == IDLE && Queue() == [])
    {
      b := received;
      if b.Some? {
        received := None;
        shift := NextOut();
      }
    }

    /** A full queue drops the octet. */
    method PutByte(b: byte)
      requires Valid()
      modifies this`txLen, txBuf
      ensures Valid()
      ensures Queue() == if old(txLen) < txCap then old(Queue()) + [b] else old(Queue())
      ensures txLen == old(txLen) + if old(txLen) < txCap then 1 else 0
    {
      if txLen < txCap {
        txBuf[txLen] := b;
        txLen := txLen + 1;
      }
    }

    method TxClear()
      requires Valid()
      modifies this`txLen, this`txIdx
      ensures Valid() && Queue() == [] && txLen == 0
    {
      txLen := 0;
      txIdx := 0;
    }

    method TxIdle() returns (idle: bool)
      requires Valid()
      ensures idle <==> Queue() == [] && !stakedFromQueue
    {
      idle := txIdx == txLen && !stakedFromQueue;
    }

    /** Whatever fits of a sync and `frame` is queued. */
    method LinkSend(frame: seq<byte>)
      requires Valid() && txLen == 0
      modifies this`txLen, txBuf
      ensures Valid() && Queue() == ([SYNC] + frame)[..Min(1 + |frame|, txCap)]
    {
      PutByte(SYNC);
      for i := 0 to |frame|
        invariant Valid() && txIdx == 0 && txLen == Min(1 + i, txCap)
        invariant Queue() == ([SYNC] + frame)[..Min(1 + i, txCap)]
      {
        PutByte(frame[i]);
      }
    }

    /** The host clocks one exchange: this is hardware, and the loop has run since the last one. */
    method Exchange(mosi: byte)
      requires Valid() && received == None
      modifies this`received, this`miso
      ensures Valid() && received == Some(mosi) && miso == old(miso) + [shift]
    {
      miso := miso + [shift];
      received := Some(mosi);
    }

    /** An exchange with the device's loop running behind it. */
    method Clock(mosi: byte)
      requires Valid() && received == None
      modifies this
      ensures Valid() && received == None && miso == old(miso) + [old(shift)]
      ensures shift == Slot(old(shift), old(Queue()), 1) && Queue() == Rest(old(Queue()), 1)
      ensures stakedFromQueue == (|old(Queue())| > 0)
    {
      Exchange(mosi);
      var b := GetByte();
    }

    method ClockOut(mosi: seq<byte>)
      requires Valid() && received == None
      modifies this
      ensures Valid() && received == None
      ensures miso == old(miso) + Wire(old(shift), old(Queue()), |mosi|)
      ensures Queue() == Rest(old(Queue()), |mosi|) && shift == Slot(old(shift), old(Queue()), |mosi|)
      ensures stakedFromQueue == if mosi == [] then old(stakedFromQueue) else |mosi| <= |old(Queue())|
    {
      hide Wire, Rest, Slot, Queue, Valid;
      ghost var queue, was, stale, flag := Queue(), miso, shift, stakedFromQueue;
      NextSlot(stale, queue, 0);
      for i := 0 to |mosi|
        invariant Valid() && received == None
        invariant Queue() == Rest(queue, i) && shift == Slot(stale, queue, i)
        invariant stakedFromQueue == if i == 0 then flag else i - 1 < |queue|
        invariant miso == was + Wire(stale, queue, i)
      {
        NextSlot(stale, queue, i);
        Clock(mosi[i]);
      }
    }

    /** A new request has come in: its response replaces whatever was left of the last one. What was
        staked is out of reach. The pump is idle again exactly when the last octet has been clocked out. */
    method Respond(frame: seq<byte>, mosi: seq<byte>) returns (idle: bool)
      requires Valid() && received == None && 1 + |frame| <= txCap
      modifies this, txBuf
      ensures Valid() && received == None
      ensures miso == old(miso) + Wire(old(shift), [SYNC] + frame, |mosi|)
      ensures Queue() == Rest([SYNC] + frame, |mosi|) && shift == Slot(old(shift), [SYNC] + frame, |mosi|)
      ensures idle <==> |mosi| >= |frame| + 2
    {
      hide Wire;
      TxClear();
      LinkSend(frame);
      assert ([SYNC] + frame)[..1 + |frame|] == [SYNC] + frame;
      ClockOut(mosi);
      idle := TxIdle();
    }

    /** Exchanges before the response is there: polls, or a request that drains what the host has left
        of another response. */
    method RespondLate(polls: seq<byte>, frame: seq<byte>, mosi: seq<byte>) returns (idle: bool)
      requires Valid() && received == None && 1 + |frame| <= txCap
      modifies this, txBuf
      ensures Valid() && received == None
      ensures miso == old(miso) + Wire(old(shift), old(Queue()), |polls|)
                      + Wire(Slot(old(shift), old(Queue()), |polls|), [SYNC] + frame, |mosi|)
      ensures idle <==> |mosi| >= |frame| + 2
    {
      hide Wire, Slot;
      ClockOut(polls);
      idle := Respond(frame, mosi);
    }
  }

  lemma NextSlot(staked: byte, queue: seq<byte>, n: nat)
    ensures Wire(staked, queue, 0) == [] && Rest(queue, 0) == queue && Slot(staked, queue, 0) == staked
    ensures Wire(staked, queue, n + 1) == Wire(staked, queue, n) + [Slot(staked, queue, n)]
    ensures Rest(Rest(queue, n), 1) == Rest(queue, n + 1)
    ensures Slot(Slot(staked, queue, n), Rest(queue, n), 1) == Slot(staked, queue, n + 1)
  {
  }

  // ---- what the host makes of it ----

  /** MISO to a host that polls `idle` times before the reply is queued: `staked` went into the shift
      register before it began. */
  function Miso(staked: byte, idle: nat, frame: seq<byte>): nat -> byte {
    (n: nat) => if n < idle then Slot(staked, [], n) else Slot(Slot(staked, [], idle), [SYNC] + frame, n - idle)
  }

  lemma MisoIsWire(staked: byte, idle: nat, frame: seq<byte>, n: nat)
    ensures Clocked(Miso(staked, idle, frame), idle + n)
         == Wire(staked, [], idle) + Wire(Slot(staked, [], idle), [SYNC] + frame, n)
  {
  }

  lemma MisoAt(staked: byte, idle: nat, frame: seq<byte>, n: nat)
    ensures Miso(staked, idle, frame)(n) ==
            if n == 0 then staked
            else if n <= idle then IDLE
            else if n == idle + 1 then SYNC
            else if n - idle - 2 < |frame| then frame[n - idle - 2]
            else IDLE
  {
    assert n > idle + 1 ==> ([SYNC] + frame)[1..] == frame;
  }

  lemma Prefix(cap: nat, s: seq<byte>, t: seq<byte>)
    requires |s| <= |t| && s == t[..|s|]
    ensures Hits(cap, Hunting, s, 0, |s|) == Hits(cap, Hunting, t, 0, |s|)
    ensures Wasted(cap, Hunting, s, 0, |s|) == Wasted(cap, Hunting, t, 0, |s|)
    ensures var hits := Hits(cap, Hunting, s, 0, |s|);
            hits != [] ==> Hits(cap, Hunting, t, 0, |t|) != [] && Hits(cap, Hunting, t, 0, |t|)[0] == hits[0]
    ensures Wasted(cap, Hunting, s, 0, |s|) <= Wasted(cap, Hunting, t, 0, |t|)
  {
    hide Push, Hits, Wasted, After;
    var n := |s|;
    SamePrefix(cap, s, t, n);
    WasteOfSame(cap, Hunting, s, 0, n, t);
    Split(cap, Hunting, t, 0, n, |t|);
    WasteSplit(cap, Hunting, t, 0, n, |t|);
  }

  /** Octets without a sync are wasted one by one. */
  lemma {:induction false} BusyWasted(cap: nat, s: seq<byte>, i: nat, k: nat)
    requires i <= k <= |s| && SYNC !in s[i..k]
    ensures Wasted(cap, Hunting, s, i, k) == k - i
    decreases k - i
  {
    if i < k {
      assert s[i] == s[i..k][0] && s[i + 1..k] == s[i..k][1..];
      BusyWasted(cap, s, i + 1, k);
    }
  }

  lemma {:induction false} FrameWastesNothing(cap: nat, s: seq<byte>, j: nat, i: nat, k: nat)
    requires j <= i < k <= |s| && IsFrame(s[j..k]) && k - j <= cap
    ensures Wasted(cap, InFrame(s[j..i]), s, i, k) == 0
    decreases k - i
  {
    assert s[j..k][1] == s[j + 1];
    NextInFrame(cap, s, j, i);
    hide Push;
    if i + 1 < k {
      FrameWastesNothing(cap, s, j, i + 1, k);
    } else {
      assert Wasted(cap, Hunting, s, k, k) == 0;
    }
  }

  /** A reply behind busy octets, up to its last octet: the busy octets are wasted, the frame is found. */
  lemma ReplyScanned(cap: nat, busy: seq<byte>, frame: seq<byte>)
    requires SYNC !in busy && IsFrame(frame) && |frame| <= cap
    ensures var s := busy + [SYNC] + frame;
            && Hits(cap, Hunting, s, 0, |s|) == [Hit(frame, |s|)]
            && Wasted(cap, Hunting, s, 0, |s|) == |busy|
  {
    var s, n := busy + [SYNC] + frame, |busy|;
    SyncTaken(cap);
    hide Push, IsFrame, After;
    assert s[n + 1..|s|] == frame && s[0..n] == busy && s[n + 1..n + 1] == [] && s[n] == SYNC;
    NoSyncNoFrame(cap, s, 0, n);
    BusyWasted(cap, s, 0, n);
    Delivered(cap, s, n, |s|);
    Split(cap, Hunting, s, 0, n, |s|);
    WasteSplit(cap, Hunting, s, 0, n, |s|);
    FrameWastesNothing(cap, s, n + 1, n + 1, |s|);
    assert Wasted(cap, Hunting, s, n, |s|) == Wasted(cap, InFrame([]), s, n + 1, |s|);
  }

  lemma SyncTaken(cap: nat)
    requires cap >= FRAME_OVERHEAD
    ensures Push(cap, Hunting, SYNC) == (InFrame([]), Taken)
  {
  }

  /** Whatever outcome the host's request over such a line has, it is the frame itself, at its last
      octet, exactly when the budget outlasts the busy octets. */
  lemma BusyIsHarmless(
    length: nat, budget: nat, miso: nat -> byte, busy: seq<byte>, frame: seq<byte>, clocked: nat, r: Option<seq<byte>>)
    requires SYNC !in busy && IsFrame(frame) && |frame| <= Capacity(length)
    requires Clocked(miso, |busy| + 1 + |frame|) == busy + [SYNC] + frame
    requires IsOutcome(length, budget, miso, clocked, r)
    ensures if |busy| < budget then r == Some(frame) && clocked == |busy| + 1 + |frame| else r == None
  {
    hide Hits, Wasted, IsFrame;
    var cap, s, t := Capacity(length), busy + [SYNC] + frame, Clocked(miso, clocked);
    ReplyScanned(cap, busy, frame);
    if clocked < |s| {
      assert t == s[..clocked] by { assert t == Clocked(miso, |s|)[..clocked]; }
      Prefix(cap, t, s);
      HitsEndInside(cap, Hunting, t, 0, clocked);
      NoHitYet(cap, s, t);
    } else {
      assert s == t[..|s|];
      Prefix(cap, s, t);
    }
  }

  /** The first hit is the last octet's. */
  lemma NoHitYet(cap: nat, s: seq<byte>, t: seq<byte>)
    requires |t| < |s| && t == s[..|t|]
    requires |Hits(cap, Hunting, s, 0, |s|)| == 1 && Hits(cap, Hunting, s, 0, |s|)[0].end == |s|
    ensures Hits(cap, Hunting, t, 0, |t|) == []
  {
    hide Hits, Wasted;
    Prefix(cap, t, s);
    HitsEndInside(cap, Hunting, t, 0, |t|);
  }

  /** What goes out before the reply's own sync, one octet more than the polls: it is free of syncs
      exactly if the octet staked at first is no sync. */
  lemma PolledReply(staked: byte, idle: nat, frame: seq<byte>)
    ensures var busy := Wire(staked, [], idle) + [Slot(staked, [], idle)];
            && (SYNC in busy <==> staked == SYNC) && |busy| == idle + 1
            && Clocked(Miso(staked, idle, frame), idle + |frame| + 2) == busy + [SYNC] + frame
  {
    var late, all := Slot(staked, [], idle), Clocked(Miso(staked, idle, frame), idle + |frame| + 2);
    var busy := Wire(staked, [], idle) + [late];
    MisoIsWire(staked, idle, frame, |frame| + 2);
    assert Wire(late, [SYNC] + frame, |frame| + 2) == [late] + [SYNC] + frame;
    assert busy[0] == staked;
  }

  // ---- a stale octet that is a sync ----

  /** Where the frame of a hit starts. */
  function StartOf(h: Hit): int {
    h.end - |h.frame|
  }

  /** It starts behind a sync, at position `least` or later. */
  predicate Behind(s: seq<byte>, least: nat, h: Hit) {
    var p := StartOf(h);
    least <= p <= h.end <= |s| && p >= 1 && s[p - 1] == SYNC && h.frame == s[p..h.end]
  }

  lemma {:induction false} ScanBehind(cap: nat, s: seq<byte>, i: nat, h: Hit)
    requires i <= |s| && h in Scan(cap, s, i)
    ensures Behind(s, i + 1, h)
    decreases |s| - i, 1
  {
    hide IsFrame;
    if s[i] == SYNC && cap >= FRAME_OVERHEAD {
      ScanFrameBehind(cap, s, i + 1, h);
    } else {
      ScanBehind(cap, s, i + 1, h);
    }
  }

  lemma {:induction false} ScanFrameBehind(cap: nat, s: seq<byte>, j: nat, h: Hit)
    requires 1 <= j <= |s| && s[j - 1] == SYNC && h in ScanFrame(cap, s, j)
    ensures Behind(s, j, h)
    ensures StartOf(h) == j || StartOf(h) >= j + 3
    decreases |s| - j, 2
  {
    hide IsFrame;
    var total := s[j + 1] + FRAME_OVERHEAD;
    if total > cap {
      ScanBehind(cap, s, j + 2, h);
    } else if h != Hit(s[j..j + total], j + total) {
      ScanBehind(cap, s, j + total, h);
    }
  }

  /** MISO that begins with a stale sync, as far as it has been clocked. */
  function Stale(idle: nat, frame: seq<byte>, n: nat): (s: seq<byte>)
    ensures |s| == n
  {
    Clocked(Miso(SYNC, idle, frame), n)
  }

  lemma StaleAt(idle: nat, frame: seq<byte>, n: nat)
    requires |frame| >= FRAME_OVERHEAD
    ensures var s := Stale(idle, frame, n);
            && (n >= 1 ==> s[0] == SYNC)
            && (n >= 3 ==> s[2] == if idle == 0 then frame[0] else if idle == 1 then SYNC else IDLE)
            && (n >= 4 && idle == 2 ==> s[1..4] == [IDLE, IDLE, SYNC])
            && (n >= 4 && idle >= 3 ==> s[1..4] == [IDLE, IDLE, IDLE])
            && forall k :: idle + 2 <= k < n ==>
                 s[k] == if k - idle - 2 < |frame| then frame[k - idle - 2] else IDLE
  {
    hide Slot;
    forall k: nat
      ensures Miso(SYNC, idle, frame)(k) ==
              if k == 0 then SYNC else if k <= idle then IDLE else if k == idle + 1 then SYNC
              else if k - idle - 2 < |frame| then frame[k - idle - 2] else IDLE
    {
      MisoAt(SYNC, idle, frame, k);
    }
    hide Miso;
  }

  /** A frame of idle octets is a valid one; one that ends in a sync instead is not. */
  lemma IdleIsFrame()
    ensures IsFrame([IDLE, IDLE, IDLE]) && !IsFrame([IDLE, IDLE, SYNC])
  {
    var head: seq<byte> := [IDLE, IDLE];
    assert [IDLE, IDLE, IDLE][..2] == head && [IDLE, IDLE, SYNC][..2] == head;
    assert head[1..] == [IDLE] && head[1..][1..] == [];
    Crc8.BitsOfZero(8);
    Crc8.XorZero(0, Bv(IDLE));
    NumInjective(Bv(IDLE), 0);
    assert Crc8.Step(0, IDLE) == 0;
    assert Crc8.Fold(0, head) == Crc8.Fold(Crc8.Step(0, IDLE), head[1..]);
    assert Crc8.Fold(0, head[1..]) == Crc8.Fold(Crc8.Step(0, IDLE), head[1..][1..]);
  }

  /** From the stale sync on, the parser takes the next octets for a frame. */
  lemma StaleScanned(cap: nat, idle: nat, frame: seq<byte>, n: nat)
    requires cap >= FRAME_OVERHEAD && |frame| >= FRAME_OVERHEAD
    ensures var s := Stale(idle, frame, n);
            Hits(cap, Hunting, s, 0, n) == if n == 0 then [] else ScanFrame(cap, s, 1)
  {
    hide ScanFrame, Hits;
    StaleAt(idle, frame, n);
    MachineIsParser(cap, Stale(idle, frame, n), 0);
  }

  /** The stale sync hides the reply's own: no hit starts where the reply does. */
  lemma StaleSyncHides(cap: nat, idle: nat, frame: seq<byte>, n: nat, h: Hit)
    requires cap >= FRAME_OVERHEAD && |frame| >= FRAME_OVERHEAD && idle < 3
    requires h in Hits(cap, Hunting, Stale(idle, frame, n), 0, n)
    ensures StartOf(h) != idle + 2
  {
    hide IsFrame, Scan, Hits, Stale;
    var s := Stale(idle, frame, n);
    StaleAt(idle, frame, n);
    StaleScanned(cap, idle, frame, n);
    ScanFrameBehind(cap, s, 1, h);
    if idle == 2 && n >= 4 && h in Scan(cap, s, 4) {
      ScanBehind(cap, s, 4, h);
    }
  }

  /** Behind three polls or more it does not matter any longer: the request ends with idle octets. */
  lemma IdleIsFound(
    length: nat, budget: nat, idle: nat, frame: seq<byte>, clocked: nat, r: Option<seq<byte>>)
    requires idle >= 3 && FRAME_OVERHEAD <= |frame| <= Capacity(length)
    requires IsOutcome(length, budget, Miso(SYNC, idle, frame), clocked, r)
    ensures if budget > 0 then r == Some([IDLE, IDLE, IDLE]) && clocked == 4 else r == None
  {
    hide IsFrame, IsOutcome, Miso;
    var nothing: seq<byte> := [];
    IdleIsFrame();
    StaleAt(idle, frame, 4);
    assert Stale(idle, frame, 4) == nothing + [SYNC] + [IDLE, IDLE, IDLE];
    BusyIsHarmless(length, budget, Miso(SYNC, idle, frame), nothing, [IDLE, IDLE, IDLE], clocked, r);
  }

  /** A reply, in a window of the host's session: these hold 20 octets at most, too few for a frame whose
      length octet is a sync or a response command. */
  predicate Reply(length: nat, frame: seq<byte>) {
    IsFrame(frame) && frame[0] >= RSP_FLAG && |frame| <= Capacity(length) < SYNC + FRAME_OVERHEAD
  }

  /** There the scanner hunts again behind the reply's first octet. */
  lemma StaleSyncLoses(length: nat, idle: nat, frame: seq<byte>, n: nat, h: Hit)
    requires Reply(length, frame) && idle < 3
    requires h in Hits(Capacity(length), Hunting, Stale(idle, frame, n), 0, n)
    ensures Behind(Stale(idle, frame, n), idle + 3, h)
    ensures SYNC in frame[1..]
  {
    hide IsFrame, Scan, Hits, Stale;
    var s, cap := Stale(idle, frame, n), Capacity(length);
    assert |frame| >= FRAME_OVERHEAD by { FrameIsLong(frame); }
    StaleAt(idle, frame, n);
    StaleScanned(cap, idle, frame, n);
    IdleIsFrame();
    ScanBehind(cap, s, if idle == 2 then 4 else 3, h);
    var k := StartOf(h) - 1 - idle - 2;
    assert frame[1..][k - 1] == SYNC;
  }

  lemma FrameIsLong(frame: seq<byte>)
    requires IsFrame(frame)
    ensures |frame| >= FRAME_OVERHEAD
  {
  }

  lemma {:induction false} LastNonzero(s: seq<byte>) returns (m: nat)
    requires |s| > 0 && s[0] != IDLE
    ensures m < |s| && s[m] != IDLE && forall k :: m < k < |s| ==> s[k] == IDLE
    decreases |s|
  {
    m := |s| - 1;
    if s[m] == IDLE {
      m := LastNonzero(s[..m]);
    }
  }

  /** A reply does not occur a second time, further on in itself and the idle octets behind it. */
  lemma NotItself(idle: nat, frame: seq<byte>, n: nat, h: Hit)
    requires |frame| >= FRAME_OVERHEAD && frame[0] != IDLE
    requires Behind(Stale(idle, frame, n), idle + 3, h)
    ensures h.frame != frame
  {
    hide Stale;
    StaleAt(idle, frame, n);
    var m := LastNonzero(frame);
    if |h.frame| == |frame| {
      assert h.frame[m] == Stale(idle, frame, n)[StartOf(h) + m] == IDLE;
    }
  }

  /** The first hit is what the host's request returns, and it ends there. */
  lemma OutcomeIsFirst(length: nat, budget: nat, miso: nat -> byte, clocked: nat, r: Option<seq<byte>>)
    requires IsOutcome(length, budget, miso, clocked, r)
    ensures var hits := Hits(Capacity(length), Hunting, Clocked(miso, clocked), 0, clocked);
            hits == if r.Some? then [Hit(r.value, clocked)] else []
  {
    hide Hits, Wasted;
  }

  /** The lag is harmless exactly when the octet staked at first does not look like a sync: the host's
      request then ends with the reply, where the pump has put it, if its budget outlasts the polls. */
  lemma LagIsHarmless(
    length: nat, budget: nat, staked: byte, idle: nat, frame: seq<byte>, clocked: nat, r: Option<seq<byte>>)
    requires IsFrame(frame) && |frame| <= Capacity(length)
    requires IsOutcome(length, budget, Miso(staked, idle, frame), clocked, r)
    ensures (r == Some(frame) && clocked == idle + |frame| + 2) <==> (staked != SYNC && idle + 1 < budget)
    ensures staked != SYNC && idle + 1 >= budget ==> r == None
  {
    hide IsFrame, IsOutcome, Hits, Wire, Slot, Miso;
    FrameIsLong(frame);
    if staked != SYNC {
      PolledReply(staked, idle, frame);
      var busy := Wire(staked, [], idle) + [Slot(staked, [], idle)];
      BusyIsHarmless(length, budget, Miso(staked, idle, frame), busy, frame, clocked, r);
    } else if idle >= 3 {
      IdleIsFound(length, budget, idle, frame, clocked, r);
    } else if r == Some(frame) && clocked == idle + |frame| + 2 {
      OutcomeIsFirst(length, budget, Miso(SYNC, idle, frame), clocked, r);
      StaleSyncHides(Capacity(length), idle, frame, clocked, Hit(frame, clocked));
    }
  }

  /** What a host's session makes of a reply: it gets it exactly then. Behind a stale sync it is lost:
      after three polls or more the request ends with a frame of idle octets, else without any frame
      unless there is a sync inside the reply. */
  lemma ReplyIffNoStaleSync(
    length: nat, budget: nat, staked: byte, idle: nat, frame: seq<byte>, clocked: nat, r: Option<seq<byte>>)
    requires Reply(length, frame) && IsOutcome(length, budget, Miso(staked, idle, frame), clocked, r)
    ensures r == Some(frame) <==> staked != SYNC && idle + 1 < budget
    ensures staked == SYNC && idle >= 3 && budget > 0 ==> r == Some([IDLE, IDLE, IDLE]) && clocked == 4
    ensures staked == SYNC && idle < 3 && SYNC !in frame[1..] ==> r == None
  {
    hide IsFrame, IsOutcome, Hits, Wire, Slot, Miso;
    LagIsHarmless(length, budget, staked, idle, frame, clocked, r);
    FrameIsLong(frame);
    if staked == SYNC && idle >= 3 {
      IdleIsFound(length, budget, idle, frame, clocked, r);
    } else if staked == SYNC && r.Some? {
      OutcomeIsFirst(length, budget, Miso(SYNC, idle, frame), clocked, r);
      StaleSyncLoses(length, idle, frame, clocked, Hit(r.value, clocked));
      NotItself(idle, frame, clocked, Hit(r.value, clocked));
    }
  }

  /** The octet that the exchanges behind an abandoned response leave staked: what the host still read of
      it, and its next request, clock `n` octets. The next reply is lost exactly if it is a sync. */
  lemma AbandonedResponse(
    length: nat, budget: nat, staked: byte, abandoned: seq<byte>, n: nat, frame: seq<byte>, clocked: nat,
    r: Option<seq<byte>>)
    requires staked != SYNC && Reply(length, frame) && budget >= 2
    requires IsOutcome(length, budget, Miso(Slot(staked, [SYNC] + abandoned, n), 0, frame), clocked, r)
    ensures r == Some(frame) <==> !(1 <= n <= |abandoned| + 1 && ([SYNC] + abandoned)[n - 1] == SYNC)
  {
    hide Reply, IsOutcome, Miso;
    ReplyIffNoStaleSync(length, budget, Slot(staked, [SYNC] + abandoned, n), 0, frame, clocked, r);
  }

  /** The response to an ECHO of sixteen syncs. */
  function EchoOfSyncs(): Frame {
    Frame(Response(CMD_ECHO), [ST_OK] + seq(ECHO_MAX, _ => SYNC))
  }

  /** It is such a response: a host that gives it up after at least one octet, and whose next request
      ends inside it, loses the next reply. */
  lemma EchoHidesReply(
    length: nat, budget: nat, n: nat, frame: seq<byte>, clocked: nat, r: Option<seq<byte>>)
    requires Reply(length, frame) && budget >= 2 && 5 <= n <= 20
    requires var line := [SYNC] + Encoded(EchoOfSyncs());
             IsOutcome(length, budget, Miso(Slot(IDLE, line, n), 0, frame), clocked, r)
    ensures r != Some(frame)
  {
    hide Reply, IsOutcome, Miso, Crc8.Crc8;
    var abandoned := Encoded(EchoOfSyncs());
    assert abandoned[n - 2] == Body(EchoOfSyncs())[n - 2];
    AbandonedResponse(length, budget, IDLE, abandoned, n, frame, clocked, r);
  }
}
