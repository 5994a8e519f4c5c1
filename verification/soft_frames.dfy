/** Whole frames over the bit-banged port: a sender drives byte after byte, a receiver polls the line
    in a loop. */
module SoftFrames {
  import opened Bytes
  import opened Frames
  import opened SoftUart
  import Stream

  // ---- bytes on a line, and a loop that listens ----

  datatype Arrival = Arrival(b: byte, start: real, bits: nat -> real)

  function End(a: Arrival): real {
    Slot(a.start, a.bits, 10)
  }

  function BytesOf(list: seq<Arrival>): (s: seq<byte>)
    ensures |s| == |list| && forall k :: 0 <= k < |list| ==> s[k] == list[k].b
  {
    seq(|list|, k requires 0 <= k < |list| => list[k].b)
  }

  /** No byte is on the line at `t`. */
  predicate Quiet(list: seq<Arrival>, t: real) {
    forall k :: 0 <= k < |list| ==> t < list[k].start || End(list[k]) <= t
  }

  /** From `from` on the line carries these bytes, one after the other, and is high in between. */
  ghost predicate Arrives(u: Budget, line: real -> bool, from: real, list: seq<Arrival>) {
    && (forall k :: 0 <= k < |list| ==>
          Carries(line, list[k].start, list[k].bits, list[k].b) && u.Admits(list[k].bits))
    && (forall k :: 0 < k < |list| ==> End(list[k - 1]) <= list[k].start)
    && (forall t: real {:trigger Quiet(list, t)} :: from <= t && Quiet(list, t) ==> line(t))
  }

  /** Between two polls: `k` bytes have been received, the last one not before its stop bit, and the
      next one has been on the line for no longer than the latency. */
  predicate Position(u: Budget, from: real, list: seq<Arrival>, k: nat, t: real) {
    && k <= |list| && from <= t
    && (k > 0 ==> Slot(list[k - 1].start, list[k - 1].bits, 9) <= t)
    && (k < |list| ==> t <= list[k].start + u.latency)
  }

  /** A byte takes time. */
  lemma Forward(u: Budget, timing: Timing, a: Arrival)
    requires u.Suffices(timing) && u.Admits(a.bits)
    ensures a.start + u.latency < End(a)
  {
    var least := u.nominal - u.jitter;
    SlotBounds(least, u.nominal + u.jitter, a.start, a.bits, 10);
    hide Slot, Times;
    More(8.0, least);
    assert 10 as real == 8.0 + 2.0;
  }

  lemma {:induction false} InOrder(
    u: Budget, timing: Timing, line: real -> bool, from: real, list: seq<Arrival>, j: nat, k: nat)
    requires u.Suffices(timing) && Arrives(u, line, from, list) && j < k < |list|
    ensures End(list[j]) <= list[k].start
    decreases k
  {
    hide Slot, Carries, Budget.Admits, Budget.Suffices;
    if j < k - 1 {
      InOrder(u, timing, line, from, list, j, k - 1);
      Takes(u, timing, line, from, list, k - 1);
      NotNegativeLatency(u, timing);
    }
  }

  lemma Takes(u: Budget, timing: Timing, line: real -> bool, from: real, list: seq<Arrival>, k: nat)
    requires u.Suffices(timing) && Arrives(u, line, from, list) && k < |list|
    ensures list[k].start + u.latency < End(list[k])
  {
    hide Slot, Budget.Suffices, Budget.Admits;
    assert Carries(line, list[k].start, list[k].bits, list[k].b) && u.Admits(list[k].bits);
    Forward(u, timing, list[k]);
  }

  lemma NotNegativeLatency(u: Budget, timing: Timing)
    requires u.Suffices(timing)
    ensures u.latency >= 0.0
  {
  }

  /** Until the next byte begins the line is high. */
  lemma HighBetween(u: Budget, timing: Timing, line: real -> bool, from: real, list: seq<Arrival>, k: nat, t: real)
    requires u.Suffices(timing) && Arrives(u, line, from, list) && Position(u, from, list, k, t)
    requires k < |list| ==> t < list[k].start
    ensures line(t)
  {
    if k > 0 && t < End(list[k - 1]) {
      var a := list[k - 1];
      assert Carries(line, a.start, a.bits, a.b);
      assert InSlot(a.start, a.bits, 9, t);
      assert Symbol(a.b, 9);
    } else {
      forall j | 0 <= j < |list|
        ensures t < list[j].start || End(list[j]) <= t
      {
        if j < k - 1 {
          InOrder(u, timing, line, from, list, j, k - 1);
          Takes(u, timing, line, from, list, k - 1);
        } else if j > k {
          InOrder(u, timing, line, from, list, k, j);
          Takes(u, timing, line, from, list, k);
        }
      }
      assert Quiet(list, t);
    }
  }

  /** One poll: the next byte if it has begun, nothing otherwise. */
  lemma OnePoll(
    u: Budget, timing: Timing, line: real -> bool, from: real, list: seq<Arrival>, k: nat, t: real, n: nat, gap: real)
    requires u.Suffices(timing) && timing.Within(u.overhead) && 0.0 <= gap <= u.latency
    requires Arrives(u, line, from, list) && Position(u, from, list, k, t)
    ensures var (b, t', n') := Got(line, t, timing, n);
            if k < |list| && list[k].start <= t
            then b == Some(list[k].b) && Position(u, from, list, k + 1, t' + gap)
            else b == None && Position(u, from, list, k, t' + gap)
  {
    if k < |list| && list[k].start <= t {
      var a := list[k];
      assert Carries(line, a.start, a.bits, a.b) && u.Admits(a.bits);
      ByteInBudget(u, line, a.start, a.bits, a.b, t - a.start, timing, n);
      hide SampleAt, Slot, Carries, Got, Budget.Suffices, Budget.Admits;
      assert a.start + (t - a.start) == t;
      var stop := SampleAt(t, timing, n, 8);
      assert Slot(a.start, a.bits, 9) <= stop < End(a);
      SlotsAscend(u, timing, a);
    } else {
      HighBetween(u, timing, line, from, list, k, t);
    }
  }

  lemma SlotsAscend(u: Budget, timing: Timing, a: Arrival)
    requires u.Suffices(timing) && u.Admits(a.bits)
    ensures a.start + u.latency <= Slot(a.start, a.bits, 9)
  {
    var least := u.nominal - u.jitter;
    SlotBounds(least, u.nominal + u.jitter, a.start, a.bits, 9);
    hide Slot, Times;
    More(8.0, least);
    assert 9 as real == 8.0 + 1.0;
  }

  /** After any number of polls the receiver has a prefix of the bytes, and where it stands. */
  lemma {:induction false} HeardSoFar(
    u: Budget, timing: Timing, line: real -> bool, from: real, list: seq<Arrival>, gaps: nat -> real, count: nat,
    k: nat, t: real, n: nat, i: nat)
    returns (k': nat)
    requires u.Suffices(timing) && timing.Within(u.overhead) && Arrives(u, line, from, list)
    requires (forall j: nat :: 0.0 <= gaps(j) <= u.latency) && i <= count && Position(u, from, list, k, t)
    ensures var (bytes, end) := Heard(line, timing, gaps, count, BytesOf(list)[..k], t, n, i);
            Position(u, from, list, k', end) && bytes == BytesOf(list)[..k']
    decreases count - i
  {
    hide Got, Position, Arrives, Budget.Suffices, Timing.Within;
    k' := k;
    if i < count {
      OnePoll(u, timing, line, from, list, k, t, n, gaps(i));
      var (b, t', n') := Got(line, t, timing, n);
      PositionInside(u, from, list, k, t);
      k' := if b.Some? then k + 1 else k;
      PositionInside(u, from, list, k', t' + gaps(i));
      assert b.Some? ==> BytesOf(list)[..k] + [b.value] == BytesOf(list)[..k + 1];
      assert b.None? ==> BytesOf(list)[..k] + [] == BytesOf(list)[..k];
      k' := HeardSoFar(u, timing, line, from, list, gaps, count, k', t' + gaps(i), n', i + 1);
    }
  }

  lemma PositionInside(u: Budget, from: real, list: seq<Arrival>, k: nat, t: real)
    requires Position(u, from, list, k, t)
    ensures k <= |list|
  {
  }

  /** A receiver that starts listening before the first byte, and returns to the line within the latency,
      gets exactly the bytes sent, however many polls it takes: some first bytes at any time, and all of
      them once the last one is over. */
  lemma FrameHeard(
    u: Budget, timing: Timing, line: real -> bool, t: real, n: nat, list: seq<Arrival>, gaps: nat -> real, count: nat)
    requires u.Suffices(timing) && timing.Within(u.overhead) && Arrives(u, line, t, list)
    requires (forall j: nat :: 0.0 <= gaps(j) <= u.latency) && (list != [] ==> t <= list[0].start)
    ensures var (bytes, end) := Heard(line, timing, gaps, count, [], t, n, 0);
            && bytes <= BytesOf(list)
            && (list == [] || End(list[|list| - 1]) <= end ==> bytes == BytesOf(list))
  {
    NotNegativeLatency(u, timing);
    assert BytesOf(list)[..0] == [];
    var k := HeardSoFar(u, timing, line, t, list, gaps, count, 0, t, n, 0);
    var (bytes, end) := Heard(line, timing, gaps, count, [], t, n, 0);
    if k < |list| {
      var last := |list| - 1;
      hide Heard, Slot;
      Takes(u, timing, line, t, list, k);
      if k < last {
        InOrder(u, timing, line, t, list, k, last);
        Takes(u, timing, line, t, list, last);
      }
    } else {
      assert BytesOf(list)[..k] == BytesOf(list);
    }
  }

  // ---- what a pump drives ----

  /** The bytes driven one after the other from `start`, after `n` delays. */
  function Driving(bytes: seq<byte>, start: real, timing: Timing, n: nat): (s: seq<Arrival>)
    ensures |s| == |bytes| && BytesOf(s) == bytes
    ensures bytes != [] ==> s[0].start == start
    decreases bytes
  {
    if bytes == [] then []
    else
      var first := Arrival(bytes[0], start, SymbolTimes(timing, n));
      [first] + Driving(bytes[1..], End(first), timing, n + 10)
  }

  function EdgesOf(list: seq<Arrival>): seq<Edge>
    decreases list
  {
    if list == [] then [] else Symbols(list[0].b, list[0].start, list[0].bits, 10) + EdgesOf(list[1..])
  }

  /** Drives `bytes`, as the link does. */
  method PutAll(pump: Pump, bytes: seq<byte>)
    modifies pump`now, pump`delays, pump`driven
    ensures pump.driven == old(pump.driven) + EdgesOf(Driving(bytes, old(pump.now), pump.timing, old(pump.delays)))
  {
    ghost var all := pump.driven + EdgesOf(Driving(bytes, pump.now, pump.timing, pump.delays));
    hide Symbols, Slot, SymbolTimes;
    for i := 0 to |bytes|
      invariant all == pump.driven + EdgesOf(Driving(bytes[i..], pump.now, pump.timing, pump.delays))
    {
      assert bytes[i..][0] == bytes[i] && bytes[i..][1..] == bytes[i + 1..];
      ghost var list := Driving(bytes[i..], pump.now, pump.timing, pump.delays);
      ghost var rest := Driving(bytes[i + 1..], End(list[0]), pump.timing, pump.delays + 10);
      assert list[1..] == rest;
      ghost var before := pump.driven;
      ghost var symbols := Symbols(list[0].b, list[0].start, list[0].bits, 10);
      assert before + (symbols + EdgesOf(rest)) == (before + symbols) + EdgesOf(rest);
      pump.PutByte(bytes[i]);
    }
    assert bytes[|bytes|..] == [];
    assert pump.driven + [] == pump.driven;
  }

  /** The level a list of edges leaves on the pin at time `t`; mark before the first. */
  function LevelAt(edges: seq<Edge>, t: real): bool {
    if edges == [] then true
    else if edges[|edges| - 1].at <= t then edges[|edges| - 1].level
    else LevelAt(edges[..|edges| - 1], t)
  }

  function Pin(edges: seq<Edge>): real -> bool {
    t => LevelAt(edges, t)
  }

  /** Edges later than `t` do not matter at `t`. */
  lemma {:induction false} LaterEdges(edges: seq<Edge>, later: seq<Edge>, t: real)
    requires forall e :: e in later ==> t < e.at
    ensures LevelAt(edges + later, t) == LevelAt(edges, t)
    decreases |later|
  {
    if later == [] {
      assert edges + later == edges;
    } else {
      var last := later[|later| - 1];
      assert last in later;
      assert (edges + later)[..|edges + later| - 1] == edges + later[..|later| - 1];
      LaterEdges(edges, later[..|later| - 1], t);
    }
  }

  lemma {:induction false} SlotsApart(start: real, bits: nat -> real, j: nat, k: nat)
    requires j <= k && forall i: nat :: bits(i) > 0.0
    ensures Slot(start, bits, j) <= Slot(start, bits, k)
    ensures j < k ==> Slot(start, bits, j + 1) <= Slot(start, bits, k)
    decreases k
  {
    if j < k {
      SlotsApart(start, bits, j, k - 1);
    }
  }

  lemma LaterSymbols(a: Arrival, k: nat, t: real, e: Edge)
    requires (forall i: nat :: a.bits(i) > 0.0) && k <= 9 && InSlot(a.start, a.bits, k, t)
    requires e in Symbols(a.b, a.start, a.bits, 10)[k + 1..]
    ensures t < e.at
  {
    hide Symbol;
    var later := Symbols(a.b, a.start, a.bits, 10)[k + 1..];
    var j :| 0 <= j < |later| && later[j] == e;
    assert later[j] == Symbols(a.b, a.start, a.bits, 10)[k + 1 + j];
    hide Slot;
    SlotsApart(a.start, a.bits, k, k + 1 + j);
  }

  /** A byte the pump has driven is carried, whatever was driven before it and is driven after it. */
  lemma DrivenIsCarried(before: seq<Edge>, a: Arrival, after: seq<Edge>)
    requires forall i: nat :: a.bits(i) > 0.0
    requires forall e :: e in after ==> End(a) <= e.at
    ensures Carries(Pin(before + Symbols(a.b, a.start, a.bits, 10) + after), a.start, a.bits, a.b)
  {
    hide Symbol, LevelAt, Symbols, Slot;
    var edges := before + Symbols(a.b, a.start, a.bits, 10) + after;
    forall k: nat, t: real | k <= 9 && InSlot(a.start, a.bits, k, t)
      ensures Pin(edges)(t) == Symbol(a.b, k)
    {
      LevelInSlot(before, a, after, k, t);
    }
  }

  lemma LevelInSlot(before: seq<Edge>, a: Arrival, after: seq<Edge>, k: nat, t: real)
    requires (forall i: nat :: a.bits(i) > 0.0) && k <= 9 && InSlot(a.start, a.bits, k, t)
    requires forall e :: e in after ==> End(a) <= e.at
    ensures LevelAt(before + Symbols(a.b, a.start, a.bits, 10) + after, t) == Symbol(a.b, k)
  {
    hide Symbol, Slot;
    var all := Symbols(a.b, a.start, a.bits, 10);
    var head, later := before + all[..k + 1], all[k + 1..] + after;
    SlotsApart(a.start, a.bits, k, 10);
    assert all[k].at <= t < End(a) && all[k].level == Symbol(a.b, k);
    hide Symbols;
    forall e | e in later
      ensures t < e.at
    {
      if e in all[k + 1..] {
        LaterSymbols(a, k, t, e);
      }
    }
    hide InSlot;
    assert before + all + after == head + later;
    LaterEdges(head, later, t);
    assert head[|head| - 1] == all[k];
  }

  /** Every symbol of this sender is admitted, and takes time. */
  ghost predicate SendsWithin(u: Budget, sender: Timing) {
    u.nominal - u.jitter > 0.0 && forall n: nat {:trigger SymbolTimes(sender, n)} :: u.Admits(SymbolTimes(sender, n))
  }

  lemma SymbolsTakeTime(u: Budget, sender: Timing, n: nat)
    requires SendsWithin(u, sender)
    ensures u.Admits(SymbolTimes(sender, n)) && forall i: nat :: SymbolTimes(sender, n)(i) > 0.0
  {
    assert u.Admits(SymbolTimes(sender, n));
  }

  lemma {:induction false} EdgesAfter(u: Budget, sender: Timing, bytes: seq<byte>, start: real, n: nat, e: Edge)
    requires SendsWithin(u, sender) && e in EdgesOf(Driving(bytes, start, sender, n))
    ensures start <= e.at
    decreases bytes
  {
    var list := Driving(bytes, start, sender, n);
    hide SendsWithin, SymbolTimes, Slot;
    SymbolsTakeTime(u, sender, n);
    var symbols := Symbols(list[0].b, list[0].start, list[0].bits, 10);
    SlotsApart(start, SymbolTimes(sender, n), 0, 10);
    SymbolsNext(list[0].b, start, SymbolTimes(sender, n), 0);
    if e in symbols {
      var k :| 0 <= k < |symbols| && symbols[k] == e;
      SlotsApart(start, SymbolTimes(sender, n), 0, k);
    } else {
      assert list[1..] == Driving(bytes[1..], End(list[0]), sender, n + 10);
      EdgesAfter(u, sender, bytes[1..], End(list[0]), n + 10, e);
    }
  }

  lemma {:induction false} EachIsCarried(
    u: Budget, sender: Timing, before: seq<Edge>, bytes: seq<byte>, start: real, n: nat, k: nat)
    requires SendsWithin(u, sender) && k < |bytes|
    ensures var list := Driving(bytes, start, sender, n);
            && Carries(Pin(before + EdgesOf(list)), list[k].start, list[k].bits, list[k].b) && u.Admits(list[k].bits)
            && (k > 0 ==> End(list[k - 1]) <= list[k].start)
    decreases bytes
  {
    hide SendsWithin, SymbolTimes, Slot, Carries, Symbols, Budget.Admits;
    var list := Driving(bytes, start, sender, n);
    var rest := Driving(bytes[1..], End(list[0]), sender, n + 10);
    var symbols := Symbols(list[0].b, list[0].start, list[0].bits, 10);
    assert list[1..] == rest;
    assert before + EdgesOf(list) == before + symbols + EdgesOf(rest);
    SymbolsTakeTime(u, sender, n);
    if k == 0 {
      forall e | e in EdgesOf(rest)
        ensures End(list[0]) <= e.at
      {
        EdgesAfter(u, sender, bytes[1..], End(list[0]), n + 10, e);
      }
      DrivenIsCarried(before, list[0], EdgesOf(rest));
    } else {
      EachIsCarried(u, sender, before + symbols, bytes[1..], End(list[0]), n + 10, k - 1);
      assert list[k] == rest[k - 1];
    }
  }

  /** Before, between and after the bytes the pin is left high. */
  lemma {:induction false} QuietIsHigh(
    u: Budget, sender: Timing, before: seq<Edge>, bytes: seq<byte>, start: real, n: nat, t: real)
    requires SendsWithin(u, sender) && Quiet(Driving(bytes, start, sender, n), t)
    requires before == [] || (before[|before| - 1].level && before[|before| - 1].at <= t)
    ensures LevelAt(before + EdgesOf(Driving(bytes, start, sender, n)), t)
    decreases bytes
  {
    hide SendsWithin, SymbolTimes, Slot;
    var list := Driving(bytes, start, sender, n);
    if bytes == [] {
      assert before + [] == before;
    } else if t < start {
      forall e | e in EdgesOf(list)
        ensures t < e.at
      {
        EdgesAfter(u, sender, bytes, start, n, e);
      }
      LaterEdges(before, EdgesOf(list), t);
    } else {
      var rest := Driving(bytes[1..], End(list[0]), sender, n + 10);
      var symbols := Symbols(list[0].b, list[0].start, list[0].bits, 10);
      assert list[1..] == rest;
      assert before + EdgesOf(list) == before + symbols + EdgesOf(rest);
      assert End(list[0]) <= t;
      SymbolsTakeTime(u, sender, n);
      SlotsApart(start, list[0].bits, 9, 10);
      assert (before + symbols)[|before + symbols| - 1] == symbols[9];
      assert symbols[9].level;
      forall k | 0 <= k < |rest|
        ensures t < rest[k].start || End(rest[k]) <= t
      {
        assert list[k + 1] == rest[k];
      }
      QuietIsHigh(u, sender, before + symbols, bytes[1..], End(list[0]), n + 10, t);
    }
  }

  lemma DrivenArrives(u: Budget, sender: Timing, before: seq<Edge>, bytes: seq<byte>, start: real, m: nat, t: real)
    requires SendsWithin(u, sender) && t <= start
    requires before == [] || (before[|before| - 1].level && before[|before| - 1].at <= t)
    ensures var list := Driving(bytes, start, sender, m);
            Arrives(u, Pin(before + EdgesOf(list)), t, list)
  {
    hide Carries, SendsWithin, Driving, EdgesOf, Slot, LevelAt, Budget.Admits;
    var list := Driving(bytes, start, sender, m);
    var line := Pin(before + EdgesOf(list));
    forall k | 0 <= k < |list|
      ensures Carries(line, list[k].start, list[k].bits, list[k].b) && u.Admits(list[k].bits)
      ensures k > 0 ==> End(list[k - 1]) <= list[k].start
    {
      EachIsCarried(u, sender, before, bytes, start, m, k);
    }
    forall x: real | t <= x && Quiet(list, x)
      ensures line(x)
    {
      QuietIsHigh(u, sender, before, bytes, start, m, x);
    }
  }

  /** One pump drives bytes, back to back, behind whatever it has driven before; another polls the line
      in a loop, with its own clock, and with delays, gaps and symbols that all vary: it receives
      exactly the bytes. */
  lemma BitBangRoundTrip(
    u: Budget, sender: Timing, before: seq<Edge>, bytes: seq<byte>, start: real, m: nat,
    receiver: Timing, t: real, n: nat, gaps: nat -> real, count: nat)
    requires u.Suffices(receiver) && receiver.Within(u.overhead) && SendsWithin(u, sender)
    requires (forall j: nat :: 0.0 <= gaps(j) <= u.latency) && t <= start
    requires before == [] || (before[|before| - 1].level && before[|before| - 1].at <= t)
    ensures var list := Driving(bytes, start, sender, m);
            var (heard, end) := Heard(Pin(before + EdgesOf(list)), receiver, gaps, count, [], t, n, 0);
            && heard <= bytes
            && (list == [] || End(list[|list| - 1]) <= end ==> heard == bytes)
  {
    hide Arrives, Heard, Budget.Suffices, Timing.Within, SendsWithin, Driving, EdgesOf, Pin;
    var list := Driving(bytes, start, sender, m);
    DrivenArrives(u, sender, before, bytes, start, m, t);
    FrameHeard(u, receiver, Pin(before + EdgesOf(list)), t, n, list, gaps, count);
  }

  lemma SyncedFrame(f: Frame, cap: nat)
    requires Encodable(f) && |Encoded(f)| <= cap
    ensures var bytes := [Stream.SYNC] + Encoded(f);
            Stream.Hits(cap, Stream.Hunting, bytes, 0, |bytes|) == [Stream.Hit(Encoded(f), |bytes|)]
  {
    hide Encoded, IsFrame, Stream.Push;
    var bytes := [Stream.SYNC] + Encoded(f);
    Stream.EncodedIsFrame(f);
    assert bytes[1..|bytes|] == Encoded(f);
    Stream.Delivered(cap, bytes, 0, |bytes|);
  }

  /** So a frame sent by the link over one pump is delivered by the link behind the other. */
  lemma FrameDelivered(
    u: Budget, sender: Timing, before: seq<Edge>, f: Frame, start: real, m: nat,
    receiver: Timing, t: real, n: nat, gaps: nat -> real, count: nat, cap: nat)
    requires u.Suffices(receiver) && receiver.Within(u.overhead) && SendsWithin(u, sender)
    requires (forall j: nat :: 0.0 <= gaps(j) <= u.latency) && t <= start
    requires before == [] || (before[|before| - 1].level && before[|before| - 1].at <= t)
    requires Encodable(f) && |Encoded(f)| <= cap
    ensures var list := Driving([Stream.SYNC] + Encoded(f), start, sender, m);
            var (heard, end) := Heard(Pin(before + EdgesOf(list)), receiver, gaps, count, [], t, n, 0);
            End(list[|list| - 1]) <= end ==>
              Stream.Hits(cap, Stream.Hunting, heard, 0, |heard|) == [Stream.Hit(Encoded(f), |heard|)]
  {
    hide Encoded, Heard, Budget.Suffices, Timing.Within, SendsWithin, Driving, EdgesOf, Pin, Stream.Hits;
    SyncedFrame(f, cap);
    BitBangRoundTrip(u, sender, before, [Stream.SYNC] + Encoded(f), start, m, receiver, t, n, gaps, count);
  }
}
