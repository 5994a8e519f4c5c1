/** The bit-banged serial port: one start bit, eight data bits low first, one stop bit, sampled by
    waiting. Times are in microseconds. */
module SoftUart {
  import opened Bytes

  const BIT_US: real := 104.0
  const HALF_BIT_US: real := 52.0

  // ---- bits ----

  /** Bit `k` of `b`: `b` shifted right `k` times is odd. */
  function Bit(b: nat, k: nat): bool {
    if k == 0 then b % 2 == 1 else Bit(b / 2, k - 1)
  }

  function Pow2(n: nat): (p: nat)
    ensures p > 0
  {
    if n == 0 then 1 else 2 * Pow2(n - 1)
  }

  /** The number whose bits from bit 0 on are `bits`. */
  function FromBits(bits: seq<bool>): (v: nat)
    ensures v < Pow2(|bits|)
  {
    if bits == [] then 0 else (if bits[0] then 1 else 0) + 2 * FromBits(bits[1..])
  }

  lemma {:induction false} SetBit(bits: seq<bool>, x: bool)
    ensures FromBits(bits + [x]) == FromBits(bits) + if x then Pow2(|bits|) else 0
    ensures Pow2(|bits| + 1) == 2 * Pow2(|bits|)
  {
    if bits == [] {
      assert FromBits([x]) == (if x then 1 else 0) + 2 * FromBits([x][1..]);
    } else {
      assert (bits + [x])[1..] == bits[1..] + [x];
      SetBit(bits[1..], x);
    }
  }

  lemma {:induction false} BitsMakeNumber(b: nat, bits: seq<bool>)
    requires b < Pow2(|bits|) && forall k :: 0 <= k < |bits| ==> bits[k] == Bit(b, k)
    ensures FromBits(bits) == b
  {
    if bits != [] {
      forall k | 0 <= k < |bits| - 1
        ensures bits[1..][k] == Bit(b / 2, k)
      {
        assert bits[k + 1] == Bit(b, k + 1);
      }
      BitsMakeNumber(b / 2, bits[1..]);
    }
  }

  lemma NoBits()
    ensures FromBits([]) == 0 && Pow2(0) == 1
  {
  }

  function Shifted(b: nat, k: nat): nat {
    if k == 0 then b else Shifted(b, k - 1) / 2
  }

  lemma {:induction false} BitOfShifted(b: nat, k: nat)
    ensures Bit(b, k) == (Shifted(b, k) % 2 == 1) && Shifted(b, k + 1) == Shifted(b, k) / 2 && Shifted(b, 0) == b
    decreases k
  {
    if k > 0 {
      BitOfShifted(b / 2, k - 1);
      ShiftTwice(b, k);
    }
  }

  lemma {:induction false} ShiftTwice(b: nat, k: nat)
    requires k > 0
    ensures Shifted(b, k) == Shifted(b / 2, k - 1)
    decreases k
  {
    if k > 1 {
      ShiftTwice(b, k - 1);
    }
  }

  lemma EightBits()
    ensures Pow2(8) == 256
  {
    assert Pow2(4) == 16;
  }

  // ---- a byte on the line ----

  /** The ten symbols of a byte: start (low), the bits, stop (high). */
  function Symbol(b: byte, k: nat): bool {
    if k == 0 then false else if k <= 8 then Bit(b, k - 1) else true
  }

  /** When symbol `k` begins, if symbol `i` lasts `bits(i)`. */
  function Slot(start: real, bits: nat -> real, k: nat): real {
    if k == 0 then start else Slot(start, bits, k - 1) + bits(k - 1)
  }

  predicate InSlot(start: real, bits: nat -> real, k: nat, t: real) {
    Slot(start, bits, k) <= t < Slot(start, bits, k + 1)
  }

  /** `line` carries `b` from `start` on. */
  ghost predicate Carries(line: real -> bool, start: real, bits: nat -> real, b: byte) {
    forall k: nat, t: real {:trigger InSlot(start, bits, k, t)} ::
      k <= 9 && InSlot(start, bits, k, t) ==> line(t) == Symbol(b, k)
  }

  // ---- the pump ----

  /** The n-th delay takes longer than asked for by a clock off by a factor, and by what the calls
      around it cost. */
  datatype Timing = Timing(rate: real, cost: nat -> real) {
    function Takes(us: real, n: nat): real {
      us * rate + cost(n)
    }

    /** No delay costs more than `overhead`. */
    ghost predicate Within(overhead: real) {
      rate > 0.0 && forall n: nat :: 0.0 <= cost(n) <= overhead
    }
  }

  datatype Edge = Edge(at: real, level: bool)

  /** Sample `i` of a byte seen at `t`, when `n` delays have gone before. */
  function SampleAt(t: real, timing: Timing, n: nat, i: nat): real {
    if i == 0 then t + timing.Takes(BIT_US + HALF_BIT_US, n)
    else SampleAt(t, timing, n, i - 1) + timing.Takes(BIT_US, n + i)
  }

  function Levels(line: real -> bool, t: real, timing: Timing, n: nat): (s: seq<bool>)
    ensures |s| == 8 && forall i :: 0 <= i < 8 ==> s[i] == line(SampleAt(t, timing, n, i))
  {
    seq(8, i requires 0 <= i < 8 => line(SampleAt(t, timing, n, i)))
  }

  /** Waits, at most `left` half bits, until the line is high. */
  function Waited(line: real -> bool, t: real, timing: Timing, n: nat, left: nat): (real, nat)
    decreases left
  {
    if left == 0 || line(t) then (t, n) else Waited(line, t + timing.Takes(HALF_BIT_US, n), timing, n + 1, left - 1)
  }

  /** What the pump makes of the line at `t`, when it is done with it, and the delays spent by then. */
  function Got(line: real -> bool, t: real, timing: Timing, n: nat): (Option<byte>, real, nat) {
    if line(t) then (None, t, n)
    else
      var stop := SampleAt(t, timing, n, 8);
      if line(stop) then
        EightBits();
        (Some(FromBits(Levels(line, t, timing, n))), stop, n + 9)
      else
        var (t', n') := Waited(line, stop, timing, n + 9, 20);
        (None, t', n')
  }

  /** How long each symbol of a byte lasts that is driven after `n` delays. */
  function SymbolTimes(timing: Timing, n: nat): nat -> real {
    (k: nat) => timing.Takes(BIT_US, n + k)
  }

  /** The first `count` edges of byte `b`. */
  function Symbols(b: byte, start: real, bits: nat -> real, count: nat): (s: seq<Edge>)
    ensures |s| == count
  {
    seq(count, k requires 0 <= k < count => Edge(Slot(start, bits, k), Symbol(b, k)))
  }

  lemma SymbolsNext(b: byte, start: real, bits: nat -> real, n: nat)
    ensures Symbols(b, start, bits, 0) == [] && Slot(start, bits, 0) == start
    ensures Symbols(b, start, bits, n + 1) == Symbols(b, start, bits, n) + [Edge(Slot(start, bits, n), Symbol(b, n))]
    ensures Slot(start, bits, n + 1) == Slot(start, bits, n) + bits(n)
  {
  }

  class Pump {
    const line: real -> bool
    const timing: Timing
    var now: real
    /** How many delays there have been. */
    var delays: nat
    /** What has been driven on the transmit pin. */
    var driven: seq<Edge>

    constructor (line: real -> bool, timing: Timing, now: real)
      ensures this.line == line && this.timing == timing && this.now == now && delays == 0
      ensures driven == [Edge(now, true)]
    {
      this.line, this.timing, this.now, delays := line, timing, now, 0;
      driven := [Edge(now, true)];
    }

    method DelayUs(us: real)
      modifies this`now, this`delays
      ensures now == old(now) + timing.Takes(us, old(delays)) && delays == old(delays) + 1
    {
      now := now + timing.Takes(us, delays);
      delays := delays + 1;
    }

    /** The eight samples, low bit first, and the delay behind the last. */
    method SampleBits() returns (v: nat)
      modifies this`now, this`delays
      ensures v == FromBits(Levels(line, old(now), timing, old(delays)))
      ensures now == SampleAt(old(now), timing, old(delays), 8) && delays == old(delays) + 9
    {
      hide Timing.Takes, Bit, FromBits, Pow2;
      ghost var t, n := now, delays;
      DelayUs(BIT_US + HALF_BIT_US);
      var mask := 1;
      v := 0;
      ghost var bits: seq<bool> := [];
      NoBits();
      for i := 0 to 8
        invariant now == SampleAt(t, timing, n, i) && delays == n + 1 + i
        invariant |bits| == i && forall k :: 0 <= k < i ==> bits[k] == line(SampleAt(t, timing, n, k))
        invariant v == FromBits(bits) && mask == Pow2(i)
      {
        SetBit(bits, line(now));
        bits := bits + [line(now)];
        if line(now) {
          v := v + mask;
        }
        mask := 2 * mask;
        DelayUs(BIT_US);
      }
      assert bits == Levels(line, t, timing, n);
    }

    method AwaitMark()
      modifies this`now, this`delays
      ensures (now, delays) == Waited(line, old(now), timing, old(delays), 20)
    {
      for waits := 0 to 20
        invariant Waited(line, now, timing, delays, 20 - waits) == Waited(line, old(now), timing, old(delays), 20)
      {
        if line(now) {
          break;
        }
        DelayUs(HALF_BIT_US);
      }
    }

    /** After a low stop bit it waits for the line to return to mark, for about one character. */
    method GetByte() returns (b: Option<byte>)
      modifies this`now, this`delays
      ensures (b, now, delays) == Got(line, old(now), timing, old(delays))
    {
      hide Timing.Takes, Bit, FromBits, Pow2, Waited, SampleAt;
      if line(now) {
        return None;
      }
      var v := SampleBits();
      if !line(now) {
        AwaitMark();
        return None;
      }
      EightBits();
      return Some(v);
    }

    /** Drives the ten symbols of `b`, and leaves the line high. */
    method PutByte(b: byte)
      modifies this`now, this`delays, this`driven
      ensures var bits := SymbolTimes(timing, old(delays));
              && driven == old(driven) + Symbols(b, old(now), bits, 10)
              && now == Slot(old(now), bits, 10) && delays == old(delays) + 10
    {
      hide Timing.Takes, Symbols, Bit, Slot, Shifted;
      ghost var start, bits := now, SymbolTimes(timing, delays);
      SymbolsNext(b, start, bits, 0);
      driven := driven + [Edge(now, false)];
      DelayUs(BIT_US);
      var rest := b;
      BitOfShifted(b, 0);
      for i := 0 to 8
        invariant now == Slot(start, bits, i + 1) && delays == old(delays) + i + 1
        invariant driven == old(driven) + Symbols(b, start, bits, i + 1)
        invariant rest == Shifted(b, i) && rest < 0x100
      {
        BitOfShifted(b, i);
        SymbolsNext(b, start, bits, i + 1);
        driven := driven + [Edge(now, rest % 2 == 1)];
        rest := rest / 2;
        DelayUs(BIT_US);
      }
      SymbolsNext(b, start, bits, 9);
      driven := driven + [Edge(now, true)];
      DelayUs(BIT_US);
    }

    /** Polls the line `count` times; the loop around it takes `gaps(i)` after the i-th poll. */
    method Listen(count: nat, gaps: nat -> real) returns (bytes: seq<byte>)
      modifies this`now, this`delays
      ensures (bytes, now) == Heard(line, timing, gaps, count, [], old(now), old(delays), 0)
    {
      hide Got;
      bytes := [];
      for i := 0 to count
        invariant Heard(line, timing, gaps, count, bytes, now, delays, i)
               == Heard(line, timing, gaps, count, [], old(now), old(delays), 0)
      {
        var b := GetByte();
        now := now + gaps(i);
        bytes := bytes + if b.Some? then [b.value] else [];
      }
    }
  }

  /** The bytes after polls `i` to `count`, with `got` before them, and the time then. */
  function Heard(line: real -> bool, timing: Timing, gaps: nat -> real, count: nat,
                 got: seq<byte>, t: real, n: nat, i: nat)
    : (seq<byte>, real)
    requires i <= count
    decreases count - i
  {
    if i == count then (got, t)
    else
      var (b, t', n') := Got(line, t, timing, n);
      Heard(line, timing, gaps, count, got + (if b.Some? then [b.value] else []), t' + gaps(i), n', i + 1)
  }

  // ---- a byte is received ----

  /** Any byte, on any line that carries it, seen while its start bit is on: if every sample lies in
      its own symbol, the pump returns exactly that byte. */
  lemma ByteSampled(line: real -> bool, start: real, bits: nat -> real, b: byte, t: real, timing: Timing, n: nat)
    requires Carries(line, start, bits, b) && InSlot(start, bits, 0, t)
    requires forall i: nat :: i <= 8 ==> InSlot(start, bits, i + 1, SampleAt(t, timing, n, i))
    ensures Got(line, t, timing, n) == (Some(b), SampleAt(t, timing, n, 8), n + 9)
  {
    hide SampleAt, Bit, FromBits, Slot, InSlot;
    EightBits();
    var levels := Levels(line, t, timing, n);
    forall k | 0 <= k < 8
      ensures levels[k] == Bit(b, k)
    {
      assert InSlot(start, bits, k + 1, SampleAt(t, timing, n, k));
      assert Symbol(b, k + 1) == Bit(b, k);
    }
    BitsMakeNumber(b, levels);
    assert InSlot(start, bits, 8 + 1, SampleAt(t, timing, n, 8));
  }

  /** The time after `i` half-bit waits from `t`, which follow `n` delays. */
  function WaitAt(t: real, timing: Timing, n: nat, i: nat): real {
    if i == 0 then t else WaitAt(t, timing, n, i - 1) + timing.Takes(HALF_BIT_US, n + i - 1)
  }

  /** The line is low at each of the first `waits` of these times. */
  predicate LowFor(line: real -> bool, t: real, timing: Timing, n: nat, waits: nat) {
    forall i :: 0 <= i < waits ==> !line(WaitAt(t, timing, n, i))
  }

  lemma {:induction false} WaitNext(t: real, timing: Timing, n: nat, i: nat)
    ensures WaitAt(t, timing, n, i + 1) == WaitAt(t + timing.Takes(HALF_BIT_US, n), timing, n + 1, i)
    decreases i
  {
    hide Timing.Takes;
    if i > 0 {
      WaitNext(t, timing, n, i - 1);
    }
  }

  lemma {:induction false} WaitsForMark(line: real -> bool, t: real, timing: Timing, n: nat, left: nat)
    returns (waits: nat)
    ensures waits <= left && Waited(line, t, timing, n, left) == (WaitAt(t, timing, n, waits), n + waits)
    ensures LowFor(line, t, timing, n, waits)
    ensures waits < left ==> line(WaitAt(t, timing, n, waits))
    decreases left
  {
    hide Timing.Takes;
    waits := 0;
    if left > 0 && !line(t) {
      var t1 := t + timing.Takes(HALF_BIT_US, n);
      var rest := WaitsForMark(line, t1, timing, n + 1, left - 1);
      waits := rest + 1;
      WaitNext(t, timing, n, rest);
      forall i | 0 <= i < waits
        ensures !line(WaitAt(t, timing, n, i))
      {
        if i > 0 {
          WaitNext(t, timing, n, i - 1);
        }
      }
    }
  }

  /** A low stop bit: there is no byte, and the pump comes back at the first half bit at which the line is
      high again, or after twenty of them. So it never takes the rest of a low line for a start bit. */
  lemma LowStopDropped(line: real -> bool, t: real, timing: Timing, n: nat) returns (waits: nat)
    requires !line(t) && !line(SampleAt(t, timing, n, 8))
    ensures var stop := SampleAt(t, timing, n, 8);
            && waits <= 20 && Got(line, t, timing, n) == (None, WaitAt(stop, timing, n + 9, waits), n + 9 + waits)
            && LowFor(line, stop, timing, n + 9, waits)
            && (waits < 20 ==> line(WaitAt(stop, timing, n + 9, waits)))
  {
    hide Timing.Takes, Levels, FromBits, SampleAt;
    waits := WaitsForMark(line, SampleAt(t, timing, n, 8), timing, n + 9, 20);
  }

  // ---- products of times ----

  function Times(x: real, y: real): real {
    x * y
  }

  lemma NotNegative(x: real, y: real)
    requires x >= 0.0 && y >= 0.0
    ensures Times(x, y) >= 0.0
  {
  }

  lemma Sum(x: real, a: real, b: real)
    ensures Times(x, a + b) == Times(x, a) + Times(x, b) && Times(x, a - b) == Times(x, a) - Times(x, b)
    ensures Times(x, -a) == -Times(x, a)
  {
  }

  lemma More(x: real, y: real)
    ensures Times(x + 1.0, y) == Times(x, y) + y && Times(x + 1.5, y) == Times(x, y) + 1.5 * y
    ensures Times(x + 2.0, y) == Times(x, y) + 2.0 * y && Times(8.0 - x, y) == 8.0 * y - Times(x, y)
    ensures Times(0.0, y) == 0.0 && Times(8.0, y) == 8.0 * y
  {
  }

  lemma UpToEight(x: real, y: real)
    requires 0.0 <= x <= 8.0 && y >= 0.0
    ensures 0.0 <= Times(x, y) <= 8.0 * y
  {
    hide Times;
    More(x, y);
    NotNegative(x, y);
    NotNegative(8.0 - x, y);
  }

  lemma Scaled(x: real, drift: real)
    requires 0.0 <= x <= 8.0
    ensures if drift >= 0.0 then 0.0 <= Times(x, drift) <= 8.0 * drift else 8.0 * drift <= Times(x, drift) <= 0.0
  {
    hide Times;
    UpToEight(x, if drift >= 0.0 then drift else -drift);
    Sum(x, drift, 0.0);
  }

  lemma Next(n: nat, x: real)
    ensures Times((n + 1) as real, x) == Times(n as real, x) + x && Times(0 as real, x) == 0.0
  {
    assert (n + 1) as real == n as real + 1.0;
    More(n as real, x);
    More(0.0, x);
  }

  // ---- clocks and delays that do not vary ----

  lemma {:induction false} EvenSlots(start: real, bits: nat -> real, bit: real, k: nat)
    requires forall i: nat :: bits(i) == bit
    ensures Slot(start, bits, k) == start + Times(k as real, bit)
    decreases k
  {
    hide Times;
    Next(if k > 0 then k - 1 else 0, bit);
    if k > 0 {
      EvenSlots(start, bits, bit, k - 1);
    }
  }

  lemma {:induction false} EvenSamples(t: real, timing: Timing, cost: real, n: nat, i: nat)
    requires forall k: nat :: timing.cost(k) == cost
    ensures SampleAt(t, timing, n, i) == SampleAt(t, timing, n, 0) + Times(i as real, BIT_US * timing.rate + cost)
    decreases i
  {
    hide Times;
    Next(if i > 0 then i - 1 else 0, BIT_US * timing.rate + cost);
    if i > 0 {
      EvenSamples(t, timing, cost, n, i - 1);
    }
  }

  /** Sample `i` is less than half a symbol away from the centre of symbol `i + 1`. */
  predicate Centred(start: real, bit: real, t: real, timing: Timing, n: nat, i: nat) {
    -0.5 * bit < SampleAt(t, timing, n, i) - (start + Times(i as real + 1.5, bit)) < 0.5 * bit
  }

  /** When neither the symbols nor the costs vary, the error grows by the same amount from sample to
      sample: it is enough that the first and the stop sample keep near their centres. */
  lemma EnoughAtBothEnds(
    line: real -> bool, start: real, bits: nat -> real, bit: real, b: byte, t: real, timing: Timing, cost: real, n: nat)
    requires Carries(line, start, bits, b) && InSlot(start, bits, 0, t)
    requires (forall i: nat :: bits(i) == bit) && (forall k: nat :: timing.cost(k) == cost)
    requires Centred(start, bit, t, timing, n, 0) && Centred(start, bit, t, timing, n, 8)
    ensures Got(line, t, timing, n) == (Some(b), SampleAt(t, timing, n, 8), n + 9)
  {
    forall i: nat | i <= 8
      ensures InSlot(start, bits, i + 1, SampleAt(t, timing, n, i))
    {
      Between(start, bits, bit, t, timing, cost, n, i);
    }
    ByteSampled(line, start, bits, b, t, timing, n);
  }

  lemma Between(start: real, bits: nat -> real, bit: real, t: real, timing: Timing, cost: real, n: nat, i: nat)
    requires (forall k: nat :: bits(k) == bit) && (forall k: nat :: timing.cost(k) == cost) && i <= 8
    requires Centred(start, bit, t, timing, n, 0) && Centred(start, bit, t, timing, n, 8)
    ensures InSlot(start, bits, i + 1, SampleAt(t, timing, n, i))
  {
    var x, step := i as real, BIT_US * timing.rate + cost;
    var first, drift := SampleAt(t, timing, n, 0) - (start + 1.5 * bit), step - bit;
    EvenSamples(t, timing, cost, n, i);
    EvenSamples(t, timing, cost, n, 8);
    EvenSlots(start, bits, bit, i + 1);
    EvenSlots(start, bits, bit, i + 2);
    hide SampleAt, Slot, Times;
    assert 0.0 <= x <= 8.0 && (i + 1) as real == x + 1.0 && (i + 2) as real == x + 2.0;
    More(x, bit);
    More(0.0, bit);
    More(8.0, bit);
    Sum(x, bit, drift);
    More(8.0, step);
    Scaled(x, drift);
    assert bit + drift == step;
    Inside(first, 8.0 * drift, Times(x, drift), 0.5 * bit);
  }

  /** What lies between two offsets is inside whenever both are. */
  lemma Inside(first: real, last: real, part: real, half: real)
    requires -half < first < half && -half < first + last < half
    requires 0.0 <= part <= last || last <= part <= 0.0
    ensures -half < first + part < half
  {
  }

  // ---- clocks and delays that vary ----

  /** Symbols last `nominal` give or take `jitter`, the start bit is seen within `latency`, and no delay
      of the receiver costs more than `overhead`. */
  datatype Budget = Budget(nominal: real, jitter: real, latency: real, overhead: real) {
    function Mismatch(timing: Timing): real {
      var mine := BIT_US * timing.rate;
      if mine >= nominal then mine - nominal else nominal - mine
    }

    /** The documented budget: 9.5 times the mismatch of the bit times, the latency, and what all delays
        cost, together under half a bit; ten times the sender's jitter on top. */
    predicate Suffices(timing: Timing) {
      && nominal > 0.0 && jitter >= 0.0 && latency >= 0.0 && overhead >= 0.0
      && 9.5 * Mismatch(timing) + 10.0 * jitter + latency + 9.0 * overhead < 0.5 * nominal
    }

    ghost predicate Admits(bits: nat -> real) {
      forall k: nat :: nominal - jitter <= bits(k) <= nominal + jitter
    }
  }

  /** At 9600 baud, with both clocks within two per cent, 11.9 microseconds are left for the latency and all
      the calls of a byte together. */
  lemma TwoPercentEach(u: Budget, timing: Timing)
    requires 0.98 <= timing.rate <= 1.02 && 0.98 * 1000000.0 <= u.nominal * 9600.0 <= 1.02 * 1000000.0
    requires u.jitter == 0.0 && u.latency >= 0.0 && u.overhead >= 0.0 && u.latency + 9.0 * u.overhead <= 11.9
    ensures u.Suffices(timing)
  {
  }

  lemma {:induction false} SlotBounds(lo: real, hi: real, start: real, bits: nat -> real, k: nat)
    requires forall i: nat :: lo <= bits(i) <= hi
    ensures start + Times(k as real, lo) <= Slot(start, bits, k) <= start + Times(k as real, hi)
    decreases k
  {
    hide Times;
    Next(if k > 0 then k - 1 else 0, lo);
    Next(if k > 0 then k - 1 else 0, hi);
    if k > 0 {
      SlotBounds(lo, hi, start, bits, k - 1);
    }
  }

  lemma {:induction false} SampleBounds(t: real, timing: Timing, overhead: real, n: nat, i: nat)
    requires timing.Within(overhead)
    ensures var ideal := t + Times(i as real + 1.5, BIT_US * timing.rate);
            ideal <= SampleAt(t, timing, n, i) <= ideal + Times((i + 1) as real, overhead)
    decreases i
  {
    var mine := BIT_US * timing.rate;
    assert timing.cost(n + i) <= overhead;
    hide Times;
    Next(i, overhead);
    if i > 0 {
      SampleBounds(t, timing, overhead, n, i - 1);
      More((i - 1) as real + 1.5, mine);
      assert (i - 1) as real + 1.5 + 1.0 == i as real + 1.5;
    } else {
      More(0.0, mine);
      assert 0.0 + 1.5 == i as real + 1.5;
    }
  }

  /** Within the budget every sample lies in its own symbol. */
  lemma SampleInSlot(u: Budget, start: real, bits: nat -> real, late: real, timing: Timing, n: nat, i: nat)
    requires u.Suffices(timing) && u.Admits(bits) && timing.Within(u.overhead) && 0.0 <= late <= u.latency && i <= 8
    ensures InSlot(start, bits, i + 1, SampleAt(start + late, timing, n, i))
  {
    var x, mine, at := i as real, BIT_US * timing.rate, SampleAt(start + late, timing, n, i);
    var lo, hi, d, m := u.nominal - u.jitter, u.nominal + u.jitter, mine - u.nominal, u.Mismatch(timing);
    SlotBounds(lo, hi, start, bits, i + 1);
    SlotBounds(lo, hi, start, bits, i + 2);
    SampleBounds(start + late, timing, u.overhead, n, i);
    hide Slot, SampleAt, Times;
    assert 0.0 <= x <= 8.0;
    Combined(x, mine, u.nominal, d, m, u.jitter, u.overhead);
    assert (i + 1) as real == x + 1.0 && (i + 2) as real == x + 2.0;
    Land(start, late, at, Slot(start, bits, i + 1), Slot(start, bits, i + 2),
         Times(x + 1.5, mine), Times(x + 1.0, hi), Times(x + 2.0, lo), Times(x + 1.0, u.overhead),
         u.nominal, 9.5 * m + 10.0 * u.jitter + 9.0 * u.overhead, u.latency);
  }

  /** A sample between two bounds, both inside its symbol. */
  lemma Land(start: real, late: real, at: real, begin: real, end: real,
             sampled: real, begun: real, ended: real, cost: real, nominal: real, errors: real, latency: real)
    requires start + late + sampled <= at <= start + late + sampled + cost
    requires begin <= start + begun && start + ended <= end
    requires sampled - begun >= 0.5 * nominal - errors && sampled + cost - ended <= -0.5 * nominal + errors
    requires 0.0 <= late <= latency && errors + latency < 0.5 * nominal
    ensures begin <= at < end
  {
  }

  /** The products, multiplied out. */
  lemma Combined(x: real, mine: real, nominal: real, d: real, m: real, jitter: real, overhead: real)
    requires 0.0 <= x <= 8.0 && d == mine - nominal && -m <= d <= m && jitter >= 0.0 && overhead >= 0.0
    ensures Times(x + 1.5, mine) - Times(x + 1.0, nominal + jitter) >= 0.5 * nominal - 9.5 * m - 9.0 * jitter
    ensures Times(x + 1.5, mine) + Times(x + 1.0, overhead) - Times(x + 2.0, nominal - jitter)
         <= -0.5 * nominal + 9.5 * m + 10.0 * jitter + 9.0 * overhead
  {
    hide Times;
    Sum(x, nominal, d);
    Sum(x, nominal, jitter);
    Sum(x, m, d);
    More(x, mine);
    More(x, nominal + jitter);
    More(x, nominal - jitter);
    More(x, overhead);
    assert nominal + d == mine;
    UpToEight(x, m);
    UpToEight(x, m - d);
    UpToEight(x, m + d);
    UpToEight(x, jitter);
    UpToEight(x, overhead);
  }

  /** Within the budget a byte seen late is received, whatever the single delays and symbols last. */
  lemma ByteInBudget(
    u: Budget, line: real -> bool, start: real, bits: nat -> real, b: byte, late: real, timing: Timing, n: nat)
    requires u.Suffices(timing) && u.Admits(bits) && timing.Within(u.overhead) && 0.0 <= late <= u.latency
    requires Carries(line, start, bits, b)
    ensures Got(line, start + late, timing, n) == (Some(b), SampleAt(start + late, timing, n, 8), n + 9)
    ensures InSlot(start, bits, 9, SampleAt(start + late, timing, n, 8))
  {
    var t := start + late;
    assert u.nominal - u.jitter <= bits(0);
    assert InSlot(start, bits, 0, t) by {
      assert Slot(start, bits, 1) == Slot(start, bits, 0) + bits(0);
    }
    forall i: nat | i <= 8
      ensures InSlot(start, bits, i + 1, SampleAt(t, timing, n, i))
    {
      SampleInSlot(u, start, bits, late, timing, n, i);
    }
    hide SampleAt, Slot, InSlot, Got;
    assert InSlot(start, bits, 8 + 1, SampleAt(t, timing, n, 8));
    ByteSampled(line, start, bits, b, t, timing, n);
  }
}
