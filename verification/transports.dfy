/** The host's polled transports: both feed what the line delivers to the scanner until a frame is
    complete or a budget is spent, and stop whatever the line delivers. */
module Transports {
  import opened Bytes
  import opened Frames
  import opened Stream
  import opened Receivers

  // ---- counting the octets that are not part of a frame under way ----

  /** Octets of `[i, k)` the scanner reports as no frame: each costs one unit of a budget. */
  function Wasted(cap: nat, st: State, s: seq<byte>, i: nat, k: nat): nat
    requires i <= k <= |s|
    decreases k - i
  {
    if i == k then 0
    else
      var (st', out) := Push(cap, st, s[i]);
      (if out.Skipped? || out.Dropped? then 1 else 0) + Wasted(cap, st', s, i + 1, k)
  }

  /** Octets, sync included, of the frame under way. */
  function InFlight(st: State): nat {
    if st.InFrame? then |st.got| + 1 else 0
  }

  lemma ChargeOctet(cap: nat, st: State, b: byte)
    requires Reachable(cap, st)
    ensures var (st', out) := Push(cap, st, b);
            !out.Complete? ==>
              1 + InFlight(st) <= InFlight(st') + if out.Skipped? || out.Dropped? then cap + 1 else 0
  {
    hide IsFrame;
  }

  lemma OneTimesMore(n: nat, c: nat)
    ensures (1 + n) * c == c + n * c
  {
  }

  /** Every octet is in flight or is charged to a wasted one, at most `cap + 1` to each. */
  lemma {:induction false} ChargeOctets(cap: nat, st: State, s: seq<byte>, i: nat, k: nat)
    requires i <= k <= |s| && Reachable(cap, st) && Hits(cap, st, s, i, k) == []
    ensures k - i + InFlight(st) <= Wasted(cap, st, s, i, k) * (cap + 1) + InFlight(After(cap, st, s, i, k))
    decreases k - i
  {
    if i < k {
      ChargeOctet(cap, st, s[i]);
      hide IsFrame, Push, InFlight;
      var st' := Push(cap, st, s[i]).0;
      ChargeOctets(cap, st', s, i + 1, k);
      OneTimesMore(Wasted(cap, st', s, i + 1, k), cap + 1);
    }
  }

  /** One octet more. */
  lemma OneMore(cap: nat, s: seq<byte>, b: byte)
    ensures var n, st := |s|, After(cap, Hunting, s, 0, |s|);
            var (st', out) := Push(cap, st, b);
            && After(cap, Hunting, s + [b], 0, n + 1) == st'
            && (Hits(cap, Hunting, s, 0, n) == [] ==>
                  Hits(cap, Hunting, s + [b], 0, n + 1) == if out.Complete? then [Hit(out.frame, n + 1)] else [])
            && Wasted(cap, Hunting, s + [b], 0, n + 1)
               == Wasted(cap, Hunting, s, 0, n) + if out.Skipped? || out.Dropped? then 1 else 0
  {
    hide Push;
    var n, t := |s|, s + [b];
    SamePrefix(cap, s, t, n);
    WasteOfSame(cap, Hunting, s, 0, n, t);
    Split(cap, Hunting, t, 0, n, n + 1);
    WasteSplit(cap, Hunting, t, 0, n, n + 1);
    var st := After(cap, Hunting, t, 0, n);
    var st' := Push(cap, st, b).0;
    assert After(cap, st', t, n + 1, n + 1) == st' && Hits(cap, st', t, n + 1, n + 1) == []
        && Wasted(cap, st', t, n + 1, n + 1) == 0;
  }

  lemma {:induction false} WasteOfSame(cap: nat, st: State, s: seq<byte>, i: nat, k: nat, t: seq<byte>)
    requires i <= k <= |s| <= |t| && s == t[..|s|]
    ensures Wasted(cap, st, s, i, k) == Wasted(cap, st, t, i, k)
    decreases k - i
  {
    hide Push;
    if i < k {
      WasteOfSame(cap, Push(cap, st, s[i]).0, s, i + 1, k, t);
    }
  }

  lemma {:induction false} WasteSplit(cap: nat, st: State, s: seq<byte>, i: nat, j: nat, k: nat)
    requires i <= j <= k <= |s|
    ensures Wasted(cap, st, s, i, k) == Wasted(cap, st, s, i, j) + Wasted(cap, After(cap, st, s, i, j), s, j, k)
    decreases j - i
  {
    hide Push;
    if i < j {
      WasteSplit(cap, Push(cap, st, s[i]).0, s, i + 1, j, k);
    }
  }

  // ---- what a transport has made of the octets `s` so far ----

  /** No frame yet, and `spent` of the budget gone: so many octets at most. */
  ghost predicate Scanning(length: nat, s: seq<byte>, spent: nat) {
    && Hits(Capacity(length), Hunting, s, 0, |s|) == []
    && Wasted(Capacity(length), Hunting, s, 0, |s|) == spent
  }

  /** The last octet completed the first frame, within the budget. */
  ghost predicate Found(length: nat, s: seq<byte>, budget: nat, frame: seq<byte>) {
    && Hits(Capacity(length), Hunting, s, 0, |s|) == [Hit(frame, |s|)]
    && Wasted(Capacity(length), Hunting, s, 0, |s|) < budget
  }

  /** One octet more, in these terms. */
  lemma ScanOne(length: nat, s: seq<byte>, b: byte, spent: nat, budget: nat)
    requires Scanning(length, s, spent) && spent < budget
    ensures var (st, out) := Push(Capacity(length), After(Capacity(length), Hunting, s, 0, |s|), b);
            && After(Capacity(length), Hunting, s + [b], 0, |s + [b]|) == st
            && (out.Complete? ==> Found(length, s + [b], budget, out.frame))
            && (out.Taken? ==> Scanning(length, s + [b], spent))
            && (out.Skipped? || out.Dropped? ==> Scanning(length, s + [b], spent + 1))
  {
    hide Push, Hits, Wasted, After;
    OneMore(Capacity(length), s, b);
  }

  lemma NothingYet(length: nat)
    ensures Scanning(length, [], 0) && After(Capacity(length), Hunting, [], 0, 0) == Hunting
  {
  }

  lemma Times(a: nat, b: nat, c: nat, d: nat)
    requires a <= c && b <= d
    ensures a * b <= c * d
  {
    assert a * b <= c * b <= c * d;
  }

  /** Scanning on, with budget left, is bounded by the budget. */
  lemma ScanningIsBounded(length: nat, s: seq<byte>, spent: nat, budget: nat)
    requires Scanning(length, s, spent) && spent < budget
    ensures |s| < budget * (length + 1)
  {
    hide IsFrame, Push, Hits, Wasted, After;
    var cap := Capacity(length);
    ChargeOctets(cap, Hunting, s, 0, |s|);
    StaysReachable(cap, Hunting, s, 0, |s|);
    Times(spent, cap + 1, spent, length + 1);
    Times(spent + 1, length + 1, budget, length + 1);
    assert (spent + 1) * (length + 1) == spent * (length + 1) + length + 1;
  }

  // ---- SPI ----

  datatype Received = Reply(len: nat) | Exhausted(attempts: nat) | Desync(scanned: nat)

  function Clocked(miso: nat -> byte, n: nat): (s: seq<byte>)
    ensures |s| == n
  {
    seq(n, i requires 0 <= i < n => miso(i))
  }

  /** The outcome of `clocked` octets of `miso`: a frame, or the budget spent without one. */
  ghost predicate IsOutcome(length: nat, budget: nat, miso: nat -> byte, clocked: nat, r: Option<seq<byte>>) {
    if r.Some? then Found(length, Clocked(miso, clocked), budget, r.value)
    else Scanning(length, Clocked(miso, clocked), budget)
  }

  /** Clocks octet after octet of `miso` into `rsp`. */
  method SpiRequest(miso: nat -> byte, rsp: array<byte>, pollAttempts: nat) returns (r: Received, clocked: nat)
    requires pollAttempts >= 1
    modifies rsp
    ensures clocked <= pollAttempts * (rsp.Length + 1)
    ensures r.Reply? || r == Exhausted(pollAttempts)
    ensures r.Reply? ==> r.len <= rsp.Length
    ensures IsOutcome(rsp.Length, pollAttempts, miso, clocked, if r.Reply? then Some(rsp[..r.len]) else None)
  {
    hide Push, Scanning, Found, After;
    var scanner := new RxScanner();
    var attempts := 0;
    clocked := 0;
    ghost var cap := Capacity(rsp.Length);
    NothingYet(rsp.Length);
    assert Clocked(miso, 0) == [];
    while true
      invariant scanner.Valid(rsp) && attempts < pollAttempts
      invariant Scanning(rsp.Length, Clocked(miso, clocked), attempts)
      invariant scanner.State(rsp) == After(cap, Hunting, Clocked(miso, clocked), 0, clocked)
      decreases pollAttempts * (rsp.Length + 1) - clocked
    {
      var b := miso(clocked);
      ghost var s := Clocked(miso, clocked);
      assert Clocked(miso, clocked + 1) == s + [b];
      ScanOne(rsp.Length, s, b, attempts, pollAttempts);
      ScanningIsBounded(rsp.Length, s, attempts, pollAttempts);
      var result := scanner.Push(b, rsp);
      clocked := clocked + 1;
      match result {
        case Done(len) =>
          assert Found(rsp.Length, Clocked(miso, clocked), pollAttempts, rsp[..len]);
          return Reply(len), clocked;
        case Assembling =>
        case Hunt | Drop =>
          attempts := attempts + 1;
          if attempts >= pollAttempts {
            return Exhausted(attempts), clocked;
          }
      }
    }
  }

  // ---- UART ----

  const CHUNK: nat := 32

  /** What one read of the port puts into the chunk; nothing if it timed out. */
  type Chunk = c: seq<byte> | |c| <= CHUNK witness []

  /** The first `n` polls. */
  function Flat(port: nat -> Chunk, n: nat): seq<byte> {
    if n == 0 then [] else Flat(port, n - 1) + port(n - 1)
  }

  function Idle(port: nat -> Chunk, n: nat): nat {
    if n == 0 then 0 else Idle(port, n - 1) + if port(n - 1) == [] then 1 else 0
  }

  /** Scans the octets of read after read into `rsp`. `examined` octets of them have been looked at
      when it returns. */
  method UartRequest(port: nat -> Chunk, rsp: array<byte>, pollAttempts: nat, scanLimit: nat)
    returns (r: Received, polls: nat, examined: nat)
    requires pollAttempts >= 1 && scanLimit >= 1
    modifies rsp
    ensures examined <= scanLimit * (rsp.Length + 1) && Idle(port, polls) <= pollAttempts
    ensures polls <= pollAttempts + scanLimit * (rsp.Length + 1)
    ensures examined <= |Flat(port, polls)|
    ensures var seen := Flat(port, polls)[..examined];
            match r
            case Reply(len) => len <= rsp.Length && Found(rsp.Length, seen, scanLimit, rsp[..len])
            case Exhausted(attempts) => attempts == pollAttempts == Idle(port, polls)
                                        && examined == |Flat(port, polls)|
                                        && exists spent: nat :: spent < scanLimit && Scanning(rsp.Length, seen, spent)
            case Desync(scanned) => scanned == scanLimit && Scanning(rsp.Length, seen, scanLimit)
  {
    hide Push, Scanning, Found, After;
    var scanner := new RxScanner();
    var attempts, junk := 0, 0;
    polls, examined := 0, 0;
    ghost var cap, limit := Capacity(rsp.Length), scanLimit * (rsp.Length + 1);
    NothingYet(rsp.Length);
    assert [] + Flat(port, 0) == [];
    ghost var seen: seq<byte> := [];
    while true
      invariant scanner.Valid(rsp) && attempts < pollAttempts && junk < scanLimit
      invariant Idle(port, polls) == attempts && seen == Flat(port, polls) && |seen| == examined < limit
      invariant polls <= attempts + examined
      invariant Scanning(rsp.Length, seen, junk)
      invariant scanner.State(rsp) == After(cap, Hunting, seen, 0, |seen|)
      decreases pollAttempts - attempts, limit - examined
    {
      var chunk := port(polls);
      polls := polls + 1;
      if chunk == [] {
        attempts := attempts + 1;
        if attempts >= pollAttempts {
          assert Flat(port, polls)[..examined] == seen;
          return Exhausted(attempts), polls, examined;
        }
      } else {
        ghost var before := seen;
        for j := 0 to |chunk|
          invariant scanner.Valid(rsp) && junk < scanLimit
          invariant seen == before + chunk[..j] && |seen| == examined < limit
          invariant Scanning(rsp.Length, seen, junk)
          invariant scanner.State(rsp) == After(cap, Hunting, seen, 0, |seen|)
        {
          var b := chunk[j];
          ScanOne(rsp.Length, seen, b, junk, scanLimit);
          var result := scanner.Push(b, rsp);
          examined := examined + 1;
          seen := seen + [b];
          assert seen == Flat(port, polls)[..examined];
          match result {
            case Done(len) =>
              return Reply(len), polls, examined;
            case Assembling =>
              ScanningIsBounded(rsp.Length, seen, junk, scanLimit);
            case Hunt | Drop =>
              junk := junk + 1;
              if junk >= scanLimit {
                return Desync(junk), polls, examined;
              }
              ScanningIsBounded(rsp.Length, seen, junk, scanLimit);
          }
        }
      }
    }
  }
}
