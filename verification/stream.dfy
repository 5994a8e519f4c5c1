/** Stream framing: a pure parser of a whole byte stream, and the byte-at-a-time machine that both
    receivers are. */
module Stream {
  import opened Bytes
  import opened Frames

  const SYNC: byte := 0x7E

  /** A frame found in a stream, and the position just behind it. */
  datatype Hit = Hit(frame: seq<byte>, end: nat)

  // ---- the parser ----

  /** The valid frames found from position `i` on, hunting for a sync there, by a receiver whose
      buffer holds `cap` octets. */
  function Scan(cap: nat, s: seq<byte>, i: nat): seq<Hit>
    requires i <= |s|
    decreases |s| - i, 1
  {
    if i == |s| then []
    else if s[i] == SYNC && cap >= FRAME_OVERHEAD then ScanFrame(cap, s, i + 1)
    else Scan(cap, s, i + 1)
  }

  /** The same from `j`, just behind a sync: LEN fixes how far the frame reaches. A frame that cannot
      fit is given up at LEN; one that is not all there yet is not reported. */
  function ScanFrame(cap: nat, s: seq<byte>, j: nat): seq<Hit>
    requires j <= |s|
    decreases |s| - j, 2
  {
    if j + 2 > |s| then []
    else
      var total := s[j + 1] + FRAME_OVERHEAD;
      if total > cap then Scan(cap, s, j + 2)
      else if j + total > |s| then []
      else (if IsFrame(s[j..j + total]) then [Hit(s[j..j + total], j + total)] else []) + Scan(cap, s, j + total)
  }

  // ---- the machine ----

  datatype State = Hunting | InFrame(got: seq<byte>)

  datatype Outcome = Skipped | Taken | Complete(frame: seq<byte>) | Dropped

  /** What holds of every state between bytes. */
  predicate Reachable(cap: nat, st: State) {
    st.InFrame? ==>
      && cap >= FRAME_OVERHEAD && |st.got| < cap
      && (|st.got| >= 2 ==> |st.got| < st.got[1] + FRAME_OVERHEAD <= cap)
  }

  function Push(cap: nat, st: State, b: byte): (r: (State, Outcome))
    ensures Reachable(cap, st) ==> Reachable(cap, r.0)
    ensures Reachable(cap, st) && r.1.Complete? ==> |r.1.frame| <= cap && IsFrame(r.1.frame)
  {
    match st
    case Hunting => if b == SYNC && cap >= FRAME_OVERHEAD then (InFrame([]), Taken) else (Hunting, Skipped)
    case InFrame(got) =>
      var now := got + [b];
      if |now| < 2 then (InFrame(now), Taken)
      else if now[1] + FRAME_OVERHEAD > cap then (Hunting, Dropped)
      else if |now| < now[1] + FRAME_OVERHEAD then (InFrame(now), Taken)
      else (Hunting, if IsFrame(now) then Complete(now) else Dropped)
  }

  /** The state after the octets `[i, k)` of `s`. */
  function After(cap: nat, st: State, s: seq<byte>, i: nat, k: nat): State
    requires i <= k <= |s|
    decreases k - i
  {
    if i == k then st else After(cap, Push(cap, st, s[i]).0, s, i + 1, k)
  }

  /** The frames completed on the way. */
  function Hits(cap: nat, st: State, s: seq<byte>, i: nat, k: nat): seq<Hit>
    requires i <= k <= |s|
    decreases k - i
  {
    if i == k then []
    else
      var (st', out) := Push(cap, st, s[i]);
      (if out.Complete? then [Hit(out.frame, i + 1)] else []) + Hits(cap, st', s, i + 1, k)
  }

  lemma {:induction false} Split(cap: nat, st: State, s: seq<byte>, i: nat, j: nat, k: nat)
    requires i <= j <= k <= |s|
    ensures After(cap, st, s, i, k) == After(cap, After(cap, st, s, i, j), s, j, k)
    ensures Hits(cap, st, s, i, k) == Hits(cap, st, s, i, j) + Hits(cap, After(cap, st, s, i, j), s, j, k)
    decreases j - i
  {
    hide Push;
    if i < j {
      Split(cap, Push(cap, st, s[i]).0, s, i + 1, j, k);
    }
  }

  lemma {:induction false} StaysReachable(cap: nat, st: State, s: seq<byte>, i: nat, k: nat)
    requires i <= k <= |s| && Reachable(cap, st)
    ensures Reachable(cap, After(cap, st, s, i, k))
    decreases k - i
  {
    hide Push, Reachable;
    if i < k {
      StaysReachable(cap, Push(cap, st, s[i]).0, s, i + 1, k);
    }
  }

  /** The same frames, ending `d` octets later. */
  predicate Shifted(a: seq<Hit>, b: seq<Hit>, d: nat) {
    |a| == |b| && forall n :: 0 <= n < |a| ==> b[n] == Hit(a[n].frame, a[n].end + d)
  }

  lemma ShiftedWith(out: Outcome, end: nat, a: seq<Hit>, b: seq<Hit>, d: nat)
    requires Shifted(a, b, d)
    ensures Shifted((if out.Complete? then [Hit(out.frame, end)] else []) + a,
                    (if out.Complete? then [Hit(out.frame, end + d)] else []) + b, d)
  {
  }

  lemma HeadAndTail(s: seq<byte>, i: nat, k: nat, t: seq<byte>, d: nat)
    requires i < k <= |s| && k + d <= |t| && s[i..k] == t[i + d..k + d]
    ensures s[i] == t[i + d] && s[i + 1..k] == t[i + 1 + d..k + d]
  {
    assert s[i] == s[i..k][0] && t[i + d] == t[i + d..k + d][0];
    assert s[i + 1..k] == s[i..k][1..] && t[i + 1 + d..k + d] == t[i + d..k + d][1..];
  }

  /** Only the octets looked at matter. */
  lemma {:induction false} SameOctets(cap: nat, st: State, s: seq<byte>, i: nat, k: nat, t: seq<byte>, d: nat)
    requires i <= k <= |s| && k + d <= |t| && s[i..k] == t[i + d..k + d]
    ensures After(cap, st, s, i, k) == After(cap, st, t, i + d, k + d)
    ensures Shifted(Hits(cap, st, s, i, k), Hits(cap, st, t, i + d, k + d), d)
    decreases k - i
  {
    hide Push;
    if i < k {
      HeadAndTail(s, i, k, t, d);
      var (st', out) := Push(cap, st, s[i]);
      SameOctets(cap, st', s, i + 1, k, t, d);
      hide Shifted;
      ShiftedWith(out, i + 1, Hits(cap, st', s, i + 1, k), Hits(cap, st', t, i + 1 + d, k + d), d);
    }
  }

  lemma SamePrefix(cap: nat, s: seq<byte>, t: seq<byte>, n: nat)
    requires n <= |s| && n <= |t| && s[..n] == t[..n]
    ensures After(cap, Hunting, s, 0, n) == After(cap, Hunting, t, 0, n)
    ensures Hits(cap, Hunting, s, 0, n) == Hits(cap, Hunting, t, 0, n)
  {
    hide Push, Hits, After;
    assert s[0..n] == s[..n] && t[0..n] == t[..n];
    SameOctets(cap, Hunting, s, 0, n, t, 0);
  }

  // ---- the machine is the parser ----

  /** From the hunting state, the machine reports exactly the frames of the parser, each at its
      last octet. */
  lemma {:induction false} MachineIsParser(cap: nat, s: seq<byte>, i: nat)
    requires i <= |s|
    ensures Hits(cap, Hunting, s, i, |s|) == Scan(cap, s, i)
    decreases |s| - i, 1
  {
    if i < |s| {
      if s[i] == SYNC && cap >= FRAME_OVERHEAD {
        assert s[i + 1..i + 1] == [];
        InFrameIsParser(cap, s, i + 1, i + 1);
      } else {
        MachineIsParser(cap, s, i + 1);
      }
    }
  }

  lemma {:induction false} InFrameIsParser(cap: nat, s: seq<byte>, j: nat, i: nat)
    requires j <= i <= |s| && cap >= FRAME_OVERHEAD
    requires i >= j + 2 ==> i < j + s[j + 1] + FRAME_OVERHEAD <= j + cap
    ensures Hits(cap, InFrame(s[j..i]), s, i, |s|) == ScanFrame(cap, s, j)
    decreases |s| - i, 2
  {
    hide IsFrame, Push;
    if i < |s| {
      NextInFrame(cap, s, j, i);
      if i + 1 < j + 2 || (s[j + 1] + FRAME_OVERHEAD <= cap && i + 1 < j + s[j + 1] + FRAME_OVERHEAD) {
        InFrameIsParser(cap, s, j, i + 1);
      } else {
        MachineIsParser(cap, s, i + 1);
      }
    }
  }

  /** What the machine does with one more octet of a frame that starts at `j`. */
  lemma NextInFrame(cap: nat, s: seq<byte>, j: nat, i: nat)
    requires j <= i < |s|
    ensures Push(cap, InFrame(s[j..i]), s[i]) ==
            if i + 1 < j + 2 then (InFrame(s[j..i + 1]), Taken)
            else if s[j + 1] + FRAME_OVERHEAD > cap then (Hunting, Dropped)
            else if i + 1 < j + s[j + 1] + FRAME_OVERHEAD then (InFrame(s[j..i + 1]), Taken)
            else (Hunting, if IsFrame(s[j..i + 1]) then Complete(s[j..i + 1]) else Dropped)
  {
    hide IsFrame;
    assert s[j..i] + [s[i]] == s[j..i + 1];
    assert i >= j + 1 ==> s[j..i + 1][1] == s[j + 1];
  }

  // ---- resynchronisation ----

  /** Octets that are not a sync leave a hunting machine hunting. */
  lemma {:induction false} NoSyncNoFrame(cap: nat, s: seq<byte>, i: nat, k: nat)
    requires i <= k <= |s| && SYNC !in s[i..k]
    ensures After(cap, Hunting, s, i, k) == Hunting && Hits(cap, Hunting, s, i, k) == []
    decreases k - i
  {
    if i < k {
      assert s[i] == s[i..k][0] && s[i + 1..k] == s[i..k][1..];
      NoSyncNoFrame(cap, s, i + 1, k);
    }
  }

  /** A frame under way ends within the room the buffer has left. */
  lemma {:induction false} FrameEnds(cap: nat, st: State, s: seq<byte>, i: nat, k: nat)
    requires i <= k <= |s| && SYNC !in s[i..k] && Reachable(cap, st)
    requires st.InFrame? ==> k - i >= cap - |st.got|
    ensures After(cap, st, s, i, k) == Hunting
    decreases k - i
  {
    hide IsFrame;
    if st.Hunting? {
      NoSyncNoFrame(cap, s, i, k);
    } else {
      assert s[i] == s[i..k][0] && s[i + 1..k] == s[i..k][1..];
      FrameEnds(cap, Push(cap, st, s[i]).0, s, i + 1, k);
    }
  }

  lemma {:induction false} FrameProgress(cap: nat, s: seq<byte>, j: nat, i: nat, k: nat)
    requires j <= i < k <= |s| && IsFrame(s[j..k]) && k - j <= cap
    ensures After(cap, InFrame(s[j..i]), s, i, k) == Hunting
    ensures Hits(cap, InFrame(s[j..i]), s, i, k) == [Hit(s[j..k], k)]
    decreases k - i
  {
    assert s[j..k][1] == s[j + 1];
    NextInFrame(cap, s, j, i);
    hide Push;
    if i + 1 < k {
      FrameProgress(cap, s, j, i + 1, k);
    } else {
      assert Hits(cap, Hunting, s, k, k) == [];
    }
  }

  /** A sync and a valid frame that fits, received while hunting, is delivered at its last octet. */
  lemma Delivered(cap: nat, s: seq<byte>, i: nat, k: nat)
    requires i < k <= |s| && s[i] == SYNC && IsFrame(s[i + 1..k]) && k - i - 1 <= cap
    ensures After(cap, Hunting, s, i, k) == Hunting
    ensures Hits(cap, Hunting, s, i, k) == [Hit(s[i + 1..k], k)]
  {
    assert s[i + 1..i + 1] == [];
    FrameProgress(cap, s, i + 1, i + 1, k);
  }

  /** Resynchronisation bound: whatever state the machine is in, `cap` octets without a sync bring it
      back to hunting, and the next frame that fits is delivered. */
  lemma Resynchronises(cap: nat, st: State, quiet: seq<byte>, f: Frame)
    requires Reachable(cap, st) && |quiet| >= cap && SYNC !in quiet
    requires Encodable(f) && |Encoded(f)| <= cap
    ensures var s := quiet + [SYNC] + Encoded(f);
            && After(cap, st, s, 0, |quiet|) == Hunting
            && After(cap, st, s, 0, |s|) == Hunting
            && exists before ::
                 Hits(cap, st, s, 0, |s|) == before + [Hit(Encoded(f), |s|)]
                 && forall h :: h in before ==> h.end <= |quiet|
  {
    hide Encoded, IsFrame, Parse, Reachable, Push;
    var s, q := quiet + [SYNC] + Encoded(f), |quiet|;
    assert s[0..q] == quiet;
    assert Reachable(cap, st) && (st.InFrame? ==> q >= cap - |st.got|);
    FrameEnds(cap, st, s, 0, q);
    ParseInvertsEncoded(f);
    assert s[q + 1..|s|] == Encoded(f);
    Delivered(cap, s, q, |s|) by { EncodedIsFrame(f); }
    Split(cap, st, s, 0, q, |s|);
    HitsEndInside(cap, st, s, 0, q);
    assert Hits(cap, st, s, 0, |s|) == Hits(cap, st, s, 0, q) + [Hit(Encoded(f), |s|)];
  }

  lemma EncodedIsFrame(f: Frame)
    requires Encodable(f)
    ensures IsFrame(Encoded(f))
  {
    hide Encoded, IsFrame;
    ParseInvertsEncoded(f);
  }

  lemma {:induction false} HitsEndInside(cap: nat, st: State, s: seq<byte>, i: nat, k: nat)
    requires i <= k <= |s|
    ensures forall h :: h in Hits(cap, st, s, i, k) ==> i < h.end <= k
    decreases k - i
  {
    hide Push;
    if i < k {
      HitsEndInside(cap, Push(cap, st, s[i]).0, s, i + 1, k);
    }
  }

  // ---- print and parse ----

  /** A frame with what precedes it on the line. */
  datatype Sent = Sent(noise: seq<byte>, frame: Frame)

  predicate Printable(cap: nat, list: seq<Sent>) {
    forall k :: 0 <= k < |list| ==>
      SYNC !in list[k].noise && Encodable(list[k].frame) && |list[k].frame.payload| + FRAME_OVERHEAD <= cap
  }

  function Print(cap: nat, list: seq<Sent>): seq<byte>
    requires Printable(cap, list)
  {
    if list == [] then []
    else list[0].noise + [SYNC] + Encoded(list[0].frame) + Print(cap, list[1..])
  }

  lemma OneSent(cap: nat, item: Sent, s: seq<byte>, i: nat, k: nat)
    requires SYNC !in item.noise && Encodable(item.frame) && |Encoded(item.frame)| <= cap
    requires i <= k <= |s| && s[i..k] == item.noise + [SYNC] + Encoded(item.frame)
    ensures After(cap, Hunting, s, i, k) == Hunting
    ensures Hits(cap, Hunting, s, i, k) == [Hit(Encoded(item.frame), k)]
  {
    hide Encoded, IsFrame, Push;
    var j := i + |item.noise|;
    assert s[i..j] == s[i..k][..|item.noise|] == item.noise;
    assert s[j] == s[i..k][|item.noise|] == SYNC;
    assert s[j + 1..k] == s[i..k][|item.noise| + 1..] == Encoded(item.frame);
    NoSyncNoFrame(cap, s, i, j);
    EncodedIsFrame(item.frame);
    Delivered(cap, s, j, k);
    Split(cap, Hunting, s, i, j, k);
  }

  /** Any list of frames that fit, sent with noise without syncs in between, is received as exactly
      that list: sync octets inside frames do no harm. */
  lemma {:induction false} ParseInvertsPrint(cap: nat, list: seq<Sent>, s: seq<byte>, i: nat)
    requires Printable(cap, list) && i <= |s| && s[i..] == Print(cap, list)
    ensures After(cap, Hunting, s, i, |s|) == Hunting
    ensures |Hits(cap, Hunting, s, i, |s|)| == |list|
    ensures forall k :: 0 <= k < |list| ==> Hits(cap, Hunting, s, i, |s|)[k].frame == Encoded(list[k].frame)
    decreases list
  {
    hide Encoded, IsFrame, Push;
    if list != [] {
      var k := i + |list[0].noise| + 1 + |Encoded(list[0].frame)|;
      assert s[i..k] == s[i..][..k - i] && s[k..] == s[i..][k - i..];
      OneSent(cap, list[0], s, i, k);
      Split(cap, Hunting, s, i, k, |s|);
      ParseInvertsPrint(cap, list[1..], s, k);
      var hits, rest := Hits(cap, Hunting, s, i, |s|), Hits(cap, Hunting, s, k, |s|);
      forall n | 0 <= n < |list|
        ensures hits[n].frame == Encoded(list[n].frame)
      {
        if n > 0 {
          assert hits[n] == rest[n - 1] && list[n] == list[1..][n - 1];
        }
      }
    }
  }
}
