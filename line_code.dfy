/** The line code between the coprocessor and `decode`: the half-bit levels
    `send_packet` drives for a frame, the part of them the receiver times
    (from the sync low edge to the end-of-packet timeout), and the recorded
    durations of their runs. The main result is that `decode` returns
    exactly the bytes `send_packet` sent, for an even-length frame that
    carries its own CRC. */
module LineCode {
  import opened Common
  import opened AltoCrc
  import opened Timing

  /** The PWM period that paces `send_packet`: one half-bit, in nanoseconds. */
  const HalfBitNs := 170

  /** The recorded duration of a run of one half-bit, in `RecvWidth` units. */
  function OneHalf(): Uint8
  {
    85
  }

  /** The recorded duration of a run of two half-bits. */
  function TwoHalves(): Uint8
  {
    170
  }

  /** The two recorded values are the half-bit period and twice it, in
      units of `RecvWidth` nanoseconds. */
  lemma HalvesInUnits()
    ensures OneHalf() * RecvWidth == HalfBitNs && TwoHalves() * RecvWidth == 2 * HalfBitNs
  {
  }

  /** One half-bit falls in the single band and two in the double band. */
  lemma HalvesClassify()
    ensures Classify(OneHalf()) == Single && Classify(TwoHalves()) == Double
  {
  }

  // ---------------------------------------------------------------------
  // The transmitter

  /** `byte` after `k` executions of `byte <<= 1`. */
  function Shifted(b: bv8, k: nat): bv8
  {
    if k == 0 then b else Shifted(b, k - 1) << 1
  }

  /** Bit `k` of `b` counting from the most significant: the test
      `byte & 0x80` after `k` shifts. */
  predicate Bit(b: bv8, k: nat)
  {
    Shifted(b, k) & 0x80 != 0
  }

  /** A 1 is sent high then low, a 0 low then high. */
  function BitHalves(bit: bool): (h: seq<bool>)
    ensures |h| == 2 && h[0] == bit && h[1] == !bit
  {
    if bit then [true, false] else [false, true]
  }

  /** The halves of the first `k` bits of `b`. */
  function ByteHalves(b: bv8, k: nat): (h: seq<bool>)
    ensures |h| == 2 * k
  {
    if k == 0 then [] else ByteHalves(b, k - 1) + BitHalves(Bit(b, k - 1))
  }

  /** The halves of every bit of `f`, byte by byte. */
  function FrameHalves(f: seq<bv8>): (h: seq<bool>)
    ensures |h| == 16 * |f|
  {
    if |f| == 0 then [] else FrameHalves(f[..|f| - 1]) + ByteHalves(f[|f| - 1], BitsPerByte())
  }

  /** The levels `send_packet` drives for frame `f`, one per PWM period:
      the sync bit (1 then 0), two halves per bit, and a closing 1. */
  function SendLevels(f: seq<bv8>): (lv: seq<bool>)
    ensures |lv| == 16 * |f| + 3
  {
    [true, false] + FrameHalves(f) + [true]
  }

  // ---------------------------------------------------------------------
  // The receiver

  /** `lv` without its final run of 1s: the idle line after the last
      transition, which ends in the end-of-packet timeout. */
  function TrimIdle(lv: seq<bool>): (r: seq<bool>)
    ensures |r| <= |lv| && r == lv[..|r|]
    ensures |r| > 0 ==> !r[|r| - 1]
  {
    if |lv| > 0 && lv[|lv| - 1] then TrimIdle(lv[..|lv| - 1]) else lv
  }

  /** The levels the receiver times: it starts at the sync low edge, so the
      leading 1 is not seen, and it stops at the timeout. */
  function Captured(lv: seq<bool>): seq<bool>
    requires |lv| > 0
  {
    TrimIdle(lv[1..])
  }

  /** Levels that start low and never hold one value for three half-bits. */
  predicate Manchester(lv: seq<bool>)
  {
    (|lv| > 0 ==> !lv[0]) && forall i :: 0 <= i && i + 2 < |lv| ==> Changes(lv, i)
  }

  /** The three levels from `i` on are not all equal. */
  predicate Changes(lv: seq<bool>, i: nat)
    requires i + 2 < |lv|
  {
    !(lv[i] == lv[i + 1] && lv[i + 1] == lv[i + 2])
  }

  /** The durations the receiver records for `lv`: one per run, the run
      length in half-bits times the half-bit period, in 2 ns units. */
  function Pulses(lv: seq<bool>): (ds: seq<Uint8>)
    ensures |lv| > 0 ==> |ds| > 0
    decreases |lv|
  {
    if |lv| == 0 then []
    else if |lv| >= 2 && lv[|lv| - 2] == lv[|lv| - 1] then Pulses(lv[..|lv| - 2]) + [TwoHalves()]
    else Pulses(lv[..|lv| - 1]) + [OneHalf()]
  }

  /** The durations recorded for frame `f` sent by `send_packet`. */
  function LineDurations(f: seq<bv8>): seq<Uint8>
  {
    Pulses(Captured(SendLevels(f)))
  }

  // ---------------------------------------------------------------------
  // Lemmas

  /** `Expand` reads only the first `n` durations. */
  lemma {:induction false} ExpandPrefix(ds: seq<Uint8>, es: seq<Uint8>, n: nat)
    requires n <= |ds| && n <= |es| && ds[..n] == es[..n]
    ensures Expand(ds, n) == Expand(es, n)
  {
    if n > 0 {
      assert ds[..n - 1] == es[..n - 1] by {
        assert ds[..n - 1] == ds[..n][..n - 1];
        assert es[..n - 1] == es[..n][..n - 1];
      }
      assert ds[n - 1] == ds[..n][n - 1];
      assert es[n - 1] == es[..n][n - 1];
      ExpandPrefix(ds, es, n - 1);
    }
  }

  /** The decoder's first stage turns the recorded durations back into
      the levels they were recorded from. */
  lemma {:induction false} ExpandPulses(lv: seq<bool>)
    requires Manchester(lv)
    ensures Expand(Pulses(lv), |Pulses(lv)|) == lv
    decreases |lv|
  {
    if |lv| > 0 {
      PulsesLevel(lv);
      if |lv| >= 2 && lv[|lv| - 2] == lv[|lv| - 1] {
        ManchesterPrefix(lv, |lv| - 2);
        ExpandPulses(lv[..|lv| - 2]);
        ExpandLastTwo(lv);
      } else {
        ManchesterPrefix(lv, |lv| - 1);
        ExpandPulses(lv[..|lv| - 1]);
        ExpandLastOne(lv);
      }
    }
  }

  /** The step of `ExpandPulses` for a last run of two half-bits. */
  lemma ExpandLastTwo(lv: seq<bool>)
    requires |lv| >= 2 && lv[|lv| - 2] == lv[|lv| - 1]
    requires LevelAfter(|Pulses(lv)|) == lv[|lv| - 1]
    requires Expand(Pulses(lv[..|lv| - 2]), |Pulses(lv[..|lv| - 2])|) == lv[..|lv| - 2]
    ensures Expand(Pulses(lv), |Pulses(lv)|) == lv
  {
    var v := lv[|lv| - 1];
    var pre := lv[..|lv| - 2];
    var ds := Pulses(lv);
    HalvesClassify();
    assert ds == Pulses(pre) + [TwoHalves()];
    ExpandSnoc(Pulses(pre), TwoHalves());
    assert Run(TwoHalves(), v) == [v, v];
    LastTwo(lv);
  }

  /** The step of `ExpandPulses` for a last run of one half-bit. */
  lemma ExpandLastOne(lv: seq<bool>)
    requires |lv| >= 1 && !(|lv| >= 2 && lv[|lv| - 2] == lv[|lv| - 1])
    requires LevelAfter(|Pulses(lv)|) == lv[|lv| - 1]
    requires Expand(Pulses(lv[..|lv| - 1]), |Pulses(lv[..|lv| - 1])|) == lv[..|lv| - 1]
    ensures Expand(Pulses(lv), |Pulses(lv)|) == lv
  {
    var v := lv[|lv| - 1];
    var pre := lv[..|lv| - 1];
    var ds := Pulses(lv);
    HalvesClassify();
    assert ds == Pulses(pre) + [OneHalf()];
    ExpandSnoc(Pulses(pre), OneHalf());
    assert Run(OneHalf(), v) == [v];
    LastOne(lv);
  }

  lemma LastTwo<T>(s: seq<T>)
    requires |s| >= 2 && s[|s| - 2] == s[|s| - 1]
    ensures s == s[..|s| - 2] + [s[|s| - 1], s[|s| - 1]]
  {
  }

  lemma LastOne<T>(s: seq<T>)
    requires |s| >= 1
    ensures s == s[..|s| - 1] + [s[|s| - 1]]
  {
  }

  /** Runs alternate starting low, so the last run's level is the level
      after as many toggles as there are durations. */
  lemma {:induction false} PulsesLevel(lv: seq<bool>)
    requires Manchester(lv) && |lv| > 0
    ensures LevelAfter(|Pulses(lv)|) == lv[|lv| - 1]
    decreases |lv|
  {
    var v := lv[|lv| - 1];
    if |lv| >= 2 && lv[|lv| - 2] == v {
      var pre := lv[..|lv| - 2];
      if |pre| > 0 {
        ManchesterPrefix(lv, |lv| - 2);
        PulsesLevel(pre);
        assert Changes(lv, |lv| - 3);
      }
    } else {
      var pre := lv[..|lv| - 1];
      if |pre| > 0 {
        ManchesterPrefix(lv, |lv| - 1);
        PulsesLevel(pre);
      }
    }
  }

  lemma ManchesterPrefix(lv: seq<bool>, k: nat)
    requires Manchester(lv) && k <= |lv|
    ensures Manchester(lv[..k])
  {
    forall i | 0 <= i && i + 2 < k
      ensures Changes(lv[..k], i)
    {
      assert Changes(lv, i);
    }
  }

  /** One more duration adds its run at the end. */
  lemma ExpandSnoc(ps: seq<Uint8>, d: Uint8)
    ensures Expand(ps + [d], |ps| + 1) == Expand(ps, |ps|) + Run(d, LevelAfter(|ps| + 1))
  {
    var ds := ps + [d];
    assert ds[..|ps|] == ps;
    ExpandPrefix(ds, ps, |ps|);
  }

  /** Every recorded duration is in the single or the double band. */
  lemma {:induction false} PulsesUsable(lv: seq<bool>)
    ensures UsableUpTo(Pulses(lv), |Pulses(lv)|)
    decreases |lv|
  {
    if |lv| > 0 {
      HalvesClassify();
      var c := if |lv| >= 2 && lv[|lv| - 2] == lv[|lv| - 1] then 2 else 1;
      var ps := Pulses(lv[..|lv| - c]);
      PulsesUsable(lv[..|lv| - c]);
      var ds := Pulses(lv);
      assert ds[..|ps|] == ps;
      assert Usable(ds[|ps|]);
    }
  }

  /** Two halves of one bit always differ. */
  lemma {:induction false} ByteHalvesAt(b: bv8, k: nat, j: nat)
    requires j < k
    ensures ByteHalves(b, k)[2 * j] == Bit(b, j) && ByteHalves(b, k)[2 * j + 1] == !Bit(b, j)
  {
    if j < k - 1 {
      ByteHalvesAt(b, k - 1, j);
    }
  }

  /** Where bit `j` of byte `k` sits in the halves of a frame. */
  lemma {:induction false} FrameHalvesAt(f: seq<bv8>, k: nat, j: nat)
    requires k < |f| && j < 8
    ensures FrameHalves(f)[16 * k + 2 * j] == Bit(f[k], j)
    ensures FrameHalves(f)[16 * k + 2 * j + 1] == !Bit(f[k], j)
    decreases |f|
  {
    var pre := f[..|f| - 1];
    if k < |f| - 1 {
      assert f[k] == pre[k];
      FrameHalvesAt(pre, k, j);
    } else {
      ByteHalvesAt(f[k], BitsPerByte(), j);
    }
  }

  /** Pair `p` of the frame's halves is two opposite levels. */
  lemma {:induction false} FrameHalvesPair(f: seq<bv8>, p: nat)
    requires p < 8 * |f|
    ensures FrameHalves(f)[2 * p] != FrameHalves(f)[2 * p + 1]
    decreases |f|
  {
    var pre := f[..|f| - 1];
    if p < 8 * |pre| {
      FrameHalvesPair(pre, p);
    } else {
      ByteHalvesAt(f[|f| - 1], BitsPerByte(), p - 8 * |pre|);
    }
  }

  /** The frame's levels as the receiver aligns them: the sync low half,
      then two halves per bit. */
  function Aligned(f: seq<bv8>): (lv: seq<bool>)
    ensures |lv| == 16 * |f| + 1
  {
    [false] + FrameHalves(f)
  }

  lemma ManchesterAligned(f: seq<bv8>)
    ensures Manchester(Aligned(f))
  {
    var lv := Aligned(f);
    forall i | 0 <= i && i + 2 < |lv|
      ensures Changes(lv, i)
    {
      if i % 2 == 0 {
        FrameHalvesPair(f, i / 2);
      } else {
        FrameHalvesPair(f, (i - 1) / 2);
      }
    }
  }

  /** What the receiver times is the aligned levels, less the last one when
      the last bit sent is a 0 (its high half merges with the idle line). */
  lemma CapturedAligned(f: seq<bv8>)
    ensures var c := Captured(SendLevels(f));
      c == Aligned(f) || (c == Aligned(f)[..16 * |f|] && Aligned(f)[16 * |f|])
  {
    var lv := Aligned(f);
    var s := SendLevels(f);
    assert s[1..] == lv + [true];
    assert TrimIdle(lv + [true]) == TrimIdle(lv) by {
      assert (lv + [true])[..|lv|] == lv;
    }
    if |f| > 0 && lv[|lv| - 1] {
      FrameHalvesPair(f, 8 * |f| - 1);
      assert !lv[|lv| - 2];
      assert TrimIdle(lv) == TrimIdle(lv[..|lv| - 1]);
    }
  }

  lemma ManchesterCaptured(f: seq<bv8>)
    ensures Manchester(Captured(SendLevels(f)))
  {
    CapturedAligned(f);
    ManchesterAligned(f);
    ManchesterPrefix(Aligned(f), 16 * |f|);
  }

  /** The even-count compensation restores the level the idle line hid. */
  lemma PaddedCaptured(f: seq<bv8>)
    ensures Padded(Captured(SendLevels(f))) == Aligned(f)
  {
    CapturedAligned(f);
    var lv := Aligned(f);
    var c := Captured(SendLevels(f));
    var k := |f|;
    LengthParity(k);
    if c == lv {
      assert |c| % 2 == 1;
    } else {
      assert |c| == 16 * k && |c| % 2 == 0;
      assert Padded(c) == c + [true];
      assert lv == lv[..16 * k] + [lv[16 * k]];
    }
  }

  lemma LengthParity(k: nat)
    ensures (16 * k) % 2 == 0 && (16 * k + 1) % 2 == 1
  {
    var x := 16 * k;
    assert x == 2 * (8 * k);
  }

  /** The byte accumulator after shifting in the first `j` bits of `b`. */
  function MsbPrefix(b: bv8, j: nat): bv8
  {
    if j == 0 then 0 else PushBit(MsbPrefix(b, j - 1), Bit(b, j - 1))
  }

  /** Shifting in all eight bits of `b`, most significant first, gives `b`. */
  lemma MsbPrefixWhole(b: bv8)
    ensures MsbPrefix(b, 8) == b
  {
    assert Shifted(b, 1) == b << 1;
    assert Shifted(b, 2) == b << 2;
    assert Shifted(b, 3) == b << 3;
    assert Shifted(b, 4) == b << 4;
    assert Shifted(b, 5) == b << 5;
    assert Shifted(b, 6) == b << 6;
    assert Shifted(b, 7) == b << 7;
    assert MsbPrefix(b, 1) == b >> 7;
    assert MsbPrefix(b, 2) == b >> 6;
    assert MsbPrefix(b, 3) == b >> 5;
    assert MsbPrefix(b, 4) == b >> 4;
    assert MsbPrefix(b, 5) == b >> 3;
    assert MsbPrefix(b, 6) == b >> 2;
    assert MsbPrefix(b, 7) == b >> 1;
  }

  lemma {:induction false} ByteAccAligned(f: seq<bv8>, k: nat, j: nat)
    requires k < |f| && j <= 8
    ensures ByteAcc(Aligned(f), 8 * k, j) == MsbPrefix(f[k], j)
  {
    if j > 0 {
      ByteAccAligned(f, k, j - 1);
      FrameHalvesAt(f, k, j - 1);
      var lv := Aligned(f);
      assert lv[2 * (8 * k + j - 1) + 1] == FrameHalves(f)[16 * k + 2 * (j - 1)];
      assert lv[2 * (8 * k + j - 1) + 2] == FrameHalves(f)[16 * k + 2 * (j - 1) + 1];
    }
  }

  /** The pairing stage reads every byte of `f` back from its levels. */
  lemma {:induction false} BytesAligned(f: seq<bv8>, n: nat)
    requires n <= |f|
    ensures Bytes(Aligned(f), n) == f[..n]
  {
    if n > 0 {
      BytesAligned(f, n - 1);
      ByteAccAligned(f, n - 1, 8);
      MsbPrefixWhole(f[n - 1]);
      assert f[..n] == f[..n - 1] + [f[n - 1]];
    }
  }

  /** `decode` returns exactly the bytes `send_packet` sent, for any
      even-length message followed by its own CRC that fits the buffer,
      whatever the length header left in `udpBuf`. */
  lemma RoundTrip(m: seq<bv8>, header: seq<bv8>)
    requires |header| == 2 && |m| % 2 == 0 && |m| + 2 < MaxPupLength
    ensures var f := m + BigEndian(CrcOf(m)); DecodeSpec(LineDurations(f), header) == Success(f)
  {
    var f := m + BigEndian(CrcOf(m));
    assert |f| == |m| + 2;
    assert |f| % 2 == 0 by {
      assert |f| == 2 * (|m| / 2) + 2;
    }
    var ds := LineDurations(f);
    ManchesterCaptured(f);
    ExpandPulses(Captured(SendLevels(f)));
    PulsesUsable(Captured(SendLevels(f)));
    PaddedCaptured(f);
    var lv := Aligned(f);
    assert Padded(Expand(ds, |ds|)) == lv;
    DecodeStages(ds, header, lv);
    assert |lv| == 16 * |f| + 1;
    Quotient16(|f|, 1, |lv|);
    Remainder16(|f|, 1, |lv|);
    BytesAligned(f, |f|);
    assert f[..|f|] == f;
    CrcResidue(m);
    EvenCheck(header, f);
    assert CompleteBytes(|lv|) == |f| && |lv| % 16 == 1;
    assert Bytes(lv, |f|) == f && CrcMatches(header + f, |f|);
    assert DecodeSpec(ds, header) == Success(f);
  }

  /** The decoder accepts every frame of 282 bytes or more that `RoundTrip`
      covers, yet writes more levels for it than gateway.c's `bitBuf` holds:
      sixteen per byte and the sync half, against `BitBufLen`. */
  lemma BitBufOverrun(m: seq<bv8>, header: seq<bv8>)
    requires |header| == 2 && |m| % 2 == 0 && |m| + 2 < MaxPupLength
    requires 16 * (|m| + 2) >= BitBufLen
    ensures var f := m + BigEndian(CrcOf(m)); var ds := LineDurations(f);
      DecodeSpec(ds, header) == Success(f) && |Padded(Expand(ds, |ds|))| > BitBufLen
  {
    var f := m + BigEndian(CrcOf(m));
    RoundTrip(m, header);
    AcceptedShape(LineDurations(f), header);
  }
}
