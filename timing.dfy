/** The gateway's timing decoder (`decode` in gateway.c and etherNet.c): the
    durations the coprocessor recorded between line transitions become
    half-bit levels, the levels become Manchester bit pairs, eight pairs make
    a byte (most significant bit first), and the frame is accepted only when
    the level count is aligned and the trailing CRC word matches. */
module Timing {
  import opened Common
  import opened AltoCrc

  /** Durations are recorded in units of 2 ns, so that they fit in a byte. */
  const RecvWidth := 2

  /** 554 bytes of the largest PUP plus 10 of slop: the size of `byteBuf`;
      a frame reaching this many bytes is refused. */
  const MaxPupLength := 554 + 10

  /** `udpBuf`: two bytes of UDP length header, then `byteBuf`. */
  const UdpBufLen := MaxPupLength + 2

  /** `bitBufLen` in gateway.c: one level per bit of a maximum-length
      packet. A byte takes sixteen levels, so this is too small; see
      `BitBufOverrun` and `AcceptedLevelsFit`. */
  const BitBufLen := 8 * MaxPupLength

  // ---------------------------------------------------------------------
  // Stage 1: width classification

  /** How one recorded duration is read. */
  datatype Band = TooShort | Single | Ambiguous | Double | TooLong

  /** The width bands of `decode`, on the width in nanoseconds
      (`RecvWidth` times the recorded value). */
  function Classify(d: Uint8): Band
  {
    var width := 2 * d;
    if width < 120 then TooShort
    else if width < 230 then Single
    else if width < 280 then Ambiguous
    else if width < 400 then Double
    else TooLong
  }

  /** The same bands stated on the recorded byte `d` (width `2 * d` ns). */
  lemma ClassifyBands(d: Uint8)
    ensures Classify(d) == TooShort <==> d < 60
    ensures Classify(d) == Single <==> 60 <= d < 115
    ensures Classify(d) == Ambiguous <==> 115 <= d < 140
    ensures Classify(d) == Double <==> 140 <= d < 200
    ensures Classify(d) == TooLong <==> 200 <= d
  {
  }

  /** A duration that stands for one or two half-bits. */
  predicate Usable(d: Uint8)
  {
    Classify(d) == Single || Classify(d) == Double
  }

  /** The first `n` durations are all usable. */
  predicate UsableUpTo(ds: seq<Uint8>, n: nat)
    requires n <= |ds|
  {
    forall k :: 0 <= k < n ==> Usable(ds[k])
  }

  lemma UsableGrows(ds: seq<Uint8>, n: nat)
    requires n < |ds| && UsableUpTo(ds, n) && Usable(ds[n])
    ensures UsableUpTo(ds, n + 1)
  {
  }

  /** The level after `k` durations: it starts at 1 and toggles at each one. */
  function LevelAfter(k: nat): bool
  {
    if k == 0 then true else !LevelAfter(k - 1)
  }

  /** The levels one usable duration contributes: the new level, once for
      a single and twice for a double. */
  function Run(d: Uint8, value: bool): seq<bool>
  {
    if Classify(d) == Single then [value] else [value, value]
  }

  /** The half-bit levels the first stage of `decode` writes to `bitBuf` for
      the first `n` durations. */
  function Expand(ds: seq<Uint8>, n: nat): (lv: seq<bool>)
    requires n <= |ds|
    ensures n <= |lv| <= 2 * n
    ensures n > 0 ==> lv[|lv| - 1] == LevelAfter(n)
  {
    if n == 0 then [] else Expand(ds, n - 1) + Run(ds[n - 1], LevelAfter(n))
  }

  /** One more duration appends its run at the toggled level. */
  lemma ExpandNext(ds: seq<Uint8>, n: nat)
    requires n < |ds|
    ensures Expand(ds, n + 1) == Expand(ds, n) + Run(ds[n], !LevelAfter(n))
  {
  }

  // ---------------------------------------------------------------------
  // Stage 2: even-count compensation

  /** A trailing 1 is lost in the idle line after a final 0 bit; `decode`
      puts it back whenever the level count is even. */
  function Padded(lv: seq<bool>): (r: seq<bool>)
    ensures |r| == |lv| + 1 <==> |lv| % 2 == 0
    ensures |r| == |lv| <==> |lv| % 2 == 1
    ensures |r| % 2 == 1
    ensures r[..|lv|] == lv
    ensures |r| == |lv| + 1 ==> r[|lv|]
  {
    if |lv| % 2 == 0 then lv + [true] else lv
  }

  // ---------------------------------------------------------------------
  // Stage 3: Manchester pairs to bytes

  /** Pair `p` is levels `2p + 1` and `2p + 2` (level 0 is the sync half).
      Opposite halves give their first level; equal halves are a bad bit
      sequence, which `decode` reports and reads as 0. */
  function PairBit(lv: seq<bool>, p: nat): bool
    requires 2 * p + 2 < |lv|
  {
    if lv[2 * p + 1] == lv[2 * p + 2] then false else lv[2 * p + 1]
  }

  /** `(byte << 1) | bit` on a `uint8_t`. */
  function PushBit(acc: bv8, bit: bool): bv8
  {
    (acc << 1) | (if bit then 1 else 0)
  }

  /** The byte accumulator after the first `j` pairs of the byte that starts
      at pair `first`. */
  function ByteAcc(lv: seq<bool>, first: nat, j: nat): bv8
    requires 2 * (first + j) < |lv|
  {
    if j == 0 then 0 else PushBit(ByteAcc(lv, first, j - 1), PairBit(lv, first + j - 1))
  }

  /** Byte `k`: pairs `8k` to `8k + 7`, first pair in the most significant bit. */
  function ByteAt(lv: seq<bool>, k: nat): bv8
    requires 16 * k + 16 < |lv|
  {
    ByteAcc(lv, 8 * k, BitsPerByte())
  }

  /** The number of complete bytes in `m` levels: the level after the
      sync half and sixteen per byte. For the odd counts `decode` pairs,
      this is `m / 16`, the number of `i % 16 == 15` steps. */
  function CompleteBytes(m: nat): (n: nat)
    ensures m > 0 ==> 16 * n < m <= 16 * n + 16
  {
    if m == 0 then 0 else (m - 1) / 16
  }

  /** The first `n` bytes. */
  function Bytes(lv: seq<bool>, n: nat): (r: seq<bv8>)
    requires 16 * n < |lv|
    ensures |r| == n
  {
    if n == 0 then [] else Bytes(lv, n - 1) + [ByteAt(lv, n - 1)]
  }

  // ---------------------------------------------------------------------
  // The whole decoder

  datatype DecodeError = BadWidth | Overflow | Misaligned | BadCrc

  /** The CRC test of `decode` on `buf`, the first `n + 2` bytes of `udpBuf`
      (two header bytes, then the `n` decoded bytes): the CRC of
      `(n - 2) / 2` words (C division) against the big-endian word at
      `byteBuf[n - 2]`, which is `udpBuf[n]`. For `n < 2` that word
      reaches back into the header left in `udpBuf` by the previous
      datagram. */
  predicate CrcMatches(buf: seq<bv8>, n: nat)
    requires |buf| == n + 2
  {
    CrcOf(buf[2..2 + WordBytes(CrcWords(n))]) == Word(buf[n], buf[n + 1])
  }

  /** `(n - 2) / 2` in C: the CRC covers the frame up to its last two bytes,
      rounded down to whole words, and nothing when `n < 2`. */
  function CrcWords(n: nat): (w: int)
    ensures n >= 2 ==> WordBytes(w) == n - 2 - n % 2
    ensures n < 2 ==> WordBytes(w) == 0
  {
    CDiv(n - 2, 2)
  }

  /** What `decode(len)` computes from the durations `ds` and the two bytes
      `header` already in `udpBuf`: the frame, or why it was refused. */
  function DecodeSpec(ds: seq<Uint8>, header: seq<bv8>): (r: Result<seq<bv8>, DecodeError>)
    requires |header| == 2
    ensures r.Success? ==> |r.value| < MaxPupLength
  {
    if !UsableUpTo(ds, |ds|) then Failure(BadWidth)
    else
      var lv := Padded(Expand(ds, |ds|));
      if CompleteBytes(|lv|) >= MaxPupLength then Failure(Overflow)
      else if |lv| % 16 != 1 then Failure(Misaligned)
      else
        var bytes := Bytes(lv, CompleteBytes(|lv|));
        if CrcMatches(header + bytes, |bytes|) then Success(bytes) else Failure(BadCrc)
  }

  /** The bytes `decode` leaves in `byteBuf`, whatever its verdict: none
      after a width error, the first 564 on overflow, every complete byte
      otherwise. */
  function Written(ds: seq<Uint8>): (w: seq<bv8>)
    ensures |w| <= MaxPupLength
  {
    if !UsableUpTo(ds, |ds|) then []
    else
      var lv := Padded(Expand(ds, |ds|));
      var n := CompleteBytes(|lv|);
      Bytes(lv, if n < MaxPupLength then n else MaxPupLength)
  }

  /** `decode(len)` over `durationBuf[..len]`, writing into `udpBuf[2..]`
      (`byteBuf`); the result is the frame length, or -1. */
  method Decode(durationBuf: array<Uint8>, len: int, udpBuf: array<bv8>) returns (r: int)
    requires 0 <= len <= durationBuf.Length
    requires udpBuf.Length == UdpBufLen
    requires durationBuf as object != udpBuf
    modifies udpBuf
    ensures udpBuf[..] == Overlay(old(udpBuf[..]), 2, Written(durationBuf[..len]))
    ensures DecodeSpec(durationBuf[..len], old(udpBuf[..2])).Success? ==>
              r == |DecodeSpec(durationBuf[..len], old(udpBuf[..2])).value|
    ensures DecodeSpec(durationBuf[..len], old(udpBuf[..2])).Failure? ==> r == -1
  {
    ghost var ds := durationBuf[..len];
    ghost var header := udpBuf[..2];
    ghost var orig := udpBuf[..];
    var usable, bitBuf, offset2 := ToLevels(durationBuf, len);
    if !usable {
      OverlayFrom(orig, 2, [], udpBuf[..]);
      return -1;
    }
    DecodeStages(ds, header, bitBuf);
    var overflow, byteCount := ToBytes(bitBuf, offset2, udpBuf);
    assert durationBuf[..len] == ds;
    if overflow || offset2 % 16 != 1 {
      return -1;
    }
    assert udpBuf[..byteCount + 2] == header + Bytes(bitBuf, byteCount);
    var ok := CheckCrc(udpBuf, byteCount);
    if !ok {
      return -1;
    }
    return byteCount;
  }

  /** `DecodeSpec` and `Written` once the widths are known to be usable. */
  lemma DecodeStages(ds: seq<Uint8>, header: seq<bv8>, lv: seq<bool>)
    requires |header| == 2 && UsableUpTo(ds, |ds|) && lv == Padded(Expand(ds, |ds|))
    ensures var n := CompleteBytes(|lv|);
      Written(ds) == Bytes(lv, if n < MaxPupLength then n else MaxPupLength) &&
      DecodeSpec(ds, header) ==
        if n >= MaxPupLength then Failure(Overflow)
        else if |lv| % 16 != 1 then Failure(Misaligned)
        else if CrcMatches(header + Bytes(lv, n), n) then Success(Bytes(lv, n))
        else Failure(BadCrc)
  {
  }

  /** The first stage of `decode`, followed by the even-count compensation:
      `bitBuf` receives the padded levels, `offset2` counts them. A duration
      outside the single and double bands stops it. */
  method ToLevels(durationBuf: array<Uint8>, len: int) returns (usable: bool, bitBuf: seq<bool>, offset2: int)
    requires 0 <= len <= durationBuf.Length
    ensures usable == UsableUpTo(durationBuf[..len], len)
    ensures usable ==> offset2 == |bitBuf| && bitBuf == Padded(Expand(durationBuf[..len], len))
    ensures |bitBuf| <= 2 * len + 1
  {
    ghost var ds := durationBuf[..len];
    bitBuf := [];
    offset2 := 0;
    var value := true;
    var offset1 := 0;
    while offset1 < len
      invariant 0 <= offset1 <= len
      invariant UsableUpTo(ds, offset1)
      invariant value == LevelAfter(offset1)
      invariant offset2 == |bitBuf|
      invariant bitBuf == Expand(ds, offset1)
    {
      ExpandNext(ds, offset1);
      var band := Classify(durationBuf[offset1]);
      if band == Single {
        value := !value;
        bitBuf := bitBuf + [value];
        offset2 := offset2 + 1;
      } else if band == Double {
        value := !value;
        bitBuf := bitBuf + [value, value];
        offset2 := offset2 + 2;
      } else {
        return false, bitBuf, offset2;
      }
      UsableGrows(ds, offset1);
      offset1 := offset1 + 1;
    }
    if offset2 % 2 == 0 {
      bitBuf := bitBuf + [true];
      offset2 := offset2 + 1;
    }
    return true, bitBuf, offset2;
  }

  /** The pairing stage of `decode`: bytes go to `byteBuf` (`udpBuf[2..]`) as
      they complete; reaching `MaxPupLength` bytes stops it. */
  method ToBytes(bitBuf: seq<bool>, offset2: int, udpBuf: array<bv8>) returns (overflow: bool, byteCount: int)
    requires offset2 == |bitBuf| && offset2 % 2 == 1
    requires udpBuf.Length == UdpBufLen
    modifies udpBuf
    ensures overflow <==> CompleteBytes(offset2) >= MaxPupLength
    ensures overflow ==> byteCount == MaxPupLength
    ensures !overflow ==> byteCount == CompleteBytes(offset2)
    ensures udpBuf[..] == Overlay(old(udpBuf[..]), 2, Bytes(bitBuf, byteCount))
  {
    ghost var lv := bitBuf;
    ghost var orig := udpBuf[..];
    var byte: bv8 := 0;
    byteCount := 0;
    ghost var q := 0;  // pairs already shifted into `byte`
    var i := 1;
    while i < offset2
      invariant 0 <= q < 8 && i == 16 * byteCount + 2 * q + 1 <= offset2
      invariant byteCount < MaxPupLength
      invariant byte == ByteAcc(lv, 8 * byteCount, q)
      invariant udpBuf[..] == Overlay(orig, 2, Bytes(lv, byteCount))
    {
      ghost var acc := byte;
      if bitBuf[i] == bitBuf[i + 1] {
        byte := PushBit(byte, false);
      } else {
        byte := PushBit(byte, bitBuf[i]);
      }
      PairStep(lv, byteCount, q, i, acc, byte);
      if i % 16 == 15 {
        StoreByte(udpBuf, byteCount, byte, orig, lv);
        byteCount := byteCount + 1;
        if byteCount >= MaxPupLength {
          assert 16 * byteCount == i + 1 < offset2;
          AtLeastBytes(offset2, byteCount);
          return true, byteCount;
        }
        byte := 0;
        q := 0;
      } else {
        q := q + 1;
      }
      i := i + 2;
    }
    assert i == offset2;
    Quotient16(byteCount, 2 * q + 1, offset2);
    return false, byteCount;
  }

  /** Stores byte `b` of the frame at `byteBuf[b]`, that is `udpBuf[2 + b]`. */
  method StoreByte(udpBuf: array<bv8>, b: nat, byte: bv8, ghost orig: seq<bv8>, ghost lv: seq<bool>)
    requires udpBuf.Length == UdpBufLen == |orig| && b < MaxPupLength && 16 * b + 16 < |lv|
    requires byte == ByteAt(lv, b) && udpBuf[..] == Overlay(orig, 2, Bytes(lv, b))
    modifies udpBuf
    ensures udpBuf[..] == Overlay(orig, 2, Bytes(lv, b + 1))
  {
    ghost var before := udpBuf[..];
    udpBuf[2 + b] := byte;
    assert udpBuf[..] == before[2 + b := byte];
    OverlayGrow(orig, 2, Bytes(lv, b), byte);
  }

  /** One iteration of the pairing loop: pair `q` of byte `b` is shifted
      into the accumulator, and the eighth completes byte `b`. */
  lemma PairStep(lv: seq<bool>, b: nat, q: nat, i: nat, acc: bv8, acc': bv8)
    requires q < 8 && i == 16 * b + 2 * q + 1 && i + 1 < |lv|
    requires acc == ByteAcc(lv, 8 * b, q)
    requires acc' == PushBit(acc, if lv[i] == lv[i + 1] then false else lv[i])
    ensures acc' == ByteAcc(lv, 8 * b, q + 1)
    ensures i % 16 == 15 <==> q == 7
    ensures q == 7 ==> acc' == ByteAt(lv, b)
  {
    Remainder16(b, 2 * q + 1, i);
  }

  lemma AtLeastBytes(m: nat, b: nat)
    requires 16 * b < m
    ensures CompleteBytes(m) >= b
  {
  }

  lemma Quotient16(b: nat, r: nat, m: nat)
    requires 0 < r <= 16 && m == 16 * b + r
    ensures CompleteBytes(m) == b
  {
  }

  lemma Remainder16(b: nat, r: nat, m: nat)
    requires r < 16 && m == 16 * b + r
    ensures m % 16 == r
  {
  }

  /** The CRC stage of `decode` on the `byteCount` bytes in `byteBuf`. */
  method CheckCrc(udpBuf: array<bv8>, byteCount: int) returns (ok: bool)
    requires 0 <= byteCount < MaxPupLength && udpBuf.Length == UdpBufLen
    ensures ok == CrcMatches(udpBuf[..byteCount + 2], byteCount)
  {
    ghost var buf := udpBuf[..byteCount + 2];
    ghost var k := WordBytes(CrcWords(byteCount));
    assert k <= byteCount;
    var crcVal := Crc(udpBuf, 2, CrcWords(byteCount));
    assert forall j | 2 <= j < 2 + k :: buf[j] == udpBuf[j];
    assert udpBuf[2..2 + k] == buf[2..2 + k];
    // `byteBuf[byteCount - 2]` is `udpBuf[byteCount]`.
    var readCrcVal := Word(udpBuf[byteCount], udpBuf[byteCount + 1]);
    return crcVal == readCrcVal;
  }

  // ---------------------------------------------------------------------
  // What an accepted frame is

  /** An accepted frame is what `decode` left in `byteBuf`: sixteen levels
      per byte plus the sync half, and fewer than `MaxPupLength` bytes. */
  lemma AcceptedShape(ds: seq<Uint8>, header: seq<bv8>)
    requires |header| == 2 && DecodeSpec(ds, header).Success?
    ensures UsableUpTo(ds, |ds|)
    ensures |Padded(Expand(ds, |ds|))| == 16 * |DecodeSpec(ds, header).value| + 1
    ensures DecodeSpec(ds, header).value == Written(ds)
  {
    var lv := Padded(Expand(ds, |ds|));
    AlignedCount(|lv|);
  }

  /** The levels of every frame `decode` accepts fit a buffer of sixteen
      levels per byte of `byteBuf`, the worst case gateway.c's comment on
      `MAX_PUP_LENGTH` names. */
  lemma AcceptedLevelsFit(ds: seq<Uint8>, header: seq<bv8>)
    requires |header| == 2 && DecodeSpec(ds, header).Success?
    ensures |Padded(Expand(ds, |ds|))| < 16 * MaxPupLength
  {
    AcceptedShape(ds, header);
  }

  /** A level count that passes the alignment check is sixteen per byte
      plus the sync half. */
  lemma AlignedCount(m: nat)
    requires m % 16 == 1
    ensures m == 16 * CompleteBytes(m) + 1
  {
  }

  /** For a whole number of words (at least one), the CRC test passes
      exactly when the CRC of the frame with its trailer is zero. */
  lemma EvenCheck(header: seq<bv8>, f: seq<bv8>)
    requires |header| == 2 && |f| >= 2 && |f| % 2 == 0
    ensures CrcMatches(header + f, |f|) <==> CrcOf(f) == 0
  {
    var n := |f|;
    var buf := header + f;
    assert buf[2..2 + WordBytes(CrcWords(n))] == f[..n - 2];
    assert buf[n] == f[n - 2] && buf[n + 1] == f[n - 1];
    CheckIffResidueZero(f[..n - 2], f[n - 2], f[n - 1]);
    assert f[..n - 2] + [f[n - 2], f[n - 1]] == f;
  }

  /** For an odd byte count the CRC stops one byte short of the trailer:
      the byte just before the last two is never checked. */
  lemma OddCheckSkipsByte(header: seq<bv8>, f: seq<bv8>)
    requires |header| == 2 && |f| >= 3 && |f| % 2 == 1
    ensures CrcMatches(header + f, |f|) <==> CrcOf(f[..|f| - 3]) == Word(f[|f| - 2], f[|f| - 1])
  {
    var n := |f|;
    var buf := header + f;
    assert buf[2..2 + WordBytes(CrcWords(n))] == f[..n - 3];
    assert buf[n] == f[n - 2] && buf[n + 1] == f[n - 1];
  }

  /** With fewer than two bytes the trailer word reaches back into the
      length header left in `udpBuf`; the frame is accepted exactly when
      that word equals the CRC of nothing, the seed. */
  lemma ShortCheckReadsHeader(header: seq<bv8>, f: seq<bv8>)
    requires |header| == 2 && |f| < 2
    ensures CrcMatches(header + f, |f|) <==> Word((header + f)[|f|], (header + f)[|f| + 1]) == Seed
  {
    var buf := header + f;
    assert buf[2..2 + WordBytes(CrcWords(|f|))] == [];
    assert CrcOf([]) == Seed;
  }
}
