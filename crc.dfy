/** The Alto Ethernet CRC-16: a register seeded with 0x8005 (it stands for the
    sync bit that precedes the data on the wire), fed each byte most
    significant bit first, polynomial 0x8005, no final inversion. */
module AltoCrc {
  import opened Common

  const Seed: bv16 := 0x8005
  const Poly: bv16 := 0x8005

  /** The register after one inner iteration of `crc`: the feedback is
      bit 15 of register XOR data; the register is shifted left and the
      polynomial is XORed in on feedback. */
  function BitStep(reg: bv16, data: bv16): bv16
  {
    var feedback := (reg ^ data) & 0x8000;
    var shifted := reg << 1;
    if feedback != 0 then shifted ^ Poly else shifted
  }

  function Shl1(x: bv16): bv16
  {
    x << 1
  }

  /** The data word after `k` inner iterations: shifted left `k` times. */
  function DataAfter(data: bv16, k: nat): bv16
  {
    if k == 0 then data else Shl1(DataAfter(data, k - 1))
  }

  /** The register after `k` inner iterations. */
  function BitSteps(reg: bv16, data: bv16, k: nat): bv16
  {
    if k == 0 then reg else BitStep(BitSteps(reg, data, k - 1), DataAfter(data, k - 1))
  }

  /** Inner iterations per byte. */
  function BitsPerByte(): nat
  {
    8
  }

  /** The register after one byte: 8 iterations with the byte in the high half of `data`. */
  function ByteStep(reg: bv16, b: bv8): bv16
  {
    BitSteps(reg, (b as bv16) << 8, BitsPerByte())
  }

  /** The register after feeding the bytes of `s` in order, starting from `reg`. */
  function CrcFrom(reg: bv16, s: seq<bv8>): bv16
    decreases |s|
  {
    if |s| == 0 then reg else ByteStep(CrcFrom(reg, s[..|s| - 1]), s[|s| - 1])
  }

  /** The Alto CRC of a byte sequence. */
  function CrcOf(s: seq<bv8>): bv16
  {
    CrcFrom(Seed, s)
  }

  /** Number of bytes `crc(buf, len)` consumes: 2·len, none for len <= 0. */
  function WordBytes(len: int): (n: nat)
    ensures len > 0 ==> n == 2 * len
    ensures len <= 0 ==> n == 0
  {
    if len <= 0 then 0 else 2 * len
  }

  /** `crc(buf, len)`: the CRC of the `len` big-endian words that start at
      `buf[base]` (the gateway passes `byteBuf`, which is `udpBuf + 2`). */
  method Crc(buf: array<bv8>, base: nat, len: int) returns (crc: bv16)
    requires base + WordBytes(len) <= buf.Length
    ensures crc == CrcOf(buf[base..base + WordBytes(len)])
  {
    crc := Seed;
    var n := 0;
    while n < 2 * len
      invariant 0 <= n <= WordBytes(len)
      invariant crc == CrcOf(buf[base..base + n])
    {
      var data: bv16 := (buf[base + n] as bv16) << 8;
      ghost var before, first := crc, data;
      var i := 0;
      while i < 8
        invariant 0 <= i <= 8
        invariant crc == BitSteps(before, first, i) && data == DataAfter(first, i)
      {
        ghost var reg0, data0 := crc, data;
        var xorFeedback := (crc ^ data) & 0x8000;
        crc := crc << 1;
        ghost var shifted := crc;
        data := data << 1;
        if xorFeedback != 0 {
          crc := crc ^ 0x8005;
        }
        StepAgrees(reg0, data0, xorFeedback, shifted, crc, data);
        i := i + 1;
      }
      assert buf[base..base + n + 1][..n] == buf[base..base + n];
      n := n + 1;
    }
  }

  /** The statements of one inner iteration compute `BitStep` and `Shl1`. */
  lemma StepAgrees(reg: bv16, data: bv16, feedback: bv16, shifted: bv16, r: bv16, d: bv16)
    requires feedback == (reg ^ data) & 0x8000 && shifted == reg << 1 && d == data << 1
    requires r == if feedback != 0 then shifted ^ 0x8005 else shifted
    ensures r == BitStep(reg, data) && d == Shl1(data)
  {
  }

  // ---------------------------------------------------------------------
  // Properties

  /** Bytes are consumed strictly in order: the CRC of `a + b` continues
      from the register left by `a`. */
  lemma {:induction false} CrcAppend(reg: bv16, a: seq<bv8>, b: seq<bv8>)
    ensures CrcFrom(reg, a + b) == CrcFrom(CrcFrom(reg, a), b)
    decreases |b|
  {
    if |b| == 0 {
      assert a + b == a;
    } else {
      var ab := a + b;
      assert ab[..|ab| - 1] == a + b[..|b| - 1];
      CrcAppend(reg, a, b[..|b| - 1]);
    }
  }

  lemma CrcFromPair(reg: bv16, x: bv8, y: bv8)
    ensures CrcFrom(reg, [x, y]) == ByteStep(ByteStep(reg, x), y)
  {
    assert [x][..0] == [];
    assert CrcFrom(reg, [x]) == ByteStep(reg, x);
    assert [x, y][..1] == [x];
  }

  /** `ByteStep` written out as its eight iterations, for the bit-level
      proofs below. */
  function ByteStep8(reg: bv16, b: bv8): bv16
  {
    var d := (b as bv16) << 8;
    var r1 := BitStep(reg, d);
    var r2 := BitStep(r1, d << 1);
    var r3 := BitStep(r2, d << 2);
    var r4 := BitStep(r3, d << 3);
    var r5 := BitStep(r4, d << 4);
    var r6 := BitStep(r5, d << 5);
    var r7 := BitStep(r6, d << 6);
    BitStep(r7, d << 7)
  }

  lemma ByteStepUnrolled(reg: bv16, b: bv8)
    ensures ByteStep(reg, b) == ByteStep8(reg, b)
  {
    var d := (b as bv16) << 8;
    assert DataAfter(d, 1) == d << 1;
    assert DataAfter(d, 2) == d << 2;
    assert DataAfter(d, 3) == d << 3;
    assert DataAfter(d, 4) == d << 4;
    assert DataAfter(d, 5) == d << 5;
    assert DataAfter(d, 6) == d << 6;
    assert DataAfter(d, 7) == d << 7;
    assert BitSteps(reg, d, 1) == BitStep(reg, d);
    assert BitSteps(reg, d, 2) == BitStep(BitSteps(reg, d, 1), d << 1);
    assert BitSteps(reg, d, 3) == BitStep(BitSteps(reg, d, 2), d << 2);
    assert BitSteps(reg, d, 4) == BitStep(BitSteps(reg, d, 3), d << 3);
    assert BitSteps(reg, d, 5) == BitStep(BitSteps(reg, d, 4), d << 4);
    assert BitSteps(reg, d, 6) == BitStep(BitSteps(reg, d, 5), d << 5);
    assert BitSteps(reg, d, 7) == BitStep(BitSteps(reg, d, 6), d << 6);
    assert BitSteps(reg, d, 8) == BitStep(BitSteps(reg, d, 7), d << 7);
  }

  /** Feeding the register's own high byte cancels it. */
  lemma HighByteCancels(c: bv16)
    ensures ByteStep8(c, (c >> 8) as bv8) == (c & 0xff) << 8
  {
  }

  /** Feeding the register's own high byte when the low byte is clear empties it. */
  lemma LowByteCancels(lo: bv8)
    ensures ByteStep8((lo as bv16) << 8, lo) == 0
  {
  }

  /** A frame followed by its own CRC, big-endian, leaves the register at zero. */
  lemma CrcResidue(m: seq<bv8>)
    ensures CrcOf(m + BigEndian(CrcOf(m))) == 0
  {
    var c := CrcOf(m);
    var t := BigEndian(c);
    CrcAppend(Seed, m, t);
    assert t == [t[0], t[1]];
    CrcFromPair(c, t[0], t[1]);
    ByteStepUnrolled(c, t[0]);
    HighByteCancels(c);
    assert (c & 0xff) << 8 == (t[1] as bv16) << 8;
    ByteStepUnrolled((t[1] as bv16) << 8, t[1]);
    LowByteCancels(t[1]);
  }

  /** Only the register's own two bytes bring it to zero. */
  lemma OnlyOwnCrcCancels(c: bv16, hi: bv8, lo: bv8)
    requires ByteStep8(ByteStep8(c, hi), lo) == 0
    ensures [hi, lo] == BigEndian(c)
  {
  }

  /** The receiver's check (computed CRC equals the trailing big-endian word)
      holds exactly when the CRC of the whole frame, trailer included, is zero. */
  lemma CheckIffResidueZero(m: seq<bv8>, hi: bv8, lo: bv8)
    ensures CrcOf(m) == Word(hi, lo) <==> CrcOf(m + [hi, lo]) == 0
  {
    var c := CrcOf(m);
    CrcAppend(Seed, m, [hi, lo]);
    CrcFromPair(c, hi, lo);
    ByteStepUnrolled(c, hi);
    ByteStepUnrolled(ByteStep(c, hi), lo);
    if c == Word(hi, lo) {
      assert BigEndian(c) == [hi, lo];
      CrcResidue(m);
    }
    if CrcOf(m + [hi, lo]) == 0 {
      OnlyOwnCrcCancels(c, hi, lo);
      assert Word(hi, lo) == c;
    }
  }
}
