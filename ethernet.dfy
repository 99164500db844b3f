/** The host side of etherNet.c, the older gateway that drives a
    command-based coprocessor program: instead of handing buffers over
    through owner fields it re-arms the receiver with `r_command = RECV`
    and starts a send with `w_command = SEND`. Its `decode` and `crc` are
    those of gateway.c (`Timing.Decode`, `AltoCrc.Crc`); its UDP header
    counts one word more; and it can send a fixed echo packet written as a
    string of hex digits. */
module EtherNet {
  import opened Common
  import opened AltoCrc
  import opened Timing
  import opened Iface
  import opened Gateway

  // ---------------------------------------------------------------------
  // Hex digits and the echo packet

  /** The digit for `v < 16`, upper or lower case for the letters. */
  function HexDigit(v: nat, upper: bool): char
    requires v < 16
  {
    if v < 10 then ('0' as int + v) as char
    else ((if upper then 'A' else 'a') as int + v - 10) as char
  }

  /** `hexCharToInt`: the value of a hex digit of either case; any other
      character makes the program exit, modelled as `None`. */
  function HexCharToInt(c: char): (r: Option<nat>)
    ensures r.Some? ==> r.value < 16 && c == HexDigit(r.value, c <= 'F')
    ensures r.None? ==> forall v: nat, upper: bool :: v < 16 ==> HexDigit(v, upper) != c
  {
    if '0' <= c <= '9' then Some(c as int - '0' as int)
    else if 'A' <= c <= 'F' then Some(c as int - 'A' as int + 10)
    else if 'a' <= c <= 'f' then Some(c as int - 'a' as int + 10)
    else None
  }

  /** Every digit reads back as its value, in either case. */
  lemma HexRoundTrip(v: nat, upper: bool)
    requires v < 16
    ensures HexCharToInt(HexDigit(v, upper)) == Some(v)
  {
    var c := HexDigit(v, upper);
    if v < 10 {
      assert '0' <= c <= '9';
    } else if upper {
      assert 'A' <= c <= 'F';
    } else {
      assert 'a' <= c <= 'f';
    }
  }

  /** The character at `i` of a C string: its terminating NUL past the end. */
  function CharAt(s: string, i: nat): char
  {
    if i < |s| then s[i] else '\0'
  }

  /** `hexCharToInt(hi) * 16 + hexCharToInt(lo)`, stored in a byte. */
  function HexPair(hi: char, lo: char): Option<bv8>
  {
    match (HexCharToInt(hi), HexCharToInt(lo))
    case (Some(h), Some(l)) => Some((16 * h + l) as bv8)
    case _ => None
  }

  /** The parse loop of `sendEchoPacket` reads a byte at every third
      character while the index is inside the string: two digits, then a
      separator it never looks at. */
  function GroupCount(s: string): nat
  {
    (|s| + 2) / 3
  }

  function Group(s: string, k: nat): Option<bv8>
  {
    HexPair(CharAt(s, 3 * k), CharAt(s, 3 * k + 1))
  }

  predicate ParsesHex(s: string)
  {
    forall k :: 0 <= k < GroupCount(s) ==> Group(s, k).Some?
  }

  /** The bytes the parse loop produces, or `None` if it meets a character
      that is not a hex digit (including the NUL after a lone last digit). */
  function ParseHex(s: string): Option<seq<bv8>>
  {
    if ParsesHex(s) then Some(seq(GroupCount(s), k requires 0 <= k < GroupCount(s) => Group(s, k).value))
    else None
  }

  /** Bytes written the way the echo string is: two digits per byte, the
      groups separated by spaces. `upper` chooses the case of each digit,
      two per byte; the echo string mixes them (`C0` beside `6d`). */
  function FormatHex(bs: seq<bv8>, upper: seq<bool>): (s: string)
    requires |upper| == 2 * |bs|
    ensures |s| == if |bs| == 0 then 0 else 3 * |bs| - 1
  {
    seq(if |bs| == 0 then 0 else 3 * |bs| - 1,
        i requires 0 <= i < 3 * |bs| =>
          if i % 3 == 0 then HexDigit(bs[i / 3] as int / 16, upper[2 * (i / 3)])
          else if i % 3 == 1 then HexDigit(bs[i / 3] as int % 16, upper[2 * (i / 3) + 1])
          else ' ')
  }

  /** Parsing reads back what was formatted, whatever the case of each
      digit. */
  lemma ParseFormat(bs: seq<bv8>, upper: seq<bool>)
    requires |upper| == 2 * |bs|
    ensures ParseHex(FormatHex(bs, upper)) == Some(bs)
  {
    var s := FormatHex(bs, upper);
    assert GroupCount(s) == |bs|;
    forall k | 0 <= k < |bs| ensures Group(s, k) == Some(bs[k]) {
      GroupReads(bs, upper, k);
    }
    assert ParsesHex(s);
    assert ParseHex(s).value == bs;
  }

  /** Group `k` of the formatted bytes is the two digits of byte `k`. */
  lemma GroupReads(bs: seq<bv8>, upper: seq<bool>, k: nat)
    requires |upper| == 2 * |bs| && k < |bs|
    ensures Group(FormatHex(bs, upper), k) == Some(bs[k])
  {
    var b := bs[k] as int;
    DigitsAt(bs, upper, k);
    PairReads(b / 16, b % 16, upper[2 * k], upper[2 * k + 1]);
    DigitsMakeByte(bs[k]);
  }

  /** Two digits, in any case, read as the byte they spell. */
  lemma PairReads(hi: nat, lo: nat, upperHi: bool, upperLo: bool)
    requires hi < 16 && lo < 16
    ensures HexPair(HexDigit(hi, upperHi), HexDigit(lo, upperLo)) == Some((16 * hi + lo) as bv8)
  {
    HexRoundTrip(hi, upperHi);
    HexRoundTrip(lo, upperLo);
  }

  /** Characters `3 k` and `3 k + 1` of the formatted bytes. */
  lemma DigitsAt(bs: seq<bv8>, upper: seq<bool>, k: nat)
    requires |upper| == 2 * |bs| && k < |bs|
    ensures CharAt(FormatHex(bs, upper), 3 * k) == HexDigit(bs[k] as int / 16, upper[2 * k])
    ensures CharAt(FormatHex(bs, upper), 3 * k + 1) == HexDigit(bs[k] as int % 16, upper[2 * k + 1])
  {
    var s := FormatHex(bs, upper);
    Thirds(k);
    assert 3 * k + 1 < |s|;
  }

  lemma Thirds(k: nat)
    ensures (3 * k) % 3 == 0 && (3 * k) / 3 == k
    ensures (3 * k + 1) % 3 == 1 && (3 * k + 1) / 3 == k
  {
  }

  /** The two digits of a byte make the byte again. */
  lemma DigitsMakeByte(x: bv8)
    ensures (16 * ((x as int) / 16) + (x as int) % 16) as bv8 == x
  {
    var b := x as int;
    assert 16 * (b / 16) + b % 16 == b;
  }

  /** The size of the buffer `sendEchoPacket` allocates. */
  const EchoBufLen := 1024

  /** The echo packet's bytes as written in etherNet.c. */
  const EchoText: string := "42 43 01 C0 09 6d ff ff 00 01 01 01 ff ff"

  /** The echo string parses: fourteen bytes, a whole number of words, so
      the frame sent for it carries its own CRC (`EchoFrameChecks`). */
  lemma EchoTextParses()
    ensures ParseHex(EchoText).Some? && |ParseHex(EchoText).value| == 14
  {
    assert |EchoText| == 41;
    forall k | 0 <= k < 14 ensures Group(EchoText, k).Some? {
      DigitsGroup(EchoText, k);
    }
  }

  /** A group whose two characters are hex digits reads as a byte. */
  lemma DigitsGroup(s: string, k: nat)
    requires 3 * k + 1 < |s|
    requires HexCharToInt(s[3 * k]).Some? && HexCharToInt(s[3 * k + 1]).Some?
    ensures Group(s, k).Some?
  {
  }

  /** The first two parsed bytes cleared. */
  function Zeroed(parsed: seq<bv8>): (z: seq<bv8>)
    requires |parsed| >= 2
    ensures |z| == |parsed|
  {
    [0, 0] + parsed[2..]
  }

  /** The buffer of `sendEchoPacket` once the parsed bytes are in it (over
      `junk`: it is not initialised) and the first two are cleared. */
  function Cleared(parsed: seq<bv8>, junk: seq<bv8>): (c: seq<bv8>)
    requires |junk| == EchoBufLen && |parsed| + 2 <= EchoBufLen
    ensures |c| == EchoBufLen
    ensures |parsed| >= 2 ==> c[..|parsed|] == Zeroed(parsed)
  {
    Overlay(junk, 0, parsed)[0 := 0][1 := 0]
  }

  /** The buffer once the CRC of the whole words of the parsed bytes is
      written right behind the last of them. */
  function EchoBuffer(parsed: seq<bv8>, junk: seq<bv8>): (b: seq<bv8>)
    requires |junk| == EchoBufLen && |parsed| + 2 <= EchoBufLen
    ensures |b| == EchoBufLen
  {
    var c := Cleared(parsed, junk);
    var n := |parsed|;
    var t := BigEndian(CrcOf(c[..2 * (n / 2)]));
    c[n := t[0]][n + 1 := t[1]]
  }

  /** What `sendEchoPacket` copies to the write buffer for the parsed bytes
      `parsed`: as many whole words of the buffer as the count, grown by
      the CRC, holds. */
  function EchoFrame(parsed: seq<bv8>, junk: seq<bv8>): (f: seq<bv8>)
    requires |junk| == EchoBufLen && |parsed| + 2 <= EchoBufLen
    ensures |f| == 2 * ((|parsed| + 2) / 2)
  {
    EchoBuffer(parsed, junk)[..2 * ((|parsed| + 2) / 2)]
  }

  /** The echo frame is the front of the echo buffer, as long as the
      whole words of the count grown by the CRC. */
  lemma EchoFrameOf(parsed: seq<bv8>, junk: seq<bv8>, b: seq<bv8>, len: nat)
    requires |junk| == EchoBufLen && |parsed| + 2 <= EchoBufLen
    requires b == EchoBuffer(parsed, junk) && len == 2 * ((|parsed| + 2) / 2)
    ensures len <= |b| && b[..len] == EchoFrame(parsed, junk)
  {
  }

  /** For an even number of bytes the echo frame is the bytes, cleared at
      the front, followed by their own CRC, so its CRC is zero. For an odd
      number the CRC leaves out the last byte and only its high byte is
      sent. */
  lemma EchoFrameChecks(parsed: seq<bv8>, junk: seq<bv8>)
    requires |junk| == EchoBufLen && 2 <= |parsed| && |parsed| + 2 <= EchoBufLen
    ensures |parsed| % 2 == 0 ==>
      && EchoFrame(parsed, junk) == Zeroed(parsed) + BigEndian(CrcOf(Zeroed(parsed)))
      && CrcOf(EchoFrame(parsed, junk)) == 0
    ensures |parsed| % 2 == 1 ==>
      EchoFrame(parsed, junk) == Zeroed(parsed) + [BigEndian(CrcOf(Zeroed(parsed)[..|parsed| - 1]))[0]]
  {
    if |parsed| % 2 == 0 {
      EvenEchoFrame(parsed, junk);
    } else {
      OddEchoFrame(parsed, junk);
    }
  }

  lemma EvenEchoFrame(parsed: seq<bv8>, junk: seq<bv8>)
    requires |junk| == EchoBufLen && 2 <= |parsed| && |parsed| + 2 <= EchoBufLen && |parsed| % 2 == 0
    ensures EchoFrame(parsed, junk) == Zeroed(parsed) + BigEndian(CrcOf(Zeroed(parsed)))
    ensures CrcOf(EchoFrame(parsed, junk)) == 0
  {
    var n := |parsed|;
    var c := Cleared(parsed, junk);
    var z := Zeroed(parsed);
    assert 2 * (n / 2) == n && 2 * ((n + 2) / 2) == n + 2;
    var t := BigEndian(CrcOf(z));
    PairBehind(c, n, t[0], t[1]);
    assert t == [t[0], t[1]];
    assert EchoFrame(parsed, junk) == z + t;
    CrcResidue(z);
  }

  lemma OddEchoFrame(parsed: seq<bv8>, junk: seq<bv8>)
    requires |junk| == EchoBufLen && 2 <= |parsed| && |parsed| + 2 <= EchoBufLen && |parsed| % 2 == 1
    ensures EchoFrame(parsed, junk) == Zeroed(parsed) + [BigEndian(CrcOf(Zeroed(parsed)[..|parsed| - 1]))[0]]
  {
    var n := |parsed|;
    var c := Cleared(parsed, junk);
    var z := Zeroed(parsed);
    assert 2 * (n / 2) == n - 1 && 2 * ((n + 2) / 2) == n + 1;
    assert c[..n - 1] == z[..n - 1];
    var t := BigEndian(CrcOf(z[..n - 1]));
    PairBehind(c, n, t[0], t[1]);
    assert EchoFrame(parsed, junk) == (c[..n] + [t[0], t[1]])[..n + 1] == z + [t[0]];
  }

  /** The built-in echo packet goes out as eight whole words: the fourteen
      parsed bytes with the first two cleared, then their own CRC. */
  lemma EchoPacketChecks(junk: seq<bv8>)
    requires |junk| == EchoBufLen
    ensures ParseHex(EchoText).Some?
    ensures var p := ParseHex(EchoText).value; var f := EchoFrame(p, junk);
      && |f| == 16 && f[..2] == [0, 0] && f[2..14] == p[2..] && CrcOf(f) == 0
  {
    EchoTextParses();
    var p := ParseHex(EchoText).value;
    EchoFrameChecks(p, junk);
    var z := Zeroed(p);
    assert EchoFrame(p, junk)[..14] == z;
  }

  /** Two elements written right behind the first `n`. */
  lemma PairBehind<T>(c: seq<T>, n: nat, a: T, b: T)
    requires n + 2 <= |c|
    ensures c[n := a][n + 1 := b][..n + 2] == c[..n] + [a, b]
  {
  }

  // ---------------------------------------------------------------------
  // The UDP header of the command variant

  /** `(decodedLen + 1) / 2`: here the header counts the CRC word too. */
  function CommandWordCount(n: nat): int
  {
    (n + 1) / 2
  }

  /** One more than gateway.c's count; for a frame of whole words, its
      number of words. */
  lemma CommandCountsCrcWord(n: nat)
    ensures CommandWordCount(n) == GatewayWordCount(n) + 1
    ensures n % 2 == 0 ==> CommandWordCount(n) == n / 2
  {
  }

  /** The datagram `recvFromAlto` broadcasts for the durations `ds`, if
      they decode: the header, then the frame. */
  function CommandBroadcast(ds: seq<Uint8>, header: seq<bv8>): Option<seq<bv8>>
    requires |header| == 2
  {
    match DecodeSpec(ds, header)
    case Success(frame) => Some(HeaderBytes(CommandWordCount(|frame|)) + frame)
    case Failure(_) => None
  }

  /** The two gateways broadcast for the same packets and carry the same
      frame; only the header differs, by one word. */
  lemma CommandBroadcastMatches(ds: seq<Uint8>, header: seq<bv8>)
    requires |header| == 2
    ensures CommandBroadcast(ds, header).Some? <==> Broadcast(ds, header).Some?
    ensures CommandBroadcast(ds, header).Some? ==>
      var c, g := CommandBroadcast(ds, header).value, Broadcast(ds, header).value;
      var n := |DecodeSpec(ds, header).value|;
      && c[2..] == g[2..]
      && WordValue(c[0], c[1]) == CommandWordCount(n)
      && (n >= 1 ==> WordValue(c[0], c[1]) == WordValue(g[0], g[1]) + 1)
  {
    if DecodeSpec(ds, header).Success? {
      var f := DecodeSpec(ds, header).value;
      var n := |f|;
      AcceptedShape(ds, header);
      assert HeaderBytes(CommandWordCount(n)) + f == CommandBroadcast(ds, header).value;
      assert HeaderBytes(GatewayWordCount(n)) + f == Broadcast(ds, header).value;
      HeaderBytesValue(CommandWordCount(n));
      if n >= 1 {
        HeaderBytesValue(GatewayWordCount(n));
      }
    }
  }

  /** Because the header counts the CRC word, a frame carrying its own CRC
      that this gateway broadcasts and then reads back is committed with a
      second CRC word, which is zero. */
  lemma CommandBroadcastRecommits(m: seq<bv8>, buf: seq<bv8>)
    requires |buf| == UdpBufLen && |m| % 2 == 0 && |m| + 2 <= 2 * MaxWords
    ensures var f := m + BigEndian(CrcOf(m));
      var arrived := Arrived(buf, HeaderBytes(CommandWordCount(|f|)) + f);
      HeaderWords(arrived) <= MaxWords && OutboundFrame(arrived) == f + [0, 0]
  {
    var f := m + BigEndian(CrcOf(m));
    var w := |f| / 2;
    assert CommandWordCount(|f|) == w;
    var h := HeaderBytes(w);
    HeaderBytesValue(w);
    assert h + f == h + (f + []);
    ArrivedHead(buf, h, f, []);
    FrameOfPayload(Arrived(buf, h + f), f);
    CrcResidue(m);
    assert BigEndian(0) == [0, 0];
  }

  /** `udpBuf` after `recvFromAlto` decoded `ds` into it: the bytes the
      decoder wrote after the two header bytes and, when the frame decoded,
      the header. */
  function CommandAfterReceive(buf: seq<bv8>, ds: seq<Uint8>): seq<bv8>
    requires |buf| == UdpBufLen
  {
    var decoded := Overlay(buf, 2, Written(ds));
    match CommandBroadcast(ds, buf[..2])
    case Some(out) => Overlay(decoded, 0, out[..2])
    case None => decoded
  }

  /** Decodes the `len` durations into `udpBuf` and, when they decode, puts
      the header in front; the broadcast datagram, if any. */
  method CommandDecodeAndFrame(durationBuf: array<Uint8>, len: nat, udpBuf: array<bv8>,
                               ghost ds: seq<Uint8>, ghost orig: seq<bv8>)
    returns (datagram: Option<seq<bv8>>)
    requires len <= durationBuf.Length && udpBuf.Length == UdpBufLen && durationBuf as object != udpBuf
    requires durationBuf[..len] == ds && udpBuf[..] == orig
    modifies udpBuf
    ensures datagram == CommandBroadcast(ds, orig[..2])
    ensures udpBuf[..] == CommandAfterReceive(orig, ds)
  {
    assert orig[..2] == udpBuf[..2];
    var decodedLen := Decode(durationBuf, len, udpBuf);
    if decodedLen < 0 {
      return None;
    }
    ghost var r := DecodeSpec(ds, orig[..2]);
    AcceptedShape(ds, orig[..2]);
    ghost var decoded := udpBuf[..];
    PutHeader(udpBuf, decodedLen, CommandWordCount(decodedLen), r.value);
    assert decoded == Overlay(orig, 2, r.value);
    datagram := Some(udpBuf[..decodedLen + 2]);
  }

  // ---------------------------------------------------------------------
  // The host

  class CommandHost {
    const iface: Block
    /** Two bytes of UDP header, then `byteBuf`. */
    const udpBuf: array<bv8>
    const durationBuf: array<Uint8>
    var packetCount: int
    var badPacketCount: int

    /** The buffers have their sizes and are distinct from each other and
        from the coprocessor's. */
    predicate Valid()
      reads this, iface
    {
      iface.Valid() && udpBuf.Length == UdpBufLen && durationBuf.Length == DurationBufLen &&
      durationBuf as object != udpBuf &&
      durationBuf != iface.readMem && durationBuf as object != iface.writeMem &&
      udpBuf as object != iface.readMem && udpBuf != iface.writeMem
    }

    /** The receiver is armed: pointed at the read buffer, allowed all of
        it, and told to receive. */
    predicate Armed()
      reads iface
    {
      iface.rBuf == ReadPtrOffset && iface.rMaxLength == DurationBufLen && iface.rCommand == CommandRecv
    }

    /** The start-up of etherNet.c: the buffers are allocated; the block is
        left as the coprocessor's program set it. */
    constructor (block: Block)
      requires block.Valid()
      ensures Valid() && iface == block && fresh(udpBuf) && fresh(durationBuf)
      ensures packetCount == 0 && badPacketCount == 0
    {
      iface := block;
      udpBuf := new bv8[UdpBufLen];
      durationBuf := new Uint8[DurationBufLen];
      packetCount, badPacketCount := 0, 0;
    }

    /** `enableRecv`. */
    method EnableRecv()
      requires Valid()
      modifies iface`rBuf, iface`rMaxLength, iface`rCommand
      ensures Valid() && Armed()
    {
      iface.rBuf := ReadPtrOffset;
      iface.rMaxLength := DurationBufLen;
      iface.rCommand := CommandRecv;
    }

    /** `recvFromAlto` once the coprocessor's event has fired. A status other
        than INPUT_COMPLETE is logged and its durations decoded all the same,
        for diagnosis, without re-arming, counting or broadcasting. A
        complete packet longer than the buffer is dropped. Otherwise the
        durations are copied, the receiver re-armed, the packet counted and
        decoded, and broadcast if it decodes, or counted as bad. */
    method RecvFromAlto() returns (datagram: Option<seq<bv8>>)
      requires Valid()
      requires iface.rStatus != StatusInputComplete ==> iface.rReceivedLength <= DurationBufLen
      modifies durationBuf, udpBuf, iface`rBuf, iface`rMaxLength, iface`rCommand
      modifies this`packetCount, this`badPacketCount
      ensures Valid()
      ensures !Accepts(iface.rStatus, iface.rReceivedLength) ==>
        && datagram.None? && packetCount == old(packetCount) && badPacketCount == old(badPacketCount)
        && iface.rBuf == old(iface.rBuf) && iface.rMaxLength == old(iface.rMaxLength)
        && iface.rCommand == old(iface.rCommand)
      ensures iface.rStatus != StatusInputComplete ==>
        var ds := iface.readMem[..iface.rReceivedLength];
        && durationBuf[..] == Overlay(old(durationBuf[..]), 0, ds)
        && udpBuf[..] == Overlay(old(udpBuf[..]), 2, Written(ds))
      ensures iface.rStatus == StatusInputComplete && iface.rReceivedLength > DurationBufLen ==>
        durationBuf[..] == old(durationBuf[..]) && udpBuf[..] == old(udpBuf[..])
      ensures Accepts(iface.rStatus, iface.rReceivedLength) ==>
        var ds := iface.readMem[..iface.rReceivedLength];
        && Armed()
        && durationBuf[..] == Overlay(old(durationBuf[..]), 0, ds)
        && datagram == CommandBroadcast(ds, old(udpBuf[..2]))
        && udpBuf[..] == CommandAfterReceive(old(udpBuf[..]), ds)
        && packetCount == old(packetCount) + 1
        && badPacketCount == old(badPacketCount) + if datagram.None? then 1 else 0
    {
      if iface.rStatus != StatusInputComplete {
        Diagnose();
        return None;
      }
      var rLength := iface.rReceivedLength;
      if rLength > DurationBufLen {
        return None;
      }
      datagram := Accept(rLength);
    }

    /** The bad-status branch: copy and decode the durations, for the log. */
    method Diagnose()
      requires Valid() && iface.rReceivedLength <= DurationBufLen
      modifies durationBuf, udpBuf
      ensures Valid()
      ensures var ds := iface.readMem[..iface.rReceivedLength];
        && durationBuf[..] == Overlay(old(durationBuf[..]), 0, ds)
        && udpBuf[..] == Overlay(old(udpBuf[..]), 2, Written(ds))
    {
      var rLength := iface.rReceivedLength;
      ghost var ds := iface.readMem[..rLength];
      assert iface.readMem[0..rLength] == ds;
      CopyFrom(iface.readMem, 0, durationBuf, rLength);
      assert durationBuf[..rLength] == ds;
      var decodedLen := Decode(durationBuf, rLength, udpBuf);
    }

    /** The accepting branch: copy, re-arm, count, decode and frame. */
    method Accept(rLength: nat) returns (datagram: Option<seq<bv8>>)
      requires Valid() && Accepts(iface.rStatus, iface.rReceivedLength) && rLength == iface.rReceivedLength
      modifies durationBuf, udpBuf, iface`rBuf, iface`rMaxLength, iface`rCommand
      modifies this`packetCount, this`badPacketCount
      ensures Valid() && Armed()
      ensures var ds := iface.readMem[..rLength];
        && durationBuf[..] == Overlay(old(durationBuf[..]), 0, ds)
        && datagram == CommandBroadcast(ds, old(udpBuf[..2]))
        && udpBuf[..] == CommandAfterReceive(old(udpBuf[..]), ds)
      ensures packetCount == old(packetCount) + 1
      ensures badPacketCount == old(badPacketCount) + if datagram.None? then 1 else 0
    {
      ghost var ds := iface.readMem[..rLength];
      ghost var orig := udpBuf[..];
      assert iface.readMem[0..rLength] == ds;
      CopyFrom(iface.readMem, 0, durationBuf, rLength);
      EnableRecv();
      packetCount := packetCount + 1;
      assert durationBuf[..rLength] == ds;
      datagram := CommandDecodeAndFrame(durationBuf, rLength, udpBuf, ds, orig);
      badPacketCount := badPacketCount + if datagram.None? then 1 else 0;
    }

    /** `sendToAlto` with the datagram `recvfrom` returned: the frame is
        built as in gateway.c, copied to the write buffer and sent with
        `w_command = SEND`. There is no owner to check. A failed read
        changes nothing. */
    method SendToAlto(d: Datagram) returns (committed: Option<seq<bv8>>)
      requires Valid() && DatagramFits(udpBuf[..], d)
      modifies udpBuf, iface.writeMem, iface`wBuf, iface`wLength, iface`wCommand
      ensures Valid()
      ensures d.RecvError? ==>
        && committed.None? && udpBuf[..] == old(udpBuf[..]) && iface.writeMem[..] == old(iface.writeMem[..])
        && iface.wBuf == old(iface.wBuf) && iface.wLength == old(iface.wLength)
        && iface.wCommand == old(iface.wCommand)
      ensures d.Received? ==>
        var frame := OutboundFrame(Arrived(old(udpBuf[..]), d.bytes));
        && committed == Some(frame)
        && udpBuf[..] == Overlay(Arrived(old(udpBuf[..]), d.bytes), 2, frame)
        && iface.writeMem[..] == Overlay(old(iface.writeMem[..]), 0, frame)
        && iface.wBuf == WritePtrOffset && iface.wLength == |frame| && iface.wCommand == CommandSend
    {
      if d.RecvError? {
        return None;
      }
      ReadDatagram(udpBuf, d.bytes);
      ghost var arrived := udpBuf[..];
      var frameLen := AppendCrc(udpBuf);
      var frame := udpBuf[2..2 + frameLen];
      assert frame == OutboundFrame(arrived);
      HandOver(udpBuf, 2, frameLen);
      committed := Some(frame);
    }

    /** Copies `n` bytes of `src` from `at` into the write buffer and
        commands the coprocessor to send them. */
    method HandOver(src: array<bv8>, at: nat, n: nat)
      requires Valid() && src != iface.writeMem && at + n <= src.Length && n <= iface.writeMem.Length
      modifies iface.writeMem, iface`wBuf, iface`wLength, iface`wCommand
      ensures Valid()
      ensures iface.writeMem[..] == Overlay(old(iface.writeMem[..]), 0, src[at..at + n])
      ensures iface.wBuf == WritePtrOffset && iface.wLength == n && iface.wCommand == CommandSend
    {
      CopyFrom(src, at, iface.writeMem, n);
      iface.wBuf := WritePtrOffset;
      iface.wLength := n;
      iface.wCommand := CommandSend;
    }

    /** One pass of etherNet.c's loop: re-arm the receiver, wait on the
        coprocessor and the socket (always both), then handle the socket
        first and the coprocessor second. A pass in which neither is ready
        is a timeout. The coprocessor's half is `RecvFromAlto` on the
        buffers the socket's half left: its header is the one the socket's
        frame wrote, if any. */
    method Iteration(wakeup: Wakeup) returns (datagram: Option<seq<bv8>>, committed: Option<seq<bv8>>)
      requires Valid() && (wakeup.socket.Some? ==> DatagramFits(udpBuf[..], wakeup.socket.value))
      requires wakeup.pruReady && iface.rStatus != StatusInputComplete ==> iface.rReceivedLength <= DurationBufLen
      modifies durationBuf, udpBuf, iface`rBuf, iface`rMaxLength, iface`rCommand
      modifies this`packetCount, this`badPacketCount
      modifies iface.writeMem, iface`wBuf, iface`wLength, iface`wCommand
      ensures Valid() && Armed()
      ensures committed.Some? <==> wakeup.socket.Some? && wakeup.socket.value.Received?
      ensures committed.None? ==>
        && iface.writeMem[..] == old(iface.writeMem[..])
        && iface.wBuf == old(iface.wBuf) && iface.wLength == old(iface.wLength)
        && iface.wCommand == old(iface.wCommand)
      ensures committed.Some? ==>
        && committed.value == OutboundFrame(Arrived(old(udpBuf[..]), wakeup.socket.value.bytes))
        && iface.writeMem[..] == Overlay(old(iface.writeMem[..]), 0, committed.value)
        && iface.wBuf == WritePtrOffset && iface.wLength == |committed.value| && iface.wCommand == CommandSend
      ensures !wakeup.pruReady ==>
        && datagram.None? && packetCount == old(packetCount) && badPacketCount == old(badPacketCount)
        && durationBuf[..] == old(durationBuf[..])
        && udpBuf[..] == AfterSocket(old(udpBuf[..]), wakeup.socket)
      ensures wakeup.pruReady && !Accepts(iface.rStatus, iface.rReceivedLength) ==>
        datagram.None? && packetCount == old(packetCount) && badPacketCount == old(badPacketCount)
      ensures wakeup.pruReady && iface.rStatus != StatusInputComplete ==>
        var ds := iface.readMem[..iface.rReceivedLength];
        && durationBuf[..] == Overlay(old(durationBuf[..]), 0, ds)
        && udpBuf[..] == Overlay(AfterSocket(old(udpBuf[..]), wakeup.socket), 2, Written(ds))
      ensures wakeup.pruReady && iface.rStatus == StatusInputComplete && iface.rReceivedLength > DurationBufLen ==>
        durationBuf[..] == old(durationBuf[..]) && udpBuf[..] == AfterSocket(old(udpBuf[..]), wakeup.socket)
      ensures wakeup.pruReady && Accepts(iface.rStatus, iface.rReceivedLength) ==>
        var ds := iface.readMem[..iface.rReceivedLength];
        var udp := AfterSocket(old(udpBuf[..]), wakeup.socket);
        && durationBuf[..] == Overlay(old(durationBuf[..]), 0, ds)
        && datagram == CommandBroadcast(ds, udp[..2])
        && udpBuf[..] == CommandAfterReceive(udp, ds)
        && packetCount == old(packetCount) + 1
        && badPacketCount == old(badPacketCount) + if datagram.None? then 1 else 0
    {
      EnableRecv();
      datagram, committed := None, None;
      if !wakeup.pruReady && wakeup.socket.None? {
        // select timed out
        return;
      }
      committed := HandleSocket(wakeup.socket);
      if wakeup.pruReady {
        datagram := RecvFromAlto();
      }
    }

    /** The socket's half of a pass: what `recvfrom` returned, if the socket
        was ready, is handled by `SendToAlto`. */
    method HandleSocket(socket: Option<Datagram>) returns (committed: Option<seq<bv8>>)
      requires Valid() && (socket.Some? ==> DatagramFits(udpBuf[..], socket.value))
      modifies udpBuf, iface.writeMem, iface`wBuf, iface`wLength, iface`wCommand
      ensures Valid()
      ensures udpBuf[..] == AfterSocket(old(udpBuf[..]), socket)
      ensures committed.Some? <==> socket.Some? && socket.value.Received?
      ensures committed.None? ==>
        && iface.writeMem[..] == old(iface.writeMem[..])
        && iface.wBuf == old(iface.wBuf) && iface.wLength == old(iface.wLength)
        && iface.wCommand == old(iface.wCommand)
      ensures committed.Some? ==>
        && committed.value == OutboundFrame(Arrived(old(udpBuf[..]), socket.value.bytes))
        && iface.writeMem[..] == Overlay(old(iface.writeMem[..]), 0, committed.value)
        && iface.wBuf == WritePtrOffset && iface.wLength == |committed.value| && iface.wCommand == CommandSend
    {
      committed := None;
      if socket.Some? {
        committed := SendToAlto(socket.value);
      }
    }

    /** `sendEchoPacket` with the hex string `text` and the buffer `buf` it
        allocates: the bytes are parsed, the first two cleared, the CRC of
        their whole words appended, and as many whole words copied to the
        write buffer and sent. A character that is not a hex digit ends the
        program before anything is sent. As a C string, `text` holds no
        NUL. */
    method SendEchoPacket(text: string, buf: array<bv8>) returns (sent: bool)
      requires Valid() && buf.Length == EchoBufLen && GroupCount(text) + 2 <= EchoBufLen
      requires '\0' !in text
      requires buf != iface.writeMem
      modifies buf, iface.writeMem, iface`wBuf, iface`wLength, iface`wCommand
      ensures Valid()
      ensures sent <==> ParseHex(text).Some?
      ensures !sent ==>
        && iface.writeMem[..] == old(iface.writeMem[..])
        && iface.wBuf == old(iface.wBuf) && iface.wLength == old(iface.wLength)
        && iface.wCommand == old(iface.wCommand)
      ensures sent ==>
        var f := EchoFrame(ParseHex(text).value, old(buf[..]));
        && iface.writeMem[..] == Overlay(old(iface.writeMem[..]), 0, f)
        && iface.wBuf == WritePtrOffset && iface.wLength == |f| && iface.wCommand == CommandSend
    {
      ghost var junk := buf[..];
      var ok, byteCount := ParseInto(text, buf);
      if !ok {
        return false;
      }
      SendParsed(buf, byteCount, ParseHex(text).value, junk);
      return true;
    }

    /** The sending half of `sendEchoPacket`, once the `n` bytes `parsed`
        are at the front of `buf`, which held `junk`: the CRC is appended
        and the echo frame copied to the write buffer and sent. */
    method SendParsed(buf: array<bv8>, n: nat, ghost parsed: seq<bv8>, ghost junk: seq<bv8>)
      requires Valid() && buf != iface.writeMem
      requires buf.Length == EchoBufLen == |junk| && n == |parsed| && n + 2 <= EchoBufLen
      requires buf[..] == Overlay(junk, 0, parsed)
      modifies buf, iface.writeMem, iface`wBuf, iface`wLength, iface`wCommand
      ensures Valid()
      ensures var f := EchoFrame(parsed, junk);
        && iface.writeMem[..] == Overlay(old(iface.writeMem[..]), 0, f)
        && iface.wBuf == WritePtrOffset && iface.wLength == |f| && iface.wCommand == CommandSend
    {
      var frameLen := AppendEchoCrc(buf, n, parsed, junk);
      HandOver(buf, 0, frameLen);
    }
  }

  /** `udpBuf`, whose contents were `udp`, once the socket's half of a pass
      has handled what `recvfrom` returned, if the socket was ready. */
  function AfterSocket(udp: seq<bv8>, socket: Option<Datagram>): (r: seq<bv8>)
    requires |udp| == UdpBufLen && (socket.Some? ==> DatagramFits(udp, socket.value))
    ensures |r| == UdpBufLen
  {
    if socket.Some? && socket.value.Received? then
      var arrived := Arrived(udp, socket.value.bytes);
      Overlay(arrived, 2, OutboundFrame(arrived))
    else
      udp
  }

  /** The parse loop of `sendEchoPacket`: a byte from every group of three
      characters into `buf`, stopping at a character that is not a digit.
      `text` is a C string, with no NUL before its end, so the loop's bound
      `strlen` is its length. */
  method ParseInto(text: string, buf: array<bv8>) returns (ok: bool, byteCount: nat)
    requires GroupCount(text) <= buf.Length && '\0' !in text
    modifies buf
    ensures ok <==> ParseHex(text).Some?
    ensures ok ==> byteCount == GroupCount(text) && buf[..] == Overlay(old(buf[..]), 0, ParseHex(text).value)
  {
    ghost var orig := buf[..];
    byteCount := 0;
    var i := 0;
    while i < |text|
      invariant i == 3 * byteCount && byteCount <= GroupCount(text)
      invariant forall k :: 0 <= k < byteCount ==> Group(text, k) == Some(buf[k])
      invariant forall k :: byteCount <= k < buf.Length ==> buf[k] == orig[k]
    {
      var hi := HexCharToInt(CharAt(text, i));
      var lo := HexCharToInt(CharAt(text, i + 1));
      GroupStep(text, byteCount, hi, lo);
      if hi.None? || lo.None? {
        return false, byteCount;
      }
      buf[byteCount] := (hi.value * 16 + lo.value) as bv8;
      byteCount := byteCount + 1;
      i := i + 3;
    }
    assert byteCount == GroupCount(text);
    assert ParsesHex(text);
    ok := true;
    assert buf[byteCount..] == orig[byteCount..];
    OverlayFrom(orig, 0, ParseHex(text).value, buf[..]);
  }

  /** The two digits the parse loop reads for group `k` make its byte. */
  lemma GroupStep(text: string, k: nat, hi: Option<nat>, lo: Option<nat>)
    requires hi == HexCharToInt(CharAt(text, 3 * k)) && lo == HexCharToInt(CharAt(text, 3 * k + 1))
    ensures Group(text, k).None? <==> hi.None? || lo.None?
    ensures hi.Some? && lo.Some? ==> Group(text, k) == Some((hi.value * 16 + lo.value) as bv8)
  {
  }

  /** Clears the first two bytes, appends the CRC of the whole words of the
      `n` parsed bytes right behind them and returns the whole words'
      length. */
  method AppendEchoCrc(buf: array<bv8>, n: nat, ghost parsed: seq<bv8>, ghost junk: seq<bv8>)
    returns (frameLen: nat)
    requires buf.Length == EchoBufLen == |junk| && n == |parsed| && n + 2 <= EchoBufLen
    requires buf[..] == Overlay(junk, 0, parsed)
    modifies buf
    ensures buf[..] == EchoBuffer(parsed, junk)
    ensures frameLen == 2 * ((n + 2) / 2) <= buf.Length
    ensures buf[0..frameLen] == EchoFrame(parsed, junk)
  {
    WholeWords(n);
    ghost var k := 2 * (n / 2);
    ghost var cleared := Cleared(parsed, junk);
    PutPair(buf, 0, 0, 0);
    assert buf[..] == cleared;
    var crcVal := Crc(buf, 0, n / 2);
    assert WordBytes(n / 2) == k;
    assert crcVal == CrcOf(cleared[..k]);
    var t := BigEndian(crcVal);
    PutPair(buf, n, t[0], t[1]);
    assert buf[..] == cleared[n := t[0]][n + 1 := t[1]];
    var byteCount := n + 2;
    var wordLength := byteCount / 2;
    frameLen := wordLength * 2;
    EchoFrameOf(parsed, junk, buf[..], frameLen);
    assert buf[0..frameLen] == buf[..][..frameLen];
  }

  /** The whole words of `n` bytes, and of `n + 2` bytes. */
  lemma WholeWords(n: nat)
    ensures 0 <= 2 * (n / 2) <= n && n + 1 <= 2 * ((n + 2) / 2) <= n + 2
  {
  }

  /** `buf[at] = a; buf[at + 1] = b;` */
  method PutPair<T>(buf: array<T>, at: nat, a: T, b: T)
    requires at + 2 <= buf.Length
    modifies buf
    ensures buf[..] == old(buf[..])[at := a][at + 1 := b]
  {
    buf[at] := a;
    buf[at + 1] := b;
  }
}
