/** The host side of gateway.c: its event loop waits on the coprocessor and,
    while it owns the write buffer, on the UDP socket; frames received from
    the Alto are decoded and broadcast with a word-count header, and UDP
    datagrams are given a CRC and handed to the coprocessor to send. The
    socket calls are inputs and outputs: `recvfrom`'s result is a
    parameter and the datagram `sendto` broadcasts is a result. */
module Gateway {
  import opened Common
  import opened AltoCrc
  import opened Timing
  import opened Iface

  /** What `recvfrom` returned: the datagram, or -1. */
  datatype Datagram = Received(bytes: seq<bv8>) | RecvError

  /** What `select` reported: whether the coprocessor's event fired, and
      what the socket holds if it is readable. The socket only counts when
      it was in the wait set. */
  datatype Wakeup = Wakeup(pruReady: bool, socket: Option<Datagram>)

  // ---------------------------------------------------------------------
  // UDP framing

  /** The largest word count whose payload and CRC fit in `byteBuf`. */
  const MaxWords := (MaxPupLength - 2) / 2

  /** `udpBuf` after `recvfrom` read a datagram into it: the datagram's
      bytes up to the buffer size, the rest as it was. */
  function Arrived(buf: seq<bv8>, bytes: seq<bv8>): (r: seq<bv8>)
    requires |buf| == UdpBufLen
    ensures |r| == UdpBufLen
    ensures |bytes| >= 2 ==> r[0] == bytes[0] && r[1] == bytes[1]
  {
    var n := if |bytes| < UdpBufLen then |bytes| else UdpBufLen;
    Overlay(buf, 0, bytes[..n])
  }

  /** The big-endian word count at the head of `udpBuf`. */
  function HeaderWords(buf: seq<bv8>): (w: nat)
    requires |buf| >= 2
    ensures w < 0x1_0000
  {
    WordValue(buf[0], buf[1])
  }

  /** The frame `sendToAlto` builds from the datagram in `buf`: the number of
      words the header gives, then their CRC, big-endian. */
  function OutboundFrame(buf: seq<bv8>): (f: seq<bv8>)
    requires |buf| == UdpBufLen && HeaderWords(buf) <= MaxWords
    ensures |f| == 2 * HeaderWords(buf) + 2
  {
    var payload := buf[2..2 + 2 * HeaderWords(buf)];
    payload + BigEndian(CrcOf(payload))
  }

  /** The header word of a broadcast frame of `n` bytes: `(n + 1) / 2 - 1`,
      the words before the CRC word. */
  function GatewayWordCount(n: nat): int
  {
    (n + 1) / 2 - 1
  }

  /** A frame `sendToAlto` commits carries its own CRC: the CRC of the whole
      frame is zero, and it has a whole number of words. */
  lemma OutboundFrameChecks(buf: seq<bv8>)
    requires |buf| == UdpBufLen && HeaderWords(buf) <= MaxWords
    ensures CrcOf(OutboundFrame(buf)) == 0
    ensures |OutboundFrame(buf)| % 2 == 0 && |OutboundFrame(buf)| <= MaxPupLength
  {
    CrcResidue(buf[2..2 + 2 * HeaderWords(buf)]);
  }

  /** The header counts the words before the CRC word. */
  lemma WordCountExcludesCrc(f: seq<bv8>)
    requires |f| >= 2 && |f| % 2 == 0
    ensures GatewayWordCount(|f|) == (|f| - 2) / 2
  {
  }

  /** A datagram the gateway broadcasts for a frame carrying its own CRC,
      read back by `sendToAlto`, commits that same frame: the header's word
      count selects the payload and the CRC recomputed over it is the one
      already at the end. */
  lemma BroadcastRecommits(m: seq<bv8>, buf: seq<bv8>)
    requires |buf| == UdpBufLen && |m| % 2 == 0 && |m| + 2 < MaxPupLength
    ensures var f := m + BigEndian(CrcOf(m));
      var arrived := Arrived(buf, HeaderBytes(GatewayWordCount(|f|)) + f);
      HeaderWords(arrived) <= MaxWords && OutboundFrame(arrived) == f
  {
    var t := BigEndian(CrcOf(m));
    var f := m + t;
    var w := |m| / 2;
    assert GatewayWordCount(|f|) == w;
    var h := HeaderBytes(w);
    assert h + f == h + (m + t);
    HeaderBytesValue(w);
    ArrivedHead(buf, h, m, t);
    FrameOfPayload(Arrived(buf, h + f), m);
  }

  /** A buffer whose header counts the words of `m`, which follow it, yields
      `m` and its CRC. */
  lemma FrameOfPayload(a: seq<bv8>, m: seq<bv8>)
    requires |a| == UdpBufLen && |m| % 2 == 0 && 2 + |m| <= |a|
    requires HeaderWords(a) == |m| / 2 <= MaxWords && a[2..2 + |m|] == m
    ensures OutboundFrame(a) == m + BigEndian(CrcOf(m))
  {
  }

  /** A datagram that fits arrives whole: its header bytes, then its payload. */
  lemma ArrivedHead(buf: seq<bv8>, h: seq<bv8>, m: seq<bv8>, t: seq<bv8>)
    requires |buf| == UdpBufLen && |h| == 2 && |h| + |m| + |t| <= UdpBufLen
    ensures var a := Arrived(buf, h + (m + t));
      a[0] == h[0] && a[1] == h[1] && a[2..2 + |m|] == m
  {
    var d := h + (m + t);
    var a := Arrived(buf, d);
    assert a[..|d|] == d;
    assert d[2..2 + |m|] == m;
    assert a[2..2 + |m|] == a[..|d|][2..2 + |m|];
  }

  // ---------------------------------------------------------------------
  // The host's state as a value, and its steps

  /** Everything a pass of the host's loop reads or writes: the shared
      block, `udpBuf`, `durationBuf` and the two packet counters. */
  datatype HostState = HostState(shared: Shared, udp: seq<bv8>, durations: seq<Uint8>, packets: int, bad: int)

  predicate HostSized(h: HostState)
  {
    Sized(h.shared) && |h.udp| == UdpBufLen && |h.durations| == DurationBufLen
  }

  /** The read buffer is stuck with the host: it owns it, but the status or
      length is one `recvFromAlto` turns away without handing it back. */
  predicate Stalled(s: Shared)
  {
    s.rOwner == Arm && !Accepts(s.rStatus, s.rReceivedLength)
  }

  /** `recvFromAlto` on state `h`: the new state and the datagram it
      broadcasts, if any. It clears the truncation flag. On INPUT_COMPLETE
      with a length that fits it copies the durations, hands the read
      buffer back, counts the packet, decodes it and, when it decodes,
      broadcasts the frame behind its word-count header, otherwise counts a
      bad packet. Any other status, or a length past the buffer, leaves the
      read buffer with the host and broadcasts nothing. */
  function RecvStep(h: HostState): (r: (HostState, Option<seq<bv8>>))
    requires HostSized(h)
    ensures HostSized(r.0)
    ensures r.0.shared.readMem == h.shared.readMem && r.0.shared.rStatus == h.shared.rStatus
    ensures r.0.shared.wOwner == h.shared.wOwner && r.0.shared.writeMem == h.shared.writeMem
    ensures r.0.shared.wLength == h.shared.wLength && r.0.shared.rTruncated == 0
    ensures r.0.shared.rOwner == (if Accepts(h.shared.rStatus, h.shared.rReceivedLength) then Pru else h.shared.rOwner)
    ensures r.0.packets == h.packets + (if Accepts(h.shared.rStatus, h.shared.rReceivedLength) then 1 else 0)
    ensures r.0.packets - h.packets == (r.0.bad - h.bad) + (if r.1.Some? then 1 else 0)
    ensures r.1.Some? ==> Accepts(h.shared.rStatus, h.shared.rReceivedLength)
    ensures r.1.Some? ==>
      var ds := h.shared.readMem[..h.shared.rReceivedLength];
      var frame := DecodeSpec(ds, h.udp[..2]);
      frame.Success? && r.1.value == HeaderBytes(GatewayWordCount(|frame.value|)) + frame.value
  {
    var cleared := h.(shared := h.shared.(rTruncated := 0));
    if !Accepts(h.shared.rStatus, h.shared.rReceivedLength) then (cleared, None) else AcceptStep(cleared)
  }

  /** The accepting branch of `recvFromAlto`. */
  function AcceptStep(h: HostState): (r: (HostState, Option<seq<bv8>>))
    requires HostSized(h) && Accepts(h.shared.rStatus, h.shared.rReceivedLength)
  {
    var ds := h.shared.readMem[..h.shared.rReceivedLength];
    var d := Broadcast(ds, h.udp[..2]);
    (HostState(h.shared.(rOwner := Pru), AfterReceive(h.udp, ds), Overlay(h.durations, 0, ds),
               h.packets + 1, h.bad + (if d.Some? then 0 else 1)),
     d)
  }

  /** A state and datagram with every part `AcceptStep` gives them are its
      result. */
  lemma AcceptStepFrom(h: HostState, t: HostState, d: Option<seq<bv8>>)
    requires HostSized(h) && Accepts(h.shared.rStatus, h.shared.rReceivedLength)
    requires var ds := h.shared.readMem[..h.shared.rReceivedLength];
      && t.shared == h.shared.(rOwner := Pru)
      && t.durations == Overlay(h.durations, 0, ds)
      && d == Broadcast(ds, h.udp[..2])
      && t.udp == AfterReceive(h.udp, ds)
      && t.packets == h.packets + 1
      && t.bad == h.bad + if d.None? then 1 else 0
    ensures (t, d) == AcceptStep(h)
  {
    var r := AcceptStep(h);
    assert r.1 == d;
    assert r.0.shared == t.shared && r.0.udp == t.udp && r.0.durations == t.durations;
  }

  /** What `sendToAlto` needs of a datagram: one whose header asks for more
      words than `byteBuf` holds is not modelled. */
  predicate SendFits(h: HostState, d: Datagram)
    requires HostSized(h)
  {
    h.shared.wOwner == Arm ==> DatagramFits(h.udp, d)
  }

  /** `sendToAlto` on state `h` with the datagram `recvfrom` returned: the
      new state and the frame it hands to the coprocessor, if any. While the
      host owns the write buffer it reads the datagram, appends the CRC of
      the words its header counts, copies that frame into the write buffer
      and hands the buffer over. A failed read changes nothing. */
  function SendStep(h: HostState, d: Datagram): (r: (HostState, Option<seq<bv8>>))
    requires HostSized(h) && SendFits(h, d)
    ensures HostSized(r.0)
    ensures r.0.shared.(writeMem := h.shared.writeMem, wLength := h.shared.wLength, wOwner := h.shared.wOwner) == h.shared
    ensures r.0.durations == h.durations && r.0.packets == h.packets && r.0.bad == h.bad
    ensures r.1.Some? <==> h.shared.wOwner == Arm && d.Received?
    ensures r.1.None? ==> r.0 == h
    ensures r.1.Some? ==>
      && r.0.shared.wOwner == Pru && r.0.shared.wLength == |r.1.value| <= MaxPupLength
      && r.0.shared.writeMem[..r.0.shared.wLength] == r.1.value
      && |r.1.value| % 2 == 0 && CrcOf(r.1.value) == 0
  {
    if h.shared.wOwner != Arm || d.RecvError? then
      (h, None)
    else
      var buf := Arrived(h.udp, d.bytes);
      var frame := OutboundFrame(buf);
      OutboundFrameChecks(buf);
      (h.(udp := Overlay(buf, 2, frame),
          shared := h.shared.(writeMem := Overlay(h.shared.writeMem, 0, frame), wLength := |frame|, wOwner := Pru)),
       Some(frame))
  }

  /** A state and frame with every part `SendStep` gives them on a
      committed datagram are its result. */
  lemma SendStepFrom(h: HostState, t: HostState, d: Datagram, frame: seq<bv8>)
    requires HostSized(h) && h.shared.wOwner == Arm && d.Received? && SendFits(h, d)
    requires var buf := Arrived(h.udp, d.bytes);
      && frame == OutboundFrame(buf)
      && t.udp == Overlay(buf, 2, frame)
      && t.shared == h.shared.(writeMem := Overlay(h.shared.writeMem, 0, frame), wLength := |frame|, wOwner := Pru)
      && t.durations == h.durations && t.packets == h.packets && t.bad == h.bad
    ensures (t, Some(frame)) == SendStep(h, d)
  {
  }

  /** One pass of the host's event loop on state `h`. The socket is waited on
      only while the host owns the write buffer; a pass in which nothing
      waited on is ready is a timeout and changes nothing. Otherwise a read
      buffer the coprocessor has handed back is handled first, then a
      readable socket. */
  function HostPass(h: HostState, wakeup: Wakeup): (r: (HostState, Option<seq<bv8>>, Option<seq<bv8>>))
    requires HostSized(h) && IncomingFits(h, wakeup)
    ensures HostSized(r.0)
  {
    var socketReady := h.shared.wOwner == Arm && wakeup.socket.Some?;
    if !wakeup.pruReady && !socketReady then
      (h, None, None)
    else
      var afterRecv := if h.shared.rOwner == Arm then RecvStep(h) else (h, None);
      if socketReady then
        var afterSend := SendStep(afterRecv.0, wakeup.socket.value);
        (afterSend.0, afterRecv.1, afterSend.1)
      else
        (afterRecv.0, afterRecv.1, None)
  }

  /** The host only hands buffers over: it never takes one back from the
      coprocessor, never writes the read buffer, and leaves the write
      buffer and its length alone while the coprocessor owns it. */
  lemma HostHandsOver(h: HostState, wakeup: Wakeup)
    requires HostSized(h) && IncomingFits(h, wakeup)
    ensures var t := HostPass(h, wakeup).0.shared;
      && (h.shared.rOwner == Pru ==> t.rOwner == Pru)
      && (h.shared.wOwner == Pru ==> t.wOwner == Pru)
      && t.readMem == h.shared.readMem
      && t.rStatus == h.shared.rStatus && t.rReceivedLength == h.shared.rReceivedLength
      && (h.shared.wOwner == Pru ==> t.writeMem == h.shared.writeMem && t.wLength == h.shared.wLength)
  {
    var socketReady := h.shared.wOwner == Arm && wakeup.socket.Some?;
    if wakeup.pruReady || socketReady {
      var afterRecv := if h.shared.rOwner == Arm then RecvStep(h) else (h, None);
      if socketReady {
        assert SendFits(afterRecv.0, wakeup.socket.value);
      }
    }
  }

  /** A frame a pass hands to the coprocessor is in the write buffer with its
      length, carries its own CRC and has a whole number of words; a pass
      that hands none over keeps the write buffer's owner. */
  lemma HostCommitsChecked(h: HostState, wakeup: Wakeup)
    requires HostSized(h) && IncomingFits(h, wakeup)
    ensures var (t, _, committed) := HostPass(h, wakeup);
      && (committed.None? ==> t.shared.wOwner == h.shared.wOwner)
      && (committed.Some? ==>
            && h.shared.wOwner == Arm && t.shared.wOwner == Pru
            && t.shared.wLength == |committed.value| <= MaxPupLength
            && t.shared.writeMem[..t.shared.wLength] == committed.value
            && |committed.value| % 2 == 0 && CrcOf(committed.value) == 0)
  {
    var socketReady := h.shared.wOwner == Arm && wakeup.socket.Some?;
    if wakeup.pruReady || socketReady {
      var afterRecv := if h.shared.rOwner == Arm then RecvStep(h) else (h, None);
      if socketReady {
        assert SendFits(afterRecv.0, wakeup.socket.value);
      }
    }
  }

  /** What a pass broadcasts is the decoded frame, behind its header, of the
      durations the coprocessor handed back with INPUT_COMPLETE, and every
      handed-back read buffer it accepts it returns. */
  lemma HostBroadcastsDecoded(h: HostState, wakeup: Wakeup)
    requires HostSized(h) && IncomingFits(h, wakeup)
    ensures var (t, datagram, _) := HostPass(h, wakeup);
      && (datagram.Some? ==>
            && h.shared.rOwner == Arm && Accepts(h.shared.rStatus, h.shared.rReceivedLength)
            && datagram == Broadcast(h.shared.readMem[..h.shared.rReceivedLength], h.udp[..2]))
      && (h.shared.rOwner == Pru ==> datagram.None? && t.packets == h.packets && t.bad == h.bad)
  {
    var socketReady := h.shared.wOwner == Arm && wakeup.socket.Some?;
    if wakeup.pruReady || socketReady {
      var afterRecv := if h.shared.rOwner == Arm then RecvStep(h) else (h, None);
      if socketReady {
        assert SendFits(afterRecv.0, wakeup.socket.value);
      }
    }
  }

  /** Once stalled, the read side stays stalled: the host keeps the read
      buffer and broadcasts nothing, pass after pass. */
  lemma HostStallPersists(h: HostState, wakeup: Wakeup)
    requires HostSized(h) && IncomingFits(h, wakeup) && Stalled(h.shared)
    ensures Stalled(HostPass(h, wakeup).0.shared) && HostPass(h, wakeup).1.None?
  {
    var socketReady := h.shared.wOwner == Arm && wakeup.socket.Some?;
    if wakeup.pruReady || socketReady {
      if socketReady {
        assert SendFits(RecvStep(h).0, wakeup.socket.value);
      }
    }
  }

  // ---------------------------------------------------------------------
  // The host

  class Host {
    const iface: Block
    /** Two bytes of UDP header, then `byteBuf`. */
    const udpBuf: array<bv8>
    const durationBuf: array<Uint8>
    var packetCount: int
    var badPacketCount: int

    /** The buffers have their sizes and are distinct from each other and
        from the coprocessor's. */
    predicate Valid()
      reads this, iface
    {
      iface.Valid() && udpBuf.Length == UdpBufLen && durationBuf.Length == DurationBufLen &&
      durationBuf as object != udpBuf &&
      durationBuf != iface.readMem && durationBuf as object != iface.writeMem &&
      udpBuf as object != iface.readMem && udpBuf != iface.writeMem
    }

    /** The host's state as a value. */
    function View(): (h: HostState)
      reads this, iface, iface.readMem, iface.writeMem, udpBuf, durationBuf
      ensures Valid() ==> HostSized(h)
    {
      HostState(iface.View(), udpBuf[..], durationBuf[..], packetCount, badPacketCount)
    }

    /** The start-up of gateway.c: the buffers are allocated, the
        coprocessor owns the read buffer and the host the write buffer. */
    constructor (block: Block)
      requires block.Valid()
      modifies block
      ensures Valid() && iface == block && fresh(udpBuf) && fresh(durationBuf)
      ensures packetCount == 0 && badPacketCount == 0
      ensures iface.rOwner == Pru && iface.rBuf == ReadPtrOffset
      ensures iface.rMaxLength == DurationBufLen && iface.rTruncated == 0
      ensures iface.wOwner == Arm && iface.wBuf == WritePtrOffset
    {
      iface := block;
      udpBuf := new bv8[UdpBufLen];
      durationBuf := new Uint8[DurationBufLen];
      packetCount, badPacketCount := 0, 0;
      new;
      iface.rOwner := Pru;
      iface.rBuf := ReadPtrOffset;
      iface.rMaxLength := DurationBufLen;
      iface.rTruncated := 0;
      iface.wOwner := Arm;
      iface.wBuf := WritePtrOffset;
    }

    /** `recvFromAlto`. */
    method RecvFromAlto() returns (datagram: Option<seq<bv8>>)
      requires Valid()
      modifies iface`rTruncated, iface`rOwner, durationBuf, udpBuf, this`packetCount, this`badPacketCount
      ensures Valid()
      ensures (View(), datagram) == RecvStep(old(View()))
    {
      if iface.rTruncated != 0 {
        iface.rTruncated := 0;
      }
      if iface.rStatus != StatusInputComplete {
        return None;
      }
      var rLength := iface.rReceivedLength;
      if rLength > DurationBufLen {
        return None;
      }
      ghost var h := View();
      datagram := Accept(rLength);
      AcceptStepFrom(h, View(), datagram);
    }

    /** The accepting branch of `recvFromAlto`: copy the durations, hand the
        read buffer back, count the packet, decode and frame it. */
    method Accept(rLength: nat) returns (datagram: Option<seq<bv8>>)
      requires Valid() && Accepts(iface.rStatus, iface.rReceivedLength) && rLength == iface.rReceivedLength
      modifies iface`rOwner, durationBuf, udpBuf, this`packetCount, this`badPacketCount
      ensures Valid()
      ensures View().shared == old(View()).shared.(rOwner := Pru)
      ensures durationBuf[..] == Overlay(old(durationBuf[..]), 0, old(View()).shared.readMem[..old(View()).shared.rReceivedLength])
      ensures datagram == Broadcast(old(View()).shared.readMem[..old(View()).shared.rReceivedLength], old(View()).udp[..2])
      ensures udpBuf[..] == AfterReceive(old(View()).udp, old(View()).shared.readMem[..old(View()).shared.rReceivedLength])
      ensures packetCount == old(packetCount) + 1
      ensures badPacketCount == old(badPacketCount) + if datagram.None? then 1 else 0
    {
      ghost var h := View();
      ghost var ds := h.shared.readMem[..h.shared.rReceivedLength];
      assert iface.readMem[0..rLength] == ds;
      CopyFrom(iface.readMem, 0, durationBuf, rLength);
      iface.rOwner := Pru;
      packetCount := packetCount + 1;
      assert durationBuf[..rLength] == ds;
      datagram := DecodeAndFrame(durationBuf, rLength, udpBuf, ds, h.udp);
      badPacketCount := badPacketCount + if datagram.None? then 1 else 0;
      assert iface.View() == h.shared.(rOwner := Pru);
    }

    /** `sendToAlto` with the datagram `recvfrom` returned. */
    method SendToAlto(d: Datagram) returns (committed: Option<seq<bv8>>)
      requires Valid() && SendFits(View(), d)
      modifies udpBuf, iface.writeMem, iface`wLength, iface`wOwner
      ensures Valid()
      ensures (View(), committed) == SendStep(old(View()), d)
    {
      if iface.wOwner != Arm {
        return None;
      }
      if d.RecvError? {
        return None;
      }
      ghost var h := View();
      var frame := Commit(d.bytes);
      SendStepFrom(h, View(), d, frame);
      committed := Some(frame);
    }

    /** The committing branch of `sendToAlto`: read the datagram, append the
        CRC, copy the frame into the write buffer and hand it over. */
    method Commit(bytes: seq<bv8>) returns (frame: seq<bv8>)
      requires Valid() && iface.wOwner == Arm && HeaderWords(Arrived(udpBuf[..], bytes)) <= MaxWords
      modifies udpBuf, iface.writeMem, iface`wLength, iface`wOwner
      ensures Valid()
      ensures frame == OutboundFrame(Arrived(old(udpBuf[..]), bytes))
      ensures udpBuf[..] == Overlay(Arrived(old(udpBuf[..]), bytes), 2, frame)
      ensures iface.View() == old(iface.View()).(writeMem := Overlay(old(iface.writeMem[..]), 0, frame),
                                                 wLength := |frame|, wOwner := Pru)
      ensures durationBuf[..] == old(durationBuf[..])
    {
      ghost var shared := iface.View();
      ReadDatagram(udpBuf, bytes);
      var frameLen := AppendCrc(udpBuf);
      frame := udpBuf[2..2 + frameLen];
      CopyFrom(udpBuf, 2, iface.writeMem, frameLen);
      iface.wLength := frameLen;
      iface.wOwner := Pru;
      assert iface.View() == shared.(writeMem := iface.writeMem[..], wLength := |frame|, wOwner := Pru);
    }

    /** One pass of the event loop; see `HostPass`. */
    method Iteration(wakeup: Wakeup) returns (datagram: Option<seq<bv8>>, committed: Option<seq<bv8>>)
      requires Valid() && IncomingFits(View(), wakeup)
      modifies iface`rTruncated, iface`rOwner, durationBuf, udpBuf, this`packetCount, this`badPacketCount
      modifies iface.writeMem, iface`wLength, iface`wOwner
      ensures Valid()
      ensures (View(), datagram, committed) == HostPass(old(View()), wakeup)
    {
      var waitOnSocket := iface.wOwner == Arm;
      var socketReady := waitOnSocket && wakeup.socket.Some?;
      datagram, committed := None, None;
      if !wakeup.pruReady && !socketReady {
        // select timed out
        return;
      }
      if iface.rOwner == Arm {
        datagram := RecvFromAlto();
      }
      if socketReady {
        committed := SendToAlto(wakeup.socket.value);
      }
    }
  }

  /** `recvFromAlto` goes on to decode: the status is INPUT_COMPLETE and the
      length fits `durationBuf`. */
  predicate Accepts(status: Uint32, length: Uint32)
  {
    status == StatusInputComplete && length <= DurationBufLen
  }

  /** The word count `sendToAlto` reads once datagram `d` has been received
      into `udpBuf`, whose earlier contents are `udp`, asks for no more words
      than `byteBuf` holds with the CRC. A datagram of fewer than two bytes
      leaves some or all of the count from the earlier contents. */
  predicate DatagramFits(udp: seq<bv8>, d: Datagram)
    requires |udp| == UdpBufLen
  {
    d.Received? ==> HeaderWords(Arrived(udp, d.bytes)) <= MaxWords
  }

  /** The datagram a pass on state `h` may read fits `byteBuf` once the
      read buffer, if the host owns it, has been handled: `recvFromAlto`
      runs first and leaves its broadcast in `udpBuf`. */
  predicate IncomingFits(h: HostState, wakeup: Wakeup)
    requires HostSized(h)
  {
    wakeup.socket.Some? ==>
      SendFits(if h.shared.rOwner == Arm then RecvStep(h).0 else h, wakeup.socket.value)
  }

  /** The datagram `recvFromAlto` broadcasts for the durations `ds`, if
      they decode: the word-count header, then the frame. */
  function Broadcast(ds: seq<Uint8>, header: seq<bv8>): (d: Option<seq<bv8>>)
    requires |header| == 2
    ensures d.Some? <==> DecodeSpec(ds, header).Success?
    ensures d.Some? ==> |d.value| >= 2 && d.value[2..] == DecodeSpec(ds, header).value
  {
    match DecodeSpec(ds, header)
    case Success(frame) => Some(HeaderBytes(GatewayWordCount(|frame|)) + frame)
    case Failure(_) => None
  }

  /** `udpBuf` after `recvFromAlto` decoded `ds` into it: the bytes the
      decoder wrote after the two header bytes and, when the frame
      decoded, the word-count header. */
  function AfterReceive(buf: seq<bv8>, ds: seq<Uint8>): (r: seq<bv8>)
    requires |buf| == UdpBufLen
    ensures |r| == UdpBufLen
  {
    var decoded := Overlay(buf, 2, Written(ds));
    match Broadcast(ds, buf[..2])
    case Some(out) => Overlay(decoded, 0, out[..2])
    case None => decoded
  }

  /** What `recvFromAlto` broadcasts is the head of `udpBuf` afterwards. */
  lemma BroadcastFromBuffer(buf: seq<bv8>, ds: seq<Uint8>)
    requires |buf| == UdpBufLen && Broadcast(ds, buf[..2]).Some?
    ensures var out := Broadcast(ds, buf[..2]).value;
      |out| <= UdpBufLen && AfterReceive(buf, ds)[..|out|] == out
  {
    var r := DecodeSpec(ds, buf[..2]);
    var out := Broadcast(ds, buf[..2]).value;
    AcceptedShape(ds, buf[..2]);
    assert out == out[..2] + r.value;
    HeaderOverFrame(buf, out[..2], r.value);
  }

  /** Two bytes put in front of a frame written at offset 2. */
  lemma HeaderOverFrame<T>(buf: seq<T>, h: seq<T>, f: seq<T>)
    requires |h| == 2 && 2 + |f| <= |buf|
    ensures Overlay(Overlay(buf, 2, f), 0, h)[..2 + |f|] == h + f
  {
    var a := Overlay(Overlay(buf, 2, f), 0, h);
    assert a[..2 + |f|] == a[..2] + a[2..2 + |f|];
  }

  /** Decodes the `len` durations into `udpBuf` and, when they decode, puts
      the word-count header in front; the broadcast datagram, if any. */
  method DecodeAndFrame(durationBuf: array<Uint8>, len: nat, udpBuf: array<bv8>,
                        ghost ds: seq<Uint8>, ghost orig: seq<bv8>)
    returns (datagram: Option<seq<bv8>>)
    requires len <= durationBuf.Length && udpBuf.Length == UdpBufLen && durationBuf as object != udpBuf
    requires durationBuf[..len] == ds && udpBuf[..] == orig
    modifies udpBuf
    ensures datagram == Broadcast(ds, orig[..2])
    ensures udpBuf[..] == AfterReceive(orig, ds)
  {
    assert orig[..2] == udpBuf[..2];
    var decodedLen := Decode(durationBuf, len, udpBuf);
    if decodedLen < 0 {
      return None;
    }
    ghost var r := DecodeSpec(ds, orig[..2]);
    AcceptedShape(ds, orig[..2]);
    PutHeader(udpBuf, decodedLen, GatewayWordCount(decodedLen), r.value);
    BroadcastFromBuffer(orig, ds);
    datagram := Some(udpBuf[..decodedLen + 2]);
  }

  /** The word count `w` put in front of the `n` decoded bytes `frame`
      already in `byteBuf`, big-endian. */
  method PutHeader(udpBuf: array<bv8>, n: nat, w: int, ghost frame: seq<bv8>)
    requires udpBuf.Length == UdpBufLen && |frame| == n < MaxPupLength && udpBuf[2..n + 2] == frame
    modifies udpBuf
    ensures udpBuf[..] == Overlay(old(udpBuf[..]), 0, HeaderBytes(w))
    ensures udpBuf[..n + 2] == HeaderBytes(w) + frame
  {
    var header := HeaderBytes(w);
    udpBuf[0] := header[0];
    udpBuf[1] := header[1];
    assert udpBuf[..] == Overlay(old(udpBuf[..]), 0, header);
    assert udpBuf[2..n + 2] == frame;
  }

  /** The CRC step of `sendToAlto`: the CRC of the words the header counts
      is written, big-endian, right behind them; the frame's length in
      bytes. */
  method AppendCrc(udpBuf: array<bv8>) returns (frameLen: nat)
    requires udpBuf.Length == UdpBufLen && HeaderWords(udpBuf[..]) <= MaxWords
    modifies udpBuf
    ensures frameLen == |OutboundFrame(old(udpBuf[..]))|
    ensures udpBuf[..] == Overlay(old(udpBuf[..]), 2, OutboundFrame(old(udpBuf[..])))
  {
    ghost var buf := udpBuf[..];
    var wordLength := WordValue(udpBuf[0], udpBuf[1]);
    var crcVal := PayloadCrc(udpBuf, wordLength);
    var trailer := BigEndian(crcVal);
    PutTrailer(udpBuf, 2 * wordLength, trailer);
    assert OutboundFrame(buf) == buf[2..2 + 2 * wordLength] + trailer;
    frameLen := wordLength * 2 + 2;
  }

  /** `crc(byteBuf, wordLength)` over the words the header counts. */
  method PayloadCrc(udpBuf: array<bv8>, wordLength: nat) returns (crc: bv16)
    requires udpBuf.Length == UdpBufLen && wordLength == HeaderWords(udpBuf[..]) <= MaxWords
    ensures crc == CrcOf(udpBuf[..][2..2 + 2 * HeaderWords(udpBuf[..])])
  {
    crc := Crc(udpBuf, 2, wordLength);
    assert udpBuf[2..2 + WordBytes(wordLength)] == udpBuf[..][2..2 + 2 * HeaderWords(udpBuf[..])];
  }

  /** Writes the two-element trailer `t` right behind the `n` elements
      from index 2. */
  method PutTrailer<T>(a: array<T>, n: nat, t: seq<T>)
    requires |t| == 2 && n + 4 <= a.Length
    modifies a
    ensures a[..] == Overlay(old(a[..]), 2, old(a[..])[2..2 + n] + t)
  {
    ghost var before := a[..];
    a[2 + n] := t[0];
    a[2 + n + 1] := t[1];
    assert a[..] == before[2 + n := t[0]][2 + n + 1 := t[1]];
    TrailerAt(before, n, t);
  }

  /** Writing a two-element trailer right behind the `n` elements from index
      2 overlays those elements followed by the trailer. */
  lemma TrailerAt<T>(buf: seq<T>, n: nat, t: seq<T>)
    requires |t| == 2 && n + 4 <= |buf|
    ensures buf[2 + n := t[0]][2 + n + 1 := t[1]] == Overlay(buf, 2, buf[2..2 + n] + t)
  {
    var r := buf[2 + n := t[0]][2 + n + 1 := t[1]];
    assert r[2..2 + n + 2] == buf[2..2 + n] + t;
    OverlayFrom(buf, 2, buf[2..2 + n] + t, r);
  }

  /** `memcpy(dst, src + at, n)`. */
  method CopyFrom<T>(src: array<T>, at: nat, dst: array<T>, n: nat)
    requires at + n <= src.Length && n <= dst.Length && src != dst
    modifies dst
    ensures dst[..] == Overlay(old(dst[..]), 0, src[at..at + n])
  {
    ghost var before := dst[..];
    forall k | 0 <= k < n {
      dst[k] := src[at + k];
    }
    OverlayFrom(before, 0, src[at..at + n], dst[..]);
  }

  /** `recvfrom` into `udpBuf`: the datagram's bytes, up to the buffer size. */
  method ReadDatagram(udpBuf: array<bv8>, bytes: seq<bv8>)
    requires udpBuf.Length == UdpBufLen
    modifies udpBuf
    ensures udpBuf[..] == Arrived(old(udpBuf[..]), bytes)
  {
    ghost var before := udpBuf[..];
    var n := if |bytes| < UdpBufLen then |bytes| else UdpBufLen;
    forall k | 0 <= k < n {
      udpBuf[k] := bytes[k];
    }
    OverlayFrom(before, 0, bytes[..n], udpBuf[..]);
  }
}
