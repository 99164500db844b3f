/** The coprocessor side (main.c): its polling loop hands each buffer back to
    the host when it is done with it, `send_packet` drives the half-bit
    levels of the frame in the write buffer, and `receive_packet` records
    the time between line transitions into the read buffer. The line and
    the timer are inputs: a `Line` gives the timer readings at the sync low
    edge, at each transition the polling loop detects, and at the
    end-of-packet timeout. */
module Device {
  import opened Common
  import opened AltoCrc
  import opened Timing
  import opened LineCode
  import opened Iface

  /** The input pin of the Ethernet receiver, bit 16 of `__R31`. */
  const ReadPin := 16

  // ---------------------------------------------------------------------
  // send_packet

  /** `send_packet` for the frame in the write buffer: the sync bit, each
      byte most significant bit first by testing `byte & 0x80` and shifting
      `byte` left, and the closing 1. It always reports OUTPUT_COMPLETE
      (see `CollisionNeverRaised`). */
  method SendPacket(iface: Block) returns (status: int, levels: seq<bool>)
    requires Low16(iface.wLength) <= iface.writeMem.Length
    ensures status == StatusOutputComplete
    ensures levels == SendLevels(iface.writeMem[..Low16(iface.wLength)])
  {
    var len := Low16(iface.wLength);
    ghost var frame := iface.writeMem[..len];
    levels := [true, false];
    var i := 0;
    while i < len
      invariant 0 <= i <= len
      invariant levels == [true, false] + FrameHalves(frame[..i])
    {
      var halves := DriveByte(iface.writeMem[i]);
      FrameHalvesNext(frame, i);
      levels := levels + halves;
      i := i + 1;
    }
    assert frame[..len] == frame;
    levels := levels + [true];
    status := StatusOutputComplete;
  }

  /** The halves of one more byte of `f` follow those of the bytes before it. */
  lemma FrameHalvesNext(f: seq<bv8>, k: nat)
    requires k < |f|
    ensures [true, false] + FrameHalves(f[..k + 1])
         == [true, false] + FrameHalves(f[..k]) + ByteHalves(f[k], BitsPerByte())
  {
    assert f[..k + 1][..k] == f[..k];
  }

  /** The inner loop of `send_packet`: the two half-bit levels of each bit
      of `b`, most significant first, found by testing `byte & 0x80` and
      shifting `byte` left. */
  method DriveByte(b: bv8) returns (halves: seq<bool>)
    ensures halves == ByteHalves(b, BitsPerByte())
  {
    var byte := b;
    var bitCount := 0;
    halves := [];
    while bitCount < 8
      invariant 0 <= bitCount <= 8
      invariant byte == Shifted(b, bitCount)
      invariant halves == ByteHalves(b, bitCount)
    {
      if byte & 0x80 != 0 {
        halves := halves + [true, false];
      } else {
        halves := halves + [false, true];
      }
      byte := byte << 1;
      bitCount := bitCount + 1;
    }
  }

  /** C's `a && b` on integers: 1 when both are non-zero, else 0. */
  function LogicalAnd(a: int, b: int): (r: int)
  {
    if a != 0 && b != 0 then 1 else 0
  }

  /** The collision test `(__R31 && (1 << READ_PIN)) == 42` compares a
      logical AND, which is 0 or 1, with 42: whatever the input register
      holds, the collision branch is never taken, so `w_length` is never
      set to 42 and the status is never BIT_COLLISION. */
  lemma CollisionNeverRaised(r31: Uint32)
    ensures LogicalAnd(r31, Pow2(ReadPin)) != 42
    ensures LogicalAnd(r31, Pow2(ReadPin)) == 0 <==> r31 == 0
  {
    Pow2Positive(ReadPin);
  }

  function Pow2(k: nat): (p: nat)
  {
    if k == 0 then 1 else 2 * Pow2(k - 1)
  }

  lemma {:induction false} Pow2Positive(k: nat)
    ensures Pow2(k) > 0
  {
    if k > 0 {
      Pow2Positive(k - 1);
    }
  }

  // ---------------------------------------------------------------------
  // receive_packet

  /** What the receiver sees while `receive_packet` runs: either the line
      stays high (no carrier), or a packet arrives and the timer is read at
      the sync low edge, at each detected transition, and at the
      end-of-packet timeout (when fewer transitions than the buffer holds
      arrive). */
  datatype Line = Quiet | Carrier(sync: Uint32, edges: seq<Uint32>, timeout: Uint32)

  /** `(timer_cnt - prev_timer_cnt) / 2` stored into a `uint8_t`: the
      `uint32_t` difference wraps, is halved, and keeps its low byte. */
  function Scaled(t: Uint32, prev: Uint32): (d: Uint8)
  {
    ((t - prev) % 0x1_0000_0000 / 2) % 0x100
  }

  /** The durations recorded between consecutive timer readings. */
  function Recorded(ts: seq<Uint32>): (ds: seq<Uint8>)
    ensures |ds| == if |ts| == 0 then 0 else |ts| - 1
  {
    if |ts| <= 1 then [] else Recorded(ts[..|ts| - 1]) + [Scaled(ts[|ts| - 1], ts[|ts| - 2])]
  }

  /** How a `receive_packet` call ends: its status, the bytes it wrote from
      the start of the read buffer, and the length it reported, if any. */
  datatype Outcome = Outcome(status: int, written: seq<Uint8>, length: Option<nat>)

  /** The result of `receive_packet` with `maxLen` the 16-bit `r_max_length`:
      a software reset when the line is quiet and the host has handed over
      the write buffer, no result yet (it keeps waiting) when the line is
      quiet otherwise; on a carrier, INPUT_COMPLETE with the count of
      transitions when they all fit (the debug duration up to the timeout
      is written just past them), else INPUT_OVERRUN after `maxLen`
      durations, reporting no length. */
  function ReceiveSpec(line: Line, maxLen: nat, wOwner: Owner): (o: Option<Outcome>)
    ensures o.Some? ==> |o.value.written| <= maxLen
    ensures o.Some? && o.value.length.Some? ==> o.value.length.value < maxLen
    ensures o.Some? ==> (o.value.length.Some? <==> o.value.status == StatusInputComplete)
  {
    match line
    case Quiet =>
      if wOwner == Pru then Some(Outcome(StatusSoftwareReset, [], None)) else None
    case Carrier(sync, edges, timeout) =>
      if |edges| < maxLen then
        Some(Outcome(StatusInputComplete, Recorded([sync] + edges + [timeout]), Some(|edges|)))
      else
        Some(Outcome(StatusInputOverrun, Recorded(([sync] + edges)[..maxLen + 1]), None))
  }

  /** `receive_packet`: records durations into the read buffer from its
      start and, on INPUT_COMPLETE, sets `r_received_length`. */
  method ReceivePacket(iface: Block, line: Line) returns (status: Option<int>)
    requires iface.Valid()
    modifies iface.readMem, iface`rReceivedLength
    ensures var o := ReceiveSpec(line, Low16(iface.rMaxLength), iface.wOwner);
      && status == (if o.Some? then Some(o.value.status) else None)
      && iface.readMem[..] == Overlay(old(iface.readMem[..]), 0, if o.Some? then o.value.written else [])
      && iface.rReceivedLength == if o.Some? && o.value.length.Some? then o.value.length.value
                                  else old(iface.rReceivedLength)
  {
    if line.Quiet? {
      // Waiting for the sync low edge.
      assert iface.readMem[..] == Overlay(iface.readMem[..], 0, []);
      if iface.wOwner == Pru {
        return Some(StatusSoftwareReset);
      }
      return None;
    }
    var maxLen := Low16(iface.rMaxLength);
    ghost var times := [line.sync] + line.edges;
    var complete, count := Record(iface.readMem, maxLen, line.sync, line.edges, line.timeout);
    if complete {
      assert ReceiveSpec(line, maxLen, iface.wOwner)
        == Some(Outcome(StatusInputComplete, Recorded(times + [line.timeout]), Some(count)));
      iface.rReceivedLength := count;
      return Some(StatusInputComplete);
    }
    assert ReceiveSpec(line, maxLen, iface.wOwner)
      == Some(Outcome(StatusInputOverrun, Recorded(times[..maxLen + 1]), None));
    return Some(StatusInputOverrun);
  }

  /** The loop of `receive_packet` once the sync low edge is seen: a
      duration per transition into `buf`, until the timeout (complete, with
      the count of transitions) or until `maxLen` durations (overrun). */
  method Record(buf: array<Uint8>, maxLen: nat, sync: Uint32, edges: seq<Uint32>, timeout: Uint32)
    returns (complete: bool, count: nat)
    requires maxLen <= buf.Length
    modifies buf
    ensures complete <==> |edges| < maxLen
    ensures complete ==> count == |edges|
    ensures complete ==> buf[..] == Overlay(old(buf[..]), 0, Recorded([sync] + edges + [timeout]))
    ensures !complete ==> buf[..] == Overlay(old(buf[..]), 0, Recorded(([sync] + edges)[..maxLen + 1]))
  {
    ghost var orig := buf[..];
    ghost var times := [sync] + edges;
    var prev := sync;
    count := 0;
    assert buf[..] == Overlay(orig, 0, Recorded(times[..1]));
    while count < maxLen
      invariant count <= maxLen && count <= |edges|
      invariant prev == times[count]
      invariant buf[..] == Overlay(orig, 0, Recorded(times[..count + 1]))
    {
      if count == |edges| {
        // No transition before the timeout: end of packet.
        ghost var all := times + [timeout];
        assert all == [sync] + edges + [timeout] && all[..count + 2] == all;
        assert all[..count + 1] == times[..count + 1];
        RecordStep(orig, all, count, buf[..], Scaled(timeout, prev));
        buf[count] := Scaled(timeout, prev);
        return true, count;
      }
      var t := edges[count];
      RecordStep(orig, times, count, buf[..], Scaled(t, prev));
      buf[count] := Scaled(t, prev);
      prev := t;
      count := count + 1;
    }
    return false, count;
  }

  /** Writing the duration up to reading `count + 1` just past the first
      `count` extends what has been recorded. */
  lemma RecordStep(orig: seq<Uint8>, ts: seq<Uint32>, count: nat, mem: seq<Uint8>, d: Uint8)
    requires count + 1 < |ts| && count < |orig|
    requires mem == Overlay(orig, 0, Recorded(ts[..count + 1]))
    requires d == Scaled(ts[count + 1], ts[count])
    ensures mem[count := d] == Overlay(orig, 0, Recorded(ts[..count + 2]))
  {
    assert ts[..count + 2][..count + 1] == ts[..count + 1];
    OverlayGrow(orig, 0, Recorded(ts[..count + 1]), d);
  }

  // ---------------------------------------------------------------------
  // The polling loop

  /** The receive half of a pass of the polling loop. If the coprocessor
      owns the read buffer it receives, and on any status but
      SOFTWARE_RESET hands the buffer back with that status; otherwise a
      low input pin marks a truncated packet. */
  function ReadSide(s: Shared, pinLow: bool, line: Line): (t: Shared)
    requires Low16(s.rMaxLength) <= |s.readMem|
  {
    if s.rOwner == Pru then
      var o := ReceiveSpec(line, Low16(s.rMaxLength), s.wOwner);
      var recorded := AfterRecording(s, line);
      if o.Some? && o.value.status != StatusSoftwareReset then
        recorded.(rStatus := o.value.status, rOwner := Arm)
      else
        recorded
    else if pinLow then
      s.(rTruncated := 1)
    else
      s
  }

  /** The block once `receive_packet` has returned, before the polling loop
      writes the status and the owner: the durations are in the read buffer
      and, on INPUT_COMPLETE, their count is in `r_received_length`. */
  function AfterRecording(s: Shared, line: Line): Shared
    requires Low16(s.rMaxLength) <= |s.readMem|
  {
    var o := ReceiveSpec(line, Low16(s.rMaxLength), s.wOwner);
    s.(readMem := Overlay(s.readMem, 0, if o.Some? then o.value.written else []),
       rReceivedLength := if o.Some? && o.value.length.Some? then o.value.length.value
                          else s.rReceivedLength)
  }

  /** The send half: if the coprocessor owns the write buffer it drives the
      frame, sets OUTPUT_COMPLETE and hands the buffer back; the levels it
      drove, if it sent. */
  function WriteSide(s: Shared): (r: (Shared, Option<seq<bool>>))
    requires s.wOwner == Pru ==> Low16(s.wLength) <= |s.writeMem|
  {
    if s.wOwner == Pru then
      (s.(wStatus := StatusOutputComplete, wOwner := Arm), Some(SendLevels(s.writeMem[..Low16(s.wLength)])))
    else
      (s, None)
  }

  /** One pass of the coprocessor's `while (!done)` loop: receive, then
      send. The coprocessor only hands buffers back: it never takes the read
      buffer from the host and always ends a pass without the write buffer;
      it changes the read buffer and its fields only while it owns it, and
      the write buffer and its length never; it drives levels exactly when
      it owned the write buffer, and those of the frame the host left there;
      it raises the truncation flag when the host holds the read buffer and
      the input pin is low, and otherwise leaves the flag alone. */
  function DeviceStep(s: Shared, pinLow: bool, line: Line): (r: (Shared, Option<seq<bool>>))
    requires Sized(s)
    ensures Sized(r.0)
    ensures s.rOwner == Arm ==> r.0.rOwner == Arm
    ensures r.0.wOwner == Arm
    ensures s.wOwner == Pru ==> r.0.wStatus == StatusOutputComplete
    ensures s.rOwner == Pru ==>
      var o := ReceiveSpec(line, Low16(s.rMaxLength), s.wOwner);
      (r.0.rOwner == Arm <==> o.Some? && o.value.status != StatusSoftwareReset) &&
      (r.0.rOwner == Arm ==> r.0.rStatus == o.value.status)
    ensures r.0.writeMem == s.writeMem && r.0.wLength == s.wLength && r.0.rMaxLength == s.rMaxLength
    ensures r.0.rTruncated == if s.rOwner == Arm && pinLow then 1 else s.rTruncated
    ensures s.rOwner == Arm ==>
      r.0.readMem == s.readMem && r.0.rStatus == s.rStatus && r.0.rReceivedLength == s.rReceivedLength
    ensures r.1.Some? <==> s.wOwner == Pru
    ensures r.1.Some? ==> r.1.value == SendLevels(s.writeMem[..Low16(s.wLength)])
  {
    WriteSide(ReadSide(s, pinLow, line))
  }

  /** One pass of the polling loop on the shared block. The pass is atomic
      here, so the order of the owner and status writes does not show; the
      state between them is studied in `Handshake.HandBackAsWritten`. */
  method Step(iface: Block, pinLow: bool, line: Line) returns (sent: Option<seq<bool>>)
    requires iface.Valid()
    modifies iface`rStatus, iface`rOwner, iface`rReceivedLength, iface`rTruncated
    modifies iface`wStatus, iface`wOwner, iface.readMem
    ensures iface.Valid()
    ensures (iface.View(), sent) == DeviceStep(old(iface.View()), pinLow, line)
  {
    ReceiveHalf(iface, pinLow, line);
    sent := SendHalf(iface);
  }

  /** The receive half of a pass: receive while the coprocessor owns the
      read buffer and hand it back on a status other than SOFTWARE_RESET;
      otherwise flag a truncated packet if the input pin is low. */
  method ReceiveHalf(iface: Block, pinLow: bool, line: Line)
    requires iface.Valid()
    modifies iface`rStatus, iface`rOwner, iface`rReceivedLength, iface`rTruncated, iface.readMem
    ensures iface.Valid()
    ensures iface.View() == ReadSide(old(iface.View()), pinLow, line)
  {
    if iface.rOwner == Pru {
      ReceiveOwned(iface, pinLow, line);
    } else if pinLow {
      iface.rTruncated := 1;
    }
  }

  /** The receive half while the coprocessor owns the read buffer. */
  method ReceiveOwned(iface: Block, pinLow: bool, line: Line)
    requires iface.Valid() && iface.rOwner == Pru
    modifies iface`rStatus, iface`rOwner, iface`rReceivedLength, iface.readMem
    ensures iface.Valid()
    ensures iface.View() == ReadSide(old(iface.View()), pinLow, line)
  {
    ghost var s := iface.View();
    ghost var o := ReceiveSpec(line, Low16(s.rMaxLength), s.wOwner);
    ghost var recorded := AfterRecording(s, line);
    ReadSideOwned(s, pinLow, line);
    var status := ReceivePacket(iface, line);
    assert status == if o.Some? then Some(o.value.status) else None;
    assert iface.View() == recorded;
    if status.Some? && status.value != StatusSoftwareReset {
      iface.rOwner := Arm;
      iface.rStatus := status.value;
      assert iface.View() == recorded.(rStatus := o.value.status, rOwner := Arm);
    }
  }

  /** The read side while the coprocessor owns the buffer ignores the pin. */
  lemma ReadSideOwned(s: Shared, pinLow: bool, line: Line)
    requires Low16(s.rMaxLength) <= |s.readMem| && s.rOwner == Pru
    ensures var o := ReceiveSpec(line, Low16(s.rMaxLength), s.wOwner);
      ReadSide(s, pinLow, line) ==
        if o.Some? && o.value.status != StatusSoftwareReset then AfterRecording(s, line).(rStatus := o.value.status, rOwner := Arm)
        else AfterRecording(s, line)
  {
  }

  /** The send half of a pass: drive the frame the host left in the write
      buffer, if the coprocessor owns it, and hand the buffer back. */
  method SendHalf(iface: Block) returns (sent: Option<seq<bool>>)
    requires iface.Valid()
    modifies iface`wStatus, iface`wOwner
    ensures iface.Valid()
    ensures (iface.View(), sent) == WriteSide(old(iface.View()))
  {
    if iface.wOwner == Pru {
      var status, levels := SendPacket(iface);
      iface.wStatus := status;
      iface.wOwner := Arm;
      sent := Some(levels);
    } else {
      sent := None;
    }
  }

  // ---------------------------------------------------------------------
  // From timer readings to what decode sees

  /** A reading taken `2 d` nanoseconds after `prev` (modulo the 32-bit
      timer) records `d`. */
  lemma ScaledSpacing(prev: Uint32, t: Uint32, d: Uint8)
    requires t == (prev + 2 * (d as int)) % 0x1_0000_0000
    ensures Scaled(t, prev) == d
  {
    assert (t - prev) % 0x1_0000_0000 == 2 * (d as int);
  }

  /** Readings spaced `2 ds[k]` nanoseconds apart record exactly `ds`. */
  predicate SpacedBy(ts: seq<Uint32>, ds: seq<Uint8>)
  {
    |ts| == |ds| + 1 && forall k :: 0 <= k < |ds| ==> ts[k + 1] == (ts[k] + 2 * (ds[k] as int)) % 0x1_0000_0000
  }

  lemma {:induction false} RecordedSpacing(ts: seq<Uint32>, ds: seq<Uint8>)
    requires SpacedBy(ts, ds)
    ensures Recorded(ts) == ds
    decreases |ds|
  {
    if |ds| > 0 {
      var n := |ds|;
      assert SpacedBy(ts[..n], ds[..n - 1]);
      RecordedSpacing(ts[..n], ds[..n - 1]);
      ScaledSpacing(ts[n - 1], ts[n], ds[n - 1]);
      assert ds == ds[..n - 1] + [ds[n - 1]];
    }
  }

  /** Recording one more reading keeps the durations recorded so far at
      the front. */
  lemma RecordedExtend(ts: seq<Uint32>, t: Uint32)
    requires |ts| >= 1
    ensures |ts| - 1 <= |Recorded(ts + [t])| && Recorded(ts + [t])[..|ts| - 1] == Recorded(ts)
  {
    var u := ts + [t];
    assert u[..|u| - 1] == ts;
  }

  /** End to end: a frame that carries its own CRC, driven by `send_packet`,
      arrives as a carrier whose transitions are spaced by its runs of
      half-bits. `receive_packet` then completes when the transitions fit
      `maxLen`, and the `r_received_length` durations it leaves at the front
      of the read buffer decode back to the frame; otherwise it overruns. */
  lemma CapturedFrameDecodes(m: seq<bv8>, line: Line, maxLen: nat, wOwner: Owner, header: seq<bv8>)
    requires |header| == 2 && |m| % 2 == 0 && |m| + 2 < MaxPupLength
    requires line.Carrier? && SpacedBy([line.sync] + line.edges, LineDurations(m + BigEndian(CrcOf(m))))
    ensures var o := ReceiveSpec(line, maxLen, wOwner);
      && o.Some?
      && (o.value.status == StatusInputComplete <==> |line.edges| < maxLen)
      && (|line.edges| < maxLen ==>
            && o.value.length == Some(|line.edges|)
            && |line.edges| <= |o.value.written|
            && DecodeSpec(o.value.written[..|line.edges|], header) == Success(m + BigEndian(CrcOf(m))))
  {
    var frame := m + BigEndian(CrcOf(m));
    var ts := [line.sync] + line.edges;
    RecordedSpacing(ts, LineDurations(frame));
    if |line.edges| < maxLen {
      RecordedExtend(ts, line.timeout);
      var written := Recorded(ts + [line.timeout]);
      assert written[..|line.edges|] == Recorded(ts);
      RoundTrip(m, header);
    }
  }
}
