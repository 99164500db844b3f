/** The host's event loop and the coprocessor's polling loop as one system:
    each side takes atomic steps on the shared block (a pass of the host's
    `while (1)` loop, or a pass of the coprocessor's `while (!done)` loop),
    in any interleaving. The buffers are handed back and forth through
    `r_owner` and `w_owner`; the invariants below say that the two sides
    never use a buffer at the same time, that at most one frame is on its
    way to the wire, and that the wire carries exactly the frames the host
    committed, in order. */
module Handshake {
  import opened Common
  import opened AltoCrc
  import opened Timing
  import opened LineCode
  import opened Iface
  import opened Device
  import opened Gateway

  /** One atomic step: a pass of the host's loop with what `select` and
      `recvfrom` reported, or a pass of the coprocessor's loop with the
      input pin and the line as they were. */
  datatype Event = HostWakes(wakeup: Wakeup) | DeviceLoops(pinLow: bool, line: Line)

  /** A datagram the host reads in step `e` from system `t` fits `byteBuf`
      (see `IncomingFits`). */
  predicate Admissible(t: System, e: Event)
    requires HostSized(t.host)
  {
    e.HostWakes? ==> IncomingFits(t.host, e.wakeup)
  }

  /** Every step of `events`, taken in order from `t`, is admissible. */
  predicate AllAdmissible(t: System, events: seq<Event>)
    requires HostSized(t.host)
    decreases |events|
  {
    events != [] ==> Admissible(t, events[0]) && AllAdmissible(Next(t, events[0]), events[1..])
  }

  /** The system and its history: the host's state (which holds the shared
      block), the frames the host committed to the write buffer, the level
      sequences the coprocessor drove on the wire, and the datagrams the
      host broadcast. */
  datatype System = System(host: HostState, committed: seq<seq<bv8>>, wire: seq<seq<bool>>,
                           broadcasts: seq<seq<bv8>>)

  function Listed<T>(o: Option<T>): (r: seq<T>)
  {
    if o.Some? then [o.value] else []
  }

  /** The state the gateway sets up before its loop (gateway.c): the read
      buffer with the coprocessor, allowed the whole of `durationBuf`, the
      truncation flag clear, and the write buffer with the host. */
  predicate Initial(h: HostState)
  {
    HostSized(h) && h.shared.rOwner == Pru && h.shared.rMaxLength == DurationBufLen &&
    h.shared.rTruncated == 0 && h.shared.wOwner == Arm
  }

  /** One step of either side. */
  function Next(t: System, e: Event): (r: System)
    requires HostSized(t.host) && Admissible(t, e)
    ensures HostSized(r.host)
    ensures |r.committed| + |r.wire| + |r.broadcasts| <= |t.committed| + |t.wire| + |t.broadcasts| + 2
  {
    match e
    case HostWakes(wakeup) =>
      var (h, datagram, frame) := HostPass(t.host, wakeup);
      System(h, t.committed + Listed(frame), t.wire, t.broadcasts + Listed(datagram))
    case DeviceLoops(pinLow, line) =>
      var (s, sent) := DeviceStep(t.host.shared, pinLow, line);
      System(t.host.(shared := s), t.committed, t.wire + Listed(sent), t.broadcasts)
  }

  /** The steps `events`, in order. */
  function Run(t: System, events: seq<Event>): (r: System)
    requires HostSized(t.host) && AllAdmissible(t, events)
    ensures HostSized(r.host)
    decreases |events|
  {
    if events == [] then t else Run(Next(t, events[0]), events[1..])
  }

  // ---------------------------------------------------------------------
  // The write side

  /** Every committed frame carries its own CRC, has a whole number of
      words and fits `byteBuf`. */
  predicate CheckedFrames(fs: seq<seq<bv8>>)
  {
    forall k :: 0 <= k < |fs| ==> CrcOf(fs[k]) == 0 && |fs[k]| % 2 == 0 && |fs[k]| <= MaxPupLength
  }

  /** The write side's invariant: the first frames committed are the ones
      sent, level for level; one more is outstanding exactly while the
      coprocessor owns the write buffer, and it is the one in the buffer,
      with its length. */
  predicate Consistent(t: System)
  {
    && HostSized(t.host)
    && CheckedFrames(t.committed)
    && |t.committed| == |t.wire| + (if t.host.shared.wOwner == Pru then 1 else 0)
    && (forall k :: 0 <= k < |t.wire| ==> t.wire[k] == SendLevels(t.committed[k]))
    && (t.host.shared.wOwner == Pru ==>
          && t.host.shared.wLength == |t.committed[|t.wire|]|
          && t.host.shared.writeMem[..t.host.shared.wLength] == t.committed[|t.wire|])
  }

  /** A system that has not started yet is consistent. */
  lemma InitialConsistent(h: HostState)
    requires Initial(h)
    ensures Consistent(System(h, [], [], []))
  {
  }

  /** A pass of the host's loop keeps the write side consistent. */
  lemma HostKeepsConsistent(t: System, wakeup: Wakeup)
    requires Consistent(t) && IncomingFits(t.host, wakeup)
    ensures Consistent(Next(t, HostWakes(wakeup)))
  {
    var (h, datagram, frame) := HostPass(t.host, wakeup);
    HostCommitsChecked(t.host, wakeup);
    HostHandsOver(t.host, wakeup);
    CommitKeepsConsistent(t, h, frame, t.broadcasts + Listed(datagram));
  }

  /** The part of a host pass the write side depends on: a frame it commits
      is checked and is the one it leaves in the write buffer, handed over;
      without one, the write buffer keeps its owner and, while the
      coprocessor owns it, its contents and length. */
  lemma CommitKeepsConsistent(t: System, h': HostState, frame: Option<seq<bv8>>, broadcasts: seq<seq<bv8>>)
    requires Consistent(t) && HostSized(h')
    requires var s, s' := t.host.shared, h'.shared;
      && (frame.None? ==> s'.wOwner == s.wOwner)
      && (s.wOwner == Pru ==> s'.writeMem == s.writeMem && s'.wLength == s.wLength)
      && (frame.Some? ==>
            && s.wOwner == Arm && s'.wOwner == Pru
            && s'.wLength == |frame.value| <= MaxPupLength
            && s'.writeMem[..s'.wLength] == frame.value
            && |frame.value| % 2 == 0 && CrcOf(frame.value) == 0)
    ensures Consistent(System(h', t.committed + Listed(frame), t.wire, broadcasts))
  {
    var committed := t.committed + Listed(frame);
    if frame.Some? {
      assert committed[|t.wire|] == frame.value;
      forall k | 0 <= k < |committed| ensures CrcOf(committed[k]) == 0 {
        if k < |t.committed| {
          assert committed[k] == t.committed[k];
        }
      }
    } else {
      assert committed == t.committed;
    }
  }

  /** A pass of the coprocessor's loop keeps the write side consistent: if
      it owned the write buffer, it drove the outstanding frame. */
  lemma DeviceKeepsConsistent(t: System, pinLow: bool, line: Line)
    requires Consistent(t)
    ensures Consistent(Next(t, DeviceLoops(pinLow, line)))
  {
    var (s', sent) := DeviceStep(t.host.shared, pinLow, line);
    SendKeepsConsistent(t, s', sent);
  }

  /** The part of a coprocessor pass the write side depends on: it hands
      the write buffer back, leaves it and its length alone, and drives the
      frame in it exactly when it owned it. */
  lemma SendKeepsConsistent(t: System, s': Shared, sent: Option<seq<bool>>)
    requires Consistent(t) && Sized(s')
    requires var s := t.host.shared;
      && s'.wOwner == Arm && s'.writeMem == s.writeMem && s'.wLength == s.wLength
      && (sent.Some? <==> s.wOwner == Pru)
      && (sent.Some? ==> sent.value == SendLevels(s.writeMem[..Low16(s.wLength)]))
    ensures Consistent(System(t.host.(shared := s'), t.committed, t.wire + Listed(sent), t.broadcasts))
  {
    var s := t.host.shared;
    var wire := t.wire + Listed(sent);
    if sent.Some? {
      var f := t.committed[|t.wire|];
      assert Low16(s.wLength) == s.wLength == |f|;
      forall k | 0 <= k < |wire| ensures wire[k] == SendLevels(t.committed[k]) {
        if k < |t.wire| {
          assert wire[k] == t.wire[k];
        }
      }
    } else {
      assert wire == t.wire;
    }
  }

  lemma NextConsistent(t: System, e: Event)
    requires Consistent(t) && Admissible(t, e)
    ensures Consistent(Next(t, e))
  {
    match e
    case HostWakes(wakeup) => HostKeepsConsistent(t, wakeup);
    case DeviceLoops(pinLow, line) => DeviceKeepsConsistent(t, pinLow, line);
  }

  /** Every interleaving keeps the write side consistent. */
  lemma {:induction false} RunConsistent(t: System, events: seq<Event>)
    requires Consistent(t) && AllAdmissible(t, events)
    ensures Consistent(Run(t, events))
    decreases |events|
  {
    if events != [] {
      NextConsistent(t, events[0]);
      RunConsistent(Next(t, events[0]), events[1..]);
    }
  }

  /** From the gateway's start, whatever the interleaving: the wire carries
      the committed frames in order, each as `send_packet`'s levels; at most
      one committed frame has not been sent; and every frame on the wire
      carries its own CRC. */
  lemma WireCarriesCommitted(h: HostState, events: seq<Event>)
    requires Initial(h) && AllAdmissible(System(h, [], [], []), events)
    ensures var r := Run(System(h, [], [], []), events);
      && |r.wire| <= |r.committed| <= |r.wire| + 1
      && (|r.committed| == |r.wire| + 1 <==> r.host.shared.wOwner == Pru)
      && (forall k :: 0 <= k < |r.wire| ==>
            r.wire[k] == SendLevels(r.committed[k]) && CrcOf(r.committed[k]) == 0)
  {
    InitialConsistent(h);
    RunConsistent(System(h, [], [], []), events);
  }

  // ---------------------------------------------------------------------
  // Exclusive use of the buffers

  /** In any step, a buffer the other side owns is left alone: while the
      coprocessor owns the write buffer the host changes neither it nor its
      length, and the coprocessor never writes it and reads it (to send)
      exactly when it owns it; while the host owns the read buffer the
      coprocessor changes neither it nor its status or length, and the host
      never writes it and decodes it only while it owns it. */
  lemma BuffersExclusive(t: System, e: Event)
    requires HostSized(t.host) && Admissible(t, e)
    ensures var s := t.host.shared; var s' := Next(t, e).host.shared;
      && (s.wOwner == Pru ==> s'.writeMem == s.writeMem && s'.wLength == s.wLength)
      && (e.DeviceLoops? ==>
            && s'.writeMem == s.writeMem
            && (|Next(t, e).wire| > |t.wire| <==> s.wOwner == Pru))
      && (e.HostWakes? ==>
            && s'.readMem == s.readMem
            && (|Next(t, e).broadcasts| > |t.broadcasts| ==> s.rOwner == Arm))
      && (e.DeviceLoops? && s.rOwner == Arm ==>
            s'.readMem == s.readMem && s'.rStatus == s.rStatus &&
            s'.rReceivedLength == s.rReceivedLength && s'.rOwner == Arm)
  {
    match e
    case HostWakes(wakeup) =>
      HostHandsOver(t.host, wakeup);
      HostBroadcastsDecoded(t.host, wakeup);
    case DeviceLoops(pinLow, line) =>
  }

  // ---------------------------------------------------------------------
  // The read side

  /** A carrier with at least `r_max_length` edges, arriving while the
      coprocessor owns the read buffer, stalls the read side: the buffer is
      handed back with INPUT_OVERRUN, which `recvFromAlto` turns away. */
  lemma OverrunStalls(s: Shared, pinLow: bool, line: Line)
    requires Sized(s) && s.rOwner == Pru
    requires line.Carrier? && |line.edges| >= Low16(s.rMaxLength)
    ensures Stalled(DeviceStep(s, pinLow, line).0)
  {
  }

  /** A stalled read side stays stalled through any interleaving: the
      coprocessor never takes the read buffer back, the host never hands it
      over, and nothing more is broadcast. */
  lemma {:induction false} StallIsPermanent(t: System, events: seq<Event>)
    requires HostSized(t.host) && AllAdmissible(t, events) && Stalled(t.host.shared)
    ensures Stalled(Run(t, events).host.shared) && Run(t, events).broadcasts == t.broadcasts
    decreases |events|
  {
    if events != [] {
      var e := events[0];
      match e {
        case HostWakes(wakeup) =>
          HostStallPersists(t.host, wakeup);
        case DeviceLoops(pinLow, line) =>
      }
      StallIsPermanent(Next(t, e), events[1..]);
    }
  }

  // ---------------------------------------------------------------------
  // The order of the hand-back writes

  /** The states the shared block goes through when the polling loop hands
      the read buffer back with `status` after `receive_packet` left it as
      `s`, in the order main.c writes the fields: `r_owner`, then
      `r_status`. The first state is visible to the host. */
  function HandBackAsWritten(s: Shared, status: Uint32): (r: seq<Shared>)
    ensures |r| == 2 && r[0].rOwner == Arm && r[0].rStatus == s.rStatus
    ensures r[1] == s.(rStatus := status, rOwner := Arm)
  {
    var owned := s.(rOwner := Arm);
    [owned, owned.(rStatus := status)]
  }

  /** The same writes with the status first: the state between them still
      gives the buffer to the coprocessor. */
  function HandBack(s: Shared, status: Uint32): (r: seq<Shared>)
    ensures |r| == 2 && r[0].rOwner == s.rOwner
    ensures r[1] == s.(rStatus := status, rOwner := Arm)
  {
    var reported := s.(rStatus := status);
    [reported, reported.(rOwner := Arm)]
  }

  /** A packet the coprocessor reports as INPUT_OVERRUN, after the host
      accepted a complete one, is accepted again by a host that looks
      between main.c's two writes: it sees the buffer handed back, the stale
      INPUT_COMPLETE and the stale length, so it counts and decodes a packet
      that overran, over durations the overrun has partly overwritten. Any
      carrier with at least `r_max_length` edges overruns. */
  lemma StaleStatusAccepted(s: Shared, line: Line, h: HostState)
    requires Sized(s) && s.rOwner == Pru
    requires s.rStatus == StatusInputComplete && s.rReceivedLength <= DurationBufLen
    requires line.Carrier? && |line.edges| >= Low16(s.rMaxLength)
    requires HostSized(h) && h.shared == HandBackAsWritten(AfterRecording(s, line), StatusInputOverrun)[0]
    ensures var o := ReceiveSpec(line, Low16(s.rMaxLength), s.wOwner);
      o.Some? && o.value.status == StatusInputOverrun && o.value.length.None?
    ensures h.shared.rOwner == Arm && h.shared.rReceivedLength == s.rReceivedLength
    ensures Accepts(h.shared.rStatus, h.shared.rReceivedLength)
    ensures RecvStep(h).0.packets == h.packets + 1 && RecvStep(h).0.shared.rOwner == Pru
  {
  }

  /** With the status written first the window is harmless: in the state
      between the writes the coprocessor still owns the read buffer, so a
      pass of the host's loop does not decode it, count it or broadcast it;
      and the second write ends in the state the polling loop's receive
      half is specified by. */
  lemma HandBackHidden(s: Shared, pinLow: bool, line: Line, h: HostState, wakeup: Wakeup)
    requires Sized(s) && s.rOwner == Pru
    requires var o := ReceiveSpec(line, Low16(s.rMaxLength), s.wOwner);
      o.Some? && o.value.status != StatusSoftwareReset
    requires HostSized(h) && IncomingFits(h, wakeup)
    requires h.shared == HandBack(AfterRecording(s, line), ReceiveSpec(line, Low16(s.rMaxLength), s.wOwner).value.status)[0]
    ensures h.shared.rOwner == Pru
    ensures HostPass(h, wakeup).1.None? && HostPass(h, wakeup).0.packets == h.packets
    ensures HandBack(AfterRecording(s, line), ReceiveSpec(line, Low16(s.rMaxLength), s.wOwner).value.status)[1]
      == ReadSide(s, pinLow, line)
  {
    HostBroadcastsDecoded(h, wakeup);
  }
}
