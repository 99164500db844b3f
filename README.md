# Alto Ethernet gateway — a Dafny model

This project models the Alto 3 Mb/s Ethernet gateway. It runs on a
BeagleBone: a PRU coprocessor drives and samples the Alto's Ethernet line,
and a host program on the ARM core relays frames between that line and UDP
broadcasts.

The model covers six parts:

- **The coprocessor firmware** (`src/main.c`). It sends a frame as
  Manchester half-bits, most significant bit first, after a sync bit. It
  receives a frame as a list of pulse widths, each one half of the
  coprocessor's timer difference and stored in a byte. It hands each buffer
  back to the host through ownership fields in a shared interface block.
- **The host's decoder** (`decode` in `src/gateway.c`). It turns recorded
  widths into line levels, using the single and double half-bit bands. It
  then pairs the levels into bits and bytes after the sync bit. Last, it
  checks the Alto CRC-16 over the whole words before the trailing CRC word.
- **The CRC itself** (`crc`). The register is seeded with 0x8005 and uses
  polynomial 0x8005, fed most significant bit first. Appending a message's
  own CRC makes the CRC of the whole zero.
- **The host's UDP framing and hand-over**. A received frame is broadcast
  behind a two-byte big-endian word count. The count excludes the CRC word,
  and for zero bytes it is 0xFFFF. An incoming datagram has its CRC appended
  and is handed to the coprocessor. The host watches the socket only while
  it owns the write buffer.
- **The hand-over as a system**. Interleavings of host passes and device
  loop iterations keep every frame put on the wire equal to the frame the
  host committed, with its CRC. At most one write is outstanding. No side
  touches a buffer the other one owns.
- **The command-protocol variant** (`src/etherNet.c`). It has the same
  decoder and CRC, with four differences:
  - it arms reception with `enableRecv` on every pass;
  - its word count includes the CRC word;
  - it also decodes packets with a bad status, for diagnosis;
  - it can send an echo packet parsed from a hex string.

Hardware and operating system effects become parameters:
- the line as the coprocessor samples it (`Device.Line`);
- what `select` reported and what `recvfrom` returned (`Gateway.Wakeup`,
  `Gateway.Datagram`);
- the uninitialised contents of a `malloc`ed buffer (`junk`).

C integer behaviour is written out: `uint16_t` lengths (`Iface.Low16`),
wrapping 32-bit timer differences and byte truncation (`Device.Scaled`),
and C division toward zero (`Common.CDiv`).

Modules, one per file:

- `Common` (common.dfy);
- `AltoCrc` (crc.dfy);
- `Timing` (timing.dfy), the decoder;
- `LineCode` (line_code.dfy), Manchester levels and pulse widths;
- `Iface` (iface.dfy), the shared block as a class;
- `Device` (device.dfy);
- `Gateway` (gateway.dfy), the gateway host as a class `Host`;
- `Handshake` (handshake.dfy), the two sides interleaved;
- `EtherNet` (ethernet.dfy), the command variant as a class `CommandHost`.

A read buffer handed back with a bad status, or with a length beyond 12K,
is never returned to the coprocessor by `recvFromAlto` (gateway.c:235-244).
The model keeps that behaviour rather than recycling the buffer:
`OverrunStalls` and `StallIsPermanent` show that a single overrun stops
reception for good.

Each imperative routine is a method proved against a specification
function. Decode, the CRC loop, the receive loop, the hex parse and the
buffer copies work on `array`s. The interface block and both host programs
are classes whose methods update their fields.

## Model

| member | source | states |
|---|---|---|
| AltoCrc.Crc | src/gateway.c:396-412 | The nested shift/xor loop returns the CRC specification `CrcOf` of exactly the first `2*len` bytes (none when `len <= 0`), starting from the 0x8005 seed; etherNet.c:351-367 is the same function |
| AltoCrc.CrcAppend | src/gateway.c:400-410 | The CRC of a concatenation continues from the register left by the prefix, so the byte loop can be split anywhere |
| AltoCrc.CrcResidue | src/gateway.c:297-301 | A message followed by its own CRC, big-endian, has CRC zero, which is what appending `crcVal >> 8, crcVal & 0xff` achieves |
| AltoCrc.OnlyOwnCrcCancels | src/gateway.c:403-408 | The only two bytes that bring a register value to zero are that value's own big-endian bytes |
| AltoCrc.CheckIffResidueZero | src/gateway.c:383-385 | Comparing a message's CRC with the trailing word is the same as asking that the CRC of message plus trailer is zero (both directions) |
| Timing.ClassifyBands | src/gateway.c:330-347 | The recorded width `d` (2 ns units) is rejected below 60 (under 120 ns), a half-bit from 60 to 114, rejected from 115 to 139, a full bit from 140 to 199, and rejected from 200 on; each band is an if-and-only-if |
| Timing.Expand | src/gateway.c:329-348 | The level vector of `n` usable widths has between `n` and `2n` entries and ends on the level the n-th toggle gives |
| Timing.Padded | src/gateway.c:354-359 | A high level is appended exactly when the level count is even; the result is odd, keeps the levels as they were, and ends high when it grew |
| Timing.CompleteBytes | src/gateway.c:361-376 | The byte count of `m` levels is the number of complete 16-level groups after the sync level: `16n < m <= 16n + 16` |
| Timing.CrcWords | src/gateway.c:383 | `(byteCount - 2) / 2` with C division covers `n - 2 - n % 2` bytes when `n >= 2`, and no bytes when `n < 2` |
| Timing.Decode | src/gateway.c:321-391 | The decoder leaves `udpBuf` equal to the old contents with the bytes `Written(ds)` stored from offset 2. It returns the decoded length when `DecodeSpec` succeeds and -1 on each failure: a bad width, a buffer overflow at 564 bytes, a level count not `1 mod 16`, or a bad CRC; etherNet.c:277-340 is the same function |
| Timing.DecodeStages | src/gateway.c:350-390 | On usable widths the checks come in the code's order, overflow, then alignment, then CRC; the bytes written are the complete bytes, capped at 564 |
| Timing.ToLevels | src/gateway.c:329-359 | The first loop succeeds iff every width is in the half-bit or full-bit band; its level vector is then the padded expansion of the widths. It writes at most two levels per width plus the padding level, which a level buffer of that size always holds |
| Timing.ToBytes | src/gateway.c:361-376 | The pairing loop overflows iff at least 564 complete bytes arrive (then exactly 564 are stored); otherwise it stores every complete byte, each made of the first level of each pair, or 0 where a pair does not change |
| Timing.CheckCrc | src/gateway.c:382-388 | The CRC test reads the words before the trailing word and the trailing word from `udpBuf`, including the stale header bytes when fewer than two bytes were decoded |
| Timing.AcceptedLevelsFit | src/gateway.c:49-50 | Every frame the decoder accepts needs fewer than 16 × 564 levels, the sixteen-per-byte worst case the comment on `MAX_PUP_LENGTH` names |
| Timing.AcceptedShape | src/gateway.c:377-390 | An accepted frame came from usable widths, had exactly `16n + 1` levels, and is the byte sequence written to the buffer |
| Timing.EvenCheck | src/gateway.c:383-385 | For an even number `n >= 2` of bytes, the CRC test passes iff the CRC of the whole frame is zero |
| Timing.OddCheckSkipsByte | src/gateway.c:383-385 | For an odd number `n >= 3` of bytes, the CRC covers the first `n - 3` bytes and the test leaves byte `n - 3` unchecked |
| Timing.ShortCheckReadsHeader | src/gateway.c:383-384 | With fewer than two bytes, the trailing word is read from the UDP header left in `udpBuf` and passes only if it equals the seed 0x8005 |
| LineCode.HalvesClassify | src/gateway.c:330-343 | The widths of a half-bit and of a full bit of the 3 Mb/s line fall in the decoder's single and double bands |
| LineCode.BitHalves | src/main.c:95-107 | A 1 bit is driven high then low, a 0 bit low then high |
| LineCode.SendLevels | src/main.c:65-119 | A frame of `n` bytes is driven as `16n + 3` levels: the sync bit, the bits, and the final high level |
| LineCode.ExpandPulses | src/gateway.c:329-348 | Expanding the pulse widths recorded from a Manchester level sequence gives back that level sequence |
| LineCode.PaddedCaptured | src/gateway.c:354-359 | The padding step restores the final half-bit of a sent frame that merged into the idle line, giving the aligned `16n + 1` levels |
| LineCode.BytesAligned | src/gateway.c:361-376 | Pairing the aligned levels of a frame gives back the frame's bytes |
| LineCode.RoundTrip | src/gateway.c:321-391 | The widths of a sent frame of whole words followed by its CRC (under 564 bytes) decode back to exactly that frame |
| LineCode.BitBufOverrun | src/gateway.c:329-359 | Every even message of 280 to 560 bytes, sent with its CRC, is accepted by the decoder, which writes more levels for it than the `8 * MAX_PUP_LENGTH` of `bitBufLen` (gateway.c:60) |
| Device.SendPacket | src/main.c:65-119 | `send_packet` drives `SendLevels` of the first `uint16_t(w_length)` bytes of the write buffer and returns OUTPUT_COMPLETE |
| Device.DriveByte | src/main.c:82-109 | The unrolled bit loop drives the eight bits of a byte as Manchester half-bits, most significant first |
| Device.CollisionNeverRaised | src/main.c:87 | C's logical `&&` yields 0 or 1, so the collision test against 42 never holds and the collision branch is dead |
| Device.Recorded | src/main.c:164-170 | `k + 1` timestamps record `k` widths, one per gap |
| Device.ReceiveSpec | src/main.c:129-176 | A quiet line with the write buffer handed over gives SOFTWARE_RESET, and a quiet line otherwise gives no result. A carrier records at most `maxLen` widths. A length is reported, and is below `maxLen`, exactly when the status is INPUT_COMPLETE |
| Device.ReceivePacket | src/main.c:129-176 | `receive_packet` returns the status of `ReceiveSpec`, writes its widths at the start of the read buffer, and sets `r_received_length` only on INPUT_COMPLETE |
| Device.Record | src/main.c:150-175 | The width loop completes iff fewer than `maxLen` transitions come before the timeout. Then it has stored every gap including the timeout gap; otherwise it stored `maxLen` gaps and reports overrun |
| Device.RecordedSpacing | src/main.c:164-171 | Timestamps spaced by twice the given widths (modulo 2^32) record exactly those widths |
| Device.CapturedFrameDecodes | src/main.c:129-176 | A carrier timed by the half-bit runs of a frame sent with its CRC makes `receive_packet` complete iff its transitions fit `r_max_length`, and then the `r_received_length` durations it leaves at the front of the read buffer decode back to that frame on the host |
| Device.DeviceStep | src/main.c:37-60 | One firmware loop pass always returns the write buffer to the host with OUTPUT_COMPLETE after sending exactly its committed bytes. It returns the read buffer iff a packet (not a reset) ended, with that status. It never touches a read buffer the host owns, nor the write buffer's contents. It sets the truncation flag iff the host owns the read buffer and the input pin is low, and otherwise leaves the flag as it was |
| Device.Step | src/main.c:37-60 | The firmware pass on the interface block changes its view exactly as `DeviceStep` says and keeps the block well-formed |
| Device.ReceiveHalf | src/main.c:38-51 | The receive half of a pass changes the block exactly as `ReadSide` says: receive and hand back while the coprocessor owns the read buffer, otherwise flag truncation on a low pin |
| Device.ReceiveOwned | src/main.c:38-47 | While the coprocessor owns the read buffer, `receive_packet` and the hand-back change the block exactly as `ReadSide` says |
| Device.SendHalf | src/main.c:52-58 | The send half of a pass changes the block exactly as `WriteSide` says and returns the levels driven, if any |
| Iface.Low16 | src/main.c:66 | A 32-bit length read into a `uint16_t` is below 2^16 and no larger than the field |
| Gateway.Arrived | src/gateway.c:291 | After `recvfrom`, `udpBuf` starts with the datagram's first two bytes |
| Gateway.OutboundFrame | src/gateway.c:297-302 | The frame copied to the coprocessor has `2w + 2` bytes for a header word count `w` |
| Gateway.OutboundFrameChecks | src/gateway.c:297-303 | Every committed frame has an even length of at most 564 bytes and a CRC of zero |
| Gateway.WordCountExcludesCrc | src/gateway.c:271 | For an even frame of `n >= 2` bytes the broadcast header counts `(n - 2) / 2` words, leaving out the CRC word |
| Gateway.BroadcastRecommits | src/gateway.c:271-302 | A frame the gateway broadcasts, fed back to it, is committed again unchanged: the word count and the appended CRC reproduce it |
| Gateway.FrameOfPayload | src/gateway.c:297-302 | A datagram whose count matches its payload commits the payload followed by its CRC |
| Gateway.RecvStep | src/gateway.c:230-277 | `recvFromAlto` clears the truncation flag. It returns the read buffer and counts a packet iff the status is INPUT_COMPLETE and the length fits. Every counted packet is either bad or broadcast. A broadcast is the word-count header and the decoded frame. No write-side field changes |
| Gateway.SendStep | src/gateway.c:281-317 | `sendToAlto` commits iff the host owns the write buffer and `recvfrom` succeeded. It then hands the buffer over with a length equal to the frame, an even frame with CRC zero. Nothing else changes, and nothing at all when it does not commit |
| Gateway.HostPass | src/gateway.c:174-224 | One loop pass keeps the host's buffers at their sizes; what a pass does is proved about it in `HostHandsOver`, `HostCommitsChecked`, `HostBroadcastsDecoded` and `HostStallPersists` |
| Gateway.HostHandsOver | src/gateway.c:179-223 | A host pass never takes back a buffer the coprocessor owns, never writes the read buffer, and leaves a write buffer the coprocessor owns untouched |
| Gateway.HostCommitsChecked | src/gateway.c:179-223 | A host pass commits a frame only when it owned the write buffer, and then hands it over holding exactly that frame, even, at most 564 bytes, CRC zero |
| Gateway.HostBroadcastsDecoded | src/gateway.c:211-216 | A host pass broadcasts only frames decoded from a read buffer the coprocessor handed back with INPUT_COMPLETE, and counts nothing while the coprocessor owns the read buffer |
| Gateway.HostStallPersists | src/gateway.c:236-239 | Once the host owns the read buffer with a status other than INPUT_COMPLETE (or an oversized length), no host pass returns it or broadcasts |
| Gateway.Host.constructor | src/gateway.c:142-148 | Start-up hands the read buffer to the coprocessor with the full 12K limit and keeps the write buffer |
| Gateway.Host.RecvFromAlto | src/gateway.c:230-277 | The handler updates the host's state exactly as `RecvStep` says |
| Gateway.Host.Accept | src/gateway.c:245-276 | An accepted packet copies the widths to `durationBuf`, returns the read buffer, counts it (and counts it bad when decoding fails), and leaves `udpBuf` as decoding and the header write leave it |
| Gateway.Host.SendToAlto | src/gateway.c:281-317 | The handler updates the host's state exactly as `SendStep` says |
| Gateway.Host.Commit | src/gateway.c:291-316 | The datagram is read into `udpBuf`, its CRC is appended behind the counted words, and exactly that frame is copied to the write buffer and handed over |
| Gateway.Host.Iteration | src/gateway.c:174-224 | One pass of the main loop updates the host's state exactly as `HostPass` says |
| Gateway.Broadcast | src/gateway.c:251-274 | A datagram is sent iff decoding succeeds, and carries the decoded frame behind its two header bytes |
| Gateway.BroadcastFromBuffer | src/gateway.c:271-274 | The bytes sent are the first `n + 2` bytes of `udpBuf` after decoding and writing the header |
| Gateway.DecodeAndFrame | src/gateway.c:251-273 | Decoding plus the header write produce `Broadcast` of the widths and leave `udpBuf` as `AfterReceive` says |
| Gateway.PutHeader | src/gateway.c:271-273 | The word count is written big-endian into the first two bytes, in front of the decoded frame |
| Gateway.AppendCrc | src/gateway.c:297-301 | The CRC of the counted words is written right behind them, giving the outbound frame at offset 2 |
| Gateway.PayloadCrc | src/gateway.c:298 | The CRC is taken over the `2w` bytes after the header |
| Gateway.CopyFrom | src/gateway.c:245 | `memcpy` copies the given range into the front of the destination and leaves the rest |
| Gateway.ReadDatagram | src/gateway.c:291 | `recvfrom` stores the datagram at the front of `udpBuf`, up to its size |
| Handshake.Next | src/main.c:37-60 | A host pass or a firmware pass keeps the buffers at their sizes and adds at most two records to the logs of committed, sent and broadcast frames |
| Handshake.InitialConsistent | src/gateway.c:142-148 | The start-up state is consistent: nothing committed, nothing sent |
| Handshake.HostKeepsConsistent | src/gateway.c:174-224 | A host pass keeps the hand-over invariant |
| Handshake.DeviceKeepsConsistent | src/main.c:53-59 | A firmware pass keeps the hand-over invariant |
| Handshake.NextConsistent | src/main.c:37-60 | Every admissible step keeps the hand-over invariant |
| Handshake.RunConsistent | src/main.c:37-60 | Every admissible interleaving of host and firmware passes keeps the hand-over invariant |
| Handshake.WireCarriesCommitted | src/gateway.c:281-317 | From start-up, in any interleaving, the k-th frame on the wire is the line encoding of the k-th committed frame, whose CRC is zero. At most one committed frame is still unsent, and one is exactly when the coprocessor owns the write buffer |
| Handshake.BuffersExclusive | src/gateway.c:179-181 | In every step, a write buffer the coprocessor owns is not changed by the host. The firmware never changes the write buffer and sends iff it owns it. The host never changes the read buffer and broadcasts only from a read buffer it owns. The firmware leaves a read buffer the host owns alone |
| Handshake.StallIsPermanent | src/gateway.c:236-239 | Once the read buffer is back with the host under a status other than INPUT_COMPLETE, no interleaving ever returns it or broadcasts again |
| Handshake.HandBackAsWritten | src/main.c:43-44 | The firmware's hand-back as written: the intermediate state already shows the host owner with the previous status |
| Handshake.HandBack | src/main.c:43-44 | The corrected hand-back: the status is stored first, and the intermediate state still shows the coprocessor as owner |
| Handshake.StaleStatusAccepted | src/main.c:43-44 | After a complete packet the host accepted, any carrier with at least `r_max_length` transitions overruns; the intermediate as-written state then shows the host as owner with the stale INPUT_COMPLETE and the stale length, and `recvFromAlto` accepts it, counts it and re-arms |
| Handshake.OverrunStalls | src/main.c:38-47 | A carrier with at least `r_max_length` transitions, while the coprocessor owns the read buffer, hands the buffer back with INPUT_OVERRUN, a state `recvFromAlto` turns away for good |
| Handshake.HandBackHidden | src/main.c:43-44 | With the status stored first, a host pass that sees the intermediate state neither broadcasts nor counts, and the final state is the firmware's receive result |
| EtherNet.HexCharToInt | src/etherNet.c:369-380 | A character is accepted iff it is a hex digit in either case, and its value is the digit's value |
| EtherNet.HexRoundTrip | src/etherNet.c:369-380 | Every digit value, written in either case, is read back as that value |
| EtherNet.FormatHex | src/etherNet.c:390 | The echo-string format: two hex digits per byte, each in the case chosen for it (the echo string mixes `C0` and `6d`), separated by spaces, `3n - 1` characters |
| EtherNet.ParseFormat | src/etherNet.c:392-396 | Parsing a formatted byte string gives back the bytes, whatever the case of each digit |
| EtherNet.GroupReads | src/etherNet.c:394-395 | Each three-character group of a formatted string reads as its byte, in either case |
| EtherNet.PairReads | src/etherNet.c:394-395 | Two hex digits, each in either case, read as the byte `16 hi + lo` |
| EtherNet.EchoTextParses | src/etherNet.c:390-396 | The built-in echo string parses into fourteen bytes |
| EtherNet.EchoFrameChecks | src/etherNet.c:397-410 | For an even byte count the echo frame is the bytes, the first two cleared, followed by their CRC, so its CRC is zero; for an odd count the last byte is left out of the CRC and only its high byte is sent |
| EtherNet.EchoPacketChecks | src/etherNet.c:383-410 | The built-in echo packet goes out as 16 bytes starting with two zero bytes and ending with its own CRC, so its CRC is zero |
| EtherNet.CommandCountsCrcWord | src/etherNet.c:217 | The command variant's word count is the gateway's plus one; for an even frame it is half the byte count, CRC word included |
| EtherNet.CommandBroadcastMatches | src/etherNet.c:199-221 | The command variant broadcasts exactly when the gateway would, the same bytes behind a word count one larger |
| EtherNet.CommandBroadcastRecommits | src/etherNet.c:217-255 | A frame the command variant broadcasts, fed back to it, is committed with two zero bytes appended, because its count includes the CRC word |
| EtherNet.CommandDecodeAndFrame | src/etherNet.c:199-219 | Decoding plus the header write produce `CommandBroadcast` of the widths |
| EtherNet.CommandHost.constructor | src/etherNet.c:107-114 | Start-up allocates the host's buffers with no packet counted |
| EtherNet.CommandHost.EnableRecv | src/etherNet.c:166-170 | Reception is armed: the read buffer offset, the 12K limit and the RECV command |
| EtherNet.CommandHost.RecvFromAlto | src/etherNet.c:173-223 | A bad status copies and decodes the widths for diagnosis and counts nothing. A length beyond 12K is dropped untouched. Otherwise the widths are copied, reception is re-armed, the packet is counted (and counted bad when decoding fails), and the broadcast is `CommandBroadcast` |
| EtherNet.CommandHost.Diagnose | src/etherNet.c:177-189 | The bad-status path copies the widths and leaves the decoder's bytes in `udpBuf` |
| EtherNet.CommandHost.Accept | src/etherNet.c:196-221 | An accepted packet is copied, re-armed, counted and broadcast with the command word count |
| EtherNet.CommandHost.SendToAlto | src/etherNet.c:239-273 | A received datagram is committed with its CRC appended, with the write offset, its length and the SEND command; a failed `recvfrom` changes nothing |
| EtherNet.CommandHost.Iteration | src/etherNet.c:137-161 | Each pass re-arms reception. It commits iff the socket delivered a datagram: the write buffer then holds that frame over its old contents, with `w_buf`, the length and SEND; otherwise the write buffer and `w_buf`, `w_length` and `w_command` are unchanged, so no stray SEND is issued. When the coprocessor signalled, `recvFromAlto`'s three cases follow on the `udpBuf` the socket's half left (`AfterSocket`): a bad status decodes for diagnosis without counting, an oversized length changes nothing, and an accepted packet is counted and broadcast behind the header the socket's frame left. Without a signal nothing is counted or broadcast and `durationBuf` is unchanged |
| EtherNet.CommandHost.HandleSocket | src/etherNet.c:151-155 | The socket branch leaves `udpBuf` as `AfterSocket` says and commits iff `recvfrom` succeeded, exactly the outbound frame, placed in the write buffer with `w_buf`, the length and SEND; without a commit the write side and `w_command` are unchanged |
| EtherNet.CommandHost.SendEchoPacket | src/etherNet.c:383-423 | The echo packet is sent iff the string parses. The write buffer then holds the echo frame of the parsed bytes, with its length and the SEND command; otherwise nothing changes |
| EtherNet.CommandHost.SendParsed | src/etherNet.c:397-423 | Once the parsed bytes are at the front of the buffer, the write buffer holds the echo frame, with its length, the write offset and the SEND command |
| EtherNet.ParseInto | src/etherNet.c:392-396 | The parse loop succeeds iff every group is two hex digits, and then stores the parsed bytes at the front of the buffer and leaves the rest untouched; the text is a C string, with no NUL before its end |
| EtherNet.AppendEchoCrc | src/etherNet.c:397-409 | Clearing the first two bytes and writing the CRC of the whole words behind the parsed bytes gives `EchoBuffer`; the frame length is the byte count rounded down to words after adding two |

## Left out

- Logging, LEDs, `printf` output, command-line flags and socket and
  `prussdrv` set-up are left out. None of them affects the shared state or
  the bytes sent.
- `select`, `recvfrom`, `sendto` and the coprocessor's event are inputs of
  each pass (`Wakeup`, `Datagram`) or outputs (the broadcast datagram).
  Blocking and the 5-second timeout of the gateway loop are not modelled: a
  timed-out pass is a pass with nothing ready.
- The line's physical timing and the firmware's busy-waits are abstracted
  as a `Line`: quiet, or a carrier with its transition timestamps. The
  PWM/IEP timer set-up (`init_pwm`, `init_iep_timer`, `wait_for_pwm_timer`)
  is not part of this model.
- The two sides run as an interleaving of whole host passes and whole
  firmware passes. Finer interleavings are covered only for the hand-back
  order at main.c:43-44 (see Findings).
- The firmware's `r_truncated` flag for data arriving while the host owns
  the read buffer is modelled as an input (`pinLow`). The host clears it.
- `bitBuf` holds 8 × 564 levels in the C code. The model keeps the levels
  in a sequence of up to two per width plus one, without that bound. The
  frames of 282 bytes or more overrun the C buffer (see Findings).
- Gateway.SendStep: requires that the word count `sendToAlto` reads from
  `udpBuf` after `recvfrom` fits `byteBuf` (at most 281 words,
  `DatagramFits` / `SendFits`). A larger count makes the C code write the
  CRC past the buffer, which is undefined behaviour. A datagram of fewer
  than two bytes is covered: its count comes partly or wholly from what
  `udpBuf` held before.
- Gateway.HostPass: requires that same bound on the count read in the
  pass, after `recvFromAlto` has run (`IncomingFits`). Gateway.Host.SendToAlto
  requires `SendFits`, Gateway.Host.Iteration requires `IncomingFits`, and
  the interleavings of Handshake require it of every host step
  (`AllAdmissible`).
- EtherNet.CommandHost.SendToAlto: requires the same bound (`DatagramFits`)
  on the count read from `udpBuf`, for the same reason; so do
  EtherNet.CommandHost.HandleSocket and EtherNet.CommandHost.Iteration,
  where the socket is handled first.
- EtherNet.CommandHost.RecvFromAlto: requires that, on a bad status, the
  reported length fits the 12K buffers. The C code then copies without a
  bound check, which is undefined behaviour beyond 12K.
- EtherNet.CommandHost.Iteration: carries the same requirement for a pass
  on which the coprocessor signalled.
- Gateway.Host.RecvFromAlto: `packetCount` and `badPacketCount` are
  unbounded integers. The C `int` counters would overflow after 2^31
  packets.
- EtherNet.CommandHost.SendEchoPacket: a bad hex character makes the C
  code print and `exit`. The model returns `false` and sends nothing. The
  caller passes the string and the `malloc`ed buffer (its contents are
  arbitrary).
- EtherNet.ParseInto and EtherNet.CommandHost.SendEchoPacket: require the
  text to hold no NUL. The C code reads a C string up to `strlen`, so a
  NUL can only be its terminator.
- The firmware that speaks etherNet.c's command protocol (`r_command`,
  `w_command`) is not part of this model. Only the host side of that
  protocol is modelled. `sendTestToAlto` and `halt` (etherNet.c:225-236,
  342-346) are debugging helpers that `main` never calls, so they are left
  out too.
- etherNet.c's loop waits on the coprocessor's event inside `recvFromAlto`
  and `sendToAlto` (`prussdrv_pru_wait_event`). The model treats a
  signalled pass as one whose event has arrived.

## Findings

| source | as written | input that shows it | evidently intended | confidence | as-written member | corrected member |
|---|---|---|---|---|---|---|
| src/main.c:43-44 | The firmware sets `r_owner = OWNER_ARM` before it stores `r_status`, so the host can see the buffer handed back while the status is still the previous one | Read buffer previously handed back with INPUT_COMPLETE and a length the host accepted. The firmware then receives a carrier with at least `r_max_length` transitions, an overrun, and writes the owner first. A host pass in between sees INPUT_COMPLETE and the old length, and counts and decodes the packet | Store the status, then the owner, so the host never sees a hand-back without its status | medium, not executed | Handshake.StaleStatusAccepted | Handshake.HandBackHidden |
| src/gateway.c:60 | `bitBufLen` is `8 * MAX_PUP_LENGTH`, 4512 levels, but `decode` writes two levels per bit, sixteen per byte, and the sync level | A 280-byte message followed by its CRC: the decoder accepts the 282-byte frame and writes 4513 levels, one past the buffer; every accepted frame of 282 to 563 bytes overruns it | A level buffer with room for every level written: two per recorded width plus the padding level, which covers the sixteen levels per byte the comment at gateway.c:50 names (`Timing.AcceptedLevelsFit`) | high, not executed | LineCode.BitBufOverrun | Timing.ToLevels |
