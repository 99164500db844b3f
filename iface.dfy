/** The interface block shared by the host and the coprocessor (`struct
    iface` in iface.h, plus the two ownership fields and the truncation
    flag that gateway.c and main.c use), and the two shared-memory buffers
    it points at. */
module Iface {
  import opened Common

  // Status words (iface.h)
  const StatusInputComplete := 0 * 0x100
  const StatusOutputComplete := 1 * 0x100
  const StatusInputOverrun := 2 * 0x100
  const StatusLoadOverflow := 3 * 0x100
  const StatusZeroLength := 4 * 0x100
  const StatusSoftwareReset := 5 * 0x100
  const StatusBitCollision := 16

  // Commands of the command-based coprocessor protocol (iface.h)
  const CommandNone := 0
  const CommandSend := 1
  const CommandRecv := 2
  const CommandHalt := 3

  /** Offsets of the write and read buffers in the coprocessor's memory. */
  const WritePtrOffset := 0x400
  const ReadPtrOffset := 0x10000

  /** The read buffer: 12K of shared RAM, also the size of the host's
      `durationBuf`. */
  const DurationBufLen := 12 * 1024

  /** The write buffer runs from 0x400 up to the debug area at 0x1000. */
  const WriteBufLen := 0x1000 - WritePtrOffset

  /** Which side may use a buffer. */
  datatype Owner = Pru | Arm

  /** `uint16_t` of a `uint32_t` field, as the coprocessor reads lengths. */
  function Low16(x: Uint32): (r: nat)
    ensures r < 0x1_0000 && r <= x
  {
    x % 0x1_0000
  }

  /** The part of the interface block and its buffers that the two sides
      hand back and forth, as a value. */
  datatype Shared = Shared(
    rOwner: Owner, rStatus: Uint32, rMaxLength: Uint32, rReceivedLength: Uint32,
    rTruncated: Uint32, readMem: seq<Uint8>,
    wOwner: Owner, wStatus: Uint32, wLength: Uint32, writeMem: seq<bv8>)

  /** The buffers have their sizes, and the lengths the coprocessor reads
      (truncated to 16 bits) stay inside them whenever it may read them. */
  predicate Sized(s: Shared)
  {
    |s.readMem| == DurationBufLen && |s.writeMem| == WriteBufLen &&
    Low16(s.rMaxLength) <= |s.readMem| &&
    (s.wOwner == Pru ==> Low16(s.wLength) <= |s.writeMem|)
  }

  class Block {
    var rCommand: Uint32
    var rMaxLength: Uint32
    var rReceivedLength: Uint32
    var rBuf: Uint32
    var rStatus: Uint32
    var wCommand: Uint32
    var wLength: Uint32
    var wBuf: Uint32
    var wStatus: Uint32
    var rOwner: Owner
    var wOwner: Owner
    var rTruncated: Uint32

    /** The buffer `r_buf` points at: durations recorded by the coprocessor. */
    const readMem: array<Uint8>
    /** The buffer `w_buf` points at: the frame the coprocessor sends. */
    const writeMem: array<bv8>

    /** The two buffers are distinct, and the block is `Sized`. */
    predicate Valid()
      reads this
    {
      readMem.Length == DurationBufLen && writeMem.Length == WriteBufLen &&
      readMem as object != writeMem &&
      Low16(rMaxLength) <= readMem.Length &&
      (wOwner == Pru ==> Low16(wLength) <= writeMem.Length)
    }

    /** The shared state as a value. */
    function View(): (s: Shared)
      reads this, readMem, writeMem
      ensures Valid() ==> Sized(s)
    {
      Shared(rOwner, rStatus, rMaxLength, rReceivedLength, rTruncated, readMem[..],
             wOwner, wStatus, wLength, writeMem[..])
    }

    /** A block over the two buffers with every field zero; the host's
        start-up then sets the fields it relies on. */
    constructor (rm: array<Uint8>, wm: array<bv8>)
      requires rm.Length == DurationBufLen && wm.Length == WriteBufLen && rm as object != wm
      ensures Valid() && readMem == rm && writeMem == wm
      ensures rOwner == Arm && wOwner == Arm && rMaxLength == 0
    {
      readMem, writeMem := rm, wm;
      rCommand, rMaxLength, rReceivedLength, rBuf, rStatus := 0, 0, 0, 0, 0;
      wCommand, wLength, wBuf, wStatus := 0, 0, 0, 0;
      rOwner, wOwner, rTruncated := Arm, Arm, 0;
    }
  }
}
