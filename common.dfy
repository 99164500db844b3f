/** Small shared vocabulary: failure-compatible results, big-endian words and
    the C integer operations the gateway's arithmetic relies on. */
module Common {

  datatype Option<+T> = None | Some(value: T)

  datatype Result<+R, +E> = Success(value: R) | Failure(error: E)

  /** A C `uint8_t` used as a number. */
  type Uint8 = x: int | 0 <= x < 0x100

  /** A C `uint32_t`. */
  type Uint32 = x: int | 0 <= x < 0x1_0000_0000

  /** The two bytes of a 16-bit word, most significant first (network order). */
  function BigEndian(w: bv16): (s: seq<bv8>)
    ensures |s| == 2
    ensures Word(s[0], s[1]) == w
  {
    [(w >> 8) as bv8, (w & 0xff) as bv8]
  }

  /** The 16-bit word whose high byte is `hi` and low byte is `lo`. */
  function Word(hi: bv8, lo: bv8): (w: bv16)
    ensures (w >> 8) as bv8 == hi && (w & 0xff) as bv8 == lo
  {
    ((hi as bv16) << 8) | (lo as bv16)
  }

  /** C's `/` on `int`: the quotient is truncated toward zero. */
  function CDiv(a: int, b: int): (q: int)
    requires b > 0
    ensures a >= 0 ==> q == a / b
    ensures a < 0 ==> q == -((-a) / b)
  {
    if a >= 0 then a / b else -((-a) / b)
  }

  /** The two bytes a C `int` leaves in `buf[0]`, `buf[1]` after
      `buf[0] = v >> 8; buf[1] = v & 0xff;` with `uint8_t` storage: the
      arithmetic shift and the mask keep bits 8-15 and 0-7 of the
      two's-complement value (so -1 gives 0xff, 0xff). */
  function HeaderBytes(v: int): (s: seq<bv8>)
    ensures |s| == 2
  {
    [(v / 0x100 % 0x100) as bv8, (v % 0x100) as bv8]
  }

  /** `(buf[0] << 8) | buf[1]` on C `int`s. */
  function WordValue(hi: bv8, lo: bv8): (w: nat)
    ensures w < 0x1_0000
  {
    hi as nat * 0x100 + lo as nat
  }

  /** The header bytes of a count that fits in 16 bits give it back. */
  lemma HeaderBytesValue(v: nat)
    requires v < 0x1_0000
    ensures WordValue(HeaderBytes(v)[0], HeaderBytes(v)[1]) == v
  {
    var q, r := v / 0x100, v % 0x100;
    assert v == q * 0x100 + r && q < 0x100;
    assert q % 0x100 == q;
    var h := HeaderBytes(v);
    assert h[0] == q as bv8 && h[1] == r as bv8;
    ByteValue(q);
    ByteValue(r);
  }

  lemma ByteValue(x: nat)
    requires x < 0x100
    ensures (x as bv8) as nat == x
  {
    var b := x as bv8;
    assert b as bv16 == x as bv16;
  }

  /** `s` with `w` written over it starting at index `at`. */
  function Overlay<T>(s: seq<T>, at: nat, w: seq<T>): (r: seq<T>)
    requires at + |w| <= |s|
    ensures |r| == |s|
    ensures r[at..at + |w|] == w
  {
    s[..at] + w + s[at + |w|..]
  }

  /** A sequence that agrees with `s` outside `[at, at + |w|)` and holds `w`
      inside it is `Overlay(s, at, w)`. */
  lemma OverlayFrom<T>(s: seq<T>, at: nat, w: seq<T>, r: seq<T>)
    requires at + |w| <= |s| == |r|
    requires r[..at] == s[..at]
    requires r[at..at + |w|] == w
    requires r[at + |w|..] == s[at + |w|..]
    ensures r == Overlay(s, at, w)
  {
    assert r == r[..at] + r[at..at + |w|] + r[at + |w|..];
  }

  /** Writing one more element just past an overlay extends the overlay. */
  lemma OverlayGrow<T>(s: seq<T>, at: nat, w: seq<T>, x: T)
    requires at + |w| < |s|
    ensures Overlay(s, at, w)[at + |w| := x] == Overlay(s, at, w + [x])
  {
  }
}
