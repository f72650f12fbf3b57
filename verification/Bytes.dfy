/** Bytes, 512-byte sectors and the little-endian fields stored in them. */
module Bytes {

  type Byte = b: int | 0 <= b < 256

  const SECTOR_SIZE := 512

  type Sector = s: seq<Byte> | |s| == SECTOR_SIZE
    witness seq(SECTOR_SIZE, _ => 0)

  /** A cleared sector. */
  function Zero(): Sector { seq(SECTOR_SIZE, _ => 0) }

  const UINT16 := 0x1_0000
  const UINT32 := 0x1_0000_0000

  /** The number made of two bytes, the lowest first. */
  function Two(b0: int, b1: int): int { b0 + 0x100 * b1 }

  /** The number made of four bytes, the lowest first. */
  function Four(b0: int, b1: int, b2: int, b3: int): int { b0 + 0x100 * b1 + 0x1_0000 * b2 + 0x100_0000 * b3 }

  /** The 16-bit little-endian field at `off`. */
  function GetB16(s: seq<Byte>, off: nat): (v: nat)
    requires off + 2 <= |s|
    ensures v < UINT16
  {
    var b0: int, b1: int := s[off], s[off + 1];
    b0 + 256 * b1
  }

  /** The 32-bit little-endian field at `off`. */
  function GetB32(s: seq<Byte>, off: nat): (v: nat)
    requires off + 4 <= |s|
    ensures v < UINT32
  {
    var b0: int, b1: int, b2: int, b3: int := s[off], s[off + 1], s[off + 2], s[off + 3];
    b0 + 256 * b1 + 0x1_0000 * b2 + 0x100_0000 * b3
  }

  function Le16(v: nat): (bs: seq<Byte>)
    ensures |bs| == 2
  {
    [v % 256, v / 256 % 256]
  }

  function Le32(v: nat): (bs: seq<Byte>)
    ensures |bs| == 4
  {
    [v % 256, v / 256 % 256, v / 0x1_0000 % 256, v / 0x100_0000 % 256]
  }

  /** `s` with `bs` copied over it at `off`: what memCpy into a buffer does. */
  function Splice<T>(s: seq<T>, off: nat, bs: seq<T>): (r: seq<T>)
    requires off + |bs| <= |s|
    ensures |r| == |s|
    ensures forall i :: 0 <= i < |s| ==> r[i] == if off <= i < off + |bs| then bs[i - off] else s[i]
  {
    s[..off] + bs + s[off + |bs|..]
  }

  lemma Le16RoundTrip(s: seq<Byte>, off: nat, v: nat)
    requires off + 2 <= |s| && v < UINT16
    ensures GetB16(Splice(s, off, Le16(v)), off) == v
  {
    var r := Splice(s, off, Le16(v));
    assert r[off] == v % 256 && r[off + 1] == v / 256 % 256;
  }

  lemma Le32RoundTrip(s: seq<Byte>, off: nat, v: nat)
    requires off + 4 <= |s| && v < UINT32
    ensures GetB32(Splice(s, off, Le32(v)), off) == v
  {
    var r := Splice(s, off, Le32(v));
    assert r[off] == v % 256 && r[off + 1] == v / 256 % 256;
    assert r[off + 2] == v / 0x1_0000 % 256 && r[off + 3] == v / 0x100_0000 % 256;
    assert v / 0x1_0000 == v / 256 / 256 && v / 0x100_0000 == v / 256 / 256 / 256;
  }

  lemma Low16(v: nat)
    ensures v % 256 + 256 * (v / 256 % 256) == v % UINT16
  {
  }

  /** A return value of type eint16. */
  function Int16(x: int): (r: int)
    ensures -0x8000 <= r < 0x8000 && (x - r) % 0x1_0000 == 0
  {
    var m := x % UINT16;
    if m < 0x8000 then m else m - UINT16
  }
}
