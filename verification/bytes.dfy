/** Unsigned wire integers and their network (big-endian) byte order. */
module Bytes {

  type byte = x: int | 0 <= x < 0x100
  type uint16 = x: int | 0 <= x < 0x1_0000
  type uint32 = x: int | 0 <= x < 0x1_0000_0000

  /** The 16-bit big-endian value stored at `pos`. */
  function Uint16At(b: seq<byte>, pos: nat): uint16
    requires pos + 2 <= |b|
  {
    b[pos] as int * 0x100 + b[pos + 1] as int
  }

  /** The 32-bit big-endian value stored at `pos`. */
  function Uint32At(b: seq<byte>, pos: nat): uint32
    requires pos + 4 <= |b|
  {
    b[pos] as int * 0x100_0000 + b[pos + 1] as int * 0x1_0000 + b[pos + 2] as int * 0x100 + b[pos + 3] as int
  }

  /** A 16-bit field written most-significant byte first. */
  function BigEndian16(x: uint16): (b: seq<byte>)
    ensures |b| == 2 && Uint16At(b, 0) == x
  {
    [x / 0x100, x % 0x100]
  }

  /** A 32-bit field written most-significant byte first. */
  function BigEndian32(x: uint32): (b: seq<byte>)
    ensures |b| == 4 && Uint32At(b, 0) == x
  {
    var b := BigEndian16(x / 0x1_0000) + BigEndian16(x % 0x1_0000);
    assert Uint32At(b, 0) == Uint16At(b, 0) * 0x1_0000 + Uint16At(b, 2);
    assert Uint16At(b, 2) == Uint16At(BigEndian16(x % 0x1_0000), 0);
    b
  }

  /** The `(short)` cast of a non-negative count: its low 16 bits. */
  function Low16(n: nat): (r: uint16)
    ensures r <= n
    ensures n < 0x1_0000 ==> r == n
  {
    n % 0x1_0000
  }

  /** Counts that differ by a multiple of 65536 are written alike: the cast wraps around. */
  lemma Low16Wraps(n: nat, times: nat)
    ensures Low16(n + times * 0x1_0000) == Low16(n)
  {
  }
}
