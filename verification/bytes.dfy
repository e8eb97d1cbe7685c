/** Fixed-width unsigned integers as bounded ints, and the big-endian
    16-bit encoding shared by the checksum and the Echo header. */
module Bytes {

  type byte = x: int | 0 <= x < 0x100
  type u16 = x: int | 0 <= x < 0x1_0000
  type u32 = x: int | 0 <= x < 0x1_0000_0000

  const TwoTo16: nat := 0x1_0000
  const TwoTo32: nat := 0x1_0000_0000

  /** The option type used for partial decoders. */
  datatype Option<T> = None | Some(value: T)

  /** `n` zero bytes, the contents of a freshly made Go byte slice. */
  function Zeros(n: nat): (z: seq<byte>)
    ensures |z| == n
    ensures forall i :: 0 <= i < n ==> z[i] == 0
  {
    seq(n, _ => 0)
  }

  /** The two network-order bytes of a 16-bit value. */
  function BigEndian16(v: u16): (b: seq<byte>)
    ensures |b| == 2
    ensures b[0] as int * 256 + b[1] == v
  {
    [v / 256, v % 256]
  }

  /** The 16-bit value read from two network-order bytes. */
  function ReadBigEndian16(hi: byte, lo: byte): (v: u16)
    ensures BigEndian16(v) == [hi, lo]
  {
    hi as int * 256 + lo
  }

  /** `2^n`. */
  function Pow2(n: nat): (p: nat)
    ensures p >= 1
  {
    if n == 0 then 1 else 2 * Pow2(n - 1)
  }

  /** `x ^ (1 << k)` for an unsigned value `x` of `width` bits: bit `k` is
      inverted and every other bit is kept. */
  function FlipBitOf(x: nat, k: nat, width: nat): (y: nat)
    requires k < width && x < Pow2(width)
    ensures y < Pow2(width)
    ensures y == x + Pow2(k) || y == x - Pow2(k)
    decreases k
  {
    if k == 0 then (if x % 2 == 1 then x - 1 else x + 1)
    else x % 2 + 2 * FlipBitOf(x / 2, k - 1, width - 1)
  }

  /** A byte with one bit inverted. */
  function FlipBit(x: byte, k: nat): (y: byte)
    requires k < 8
    ensures y == x + Pow2(k) || y == x - Pow2(k)
  {
    assert Pow2(8) == 256;
    FlipBitOf(x, k, 8)
  }
}
