/** The Internet checksum as `ComputeChecksum` in ping.go computes it: the
    one's-complement sum of big-endian 16-bit words kept in a 32-bit
    accumulator, end-around carry folding, and a final complement.

    The trailing byte of an odd-length message is added as a LOW-order value
    (the sample C code of section 4.1 of RFC 1071), not padded on the right
    into a high-order byte as section 1 of RFC 1071 describes. */
module InternetChecksum {
  import opened Bytes

  /** Messages up to this many bytes (65536 words) cannot wrap the 32-bit
      accumulator: 65536 * 0xFFFF < 2^32. */
  const NoWrapLength: nat := 0x2_0000

  /** The unbounded sum the two summing loops add up: big-endian words
      from the front, then a trailing odd byte as a low-order value. */
  function WordSum(d: seq<byte>): nat
    decreases |d|
  {
    if |d| == 0 then 0
    else if |d| == 1 then d[0]
    else d[0] as int * 256 + d[1] + WordSum(d[2..])
  }

  /** The `i`-th big-endian 16-bit word of `d`. */
  function WordAt(d: seq<byte>, i: nat): u16
    requires 2 * i + 1 < |d|
  {
    d[2 * i] as int * 256 + d[2 * i + 1]
  }

  /** Reference definition: the sum of the first `k` words, by index. */
  function SumOfWords(d: seq<byte>, k: nat): nat
    requires 2 * k <= |d|
  {
    if k == 0 then 0 else SumOfWords(d, k - 1) + WordAt(d, k - 1)
  }

  /** Go's `uint32` addition, which wraps at 2^32. */
  function AddU32(a: u32, b: nat): u32
  {
    (a + b) % TwoTo32
  }

  /** The `uint32` accumulator after both summing loops. */
  function Accumulator(d: seq<byte>): u32
  {
    AddU32(0, WordSum(d))
  }

  /** Adding the high 16 bits into the low 16 bits until no carry is left.
      Each step keeps the value modulo 0xFFFF (because 0x10000 is 1 modulo
      0xFFFF), and only zero folds to zero. */
  function Fold(s: nat): (r: nat)
    ensures r <= 0xFFFF
    ensures r % 0xFFFF == s % 0xFFFF
    ensures r == 0 <==> s == 0
    decreases s
  {
    if s / TwoTo16 == 0 then s
    else
      FoldStep(s);
      Fold(s % TwoTo16 + s / TwoTo16)
  }

  /** One carry-fold step: smaller, same residue modulo 0xFFFF, still non-zero. */
  lemma FoldStep(s: nat)
    requires s / TwoTo16 != 0
    ensures s % TwoTo16 + s / TwoTo16 < s
    ensures (s % TwoTo16 + s / TwoTo16) % 0xFFFF == s % 0xFFFF
    ensures s % TwoTo16 + s / TwoTo16 > 0
  {
    var q, r := s / TwoTo16, s % TwoTo16;
    assert s == 0xFFFF * q + (q + r);
    ModMultipleAdd(q, q + r, 0xFFFF);
  }

  /** `(m*q + x) % m == x % m`. */
  lemma ModMultipleAdd(q: nat, x: nat, m: nat)
    requires m > 0
    ensures (m * q + x) % m == x % m
  {
    var y := m * q + x;
    var a, b := x / m, x % m;
    assert x == m * a + b;
    assert y == m * (q + a) + b;
    DivModUnique(y, m, q + a, b);
  }

  /** Euclidean division is unique. */
  lemma DivModUnique(y: nat, m: nat, q: nat, r: nat)
    requires m > 0 && 0 <= r < m && y == m * q + r
    ensures y % m == r && y / m == q
  {
    var q0, r0 := y / m, y % m;
    assert y == m * q0 + r0;
    if q0 > q {
      assert m * q0 >= m * (q + 1) by { MulMonotone(m, q + 1, q0); }
      assert false;
    } else if q0 < q {
      assert m * q >= m * (q0 + 1) by { MulMonotone(m, q0 + 1, q); }
      assert false;
    }
  }

  lemma MulMonotone(m: nat, a: nat, b: nat)
    requires a <= b
    ensures m * a <= m * b
  {
  }

  /** `((a % m) + b) % m == (a + b) % m`. */
  lemma ModAddAbsorb(a: nat, b: nat, m: nat)
    requires m > 0
    ensures (a % m + b) % m == (a + b) % m
  {
    assert a == m * (a / m) + a % m;
    ModMultipleAdd(a / m, a % m + b, m);
  }

  /** Wrapping additions may be regrouped. */
  lemma AddU32Regroup(a: u32, b: nat, c: nat)
    ensures AddU32(AddU32(a, b), c) == AddU32(a, b + c)
  {
    ModAddAbsorb(a + b, c, TwoTo32);
  }

  /** The checksum `ComputeChecksum` returns: the low 16 bits of the
      complement of the folded accumulator. */
  function Checksum(d: seq<byte>): u16
  {
    0xFFFF - Fold(Accumulator(d))
  }

  /** Go's `uint16(^sum)`: the 32-bit complement truncated to 16 bits. */
  function Complement16(s: u32): u16
  {
    (TwoTo32 - 1 - s) % TwoTo16
  }

  /** On a folded value the truncated complement is `0xFFFF - s`. */
  lemma ComplementOfFolded(s: u32)
    requires s <= 0xFFFF
    ensures Complement16(s) == 0xFFFF - s
  {
    DivModUnique(TwoTo32 - 1 - s, TwoTo16, 0xFFFF, 0xFFFF - s);
  }

  /** The loop-based algorithm of ping.go, proved equal to `Checksum`. */
  method ComputeChecksum(data: seq<byte>) returns (c: u16)
    ensures c == Checksum(data)
  {
    var sum: u32 := 0;
    var length: int := |data|;
    var cur: nat := 0;
    // Add each 16-bit word to the accumulator, wrapping at 2^32.
    while length > 1
      invariant cur + length == |data| && length >= 0
      invariant AddU32(sum, WordSum(data[cur..])) == Accumulator(data)
    {
      var w := data[cur] as int * 256 + data[cur + 1];
      assert data[cur..][2..] == data[cur + 2..];
      AddU32Regroup(sum, w, WordSum(data[cur + 2..]));
      sum := AddU32(sum, w);
      cur := cur + 2;
      length := length - 2;
    }
    // An odd trailing byte is added unshifted.
    if length > 0 {
      assert data[cur..] == [data[cur]];
      sum := AddU32(sum, data[cur]);
    } else {
      assert data[cur..] == [];
    }
    AddU32Zero(sum);
    ghost var acc := sum;
    // Fold the carries end-around.
    while sum / TwoTo16 != 0
      invariant Fold(sum) == Fold(acc)
      decreases sum
    {
      FoldStep(sum);
      sum := sum % TwoTo16 + sum / TwoTo16;
    }
    ComplementOfFolded(sum);
    c := Complement16(sum);
  }

  /** Adding nothing leaves a `uint32` value unchanged. */
  lemma AddU32Zero(a: u32)
    ensures AddU32(a, 0) == a
  {
  }

  /** The sum of the summing loops is the indexed sum of the whole words
      plus the unshifted trailing byte of an odd-length message. */
  lemma {:induction false} WordSumIsSumOfWords(d: seq<byte>)
    ensures WordSum(d) == SumOfWords(d, |d| / 2) + (if |d| % 2 == 1 then d[|d| - 1] as int else 0)
  {
    WordSumSplit(d, |d| / 2);
    var t := d[2 * (|d| / 2)..];
    if |d| % 2 == 1 {
      assert t == [d[|d| - 1]];
    } else {
      assert t == [];
    }
  }

  /** After `k` words, the remaining sum is that of the suffix. */
  lemma {:induction false} WordSumSplit(d: seq<byte>, k: nat)
    requires 2 * k <= |d|
    ensures WordSum(d) == SumOfWords(d, k) + WordSum(d[2 * k..])
  {
    if k > 0 {
      WordSumSplit(d, k - 1);
      var t := d[2 * (k - 1)..];
      assert t[2..] == d[2 * k..];
      assert t[0] == d[2 * (k - 1)] && t[1] == d[2 * (k - 1) + 1];
    }
  }

  /** The word sum of an even-length message is additive under concatenation. */
  lemma {:induction false} WordSumAppend(a: seq<byte>, b: seq<byte>)
    requires |a| % 2 == 0
    ensures WordSum(a + b) == WordSum(a) + WordSum(b)
    decreases |a|
  {
    if |a| == 0 {
      assert a + b == b;
    } else {
      assert (a + b)[2..] == a[2..] + b;
      WordSumAppend(a[2..], b);
    }
  }

  /** Zero bytes contribute nothing. */
  lemma {:induction false} WordSumZeros(n: nat)
    ensures WordSum(Zeros(n)) == 0
    decreases n
  {
    if n >= 2 {
      assert Zeros(n)[2..] == Zeros(n - 2);
      WordSumZeros(n - 2);
    }
  }

  /** The accumulator is at most one 0xFFFF per (possibly partial) word. */
  lemma {:induction false} WordSumBound(d: seq<byte>)
    ensures WordSum(d) <= ((|d| + 1) / 2) * 0xFFFF
    decreases |d|
  {
    if |d| >= 2 {
      WordSumBound(d[2..]);
      assert (|d| + 1) / 2 == (|d[2..]| + 1) / 2 + 1;
    }
  }

  /** Without wrap-around: a message of at most `NoWrapLength` bytes (and so
      the 1024-byte receive buffer) never carries the 32-bit accumulator
      past 2^32. */
  lemma NoWrap(d: seq<byte>)
    requires |d| <= NoWrapLength
    ensures WordSum(d) <= 0x1_0000 * 0xFFFF
    ensures Accumulator(d) == WordSum(d)
  {
    WordSumBound(d);
    MulMonotone(0xFFFF, (|d| + 1) / 2, 0x1_0000);
  }

  /** The even-length formula: the complement of the folded sum of the
      big-endian words, word `i` being `d[2i] * 256 + d[2i+1]`. */
  lemma EvenLengthChecksum(d: seq<byte>)
    requires |d| % 2 == 0 && |d| <= NoWrapLength
    ensures Checksum(d) == 0xFFFF - Fold(SumOfWords(d, |d| / 2))
  {
    WordSumIsSumOfWords(d);
    NoWrap(d);
  }

  /** The odd-length rule of the code: the trailing byte counts as the LOW
      byte of a final word whose high byte is zero. */
  lemma OddTrailingByteIsLowOrder(d: seq<byte>)
    requires |d| % 2 == 1
    ensures Checksum(d) == Checksum(d[..|d| - 1] + [0, d[|d| - 1]])
  {
    var a, x := d[..|d| - 1], d[|d| - 1];
    assert d == a + [x];
    WordSumAppend(a, [x]);
    WordSumAppend(a, [0, x]);
    assert WordSum([0, x]) == x;
  }

  /** The padding rule of section 1 of RFC 1071: an odd
      trailing byte becomes the HIGH byte of a zero-padded word. */
  function PaddedChecksum(d: seq<byte>): u16
  {
    Checksum(if |d| % 2 == 1 then d + [0] else d)
  }

  /** The two odd-byte rules disagree: the code gives 0xFF54 for the single
      byte 0xAB where right-padding would give 0x54FF. */
  lemma OddByteRulesDiffer()
    ensures Checksum([0xAB]) == 0xFF54
    ensures PaddedChecksum([0xAB]) == 0x54FF
  {
    assert Fold(0xAB) == 0xAB;
    assert [0xAB] + [0] == [0xAB, 0];
    assert WordSum([0xAB, 0]) == 0xAB00;
    assert Fold(0xAB00) == 0xAB00;
  }

  /** The empty message skips both summing loops: 0xFFFF. */
  lemma EmptyChecksum()
    ensures Checksum([]) == 0xFFFF
  {
  }

  /** Carry folding: the words 0xFFFF and 0x0001 fold to 0x0001, so the
      checksum is 0xFFFE. */
  lemma CarryFoldExample()
    ensures Fold(0xFFFF + 0x0001) == 0x0001
    ensures Checksum([0xFF, 0xFF, 0x00, 0x01]) == 0xFFFE
  {
  }

  /** Folding has a closed form: zero stays zero, every other value becomes
      its representative in 1..0xFFFF modulo 0xFFFF. */
  lemma FoldClosedForm(s: nat)
    ensures Fold(s) == if s == 0 then 0 else (s - 1) % 0xFFFF + 1
  {
    if s > 0 {
      var r := Fold(s);
      assert s == 0xFFFF * (s / 0xFFFF) + s % 0xFFFF;
      if r == 0xFFFF {
        DivModUnique(s - 1, 0xFFFF, s / 0xFFFF - 1, 0xFFFE);
      } else {
        DivModUnique(s - 1, 0xFFFF, s / 0xFFFF, r - 1);
      }
    }
  }

  /** The accept test: the checksum is zero exactly when the accumulator is
      a non-zero multiple of 0xFFFF (a one's-complement "negative zero"). */
  lemma ZeroChecksumIff(d: seq<byte>)
    ensures Checksum(d) == 0 <==> (Accumulator(d) != 0 && Accumulator(d) % 0xFFFF == 0)
  {
  }

  /** Adding the complement of the folded sum makes the sum fold to 0xFFFF. */
  lemma ResidualFoldsToAllOnes(s: nat)
    ensures Fold(s + (0xFFFF - Fold(s))) == 0xFFFF
  {
    var f := Fold(s);
    var t := s + (0xFFFF - f);
    var q := s / 0xFFFF - f / 0xFFFF + 1;
    assert s == 0xFFFF * (s / 0xFFFF) + s % 0xFFFF;
    assert f == 0xFFFF * (f / 0xFFFF) + f % 0xFFFF;
    assert t == 0xFFFF * q && q >= 1;
    FoldClosedForm(t);
    DivModUnique(t - 1, 0xFFFF, q - 1, 0xFFFE);
  }

  /** The weight of byte `j` of an `n`-byte message in the word sum: a high
      byte counts 256 times, a low byte or a trailing odd byte once. */
  function ByteWeight(n: nat, j: nat): nat
  {
    if j % 2 == 0 && j + 1 < n then 256 else 1
  }

  /** Replacing one byte changes the word sum by the difference times the
      byte's weight. */
  lemma {:induction false} WordSumUpdate(d: seq<byte>, j: nat, v: byte)
    requires j < |d|
    ensures WordSum(d[j := v]) + d[j] * ByteWeight(|d|, j) == WordSum(d) + v * ByteWeight(|d|, j)
    decreases |d|
  {
    var e := d[j := v];
    if j >= 2 {
      assert e[2..] == d[2..][j - 2 := v];
      WordSumUpdate(d[2..], j - 2, v);
    } else if |d| >= 2 {
      assert e[2..] == d[2..];
    }
  }

  /** Patching a zeroed 16-bit field at an even offset with the checksum of
      the message makes the message checksum to zero. */
  lemma PatchedFieldVerifies(d: seq<byte>, p: nat)
    requires p % 2 == 0 && p + 1 < |d| && |d| <= NoWrapLength
    requires d[p] == 0 && d[p + 1] == 0
    ensures Checksum(d[p := Checksum(d) / 256][p + 1 := Checksum(d) % 256]) == 0
  {
    var c := Checksum(d);
    var d1 := d[p := c / 256];
    var d2 := d1[p + 1 := c % 256];
    assert ByteWeight(|d|, p) == 256 && ByteWeight(|d1|, p + 1) == 1;
    WordSumUpdate(d, p, c / 256);
    assert WordSum(d1) == WordSum(d) + (c / 256) * 256;
    assert d1[p + 1] == 0;
    WordSumUpdate(d1, p + 1, c % 256);
    assert WordSum(d2) == WordSum(d1) + c % 256;
    AddingOwnChecksumVerifies(d, d2);
  }

  /** A message whose sum exceeds another's by that one's checksum
      checksums to zero. */
  lemma AddingOwnChecksumVerifies(d: seq<byte>, e: seq<byte>)
    requires |d| <= NoWrapLength && |e| <= NoWrapLength
    requires WordSum(e) == WordSum(d) + Checksum(d)
    ensures Checksum(e) == 0
  {
    NoWrap(d);
    NoWrap(e);
    ResidualFoldsToAllOnes(WordSum(d));
  }

  /** A message that checksums to zero stops doing so when any single bit
      of it is inverted: the sum moves by a power of two below 0xFFFF, which
      is never a multiple of 0xFFFF. */
  lemma SingleBitFlipDetected(d: seq<byte>, j: nat, k: nat)
    requires j < |d| && k < 8 && |d| <= NoWrapLength
    requires Checksum(d) == 0
    ensures Checksum(d[j := FlipBit(d[j], k)]) != 0
  {
    var v := FlipBit(d[j], k);
    var e := d[j := v];
    var w := ByteWeight(|d|, j);
    WordSumUpdate(d, j, v);
    NoWrap(d);
    NoWrap(e);
    ZeroChecksumIff(d);
    ZeroChecksumIff(e);
    Pow2Byte(k);
    var delta := if w == 256 then Pow2(k) * 256 else Pow2(k);
    assert WordSum(e) == WordSum(d) + delta || WordSum(e) + delta == WordSum(d);
    ShiftBreaksMultiple(WordSum(d), WordSum(e), delta);
  }

  /** Moving a multiple of 0xFFFF by less than 0xFFFF leaves no multiple. */
  lemma ShiftBreaksMultiple(s: nat, t: nat, delta: nat)
    requires s % 0xFFFF == 0 && 1 <= delta < 0xFFFF
    requires t == s + delta || t + delta == s
    ensures t % 0xFFFF != 0
  {
  }

  lemma Pow2Byte(k: nat)
    requires k < 8
    ensures Pow2(k) <= 128
    decreases 8 - k
  {
    if k < 7 {
      Pow2Byte(k + 1);
    } else {
      assert Pow2(7) == 128;
    }
  }

  /** Zero bytes appended to an even-length message do not change its
      checksum, so checking a zero-filled buffer checks its even-length
      prefix. */
  lemma ZeroPaddingKeepsChecksum(d: seq<byte>, n: nat)
    requires |d| % 2 == 0
    ensures Checksum(d + Zeros(n)) == Checksum(d)
  {
    WordSumAppend(d, Zeros(n));
    WordSumZeros(n);
  }
}
