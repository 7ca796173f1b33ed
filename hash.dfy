/** The digest behind the puzzle: SHA-256 of the prefix followed by the nonce,
    and the count of leading zero bits of a digest (shared/hash.go). */
module Hash {
  import opened Base
  import Sha256

  // ------------------------------------------------- little-endian encoding

  /** 256 to the power `j`. */
  function Pow256(j: nat): (p: nat)
    ensures p > 0
  {
    if j == 0 then 1 else 256 * Pow256(j - 1)
  }

  /** The lowest `width` bytes of `n`, least significant first, as
      binary.LittleEndian.PutUint64 writes them for width 8. */
  function LittleEndian(n: nat, width: nat): (r: seq<byte>)
    ensures |r| == width
  {
    if width == 0 then [] else [ByteOf(n % 256)] + LittleEndian(n / 256, width - 1)
  }

  lemma MulLe(d: nat, a: int, b: int)
    requires a <= b
    ensures d * a <= d * b
  {
    var e: nat := b - a;
    assert d * b == d * a + d * e;
  }

  lemma DivUnique(n: nat, d: nat, q: nat, r: nat)
    requires d > 0 && r < d && n == d * q + r
    ensures n / d == q
  {
    var q', r' := n / d, n % d;
    assert n == d * q' + r';
    if q' < q {
      assert d * (q' + 1) == d * q' + d;
      MulLe(d, q' + 1, q);
    } else if q < q' {
      assert d * (q + 1) == d * q + d;
      MulLe(d, q + 1, q');
    }
  }

  /** Dividing by `a` and then by `b` is dividing by their product. */
  lemma DivDiv(n: nat, a: nat, b: nat)
    requires a > 0 && b > 0
    ensures n / a / b == n / (a * b)
  {
    var q, r := n / a, n % a;
    var q2, r2 := q / b, q % b;
    var ab := a * b;
    assert n == a * q + r;
    assert q == b * q2 + r2;
    assert a * q == ab * q2 + a * r2 by {
      Distrib(a, b * q2, r2);
      assert a * (b * q2) == ab * q2;
    }
    assert a * r2 + r < ab by {
      MulLe(a, r2, b - 1);
      Distrib(a, b - 1, 1);
    }
    DivUnique(n, ab, q2, a * r2 + r);
  }

  lemma Distrib(a: int, x: int, y: int)
    ensures a * (x + y) == a * x + a * y
  {
  }

  /** Byte `j` of the encoding is bits 8j..8j+7 of `n`, that is
      `byte(n >> 8j)`. */
  lemma {:induction false} LittleEndianByte(n: nat, width: nat, j: nat)
    requires j < width
    ensures LittleEndian(n, width)[j] == ByteOf(n / Pow256(j) % 256)
  {
    if j == 0 {
      assert n / Pow256(0) == n;
    } else {
      LittleEndianByte(n / 256, width - 1, j - 1);
      assert LittleEndian(n, width)[j] == LittleEndian(n / 256, width - 1)[j - 1];
      ShiftByte(n, j);
    }
  }

  /** Shifting right by 8·j bits is shifting by 8 and then by 8·(j - 1). */
  lemma ShiftByte(n: nat, j: nat)
    requires j > 0
    ensures n / 256 / Pow256(j - 1) == n / Pow256(j)
  {
    DivDiv(n, 256, Pow256(j - 1));
  }

  // ----------------------------------------------------------- computeHash

  /** What computeHash hashes: the prefix bytes, then the nonce as 8
      little-endian bytes, byte `j` being `byte(nonce >> 8j)`. */
  function HashInput(prefix: seq<byte>, nonce: uint64): (data: seq<byte>)
    ensures |data| == |prefix| + 8 && data[..|prefix|] == prefix
    ensures forall j | 0 <= j < 8 :: data[|prefix| + j] == ByteOf(nonce / Pow256(j) % 256)
  {
    var nonceBytes := LittleEndian(nonce, 8);
    var data := prefix + nonceBytes;
    assert forall j | 0 <= j < 8 :: data[|prefix| + j] == nonceBytes[j];
    assert forall j | 0 <= j < 8 :: nonceBytes[j] == ByteOf(nonce / Pow256(j) % 256) by {
      forall j | 0 <= j < 8 {
        LittleEndianByte(nonce, 8, j);
      }
    }
    data
  }

  /** computeHash: the SHA-256 digest of HashInput, 32 bytes. */
  function ComputeHash(prefix: seq<byte>, nonce: uint64): (h: seq<byte>)
    ensures |h| == 32
  {
    Sha256.Digest(HashInput(prefix, nonce))
  }

  // ------------------------------------------------------ leading zero bits

  /** The mask of bit `i` of a byte, counting from the most significant (bit 0
      is 0x80); past bit 7 the mask is 0. */
  function Mask(i: nat): byte
  {
    if i == 0 then 0x80 else Mask(i - 1) >> 1
  }

  predicate BitSet(b: byte, i: nat)
    requires i < 8
  {
    b & Mask(i) != 0
  }

  /** Bit `k` of a digest, most significant bit of byte 0 first. */
  predicate HashBit(h: seq<byte>, k: nat)
    requires k < 8 * |h|
  {
    BitSet(h[k / 8], k % 8)
  }

  /** The number of zero bits of `b` from bit `i` up to its first set bit. */
  function ZerosFrom(b: byte, i: nat): (z: nat)
    requires i <= 8
    ensures z <= 8 - i
    decreases 8 - i
  {
    if i == 8 || BitSet(b, i) then 0 else 1 + ZerosFrom(b, i + 1)
  }

  /** The number of leading zero bits of `h`: whole zero bytes count 8 each, and
      the first non-zero byte counts its own leading zeros. */
  function LeadingZeros(h: seq<byte>): (r: nat)
    ensures r <= 8 * |h|
  {
    if h == [] then 0
    else if h[0] == 0 then 8 + LeadingZeros(h[1..])
    else ZerosFrom(h[0], 0)
  }

  /** `c` is the number of leading zero bits of `h` read bit by bit: the first
      `c` bits are zero and the next one, if there is one, is set. */
  predicate IsZeroRun(h: seq<byte>, c: nat) {
    && c <= 8 * |h|
    && (forall k | 0 <= k < c :: !HashBit(h, k))
    && (c < 8 * |h| ==> HashBit(h, c))
  }

  /** countLeadingZeros: the outer loop walks the bytes, adding 8 for each zero
      byte; at the first non-zero byte the inner loop shifts a mask down from
      128 and counts the zero bits above the first set one, and the outer loop
      stops. */
  method CountLeadingZeros(hash: seq<byte>) returns (count: nat)
    ensures count == LeadingZeros(hash)
  {
    count := 0;
    var k := 0;
    while k < |hash|
      invariant 0 <= k <= |hash|
      invariant count == 8 * k
      invariant LeadingZeros(hash) == count + LeadingZeros(hash[k..])
    {
      var b := hash[k];
      if b == 0 {
        assert hash[k..][1..] == hash[k + 1..];
        count := count + 8;
        k := k + 1;
        continue;
      }
      assert LeadingZeros(hash[k..]) == ZerosFrom(b, 0);
      var zeros := 0;
      var mask: byte := 128;
      var i := 0;
      while i < 8
        invariant 0 <= i <= 8 && zeros == i
        invariant mask == Mask(i)
        invariant ZerosFrom(b, 0) == zeros + ZerosFrom(b, i)
      {
        ClearBitStep(b, mask, i);
        SetBitStep(b, mask, i);
        MaskShift(mask, i);
        if b & mask == 0 {
          zeros := zeros + 1;
          mask := mask >> 1;
        } else {
          break;
        }
        i := i + 1;
      }
      assert zeros == ZerosFrom(b, 0);
      count := count + zeros;
      break;
    }
  }

  /** One step of the inner loop of countLeadingZeros, with the mask at bit
      `i`: a clear bit adds one to the zeros counted from `i` ... */
  lemma ClearBitStep(b: byte, mask: byte, i: nat)
    requires i < 8 && mask == Mask(i)
    ensures b & mask == 0 ==> ZerosFrom(b, i) == 1 + ZerosFrom(b, i + 1)
  {
  }

  /** ... a set bit ends them ... */
  lemma SetBitStep(b: byte, mask: byte, i: nat)
    requires i < 8 && mask == Mask(i)
    ensures b & mask != 0 ==> ZerosFrom(b, i) == 0
  {
  }

  /** ... and shifting the mask right moves it to bit `i + 1`. */
  lemma MaskShift(mask: byte, i: nat)
    requires i < 8 && mask == Mask(i)
    ensures mask >> 1 == Mask(i + 1)
  {
  }

  // ------------------------------------------------------------- properties

  /** Bits `i .. i + ZerosFrom(b, i) - 1` of `b` are clear, and the next one,
      if any, is set. */
  lemma {:induction false} ZerosFromBits(b: byte, i: nat)
    requires i <= 8
    ensures forall j | i <= j < i + ZerosFrom(b, i) :: !BitSet(b, j)
    ensures i + ZerosFrom(b, i) < 8 ==> BitSet(b, i + ZerosFrom(b, i))
    decreases 8 - i
  {
    if i < 8 && !BitSet(b, i) {
      ZerosFromBits(b, i + 1);
    }
  }

  /** A byte without a set bit is zero. */
  lemma NoBitSetIsZero(b: byte)
    requires forall j | 0 <= j < 8 :: !BitSet(b, j)
    ensures b == 0
  {
    assert Mask(0) == 0x80 && Mask(1) == 0x40 && Mask(2) == 0x20 && Mask(3) == 0x10;
    assert Mask(4) == 0x08 && Mask(5) == 0x04 && Mask(6) == 0x02 && Mask(7) == 0x01;
    assert !BitSet(b, 0) && !BitSet(b, 1) && !BitSet(b, 2) && !BitSet(b, 3);
    assert !BitSet(b, 4) && !BitSet(b, 5) && !BitSet(b, 6) && !BitSet(b, 7);
  }

  /** A non-zero byte has fewer than 8 leading zero bits. */
  lemma NonZeroByteZeros(b: byte)
    requires b != 0
    ensures ZerosFrom(b, 0) < 8
  {
    ZerosFromBits(b, 0);
    if ZerosFrom(b, 0) == 8 {
      NoBitSetIsZero(b);
    }
  }

  /** The count read bit by bit: the first LeadingZeros(h) bits of `h` are zero
      and, unless all of `h` is zero, the next bit is one. */
  lemma {:induction false} LeadingZerosBits(h: seq<byte>)
    ensures IsZeroRun(h, LeadingZeros(h))
  {
    if h != [] {
      if h[0] == 0 {
        LeadingZerosBits(h[1..]);
        ZeroRunAfterZeroByte(h, LeadingZeros(h[1..]));
      } else {
        ZeroRunInFirstByte(h);
      }
    }
  }

  /** Past the first byte, the bits of `h` are the bits of `h[1..]`. */
  lemma HashBitOfTail(h: seq<byte>, k: nat)
    requires 8 <= k < 8 * |h|
    ensures HashBit(h, k) == HashBit(h[1..], k - 8)
  {
    assert k / 8 == (k - 8) / 8 + 1 && k % 8 == (k - 8) % 8;
    assert h[k / 8] == h[1..][(k - 8) / 8];
  }

  /** A zero byte in front adds 8 zero bits to the run. */
  lemma ZeroRunAfterZeroByte(h: seq<byte>, c: nat)
    requires h != [] && h[0] == 0 && IsZeroRun(h[1..], c)
    ensures IsZeroRun(h, c + 8)
  {
    forall k | 0 <= k < c + 8
      ensures !HashBit(h, k)
    {
      if k >= 8 {
        HashBitOfTail(h, k);
      } else {
        assert h[k / 8] == 0;
      }
    }
    if c + 8 < 8 * |h| {
      HashBitOfTail(h, c + 8);
    }
  }

  /** When the first byte is not zero, the run ends inside it. */
  lemma ZeroRunInFirstByte(h: seq<byte>)
    requires h != [] && h[0] != 0
    ensures IsZeroRun(h, ZerosFrom(h[0], 0))
  {
    var z := ZerosFrom(h[0], 0);
    ZerosFromBits(h[0], 0);
    NonZeroByteZeros(h[0]);
    forall k | 0 <= k < z
      ensures !HashBit(h, k)
    {
      assert k / 8 == 0 && k % 8 == k;
    }
    assert z / 8 == 0 && z % 8 == z;
  }

  /** The first LeadingZeros(h) bits are zero and the next is one, so no other
      count has that property: the bit reading determines the count. */
  lemma LeadingZerosUnique(h: seq<byte>, c: nat)
    requires IsZeroRun(h, c)
    ensures c == LeadingZeros(h)
  {
    LeadingZerosBits(h);
  }

  /** The first `d` bits of `h` are zero (none, when `d` is not positive). */
  predicate FirstBitsZero(h: seq<byte>, d: int)
    requires d <= 8 * |h|
  {
    forall k: nat | k < d :: !HashBit(h, k)
  }

  /** Having at least `d` leading zero bits is having the first `d` bits zero. */
  lemma AtLeastZeros(h: seq<byte>, d: int)
    ensures LeadingZeros(h) >= d <==> d <= 8 * |h| && FirstBitsZero(h, d)
  {
    LeadingZerosBits(h);
  }

  /** An all-zero digest of L bytes has 8·L leading zero bits. */
  lemma {:induction false} LeadingZerosAllZero(h: seq<byte>)
    requires forall i | 0 <= i < |h| :: h[i] == 0
    ensures LeadingZeros(h) == 8 * |h|
  {
    if h != [] {
      LeadingZerosAllZero(h[1..]);
    }
  }

  /** With bytes 0..k-1 zero and byte k not, the count is 8·k plus the leading
      zeros of byte k, which are fewer than 8. */
  lemma {:induction false} LeadingZerosAtFirstNonZero(h: seq<byte>, k: nat)
    requires k < |h| && h[k] != 0
    requires forall i | 0 <= i < k :: h[i] == 0
    ensures LeadingZeros(h) == 8 * k + ZerosFrom(h[k], 0)
    ensures ZerosFrom(h[k], 0) < 8
  {
    if k > 0 {
      assert h[1..][k - 1] == h[k];
      LeadingZerosAtFirstNonZero(h[1..], k - 1);
    }
    NonZeroByteZeros(h[k]);
  }

  /** Counting stops at the first non-zero byte: digests that agree up to a
      non-zero byte at `k` have the same count, whatever follows. */
  lemma {:induction false} LeadingZerosIgnoresTail(h: seq<byte>, g: seq<byte>, k: nat)
    requires k < |h| && k < |g| && h[..k + 1] == g[..k + 1] && h[k] != 0
    ensures LeadingZeros(h) == LeadingZeros(g)
  {
    assert h[0] == h[..k + 1][0] == g[..k + 1][0] == g[0];
    if h[0] == 0 {
      assert h[1..][..k] == h[..k + 1][1..] == g[..k + 1][1..] == g[1..][..k];
      LeadingZerosIgnoresTail(h[1..], g[1..], k - 1);
    }
  }

  /** The values shared/hash_test.go expects for digests whose first set bit
      is the top bit of a byte, or that have none. */
  lemma LeadingZerosVectors()
    ensures LeadingZeros([0, 0, 0, 0]) == 32
    ensures LeadingZeros([0, 0, 128, 0]) == 16
    ensures LeadingZeros([128, 0, 0, 0]) == 0
  {
    LeadingZerosAllZero([0, 0, 0, 0]);
    assert Mask(0) == 0x80;
    LeadingZerosAtFirstNonZero([0, 0, 128, 0], 2);
  }

  /** The values shared/hash_test.go expects for digests whose first set bit
      is the bottom bit of a byte. */
  lemma LeadingZerosLowBitVectors()
    ensures LeadingZeros([1, 0, 0, 0]) == 7
    ensures LeadingZeros([0, 1, 0, 0]) == 15
  {
    assert Mask(0) == 0x80 && Mask(1) == 0x40 && Mask(2) == 0x20 && Mask(3) == 0x10;
    assert Mask(4) == 0x08 && Mask(5) == 0x04 && Mask(6) == 0x02 && Mask(7) == 0x01;
    assert ZerosFrom(1, 7) == 0;
    assert ZerosFrom(1, 0) == 7;
    LeadingZerosAtFirstNonZero([0, 1, 0, 0], 1);
  }
}
