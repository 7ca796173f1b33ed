/** SHA-256 as FIPS 180-4 defines it (section 6.2), the digest that
    shared/hash.go takes from Go's crypto/sha256: the message is padded to a
    whole number of 64-byte blocks (section 5.1.1), each block is expanded to
    64 schedule words and folded into eight 32-bit working words by 64 rounds,
    and the digest is the final eight words written big-endian. */
module Sha256 {
  import opened Base

  type word = bv32

  /** The round constants of section 4.2.2. */
  const K: seq<word> := [
    0x428a2f98, 0x71374491, 0xb5c0fbcf, 0xe9b5dba5,
    0x3956c25b, 0x59f111f1, 0x923f82a4, 0xab1c5ed5,
    0xd807aa98, 0x12835b01, 0x243185be, 0x550c7dc3,
    0x72be5d74, 0x80deb1fe, 0x9bdc06a7, 0xc19bf174,
    0xe49b69c1, 0xefbe4786, 0x0fc19dc6, 0x240ca1cc,
    0x2de92c6f, 0x4a7484aa, 0x5cb0a9dc, 0x76f988da,
    0x983e5152, 0xa831c66d, 0xb00327c8, 0xbf597fc7,
    0xc6e00bf3, 0xd5a79147, 0x06ca6351, 0x14292967,
    0x27b70a85, 0x2e1b2138, 0x4d2c6dfc, 0x53380d13,
    0x650a7354, 0x766a0abb, 0x81c2c92e, 0x92722c85,
    0xa2bfe8a1, 0xa81a664b, 0xc24b8b70, 0xc76c51a3,
    0xd192e819, 0xd6990624, 0xf40e3585, 0x106aa070,
    0x19a4c116, 0x1e376c08, 0x2748774c, 0x34b0bcb5,
    0x391c0cb3, 0x4ed8aa4a, 0x5b9cca4f, 0x682e6ff3,
    0x748f82ee, 0x78a5636f, 0x84c87814, 0x8cc70208,
    0x90befffa, 0xa4506ceb, 0xbef9a3f7, 0xc67178f2
  ]

  /** The initial hash value of section 5.3.3. */
  const H0: seq<word> := [
    0x6a09e667, 0xbb67ae85, 0x3c6ef372, 0xa54ff53a,
    0x510e527f, 0x9b05688c, 0x1f83d9ab, 0x5be0cd19
  ]

  // ---------------------------------------------------------------- padding

  /** `n` as `width` bytes, most significant first. */
  function BigEndian(n: nat, width: nat): (r: seq<byte>)
    ensures |r| == width
  {
    if width == 0 then [] else BigEndian(n / 256, width - 1) + [ByteOf(n % 256)]
  }

  /** The padding of section 5.1.1 for a message of `len` bytes: one 0x80 byte,
      zero bytes up to 56 modulo 64, then the length in bits as a 64-bit
      big-endian number. */
  function Padding(len: nat): (r: seq<byte>)
    ensures (len + |r|) % 64 == 0
  {
    var zeros := (55 - len % 64) % 64;
    PaddedLength(len, zeros);
    [0x80] + seq(zeros, _ => 0) + BigEndian(8 * len % 0x1_0000_0000_0000_0000, 8)
  }

  lemma PaddedLength(len: nat, zeros: int)
    requires zeros == (55 - len % 64) % 64
    ensures zeros >= 0 && (len + 1 + zeros + 8) % 64 == 0
  {
    var q, r := len / 64, len % 64;
    assert len == 64 * q + r;
    if r <= 55 {
      assert zeros == 55 - r;
      assert len + 1 + zeros + 8 == 64 * (q + 1);
    } else {
      assert zeros == 119 - r;
      assert len + 1 + zeros + 8 == 64 * (q + 2);
    }
  }

  // ------------------------------------------------------ the 32-bit functions

  function Ch(x: word, y: word, z: word): word { (x & y) ^ (!x & z) }

  function Maj(x: word, y: word, z: word): word { (x & y) ^ (x & z) ^ (y & z) }

  function BigSigma0(x: word): word { x.RotateRight(2) ^ x.RotateRight(13) ^ x.RotateRight(22) }

  function BigSigma1(x: word): word { x.RotateRight(6) ^ x.RotateRight(11) ^ x.RotateRight(25) }

  function SmallSigma0(x: word): word { x.RotateRight(7) ^ x.RotateRight(18) ^ (x >> 3) }

  function SmallSigma1(x: word): word { x.RotateRight(17) ^ x.RotateRight(19) ^ (x >> 10) }

  // ------------------------------------------------------------ one block

  /** The big-endian word at byte `i` of a block. */
  function WordAt(block: seq<byte>, i: nat): word
    requires i + 4 <= |block|
  {
    (block[i] as word << 24) | (block[i + 1] as word << 16) | (block[i + 2] as word << 8) | (block[i + 3] as word)
  }

  /** The first `n` words of the message schedule of a block (section 6.2.2,
      step 1). */
  function Schedule(block: seq<byte>, n: nat): (w: seq<word>)
    requires |block| == 64 && n <= 64
    ensures |w| == n
  {
    if n == 0 then []
    else
      var w := Schedule(block, n - 1);
      var t := n - 1;
      w + [if t < 16 then WordAt(block, 4 * t)
           else SmallSigma1(w[t - 2]) + w[t - 7] + SmallSigma0(w[t - 15]) + w[t - 16]]
  }

  /** Round `t` on the working words `a`..`h` (section 6.2.2, step 3). */
  function Round(s: seq<word>, k: word, w: word): (r: seq<word>)
    requires |s| == 8
    ensures |r| == 8
  {
    var t1 := s[7] + BigSigma1(s[4]) + Ch(s[4], s[5], s[6]) + k + w;
    var t2 := BigSigma0(s[0]) + Maj(s[0], s[1], s[2]);
    [t1 + t2, s[0], s[1], s[2], s[3] + t1, s[4], s[5], s[6]]
  }

  /** The working words after rounds 0 to `t` - 1. */
  function Rounds(s: seq<word>, w: seq<word>, t: nat): (r: seq<word>)
    requires |s| == 8 && |w| == 64 && t <= 64
    ensures |r| == 8
  {
    if t == 0 then s else Round(Rounds(s, w, t - 1), K[t - 1], w[t - 1])
  }

  /** The intermediate hash value after one more block (section 6.2.2, step 4). */
  function Compress(h: seq<word>, block: seq<byte>): (r: seq<word>)
    requires |h| == 8 && |block| == 64
    ensures |r| == 8
  {
    var s := Rounds(h, Schedule(block, 64), 64);
    [h[0] + s[0], h[1] + s[1], h[2] + s[2], h[3] + s[3],
     h[4] + s[4], h[5] + s[5], h[6] + s[6], h[7] + s[7]]
  }

  /** The hash value after the blocks of `m`, in order. */
  function Blocks(h: seq<word>, m: seq<byte>): (r: seq<word>)
    requires |h| == 8 && |m| % 64 == 0
    ensures |r| == 8
    decreases |m|
  {
    if m == [] then h
    else
      NextBlock(|m|);
      Compress(Blocks(h, m[..|m| - 64]), m[|m| - 64..])
  }

  lemma NextBlock(n: nat)
    requires n % 64 == 0 && n != 0
    ensures n >= 64 && (n - 64) % 64 == 0
  {
    assert n == 64 * (n / 64);
  }

  /** The eight words, each written big-endian. */
  function WordBytes(h: seq<word>): (r: seq<byte>)
    ensures |r| == 4 * |h|
  {
    if h == [] then []
    else
      var x := h[0];
      [(x >> 24) as byte, ((x >> 16) & 0xff) as byte, ((x >> 8) & 0xff) as byte, (x & 0xff) as byte] + WordBytes(h[1..])
  }

  /** sha256.Sum256: the 32-byte digest of `data`. */
  function Digest(data: seq<byte>): (r: seq<byte>)
    ensures |r| == 32
  {
    WordBytes(Blocks(H0, data + Padding(|data|)))
  }
}
