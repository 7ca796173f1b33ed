/** Go's `base64.StdEncoding.EncodeToString`: the standard base 64 alphabet of
    section 4 of RFC 4648, with '=' padding. */
module Base64 {
  import opened Base

  const PAD: byte := 0x3D

  /** The bytes of the standard alphabet: A-Z, a-z, 0-9, '+' and '/'. */
  predicate InAlphabet(c: byte) {
    (0x41 <= c <= 0x5A) || (0x61 <= c <= 0x7A) || (0x30 <= c <= 0x39) || c == 0x2B || c == 0x2F
  }

  /** Table 1 of RFC 4648: the character that stands for a 6-bit value. */
  function Char(v: byte): (c: byte)
    requires v < 64
    ensures InAlphabet(c)
  {
    if v < 26 then 0x41 + v
    else if v < 52 then 0x61 + (v - 26)
    else if v < 62 then 0x30 + (v - 52)
    else if v == 62 then 0x2B
    else 0x2F
  }

  /** Four characters for each 3-byte group; a final group of one or two bytes
      is padded with '='. */
  function Encode(src: seq<byte>): (r: seq<byte>)
    ensures |r| == (|src| + 2) / 3 * 4
    ensures forall i | 0 <= i < |r| :: InAlphabet(r[i]) || r[i] == PAD
    decreases |src|
  {
    if |src| == 0 then []
    else if |src| == 1 then
      [Char(src[0] >> 2), Char((src[0] & 0x03) << 4), PAD, PAD]
    else if |src| == 2 then
      [Char(src[0] >> 2), Char(((src[0] & 0x03) << 4) | (src[1] >> 4)), Char((src[1] & 0x0F) << 2), PAD]
    else
      [Char(src[0] >> 2), Char(((src[0] & 0x03) << 4) | (src[1] >> 4)),
       Char(((src[1] & 0x0F) << 2) | (src[2] >> 6)), Char(src[2] & 0x3F)]
      + Encode(src[3..])
  }
}
