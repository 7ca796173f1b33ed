/** Value types shared by every module: Go's fixed-width integers and the
    Option/Result wrappers used for Go's `(value, error)` returns. */
module Base {

  /** Go's `byte`. */
  type byte = bv8

  /** The byte whose value is `k`, `byte(k)` for `k` below 256, counted up
      from 0 so that no conversion from an unbounded integer is needed. */
  function ByteOf(k: nat): (b: byte)
    requires k < 256
  {
    if k == 0 then 0 else ByteOf(k - 1) + 1
  }

  /** ByteOf(k) has the value `k`. */
  lemma {:induction false} ByteOfValue(k: nat)
    requires k < 256
    ensures ByteOf(k) as int == k
  {
    if k > 0 {
      ByteOfValue(k - 1);
    }
  }

  const UINT64_MAX: int := 0xFFFF_FFFF_FFFF_FFFF
  const INT64_MIN: int := -0x8000_0000_0000_0000
  const INT64_MAX: int := 0x7FFF_FFFF_FFFF_FFFF

  /** Go's `uint64`. */
  type uint64 = x: int | 0 <= x <= UINT64_MAX

  /** Go's `int` on a 64-bit platform. */
  type int64 = x: int | INT64_MIN <= x <= INT64_MAX

  datatype Option<+T> = None | Some(value: T)

  datatype Result<+T, +E> = Ok(value: T) | Err(error: E)
}
