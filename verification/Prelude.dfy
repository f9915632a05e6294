/** Small value types and set facts shared by the models. */
module Prelude {

  datatype Option<+T> = None | Some(value: T)

  datatype Result<+T, +E> = Ok(value: T) | Err(error: E)

  /** The width of `usize` and `u64` on the supported targets, and of `u32`. */
  const U64: nat := 0x1_0000_0000_0000_0000
  const U32: nat := 0x1_0000_0000

  /** HTTP status codes. */
  const BAD_REQUEST: nat := 400
  const FORBIDDEN: nat := 403
  const NOT_FOUND: nat := 404
  const BAD_GATEWAY: nat := 502

  type u32 = x: int | 0 <= x < 0x1_0000_0000

  /** The `n` integers from `lo` on. */
  function Range(lo: int, n: nat): (s: set<int>)
    ensures forall i :: i in s <==> lo <= i < lo + n
    ensures |s| == n
  {
    if n == 0 then {} else Range(lo, n - 1) + {lo + n - 1}
  }

  lemma SubsetSize<T>(a: set<T>, b: set<T>)
    requires a <= b
    ensures |a| <= |b|
  {
    assert b == a + (b - a);
  }
}
