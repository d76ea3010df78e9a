/** What several modules share: values that may be missing, hashes, and the wrap-around of integers. */
module Wrappers {
  /** A row that is not found, an error return. */
  datatype Option<+T> = None | Some(value: T)

  /** Only the equality of hashes and the all-zero hash matter. */
  type Hash = int

  const UINT32: nat := 0x1_0000_0000

  /** Conversion to a 32-bit unsigned integer. */
  function Wrap32(n: nat): (w: nat)
    ensures w < 0x1_0000_0000 && (n < 0x1_0000_0000 ==> w == n)
  {
    n % 0x1_0000_0000
  }

  /** Reduction of 64-bit unsigned arithmetic. */
  function Wrap64(n: int): (w: nat)
    ensures w < 0x1_0000_0000_0000_0000
    ensures 0 <= n < 0x1_0000_0000_0000_0000 ==> w == n
    ensures 0x1_0000_0000_0000_0000 <= n < 0x2_0000_0000_0000_0000 ==> w == n - 0x1_0000_0000_0000_0000
  {
    n % 0x1_0000_0000_0000_0000
  }
}
