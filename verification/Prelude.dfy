/** Fixed-width integers and the failure-carrying results shared by every module.
    The target is a 64-bit one, so `usize` and `u64` are the same type. */
module Prelude {
  datatype Option<+T> = None | Some(value: T)

  datatype Result<+T, +E> = Ok(value: T) | Err(error: E)

  datatype Unit = Unit

  const TWO_16: nat := 0x1_0000
  const TWO_32: nat := 0x1_0000_0000
  const TWO_48: nat := 0x1_0000_0000_0000
  const TWO_64: nat := 0x1_0000_0000_0000_0000

  type Byte = n: nat | n < 0x100
  type U16 = n: nat | n < 0x1_0000
  type U32 = n: nat | n < 0x1_0000_0000
  type U64 = n: nat | n < 0x1_0000_0000_0000_0000

  ghost predicate Distinct<T>(s: seq<T>) {
    forall i, j :: 0 <= i < j < |s| ==> s[i] != s[j]
  }

  function AbsDiff(a: nat, b: nat): nat {
    if a >= b then a - b else b - a
  }

  function Min(a: int, b: int): int {
    if a <= b then a else b
  }
}
