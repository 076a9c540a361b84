/** Small value types and facts shared by every module. */
module Common {
  datatype Option<+T> = None | Some(value: T)

  datatype Result<+T, +E> = Ok(value: T) | Err(error: E)

  const TWO_TO_THE_16 := 0x1_0000
  const TWO_TO_THE_32 := 0x1_0000_0000
  const TWO_TO_THE_64 := 0x1_0000_0000_0000_0000
  const U32_MAX := TWO_TO_THE_32 - 1
  const U64_MAX := TWO_TO_THE_64 - 1

  type byte = b: int | 0 <= b < 256

  type u32 = n: int | 0 <= n < TWO_TO_THE_32

  type u64 = n: int | 0 <= n < TWO_TO_THE_64

  type u128 = n: int | 0 <= n < TWO_TO_THE_64 * TWO_TO_THE_64

  type Bytes = seq<byte>

  datatype IpAddr = V4(v4: u32) | V6(v6: u128)

  /** Concatenation may be regrouped. */
  lemma Assoc<T>(a: seq<T>, b: seq<T>, c: seq<T>)
    ensures (a + b) + c == a + (b + c)
  {
  }
}
