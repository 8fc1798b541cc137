/** Values shared by the metadata store and the feature pipeline. */
module Common {

  datatype Option<T> = None | Some(value: T)

  /** Rust's `Result<T, String>`: every error of the modelled code is a message. */
  datatype Result<T> = Ok(value: T) | Err(msg: string)

  /** How a call ends: it returns a `Result`, or a panic (`.unwrap()` on an `Err`, a bad slice) aborts it. */
  datatype Outcome<T> = Returned(result: Result<T>) | Panicked(msg: string)

  /** Rust's `u32`. */
  type U32 = x: int | 0 <= x < 0x1_0000_0000

  /** Rust's `i as u32` for a non-negative index: the low 32 bits. */
  function AsU32(n: nat): (r: U32)
    ensures n < 0x1_0000_0000 ==> r == n
  {
    n % 0x1_0000_0000
  }
}
