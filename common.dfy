// Machine types and the result wrapper shared by the kernel modules.

module Machine {
  /** An unsigned byte, Rust's `u8`. */
  newtype u8 = x: int | 0 <= x < 0x100

  /** Rust's `u32`. */
  newtype u32 = x: int | 0 <= x < 0x1_0000_0000

  /** 2^32, the weight of one 32-bit cell. */
  const TWO32: nat := 0x1_0000_0000

  /** 2^64, one past the largest value of a 64-bit `usize`. */
  const TWO64: nat := 0x1_0000_0000_0000_0000

  /** Rust's `Result<T, ()>`: the error carries no information. */
  datatype Result<T> = Ok(value: T) | Err

  /** A sequence of `n` zero bytes. */
  function Zeros(n: nat): (r: seq<u8>)
    ensures |r| == n
    ensures forall i :: 0 <= i < n ==> r[i] == 0
  {
    seq(n, _ => 0)
  }

  /** Number of 512-byte sectors `n` bytes fill, the last one possibly short: ceil(n / 512). */
  function SectorsSpanned(n: nat): nat {
    (n + 512 - 1) / 512
  }

  /** Rust's `core::cmp::min` on naturals. */
  function Min(a: nat, b: nat): (r: nat)
    ensures r <= a && r <= b && (r == a || r == b)
  {
    if a <= b then a else b
  }
}
