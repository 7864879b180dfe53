/** Machine-level values shared by the kernel statistics and the channel
    self-test: unsigned 64-bit words, bytes, an optional value, and the
    wrap-around arithmetic of `AtomicU64::fetch_add` / `fetch_sub`. */
module Machine {

  const U64_MODULUS: int := 0x1_0000_0000_0000_0000

  /** A Rust `u64`. */
  type u64 = x: int | 0 <= x < U64_MODULUS

  /** A Rust `u16`. */
  type u16 = x: int | 0 <= x < 0x1_0000

  /** A Rust `u8` as a number. */
  type u8 = x: int | 0 <= x < 0x100

  /** A Rust `u8` as stored in a byte buffer. */
  type byte = bv8

  datatype Option<T> = None | Some(value: T)

  /** `fetch_add` on an `AtomicU64`: the sum modulo 2^64. */
  function WrapAdd(x: u64, n: u64): (r: u64)
    ensures x + n < U64_MODULUS ==> r == x + n
    ensures x + n >= U64_MODULUS ==> r == x + n - U64_MODULUS
  {
    (x + n) % U64_MODULUS
  }

  /** `fetch_sub` on an `AtomicU64`: the difference modulo 2^64. */
  function WrapSub(x: u64, n: u64): (r: u64)
    ensures n <= x ==> r == x - n
    ensures x < n ==> r == x - n + U64_MODULUS
  {
    (x - n) % U64_MODULUS
  }

  /** Subtracting what was added restores the counter, wrap-around included. */
  lemma SubUndoesAdd(x: u64, n: u64)
    ensures WrapSub(WrapAdd(x, n), n) == x
  {
  }

  /** Adding what was subtracted restores the counter, wrap-around included. */
  lemma AddUndoesSub(x: u64, n: u64)
    ensures WrapAdd(WrapSub(x, n), n) == x
  {
  }

  /** Reducing a summand modulo 2^64 does not change a sum modulo 2^64. */
  lemma ModAddLeft(x: int, y: int)
    ensures (x % U64_MODULUS + y) % U64_MODULUS == (x + y) % U64_MODULUS
  {
    var q := x / U64_MODULUS;
    assert x == q * U64_MODULUS + x % U64_MODULUS;
    ModAddMultiple(x % U64_MODULUS + y, q);
  }

  lemma ModAddMultiple(z: int, q: int)
    ensures (z + q * U64_MODULUS) % U64_MODULUS == z % U64_MODULUS
  {
  }
}
