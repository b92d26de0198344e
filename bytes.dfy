/** Fixed-width integers of the driver and the little-endian helpers of its report headers. */
module Bytes {

  /** Rust `u8`. */
  type byte = b: int | 0 <= b < 0x100

  /** Rust `u16`. */
  type u16 = x: int | 0 <= x < 0x1_0000

  /** Rust `i8`. */
  type i8 = x: int | -0x80 <= x < 0x80

  /** A truncating `as u8` cast of a non-negative value. */
  function AsByte(x: nat): (b: byte)
    ensures x < 0x100 ==> b == x
  {
    x % 0x100
  }

  /** `(x & 0xff) as u8`: the low byte of a little-endian pair. */
  function Lo(x: nat): (b: byte) { x % 0x100 }

  /** `(x >> 8) as u8`: the high byte of a little-endian pair, truncated to a byte. */
  function Hi(x: nat): (b: byte) { (x / 0x100) % 0x100 }

  /** The value of a little-endian byte pair. */
  function Le16(lo: byte, hi: byte): (v: nat) { lo + 0x100 * hi }

  /** Splitting a 16-bit value into its two header bytes loses nothing. */
  lemma LoHiRoundTrip(x: nat)
    requires x < 0x1_0000
    ensures Le16(Lo(x), Hi(x)) == x
  {
  }

  /** For any value the two header bytes keep it modulo 2^16, as the truncating casts do. */
  lemma LoHiWrap(x: nat)
    ensures Le16(Lo(x), Hi(x)) == x % 0x1_0000
  {
    var q := x / 0x1_0000;
    var m := x % 0x1_0000;
    assert x == (q * 0x100 + m / 0x100) * 0x100 + m % 0x100;
    DivUnique(x, 0x100, q * 0x100 + m / 0x100, m % 0x100);
    DivUnique(q * 0x100 + m / 0x100, 0x100, q, m / 0x100);
  }

  /** `vec![0u8; n]`. */
  function Zeros(n: nat): (z: seq<byte>)
    ensures |z| == n && forall i :: 0 <= i < n ==> z[i] == 0
  {
    seq(n, _ => 0)
  }

  function Min(a: int, b: int): (m: int) { if a <= b then a else b }

  function Max(a: int, b: int): (m: int) { if a >= b then a else b }

  /** A positive multiple of d is at least d. */
  lemma {:induction false} MulAtLeast(k: int, d: int)
    requires k >= 1 && d > 0
    ensures k * d >= d
  {
    if k > 1 {
      MulAtLeast(k - 1, d);
      assert k * d == (k - 1) * d + d;
    }
  }

  /** Quotient and remainder are unique: x = q * d + r with 0 <= r < d fixes both. */
  lemma DivUnique(x: int, d: int, q: int, r: int)
    requires d > 0 && 0 <= r < d && x == q * d + r
    ensures x / d == q && x % d == r
  {
    var q' := x / d;
    var r' := x % d;
    assert x == q' * d + r';
    if q' > q {
      MulAtLeast(q' - q, d);
    } else if q' < q {
      MulAtLeast(q - q', d);
    }
  }

  /** Multiplying by a positive d keeps a strict order. */
  lemma MulLessCancel(a: int, b: int, d: int)
    requires d > 0 && a * d < b * d
    ensures a < b
  {
    if a > b {
      MulAtLeast(a - b, d);
    }
  }

  /** Multiplying by a non-negative d keeps a weak order. */
  lemma MulAtMost(a: int, b: int, d: int)
    requires a <= b && d >= 0
    ensures a * d <= b * d
  {
    if a < b && d > 0 {
      MulAtLeast(b - a, d);
    }
  }
}
