/** Small shared vocabulary: optional values, fallible results, bytes and the
    integer operations of the Rust source (`usize::div_ceil`, `isize` division
    truncating toward zero, `as u8` casts). */
module Common {

  datatype Option<T> = None | Some(value: T)

  /** Errors of the device layer: an I/O failure reported by the HID library,
      or a `bail!` with its message. */
  datatype Error = IoError | Bail(message: string)

  datatype Result<T> = Ok(value: T) | Err(error: Error)

  /** Outcome of an operation that returns `anyhow::Result<()>`. */
  datatype Outcome = Pass | Fail(error: Error)

  type byte = bv8

  /** `n as u8`: keeps the low eight bits. */
  function U8(n: nat): (b: byte)
    ensures b as nat == n % 256
  {
    (n % 256) as byte
  }

  function Min(a: int, b: int): (m: int)
    ensures m <= a && m <= b && (m == a || m == b)
  {
    if a <= b then a else b
  }

  /** `usize::div_ceil`. */
  function DivCeil(a: nat, b: nat): (q: nat)
    requires b > 0
    ensures q * b >= a && (q == 0 || (q - 1) * b < a)
  {
    if a % b == 0 then a / b else a / b + 1
  }

  /** Rust's `/` on signed integers: the quotient is truncated toward zero
      (Dafny's own `/` is Euclidean). */
  function TruncDiv(a: int, b: nat): int
    requires b > 0
  {
    if a >= 0 then a / b else -((-a) / b)
  }

  /** Truncating division is odd in its dividend: negating the dividend
      negates the quotient (with Euclidean division this fails, e.g. -3/2). */
  lemma TruncDivNeg(a: int, b: nat)
    requires b > 0
    ensures TruncDiv(-a, b) == -TruncDiv(a, b)
  {
  }

  /** Halving by truncation leaves a remainder of -1, 0 or 1 with the sign of
      the dividend. */
  lemma TruncHalf(a: int)
    ensures var q := TruncDiv(a, 2); -1 <= a - 2 * q <= 1
    ensures a >= 0 ==> 0 <= a - 2 * TruncDiv(a, 2)
    ensures a < 0 ==> a - 2 * TruncDiv(a, 2) <= 0
  {
  }
}
