/**
 * Shared vocabulary of the model: optional values, results, octets, and the
 * small text helpers that Python's exception messages are built from.
 */
module Prelude {

  /** A JSON key that may be absent. */
  datatype Option<+T> = None | Some(value: T)

  /** A computation that either yields a value or fails with an error. */
  datatype Result<+T, +E> = Success(value: T) | Failure(error: E)

  /** An octet, one element of a Python `bytes` object. */
  type byte = x: int | 0 <= x < 256

  /** Python's slice `s[:-1]`: all but the last element; an empty sequence stays empty. */
  function DropLast<T>(s: seq<T>): seq<T>
  {
    if |s| == 0 then [] else s[..|s| - 1]
  }

  /** The decimal digit character for `d`. */
  function DigitChar(d: nat): char
    requires d < 10
  {
    ('0' as int + d) as char
  }

  /** Python's `%d` / `str(n)` of a natural number. */
  function Decimal(n: nat): (s: string)
    ensures |s| >= 1
    ensures forall i :: 0 <= i < |s| ==> '0' <= s[i] <= '9'
    decreases n
  {
    if n < 10 then [DigitChar(n)] else Decimal(n / 10) + [DigitChar(n % 10)]
  }

  /** A lower-case hexadecimal digit, as C's `%x` prints it. */
  function HexDigit(d: nat): char
    requires d < 16
  {
    if d < 10 then DigitChar(d) else ('a' as int + d - 10) as char
  }

  /** C's `%02x` of an octet. */
  function Hex2(b: byte): string
  {
    [HexDigit(b / 16), HexDigit(b % 16)]
  }
}
