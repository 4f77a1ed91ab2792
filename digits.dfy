/** Bytes and the digit predicates the parsers are built on. */
module Digits {

  /** An unsigned byte, as the parsers read their input. */
  newtype u8 = x: int | 0 <= x < 256

  datatype Option<T> = None | Some(value: T)

  /** nom's `is_hex_digit`: ASCII `0-9`, `A-F` or `a-f`. */
  predicate IsHexDigit(b: u8) {
    (0x30 <= b <= 0x39) || (0x41 <= b <= 0x46) || (0x61 <= b <= 0x66)
  }

  /** nom's `is_oct_digit`: ASCII `0-7`. */
  predicate IsOctDigit(b: u8) {
    0x30 <= b <= 0x37
  }

  /** The crate's own `is_bool_digit`: ASCII `1` (49) or `0` (48). */
  predicate IsBoolDigit(b: u8) {
    b == 49 || b == 48
  }

  /**
   * The value of byte `b` read as a digit in `radix`, as Rust's
   * `char::to_digit` gives it to `from_str_radix`: decimal digits are 0-9,
   * letters of either case are 10-35, and the value must be below the radix.
   */
  function ToDigit(b: u8, radix: nat): (r: Option<nat>)
    requires 2 <= radix <= 36
    ensures r.Some? ==> r.value < radix
  {
    var d := if 0x30 <= b <= 0x39 then (b - 0x30) as int
             else if 0x61 <= b <= 0x7A then (b - 0x61) as int + 10
             else if 0x41 <= b <= 0x5A then (b - 0x41) as int + 10
             else 36;
    if d < radix then Some(d) else None
  }

  /**
   * Each of the three predicates accepts exactly the bytes that
   * `from_str_radix` accepts as digits of the radix the predicate is paired
   * with in the parser table (16, 8 and 2).
   */
  lemma PredicatesMatchRadix(b: u8)
    ensures IsHexDigit(b) <==> ToDigit(b, 16).Some?
    ensures IsOctDigit(b) <==> ToDigit(b, 8).Some?
    ensures IsBoolDigit(b) <==> ToDigit(b, 2).Some?
  {
  }
}
