# int_parser in Dafny

This project models `int_parser`, a Rust crate of byte-slice parsers for
radix-prefixed integer literals (`0x…`, `0o…`, `0b…`). The crate writes one
parser body as a macro template and stamps out thirty parsers from a
parameter table. Each parser takes a byte slice and returns nom's
`IResult`. The outcome is one of:

- `Done(rest, value)`;
- `Incomplete(Size(3))` when the slice is shorter than three bytes;
- `Error(Tag)` when the first two bytes are not the parser's prefix;
- `Error(Eof)` when the digit run reaches the end of the slice.

The model has one parameterised parser and a constant table of thirty
parameter sets instead of thirty copies.

- `digits.dfy` (module `Digits`): bytes as `u8`. It holds nom's `is_hex_digit`
  and `is_oct_digit`, the crate's `is_bool_digit`, and Rust's `char::to_digit`,
  which is how `from_str_radix` reads a digit.
- `radix.dfy` (module `Radix`): the output integer types and their maxima. It
  holds `Horner`, the big-endian radix decode, and `FromStrRadix`, the part of
  `from_str_radix` that a sign-free digit string can reach. `FromStrRadix`
  returns `Empty`, `InvalidDigit`, `PosOverflow` or `Ok(value)`.
- `parser.dfy` (module `Parser`): `Config` holds the prefix, radix, predicate,
  `MaxChars` and output type. `Parse` is the parser body as an imperative
  method. It has the source's mutable index, `while` loop, early `return` and
  `break`, and it is proved equal to the declarative `ParseSpec`. The lemmas
  about `ParseSpec` state the parser's behaviour.
- `instances.dfy` (module `Instances`): the thirty-row parameter table. It
  keeps the source's names, including the octal parsers `parse_hex_u12` and
  `parse_hex_i12`. It proves which rows can overflow.
- `expectations.dfy` (module `Expectations`): the expectations of the crate's
  `test_parse_hex_u64` and a few more concrete cases, proved from the general
  lemmas.

The source ends with `.unwrap()` on the decode. When the digit run is empty
(`"0x "`) or the value exceeds the output type (`parse_hex_i8` on `"0xFF "`),
that call panics. Here those cases are the outcome `DecodeFail(cause)`.

The two kinds of decode failure behave differently:

- An empty run can fail every instance.
- Overflow is possible only when radix^MaxChars − 1, the largest value a
  run of `MaxChars` digits can denote, exceeds the type's maximum
  (`NoOverflowWhenCapFits`). Shorter or smaller runs can overflow too:
  `"0x80 "` overflows `parse_hex_i8`. `TableFacts` proves that the cap
  exceeds the type exactly for the signed hex and signed binary rows.

Behaviour of the code worth noting:

- The crate comment (src/lib.rs:3) promises decimal support, but the third
  family is binary: prefix `0b`, radix 2 (src/lib.rs:175-178).
- The table at src/lib.rs:51-221 has thirty rows. Two octal rows are named
  `parse_hex_u12` and `parse_hex_i12` (src/lib.rs:129, 164).
- A digit run that reaches the end of the slice within the cap is
  `Error(Eof)` (src/lib.rs:34-36), not `Incomplete`. This includes a run of
  exactly `MaxChars` digits at the end of the buffer, because the
  end-of-input test comes before the cap test (src/lib.rs:34-39).
- A `Done` result always has a non-empty remainder. Its first byte is not a
  digit unless the run stopped at the cap (src/lib.rs:32-39, `DoneShape`).
- A digit run can be empty (`"0x "`): the loop at src/lib.rs:32 stops at
  once, and `from_str_radix("")` fails, so the `unwrap` at src/lib.rs:47
  panics.
- The octal caps hold at most floor(bits / 3) digits of the width in the
  parser's name, so some octal instances never reach their type's maximum. `parse_oct_u64` returns values below 2^63
  (`OctU64StaysBelowTopBit`). Given `u64::MAX` in octal (22 digits), it
  returns the first 21 digits' value, 2^61 − 1, and leaves `"7"` in the
  remainder (`OctU64MaxTruncated`).
- `parse_hex_u12` and `parse_hex_i12` have a cap of 3 (src/lib.rs:129-131,
  164-166), one digit fewer than floor(12 / 3). They read at most 3 octal
  digits, 9 bits, and never return more than 511 (`Hex12StaysBelow512`).

## Model

| member | source | states |
|---|---|---|
| Digits.PredicatesMatchRadix | src/lib.rs:7-13 | `is_hex_digit`, `is_oct_digit` and `is_bool_digit` accept exactly the bytes that `from_str_radix` reads as digits of radix 16, 8 and 2 |
| Digits.ToDigit | src/lib.rs:47 | a byte read as a digit of `radix` has a value below the radix |
| Radix.HornerBound | src/lib.rs:47 | a string of n digits decodes to a value below radix^n |
| Radix.HornerAppend | src/lib.rs:47 | decoding `p ++ q` gives the value of `p` shifted up by one radix place per digit of `q`, plus the value of `q` |
| Radix.HornerPrefixBounded | src/lib.rs:47 | a prefix of a digit string never decodes to more than the whole string |
| Radix.CheckedHornerAgrees | src/lib.rs:47 | the digit-by-digit checked multiply-and-add gives up exactly when the final big-endian value exceeds the maximum, and otherwise yields that value |
| Radix.FromStrRadix | src/lib.rs:47 | `from_str_radix` on a sign-free string: `Empty` exactly for the empty string, `InvalidDigit` exactly when a byte is not a digit of the radix, `PosOverflow` exactly when the digits' value exceeds the type's maximum, and otherwise `Ok` of that value |
| Radix.HornerAllTop | src/lib.rs:47 | n copies of the largest digit decode to radix^n − 1, the largest n-digit value |
| Radix.HornerAllZero | src/lib.rs:47 | n zero digits decode to 0 |
| Parser.RunLength | src/lib.rs:31-40 | the scanned run has at most the cap and at most the available bytes, every byte in it satisfies the predicate, and the byte after it fails the predicate unless the cap or the end was reached |
| Parser.RunLengthExact | src/lib.rs:31-40 | those three conditions determine the run length uniquely |
| Parser.Parse | src/lib.rs:22-48 | the loop reads `input[index]` only for `2 <= index < len` and returns exactly `ParseSpec(input, cfg)`: `Incomplete(Size(3))`, `Tag`, `Eof`, `Done` or the decode failure |
| Parser.ShortInputIncomplete | src/lib.rs:24-26 | the outcome is `Incomplete(Size(3))` exactly when the input is shorter than 3 bytes, whatever those bytes are |
| Parser.PrefixMismatchIsTag | src/lib.rs:27-30 | the outcome is `Error(Tag)` exactly when the input has at least 3 bytes and its first two bytes are not the prefix, whatever follows them |
| Parser.EofExactly | src/lib.rs:32-39 | `Error(Eof)` exactly when the prefix matches, every byte after it is a digit and there are at most `MaxChars` of them, so a run of exactly `MaxChars` digits at the end is `Eof` |
| Parser.DoneShape | src/lib.rs:31-47 | on `Done(rest, v)` the input is the prefix, then 1..`MaxChars` digits, then a non-empty `rest`; the run is maximal below the cap; `v` is the run's big-endian value and fits the output type |
| Parser.DecodeFailCauses | src/lib.rs:46-47 | for a coherent configuration the decode never sees an invalid digit; it fails with `Empty` exactly when the prefix matches and the byte after it is not a digit, and with `PosOverflow` only when the run's value exceeds the type's maximum |
| Parser.AcceptedAreDigits | src/lib.rs:41-46 | bytes that pass the digit predicate are valid digits of the radix, which is what the unchecked byte-to-text reinterpretation relies on |
| Parser.CompleteLaw | src/lib.rs:31-47 | the prefix, then 1..`MaxChars` digits, then a tail starting with a non-digit gives `Done(tail, value of the digits)`, or `PosOverflow` when that value does not fit |
| Parser.TruncationLaw | src/lib.rs:37-39 | with more than `MaxChars` digits, the first `MaxChars` are decoded and the surplus digits stay at the head of the remainder |
| Parser.EofLaw | src/lib.rs:34-36 | the prefix followed by 1..`MaxChars` digits and nothing else is `Error(Eof)` |
| Parser.NoOverflowWhenCapFits | src/lib.rs:47 | when radix^`MaxChars` − 1 fits the output type, the only decode failure is `Empty` |
| Parser.FullRunValue | src/lib.rs:47 | `MaxChars` copies of the largest digit followed by a space decode to radix^`MaxChars` − 1 when that fits, and fail with `PosOverflow` otherwise |
| Instances.TableFacts | src/lib.rs:51-221 | the table has 30 rows, each pairs its predicate with the matching radix, and a full run fits the output type exactly for the unsigned rows and the octal rows |
| Instances.OctU64StaysBelowTopBit | src/lib.rs:103-107 | every value `parse_oct_u64` returns is below 2^63, because it reads at most 21 octal digits |
| Instances.Hex12StaysBelow512 | src/lib.rs:128-132 | every value `parse_hex_u12` returns is at most 511, because it reads at most 3 octal digits; the same holds for `parse_hex_i12` (src/lib.rs:163-167) |
| Instances.TableDecodeFailures | src/lib.rs:51-221 | unsigned and octal instances can fail to decode only on an empty run; every signed hex and binary instance has an input that overflows |
| Expectations.DeadBeef | src/lib.rs:226-234 | `parse_hex_u64` on `"0xdeadbeef "` is `Done(" ", 3735928559)` |
| Expectations.AllFsIsMax | src/lib.rs:236-244 | sixteen `F`s and a space give `Done(" ", u64::MAX)` |
| Expectations.AllZerosIsZero | src/lib.rs:246-254 | sixteen `0`s and a space give `Done(" ", 0)` |
| Expectations.VeryShort | src/lib.rs:256-264 | `"0x0 "` gives `Done(" ", 0)` |
| Expectations.PreludeChecked | src/lib.rs:266-280 | `"0b000 "` and `"1x000 "` give `Error(Tag)` |
| Expectations.RunOnTerminates | src/lib.rs:282-290 | twenty `F`s and a space give `Done("FFFF ", u64::MAX)` |
| Expectations.PrefixOnly | src/lib.rs:24-47 | `"0x"` is `Incomplete(Size(3))`; `"0x "` is an empty run, the `unwrap` panic |
| Expectations.UnterminatedIsEof | src/lib.rs:34-36 | `"0xdeadbeef"` with no terminator is `Error(Eof)` |
| Expectations.OctU64MaxTruncated | src/lib.rs:103-107 | `parse_oct_u64` on `u64::MAX` in octal (22 digits) stops at its cap of 21 and gives `Done("7 ", 2^61 − 1)` |
| Expectations.HexI8Overflows | src/lib.rs:91-95 | `parse_hex_i8` on `"0xFF "` overflows (255 > 127) |
| Expectations.BoolI8Overflows | src/lib.rs:215-219 | `parse_bool_i8` on eight `1`s overflows (255 > 127) |

## Left out

- nom's `IResult`, `ErrorKind` and `Needed` are replaced by the local `Outcome`, `ErrorKind` and `Needed` datatypes. `is_hex_digit` and `is_oct_digit` are defined directly as the ASCII ranges.
- The remainder is a sequence value, not a sub-slice that borrows the input. Aliasing and lifetimes are not modelled.
- `str::from_utf8_unchecked` is not modelled. The decode reads the validated bytes directly, and `AcceptedAreDigits` states the fact that the unchecked conversion relies on.
- The process abort of `.unwrap()` is the outcome `DecodeFail(cause)`, not termination.
- `from_str_radix` is modelled only for sign-free digit strings. Its handling of a leading `+` or `-` is unreachable, because no digit predicate accepts those bytes. The outputs are `int` values bounded by each type's `MAX`. Negative values and type minima never arise.
- Radix.FromStrRadix: checks every byte for being a digit before it accumulates. So when a string has both an invalid digit and an overflow, the model reports `InvalidDigit`, whatever Rust's loop would report first. No parser can reach that case, because the scanned bytes are always digits.
- Parser.Parse: requires `MaxChars >= 1` and a radix in 2..36. Every table row meets both. A cap of 0 would make the source loop scan without a cap, and `from_str_radix` panics on a radix outside 2..36.
- The macro expansion, `#[inline(always)]` and the thirty separate function items are not modelled. The thirty instances are rows of `Instances.Table`, named by their Rust names.
