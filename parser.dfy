/**
 * The shared body of every generated parser: a length guard, a two-byte
 * prefix check, a digit scan bounded by the end of the input and by a digit
 * cap, and a radix decode of the scanned digits.
 */
module Parser {
  import opened Digits
  import opened Radix

  /** Which digit predicate an instance is generated with. */
  datatype Alphabet = HexDigits | OctDigits | BoolDigits {

    predicate Accepts(b: u8) {
      match this
      case HexDigits => IsHexDigit(b)
      case OctDigits => IsOctDigit(b)
      case BoolDigits => IsBoolDigit(b)
    }

    /** The radix whose digits the predicate accepts. */
    function Radix(): nat {
      match this
      case HexDigits => 16
      case OctDigits => 8
      case BoolDigits => 2
    }
  }

  /** The parameters of one generated parser. */
  datatype Config = Config(prefix: (u8, u8), radix: nat, alphabet: Alphabet, maxChars: nat, out: IntType) {

    /** What the parser body needs of its parameters: a radix Rust accepts and a non-zero digit cap. */
    predicate Valid() {
      2 <= radix <= 36 && maxChars >= 1
    }

    /** A full run of `maxChars` digits, radix^maxChars - 1, fits the output type. */
    predicate CapFits() {
      Pow(radix, maxChars) - 1 <= out.Max()
    }

    /** The digit predicate accepts exactly the digits of the radix. */
    predicate Coherent() {
      Valid() && radix == alphabet.Radix()
    }
  }

  /** nom's error kinds as the parsers use them. */
  datatype ErrorKind = Tag | Eof

  datatype Needed = Size(n: nat)

  /**
   * What a parser returns. `DecodeFail` stands for the `unwrap` panic on a
   * failing `from_str_radix`.
   */
  datatype Outcome =
    | Done(rest: seq<u8>, value: int)
    | Incomplete(needed: Needed)
    | Error(kind: ErrorKind)
    | DecodeFail(cause: IntErrorKind)

  predicate PrefixMatches(input: seq<u8>, cfg: Config)
    requires |input| >= 2
  {
    input[0] == cfg.prefix.0 && input[1] == cfg.prefix.1
  }

  /**
   * The length of the run of digits at the front of `s`, stopped after `cap`
   * digits: every byte in the run is a digit, and unless the run hit the cap
   * or the end of `s` the byte after it is not.
   */
  function RunLength(s: seq<u8>, a: Alphabet, cap: nat): (n: nat)
    ensures n <= cap && n <= |s|
    ensures forall i :: 0 <= i < n ==> a.Accepts(s[i])
    ensures n < cap && n < |s| ==> !a.Accepts(s[n])
  {
    if cap == 0 || |s| == 0 || !a.Accepts(s[0]) then 0
    else 1 + RunLength(s[1..], a, cap - 1)
  }

  /**
   * The three conditions above determine the run length: any other length
   * would put a digit where RunLength's contract says there is none.
   */
  lemma RunLengthExact(s: seq<u8>, a: Alphabet, cap: nat, n: nat)
    requires n <= cap && n <= |s|
    requires forall i :: 0 <= i < n ==> a.Accepts(s[i])
    requires n == cap || n == |s| || !a.Accepts(s[n])
    ensures RunLength(s, a, cap) == n
  {
  }

  /**
   * The outcome of a parser with parameters `cfg` on `input`: too short is
   * `Incomplete(Size(3))`; a wrong prefix is `Error(Tag)`; a digit run that
   * reaches the end of the input within the cap is `Error(Eof)`; otherwise
   * the run is decoded and the bytes after it are the remainder.
   */
  function ParseSpec(input: seq<u8>, cfg: Config): Outcome
    requires cfg.Valid()
  {
    if |input| < 3 then Incomplete(Size(3))
    else if !PrefixMatches(input, cfg) then Error(Tag)
    else
      var n := RunLength(input[2..], cfg.alphabet, cfg.maxChars);
      if 2 + n == |input| then Error(Eof)
      else match FromStrRadix(input[2..2 + n], cfg.radix, cfg.out)
        case Ok(v) => Done(input[2 + n..], v)
        case Err(e) => DecodeFail(e)
  }

  /**
   * The generated parser body. The scan keeps a mutable index that starts
   * after the prefix; every byte it reads is inside the input.
   */
  method Parse(input: seq<u8>, cfg: Config) returns (out: Outcome)
    requires cfg.Valid()
    ensures out == ParseSpec(input, cfg)
  {
    if |input| < 3 {
      return Incomplete(Size(3));
    }
    if input[0..2] != [cfg.prefix.0, cfg.prefix.1] {
      return Error(Tag);
    }
    var index := 2;
    while cfg.alphabet.Accepts(input[index])
      invariant 2 <= index < |input|
      invariant index - 2 < cfg.maxChars
      invariant forall j :: 2 <= j < index ==> cfg.alphabet.Accepts(input[j])
      decreases |input| - index
    {
      index := index + 1;
      if |input| == index {
        RunLengthExact(input[2..], cfg.alphabet, cfg.maxChars, index - 2);
        return Error(Eof);
      }
      if index == cfg.maxChars + 2 {
        break;
      }
    }
    RunLengthExact(input[2..], cfg.alphabet, cfg.maxChars, index - 2);
    var s := input[2..index];
    match FromStrRadix(s, cfg.radix, cfg.out)
    case Ok(v) => out := Done(input[index..], v);
    case Err(e) => out := DecodeFail(e);
  }

  /** Any input shorter than three bytes asks for three, and only those do. */
  lemma ShortInputIncomplete(input: seq<u8>, cfg: Config)
    requires cfg.Valid()
    ensures ParseSpec(input, cfg).Incomplete? <==> |input| < 3
    ensures |input| < 3 ==> ParseSpec(input, cfg) == Incomplete(Size(3))
  {
  }

  /** A prefix mismatch is reported as `Tag`, whatever follows it, and nothing else is. */
  lemma PrefixMismatchIsTag(input: seq<u8>, cfg: Config)
    requires cfg.Valid()
    ensures ParseSpec(input, cfg) == Error(Tag) <==> |input| >= 3 && !PrefixMatches(input, cfg)
  {
  }

  /**
   * `Eof` is returned exactly when the prefix matches and every byte after
   * it is a digit, with no more than `maxChars` of them: the end-of-input
   * test comes before the cap test, so a run of exactly `maxChars` digits at
   * the end of the buffer is `Eof`.
   */
  lemma EofExactly(input: seq<u8>, cfg: Config)
    requires cfg.Valid()
    ensures ParseSpec(input, cfg) == Error(Eof) <==>
      |input| >= 3 && PrefixMatches(input, cfg) && |input| - 2 <= cfg.maxChars &&
      forall i :: 2 <= i < |input| ==> cfg.alphabet.Accepts(input[i])
  {
    if |input| >= 3 && PrefixMatches(input, cfg) {
      var s := input[2..];
      if |s| <= cfg.maxChars && forall i :: 2 <= i < |input| ==> cfg.alphabet.Accepts(input[i]) {
        RunLengthExact(s, cfg.alphabet, cfg.maxChars, |s|);
      }
    }
  }

  /**
   * On `Done(rest, v)` the input is the prefix, a non-empty run of at most
   * `maxChars` digits and a non-empty remainder; the run is maximal below
   * the cap; and `v` is the run's big-endian value, within the output type.
   */
  lemma DoneShape(input: seq<u8>, cfg: Config)
    requires cfg.Valid()
    requires ParseSpec(input, cfg).Done?
    ensures var rest := ParseSpec(input, cfg).rest;
      var k := |input| - |rest|;
      3 <= k < |input| && input[k..] == rest && PrefixMatches(input, cfg) &&
      input == input[..2] + input[2..k] + rest &&
      k - 2 <= cfg.maxChars &&
      (forall i :: 2 <= i < k ==> cfg.alphabet.Accepts(input[i])) &&
      (k - 2 < cfg.maxChars ==> !cfg.alphabet.Accepts(rest[0])) &&
      AllDigits(input[2..k], cfg.radix) &&
      ParseSpec(input, cfg).value == Horner(input[2..k], cfg.radix) <= cfg.out.Max()
  {
    var n := RunLength(input[2..], cfg.alphabet, cfg.maxChars);
    var k := 2 + n;
    assert input == input[..2] + input[2..k] + input[k..];
    forall i | 2 <= i < k ensures cfg.alphabet.Accepts(input[i]) {
      assert input[i] == input[2..][i - 2];
    }
  }

  /**
   * For a coherent configuration the scanned bytes are always digits of the
   * radix, so `from_str_radix` never sees an invalid digit: the only decode
   * failures are an empty run and a value above the type's maximum.
   */
  lemma DecodeFailCauses(input: seq<u8>, cfg: Config)
    requires cfg.Coherent()
    ensures ParseSpec(input, cfg) == DecodeFail(Empty) <==>
      |input| >= 3 && PrefixMatches(input, cfg) && !cfg.alphabet.Accepts(input[2])
    ensures ParseSpec(input, cfg) != DecodeFail(InvalidDigit)
    ensures ParseSpec(input, cfg) == DecodeFail(PosOverflow) ==>
      var n := RunLength(input[2..], cfg.alphabet, cfg.maxChars);
      n >= 1 && AllDigits(input[2..2 + n], cfg.radix) && Horner(input[2..2 + n], cfg.radix) > cfg.out.Max()
  {
    if |input| >= 3 && PrefixMatches(input, cfg) {
      var n := RunLength(input[2..], cfg.alphabet, cfg.maxChars);
      var s := input[2..2 + n];
      AcceptedAreDigits(s, cfg);
    }
  }

  /** Under a coherent configuration, a run the predicate accepts is a run of radix digits. */
  lemma AcceptedAreDigits(s: seq<u8>, cfg: Config)
    requires cfg.Coherent()
    requires forall i :: 0 <= i < |s| ==> cfg.alphabet.Accepts(s[i])
    ensures AllDigits(s, cfg.radix)
  {
    forall i | 0 <= i < |s| ensures ToDigit(s[i], cfg.radix).Some? {
      PredicatesMatchRadix(s[i]);
    }
  }

  /**
   * A run of one to `maxChars` digits followed by a non-digit decodes to its
   * big-endian value (or overflows), and everything after the run is
   * returned untouched.
   */
  lemma CompleteLaw(d: seq<u8>, tail: seq<u8>, cfg: Config)
    requires cfg.Coherent()
    requires 1 <= |d| <= cfg.maxChars
    requires forall i :: 0 <= i < |d| ==> cfg.alphabet.Accepts(d[i])
    requires |tail| > 0 && !cfg.alphabet.Accepts(tail[0])
    ensures AllDigits(d, cfg.radix)
    ensures ParseSpec([cfg.prefix.0, cfg.prefix.1] + d + tail, cfg) ==
      if Horner(d, cfg.radix) <= cfg.out.Max() then Done(tail, Horner(d, cfg.radix))
      else DecodeFail(PosOverflow)
  {
    AcceptedAreDigits(d, cfg);
    var input := [cfg.prefix.0, cfg.prefix.1] + d + tail;
    assert input[2..] == d + tail;
    RunLengthExact(d + tail, cfg.alphabet, cfg.maxChars, |d|);
    assert input[2..2 + |d|] == d;
    assert input[2 + |d|..] == tail;
    assert FromStrRadix(d, cfg.radix, cfg.out) ==
      if Horner(d, cfg.radix) <= cfg.out.Max() then Ok(Horner(d, cfg.radix)) else Err(PosOverflow);
  }

  /**
   * Digits beyond `maxChars` are not consumed: the first `maxChars` digits
   * are decoded and the surplus digits stay at the head of the remainder.
   */
  lemma TruncationLaw(d: seq<u8>, tail: seq<u8>, cfg: Config)
    requires cfg.Coherent()
    requires |d| > cfg.maxChars
    requires forall i :: 0 <= i < |d| ==> cfg.alphabet.Accepts(d[i])
    ensures AllDigits(d[..cfg.maxChars], cfg.radix)
    ensures ParseSpec([cfg.prefix.0, cfg.prefix.1] + d + tail, cfg) ==
      var v := Horner(d[..cfg.maxChars], cfg.radix);
      if v <= cfg.out.Max() then Done(d[cfg.maxChars..] + tail, v)
      else DecodeFail(PosOverflow)
  {
    var c := cfg.maxChars;
    AcceptedAreDigits(d[..c], cfg);
    var input := [cfg.prefix.0, cfg.prefix.1] + d + tail;
    assert input[2..] == d + tail;
    RunLengthExact(d + tail, cfg.alphabet, c, c);
    assert input[2..2 + c] == d[..c];
    assert input[2 + c..] == d[c..] + tail;
  }

  /**
   * When a full run of `maxChars` digits fits the output type, the decode
   * can only fail on an empty run: no input makes the parser overflow.
   */
  lemma NoOverflowWhenCapFits(input: seq<u8>, cfg: Config)
    requires cfg.Coherent() && cfg.CapFits()
    ensures ParseSpec(input, cfg).DecodeFail? ==> ParseSpec(input, cfg).cause == Empty
  {
    DecodeFailCauses(input, cfg);
    if ParseSpec(input, cfg) == DecodeFail(PosOverflow) {
      var n := RunLength(input[2..], cfg.alphabet, cfg.maxChars);
      PowMonotone(cfg.radix, n, cfg.maxChars);
      HornerBound(input[2..2 + n], cfg.radix);
    }
  }

  /**
   * A run of one to `maxChars` digits that ends the buffer is `Eof`, however
   * well-formed the literal would be with one more byte.
   */
  lemma EofLaw(d: seq<u8>, cfg: Config)
    requires cfg.Valid()
    requires 1 <= |d| <= cfg.maxChars
    requires forall i :: 0 <= i < |d| ==> cfg.alphabet.Accepts(d[i])
    ensures ParseSpec([cfg.prefix.0, cfg.prefix.1] + d, cfg) == Error(Eof)
  {
    var input := [cfg.prefix.0, cfg.prefix.1] + d;
    assert input[2..] == d;
    RunLengthExact(d, cfg.alphabet, cfg.maxChars, |d|);
  }

  /**
   * A full run of `maxChars` copies of the largest digit, followed by a
   * space, decodes to radix^maxChars - 1 when that fits the output type and
   * fails with `PosOverflow` (the source's `unwrap` panics) when it does not.
   */
  lemma FullRunValue(cfg: Config, top: u8)
    requires cfg.Coherent()
    requires ToDigit(top, cfg.radix) == Some(cfg.radix - 1)
    ensures ParseSpec([cfg.prefix.0, cfg.prefix.1] + seq(cfg.maxChars, _ => top) + [0x20], cfg) ==
      if cfg.CapFits() then Done([0x20], Pow(cfg.radix, cfg.maxChars) - 1) else DecodeFail(PosOverflow)
  {
    PredicatesMatchRadix(top);
    PredicatesMatchRadix(0x20);
    HornerAllTop(top, cfg.radix, cfg.maxChars);
    CompleteLaw(seq(cfg.maxChars, _ => top), [0x20], cfg);
  }
}
