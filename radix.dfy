/**
 * Big-endian radix decoding of a digit string into a fixed-width integer,
 * the part of Rust's `from_str_radix` the parsers rely on.
 */
module Radix {
  import opened Digits

  /** The output integer types that appear in the parser table. */
  datatype IntType = U8 | U16 | U32 | U64 | I8 | I16 | I32 | I64 {

    predicate Signed() {
      I8? || I16? || I32? || I64?
    }

    /** The type's `MAX` constant. */
    function Max(): nat {
      match this
      case U8 => 0xFF
      case U16 => 0xFFFF
      case U32 => 0xFFFF_FFFF
      case U64 => 0xFFFF_FFFF_FFFF_FFFF
      case I8 => 0x7F
      case I16 => 0x7FFF
      case I32 => 0x7FFF_FFFF
      case I64 => 0x7FFF_FFFF_FFFF_FFFF
    }
  }

  /** Rust's `IntErrorKind`, restricted to the kinds a sign-free digit string can raise. */
  datatype IntErrorKind = Empty | InvalidDigit | PosOverflow

  datatype Result<T> = Ok(value: T) | Err(error: IntErrorKind)

  function Pow(b: nat, n: nat): nat {
    if n == 0 then 1 else b * Pow(b, n - 1)
  }

  /** Every byte of `s` is a digit of `radix`. */
  predicate AllDigits(s: seq<u8>, radix: nat)
    requires 2 <= radix <= 36
  {
    forall i :: 0 <= i < |s| ==> ToDigit(s[i], radix).Some?
  }

  /** The value of a digit byte in `radix`; only ever applied to digits. */
  function DigitValue(b: u8, radix: nat): nat
    requires 2 <= radix <= 36
  {
    match ToDigit(b, radix)
    case Some(v) => v
    case None => 0
  }

  /** The big-endian value of a digit string, folded from the most significant digit down. */
  function Horner(s: seq<u8>, radix: nat): nat
    requires 2 <= radix <= 36
  {
    if |s| == 0 then 0
    else Horner(s[..|s| - 1], radix) * radix + DigitValue(s[|s| - 1], radix)
  }

  /** A string of n digits denotes a value below radix^n. */
  lemma {:induction false} HornerBound(s: seq<u8>, radix: nat)
    requires 2 <= radix <= 36
    requires AllDigits(s, radix)
    ensures Horner(s, radix) < Pow(radix, |s|)
  {
    if |s| > 0 {
      var p := s[..|s| - 1];
      assert AllDigits(p, radix) by {
        forall i | 0 <= i < |p| ensures ToDigit(p[i], radix).Some? {
          assert p[i] == s[i];
        }
      }
      HornerBound(p, radix);
      ShiftBound(Horner(p, radix), Pow(radix, |s| - 1), radix, DigitValue(s[|s| - 1], radix));
    }
  }

  /**
   * The accumulation inside `from_str_radix`: from the most significant
   * digit down, multiply the value so far by the radix and add the digit,
   * each with checked arithmetic, and give up (`None`) as soon as a
   * product or a sum exceeds `max`.
   */
  function CheckedHorner(s: seq<u8>, radix: nat, max: nat): Option<nat>
    requires 2 <= radix <= 36
  {
    if |s| == 0 then Some(0)
    else match CheckedHorner(s[..|s| - 1], radix, max)
      case None => None
      case Some(r) =>
        var d := DigitValue(s[|s| - 1], radix);
        if r * radix > max then None
        else if r * radix + d > max then None
        else Some(r * radix + d)
  }

  /**
   * Checking every intermediate product and sum against `max` gives up
   * exactly when the final value exceeds `max`, and otherwise yields it.
   */
  lemma {:induction false} CheckedHornerAgrees(s: seq<u8>, radix: nat, max: nat)
    requires 2 <= radix <= 36
    ensures CheckedHorner(s, radix, max) ==
      if Horner(s, radix) <= max then Some(Horner(s, radix)) else None
  {
    if |s| > 0 {
      var p := s[..|s| - 1];
      CheckedHornerAgrees(p, radix, max);
      HornerPrefixBounded(s, radix, |s| - 1);
    }
  }

  /**
   * `ty::from_str_radix(s, radix)` on a string without a sign: an empty
   * string is `Empty`, a byte that is not a digit of the radix is
   * `InvalidDigit`, an accumulation that passes the type's maximum is
   * `PosOverflow`; otherwise the big-endian value of the digits.
   */
  function FromStrRadix(s: seq<u8>, radix: nat, ty: IntType): (r: Result<int>)
    requires 2 <= radix <= 36
    ensures r == Err(Empty) <==> |s| == 0
    ensures r == Err(InvalidDigit) <==> |s| > 0 && !AllDigits(s, radix)
    ensures r == Err(PosOverflow) <==> |s| > 0 && AllDigits(s, radix) && Horner(s, radix) > ty.Max()
    ensures r.Ok? ==> r.value == Horner(s, radix) <= ty.Max()
  {
    if |s| == 0 then Err(Empty)
    else if !AllDigits(s, radix) then Err(InvalidDigit)
    else
      CheckedHornerAgrees(s, radix, ty.Max());
      match CheckedHorner(s, radix, ty.Max())
      case None => Err(PosOverflow)
      case Some(v) => Ok(v)
  }

  /** The value of a prefix never exceeds the value of the whole string. */
  lemma {:induction false} HornerPrefixBounded(s: seq<u8>, radix: nat, k: nat)
    requires 2 <= radix <= 36
    requires k <= |s|
    ensures Horner(s[..k], radix) <= Horner(s, radix)
  {
    if k < |s| {
      var p := s[..|s| - 1];
      assert p[..k] == s[..k];
      HornerPrefixBounded(p, radix, k);
      ShiftGrows(Horner(p, radix), radix);
    } else {
      assert s[..k] == s;
    }
  }

  /**
   * Decoding a concatenation: the digits of `p` are shifted up by one
   * radix place for each digit of `q`, and the value of `q` is added.
   */
  lemma {:induction false} HornerAppend(p: seq<u8>, q: seq<u8>, radix: nat)
    requires 2 <= radix <= 36
    ensures Horner(p + q, radix) == Horner(p, radix) * Pow(radix, |q|) + Horner(q, radix)
  {
    if |q| == 0 {
      assert p + q == p;
    } else {
      var q' := q[..|q| - 1];
      var d := DigitValue(q[|q| - 1], radix);
      HornerAppend(p, q', radix);
      assert (p + q)[..|p + q| - 1] == p + q';
      assert (p + q)[|p + q| - 1] == q[|q| - 1];
      var hp, pw, hq := Horner(p, radix), Pow(radix, |q'|), Horner(q', radix);
      calc {
        Horner(p + q, radix);
      ==
        (hp * pw + hq) * radix + d;
      ==
        { ShiftDistributes(hp, pw, hq, radix); }
        hp * (radix * pw) + (hq * radix + d);
      }
    }
  }

  lemma ShiftDistributes(a: nat, b: nat, c: nat, r: nat)
    ensures (a * b + c) * r == a * (r * b) + c * r
  {
  }

  /** One step of the fold, spelled out for concrete strings. */
  lemma HornerSnoc(p: seq<u8>, b: u8, radix: nat)
    requires 2 <= radix <= 36
    ensures Horner(p + [b], radix) == Horner(p, radix) * radix + DigitValue(b, radix)
  {
    assert (p + [b])[..|p|] == p;
  }

  /** n copies of the largest digit denote radix^n - 1, the largest n-digit value. */
  lemma {:induction false} HornerAllTop(b: u8, radix: nat, n: nat)
    requires 2 <= radix <= 36
    requires ToDigit(b, radix) == Some(radix - 1)
    ensures AllDigits(seq(n, _ => b), radix)
    ensures Horner(seq(n, _ => b), radix) == Pow(radix, n) - 1
  {
    if n > 0 {
      HornerAllTop(b, radix, n - 1);
      assert seq(n, _ => b)[..n - 1] == seq(n - 1, _ => b);
      PowPositive(radix, n - 1);
      TopShift(Pow(radix, n - 1), radix);
    }
  }

  /** n zero digits denote zero. */
  lemma {:induction false} HornerAllZero(radix: nat, n: nat)
    requires 2 <= radix <= 36
    ensures AllDigits(seq(n, _ => 0x30 as u8), radix)
    ensures Horner(seq(n, _ => 0x30 as u8), radix) == 0
  {
    if n > 0 {
      HornerAllZero(radix, n - 1);
      assert seq(n, _ => 0x30 as u8)[..n - 1] == seq(n - 1, _ => 0x30 as u8);
    }
  }

  /** More digits allow larger values: radix^m <= radix^n when m <= n. */
  lemma {:induction false} PowMonotone(b: nat, m: nat, n: nat)
    requires b >= 1 && m <= n
    ensures Pow(b, m) <= Pow(b, n)
  {
    if m < n {
      PowMonotone(b, m, n - 1);
      assert Pow(b, n - 1) >= 1 by { PowPositive(b, n - 1); }
    }
  }

  /** Appending a digit d < r to a value h < P gives a value below P * r. */
  lemma ShiftBound(h: nat, p: nat, r: nat, d: nat)
    requires h < p && d < r
    ensures h * r + d < r * p
  {
    calc {
      h * r + d;
    <
      h * r + r;
    ==
      (h + 1) * r;
    <=
      { MulLeft(h + 1, p, r); }
      p * r;
    ==
      r * p;
    }
  }

  lemma TopShift(p: nat, r: nat)
    requires p >= 1
    ensures (p - 1) * r + (r - 1) == r * p - 1
  {
  }

  lemma MulLeft(a: nat, b: nat, r: nat)
    requires a <= b
    ensures a * r <= b * r
  {
  }

  lemma ShiftGrows(h: nat, r: nat)
    requires r >= 1
    ensures h <= h * r
  {
    MulLeft(1, r, h);
  }

  lemma {:induction false} PowAdd(b: nat, m: nat, n: nat)
    ensures Pow(b, m + n) == Pow(b, m) * Pow(b, n)
  {
    if m > 0 {
      PowAdd(b, m - 1, n);
      assert Pow(b, m + n) == b * Pow(b, m - 1 + n);
    }
  }

  lemma {:induction false} PowPow(b: nat, k: nat, n: nat)
    ensures Pow(Pow(b, k), n) == Pow(b, k * n)
  {
    if n > 0 {
      PowPow(b, k, n - 1);
      PowAdd(b, k, k * (n - 1));
      assert k * n == k + k * (n - 1);
    }
  }

  lemma {:induction false} PowPositive(b: nat, n: nat)
    requires b >= 1
    ensures Pow(b, n) >= 1
  {
    if n > 0 {
      PowPositive(b, n - 1);
    }
  }
}
