/**
 * The expectations of the crate's `test_parse_hex_u64`, and the decode
 * failures the table admits, on concrete inputs.
 */
module Expectations {
  import opened Digits
  import opened Radix
  import opened Parser
  import opened Instances

  /** The bytes of an ASCII string. */
  function Ascii(s: string): (r: seq<u8>)
    requires forall i :: 0 <= i < |s| ==> s[i] as int < 256
  {
    seq(|s|, i requires 0 <= i < |s| => s[i] as int as u8)
  }

  const Hex0x: seq<u8> := [0x30, 0x78]  // "0x"
  const Space: seq<u8> := [0x20]        // " "

  /** "0xdeadbeef " parses to 3735928559 with remainder " ". */
  lemma DeadBeef()
    ensures ParseSpec(Hex0x + Ascii("deadbeef") + Space, HexU64) == Done(Space, 3735928559)
  {
    DeadBeefValue();
    CompleteLaw(Ascii("deadbeef"), Space, HexU64);
  }

  lemma DeadBeefValue()
    ensures Horner(Ascii("deadbeef"), 16) == 0xdeadbeef
  {
    var s: seq<u8> := [];
    HornerSnoc(s, 0x64, 16); s := s + [0x64]; assert Horner(s, 16) == 0xd;
    HornerSnoc(s, 0x65, 16); s := s + [0x65]; assert Horner(s, 16) == 0xde;
    HornerSnoc(s, 0x61, 16); s := s + [0x61]; assert Horner(s, 16) == 0xdea;
    HornerSnoc(s, 0x64, 16); s := s + [0x64]; assert Horner(s, 16) == 0xdead;
    HornerSnoc(s, 0x62, 16); s := s + [0x62]; assert Horner(s, 16) == 0xdeadb;
    HornerSnoc(s, 0x65, 16); s := s + [0x65]; assert Horner(s, 16) == 0xdeadbe;
    HornerSnoc(s, 0x65, 16); s := s + [0x65]; assert Horner(s, 16) == 0xdeadbee;
    HornerSnoc(s, 0x66, 16); s := s + [0x66]; assert Horner(s, 16) == 0xdeadbeef;
    assert s == Ascii("deadbeef");
  }

  /** Sixteen `F`s (0x46) parse to `u64::MAX`. */
  lemma AllFsIsMax()
    ensures ParseSpec(Hex0x + seq(16, _ => 0x46 as u8) + Space, HexU64) == Done(Space, U64.Max())
  {
    HexPowers();
    FullRunValue(HexU64, 0x46);
  }

  /** Sixteen `0`s (0x30) parse to zero. */
  lemma AllZerosIsZero()
    ensures ParseSpec(Hex0x + seq(16, _ => 0x30 as u8) + Space, HexU64) == Done(Space, 0)
  {
    HornerAllZero(16, 16);
    CompleteLaw(seq(16, _ => 0x30 as u8), Space, HexU64);
  }

  /** A single digit is enough: "0x0 " parses to zero. */
  lemma VeryShort()
    ensures ParseSpec(Hex0x + Ascii("0") + Space, HexU64) == Done(Space, 0)
  {
    assert Ascii("0") == [] + [0x30];
    HornerSnoc([], 0x30, 16);
    CompleteLaw(Ascii("0"), Space, HexU64);
  }

  /** The hex parser rejects a binary prefix and a non-zero first byte with `Tag`. */
  lemma PreludeChecked()
    ensures ParseSpec(Ascii("0b000 "), HexU64) == Error(Tag)
    ensures ParseSpec(Ascii("1x000 "), HexU64) == Error(Tag)
  {
  }

  /**
   * Twenty `F`s: the first sixteen are decoded to `u64::MAX` and the last
   * four stay in the remainder, followed by the space.
   */
  lemma RunOnTerminates()
    ensures ParseSpec(Hex0x + seq(20, _ => 0x46 as u8) + Space, HexU64) ==
      Done(seq(4, _ => 0x46 as u8) + Space, U64.Max())
  {
    var d := seq(20, _ => 0x46 as u8);
    assert d[..16] == seq(16, _ => 0x46 as u8) && d[16..] == seq(4, _ => 0x46 as u8);
    HornerAllTop(0x46, 16, 16);
    HexPowers();
    TruncationLaw(d, Space, HexU64);
  }

  /**
   * The prefix alone is too short; a prefix followed by a non-digit is an
   * empty run, on which the source's `unwrap` panics.
   */
  lemma PrefixOnly()
    ensures ParseSpec(Hex0x, HexU64) == Incomplete(Size(3))
    ensures ParseSpec(Hex0x + Space, HexU64) == DecodeFail(Empty)
  {
    DecodeFailCauses(Hex0x + Space, HexU64);
  }

  /** Eight hex digits with nothing after them run into the end of the buffer. */
  lemma UnterminatedIsEof()
    ensures ParseSpec(Hex0x + Ascii("deadbeef"), HexU64) == Error(Eof)
  {
    var d := Ascii("deadbeef");
    assert forall i :: 0 <= i < |d| ==> HexDigits.Accepts(d[i]);
    EofLaw(d, HexU64);
  }

  /** `parse_hex_i8` overflows on "0xFF ". */
  lemma HexI8Overflows()
    ensures ParseSpec(Hex0x + seq(2, _ => 0x46 as u8) + Space, HexI8) == DecodeFail(PosOverflow)
  {
    HexPowers();
    FullRunValue(HexI8, 0x46);
  }

  /** `parse_bool_i8` overflows on "0b11111111 ". */
  lemma BoolI8Overflows()
    ensures ParseSpec([0x30, 0x62] + seq(8, _ => 0x31 as u8) + Space, BoolI8) == DecodeFail(PosOverflow)
  {
    BoolPowers();
    FullRunValue(BoolI8, 0x31);
  }

  /**
   * `u64::MAX` written in octal has 22 digits, one more than the cap of
   * `parse_oct_u64`: the first 21 ("1" and twenty `7`s) decode to 2^61 - 1
   * and the last `7` stays in the remainder.
   */
  lemma OctU64MaxTruncated()
    ensures ParseSpec([0x30, 0x6F] + ([0x31] + seq(21, _ => 0x37 as u8)) + Space, OctU64) ==
      Done([0x37] + Space, 0x1FFF_FFFF_FFFF_FFFF)
  {
    var d: seq<u8> := [0x31] + seq(21, _ => 0x37 as u8);
    var sevens := seq(20, _ => 0x37 as u8);
    assert d[..21] == [0x31] + sevens && d[21..] == [0x37];
    HornerSnoc([], 0x31, 8);
    assert [] + [0x31 as u8] == [0x31];
    HornerAllTop(0x37, 8, 20);
    HornerAppend([0x31], sevens, 8);
    OctPowers();
    assert Pow(8, 20) == 0x1000_0000_0000_0000;
    TruncationLaw(d, Space, OctU64);
  }
}
