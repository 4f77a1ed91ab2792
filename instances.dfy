/**
 * The thirty generated parsers as a parameter table, what the table
 * guarantees about overflow, and the expectations of the crate's test of
 * `parse_hex_u64`.
 */
module Instances {
  import opened Digits
  import opened Radix
  import opened Parser

  /** One generated parser: its Rust name and its parameters. */
  datatype Instance = Instance(name: string, cfg: Config)

  const HexPrefix: (u8, u8) := (0x30, 0x78)   // "0x"
  const OctPrefix: (u8, u8) := (0x30, 0x6F)   // "0o"
  const BoolPrefix: (u8, u8) := (0x30, 0x62)  // "0b"

  function HexConfig(out: IntType, maxChars: nat): Config {
    Config(HexPrefix, 16, HexDigits, maxChars, out)
  }

  function OctConfig(out: IntType, maxChars: nat): Config {
    Config(OctPrefix, 8, OctDigits, maxChars, out)
  }

  function BoolConfig(out: IntType, maxChars: nat): Config {
    Config(BoolPrefix, 2, BoolDigits, maxChars, out)
  }

  const HexU64: Config := HexConfig(U64, 16)
  const HexI8: Config := HexConfig(I8, 2)
  const OctU64: Config := OctConfig(U64, 21)
  const BoolI8: Config := BoolConfig(I8, 8)
  /** `parse_hex_u12` and `parse_hex_i12` are octal parsers despite their names. */
  const HexU12: Config := OctConfig(U16, 3)
  const HexI12: Config := OctConfig(I16, 3)

  /**
   * The parameter table, in the order the parsers are generated. The two
   * octal instances named `parse_hex_u12` and `parse_hex_i12` keep their
   * names; the third family is binary (prefix "0b").
   */
  const Table: seq<Instance> := [
    Instance("parse_hex_u64", HexU64),
    Instance("parse_hex_u32", HexConfig(U32, 8)),
    Instance("parse_hex_u16", HexConfig(U16, 4)),
    Instance("parse_hex_u8", HexConfig(U8, 2)),
    Instance("parse_hex_i64", HexConfig(I64, 16)),
    Instance("parse_hex_i32", HexConfig(I32, 8)),
    Instance("parse_hex_i16", HexConfig(I16, 4)),
    Instance("parse_hex_i8", HexI8),
    Instance("parse_oct_u64", OctU64),
    Instance("parse_oct_u36", OctConfig(U64, 12)),
    Instance("parse_oct_u32", OctConfig(U32, 10)),
    Instance("parse_oct_u24", OctConfig(U32, 8)),
    Instance("parse_oct_u16", OctConfig(U16, 5)),
    Instance("parse_hex_u12", HexU12),
    Instance("parse_oct_u8", OctConfig(U8, 2)),
    Instance("parse_oct_i64", OctConfig(I64, 21)),
    Instance("parse_oct_i36", OctConfig(I64, 12)),
    Instance("parse_oct_i32", OctConfig(I32, 10)),
    Instance("parse_oct_i24", OctConfig(I32, 8)),
    Instance("parse_oct_i16", OctConfig(I16, 5)),
    Instance("parse_hex_i12", HexI12),
    Instance("parse_oct_i8", OctConfig(I8, 2)),
    Instance("parse_bool_u64", BoolConfig(U64, 64)),
    Instance("parse_bool_u32", BoolConfig(U32, 32)),
    Instance("parse_bool_u16", BoolConfig(U16, 16)),
    Instance("parse_bool_u8", BoolConfig(U8, 8)),
    Instance("parse_bool_i64", BoolConfig(I64, 64)),
    Instance("parse_bool_i32", BoolConfig(I32, 32)),
    Instance("parse_bool_i16", BoolConfig(I16, 16)),
    Instance("parse_bool_i8", BoolI8)
  ]

  /**
   * Every instance pairs its predicate with the matching radix, and a full
   * run of digits fits the output type exactly for the unsigned instances
   * and the octal ones; the signed hex and binary instances can overflow.
   */
  lemma TableFacts()
    ensures |Table| == 30
    ensures forall i :: 0 <= i < |Table| ==> Table[i].cfg.Coherent()
    ensures forall i :: 0 <= i < |Table| ==>
      (Table[i].cfg.CapFits() <==> RowMayFit(Table[i].cfg))
  {
    forall i | 0 <= i < |Table|
      ensures Table[i].cfg.Coherent()
      ensures Table[i].cfg.CapFits() <==> RowMayFit(Table[i].cfg)
    {
      RowFacts(i);
    }
  }

  /** The rows whose full digit runs must fit: unsigned outputs and the octal family. */
  predicate RowMayFit(cfg: Config) {
    !cfg.out.Signed() || cfg.alphabet == OctDigits
  }

  lemma RowFacts(i: nat)
    requires i < |Table|
    ensures Table[i].cfg.Coherent()
    ensures Table[i].cfg.CapFits() <==> RowMayFit(Table[i].cfg)
  {
    if i < 8 {
      HexRows(i);
    } else if i < 22 {
      OctRows(i);
    } else {
      BoolRows(i);
    }
  }

  lemma HexRows(i: nat)
    requires i < 8
    ensures Table[i].cfg.Coherent()
    ensures Table[i].cfg.CapFits() <==> RowMayFit(Table[i].cfg)
  {
    HexPowers();
    if i == 0 {
      assert Table[0].cfg.Coherent() && (Table[0].cfg.CapFits() <==> RowMayFit(Table[0].cfg));
    } else if i == 1 {
      assert Table[1].cfg.Coherent() && (Table[1].cfg.CapFits() <==> RowMayFit(Table[1].cfg));
    } else if i == 2 {
      assert Table[2].cfg.Coherent() && (Table[2].cfg.CapFits() <==> RowMayFit(Table[2].cfg));
    } else if i == 3 {
      assert Table[3].cfg.Coherent() && (Table[3].cfg.CapFits() <==> RowMayFit(Table[3].cfg));
    } else if i == 4 {
      assert Table[4].cfg.Coherent() && (Table[4].cfg.CapFits() <==> RowMayFit(Table[4].cfg));
    } else if i == 5 {
      assert Table[5].cfg.Coherent() && (Table[5].cfg.CapFits() <==> RowMayFit(Table[5].cfg));
    } else if i == 6 {
      assert Table[6].cfg.Coherent() && (Table[6].cfg.CapFits() <==> RowMayFit(Table[6].cfg));
    } else if i == 7 {
      assert Table[7].cfg.Coherent() && (Table[7].cfg.CapFits() <==> RowMayFit(Table[7].cfg));
    }
  }

  lemma OctRows(i: nat)
    requires 8 <= i < 22
    ensures Table[i].cfg.Coherent()
    ensures Table[i].cfg.CapFits() <==> RowMayFit(Table[i].cfg)
  {
    if i < 15 {
      OctUnsignedRows(i);
    } else {
      OctSignedRows(i);
    }
  }

  lemma OctUnsignedRows(i: nat)
    requires 8 <= i < 15
    ensures Table[i].cfg.Coherent()
    ensures Table[i].cfg.CapFits() <==> RowMayFit(Table[i].cfg)
  {
    OctPowers();
    if i == 8 {
      assert Table[8].cfg.Coherent() && (Table[8].cfg.CapFits() <==> RowMayFit(Table[8].cfg));
    } else if i == 9 {
      assert Table[9].cfg.Coherent() && (Table[9].cfg.CapFits() <==> RowMayFit(Table[9].cfg));
    } else if i == 10 {
      assert Table[10].cfg.Coherent() && (Table[10].cfg.CapFits() <==> RowMayFit(Table[10].cfg));
    } else if i == 11 {
      assert Table[11].cfg.Coherent() && (Table[11].cfg.CapFits() <==> RowMayFit(Table[11].cfg));
    } else if i == 12 {
      assert Table[12].cfg.Coherent() && (Table[12].cfg.CapFits() <==> RowMayFit(Table[12].cfg));
    } else if i == 13 {
      assert Table[13].cfg.Coherent() && (Table[13].cfg.CapFits() <==> RowMayFit(Table[13].cfg));
    } else if i == 14 {
      assert Table[14].cfg.Coherent() && (Table[14].cfg.CapFits() <==> RowMayFit(Table[14].cfg));
    }
  }

  lemma OctSignedRows(i: nat)
    requires 15 <= i < 22
    ensures Table[i].cfg.Coherent()
    ensures Table[i].cfg.CapFits() <==> RowMayFit(Table[i].cfg)
  {
    OctPowers();
    if i == 15 {
      assert Table[15].cfg.Coherent() && (Table[15].cfg.CapFits() <==> RowMayFit(Table[15].cfg));
    } else if i == 16 {
      assert Table[16].cfg.Coherent() && (Table[16].cfg.CapFits() <==> RowMayFit(Table[16].cfg));
    } else if i == 17 {
      assert Table[17].cfg.Coherent() && (Table[17].cfg.CapFits() <==> RowMayFit(Table[17].cfg));
    } else if i == 18 {
      assert Table[18].cfg.Coherent() && (Table[18].cfg.CapFits() <==> RowMayFit(Table[18].cfg));
    } else if i == 19 {
      assert Table[19].cfg.Coherent() && (Table[19].cfg.CapFits() <==> RowMayFit(Table[19].cfg));
    } else if i == 20 {
      assert Table[20].cfg.Coherent() && (Table[20].cfg.CapFits() <==> RowMayFit(Table[20].cfg));
    } else if i == 21 {
      assert Table[21].cfg.Coherent() && (Table[21].cfg.CapFits() <==> RowMayFit(Table[21].cfg));
    }
  }

  lemma BoolRows(i: nat)
    requires 22 <= i < 30
    ensures Table[i].cfg.Coherent()
    ensures Table[i].cfg.CapFits() <==> RowMayFit(Table[i].cfg)
  {
    BoolPowers();
    if i == 22 {
      assert Table[22].cfg.Coherent() && (Table[22].cfg.CapFits() <==> RowMayFit(Table[22].cfg));
    } else if i == 23 {
      assert Table[23].cfg.Coherent() && (Table[23].cfg.CapFits() <==> RowMayFit(Table[23].cfg));
    } else if i == 24 {
      assert Table[24].cfg.Coherent() && (Table[24].cfg.CapFits() <==> RowMayFit(Table[24].cfg));
    } else if i == 25 {
      assert Table[25].cfg.Coherent() && (Table[25].cfg.CapFits() <==> RowMayFit(Table[25].cfg));
    } else if i == 26 {
      assert Table[26].cfg.Coherent() && (Table[26].cfg.CapFits() <==> RowMayFit(Table[26].cfg));
    } else if i == 27 {
      assert Table[27].cfg.Coherent() && (Table[27].cfg.CapFits() <==> RowMayFit(Table[27].cfg));
    } else if i == 28 {
      assert Table[28].cfg.Coherent() && (Table[28].cfg.CapFits() <==> RowMayFit(Table[28].cfg));
    } else if i == 29 {
      assert Table[29].cfg.Coherent() && (Table[29].cfg.CapFits() <==> RowMayFit(Table[29].cfg));
    }
  }

  /** The powers of two behind the radix^maxChars bounds of the table. */
  lemma TwoPowers()
    ensures Pow(2, 6) == 0x40 && Pow(2, 8) == 0x100 && Pow(2, 9) == 0x200
    ensures Pow(2, 15) == 0x8000 && Pow(2, 16) == 0x1_0000
    ensures Pow(2, 24) == 0x100_0000 && Pow(2, 30) == 0x4000_0000
    ensures Pow(2, 32) == 0x1_0000_0000 && Pow(2, 36) == 0x10_0000_0000
    ensures Pow(2, 63) == 0x8000_0000_0000_0000 && Pow(2, 64) == 0x1_0000_0000_0000_0000
  {
    assert Pow(2, 2) == 4 && Pow(2, 4) == 16 && Pow(2, 6) == 0x40 && Pow(2, 8) == 0x100;
    PowAdd(2, 8, 1);
    PowAdd(2, 8, 8);
    PowAdd(2, 15, 1);
    PowAdd(2, 16, 8);
    PowAdd(2, 16, 16);
    PowAdd(2, 30, 2);
    PowAdd(2, 32, 4);
    PowAdd(2, 32, 32);
    PowAdd(2, 63, 1);
  }

  /** 16^maxChars for the hex rows. */
  lemma HexPowers()
    ensures Pow(16, 2) == 0x100 && Pow(16, 4) == 0x1_0000
    ensures Pow(16, 8) == 0x1_0000_0000 && Pow(16, 16) == 0x1_0000_0000_0000_0000
  {
    TwoPowers();
    assert Pow(2, 4) == 16;
    PowPow(2, 4, 2);
    PowPow(2, 4, 4);
    PowPow(2, 4, 8);
    PowPow(2, 4, 16);
  }

  /** 8^maxChars for the octal rows. */
  lemma OctPowers()
    ensures Pow(8, 2) == 0x40 && Pow(8, 3) == 0x200 && Pow(8, 5) == 0x8000
    ensures Pow(8, 8) == 0x100_0000 && Pow(8, 10) == 0x4000_0000
    ensures Pow(8, 12) == 0x10_0000_0000 && Pow(8, 21) == 0x8000_0000_0000_0000
  {
    TwoPowers();
    assert Pow(2, 3) == 8;
    PowPow(2, 3, 2);
    PowPow(2, 3, 3);
    PowPow(2, 3, 5);
    PowPow(2, 3, 8);
    PowPow(2, 3, 10);
    PowPow(2, 3, 12);
    PowPow(2, 3, 21);
  }

  /** 2^maxChars for the binary rows. */
  lemma BoolPowers()
    ensures Pow(2, 8) == 0x100 && Pow(2, 16) == 0x1_0000
    ensures Pow(2, 32) == 0x1_0000_0000 && Pow(2, 64) == 0x1_0000_0000_0000_0000
  {
    TwoPowers();
  }

  /**
   * Every unsigned instance and every octal instance can fail to decode
   * only on an empty digit run; every signed hex or binary instance has an
   * input that overflows.
   */
  lemma TableDecodeFailures(i: nat)
    requires i < |Table|
    ensures RowMayFit(Table[i].cfg) ==>
      forall input :: ParseSpec(input, Table[i].cfg).DecodeFail? ==> ParseSpec(input, Table[i].cfg).cause == Empty
    ensures !RowMayFit(Table[i].cfg) ==>
      exists input :: ParseSpec(input, Table[i].cfg) == DecodeFail(PosOverflow)
  {
    var cfg := Table[i].cfg;
    RowFacts(i);
    if RowMayFit(cfg) {
      forall input ensures ParseSpec(input, cfg).DecodeFail? ==> ParseSpec(input, cfg).cause == Empty {
        NoOverflowWhenCapFits(input, cfg);
      }
    } else {
      var top: u8 := if cfg.radix == 16 then 0x46 else 0x31;
      FullRunValue(cfg, top);
    }
  }

  /**
   * The octal caps hold at most floor(bits / 3) digits of the width in the
   * parser's name, so some octal instances never reach their type's
   * maximum: `parse_oct_u64` reads at most 21 octal digits and every value
   * it returns is below 2^63.
   */
  lemma OctU64StaysBelowTopBit(input: seq<u8>)
    requires ParseSpec(input, OctU64).Done?
    ensures ParseSpec(input, OctU64).value < 0x8000_0000_0000_0000
  {
    DoneShape(input, OctU64);
    var k := |input| - |ParseSpec(input, OctU64).rest|;
    HornerBound(input[2..k], 8);
    PowMonotone(8, k - 2, 21);
    OctPowers();
  }

  /**
   * `parse_hex_u12` and `parse_hex_i12` read at most 3 octal digits, so
   * they cover 9 bits, not the 12 in their names: every value they return
   * is at most 511.
   */
  lemma Hex12StaysBelow512(input: seq<u8>, cfg: Config)
    requires cfg == HexU12 || cfg == HexI12
    requires ParseSpec(input, cfg).Done?
    ensures ParseSpec(input, cfg).value <= 511
  {
    DoneShape(input, cfg);
    var k := |input| - |ParseSpec(input, cfg).rest|;
    HornerBound(input[2..k], 8);
    PowMonotone(8, k - 2, 3);
    OctPowers();
  }
}
