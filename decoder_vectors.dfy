/** Codes from src/test/kotlin/commandFromCodeTest.kt decoded against the
    test table. */
module DecoderVectors {
  import opened Wrappers
  import opened Numbers
  import opened Sizes
  import opened Operands
  import opened Commands
  import opened MasmTable
  import opened Encoder
  import opened Decoder

  /** An opcode no entry carries selects nothing. */
  lemma WithOpCodeNone(ts: seq<AbstractCommand>, op: bv8)
    requires forall t :: t in ts ==> t.opCode != op
    ensures WithOpCode(ts, op) == []
  {
  }

  /** Opcode 88 selects the first two entries of the table. */
  lemma Select88()
    ensures WithOpCode(Table, 0x88) == [AbstractCommand("MOV", 0x88, Reg8, Reg8), AbstractCommand("MOV", 0x88, Reg8, Memory8)]
  {
    assert Table[0] == AbstractCommand("MOV", 0x88, Reg8, Reg8) && Table[1] == AbstractCommand("MOV", 0x88, Reg8, Memory8);
    assert Table[1..][1..] == Table[2..];
    WithOpCodeNone(Table[2..], 0x88);
  }

  /** The opcode digits of the code. */
  lemma Digits88()
    ensures HexByte("88") == 0x88
  {
    assert NumeralValue("8", 16) == 8;
    assert NumeralValue("88", 16) == 0x88;
  }

  /** The ModRM digits of the code. */
  lemma DigitsC4()
    ensures ToHex(0xC4) == "c4"
  {
    assert NumeralValue("c", 16) == 12;
    assert NumeralValue("c4", 16) == 0xC4;
    assert HexByte("c4") == 0xC4;
    HexByteOfToHex(0xC4);
  }

  /** ModRM C4 is mod 11, reg 000, r/m 100. */
  lemma FieldsC4()
    ensures High2(0xC4) == 3 && Middle3(0xC4) == 0 && Low3(0xC4) == 4
  {
    assert 0xC4 as int == 196;
  }

  /** With a memory destination, r/m 100 asks for a SIB byte that is not
      there. */
  lemma Memory8C4()
    ensures ParseCode(AbstractCommand("MOV", 0x88, Reg8, Memory8), "c4").Failure?
  {
    DigitsC4();
    assert "c4" == ToHex(0xC4) + "";
    FieldsC4();
    MemoryDestRm100(AbstractCommand("MOV", 0x88, Reg8, Memory8), 0xC4, "");
  }

  /** The fields of ModRM C4 against the register entry of `88`: reg 000
      is AL and r/m 100 is AH. */
  lemma Reg8C4ModRm()
    ensures ModRmByte(AbstractCommand("MOV", 0x88, Reg8, Reg8), 0xC4, "")
      == Success(Placed(AbstractCommand("MOV", 0x88, Reg8, Reg8), "", 0xC4,
                        Some(Operand("AL", Register, Byte)), Some(Operand("AH", Register, Byte)), false, false))
  {
    var t := AbstractCommand("MOV", 0x88, Reg8, Reg8);
    FieldsC4();
    assert RmSide(t).Width() == Byte && RegSide(t).Width() == Byte;
    assert RegisterRow(0, Byte) == AL;
    assert RegisterOperand(AL) == Operand("AL", Register, Byte) && RegisterOperand(AH) == Operand("AH", Register, Byte);
    RegisterPairModRm100(t, 0xC4, "");
  }

  /** The register entry of `88` reads ModRM C4 as `MOV AH, AL`. */
  lemma Reg8C4()
    ensures ParseCode(AbstractCommand("MOV", 0x88, Reg8, Reg8), "c4")
      == Success(Command(None, 0x88, Some(0xC4), None, None, None, Some("MOV"),
                         Some(Operand("AL", Register, Byte)), Some(Operand("AH", Register, Byte))))
  {
    var t := AbstractCommand("MOV", 0x88, Reg8, Reg8);
    DigitsC4();
    assert "c4" == ToHex(0xC4) + "";
    var d := Placed(t, "", 0xC4, Some(Operand("AL", Register, Byte)), Some(Operand("AH", Register, Byte)), false, false);
    Reg8C4ModRm();
    RegisterPairCode(t, 0xC4, "");
    assert ParseCode(t, "c4") == Success(Finished(t, d));
  }

  /** The code `88C4` reads back as `MOV AH, AL`: the `MOV r/m8, r8` entry
      puts the reg field (AL) in the source and r/m 100 names AH; the
      memory-destination entry for `88` wants a SIB byte and fails. */
  lemma Code88C4()
    ensures CommandFromHex(Table, "88c4")
      == Success([Command(None, 0x88, Some(0xC4), None, None, None, Some("MOV"),
                          Some(Operand("AL", Register, Byte)), Some(Operand("AH", Register, Byte)))])
  {
    Digits88();
    assert "88c4"[..2] == "88" && "88c4"[2..] == "c4";
    CommandFromHexSplit(Table, "88c4");
    Select88();
    var ts := [AbstractCommand("MOV", 0x88, Reg8, Reg8), AbstractCommand("MOV", 0x88, Reg8, Memory8)];
    Reg8C4();
    Memory8C4();
    assert ts[1..][1..] == [];
    assert Survivors(ts[1..], "c4") == [];
    assert Survivors(ts, "c4") == [ParseCode(ts[0], "c4").value];
  }

  /** The ModRM digits `e8` and `c5`. */
  lemma DigitsE8()
    ensures ToHex(0xE8) == "e8"
  {
    assert NumeralValue("e", 16) == 14;
    assert NumeralValue("e8", 16) == 0xE8;
    assert HexByte("e8") == 0xE8;
    HexByteOfToHex(0xE8);
  }

  lemma DigitsC5()
    ensures ToHex(0xC5) == "c5"
  {
    assert NumeralValue("c", 16) == 12;
    assert NumeralValue("c5", 16) == 0xC5;
    assert HexByte("c5") == 0xC5;
    HexByteOfToHex(0xC5);
  }

  /** The register entry of `88` reads ModRM E8 (mod 11, reg 101, r/m 000)
      as `MOV AL, CH`: the reg field is the source CH and r/m the
      destination AL. */
  lemma Reg8E8()
    ensures ParseCode(AbstractCommand("MOV", 0x88, Reg8, Reg8), "e8")
      == Success(Command(None, 0x88, Some(0xE8), None, None, None, Some("MOV"),
                         Some(Operand("CH", Register, Byte)), Some(Operand("AL", Register, Byte))))
  {
    var t := AbstractCommand("MOV", 0x88, Reg8, Reg8);
    DigitsE8();
    assert "e8" == ToHex(0xE8) + "";
    assert Compose(3, 5, 0) == 0xE8;
    assert Inverted(t) && RegSide(t).Width() == Byte && RmSide(t).Width() == Byte;
    assert RegisterRow(5, Byte) == CH && RegisterRow(0, Byte) == AL;
    RegisterPairDecode(t, 0xE8, "");
  }

  /** `commandRegReg` writes `MOV AL, CH` with AL in reg and CH in r/m,
      which is ModRM C5 under any template. */
  lemma WriteAlCh(t: AbstractCommand, source: string)
    requires FindRegister(source) == Some(CH)
    ensures CommandRegReg(t, source, AL).Success?
    ensures CommandRegReg(t, source, AL).value.modRm == Some(0xC5)
  {
    assert Compose(3, 0, 5) == 0xC5;
  }

  /** Neither byte register entry decodes that code: r/m 101 under mod 11
      fails, so `88C5` and `8AC5` do not read back as `MOV AL, CH`. */
  lemma Reg8C5(t: AbstractCommand)
    requires t == AbstractCommand("MOV", 0x88, Reg8, Reg8) || t == AbstractCommand("MOV", 0x8A, Reg8, Reg8)
    ensures ParseCode(t, "c5").Failure?
  {
    DigitsC5();
    assert "c5" == ToHex(0xC5) + "";
    assert Compose(3, 0, 5) == 0xC5;
    RegisterPairRm101(t, 0xC5, "");
  }
}
