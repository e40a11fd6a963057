/** Lines from src/test/kotlin/CommandFromStringTest.kt put through the
    builder that `commandFromString` chooses for them, against the test
    table's templates. */
module EncoderVectors {
  import opened Wrappers
  import opened Text
  import opened Numbers
  import opened Sizes
  import opened Operands
  import opened Commands
  import opened Utils
  import opened Encoder

  /** A build that succeeds with these ModRM, SIB and displacement fields. */
  predicate Encodes(r: Result<Command>, modRm: Option<bv8>, sib: Option<bv8>, displacement: Option<int>) {
    r.Success? && r.value.modRm == modRm && r.value.sib == sib && r.value.displacement == displacement
  }

  /** "MOV EAX, 1" with template B8 (Constant32 into EAX): the code text is
      "b801000000". */
  lemma RegConstOne()
    ensures var r := CommandRegConst(AbstractCommand("MOV", 0xB8, Constant32, EAX), "1", EAX);
      r.Success? && ToCodeString(r.value) == Some("b801000000")
  {
    assert ToIntOrNull("1", 16) == Some(1);
    assert CommandRegConst(AbstractCommand("MOV", 0xB8, Constant32, EAX), "1", EAX) == Success(MovEaxOne());
    MovEaxOneCode();
  }

  function MovEaxOne(): Command {
    Blank(0xB8).(immediate := Some(1), name := Some("MOV"),
      source := Some(Operand("1", Constant, Extended)), dest := Some(Operand("EAX", Register, Extended)))
  }

  lemma MovEaxOneCode()
    ensures ToCodeString(MovEaxOne()) == Some("b801000000")
  {
    var c := MovEaxOne();
    HexDigits(0xB8, "b8");
    ImmediateOne();
    MovEaxOneFields();
    OpcodeAndImmediate(c, "b8", "01000000");
    assert "b8" + "01000000" == "b801000000";
  }

  lemma MovEaxOneFields()
    ensures var c := MovEaxOne(); c.prefix.None? && c.modRm.None? && c.sib.None? && c.displacement.None? && c.immediate == Some(1)
  {
  }

  /** The code text of a command with only an opcode and an immediate. */
  lemma OpcodeAndImmediate(c: Command, op: string, imm: string)
    requires c.prefix.None? && c.modRm.None? && c.sib.None? && c.displacement.None?
    requires ToHex(c.opCode) == op && ReversedInt(c, c.immediate) == Some(imm)
    ensures ToCodeString(c) == Some(op + imm)
  {
    var r := ToCodeString(c).value;
    assert ByteFields(c) == 1 && |OptionalHex(c.prefix)| == 0;
    assert r[..2] == op && r[2..] == imm;
    assert r == r[..2] + r[2..];
  }

  /** 1 in a 32-bit field: "00000001", its bytes reversed. */
  lemma ImmediateOne()
    ensures ReversedInt(MovEaxOne(), Some(1)) == Some("01000000")
  {
    var c := MovEaxOne();
    MovEaxOneWidth();
    ReversedIntFixed(c, 1);
    FixedOne();
    GroupsOfOne();
  }

  lemma MovEaxOneWidth()
    ensures FieldDigits(MovEaxOne()) == 8 && 1 < Pow(16, 8)
  {
    assert Bits(Extended) == 32;
  }

  /** 1 in eight hex digits. */
  lemma FixedOne()
    ensures FixedDigits(1, 16, 8) == "00000001"
  {
    assert FixedDigits(0, 16, 1) == "0";
  }

  lemma GroupsOfOne()
    ensures ReverseGroups("00000001") == "01000000"
  {
  }

  /** "MOV EAX, [00112233]" with template 8B (Memory32 into Reg32): ModRM
      00 000 101 and the displacement 00112233. */
  lemma RegMemAddress()
    ensures Encodes(CommandRegMem1(AbstractCommand("MOV", 0x8B, Memory32, Reg32), "00112233", EAX),
      Some(0x05), None, Some(0x0011_2233))
  {
    Literal00112233();
    RegMem1Address(AbstractCommand("MOV", 0x8B, Memory32, Reg32), "00112233", EAX);
    assert Compose(0, 0, 5) == 0x05;
  }

  /** "MOV EAX, [00112233][ECX*4]": ModRM 00 000 100, SIB 10 001 101 (scale
      4, index ECX, no base) and the displacement. */
  lemma RegMemScaledDisp(source: Operand)
    ensures Encodes(CommandRegMem2(AbstractCommand("MOV", 0x8B, Memory32, Reg32), source, EAX, ["00112233", "ECX*4"]),
      Some(0x04), Some(0x8D), Some(0x0011_2233))
  {
    Literal00112233();
    TermEcxTimes4();
    ScaledDispBytes(AbstractCommand("MOV", 0x8B, Memory32, Reg32), source, "00112233", "ECX*4");
  }

  lemma ScaledDispBytes(t: AbstractCommand, source: Operand, disp: string, term: string)
    requires IsMemoryAddress(disp) && ToIntOrNull(disp, 16) == Some(0x0011_2233)
    requires '*' in term && ParseMultiplication(term) == Success(Scaled(2, ECX))
    ensures Encodes(CommandRegMem2(t, source, EAX, [disp, term]), Some(0x04), Some(0x8D), Some(0x0011_2233))
  {
    ScaledDispConstants();
    RegMem2ScaledDispOrder(t, source, EAX, term, disp);
    RegMem2ScaledDisp(t, source, EAX, term, disp);
  }

  lemma ScaledDispConstants()
    ensures !InStack(EAX) && Compose(0, EAX.AddressOr0(), 4) == 0x04 && Compose(2, ECX.AddressOr0(), 5) == 0x8D
  {
    assert EAX.AddressOr0() == 0 && ECX.AddressOr0() == 1;
  }

  /** "MOV [11223344][EBX*4][EDX], ECX" with template 89 (Reg32 into
      Memory32): ModRM 10 001 100, SIB 10 011 010 (scale 4, index EBX, base
      EDX) and the displacement; the same for every order of the blocks. */
  lemma MemDestThree(blocks: seq<string>)
    requires multiset(blocks) == multiset{"11223344", "EBX*4", "EDX"}
    ensures Encodes(CommandMemDest(AbstractCommand("MOV", 0x89, Reg32, Memory32), "ECX", Bracketed(blocks)),
      Some(0x8C), Some(0x9A), Some(0x1122_3344))
  {
    var t := AbstractCommand("MOV", 0x89, Reg32, Memory32);
    NameEdx();
    NameEcx();
    BlocksOfThree(blocks);
    SplitBracketed(blocks);
    Literal11223344();
    TermEbxTimes4();
    MemDestBytes(t, "ECX", Bracketed(blocks), "11223344", "EBX*4", "EDX");
  }

  /** The destination text of the test line itself. */
  lemma MemDestLine()
    ensures Encodes(CommandMemDest(AbstractCommand("MOV", 0x89, Reg32, Memory32), "ECX", "[11223344][EBX*4][EDX]"),
      Some(0x8C), Some(0x9A), Some(0x1122_3344))
  {
    var blocks := ["11223344", "EBX*4", "EDX"];
    assert Bracketed(blocks) == "[11223344][EBX*4][EDX]" by {
      assert Bracketed(blocks[2..]) == "[EDX]";
    }
    MemDestThree(blocks);
  }

  lemma MemDestBytes(t: AbstractCommand, source: string, dest: string, literal: string, term: string, register: string)
    requires t.source == Reg32 && FindRegister(source) == Some(ECX) && FindRegister(register) == Some(EDX)
    requires multiset(SplitMemoryAddress(dest)) == multiset{literal, term, register}
    requires IsMemoryAddress(literal) && ToIntOrNull(literal, 16) == Some(0x1122_3344)
    requires '*' in term && ParseMultiplication(term) == Success(Scaled(2, EBX))
    ensures Encodes(CommandMemDest(t, source, dest), Some(0x8C), Some(0x9A), Some(0x1122_3344))
  {
    MemDestConstants();
    SourceEcx(t, source);
    MemDestThreeBlocks(t, source, dest, literal, term, register);
  }

  /** ECX as the source of a Reg32 template: reg field 001, no immediate. */
  lemma SourceEcx(t: AbstractCommand, source: string)
    requires t.source == Reg32 && FindRegister(source) == Some(ECX)
    ensures MemDestSource(t, source) == Success(SourceFields(Some(1), None))
  {
    MemDestSourceRegister(t, source, ECX);
    EcxAsSource();
  }

  lemma EcxAsSource()
    ensures ECX != Reg32 && ECX.AddressOr0() == 1
  {
  }

  lemma NameEdx()
    ensures FindRegister("EDX") == Some(EDX)
  {
    EdxName();
    FindRegisterOwnName(EDX);
  }

  lemma EdxName()
    ensures EDX.Name() == "EDX" && EDX.IsReg()
  {
  }

  lemma NameEcx()
    ensures FindRegister("ECX") == Some(ECX)
  {
    EcxName();
    FindRegisterOwnName(ECX);
  }

  lemma EcxName()
    ensures ECX.Name() == "ECX" && ECX.IsReg()
  {
  }

  lemma MemDestConstants()
    ensures ECX != Reg32 && ECX.AddressOr0() == 1
    ensures Compose(2, 1, 4) == 0x8C && Compose(2, EBX.AddressOr0(), EDX.AddressOr0()) == 0x9A
  {
    assert EBX.AddressOr0() == 3 && EDX.AddressOr0() == 2;
  }

  /** A permutation of the three blocks has three bracket-free blocks. */
  lemma BlocksOfThree(blocks: seq<string>)
    requires multiset(blocks) == multiset{"11223344", "EBX*4", "EDX"}
    ensures blocks != [] && forall i :: 0 <= i < |blocks| ==> NoBrackets(blocks[i])
  {
    assert |blocks| == 3;
    forall i | 0 <= i < |blocks| ensures NoBrackets(blocks[i]) {
      assert blocks[i] in multiset(blocks);
    }
  }

  lemma Literal00112233()
    ensures IsMemoryAddress("00112233") && ToIntOrNull("00112233", 16) == Some(0x0011_2233)
  {
    assert NumeralValue("0", 16) == 0;
    NumeralAppend("0", '0', "00");
    NumeralAppend("00", '1', "001");
    NumeralAppend("001", '1', "0011");
    NumeralAppend("0011", '2', "00112");
    NumeralAppend("00112", '2', "001122");
    NumeralAppend("001122", '3', "0011223");
    NumeralAppend("0011223", '3', "00112233");
    assert NumeralValue("00112233", 16) == 0x0011_2233;
    Unsigned("00112233", 0x0011_2233);
  }

  lemma Literal11223344()
    ensures IsMemoryAddress("11223344") && ToIntOrNull("11223344", 16) == Some(0x1122_3344)
  {
    assert NumeralValue("1", 16) == 1;
    NumeralAppend("1", '1', "11");
    NumeralAppend("11", '2', "112");
    NumeralAppend("112", '2', "1122");
    NumeralAppend("1122", '3', "11223");
    NumeralAppend("11223", '3', "112233");
    NumeralAppend("112233", '4', "1122334");
    NumeralAppend("1122334", '4', "11223344");
    assert NumeralValue("11223344", 16) == 0x1122_3344;
    Unsigned("11223344", 0x1122_3344);
  }

  /** Eight hex digits of a value that is an `Int`. */
  lemma Unsigned(s: string, v: nat)
    requires |s| == 8 && AllDigits(s, 16) && NumeralValue(s, 16) == v && v <= INT_MAX
    requires forall i :: 0 <= i < |s| ==> '0' <= s[i] <= '9'
    ensures IsMemoryAddress(s) && ToIntOrNull(s, 16) == Some(v)
  {
  }

  /** One more digit multiplies the value by 16 and adds the digit. */
  lemma NumeralAppend(s: string, c: char, t: string)
    requires AllDigits(s, 16) && DigitValue(c, 16).Some? && t == s + [c]
    ensures AllDigits(t, 16)
    ensures NumeralValue(t, 16) == NumeralValue(s, 16) * 16 + DigitValue(c, 16).value
  {
    assert t[..|s|] == s;
  }

  /** "ECX*4" is index ECX with SS 10. */
  lemma TermEcxTimes4()
    ensures ParseMultiplication("ECX*4") == Success(Scaled(2, ECX))
  {
    TermTimes4("ECX*4", "ECX", ECX);
  }

  /** "EBX*4" is index EBX with SS 10. */
  lemma TermEbxTimes4()
    ensures ParseMultiplication("EBX*4") == Success(Scaled(2, EBX))
  {
    TermTimes4("EBX*4", "EBX", EBX);
  }

  /** A register other than EBP and ESP, written by name, times 4. */
  lemma TermTimes4(term: string, name: string, r: AbstractOperand)
    requires r.IsReg() && !InStack(r) && name == r.Name() && term == name + "*4"
    requires name != [] && '*' !in name && IsTrimmed(name) && !('0' <= name[0] <= '9') && name[0] != '-' && name[0] != '+'
    ensures ParseMultiplication(term) == Success(Scaled(2, r))
  {
    TermParts(term, name, "4");
    ScaleFour(name);
    NamedRegister(name, r);
    ScaleFieldFour();
    TermOf(name, "4", r, 4);
  }

  lemma ScaleFieldFour()
    ensures ScaleField(4) == Some(2)
  {
  }

  /** A term with its register and its scale found parses to them. */
  lemma TermOf(first: string, second: string, r: AbstractOperand, n: int)
    requires FindRegister(first) == Some(r) && !InStack(r) && MulScale(first, second) == Some(n) && ScaleField(n).Some?
    ensures ParseTerm(first, second) == Success(Scaled(ScaleField(n).value, r))
  {
  }

  /** A register is found under its name. */
  lemma NamedRegister(s: string, r: AbstractOperand)
    requires r.IsReg() && s == r.Name()
    ensures FindRegister(s) == Some(r)
  {
    FindRegisterOwnName(r);
  }

  lemma ScaleFour(name: string)
    requires name != [] && !('0' <= name[0] <= '9') && name[0] != '-' && name[0] != '+'
    ensures MulScale(name, "4") == Some(4)
  {
    NotDecimal(name);
    DecimalFour();
  }

  lemma NotDecimal(s: string)
    requires s != [] && !('0' <= s[0] <= '9') && s[0] != '-' && s[0] != '+'
    ensures ToIntOrNull(s, 10).None?
  {
    assert DigitValue(s[0], 10).None?;
  }

  lemma DecimalFour()
    ensures ToIntOrNull("4", 10) == Some(4)
  {
    assert DigitValue('4', 10) == Some(4);
    assert NumeralValue("4", 10) == 4 by {
      assert "4"[..0] == [];
    }
  }

  /** The two trimmed sides of a `reg*scale` term. */
  lemma TermParts(term: string, reg: string, scale: string)
    requires term == reg + "*" + scale && '*' !in reg && IsTrimmed(reg) && IsTrimmed(scale)
    ensures ParseMultiplication(term) == ParseTerm(reg, scale)
  {
    assert term == reg + ['*'] + scale;
    SubstringsAtFirst(reg, '*', scale);
    TrimOfTrimmed(reg);
    TrimOfTrimmed(scale);
  }

  /** The two hex digits of a byte are those that read as it. */
  lemma HexDigits(b: bv8, h: string)
    requires |h| == 2 && AllDigits(h, 16) && NumeralValue(h, 16) == b as nat && ToLower(h) == h
    ensures ToHex(b) == h
  {
    FixedDigitsOfValue(h, 16);
    PaddedIsFixed(b as nat, 16, 2);
  }
}
