/** The memory-operand builders of converters/Masm32Converter.kt as the
    source writes them: local `modRm`, `sib`, `displacement` and
    `immediate` variables assembled with shifts and ors, each method proved
    to compute what the corresponding function of `Encoder` specifies. */
module EncoderMethods {
  import opened Wrappers
  import opened Text
  import opened Numbers
  import opened Operands
  import opened Commands
  import opened Utils
  import opened Encoder

  /** The `x or (y shl 3) or z` the builders assemble ModRM and SIB bytes
      with: a 2-bit field shifted to bits 7-6, a 3-bit field shifted to
      bits 5-3, and a 3-bit field in bits 2-0. */
  method PackByte(hi: bv8, mid: bv8, lo: bv8) returns (b: bv8)
    requires hi < 4 && mid < 8 && lo < 8
    ensures b == Compose(hi, mid, lo)
  {
    b := hi << 6;
    var field: bv8 := mid << 3;
    b := b | field | lo;
  }

  /** `[disp]`, the first branch of `commandRegMem1`: r/m 101. */
  method EncodeAddressOnly(template: AbstractCommand, op: Operand, dispText: string, dest: AbstractOperand)
    returns (r: Result<Command>)
    ensures r == AddressOnly(template, op, dispText, dest)
  {
    var modRm := PackByte(0, dest.AddressOr0(), 0x05);
    var displacement := ParseHex(dispText);
    if displacement.Failure? {
      assert AddressOnly(template, op, dispText, dest).Failure?;
      return Failure;
    }
    r := Success(Command(None, template.opCode, Some(modRm), None, Some(displacement.value), None, Some(template.name),
      Some(op), Some(OperandOf(dest))));
    assert r == AddressOnly(template, op, dispText, dest);
  }

  /** `[reg]`, the second branch of `commandRegMem1`: the register in r/m. */
  method EncodeBaseOnly(template: AbstractCommand, op: Operand, indexReg: AbstractOperand, dest: AbstractOperand)
    returns (r: Result<Command>)
    ensures r == BaseOnly(template, op, indexReg, dest)
  {
    if InStack(indexReg) {
      assert BaseOnly(template, op, indexReg, dest).Failure?;
      return Failure;
    }
    var modRm := PackByte(0, dest.AddressOr0(), indexReg.AddressOr0());
    r := Success(Command(None, template.opCode, Some(modRm), None, None, None, Some(template.name),
      Some(op), Some(OperandOf(dest))));
    assert r == BaseOnly(template, op, indexReg, dest);
  }

  /** `[reg*scale]`, the third branch of `commandRegMem1`: r/m 100, SIB
      base 101 and a zero displacement. */
  method EncodeScaledOnly(template: AbstractCommand, op: Operand, term: string, dest: AbstractOperand)
    returns (r: Result<Command>)
    ensures r == ScaledOnly(template, op, term, dest)
  {
    var m := ParseMultiplication(term);
    if m.Failure? {
      assert ScaledOnly(template, op, term, dest).Failure?;
      return Failure;
    }
    var modRm := PackByte(0, dest.AddressOr0(), 0x04);
    var sib := PackByte(m.value.scale, m.value.reg.AddressOr0(), 0x05);
    r := Success(Command(None, template.opCode, Some(modRm), Some(sib), Some(0), None, Some(template.name),
      Some(op), Some(OperandOf(dest))));
    assert r == ScaledOnly(template, op, term, dest);
  }

  /** `commandRegMem1`: the block's form chooses the branch. */
  method EncodeRegMem1(template: AbstractCommand, source: string, dest: AbstractOperand) returns (r: Result<Command>)
    ensures r == CommandRegMem1(template, source, dest)
  {
    var indexReg := FindRegister(source);
    var op := TemplateOperand("[" + source + "]", template.source);
    if IsMemoryAddress(source) {
      r := EncodeAddressOnly(template, op, source, dest);
    } else if indexReg.Some? {
      r := EncodeBaseOnly(template, op, indexReg.value, dest);
    } else if '*' in source {
      r := EncodeScaledOnly(template, op, source, dest);
    } else {
      r := Failure;
    }
  }

  /** `[reg][disp]` and `[disp][reg]`, the first two branches of
      `commandRegMem2`: mod 10 and the register in r/m. */
  method EncodeBaseDisp(template: AbstractCommand, source: Operand, dest: AbstractOperand, reg: AbstractOperand, dispText: string)
    returns (r: Result<Command>)
    ensures r == BaseDisp(template, source, dest, reg, dispText)
  {
    if InStack(reg) {
      assert BaseDisp(template, source, dest, reg, dispText).Failure?;
      return Failure;
    }
    var modRm := PackByte(0x02, dest.AddressOr0(), reg.AddressOr0());
    var displacement := ParseHex(dispText);
    if displacement.Failure? {
      assert BaseDisp(template, source, dest, reg, dispText).Failure?;
      return Failure;
    }
    r := Success(Command(None, template.opCode, Some(modRm), None, Some(displacement.value), None, Some(template.name),
      Some(source), Some(OperandOf(dest))));
    assert r == BaseDisp(template, source, dest, reg, dispText);
  }

  /** `[reg][reg]`, the third branch of `commandRegMem2`: r/m 100, the first
      register the SIB index and the second its base. */
  method EncodeBaseIndex(template: AbstractCommand, source: Operand, dest: AbstractOperand, reg1: AbstractOperand, reg2: AbstractOperand)
    returns (r: Result<Command>)
    ensures r == BaseIndex(template, source, dest, reg1, reg2)
  {
    if InStack(reg1) || InStack(reg2) {
      assert BaseIndex(template, source, dest, reg1, reg2).Failure?;
      return Failure;
    }
    var modRm := PackByte(0, dest.AddressOr0(), 0x04);
    var sib := PackByte(0, reg1.AddressOr0(), reg2.AddressOr0());
    r := Success(Command(None, template.opCode, Some(modRm), Some(sib), None, None, Some(template.name),
      Some(source), Some(OperandOf(dest))));
    assert r == BaseIndex(template, source, dest, reg1, reg2);
  }

  /** A scaled term and a register, the fourth branch of `commandRegMem2`:
      r/m 100, the scaled index and the register as SIB base. */
  method EncodeScaledBase(template: AbstractCommand, source: Operand, dest: AbstractOperand, term: string,
                          baseReg: Option<AbstractOperand>, other: Option<AbstractOperand>)
    returns (r: Result<Command>)
    ensures r == ScaledBase(template, source, dest, term, baseReg, other)
  {
    if MaybeInStack(other) || MaybeInStack(baseReg) {
      assert ScaledBase(template, source, dest, term, baseReg, other).Failure?;
      return Failure;
    }
    var m := ParseMultiplication(term);
    if m.Failure? {
      assert ScaledBase(template, source, dest, term, baseReg, other).Failure?;
      return Failure;
    }
    var c := ScaledBaseBytes(template, source, dest, m.value, baseReg);
    r := Success(c);
  }

  /** The bytes of the fourth branch once the term has parsed. */
  method ScaledBaseBytes(template: AbstractCommand, source: Operand, dest: AbstractOperand, m: Scaled,
                         baseReg: Option<AbstractOperand>) returns (c: Command)
    requires m.scale < 4
    ensures c == MemorySourced(template, 0, 4, Some(Compose(m.scale, m.reg.AddressOr0(), AddressOrZero(baseReg))), None, source, dest)
  {
    var modRm := PackByte(0, dest.AddressOr0(), 0x04);
    var sib := PackByte(m.scale, m.reg.AddressOr0(), AddressOrZero(baseReg));
    c := Command(None, template.opCode, Some(modRm), Some(sib), None, None, Some(template.name),
      Some(source), Some(OperandOf(dest)));
    MemorySourcedFields(template, 0, 4, Some(sib), None, source, dest);
  }

  /** A scaled term and a displacement, the fifth branch of
      `commandRegMem2`: r/m 100 and SIB base 101. */
  method EncodeScaledDisp(template: AbstractCommand, source: Operand, dest: AbstractOperand, term: string, dispText: string)
    returns (r: Result<Command>)
    ensures r == ScaledDisp(template, source, dest, term, dispText)
  {
    var m := ParseMultiplication(term);
    if m.Failure? {
      assert ScaledDisp(template, source, dest, term, dispText).Failure?;
      return Failure;
    }
    var displacement := ParseHex(dispText);
    if displacement.Failure? {
      assert ScaledDisp(template, source, dest, term, dispText).Failure?;
      return Failure;
    }
    var modRm := PackByte(0, dest.AddressOr0(), 0x04);
    var sib := PackByte(m.value.scale, m.value.reg.AddressOr0(), 0x05);
    r := Success(Command(None, template.opCode, Some(modRm), Some(sib), Some(displacement.value), None, Some(template.name),
      Some(source), Some(OperandOf(dest))));
    assert r == ScaledDisp(template, source, dest, term, dispText);
  }

  /** Which builder `CommandRegMem2` calls, form by form. */
  lemma BaseDispChosen(template: AbstractCommand, source: Operand, dest: AbstractOperand, memory: seq<string>,
                       base: AbstractOperand, dispText: string)
    requires |memory| == 2 && !InStack(dest) && Form2Of(memory) == BaseDispForm(base, dispText)
    ensures CommandRegMem2(template, source, dest, memory) == BaseDisp(template, source, dest, base, dispText)
  {
  }

  lemma BaseIndexChosen(template: AbstractCommand, source: Operand, dest: AbstractOperand, memory: seq<string>,
                        index: AbstractOperand, base: AbstractOperand)
    requires |memory| == 2 && !InStack(dest) && Form2Of(memory) == BaseIndexForm(index, base)
    ensures CommandRegMem2(template, source, dest, memory) == BaseIndex(template, source, dest, index, base)
  {
  }

  lemma ScaledBaseChosen(template: AbstractCommand, source: Operand, dest: AbstractOperand, memory: seq<string>,
                         term: string, base: Option<AbstractOperand>, other: Option<AbstractOperand>)
    requires |memory| == 2 && !InStack(dest) && Form2Of(memory) == ScaledBaseForm(term, base, other)
    ensures CommandRegMem2(template, source, dest, memory) == ScaledBase(template, source, dest, term, base, other)
  {
  }

  lemma ScaledDispChosen(template: AbstractCommand, source: Operand, dest: AbstractOperand, memory: seq<string>,
                         term: string, dispText: string)
    requires |memory| == 2 && !InStack(dest) && Form2Of(memory) == ScaledDispForm(term, dispText)
    ensures CommandRegMem2(template, source, dest, memory) == ScaledDisp(template, source, dest, term, dispText)
  {
  }

  /** `commandRegMem2`: the form of the blocks chooses the branch. */
  method EncodeRegMem2(template: AbstractCommand, source: Operand, dest: AbstractOperand, memory: seq<string>)
    returns (r: Result<Command>)
    requires |memory| == 2
    ensures r == CommandRegMem2(template, source, dest, memory)
  {
    if InStack(dest) {
      return Failure;
    }
    var form := Form2Of(memory);
    match form {
      case BaseDispForm(base, dispText) =>
        BaseDispChosen(template, source, dest, memory, base, dispText);
        r := EncodeBaseDisp(template, source, dest, base, dispText);
      case BaseIndexForm(index, base) =>
        BaseIndexChosen(template, source, dest, memory, index, base);
        r := EncodeBaseIndex(template, source, dest, index, base);
      case ScaledBaseForm(term, base, other) =>
        ScaledBaseChosen(template, source, dest, memory, term, base, other);
        r := EncodeScaledBase(template, source, dest, term, base, other);
      case ScaledDispForm(term, dispText) =>
        ScaledDispChosen(template, source, dest, memory, term, dispText);
        r := EncodeScaledDisp(template, source, dest, term, dispText);
      case NoForm =>
        r := Failure;
    }
  }

  /** One more block of the scan, as the loop takes it. */
  lemma ScanStep(st: Scan3, blocks: seq<string>, i: nat)
    requires st.Valid() && i < |blocks|
    ensures Scan(st, blocks[i..]) ==
      match Step3(st, blocks[i])
      case Failure => Failure
      case Success(next) => Scan(next, blocks[i + 1..])
  {
    assert blocks[i..][1..] == blocks[i + 1..];
  }

  /** The body of the `forEach` in `commandRegMem3`: one block updates what
      the scan has gathered, or throws. */
  method EncodeStep3(st: Scan3, block: string) returns (r: Result<Scan3>)
    requires st.Valid()
    ensures r == Step3(st, block)
  {
    if IsMemoryAddress(block) {
      var disp := ParseHex(block);
      if disp.Failure? {
        assert Step3(st, block).Failure?;
        return Failure;
      }
      r := Success(st.(displacement := Some(disp.value)));
      assert r == Step3(st, block);
    } else if '*' in block {
      if st.index.Some? {
        assert Step3(st, block).Failure?;
        return Failure;
      }
      var m := ParseMultiplication(block);
      if m.Failure? {
        assert Step3(st, block).Failure?;
        return Failure;
      }
      r := Success(st.(ss := m.value.scale, index := Some(m.value.reg.AddressOr0())));
      assert r == Step3(st, block);
    } else {
      var reg := FindRegister(block);
      if reg.None? {
        assert Step3(st, block).Failure?;
        return Failure;
      }
      if st.base.Some? {
        if st.index.Some? {
          assert Step3(st, block).Failure?;
          return Failure;
        }
        r := Success(st.(index := Some(reg.value.AddressOr0())));
        assert r == Step3(st, block);
      } else {
        r := Success(st.(base := Some(reg.value.AddressOr0())));
        assert r == Step3(st, block);
      }
    }
  }

  /** The `forEach` of `commandRegMem3` as a loop; the first exception ends it. */
  method EncodeScan(blocks: seq<string>) returns (r: Result<Scan3>)
    ensures r == Scan(Start3, blocks)
  {
    var st := Start3;
    var i := 0;
    while i < |blocks|
      invariant 0 <= i <= |blocks|
      invariant st.Valid()
      invariant Scan(Start3, blocks) == Scan(st, blocks[i..])
    {
      ScanStep(st, blocks, i);
      var next := EncodeStep3(st, blocks[i]);
      if next.Failure? {
        return Failure;
      }
      st := next.value;
      i := i + 1;
    }
    assert blocks[i..] == [];
    r := Success(st);
  }

  /** What `CommandRegMem3` makes of a finished scan. */
  lemma RegMem3Scanned(template: AbstractCommand, source: Operand, dest: AbstractOperand, memory: seq<string>,
                       ss: bv8, index: Option<bv8>, base: Option<bv8>, displacement: Option<int>)
    requires |memory| == 3 && !InStack(dest)
    requires Scan(Start3, memory) == Success(Scan3(displacement, ss, index, base))
    ensures CommandRegMem3(template, source, dest, memory) ==
      if index.None? || base.None? then Failure
      else Success(MemorySourced(template, 2, 4, Some(Compose(ss, index.value, base.value)), displacement, source, dest))
  {
  }

  /** `commandRegMem3`. */
  method EncodeRegMem3(template: AbstractCommand, source: Operand, dest: AbstractOperand, memory: seq<string>)
    returns (r: Result<Command>)
    requires |memory| == 3
    ensures r == CommandRegMem3(template, source, dest, memory)
  {
    if InStack(dest) {
      return Failure;
    }
    var scan := EncodeScan(memory);
    if scan.Failure? {
      return Failure;
    }
    var st := scan.value;
    RegMem3Scanned(template, source, dest, memory, st.ss, st.index, st.base, st.displacement);
    if st.index.None? || st.base.None? {
      return Failure;
    }
    var modRm := PackByte(0x02, dest.AddressOr0(), 0x04);
    var sib := PackByte(st.ss, st.index.value, st.base.value);
    r := Success(Command(None, template.opCode, Some(modRm), Some(sib), st.displacement, None, Some(template.name),
      Some(source), Some(OperandOf(dest))));
  }

  /** The first half of `commandMemDest`: the source operand fills the reg
      field or the immediate. */
  method EncodeMemDestSource(template: AbstractCommand, source: string) returns (r: Result<SourceFields>)
    ensures r == MemDestSource(template, source)
  {
    match template.source.Kind() {
      case Register =>
        var reg := FindRegister(source);
        if reg.None? {
          assert MemDestSource(template, source).Failure?;
          return Failure;
        }
        if reg.value != template.source {
          r := Success(SourceFields(Some(reg.value.AddressOr0()), None));
        } else {
          r := Success(SourceFields(None, None));
        }
      case Constant =>
        var imm := ParseHex(source);
        if imm.Failure? {
          assert MemDestSource(template, source).Failure?;
          return Failure;
        }
        r := Success(SourceFields(None, Some(imm.value)));
      case Memory =>
        return Failure;
      case Undefined =>
        return Failure;
    }
  }

  /** The second half of `commandMemDest`: ModRM, SIB and displacement from
      the reg field, the base register, the displacement and the index term. */
  method EncodeMemDestAddress(regField: Option<bv8>, baseReg: Option<AbstractOperand>, disp: Option<int>, index: Option<Scaled>)
    returns (r: AddressFields)
    requires regField.Some? ==> regField.value < 8
    requires index.Some? ==> index.value.scale < 4
    ensures r == MemDestAddress(regField, baseReg, disp, index)
  {
    var displacement := disp;
    if index.None? {
      if regField.Some? {
        var rm: bv8 := if baseReg.Some? then baseReg.value.AddressOr0() else 0x05;
        var mod: bv8 := if displacement.Some? && rm != 0x05 then 0x02 else 0x00;
        var modRm := PackByte(mod, regField.value, rm);
        r := AddressFields(Some(modRm), None, displacement);
      } else if displacement.Some? {
        var modRm := PackByte(0x00, 0x00, 0x05);
        r := AddressFields(Some(modRm), None, displacement);
      } else {
        r := AddressFields(None, None, displacement);
      }
    } else {
      var mod: bv8 := if displacement.Some? && baseReg.Some? then 0x02 else 0x00;
      var reg: bv8 := if regField.Some? then regField.value else 0x00;
      var modRm := PackByte(mod, reg, 0x04);
      var base: bv8;
      if baseReg.Some? {
        base := baseReg.value.AddressOr0();
      } else {
        base := 0x05;
        if displacement.None? {
          displacement := Some(0);
        }
      }
      var sib := PackByte(index.value.scale, index.value.reg.AddressOr0(), base);
      r := AddressFields(Some(modRm), Some(sib), displacement);
    }
  }

  /** `commandMemDest`. */
  method EncodeMemDest(template: AbstractCommand, source: string, dest: string) returns (r: Result<Command>)
    ensures r == CommandMemDest(template, source, dest)
  {
    var fromSource := EncodeMemDestSource(template, source);
    if fromSource.Failure? {
      assert CommandMemDest(template, source, dest).Failure?;
      return Failure;
    }
    var blocks := SplitMemoryAddress(dest);
    if |blocks| > 3 {
      assert CommandMemDest(template, source, dest).Failure?;
      return Failure;
    }
    var roles := BlockRoles(blocks);
    var term := IndexTerm(roles.index);
    if term.Failure? {
      assert CommandMemDest(template, source, dest).Failure?;
      return Failure;
    }
    var fields := EncodeMemDestAddress(fromSource.value.regField, BaseRegister(roles), DisplacementValue(roles), term.value);
    r := Success(Command(None, template.opCode, fields.modRm, fields.sib, fields.displacement, fromSource.value.immediate,
      Some(template.name), Some(TemplateOperand(source, template.source)), Some(TemplateOperand(dest, template.dest))));
    assert r == CommandMemDest(template, source, dest);
  }
}
