/** `parseCommandFromCode` (converters/Masm32Converter.kt) as the code is
    written: the locals `modRm`, `sib`, `displacement`, `immediate`,
    `opSource`, `opDest`, `hasSib` and `hasDisp` are set step by step while
    `nip` eats the hex text `str` from the left. The locals that outlive a
    stage travel in a `Decoding`; each stage method is proved to compute
    the stage function of `Decoder`, and the whole method `ParseCode`. */
module DecoderMethods {
  import opened Wrappers
  import opened Numbers
  import opened Sizes
  import opened Operands
  import opened Commands
  import opened Encoder
  import opened Decoder

  /** The `hasModRm` test and the ModRM byte `nip` reads. */
  method ReadModRm(t: AbstractCommand, str: string) returns (r: Result<Decoding>)
    requires AllDigits(str, 16)
    ensures r == ModRmStage(t, str)
  {
    if !HasModRm(t) {
      return Success(Decoding(str, None, None, None, None, None, Some(OperandOf(t.dest)), false, false));
    }
    if |str| < 2 {
      return Failure;
    }
    var modRm := HexByte(str[..2]);
    var rest := str[2..];
    r := ReadModRmByte(t, modRm, rest);
  }

  /** The `when` on mod: which of SIB and displacement it announces, and
      its two `commandNotFound` cases. */
  method ModFlags(t: AbstractCommand, modRm: bv8) returns (r: Result<(bool, bool)>)
    ensures var mod := High2(modRm);
      r.Success? <==> (!(mod == 1 || mod == 2) || t.source.IsMem() || t.dest.IsMem())
                      && (mod != 3 || t.source.IsReg() || t.dest.IsReg())
    ensures var mod, rm := High2(modRm), Low3(modRm);
      r.Success? ==> r.value == (mod == 0 && t.source.IsMem() && rm == 4,
                                 (mod == 0 && t.source.IsMem() && rm == 5) || mod == 1 || mod == 2)
  {
    var mod, rm := High2(modRm), Low3(modRm);
    var hasSib, hasDisp := false, false;
    if mod == 0 && t.source.IsMem() {
      if rm == 5 {
        hasDisp := true;
      } else if rm == 4 {
        hasSib := true;
      }
    } else if mod == 1 || mod == 2 {
      if !t.source.IsMem() && !t.dest.IsMem() {
        return Failure;
      }
      hasDisp := true;
    } else if mod == 3 {
      if !t.source.IsReg() && !t.dest.IsReg() {
        return Failure;
      }
    }
    return Success((hasSib, hasDisp));
  }

  /** The ModRM byte read: the flags, the register named by reg on the reg
      side, then r/m. */
  method ReadModRmByte(t: AbstractCommand, modRm: bv8, rest: string) returns (r: Result<Decoding>)
    ensures r == ModRmByte(t, modRm, rest)
  {
    var flags := ModFlags(t, modRm);
    if flags.Failure? {
      return Failure;
    }
    var (hasSib, hasDisp) := flags.value;
    var found := RegisterAt(Middle3(modRm), RegSide(t).Width());
    if found.None? {
      return Failure;
    }
    var opReg := Some(RegisterOperand(found.value));
    r := ReadRm(t, rest, modRm, opReg, hasSib, hasDisp);
  }

  /** The r/m half of the `hasModRm` block. */
  method ReadRm(t: AbstractCommand, rest: string, modRm: bv8, opReg: Option<Operand>, hasSib: bool, hasDisp: bool)
    returns (r: Result<Decoding>)
    ensures r == RmField(t, rest, modRm, opReg, hasSib, hasDisp)
  {
    var mod, rm := High2(modRm), Low3(modRm);
    var side := RmSide(t);
    var sibFollows := hasSib;
    var rmOperand: Option<Operand> := None;
    if rm == 4 {
      if side.IsMem() {
        sibFollows := true;
      } else if side.IsReg() && side.Width() == Byte {
        // Address 100 has a byte register, so the `find` never fails.
        RegisterAtRow(4, Byte);
        rmOperand := Some(RegisterOperand(RegisterAt(rm, side.Width()).value));
      } else {
        return Failure;
      }
      return Success(Placed(t, rest, modRm, opReg, rmOperand, sibFollows, hasDisp));
    } else if rm == 5 {
      if !t.source.IsConst() && !t.source.IsMem() && !t.dest.IsMem() {
        return Failure;
      }
      return Success(Placed(t, rest, modRm, opReg, None, hasSib, true));
    } else {
      var found := RegisterAt(rm, side.Width());
      if found.None? {
        RegisterAtRow(rm, side.Width());
        return Failure;
      }
      var rmReg := found.value;
      var operand := if mod == 3 then RegisterOperand(rmReg) else Operand("[" + rmReg.Name() + "]", Memory, Extended);
      RegisterAtRow(rm, side.Width());
      return Success(Placed(t, rest, modRm, opReg, Some(operand), hasSib, hasDisp));
    }
  }

  /** The `hasSib` block: SS, index and base; base ESP fails, base EBP means
      "no base" and needs mod 00. */
  method ReadSib(t: AbstractCommand, d: Decoding) returns (r: Result<Decoding>)
    requires AllDigits(d.rest, 16) && (d.hasSib ==> d.modRm.Some?)
    ensures r == SibStage(t, d)
  {
    if !d.hasSib {
      return Success(d);
    }
    if |d.rest| < 2 {
      return Failure;
    }
    var sib := HexByte(d.rest[..2]);
    var rest := d.rest[2..];
    r := ReadSibByte(t, d, sib, rest);
  }

  /** The two `getRegisters().find` of the `hasSib` block: the 32-bit
      registers at index and base. Addresses 0-7 all have one, so neither
      `find` fails. */
  method SibRegisters(sib: bv8) returns (indexReg: AbstractOperand, baseReg: AbstractOperand)
    ensures indexReg == RegisterRow(Middle3(sib), Extended) && baseReg == RegisterRow(Low3(sib), Extended)
    ensures (baseReg == ESP) == (Low3(sib) == 4) && (baseReg == EBP) == (Low3(sib) == 5)
  {
    RegisterAtRow(Middle3(sib), Extended);
    RegisterAtRow(Low3(sib), Extended);
    StackRows(Low3(sib));
    indexReg := RegisterAt(Middle3(sib), Extended).value;
    baseReg := RegisterAt(Low3(sib), Extended).value;
  }

  /** The SIB byte read. */
  method ReadSibByte(t: AbstractCommand, d: Decoding, sib: bv8, rest: string) returns (r: Result<Decoding>)
    requires d.modRm.Some?
    ensures r == SibByte(t, d, sib, rest)
  {
    var scale := ScaleText(High2(sib));
    var indexReg, baseReg := SibRegisters(sib);
    var mod := High2(d.modRm.value);
    var hasDisp := d.hasDisp;
    var indexText := "[" + indexReg.Name() + scale + "]";
    var operand: Operand;
    if baseReg == ESP {
      return Failure;
    } else if baseReg == EBP {
      if mod != 0 {
        return Failure;
      }
      hasDisp := true;
      operand := Operand(indexText, Memory, RmSide(t).Width());
      assert indexText == indexText + "";
    } else {
      if mod == 1 || mod == 2 {
        hasDisp := true;
      }
      operand := Operand(indexText + ("[" + baseReg.Name() + "]"), Memory, RmSide(t).Width());
    }
    assert operand.value == SibText(sib);
    r := Success(PlaceRm(t, d.(rest := rest, sib := Some(sib), hasDisp := hasDisp), operand));
  }

  /** The `hasDisp` block: eight digits, bytes reversed, `toInt(16)`; a
      value other than zero extends or becomes the r/m operand. */
  method ReadDisplacement(t: AbstractCommand, d: Decoding) returns (r: Result<Decoding>)
    requires AllDigits(d.rest, 16)
    ensures r == DispStage(t, d)
  {
    if !d.hasDisp {
      return Success(d);
    }
    if |d.rest| < 8 {
      return Failure;
    }
    var field, rest := d.rest[..8], d.rest[8..];
    var dispStr := FieldText(field, 32);
    var parsed := ParseHex(dispStr);
    if parsed.Failure? {
      return Failure;
    }
    var displacement := parsed.value;
    var next := d.(rest := rest, displacement := Some(displacement));
    if displacement != 0 {
      var operand := RmOperand(t, d);
      var extended := if operand.None? then Operand("[" + dispStr + "]", Memory, RmSide(t).Width())
                      else Operand(operand.value.value + "[" + dispStr + "]", operand.value.kind, operand.value.size);
      next := PlaceRm(t, next, extended);
    }
    return Success(next);
  }

  /** The `hasImmediate` block: `bits / 4` digits, bytes reversed, read as
      an `Int` and written back in hex as the source. */
  method ReadImmediate(t: AbstractCommand, d: Decoding) returns (r: Result<Decoding>)
    requires AllDigits(d.rest, 16)
    ensures r == ImmediateStage(t, d)
  {
    if !t.source.IsConst() {
      return Success(d);
    }
    var bits := Bits(t.source.Width());
    if |d.rest| < bits / 4 {
      return Failure;
    }
    var field, rest := d.rest[..bits / 4], d.rest[bits / 4..];
    var parsed := ParseHex(FieldText(field, bits));
    if parsed.Failure? {
      return Failure;
    }
    var immediate := parsed.value;
    var opSource := Operand(IntToString(immediate, 16), t.source.Kind(), t.source.Width());
    return Success(d.(rest := rest, immediate := Some(immediate), source := Some(opSource)));
  }

  /** `parseCommandFromCode(command, code)`: the four blocks in order, each
      eating its digits from `str`, then the `Command` of the locals. */
  method DecodeCommand(t: AbstractCommand, code: string) returns (r: Result<Command>)
    requires AllDigits(code, 16)
    ensures r == ParseCode(t, code)
  {
    var d := ReadModRm(t, code);
    if d.Failure? {
      return Failure;
    }
    d := ReadSib(t, d.value);
    if d.Failure? {
      return Failure;
    }
    d := ReadDisplacement(t, d.value);
    if d.Failure? {
      return Failure;
    }
    d := ReadImmediate(t, d.value);
    if d.Failure? {
      return Failure;
    }
    return Success(Finished(t, d.value));
  }
}
