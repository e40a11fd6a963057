/** Machine code to assembly text: `commandFromCode` and
    `parseCommandFromCode` (converters/Masm32Converter.kt). The hex text is
    eaten from the left; every exception is the single `Failure` outcome. */
module Decoder {
  import opened Wrappers
  import opened Text
  import opened Numbers
  import opened Sizes
  import opened Operands
  import opened Commands
  import opened Utils
  import opened Encoder

  // ---------------------------------------------------------------------
  // Reading the hex text

  /** The `nip` closure: the first `n` characters and what is left;
      `substring` throws when fewer than `n` remain. */
  function Nip(str: string, n: nat): (r: Result<(string, string)>)
    ensures r.Success? <==> n <= |str|
    ensures r.Success? ==> |r.value.0| == n && r.value.0 + r.value.1 == str
  {
    if n <= |str| then Success((str[..n], str[n..])) else Failure
  }

  /** `toShort(16)` on two hex digits: a byte that `toHex(2)` writes back as
      the same digits in lower case. */
  function HexByte(h: string): (b: bv8)
    requires |h| == 2 && AllDigits(h, 16)
    ensures b as nat == NumeralValue(h, 16)
    ensures ToHex(b) == ToLower(h)
  {
    var b := ByteOfNumeral(h);
    ToHexOfNumeral(b, h);
    b
  }

  /** The value of two hex digits, which always fits a byte. */
  function ByteOfNumeral(h: string): (b: bv8)
    requires |h| == 2 && AllDigits(h, 16)
    ensures b as nat == NumeralValue(h, 16)
  {
    NumeralBound(h, 16);
    assert Pow(16, 2) == 256;
    ToByte(NumeralValue(h, 16))
  }

  /** A value below 256 as a byte, put together from its two hex digits. */
  function ToByte(v: nat): (b: bv8)
    requires v < 256
    ensures b as nat == v
  {
    var hi, lo := v / 16, v % 16;
    assert v == hi * 16 + lo;
    DigitPair(DigitByte(hi), DigitByte(lo))
  }

  function DigitPair(hi: bv8, lo: bv8): (b: bv8)
    requires hi < 16 && lo < 16
    ensures b as int == hi as int * 16 + lo as int
  {
    hi * 16 + lo
  }

  function DigitByte(d: nat): (b: bv8)
    requires d < 16
    ensures b as int == d
  {
    if d == 0 then 0 else if d == 1 then 1 else if d == 2 then 2 else if d == 3 then 3
    else if d == 4 then 4 else if d == 5 then 5 else if d == 6 then 6 else if d == 7 then 7
    else if d == 8 then 8 else if d == 9 then 9 else if d == 10 then 10 else if d == 11 then 11
    else if d == 12 then 12 else if d == 13 then 13 else if d == 14 then 14 else 15
  }

  lemma ToHexOfNumeral(b: bv8, h: string)
    requires |h| == 2 && AllDigits(h, 16) && b as nat == NumeralValue(h, 16)
    ensures ToHex(b) == ToLower(h)
  {
    PaddedIsFixed(b as nat, 16, 2);
    FixedDigitsOfValue(h, 16);
  }

  /** `reverseInt(field.toBigInteger(16), bits)` on a field of bits / 4
      digits: the field's two-digit groups in reverse order, in lower case. */
  function FieldText(field: string, bits: nat): (s: string)
    requires AllDigits(field, 16) && |field| == bits / 4 >= 1
    ensures s == ReverseGroups(ToLower(field))
  {
    NumeralBound(field, 16);
    ReverseIntFixed(NumeralValue(field, 16), bits);
    FixedDigitsOfValue(field, 16);
    ReverseInt(NumeralValue(field, 16), bits).value
  }

  lemma SuffixDigits(s: string, k: nat)
    requires AllDigits(s, 16) && k <= |s|
    ensures AllDigits(s[k..], 16)
  {
    assert forall i :: 0 <= i < |s| - k ==> s[k..][i] == s[k + i];
  }

  // ---------------------------------------------------------------------
  // What the template says about the code

  /** `inverted`: reg names the source (and r/m the destination) when the
      destination is memory or the opcode's direction bit (bit 1) is 0. */
  predicate Inverted(t: AbstractCommand) {
    t.dest.IsMem() || t.opCode & 0x02 == 0
  }

  /** `destIsReg`: a concrete register, not a size wildcard. */
  predicate DestIsReg(t: AbstractCommand) {
    t.dest.IsReg() && Some(t.dest) != GetGeneralizedReg(t.dest)
  }

  /** `sourceIsConst`: a constant or no source at all. */
  predicate SourceIsConst(t: AbstractCommand) {
    t.source.IsConst() || t.source == NoOperand
  }

  predicate HasModRm(t: AbstractCommand) {
    !(DestIsReg(t) && SourceIsConst(t))
  }

  /** The operand the reg field names, and the one r/m names. */
  function RegSide(t: AbstractCommand): AbstractOperand {
    if Inverted(t) then t.source else t.dest
  }

  function RmSide(t: AbstractCommand): AbstractOperand {
    if Inverted(t) then t.dest else t.source
  }

  /** `Operand(r.name, r.type, r.size)` for a register found by address. */
  function RegisterOperand(r: AbstractOperand): Operand {
    OperandOf(r)
  }

  // ---------------------------------------------------------------------
  // The decoding, stage by stage

  /** The locals of `parseCommandFromCode` between its stages. */
  datatype Decoding = Decoding(
    rest: string,
    modRm: Option<bv8>,
    sib: Option<bv8>,
    displacement: Option<int>,
    immediate: Option<int>,
    source: Option<Operand>,
    dest: Option<Operand>,
    hasSib: bool,
    hasDisp: bool)

  /** The operand on the r/m side so far. */
  function RmOperand(t: AbstractCommand, d: Decoding): Option<Operand> {
    if Inverted(t) then d.dest else d.source
  }

  /** `if (inverted) opDest = operand else opSource = operand`. */
  function PlaceRm(t: AbstractCommand, d: Decoding, operand: Operand): (r: Decoding)
    ensures RmOperand(t, r) == Some(operand)
    ensures Inverted(t) ==> r.source == d.source
    ensures !Inverted(t) ==> r.dest == d.dest
    ensures r.rest == d.rest && r.modRm == d.modRm && r.sib == d.sib
    ensures r.displacement == d.displacement && r.immediate == d.immediate
    ensures r.hasSib == d.hasSib && r.hasDisp == d.hasDisp
  {
    if Inverted(t) then d.(dest := Some(operand)) else d.(source := Some(operand))
  }

  /** What r/m 100 means: a SIB byte follows for a memory side; a byte
      register side is AH; anything else fails. */
  function RmEscape(t: AbstractCommand): (r: Result<(Option<Operand>, bool)>)
    ensures r.Success? <==> RmSide(t).IsMem() || (RmSide(t).IsReg() && RmSide(t).Width() == Byte)
    ensures r.Success? && RmSide(t).IsMem() ==> r.value == (None, true)
    ensures r.Success? && !RmSide(t).IsMem() ==> r.value == (Some(RegisterOperand(AH)), false)
  {
    var side := RmSide(t);
    if side.IsMem() then Success((None, true))
    else if side.IsReg() && side.Width() == Byte then
      // Every address 0-7 has a register of each width, so `find` succeeds.
      RegisterFourOfBytes();
      var rmReg := RegisterAt(4, side.Width()).value;
      Success((Some(RegisterOperand(rmReg)), false))
    else Failure
  }

  /** What an r/m other than 100 and 101 names: the register of the r/m
      side's width, or with mod 00-10 the memory operand `[reg]`. */
  function RmRegister(t: AbstractCommand, mod: bv8, rm: bv8): (r: Result<Operand>)
    requires rm < 8
    ensures r.Success? <==> RmSide(t).Width() != Size.Undefined
    ensures r.Success? ==>
      var reg := RegisterRow(rm, RmSide(t).Width());
      r.value == if mod == 3 then RegisterOperand(reg) else Operand("[" + reg.Name() + "]", Memory, Extended)
  {
    RegisterAtRow(rm, RmSide(t).Width());
    var rmReg :- OrFail(RegisterAt(rm, RmSide(t).Width()));
    Success(if mod == 3 then RegisterOperand(rmReg) else Operand("[" + rmReg.Name() + "]", Memory, Extended))
  }

  /** The ModRM stage of `parseCommandFromCode`. Without a ModRM byte the
      destination is the template's own register. */
  function ModRmStage(t: AbstractCommand, str: string): (r: Result<Decoding>)
    requires AllDigits(str, 16)
    ensures r.Success? ==> AllDigits(r.value.rest, 16) && (r.value.hasSib ==> r.value.modRm.Some?)
    ensures !HasModRm(t) ==> r == Success(Decoding(str, None, None, None, None, None, Some(OperandOf(t.dest)), false, false))
    ensures HasModRm(t) ==> r == if |str| < 2 then Failure else ModRmByte(t, HexByte(str[..2]), str[2..])
  {
    if !HasModRm(t) then
      Success(Decoding(str, None, None, None, None, None, Some(OperandOf(t.dest)), false, false))
    else
      var (h, rest) :- Nip(str, 2);
      assert h == str[..2];
      SuffixDigits(str, 2);
      ModRmByte(t, HexByte(h), rest)
  }

  /** The ModRM byte read: mod 01 and 10 need a memory operand, mod 11 a
      register operand; reg names the register of the reg side's width; r/m
      100 and 101 are the escapes, any other r/m a register. */
  function ModRmByte(t: AbstractCommand, modRm: bv8, rest: string): (r: Result<Decoding>)
    ensures (High2(modRm) == 1 || High2(modRm) == 2) && !t.source.IsMem() && !t.dest.IsMem() ==> r.Failure?
    ensures High2(modRm) == 3 && !t.source.IsReg() && !t.dest.IsReg() ==> r.Failure?
    ensures r.Success? ==>
      && r.value.rest == rest && r.value.modRm == Some(modRm)
      && r.value.sib.None? && r.value.displacement.None? && r.value.immediate.None?
    ensures r.Success? ==>
      && RegisterAt(Middle3(modRm), RegSide(t).Width()).Some?
      && (if Inverted(t) then r.value.source else r.value.dest)
         == Some(RegisterOperand(RegisterAt(Middle3(modRm), RegSide(t).Width()).value))
    ensures r.Success? && (Low3(modRm) == 5 || High2(modRm) == 1 || High2(modRm) == 2) ==> r.value.hasDisp
  {
    var mod, reg, rm := High2(modRm), Middle3(modRm), Low3(modRm);
    var _ :- Need(!(mod == 1 || mod == 2) || t.source.IsMem() || t.dest.IsMem());
    var _ :- Need(mod != 3 || t.source.IsReg() || t.dest.IsReg());
    var opReg :- OrFail(RegisterAt(reg, RegSide(t).Width()));
    var regOperand := Some(RegisterOperand(opReg));
    var hasSib := mod == 0 && t.source.IsMem() && rm == 4;
    var hasDisp := (mod == 0 && t.source.IsMem() && rm == 5) || mod == 1 || mod == 2;
    RmField(t, rest, modRm, regOperand, hasSib, hasDisp)
  }

  /** The r/m field: 100 and 101 are the escapes, any other value a
      register. */
  function RmField(t: AbstractCommand, rest: string, modRm: bv8, regOperand: Option<Operand>, hasSib: bool, hasDisp: bool)
    : (r: Result<Decoding>)
    ensures r.Success? ==>
      && r.value.rest == rest && r.value.modRm == Some(modRm)
      && r.value.sib.None? && r.value.displacement.None? && r.value.immediate.None?
    ensures r.Success? ==> (if Inverted(t) then r.value.source else r.value.dest) == regOperand
    ensures r.Success? && (hasDisp || Low3(modRm) == 5) ==> r.value.hasDisp
  {
    var rm := Low3(modRm);
    if rm == 4 then
      var (rmOperand, sibFollows) :- RmEscape(t);
      Success(Placed(t, rest, modRm, regOperand, rmOperand, hasSib || sibFollows, hasDisp))
    else if rm == 5 then
      var _ :- Need(t.source.IsConst() || t.source.IsMem() || t.dest.IsMem());
      Success(Placed(t, rest, modRm, regOperand, None, hasSib, true))
    else
      var rmOperand :- RmRegister(t, High2(modRm), rm);
      Success(Placed(t, rest, modRm, regOperand, Some(rmOperand), hasSib, hasDisp))
  }

  /** The state after the ModRM stage, the reg operand on its side and the
      r/m operand on the other. */
  function Placed(t: AbstractCommand, rest: string, modRm: bv8, regOperand: Option<Operand>, rmOperand: Option<Operand>,
                  hasSib: bool, hasDisp: bool): (d: Decoding)
    ensures RmOperand(t, d) == rmOperand
    ensures (if Inverted(t) then d.source else d.dest) == regOperand
    ensures d.rest == rest && d.modRm == Some(modRm) && d.sib.None? && d.displacement.None? && d.immediate.None?
    ensures d.hasSib == hasSib && d.hasDisp == hasDisp
  {
    if Inverted(t) then Decoding(rest, Some(modRm), None, None, None, regOperand, rmOperand, hasSib, hasDisp)
    else Decoding(rest, Some(modRm), None, None, None, rmOperand, regOperand, hasSib, hasDisp)
  }

  /** The scale text of an SS field: none for 00, then `*2`, `*4`, `*8`. */
  function ScaleText(ss: bv8): string
    requires ss < 4
  {
    if ss == 0 then "" else if ss == 1 then "*2" else if ss == 2 then "*4" else "*8"
  }

  /** The SIB stage: a byte follows when the ModRM stage asked for one. */
  function SibStage(t: AbstractCommand, d: Decoding): (r: Result<Decoding>)
    requires AllDigits(d.rest, 16) && (d.hasSib ==> d.modRm.Some?)
    ensures r.Success? ==> AllDigits(r.value.rest, 16)
  {
    if !d.hasSib then Success(d)
    else
      var (h, rest) :- Nip(d.rest, 2);
      SuffixDigits(d.rest, 2);
      SibByte(t, d, HexByte(h), rest)
  }

  /** The memory operand a SIB byte names: the index with its scale, then
      the base unless the base field is 101. */
  function SibText(sib: bv8): string {
    var index := RegisterRow(Middle3(sib), Extended);
    var base := RegisterRow(Low3(sib), Extended);
    "[" + index.Name() + ScaleText(High2(sib)) + "]" + (if Low3(sib) == 5 then "" else "[" + base.Name() + "]")
  }

  /** SS, index and base. Base ESP fails; base EBP stands for "no base,
      disp32" and is accepted only with mod 00; any other base is written
      after the index, and mod 01 or 10 adds a displacement. */
  function SibByte(t: AbstractCommand, d: Decoding, sib: bv8, rest: string): (r: Result<Decoding>)
    requires d.modRm.Some?
    ensures r.Success? <==> Low3(sib) != 4 && (Low3(sib) == 5 ==> High2(d.modRm.value) == 0)
    ensures r.Success? ==>
      && r.value.rest == rest && r.value.sib == Some(sib)
      && r.value.modRm == d.modRm && r.value.displacement == d.displacement && r.value.immediate == d.immediate
      && r.value.hasDisp == (d.hasDisp || Low3(sib) == 5 || High2(d.modRm.value) == 1 || High2(d.modRm.value) == 2)
      && RmOperand(t, r.value) == Some(Operand(SibText(sib), Memory, RmSide(t).Width()))
      && (Inverted(t) ==> r.value.source == d.source) && (!Inverted(t) ==> r.value.dest == d.dest)
  {
    // `getRegisters().find` at 32 bits: every address 0-7 has a register
    // there (`RegisterAtRow`), so the elvis throw cannot fire; the base
    // register is ESP at address 100 and EBP at 101.
    var mod := High2(d.modRm.value);
    var next := d.(rest := rest, sib := Some(sib));
    var operand := Operand(SibText(sib), Memory, RmSide(t).Width());
    if Low3(sib) == 4 then Failure
    else if Low3(sib) == 5 then
      if mod == 0 then Success(PlaceRm(t, next.(hasDisp := true), operand))
      else Failure
    else Success(PlaceRm(t, next.(hasDisp := d.hasDisp || mod == 1 || mod == 2), operand))
  }

  /** The displacement stage: eight digits, bytes reversed, read as an
      `Int`; a value other than zero is appended to the r/m operand as
      `[digits]`, or is the whole operand when there is none yet. */
  function DispStage(t: AbstractCommand, d: Decoding): (r: Result<Decoding>)
    requires AllDigits(d.rest, 16)
    ensures r.Success? ==> AllDigits(r.value.rest, 16)
  {
    if !d.hasDisp then Success(d)
    else
      var (field, rest) :- Nip(d.rest, 8);
      var text := FieldText(field, 32);
      var value :- ParseHex(text);
      var next := d.(rest := rest, displacement := Some(value));
      if value == 0 then Success(next)
      else
        var operand := RmOperand(t, d);
        Success(PlaceRm(t, next,
          if operand.None? then Operand("[" + text + "]", Memory, RmSide(t).Width())
          else Operand(operand.value.value + "[" + text + "]", operand.value.kind, operand.value.size)))
  }

  /** The immediate stage: a constant source reads `bits / 4` digits,
      bytes reversed, and becomes the source written in hex. */
  function ImmediateStage(t: AbstractCommand, d: Decoding): (r: Result<Decoding>)
    requires AllDigits(d.rest, 16)
  {
    if !t.source.IsConst() then Success(d)
    else
      var bits := Bits(t.source.Width());
      var (field, rest) :- Nip(d.rest, bits / 4);
      var value :- ParseHex(FieldText(field, bits));
      Success(d.(rest := rest, immediate := Some(value),
        source := Some(Operand(IntToString(value, 16), t.source.Kind(), t.source.Width()))))
  }

  /** `parseCommandFromCode`: the four stages, then the command built from
      the locals. Digits left over after the last stage are ignored. */
  function ParseCode(t: AbstractCommand, code: string): (r: Result<Command>)
    requires AllDigits(code, 16)
    ensures r.Success? ==> r.value.prefix.None? && r.value.opCode == t.opCode && r.value.name == Some(t.name)
  {
    var d1 :- ModRmStage(t, code);
    var d2 :- SibStage(t, d1);
    var d3 :- DispStage(t, d2);
    var d4 :- ImmediateStage(t, d3);
    Success(Finished(t, d4))
  }

  /** The `Command` returned at the end of `parseCommandFromCode`. */
  function Finished(t: AbstractCommand, d: Decoding): (c: Command)
    ensures c.prefix.None? && c.opCode == t.opCode && c.name == Some(t.name)
    ensures c.modRm == d.modRm && c.sib == d.sib && c.displacement == d.displacement && c.immediate == d.immediate
    ensures c.source == d.source && c.dest == d.dest
  {
    Command(None, t.opCode, d.modRm, d.sib, d.displacement, d.immediate, Some(t.name), d.source, d.dest)
  }

  // ---------------------------------------------------------------------
  // Choosing among the table entries

  /** `filter { it.opCode == opCode }`. */
  function WithOpCode(table: seq<AbstractCommand>, op: bv8): (r: seq<AbstractCommand>)
    ensures forall t :: t in r <==> t in table && t.opCode == op
    ensures |r| <= |table|
  {
    if table == [] then []
    else if table[0].opCode == op then [table[0]] + WithOpCode(table[1..], op)
    else WithOpCode(table[1..], op)
  }

  /** `mapNotNull { try { parseCommandFromCode(it, str) } catch ... null }`:
      the commands of the entries that decode, in table order. */
  function Survivors(ts: seq<AbstractCommand>, code: string): (r: seq<Command>)
    requires AllDigits(code, 16)
    ensures |r| <= |ts|
  {
    if ts == [] then []
    else
      match ParseCode(ts[0], code)
      case Success(c) => [c] + Survivors(ts[1..], code)
      case Failure => Survivors(ts[1..], code)
  }

  /** `commandFromCode` on the text `code.toString(16)`: the first two
      digits are the opcode, the rest goes to every entry with that opcode;
      no survivor is the "No commands" failure. */
  function CommandFromHex(table: seq<AbstractCommand>, code: string): (r: Result<seq<Command>>)
    requires AllDigits(code, 16)
    ensures r.Success? ==> r.value != []
  {
    var (head, rest) :- Nip(code, 2);
    SuffixDigits(code, 2);
    var candidates := Survivors(WithOpCode(table, HexByte(head)), rest);
    var _ :- Need(candidates != []);
    Success(candidates)
  }

  /** `commandFromCode(code)` for a non-negative `code`. */
  function CommandFromCode(table: seq<AbstractCommand>, code: nat): (r: Result<seq<Command>>)
    ensures r.Success? ==> r.value != []
  {
    CommandFromHex(table, NatToString(code, 16))
  }

  // ---------------------------------------------------------------------
  // What each stage keeps

  lemma DispStageKeeps(t: AbstractCommand, d: Decoding)
    requires AllDigits(d.rest, 16)
    ensures !d.hasDisp ==> DispStage(t, d) == Success(d)
    ensures var r := DispStage(t, d); r.Success? ==>
      && r.value.modRm == d.modRm && r.value.sib == d.sib && r.value.immediate == d.immediate
      && (d.hasDisp ==> r.value.displacement.Some?)
      && (Inverted(t) ==> r.value.source == d.source) && (!Inverted(t) ==> r.value.dest == d.dest)
  {
  }

  lemma ImmediateStageKeeps(t: AbstractCommand, d: Decoding)
    requires AllDigits(d.rest, 16)
    ensures !t.source.IsConst() ==> ImmediateStage(t, d) == Success(d)
    ensures var r := ImmediateStage(t, d); r.Success? ==>
      && r.value.modRm == d.modRm && r.value.sib == d.sib && r.value.displacement == d.displacement
      && r.value.dest == d.dest
      && (t.source.IsConst() ==>
            && r.value.immediate.Some?
            && r.value.source == Some(Operand(IntToString(r.value.immediate.value, 16), t.source.Kind(), t.source.Width())))
  {
  }

  /** The stages of a successful decoding, named. */
  predicate Stages(t: AbstractCommand, code: string, d1: Decoding, d2: Decoding, d3: Decoding, d4: Decoding)
    requires AllDigits(code, 16)
  {
    && ModRmStage(t, code) == Success(d1)
    && SibStage(t, d1) == Success(d2)
    && DispStage(t, d2) == Success(d3)
    && ImmediateStage(t, d3) == Success(d4)
  }

  /** A successful decoding went through all four stages. */
  lemma StagesOf(t: AbstractCommand, code: string) returns (d1: Decoding, d2: Decoding, d3: Decoding, d4: Decoding)
    requires AllDigits(code, 16) && ParseCode(t, code).Success?
    ensures Stages(t, code, d1, d2, d3, d4) && ParseCode(t, code) == Success(Finished(t, d4))
    ensures AllDigits(d1.rest, 16) && AllDigits(d2.rest, 16) && AllDigits(d3.rest, 16)
    ensures d1.hasSib ==> d1.modRm.Some?
  {
    d1 := ModRmStage(t, code).value;
    d2 := SibStage(t, d1).value;
    d3 := DispStage(t, d2).value;
    d4 := ImmediateStage(t, d3).value;
  }

  lemma SibStageKeeps(t: AbstractCommand, d: Decoding)
    requires AllDigits(d.rest, 16) && (d.hasSib ==> d.modRm.Some?)
    ensures !d.hasSib ==> SibStage(t, d) == Success(d)
    ensures var r := SibStage(t, d); r.Success? ==>
      && r.value.modRm == d.modRm && r.value.displacement == d.displacement && r.value.immediate == d.immediate
      && (d.hasDisp ==> r.value.hasDisp)
      && (Inverted(t) ==> r.value.source == d.source) && (!Inverted(t) ==> r.value.dest == d.dest)
    ensures var r := SibStage(t, d); r.Success? && d.hasSib ==>
      var sib := r.value.sib.value;
      && r.value.sib.Some? && Low3(sib) != 4
      && (Low3(sib) == 5 ==> High2(d.modRm.value) == 0 && r.value.hasDisp)
  {
  }


  // ---------------------------------------------------------------------
  // What a decoded command looks like

  /** A ModRM byte is read exactly when the template has one: not for a
      concrete register destination with a constant or no source, whose
      destination is then the template's register. */
  lemma DecodedModRm(t: AbstractCommand, code: string)
    requires AllDigits(code, 16) && ParseCode(t, code).Success?
    ensures var c := ParseCode(t, code).value; c.modRm.Some? <==> HasModRm(t)
    ensures var c := ParseCode(t, code).value; HasModRm(t) ==> |code| >= 2 && c.modRm == Some(HexByte(code[..2]))
    ensures var c := ParseCode(t, code).value; !HasModRm(t) ==>
      c.dest == Some(OperandOf(t.dest)) && c.sib.None? && c.displacement.None?
  {
    var d1, d2, d3, d4 := StagesOf(t, code);
    SibStageKeeps(t, d1);
    DispStageKeeps(t, d2);
    ImmediateStageKeeps(t, d3);
  }

  /** reg names the source when the template is inverted and the
      destination otherwise, as the register of that side's width (a
      constant source is then overwritten by the immediate). */
  lemma DecodedRegField(t: AbstractCommand, code: string)
    requires AllDigits(code, 16) && ParseCode(t, code).Success?
    requires HasModRm(t) && !t.source.IsConst()
    ensures var c := ParseCode(t, code).value;
      && c.modRm.Some? && RegisterAt(Middle3(c.modRm.value), RegSide(t).Width()).Some?
      && (if Inverted(t) then c.source else c.dest)
         == Some(RegisterOperand(RegisterAt(Middle3(c.modRm.value), RegSide(t).Width()).value))
  {
    var d1, d2, d3, d4 := StagesOf(t, code);
    SibStageKeeps(t, d1);
    DispStageKeeps(t, d2);
    ImmediateStageKeeps(t, d3);
  }

  /** mod 01, mod 10 and r/m 101 always come with a displacement. */
  lemma DecodedDisplacement(t: AbstractCommand, code: string)
    requires AllDigits(code, 16) && ParseCode(t, code).Success?
    ensures var c := ParseCode(t, code).value;
      c.modRm.Some? && (Low3(c.modRm.value) == 5 || High2(c.modRm.value) == 1 || High2(c.modRm.value) == 2) ==>
        c.displacement.Some?
  {
    var d1, d2, d3, d4 := StagesOf(t, code);
    SibStageKeeps(t, d1);
    DispStageKeeps(t, d2);
    ImmediateStageKeeps(t, d3);
  }

  /** A decoded SIB byte never has base 100 (ESP); base 101 (EBP) only
      comes with mod 00, and then with a displacement. */
  lemma DecodedSib(t: AbstractCommand, code: string)
    requires AllDigits(code, 16) && ParseCode(t, code).Success?
    ensures var c := ParseCode(t, code).value; c.sib.Some? ==>
      && c.modRm.Some? && Low3(c.sib.value) != 4
      && (Low3(c.sib.value) == 5 ==> High2(c.modRm.value) == 0 && c.displacement.Some?)
  {
    var d1, d2, d3, d4 := StagesOf(t, code);
    SibStageKeeps(t, d1);
    DispStageKeeps(t, d2);
    ImmediateStageKeeps(t, d3);
  }

  /** An immediate is read exactly for a constant source, which becomes
      the immediate written in hex. */
  lemma DecodedImmediate(t: AbstractCommand, code: string)
    requires AllDigits(code, 16) && ParseCode(t, code).Success?
    ensures var c := ParseCode(t, code).value; c.immediate.Some? <==> t.source.IsConst()
    ensures var c := ParseCode(t, code).value; t.source.IsConst() ==>
      c.source == Some(Operand(IntToString(c.immediate.value, 16), t.source.Kind(), t.source.Width()))
  {
    var d1, d2, d3, d4 := StagesOf(t, code);
    SibStageKeeps(t, d1);
    DispStageKeeps(t, d2);
    ImmediateStageKeeps(t, d3);
  }

  /** The displacement is the eight digits after what came before, bytes
      reversed. A zero displacement is not written into the operands; any
      other is appended to the r/m operand as `[digits]`. */
  lemma DisplacementText(t: AbstractCommand, d: Decoding)
    requires AllDigits(d.rest, 16) && d.hasDisp && DispStage(t, d).Success?
    ensures |d.rest| >= 8
    ensures var r := DispStage(t, d).value; var text := ReverseGroups(ToLower(d.rest[..8]));
      && r.rest == d.rest[8..] && r.displacement == ToIntOrNull(text, 16)
      && (r.displacement == Some(0) ==> r.source == d.source && r.dest == d.dest)
      && (r.displacement != Some(0) ==>
            RmOperand(t, r).Some?
            && RmOperand(t, r).value.value == (if RmOperand(t, d).Some? then RmOperand(t, d).value.value else "") + "[" + text + "]")
  {
    var text := ReverseGroups(ToLower(d.rest[..8]));
    if RmOperand(t, d).None? {
      assert "" + "[" + text + "]" == "[" + text + "]";
    }
  }

  // ---------------------------------------------------------------------
  // Which entries survive

  /** A command survives exactly when some entry decodes to it. */
  lemma {:induction false} SurvivorsMeaning(ts: seq<AbstractCommand>, code: string)
    requires AllDigits(code, 16)
    ensures forall c :: c in Survivors(ts, code) <==> exists t :: t in ts && ParseCode(t, code) == Success(c)
  {
    if ts != [] {
      SurvivorsMeaning(ts[1..], code);
      forall c ensures c in Survivors(ts, code) <==> exists t :: t in ts && ParseCode(t, code) == Success(c) {
        if exists t :: t in ts && ParseCode(t, code) == Success(c) {
          var t :| t in ts && ParseCode(t, code) == Success(c);
          if t != ts[0] {
            assert t in ts[1..];
          }
        }
        if c in Survivors(ts[1..], code) {
          var t :| t in ts[1..] && ParseCode(t, code) == Success(c);
          assert t in ts;
        }
      }
    }
  }

  /** The survivors keep the order of the entries. */
  lemma {:induction false} SurvivorsAppend(a: seq<AbstractCommand>, b: seq<AbstractCommand>, code: string)
    requires AllDigits(code, 16)
    ensures Survivors(a + b, code) == Survivors(a, code) + Survivors(b, code)
  {
    if a == [] {
      assert a + b == b;
    } else {
      SurvivorsAppend(a[1..], b, code);
      SurvivorsAppendStep(a[0], a[1..], b, code);
      assert a == [a[0]] + a[1..];
    }
  }

  /** The inductive step of `SurvivorsAppend`, for an entry `t` put before `tail`. */
  lemma SurvivorsAppendStep(t: AbstractCommand, tail: seq<AbstractCommand>, b: seq<AbstractCommand>, code: string)
    requires AllDigits(code, 16)
    requires Survivors(tail + b, code) == Survivors(tail, code) + Survivors(b, code)
    ensures Survivors([t] + tail + b, code) == Survivors([t] + tail, code) + Survivors(b, code)
  {
    assert [t] + tail + b == [t] + (tail + b);
    SurvivorsCons(t, tail, code);
    SurvivorsCons(t, tail + b, code);
    AppendStep(Survivors([t] + tail, code), Survivors([t] + (tail + b), code), Survivors([t], code),
      Survivors(tail, code), Survivors(tail + b, code), Survivors(b, code));
  }

  /** The step of `SurvivorsAppend` on plain sequences: `whole` is the
      head `h` before `x + y`, and `left` is `h` before `x`. */
  lemma AppendStep<T>(left: seq<T>, whole: seq<T>, h: seq<T>, x: seq<T>, xy: seq<T>, y: seq<T>)
    requires left == h + x && xy == x + y && whole == h + xy
    ensures whole == left + y
  {
  }

  /** One step of `Survivors`: what the first entry leaves, then the
      survivors of the rest. */
  lemma SurvivorsCons(t: AbstractCommand, ts: seq<AbstractCommand>, code: string)
    requires AllDigits(code, 16)
    ensures Survivors([t] + ts, code) == Survivors([t], code) + Survivors(ts, code)
  {
    assert ([t] + ts)[0] == t && ([t] + ts)[1..] == ts && [t][1..] == [];
  }

  /** Some command survives exactly when some entry decodes. */
  lemma {:induction false} SurvivorsNonEmpty(ts: seq<AbstractCommand>, code: string)
    requires AllDigits(code, 16)
    ensures Survivors(ts, code) != [] <==> exists t :: t in ts && ParseCode(t, code).Success?
  {
    if ts != [] {
      SurvivorsNonEmpty(ts[1..], code);
      if exists t :: t in ts[1..] && ParseCode(t, code).Success? {
        var t :| t in ts[1..] && ParseCode(t, code).Success?;
        assert t in ts;
      }
      if exists t :: t in ts && ParseCode(t, code).Success? {
        var t :| t in ts && ParseCode(t, code).Success?;
        if t != ts[0] {
          assert t in ts[1..];
        }
      }
    }
  }

  /** The opcode and the rest of the code, and what `commandFromCode` makes
      of them. */
  lemma CommandFromHexSplit(table: seq<AbstractCommand>, code: string)
    requires AllDigits(code, 16) && |code| >= 2
    ensures AllDigits(code[2..], 16)
    ensures var found := Survivors(WithOpCode(table, HexByte(code[..2])), code[2..]);
      CommandFromHex(table, code) == if found == [] then Failure else Success(found)
  {
    SuffixDigits(code, 2);
  }

  /** `commandFromCode` succeeds exactly when the code has an opcode and
      some table entry with that opcode decodes the rest. */
  lemma CommandFromHexSucceeds(table: seq<AbstractCommand>, code: string)
    requires AllDigits(code, 16)
    ensures CommandFromHex(table, code).Success? <==>
      |code| >= 2 && exists t :: t in table && t.opCode == HexByte(code[..2]) && ParseCode(t, code[2..]).Success?
  {
    if |code| >= 2 {
      CommandFromHexSplit(table, code);
      var op, rest := HexByte(code[..2]), code[2..];
      var matching := WithOpCode(table, op);
      SurvivorsNonEmpty(matching, rest);
      if exists t :: t in table && t.opCode == op && ParseCode(t, rest).Success? {
        var t :| t in table && t.opCode == op && ParseCode(t, rest).Success?;
        assert t in matching;
      }
    }
  }

  /** Each command `commandFromCode` returns is the decoding of a table
      entry with the code's opcode, and every such decoding is returned. */
  lemma CommandFromHexMembers(table: seq<AbstractCommand>, code: string)
    requires AllDigits(code, 16) && CommandFromHex(table, code).Success?
    ensures |code| >= 2
    ensures forall c :: c in CommandFromHex(table, code).value <==>
      exists t :: t in table && t.opCode == HexByte(code[..2]) && ParseCode(t, code[2..]) == Success(c)
  {
    CommandFromHexSplit(table, code);
    var op, rest := HexByte(code[..2]), code[2..];
    var matching := WithOpCode(table, op);
    SurvivorsMeaning(matching, rest);
    forall c ensures c in Survivors(matching, rest) <==>
      exists t :: t in table && t.opCode == op && ParseCode(t, rest) == Success(c)
    {
      if exists t :: t in table && t.opCode == op && ParseCode(t, rest) == Success(c) {
        var t :| t in table && t.opCode == op && ParseCode(t, rest) == Success(c);
        assert t in matching;
      }
    }
  }

  // ---------------------------------------------------------------------
  // Register to register, both ways

  /** `toShort(16)` reads back what `toHex(2)` writes. */
  lemma HexByteOfToHex(b: bv8)
    ensures HexByte(ToHex(b)) == b
  {
    assert HexByte(ToHex(b)) as nat == b as nat;
  }

  /** A table entry whose operands are both register wildcards. */
  predicate RegisterPair(t: AbstractCommand) {
    t.source.IsReg() && t.source.Address().None? && t.dest.IsReg() && t.dest.Address().None?
  }

  /** Mod 11 against an entry with a register side: no SIB byte and no
      displacement; reg names the register of the reg side's width, and
      r/m is left to the r/m field. */
  lemma ModRm11(t: AbstractCommand, m: bv8, rest: string)
    requires High2(m) == 3 && (t.source.IsReg() || t.dest.IsReg()) && RegSide(t).Width() != Size.Undefined
    ensures ModRmByte(t, m, rest)
      == RmField(t, rest, m, Some(RegisterOperand(RegisterRow(Middle3(m), RegSide(t).Width()))), false, false)
  {
    RegisterAtRow(Middle3(m), RegSide(t).Width());
  }

  /** Both sides of a register pair have a width. */
  lemma RegisterPairWidths(t: AbstractCommand)
    requires RegisterPair(t)
    ensures RegSide(t).Width() != Size.Undefined && RmSide(t).Width() != Size.Undefined
    ensures RegSide(t).IsReg() && RmSide(t).IsReg() && !t.source.IsMem() && !t.dest.IsMem()
  {
  }

  /** The ModRM stage of a register pair reads mod 11 and the registers at
      reg and r/m, for any r/m but 100 and 101. */
  lemma RegisterPairModRm(t: AbstractCommand, m: bv8, rest: string)
    requires RegisterPair(t) && High2(m) == 3 && Low3(m) != 4 && Low3(m) != 5
    ensures var regOp := RegisterOperand(RegisterRow(Middle3(m), RegSide(t).Width()));
      var rmOp := RegisterOperand(RegisterRow(Low3(m), RmSide(t).Width()));
      ModRmByte(t, m, rest) == Success(Placed(t, rest, m, Some(regOp), Some(rmOp), false, false))
  {
    RegisterPairWidths(t);
    ModRm11(t, m, rest);
  }

  /** The digits after the opcode, read from the ModRM byte on, for an
      entry that has one. */
  lemma CodeFromModRm(t: AbstractCommand, m: bv8, rest: string)
    requires HasModRm(t) && AllDigits(rest, 16)
    ensures AllDigits(ToHex(m) + rest, 16)
    ensures ModRmStage(t, ToHex(m) + rest) == ModRmByte(t, m, rest)
  {
    var code := ToHex(m) + rest;
    assert code[..2] == ToHex(m) && code[2..] == rest;
    HexByteOfToHex(m);
  }

  /** For a register pair, decoding is the ModRM byte alone: it fails
      when that byte fails, and when it asks for neither SIB nor
      displacement the command is what it placed. */
  lemma RegisterPairCode(t: AbstractCommand, m: bv8, rest: string)
    requires RegisterPair(t) && AllDigits(rest, 16)
    ensures AllDigits(ToHex(m) + rest, 16)
    ensures ModRmByte(t, m, rest).Failure? ==> ParseCode(t, ToHex(m) + rest).Failure?
    ensures ModRmByte(t, m, rest).Success? && !ModRmByte(t, m, rest).value.hasSib && !ModRmByte(t, m, rest).value.hasDisp
      ==> ParseCode(t, ToHex(m) + rest) == Success(Finished(t, ModRmByte(t, m, rest).value))
  {
    WildcardIsGeneralized(t.dest);
    CodeFromModRm(t, m, rest);
    if ModRmByte(t, m, rest).Success? {
      var d := ModRmByte(t, m, rest).value;
      if !d.hasSib && !d.hasDisp {
        SibStageKeeps(t, d);
        DispStageKeeps(t, d);
        ImmediateStageKeeps(t, d);
      }
    }
  }

  /** Decoding a register pair with mod 11: reg names the source when the
      entry is inverted and the destination otherwise, r/m the other one;
      nothing follows the ModRM byte. */
  lemma RegisterPairDecode(t: AbstractCommand, m: bv8, rest: string)
    requires RegisterPair(t) && AllDigits(rest, 16) && High2(m) == 3 && Low3(m) != 4 && Low3(m) != 5
    ensures AllDigits(ToHex(m) + rest, 16)
    ensures var regOp := Some(RegisterOperand(RegisterRow(Middle3(m), RegSide(t).Width())));
      var rmOp := Some(RegisterOperand(RegisterRow(Low3(m), RmSide(t).Width())));
      ParseCode(t, ToHex(m) + rest) == Success(Command(None, t.opCode, Some(m), None, None, None, Some(t.name),
        if Inverted(t) then regOp else rmOp, if Inverted(t) then rmOp else regOp))
  {
    RegisterPairModRm(t, m, rest);
    RegisterPairCode(t, m, rest);
  }

  /** r/m 101 with mod 11 is taken as the displacement escape even between
      two registers. So the codes `commandRegReg` writes when the source
      sits at r/m 101 never decode back: `88C5` and `8AC5` for `MOV AL, CH`,
      and `8BC5` for `MOV EAX, EBP`. Those commands still decode from a byte
      with the source in reg (`Reg8E8`). */
  lemma RegisterPairRm101(t: AbstractCommand, m: bv8, rest: string)
    requires RegisterPair(t) && AllDigits(rest, 16) && High2(m) == 3 && Low3(m) == 5
    ensures AllDigits(ToHex(m) + rest, 16)
    ensures ParseCode(t, ToHex(m) + rest).Failure?
  {
    RegisterPairModRm101(t, m, rest);
    RegisterPairCode(t, m, rest);
  }

  /** Between two registers the r/m field 101 fails: it wants a constant
      source or a memory side. */
  lemma RegisterPairModRm101(t: AbstractCommand, m: bv8, rest: string)
    requires RegisterPair(t) && High2(m) == 3 && Low3(m) == 5
    ensures ModRmByte(t, m, rest).Failure?
  {
    RegisterPairWidths(t);
    ModRm11(t, m, rest);
  }

  /** The ModRM byte of a register pair with r/m 100 and mod 11. */
  lemma RegisterPairModRm100(t: AbstractCommand, m: bv8, rest: string)
    requires RegisterPair(t) && High2(m) == 3 && Low3(m) == 4
    ensures var regOp := RegisterOperand(RegisterRow(Middle3(m), RegSide(t).Width()));
      ModRmByte(t, m, rest)
      == if RmSide(t).Width() == Byte then Success(Placed(t, rest, m, Some(regOp), Some(RegisterOperand(AH)), false, false))
         else Failure
  {
    RegisterPairWidths(t);
    ModRm11(t, m, rest);
  }

  /** r/m 100 with mod 11 between two registers decodes only when the r/m
      side is a byte register, and then it is AH. So `8BC4`, which
      `commandRegReg` writes for `MOV EAX, ESP`, does not decode back. */
  lemma RegisterPairRm100(t: AbstractCommand, m: bv8, rest: string)
    requires RegisterPair(t) && AllDigits(rest, 16) && High2(m) == 3 && Low3(m) == 4
    ensures AllDigits(ToHex(m) + rest, 16)
    ensures ParseCode(t, ToHex(m) + rest).Success? <==> RmSide(t).Width() == Byte
    ensures ParseCode(t, ToHex(m) + rest).Success? ==>
      (if Inverted(t) then ParseCode(t, ToHex(m) + rest).value.dest else ParseCode(t, ToHex(m) + rest).value.source)
      == Some(RegisterOperand(AH))
  {
    RegisterPairModRm100(t, m, rest);
    RegisterPairCode(t, m, rest);
  }

  /** Decoding the ModRM byte `commandRegReg` writes for destination
      `dest` and source `s` (mod 11, `dest` in reg, `s` in r/m). */
  lemma RegisterPairEncoded(t: AbstractCommand, s: AbstractOperand, dest: AbstractOperand, rest: string)
    requires RegisterPair(t) && AllDigits(rest, 16)
    requires dest.IsConcreteRegister() && dest.Width() == t.dest.Width()
    requires s.IsConcreteRegister() && s.Width() == t.source.Width() && s.AddressOr0() != 4 && s.AddressOr0() != 5
    ensures var m := Compose(3, dest.AddressOr0(), s.AddressOr0());
      && AllDigits(ToHex(m) + rest, 16)
      && ParseCode(t, ToHex(m) + rest)
         == if Inverted(t) then
              Success(Command(None, t.opCode, Some(m), None, None, None, Some(t.name),
                Some(OperandOf(RegisterRow(dest.AddressOr0(), t.source.Width()))),
                Some(OperandOf(RegisterRow(s.AddressOr0(), t.dest.Width())))))
            else Success(Command(None, t.opCode, Some(m), None, None, None, Some(t.name), Some(OperandOf(s)), Some(OperandOf(dest))))
  {
    var m := Compose(3, dest.AddressOr0(), s.AddressOr0());
    RegisterPairDecode(t, m, rest);
    AddressWidthInjective(dest, RegisterRow(dest.AddressOr0(), t.dest.Width()));
    AddressWidthInjective(s, RegisterRow(s.AddressOr0(), t.source.Width()));
  }

  /** Encoding then decoding a register pair through the same table entry,
      for any source register but the 100 and 101 rows: an entry whose
      direction bit is set gives the command back; one whose bit is clear
      (`88`, `MOV r/m8, r8`) gives it back with the operands exchanged,
      because `commandRegReg` ignores the direction bit. */
  lemma RegisterPairRoundTrip(t: AbstractCommand, source: string, s: AbstractOperand, dest: AbstractOperand,
                              c: Command, rest: string)
    requires RegisterPair(t) && AllDigits(rest, 16)
    requires dest.IsConcreteRegister() && dest.Width() == t.dest.Width()
    requires FindRegister(source) == Some(s) && s.IsConcreteRegister() && s.Width() == t.source.Width()
    requires s.AddressOr0() != 4 && s.AddressOr0() != 5
    requires CommandRegReg(t, source, dest) == Success(c)
    ensures c.modRm.Some? && AllDigits(ToHex(c.modRm.value) + rest, 16)
    ensures !Inverted(t) ==> ParseCode(t, ToHex(c.modRm.value) + rest) == Success(c)
    ensures Inverted(t) ==>
      ParseCode(t, ToHex(c.modRm.value) + rest)
      == Success(c.(source := Some(OperandOf(RegisterRow(dest.AddressOr0(), t.source.Width()))),
                    dest := Some(OperandOf(RegisterRow(s.AddressOr0(), t.dest.Width())))))
  {
    assert c == Command(None, t.opCode, Some(Compose(3, dest.AddressOr0(), s.AddressOr0())), None, None, None,
      Some(t.name), Some(OperandOf(s)), Some(OperandOf(dest)));
    RegisterPairEncoded(t, s, dest, rest);
  }

  /** A memory-destination entry reads r/m 100 as "SIB follows" whatever
      the mod, 11 included. */
  lemma MemoryDestModRm100(t: AbstractCommand, m: bv8, rest: string)
    requires t.source.IsReg() && t.source.Width() != Size.Undefined && t.dest.IsMem()
    requires High2(m) == 3 && Low3(m) == 4
    ensures ModRmByte(t, m, rest)
      == Success(Placed(t, rest, m, Some(RegisterOperand(RegisterRow(Middle3(m), t.source.Width()))), None, true, false))
  {
    assert Inverted(t) && RegSide(t) == t.source;
    ModRm11(t, m, rest);
  }

  /** ... so such a code decodes only when a SIB byte follows the ModRM
      byte. */
  lemma MemoryDestRm100(t: AbstractCommand, m: bv8, rest: string)
    requires t.source.IsReg() && t.source.Width() != Size.Undefined && t.dest.IsMem()
    requires High2(m) == 3 && Low3(m) == 4 && AllDigits(rest, 16)
    ensures AllDigits(ToHex(m) + rest, 16)
    ensures ParseCode(t, ToHex(m) + rest).Success? ==> |rest| >= 2
  {
    assert HasModRm(t);
    CodeFromModRm(t, m, rest);
    MemoryDestModRm100(t, m, rest);
    var d := ModRmByte(t, m, rest).value;
    assert d.hasSib && d.rest == rest;
    if |rest| < 2 {
      assert SibStage(t, d).Failure?;
    }
  }
}
