/** Assembly text to machine code: `commandFromString` and the builders it
    dispatches to (converters/Masm32Converter.kt). Every exception the
    builders can raise is the single `Failure` outcome. */
module Encoder {
  import opened Wrappers
  import opened Text
  import opened Numbers
  import opened Sizes
  import opened Operands
  import opened Commands
  import opened Utils
  import opened Dictionaries

  /** `toInt(16)`: the number, or an exception. */
  function ParseHex(s: string): (r: Result<int>)
    ensures r.Success? <==> IsConstant(s)
    ensures r.Success? ==> r.value == ToIntOrNull(s, 16).value && INT_MIN <= r.value <= INT_MAX
  {
    OrFail(ToIntOrNull(s, 16))
  }

  /** `Operand(r.name, r.type, r.size)`. */
  function OperandOf(a: AbstractOperand): Operand {
    Operand(a.Name(), a.Kind(), a.Width())
  }

  /** The operand a template names, carrying the text it was matched with. */
  function TemplateOperand(text: string, a: AbstractOperand): Operand {
    Operand(text, a.Kind(), a.Width())
  }

  // ---------------------------------------------------------------------
  // Splitting the line

  /** Mnemonic, destination text and source text of a line. */
  datatype Line = Line(name: string, dest: string, source: string)

  /** The first lines of `commandFromString`: trim and upper-case the line;
      the mnemonic runs up to the first blank; the destination is what
      follows the mnemonic up to the first comma; the source is what
      follows the first comma, or nothing when there is no comma. */
  function SplitLine(line: string): (r: Line)
    ensures var s := ToUpper(Trim(line));
      && StartsWith(s, r.name) && (|r.name| == |s| || s[|r.name|] == ' ')
      && r.dest == Trim(SubstringBefore(s[|r.name|..], ','))
      && (',' in s ==> r.source == Trim(s[|SubstringBefore(s, ',')| + 1..]))
      && (',' !in s ==> r.source == [])
    ensures ' ' !in r.name && ',' !in r.dest
    ensures IsTrimmed(r.dest) && IsTrimmed(r.source)
  {
    var s := ToUpper(Trim(line));
    UpperKeepsTrimmed(Trim(line));
    SplitParts(s)
  }

  /** The splitting of an already trimmed, upper-cased line. */
  function SplitParts(s: string): (r: Line)
    requires IsTrimmed(s)
    ensures StartsWith(s, r.name) && (|r.name| == |s| || s[|r.name|] == ' ')
    ensures ' ' !in r.name && ',' !in r.dest
    ensures StartsWith(s, r.name) && r.dest == Trim(SubstringBefore(s[|r.name|..], ','))
    ensures ',' in s ==> r.source == Trim(s[|SubstringBefore(s, ',')| + 1..])
    ensures IsTrimmed(r.dest) && IsTrimmed(r.source)
    ensures ',' !in s ==> r.source == []
  {
    var name := SubstringBefore(s, ' ');
    var dest := Trim(SubstringBefore(SubstringAfterString(s, name), ','));
    var after := Trim(SubstringAfter(s, ','));
    TrimOfTrimmed(s);
    TrimSubset(SubstringBefore(SubstringAfterString(s, name), ','), ',');
    AfterFirstComma(s);
    Line(name, dest, if after == s then [] else after)
  }

  /** What follows the first comma is shorter than the text. */
  lemma AfterFirstComma(s: string)
    ensures ',' in s ==> SubstringAfter(s, ',') == s[|SubstringBefore(s, ',')| + 1..]
    ensures ',' in s ==> |Trim(SubstringAfter(s, ','))| < |s|
  {
  }

  /** A part of a rendered line: non-empty, upper-case, trimmed. */
  predicate PlainPart(s: string) {
    s != [] && IsTrimmed(s) && NoLower(s)
  }

  /** Splitting the text a command renders to gives back its mnemonic,
      destination and source, when the mnemonic has no blank or comma, the
      destination no comma, and a source comes only with a destination. */
  lemma SplitCommandString(c: Command)
    requires c.name.Some? && PlainPart(c.name.value) && ' ' !in c.name.value && ',' !in c.name.value
    requires c.dest.Some? ==> PlainPart(c.dest.value.value) && ',' !in c.dest.value.value
    requires c.source.Some? ==> c.dest.Some? && PlainPart(c.source.value.value)
    ensures SplitLine(ToCommandString(c))
      == Line(c.name.value, if c.dest.Some? then c.dest.value.value else [], if c.source.Some? then c.source.value.value else [])
  {
    if c.dest.None? {
      SplitBareCommand(c);
    } else if c.source.None? {
      SplitCommandDest(c);
    } else {
      SplitCommandDestSource(c);
    }
  }

  lemma SplitBareCommand(c: Command)
    requires c.name.Some? && PlainPart(c.name.value) && ' ' !in c.name.value && ',' !in c.name.value
    requires c.dest.None? && c.source.None?
    ensures SplitLine(ToCommandString(c)) == Line(c.name.value, [], [])
  {
    assert ToCommandString(c) == c.name.value;
    SplitName(c.name.value);
  }

  lemma SplitCommandDest(c: Command)
    requires c.name.Some? && PlainPart(c.name.value) && ' ' !in c.name.value && ',' !in c.name.value
    requires c.dest.Some? && PlainPart(c.dest.value.value) && ',' !in c.dest.value.value
    requires c.source.None?
    ensures SplitLine(ToCommandString(c)) == Line(c.name.value, c.dest.value.value, [])
  {
    var n, d := c.name.value, c.dest.value.value;
    assert ToCommandString(c) == n + " " + d;
    SplitNameDest(n, d);
  }

  lemma SplitCommandDestSource(c: Command)
    requires c.name.Some? && PlainPart(c.name.value) && ' ' !in c.name.value && ',' !in c.name.value
    requires c.dest.Some? && PlainPart(c.dest.value.value) && ',' !in c.dest.value.value
    requires c.source.Some? && PlainPart(c.source.value.value)
    ensures SplitLine(ToCommandString(c)) == Line(c.name.value, c.dest.value.value, c.source.value.value)
  {
    var n, d, src := c.name.value, c.dest.value.value, c.source.value.value;
    assert ToCommandString(c) == n + " " + d + ", " + src;
    SplitNameDestSource(n, d, src);
  }

  lemma SplitName(n: string)
    requires PlainPart(n) && ' ' !in n && ',' !in n
    ensures SplitLine(n) == Line(n, [], [])
  {
    TrimOfTrimmed(n);
    UpperOfUpper(n);
    assert SubstringAfterString(n, n) == [];
  }

  lemma SplitNameDest(n: string, d: string)
    requires PlainPart(n) && ' ' !in n && ',' !in n
    requires PlainPart(d) && ',' !in d
    ensures SplitLine(n + " " + d) == Line(n, d, [])
  {
    var s := n + " " + d;
    NameDestPieces(n, d);
    TrimOfTrimmed(s);
    UpperOfUpper(s);
    BlankThenTrimmed(d);
    assert ToUpper(Trim(s)) == s;
    assert SplitLine(s) == SplitParts(s);
  }

  lemma NameDestPieces(n: string, d: string)
    requires PlainPart(n) && ' ' !in n && ',' !in n
    requires PlainPart(d) && ',' !in d
    ensures var s := n + " " + d;
      && PlainPart(s) && ',' !in s
      && SubstringBefore(s, ' ') == n && StartsWith(s, n)
      && SubstringAfterString(s, n) == " " + d && SubstringBefore(" " + d, ',') == " " + d
      && SubstringAfter(s, ',') == s
  {
    JoinIsPlain(n, " ", d);
    SplitAtBlank(n, d);
  }

  lemma SplitNameDestSource(n: string, d: string, src: string)
    requires PlainPart(n) && ' ' !in n && ',' !in n
    requires PlainPart(d) && ',' !in d
    requires PlainPart(src)
    ensures SplitLine(n + " " + d + ", " + src) == Line(n, d, src)
  {
    var s := n + " " + d + ", " + src;
    NameDestSourcePieces(n, d, src);
    TrimOfTrimmed(s);
    UpperOfUpper(s);
    BlankThenTrimmed(d);
    BlankThenTrimmed(src);
    assert ToUpper(Trim(s)) == s;
    assert SplitLine(s) == SplitParts(s);
  }

  lemma NameDestSourcePieces(n: string, d: string, src: string)
    requires PlainPart(n) && ' ' !in n && ',' !in n
    requires PlainPart(d) && ',' !in d
    requires PlainPart(src)
    ensures var s := n + " " + d + ", " + src;
      && PlainPart(s) && ',' in s
      && SubstringBefore(s, ' ') == n && StartsWith(s, n)
      && SubstringBefore(SubstringAfterString(s, n), ',') == " " + d
      && SubstringAfter(s, ',') == " " + src
  {
    JoinIsPlain(n, " ", d);
    JoinIsPlain(n + " " + d, ", ", src);
    NameOfLine(n, d, src);
    CommasOfLine(n, d, src);
  }

  /** The name of a full line ends at its first blank. */
  lemma NameOfLine(n: string, d: string, src: string)
    requires ' ' !in n
    ensures var s := n + " " + d + ", " + src;
      && SubstringBefore(s, ' ') == n && StartsWith(s, n) && SubstringAfterString(s, n) == " " + d + "," + " " + src
  {
    var s := n + " " + d + ", " + src;
    var rest := d + ", " + src;
    assert s == n + " " + rest;
    SplitAtBlank(n, rest);
    assert " " + rest == " " + d + "," + " " + src;
  }

  /** Either side of the first comma of a full line. */
  lemma CommasOfLine(n: string, d: string, src: string)
    requires ',' !in n && ',' !in d
    ensures var s := n + " " + d + ", " + src;
      && ',' in s && SubstringBefore(" " + d + "," + " " + src, ',') == " " + d
      && SubstringAfter(s, ',') == " " + src
  {
    var s := n + " " + d + ", " + src;
    var head, bs := n + " " + d, " " + src;
    assert ',' !in head;
    assert s == head + "," + bs;
    SplitAtComma(head, bs);
    DestBeforeComma(d, src);
  }

  lemma DestBeforeComma(d: string, src: string)
    requires ',' !in d
    ensures SubstringBefore(" " + d + "," + " " + src, ',') == " " + d
  {
    var bd, bs := " " + d, " " + src;
    assert ',' !in bd;
    assert " " + d + "," + " " + src == bd + "," + bs;
    SplitAtComma(bd, bs);
  }

  /** Two plain parts joined by a blank or a comma and a blank make a
      plain line. */
  lemma JoinIsPlain(a: string, sep: string, b: string)
    requires PlainPart(a) && PlainPart(b) && (sep == " " || sep == ", ")
    ensures PlainPart(a + sep + b)
  {
    var t := a + sep + b;
    assert t[0] == a[0] && t[|t| - 1] == b[|b| - 1];
    forall i | 0 <= i < |t| ensures !('a' <= t[i] <= 'z') {
      if i < |a| { assert t[i] == a[i]; }
      else if i >= |a| + |sep| { assert t[i] == b[i - |a| - |sep|]; }
    }
  }

  /** The text before the first blank, when the first part has none. */
  lemma SplitAtBlank(a: string, b: string)
    requires ' ' !in a
    ensures SubstringBefore(a + " " + b, ' ') == a
    ensures StartsWith(a + " " + b, a) && (a + " " + b)[|a|..] == " " + b
  {
    assert a + " " + b == a + [' '] + b;
    SubstringsAtFirst(a, ' ', b);
  }

  /** The text either side of the first comma, when the first part has none. */
  lemma SplitAtComma(a: string, b: string)
    requires ',' !in a
    ensures SubstringBefore(a + "," + b, ',') == a && SubstringAfter(a + "," + b, ',') == b
  {
    assert a + "," + b == a + [','] + b;
    SubstringsAtFirst(a, ',', b);
  }

  /** Trimming a blank followed by trimmed text leaves the text. */
  lemma BlankThenTrimmed(d: string)
    requires d != [] && IsTrimmed(d)
    ensures Trim(" " + d) == d
  {
    assert (" " + d)[1..] == d;
    TrimStartOfTrimmed(d);
    assert TrimStart(" " + d) == d;
  }

  // ---------------------------------------------------------------------
  // Classifying operands and choosing templates

  /** `getAbstractOperand`: a register by name, else a memory operand, else a
      constant of the narrowest class; `None` when the text is none of these. */
  function GetAbstractOperand(ptrs: PtrPrefixes, op: string): (r: Result<Option<AbstractOperand>>)
    ensures r == Success(None) <==> !IsRegister(op) && !IsMemory(op) && !IsConstant(op)
    ensures r.Failure? <==>
      !IsRegister(op) && !IsMemory(op) && IsConstant(op) && ToIntOrNull(op, 16).value <= -0x4000_0000
    ensures IsRegister(op) ==> r == Success(FindRegister(op))
    ensures !IsRegister(op) && IsMemory(op) ==> r.Success? && r.value.Some? && r.value.value.IsMem()
    ensures !IsRegister(op) && !IsMemory(op) && IsConstant(op) && r.Success? ==>
      r.value == GetMinPossibleConstant(ToIntOrNull(op, 16).value) && r.value.value.IsConst()
  {
    if IsRegister(op) then Success(FindRegister(op))
    else if IsMemory(op) then
      // `parseMemory` falls back to Memory32 for any memory text.
      Success(ParseMemory(ptrs, op))
    else if IsConstant(op) then
      var c :- OrFail(GetMinPossibleConstant(ToIntOrNull(op, 16).value));
      Success(Some(c))
    else Success(None)
  }

  /** The templates whose operands the classified operands cast to, in
      table order. */
  function Matching(vars: seq<AbstractCommand>, sourceOp: AbstractOperand, destOp: AbstractOperand): (r: seq<AbstractCommand>)
    ensures forall t :: t in r <==> t in vars && sourceOp.CanCastTo(t.source) && destOp.CanCastTo(t.dest)
    ensures IsSubsequence(r, vars)
  {
    if vars == [] then []
    else
      var rest := Matching(vars[1..], sourceOp, destOp);
      if sourceOp.CanCastTo(vars[0].source) && destOp.CanCastTo(vars[0].dest) then
        assert [vars[0]] + rest == [vars[0]] + rest;
        [vars[0]] + rest
      else rest
  }

  /** `filterCommands`: an unclassifiable source is `NoOperand`; the
      destination must classify and must fit the source. */
  function FilterCommands(ptrs: PtrPrefixes, vars: seq<AbstractCommand>, source: string, dest: string)
    : (r: Result<seq<AbstractCommand>>)
    ensures r.Success? <==>
      && GetAbstractOperand(ptrs, source).Success?
      && GetAbstractOperand(ptrs, dest).Success? && GetAbstractOperand(ptrs, dest).value.Some?
      && GetAbstractOperand(ptrs, dest).value.value.Fits(SourceOperand(ptrs, source))
    ensures r.Success? ==> forall t :: t in r.value <==>
      t in vars && SourceOperand(ptrs, source).CanCastTo(t.source)
      && GetAbstractOperand(ptrs, dest).value.value.CanCastTo(t.dest)
  {
    var sourceOp :- GetAbstractOperand(ptrs, source);
    var destOpt :- GetAbstractOperand(ptrs, dest);
    var destOp :- OrFail(destOpt);
    var src := if sourceOp.Some? then sourceOp.value else NoOperand;
    var _ :- Need(destOp.Fits(src));
    Success(Matching(vars, src, destOp))
  }

  /** The class of the source text, `NoOperand` when it has none. */
  function SourceOperand(ptrs: PtrPrefixes, source: string): AbstractOperand {
    match GetAbstractOperand(ptrs, source)
    case Success(Some(a)) => a
    case _ => NoOperand
  }

  // ---------------------------------------------------------------------
  // Register destination

  /** `commandRegConst`: opcode and immediate, no ModRM. */
  function CommandRegConst(template: AbstractCommand, source: string, dest: AbstractOperand): (r: Result<Command>)
    ensures r.Success? <==> IsConstant(source)
    ensures r.Success? ==>
      Built(r.value, template, OperandOf(dest)) && r.value.source == Some(TemplateOperand(source, template.source))
    ensures r.Success? ==> r.value.modRm.None? && r.value.sib.None? && r.value.displacement.None?
    ensures r.Success? ==> r.value.immediate == Some(ToIntOrNull(source, 16).value)
  {
    var imm :- ParseHex(source);
    Success(Blank(template.opCode).(immediate := Some(imm), name := Some(template.name),
      source := Some(TemplateOperand(source, template.source)), dest := Some(OperandOf(dest))))
  }

  /** `commandRegReg`: ModRM with mod 11, the destination's number in reg
      and the source's in r/m, whatever the opcode's direction bit says. */
  function CommandRegReg(template: AbstractCommand, source: string, dest: AbstractOperand): (r: Result<Command>)
    ensures r.Success? <==> IsRegister(source)
    ensures r.Success? ==> Built(r.value, template, OperandOf(dest)) && r.value.immediate.None?
    ensures r.Success? ==> r.value.modRm.Some? && r.value.sib.None? && r.value.displacement.None?
    ensures r.Success? ==>
      var m := r.value.modRm.value;
      High2(m) == 3 && Middle3(m) == dest.AddressOr0() && Low3(m) == FindRegister(source).value.AddressOr0()
    ensures r.Success? ==> r.value.source == Some(OperandOf(FindRegister(source).value))
  {
    var sourceReg :- OrFail(FindRegister(source));
    Success(Blank(template.opCode).(modRm := Some(Compose(3, dest.AddressOr0(), sourceReg.AddressOr0())),
      name := Some(template.name), source := Some(OperandOf(sourceReg)), dest := Some(OperandOf(dest))))
  }

  /** The fields every builder copies into its command: the template's
      opcode and mnemonic, and the destination operand. */
  predicate Built(c: Command, template: AbstractCommand, dest: Operand) {
    c.prefix.None? && c.opCode == template.opCode && c.name == Some(template.name) && c.dest == Some(dest)
  }

  /** What every memory-source builder makes: the fields of `Built`, the
      given source operand, no immediate, and a ModRM byte with the given mod
      and the destination register in reg. */
  predicate Sourced(c: Command, template: AbstractCommand, source: Operand, dest: AbstractOperand, mod: bv8) {
    && Built(c, template, OperandOf(dest)) && c.source == Some(source) && c.immediate.None?
    && c.modRm.Some? && High2(c.modRm.value) == mod && Middle3(c.modRm.value) == dest.AddressOr0()
  }

  /** A register-destination command with a memory source: ModRM holds the
      given mod and r/m fields and the destination register in reg. */
  function MemorySourced(template: AbstractCommand, mod: bv8, rm: bv8, sib: Option<bv8>, displacement: Option<int>,
                         source: Operand, dest: AbstractOperand): (c: Command)
    requires mod < 3 && rm < 8
    ensures Built(c, template, OperandOf(dest)) && c.source == Some(source) && c.immediate.None?
    ensures c.modRm.Some? && High2(c.modRm.value) == mod && Middle3(c.modRm.value) == dest.AddressOr0()
    ensures Low3(c.modRm.value) == rm && c.sib == sib && c.displacement == displacement
  {
    Blank(template.opCode).(modRm := Some(Compose(mod, dest.AddressOr0(), rm)), sib := sib, displacement := displacement,
      name := Some(template.name), source := Some(source), dest := Some(OperandOf(dest)))
  }

  lemma MemorySourcedFields(template: AbstractCommand, mod: bv8, rm: bv8, sib: Option<bv8>, displacement: Option<int>,
                            source: Operand, dest: AbstractOperand)
    requires mod < 3 && rm < 8
    ensures MemorySourced(template, mod, rm, sib, displacement, source, dest)
      == Command(None, template.opCode, Some(Compose(mod, dest.AddressOr0(), rm)), sib, displacement, None,
                 Some(template.name), Some(source), Some(OperandOf(dest)))
  {
  }

  /** The pieces of a `reg*scale` term. */
  datatype Scaled = Scaled(scale: bv8, reg: AbstractOperand)

  /** Scale 1, 2, 4 or 8 as the 2-bit SS field. */
  function ScaleField(n: int): (r: Option<bv8>)
    ensures r.Some? <==> n == 1 || n == 2 || n == 4 || n == 8
    ensures r.Some? ==> r.value < 4 && Pow(2, r.value as nat) == n
  {
    if n == 1 then Some(0)
    else if n == 2 then Some(1)
    else if n == 4 then Some(2)
    else if n == 8 then Some(3)
    else None
  }

  /** The register of a `reg*scale` term: the left side's, else the right
      side's. */
  function MulRegister(first: string, second: string): (r: Option<AbstractOperand>)
    ensures r.Some? ==> r.value.IsReg()
    ensures r.None? <==> !IsRegister(first) && !IsRegister(second)
  {
    if FindRegister(first).Some? then FindRegister(first) else FindRegister(second)
  }

  /** The scale of a `reg*scale` term: the left side's decimal number, else
      the right side's. */
  function MulScale(first: string, second: string): Option<int> {
    if ToIntOrNull(first, 10).Some? then ToIntOrNull(first, 10) else ToIntOrNull(second, 10)
  }

  /** `parseMultiplication`: the register on either side of '*' (the left
      one when both name one), not EBP or ESP, and a scale of 1, 2, 4 or 8
      on either side (the left one when both are numbers). The SS field is
      returned unshifted. */
  function ParseMultiplication(source: string): (r: Result<Scaled>)
    ensures r.Success? ==> r.value.scale < 4 && r.value.reg.IsReg() && !InStack(r.value.reg)
  {
    ParseTerm(Trim(SubstringBefore(source, '*')), Trim(SubstringAfter(source, '*')))
  }

  /** The checks `parseMultiplication` makes on the two trimmed sides. */
  function ParseTerm(first: string, second: string): (r: Result<Scaled>)
    ensures r.Success? ==> r.value.scale < 4 && r.value.reg.IsReg() && !InStack(r.value.reg)
  {
    var reg :- OrFail(MulRegister(first, second));
    var _ :- Need(!InStack(reg));
    var scale :- OrFail(MulScale(first, second));
    var ss :- OrFail(ScaleField(scale));
    Success(Scaled(ss, reg))
  }

  /** A term parses exactly when one side names a register other than EBP
      and ESP and one side is the decimal scale 1, 2, 4 or 8; the result is
      that register and the scale's exponent. */
  lemma ParseMultiplicationMeaning(source: string)
    ensures var r := ParseMultiplication(source);
      var first := Trim(SubstringBefore(source, '*'));
      var second := Trim(SubstringAfter(source, '*'));
      && (r.Success? <==>
            && MulRegister(first, second).Some? && !InStack(MulRegister(first, second).value)
            && MulScale(first, second).Some? && ScaleField(MulScale(first, second).value).Some?)
      && (r.Success? ==>
            && MulRegister(first, second) == Some(r.value.reg)
            && Pow(2, r.value.scale as nat) == MulScale(first, second).value)
  {
    ParseTermMeaning(Trim(SubstringBefore(source, '*')), Trim(SubstringAfter(source, '*')));
  }

  lemma ParseTermMeaning(first: string, second: string)
    ensures var r := ParseTerm(first, second);
      && (r.Success? <==>
            && MulRegister(first, second).Some? && !InStack(MulRegister(first, second).value)
            && MulScale(first, second).Some? && ScaleField(MulScale(first, second).value).Some?)
      && (r.Success? ==>
            && MulRegister(first, second) == Some(r.value.reg)
            && Pow(2, r.value.scale as nat) == MulScale(first, second).value)
  {
  }

  /** `[disp]`: r/m 101, a 32-bit displacement and no base. */
  function AddressOnly(template: AbstractCommand, op: Operand, dispText: string, dest: AbstractOperand): (r: Result<Command>)
    ensures r.Success? ==> Sourced(r.value, template, op, dest, 0)
  {
    var disp :- ParseHex(dispText);
    Success(MemorySourced(template, 0, 5, None, Some(disp), op, dest))
  }

  /** `[reg]`: the register in r/m, unless it is EBP or ESP. */
  function BaseOnly(template: AbstractCommand, op: Operand, base: AbstractOperand, dest: AbstractOperand): (r: Result<Command>)
    ensures r.Success? ==> Sourced(r.value, template, op, dest, 0)
  {
    var _ :- Need(!InStack(base));
    Success(MemorySourced(template, 0, base.AddressOr0(), None, None, op, dest))
  }

  /** `[reg*scale]`: r/m 100 and a SIB byte whose base 101 asks for a
      displacement, here zero. */
  function ScaledOnly(template: AbstractCommand, op: Operand, term: string, dest: AbstractOperand): (r: Result<Command>)
    ensures r.Success? ==> Sourced(r.value, template, op, dest, 0)
  {
    var m :- ParseMultiplication(term);
    Success(MemorySourced(template, 0, 4, Some(Compose(m.scale, m.reg.AddressOr0(), 5)), Some(0), op, dest))
  }

  /** `commandRegMem1`, one block: a displacement alone, a base register,
      or a scaled index with no base. */
  function CommandRegMem1(template: AbstractCommand, source: string, dest: AbstractOperand): (r: Result<Command>)
    ensures r.Success? ==> Sourced(r.value, template, TemplateOperand("[" + source + "]", template.source), dest, 0)
  {
    var op := TemplateOperand("[" + source + "]", template.source);
    if IsMemoryAddress(source) then AddressOnly(template, op, source, dest)
    else if FindRegister(source).Some? then BaseOnly(template, op, FindRegister(source).value, dest)
    else if '*' in source then ScaledOnly(template, op, source, dest)
    else Failure
  }

  /** `[disp]` encodes mod 00, r/m 101 and the displacement, and fails
      exactly when the text is not an `Int`. */
  lemma RegMem1Address(template: AbstractCommand, source: string, dest: AbstractOperand)
    requires IsMemoryAddress(source)
    ensures var r := CommandRegMem1(template, source, dest);
      && (r.Success? <==> IsConstant(source))
      && (r.Success? ==>
            && r.value.modRm == Some(Compose(0, dest.AddressOr0(), 5)) && r.value.sib.None?
            && r.value.displacement == Some(ToIntOrNull(source, 16).value))
  {
  }

  /** `[reg]` encodes mod 00 and the register as r/m with nothing else;
      EBP and ESP, whose r/m codes mean something else, fail. */
  lemma RegMem1Base(template: AbstractCommand, source: string, dest: AbstractOperand)
    requires !IsMemoryAddress(source) && IsRegister(source)
    ensures var r := CommandRegMem1(template, source, dest);
      && (r.Success? <==> !InStack(FindRegister(source).value))
      && (r.Success? ==>
            && r.value.modRm == Some(Compose(0, dest.AddressOr0(), FindRegister(source).value.AddressOr0()))
            && r.value.sib.None? && r.value.displacement.None?)
  {
  }

  /** `[reg*scale]` encodes mod 00, r/m 100, a SIB byte with base 101 and a
      zero displacement, and fails exactly when the term does not parse. */
  lemma RegMem1Scaled(template: AbstractCommand, source: string, dest: AbstractOperand)
    requires !IsMemoryAddress(source) && !IsRegister(source) && '*' in source
    ensures var r := CommandRegMem1(template, source, dest);
      && (r.Success? <==> ParseMultiplication(source).Success?)
      && (r.Success? ==>
            var m := ParseMultiplication(source).value;
            && r.value.modRm == Some(Compose(0, dest.AddressOr0(), 4))
            && r.value.sib == Some(Compose(m.scale, m.reg.AddressOr0(), 5)) && r.value.displacement == Some(0))
  {
    var op := TemplateOperand("[" + source + "]", template.source);
    assert CommandRegMem1(template, source, dest) == ScaledOnly(template, op, source, dest);
    ScaledOnlyShape(template, op, source, dest);
  }

  lemma ScaledOnlyShape(template: AbstractCommand, op: Operand, term: string, dest: AbstractOperand)
    ensures var r := ScaledOnly(template, op, term, dest);
      && (r.Success? <==> ParseMultiplication(term).Success?)
      && (r.Success? ==>
            var m := ParseMultiplication(term).value;
            && r.value.modRm == Some(Compose(0, dest.AddressOr0(), 4))
            && r.value.sib == Some(Compose(m.scale, m.reg.AddressOr0(), 5)) && r.value.displacement == Some(0))
  {
  }

  /** Any other single block fails. */
  lemma RegMem1Invalid(template: AbstractCommand, source: string, dest: AbstractOperand)
    requires !IsMemoryAddress(source) && !IsRegister(source) && '*' !in source
    ensures CommandRegMem1(template, source, dest).Failure?
  {
  }

  /** `register?.addressOr0() ?: 0`. */
  function AddressOrZero(r: Option<AbstractOperand>): (a: bv8)
    ensures a < 8
  {
    if r.Some? then r.value.AddressOr0() else 0
  }

  /** `[reg][disp]` and `[disp][reg]`: mod 10, the register in r/m, unless
      it is EBP or ESP. */
  function BaseDisp(template: AbstractCommand, source: Operand, dest: AbstractOperand, base: AbstractOperand, dispText: string)
    : (r: Result<Command>)
    ensures r.Success? ==> Sourced(r.value, template, source, dest, 2)
  {
    var _ :- Need(!InStack(base));
    var disp :- ParseHex(dispText);
    Success(MemorySourced(template, 2, base.AddressOr0(), None, Some(disp), source, dest))
  }

  /** `[reg][reg]`: r/m 100 and a SIB byte, the first register the index
      and the second the base, neither EBP nor ESP. */
  function BaseIndex(template: AbstractCommand, source: Operand, dest: AbstractOperand, index: AbstractOperand, base: AbstractOperand)
    : (r: Result<Command>)
    ensures r.Success? ==> Sourced(r.value, template, source, dest, 0)
  {
    var _ :- Need(!InStack(index) && !InStack(base));
    Success(MemorySourced(template, 0, 4, Some(Compose(0, index.AddressOr0(), base.AddressOr0())), None, source, dest))
  }

  /** `reg in stackRegisters` for a register that may be absent. */
  predicate MaybeInStack(reg: Option<AbstractOperand>) {
    reg.Some? && InStack(reg.value)
  }

  /** `[reg*scale][reg]` in either order: r/m 100 and a SIB byte with the
      scaled index and the plain register as base. Neither block may name
      EBP or ESP. */
  function ScaledBase(template: AbstractCommand, source: Operand, dest: AbstractOperand, term: string,
                      base: Option<AbstractOperand>, other: Option<AbstractOperand>): (r: Result<Command>)
    ensures r.Success? ==> Sourced(r.value, template, source, dest, 0)
  {
    var _ :- Need(!MaybeInStack(other) && !MaybeInStack(base));
    var m :- ParseMultiplication(term);
    Success(MemorySourced(template, 0, 4, Some(Compose(m.scale, m.reg.AddressOr0(), AddressOrZero(base))), None, source, dest))
  }

  /** `[reg*scale][disp]` in either order: r/m 100 and a SIB byte with
      base 101, the displacement alone. */
  function ScaledDisp(template: AbstractCommand, source: Operand, dest: AbstractOperand, term: string, dispText: string)
    : (r: Result<Command>)
    ensures r.Success? ==> Sourced(r.value, template, source, dest, 0)
  {
    var m :- ParseMultiplication(term);
    var disp :- ParseHex(dispText);
    Success(MemorySourced(template, 0, 4, Some(Compose(m.scale, m.reg.AddressOr0(), 5)), Some(disp), source, dest))
  }

  /** The two-block forms `commandRegMem2` tells apart. */
  datatype Form2 =
    | BaseDispForm(base: AbstractOperand, dispText: string)
    | BaseIndexForm(index: AbstractOperand, base: AbstractOperand)
    | ScaledBaseForm(term: string, baseReg: Option<AbstractOperand>, other: Option<AbstractOperand>)
    | ScaledDispForm(term: string, dispText: string)
    | NoForm

  /** The conditions of the `when` in `commandRegMem2`, in its order:
      [reg][disp], [disp][reg], [reg][reg], a scaled term with a register,
      a scaled term with a displacement. */
  function Form2Of(memory: seq<string>): (f: Form2)
    requires |memory| == 2
  {
    var reg1 := FindRegister(memory[0]);
    var reg2 := FindRegister(memory[1]);
    if reg1.Some? && IsMemoryAddress(memory[1]) then BaseDispForm(reg1.value, memory[1])
    else if reg2.Some? && IsMemoryAddress(memory[0]) then BaseDispForm(reg2.value, memory[0])
    else if reg1.Some? && reg2.Some? then BaseIndexForm(reg1.value, reg2.value)
    else if ('*' in memory[0] && reg2.Some?) || ('*' in memory[1] && reg1.Some?) then
      if '*' in memory[0] then ScaledBaseForm(memory[0], reg2, reg1) else ScaledBaseForm(memory[1], reg1, reg2)
    else if ('*' in memory[0] && IsMemoryAddress(memory[1])) || ('*' in memory[1] && IsMemoryAddress(memory[0])) then
      if '*' in memory[0] then ScaledDispForm(memory[0], memory[1]) else ScaledDispForm(memory[1], memory[0])
    else NoForm
  }

  /** `commandRegMem2`: the destination may not be EBP or ESP; the form of
      the two blocks chooses the encoding. The repeated stack-register test
      on the scaled term's register is left out: `parseMultiplication` has
      already made it. */
  function CommandRegMem2(template: AbstractCommand, source: Operand, dest: AbstractOperand, memory: seq<string>)
    : (r: Result<Command>)
    requires |memory| == 2
    ensures r.Success? ==> Sourced(r.value, template, source, dest, 0) || Sourced(r.value, template, source, dest, 2)
  {
    var _ :- Need(!InStack(dest));
    match Form2Of(memory)
    case BaseDispForm(base, dispText) => BaseDisp(template, source, dest, base, dispText)
    case BaseIndexForm(index, base) => BaseIndex(template, source, dest, index, base)
    case ScaledBaseForm(term, base, other) => ScaledBase(template, source, dest, term, base, other)
    case ScaledDispForm(term, dispText) => ScaledDisp(template, source, dest, term, dispText)
    case NoForm => Failure
  }

  /** EBP or ESP as the destination register fails. */
  lemma RegMem2StackDest(template: AbstractCommand, source: Operand, dest: AbstractOperand, memory: seq<string>)
    requires |memory| == 2 && InStack(dest)
    ensures CommandRegMem2(template, source, dest, memory).Failure?
  {
  }

  /** `[reg][disp]`: mod 10, the base register in r/m, the displacement. */
  lemma RegMem2BaseDisp(template: AbstractCommand, source: Operand, dest: AbstractOperand, memory: seq<string>)
    requires |memory| == 2 && IsRegister(memory[0]) && IsMemoryAddress(memory[1])
    ensures var r := CommandRegMem2(template, source, dest, memory);
      var base := FindRegister(memory[0]).value;
      && (r.Success? <==> !InStack(dest) && !InStack(base) && IsConstant(memory[1]))
      && (r.Success? ==>
            && r.value.modRm == Some(Compose(2, dest.AddressOr0(), base.AddressOr0())) && r.value.sib.None?
            && r.value.displacement == Some(ToIntOrNull(memory[1], 16).value))
  {
  }

  /** The displacement and the register may come in either order. */
  lemma RegMem2DispBaseOrder(template: AbstractCommand, source: Operand, dest: AbstractOperand, reg: string, disp: string)
    requires IsRegister(reg) && IsMemoryAddress(disp)
    ensures CommandRegMem2(template, source, dest, [disp, reg]) == CommandRegMem2(template, source, dest, [reg, disp])
  {
    RegisterNameShape(FindRegister(reg).value);
    FindRegisterMeaning(reg);
    FindRegisterMeaning(disp);
    if FindRegister(disp).Some? {
      RegisterNameShape(FindRegister(disp).value);
    }
  }

  /** `[reg][reg]`: r/m 100 and a SIB byte with scale 1, the first register
      as index and the second as base. */
  lemma RegMem2BaseIndex(template: AbstractCommand, source: Operand, dest: AbstractOperand, memory: seq<string>)
    requires |memory| == 2 && IsRegister(memory[0]) && IsRegister(memory[1])
    ensures var r := CommandRegMem2(template, source, dest, memory);
      var index := FindRegister(memory[0]).value;
      var base := FindRegister(memory[1]).value;
      && (r.Success? <==> !InStack(dest) && !InStack(index) && !InStack(base))
      && (r.Success? ==>
            && r.value.modRm == Some(Compose(0, dest.AddressOr0(), 4)) && r.value.displacement.None?
            && r.value.sib == Some(Compose(0, index.AddressOr0(), base.AddressOr0())))
  {
    Form2BaseIndex(memory);
    var index, base := FindRegister(memory[0]).value, FindRegister(memory[1]).value;
    assert CommandRegMem2(template, source, dest, memory) ==
      if InStack(dest) then Failure else BaseIndex(template, source, dest, index, base);
    BaseIndexShape(template, source, dest, index, base);
  }

  lemma BaseIndexShape(template: AbstractCommand, source: Operand, dest: AbstractOperand, index: AbstractOperand, base: AbstractOperand)
    ensures var r := BaseIndex(template, source, dest, index, base);
      && (r.Success? <==> !InStack(index) && !InStack(base))
      && (r.Success? ==>
            && r.value.modRm == Some(Compose(0, dest.AddressOr0(), 4)) && r.value.displacement.None?
            && r.value.sib == Some(Compose(0, index.AddressOr0(), base.AddressOr0())))
  {
  }

  /** Two register blocks are the `[reg][reg]` form. */
  lemma Form2BaseIndex(memory: seq<string>)
    requires |memory| == 2 && IsRegister(memory[0]) && IsRegister(memory[1])
    ensures Form2Of(memory) == BaseIndexForm(FindRegister(memory[0]).value, FindRegister(memory[1]).value)
  {
    RegisterIsNotAddress(memory[0]);
    RegisterIsNotAddress(memory[1]);
  }

  /** A register name is never read as a hex block. */
  lemma RegisterIsNotAddress(block: string)
    requires IsRegister(block)
    ensures !IsMemoryAddress(block)
  {
    RegisterNameShape(FindRegister(block).value);
    FindRegisterMeaning(block);
  }

  /** A block holding '*' is never a register name. */
  lemma ScaledIsNotRegister(block: string)
    requires '*' in block
    ensures FindRegister(block).None?
  {
    FindRegisterMeaning(block);
    if FindRegister(block).Some? {
      RegisterNameShape(FindRegister(block).value);
    }
  }

  /** A hex block holds no '*' and is no register name. */
  lemma AddressIsPlain(block: string)
    requires IsMemoryAddress(block)
    ensures '*' !in block && FindRegister(block).None?
  {
    if FindRegister(block).Some? {
      RegisterIsNotAddress(block);
    }
  }

  /** A scaled term with a register, in either order, is the scaled-base
      form with the register as base. */
  lemma Form2ScaledBase(term: string, reg: string)
    requires '*' in term && IsRegister(reg)
    ensures Form2Of([term, reg]) == ScaledBaseForm(term, FindRegister(reg), None)
    ensures Form2Of([reg, term]) == ScaledBaseForm(term, FindRegister(reg), None)
  {
    ScaledIsNotRegister(term);
    RegisterIsNotAddress(reg);
    RegisterNameShape(FindRegister(reg).value);
    FindRegisterMeaning(reg);
  }

  /** A scaled term with a hex block, in either order, is the scaled-displacement form. */
  lemma Form2ScaledDisp(term: string, disp: string)
    requires '*' in term && IsMemoryAddress(disp)
    ensures Form2Of([term, disp]) == ScaledDispForm(term, disp)
    ensures Form2Of([disp, term]) == ScaledDispForm(term, disp)
  {
    ScaledIsNotRegister(term);
    AddressIsPlain(disp);
  }

  /** `[reg*scale][reg]`: mod 00, r/m 100 and a SIB byte with the scaled
      register as index and the plain register as base; it fails exactly
      for a stack register or a term that does not parse. */
  lemma RegMem2ScaledBase(template: AbstractCommand, source: Operand, dest: AbstractOperand, term: string, reg: string)
    requires '*' in term && IsRegister(reg)
    ensures var r := CommandRegMem2(template, source, dest, [term, reg]);
      var base := FindRegister(reg).value;
      && (r.Success? <==> !InStack(dest) && !InStack(base) && ParseMultiplication(term).Success?)
      && (r.Success? ==>
            var m := ParseMultiplication(term).value;
            && r.value.modRm == Some(Compose(0, dest.AddressOr0(), 4)) && r.value.displacement.None?
            && r.value.sib == Some(Compose(m.scale, m.reg.AddressOr0(), base.AddressOr0())))
  {
    ScaledBaseDispatch(template, source, dest, term, reg);
    ScaledBaseShape(template, source, dest, term, FindRegister(reg).value);
  }

  lemma ScaledBaseDispatch(template: AbstractCommand, source: Operand, dest: AbstractOperand, term: string, reg: string)
    requires '*' in term && IsRegister(reg)
    ensures CommandRegMem2(template, source, dest, [term, reg])
      == if InStack(dest) then Failure else ScaledBase(template, source, dest, term, FindRegister(reg), None)
  {
    Form2ScaledBase(term, reg);
    DispatchScaledBase(template, source, dest, [term, reg], term, FindRegister(reg));
  }

  /** A block pair recognised as the scaled-base form goes to `ScaledBase`. */
  lemma DispatchScaledBase(template: AbstractCommand, source: Operand, dest: AbstractOperand, memory: seq<string>, term: string, base: Option<AbstractOperand>)
    requires |memory| == 2 && Form2Of(memory) == ScaledBaseForm(term, base, None)
    ensures CommandRegMem2(template, source, dest, memory)
      == if InStack(dest) then Failure else ScaledBase(template, source, dest, term, base, None)
  {
  }

  lemma ScaledBaseShape(template: AbstractCommand, source: Operand, dest: AbstractOperand, term: string, base: AbstractOperand)
    ensures var r := ScaledBase(template, source, dest, term, Some(base), None);
      && (r.Success? <==> !InStack(base) && ParseMultiplication(term).Success?)
      && (r.Success? ==>
            var m := ParseMultiplication(term).value;
            && r.value.modRm == Some(Compose(0, dest.AddressOr0(), 4)) && r.value.displacement.None?
            && r.value.sib == Some(Compose(m.scale, m.reg.AddressOr0(), base.AddressOr0())))
  {
  }

  /** The scaled term and the register may come in either order. */
  lemma RegMem2ScaledBaseOrder(template: AbstractCommand, source: Operand, dest: AbstractOperand, term: string, reg: string)
    requires '*' in term && IsRegister(reg)
    ensures CommandRegMem2(template, source, dest, [reg, term]) == CommandRegMem2(template, source, dest, [term, reg])
  {
    Form2ScaledBase(term, reg);
    DispatchScaledBase(template, source, dest, [term, reg], term, FindRegister(reg));
    DispatchScaledBase(template, source, dest, [reg, term], term, FindRegister(reg));
  }

  /** `[reg*scale][disp]`: mod 00, r/m 100, a SIB byte with base 101 and the
      displacement; it fails exactly for a stack destination, a term that
      does not parse or a displacement that is not an `Int`. */
  lemma RegMem2ScaledDisp(template: AbstractCommand, source: Operand, dest: AbstractOperand, term: string, disp: string)
    requires '*' in term && IsMemoryAddress(disp)
    ensures var r := CommandRegMem2(template, source, dest, [term, disp]);
      && (r.Success? <==> !InStack(dest) && ParseMultiplication(term).Success? && IsConstant(disp))
      && (r.Success? ==>
            var m := ParseMultiplication(term).value;
            && r.value.modRm == Some(Compose(0, dest.AddressOr0(), 4))
            && r.value.sib == Some(Compose(m.scale, m.reg.AddressOr0(), 5))
            && r.value.displacement == Some(ToIntOrNull(disp, 16).value))
  {
    ScaledDispDispatch(template, source, dest, term, disp);
    ScaledDispShape(template, source, dest, term, disp);
  }

  lemma ScaledDispDispatch(template: AbstractCommand, source: Operand, dest: AbstractOperand, term: string, disp: string)
    requires '*' in term && IsMemoryAddress(disp)
    ensures CommandRegMem2(template, source, dest, [term, disp])
      == if InStack(dest) then Failure else ScaledDisp(template, source, dest, term, disp)
  {
    Form2ScaledDisp(term, disp);
    DispatchScaledDisp(template, source, dest, [term, disp], term, disp);
  }

  /** A block pair recognised as the scaled-displacement form goes to `ScaledDisp`. */
  lemma DispatchScaledDisp(template: AbstractCommand, source: Operand, dest: AbstractOperand, memory: seq<string>, term: string, disp: string)
    requires |memory| == 2 && Form2Of(memory) == ScaledDispForm(term, disp)
    ensures CommandRegMem2(template, source, dest, memory)
      == if InStack(dest) then Failure else ScaledDisp(template, source, dest, term, disp)
  {
  }

  lemma ScaledDispShape(template: AbstractCommand, source: Operand, dest: AbstractOperand, term: string, disp: string)
    ensures var r := ScaledDisp(template, source, dest, term, disp);
      && (r.Success? <==> ParseMultiplication(term).Success? && IsConstant(disp))
      && (r.Success? ==>
            var m := ParseMultiplication(term).value;
            && r.value.modRm == Some(Compose(0, dest.AddressOr0(), 4))
            && r.value.sib == Some(Compose(m.scale, m.reg.AddressOr0(), 5))
            && r.value.displacement == Some(ToIntOrNull(disp, 16).value))
  {
  }

  /** The scaled term and the displacement may come in either order. */
  lemma RegMem2ScaledDispOrder(template: AbstractCommand, source: Operand, dest: AbstractOperand, term: string, disp: string)
    requires '*' in term && IsMemoryAddress(disp)
    ensures CommandRegMem2(template, source, dest, [disp, term]) == CommandRegMem2(template, source, dest, [term, disp])
  {
    Form2ScaledDisp(term, disp);
    DispatchScaledDisp(template, source, dest, [term, disp], term, disp);
    DispatchScaledDisp(template, source, dest, [disp, term], term, disp);
  }

  /** What the three-block loop has gathered so far: the displacement, the
      SS field, the SIB index and the SIB base. */
  datatype Scan3 = Scan3(displacement: Option<int>, ss: bv8, index: Option<bv8>, base: Option<bv8>) {
    predicate Valid() {
      ss < 4 && (index.Some? ==> index.value < 8) && (base.Some? ==> base.value < 8)
    }
  }

  const Start3: Scan3 := Scan3(None, 0, None, None)

  /** One pass of the `forEach` in `commandRegMem3`: a hex block sets the
      displacement; a scaled block sets SS and the index, unless an index
      is already set; a register block becomes the base, or the unscaled
      index once a base is set (with no stack-register test). */
  function Step3(st: Scan3, block: string): (r: Result<Scan3>)
    requires st.Valid()
    ensures r.Success? ==> r.value.Valid()
  {
    if IsMemoryAddress(block) then
      var disp :- ParseHex(block);
      Success(st.(displacement := Some(disp)))
    else if '*' in block then
      var _ :- Need(st.index.None?);
      var m :- ParseMultiplication(block);
      Success(st.(ss := m.scale, index := Some(m.reg.AddressOr0())))
    else
      var reg :- OrFail(FindRegister(block));
      if st.base.Some? then
        var _ :- Need(st.index.None?);
        Success(st.(index := Some(reg.AddressOr0())))
      else Success(st.(base := Some(reg.AddressOr0())))
  }

  /** What one block contributes to the three-block scan. */
  lemma Step3Cases(st: Scan3, block: string)
    requires st.Valid()
    ensures var r := Step3(st, block); IsMemoryAddress(block) ==>
      (r.Success? <==> IsConstant(block)) && (r.Success? ==> r.value == st.(displacement := Some(ToIntOrNull(block, 16).value)))
    ensures var r := Step3(st, block); !IsMemoryAddress(block) && '*' in block ==>
      && (r.Success? <==> st.index.None? && ParseMultiplication(block).Success?)
      && (r.Success? ==> r.value.displacement == st.displacement && r.value.base == st.base && r.value.index.Some?)
    ensures var r := Step3(st, block); !IsMemoryAddress(block) && '*' !in block ==>
      && (r.Success? <==> IsRegister(block) && (st.base.Some? ==> st.index.None?))
      && (r.Success? ==> r.value.displacement == st.displacement && r.value.ss == st.ss)
      && (r.Success? && st.base.None? ==> r.value == st.(base := Some(FindRegister(block).value.AddressOr0())))
      && (r.Success? && st.base.Some? ==> r.value == st.(index := Some(FindRegister(block).value.AddressOr0())))
  {
  }

  /** The whole loop; the first exception ends it. */
  function Scan(st: Scan3, blocks: seq<string>): (r: Result<Scan3>)
    requires st.Valid()
    ensures r.Success? ==> r.value.Valid()
    decreases |blocks|
  {
    if blocks == [] then Success(st)
    else
      var next :- Step3(st, blocks[0]);
      Scan(next, blocks[1..])
  }

  /** `commandRegMem3`: mod 10 with a SIB byte; SIB = SS | index | base,
      both of which must have been found. */
  function CommandRegMem3(template: AbstractCommand, source: Operand, dest: AbstractOperand, memory: seq<string>)
    : (r: Result<Command>)
    requires |memory| == 3
    ensures r.Success? ==> Sourced(r.value, template, source, dest, 2)
  {
    var _ :- Need(!InStack(dest));
    var st :- Scan(Start3, memory);
    var index :- OrFail(st.index);
    var base :- OrFail(st.base);
    Success(MemorySourced(template, 2, 4, Some(Compose(st.ss, index, base)), st.displacement, source, dest))
  }

  /** Three blocks succeed exactly when the destination is not a stack
      register and the scan finds an index and a base; ModRM is mod 10 with
      r/m 100 and the SIB byte is built from the scan. */
  lemma RegMem3Shape(template: AbstractCommand, source: Operand, dest: AbstractOperand, memory: seq<string>)
    requires |memory| == 3
    ensures var r := CommandRegMem3(template, source, dest, memory); r.Success? <==>
      && !InStack(dest) && Scan(Start3, memory).Success?
      && Scan(Start3, memory).value.index.Some? && Scan(Start3, memory).value.base.Some?
    ensures var r := CommandRegMem3(template, source, dest, memory); r.Success? ==>
      var st := Scan(Start3, memory).value;
      && r.value.modRm == Some(Compose(2, dest.AddressOr0(), 4))
      && r.value.sib == Some(Compose(st.ss, st.index.value, st.base.value))
      && r.value.displacement == st.displacement
  {
  }

  /** A block the scan reads as a `reg*scale` term. */
  predicate IsScaledTerm(block: string) {
    !IsMemoryAddress(block) && '*' in block
  }

  /** What a block of the three-block form is, apart from the state of the
      scan: the state decides only whether an index or a base is taken. */
  datatype BlockKind = HexBlock(disp: int) | ScaledBlock(ss: bv8, index: bv8) | RegisterBlock(address: bv8) | BadBlock {
    predicate Valid() {
      (ScaledBlock? ==> ss < 4 && index < 8) && (RegisterBlock? ==> address < 8)
    }
  }

  function KindOf(block: string): (k: BlockKind)
    ensures k.Valid()
    ensures IsScaledTerm(block) ==> k.ScaledBlock? || k.BadBlock?
  {
    if IsMemoryAddress(block) then
      match ParseHex(block)
      case Success(d) => HexBlock(d)
      case Failure => BadBlock
    else if '*' in block then
      match ParseMultiplication(block)
      case Success(m) => ScaledBlock(m.scale, m.reg.AddressOr0())
      case Failure => BadBlock
    else
      match FindRegister(block)
      case Some(reg) => RegisterBlock(reg.AddressOr0())
      case None => BadBlock
  }

  /** `Step3` on the kind of the block. */
  function StepKind(st: Scan3, k: BlockKind): (r: Result<Scan3>)
    requires st.Valid() && k.Valid()
    ensures r.Success? ==> r.value.Valid()
    ensures k.ScaledBlock? ==> (r.Success? <==> st.index.None?) && (r.Success? ==> r.value.index.Some?)
    ensures st.index.Some? && r.Success? ==> r.value.index.Some?
  {
    match k
    case HexBlock(d) => Success(st.(displacement := Some(d)))
    case ScaledBlock(ss, index) => if st.index.None? then Success(st.(ss := ss, index := Some(index))) else Failure
    case RegisterBlock(address) =>
      if st.base.None? then Success(st.(base := Some(address)))
      else if st.index.None? then Success(st.(index := Some(address)))
      else Failure
    case BadBlock => Failure
  }

  lemma StepByKind(st: Scan3, block: string)
    requires st.Valid()
    ensures Step3(st, block) == StepKind(st, KindOf(block))
  {
  }

  /** `Scan` on the kinds of the blocks. */
  function ScanKinds(st: Scan3, ks: seq<BlockKind>): (r: Result<Scan3>)
    requires st.Valid() && forall k :: k in ks ==> k.Valid()
    decreases |ks|
  {
    if ks == [] then Success(st)
    else
      var next :- StepKind(st, ks[0]);
      ScanKinds(next, ks[1..])
  }

  function KindsOf(blocks: seq<string>): (ks: seq<BlockKind>)
    ensures |ks| == |blocks| && forall k :: k in ks ==> k.Valid()
    ensures forall i :: 0 <= i < |blocks| ==> ks[i] == KindOf(blocks[i])
  {
    if blocks == [] then [] else [KindOf(blocks[0])] + KindsOf(blocks[1..])
  }

  lemma {:induction false} ScanByKinds(st: Scan3, blocks: seq<string>)
    requires st.Valid()
    ensures Scan(st, blocks) == ScanKinds(st, KindsOf(blocks))
    decreases |blocks|
  {
    if blocks != [] {
      var ks := KindsOf(blocks);
      assert ks[0] == KindOf(blocks[0]) && ks[1..] == KindsOf(blocks[1..]);
      StepByKind(st, blocks[0]);
      if Step3(st, blocks[0]).Success? {
        ScanByKinds(Step3(st, blocks[0]).value, blocks[1..]);
      }
    }
  }

  /** Once an index is set, a later scaled (or unreadable) term makes the
      scan fail. */
  lemma {:induction false} ScanKindsIndexSet(st: Scan3, ks: seq<BlockKind>, j: nat)
    requires st.Valid() && (forall k :: k in ks ==> k.Valid()) && st.index.Some?
    requires j < |ks| && (ks[j].ScaledBlock? || ks[j].BadBlock?)
    ensures ScanKinds(st, ks).Failure?
    decreases |ks|
  {
    if j > 0 && StepKind(st, ks[0]).Success? {
      assert ks[1..][j - 1] == ks[j];
      ScanKindsIndexSet(StepKind(st, ks[0]).value, ks[1..], j - 1);
    }
  }

  /** Two scaled (or unreadable) terms make the scan fail, wherever they stand. */
  lemma {:induction false} ScanKindsTwoScaled(st: Scan3, ks: seq<BlockKind>, i: nat, j: nat)
    requires st.Valid() && (forall k :: k in ks ==> k.Valid())
    requires i < j < |ks| && (ks[i].ScaledBlock? || ks[i].BadBlock?) && (ks[j].ScaledBlock? || ks[j].BadBlock?)
    ensures ScanKinds(st, ks).Failure?
    decreases |ks|
  {
    if StepKind(st, ks[0]).Success? {
      assert ks[1..][j - 1] == ks[j];
      if i == 0 {
        ScanKindsIndexSet(StepKind(st, ks[0]).value, ks[1..], j - 1);
      } else {
        assert ks[1..][i - 1] == ks[i];
        ScanKindsTwoScaled(StepKind(st, ks[0]).value, ks[1..], i - 1, j - 1);
      }
    }
  }

  /** Two scaled terms among the blocks make the scan fail. */
  lemma ScanTwoScaled(st: Scan3, blocks: seq<string>, i: nat, j: nat)
    requires st.Valid() && i < j < |blocks| && IsScaledTerm(blocks[i]) && IsScaledTerm(blocks[j])
    ensures Scan(st, blocks).Failure?
  {
    ScanByKinds(st, blocks);
    var ks := KindsOf(blocks);
    assert ks[i] == KindOf(blocks[i]) && ks[j] == KindOf(blocks[j]);
    ScanKindsTwoScaled(st, ks, i, j);
  }

  /** `commandRegMem3` rejects a second scaled term. */
  lemma RegMem3TwoScaled(template: AbstractCommand, source: Operand, dest: AbstractOperand, memory: seq<string>,
                         i: nat, j: nat)
    requires |memory| == 3 && i < j < 3 && IsScaledTerm(memory[i]) && IsScaledTerm(memory[j])
    ensures CommandRegMem3(template, source, dest, memory).Failure?
  {
    ScanTwoScaled(Start3, memory, i, j);
  }

  /** The scan of three blocks, one step at a time. */
  lemma ScanThree(st: Scan3, a: string, b: string, c: string, s1: Scan3, s2: Scan3, s3: Scan3)
    requires st.Valid()
    requires Step3(st, a) == Success(s1) && Step3(s1, b) == Success(s2) && Step3(s2, c) == Success(s3)
    ensures Scan(st, [a, b, c]) == Success(s3)
  {
    assert [a, b, c][1..] == [b, c] && [b, c][1..] == [c] && [c][1..] == [];
    assert Scan(s2, [c]) == Scan(s3, []) == Success(s3);
    assert Scan(s1, [b, c]) == Scan(s2, [c]);
  }

  /** A hex block sets the displacement and nothing else. */
  lemma StepLiteral(st: Scan3, block: string)
    requires st.Valid() && IsMemoryAddress(block) && IsConstant(block)
    ensures Step3(st, block) == Success(st.(displacement := Some(ToIntOrNull(block, 16).value)))
  {
    Step3Cases(st, block);
  }

  /** A scaled term sets SS and the index when no index is set yet. */
  lemma StepScaled(st: Scan3, block: string)
    requires st.Valid() && IsScaledTerm(block) && ParseMultiplication(block).Success? && st.index.None?
    ensures var m := ParseMultiplication(block).value;
      Step3(st, block) == Success(st.(ss := m.scale, index := Some(m.reg.AddressOr0())))
  {
  }

  /** A register block sets the base when no base is set yet. */
  lemma StepBase(st: Scan3, block: string)
    requires st.Valid() && !IsMemoryAddress(block) && '*' !in block && IsRegister(block) && st.base.None?
    ensures Step3(st, block) == Success(st.(base := Some(FindRegister(block).value.AddressOr0())))
  {
    Step3Cases(st, block);
  }

  /** A displacement, a scaled term and a register give the same scan in
      all six orders: the register is the base, the term the scaled index. */
  lemma RegMem3Orders(literal: string, term: string, register: string)
    requires IsMemoryAddress(literal) && IsConstant(literal)
    requires IsScaledTerm(term) && ParseMultiplication(term).Success?
    requires !IsMemoryAddress(register) && '*' !in register && IsRegister(register)
    ensures var m := ParseMultiplication(term).value;
      var st := Scan3(ToIntOrNull(literal, 16), m.scale, Some(m.reg.AddressOr0()), Some(FindRegister(register).value.AddressOr0()));
      && Scan(Start3, [literal, term, register]) == Success(st)
      && Scan(Start3, [literal, register, term]) == Success(st)
      && Scan(Start3, [term, literal, register]) == Success(st)
      && Scan(Start3, [term, register, literal]) == Success(st)
      && Scan(Start3, [register, literal, term]) == Success(st)
      && Scan(Start3, [register, term, literal]) == Success(st)
  {
    var m := ParseMultiplication(term).value;
    var d := Start3.(displacement := Some(ToIntOrNull(literal, 16).value));
    var x := Start3.(ss := m.scale, index := Some(m.reg.AddressOr0()));
    var b := Start3.(base := Some(FindRegister(register).value.AddressOr0()));
    var st := Scan3(ToIntOrNull(literal, 16), m.scale, Some(m.reg.AddressOr0()), Some(FindRegister(register).value.AddressOr0()));
    StepLiteral(Start3, literal);
    StepScaled(Start3, term);
    StepBase(Start3, register);
    StepScaled(d, term); StepBase(d, register);
    StepLiteral(x, literal); StepBase(x, register);
    StepLiteral(b, literal); StepScaled(b, term);
    var dx, db, xb := d.(ss := m.scale, index := Some(m.reg.AddressOr0())), d.(base := st.base), x.(base := st.base);
    StepBase(dx, register); StepScaled(db, term); StepLiteral(xb, literal);
    ScanThree(Start3, literal, term, register, d, dx, st);
    ScanThree(Start3, literal, register, term, d, db, st);
    ScanThree(Start3, term, literal, register, x, dx, st);
    ScanThree(Start3, term, register, literal, x, xb, st);
    ScanThree(Start3, register, literal, term, b, db, st);
    ScanThree(Start3, register, term, literal, b, xb, st);
  }

  /** ... so `commandRegMem3` writes the same bytes for all six orders. */
  lemma RegMem3OrderFree(template: AbstractCommand, source: Operand, dest: AbstractOperand,
                         literal: string, term: string, register: string)
    requires IsMemoryAddress(literal) && IsConstant(literal)
    requires IsScaledTerm(term) && ParseMultiplication(term).Success?
    requires !IsMemoryAddress(register) && '*' !in register && IsRegister(register)
    ensures var c := CommandRegMem3(template, source, dest, [literal, term, register]);
      && CommandRegMem3(template, source, dest, [literal, register, term]) == c
      && CommandRegMem3(template, source, dest, [term, literal, register]) == c
      && CommandRegMem3(template, source, dest, [term, register, literal]) == c
      && CommandRegMem3(template, source, dest, [register, literal, term]) == c
      && CommandRegMem3(template, source, dest, [register, term, literal]) == c
  {
    RegMem3Orders(literal, term, register);
  }

  /** `commandRegMem`: one, two or three blocks; more fail. */
  function CommandRegMem(template: AbstractCommand, source: string, dest: AbstractOperand): (r: Result<Command>)
    ensures r.Success? ==> Built(r.value, template, OperandOf(dest))
  {
    var opSource := TemplateOperand(source, template.source);
    var split := SplitMemoryAddress(source);
    if |split| == 1 then CommandRegMem1(template, SubstringBefore(SubstringAfter(split[0], '['), ']'), dest)
    else if |split| == 2 then CommandRegMem2(template, opSource, dest, split)
    else if |split| == 3 then CommandRegMem3(template, opSource, dest, split)
    else Failure
  }

  /** The number of blocks chooses the builder; more than three fail, and
      the one-block builder sees the block without its brackets. */
  lemma RegMemBlocks(template: AbstractCommand, source: string, dest: AbstractOperand)
    ensures var r := CommandRegMem(template, source, dest); |SplitMemoryAddress(source)| > 3 ==> r.Failure?
    ensures var r := CommandRegMem(template, source, dest); |SplitMemoryAddress(source)| == 1 ==> r == CommandRegMem1(template, SplitMemoryAddress(source)[0], dest)
    ensures var r := CommandRegMem(template, source, dest); |SplitMemoryAddress(source)| == 2 ==>
      r == CommandRegMem2(template, TemplateOperand(source, template.source), dest, SplitMemoryAddress(source))
    ensures var r := CommandRegMem(template, source, dest); |SplitMemoryAddress(source)| == 3 ==>
      r == CommandRegMem3(template, TemplateOperand(source, template.source), dest, SplitMemoryAddress(source))
  {
  }

  /** `commandRegDest`: the destination names a register; the template's
      source kind chooses the builder. */
  function CommandRegDest(template: AbstractCommand, source: string, dest: string): (r: Result<Command>)
    ensures !IsRegister(dest) ==> r.Failure?
    ensures r.Success? && template.source.Kind() != OperandType.Undefined ==>
      Built(r.value, template, OperandOf(FindRegister(dest).value))
    ensures r.Success? && template.source.Kind() == OperandType.Undefined ==>
      r.value == Blank(template.opCode).(name := Some(template.name), dest := Some(OperandOf(template.dest)))
  {
    var reg :- OrFail(FindRegister(dest));
    match template.source.Kind()
    case Register => CommandRegReg(template, source, reg)
    case Memory => CommandRegMem(template, source, reg)
    case Constant => CommandRegConst(template, source, reg)
    case Undefined =>
      Success(Blank(template.opCode).(name := Some(template.name), dest := Some(OperandOf(template.dest))))
  }

  // ---------------------------------------------------------------------
  // Memory destination

  /** The first block satisfying `p`, as `find` returns it. */
  function Find(blocks: seq<string>, p: string -> bool): (r: Option<string>)
    ensures r.Some? ==> r.value in blocks && p(r.value)
    ensures r.Some? ==> exists i :: 0 <= i < |blocks| && blocks[i] == r.value && NoneBefore(blocks, i, p)
    ensures r.None? <==> forall b :: b in blocks ==> !p(b)
  {
    if blocks == [] then None
    else if p(blocks[0]) then
      assert NoneBefore(blocks, 0, p);
      Some(blocks[0])
    else
      var r := Find(blocks[1..], p);
      FindShift(blocks, p, r);
      r
  }

  /** A first match in the tail, after a first block that does not match,
      is a first match in the whole sequence. */
  lemma FindShift(blocks: seq<string>, p: string -> bool, r: Option<string>)
    requires blocks != [] && !p(blocks[0])
    requires r.Some? ==> exists i :: 0 <= i < |blocks[1..]| && blocks[1..][i] == r.value && NoneBefore(blocks[1..], i, p)
    ensures r.Some? ==> exists i :: 0 <= i < |blocks| && blocks[i] == r.value && NoneBefore(blocks, i, p)
  {
    if r.Some? {
      var i :| 0 <= i < |blocks[1..]| && blocks[1..][i] == r.value && NoneBefore(blocks[1..], i, p);
      assert NoneBefore(blocks, i + 1, p) by {
        forall j | 0 <= j < i + 1 ensures !p(blocks[j]) {
          if j > 0 { assert blocks[j] == blocks[1..][j - 1]; }
        }
      }
      assert blocks[i + 1] == r.value;
    }
  }

  /** No block before position `i` satisfies `p`. */
  predicate NoneBefore(blocks: seq<string>, i: nat, p: string -> bool)
    requires i <= |blocks|
  {
    forall j :: 0 <= j < i ==> !p(blocks[j])
  }

  /** A block that is the only one satisfying `p` is the one `find` returns. */
  lemma {:induction false} FindUnique(blocks: seq<string>, p: string -> bool, x: string)
    requires x in blocks && forall b :: b in blocks ==> (p(b) <==> b == x)
    ensures Find(blocks, p) == Some(x)
  {
    if blocks[0] != x {
      assert x in blocks[1..];
      FindUnique(blocks[1..], p, x);
    }
  }

  /** The register field and the immediate a memory-destination command
      takes from its source text. */
  datatype SourceFields = SourceFields(regField: Option<bv8>, immediate: Option<int>)

  /** The source half of `commandMemDest`: a register source goes into the
      reg field (unless it is the template's own register), a constant
      source is the immediate. */
  function MemDestSource(template: AbstractCommand, source: string): (r: Result<SourceFields>)
    ensures r.Success? ==> (r.value.regField.Some? ==> r.value.regField.value < 8)
  {
    match template.source.Kind()
    case Register =>
      var reg :- OrFail(FindRegister(source));
      Success(SourceFields(if reg != template.source then Some(reg.AddressOr0()) else None, None))
    case Constant =>
      var imm :- ParseHex(source);
      Success(SourceFields(None, Some(imm)))
    case _ => Failure
  }

  /** A register source named in a register template gives its reg field,
      unless it is the template's own operand. */
  lemma MemDestSourceRegister(template: AbstractCommand, source: string, reg: AbstractOperand)
    requires template.source.Kind() == Register && FindRegister(source) == Some(reg)
    ensures MemDestSource(template, source)
      == Success(SourceFields(if reg != template.source then Some(reg.AddressOr0()) else None, None))
  {
  }

  /** A register source fills the reg field, a constant source the
      immediate; any other source kind fails. */
  lemma MemDestSourceCases(template: AbstractCommand, source: string)
    ensures var r := MemDestSource(template, source); template.source.Kind() == Register ==>
      (r.Success? <==> IsRegister(source))
      && (r.Success? ==> r.value.immediate.None?)
      && (r.Success? && FindRegister(source).value != template.source ==>
            r.value.regField == Some(FindRegister(source).value.AddressOr0()))
    ensures var r := MemDestSource(template, source); template.source.Kind() == Constant ==>
      (r.Success? <==> IsConstant(source))
      && (r.Success? ==> r.value == SourceFields(None, Some(ToIntOrNull(source, 16).value)))
    ensures var r := MemDestSource(template, source); template.source.Kind() != Register && template.source.Kind() != Constant ==> r.Failure?
  {
  }

  /** The roles `commandMemDest` gives the blocks of its destination: the
      first register block is the base, the first number block the
      displacement, and the first block that holds '*' or names a register
      other than the base block the index. */
  datatype Roles = Roles(base: Option<string>, displacement: Option<string>, index: Option<string>)

  function BlockRoles(blocks: seq<string>): (r: Roles)
    ensures r.base.Some? ==> exists i :: 0 <= i < |blocks| && blocks[i] == r.base.value && NoneBefore(blocks, i, b => IsRegister(b))
    ensures r.base.None? <==> forall b :: b in blocks ==> !IsRegister(b)
    ensures r.displacement.Some? ==>
      exists i :: 0 <= i < |blocks| && blocks[i] == r.displacement.value && NoneBefore(blocks, i, b => IsConstant(b))
    ensures r.displacement.None? <==> forall b :: b in blocks ==> !IsConstant(b)
    ensures r.index.Some? ==>
      exists i :: 0 <= i < |blocks| && blocks[i] == r.index.value && NoneBefore(blocks, i, b => '*' in b || (IsRegister(b) && Some(b) != r.base))
    ensures r.base.Some? ==> IsRegister(r.base.value) && r.base.value in blocks
    ensures r.displacement.Some? ==> IsConstant(r.displacement.value) && r.displacement.value in blocks
    ensures r.index.Some? ==> r.index.value in blocks && ('*' in r.index.value || IsRegister(r.index.value))
    ensures r.index.Some? && '*' !in r.index.value ==> r.base.Some? && r.index != r.base
  {
    var base := Find(blocks, b => IsRegister(b));
    var disp := Find(blocks, b => IsConstant(b));
    var index := Find(blocks, b => '*' in b || (IsRegister(b) && Some(b) != base));
    Roles(base, disp, index)
  }

  /** The index term as SS field and register: a scaled block goes through
      `parseMultiplication`, a plain register block is scale 1. */
  function IndexTerm(index: Option<string>): (r: Result<Option<Scaled>>)
    requires index.Some? && '*' !in index.value ==> IsRegister(index.value)
    ensures r.Success? && r.value.Some? ==> r.value.value.scale < 4
    ensures index.None? ==> r == Success(None)
    ensures index.Some? ==> r.Success? ==> r.value.Some?
  {
    if index.None? then Success(None)
    else if '*' in index.value then
      var m :- ParseMultiplication(index.value);
      Success(Some(m))
    else Success(Some(Scaled(0, FindRegister(index.value).value)))
  }

  /** The address fields of `commandMemDest`, from the source's reg field,
      the base register, the displacement and the index term. */
  datatype AddressFields = AddressFields(modRm: Option<bv8>, sib: Option<bv8>, displacement: Option<int>)

  function MemDestAddress(regField: Option<bv8>, baseReg: Option<AbstractOperand>, disp: Option<int>, index: Option<Scaled>)
    : (r: AddressFields)
    requires regField.Some? ==> regField.value < 8
    requires index.Some? ==> index.value.scale < 4
  {
    if index.None? then
      if regField.Some? then
        var rm := if baseReg.Some? then baseReg.value.AddressOr0() else 5;
        var mod: bv8 := if disp.Some? && rm != 5 then 2 else 0;
        AddressFields(Some(Compose(mod, regField.value, rm)), None, disp)
      else if disp.Some? then AddressFields(Some(Compose(0, 0, 5)), None, disp)
      else AddressFields(None, None, disp)
    else
      var mod: bv8 := if disp.Some? && baseReg.Some? then 2 else 0;
      var reg: bv8 := if regField.Some? then regField.value else 0;
      var base: bv8 := if baseReg.Some? then baseReg.value.AddressOr0() else 5;
      var displacement := if baseReg.None? && disp.None? then Some(0) else disp;
      AddressFields(Some(Compose(mod, reg, 4)), Some(Compose(index.value.scale, index.value.reg.AddressOr0(), base)), displacement)
  }

  /** `commandMemDest`: at most three blocks; the roles decide the bytes. */
  function CommandMemDest(template: AbstractCommand, source: string, dest: string): (r: Result<Command>)
    ensures r.Success? ==>
      && Built(r.value, template, TemplateOperand(dest, template.dest))
      && r.value.source == Some(TemplateOperand(source, template.source))
      && MemDestSource(template, source).Success?
      && r.value.immediate == MemDestSource(template, source).value.immediate
  {
    var fromSource :- MemDestSource(template, source);
    var blocks := SplitMemoryAddress(dest);
    var _ :- Need(|blocks| <= 3);
    var roles := BlockRoles(blocks);
    var index :- IndexTerm(roles.index);
    var fields := MemDestAddress(fromSource.regField, BaseRegister(roles), DisplacementValue(roles), index);
    Success(Blank(template.opCode).(modRm := fields.modRm, sib := fields.sib, displacement := fields.displacement,
      immediate := fromSource.immediate, name := Some(template.name),
      source := Some(TemplateOperand(source, template.source)), dest := Some(TemplateOperand(dest, template.dest))))
  }

  /** A memory destination takes at most three blocks; its address bytes
      are those the roles of its blocks give. */
  lemma MemDestShape(template: AbstractCommand, source: string, dest: string)
    ensures var r := CommandMemDest(template, source, dest); |SplitMemoryAddress(dest)| > 3 ==> r.Failure?
    ensures var r := CommandMemDest(template, source, dest); r.Success? ==> MemDestSource(template, source).Success?
    ensures var r := CommandMemDest(template, source, dest); r.Success? ==>
      var roles := BlockRoles(SplitMemoryAddress(dest));
      && IndexTerm(roles.index).Success?
      && AddressFields(r.value.modRm, r.value.sib, r.value.displacement)
         == MemDestAddress(MemDestSource(template, source).value.regField, BaseRegister(roles),
                           DisplacementValue(roles), IndexTerm(roles.index).value)
  {
  }

  /** The rules by which `commandMemDest` lays out its address, field by field.
      With an index: r/m 100, mod 10 exactly when there is both a
      displacement and a base, the SIB byte `ss index base`, and with no
      base the SIB base 101 and a displacement of 0 when none was given.
      Without an index: no SIB byte; a register source gives r/m = the base
      (101 without one) and mod 10 exactly when there is a displacement and
      r/m is not 101; otherwise ModRM is 00000101 exactly when there is a
      displacement. The reg field is the source register, or 0. */
  lemma MemDestAddressMeaning(regField: Option<bv8>, baseReg: Option<AbstractOperand>, disp: Option<int>, index: Option<Scaled>)
    requires regField.Some? ==> regField.value < 8
    requires index.Some? ==> index.value.scale < 4
    ensures var r := MemDestAddress(regField, baseReg, disp, index); index.Some? ==>
      && r.modRm.Some? && r.sib.Some?
      && (High2(r.modRm.value) == 2 <==> disp.Some? && baseReg.Some?)
      && (High2(r.modRm.value) == 0 <==> !(disp.Some? && baseReg.Some?))
      && Middle3(r.modRm.value) == (if regField.Some? then regField.value else 0)
      && Low3(r.modRm.value) == 4
      && High2(r.sib.value) == index.value.scale && Middle3(r.sib.value) == index.value.reg.AddressOr0()
      && (baseReg.Some? ==> Low3(r.sib.value) == baseReg.value.AddressOr0() && r.displacement == disp)
      && (baseReg.None? ==> Low3(r.sib.value) == 5 && r.displacement == Some(if disp.Some? then disp.value else 0))
    ensures var r := MemDestAddress(regField, baseReg, disp, index); index.None? ==>
      r.sib.None? && r.displacement == disp
    ensures var r := MemDestAddress(regField, baseReg, disp, index); index.None? && regField.Some? ==>
      && r.modRm.Some? && Middle3(r.modRm.value) == regField.value
      && Low3(r.modRm.value) == (if baseReg.Some? then baseReg.value.AddressOr0() else 5)
      && (High2(r.modRm.value) == 2 <==> disp.Some? && Low3(r.modRm.value) != 5)
      && (High2(r.modRm.value) == 0 <==> !(disp.Some? && Low3(r.modRm.value) != 5))
    ensures var r := MemDestAddress(regField, baseReg, disp, index); index.None? && regField.None? ==>
      && (r.modRm.Some? <==> disp.Some?)
      && (r.modRm.Some? ==> High2(r.modRm.value) == 0 && Middle3(r.modRm.value) == 0 && Low3(r.modRm.value) == 5)
  {
  }

  /** A constant holds no '*'. */
  lemma StarIsNotConstant(s: string)
    requires '*' in s
    ensures !IsConstant(s)
  {
    ToIntOrNullMeaning(s, 16);
    var i :| 0 <= i < |s| && s[i] == '*';
    assert DigitValue('*', 16).None?;
    if |s| > 1 && (s[0] == '-' || s[0] == '+') {
      assert s[1..][i - 1] == '*';
    }
  }

  /** The blocks a memory destination of a hex block, a scaled term and a
      register have, in whatever order: the register is the base, the hex
      block the displacement and the term the index. */
  lemma RolesOfThree(blocks: seq<string>, literal: string, term: string, register: string)
    requires multiset(blocks) == multiset{literal, term, register}
    requires IsMemoryAddress(literal) && IsConstant(literal) && '*' in term && IsRegister(register)
    ensures BlockRoles(blocks) == Roles(Some(register), Some(literal), Some(term))
  {
    AddressIsPlain(literal);
    ScaledIsNotRegister(term);
    StarIsNotConstant(term);
    RegisterNameShape(FindRegister(register).value);
    FindRegisterMeaning(register);
    assert forall b :: b in blocks <==> b == literal || b == term || b == register by {
      forall b ensures b in blocks <==> b in multiset{literal, term, register} {
        assert b in blocks <==> b in multiset(blocks);
      }
    }
    FindUnique(blocks, b => IsRegister(b), register);
    FindUnique(blocks, b => IsConstant(b), literal);
    FindUnique(blocks, b => '*' in b || (IsRegister(b) && Some(b) != Some(register)), term);
  }

  /** A memory destination of a hex block, a scaled term and a register, in
      any of the six orders (as in "[11223344][EBX*4][EDX]"): mod 10 and
      r/m 100 with the source register in reg (0 for a constant source), the
      SIB byte `ss index base` and the displacement. It fails exactly when
      the source or the term fails. */
  lemma MemDestThreeBlocks(template: AbstractCommand, source: string, dest: string,
                           literal: string, term: string, register: string)
    requires multiset(SplitMemoryAddress(dest)) == multiset{literal, term, register}
    requires IsMemoryAddress(literal) && IsConstant(literal) && '*' in term && IsRegister(register)
    ensures var r := CommandMemDest(template, source, dest);
      && (r.Success? <==> MemDestSource(template, source).Success? && ParseMultiplication(term).Success?)
      && (r.Success? ==>
            var regField := MemDestSource(template, source).value.regField;
            var m := ParseMultiplication(term).value;
            && r.value.modRm == Some(Compose(2, if regField.Some? then regField.value else 0, 4))
            && r.value.sib == Some(Compose(m.scale, m.reg.AddressOr0(), FindRegister(register).value.AddressOr0()))
            && r.value.displacement == Some(ToIntOrNull(literal, 16).value))
  {
    var blocks := SplitMemoryAddress(dest);
    assert |multiset(blocks)| == 3;
    RolesOfThree(blocks, literal, term, register);
    MemDestThreeSucceeds(template, source, dest, literal, term, register);
    MemDestThreeBytes(template, source, dest, literal, term, register);
  }

  lemma MemDestThreeSucceeds(template: AbstractCommand, source: string, dest: string,
                             literal: string, term: string, register: string)
    requires |SplitMemoryAddress(dest)| == 3
    requires BlockRoles(SplitMemoryAddress(dest)) == Roles(Some(register), Some(literal), Some(term))
    requires IsConstant(literal) && '*' in term && IsRegister(register)
    ensures CommandMemDest(template, source, dest).Success? <==>
      MemDestSource(template, source).Success? && ParseMultiplication(term).Success?
  {
  }

  lemma MemDestThreeBytes(template: AbstractCommand, source: string, dest: string,
                          literal: string, term: string, register: string)
    requires |SplitMemoryAddress(dest)| == 3
    requires BlockRoles(SplitMemoryAddress(dest)) == Roles(Some(register), Some(literal), Some(term))
    requires IsConstant(literal) && '*' in term && IsRegister(register)
    ensures var r := CommandMemDest(template, source, dest); r.Success? ==>
      var regField := MemDestSource(template, source).value.regField;
      var m := ParseMultiplication(term).value;
      && r.value.modRm == Some(Compose(2, if regField.Some? then regField.value else 0, 4))
      && r.value.sib == Some(Compose(m.scale, m.reg.AddressOr0(), FindRegister(register).value.AddressOr0()))
      && r.value.displacement == Some(ToIntOrNull(literal, 16).value)
  {
    var roles := BlockRoles(SplitMemoryAddress(dest));
    MemDestShape(template, source, dest);
    if CommandMemDest(template, source, dest).Success? {
      var r := CommandMemDest(template, source, dest);
      var regField := MemDestSource(template, source).value.regField;
      var m := ParseMultiplication(term).value;
      assert IndexTerm(roles.index) == Success(Some(m));
      var fields := MemDestAddress(regField, FindRegister(register), Some(ToIntOrNull(literal, 16).value), Some(m));
      assert AddressFields(r.value.modRm, r.value.sib, r.value.displacement) == fields;
    }
  }

  /** `blockWithReg?.let { findRegister(it) }`. */
  function BaseRegister(roles: Roles): (r: Option<AbstractOperand>)
    ensures r.Some? <==> roles.base.Some? && IsRegister(roles.base.value)
  {
    if roles.base.Some? then FindRegister(roles.base.value) else None
  }

  /** `blockWithConst?.toInt(16)`. */
  function DisplacementValue(roles: Roles): (r: Option<int>)
    requires roles.displacement.Some? ==> IsConstant(roles.displacement.value)
  {
    if roles.displacement.Some? then Some(ToIntOrNull(roles.displacement.value, 16).value) else None
  }

  // ---------------------------------------------------------------------
  // The whole line

  /** `formCommand`: a register or memory destination chooses the builder;
      a template without a destination is the bare opcode; a constant
      destination fails. */
  function FormCommand(template: AbstractCommand, source: string, dest: string): (r: Result<Command>)
    ensures r.Success? ==> r.value.opCode == template.opCode
    ensures template.dest.Kind() == Constant ==> r.Failure?
    ensures template.dest.Kind() == OperandType.Undefined ==> r == Success(Blank(template.opCode))
  {
    match template.dest.Kind()
    case Register => CommandRegDest(template, source, dest)
    case Memory => CommandMemDest(template, source, dest)
    case Undefined => Success(Blank(template.opCode))
    case Constant => Failure
  }

  /** `map { formCommand(...) }`: one command per template, in order; any
      exception fails the whole line. */
  function FormAll(templates: seq<AbstractCommand>, source: string, dest: string): (r: Result<seq<Command>>)
    ensures r.Success? <==> forall i :: 0 <= i < |templates| ==> FormCommand(templates[i], source, dest).Success?
    ensures r.Success? ==>
      && |r.value| == |templates|
      && forall i :: 0 <= i < |templates| ==> FormCommand(templates[i], source, dest) == Success(r.value[i])
  {
    if templates == [] then Success([])
    else
      match FormCommand(templates[0], source, dest)
      case Failure => Failure
      case Success(c) =>
        match FormAll(templates[1..], source, dest)
        case Failure => Failure
        case Success(cs) => Success([c] + cs)
  }

  /** `commandFromString`: every template of the mnemonic that the operands
      cast to, each built into a command; no such template is a failure. */
  function CommandFromString(ptrs: PtrPrefixes, table: seq<AbstractCommand>, line: string): (r: Result<seq<Command>>)
    ensures r.Success? ==> r.value != []
  {
    var parts := SplitLine(line);
    BuildAll(ptrs, GetCommandsWithName(table, parts.name), parts.source, parts.dest)
  }

  /** The part of `commandFromString` after the lookup. */
  function BuildAll(ptrs: PtrPrefixes, vars: seq<AbstractCommand>, source: string, dest: string): (r: Result<seq<Command>>)
    ensures r.Success? ==> r.value != []
  {
    var templates :- FilterCommands(ptrs, vars, source, dest);
    var commands :- FormAll(templates, source, dest);
    var _ :- Need(commands != []);
    Success(commands)
  }

  /** Each command of a line comes from a table entry with the line's
      mnemonic (in any case) and has that entry's opcode. */
  lemma CommandsFromTable(ptrs: PtrPrefixes, table: seq<AbstractCommand>, line: string)
    ensures var r := CommandFromString(ptrs, table, line);
      r.Success? ==> forall c :: c in r.value ==>
        exists t :: t in table && EqualsIgnoreCase(t.name, SplitLine(line).name) && c.opCode == t.opCode
  {
    var parts := SplitLine(line);
    BuiltFromNamed(ptrs, table, parts.name, parts.source, parts.dest);
  }

  /** The same for the operands of a line already split. */
  lemma BuiltFromNamed(ptrs: PtrPrefixes, table: seq<AbstractCommand>, name: string, source: string, dest: string)
    ensures var r := BuildAll(ptrs, GetCommandsWithName(table, name), source, dest);
      r.Success? ==> forall c :: c in r.value ==>
        exists t :: t in table && EqualsIgnoreCase(t.name, name) && c.opCode == t.opCode
  {
    var vars := GetCommandsWithName(table, name);
    var r := BuildAll(ptrs, vars, source, dest);
    if r.Success? {
      BuiltFromTemplates(ptrs, vars, source, dest);
      forall c | c in r.value
        ensures exists t :: t in table && EqualsIgnoreCase(t.name, name) && c.opCode == t.opCode
      {
        var t :| t in vars && c.opCode == t.opCode;
      }
    }
  }

  /** Each command built is the opcode of one of the templates offered. */
  lemma BuiltFromTemplates(ptrs: PtrPrefixes, vars: seq<AbstractCommand>, source: string, dest: string)
    ensures var r := BuildAll(ptrs, vars, source, dest);
      r.Success? ==> forall c :: c in r.value ==> exists t :: t in vars && c.opCode == t.opCode
  {
    var filtered := FilterCommands(ptrs, vars, source, dest);
    if filtered.Success? {
      var formed := FormAll(filtered.value, source, dest);
      if formed.Success? {
        forall c | c in formed.value
          ensures exists t :: t in vars && c.opCode == t.opCode
        {
          var i :| 0 <= i < |formed.value| && formed.value[i] == c;
          assert filtered.value[i] in filtered.value;
        }
      }
    }
  }
}
