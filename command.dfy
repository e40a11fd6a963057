/** Resolved instructions and their two renderings (model/Command.kt):
    assembly text and hex machine code. */
module Commands {
  import opened Wrappers
  import opened Text
  import opened Numbers
  import opened Sizes
  import opened Operands

  /** A resolved operand: its text, kind and width. The `Operand` record is
      declared outside the files modelled here; this is the shape the
      converter builds. */
  datatype Operand = Operand(value: string, kind: OperandType, size: Size)

  /** One table entry (model/AbstractCommand.kt). */
  datatype AbstractCommand = AbstractCommand(name: string, opCode: bv8, source: AbstractOperand, dest: AbstractOperand)

  /** An instruction: optional prefix, opcode, optional ModRM and SIB bytes,
      optional displacement and immediate, the mnemonic and the operands. */
  datatype Command = Command(
    prefix: Option<bv8>,
    opCode: bv8,
    modRm: Option<bv8>,
    sib: Option<bv8>,
    displacement: Option<int>,
    immediate: Option<int>,
    name: Option<string>,
    source: Option<Operand>,
    dest: Option<Operand>)

  /** `Command(opCode = op)`: only the opcode is mandatory, every other
      field defaults to absent. */
  function Blank(opCode: bv8): Command {
    Command(None, opCode, None, None, None, None, None, None, None)
  }

  /** A byte made of a 2-bit field (bits 7-6) and two 3-bit fields (bits
      5-3 and 2-0): the ModRM layout mod/reg/rm and the SIB layout
      scale/index/base of the Intel SDM Vol. 2, section 2.1.5. */
  function Compose(hi: bv8, mid: bv8, lo: bv8): (b: bv8)
    requires hi < 4 && mid < 8 && lo < 8
    ensures b as int == hi as int * 64 + mid as int * 8 + lo as int
    ensures High2(b) == hi && Middle3(b) == mid && Low3(b) == lo
  {
    (hi << 6) | (mid << 3) | lo
  }

  /** `(b and 0b11_000_000) shr 6`: the mod or scale field. */
  function High2(b: bv8): (f: bv8)
    ensures f < 4 && f as int == b as int / 64
  {
    (b & 0xC0) >> 6
  }

  /** `(b and 0b00_111_000) shr 3`: the reg or index field. */
  function Middle3(b: bv8): (f: bv8)
    ensures f < 8 && f as int == b as int / 8 % 8
  {
    Low3(ShiftRight3(b))
  }

  /** `b shr 3`, the step that brings the reg field down to the low bits. */
  function ShiftRight3(b: bv8): (f: bv8)
    ensures f as int == b as int / 8
  {
    b >> 3
  }

  /** `b and 0b00_000_111`: the r/m or base field. */
  function Low3(b: bv8): (f: bv8)
    ensures f < 8 && f as int == b as int % 8
  {
    b & 0x07
  }

  /** Every byte is the composition of its three fields. */
  lemma ComposeFields(b: bv8)
    ensures Compose(High2(b), Middle3(b), Low3(b)) == b
  {
  }

  /** `toCommandString()`: the mnemonic (or a placeholder), then the
      destination after a space, then the source after a comma. */
  function ToCommandString(c: Command): (r: string)
    ensures StartsWith(r, NameText(c))
    ensures c.dest.Some? ==> StartsWith(r[|NameText(c)|..], " " + c.dest.value.value)
    ensures c.source.Some? ==> var t := ", " + c.source.value.value; |t| <= |r| && r[|r| - |t|..] == t
    ensures |r| == |NameText(c)| + (if c.dest.Some? then 1 + |c.dest.value.value| else 0)
      + (if c.source.Some? then 2 + |c.source.value.value| else 0)
    ensures c.dest.None? && c.source.None? ==> r == NameText(c)
  {
    var n := NameText(c);
    var d := if c.dest.Some? then " " + c.dest.value.value else "";
    var t := if c.source.Some? then ", " + c.source.value.value else "";
    assert (n + d + t)[..|n|] == n && (n + d + t)[|n|..][..|d|] == d;
    assert (n + d + t)[|n| + |d|..] == t;
    n + d + t
  }

  /** The mnemonic, or the placeholder text when there is none. */
  function NameText(c: Command): string {
    if c.name.Some? then c.name.value else "[NAME NOT PROVIDED]"
  }

  /** `Short.toHex(2)` on a byte: two lower-case hex digits that read back
      as the byte. */
  function ToHex(b: bv8): (h: string)
    ensures |h| == 2 && AllDigits(h, 16)
    ensures ParseUnsigned(h, 16) == Some(b as nat)
  {
    assert Pow(16, 2) == 256;
    PaddedIsFixed(b as nat, 16, 2);
    PaddedValue(b as nat, 16, 2);
    PadStart(NatToString(b as nat, 16), 2).value
  }

  function OptionalHex(b: Option<bv8>): (h: string)
    ensures |h| == if b.Some? then 2 else 0
  {
    if b.Some? then ToHex(b.value) else ""
  }

  /** `reversedInt(num)`: the value written in hex at the width of the
      command's source operand (bits / 4 digits, zero-padded) with its
      two-digit groups in reverse order; empty when the value or the source
      is absent. `None` stands for the exception `repeat` throws when the
      digits do not fit the width. */
  function ReversedInt(c: Command, num: Option<int>): (r: Option<string>)
    ensures num.None? || c.source.None? ==> r == Some("")
    ensures num.Some? && c.source.Some? && 0 <= num.value ==>
      (r.Some? <==> |NatToString(num.value, 16)| <= Bits(c.source.value.size) / 4)
  {
    if num.None? || c.source.None? then Some("")
    else
      var digits := IntToString(num.value, 16);
      match PadStart(digits, Bits(c.source.value.size) / 4)
      case None => None
      case Some(p) => Some(ReverseGroups(p))
  }

  /** The field width of a source operand, in hex digits. */
  function FieldDigits(c: Command): nat {
    if c.source.Some? then Bits(c.source.value.size) / 4 else 0
  }

  /** A non-negative value that fits the source width is rendered as the
      byte-reversed fixed-width digits, of exactly that width. */
  lemma {:induction false} ReversedIntFixed(c: Command, v: nat)
    requires c.source.Some? && c.source.value.size != Size.Undefined && v < Pow(16, FieldDigits(c))
    ensures ReversedInt(c, Some(v)) == Some(ReverseGroups(FixedDigits(v, 16, FieldDigits(c))))
  {
    var w := FieldDigits(c);
    FieldWidth(c);
    PaddedIsFixed(v, 16, w);
    ReversedIntPadded(c, v, FixedDigits(v, 16, w));
  }

  /** A sized source is 2, 4 or 8 digits wide. */
  lemma FieldWidth(c: Command)
    requires c.source.Some? && c.source.value.size != Size.Undefined
    ensures FieldDigits(c) == Bits(c.source.value.size) / 4 && FieldDigits(c) in {2, 4, 8}
  {
  }

  /** A value's padded digits, in reversed byte order. */
  lemma {:induction false} ReversedIntPadded(c: Command, v: nat, p: string)
    requires c.source.Some? && PadStart(NatToString(v, 16), FieldDigits(c)) == Some(p)
    ensures ReversedInt(c, Some(v)) == Some(ReverseGroups(p))
  {
    assert IntToString(v, 16) == NatToString(v, 16);
  }

  /** `toCodeString()`: prefix, opcode, ModRM and SIB as two hex digits
      each, then the displacement and the immediate fields. `None` stands
      for an exception while rendering a field. */
  function ToCodeString(c: Command): (r: Option<string>)
    ensures r.Some? <==> ReversedInt(c, c.displacement).Some? && ReversedInt(c, c.immediate).Some?
    ensures r.Some? ==>
      |r.value| == 2 * ByteFields(c) + |ReversedInt(c, c.displacement).value| + |ReversedInt(c, c.immediate).value|
    ensures r.Some? && c.prefix.Some? ==> r.value[..2] == ToHex(c.prefix.value)
    ensures r.Some? ==> var p := |OptionalHex(c.prefix)|; r.value[p..p + 2] == ToHex(c.opCode)
    ensures r.Some? && c.modRm.Some? ==> var p := |OptionalHex(c.prefix)| + 2; r.value[p..p + 2] == ToHex(c.modRm.value)
    ensures r.Some? && c.sib.Some? ==> var p := |OptionalHex(c.prefix)| + 2 + |OptionalHex(c.modRm)|;
      r.value[p..p + 2] == ToHex(c.sib.value)
    ensures r.Some? ==> r.value[2 * ByteFields(c)..] == ReversedInt(c, c.displacement).value + ReversedInt(c, c.immediate).value
  {
    var disp :- ReversedInt(c, c.displacement);
    var imm :- ReversedInt(c, c.immediate);
    var pre, op, modRm, sib, fields := OptionalHex(c.prefix), ToHex(c.opCode), OptionalHex(c.modRm), OptionalHex(c.sib), disp + imm;
    var text := pre + op + modRm + sib + fields;
    Pieces(pre, op, modRm, sib, fields);
    Some(text)
  }

  /** The code text reads back as the command's fields: each one-byte field
      is the two hex digits of its byte. */
  lemma {:induction false} BytesReadBack(c: Command)
    requires ToCodeString(c).Some?
    ensures var r, p := ToCodeString(c).value, |OptionalHex(c.prefix)|;
      && (c.prefix.Some? ==> ParseUnsigned(r[..2], 16) == Some(c.prefix.value as nat))
      && ParseUnsigned(r[p..p + 2], 16) == Some(c.opCode as nat)
      && (c.modRm.Some? ==> ParseUnsigned(r[p + 2..p + 4], 16) == Some(c.modRm.value as nat))
      && (c.sib.Some? ==> var q := p + 2 + |OptionalHex(c.modRm)|; ParseUnsigned(r[q..q + 2], 16) == Some(c.sib.value as nat))
  {
    var r, p := ToCodeString(c).value, |OptionalHex(c.prefix)|;
    var q := p + 2 + |OptionalHex(c.modRm)|;
    if c.prefix.Some? {
      assert r[..2] == ToHex(c.prefix.value);
    }
    assert r[p..p + 2] == ToHex(c.opCode);
    if c.modRm.Some? {
      assert r[p + 2..p + 4] == ToHex(c.modRm.value);
    }
    if c.sib.Some? {
      assert r[q..q + 2] == ToHex(c.sib.value);
    }
  }

  /** A displacement or an immediate that fits the source width is the
      byte-reversed digits of its value. */
  lemma {:induction false} FieldsReadBack(c: Command)
    requires ToCodeString(c).Some?
    ensures var r, q := ToCodeString(c).value, 2 * ByteFields(c);
      c.displacement.Some? && FitsField(c, c.displacement.value) ==>
        && q + FieldDigits(c) <= |r|
        && ParseUnsigned(ReverseGroups(r[q..q + FieldDigits(c)]), 16) == Some(c.displacement.value as nat)
    ensures var r, q := ToCodeString(c).value, 2 * ByteFields(c) + |ReversedInt(c, c.displacement).value|;
      c.immediate.Some? && FitsField(c, c.immediate.value) ==>
        && q + FieldDigits(c) <= |r|
        && ParseUnsigned(ReverseGroups(r[q..q + FieldDigits(c)]), 16) == Some(c.immediate.value as nat)
  {
    DispInCode(c);
    ImmInCode(c);
  }

  lemma {:induction false} DispInCode(c: Command)
    requires ToCodeString(c).Some?
    ensures var r, q := ToCodeString(c).value, 2 * ByteFields(c);
      c.displacement.Some? && FitsField(c, c.displacement.value) ==>
        && q + FieldDigits(c) <= |r|
        && ParseUnsigned(ReverseGroups(r[q..q + FieldDigits(c)]), 16) == Some(c.displacement.value as nat)
  {
    var r, q := ToCodeString(c).value, 2 * ByteFields(c);
    DispReadBack(c, r, q);
  }

  lemma {:induction false} ImmInCode(c: Command)
    requires ToCodeString(c).Some?
    ensures var r, q := ToCodeString(c).value, 2 * ByteFields(c) + |ReversedInt(c, c.displacement).value|;
      c.immediate.Some? && FitsField(c, c.immediate.value) ==>
        && q + FieldDigits(c) <= |r|
        && ParseUnsigned(ReverseGroups(r[q..q + FieldDigits(c)]), 16) == Some(c.immediate.value as nat)
  {
    var r, q := ToCodeString(c).value, 2 * ByteFields(c);
    ImmReadBack(c, r, q, q + |ReversedInt(c, c.displacement).value|);
  }

  /** The displacement field starts right after the one-byte fields. */
  lemma {:induction false} DispReadBack(c: Command, r: string, q: nat)
    requires ReversedInt(c, c.displacement).Some? && ReversedInt(c, c.immediate).Some?
    requires q <= |r| && r[q..] == ReversedInt(c, c.displacement).value + ReversedInt(c, c.immediate).value
    ensures c.displacement.Some? && FitsField(c, c.displacement.value) ==>
      && q + FieldDigits(c) <= |r|
      && ParseUnsigned(ReverseGroups(r[q..q + FieldDigits(c)]), 16) == Some(c.displacement.value as nat)
  {
    var disp, imm := ReversedInt(c, c.displacement).value, ReversedInt(c, c.immediate).value;
    FirstPiece(r, q, disp, imm);
    FieldAt(c, c.displacement, disp, r, q);
  }

  /** The immediate field follows the displacement field. */
  lemma {:induction false} ImmReadBack(c: Command, r: string, q: nat, p: nat)
    requires ReversedInt(c, c.displacement).Some? && ReversedInt(c, c.immediate).Some?
    requires q <= |r| && r[q..] == ReversedInt(c, c.displacement).value + ReversedInt(c, c.immediate).value
    requires p == q + |ReversedInt(c, c.displacement).value|
    ensures c.immediate.Some? && FitsField(c, c.immediate.value) ==>
      && p + FieldDigits(c) <= |r|
      && ParseUnsigned(ReverseGroups(r[p..p + FieldDigits(c)]), 16) == Some(c.immediate.value as nat)
  {
    var disp, imm := ReversedInt(c, c.displacement).value, ReversedInt(c, c.immediate).value;
    SecondPiece(r, q, disp, imm);
    FieldAt(c, c.immediate, imm, r, p);
  }

  /** A field that sits at `q` of `r` and fits reads back there. */
  lemma {:induction false} FieldAt(c: Command, num: Option<int>, f: string, r: string, q: nat)
    requires ReversedInt(c, num) == Some(f)
    requires q + |f| <= |r| && r[q..q + |f|] == f
    ensures num.Some? && FitsField(c, num.value) ==>
      && q + FieldDigits(c) <= |r|
      && ParseUnsigned(ReverseGroups(r[q..q + FieldDigits(c)]), 16) == Some(num.value as nat)
  {
    if num.Some? && FitsField(c, num.value) {
      FieldReadBack(c, num.value);
    }
  }

  lemma {:induction false} FirstPiece(r: string, q: nat, a: string, b: string)
    requires q <= |r| && r[q..] == a + b
    ensures q + |a| <= |r| && r[q..q + |a|] == a
  {
    assert r[q..q + |a|] == r[q..][..|a|];
  }

  lemma {:induction false} SecondPiece(r: string, q: nat, a: string, b: string)
    requires q <= |r| && r[q..] == a + b
    ensures q + |a| + |b| <= |r| && r[q + |a|..q + |a| + |b|] == b
  {
    assert r[q + |a|..q + |a| + |b|] == r[q..][|a|..];
  }

  /** A value the source width can hold: non-negative and below 16 to the
      number of digits. */
  predicate FitsField(c: Command, v: int) {
    c.source.Some? && c.source.value.size != Size.Undefined && 0 <= v < Pow(16, FieldDigits(c))
  }

  /** The field of a value that fits reads back as the value once its
      groups are put back in order. */
  lemma {:induction false} FieldReadBack(c: Command, v: int)
    requires FitsField(c, v)
    ensures ReversedInt(c, Some(v)).Some? && |ReversedInt(c, Some(v)).value| == FieldDigits(c)
    ensures ParseUnsigned(ReverseGroups(ReversedInt(c, Some(v)).value), 16) == Some(v as nat)
  {
    var w := FieldDigits(c);
    FieldWidth(c);
    ReversedIntFixed(c, v);
    assert |ReverseGroups(FixedDigits(v, 16, w))| == w;
    ReverseGroupsTwice(FixedDigits(v, 16, w));
    PaddedIsFixed(v, 16, w);
    PaddedValue(v, 16, w);
  }

  /** Where each of five concatenated pieces sits. */
  lemma Pieces(a: string, b: string, c: string, d: string, e: string)
    ensures var t := a + b + c + d + e; var i, j, k := |a|, |a| + |b|, |a| + |b| + |c|;
      && t[..i] == a && t[i..j] == b && t[j..k] == c && t[k..k + |d|] == d && t[k + |d|..] == e
  {
  }

  /** The number of present one-byte fields (prefix, opcode, ModRM, SIB). */
  function ByteFields(c: Command): nat {
    (if c.prefix.Some? then 1 else 0) + 1 + (if c.modRm.Some? then 1 else 0) + (if c.sib.Some? then 1 else 0)
  }
}
