/** Operand classification and field helpers shared by the encoder and the
    decoder (converters/utils/utils.kt). The three regular expressions of
    the source are written as explicit character scans. */
module Utils {
  import opened Wrappers
  import opened Text
  import opened Numbers
  import opened Sizes
  import opened Operands

  /** `isRegister`: the text is exactly the name of a Register-kind constant. */
  predicate IsRegister(source: string) {
    FindRegister(source).Some?
  }

  lemma IsRegisterMeaning(source: string)
    ensures IsRegister(source) <==> exists r: AbstractOperand :: r.IsReg() && r.Name() == source
  {
    if !IsRegister(source) {
      assert forall r: AbstractOperand :: r.IsReg() ==> r.Name() != source;
    }
  }

  /** The character class `[a-z0-9* ]` under IGNORE_CASE (ASCII folding). */
  predicate MemoryChar(c: char) {
    'a' <= c <= 'z' || 'A' <= c <= 'Z' || '0' <= c <= '9' || c == '*' || c == ' '
  }

  /** A match of `\[[a-z0-9* ]+]` from index i to index j of s. */
  predicate GroupAt(s: string, i: nat, j: nat) {
    i + 1 < j < |s| && s[i] == '[' && s[j] == ']' && forall k :: i < k < j ==> MemoryChar(s[k])
  }

  /** A run of class characters closed by ']' starts `t`. */
  predicate ClosesRun(t: string) {
    t != [] && (t[0] == ']' || (MemoryChar(t[0]) && ClosesRun(t[1..])))
  }

  /** `isMemory`: some bracket group of class characters occurs in the text. */
  predicate IsMemory(source: string) {
    source != [] && ((source[0] == '[' && |source| > 2 && MemoryChar(source[1]) && ClosesRun(source[2..]))
                     || IsMemory(source[1..]))
  }

  predicate RunEnd(t: string, j: nat) {
    j < |t| && t[j] == ']' && forall k :: 0 <= k < j ==> MemoryChar(t[k])
  }

  lemma {:induction false} ClosesRunMeaning(t: string)
    ensures ClosesRun(t) <==> exists j :: RunEnd(t, j)
  {
    if t == [] {
    } else if t[0] == ']' {
      assert RunEnd(t, 0);
    } else if MemoryChar(t[0]) {
      ClosesRunMeaning(t[1..]);
      if ClosesRun(t) {
        var j: nat :| RunEnd(t[1..], j);
        assert RunEnd(t, j + 1);
      }
      if exists j :: RunEnd(t, j) {
        var j: nat :| RunEnd(t, j);
        assert j > 0;
        assert RunEnd(t[1..], j - 1);
      }
    } else {
      assert forall j: nat :: RunEnd(t, j) ==> j > 0 ==> MemoryChar(t[0]);
    }
  }

  /** The scan finds a group exactly when the pattern matches somewhere. */
  lemma {:induction false} IsMemoryMeaning(s: string)
    ensures IsMemory(s) <==> exists i, j :: GroupAt(s, i, j)
    decreases |s|
  {
    if s != [] {
      IsMemoryMeaning(s[1..]);
      var head := s[0] == '[' && |s| > 2 && MemoryChar(s[1]) && ClosesRun(s[2..]);
      if |s| > 2 {
        ClosesRunMeaning(s[2..]);
      }
      if head {
        var j: nat :| RunEnd(s[2..], j);
        assert GroupAt(s, 0, j + 2);
      }
      if exists j :: GroupAt(s, 0, j) {
        var j: nat :| GroupAt(s, 0, j);
        assert RunEnd(s[2..], j - 2);
      }
      if exists i, j :: GroupAt(s[1..], i, j) {
        var i: nat, j: nat :| GroupAt(s[1..], i, j);
        assert GroupAt(s, i + 1, j + 1);
      }
      if exists i, j :: GroupAt(s, i, j) && i > 0 {
        var i: nat, j: nat :| GroupAt(s, i, j) && i > 0;
        assert GroupAt(s[1..], i - 1, j - 1);
      }
      if exists i, j :: GroupAt(s, i, j) {
        var i: nat, j: nat :| GroupAt(s, i, j);
        assert i == 0 || i > 0;
      }
    }
  }

  /** `isConstant`: the text is a base-16 `Int`. */
  predicate IsConstant(source: string) {
    ToIntOrNull(source, 16).Some?
  }

  /** The texts of `BYTE_PTR`, `WORD_PTR` and `DWORD_PTR`, which are defined
      outside the files modelled here. */
  datatype PtrPrefixes = PtrPrefixes(bytePtr: string, wordPtr: string, dwordPtr: string)

  /** `parseMemory`: the byte, word and dword prefixes in that order, then
      any bracket group as a 32-bit memory operand. */
  function ParseMemory(ptrs: PtrPrefixes, mem: string): (r: Option<AbstractOperand>)
    ensures r.Some? ==> r.value.IsMem()
    ensures r == Some(Memory8) <==> StartsWith(mem, ptrs.bytePtr)
    ensures r == Some(Memory16) <==> !StartsWith(mem, ptrs.bytePtr) && StartsWith(mem, ptrs.wordPtr)
    ensures r == Some(Memory32) <==>
      !StartsWith(mem, ptrs.bytePtr) && !StartsWith(mem, ptrs.wordPtr) && (StartsWith(mem, ptrs.dwordPtr) || IsMemory(mem))
  {
    if StartsWith(mem, ptrs.bytePtr) then Some(Memory8)
    else if StartsWith(mem, ptrs.wordPtr) then Some(Memory16)
    else if StartsWith(mem, ptrs.dwordPtr) then Some(Memory32)
    else if IsMemory(mem) then Some(Memory32)
    else None
  }

  lemma PowersOfTwo()
    ensures Pow(2, 6) == 0x40 && Pow(2, 7) == 0x80
    ensures Pow(2, 14) == 0x4000 && Pow(2, 15) == 0x8000
    ensures Pow(2, 30) == 0x4000_0000 && Pow(2, 31) == 0x8000_0000
  {
    assert Pow(2, 7) == 0x80;
    assert Pow(2, 14) == 0x4000;
    assert Pow(2, 15) == 0x8000;
    assert Pow(2, 22) == 0x40_0000;
    assert Pow(2, 30) == 0x4000_0000;
    assert Pow(2, 31) == 0x8000_0000;
  }

  /** `getMinPossibleConstant`: the narrowest constant class whose width is
      more than the length of `num.toString(2)`, minus sign included. */
  function GetMinPossibleConstant(num: int): (r: Option<AbstractOperand>)
    requires INT_MIN <= num <= INT_MAX
    ensures 0 <= num ==>
      && (r == Some(Constant8) <==> num < 0x80)
      && (r == Some(Constant16) <==> 0x80 <= num < 0x8000)
      && (r == Some(Constant32) <==> 0x8000 <= num)
    ensures num < 0 ==>
      && (r == Some(Constant8) <==> -0x40 < num)
      && (r == Some(Constant16) <==> -0x4000 < num <= -0x40)
      && (r == Some(Constant32) <==> -0x4000_0000 < num <= -0x4000)
      && (r.None? <==> num <= -0x4000_0000)
  {
    var n := |IntToString(num, 2)|;
    var m: nat := if num < 0 then -num else num;
    PowersOfTwo();
    NatToStringLength(m, 2, 7);
    NatToStringLength(m, 2, 15);
    NatToStringLength(m, 2, 31);
    NatToStringLength(m, 2, 6);
    NatToStringLength(m, 2, 14);
    NatToStringLength(m, 2, 30);
    if n < 8 then Some(Constant8)
    else if n < 16 then Some(Constant16)
    else if n < 32 then Some(Constant32)
    else None
  }

  predicate HexDigit(c: char) {
    '0' <= c <= '9' || 'a' <= c <= 'f' || 'A' <= c <= 'F'
  }

  /** `isMemoryAddress`: one to eight hex digits of either case, nothing else. */
  predicate IsMemoryAddress(str: string) {
    1 <= |str| <= 8 && forall i :: 0 <= i < |str| ==> HexDigit(str[i])
  }

  /** A memory address reads as an unsigned value below 2^32; it is an
      `Int` (what `toInt(16)` accepts) exactly when it is at most 7FFFFFFF. */
  lemma MemoryAddressValue(str: string)
    requires IsMemoryAddress(str)
    ensures AllDigits(str, 16)
    ensures NumeralValue(str, 16) < 0x1_0000_0000
    ensures ToIntOrNull(str, 16).Some? <==> NumeralValue(str, 16) <= INT_MAX
    ensures ToIntOrNull(str, 16).Some? ==> ToIntOrNull(str, 16).value == NumeralValue(str, 16)
  {
    assert forall i :: 0 <= i < |str| ==> DigitValue(str[i], 16).Some?;
    NumeralBound(str, 16);
    PowMonotone(16, |str|, 8);
    assert Pow(16, 8) == 0x1_0000_0000;
  }

  lemma {:induction false} PowMonotone(b: nat, k: nat, m: nat)
    requires b >= 1 && k <= m
    ensures Pow(b, k) <= Pow(b, m)
    decreases m
  {
    if k < m {
      PowMonotone(b, k, m - 1);
      assert Pow(b, m) == b * Pow(b, m - 1);
    }
  }

  /** `replace("[", "").replace("]", "")`. */
  function StripBrackets(block: string): (r: string)
    ensures '[' !in r && ']' !in r
    ensures '[' !in block && ']' !in block ==> r == block
  {
    RemoveChar(RemoveChar(block, '['), ']')
  }

  function StripAll(pieces: seq<string>): (r: seq<string>)
    ensures |r| == |pieces|
    ensures forall i :: 0 <= i < |r| ==> r[i] == StripBrackets(pieces[i])
  {
    if pieces == [] then [] else [StripBrackets(pieces[0])] + StripAll(pieces[1..])
  }

  /** `splitMemoryAddress`: the pieces between occurrences of "][", with
      every bracket removed from each. */
  function SplitMemoryAddress(source: string): (r: seq<string>)
    ensures |r| >= 1
    ensures forall i :: 0 <= i < |r| ==> '[' !in r[i] && ']' !in r[i]
  {
    StripAll(SplitOnSeparators(source))
  }

  /** k occurrences of "][" give k + 1 blocks. */
  lemma SplitMemoryAddressCount(source: string)
    ensures |SplitMemoryAddress(source)| == CountSeparators(source) + 1
  {
    SplitFromCount(source, []);
  }

  predicate NoBrackets(block: string) {
    '[' !in block && ']' !in block
  }

  /** The text of a memory expression: each block in brackets, in order. */
  function Bracketed(blocks: seq<string>): string {
    if blocks == [] then "" else "[" + blocks[0] + "]" + Bracketed(blocks[1..])
  }

  /** The text of a non-empty block list after its first '['. */
  function BracketTail(blocks: seq<string>): string
    requires blocks != []
  {
    blocks[0] + "]" + Bracketed(blocks[1..])
  }

  lemma {:induction false} RemoveCharAppend(a: string, b: string, c: char)
    ensures RemoveChar(a + b, c) == RemoveChar(a, c) + RemoveChar(b, c)
  {
    if a == [] {
      assert a + b == b;
    } else {
      assert (a + b)[0] == a[0];
      assert (a + b)[1..] == a[1..] + b;
      RemoveCharAppend(a[1..], b, c);
    }
  }

  lemma NoSeparatorIn(s: string)
    requires '[' !in s
    ensures forall i :: 0 <= i < |s| - 1 ==> !(s[i] == ']' && s[i + 1] == '[')
  {
  }

  lemma {:induction false} SplitTail(cur: string, blocks: seq<string>)
    requires blocks != [] && forall i :: 0 <= i < |blocks| ==> NoBrackets(blocks[i])
    ensures |SplitFrom(BracketTail(blocks), cur)| == |blocks|
    ensures StripBrackets(SplitFrom(BracketTail(blocks), cur)[0]) == StripBrackets(cur + blocks[0])
    ensures forall i :: 1 <= i < |blocks| ==> StripBrackets(SplitFrom(BracketTail(blocks), cur)[i]) == blocks[i]
    decreases |blocks|
  {
    var b := blocks[0];
    var t := BracketTail(blocks);
    if |blocks| == 1 {
      assert t == b + "]";
      NoSeparatorIn(b + "]");
      SplitFromNoSeparator(cur, t);
      assert cur + t == (cur + b) + "]";
      RemoveCharAppend(cur + b, "]", '[');
      RemoveCharAppend(RemoveChar(cur + b, '['), "]", ']');
    } else {
      var rest := blocks[1..];
      assert Bracketed(rest) == "[" + BracketTail(rest);
      assert t == b + "][" + BracketTail(rest);
      NoSeparatorIn(b);
      SplitFromJoin(cur, b, BracketTail(rest));
      SplitTail([], rest);
      assert [] + rest[0] == rest[0];
    }
  }

  /** Splitting starts by reading the opening '[' into the first piece. */
  lemma SplitOpening(blocks: seq<string>)
    requires blocks != []
    ensures SplitOnSeparators(Bracketed(blocks)) == SplitFrom(BracketTail(blocks), "[")
  {
    var b, rest := blocks[0], Bracketed(blocks[1..]);
    var s := "[" + BracketTail(blocks);
    assert Bracketed(blocks) == s by {
      assert "[" + b + "]" + rest == "[" + (b + "]" + rest);
    }
    assert s[0] == '[' && |s| >= 2;
    assert s[1..] == BracketTail(blocks);
    assert [] + [s[0]] == "[";
  }

  /** Rendering blocks in brackets and splitting the text again gives the
      blocks back. */
  lemma SplitBracketed(blocks: seq<string>)
    requires blocks != [] && forall i :: 0 <= i < |blocks| ==> NoBrackets(blocks[i])
    ensures SplitMemoryAddress(Bracketed(blocks)) == blocks
  {
    SplitOpening(blocks);
    SplitTail("[", blocks);
    OpeningStripped(blocks[0]);
    StripPieces(SplitFrom(BracketTail(blocks), "["), blocks);
  }

  lemma OpeningStripped(b: string)
    requires NoBrackets(b)
    ensures StripBrackets("[" + b) == b
  {
    RemoveCharAppend("[", b, '[');
    assert RemoveChar("[", '[') == [];
  }

  lemma StripPieces(pieces: seq<string>, blocks: seq<string>)
    requires |pieces| == |blocks| >= 1
    requires StripBrackets(pieces[0]) == StripBrackets("[" + blocks[0]) == blocks[0]
    requires forall i :: 1 <= i < |blocks| ==> StripBrackets(pieces[i]) == blocks[i]
    ensures StripAll(pieces) == blocks
  {
  }

  /** `reverseInt(num, bits)`: `num` in hex, zero-padded to bits / 4 digits,
      two-digit groups reversed. `None` stands for the exception `repeat`
      throws when the digits do not fit. */
  function ReverseInt(num: nat, bits: nat): (r: Option<string>)
    ensures r.Some? <==> |NatToString(num, 16)| <= bits / 4
    ensures r.Some? ==> |r.value| == bits / 4 / 2 * 2
  {
    match PadStart(NatToString(num, 16), bits / 4)
    case None => None
    case Some(p) => Some(ReverseGroups(p))
  }

  /** A value that fits is written as its fixed-width digits, groups
      reversed; reversing the groups again gives back the padded digits. */
  lemma ReverseIntFixed(num: nat, bits: nat)
    requires bits / 4 >= 1 && num < Pow(16, bits / 4)
    ensures ReverseInt(num, bits) == Some(ReverseGroups(FixedDigits(num, 16, bits / 4)))
    ensures (bits / 4) % 2 == 0 ==> ReverseGroups(ReverseInt(num, bits).value) == FixedDigits(num, 16, bits / 4)
  {
    PaddedIsFixed(num, 16, bits / 4);
    if (bits / 4) % 2 == 0 {
      ReverseGroupsTwice(FixedDigits(num, 16, bits / 4));
    }
  }

  /** `stackRegisters`. */
  const StackRegisters: seq<AbstractOperand> := [EBP, ESP]

  predicate InStack(r: AbstractOperand) {
    r in StackRegisters
  }

  /** The stack registers are the 32-bit registers at addresses 4 and 5,
      the two r/m and base codes that ModRM and SIB reserve. */
  lemma StackRegistersAreReserved(r: AbstractOperand)
    ensures InStack(r) <==> r.Width() == Extended && (r.Address() == Some(4) || r.Address() == Some(5))
  {
  }

  predicate Alphanumeric(c: char) {
    'A' <= c <= 'Z' || 'a' <= c <= 'z' || '0' <= c <= '9'
  }

  /** A letter that is not a hex digit. */
  predicate NonHexLetter(c: char) {
    'G' <= c <= 'Z' || 'g' <= c <= 'z'
  }

  /** Every name starts with a capital letter, is alphanumeric, and holds
      a letter past F somewhere. */
  lemma NameAlphabet(r: AbstractOperand)
    ensures var n := r.Name();
      |n| >= 2 && 'A' <= n[0] <= 'Z'
      && (forall i :: 0 <= i < |n| ==> Alphanumeric(n[i]))
      && (exists i :: 0 <= i < |n| && NonHexLetter(n[i]))
  {
    NameHead(r);
    NameAlphanumeric(r);
    var n := r.Name();
    assert forall i :: 0 <= i < |n| ==> n[i] in n;
  }

  /** The opening letters of a name: a capital, and a letter past F among the first three. */
  lemma NameHead(r: AbstractOperand)
    ensures var n := r.Name();
      |n| >= 2 && 'A' <= n[0] <= 'Z'
      && (NonHexLetter(n[0]) || NonHexLetter(n[1]) || (|n| > 2 && NonHexLetter(n[2])))
  {
  }

  /** Every character of a name is a letter or a digit. */
  lemma NameAlphanumeric(r: AbstractOperand)
    ensures forall c :: c in r.Name() ==> Alphanumeric(c)
  {
  }

  /** A register name has no blank, comma, '*' or bracket, and reads as
      neither a memory address nor a number. */
  lemma RegisterNameShape(r: AbstractOperand)
    ensures var n := r.Name();
      n != [] && IsTrimmed(n) && NoBrackets(n) && '*' !in n && ',' !in n && ' ' !in n
      && !IsMemoryAddress(n) && !IsConstant(n) && ToIntOrNull(n, 10).None?
  {
    NameAlphabet(r);
    AlphabetShape(r.Name());
  }

  lemma AlphabetShape(n: string)
    requires |n| >= 2 && 'A' <= n[0] <= 'Z'
    requires forall i :: 0 <= i < |n| ==> Alphanumeric(n[i])
    requires exists i :: 0 <= i < |n| && NonHexLetter(n[i])
    ensures n != [] && IsTrimmed(n) && NoBrackets(n) && '*' !in n && ',' !in n && ' ' !in n
    ensures !IsMemoryAddress(n) && !IsConstant(n) && ToIntOrNull(n, 10).None?
  {
    var k :| 0 <= k < |n| && NonHexLetter(n[k]);
    assert DigitValue(n[k], 16).None? && DigitValue(n[k], 10).None?;
    assert !HexDigit(n[k]);
    assert !IsWhitespace(n[0]) && !IsWhitespace(n[|n| - 1]);
  }

  /** A concrete register name is in upper case. */
  lemma ConcreteNameUpper(r: AbstractOperand)
    requires r.IsConcreteRegister()
    ensures NoLower(r.Name())
  {
  }
}
