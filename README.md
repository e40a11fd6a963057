# masm32: a verified model of the MASM ↔ x86 hex converter

The converter translates between a line of MASM assembly text and the hex machine code of the same instruction. It covers the MOV forms 88, 89, 8A, 8B, B0-BF, C6 and C7, plus `INC EAX`.

- It works from an instruction table of templates (mnemonic, opcode, source and destination operand class).
- **Encoding** (`commandFromString`) proceeds in these steps:
  1. Split the line into mnemonic, destination and source.
  2. Classify each operand as register, memory or constant.
  3. Keep the templates the operands cast to.
  4. For each surviving template, build the opcode, ModRM, SIB, 32-bit displacement and immediate fields.
- **Decoding** (`commandFromCode`) proceeds in these steps:
  1. Read the opcode.
  2. Try every table entry with that opcode.
  3. Each entry eats the hex digits its operand classes call for: ModRM, SIB, displacement, immediate.
  4. Keep the entries that do not throw.

The Dafny project models each of these pieces:

- **`Sizes`, `Operands`**: the operand enums, the register table, and the `fits` and `canCastTo` relations.
- **`Text`, `Numbers`**: the Kotlin string and number conversions the code relies on.
  - Text: `trim`, `toUpperCase`, `substringBefore`/`After`, the `][` split.
  - Numbers: `toIntOrNull(radix)`, `toString(radix)`, zero padding, byte-group reversal.
- **`Utils`**: the operand classifiers of `converters/utils/utils.kt`.
- **`Commands`**: the `Command` record and its two renderings.
- **`Dictionaries`**: the table lookup.
- **`Encoder`, `Decoder`**: the two directions as functions.
- **`EncoderMethods`, `DecoderMethods`**: the builders as the source writes them.
  - They assemble `var` locals with shifts and ors, and loop over the three blocks of `commandRegMem3`.
  - A `Decoding` record carries the locals of `parseCommandFromCode` while `nip` eats the text.
  - Each method is proved equal to its function.
- **`MasmTable`, `DecoderVectors`**: the table the tests use, and the `88C4` decoding vector.

Every exception the Kotlin code can throw is the single `Failure` outcome of a `Result`. This covers `commandNotFound`, `NumberFormatException`, `substring` out of range and `!!` on null. The table is only ever read.

The model follows the code, including its asymmetries:

**Register operands**
- `commandRegReg` always puts the destination in the reg field, whatever the opcode's direction bit says. So `MOV AL, AH` encodes as `88C4` and `8AC4` through its two templates, with the same ModRM `C4`, while decoding `88C4` gives `MOV AH, AL` (`RegisterPairRoundTrip`, `Code88C4`).
- Decoding between two registers fails on r/m 101 under mod 11: r/m 101 always announces a displacement. So the code `commandRegReg` writes for a source at r/m 101 never decodes back: `88C5` and `8AC5` for `MOV AL, CH`, and `8BC5` for `MOV EAX, EBP` (`RegisterPairRm101`, `WriteAlCh`, `Reg8C5`). The commands themselves still decode from a byte that has the source in reg: `88E8` is `MOV AL, CH` (`Reg8E8`).
- r/m 100 under mod 11 decodes only for a byte-register side, as AH (`RegisterPairRm100`). So `8BC4`, which `commandRegReg` writes for `MOV EAX, ESP`, does not decode back.

**Memory operands**
- A memory-destination entry reads r/m 100 as "SIB follows" whatever the mod (`MemoryDestRm100`).
- `[reg][reg]` makes the first register the SIB index and the second the base, so the order matters (`RegMem2BaseIndex`).
- `{reg, literal}` gives the same bytes in either order (`RegMem2DispBaseOrder`).
- `{literal, reg*s, reg}` gives the same bytes in all six orders (`RegMem3OrderFree`).
- The memory-destination path gives block roles by `find`: the first register block is the base, the first number block the displacement, and the first scaled block or other register block the index. This differs from the register-destination path.
- Quirks of the memory path:
  - An EBP base in a memory destination without an index gets r/m 101, and line 356 then keeps mod 00 even when there is a displacement. So `[11223344][EBP]` encodes as a bare disp32 and EBP is lost, and `[EBP]` alone announces a displacement that is never written (`MemDestAddressMeaning`).
  - A register below EBP and ESP may serve as a base even when it is an 8-bit register such as AH: the code only excludes the stack registers.
  - In the three-block form, only the scaled term is tested for a stack register. A plain register block escapes the test, whether it becomes the base or the index, so `[11223344][EBX*4][EBP]` is accepted.

**Decoding details**
- mod 01 reads a 32-bit displacement, as mod 10 does.
- SIB index 100 renders ESP.
- Digits left over after the last stage are ignored.

## Model

A function that only computes, with no contract of its own, has no row. Its rows are the lemmas and methods that state what it computes:
- `Encoder.MemDestAddress` (Masm32Converter.kt:351-371): `MemDestAddressMeaning`, `EncodeMemDestAddress`;
- `Encoder.Form2Of`, the `when` of lines 149-254: `CommandRegMem2` and the `RegMem2*` lemmas;
- `Decoder.ImmediateStage` (lines 544-549): `ImmediateStageKeeps`, `ReadImmediate`;
- `Decoder.SibText`, the operand text of lines 484-528: `SibByte`.

| member | source | states |
|---|---|---|
| Sizes.Bits | src/main/kotlin/model/Size.kt:3-4 | Byte, Word and Extended have 8, 16 and 32 bits; only Undefined has 0 |
| Sizes.Fits | src/main/kotlin/model/Size.kt:6-11 | `a fits b` exactly when both sizes are defined and b has no more bits than a |
| Sizes.FitsReflexive | src/main/kotlin/model/Size.kt:6-11 | every defined size fits itself |
| Sizes.FitsTransitive | src/main/kotlin/model/Size.kt:6-11 | `fits` is transitive |
| Sizes.UndefinedFitsNothing | src/main/kotlin/model/Size.kt:6-11 | Undefined fits nothing and nothing fits Undefined |
| Operands.AbstractOperand.Width | src/main/kotlin/model/AbstractOperand.kt:3-29 | only NoOperand has the Undefined size |
| Operands.AbstractOperand.Address | src/main/kotlin/model/AbstractOperand.kt:3-29 | an address is a 3-bit number and belongs to a register of defined size |
| Operands.AbstractOperand.AddressOr0 | src/main/kotlin/model/AbstractOperand.kt:34 | the address when there is one, else 0; always below 8 |
| Operands.ValuesComplete | src/main/kotlin/model/AbstractOperand.kt:3-29 | `values()` lists every enum constant |
| Operands.GetGeneralizedReg | src/main/kotlin/model/AbstractOperand.kt:62-67 | defined exactly for defined sizes, giving the address-less register wildcard of that size |
| Operands.GetRegisters | src/main/kotlin/model/AbstractOperand.kt:58 | holds exactly the Register-kind constants, the wildcards included |
| Operands.FindRegister | src/main/kotlin/model/AbstractOperand.kt:59-61 | what it finds is Register-kind |
| Operands.FindRegisterMeaning | src/main/kotlin/model/AbstractOperand.kt:59-61 | a found register has exactly the name asked for; none found means no Register-kind constant has that name |
| Operands.NameInjective | src/main/kotlin/model/AbstractOperand.kt:3-29 | no two constants share a name |
| Operands.FindRegisterOwnName | src/main/kotlin/model/AbstractOperand.kt:59-61 | every register is found under its own name |
| Operands.RegisterAt | src/main/kotlin/model/AbstractOperand.kt:58 | `getRegisters().find` by address and size: a concrete register of that address and size, or none exists |
| Operands.AddressWidthInjective | src/main/kotlin/model/AbstractOperand.kt:22-29 | address and size identify a concrete register |
| Operands.RegisterTable | src/main/kotlin/model/AbstractOperand.kt:22-29 | each address 0-7 has exactly one concrete register of each defined size, and no other address or size has one |
| Operands.RegisterAtRow | src/main/kotlin/model/AbstractOperand.kt:22-29 | the register found at an address 0-7 and a defined size is the table's row |
| Operands.StackRows | src/main/kotlin/model/AbstractOperand.kt:26-27 | among 32-bit registers, ESP is exactly address 4 and EBP exactly address 5 |
| Operands.RegisterFourOfBytes | src/main/kotlin/model/AbstractOperand.kt:26 | the byte register at address 100 is AH |
| Operands.FitsRule | src/main/kotlin/model/AbstractOperand.kt:36-40 | a constant fits nothing; anything else fits NoOperand; otherwise `fits` is the sizes' `fits` |
| Operands.CastSized | src/main/kotlin/model/AbstractOperand.kt:42-47 | a memory or constant operand casts exactly to the same kind with at least its bits, so Constant8 casts to Constant32 but not back |
| Operands.CastNoOperand | src/main/kotlin/model/AbstractOperand.kt:42-47 | NoOperand casts only to NoOperand, and only NoOperand casts to it |
| Operands.CastRegister | src/main/kotlin/model/AbstractOperand.kt:49-55 | a register casts exactly to a register of its size that is itself or a wildcard relation of it |
| Operands.CastRegisterSound | src/main/kotlin/model/AbstractOperand.kt:49-55 | a successful register cast keeps the size and involves a wildcard unless both are equal |
| Operands.CastRegisterComplete | src/main/kotlin/model/AbstractOperand.kt:49-55 | equal-size registers cast when they are equal or one is a wildcard |
| Operands.WildcardIsGeneralized | src/main/kotlin/model/AbstractOperand.kt:62-67 | a register wildcard is its own generalisation |
| Operands.DistinctRegistersDoNotCast | src/main/kotlin/model/AbstractOperand.kt:49-55 | two different concrete registers never cast |
| Operands.CastReflexive | src/main/kotlin/model/AbstractOperand.kt:42-55 | every operand casts to itself |
| Commands.Compose | src/main/kotlin/converters/Masm32Converter.kt:68-73 | `hi shl 6 or mid shl 3 or lo` has value hi*64 + mid*8 + lo and gives its three fields back |
| Commands.High2 | src/main/kotlin/converters/Masm32Converter.kt:429 | the mod/scale field is the byte divided by 64 |
| Commands.Middle3 | src/main/kotlin/converters/Masm32Converter.kt:430 | the reg/index field is bits 5-3 |
| Commands.Low3 | src/main/kotlin/converters/Masm32Converter.kt:431 | the r/m/base field is the byte modulo 8 |
| Commands.ComposeFields | src/main/kotlin/converters/Masm32Converter.kt:429-431 | every byte is the composition of its three fields |
| Commands.ToCommandString | src/main/kotlin/model/Command.kt:15-17 | the mnemonic (or the placeholder) first, then ` dest` when there is a destination, and `, source` at the end when there is a source; its length is the sum of those parts, and without operands it is the mnemonic alone |
| Commands.ToHex | src/main/kotlin/model/Command.kt:34 | two hex digits that read back as the byte |
| Commands.OptionalHex | src/main/kotlin/model/Command.kt:36-40 | two digits for a present byte, none for an absent one |
| Commands.ReversedInt | src/main/kotlin/model/Command.kt:19-32 | empty for an absent value or source; a non-negative value renders exactly when its digits fit the source width |
| Commands.ReversedIntFixed | src/main/kotlin/model/Command.kt:19-27 | a value that fits renders as its fixed-width digits with groups reversed, at the source width |
| Commands.ToCodeString | src/main/kotlin/model/Command.kt:36-40 | renders exactly when both fields do; length 2 × present byte fields + the two field widths; the prefix, opcode, ModRM and SIB digits sit at their positions in that order, and the displacement then immediate fields follow them |
| Commands.BytesReadBack | src/main/kotlin/model/Command.kt:36-39 | the prefix, opcode, ModRM and SIB digits of the code read back as those bytes |
| Commands.FieldsReadBack | src/main/kotlin/model/Command.kt:19-40 | a displacement and an immediate that fit the source width read back from their places in the code once their groups are reversed |
| Commands.DispInCode | src/main/kotlin/model/Command.kt:29-40 | the displacement field right after the byte fields reads back as the displacement |
| Commands.ImmInCode | src/main/kotlin/model/Command.kt:31-40 | the immediate field after the displacement field reads back as the immediate |
| Commands.FieldReadBack | src/main/kotlin/model/Command.kt:19-27 | a value that fits renders at exactly the source width and reads back as itself once the groups are reversed |

| Numbers.NumeralBound | src/main/kotlin/converters/utils/utils.kt:36-39 | k digits hold a value below radix^k |
| Numbers.ParseUnsigned | src/main/kotlin/converters/Masm32Converter.kt:389 | unsigned digit text parses exactly when it is non-empty digits of the radix |
| Numbers.ToIntOrNull | src/main/kotlin/converters/utils/utils.kt:13 | a parsed value is a 32-bit `Int` |
| Numbers.ToIntOrNullMeaning | src/main/kotlin/converters/utils/utils.kt:13 | accepts exactly an optional sign and digits whose signed value is in `Int` range, and gives that value |
| Numbers.NatToString | src/main/kotlin/model/Command.kt:21 | non-empty digits of the radix with no leading zero |
| Numbers.IntToString | src/main/kotlin/converters/Masm32Converter.kt:548 | a negative value is a minus sign before the digits of its magnitude |
| Numbers.NatToStringValue | src/main/kotlin/model/Command.kt:21 | reading back what `toString(radix)` writes gives the number |
| Numbers.NatToStringLength | src/main/kotlin/converters/utils/utils.kt:23-28 | at most k digits exactly when the value is below radix^k |
| Numbers.PadStart | src/main/kotlin/converters/utils/utils.kt:37-39 | `"0".repeat(w - len) + s`: defined exactly when s fits; then w characters, zeros before the last len and s after them |
| Numbers.FixedDigits | src/main/kotlin/converters/utils/utils.kt:37-39 | exactly `width` digits of the radix |
| Numbers.ToLower | src/main/kotlin/model/Command.kt:34 | character-wise lower case of the same length |
| Numbers.ToLowerAppend | src/main/kotlin/model/Command.kt:34 | lower-casing distributes over concatenation |
| Numbers.FixedDigitsOfValue | src/main/kotlin/converters/utils/utils.kt:37-39 | writing the value of a digit string at its own width gives the string back in lower case |
| Numbers.PaddedIsFixed | src/main/kotlin/converters/utils/utils.kt:37-39 | zero-padding `toString` to a width that holds the value gives its fixed-width digits |
| Numbers.PaddedValue | src/main/kotlin/converters/utils/utils.kt:37-39 | zero-padded digits read back as the number |
| Numbers.ReverseGroups | src/main/kotlin/converters/utils/utils.kt:40-42 | keeps whole two-digit groups and only characters of its input |
| Numbers.ReverseGroupsAt | src/main/kotlin/converters/utils/utils.kt:40-42 | group k of the result is group n-1-k of the input |
| Numbers.ReverseGroupsAppend | src/main/kotlin/converters/utils/utils.kt:40-42 | reversing a concatenation reverses the order of the parts |
| Numbers.ReverseGroupsTwice | src/main/kotlin/converters/utils/utils.kt:40-42 | reversing twice gives back an even-length text ("33221100" ↔ "00112233") |
| Text.TrimStart | src/main/kotlin/converters/Masm32Converter.kt:11 | a suffix of the input that does not start with whitespace |
| Text.TrimEnd | src/main/kotlin/converters/Masm32Converter.kt:11 | a prefix of the input that does not end with whitespace |
| Text.TrimStartCutsWhitespace | src/main/kotlin/converters/Masm32Converter.kt:11 | only whitespace is cut from the front |
| Text.TrimEndCutsWhitespace | src/main/kotlin/converters/Masm32Converter.kt:11 | only whitespace is cut from the back |
| Text.Trim | src/main/kotlin/converters/Masm32Converter.kt:11 | neither end is whitespace and the text does not grow |
| Text.TrimSubset | src/main/kotlin/converters/Masm32Converter.kt:13 | trimming adds no character, so the trimmed destination still holds no comma |
| Text.TrimOfTrimmed | src/main/kotlin/converters/Masm32Converter.kt:11 | trimming trimmed text changes nothing |
| Text.ToUpperChar | src/main/kotlin/converters/Masm32Converter.kt:11 | lower-case ASCII letters move up by 32; all else stays |
| Text.ToUpper | src/main/kotlin/converters/Masm32Converter.kt:11 | character-wise upper case of the same length |
| Text.UpperOfUpper | src/main/kotlin/converters/Masm32Converter.kt:11 | text with no lower-case letter is its own upper case |
| Text.UpperKeepsTrimmed | src/main/kotlin/converters/Masm32Converter.kt:11 | upper-casing trimmed text leaves it trimmed |
| Text.UpperCharWhitespace | src/main/kotlin/converters/Masm32Converter.kt:11 | upper-casing neither makes nor removes whitespace |
| Text.UpperIsNoLower | src/main/kotlin/converters/Masm32Converter.kt:11 | upper-cased text has no lower-case letter |
| Text.IndexOf | src/main/kotlin/converters/Masm32Converter.kt:12 | the first occurrence, or the length when there is none |
| Text.SubstringBefore | src/main/kotlin/converters/Masm32Converter.kt:12-13 | the prefix before the first separator, which it lacks; all of the text without one |
| Text.SubstringAfter | src/main/kotlin/converters/Masm32Converter.kt:14 | what follows the first separator, so before + separator + after is the text; all of the text without one |
| Text.SubstringsAtFirst | src/main/kotlin/converters/Masm32Converter.kt:12-14 | splitting `a + c + b` at its first c gives a and b back |
| Text.IndexOfString | src/main/kotlin/converters/Masm32Converter.kt:13 | the first position where the pattern occurs, or none when it occurs nowhere |
| Text.SubstringAfterString | src/main/kotlin/converters/Masm32Converter.kt:13 | after a leading pattern, the rest; the whole text when it does not occur |
| Text.RemoveChar | src/main/kotlin/converters/utils/utils.kt:33 | removes every occurrence, keeps only characters of the input, changes nothing without one |
| Text.SplitFromCount | src/main/kotlin/converters/utils/utils.kt:32 | each "][" starts one more piece |
| Text.SplitOnSeparators | src/main/kotlin/converters/utils/utils.kt:32 | the `][` split gives at least one piece |
| Text.SplitFromJoin | src/main/kotlin/converters/utils/utils.kt:32 | text without `][` and not ending in `]`, then `][`, then more text splits there |
| Text.SplitJoin | src/main/kotlin/converters/utils/utils.kt:32 | a piece without separators, then "][", then the rest splits into that piece and the rest's pieces |
| Text.SplitNoSeparator | src/main/kotlin/converters/utils/utils.kt:32 | text without "][" is one piece |
| Utils.IsRegisterMeaning | src/main/kotlin/converters/utils/utils.kt:11 | text is a register exactly when some Register-kind constant has that name |
| Utils.ClosesRunMeaning | src/main/kotlin/converters/utils/utils.kt:12 | the scan for `[a-z0-9* ]+]` succeeds exactly when such a closing run exists |
| Utils.IsMemoryMeaning | src/main/kotlin/converters/utils/utils.kt:12 | the scan finds a group exactly when `\[[a-z0-9* ]+]` matches somewhere, ignoring case |
| Utils.ParseMemory | src/main/kotlin/converters/utils/utils.kt:15-21 | the byte, word and dword prefixes in that order, then any bracket group as Memory32, else nothing |
| Utils.GetMinPossibleConstant | src/main/kotlin/converters/utils/utils.kt:23-28 | by the length of the binary text: from 0, Constant8 below 0x80, Constant16 below 0x8000, Constant32 above; below 0 the minus sign counts, so Constant8 above -0x40, Constant16 above -0x4000, Constant32 above -0x40000000, and nothing lower |
| Utils.MemoryAddressValue | src/main/kotlin/converters/utils/utils.kt:30 | 1-8 hex digits are below 2^32 and form an `Int` exactly when at most 0x7FFFFFFF |
| Utils.StripBrackets | src/main/kotlin/converters/utils/utils.kt:33 | no bracket is left, and bracket-free text is kept |
| Utils.SplitMemoryAddress | src/main/kotlin/converters/utils/utils.kt:32-34 | at least one block, none holding a bracket |
| Utils.SplitMemoryAddressCount | src/main/kotlin/converters/utils/utils.kt:32-34 | k occurrences of "][" give k + 1 blocks |
| Utils.SplitBracketed | src/main/kotlin/converters/utils/utils.kt:32-34 | splitting `[b1][b2]...` gives the blocks back |
| Utils.ReverseInt | src/main/kotlin/converters/utils/utils.kt:36-43 | defined exactly when the digits fit bits / 4, giving the whole groups of that width |
| Utils.ReverseIntFixed | src/main/kotlin/converters/utils/utils.kt:36-43 | a value that fits is its zero-padded digits with groups reversed, and reversing again gives the padded digits |
| Utils.StackRegistersAreReserved | src/main/kotlin/converters/utils/utils.kt:45 | the stack registers are exactly the 32-bit registers at addresses 4 and 5 (ESP, EBP) |
| Utils.NameAlphabet | src/main/kotlin/model/AbstractOperand.kt:3-29 | every name has at least two characters, starts with an upper-case letter, is letters and digits only and holds a letter that is not a hex digit |
| Utils.RegisterNameShape | src/main/kotlin/model/AbstractOperand.kt:3-29 | every name is non-empty and trimmed, holds no blank, comma, '*' or bracket, and is neither a hex block, a hex constant nor a decimal number |
| Utils.ConcreteNameUpper | src/main/kotlin/model/AbstractOperand.kt:22-29 | a register name has no lower-case letter |
| Dictionaries.GetCommandsWithName | src/main/kotlin/converters/Dictionary.kt:7 | exactly the entries whose mnemonic equals the name ignoring case |
| Dictionaries.LookupKeepsOrder | src/main/kotlin/converters/Dictionary.kt:7 | the result is a subsequence of the table |
| Dictionaries.LookupAppend | src/main/kotlin/converters/Dictionary.kt:7 | looking up in two tables concatenated concatenates the lookups |
| Dictionaries.LookupIgnoresCase | src/main/kotlin/converters/Dictionary.kt:7 | the case of the name asked for does not change the result |
| Encoder.ParseHex | src/main/kotlin/converters/Masm32Converter.kt:61 | `toInt(16)` succeeds exactly on constants, with the `Int` value |
| Encoder.SplitLine | src/main/kotlin/converters/Masm32Converter.kt:11-14 | of the trimmed, upper-cased line: the mnemonic is the text before the first blank; the destination is the trimmed text between the mnemonic and the first comma; the source is the trimmed text after the first comma, or empty without a comma |
| Encoder.SplitCommandString | src/main/kotlin/converters/Masm32Converter.kt:11-14 | splitting the text `toCommandString` writes gives back its mnemonic, destination and source when each is non-empty, trimmed and upper case, the mnemonic has no blank or comma, and the destination has no comma (the round trip at CommandFromStringTest.kt:77) |
| Encoder.SplitBareCommand | src/main/kotlin/converters/Masm32Converter.kt:11-14 | a mnemonic alone splits into itself and two empty operands |
| Encoder.SplitCommandDest | src/main/kotlin/converters/Masm32Converter.kt:11-14 | `name dest` splits into name, dest and an empty source |
| Encoder.SplitCommandDestSource | src/main/kotlin/converters/Masm32Converter.kt:11-14 | `name dest, source` splits into its three parts |

| Encoder.GetAbstractOperand | src/main/kotlin/converters/Masm32Converter.kt:31-36 | registers by name, then memory, then the narrowest constant class; none for other text; fails only for constants that fit no class |
| Encoder.Matching | src/main/kotlin/converters/Masm32Converter.kt:28 | exactly the templates both operands cast to, in table order |
| Encoder.FilterCommands | src/main/kotlin/converters/Masm32Converter.kt:23-29 | succeeds exactly when both operands classify, the destination classifies to something and fits the source; then as `Matching` |
| Encoder.CommandRegConst | src/main/kotlin/converters/Masm32Converter.kt:59-65 | no ModRM, SIB or displacement; the immediate is the source's value; fails exactly for a non-constant |
| Encoder.CommandRegReg | src/main/kotlin/converters/Masm32Converter.kt:67-82 | ModRM is mod 11, the destination in reg, the source in r/m; fails exactly for a non-register source |
| Encoder.MemorySourced | src/main/kotlin/converters/Masm32Converter.kt:138-146 | the command carries the given mod, r/m, SIB and displacement and the destination in reg |
| Encoder.AddressOnly | src/main/kotlin/converters/Masm32Converter.kt:104-109 | a `[disp]` success is mod 00 with the destination in reg and the source text kept |
| Encoder.BaseOnly | src/main/kotlin/converters/Masm32Converter.kt:111-117 | a `[reg]` success is mod 00 with the destination in reg and the source text kept |
| Encoder.ScaledOnly | src/main/kotlin/converters/Masm32Converter.kt:119-134 | a `[reg*s]` success is mod 00 with the destination in reg and the source text kept |
| Encoder.ScaleField | src/main/kotlin/converters/Masm32Converter.kt:313-319 | defined exactly for 1, 2, 4, 8, giving the exponent |
| Encoder.MulRegister | src/main/kotlin/converters/Masm32Converter.kt:309 | a register from either side, none only when neither side is one |
| Encoder.ParseMultiplication | src/main/kotlin/converters/Masm32Converter.kt:304-322 | a 2-bit scale field and a register other than EBP and ESP |
| Encoder.ParseMultiplicationMeaning | src/main/kotlin/converters/Masm32Converter.kt:304-322 | succeeds exactly when a side names a non-stack register and a side is 1, 2, 4 or 8, left side first; the scale is 2^SS |
| Encoder.ParseTerm | src/main/kotlin/converters/Masm32Converter.kt:304-322 | the two sides of `*` give a 2-bit scale field and a register other than EBP and ESP |
| Encoder.ParseTermMeaning | src/main/kotlin/converters/Masm32Converter.kt:309-319 | succeeds exactly when a side is a non-stack register and a side is 1, 2, 4 or 8; that register, with 2^SS the scale |
| Encoder.CommandRegMem1 | src/main/kotlin/converters/Masm32Converter.kt:96-147 | mod 00, the destination in reg, the bracketed block as the source |
| Encoder.RegMem1Address | src/main/kotlin/converters/Masm32Converter.kt:104-109 | `[disp]` is ModRM `00 reg 101` with the displacement, failing exactly for a non-`Int` |
| Encoder.RegMem1Base | src/main/kotlin/converters/Masm32Converter.kt:111-117 | `[reg]` is `00 reg rm` alone, failing exactly for EBP and ESP |
| Encoder.RegMem1Scaled | src/main/kotlin/converters/Masm32Converter.kt:119-134 | `[reg*s]` is r/m 100, SIB `ss index 101`, displacement 0, failing exactly when the term does not parse |
| Encoder.RegMem1Invalid | src/main/kotlin/converters/Masm32Converter.kt:135 | any other block fails |
| Encoder.CommandRegMem2 | src/main/kotlin/converters/Masm32Converter.kt:149-254 | mod 00 or 10 with the destination in reg; the bytes of each form are the RegMem2* lemmas |
| Encoder.RegMem2StackDest | src/main/kotlin/converters/Masm32Converter.kt:155 | an EBP or ESP destination fails |
| Encoder.BaseDisp | src/main/kotlin/converters/Masm32Converter.kt:164-180 | a register-plus-displacement success is mod 10 with the destination in reg |
| Encoder.BaseIndex | src/main/kotlin/converters/Masm32Converter.kt:182-195 | a `[reg][reg]` success is mod 00 with the destination in reg |
| Encoder.ScaledBase | src/main/kotlin/converters/Masm32Converter.kt:197-224 | a scaled-plus-register success is mod 00 with the destination in reg |
| Encoder.ScaledBaseShape | src/main/kotlin/converters/Masm32Converter.kt:197-224 | succeeds exactly for a non-stack base and a term that parses; ModRM `00 reg 100`, SIB `ss index base`, no displacement |
| Encoder.ScaledDisp | src/main/kotlin/converters/Masm32Converter.kt:226-241 | a scaled-plus-displacement success is mod 00 with the destination in reg |
| Encoder.ScaledDispShape | src/main/kotlin/converters/Masm32Converter.kt:226-241 | succeeds exactly for a term that parses and an `Int` literal; ModRM `00 reg 100`, SIB `ss index 101`, the literal as displacement |
| Encoder.RegMem2BaseDisp | src/main/kotlin/converters/Masm32Converter.kt:164-171 | `[reg][disp]` is mod 10 with the register in r/m and the displacement, failing exactly for stack registers and non-`Int`s |
| Encoder.RegMem2DispBaseOrder | src/main/kotlin/converters/Masm32Converter.kt:164-180 | `[disp][reg]` gives the same result as `[reg][disp]` |
| Encoder.RegMem2BaseIndex | src/main/kotlin/converters/Masm32Converter.kt:182-195 | `[r1][r2]` is r/m 100 and SIB `00 r1 r2`, failing exactly for stack registers |
| Encoder.BaseIndexShape | src/main/kotlin/converters/Masm32Converter.kt:182-195 | the `[reg][reg]` branch succeeds exactly for non-stack registers, with ModRM `00 reg 100` and SIB `00 index base` |
| Encoder.RegMem2ScaledBase | src/main/kotlin/converters/Masm32Converter.kt:197-224 | `[reg*s][reg]` succeeds exactly for non-stack destination and base and a term that parses; ModRM `00 reg 100`, SIB `ss index base`, no displacement |
| Encoder.RegMem2ScaledBaseOrder | src/main/kotlin/converters/Masm32Converter.kt:197-224 | `[reg][reg*s]` gives the same result as `[reg*s][reg]` |
| Encoder.RegMem2ScaledDisp | src/main/kotlin/converters/Masm32Converter.kt:226-241 | `[reg*s][disp]` succeeds exactly for a non-stack destination, a term that parses and an `Int` literal; ModRM `00 reg 100`, SIB `ss index 101`, the literal as displacement |
| Encoder.RegMem2ScaledDispOrder | src/main/kotlin/converters/Masm32Converter.kt:226-241 | `[disp][reg*s]` gives the same result as `[reg*s][disp]` |
| Encoder.Step3 | src/main/kotlin/converters/Masm32Converter.kt:275-291 | one pass of the loop keeps the gathered fields in range |
| Encoder.Step3Cases | src/main/kotlin/converters/Masm32Converter.kt:275-291 | a hex block sets the displacement; a scaled term sets SS and the index unless one is set; a register sets the base, or the index once a base is set |
| Encoder.Scan | src/main/kotlin/converters/Masm32Converter.kt:275-291 | the loop keeps the gathered fields in range |
| Encoder.ScanByKinds | src/main/kotlin/converters/Masm32Converter.kt:275-291 | the loop depends only on each block's kind: a hex block, a scaled term, a register, or neither |
| Encoder.CommandRegMem3 | src/main/kotlin/converters/Masm32Converter.kt:256-302 | mod 10 with the destination in reg |
| Encoder.RegMem3Shape | src/main/kotlin/converters/Masm32Converter.kt:262-302 | succeeds exactly for a non-stack destination and a scan that finds index and base; ModRM `10 reg 100`, SIB from the scan |
| Encoder.ScanTwoScaled | src/main/kotlin/converters/Masm32Converter.kt:277-278 | two scaled terms anywhere make the loop fail |
| Encoder.RegMem3TwoScaled | src/main/kotlin/converters/Masm32Converter.kt:278 | a second scaled term fails `commandRegMem3` |
| Encoder.RegMem3Orders | src/main/kotlin/converters/Masm32Converter.kt:275-291 | a literal, a scaled term and a register scan to the same fields in all six orders |
| Encoder.RegMem3OrderFree | src/main/kotlin/converters/Masm32Converter.kt:256-302 | ... so the three-block command is the same in all six orders |
| Encoder.CommandRegMem | src/main/kotlin/converters/Masm32Converter.kt:84-94 | keeps the template's opcode, mnemonic and destination |
| Encoder.RegMemBlocks | src/main/kotlin/converters/Masm32Converter.kt:84-94 | 1, 2 or 3 blocks choose the builder; more fail |
| Encoder.CommandRegDest | src/main/kotlin/converters/Masm32Converter.kt:45-57 | fails for a non-register destination; a template with no source is the opcode, mnemonic and template destination |
| Encoder.Find | src/main/kotlin/converters/Masm32Converter.kt:341-343 | a block meeting the test with no earlier block meeting it, so the first; none exactly when no block meets it |
| Encoder.FindUnique | src/main/kotlin/converters/Masm32Converter.kt:341-343 | a test met by exactly one block finds that block |
| Encoder.MemDestSource | src/main/kotlin/converters/Masm32Converter.kt:330-337 | a reg field is a 3-bit number |
| Encoder.MemDestSourceCases | src/main/kotlin/converters/Masm32Converter.kt:330-337 | a register source fills reg unless it is the template's register; a constant source is the immediate; other kinds fail |
| Encoder.MemDestSourceRegister | src/main/kotlin/converters/Masm32Converter.kt:330-337 | a register source gives its address as reg unless it is the template's own register, and no immediate |
| Encoder.BlockRoles | src/main/kotlin/converters/Masm32Converter.kt:341-343 | the base is the first register block, the displacement the first constant block, the index the first block that is scaled or a register other than the base; no base or no displacement exactly when no block is of that kind; a plain register index comes with a different base |
| Encoder.RolesOfThree | src/main/kotlin/converters/Masm32Converter.kt:341-343 | a literal, a scaled term and a register in any order take the displacement, index and base roles |
| Encoder.IndexTerm | src/main/kotlin/converters/Masm32Converter.kt:347-349 | no index block, no term; a plain register index has scale 1 |
| Encoder.CommandMemDest | src/main/kotlin/converters/Masm32Converter.kt:324-383 | keeps opcode, mnemonic, the operand texts and the source's immediate; its address bytes are MemDestShape's, which MemDestAddressMeaning spells out |
| Encoder.MemDestShape | src/main/kotlin/converters/Masm32Converter.kt:339-371 | more than three blocks fail; otherwise ModRM, SIB and displacement are those the block roles determine |
| Encoder.MemDestAddressMeaning | src/main/kotlin/converters/Masm32Converter.kt:351-371 | with an index: r/m 100, mod 10 exactly when there are both base and displacement, SIB `ss index base` or base 101 with displacement 0 when there is no base; without an index: no SIB, r/m the base or 101, mod 10 exactly for a displacement with r/m other than 101; no reg field and no index gives `00 000 101` exactly with a displacement |
| Encoder.MemDestThreeBlocks | src/main/kotlin/converters/Masm32Converter.kt:324-383 | three blocks that are a literal, a scaled term and a register, in any order, succeed exactly when source and term do; ModRM `10 reg 100`, SIB `ss index base`, the literal as displacement |
| Encoder.MemDestThreeSucceeds | src/main/kotlin/converters/Masm32Converter.kt:324-383 | with those roles, the command succeeds exactly when the source and the term do |
| Encoder.MemDestThreeBytes | src/main/kotlin/converters/Masm32Converter.kt:351-371 | with those roles, a success has ModRM `10 reg 100`, SIB `ss index base` and the literal as displacement |
| Encoder.BaseRegister | src/main/kotlin/converters/Masm32Converter.kt:345 | the base is a register exactly when a register block was found |
| Encoder.FormCommand | src/main/kotlin/converters/Masm32Converter.kt:38-43 | keeps the opcode; a constant destination fails; no destination is the bare opcode |
| Encoder.FormAll | src/main/kotlin/converters/Masm32Converter.kt:16-17 | succeeds exactly when every template builds, giving the commands in template order |
| Encoder.CommandFromString | src/main/kotlin/converters/Masm32Converter.kt:10-21 | a successful line gives at least one command |
| Encoder.BuildAll | src/main/kotlin/converters/Masm32Converter.kt:16-20 | a successful build is non-empty |
| Encoder.CommandsFromTable | src/main/kotlin/converters/Masm32Converter.kt:10-21 | every command has the opcode of a table entry whose mnemonic equals the line's, ignoring case |
| Encoder.BuiltFromNamed | src/main/kotlin/converters/Masm32Converter.kt:16-20 | building the templates a name looks up gives only commands with the opcode of a table entry of that name |
| Encoder.BuiltFromTemplates | src/main/kotlin/converters/Masm32Converter.kt:16-20 | every command has the opcode of an offered template |
| EncoderMethods.PackByte | src/main/kotlin/converters/Masm32Converter.kt:68-73 | shifts and ors give `Compose` of the fields |
| EncoderMethods.EncodeAddressOnly | src/main/kotlin/converters/Masm32Converter.kt:104-109 | the `[disp]` branch computes `AddressOnly` |
| EncoderMethods.EncodeBaseOnly | src/main/kotlin/converters/Masm32Converter.kt:111-117 | the `[reg]` branch computes `BaseOnly` |
| EncoderMethods.EncodeScaledOnly | src/main/kotlin/converters/Masm32Converter.kt:119-134 | the `[reg*s]` branch computes `ScaledOnly` |
| EncoderMethods.EncodeRegMem1 | src/main/kotlin/converters/Masm32Converter.kt:96-147 | computes `CommandRegMem1` |
| EncoderMethods.EncodeBaseDisp | src/main/kotlin/converters/Masm32Converter.kt:164-180 | the register-plus-displacement branches compute `BaseDisp` |
| EncoderMethods.EncodeBaseIndex | src/main/kotlin/converters/Masm32Converter.kt:182-195 | the `[reg][reg]` branch computes `BaseIndex` |
| EncoderMethods.EncodeScaledBase | src/main/kotlin/converters/Masm32Converter.kt:197-224 | the scaled-plus-register branch computes `ScaledBase`, whose bytes ScaledBaseShape states |
| EncoderMethods.ScaledBaseBytes | src/main/kotlin/converters/Masm32Converter.kt:217-223 | assembles the ModRM and SIB bytes of that branch |
| EncoderMethods.EncodeScaledDisp | src/main/kotlin/converters/Masm32Converter.kt:226-241 | the scaled-plus-displacement branch computes `ScaledDisp`, whose bytes ScaledDispShape states |
| EncoderMethods.EncodeRegMem2 | src/main/kotlin/converters/Masm32Converter.kt:149-254 | computes `CommandRegMem2`, whose forms the RegMem2* lemmas state |
| EncoderMethods.EncodeStep3 | src/main/kotlin/converters/Masm32Converter.kt:276-290 | the loop body computes `Step3` |
| EncoderMethods.EncodeScan | src/main/kotlin/converters/Masm32Converter.kt:272-291 | the `forEach` loop computes `Scan`, stopping at the first exception |
| EncoderMethods.EncodeRegMem3 | src/main/kotlin/converters/Masm32Converter.kt:256-302 | computes `CommandRegMem3` |
| EncoderMethods.EncodeMemDestSource | src/main/kotlin/converters/Masm32Converter.kt:330-337 | computes `MemDestSource` |
| EncoderMethods.EncodeMemDestAddress | src/main/kotlin/converters/Masm32Converter.kt:351-371 | the `indexReg == null` branches and the SIB branch compute `MemDestAddress`, whose bytes MemDestAddressMeaning states |
| EncoderMethods.EncodeMemDest | src/main/kotlin/converters/Masm32Converter.kt:324-383 | computes `CommandMemDest`, whose address bytes MemDestShape and MemDestAddressMeaning state |
| Decoder.Nip | src/main/kotlin/converters/Masm32Converter.kt:402-406 | succeeds exactly when n characters remain, splitting the text into n characters and the rest |
| Decoder.HexByte | src/main/kotlin/converters/Masm32Converter.kt:428 | two hex digits read as their value, which `toHex(2)` writes back in lower case |
| Decoder.FieldText | src/main/kotlin/converters/Masm32Converter.kt:531 | `reverseInt` on a field of bits / 4 digits is the field's groups reversed, in lower case |
| Decoder.RmEscape | src/main/kotlin/converters/Masm32Converter.kt:453-467 | r/m 100 succeeds exactly for a memory side (SIB follows) or a byte register side (AH) |
| Decoder.RmRegister | src/main/kotlin/converters/Masm32Converter.kt:471-478 | another r/m is the table row's register under mod 11, else `[reg]` as 32-bit memory; fails exactly for an undefined side size |
| Decoder.PlaceRm | src/main/kotlin/converters/Masm32Converter.kt:453-478 | sets the r/m operand on the side `inverted` chooses and leaves every other local alone |
| Decoder.Placed | src/main/kotlin/converters/Masm32Converter.kt:427-478 | the locals after the ModRM byte: reg and r/m operands on their sides, no SIB, displacement or immediate yet |
| Decoder.ModRmStage | src/main/kotlin/converters/Masm32Converter.kt:418-428 | no ModRM means the template's destination alone; otherwise two digits are read, failing when absent |
| Decoder.ModRmByte | src/main/kotlin/converters/Masm32Converter.kt:429-478 | mod 01/10 need a memory side and mod 11 a register side; reg names the register of the reg side's size; mod 01, 10 and r/m 101 ask for a displacement |
| Decoder.RmField | src/main/kotlin/converters/Masm32Converter.kt:453-478 | keeps the reg operand and the byte read; r/m 101 asks for a displacement |
| Decoder.SibStage | src/main/kotlin/converters/Masm32Converter.kt:484-528 | what remains after the SIB byte is still hex digits |
| Decoder.DispStage | src/main/kotlin/converters/Masm32Converter.kt:530-542 | what remains after the displacement is still hex digits |
| Decoder.SibByte | src/main/kotlin/converters/Masm32Converter.kt:484-528 | succeeds exactly when the base is not 100 and base 101 comes with mod 00; the r/m operand is `[index*s]` then `[base]` unless 101 |
| Decoder.ParseCode | src/main/kotlin/converters/Masm32Converter.kt:400-561 | a decoded command has no prefix and the entry's opcode and mnemonic |
| Decoder.Finished | src/main/kotlin/converters/Masm32Converter.kt:551-560 | the returned command has no prefix, the entry's opcode and mnemonic, and the decoded fields and operand texts |
| Decoder.WithOpCode | src/main/kotlin/converters/Masm32Converter.kt:393 | exactly the entries with the opcode |
| Decoder.Survivors | src/main/kotlin/converters/Masm32Converter.kt:394-397 | no more commands than entries |
| Decoder.CommandFromHex | src/main/kotlin/converters/Masm32Converter.kt:387-398 | a success is a non-empty list |
| Decoder.CommandFromCode | src/main/kotlin/converters/Masm32Converter.kt:387-398 | a success is a non-empty list |
| Decoder.StagesOf | src/main/kotlin/converters/Masm32Converter.kt:400-561 | a successful decoding went through all four stages in order |
| Decoder.SibStageKeeps | src/main/kotlin/converters/Masm32Converter.kt:484-528 | the SIB stage keeps ModRM, displacement, immediate and the reg side; a read base is never 100, and 101 only with mod 00 and a displacement |
| Decoder.DispStageKeeps | src/main/kotlin/converters/Masm32Converter.kt:530-542 | the displacement stage keeps ModRM, SIB, immediate and the reg side |
| Decoder.ImmediateStageKeeps | src/main/kotlin/converters/Masm32Converter.kt:544-549 | a constant source reads an immediate and becomes its hex text |
| Decoder.DecodedModRm | src/main/kotlin/converters/Masm32Converter.kt:418-428 | ModRM is present exactly when `hasModRm`, and is the first two digits; without it the destination is the template's register |
| Decoder.DecodedRegField | src/main/kotlin/converters/Masm32Converter.kt:416-451 | reg names the source when inverted and the destination otherwise, at that side's size |
| Decoder.DecodedDisplacement | src/main/kotlin/converters/Masm32Converter.kt:438-441 | mod 01, mod 10 and r/m 101 always come with a displacement |
| Decoder.DecodedSib | src/main/kotlin/converters/Masm32Converter.kt:506-517 | a decoded SIB never has base ESP; base EBP only with mod 00 and then with a displacement |
| Decoder.DecodedImmediate | src/main/kotlin/converters/Masm32Converter.kt:544-549 | an immediate is present exactly for a constant source, which becomes its hex text |
| Decoder.DisplacementText | src/main/kotlin/converters/Masm32Converter.kt:530-542 | eight digits, groups reversed, read as the displacement; zero leaves the operands alone, any other value is appended as `[digits]` |
| Decoder.SurvivorsMeaning | src/main/kotlin/converters/Masm32Converter.kt:394-397 | a command survives exactly when some entry decodes to it |
| Decoder.SurvivorsAppend | src/main/kotlin/converters/Masm32Converter.kt:394-397 | the survivors keep the entries' order |
| Decoder.SurvivorsNonEmpty | src/main/kotlin/converters/Masm32Converter.kt:394-397 | something survives exactly when some entry decodes |
| Decoder.CommandFromHexSplit | src/main/kotlin/converters/Masm32Converter.kt:387-398 | the first two digits choose the entries, the rest is decoded, no survivor is the "No commands" failure |
| Decoder.CommandFromHexSucceeds | src/main/kotlin/converters/Masm32Converter.kt:387-398 | succeeds exactly when there is an opcode and some entry with it decodes the rest |
| Decoder.CommandFromHexMembers | src/main/kotlin/converters/Masm32Converter.kt:387-398 | the result is exactly the decodings by entries with the code's opcode |
| Decoder.HexByteOfToHex | src/main/kotlin/converters/Masm32Converter.kt:428 | `toShort(16)` reads back what `toHex(2)` writes |
| Decoder.RegisterPairDecode | src/main/kotlin/converters/Masm32Converter.kt:427-478 | between register wildcards, mod 11 with r/m other than 100, 101 decodes to the reg and r/m rows, placed by `inverted` |
| Decoder.RegisterPairRm101 | src/main/kotlin/converters/Masm32Converter.kt:468-470 | r/m 101 under mod 11 between registers always fails |
| Decoder.RegisterPairRm100 | src/main/kotlin/converters/Masm32Converter.kt:453-467 | r/m 100 under mod 11 between registers decodes exactly for a byte r/m side, as AH |
| Decoder.RegisterPairEncoded | src/main/kotlin/converters/Masm32Converter.kt:427-478 | decoding the ModRM byte `commandRegReg` writes |
| Decoder.RegisterPairRoundTrip | src/main/kotlin/converters/Masm32Converter.kt:67-82 | encoding then decoding a register pair gives the command back when the direction bit is set, and with operands exchanged when it is clear |
| Decoder.MemoryDestRm100 | src/main/kotlin/converters/Masm32Converter.kt:453-456 | a memory-destination entry decodes r/m 100 only when a SIB byte follows |
| Decoder.MemoryDestModRm100 | src/main/kotlin/converters/Masm32Converter.kt:453-456 | under mod 11 a memory-destination entry takes r/m 100 as a SIB escape, with the reg register and no displacement |
| DecoderMethods.ReadModRm | src/main/kotlin/converters/Masm32Converter.kt:418-428 | computes `ModRmStage` |
| DecoderMethods.ModFlags | src/main/kotlin/converters/Masm32Converter.kt:433-445 | fails exactly on mod 01/10 without a memory side or mod 11 without a register side; gives `hasSib` and `hasDisp` |
| DecoderMethods.ReadModRmByte | src/main/kotlin/converters/Masm32Converter.kt:429-478 | computes `ModRmByte` |
| DecoderMethods.ReadRm | src/main/kotlin/converters/Masm32Converter.kt:453-478 | computes `RmField` |
| DecoderMethods.ReadSib | src/main/kotlin/converters/Masm32Converter.kt:484-485 | computes `SibStage` |
| DecoderMethods.SibRegisters | src/main/kotlin/converters/Masm32Converter.kt:498-503 | the 32-bit registers at index and base; base ESP exactly at 100 and EBP exactly at 101 |
| DecoderMethods.ReadSibByte | src/main/kotlin/converters/Masm32Converter.kt:486-527 | computes `SibByte` |
| DecoderMethods.ReadDisplacement | src/main/kotlin/converters/Masm32Converter.kt:530-542 | computes `DispStage` |
| DecoderMethods.ReadImmediate | src/main/kotlin/converters/Masm32Converter.kt:544-549 | computes `ImmediateStage` |
| DecoderMethods.DecodeCommand | src/main/kotlin/converters/Masm32Converter.kt:400-561 | computes `ParseCode` |
| MasmTable.Named | src/test/kotlin/dictionary.kt:8-35 | one template per row, in order, with the mnemonic |
| MasmTable.EntryNames | src/test/kotlin/dictionary.kt:8-35 | the MOV rows all carry MOV and the INC row INC |
| MasmTable.LookupMov | src/main/kotlin/converters/Dictionary.kt:7 | MOV in any case finds the 25 MOV templates in table order |
| MasmTable.LookupInc | src/main/kotlin/converters/Dictionary.kt:7 | INC in any case finds the INC template alone |
| MasmTable.LookupUnknown | src/main/kotlin/converters/Dictionary.kt:7 | any other mnemonic finds nothing, so the line fails |
| DecoderVectors.Select88 | src/main/kotlin/converters/Masm32Converter.kt:393 | opcode 88 selects the two `88` entries of the table |
| DecoderVectors.Memory8C4 | src/main/kotlin/converters/Masm32Converter.kt:453-456 | the memory entry of `88` fails on `c4`: the SIB byte it wants is missing |
| DecoderVectors.Reg8C4 | src/main/kotlin/converters/Masm32Converter.kt:447-478 | the register entry of `88` decodes `c4` with source AL and destination AH |
| DecoderVectors.Code88C4 | src/test/kotlin/commandFromCodeTest.kt:15 | `88C4` decodes to the single command `MOV AH, AL` |
| DecoderVectors.Reg8E8 | src/main/kotlin/converters/Masm32Converter.kt:447-478 | the register entry of `88` decodes `e8` with source CH (reg 101) and destination AL (r/m 000) |
| DecoderVectors.WriteAlCh | src/main/kotlin/converters/Masm32Converter.kt:67-82 | `commandRegReg` writes `MOV AL, CH` with ModRM `C5`, under any template |
| DecoderVectors.Reg8C5 | src/main/kotlin/converters/Masm32Converter.kt:468-470 | neither byte register entry decodes `c5`, so `88C5` and `8AC5` do not read back |
| EncoderVectors.RegConstOne | src/test/kotlin/CommandFromStringTest.kt:23 | `MOV EAX, 1` through the `B8` template gives `b801000000` |
| EncoderVectors.MovEaxOneCode | src/test/kotlin/CommandFromStringTest.kt:23 | the command of `MOV EAX, 1` renders as `b801000000` |
| EncoderVectors.RegMemAddress | src/test/kotlin/CommandFromStringTest.kt:33 | `MOV EAX, [00112233]` through `8B` has ModRM 05, no SIB and displacement 0x00112233 (`8B0533221100`) |
| EncoderVectors.RegMemScaledDisp | src/test/kotlin/CommandFromStringTest.kt:37 | `MOV EAX, [00112233][ECX*4]` through `8B` has ModRM 04, SIB 8D and displacement 0x00112233 (`8B048D33221100`) |
| EncoderVectors.ScaledDispBytes | src/test/kotlin/CommandFromStringTest.kt:37 | a literal of value 0x00112233 before a term ECX scale 4 gives ModRM 04, SIB 8D and that displacement |
| EncoderVectors.MemDestThree | src/test/kotlin/CommandFromStringTest.kt:56-58 | `MOV [..], ECX` with the blocks 11223344, EBX*4 and EDX in any order has ModRM 8C, SIB 9A and displacement 0x11223344 (`898C9A44332211`) |
| EncoderVectors.MemDestLine | src/test/kotlin/CommandFromStringTest.kt:56 | `MOV [11223344][EBX*4][EDX], ECX` has ModRM 8C, SIB 9A and displacement 0x11223344 |
| EncoderVectors.MemDestBytes | src/test/kotlin/CommandFromStringTest.kt:56-58 | a source register ECX and blocks of a 0x11223344 literal, term EBX scale 4 and register EDX give ModRM 8C, SIB 9A and that displacement |
| EncoderVectors.TermEcxTimes4 | src/main/kotlin/converters/Masm32Converter.kt:304-322 | `ECX*4` parses as scale field 2 and index ECX |
| EncoderVectors.TermEbxTimes4 | src/main/kotlin/converters/Masm32Converter.kt:304-322 | `EBX*4` parses as scale field 2 and index EBX |

## Left out

- Converter.kt is not part of this model: it is an interface of two signatures.
- `code.toString(16)` of the `BigInteger` given to `commandFromCode` is modelled by `NatToString`. `CommandFromHex` takes the hex text itself. That text has no leading zero, so an opcode below 0x10 loses a digit; the model reproduces this and proves nothing further about it.
- The Kotlin regular expressions of `isMemory`, `isMemoryAddress` and `splitMemoryAddress` are replaced by explicit scans. `IsMemoryMeaning` relates the scan to the pattern; the `][` split is proved by its piece count and its inverse (`SplitBracketed`).
- Exception kinds and messages (`commandNotFound`, `NumberFormatException`, the `!!` at line 296, an out-of-range `substring` inside `nip`) are one `Failure` outcome.
- `BYTE_PTR`, `WORD_PTR`, `DWORD_PTR` and `ERROR_COMMAND_NOT_FOUND` are defined outside the modelled files. The pointer prefixes are a parameter record (`PtrPrefixes`); the message text is not modelled.
- Case mapping (`toUpperCase`, `equals(ignoreCase = true)`, `IGNORE_CASE`) is ASCII only. `Char.isWhitespace` is modelled on its Latin-1 and common Unicode space ranges.
- Some checks cannot fire and are left out: the repeated stack-register test after `parseMultiplication` (lines 205, 211, 229, 280); `parseMemory ?: throw` under `isMemory`; the `getRegisters().find ?: throw` on an address 0-7 of a defined size.
- The JUnit harness (`testCommands`, `println`, the asserts) is not modelled. The test table is the constant `MasmTable.Table`, and the `88C4` decoding vector is a lemma. The encoding vectors of CommandFromStringTest.kt lines 23, 33, 37 and 56-58 are lemmas on the form builders (`RegConstOne`, `MovEaxOneCode`, `RegMemAddress`, `RegMemScaledDisp`, `MemDestThree`, `MemDestLine`). They start from the builder each line reaches, not from the text of the whole line. The other vectors are covered by the per-form lemmas (`RegMem1Scaled`, `RegMem2BaseDisp`, `RegMem3OrderFree`, …) only.
- Encoder.CommandFromString: stated only as "non-empty, and every command comes from a table entry with the line's mnemonic" (`CommandsFromTable`). The bytes of each form are stated by the builder lemmas instead.
- Decoder.ParseCode: its own contract states only opcode and mnemonic. The field-by-field facts are the `Decoded…` lemmas.
- Numbers.ToIntOrNull: accepts ASCII digits and Latin letters only. Kotlin's `Character.digit` also accepts other Unicode decimal digits, such as Arabic-Indic or full-width ones, which the model rejects.
- Decoder.CommandFromCode: takes a non-negative code. A negative `BigInteger` renders with a leading `-`; its first two characters then name no opcode of the table, so the source always fails with "No commands". The model does not take such codes.
