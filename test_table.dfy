/** The instruction table the converter is exercised with
    (src/test/kotlin/dictionary.kt): the MOV forms 88, 89, 8A, 8B, B0-BF,
    C6 and C7, and INC EAX. */
module MasmTable {
  import opened Text
  import opened Operands
  import opened Commands
  import opened Dictionaries

  /** A table row without its mnemonic: opcode, source, destination. */
  datatype Row = Row(opCode: bv8, source: AbstractOperand, dest: AbstractOperand)

  /** The rows of one mnemonic as templates. */
  function Named(name: string, rows: seq<Row>): (r: seq<AbstractCommand>)
    ensures |r| == |rows|
    ensures forall i :: 0 <= i < |r| ==> r[i] == AbstractCommand(name, rows[i].opCode, rows[i].source, rows[i].dest)
    ensures forall t :: t in r ==> t.name == name
  {
    seq(|rows|, i requires 0 <= i < |rows| => AbstractCommand(name, rows[i].opCode, rows[i].source, rows[i].dest))
  }

  const MovRows: seq<Row> := [
    Row(0x88, Reg8, Reg8),
    Row(0x88, Reg8, Memory8),
    Row(0x89, Reg32, Memory32),
    Row(0x8A, Reg8, Reg8),
    Row(0x8A, Memory8, Reg8),
    Row(0x8B, Reg32, Reg32),
    Row(0x8B, Memory32, Reg32),
    Row(0xB0, Constant8, AL),
    Row(0xB1, Constant8, CL),
    Row(0xB2, Constant8, DL),
    Row(0xB3, Constant8, BL),
    Row(0xB4, Constant8, AH),
    Row(0xB5, Constant8, CH),
    Row(0xB6, Constant8, DH),
    Row(0xB7, Constant8, BH),
    Row(0xB8, Constant32, EAX),
    Row(0xB9, Constant32, ECX),
    Row(0xBA, Constant32, EDX),
    Row(0xBB, Constant32, EBX),
    Row(0xBC, Constant32, ESP),
    Row(0xBD, Constant32, EBP),
    Row(0xBE, Constant32, ESI),
    Row(0xBF, Constant32, EDI),
    Row(0xC6, Constant8, Memory8),
    Row(0xC7, Constant32, Memory32)
  ]

  const MovEntries: seq<AbstractCommand> := Named("MOV", MovRows)

  const IncEntries: seq<AbstractCommand> := Named("INC", [Row(0x40, NoOperand, EAX)])

  /** The table, in its source order (fields: name, opcode, source, dest). */
  const Table: seq<AbstractCommand> := MovEntries + IncEntries

  /** Every template names the mnemonic as written, in upper case. */
  lemma EntryNames()
    ensures forall t :: t in MovEntries ==> t.name == "MOV"
    ensures forall t :: t in IncEntries ==> t.name == "INC"
  {
  }

  /** A lookup of MOV, in any case, gives the 25 MOV templates in order. */
  lemma LookupMov(name: string)
    requires EqualsIgnoreCase(name, "MOV")
    ensures GetCommandsWithName(Table, name) == MovEntries
  {
    EntryNames();
    assert ToUpperChar(name[0]) == ToUpperChar("MOV"[0]) == 'M';
    LookupFirstGroup(MovEntries, IncEntries, "MOV", "INC", name);
  }

  /** A lookup of INC, in any case, gives the INC template alone. */
  lemma LookupInc(name: string)
    requires EqualsIgnoreCase(name, "INC")
    ensures GetCommandsWithName(Table, name) == IncEntries
  {
    EntryNames();
    assert ToUpperChar(name[0]) == ToUpperChar("INC"[0]) == 'I';
    LookupAppend(MovEntries, IncEntries, name);
    NoneMatch(MovEntries, name);
    AllMatch(IncEntries, name);
  }

  /** Any other mnemonic finds nothing. */
  lemma LookupUnknown(name: string)
    requires !EqualsIgnoreCase(name, "MOV") && !EqualsIgnoreCase(name, "INC")
    ensures GetCommandsWithName(Table, name) == []
  {
    EntryNames();
    LookupAppend(MovEntries, IncEntries, name);
    NoneMatch(MovEntries, name);
    NoneMatch(IncEntries, name);
  }

  lemma LookupFirstGroup(a: seq<AbstractCommand>, b: seq<AbstractCommand>, na: string, nb: string, name: string)
    requires forall t :: t in a ==> t.name == na
    requires forall t :: t in b ==> t.name == nb
    requires EqualsIgnoreCase(name, na) && !EqualsIgnoreCase(name, nb)
    ensures GetCommandsWithName(a + b, name) == a
  {
    LookupAppend(a, b, name);
    AllMatch(a, name);
    NoneMatch(b, name);
    assert a + [] == a;
  }

  lemma {:induction false} AllMatch(commands: seq<AbstractCommand>, name: string)
    requires forall t :: t in commands ==> EqualsIgnoreCase(t.name, name)
    ensures GetCommandsWithName(commands, name) == commands
  {
    if commands != [] {
      assert commands[0] in commands;
      assert forall t :: t in commands[1..] ==> t in commands;
      AllMatch(commands[1..], name);
    }
  }

  lemma {:induction false} NoneMatch(commands: seq<AbstractCommand>, name: string)
    requires forall t :: t in commands ==> !EqualsIgnoreCase(t.name, name)
    ensures GetCommandsWithName(commands, name) == []
  {
    if commands != [] {
      assert commands[0] in commands;
      assert forall t :: t in commands[1..] ==> t in commands;
      NoneMatch(commands[1..], name);
    }
  }
}
