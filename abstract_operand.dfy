/** The operand categories of the instruction table (model/AbstractOperand.kt):
    the size wildcards, the constant and memory classes, and the 24 concrete
    general-purpose registers with their 3-bit hardware addresses, together
    with the two compatibility relations `fits` and `canCastTo`. */
module Operands {
  import opened Wrappers
  import opened Sizes

  /** The kind of an operand. `OperandType` itself is declared outside the
      files modelled here; its four values are the ones the code names. */
  datatype OperandType = Register | Memory | Constant | Undefined

  /** The enum constants, in declaration order. */
  datatype AbstractOperand =
    | NoOperand
    | Constant8 | Constant16 | Constant32
    | Memory8 | Memory16 | Memory32
    | Reg8 | Reg16 | Reg32
    | AL | AX | EAX
    | CL | CX | ECX
    | DL | DX | EDX
    | BL | BX | EBX
    | AH | SP | ESP
    | CH | BP | EBP
    | BH | SI | ESI
    | DH | DI | EDI
  {
    function Kind(): OperandType {
      match this
      case NoOperand => OperandType.Undefined
      case Constant8 | Constant16 | Constant32 => Constant
      case Memory8 | Memory16 | Memory32 => Memory
      case _ => Register
    }

    function Width(): (w: Size)
      ensures w == Size.Undefined <==> this == NoOperand
    {
      match this
      case NoOperand => Size.Undefined
      case Constant8 | Memory8 | Reg8 | AL | CL | DL | BL | AH | CH | BH | DH => Byte
      case Constant16 | Memory16 | Reg16 | AX | CX | DX | BX | SP | BP | SI | DI => Word
      case _ => Extended
    }

    /** The 3-bit register number; the wildcards and classes have none. */
    function Address(): (a: Option<bv8>)
      ensures a.Some? ==> a.value < 8 && Width() != Size.Undefined && Kind() == Register
    {
      match this
      case AL | AX | EAX => Some(0)
      case CL | CX | ECX => Some(1)
      case DL | DX | EDX => Some(2)
      case BL | BX | EBX => Some(3)
      case AH | SP | ESP => Some(4)
      case CH | BP | EBP => Some(5)
      case BH | SI | ESI => Some(6)
      case DH | DI | EDI => Some(7)
      case _ => None
    }

    /** The enum constant's `name`. */
    function Name(): string {
      match this
      case NoOperand => "NoOperand"
      case Constant8 => "Constant8" case Constant16 => "Constant16" case Constant32 => "Constant32"
      case Memory8 => "Memory8" case Memory16 => "Memory16" case Memory32 => "Memory32"
      case Reg8 => "Reg8" case Reg16 => "Reg16" case Reg32 => "Reg32"
      case AL => "AL" case AX => "AX" case EAX => "EAX"
      case CL => "CL" case CX => "CX" case ECX => "ECX"
      case DL => "DL" case DX => "DX" case EDX => "EDX"
      case BL => "BL" case BX => "BX" case EBX => "EBX"
      case AH => "AH" case SP => "SP" case ESP => "ESP"
      case CH => "CH" case BP => "BP" case EBP => "EBP"
      case BH => "BH" case SI => "SI" case ESI => "ESI"
      case DH => "DH" case DI => "DI" case EDI => "EDI"
    }

    predicate IsReg() { Kind() == Register }
    predicate IsMem() { Kind() == Memory }
    predicate IsConst() { Kind() == Constant }

    /** A register that carries a hardware address, as opposed to a wildcard. */
    predicate IsConcreteRegister() { IsReg() && Address().Some? }

    function AddressOr0(): (a: bv8)
      ensures a < 8
      ensures Address().Some? ==> a == Address().value
      ensures Address().None? ==> a == 0
    {
      match Address()
      case Some(v) => v
      case None => 0
    }

    /** `this fits other`: `this` as destination can take `other` as source. */
    predicate Fits(other: AbstractOperand) {
      if IsConst() then false
      else if other == NoOperand then true
      else Sizes.Fits(Width(), other.Width())
    }

    /** `this canCastTo other`: the operand found in the text matches the
        table entry's operand `other`. */
    predicate CanCastTo(other: AbstractOperand) {
      if Kind() != other.Kind() then false
      else if Kind() == Register then CanCastRegister(other)
      else if this == NoOperand && other == NoOperand then true
      else Sizes.Fits(other.Width(), Width())
    }

    predicate CanCastRegister(other: AbstractOperand) {
      if Width() != other.Width() then false
      else if this == other then true
      else if Some(this) == GetGeneralizedReg(other) then true
      else if GetGeneralizedReg(this) == Some(other) then true
      else false
    }
  }

  /** `values()`, in declaration order. */
  const Values: seq<AbstractOperand> :=
    [NoOperand, Constant8, Constant16, Constant32, Memory8, Memory16, Memory32, Reg8, Reg16, Reg32,
     AL, AX, EAX, CL, CX, ECX, DL, DX, EDX, BL, BX, EBX,
     AH, SP, ESP, CH, BP, EBP, BH, SI, ESI, DH, DI, EDI]

  lemma InValues(a: AbstractOperand)
    ensures a in Values
  {
  }

  lemma ValuesComplete()
    ensures forall a: AbstractOperand :: a in Values
  {
    forall a: AbstractOperand ensures a in Values {
      InValues(a);
    }
  }

  /** The size wildcard of a register's width; `Undefined` has none and is
      rejected. */
  function GetGeneralizedReg(reg: AbstractOperand): (r: Option<AbstractOperand>)
    ensures r.Some? <==> reg.Width() != Size.Undefined
    ensures r.Some? ==> r.value.IsReg() && r.value.Address().None? && r.value.Width() == reg.Width()
  {
    match reg.Width()
    case Byte => Some(Reg8)
    case Word => Some(Reg16)
    case Extended => Some(Reg32)
    case Undefined => None
  }

  /** The Register-kind constants in declaration order, the wildcards included. */
  const Registers: seq<AbstractOperand> :=
    [Reg8, Reg16, Reg32,
     AL, AX, EAX, CL, CX, ECX, DL, DX, EDX, BL, BX, EBX,
     AH, SP, ESP, CH, BP, EBP, BH, SI, ESI, DH, DI, EDI]

  /** `getRegisters()`: every Register-kind constant, the wildcards included. */
  function GetRegisters(): (r: seq<AbstractOperand>)
    ensures forall a :: a in r <==> a.IsReg()
  {
    RegistersComplete();
    Registers
  }

  lemma InRegisters(a: AbstractOperand)
    ensures a in Registers <==> a.IsReg()
  {
  }

  lemma RegistersComplete()
    ensures forall a: AbstractOperand :: a in Registers <==> a.IsReg()
  {
    forall a: AbstractOperand ensures a in Registers <==> a.IsReg() {
      InRegisters(a);
    }
  }

  function FindNamed(vs: seq<AbstractOperand>, name: string): (r: Option<AbstractOperand>)
    ensures r.Some? ==> r.value in vs && r.value.IsReg() && r.value.Name() == name
    ensures r.None? ==> forall a :: a in vs && a.IsReg() ==> a.Name() != name
  {
    if vs == [] then None
    else if vs[0].IsReg() && vs[0].Name() == name then Some(vs[0])
    else FindNamed(vs[1..], name)
  }

  /** `findRegister(name)`: the Register-kind constant whose name is exactly
      `name` (no case folding), if any. */
  function FindRegister(name: string): (r: Option<AbstractOperand>)
    ensures r.Some? ==> r.value.IsReg()
  {
    FindNamed(Values, name)
  }

  /** What `FindRegister` finds is the register of that name, and it finds
      nothing only when no register has the name. */
  lemma FindRegisterMeaning(name: string)
    ensures FindRegister(name).Some? ==> FindRegister(name).value.Name() == name
    ensures FindRegister(name).None? ==> forall a: AbstractOperand :: a.IsReg() ==> a.Name() != name
  {
    ValuesComplete();
  }

  /** The names of the constants are pairwise different. */
  lemma NameInjective(a: AbstractOperand, b: AbstractOperand)
    ensures a.Name() == b.Name() ==> a == b
  {
    NameDecides(a);
    NameDecides(b);
  }

  /** The two-letter names: the 16-bit registers, then the 8-bit ones. */
  function TwoLetter(x: char, y: char): Option<AbstractOperand> {
    match [x, y]
    case "AX" => Some(AX) case "CX" => Some(CX) case "DX" => Some(DX) case "BX" => Some(BX)
    case "SP" => Some(SP) case "BP" => Some(BP) case "SI" => Some(SI) case "DI" => Some(DI)
    case "AL" => Some(AL) case "CL" => Some(CL) case "DL" => Some(DL) case "BL" => Some(BL)
    case "AH" => Some(AH) case "CH" => Some(CH) case "BH" => Some(BH) case "DH" => Some(DH)
    case _ => None
  }

  /** The 32-bit register whose name is `E` and a 16-bit name. */
  function Extend(r: Option<AbstractOperand>): Option<AbstractOperand> {
    match r
    case Some(AX) => Some(EAX) case Some(CX) => Some(ECX) case Some(DX) => Some(EDX) case Some(BX) => Some(EBX)
    case Some(SP) => Some(ESP) case Some(BP) => Some(EBP) case Some(SI) => Some(ESI) case Some(DI) => Some(EDI)
    case _ => None
  }

  /** The constant a name belongs to, read off its length, its first
      characters and its last character. */
  function FromName(n: string): Option<AbstractOperand> {
    if |n| < 2 then None
    else if |n| == 2 then TwoLetter(n[0], n[1])
    else if |n| == 3 && n[0] == 'E' then Extend(TwoLetter(n[1], n[2]))
    else
      var last := n[|n| - 1];
      if n[0] == 'N' then Some(NoOperand)
      else if n[0] == 'C' then (if last == '8' then Some(Constant8) else if last == '6' then Some(Constant16) else Some(Constant32))
      else if n[0] == 'M' then (if last == '8' then Some(Memory8) else if last == '6' then Some(Memory16) else Some(Memory32))
      else (if last == '8' then Some(Reg8) else if last == '6' then Some(Reg16) else Some(Reg32))
  }

  lemma NameDecides(a: AbstractOperand)
    ensures FromName(a.Name()) == Some(a)
  {
    if a.Address().Some? {
      RegisterNameDecides(a);
    }
  }

  lemma RegisterNameDecides(a: AbstractOperand)
    requires a.Address().Some?
    ensures FromName(a.Name()) == Some(a)
  {
    if a.Width() == Extended {
      var n := a.Name();
      assert |n| == 3 && n[0] == 'E' && TwoLetter(n[1], n[2]).Some?;
    }
  }

  /** Every register is found under its own name. */
  lemma FindRegisterOwnName(r: AbstractOperand)
    requires r.IsReg()
    ensures FindRegister(r.Name()) == Some(r)
  {
    FindRegisterMeaning(r.Name());
    NameInjective(r, FindRegister(r.Name()).value);
  }

  function FindAt(vs: seq<AbstractOperand>, address: bv8, size: Size): (r: Option<AbstractOperand>)
    ensures r.Some? ==> r.value in vs && r.value.Address() == Some(address) && r.value.Width() == size
    ensures r.None? ==> forall a :: a in vs ==> !(a.Address() == Some(address) && a.Width() == size)
  {
    if vs == [] then None
    else if vs[0].Address() == Some(address) && vs[0].Width() == size then Some(vs[0])
    else FindAt(vs[1..], address, size)
  }

  /** `getRegisters().find { it.address == address && it.size == size }`. */
  function RegisterAt(address: bv8, size: Size): (r: Option<AbstractOperand>)
    ensures r.Some? ==> r.value.IsConcreteRegister() && r.value.Address() == Some(address) && r.value.Width() == size
    ensures r.None? ==> forall a: AbstractOperand :: !(a.Address() == Some(address) && a.Width() == size)
  {
    FindAt(GetRegisters(), address, size)
  }

  /** A concrete register is identified by its address and width. */
  lemma AddressWidthInjective(a: AbstractOperand, b: AbstractOperand)
    requires a.Address().Some? && a.Address() == b.Address() && a.Width() == b.Width()
    ensures a == b
  {
  }

  /** The register of each width at an address 0-7, in table order. */
  function RegisterRow(address: bv8, size: Size): (r: AbstractOperand)
    requires address < 8 && size != Size.Undefined
    ensures r.Address() == Some(address) && r.Width() == size
  {
    match size
    case Byte => [AL, CL, DL, BL, AH, CH, BH, DH][address]
    case Word => [AX, CX, DX, BX, SP, BP, SI, DI][address]
    case Extended => [EAX, ECX, EDX, EBX, ESP, EBP, ESI, EDI][address]
  }

  /** Each address 0-7 names exactly one concrete register of each of the
      three widths, and no other address or width names one. */
  lemma RegisterTable(address: bv8, size: Size)
    ensures RegisterAt(address, size).Some? <==> address < 8 && size != Size.Undefined
    ensures forall a: AbstractOperand :: a.Address() == Some(address) && a.Width() == size ==> RegisterAt(address, size) == Some(a)
  {
    if address < 8 && size != Size.Undefined {
      var r := RegisterRow(address, size);
    }
    if RegisterAt(address, size).Some? {
      assert RegisterAt(address, size).value.Address() == Some(address);
    }
    forall a: AbstractOperand | a.Address() == Some(address) && a.Width() == size
      ensures RegisterAt(address, size) == Some(a)
    {
      AddressWidthInjective(a, RegisterAt(address, size).value);
    }
  }

  /** Row 4 of the 32-bit registers is ESP and row 5 is EBP. */
  lemma StackRows(address: bv8)
    requires address < 8
    ensures (RegisterRow(address, Extended) == ESP) == (address == 4)
    ensures (RegisterRow(address, Extended) == EBP) == (address == 5)
  {
    assert ESP.Address() == Some(4) && EBP.Address() == Some(5);
  }

  /** Address 100 among the byte registers is AH. */
  lemma RegisterFourOfBytes()
    ensures RegisterAt(4, Byte) == Some(AH)
  {
    RegisterAtRow(4, Byte);
    ByteRowFour();
  }

  /** Row 4 of the byte registers is AH. */
  lemma ByteRowFour()
    ensures RegisterRow(4, Byte) == AH
  {
    assert [AL, CL, DL, BL, AH, CH, BH, DH][4] == AH;
  }

  /** The register `getRegisters().find` picks at an address 0-7 and a
      defined width is the one in the table's row. */
  lemma RegisterAtRow(address: bv8, size: Size)
    ensures address < 8 && size != Size.Undefined ==> RegisterAt(address, size) == Some(RegisterRow(address, size))
    ensures address >= 8 || size == Size.Undefined ==> RegisterAt(address, size).None?
  {
    RegisterTable(address, size);
  }

  /** A constant is never a destination; anything else takes a missing source;
      otherwise the widths decide. */
  lemma FitsRule(a: AbstractOperand, b: AbstractOperand)
    ensures a.IsConst() ==> !a.Fits(b)
    ensures !a.IsConst() && b == NoOperand ==> a.Fits(b)
    ensures !a.IsConst() && b != NoOperand ==>
      (a.Fits(b) <==> a.Width() != Size.Undefined && b.Width() != Size.Undefined && Bits(b.Width()) <= Bits(a.Width()))
  {
  }

  /** `canCastTo` for memory and constants: the same kind, and the table
      entry is at least as wide. */
  lemma CastSized(a: AbstractOperand, t: AbstractOperand)
    requires a.IsMem() || a.IsConst()
    ensures a.CanCastTo(t) <==> a.Kind() == t.Kind() && Bits(a.Width()) <= Bits(t.Width())
  {
  }

  /** `NoOperand` matches only `NoOperand`. */
  lemma CastNoOperand(a: AbstractOperand)
    ensures NoOperand.CanCastTo(a) <==> a == NoOperand
    ensures a.CanCastTo(NoOperand) <==> a == NoOperand
  {
  }

  /** A register matches a table register of equal width only, and only
      the same register or its width's wildcard (in either direction). */
  lemma CastRegister(a: AbstractOperand, t: AbstractOperand)
    requires a.IsReg()
    ensures a.CanCastTo(t) <==>
      t.IsReg() && a.Width() == t.Width() && (a == t || a.Address().None? || t.Address().None?)
  {
    if a.CanCastTo(t) {
      CastRegisterSound(a, t);
    }
    if t.IsReg() && a.Width() == t.Width() && (a == t || a.Address().None? || t.Address().None?) {
      CastRegisterComplete(a, t);
    }
  }

  lemma CastRegisterSound(a: AbstractOperand, t: AbstractOperand)
    requires a.IsReg() && a.CanCastTo(t)
    ensures t.IsReg() && a.Width() == t.Width() && (a == t || a.Address().None? || t.Address().None?)
  {
    assert a.CanCastRegister(t);
  }

  lemma CastRegisterComplete(a: AbstractOperand, t: AbstractOperand)
    requires a.IsReg() && t.IsReg() && a.Width() == t.Width() && (a == t || a.Address().None? || t.Address().None?)
    ensures a.CanCastTo(t)
  {
    if a != t {
      if a.Address().None? {
        WildcardIsGeneralized(a);
      } else {
        WildcardIsGeneralized(t);
      }
    }
  }

  lemma WildcardIsGeneralized(a: AbstractOperand)
    requires a.IsReg() && a.Address().None?
    ensures GetGeneralizedReg(a) == Some(a)
  {
  }

  /** Two different concrete registers never match. */
  lemma DistinctRegistersDoNotCast(a: AbstractOperand, b: AbstractOperand)
    requires a.IsConcreteRegister() && b.IsConcreteRegister() && a != b
    ensures !a.CanCastTo(b)
  {
  }

  lemma CastReflexive(a: AbstractOperand)
    ensures a.CanCastTo(a)
  {
  }
}
