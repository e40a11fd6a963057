/** Operand widths and the "fits" order between them (model/Size.kt). */
module Sizes {

  datatype Size = Byte | Word | Extended | Undefined

  /** Width in bits; `Undefined` has none. */
  function Bits(s: Size): (b: nat)
    ensures s != Undefined ==> b in {8, 16, 32}
    ensures s == Undefined <==> b == 0
  {
    match s
    case Byte => 8
    case Word => 16
    case Extended => 32
    case Undefined => 0
  }

  /** `a fits b`: a value of width `b` can be held at width `a`. */
  predicate Fits(a: Size, b: Size)
    ensures Fits(a, b) <==> a != Undefined && b != Undefined && Bits(b) <= Bits(a)
  {
    match a
    case Byte => b == Byte
    case Word => b == Byte || b == Word
    case Extended => b != Undefined
    case Undefined => false
  }

  lemma FitsReflexive(a: Size)
    requires a != Undefined
    ensures Fits(a, a)
  {
  }

  lemma FitsTransitive(a: Size, b: Size, c: Size)
    requires Fits(a, b) && Fits(b, c)
    ensures Fits(a, c)
  {
  }

  /** Undefined fits nothing and nothing fits Undefined. */
  lemma UndefinedFitsNothing(a: Size)
    ensures !Fits(Undefined, a) && !Fits(a, Undefined)
  {
  }
}
