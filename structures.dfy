/** The data records shared by the tables and the analyzer: Symbol, ConstValue,
    the type objects, Identifier and the diagnostic Error. Everything the C#
    source compares with `==` on objects is a class here, so that equality is
    reference identity as it is there. */
module Structures {
  import opened Wrappers

  /** An interned spelling and the position of its first occurrence. Symbol
      overrides GetHashCode only, so two Symbols are equal only when they are
      the same object. */
  class Symbol {
    const name: string
    const position: int

    constructor (name: string, position: int)
      ensures this.name == name && this.position == position
    {
      this.name := name;
      this.position := position;
    }

    /** The one-argument constructor: the position keeps its default, zero. */
    constructor Named(name: string)
      ensures this.name == name && this.position == 0
    {
      this.name := name;
      this.position := 0;
    }
  }

  /** The value of a constant: at most one of the three is set by the analyzer. */
  datatype ConstValue = ConstValue(integer: Option<int>, symbol: Option<char>, enumMember: Symbol?)

  /** `new ConstValue()`: nothing set. */
  const EmptyConst := ConstValue(None, None, null)

  /** The kinds of type. A C# enum value need not be one of its named members;
      `Other` stands for such a value. */
  datatype TypeCode = Limiteds | Scalars | Arrays | Enums | Other(value: int)

  /** A type object. The C# source has one subclass per kind; here one class
      carries the kind and the fields of every kind: the members of an Enum,
      the bounds and base of a Limited (subrange), the index types and element
      type of an Array. The analyzer assigns these fields after allocation. */
  class Type {
    const code: TypeCode
    var symbols: seq<Symbol>
    var min: Option<ConstValue>
    var max: Option<ConstValue>
    var baseType: Type?
    var indexes: seq<Type?>

    constructor (code: TypeCode)
      requires !code.Other?
      ensures this.code == code && symbols == [] && indexes == []
      ensures min == None && max == None && baseType == null
    {
      this.code := code;
      symbols := [];
      min, max := None, None;
      baseType := null;
      indexes := [];
    }
  }

  datatype IdentifierClass = Vars | Types | Consts

  /** A binding of a symbol to a role and a type. Identifier overrides
      GetHashCode only, so a HashSet of identifiers holds objects by reference. */
  class Identifier {
    const symbol: Symbol
    const cls: IdentifierClass
    const constValue: ConstValue
    const typ: Type?

    constructor (symbol: Symbol, cls: IdentifierClass, typ: Type?, constValue: ConstValue)
      ensures this.symbol == symbol && this.cls == cls && this.typ == typ
      ensures this.constValue == constValue
    {
      this.symbol := symbol;
      this.cls := cls;
      this.typ := typ;
      this.constValue := constValue;
    }
  }

  /** A diagnostic: where, and which numeric code. */
  datatype Error = Error(position: int, code: int)
}
