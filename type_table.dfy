/** The per-scope list of type objects: append-only. */
module TypeTables {
  import opened Wrappers
  import opened Structures

  class TypeTable {
    var entries: seq<Type?>

    constructor ()
      ensures entries == []
    {
      entries := [];
    }

    /** Add(Type): one entry more, at the end. */
    method Add(t: Type?)
      modifies this
      ensures entries == old(entries) + [t]
    {
      entries := entries + [t];
    }

    /** Add(TypeCode): a new type object of that kind, appended and returned;
        a code outside the four kinds selects no case of the switch, so null is
        appended and returned. */
    method AddCode(code: TypeCode) returns (t: Type?)
      modifies this
      ensures code.Other? <==> t == null
      ensures t != null ==> fresh(t) && t.code == code && t.symbols == [] && t.indexes == []
      ensures t != null ==> t.min == None && t.max == None && t.baseType == null
      ensures entries == old(entries) + [t]
      ensures |entries| == |old(entries)| + 1 && entries[..|old(entries)|] == old(entries)
      ensures entries[|entries| - 1] == t
    {
      t := null;
      match code {
        case Limiteds =>
          t := new Type(Limiteds);
        case Scalars =>
          t := new Type(Scalars);
        case Arrays =>
          t := new Type(Arrays);
        case Enums =>
          t := new Type(Enums);
        case Other(_) =>
      }
      Add(t);
    }
  }
}
