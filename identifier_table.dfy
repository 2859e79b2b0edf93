/** The per-scope identifier table. The C# HashSet<Identifier> holds objects
    by reference; it is modelled by the sequence of its entries in the order
    they were added, which is the order in which a .NET HashSet that never has
    an element removed enumerates them, so a `FirstOrDefault` search returns
    the earliest added match. */
module IdentifierTables {
  import opened Structures

  /** The earliest element of `s` that satisfies `p`, or null. */
  function FirstMatch(s: seq<Identifier>, p: Identifier -> bool): (r: Identifier?)
    ensures r == null <==> forall k | 0 <= k < |s| :: !p(s[k])
    ensures r != null ==> exists k | 0 <= k < |s| :: s[k] == r && p(r) && forall j | 0 <= j < k :: !p(s[j])
  {
    if s == [] then null
    else if p(s[0]) then s[0]
    else
      var r := FirstMatch(s[1..], p);
      assert r != null ==> exists k | 0 <= k < |s[1..]| :: s[1..][k] == r && p(r) && forall j | 0 <= j < k :: !p(s[1..][j]);
      assert r != null ==> exists k | 1 <= k < |s| :: s[k] == r && p(r) && forall j | 0 <= j < k :: !p(s[j]);
      r
  }

  class IdentifierTable {
    var entries: seq<Identifier>

    /** The set keeps no object twice. */
    ghost predicate Valid()
      reads this
    {
      forall i, j | 0 <= i < j < |entries| :: entries[i] != entries[j]
    }

    /** Some entry is spelled `name`. */
    predicate HasName(name: string)
      reads this
    {
      exists k | 0 <= k < |entries| :: entries[k].symbol.name == name
    }

    /** Some entry carries this very Symbol object. */
    predicate HasSymbol(symbol: Symbol)
      reads this
    {
      exists k | 0 <= k < |entries| :: entries[k].symbol == symbol
    }

    constructor ()
      ensures Valid() && entries == []
    {
      entries := [];
    }

    /** HashSet.Add: adds the object unless that very object is present. */
    method Insert(identifier: Identifier) returns (added: bool)
      requires Valid()
      modifies this
      ensures Valid()
      ensures added == (identifier !in old(entries))
      ensures entries == if added then old(entries) + [identifier] else old(entries)
    {
      added := identifier !in entries;
      if added {
        entries := entries + [identifier];
      }
    }

    /** Add(Symbol, IdentifierClass): a new identifier of that symbol and class,
        with no type and an empty constant, is always added and returned,
        because the set compares by reference and the object is new. */
    method AddNew(symbol: Symbol, cls: IdentifierClass) returns (r: Identifier?)
      requires Valid()
      modifies this
      ensures Valid()
      ensures r != null && fresh(r)
      ensures r.symbol == symbol && r.cls == cls && r.typ == null && r.constValue == EmptyConst
      ensures entries == old(entries) + [r]
    {
      var identifier := new Identifier(symbol, cls, null, EmptyConst);
      var added := Insert(identifier);
      r := if added then identifier else null;
    }

    /** ExperimentalAdd: refuses, changing nothing, when an entry has the same
        spelling; otherwise adds the identifier. */
    method ExperimentalAdd(identifier: Identifier) returns (ok: bool)
      requires Valid()
      modifies this
      ensures Valid()
      ensures ok == !old(HasName(identifier.symbol.name))
      ensures entries == if ok then old(entries) + [identifier] else old(entries)
    {
      if Search(identifier.symbol.name) != null {
        return false;
      }
      ok := Insert(identifier);
      assert identifier in old(entries) ==> old(HasName(identifier.symbol.name));
    }

    /** Add(Identifier): refuses, changing nothing, only when an entry carries
        the very same Symbol object; a different Symbol of the same spelling is
        added. */
    method Add(identifier: Identifier) returns (ok: bool)
      requires Valid()
      modifies this
      ensures Valid()
      ensures ok == !old(HasSymbol(identifier.symbol))
      ensures entries == if ok then old(entries) + [identifier] else old(entries)
    {
      if SearchSymbol(identifier.symbol, []) != null {
        return false;
      }
      ok := Insert(identifier);
      assert identifier in old(entries) ==> old(HasSymbol(identifier.symbol));
    }

    /** AddType: the same rule as ExperimentalAdd, by spelling. */
    method AddType(identifier: Identifier) returns (ok: bool)
      requires Valid()
      modifies this
      ensures Valid()
      ensures ok == !old(HasName(identifier.symbol.name))
      ensures entries == if ok then old(entries) + [identifier] else old(entries)
    {
      ok := ExperimentalAdd(identifier);
    }

    /** Search(Symbol, classes): the entry carrying that very Symbol object, or
        null; the list of classes is not consulted. */
    function SearchSymbol(symbol: Symbol, classes: seq<IdentifierClass>): (r: Identifier?)
      reads this
      ensures r == null <==> !HasSymbol(symbol)
      ensures r != null ==> r in entries && r.symbol == symbol
    {
      FirstMatch(entries, (e: Identifier) => e.symbol == symbol)
    }

    /** Search(name): an entry spelled `name`, the earliest added one, or null
        when there is none. */
    function Search(name: string): (r: Identifier?)
      reads this
      ensures r == null <==> !HasName(name)
      ensures r != null ==> r in entries && r.symbol.name == name
    {
      FirstMatch(entries, (e: Identifier) => e.symbol.name == name)
    }
  }

  /** The spellings of the entries. */
  function NamesOf(entries: seq<Identifier>): (names: set<string>)
    ensures forall k | 0 <= k < |entries| :: entries[k].symbol.name in names
    ensures forall n | n in names :: exists k | 0 <= k < |entries| :: entries[k].symbol.name == n
  {
    set k | 0 <= k < |entries| :: entries[k].symbol.name
  }

  /** The Symbol objects of the entries. */
  function SymbolsOf(entries: seq<Identifier>): (symbols: set<Symbol>)
    ensures forall k | 0 <= k < |entries| :: entries[k].symbol in symbols
    ensures forall s | s in symbols :: exists k | 0 <= k < |entries| :: entries[k].symbol == s
  {
    set k | 0 <= k < |entries| :: entries[k].symbol
  }

  lemma NamesOfAppend(entries: seq<Identifier>, identifier: Identifier)
    ensures NamesOf(entries + [identifier]) == NamesOf(entries) + {identifier.symbol.name}
    ensures SymbolsOf(entries + [identifier]) == SymbolsOf(entries) + {identifier.symbol}
  {
    var e := entries + [identifier];
    assert e[|entries|] == identifier;
    assert forall k | 0 <= k < |entries| :: e[k] == entries[k];
  }

  lemma HasNameOf(t: IdentifierTable, name: string, symbol: Symbol)
    ensures t.HasName(name) <==> name in NamesOf(t.entries)
    ensures t.HasSymbol(symbol) <==> symbol in SymbolsOf(t.entries)
  {
  }

  /** An entry appended after entries of other spellings is what Search of
      its spelling finds. */
  lemma SearchAppended(t: IdentifierTable, before: seq<Identifier>, identifier: Identifier)
    requires t.entries == before + [identifier]
    requires !exists k | 0 <= k < |before| :: before[k].symbol.name == identifier.symbol.name
    ensures t.Search(identifier.symbol.name) == identifier
  {
    var k := |before|;
    forall j | 0 <= j < |t.entries| && j != k
      ensures t.entries[j].symbol.name != t.entries[k].symbol.name
    {
      assert t.entries[j] == before[j];
    }
    SearchUnique(t, k);
  }

  /** When exactly one entry has a spelling, Search of it finds that entry. */
  lemma SearchUnique(t: IdentifierTable, k: int)
    requires 0 <= k < |t.entries|
    requires forall j | 0 <= j < |t.entries| && j != k :: t.entries[j].symbol.name != t.entries[k].symbol.name
    ensures t.Search(t.entries[k].symbol.name) == t.entries[k]
  {
    SearchFindsAdded(t, t.entries[k]);
  }

  /** Once ExperimentalAdd has stored a name, Search of that name succeeds. */
  lemma SearchFindsAdded(t: IdentifierTable, identifier: Identifier)
    requires identifier in t.entries
    ensures t.Search(identifier.symbol.name) != null
  {
    var k :| 0 <= k < |t.entries| && t.entries[k] == identifier;
    assert t.entries[k].symbol.name == identifier.symbol.name;
  }
}
