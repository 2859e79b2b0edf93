/** Scopes and the lookups that walk outward along the chain of enclosing
    scopes. */
module Scopes {
  import opened Structures
  import opened IdentifierTables
  import opened TypeTables

  /** A scope owns its identifier table and its type table. `depth` counts the
      enclosing scopes; it exists only to make the outward walk well founded. */
  class Scope {
    const identifiers: IdentifierTable
    const types: TypeTable
    const enclosing: Scope?
    ghost const depth: nat

    /** `new Scope { EnclosingScope = enclosing }`: fresh, empty tables. */
    constructor (enclosing: Scope?)
      ensures this.enclosing == enclosing
      ensures fresh(identifiers) && fresh(types)
      ensures identifiers.entries == [] && identifiers.Valid() && types.entries == []
      ensures depth == if enclosing == null then 0 else enclosing.depth + 1
    {
      identifiers := new IdentifierTable();
      types := new TypeTable();
      this.enclosing := enclosing;
      depth := if enclosing == null then 0 else enclosing.depth + 1;
    }
  }

  /** Every enclosing scope is shallower than the one it encloses. */
  ghost predicate Chained(s: Scope)
    decreases s.depth
  {
    s.enclosing != null ==> s.enclosing.depth < s.depth && Chained(s.enclosing)
  }

  /** The scopes from `s` outward, innermost first. */
  ghost function Chain(s: Scope): (c: seq<Scope>)
    decreases s.depth
    ensures |c| >= 1 && c[0] == s
  {
    if s.enclosing != null && s.enclosing.depth < s.depth then [s] + Chain(s.enclosing) else [s]
  }

  /** The identifier tables a lookup from `s` may read. */
  ghost function Tables(s: Scope): set<IdentifierTable>
  {
    set k | 0 <= k < |Chain(s)| :: Chain(s)[k].identifiers
  }

  lemma TablesOfEnclosing(s: Scope)
    requires Chained(s) && s.enclosing != null
    ensures Chain(s) == [s] + Chain(s.enclosing)
    ensures Tables(s) == {s.identifiers} + Tables(s.enclosing)
  {
    var c, d := Chain(s), Chain(s.enclosing);
    assert c == [s] + d;
    forall t | t in Tables(s)
      ensures t in {s.identifiers} + Tables(s.enclosing)
    {
      var k :| 0 <= k < |c| && c[k].identifiers == t;
      if k > 0 {
        assert d[k - 1] == c[k];
      }
    }
    forall t | t in Tables(s.enclosing)
      ensures t in Tables(s)
    {
      var k :| 0 <= k < |d| && d[k].identifiers == t;
      assert c[k + 1] == d[k];
    }
  }

  /** The scopes and tables of a chain exist already. */
  lemma {:induction false} TablesAllocated(s: Scope)
    requires Chained(s)
    decreases s.depth
    ensures forall t | t in Tables(s) :: allocated(t)
  {
    if s.enclosing != null {
      TablesOfEnclosing(s);
      TablesAllocated(s.enclosing);
    } else {
      assert Chain(s) == [s];
    }
  }

  /** SearchIdentifier's walk: the entry with that spelling in the innermost
      scope that has one, or null when no scope of the chain has one. */
  function Lookup(s: Scope, name: string): (r: Identifier?)
    requires Chained(s)
    reads Tables(s)
    decreases s.depth
    ensures r == null <==>
      forall k | 0 <= k < |Chain(s)| :: Chain(s)[k].identifiers.Search(name) == null
    ensures forall k | 0 <= k < |Chain(s)| && Chain(s)[k].identifiers.Search(name) != null &&
      (forall j | 0 <= j < k :: Chain(s)[j].identifiers.Search(name) == null) ::
        r == Chain(s)[k].identifiers.Search(name)
  {
    assert s.identifiers in Tables(s) by {
      assert Chain(s)[0].identifiers == s.identifiers;
    }
    if s.identifiers.Search(name) != null then
      s.identifiers.Search(name)
    else if s.enclosing != null then
      TablesOfEnclosing(s);
      assert forall k | 0 <= k < |Chain(s.enclosing)| :: Chain(s.enclosing)[k] == Chain(s)[k + 1];
      assert forall k | 1 <= k < |Chain(s)| :: Chain(s)[k] == Chain(s.enclosing)[k - 1];
      Lookup(s.enclosing, name)
    else
      null
  }

  /** An entry of the current scope's own table has the last word. */
  lemma LookupLocal(s: Scope, name: string)
    requires Chained(s) && s.identifiers.Search(name) != null
    ensures Lookup(s, name) == s.identifiers.Search(name)
  {
  }

  /** An entry that names a type or a variable. */
  predicate TypeLike(identifier: Identifier?) {
    identifier != null && (identifier.cls == Types || identifier.cls == Vars)
  }

  /** SearchType's walk: the type recorded by the innermost scope whose entry
      of that spelling is a type or a variable; a constant of that spelling
      is walked past; null when no scope has such an entry. */
  function SearchType(s: Scope, name: string): (r: Type?)
    requires Chained(s)
    reads Tables(s)
    decreases s.depth
    ensures (forall k | 0 <= k < |Chain(s)| :: !TypeLike(Chain(s)[k].identifiers.Search(name))) ==> r == null
    ensures forall k | 0 <= k < |Chain(s)| && TypeLike(Chain(s)[k].identifiers.Search(name)) &&
      (forall j | 0 <= j < k :: !TypeLike(Chain(s)[j].identifiers.Search(name))) ::
        r == Chain(s)[k].identifiers.Search(name).typ
  {
    assert s.identifiers in Tables(s) by {
      assert Chain(s)[0].identifiers == s.identifiers;
    }
    var identifier := s.identifiers.Search(name);
    if TypeLike(identifier) then
      identifier.typ
    else if s.enclosing != null then
      TablesOfEnclosing(s);
      assert forall k | 0 <= k < |Chain(s.enclosing)| :: Chain(s.enclosing)[k] == Chain(s)[k + 1];
      assert forall k | 1 <= k < |Chain(s)| :: Chain(s)[k] == Chain(s.enclosing)[k - 1];
      assert !TypeLike(Chain(s)[0].identifiers.Search(name));
      SearchType(s.enclosing, name)
    else
      null
  }
}
