/** The syntactical analyzer's state and semantic actions: the token cursor
    and its recovery loops, the scope stack, and the insertions and lookups
    made by declarations and by factors.

    The lexer is not part of this model. What it leaves in the context after
    each NextSymbol (code, spelling, position, interned Symbol and the input's
    end-of-file flag) is one Token of a given sequence, and the cursor is the
    index of the current one. */
module SyntacticalAnalyzer {
  import opened Wrappers
  import opened Structures
  import opened IdentifierTables
  import opened SymbolTables
  import opened TypeTables
  import opened Scopes
  import opened TypeRules

  /** SymbolCode, SymbolName, SymbolPosition, Symbol and IsEnd as they stand
      while this token is current. */
  datatype Token = Token(code: int, name: string, position: int, symbol: Symbol?, atEnd: bool)

  /** A stream the lexer can produce: not empty, the input exhausted at its
      last token, and every identifier token carrying its interned Symbol. */
  predicate StreamOk(tokens: seq<Token>, identCode: int) {
    |tokens| > 0 && tokens[|tokens| - 1].atEnd &&
    forall k | 0 <= k < |tokens| && tokens[k].code == identCode ::
      tokens[k].symbol != null && tokens[k].symbol.name == tokens[k].name
  }

  /** NextSymbol: the next token; at the last one the lexer has nothing more
      to give and the current token stays. */
  function Advance(tokens: seq<Token>, i: nat): (j: nat)
    requires i < |tokens|
    ensures j < |tokens|
    ensures i + 1 < |tokens| ==> j == i + 1
    ensures i + 1 == |tokens| ==> j == i
  {
    if i + 1 < |tokens| then i + 1 else i
  }

  /** Where SkipTo stops: the first token from `i` on whose code is in `stops`. */
  function SkipToTarget(tokens: seq<Token>, i: nat, stops: set<int>): (k: nat)
    requires i < |tokens|
    requires exists j | i <= j < |tokens| :: tokens[j].code in stops
    decreases |tokens| - i
    ensures i <= k < |tokens| && tokens[k].code in stops
    ensures forall j | i <= j < k :: tokens[j].code !in stops
  {
    if tokens[i].code in stops then i else SkipToTarget(tokens, i + 1, stops)
  }

  /** Where SkipTo2 stops: the first token from `i` on that is in `stops` or
      was read at the end of the input; the last token always is. */
  function SkipTo2Target(tokens: seq<Token>, i: nat, stops: set<int>): (k: nat)
    requires i < |tokens| && tokens[|tokens| - 1].atEnd
    decreases |tokens| - i
    ensures i <= k < |tokens|
    ensures tokens[k].atEnd || tokens[k].code in stops
    ensures forall j | i <= j < k :: !tokens[j].atEnd && tokens[j].code !in stops
  {
    if tokens[i].atEnd || tokens[i].code in stops then i else SkipTo2Target(tokens, i + 1, stops)
  }

  /** Where the opening check of a procedure leaves the cursor: where it was
      when the token may start the construct, else after SkipTo2. */
  function Resync(tokens: seq<Token>, i: nat, starters: set<int>, followers: set<int>): (k: nat)
    requires i < |tokens| && tokens[|tokens| - 1].atEnd
    ensures i <= k < |tokens|
    ensures tokens[k].atEnd || tokens[k].code in starters + followers
    ensures tokens[i].code in starters ==> k == i
  {
    if tokens[i].code in starters then i else SkipTo2Target(tokens, i, starters + followers)
  }

  /** How a list of declared symbols splits when each is inserted in turn
      into a table that refuses a key it already holds: those inserted, and
      those refused, in order. `taken` is the keys held before. */
  datatype Partition = Partition(accepted: seq<Symbol>, rejected: seq<Symbol>)

  function Declare(taken: set<Key>, members: seq<Symbol>, clash: Match): Partition
    decreases |members|
  {
    if members == [] then Partition([], [])
    else if KeyOf(clash, members[0]) in taken then
      var p := Declare(taken, members[1..], clash);
      Partition(p.accepted, [members[0]] + p.rejected)
    else
      var p := Declare(taken + {KeyOf(clash, members[0])}, members[1..], clash);
      Partition([members[0]] + p.accepted, p.rejected)
  }

  /** Every symbol lands on one side; the inserted ones have keys new to the
      table and to each other. */
  lemma {:induction false} DeclareSplitsMembers(taken: set<Key>, members: seq<Symbol>, clash: Match)
    decreases |members|
    ensures var p := Declare(taken, members, clash);
      |p.accepted| + |p.rejected| == |members| &&
      (forall k | 0 <= k < |p.accepted| :: KeyOf(clash, p.accepted[k]) !in taken) &&
      (forall i, j | 0 <= i < j < |p.accepted| :: KeyOf(clash, p.accepted[i]) != KeyOf(clash, p.accepted[j])) &&
      (forall s | s in p.accepted :: s in members) &&
      (forall s | s in p.rejected :: s in members)
  {
    if members != [] {
      var head := members[0];
      var taken' := if KeyOf(clash, head) in taken then taken else taken + {KeyOf(clash, head)};
      DeclareSplitsMembers(taken', members[1..], clash);
      var q := Declare(taken', members[1..], clash);
      assert forall s | s in q.accepted :: s in members;
      assert forall s | s in q.rejected :: s in members;
      if KeyOf(clash, head) !in taken {
        var p := Declare(taken, members, clash);
        assert p.accepted == [head] + q.accepted;
        forall i, j | 0 <= i < j < |p.accepted|
          ensures KeyOf(clash, p.accepted[i]) != KeyOf(clash, p.accepted[j])
        {
          if i == 0 {
            assert p.accepted[j] == q.accepted[j - 1];
          } else {
            assert p.accepted[i] == q.accepted[i - 1] && p.accepted[j] == q.accepted[j - 1];
          }
        }
      }
    }
  }

  /** A symbol whose key is new, both to the table and to the symbols before
      it, is inserted. */
  lemma {:induction false} DeclareAcceptsFirst(taken: set<Key>, members: seq<Symbol>, clash: Match, k: nat)
    requires k < |members|
    requires KeyOf(clash, members[k]) !in taken
    requires forall j | 0 <= j < k :: KeyOf(clash, members[j]) != KeyOf(clash, members[k])
    ensures members[k] in Declare(taken, members, clash).accepted
    decreases k
  {
    if k > 0 {
      var taken' := if KeyOf(clash, members[0]) in taken then taken else taken + {KeyOf(clash, members[0])};
      assert members[1..][k - 1] == members[k];
      DeclareAcceptsFirst(taken', members[1..], clash, k - 1);
    }
  }

  /** A symbol whose key the table already holds, or an earlier symbol of the
      list shares, is refused. */
  lemma {:induction false} DeclareRejectsRepeated(taken: set<Key>, members: seq<Symbol>, clash: Match, k: nat)
    requires k < |members|
    requires KeyOf(clash, members[k]) in taken || exists j | 0 <= j < k :: KeyOf(clash, members[j]) == KeyOf(clash, members[k])
    ensures members[k] in Declare(taken, members, clash).rejected
    decreases k
  {
    if k > 0 {
      var taken' := if KeyOf(clash, members[0]) in taken then taken else taken + {KeyOf(clash, members[0])};
      assert members[1..][k - 1] == members[k];
      if !(KeyOf(clash, members[k]) in taken') {
        var j :| 0 <= j < k && KeyOf(clash, members[j]) == KeyOf(clash, members[k]);
        assert j != 0;
        assert members[1..][j - 1] == members[j];
      }
      DeclareRejectsRepeated(taken', members[1..], clash, k - 1);
    }
  }

  /** Peeling the front of the list off the partition. */
  /** The first symbol of a list is decided before the rest: the step of a
      loop that has already split off `acc` and `rej`. */
  lemma DeclareSplit(taken: set<Key>, members: seq<Symbol>, clash: Match,
                        acc: seq<Symbol>, rej: seq<Symbol>, whole: Partition)
    requires members != []
    requires acc + Declare(taken, members, clash).accepted == whole.accepted
    requires rej + Declare(taken, members, clash).rejected == whole.rejected
    ensures KeyOf(clash, members[0]) in taken ==>
      var p := Declare(taken, members[1..], clash);
      acc + p.accepted == whole.accepted && (rej + [members[0]]) + p.rejected == whole.rejected
    ensures KeyOf(clash, members[0]) !in taken ==>
      var p := Declare(taken + {KeyOf(clash, members[0])}, members[1..], clash);
      (acc + [members[0]]) + p.accepted == whole.accepted && rej + p.rejected == whole.rejected
  {
    var first := members[0];
    if KeyOf(clash, first) in taken {
      var p := Declare(taken, members[1..], clash);
      assert Declare(taken, members, clash) == Partition(p.accepted, [first] + p.rejected);
      assert (rej + [first]) + p.rejected == rej + ([first] + p.rejected);
    } else {
      var p := Declare(taken + {KeyOf(clash, first)}, members[1..], clash);
      assert Declare(taken, members, clash) == Partition([first] + p.accepted, p.rejected);
      assert (acc + [first]) + p.accepted == acc + ([first] + p.accepted);
    }
  }

  /** What makes two declared symbols clash in a table: an equal spelling
      (ExperimentalAdd, AddType) or the very same Symbol object (Add). */
  datatype Match = SameName | SameSymbol

  datatype Key = NameKey(name: string) | SymbolKey(symbol: Symbol)

  function KeyOf(clash: Match, s: Symbol): Key {
    if clash == SameName then NameKey(s.name) else SymbolKey(s)
  }

  /** The keys the entries of a table hold. */
  function KeysOf(clash: Match, entries: seq<Identifier>): set<Key> {
    set k | 0 <= k < |entries| :: KeyOf(clash, entries[k].symbol)
  }

  /** A symbol's key is held exactly when the table has an entry of that
      spelling, or of that very Symbol. */
  lemma KeysOfHeld(t: IdentifierTable, s: Symbol)
    ensures KeyOf(SameName, s) in KeysOf(SameName, t.entries) <==> t.HasName(s.name)
    ensures KeyOf(SameSymbol, s) in KeysOf(SameSymbol, t.entries) <==> t.HasSymbol(s)
  {
    if t.HasName(s.name) {
      var k :| 0 <= k < |t.entries| && t.entries[k].symbol.name == s.name;
      assert KeyOf(SameName, t.entries[k].symbol) == KeyOf(SameName, s);
    }
    if t.HasSymbol(s) {
      var k :| 0 <= k < |t.entries| && t.entries[k].symbol == s;
      assert KeyOf(SameSymbol, t.entries[k].symbol) == KeyOf(SameSymbol, s);
    }
  }

  lemma KeysOfAppend(clash: Match, entries: seq<Identifier>, identifier: Identifier)
    ensures KeysOf(clash, entries + [identifier]) == KeysOf(clash, entries) + {KeyOf(clash, identifier.symbol)}
  {
    var e := entries + [identifier];
    assert e[|entries|] == identifier;
    assert forall k | 0 <= k < |entries| :: e[k] == entries[k];
  }

  /** Error 101 at the position of each refused symbol. */
  function Redeclared(rejected: seq<Symbol>): (errors: seq<Error>)
    ensures |errors| == |rejected|
    ensures forall k | 0 <= k < |rejected| :: errors[k] == Error(rejected[k].position, 101)
  {
    if rejected == [] then [] else [Error(rejected[0].position, 101)] + Redeclared(rejected[1..])
  }

  lemma RedeclaredAppend(a: seq<Symbol>, b: seq<Symbol>)
    ensures Redeclared(a + b) == Redeclared(a) + Redeclared(b)
  {
    assert |Redeclared(a + b)| == |Redeclared(a) + Redeclared(b)|;
    forall k | 0 <= k < |a + b|
      ensures Redeclared(a + b)[k] == (Redeclared(a) + Redeclared(b))[k]
    {
      if k >= |a| {
        assert (a + b)[k] == b[k - |a|];
      }
    }
  }

  /** One more refusal adds its diagnostic. */
  lemma RedeclaredOne(prefix: seq<Error>, rejected: seq<Symbol>, symbol: Symbol)
    ensures prefix + Redeclared(rejected) + [Error(symbol.position, 101)] == prefix + Redeclared(rejected + [symbol])
  {
    RedeclaredAppend(rejected, [symbol]);
    assert Redeclared([symbol]) == [Error(symbol.position, 101)];
  }

  /** `entries` extends `before` by one entry per symbol of `symbols`, of the
      given class, type and constant value. */
  ghost predicate Extends(entries: seq<Identifier>, before: seq<Identifier>, symbols: seq<Symbol>,
                          cls: IdentifierClass, typ: Type?, value: ValueRule)
  {
    |entries| == |before| + |symbols| && entries[..|before|] == before &&
    forall k | 0 <= k < |symbols| ::
      entries[|before| + k].symbol == symbols[k] && entries[|before| + k].cls == cls &&
      entries[|before| + k].typ == typ && entries[|before| + k].constValue == ValueFor(value, symbols[k])
  }

  /** The constant value a declaration gives its entries: none, or (for an
      enumeration member) the member itself. */
  datatype ValueRule = NoValue | OwnMember

  function ValueFor(rule: ValueRule, s: Symbol): ConstValue {
    if rule == NoValue then EmptyConst else EnumValue(s)
  }

  function EnumValue(s: Symbol): ConstValue {
    ConstValue(None, None, s)
  }

  lemma ExtendsAppend(entries: seq<Identifier>, before: seq<Identifier>, symbols: seq<Symbol>,
                      cls: IdentifierClass, typ: Type?, value: ValueRule, identifier: Identifier)
    requires Extends(entries, before, symbols, cls, typ, value)
    requires identifier.cls == cls && identifier.typ == typ && identifier.constValue == ValueFor(value, identifier.symbol)
    ensures Extends(entries + [identifier], before, symbols + [identifier.symbol], cls, typ, value)
  {
    var e := entries + [identifier];
    var s := symbols + [identifier.symbol];
    assert e[..|before|] == entries[..|before|];
    forall k | 0 <= k < |s|
      ensures e[|before| + k].symbol == s[k] && e[|before| + k].cls == cls &&
        e[|before| + k].typ == typ && e[|before| + k].constValue == ValueFor(value, s[k])
    {
      if k < |symbols| {
        assert e[|before| + k] == entries[|before| + k] && s[k] == symbols[k];
      } else {
        assert e[|before| + k] == identifier && s[k] == identifier.symbol;
      }
    }
  }

  lemma ExtendsNothing(before: seq<Identifier>, cls: IdentifierClass, typ: Type?, value: ValueRule)
    ensures Extends(before, before, [], cls, typ, value)
  {
    assert before[..|before|] == before;
  }

  /** An entry `name` of class `cls` and type `typ`. */
  ghost predicate Binds(identifier: Identifier, name: string, cls: IdentifierClass, typ: Type?) {
    identifier.symbol.name == name && identifier.cls == cls && identifier.typ == typ
  }

  /** The entries InitFictiousScope makes, in its order. */
  ghost predicate Predefined(entries: seq<Identifier>, b: Builtins) {
    |entries| == 6 &&
    Binds(entries[0], "boolean", Types, b.booleanType) &&
    Binds(entries[1], "false", Consts, b.booleanType) &&
    Binds(entries[2], "true", Consts, b.booleanType) &&
    Binds(entries[3], "integer", Types, b.integerType) &&
    Binds(entries[4], "real", Types, b.realType) &&
    Binds(entries[5], "char", Types, b.charType)
  }

  /** One predefined name: a new Symbol (position zero) registered in the
      symbol table unless the spelling is there, and a new identifier of it
      entered into the scope's table, which always takes it since no entry
      can hold a new Symbol. */
  method Predefine(scope: Scope, table: SymbolTable, name: string, cls: IdentifierClass, t: Type?)
    returns (identifier: Identifier)
    requires scope.identifiers.Valid() && table.Valid()
    modifies scope.identifiers, table
    ensures scope.identifiers.Valid() && table.Valid()
    ensures scope.identifiers.entries == old(scope.identifiers.entries) + [identifier]
    ensures Binds(identifier, name, cls, t)
    ensures old(name in table.symbols) ==> table.symbols == old(table.symbols)
    ensures old(name !in table.symbols) ==> table.symbols == old(table.symbols)[name := identifier.symbol]
  {
    var symbol := new Symbol.Named(name);
    var registered := table.AddSymbol(symbol);
    identifier := new Identifier(symbol, cls, t, EmptyConst);
    assert symbol !in SymbolsOf(scope.identifiers.entries);
    HasNameOf(scope.identifiers, name, symbol);
    var added := scope.identifiers.Add(identifier);
  }

  /** Three appends in a row append three entries. */
  lemma AppendedThree(e0: seq<Identifier>, e1: seq<Identifier>, e2: seq<Identifier>, e3: seq<Identifier>,
                      a: Identifier, b: Identifier, c: Identifier)
    requires e1 == e0 + [a] && e2 == e1 + [b] && e3 == e2 + [c]
    ensures |e3| == |e0| + 3 && e3[..|e0|] == e0
    ensures e3[|e3| - 3] == a && e3[|e3| - 2] == b && e3[|e3| - 1] == c
  {
    assert e3 == e0 + [a, b, c];
  }

  /** The boolean part of InitFictiousScope: a new enumeration type entered
      into the scope's type table, the type name `boolean` and its two
      constants `false` and `true`, which are also its members in order. */
  method PredefineBoolean(scope: Scope, table: SymbolTable) returns (boolType: Type)
    requires scope.identifiers.Valid() && scope.identifiers.entries == [] && scope.types.entries == []
    requires table.Valid() && table.symbols == map[]
    modifies scope.identifiers, scope.types, table
    ensures fresh(boolType) && boolType.code == Enums
    ensures scope.types.entries == [boolType]
    ensures Names(boolType.symbols) == ["false", "true"]
    ensures scope.identifiers.Valid() && table.Valid()
    ensures var entries := scope.identifiers.entries;
      |entries| == 3 &&
      Binds(entries[0], "boolean", Types, boolType) &&
      Binds(entries[1], "false", Consts, boolType) &&
      Binds(entries[2], "true", Consts, boolType) &&
      boolType.symbols == [entries[1].symbol, entries[2].symbol] &&
      table.symbols == map["boolean" := entries[0].symbol, "false" := entries[1].symbol, "true" := entries[2].symbol]
  {
    boolType := new Type(Enums);
    scope.types.Add(boolType);
    ghost var e0 := scope.identifiers.entries;
    var booleanName := Predefine(scope, table, "boolean", Types, boolType);
    ghost var e1 := scope.identifiers.entries;
    var falseName := Predefine(scope, table, "false", Consts, boolType);
    ghost var e2 := scope.identifiers.entries;
    var trueName := Predefine(scope, table, "true", Consts, boolType);
    ghost var e3 := scope.identifiers.entries;
    AppendedThree(e0, e1, e2, e3, booleanName, falseName, trueName);
    boolType.symbols := [falseName.symbol, trueName.symbol];
  }

  /** One scalar part of InitFictiousScope: a new scalar type entered into the
      scope's type table and a type name for it. */
  method PredefineScalar(scope: Scope, table: SymbolTable, name: string) returns (scalar: Type)
    requires scope.identifiers.Valid() && table.Valid() && name !in table.symbols
    modifies scope.identifiers, scope.types, table
    ensures fresh(scalar) && scalar.code == Scalars
    ensures scope.types.entries == old(scope.types.entries) + [scalar]
    ensures scope.identifiers.Valid() && table.Valid()
    ensures |scope.identifiers.entries| == |old(scope.identifiers.entries)| + 1
    ensures scope.identifiers.entries[..|old(scope.identifiers.entries)|] == old(scope.identifiers.entries)
    ensures Binds(scope.identifiers.entries[|old(scope.identifiers.entries)|], name, Types, scalar)
    ensures table.symbols == old(table.symbols)[name := scope.identifiers.entries[|old(scope.identifiers.entries)|].symbol]
  {
    scalar := new Type(Scalars);
    scope.types.Add(scalar);
    ghost var before := scope.identifiers.entries;
    var typeName := Predefine(scope, table, name, Types, scalar);
    assert scope.identifiers.entries[..|before|] == before;
  }

  /** The three scalar parts of InitFictiousScope, in order: integer, real
      and char. */
  method PredefineScalars(scope: Scope, table: SymbolTable) returns (intType: Type, realType: Type, charType: Type)
    requires scope.identifiers.Valid() && |scope.identifiers.entries| == 3 && table.Valid()
    requires "integer" !in table.symbols && "real" !in table.symbols && "char" !in table.symbols
    modifies scope.identifiers, scope.types, table
    ensures fresh(intType) && fresh(realType) && fresh(charType)
    ensures intType != realType && intType != charType && realType != charType
    ensures intType.code == Scalars && realType.code == Scalars && charType.code == Scalars
    ensures scope.types.entries == old(scope.types.entries) + [intType, realType, charType]
    ensures scope.identifiers.Valid() && table.Valid()
    ensures var e := scope.identifiers.entries;
      |e| == 6 && e[..3] == old(scope.identifiers.entries) &&
      Binds(e[3], "integer", Types, intType) && Binds(e[4], "real", Types, realType) &&
      Binds(e[5], "char", Types, charType) &&
      table.symbols == old(table.symbols)["integer" := e[3].symbol]["real" := e[4].symbol]["char" := e[5].symbol]
  {
    ghost var e0 := scope.identifiers.entries;
    intType := PredefineScalar(scope, table, "integer");
    ghost var e1 := scope.identifiers.entries;
    assert "real" != "integer" && "char" != "integer";
    realType := PredefineScalar(scope, table, "real");
    ghost var e2 := scope.identifiers.entries;
    assert "char"[0] != "real"[0];
    charType := PredefineScalar(scope, table, "char");
    ghost var e3 := scope.identifiers.entries;
    assert e3[..3] == e0 by {
      assert e3[..3] == e2[..4][..3] && e2[..4][..3] == e1[..3];
    }
    assert e3[3] == e2[3] == e1[3];
    assert e3[4] == e2[4];
  }

  /** The entries and the symbol table after the boolean part and the
      scalar parts of InitFictiousScope add up to the six predefined names,
      in order. */
  lemma PredefinedInOrder(e3: seq<Identifier>, e6: seq<Identifier>, m3: map<string, Symbol>, m6: map<string, Symbol?>,
                          b: Builtins)
    requires |e3| == 3 && Binds(e3[0], "boolean", Types, b.booleanType) &&
      Binds(e3[1], "false", Consts, b.booleanType) && Binds(e3[2], "true", Consts, b.booleanType)
    requires m3 == map["boolean" := e3[0].symbol, "false" := e3[1].symbol, "true" := e3[2].symbol]
    requires |e6| == 6 && e6[..3] == e3
    requires Binds(e6[3], "integer", Types, b.integerType) && Binds(e6[4], "real", Types, b.realType) &&
      Binds(e6[5], "char", Types, b.charType)
    requires m6 == m3["integer" := e6[3].symbol]["real" := e6[4].symbol]["char" := e6[5].symbol]
    ensures Predefined(e6, b)
    ensures m6 == map["boolean" := e6[0].symbol, "false" := e6[1].symbol, "true" := e6[2].symbol,
                      "integer" := e6[3].symbol, "real" := e6[4].symbol, "char" := e6[5].symbol]
  {
    assert e6[0] == e3[0] && e6[1] == e3[1] && e6[2] == e3[2];
  }

  /** InitFictiousScope: the built-in types and constants, in the outermost
      scope. */
  method InitFictiousScope(scope: Scope, table: SymbolTable) returns (b: Builtins)
    requires scope.identifiers.Valid() && scope.identifiers.entries == [] && scope.types.entries == []
    requires table.Valid() && table.symbols == map[]
    modifies scope.identifiers, scope.types, table
    ensures b.Valid()
    ensures fresh(b.booleanType) && fresh(b.integerType) && fresh(b.realType) && fresh(b.charType)
    ensures scope.types.entries == [b.booleanType, b.integerType, b.realType, b.charType]
    ensures Names(b.booleanType.symbols) == ["false", "true"]
    ensures scope.identifiers.Valid() && Predefined(scope.identifiers.entries, b)
    ensures b.booleanType.symbols == [scope.identifiers.entries[1].symbol, scope.identifiers.entries[2].symbol]
    ensures var e := scope.identifiers.entries;
      table.Valid() &&
      table.symbols == map["boolean" := e[0].symbol, "false" := e[1].symbol, "true" := e[2].symbol,
                           "integer" := e[3].symbol, "real" := e[4].symbol, "char" := e[5].symbol]
  {
    var boolType := PredefineBoolean(scope, table);
    ghost var e3 := scope.identifiers.entries;
    ghost var m3: map<string, Symbol> := table.symbols;
    var intType, realType, charType := PredefineScalars(scope, table);
    b := Builtins(boolType, intType, realType, charType);
    PredefinedInOrder(e3, scope.identifiers.entries, m3, table.symbols, b);
  }

  /** In an outermost scope made by InitFictiousScope each predefined name
      resolves to its own entry. */
  lemma PredefinedResolve(scope: Scope, b: Builtins, k: nat)
    requires scope.enclosing == null && k < 6
    requires Predefined(scope.identifiers.entries, b)
    ensures Chained(scope)
    ensures Lookup(scope, scope.identifiers.entries[k].symbol.name) == scope.identifiers.entries[k]
  {
    var e := scope.identifiers.entries;
    assert forall i, j | 0 <= i < j < 6 :: e[i].symbol.name != e[j].symbol.name;
    SearchUnique(scope.identifiers, k);
    LookupLocal(scope, e[k].symbol.name);
  }

  /** Appending the next element of `s` extends a prefix of it by one. */
  lemma SliceStep<T>(prefix: seq<T>, s: seq<T>, i: nat)
    requires i < |s|
    ensures prefix + s[..i] + [s[i]] == prefix + s[..i + 1]
  {
    assert s[..i + 1] == s[..i] + [s[i]];
  }

  /** One step of VarDeclaration's insertion loop: the entry table and the
      split so far after the variable at `i` is offered to ExperimentalAdd. */
  lemma VariableStep(before: seq<Identifier>, variables: seq<Symbol>, i: nat, varType: Type?, errors: seq<Error>,
                     whole: Partition, accepted: seq<Symbol>, rejected: seq<Symbol>, entries: seq<Identifier>,
                     identifier: Identifier, ok: bool, entries': seq<Identifier>)
    requires i < |variables|
    requires Extends(entries, before, accepted, Vars, varType, NoValue)
    requires accepted + Declare(KeysOf(SameName, entries), variables[i..], SameName).accepted == whole.accepted
    requires rejected + Declare(KeysOf(SameName, entries), variables[i..], SameName).rejected == whole.rejected
    requires identifier.symbol == variables[i] && identifier.cls == Vars && identifier.typ == varType
    requires identifier.constValue == EmptyConst
    requires ok == (KeyOf(SameName, variables[i]) !in KeysOf(SameName, entries))
    requires entries' == if ok then entries + [identifier] else entries
    ensures var accepted' := if ok then accepted + [variables[i]] else accepted;
      var rejected' := if ok then rejected else rejected + [variables[i]];
      Extends(entries', before, accepted', Vars, varType, NoValue) &&
      accepted' + Declare(KeysOf(SameName, entries'), variables[i + 1..], SameName).accepted == whole.accepted &&
      rejected' + Declare(KeysOf(SameName, entries'), variables[i + 1..], SameName).rejected == whole.rejected &&
      errors + Redeclared(rejected') ==
        if ok then errors + Redeclared(rejected) else errors + Redeclared(rejected) + [Error(variables[i].position, 101)]
  {
    DeclareSplit(KeysOf(SameName, entries), variables[i..], SameName, accepted, rejected, whole);
    assert variables[i..][1..] == variables[i + 1..];
    if ok {
      KeysOfAppend(SameName, entries, identifier);
      ExtendsAppend(entries, before, accepted, Vars, varType, NoValue, identifier);
    } else {
      RedeclaredOne(errors, rejected, variables[i]);
    }
  }

  /** One step of EnumerationType's insertion loop: the entry table and the
      split so far after the member at `i` is offered to Add. */
  lemma MemberStep(before: seq<Identifier>, members: seq<Symbol>, i: nat, t: Type,
                   whole: Partition, accepted: seq<Symbol>, rejected: seq<Symbol>, entries: seq<Identifier>,
                   identifier: Identifier, ok: bool, entries': seq<Identifier>)
    requires i < |members|
    requires Extends(entries, before, accepted, Consts, t, OwnMember)
    requires accepted + Declare(KeysOf(SameSymbol, entries), members[i..], SameSymbol).accepted == whole.accepted
    requires rejected + Declare(KeysOf(SameSymbol, entries), members[i..], SameSymbol).rejected == whole.rejected
    requires identifier.symbol == members[i] && identifier.cls == Consts && identifier.typ == t
    requires identifier.constValue == EnumValue(members[i])
    requires ok == (KeyOf(SameSymbol, members[i]) !in KeysOf(SameSymbol, entries))
    requires entries' == if ok then entries + [identifier] else entries
    ensures var accepted' := if ok then accepted + [members[i]] else accepted;
      var rejected' := if ok then rejected else rejected + [members[i]];
      Extends(entries', before, accepted', Consts, t, OwnMember) &&
      accepted' + Declare(KeysOf(SameSymbol, entries'), members[i + 1..], SameSymbol).accepted == whole.accepted &&
      rejected' + Declare(KeysOf(SameSymbol, entries'), members[i + 1..], SameSymbol).rejected == whole.rejected
  {
    DeclareSplit(KeysOf(SameSymbol, entries), members[i..], SameSymbol, accepted, rejected, whole);
    assert members[i..][1..] == members[i + 1..];
    if ok {
      KeysOfAppend(SameSymbol, entries, identifier);
      ExtendsAppend(entries, before, accepted, Consts, t, OwnMember, identifier);
    }
  }

  /** The insertion loop of VarDeclaration over the current scope's table:
      each variable, in turn, becomes an entry of that type unless its
      spelling is there already, in which case 101 is reported at it. */
  method InsertVariables(table: IdentifierTable, variables: seq<Symbol>, varType: Type?, errors: seq<Error>)
    returns (reported: seq<Error>)
    requires table.Valid()
    modifies table
    ensures table.Valid()
    ensures var p := Declare(KeysOf(SameName, old(table.entries)), variables, SameName);
      Extends(table.entries, old(table.entries), p.accepted, Vars, varType, NoValue) &&
      reported == errors + Redeclared(p.rejected)
  {
    ghost var before := table.entries;
    ghost var whole := Declare(KeysOf(SameName, before), variables, SameName);
    ghost var accepted: seq<Symbol> := [];
    ghost var rejected: seq<Symbol> := [];
    ExtendsNothing(before, Vars, varType, NoValue);
    reported := errors;
    var i := 0;
    while i < |variables|
      invariant 0 <= i <= |variables|
      invariant table.Valid()
      invariant Extends(table.entries, before, accepted, Vars, varType, NoValue)
      invariant reported == errors + Redeclared(rejected)
      invariant accepted + Declare(KeysOf(SameName, table.entries), variables[i..], SameName).accepted == whole.accepted
      invariant rejected + Declare(KeysOf(SameName, table.entries), variables[i..], SameName).rejected == whole.rejected
    {
      var variable := variables[i];
      ghost var entries := table.entries;
      var identifier := new Identifier(variable, Vars, varType, EmptyConst);
      KeysOfHeld(table, variable);
      var ok := table.ExperimentalAdd(identifier);
      VariableStep(before, variables, i, varType, errors, whole, accepted, rejected, entries, identifier, ok, table.entries);
      if !ok {
        reported := reported + [Error(variable.position, 101)];
        rejected := rejected + [variable];
      } else {
        accepted := accepted + [variable];
      }
      i := i + 1;
    }
    assert variables[i..] == [];
    assert accepted == whole.accepted && rejected == whole.rejected;
  }

  /** One member of an enumeration: a constant of the enumeration whose
      value is the member, added unless the table holds that very Symbol;
      the member joins the enumeration's member list either way. */
  method InsertMember(table: IdentifierTable, member: Symbol, t: Type) returns (ok: bool, identifier: Identifier)
    requires table.Valid()
    modifies table, t
    ensures table.Valid()
    ensures identifier.symbol == member && identifier.cls == Consts && identifier.typ == t
    ensures identifier.constValue == EnumValue(member)
    ensures ok == !old(table.HasSymbol(member))
    ensures table.entries == if ok then old(table.entries) + [identifier] else old(table.entries)
    ensures t.symbols == old(t.symbols) + [member]
    ensures t.min == old(t.min) && t.max == old(t.max) && t.baseType == old(t.baseType) && t.indexes == old(t.indexes)
  {
    identifier := new Identifier(member, Consts, t, ConstValue(None, None, member));
    HasNameOf(table, member.name, member);
    ok := table.Add(identifier);
    t.symbols := t.symbols + [member];
  }

  /** The insertion loop of EnumerationType over the current scope's table:
      each member, in turn, becomes a constant of the enumeration whose value
      is the member itself, unless the table holds that very Symbol object
      already; a refusal is not reported. The members are also appended to
      the enumeration's member list, all of them. */
  method InsertMembers(table: IdentifierTable, members: seq<Symbol>, t: Type)
    requires table.Valid()
    modifies table, t
    ensures table.Valid()
    ensures t.symbols == old(t.symbols) + members
    ensures t.min == old(t.min) && t.max == old(t.max) && t.baseType == old(t.baseType) && t.indexes == old(t.indexes)
    ensures var p := Declare(KeysOf(SameSymbol, old(table.entries)), members, SameSymbol);
      Extends(table.entries, old(table.entries), p.accepted, Consts, t, OwnMember)
  {
    ghost var before := table.entries;
    ghost var whole := Declare(KeysOf(SameSymbol, before), members, SameSymbol);
    ghost var accepted: seq<Symbol> := [];
    ghost var rejected: seq<Symbol> := [];
    ExtendsNothing(before, Consts, t, OwnMember);
    var i := 0;
    while i < |members|
      invariant 0 <= i <= |members|
      invariant table.Valid()
      invariant t.symbols == old(t.symbols) + members[..i]
      invariant t.min == old(t.min) && t.max == old(t.max) && t.baseType == old(t.baseType) && t.indexes == old(t.indexes)
      invariant Extends(table.entries, before, accepted, Consts, t, OwnMember)
      invariant accepted + Declare(KeysOf(SameSymbol, table.entries), members[i..], SameSymbol).accepted == whole.accepted
      invariant rejected + Declare(KeysOf(SameSymbol, table.entries), members[i..], SameSymbol).rejected == whole.rejected
    {
      var member := members[i];
      ghost var entries := table.entries;
      SliceStep(old(t.symbols), members, i);
      KeysOfHeld(table, member);
      var ok, identifier := InsertMember(table, member, t);
      MemberStep(before, members, i, t, whole, accepted, rejected, entries, identifier, ok, table.entries);
      if ok {
        accepted := accepted + [member];
      } else {
        rejected := rejected + [member];
      }
      i := i + 1;
    }
    assert members[i..] == [] && members[..i] == members;
    assert accepted == whole.accepted;
  }

  class Analyzer {
    const tokens: seq<Token>
    const identCode: int
    const builtins: Builtins
    const symbolTable: SymbolTable
    var cursor: nat
    var localScope: Scope
    var errors: seq<Error>

    ghost predicate Valid()
      reads this, symbolTable, Tables(localScope)
    {
      StreamOk(tokens, identCode) && cursor < |tokens| && builtins.Valid() && symbolTable.Valid() &&
      Chained(localScope) && forall t | t in Tables(localScope) :: t.Valid()
    }

    function Current(): Token
      requires cursor < |tokens|
      reads this
    {
      tokens[cursor]
    }

    /** The Context constructor followed by InitFictiousScope: an outermost
        scope holding the types boolean (an enumeration of false and true),
        integer, real and char and the two boolean constants, each symbol also
        registered in the symbol table; no diagnostics yet, and the first
        token current. */
    constructor (tokens: seq<Token>, identCode: int)
      requires StreamOk(tokens, identCode)
      ensures Valid()
      ensures this.tokens == tokens && this.identCode == identCode && cursor == 0 && errors == []
      ensures localScope.enclosing == null
      ensures localScope.types.entries ==
        [builtins.booleanType, builtins.integerType, builtins.realType, builtins.charType]
      ensures Names(builtins.booleanType.symbols) == ["false", "true"]
      ensures var e := localScope.identifiers.entries;
        |e| == 6 &&
        symbolTable.symbols == map["boolean" := e[0].symbol, "false" := e[1].symbol, "true" := e[2].symbol,
                                   "integer" := e[3].symbol, "real" := e[4].symbol, "char" := e[5].symbol]
      ensures Predefined(localScope.identifiers.entries, builtins)
      ensures builtins.booleanType.symbols ==
        [localScope.identifiers.entries[1].symbol, localScope.identifiers.entries[2].symbol]
    {
      var table := new SymbolTable();
      var scope := new Scope(null);
      var b := InitFictiousScope(scope, table);
      this.tokens := tokens;
      this.identCode := identCode;
      builtins := b;
      symbolTable := table;
      localScope := scope;
      cursor := 0;
      errors := [];
      assert Tables(scope) == {scope.identifiers} by {
        assert Chain(scope) == [scope];
      }
    }

    /** NextSymbol: the cursor moves to the next token. */
    method NextSymbol()
      requires Valid()
      modifies this`cursor
      ensures Valid()
      ensures cursor == Advance(tokens, old(cursor))
    {
      cursor := Advance(tokens, cursor);
    }

    /** Accept: when the current token has the expected code, move past it and
        report nothing; otherwise stay and report the expected code as the
        error code, at the current token. */
    method Accept(code: int)
      requires Valid()
      modifies this`cursor, this`errors
      ensures Valid()
      ensures old(Current().code) == code ==> cursor == Advance(tokens, old(cursor)) && errors == old(errors)
      ensures old(Current().code) != code ==>
        cursor == old(cursor) && errors == old(errors) + [Error(old(Current().position), code)]
    {
      if Current().code == code {
        NextSymbol();
      } else {
        errors := errors + [Error(Current().position, code)];
      }
    }

    /** SymbolBelong: whether the current token's code is in the set. */
    function SymbolBelong(starters: set<int>): (belongs: bool)
      requires cursor < |tokens|
      reads this
      ensures belongs <==> tokens[cursor].code in starters
    {
      Current().code in starters
    }

    /** SkipTo: move to the first token from here whose code is in `stops`.
        The loop has no other exit, so such a token must lie ahead. */
    method SkipTo(stops: set<int>)
      requires Valid()
      requires exists k | cursor <= k < |tokens| :: tokens[k].code in stops
      modifies this`cursor
      ensures Valid()
      ensures cursor == SkipToTarget(tokens, old(cursor), stops)
    {
      ghost var target := SkipToTarget(tokens, cursor, stops);
      while !SymbolBelong(stops)
        invariant Valid()
        invariant old(cursor) <= cursor <= target
        decreases target - cursor
      {
        NextSymbol();
      }
    }

    /** SkipTo2: move to the first token from here that is at the end of the
        input or whose code is in one of the two sets. */
    method SkipTo2(starters: set<int>, followers: set<int>)
      requires Valid()
      modifies this`cursor
      ensures Valid()
      ensures cursor == SkipTo2Target(tokens, old(cursor), starters + followers)
      ensures Current().atEnd || Current().code in starters || Current().code in followers
    {
      ghost var target := SkipTo2Target(tokens, cursor, starters + followers);
      while !Current().atEnd && !SymbolBelong(starters) && !SymbolBelong(followers)
        invariant Valid()
        invariant old(cursor) <= cursor <= target
        decreases target - cursor
      {
        NextSymbol();
      }
    }

    /** The opening of every analysis procedure: when the current token cannot
        start the construct, report `errorCode` there and skip to a starter
        or a follower; then say whether the construct can be analysed. */
    method Enter(errorCode: int, starters: set<int>, followers: set<int>) returns (inside: bool)
      requires Valid()
      modifies this`cursor, this`errors
      ensures Valid()
      ensures errors == old(errors) +
        if old(Current().code) in starters then [] else [Error(old(Current().position), errorCode)]
      ensures cursor == Resync(tokens, old(cursor), starters, followers)
      ensures inside <==> Current().code in starters
    {
      if !SymbolBelong(starters) {
        errors := errors + [Error(Current().position, errorCode)];
        SkipTo2(starters, followers);
      }
      inside := SymbolBelong(starters);
    }

    /** The closing of every analysis procedure: when the current token cannot
        follow the construct, report 6 there and skip to a follower. */
    method CheckFollowers(followers: set<int>)
      requires Valid()
      requires exists k | cursor <= k < |tokens| :: tokens[k].code in followers
      modifies this`cursor, this`errors
      ensures Valid()
      ensures errors == old(errors) +
        if old(Current().code) in followers then [] else [Error(old(Current().position), 6)]
      ensures cursor == SkipToTarget(tokens, old(cursor), followers)
    {
      if !SymbolBelong(followers) {
        errors := errors + [Error(Current().position, 6)];
        SkipTo(followers);
      }
    }

    /** OpenScope: a new innermost scope with empty tables, enclosed by the
        previous one; nothing visible before is hidden. */
    method OpenScope()
      requires Valid()
      modifies this`localScope
      ensures Valid()
      ensures fresh(localScope) && fresh(localScope.identifiers) && fresh(localScope.types)
      ensures localScope.enclosing == old(localScope)
      ensures localScope.identifiers.entries == [] && localScope.types.entries == []
      ensures Tables(localScope) == {localScope.identifiers} + Tables(old(localScope))
      ensures forall name :: Lookup(localScope, name) == Lookup(old(localScope), name)
    {
      TablesAllocated(localScope);
      var scope := new Scope(localScope);
      TablesOfEnclosing(scope);
      localScope := scope;
    }

    /** CloseScope: the enclosing scope becomes current again, so that
        CloseScope after OpenScope restores the scope there was before. The
        outermost scope has no enclosing one, and the source would go on with
        a null scope. */
    method CloseScope()
      requires Valid() && localScope.enclosing != null
      modifies this`localScope
      ensures Valid()
      ensures localScope == old(localScope).enclosing
      ensures Tables(old(localScope)) == {old(localScope).identifiers} + Tables(localScope)
    {
      TablesOfEnclosing(localScope);
      localScope := localScope.enclosing;
    }

    /** The lookup of Variable: only the current scope's table is searched,
        for the current spelling; an absent name reports 104 at the current
        token and has no type. The identifier is then accepted. Index
        brackets are not part of this method (see CheckIndexes). */
    method Variable() returns (t: Type?)
      requires Valid() && Current().code == identCode
      modifies this`cursor, this`errors
      ensures Valid()
      ensures var found := localScope.identifiers.Search(old(Current().name));
        t == (if found == null then null else found.typ) &&
        errors == old(errors) + if found == null then [Error(old(Current().position), 104)] else []
      ensures cursor == Advance(tokens, old(cursor))
    {
      assert localScope.identifiers in Tables(localScope) by {
        assert Chain(localScope)[0] == localScope;
      }
      var identifier := localScope.identifiers.Search(Current().name);
      t := null;
      if identifier == null {
        errors := errors + [Error(Current().position, 104)];
      } else {
        t := identifier.typ;
      }
      Accept(identCode);
    }

    /** The current scope's table is one of the chain's. */
    lemma LocalTableInChain()
      requires Chained(localScope)
      ensures localScope.identifiers in Tables(localScope)
    {
      assert Chain(localScope)[0] == localScope;
    }

    /** The undeclared-identifier branch of Factor: the name, found in no
        scope, is entered into the current scope as a variable of no type,
        104 is reported at it and it is accepted; from then on the name
        resolves to the new entry. */
    method EnterUndeclared() returns (entry: Identifier)
      requires Valid() && Current().code == identCode && Lookup(localScope, Current().name) == null
      modifies this`cursor, this`errors, localScope.identifiers
      ensures Valid() && localScope == old(localScope)
      ensures cursor == Advance(tokens, old(cursor))
      ensures errors == old(errors) + [Error(old(Current().position), 104)]
      ensures localScope.identifiers.entries == old(localScope.identifiers.entries) + [entry]
      ensures entry.symbol == old(Current().symbol) && entry.cls == Vars && entry.typ == null
      ensures Lookup(localScope, old(Current().name)) == entry
    {
      LocalTableInChain();
      TablesAllocated(localScope);
      var table := localScope.identifiers;
      var token := Current();
      assert table.Search(token.name) == null;
      ghost var before := table.entries;
      entry := new Identifier(token.symbol, Vars, null, EmptyConst);
      assert !table.HasName(entry.symbol.name);
      var added := table.ExperimentalAdd(entry);
      assert added && table.entries == before + [entry];
      SearchAppended(table, before, entry);
      assert table.Search(token.name) == entry;
      LookupLocal(localScope, token.name);
      errors := errors + [Error(token.position, 104)];
      Accept(identCode);
    }

    /** The identifier case of Factor. The name is looked up along the whole
        scope chain. A variable is then analysed by Variable, which consults
        only the current scope; a constant gives its type and is accepted; a
        type name gives no type and is not consumed. An undeclared name is
        handled by EnterUndeclared and gives no type. */
    method FactorIdentifier() returns (t: Type?)
      requires Valid() && Current().code == identCode
      modifies this`cursor, this`errors, localScope.identifiers
      ensures Valid() && localScope == old(localScope)
      ensures var found := old(Lookup(localScope, Current().name));
        var local := localScope.identifiers.Search(old(Current().name));
        (found != null ==> localScope.identifiers.entries == old(localScope.identifiers.entries)) &&
        (found != null && found.cls == Consts ==>
           t == found.typ && errors == old(errors) && cursor == Advance(tokens, old(cursor))) &&
        (found != null && found.cls == Types ==>
           t == null && errors == old(errors) && cursor == old(cursor)) &&
        (found != null && found.cls == Vars ==>
           t == (if local == null then null else local.typ) && cursor == Advance(tokens, old(cursor)) &&
           errors == old(errors) + if local == null then [Error(old(Current().position), 104)] else [])
      ensures old(Lookup(localScope, Current().name)) == null ==>
        t == null && cursor == Advance(tokens, old(cursor)) &&
        errors == old(errors) + [Error(old(Current().position), 104)] &&
        var entry := Lookup(localScope, old(Current().name));
        entry != null && localScope.identifiers.entries == old(localScope.identifiers.entries) + [entry] &&
        entry.symbol == old(Current().symbol) && entry.cls == Vars && entry.typ == null
    {
      var identifier := Lookup(localScope, Current().name);
      t := null;
      if identifier != null {
        match identifier.cls {
          case Vars =>
            t := Variable();
          case Consts =>
            t := identifier.typ;
            Accept(identCode);
          case Types =>
        }
      } else {
        var entry := EnterUndeclared();
      }
    }

    /** The insertion of ConstDeclaration: the constant, of the type of its
        value and with an empty constant value, enters the current scope
        unless its spelling is there already; then 101 is reported at the
        constant's symbol and the first binding stays. */
    method DeclareConst(symbol: Symbol, constType: Type?)
      requires Valid()
      modifies this`errors, localScope.identifiers
      ensures Valid()
      ensures old(localScope.identifiers.HasName(symbol.name)) ==>
        localScope.identifiers.entries == old(localScope.identifiers.entries) &&
        errors == old(errors) + [Error(symbol.position, 101)]
      ensures !old(localScope.identifiers.HasName(symbol.name)) ==>
        Extends(localScope.identifiers.entries, old(localScope.identifiers.entries), [symbol], Consts, constType, NoValue) &&
        errors == old(errors)
    {
      LocalTableInChain();
      TablesAllocated(localScope);
      var table := localScope.identifiers;
      var identifier := new Identifier(symbol, Consts, constType, EmptyConst);
      ExtendsNothing(table.entries, Consts, constType, NoValue);
      var ok := table.ExperimentalAdd(identifier);
      ExtendsAppend(old(table.entries), old(table.entries), [], Consts, constType, NoValue, identifier);
      if !ok {
        errors := errors + [Error(symbol.position, 101)];
      }
    }

    /** The insertion of TypeDeclaration: the type name enters the current
        scope by Add(Identifier), which refuses only the very same Symbol
        object; a refusal is not reported. */
    method DeclareType(symbol: Symbol, declared: Type?)
      requires Valid()
      modifies localScope.identifiers
      ensures Valid()
      ensures old(localScope.identifiers.HasSymbol(symbol)) ==>
        localScope.identifiers.entries == old(localScope.identifiers.entries)
      ensures !old(localScope.identifiers.HasSymbol(symbol)) ==>
        Extends(localScope.identifiers.entries, old(localScope.identifiers.entries), [symbol], Types, declared, NoValue)
    {
      LocalTableInChain();
      TablesAllocated(localScope);
      var table := localScope.identifiers;
      var identifier := new Identifier(symbol, Types, declared, EmptyConst);
      ExtendsNothing(table.entries, Types, declared, NoValue);
      var ok := table.Add(identifier);
      ExtendsAppend(old(table.entries), old(table.entries), [], Types, declared, NoValue, identifier);
    }

    /** The insertions of VarDeclaration: every variable of the list gets the
        same type; each enters the current scope in turn unless its spelling
        is there already (from before or from earlier in the list), in which
        case 101 is reported at its symbol. */
    method VarDeclaration(variables: seq<Symbol>, varType: Type?)
      requires Valid()
      modifies this`errors, localScope.identifiers
      ensures Valid()
      ensures var p := Declare(KeysOf(SameName, old(localScope.identifiers.entries)), variables, SameName);
        Extends(localScope.identifiers.entries, old(localScope.identifiers.entries), p.accepted, Vars, varType, NoValue) &&
        errors == old(errors) + Redeclared(p.rejected)
    {
      LocalTableInChain();
      TablesAllocated(localScope);
      errors := InsertVariables(localScope.identifiers, variables, varType, errors);
    }

    /** The semantic actions of EnumerationType: a new enumeration type,
        entered into the current scope's type table, whose member list is the
        list of members as written; each member whose very Symbol object the
        current scope does not hold yet enters it as a constant of that type
        whose value is the member itself. A refused member is not reported. */
    method EnumerationType(members: seq<Symbol>) returns (t: Type)
      requires Valid()
      modifies localScope.types, localScope.identifiers
      ensures Valid()
      ensures fresh(t) && t.code == Enums && t.symbols == members
      ensures t.min == None && t.max == None && t.baseType == null && t.indexes == []
      ensures localScope.types.entries == old(localScope.types.entries) + [t]
      ensures var p := Declare(KeysOf(SameSymbol, old(localScope.identifiers.entries)), members, SameSymbol);
        Extends(localScope.identifiers.entries, old(localScope.identifiers.entries), p.accepted, Consts, t, OwnMember)
    {
      LocalTableInChain();
      TablesAllocated(localScope);
      t := new Type(Enums);
      localScope.types.Add(t);
      InsertMembers(localScope.identifiers, members, t);
    }

    /** The semantic actions of LimitedType: a new subrange type, entered into
        the current scope's type table; the bound rule of LimitedCheck decides
        the diagnostics, reported at the current token, and whether Min, Max
        and BaseType are recorded. */
    method LimitedType(firstType: Type?, firstConst: ConstValue, secondType: Type?, secondConst: ConstValue)
      returns (t: Type)
      requires Valid()
      requires firstType != null
      requires firstType == builtins.integerType ==> firstConst.integer.Some? && secondConst.integer.Some?
      requires firstType == builtins.charType ==> firstConst.symbol.Some? && secondConst.symbol.Some?
      modifies this`errors, localScope.types
      ensures Valid()
      ensures fresh(t) && t.code == Limiteds && t.symbols == [] && t.indexes == []
      ensures localScope.types.entries == old(localScope.types.entries) + [t]
      ensures var r := LimitedCheck(builtins, firstType, firstConst, secondType, secondConst, old(Current().position));
        errors == old(errors) + r.errors &&
        (r.base.Some? ==> t.min == Some(firstConst) && t.max == Some(secondConst) && t.baseType == r.base.value) &&
        (r.base.None? ==> t.min == None && t.max == None && t.baseType == null)
    {
      TablesAllocated(localScope);
      t := new Type(Limiteds);
      localScope.types.Add(t);
      var r := LimitedCheck(builtins, firstType, firstConst, secondType, secondConst, Current().position);
      errors := errors + r.errors;
      if r.base.Some? {
        t.min, t.max, t.baseType := Some(firstConst), Some(secondConst), r.base.value;
      }
    }

    /** The semantic actions of ArrayType: a new array type with the index
        types and the element type as written. Unlike the other type
        constructors it is not entered into the type table. */
    method ArrayType(indexTypes: seq<Type?>, elementType: Type?) returns (t: Type)
      requires Valid()
      ensures fresh(t) && t.code == Arrays && t.indexes == indexTypes && t.baseType == elementType
      ensures t.symbols == [] && t.min == None && t.max == None
    {
      t := new Type(Arrays);
      t.indexes := indexTypes;
      t.baseType := elementType;
    }
  }
}
