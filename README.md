# A model of the PascalCompiler core

PascalCompiler is a one-pass compiler front end, written in C#, for a subset
of Pascal. This project models the part that sits above the lexer:

- the **syntactical analyzer's semantic actions**: the token cursor and its
  recovery loops (Accept, SymbolBelong, SkipTo, SkipTo2); the scope stack
  (OpenScope, CloseScope); the lookups along that stack (SearchIdentifier,
  SearchType); the insertions made by declarations (constants, type names,
  variables, enumeration members); the speculative insertion of an
  undeclared identifier in Factor; the creation of subrange and array types;
  and the typing rules of assignment, relations, signs and the additive,
  multiplicative and logical operators, together with the folds that
  SimpleExpression and Term make of them;
- the **structures** those actions work on: Symbol, ConstValue, the type
  objects, Identifier, the per-scope identifier and type tables, the scope
  record, and the symbol table that interns spellings;
- the **input/output module**: the line and character cursor over the source
  text (PeekNextChar, PeekNextNextChar, NextChar, ReadNextLine), and the
  listing, which echoes each line and annotates each diagnostic. The listing
  holds the lines written as `ListingLine` values (an echo, an error marker,
  an error description); `Render` gives the text of each.

Objects that the C# code compares by reference (Type, Symbol, Identifier,
Scope, the tables) are Dafny classes, so equality is identity here as well.
An unknown type is `null`, as it is in the source, and the `nil` type is
always `null`. A diagnostic is `Error(position, code)`. The analyzer methods
append diagnostics to `errors`. The pure rules return them along with a type,
in the order they would be reported.

The .NET `HashSet<Identifier>` of a scope is the sequence of its entries in
insertion order. A set that never has an element removed enumerates in that
order, so `FirstOrDefault` finds the earliest matching entry. `Identifier`
and `Symbol` override `GetHashCode` but not `Equals`, so the set holds
objects by reference. The model keeps that: `Add(Identifier)` refuses only
the very same Symbol object, and `ExperimentalAdd` refuses an equal spelling.

The lexer is not part of this model. The analyzer reads a given sequence of
tokens. Each token carries what the lexer leaves in the context: code,
spelling, position, interned Symbol, and whether the input was exhausted.

Modules, one per file:

- `Wrappers` (`wrappers.dfy`): Option.
- `Text` (`text.dfy`): the integer rendering and padding that the listing uses.
- `Structures` (`structures.dfy`): the records.
- `IdentifierTables`, `SymbolTables`, `TypeTables`: the three tables.
- `Scopes` (`scope.dfy`): the scope record and the outward lookups.
- `TypeRules` (`type_rules.dfy`): the pure typing rules and their folds.
- `SyntacticalAnalyzer` (`analyzer.dfy`): the analyzer state and its actions.
- `Io` (`io.dfy`): the I/O module.

## Model

| member | source | states |
|---|---|---|
| Structures.Symbol.constructor | PascalCompiler/PascalCompiler.Core/Structures/Symbol.cs:22-26 | the symbol carries the given spelling and position |
| Structures.Symbol.Named | PascalCompiler/PascalCompiler.Core/Structures/Symbol.cs:12-15 | the one-argument symbol has position zero |
| Structures.Type.constructor | PascalCompiler/PascalCompiler.Core/Structures/TypeTable.cs:33-50 | a new type of one of the four kinds has no members, bounds, base or indexes |
| Structures.Identifier.constructor | PascalCompiler/PascalCompiler.Core/Structures/Identifier.cs:16-19 | the identifier carries the given symbol, class, type and constant value |
| IdentifierTables.FirstMatch | PascalCompiler/PascalCompiler.Core/Structures/IdentifierTable.cs:88-91 | null exactly when no element matches; otherwise the earliest matching element |
| IdentifierTables.IdentifierTable.constructor | PascalCompiler/PascalCompiler.Core/Structures/IdentifierTable.cs:14-17 | a new table is empty |
| IdentifierTables.IdentifierTable.Insert | PascalCompiler/PascalCompiler.Core/Structures/IdentifierTable.cs:45 | HashSet.Add: appends exactly when the object is absent, says whether it did, and keeps the set free of repeated objects |
| IdentifierTables.IdentifierTable.AddNew | PascalCompiler/PascalCompiler.Core/Structures/IdentifierTable.cs:25-34 | a fresh identifier of that symbol and class is always added and returned, never null |
| IdentifierTables.IdentifierTable.ExperimentalAdd | PascalCompiler/PascalCompiler.Core/Structures/IdentifierTable.cs:41-46 | succeeds exactly when no entry has the same spelling; appends on success and changes nothing on refusal |
| IdentifierTables.IdentifierTable.Add | PascalCompiler/PascalCompiler.Core/Structures/IdentifierTable.cs:53-58 | succeeds exactly when no entry carries the very same Symbol object; appends on success and changes nothing on refusal |
| IdentifierTables.IdentifierTable.AddType | PascalCompiler/PascalCompiler.Core/Structures/IdentifierTable.cs:65-70 | the same by-spelling rule as ExperimentalAdd |
| IdentifierTables.IdentifierTable.SearchSymbol | PascalCompiler/PascalCompiler.Core/Structures/IdentifierTable.cs:78-81 | null exactly when no entry carries that Symbol; otherwise an entry that does |
| IdentifierTables.IdentifierTable.Search | PascalCompiler/PascalCompiler.Core/Structures/IdentifierTable.cs:88-91 | null exactly when no entry has that spelling; otherwise an entry of the table with it |
| IdentifierTables.NamesOf | PascalCompiler/PascalCompiler.Core/Structures/IdentifierTable.cs:43 | exactly the spellings of the entries |
| IdentifierTables.SymbolsOf | PascalCompiler/PascalCompiler.Core/Structures/IdentifierTable.cs:55 | exactly the Symbol objects of the entries |
| IdentifierTables.NamesOfAppend | PascalCompiler/PascalCompiler.Core/Structures/IdentifierTable.cs:41-58 | one more entry adds exactly its spelling and its Symbol |
| IdentifierTables.SearchAppended | PascalCompiler/PascalCompiler.Core/Structures/IdentifierTable.cs:41-46 | an identifier that ExperimentalAdd has appended is what Search of its spelling finds |
| IdentifierTables.SearchUnique | PascalCompiler/PascalCompiler.Core/Structures/IdentifierTable.cs:88-91 | when one entry alone has a spelling, Search of that spelling returns it |
| IdentifierTables.SearchFindsAdded | PascalCompiler/PascalCompiler.Core/Structures/IdentifierTable.cs:88-91 | Search of the spelling of any entry succeeds |
| SymbolTables.SymbolTable.constructor | PascalCompiler/PascalCompiler.Core/Structures/SymbolTable.cs:13-17 | a new symbol table has no symbols |
| SymbolTables.SymbolTable.Get | PascalCompiler/PascalCompiler.Core/Structures/SymbolTable.cs:24-27 | the symbol filed under a present spelling has that spelling |
| SymbolTables.SymbolTable.ExperimentalAdd | PascalCompiler/PascalCompiler.Core/Structures/SymbolTable.cs:35-40 | a fresh symbol is appended to the side list and the dictionary is unchanged |
| SymbolTables.SymbolTable.Add | PascalCompiler/PascalCompiler.Core/Structures/SymbolTable.cs:48-55 | interning: a spelling already present returns its symbol with its first position and nothing changes; otherwise a fresh symbol is registered under the spelling |
| SymbolTables.SymbolTable.AddSymbol | PascalCompiler/PascalCompiler.Core/Structures/SymbolTable.cs:62-68 | succeeds exactly when the spelling is absent; then registers this very object, otherwise changes nothing |
| SymbolTables.SymbolTable.AddTwice | PascalCompiler/PascalCompiler.Core/Structures/SymbolTable.cs:48-55 | interning is idempotent: two Adds of one spelling give the same object, which keeps the first position |
| TypeTables.TypeTable.constructor | PascalCompiler/PascalCompiler.Core/Structures/TypeTable.cs:14-17 | a new type table is empty |
| TypeTables.TypeTable.Add | PascalCompiler/PascalCompiler.Core/Structures/TypeTable.cs:23-26 | the type is appended |
| TypeTables.TypeTable.AddCode | PascalCompiler/PascalCompiler.Core/Structures/TypeTable.cs:33-50 | a fresh type of the given kind is appended and returned; a code outside the four kinds appends and returns null |
| Scopes.Scope.constructor | PascalCompiler/PascalCompiler.Core/Structures/Scope.cs:26-30 | a new scope has fresh, empty tables and the given enclosing scope |
| Scopes.Chain | PascalCompiler/PascalCompiler.Core/Structures/Scope.cs:21 | the chain of scopes starts at the scope itself |
| Scopes.TablesOfEnclosing | PascalCompiler/PascalCompiler.Core/Structures/Scope.cs:21 | the chain of a scope is the scope followed by the chain of its enclosing scope |
| Scopes.TablesAllocated | PascalCompiler/PascalCompiler.Core/Structures/Scope.cs:11-21 | every table of a chain already exists |
| Scopes.Lookup | PascalCompiler/PascalCompiler.Core/Modules/SyntacticalAnalyzerModule.cs:1255-1263 | null exactly when no scope of the chain has the spelling; otherwise the entry of the innermost scope that has it |
| Scopes.LookupLocal | PascalCompiler/PascalCompiler.Core/Modules/SyntacticalAnalyzerModule.cs:1257-1259 | an entry of the scope's own table has the last word |
| Scopes.SearchType | PascalCompiler/PascalCompiler.Core/Modules/SyntacticalAnalyzerModule.cs:498-507 | the type of the innermost entry of that spelling that is a type or a variable, walking past constants; null when no scope has one |
| TypeRules.CheckAssignmentTypes | PascalCompiler/PascalCompiler.Core/Modules/SyntacticalAnalyzerModule.cs:913-929 | never with an unknown type; real accepts integer and real; a subrange or an array accepts its base; every type accepts itself; nothing else is accepted |
| TypeRules.AssignmentBetweenBuiltins | PascalCompiler/PascalCompiler.Core/Modules/SyntacticalAnalyzerModule.cs:913-929 | integer widens to real but real does not narrow to integer; integer, char and boolean never mix; every built-in type accepts itself |
| TypeRules.CheckRelationOperation | PascalCompiler/PascalCompiler.Core/Modules/SyntacticalAnalyzerModule.cs:1030-1038 | boolean exactly for two numbers, two chars or two booleans; null otherwise |
| TypeRules.Relation | PascalCompiler/PascalCompiler.Core/Modules/SyntacticalAnalyzerModule.cs:1057-1071 | error 186 at the operator exactly when the relation has no type |
| TypeRules.RelationIgnoresOperator | PascalCompiler/PascalCompiler.Core/Modules/SyntacticalAnalyzerModule.cs:1030-1038 | the six relations are typed alike |
| TypeRules.RelationMixedKinds | PascalCompiler/PascalCompiler.Core/Modules/SyntacticalAnalyzerModule.cs:1030-1038 | integer against char fails with 186; integer against real and char against char are boolean |
| TypeRules.CheckLogical | PascalCompiler/PascalCompiler.Core/Modules/SyntacticalAnalyzerModule.cs:1242-1247 | boolean exactly for boolean, null otherwise |
| TypeRules.Condition | PascalCompiler/PascalCompiler.Core/Modules/SyntacticalAnalyzerModule.cs:1364-1368 | the condition of `if` (and likewise of `while`) reports 328 exactly when it is not boolean |
| TypeRules.Not | PascalCompiler/PascalCompiler.Core/Modules/SyntacticalAnalyzerModule.cs:1288-1295 | `not` gives boolean with no error exactly for a boolean operand; otherwise null and 210 at the operand |
| TypeRules.CheckRightSign | PascalCompiler/PascalCompiler.Core/Modules/SyntacticalAnalyzerModule.cs:1085-1091 | no error exactly before an unknown type, integer, real or a subrange of integer; otherwise 211 |
| TypeRules.CheckAdd | PascalCompiler/PascalCompiler.Core/Modules/SyntacticalAnalyzerModule.cs:1101-1118 | `+` and `-` are numeric exactly for two numbers and real exactly when one operand is; otherwise 211. `or` is boolean exactly for two booleans; otherwise 210. Any other operator gives null silently |
| TypeRules.CheckMultiplicativeOperation | PascalCompiler/PascalCompiler.Core/Modules/SyntacticalAnalyzerModule.cs:1173-1200 | `div`/`mod` are integer exactly for two integers, else 212; `*` and `/` promote like `+`, else 213 and 214; `and` needs two booleans, else 210 |
| TypeRules.AddFold | PascalCompiler/PascalCompiler.Core/Modules/SyntacticalAnalyzerModule.cs:1148-1155 | the additive loop only adds diagnostics to those already reported |
| TypeRules.MulFold | PascalCompiler/PascalCompiler.Core/Modules/SyntacticalAnalyzerModule.cs:1220-1227 | the multiplicative loop only adds diagnostics to those already reported |
| TypeRules.SimpleExpressionType | PascalCompiler/PascalCompiler.Core/Modules/SyntacticalAnalyzerModule.cs:1137-1155 | a signed first term and the additive chain keep the first term's diagnostics first |
| TypeRules.AdditiveChain | PascalCompiler/PascalCompiler.Core/Modules/SyntacticalAnalyzerModule.cs:1148-1155 | the `while` loop of SimpleExpression computes the additive fold |
| TypeRules.MultiplicativeChain | PascalCompiler/PascalCompiler.Core/Modules/SyntacticalAnalyzerModule.cs:1220-1227 | the `while` loop of Term computes the multiplicative fold |
| TypeRules.AdditiveNumericChain | PascalCompiler/PascalCompiler.Core/Modules/SyntacticalAnalyzerModule.cs:1101-1155 | a chain of `+` and `-` over numbers is numeric, reports only its operands' diagnostics, and is real exactly when some operand is real |
| TypeRules.AdditiveUnknownPoisons | PascalCompiler/PascalCompiler.Core/Modules/SyntacticalAnalyzerModule.cs:1101-1155 | once the type is unknown, a chain of `+` and `-` stays unknown and every operator reports 211 |
| TypeRules.UnknownOperandOfPlus | PascalCompiler/PascalCompiler.Core/Modules/SyntacticalAnalyzerModule.cs:1101-1110 | an unknown operand on either side of `+` gives no type and 211 |
| TypeRules.IntegerMultiplicativeChain | PascalCompiler/PascalCompiler.Core/Modules/SyntacticalAnalyzerModule.cs:1173-1227 | a chain of `*`, `/`, `div` and `mod` over integers stays integer, so an integer quotient is an integer, and reports only its operands' diagnostics |
| TypeRules.ConjunctionChain | PascalCompiler/PascalCompiler.Core/Modules/SyntacticalAnalyzerModule.cs:1193-1227 | a chain of `and` over booleans stays boolean and reports only its operands' diagnostics |
| TypeRules.MultiplicativeUnknownPoisons | PascalCompiler/PascalCompiler.Core/Modules/SyntacticalAnalyzerModule.cs:1173-1227 | once a multiplicative chain is untyped it stays untyped, and each later operator reports one error |
| TypeRules.SignBeforeChar | PascalCompiler/PascalCompiler.Core/Modules/SyntacticalAnalyzerModule.cs:1138-1147 | a sign before a char term is reported as 211 and stays among the expression's diagnostics |
| TypeRules.CheckIndexes | PascalCompiler/PascalCompiler.Core/Modules/SyntacticalAnalyzerModule.cs:996-1013 | exactly one 328 per index expression whose type is not the base type of its subrange index, at the token after it, and no other error |
| TypeRules.IndexErrors | PascalCompiler/PascalCompiler.Core/Modules/SyntacticalAnalyzerModule.cs:1001-1011 | from a given expression on: one 328 per mismatched expression, each at that expression's position, and no other error |
| TypeRules.AssignmentErrors | PascalCompiler/PascalCompiler.Core/Modules/SyntacticalAnalyzerModule.cs:946-966 | 328 at `:=` exactly when the types are incompatible; for a subrange given an enumeration value, 306 exactly when the value's ordinal by name is outside the bounds; nothing otherwise |
| TypeRules.Names | PascalCompiler/PascalCompiler.Core/Modules/SyntacticalAnalyzerModule.cs:960-962 | the spellings of the symbols, in order |
| TypeRules.NameIndex | PascalCompiler/PascalCompiler.Core/Modules/SyntacticalAnalyzerModule.cs:960-962 | IndexOf by spelling: the first position of the name, and -1 exactly when it is absent |
| TypeRules.IndexOf | PascalCompiler/PascalCompiler.Core/Modules/SyntacticalAnalyzerModule.cs:652 | IndexOf by reference: the first position of the symbol, and -1 exactly when it is absent |
| TypeRules.LimitedCheck | PascalCompiler/PascalCompiler.Core/Modules/SyntacticalAnalyzerModule.cs:625-660 | the bounds are recorded exactly when integer, char or enumeration bounds increase, with the first bound's type as base; the errors are one 112 when the bounds' types differ, followed by one more 112 when integer, char or enumeration bounds are not recorded, all at the current token |
| TypeRules.IntegerSubranges | PascalCompiler/PascalCompiler.Core/Modules/SyntacticalAnalyzerModule.cs:627-637 | `1..10` is recorded; `10..1` and `5..5` report 112 and record nothing |
| TypeRules.MixedSubrangeBounds | PascalCompiler/PascalCompiler.Core/Modules/SyntacticalAnalyzerModule.cs:625-660 | after `type A = (x, y); B = (z, y)`, the subrange `z..y` reports one 112 for bounds of types B and A, and still records its bounds with base B, because z precedes y among B's members |
| TypeRules.BooleanSubrange | PascalCompiler/PascalCompiler.Core/Modules/SyntacticalAnalyzerModule.cs:649-660 | `false..true`, whose bounds are the boolean type's own member Symbols in order, reports nothing and records its bounds with base boolean |
| SyntacticalAnalyzer.Advance | PascalCompiler/PascalCompiler.Core/Modules/SyntacticalAnalyzerModule.cs:61 | the next token, or the last one again once the input is exhausted |
| SyntacticalAnalyzer.SkipToTarget | PascalCompiler/PascalCompiler.Core/Modules/SyntacticalAnalyzerModule.cs:93-97 | the first token from here on whose code is a stop |
| SyntacticalAnalyzer.SkipTo2Target | PascalCompiler/PascalCompiler.Core/Modules/SyntacticalAnalyzerModule.cs:104-108 | the first token from here on that is a stop or was read at the end of the input |
| SyntacticalAnalyzer.Resync | PascalCompiler/PascalCompiler.Core/Modules/SyntacticalAnalyzerModule.cs:287-292 | a construct's opening check stays on a starter, and otherwise stops at a starter, a follower or the end |
| SyntacticalAnalyzer.DeclareSplitsMembers | PascalCompiler/PascalCompiler.Core/Modules/SyntacticalAnalyzerModule.cs:803-808 | inserting a list in turn splits it: every symbol lands on exactly one side, and the accepted ones have keys new to the table and to each other |
| SyntacticalAnalyzer.DeclareAcceptsFirst | PascalCompiler/PascalCompiler.Core/Modules/SyntacticalAnalyzerModule.cs:803-808 | a symbol whose key is new to the table and to every earlier symbol is accepted |
| SyntacticalAnalyzer.DeclareRejectsRepeated | PascalCompiler/PascalCompiler.Core/Modules/SyntacticalAnalyzerModule.cs:803-808 | a symbol whose key the table holds, or an earlier symbol shares, is refused |
| SyntacticalAnalyzer.DeclareSplit | PascalCompiler/PascalCompiler.Core/Modules/SyntacticalAnalyzerModule.cs:803-808 | the first symbol is decided before the rest, and its decision extends a partial split by one |
| SyntacticalAnalyzer.KeysOfHeld | PascalCompiler/PascalCompiler.Core/Modules/SyntacticalAnalyzerModule.cs:803-808 | a symbol's spelling key is held exactly when ExperimentalAdd would refuse it, and its Symbol key exactly when Add would |
| SyntacticalAnalyzer.KeysOfAppend | PascalCompiler/PascalCompiler.Core/Modules/SyntacticalAnalyzerModule.cs:803-808 | an appended entry adds its own key to the keys the table holds |
| SyntacticalAnalyzer.Redeclared | PascalCompiler/PascalCompiler.Core/Modules/SyntacticalAnalyzerModule.cs:806-807 | one error 101 at each refused symbol, in order |
| SyntacticalAnalyzer.RedeclaredAppend | PascalCompiler/PascalCompiler.Core/Modules/SyntacticalAnalyzerModule.cs:806-807 | the diagnostics of two lists of refusals are those of each, concatenated |
| SyntacticalAnalyzer.RedeclaredOne | PascalCompiler/PascalCompiler.Core/Modules/SyntacticalAnalyzerModule.cs:806-807 | one more refusal adds its own 101 |
| SyntacticalAnalyzer.ExtendsAppend | PascalCompiler/PascalCompiler.Core/Modules/SyntacticalAnalyzerModule.cs:803-808 | an accepted identifier extends the table's growth by one entry |
| SyntacticalAnalyzer.VariableStep | PascalCompiler/PascalCompiler.Core/Modules/SyntacticalAnalyzerModule.cs:803-808 | offering the next variable to ExperimentalAdd keeps the table's growth and the split so far in step with the whole list's split |
| SyntacticalAnalyzer.MemberStep | PascalCompiler/PascalCompiler.Core/Modules/SyntacticalAnalyzerModule.cs:581-589 | offering the next member to Add keeps the table's growth and the split so far in step with the whole list's split |
| SyntacticalAnalyzer.Predefine | PascalCompiler/PascalCompiler.Core/Modules/SyntacticalAnalyzerModule.cs:137-145 | a new position-zero symbol is registered unless its spelling is, and its identifier of that class and type is always appended |
| SyntacticalAnalyzer.PredefineBoolean | PascalCompiler/PascalCompiler.Core/Modules/SyntacticalAnalyzerModule.cs:135-168 | a fresh enumeration is added to the type table, and `boolean`, `false` and `true` are appended and registered; the enumeration's members are the very Symbols of the `false` and `true` entries, in that order |
| SyntacticalAnalyzer.PredefineScalar | PascalCompiler/PascalCompiler.Core/Modules/SyntacticalAnalyzerModule.cs:170-181 | a fresh scalar type is added to the type table, and its type name is appended and registered |
| SyntacticalAnalyzer.PredefineScalars | PascalCompiler/PascalCompiler.Core/Modules/SyntacticalAnalyzerModule.cs:170-207 | `integer`, `real` and `char` get three distinct fresh scalar types, added to the type table in that order, and their names are appended and registered in that order |
| SyntacticalAnalyzer.PredefinedInOrder | PascalCompiler/PascalCompiler.Core/Modules/SyntacticalAnalyzerModule.cs:133-208 | the boolean part followed by the scalar part leaves the six predefined names in the source's order, each registered under its spelling |
| SyntacticalAnalyzer.InitFictiousScope | PascalCompiler/PascalCompiler.Core/Modules/SyntacticalAnalyzerModule.cs:133-208 | the four built-in types are distinct and in the type table in order; boolean's members are the very Symbols of the `false` and `true` entries, in that order; the six names are the scope's entries in order with their classes and types; the symbol table maps each name to its entry's symbol |
| SyntacticalAnalyzer.PredefinedResolve | PascalCompiler/PascalCompiler.Core/Modules/SyntacticalAnalyzerModule.cs:133-208 | in the outermost scope each predefined name is looked up to its own entry |
| SyntacticalAnalyzer.InsertVariables | PascalCompiler/PascalCompiler.Core/Modules/SyntacticalAnalyzerModule.cs:803-808 | the table grows by the variables whose spelling is new, in order, all of the declared type; each refused one reports 101 |
| SyntacticalAnalyzer.InsertMember | PascalCompiler/PascalCompiler.Core/Modules/SyntacticalAnalyzerModule.cs:581-589 | one enumeration member becomes a constant whose value is the member, unless its very Symbol is present; it joins the member list either way |
| SyntacticalAnalyzer.InsertMembers | PascalCompiler/PascalCompiler.Core/Modules/SyntacticalAnalyzerModule.cs:576-592 | the table grows by the members whose Symbol is new, as constants of the enumeration; the member list gets every member in order |
| SyntacticalAnalyzer.Analyzer.constructor | PascalCompiler/PascalCompiler.Core/Modules/SyntacticalAnalyzerModule.cs:133-208 | a single outermost scope holds the four built-in types and the six predefined names, registered in the symbol table, with boolean's members the very Symbols of the `false` and `true` entries; no diagnostics; the first token is current |
| SyntacticalAnalyzer.Analyzer.NextSymbol | PascalCompiler/PascalCompiler.Core/Modules/SyntacticalAnalyzerModule.cs:61 | the cursor moves to the next token |
| SyntacticalAnalyzer.Analyzer.Accept | PascalCompiler/PascalCompiler.Core/Modules/SyntacticalAnalyzerModule.cs:58-66 | the expected code moves past the token silently; any other code stays and reports the expected code at the token |
| SyntacticalAnalyzer.Analyzer.SymbolBelong | PascalCompiler/PascalCompiler.Core/Modules/SyntacticalAnalyzerModule.cs:73-76 | exactly when the current token's code is in the set |
| SyntacticalAnalyzer.Analyzer.SkipTo | PascalCompiler/PascalCompiler.Core/Modules/SyntacticalAnalyzerModule.cs:93-97 | the loop stops at the first stop ahead |
| SyntacticalAnalyzer.Analyzer.SkipTo2 | PascalCompiler/PascalCompiler.Core/Modules/SyntacticalAnalyzerModule.cs:104-108 | the loop stops at the first token ahead that is a starter, a follower or the end of the input |
| SyntacticalAnalyzer.Analyzer.Enter | PascalCompiler/PascalCompiler.Core/Modules/SyntacticalAnalyzerModule.cs:287-292 | a non-starter reports the procedure's code and resynchronises; the construct is entered exactly when a starter is current |
| SyntacticalAnalyzer.Analyzer.CheckFollowers | PascalCompiler/PascalCompiler.Core/Modules/SyntacticalAnalyzerModule.cs:305-309 | a non-follower reports 6 and skips to a follower |
| SyntacticalAnalyzer.Analyzer.OpenScope | PascalCompiler/PascalCompiler.Core/Modules/SyntacticalAnalyzerModule.cs:113-120 | a fresh empty scope enclosed by the old one becomes current, and every name looks up as before |
| SyntacticalAnalyzer.Analyzer.CloseScope | PascalCompiler/PascalCompiler.Core/Modules/SyntacticalAnalyzerModule.cs:125-128 | the enclosing scope becomes current again, which undoes OpenScope |
| SyntacticalAnalyzer.Analyzer.Variable | PascalCompiler/PascalCompiler.Core/Modules/SyntacticalAnalyzerModule.cs:988-995 | the type of the current scope's entry of the spelling, or no type and 104; the identifier is accepted |
| SyntacticalAnalyzer.Analyzer.EnterUndeclared | PascalCompiler/PascalCompiler.Core/Modules/SyntacticalAnalyzerModule.cs:1327-1337 | an undeclared name becomes an untyped variable of the current scope, reports 104 and is accepted; from then on it looks up to that entry |
| SyntacticalAnalyzer.Analyzer.FactorIdentifier | PascalCompiler/PascalCompiler.Core/Modules/SyntacticalAnalyzerModule.cs:1312-1338 | by the class of the innermost binding: a variable goes through Variable, a constant gives its type and is accepted, a type name gives no type and is not consumed; an undeclared name reports 104, gives no type and is appended to the current scope as an untyped variable with the token's Symbol, to which it then resolves |
| SyntacticalAnalyzer.Analyzer.DeclareConst | PascalCompiler/PascalCompiler.Core/Modules/SyntacticalAnalyzerModule.cs:294-304 | the constant enters the current scope unless its spelling is there, in which case 101 is reported at it and nothing changes |
| SyntacticalAnalyzer.Analyzer.DeclareType | PascalCompiler/PascalCompiler.Core/Modules/SyntacticalAnalyzerModule.cs:439-448 | the type name enters the current scope unless that very Symbol is there; a refusal changes nothing and is not reported |
| SyntacticalAnalyzer.Analyzer.VarDeclaration | PascalCompiler/PascalCompiler.Core/Modules/SyntacticalAnalyzerModule.cs:792-808 | the variables with a new spelling enter the current scope in order, all of the declared type; each repeated one reports 101 |
| SyntacticalAnalyzer.Analyzer.EnumerationType | PascalCompiler/PascalCompiler.Core/Modules/SyntacticalAnalyzerModule.cs:565-592 | a fresh enumeration in the type table whose members are the list as written; the members with a new Symbol become its constants |
| SyntacticalAnalyzer.Analyzer.LimitedType | PascalCompiler/PascalCompiler.Core/Modules/SyntacticalAnalyzerModule.cs:608-660 | a fresh subrange is added to the type table; the bound rule decides its diagnostics, and whether its bounds and base are recorded |
| SyntacticalAnalyzer.Analyzer.ArrayType | PascalCompiler/PascalCompiler.Core/Modules/SyntacticalAnalyzerModule.cs:700-724 | a fresh array type with the index types and element type as written, not entered into the type table |
| Text.NatToString | PascalCompiler/PascalCompiler.Core/Modules/IoModule.cs:35 | a non-empty string of digits without a leading zero |
| Text.ParseNatToString | PascalCompiler/PascalCompiler.Core/Modules/IoModule.cs:35 | the digits of a number read back as the number |
| Text.IntToStringReadsBack | PascalCompiler/PascalCompiler.Core/Modules/IoModule.cs:44 | the digits of the absolute value read back as it, after a minus sign exactly for a negative number |
| Text.PadLeft | PascalCompiler/PascalCompiler.Core/Modules/IoModule.cs:44 | the string right-aligned in a field of the given width, padded with the given character, never shortened |
| Io.ShortNumber | PascalCompiler/PascalCompiler.Core/Modules/IoModule.cs:35 | a number below a thousand fits the three-column field |
| Io.EchoLayout | PascalCompiler/PascalCompiler.Core/Modules/IoModule.cs:35 | an echoed line is a six-character prefix followed by the source line |
| Io.EchoTextLayout | PascalCompiler/PascalCompiler.Core/Modules/IoModule.cs:35 | with a three-character number field, the echo is six characters followed by the line |
| Io.CaretPad | PascalCompiler/PascalCompiler.Core/Modules/IoModule.cs:44 | a caret right-aligned at position p fills a field of width p (or 1 at position 0), whose last character it is, the rest blank |
| Io.CaretField | PascalCompiler/PascalCompiler.Core/Modules/IoModule.cs:44 | after a six-character head, a caret field of width w puts the caret at character 5 + w, with only blanks before it |
| Io.MarkerLineLayout | PascalCompiler/PascalCompiler.Core/Modules/IoModule.cs:44 | with a three-character number field, the caret at position p is character 5 + p, or 6 at position 0, with only blanks before it back to the prefix |
| Io.MarkerLayout | PascalCompiler/PascalCompiler.Core/Modules/IoModule.cs:44 | for an error number below a thousand, the caret of an error at position p >= 1 is character 5 + p of the marker line, at position 0 character 6, with only blanks between it and the prefix |
| Io.CaretUnderColumn | PascalCompiler/PascalCompiler.Core/Modules/IoModule.cs:35-44 | for a position p >= 1 the caret stands under column p of the echoed line |
| Io.CaretUnderText | PascalCompiler/PascalCompiler.Core/Modules/IoModule.cs:35-44 | the same on already rendered three-character number fields |
| Io.IoModule.constructor | PascalCompiler/PascalCompiler.Core/Modules/IoModule.cs:13-18 | the first line is read and echoed, or there is no line for an empty source |
| Io.IoModule.ListCurrentLine | PascalCompiler/PascalCompiler.Core/Modules/IoModule.cs:33-36 | the current line is echoed under the line number, which then advances |
| Io.IoModule.ReadNextLine | PascalCompiler/PascalCompiler.Core/Modules/IoModule.cs:23-28 | the next source line becomes current and is echoed; once the source is exhausted the line is none and nothing is echoed or counted |
| Io.IoModule.ListError | PascalCompiler/PascalCompiler.Core/Modules/IoModule.cs:42-46 | the marker line and the description line are written, and the error number advances |
| Io.IoModule.PeekNextChar | PascalCompiler/PascalCompiler.Core/Modules/IoModule.cs:52-55 | the character under the cursor, or an end of line past the line's end |
| Io.IoModule.PeekNextNextChar | PascalCompiler/PascalCompiler.Core/Modules/IoModule.cs:61-64 | the character after it, or an end of line past the line's end |
| Io.IoModule.NextChar | PascalCompiler/PascalCompiler.Core/Modules/IoModule.cs:70-81 | inside a line it delivers what PeekNextChar showed and leaves PeekNextNextChar's character under the cursor; at a line's end it reads the next line and gives an end of line, or '\0' once the source is exhausted; what remains to read always shrinks |

## Left out

- The lexical analyzer is not part of this model. The analyzer reads a given token sequence instead.
- The expected-code sets `Starters` and `Followers`, and the lexer's code table, are not part of this model. They are set parameters, and the operator codes are an `Operators` record of distinct codes.
- The recursive descent itself is not modelled: Program, Block, the declaration parts, Type, SimpleType, CompositeType, Const, the statements, Expression, SimpleExpression, Term and Factor as parsers. Instead:
  - their fixed opening and closing checks are modelled once, as Enter and CheckFollowers;
  - their semantic actions are modelled as the methods above;
  - the expression procedures are modelled as folds over the operator, its position, the operand's type and the operand's own diagnostics.
- Const's parsing of literals and the `_const` field it fills are not modelled. The semantic actions take the constant's type and value as arguments.
- The `WasFirstOperand` flag is written and never read by the analyzer, so it is left out.
- `Union` is set union.
- File I/O: the source dispatcher's ReadLine is modelled as a given sequence of lines and WriteLine as an append of a `ListingLine` to `listing`, whose text `Render` gives.
- Context is not part of this model. The initial line and error numbers are constructor parameters, and the character cursor starts at the C# defaults.
- The Error event that connects the analyzer to the I/O module is not modelled. The analyzer collects `errors`, and `ListError` takes one error and its description.
- `ErrorDescriptions.Get` is not part of this model. Its text is the `description` parameter.
- The logger is not modelled.
- Io.IoModule.PeekNextChar, Io.IoModule.PeekNextNextChar, Io.IoModule.NextChar: once the source is exhausted `Line` is null and the C# code throws; the model requires a current line.
- Io.IoModule.ListError: a negative error position throws in `PadLeft`; the model requires a position of at least zero.
- Io.EchoLayout, Io.MarkerLayout, Io.CaretUnderColumn: the column layout is proved for line and error numbers below a thousand, where the three-column fields are not widened.
- Io.CaretUnderColumn: stated for positions of at least one. At position 0, `"^".PadLeft(0)` is the caret itself, so the caret is character 6, under column 1; MarkerLayout states that case. Position 0 does occur: a 101 is reported at a Symbol's first position, which for the predefined names is 0.
- TypeRules.AssignmentErrors: for a subrange variable given a compatible enumeration value, a null expression symbol or a subrange bound without an enumeration member throws in C# (`limited.Min.Enum.Name`, `symbol.Name`, SyntacticalAnalyzerModule.cs:960-962); the model requires them away.
- SymbolTables.SymbolTable.Get: an absent name throws `KeyNotFoundException`; the model requires the name to be present.
- SyntacticalAnalyzer.Analyzer.SkipTo: the C# loop has no end-of-input exit, unlike SkipTo2 (SyntacticalAnalyzerModule.cs:106), so the model requires a stop to lie ahead.
- SyntacticalAnalyzer.Analyzer.CloseScope: closing the outermost scope would leave the C# analyzer with a null scope; the model requires an enclosing scope.
- SyntacticalAnalyzer.Analyzer.LimitedType, TypeRules.LimitedCheck: a null first bound type, or an integer or char bound without its value, throws in C#. It is required away.
- SyntacticalAnalyzer.Advance: the lexer's behaviour after the last token is the lexer's. The model keeps the last token current.
- SyntacticalAnalyzer.Analyzer.Variable does not model the bracketed index part of Variable as part of the method. The index rule is stated by TypeRules.CheckIndexes. An index into a non-array type, or past its index list, throws in C#, and so does a null index type or one that is not a subrange, which the `as Limited` cast makes null (SyntacticalAnalyzerModule.cs:1003, 1009). TypeRules.CheckIndexes requires all of these away.
- Scopes.Lookup: SearchIdentifier ignores its `name` argument and searches every scope for the current token's spelling. The model passes that spelling, which is what every call in the analyzer hands it anyway.
- SyntacticalAnalyzer.Analyzer.constructor: states that the six predefined names are the outermost scope's entries; that each resolves to its own entry is the separate lemma PredefinedResolve.
- An unknown (null) operand type is not absorbed by the operator rules: the code reports 211 (or 210, 212, 213, 214) and gives null (AdditiveUnknownPoisons, UnknownOperandOfPlus).
- The order of a .NET HashSet's enumeration is taken to be insertion order, which holds for a set from which nothing is removed; the source never removes an entry.
- Integer widths: positions, codes and counters are unbounded integers. The source's `int` counters would only wrap after two billion lines or errors.
