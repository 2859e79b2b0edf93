/** The by-name interner of Symbol objects, and the list of symbols made
    outside the interner. */
module SymbolTables {
  import opened Structures

  class SymbolTable {
    var symbols: map<string, Symbol>
    var experimentalSymbols: seq<Symbol>

    /** Every registered symbol is filed under its own spelling. */
    ghost predicate Valid()
      reads this
    {
      forall name | name in symbols :: symbols[name].name == name
    }

    constructor ()
      ensures Valid() && symbols == map[] && experimentalSymbols == []
    {
      symbols := map[];
      experimentalSymbols := [];
    }

    /** The indexer: the symbol registered under `name`. An absent name throws
        KeyNotFoundException, so it must be present. */
    function Get(name: string): (s: Symbol)
      requires Valid() && name in symbols
      reads this
      ensures s.name == name
      ensures s in symbols.Values
    {
      symbols[name]
    }

    /** ExperimentalAdd: a new symbol appended to the list; the dictionary is
        not touched. */
    method ExperimentalAdd(name: string, position: int) returns (s: Symbol)
      modifies this
      ensures fresh(s) && s.name == name && s.position == position
      ensures experimentalSymbols == old(experimentalSymbols) + [s]
      ensures symbols == old(symbols)
    {
      s := new Symbol(name, position);
      experimentalSymbols := experimentalSymbols + [s];
    }

    /** Add(name, position): the symbol already registered under `name`,
        keeping its first position, with nothing changed; otherwise a new
        symbol with this name and position, registered. Either way the result
        is what the table now holds under `name`. */
    method Add(name: string, position: int) returns (s: Symbol)
      requires Valid()
      modifies this
      ensures Valid()
      ensures s.name == name && name in symbols && symbols[name] == s
      ensures name in old(symbols) ==> s == old(symbols[name]) && symbols == old(symbols)
      ensures name !in old(symbols) ==>
        fresh(s) && s.position == position && symbols == old(symbols)[name := s]
      ensures experimentalSymbols == old(experimentalSymbols)
    {
      if name in symbols {
        return symbols[name];
      }
      s := new Symbol(name, position);
      symbols := symbols[name := s];
    }

    /** Add(Symbol): refuses, changing nothing, when the spelling is already
        registered; otherwise registers this very object. */
    method AddSymbol(symbol: Symbol) returns (ok: bool)
      requires Valid()
      modifies this
      ensures Valid()
      ensures ok == (symbol.name !in old(symbols))
      ensures symbols == if ok then old(symbols)[symbol.name := symbol] else old(symbols)
      ensures experimentalSymbols == old(experimentalSymbols)
    {
      if symbol.name in symbols {
        return false;
      }
      symbols := symbols[symbol.name := symbol];
      ok := true;
    }

    /** Interning is idempotent: two Adds of one spelling, whatever the
        positions, give the same object, which carries the first position. */
    method AddTwice(name: string, first: int, second: int) returns (s: Symbol, t: Symbol)
      requires Valid()
      modifies this
      ensures Valid()
      ensures s == t && s.name == name
      ensures name !in old(symbols) ==> s.position == first
    {
      s := Add(name, first);
      t := Add(name, second);
    }
  }
}
