/** The typing rules of the analyzer: assignment compatibility, the additive,
    multiplicative and relational operators, the boolean check of `not`, `if`
    and `while`, the sign rule, the index and subrange rules, and the typing
    of operator chains as left folds of the operator rules.

    Types are objects and are compared by reference. The four built-in types
    are the objects the analyzer makes at start-up. The result of a rule is a
    type, or null for "no type", together with the diagnostics it reports, in
    order. */
module TypeRules {
  import opened Wrappers
  import opened Structures

  /** The types made at start-up: boolean is an enumeration (of false, true),
      integer, real and char are scalars; they are four distinct objects. */
  datatype Builtins = Builtins(booleanType: Type, integerType: Type, realType: Type, charType: Type)
  {
    predicate Valid() {
      booleanType != integerType && booleanType != realType && booleanType != charType &&
      integerType != realType && integerType != charType && realType != charType &&
      booleanType.code == Enums && integerType.code == Scalars &&
      realType.code == Scalars && charType.code == Scalars
    }
  }

  /** The token codes of the operators. The lexer's code table is not part of
      this model; its codes are distinct, which is all the rules rely on. */
  datatype Operators = Operators(plus: int, minus: int, orsy: int,
                                 star: int, slash: int, divsy: int, modsy: int, andsy: int)
  {
    predicate Valid() {
      |{plus, minus, orsy, star, slash, divsy, modsy, andsy}| == 8
    }
    predicate Additive(code: int) {
      code == plus || code == minus || code == orsy
    }
    predicate Multiplicative(code: int) {
      code == star || code == slash || code == divsy || code == modsy || code == andsy
    }
  }

  /** A type with the diagnostics reported while computing it. */
  datatype Typed = Typed(t: Type?, errors: seq<Error>)

  predicate IsNumeric(b: Builtins, t: Type?) {
    t == b.integerType || t == b.realType
  }

  /** CheckAssignmentTypes: may a value of `expressionType` be stored in a
      variable of `variableType`? Never with an unknown (null) type; real
      accepts integer and real; a subrange or an array accepts its base type;
      every type accepts itself; nothing else is accepted. */
  function CheckAssignmentTypes(b: Builtins, variableType: Type?, expressionType: Type?): (ok: bool)
    reads variableType
    ensures variableType == null || expressionType == null ==> !ok
    ensures variableType != null && expressionType != null ==>
      (variableType == b.realType && IsNumeric(b, expressionType) ==> ok) &&
      (variableType.code == Limiteds && variableType.baseType == expressionType ==> ok) &&
      (variableType.code == Arrays && variableType.baseType == expressionType ==> ok) &&
      (variableType == expressionType ==> ok)
    ensures ok ==>
      variableType != null && expressionType != null &&
      (variableType == expressionType ||
       (variableType == b.realType && expressionType == b.integerType) ||
       (variableType.code in {Limiteds, Arrays} && variableType.baseType == expressionType))
  {
    if variableType == null || expressionType == null then false
    else if variableType == b.realType && (expressionType == b.integerType || expressionType == b.realType) then true
    else if variableType.code == Limiteds && variableType.baseType == expressionType then true
    else if variableType.code == Arrays && variableType.baseType == expressionType then true
    else variableType == expressionType
  }

  /** Integer widens to real, real does not narrow to integer, and no built-in
      scalar accepts a value of another built-in type except by that widening. */
  lemma AssignmentBetweenBuiltins(b: Builtins)
    requires b.Valid()
    ensures CheckAssignmentTypes(b, b.realType, b.integerType)
    ensures !CheckAssignmentTypes(b, b.integerType, b.realType)
    ensures !CheckAssignmentTypes(b, b.integerType, b.charType) && !CheckAssignmentTypes(b, b.charType, b.integerType)
    ensures !CheckAssignmentTypes(b, b.booleanType, b.integerType) && !CheckAssignmentTypes(b, b.integerType, b.booleanType)
    ensures forall t: Type | t in {b.booleanType, b.integerType, b.realType, b.charType} :: CheckAssignmentTypes(b, t, t)
  {
  }

  /** CheckRelationOperation: any of the six relations, which the rule does not
      distinguish, gives boolean for two numeric operands, two chars or two
      booleans, and null otherwise. */
  function CheckRelationOperation(b: Builtins, first: Type?, second: Type?, operation: int): (r: Type?)
    ensures r == null || r == b.booleanType
    ensures r == b.booleanType <==>
      (IsNumeric(b, first) && IsNumeric(b, second)) ||
      (first == b.charType && second == b.charType) ||
      (first == b.booleanType && second == b.booleanType)
  {
    if (IsNumeric(b, first) && IsNumeric(b, second)) ||
       (first == b.charType && second == b.charType) ||
       (first == b.booleanType && second == b.booleanType)
    then b.booleanType
    else null
  }

  /** The relational tail of Expression: the relation's type, and error 186 at
      the operator's position exactly when it has none. */
  function Relation(b: Builtins, first: Type?, second: Type?, operation: int, operationPosition: int): (r: Typed)
    ensures r.t == null || r.t == b.booleanType
    ensures r.t == null <==> r.errors == [Error(operationPosition, 186)]
    ensures r.t != null <==> r.errors == []
    ensures r.t == CheckRelationOperation(b, first, second, operation)
  {
    var t := CheckRelationOperation(b, first, second, operation);
    Typed(t, if t == null then [Error(operationPosition, 186)] else [])
  }

  /** The operator plays no part in a relation's type. */
  lemma RelationIgnoresOperator(b: Builtins, first: Type?, second: Type?, op1: int, op2: int, position: int)
    ensures Relation(b, first, second, op1, position) == Relation(b, first, second, op2, position)
  {
  }

  /** A relation between a number and a char has no type and reports 186; one
      between two numbers of either kind is boolean. */
  lemma RelationMixedKinds(b: Builtins, op: int, position: int)
    requires b.Valid()
    ensures Relation(b, b.integerType, b.charType, op, position) == Typed(null, [Error(position, 186)])
    ensures Relation(b, b.integerType, b.realType, op, position) == Typed(b.booleanType, [])
    ensures Relation(b, b.charType, b.charType, op, position) == Typed(b.booleanType, [])
  {
  }

  /** CheckLogical: boolean stays boolean, every other type (and none) gives null. */
  function CheckLogical(b: Builtins, t: Type?): (r: Type?)
    ensures r == null || r == b.booleanType
    ensures r == b.booleanType <==> t == b.booleanType
  {
    if t == b.booleanType then b.booleanType else null
  }

  /** The condition of `if` and `while`: error 328 at the expression's first
      token unless it is boolean. */
  function Condition(b: Builtins, t: Type?, position: int): (errors: seq<Error>)
    ensures errors == [] <==> t == b.booleanType
    ensures errors != [] ==> errors == [Error(position, 328)]
  {
    if CheckLogical(b, t) == null then [Error(position, 328)] else []
  }

  /** `not` applied to a factor of type `t` that starts at `position`: boolean,
      or null with error 210 there. */
  function Not(b: Builtins, t: Type?, position: int): (r: Typed)
    ensures r.t == b.booleanType <==> t == b.booleanType
    ensures r.t != b.booleanType ==> r == Typed(null, [Error(position, 210)])
    ensures r.t == b.booleanType ==> r.errors == []
  {
    var l := CheckLogical(b, t);
    Typed(l, if l == null then [Error(position, 210)] else [])
  }

  /** CheckRightSign: a leading sign is allowed before an unknown type, integer,
      real or a subrange of integer; otherwise error 211 at the current token. */
  function CheckRightSign(b: Builtins, t: Type?, position: int): (errors: seq<Error>)
    reads t
    ensures errors == [] <==>
      t == null || IsNumeric(b, t) || (t.code == Limiteds && t.baseType == b.integerType)
    ensures errors != [] ==> errors == [Error(position, 211)]
  {
    if t == null || t == b.integerType || t == b.realType || (t.code == Limiteds && t.baseType == b.integerType)
    then []
    else [Error(position, 211)]
  }

  /** The promoted type of two numeric operands. */
  function Promote(b: Builtins, first: Type?, second: Type?): Type {
    if first == b.realType then b.realType else if second == b.realType then b.realType else b.integerType
  }

  /** CheckAdd. `+` and `-` of two numbers give real if either is real and
      integer otherwise; any other operands, an unknown one included, give
      null and error 211. `or` of two booleans gives boolean; otherwise null
      and error 210. Any other operator gives null silently. The error is
      reported at the operator's position. */
  function CheckAdd(b: Builtins, ops: Operators, first: Type?, second: Type?, operation: int, position: int): (r: Typed)
    requires ops.Valid()
    ensures operation == ops.plus || operation == ops.minus ==>
      (r.t != null <==> IsNumeric(b, first) && IsNumeric(b, second)) &&
      (r.t != null ==> r.errors == [] && IsNumeric(b, r.t) &&
                       (r.t == b.realType <==> first == b.realType || second == b.realType)) &&
      (r.t == null ==> r.errors == [Error(position, 211)])
    ensures operation == ops.orsy ==>
      (r.t != null <==> first == b.booleanType && second == b.booleanType) &&
      (r.t != null ==> r == Typed(b.booleanType, [])) &&
      (r.t == null ==> r.errors == [Error(position, 210)])
    ensures !ops.Additive(operation) ==> r == Typed(null, [])
  {
    if operation == ops.plus || operation == ops.minus then
      if IsNumeric(b, first) && IsNumeric(b, second) then Typed(Promote(b, first, second), [])
      else Typed(null, [Error(position, 211)])
    else if operation == ops.orsy then
      if first == b.booleanType && second == b.booleanType then Typed(b.booleanType, [])
      else Typed(null, [Error(position, 210)])
    else Typed(null, [])
  }

  /** CheckMultiplicativeOperation. `div` and `mod` give integer for two
      integers only, else error 212. `*` and `/` promote like `+`, so the
      quotient of two integers is an integer; otherwise `*` reports 213 and
      `/` reports 214. `and` needs two booleans, else 210. Every failure gives
      null; any other operator gives null silently. */
  function CheckMultiplicativeOperation(b: Builtins, ops: Operators, first: Type?, second: Type?,
                                        operation: int, position: int): (r: Typed)
    requires ops.Valid()
    ensures operation == ops.divsy || operation == ops.modsy ==>
      (r.t != null <==> first == b.integerType && second == b.integerType) &&
      (r.t != null ==> r == Typed(b.integerType, [])) &&
      (r.t == null ==> r.errors == [Error(position, 212)])
    ensures operation == ops.star || operation == ops.slash ==>
      (r.t != null <==> IsNumeric(b, first) && IsNumeric(b, second)) &&
      (r.t != null ==> r.errors == [] && IsNumeric(b, r.t) &&
                       (r.t == b.realType <==> first == b.realType || second == b.realType))
    ensures operation == ops.star && r.t == null ==> r.errors == [Error(position, 213)]
    ensures operation == ops.slash && r.t == null ==> r.errors == [Error(position, 214)]
    ensures operation == ops.andsy ==>
      (r.t != null <==> first == b.booleanType && second == b.booleanType) &&
      (r.t != null ==> r == Typed(b.booleanType, [])) &&
      (r.t == null ==> r.errors == [Error(position, 210)])
    ensures !ops.Multiplicative(operation) ==> r == Typed(null, [])
  {
    if operation == ops.divsy || operation == ops.modsy then
      if first == b.integerType && second == b.integerType then Typed(b.integerType, [])
      else Typed(null, [Error(position, 212)])
    else if operation == ops.slash || operation == ops.star then
      if IsNumeric(b, first) && IsNumeric(b, second) then Typed(Promote(b, first, second), [])
      else if operation == ops.slash then Typed(null, [Error(position, 214)])
      else Typed(null, [Error(position, 213)])
    else if operation == ops.andsy then
      if first == b.booleanType && second == b.booleanType then Typed(b.booleanType, [])
      else Typed(null, [Error(position, 210)])
    else Typed(null, [])
  }

  /** An operator, the position of its token, the type of the operand that
      follows it, and the diagnostics reported while analysing that operand. */
  datatype Operation = Operation(code: int, position: int, operand: Type?, inner: seq<Error>)

  /** The loop of SimpleExpression after its first term: each additive
      operator combines the type so far with the next term. */
  function AddFold(b: Builtins, ops: Operators, acc: Typed, rest: seq<Operation>): (r: Typed)
    requires ops.Valid()
    decreases |rest|
    ensures acc.errors <= r.errors
  {
    if rest == [] then acc
    else
      var step := CheckAdd(b, ops, acc.t, rest[0].operand, rest[0].code, rest[0].position);
      AddFold(b, ops, Typed(step.t, acc.errors + rest[0].inner + step.errors), rest[1..])
  }

  /** The loop of Term after its first factor. */
  function MulFold(b: Builtins, ops: Operators, acc: Typed, rest: seq<Operation>): (r: Typed)
    requires ops.Valid()
    decreases |rest|
    ensures acc.errors <= r.errors
  {
    if rest == [] then acc
    else
      var step := CheckMultiplicativeOperation(b, ops, acc.t, rest[0].operand, rest[0].code, rest[0].position);
      MulFold(b, ops, Typed(step.t, acc.errors + rest[0].inner + step.errors), rest[1..])
  }

  /** SimpleExpression: an optional leading sign, checked against the first
      term's type at `signPosition` (the token after that term), then the
      additive chain. */
  function SimpleExpressionType(b: Builtins, ops: Operators, signed: bool, signPosition: int,
                                first: Typed, rest: seq<Operation>): (r: Typed)
    requires ops.Valid()
    reads first.t
    ensures first.errors <= r.errors
  {
    var sign := if signed then CheckRightSign(b, first.t, signPosition) else [];
    AddFold(b, ops, Typed(first.t, first.errors + sign), rest)
  }

  /** The loop of SimpleExpression, as the imperative `while` it is. */
  method AdditiveChain(b: Builtins, ops: Operators, first: Typed, rest: seq<Operation>) returns (t: Type?, errors: seq<Error>)
    requires ops.Valid()
    ensures Typed(t, errors) == AddFold(b, ops, first, rest)
  {
    t, errors := first.t, first.errors;
    var i := 0;
    while i < |rest|
      invariant 0 <= i <= |rest|
      invariant AddFold(b, ops, Typed(t, errors), rest[i..]) == AddFold(b, ops, first, rest)
    {
      var step := CheckAdd(b, ops, t, rest[i].operand, rest[i].code, rest[i].position);
      assert rest[i..][1..] == rest[i + 1..];
      t, errors := step.t, errors + rest[i].inner + step.errors;
      i := i + 1;
    }
  }

  /** The loop of Term, as the imperative `while` it is. */
  method MultiplicativeChain(b: Builtins, ops: Operators, first: Typed, rest: seq<Operation>) returns (t: Type?, errors: seq<Error>)
    requires ops.Valid()
    ensures Typed(t, errors) == MulFold(b, ops, first, rest)
  {
    t, errors := first.t, first.errors;
    var i := 0;
    while i < |rest|
      invariant 0 <= i <= |rest|
      invariant MulFold(b, ops, Typed(t, errors), rest[i..]) == MulFold(b, ops, first, rest)
    {
      var step := CheckMultiplicativeOperation(b, ops, t, rest[i].operand, rest[i].code, rest[i].position);
      assert rest[i..][1..] == rest[i + 1..];
      t, errors := step.t, errors + rest[i].inner + step.errors;
      i := i + 1;
    }
  }

  /** The diagnostics of the operands alone, in order. */
  function InnerErrors(rest: seq<Operation>): seq<Error> {
    if rest == [] then [] else rest[0].inner + InnerErrors(rest[1..])
  }

  /** A chain of `+` and `-` over numbers is numeric, reports nothing of its
      own, and is real exactly when some operand is real. */
  lemma {:induction false} AdditiveNumericChain(b: Builtins, ops: Operators, acc: Typed, rest: seq<Operation>)
    requires ops.Valid() && b.Valid()
    requires IsNumeric(b, acc.t)
    requires forall k | 0 <= k < |rest| :: (rest[k].code == ops.plus || rest[k].code == ops.minus) &&
                                          IsNumeric(b, rest[k].operand)
    ensures IsNumeric(b, AddFold(b, ops, acc, rest).t)
    ensures AddFold(b, ops, acc, rest).errors == acc.errors + InnerErrors(rest)
    ensures AddFold(b, ops, acc, rest).t == b.realType <==>
      acc.t == b.realType || exists k | 0 <= k < |rest| :: rest[k].operand == b.realType
    decreases |rest|
  {
    if rest != [] {
      var step := CheckAdd(b, ops, acc.t, rest[0].operand, rest[0].code, rest[0].position);
      var next := Typed(step.t, acc.errors + rest[0].inner + step.errors);
      AdditiveNumericChain(b, ops, next, rest[1..]);
      assert acc.errors + rest[0].inner + InnerErrors(rest[1..]) == acc.errors + InnerErrors(rest);
      if exists k | 0 <= k < |rest[1..]| :: rest[1..][k].operand == b.realType {
        var k :| 0 <= k < |rest[1..]| && rest[1..][k].operand == b.realType;
        assert rest[k + 1].operand == b.realType;
      }
      if exists k | 0 <= k < |rest| :: rest[k].operand == b.realType {
        var k :| 0 <= k < |rest| && rest[k].operand == b.realType;
        if k > 0 {
          assert rest[1..][k - 1].operand == b.realType;
        }
      }
    }
  }

  /** An unknown type is not absorbed by `+` and `-`: once the type so far is
      null, a chain of them stays null and every operator reports 211. */
  lemma {:induction false} AdditiveUnknownPoisons(b: Builtins, ops: Operators, acc: Typed, rest: seq<Operation>)
    requires ops.Valid()
    requires acc.t == null
    requires forall k | 0 <= k < |rest| :: rest[k].code == ops.plus || rest[k].code == ops.minus
    ensures AddFold(b, ops, acc, rest).t == null
    ensures forall k | 0 <= k < |rest| :: Error(rest[k].position, 211) in AddFold(b, ops, acc, rest).errors
    decreases |rest|
  {
    if rest != [] {
      var step := CheckAdd(b, ops, acc.t, rest[0].operand, rest[0].code, rest[0].position);
      var next := Typed(step.t, acc.errors + rest[0].inner + step.errors);
      assert step.errors == [Error(rest[0].position, 211)];
      AdditiveUnknownPoisons(b, ops, next, rest[1..]);
      forall k | 0 <= k < |rest|
        ensures Error(rest[k].position, 211) in AddFold(b, ops, acc, rest).errors
      {
        if k == 0 {
          assert Error(rest[0].position, 211) in next.errors;
        } else {
          assert rest[1..][k - 1] == rest[k];
        }
      }
    }
  }

  /** In particular an undeclared operand of `+` (whose type is null) makes
      the sum report 211 and have no type. */
  lemma UnknownOperandOfPlus(b: Builtins, ops: Operators, position: int)
    requires ops.Valid() && b.Valid()
    ensures CheckAdd(b, ops, null, b.integerType, ops.plus, position) == Typed(null, [Error(position, 211)])
    ensures CheckAdd(b, ops, b.integerType, null, ops.plus, position) == Typed(null, [Error(position, 211)])
  {
  }

  /** A chain of `div`, `mod`, `*` and `/` over integers stays integer and
      reports nothing of its own: integer division by `/` is integer. */
  lemma {:induction false} IntegerMultiplicativeChain(b: Builtins, ops: Operators, acc: Typed, rest: seq<Operation>)
    requires ops.Valid() && b.Valid()
    requires acc.t == b.integerType
    requires forall k | 0 <= k < |rest| :: rest[k].code in {ops.star, ops.slash, ops.divsy, ops.modsy} &&
                                          rest[k].operand == b.integerType
    ensures MulFold(b, ops, acc, rest) == Typed(b.integerType, acc.errors + InnerErrors(rest))
    decreases |rest|
  {
    if rest != [] {
      var step := CheckMultiplicativeOperation(b, ops, acc.t, rest[0].operand, rest[0].code, rest[0].position);
      var next := Typed(step.t, acc.errors + rest[0].inner + step.errors);
      assert step == Typed(b.integerType, []);
      IntegerMultiplicativeChain(b, ops, next, rest[1..]);
      assert acc.errors + rest[0].inner + InnerErrors(rest[1..]) == acc.errors + InnerErrors(rest);
    }
  }

  /** A chain of `and` over booleans stays boolean and reports nothing of its own. */
  lemma {:induction false} ConjunctionChain(b: Builtins, ops: Operators, acc: Typed, rest: seq<Operation>)
    requires ops.Valid() && b.Valid()
    requires acc.t == b.booleanType
    requires forall k | 0 <= k < |rest| :: rest[k].code == ops.andsy && rest[k].operand == b.booleanType
    ensures MulFold(b, ops, acc, rest) == Typed(b.booleanType, acc.errors + InnerErrors(rest))
    decreases |rest|
  {
    if rest != [] {
      var step := CheckMultiplicativeOperation(b, ops, acc.t, rest[0].operand, rest[0].code, rest[0].position);
      var next := Typed(step.t, acc.errors + rest[0].inner + step.errors);
      ConjunctionChain(b, ops, next, rest[1..]);
      assert acc.errors + rest[0].inner + InnerErrors(rest[1..]) == acc.errors + InnerErrors(rest);
    }
  }

  /** Once a multiplicative chain has lost its type, it never regains it:
      each later operator reports its own error. */
  lemma {:induction false} MultiplicativeUnknownPoisons(b: Builtins, ops: Operators, acc: Typed, rest: seq<Operation>)
    requires ops.Valid()
    requires acc.t == null
    requires forall k | 0 <= k < |rest| :: ops.Multiplicative(rest[k].code)
    ensures MulFold(b, ops, acc, rest).t == null
    ensures |MulFold(b, ops, acc, rest).errors| == |acc.errors| + |InnerErrors(rest)| + |rest|
    decreases |rest|
  {
    if rest != [] {
      var step := CheckMultiplicativeOperation(b, ops, acc.t, rest[0].operand, rest[0].code, rest[0].position);
      var next := Typed(step.t, acc.errors + rest[0].inner + step.errors);
      assert step.t == null && |step.errors| == 1;
      MultiplicativeUnknownPoisons(b, ops, next, rest[1..]);
    }
  }

  /** A sign before a char operand is an error 211; the chain keeps it. */
  lemma SignBeforeChar(b: Builtins, ops: Operators, signPosition: int, rest: seq<Operation>)
    requires ops.Valid() && b.Valid()
    ensures Error(signPosition, 211) in SimpleExpressionType(b, ops, true, signPosition, Typed(b.charType, []), rest).errors
  {
    var r := SimpleExpressionType(b, ops, true, signPosition, Typed(b.charType, []), rest);
    assert Typed(b.charType, [Error(signPosition, 211)]).errors <= AddFold(b, ops, Typed(b.charType, [Error(signPosition, 211)]), rest).errors;
    assert r.errors[0] == Error(signPosition, 211);
  }

  /** The index rule of Variable: expression k inside the brackets must have
      the base type of the k-th index type of the array, which is a subrange;
      otherwise error 328 at the token after that expression. The counter
      starts again at zero for each bracket pair. An index type that is not a
      subrange throws in C# and is excluded. */
  function CheckIndexes(indexes: seq<Type?>, expressions: seq<Type?>, positions: seq<int>): (errors: seq<Error>)
    requires |expressions| == |positions| <= |indexes|
    requires forall k | 0 <= k < |expressions| :: indexes[k] != null && indexes[k].code == Limiteds
    reads set k | 0 <= k < |expressions| :: indexes[k]
    ensures |errors| == |Mismatched(indexes, expressions, 0)|
    ensures forall e | e in errors :: exists k | 0 <= k < |expressions| && expressions[k] != indexes[k].baseType ::
      e == Error(positions[k], 328)
    ensures forall k | 0 <= k < |expressions| && expressions[k] != indexes[k].baseType ::
      Error(positions[k], 328) in errors
  {
    IndexErrors(indexes, expressions, positions, 0)
  }

  /** The positions from `from` on whose expression is not of its index's
      base type. */
  ghost function Mismatched(indexes: seq<Type?>, expressions: seq<Type?>, from: nat): set<nat>
    requires |expressions| <= |indexes|
    requires forall k | 0 <= k < |expressions| :: indexes[k] != null
    reads set k | 0 <= k < |expressions| :: indexes[k]
  {
    set k: nat | from <= k < |expressions| && expressions[k] != indexes[k].baseType
  }

  /** CheckIndexes from expression `from` on. */
  function IndexErrors(indexes: seq<Type?>, expressions: seq<Type?>, positions: seq<int>, from: nat): (errors: seq<Error>)
    requires from <= |expressions| == |positions| <= |indexes|
    requires forall k | 0 <= k < |expressions| :: indexes[k] != null && indexes[k].code == Limiteds
    reads set k | 0 <= k < |expressions| :: indexes[k]
    decreases |expressions| - from
    ensures |errors| == |Mismatched(indexes, expressions, from)|
    ensures forall e | e in errors :: exists k | from <= k < |expressions| && expressions[k] != indexes[k].baseType ::
      e == Error(positions[k], 328)
    ensures forall k | from <= k < |expressions| && expressions[k] != indexes[k].baseType ::
      Error(positions[k], 328) in errors
  {
    if from == |expressions| then
      assert Mismatched(indexes, expressions, from) == {};
      []
    else
      var mismatch := expressions[from] != indexes[from].baseType;
      var first := if mismatch then [Error(positions[from], 328)] else [];
      var rest := IndexErrors(indexes, expressions, positions, from + 1);
      assert Mismatched(indexes, expressions, from) ==
        (if mismatch then {from} else {}) + Mismatched(indexes, expressions, from + 1);
      first + rest
  }

  /** AssignmentStatement's rule: error 328 at the `:=` when the types are not
      compatible; otherwise, for a subrange variable given a value of
      enumeration type, error 306 at the current token when the first token
      of the expression is outside the subrange. The ordinals are positions in
      the list of member spellings, by name; -1 for a spelling missing from it.
      For any other compatible pair nothing is reported. */
  function AssignmentErrors(b: Builtins, variableType: Type?, expressionType: Type?,
                            assignPosition: int, value: Symbol?, currentPosition: int): (errors: seq<Error>)
    requires CheckAssignmentTypes(b, variableType, expressionType) && variableType.code == Limiteds &&
             expressionType.code == Enums ==>
               value != null && variableType.min.Some? && variableType.min.value.enumMember != null &&
               variableType.max.Some? && variableType.max.value.enumMember != null
    reads variableType, expressionType
    ensures !CheckAssignmentTypes(b, variableType, expressionType) <==> errors == [Error(assignPosition, 328)]
    ensures CheckAssignmentTypes(b, variableType, expressionType) ==>
      (errors == [] || errors == [Error(currentPosition, 306)])
    ensures errors == [Error(currentPosition, 306)] ==>
      variableType.code == Limiteds && expressionType.code == Enums
    ensures CheckAssignmentTypes(b, variableType, expressionType) && variableType.code == Limiteds &&
            expressionType.code == Enums ==>
      var names := Names(expressionType.symbols);
      (errors == [] <==>
        NameIndex(names, variableType.min.value.enumMember.name) <= NameIndex(names, value.name) <=
        NameIndex(names, variableType.max.value.enumMember.name))
  {
    if !CheckAssignmentTypes(b, variableType, expressionType) then [Error(assignPosition, 328)]
    else if variableType.code == Limiteds && expressionType.code == Enums then
      var names := Names(expressionType.symbols);
      var min := NameIndex(names, variableType.min.value.enumMember.name);
      var max := NameIndex(names, variableType.max.value.enumMember.name);
      var current := NameIndex(names, value.name);
      if min > current || current > max then [Error(currentPosition, 306)] else []
    else []
  }

  /** `Symbols.Select(x => x.Name)`. */
  function Names(symbols: seq<Symbol>): (names: seq<string>)
    ensures |names| == |symbols|
    ensures forall k | 0 <= k < |symbols| :: names[k] == symbols[k].name
  {
    if symbols == [] then [] else [symbols[0].name] + Names(symbols[1..])
  }

  /** List.IndexOf on spellings: the first position holding `name`, or -1. */
  function NameIndex(names: seq<string>, name: string): (i: int)
    ensures -1 <= i < |names|
    ensures i == -1 <==> name !in names
    ensures i >= 0 ==> names[i] == name && name !in names[..i]
  {
    if names == [] then -1
    else if names[0] == name then 0
    else
      var i := NameIndex(names[1..], name);
      assert i >= 0 ==> names[1..][..i] == names[1..i + 1];
      if i == -1 then -1 else i + 1
  }

  /** List.IndexOf on symbols, by reference: the first position holding
      `symbol`, or -1 (also for null, which no member is). */
  function IndexOf(symbols: seq<Symbol>, symbol: Symbol?): (i: int)
    ensures -1 <= i < |symbols|
    ensures i == -1 <==> symbol !in symbols
    ensures i >= 0 ==> symbols[i] == symbol && symbol !in symbols[..i]
  {
    if symbols == [] then -1
    else if symbols[0] == symbol then 0
    else
      var i := IndexOf(symbols[1..], symbol);
      assert i >= 0 ==> symbols[1..][..i] == symbols[1..i + 1];
      if i == -1 then -1 else i + 1
  }

  /** What LimitedType decides from its two bounds: the diagnostics, and
      whether it records Min, Max and BaseType (and with which base). */
  datatype LimitedOutcome = LimitedOutcome(errors: seq<Error>, base: Option<Type>)

  /** The rule of LimitedType. 112 when the two bounds have different types.
      Then, by the first bound's type: integer bounds must increase by value,
      char bounds by code, enumeration bounds by ordinal among the members
      (a member missing from the list has ordinal -1); otherwise 112 again and
      nothing is recorded, else the bounds are recorded with that base. A
      real (or any other scalar) first bound records nothing and reports no
      more. Every error is reported at `position`, the current token. */
  function LimitedCheck(b: Builtins, firstType: Type?, firstConst: ConstValue,
                        secondType: Type?, secondConst: ConstValue, position: int): (r: LimitedOutcome)
    requires firstType != null
    requires firstType == b.integerType ==> firstConst.integer.Some? && secondConst.integer.Some?
    requires firstType == b.charType ==> firstConst.symbol.Some? && secondConst.symbol.Some?
    requires b.Valid()
    reads firstType
    ensures firstType != secondType ==> |r.errors| >= 1 && r.errors[0] == Error(position, 112)
    ensures forall e | e in r.errors :: e == Error(position, 112)
    ensures |r.errors| <= 2
    ensures r.base.Some? <==>
      (firstType == b.integerType && firstConst.integer.value < secondConst.integer.value) ||
      (firstType == b.charType && firstConst.symbol.value < secondConst.symbol.value) ||
      (firstType.code == Enums &&
       IndexOf(firstType.symbols, firstConst.enumMember) < IndexOf(firstType.symbols, secondConst.enumMember))
    ensures r.base.Some? ==> r.base.value == firstType
    ensures (r.base.None? && firstType in {b.integerType, b.charType}) || (r.base.None? && firstType.code == Enums) ==>
      |r.errors| >= 1 && r.errors[|r.errors| - 1] == Error(position, 112)
    ensures firstType == secondType && r.base.Some? ==> r.errors == []
    ensures firstType.code !in {Enums} && firstType !in {b.integerType, b.charType} ==>
      r.base.None? && r.errors == if firstType != secondType then [Error(position, 112)] else []
    ensures r.errors ==
      (if firstType != secondType then [Error(position, 112)] else []) +
      (if r.base.None? && (firstType in {b.integerType, b.charType} || firstType.code == Enums)
       then [Error(position, 112)] else [])
  {
    var differ := if firstType != secondType then [Error(position, 112)] else [];
    if firstType == b.integerType then
      if firstConst.integer.value >= secondConst.integer.value then LimitedOutcome(differ + [Error(position, 112)], None)
      else LimitedOutcome(differ, Some(b.integerType))
    else if firstType == b.charType then
      if firstConst.symbol.value >= secondConst.symbol.value then LimitedOutcome(differ + [Error(position, 112)], None)
      else LimitedOutcome(differ, Some(b.charType))
    else if firstType.code == Enums then
      if IndexOf(firstType.symbols, firstConst.enumMember) >= IndexOf(firstType.symbols, secondConst.enumMember)
      then LimitedOutcome(differ + [Error(position, 112)], None)
      else LimitedOutcome(differ, Some(firstType))
    else LimitedOutcome(differ, None)
  }

  /** `1..10` is a valid integer subrange; `10..1` and `5..5` are not. */
  lemma IntegerSubranges(b: Builtins, p: int)
    requires b.Valid()
    ensures LimitedCheck(b, b.integerType, ConstValue(Some(1), None, null), b.integerType, ConstValue(Some(10), None, null), p)
            == LimitedOutcome([], Some(b.integerType))
    ensures LimitedCheck(b, b.integerType, ConstValue(Some(10), None, null), b.integerType, ConstValue(Some(1), None, null), p)
            == LimitedOutcome([Error(p, 112)], None)
    ensures LimitedCheck(b, b.integerType, ConstValue(Some(5), None, null), b.integerType, ConstValue(Some(5), None, null), p)
            == LimitedOutcome([Error(p, 112)], None)
  {
  }

  /** Bounds of two different types report 112 even when they increase, and
      are still recorded: after `type A = (x, y); B = (z, y)` the member `y`
      stays A's constant (its Symbol is already present), so in `C = z..y`
      the first bound is of type B, the second of type A, and z precedes y
      among B's members. */
  lemma MixedSubrangeBounds(b: Builtins, typeA: Type, typeB: Type, x: Symbol, y: Symbol, z: Symbol, p: int)
    requires b.Valid()
    requires typeA != typeB && typeA.code == Enums && typeB.code == Enums
    requires typeA.symbols == [x, y] && typeB.symbols == [z, y] && z != y
    ensures LimitedCheck(b, typeB, ConstValue(None, None, z), typeA, ConstValue(None, None, y), p)
            == LimitedOutcome([Error(p, 112)], Some(typeB))
  {
    assert IndexOf(typeB.symbols, z) == 0 && IndexOf(typeB.symbols, y) == 1;
  }

  /** `false..true` is a valid subrange of boolean: its members are the two
      constants' very Symbols, in that order. */
  lemma BooleanSubrange(b: Builtins, falseSymbol: Symbol, trueSymbol: Symbol, p: int)
    requires b.Valid() && b.booleanType.symbols == [falseSymbol, trueSymbol] && falseSymbol != trueSymbol
    ensures LimitedCheck(b, b.booleanType, ConstValue(None, None, falseSymbol),
                         b.booleanType, ConstValue(None, None, trueSymbol), p)
            == LimitedOutcome([], Some(b.booleanType))
  {
    assert IndexOf(b.booleanType.symbols, falseSymbol) == 0 && IndexOf(b.booleanType.symbols, trueSymbol) == 1;
  }
}
