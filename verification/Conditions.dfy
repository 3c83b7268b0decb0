/**
 * Query conditions: a tree of and/or conditions is compiled to one flat text with a list of
 * positional parameters. Conditions may be empty anywhere in the tree.
 */
module Conditions {
  import opened Wrappers
  import opened SqlText

  datatype QueryCondition = QueryCondition(expression: Text, params: seq<Param>) {
    predicate IsEmpty() {
      expression == []
    }

    function FilterConditions(): Option<seq<Text>> {
      if IsEmpty() then None else Some([expression])
    }

    function FilterParams(): Option<seq<Param>> {
      if params == [] then None else Some(params)
    }
  }

  // The empty condition carries an empty list as its only parameter.
  const EMPTY := QueryCondition([], [EmptyList])

  function RemoveEmpty(cs: seq<QueryCondition>): seq<QueryCondition> {
    if cs == [] then [] else (if cs[0].IsEmpty() then [] else [cs[0]]) + RemoveEmpty(cs[1..])
  }

  // The expressions in parentheses, separated by the operator
  function Joined(operator: Token, cs: seq<QueryCondition>): Text
    requires cs != []
  {
    [Open] + cs[0].expression + [Close] + if |cs| == 1 then [] else [operator] + Joined(operator, cs[1..])
  }

  function AllParams(cs: seq<QueryCondition>): seq<Param> {
    if cs == [] then [] else cs[0].params + AllParams(cs[1..])
  }

  function Operator(operator: Token, cs: seq<QueryCondition>): QueryCondition {
    var list := RemoveEmpty(cs);
    if list == [] then EMPTY else QueryCondition(Joined(operator, list), AllParams(list))
  }

  function OperatorOr(cs: seq<QueryCondition>): QueryCondition {
    Operator(Or, cs)
  }

  function OperatorAnd(cs: seq<QueryCondition>): QueryCondition {
    Operator(And, cs)
  }

  // ---------------------------------------------------------------------------------------------
  // Condition trees and what they mean

  datatype Tree = Leaf(condition: QueryCondition) | AnyOf(trees: seq<Tree>) | AllOf(trees: seq<Tree>)

  function Build(tree: Tree): QueryCondition {
    match tree
    case Leaf(condition) => condition
    case AnyOf(trees) => OperatorOr(BuildAll(trees))
    case AllOf(trees) => OperatorAnd(BuildAll(trees))
  }

  function BuildAll(trees: seq<Tree>): (cs: seq<QueryCondition>)
    ensures |cs| == |trees|
  {
    if trees == [] then [] else [Build(trees[0])] + BuildAll(trees[1..])
  }

  // A leaf is an empty condition, with whatever parameters, or one the database can evaluate by itself.
  predicate WellFormed(row: Row, tree: Tree) {
    match tree
    case Leaf(c) => c.IsEmpty() || Eval(row, c.expression, c.params).Some?
    case AnyOf(trees) => forall i | 0 <= i < |trees| :: WellFormed(row, trees[i])
    case AllOf(trees) => forall i | 0 <= i < |trees| :: WellFormed(row, trees[i])
  }

  function FoldDisj(v: Truth, vs: seq<Truth>): Truth
    decreases |vs|
  {
    if vs == [] then v else FoldDisj(Disj(v, vs[0]), vs[1..])
  }

  function FoldConj(v: Truth, vs: seq<Truth>): Truth
    decreases |vs|
  {
    if vs == [] then v else FoldConj(Conj(v, vs[0]), vs[1..])
  }

  // The truth value of a tree for a row; None for a tree without any condition in it
  function Meaning(row: Row, tree: Tree): Option<Truth> {
    match tree
    case Leaf(c) => if c.IsEmpty() then None else Eval(row, c.expression, c.params)
    case AnyOf(trees) =>
      var vs := Meanings(row, trees);
      if vs == [] then None else Some(FoldDisj(vs[0], vs[1..]))
    case AllOf(trees) =>
      var vs := Meanings(row, trees);
      if vs == [] then None else Some(FoldConj(vs[0], vs[1..]))
  }

  function Meanings(row: Row, trees: seq<Tree>): seq<Truth> {
    if trees == [] then []
    else
      var first := Meaning(row, trees[0]);
      (if first.None? then [] else [first.value]) + Meanings(row, trees[1..])
  }

  // ---------------------------------------------------------------------------------------------
  // The flat text means what the tree means

  predicate Evaluable(row: Row, cs: seq<QueryCondition>) {
    forall i | 0 <= i < |cs| :: Eval(row, cs[i].expression, cs[i].params).Some?
  }

  function Values(row: Row, cs: seq<QueryCondition>): (vs: seq<Truth>)
    requires Evaluable(row, cs)
    ensures |vs| == |cs|
  {
    if cs == [] then [] else [Eval(row, cs[0].expression, cs[0].params).value] + Values(row, cs[1..])
  }

  // A condition in parentheses reads as a single word.
  lemma ReadParenthesized(row: Row, c: QueryCondition, u: Text, qs: seq<Param>)
    requires Eval(row, c.expression, c.params).Some?
    ensures ReadWord(row, [Open] + c.expression + [Close] + u, c.params + qs)
      == Parsed(Eval(row, c.expression, c.params).value, u, qs)
  {
    var t := [Open] + c.expression + [Close] + u;
    assert t[0] == Open && t[1..] == c.expression + ([Close] + u);
    ReadOrExtends(row, c.expression, c.params, [Close] + u, qs);
    var v := Eval(row, c.expression, c.params).value;
    assert Extended(Parsed(v, [], []), [Close] + u, qs) == Parsed(v, [Close] + u, qs);
    assert ([Close] + u)[1..] == u;
  }

  lemma ReadParenthesizedOperand(row: Row, c: QueryCondition, u: Text, qs: seq<Param>)
    requires Eval(row, c.expression, c.params).Some? && Stops(u, {And})
    ensures ReadAnd(row, [Open] + c.expression + [Close] + u, c.params + qs)
      == Parsed(Eval(row, c.expression, c.params).value, u, qs)
  {
    ReadParenthesized(row, c, u, qs);
  }

  lemma {:induction false} ReadJoinedOr(row: Row, v: Truth, cs: seq<QueryCondition>)
    requires cs != [] && Evaluable(row, cs)
    ensures MoreOr(row, v, [Or] + Joined(Or, cs), AllParams(cs)) == Parsed(FoldDisj(v, Values(row, cs)), [], [])
    decreases |cs|
  {
    var t := [Or] + Joined(Or, cs);
    var more := if |cs| == 1 then [] else [Or] + Joined(Or, cs[1..]);
    assert t[1..] == [Open] + cs[0].expression + [Close] + more;
    ReadParenthesizedOperand(row, cs[0], more, AllParams(cs[1..]));
    if |cs| == 1 {
      assert AllParams(cs[1..]) == [] && Values(row, cs[1..]) == [];
    } else {
      ReadJoinedOr(row, Disj(v, Values(row, cs)[0]), cs[1..]);
    }
  }

  lemma {:induction false} ReadJoinedAnd(row: Row, v: Truth, cs: seq<QueryCondition>)
    requires cs != [] && Evaluable(row, cs)
    ensures MoreAnd(row, v, [And] + Joined(And, cs), AllParams(cs)) == Parsed(FoldConj(v, Values(row, cs)), [], [])
    decreases |cs|
  {
    var t := [And] + Joined(And, cs);
    var more := if |cs| == 1 then [] else [And] + Joined(And, cs[1..]);
    assert t[1..] == [Open] + cs[0].expression + [Close] + more;
    ReadParenthesized(row, cs[0], more, AllParams(cs[1..]));
    if |cs| == 1 {
      assert AllParams(cs[1..]) == [];
    } else {
      ReadJoinedAnd(row, Conj(v, Values(row, cs)[0]), cs[1..]);
    }
  }

  lemma EvalJoinedOr(row: Row, cs: seq<QueryCondition>)
    requires cs != [] && Evaluable(row, cs)
    ensures Eval(row, Joined(Or, cs), AllParams(cs)) == Some(FoldDisj(Values(row, cs)[0], Values(row, cs)[1..]))
  {
    var more := if |cs| == 1 then [] else [Or] + Joined(Or, cs[1..]);
    var vs := Values(row, cs);
    ReadParenthesizedOperand(row, cs[0], more, AllParams(cs[1..]));
    assert ReadAnd(row, Joined(Or, cs), AllParams(cs)) == Parsed(vs[0], more, AllParams(cs[1..]));
    if |cs| > 1 {
      ReadJoinedOr(row, vs[0], cs[1..]);
    }
    assert MoreOr(row, vs[0], more, AllParams(cs[1..])) == Parsed(FoldDisj(vs[0], vs[1..]), [], []);
  }

  lemma EvalJoinedAnd(row: Row, cs: seq<QueryCondition>)
    requires cs != [] && Evaluable(row, cs)
    ensures Eval(row, Joined(And, cs), AllParams(cs)) == Some(FoldConj(Values(row, cs)[0], Values(row, cs)[1..]))
  {
    var more := if |cs| == 1 then [] else [And] + Joined(And, cs[1..]);
    var vs := Values(row, cs);
    ReadParenthesized(row, cs[0], more, AllParams(cs[1..]));
    assert ReadWord(row, Joined(And, cs), AllParams(cs)) == Parsed(vs[0], more, AllParams(cs[1..]));
    if |cs| > 1 {
      ReadJoinedAnd(row, vs[0], cs[1..]);
    }
    assert MoreAnd(row, vs[0], more, AllParams(cs[1..])) == Parsed(FoldConj(vs[0], vs[1..]), [], []);
    assert ReadAnd(row, Joined(And, cs), AllParams(cs)) == Parsed(FoldConj(vs[0], vs[1..]), [], []);
    assert MoreOr(row, FoldConj(vs[0], vs[1..]), [], []) == Parsed(FoldConj(vs[0], vs[1..]), [], []);
  }

  // For every nesting of conditions, reading the text with the usual precedence and binding the
  // parameters from left to right gives the truth value of the tree; the condition is empty exactly
  // when the tree has no condition in it.
  lemma {:induction false} BuildPreservesMeaning(row: Row, tree: Tree)
    requires WellFormed(row, tree)
    ensures var c := Build(tree);
      if c.IsEmpty() then Meaning(row, tree).None?
      else Meaning(row, tree).Some? && Eval(row, c.expression, c.params) == Meaning(row, tree)
    decreases tree, 1
  {
    match tree
    case Leaf(_) =>
    case AnyOf(trees) =>
      BuildAllPreservesMeaning(row, trees);
      var cs := RemoveEmpty(BuildAll(trees));
      if cs != [] {
        EvalJoinedOr(row, cs);
      }
    case AllOf(trees) =>
      BuildAllPreservesMeaning(row, trees);
      var cs := RemoveEmpty(BuildAll(trees));
      if cs != [] {
        EvalJoinedAnd(row, cs);
      }
  }

  lemma {:induction false} BuildAllPreservesMeaning(row: Row, trees: seq<Tree>)
    requires forall i | 0 <= i < |trees| :: WellFormed(row, trees[i])
    ensures var cs := RemoveEmpty(BuildAll(trees)); Evaluable(row, cs) && Values(row, cs) == Meanings(row, trees)
    decreases trees, 0
  {
    if trees != [] {
      BuildPreservesMeaning(row, trees[0]);
      BuildAllPreservesMeaning(row, trees[1..]);
      var c, cs := Build(trees[0]), RemoveEmpty(BuildAll(trees[1..]));
      assert BuildAll(trees)[1..] == BuildAll(trees[1..]);
      if !c.IsEmpty() {
        assert RemoveEmpty(BuildAll(trees)) == [c] + cs;
        assert ([c] + cs)[1..] == cs;
      } else {
        assert RemoveEmpty(BuildAll(trees)) == cs;
      }
    }
  }

  // Placeholders and parameters agree in number for every condition that is not empty.
  lemma BuildIsAligned(row: Row, tree: Tree)
    requires WellFormed(row, tree) && !Build(tree).IsEmpty()
    ensures Placeholders(Build(tree).expression) == |Build(tree).params|
  {
    BuildPreservesMeaning(row, tree);
    EvaluableIsAligned(row, Build(tree).expression, Build(tree).params);
  }
}
