/**
 * Assembly of whole queries: the where clause and its parameters are added to the text of a
 * select, update, delete or count statement.
 */
module QueryBuilder {
  import opened Wrappers
  import opened SqlText
  import opened Conditions

  datatype Query = Query(text: Text, params: seq<Param>)

  datatype Where = NoWhere | Where(condition: Text, values: seq<Param>) {
    function Text(): Text {
      if NoWhere? then [] else [Word("where", 0)] + condition
    }

    function Params(): seq<Param> {
      if NoWhere? then [] else values
    }

    // The condition has as many placeholders as there are parameters.
    predicate Aligned() {
      Placeholders(Text()) == |Params()|
    }

    // Whether a row is selected; without a where clause every row is
    function Selects(row: Row): Option<Truth> {
      if NoWhere? then Some(True) else Eval(row, condition, values)
    }
  }

  function JoinedWithAnd(conditions: seq<Text>): Text
    requires conditions != []
  {
    if |conditions| == 1 then conditions[0] else conditions[0] + [And] + JoinedWithAnd(conditions[1..])
  }

  // _build_where_clause
  function BuildWhere(conditions: Option<seq<Text>>, params: Option<seq<Param>>): Where {
    if conditions.None? || conditions.value == [] then NoWhere
    else Where(JoinedWithAnd(conditions.value), if params.Some? then params.value else [])
  }

  // Words without placeholders
  function Words(texts: seq<string>): (t: Text)
    ensures Placeholders(t) == 0
  {
    if texts == [] then [] else [Word(texts[0], 0)] + Words(texts[1..])
  }

  lemma StatementIsAligned(head: Text, where: Where, tail: Text)
    requires where.Aligned() && Placeholders(tail) == 0
    ensures Placeholders(head + where.Text() + tail) == Placeholders(head) + |where.Params()|
  {
    PlaceholdersOfConcat(head, where.Text());
    PlaceholdersOfConcat(head + where.Text(), tail);
  }

  function SelectHead(table: string, fields: seq<string>, join: Option<string>): seq<string> {
    ["select"] + fields + ["from", table] + if join.Some? then [join.value] else []
  }

  function SelectTail(orderBy: seq<string>, limit: Option<string>, offset: Option<string>): seq<string> {
    (if orderBy != [] then ["order by"] + orderBy else [])
    + (if limit.Some? then ["limit", limit.value] else [])
    + (if offset.Some? then ["offset", offset.value] else [])
  }

  // Limit and offset are literals in the text, not parameters; None stands for no number as well as for zero.
  method Select(table: string, fields: seq<string>, conditions: Option<seq<Text>>, params: Option<seq<Param>>,
                join: Option<string>, orderBy: seq<string>, limit: Option<string>, offset: Option<string>)
    returns (query: Query)
    ensures var where := BuildWhere(conditions, params);
      && query.text == Words(SelectHead(table, fields, join)) + where.Text() + Words(SelectTail(orderBy, limit, offset))
      && SelectHead(table, fields, join) == ["select"] + fields + ["from", table] + (if join.Some? then [join.value] else [])
      && SelectTail(orderBy, limit, offset) == (if orderBy == [] then [] else ["order by"] + orderBy)
        + (if limit.Some? then ["limit", limit.value] else []) + (if offset.Some? then ["offset", offset.value] else [])
      && query.params == where.Params()
      && (where.Aligned() ==> Placeholders(query.text) == |query.params|)
  {
    var text := Words(SelectHead(table, fields, join));
    var where := BuildWhere(conditions, params);
    ghost var head := text;
    if where.Where? {
      text := text + where.Text();
    }
    text := text + Words(SelectTail(orderBy, limit, offset));
    query := Query(text, where.Params());
    if where.Aligned() {
      StatementIsAligned(head, where, Words(SelectTail(orderBy, limit, offset)));
    }
    assert head + [] == head;
  }

  // delete and count
  method DeleteOrCount(statement: string, conditions: Option<seq<Text>>, params: Option<seq<Param>>) returns (query: Query)
    ensures var where := BuildWhere(conditions, params);
      && query.text == [Word(statement, 0)] + where.Text() && query.params == where.Params()
      && (where.Aligned() ==> Placeholders(query.text) == |query.params|)
  {
    var where := BuildWhere(conditions, params);
    var text := [Word(statement, 0)];
    if where.Where? {
      text := text + where.Text();
    }
    query := Query(text, where.Params());
    if where.Aligned() {
      StatementIsAligned([Word(statement, 0)], where, []);
      assert [Word(statement, 0)] + where.Text() + [] == text;
    }
  }

  function Assignments(columns: seq<string>): (t: Text)
    ensures Placeholders(t) == |columns| && |t| == |columns|
  {
    if columns == [] then [] else [Word(columns[0] + " = ", 1)] + Assignments(columns[1..])
  }

  lemma {:induction false} AssignmentAt(columns: seq<string>, i: nat)
    requires i < |columns|
    ensures Assignments(columns)[i] == Word(columns[i] + " = ", 1)
  {
    if |columns| > 1 {
      AssignmentAt(columns[1..], if i > 0 then i - 1 else 0);
    }
  }

  function UpdateStatement(table: string, columns: seq<string>, values: seq<Param>, where: Where): Query {
    Query([Word("update " + table + " set", 0)] + Assignments(columns) + where.Text(), values + where.Params())
  }

  // The parameters of the assignments come before those of the where clause, as their placeholders do.
  method Update(table: string, columns: seq<string>, values: seq<Param>, conditions: Option<seq<Text>>, params: Option<seq<Param>>)
    returns (query: Query)
    requires |columns| == |values|
    ensures var where := BuildWhere(conditions, params);
      && query == UpdateStatement(table, columns, values, where)
      && |query.text| > |columns| && |query.params| >= |columns| && query.text[0] == Word("update " + table + " set", 0)
      && (forall i | 0 <= i < |columns| :: query.text[1 + i] == Word(columns[i] + " = ", 1) && query.params[i] == values[i])
      && (where.Aligned() ==> Placeholders(query.text) == |query.params|)
  {
    var where := BuildWhere(conditions, params);
    var head := [Word("update " + table + " set", 0)];
    var text := head + Assignments(columns);
    if where.Aligned() {
      PlaceholdersOfConcat(head, Assignments(columns));
      StatementIsAligned(text, where, []);
      assert text + where.Text() + [] == text + where.Text();
    }
    if where.Where? {
      text := text + where.Text();
    }
    query := Query(text, values + where.Params());
    forall i | 0 <= i < |columns| ensures query.text[1 + i] == Word(columns[i] + " = ", 1) {
      AssignmentAt(columns, i);
    }
  }

  // A condition tree handed to the query builder selects the rows for which the tree is true, with
  // matching placeholders and parameters. A tree without any condition selects every row, and the
  // parameter its empty condition carries does not reach the query.
  lemma WhereClauseMeansTheTree(row: Row, tree: Tree)
    requires WellFormed(row, tree)
    ensures var c := Build(tree);
      var where := BuildWhere(c.FilterConditions(), c.FilterParams());
      && where.Aligned()
      && where.Selects(row) == (if Meaning(row, tree).None? then Some(True) else Meaning(row, tree))
      && (Meaning(row, tree).None? ==> where.Text() == [] && where.Params() == [])
  {
    var c := Build(tree);
    BuildPreservesMeaning(row, tree);
    if !c.IsEmpty() {
      BuildIsAligned(row, tree);
      PlaceholdersOfConcat([Word("where", 0)], c.expression);
    }
  }

  // ---------------------------------------------------------------------------------------------
  // How a database reads an update statement

  // The column that a word assigns its placeholder to, if it is an assignment
  function AssignedColumn(t: Token): Option<string> {
    if t.Word? && t.arity == 1 && |t.text| >= 3 && t.text[|t.text| - 3..] == " = " then Some(t.text[..|t.text| - 3]) else None
  }

  datatype SetClause = SetClause(row: map<string, Param>, rest: Text, params: seq<Param>)

  // Assignments from left to right, each with the next parameter
  function ReadSet(t: Text, ps: seq<Param>): SetClause
    decreases |t|
  {
    if t == [] || ps == [] || AssignedColumn(t[0]).None? then SetClause(map[], t, ps)
    else
      var more := ReadSet(t[1..], ps[1..]);
      SetClause(map[AssignedColumn(t[0]).value := ps[0]] + more.row, more.rest, more.params)
  }

  // What an update statement does to a row: the fields it writes, and whether the row is selected at all
  function ReadUpdate(row: Row, q: Query): Option<(map<string, Param>, Truth)> {
    if q.text == [] then None
    else
      var clause := ReadSet(q.text[1..], q.params);
      if clause.rest == [] then if clause.params == [] then Some((clause.row, True)) else None
      else if clause.rest[0] != Word("where", 0) then None
      else match Eval(row, clause.rest[1..], clause.params)
        case Some(v) => Some((clause.row, v))
        case None => None
  }

  // Each column has the value of the same position.
  ghost predicate Pairs(m: map<string, Param>, columns: seq<string>, values: seq<Param>) {
    && |columns| == |values|
    && (forall c :: c in m <==> c in columns)
    && (forall i | 0 <= i < |columns| :: columns[i] in m && m[columns[i]] == values[i])
  }

  ghost predicate Distinct(columns: seq<string>) {
    forall i, j | 0 <= i < j < |columns| :: columns[i] != columns[j]
  }

  lemma ReadOneAssignment(c: string, v: Param, t: Text, qs: seq<Param>)
    ensures var more := ReadSet(t, qs);
      ReadSet([Word(c + " = ", 1)] + t, [v] + qs) == SetClause(map[c := v] + more.row, more.rest, more.params)
  {
    var text := c + " = ";
    assert text[|text| - 3..] == " = " && text[..|text| - 3] == c;
    assert ([Word(text, 1)] + t)[1..] == t && ([v] + qs)[1..] == qs;
  }

  lemma FirstAssignment(columns: seq<string>, values: seq<Param>, t: Text, qs: seq<Param>)
    requires columns != [] && |columns| == |values|
    ensures Assignments(columns) + t == [Word(columns[0] + " = ", 1)] + (Assignments(columns[1..]) + t)
    ensures values + qs == [values[0]] + (values[1..] + qs)
  {
    Reassociate(Word(columns[0] + " = ", 1), Assignments(columns[1..]), t);
    Reassociate(values[0], values[1..], qs);
    assert values == [values[0]] + values[1..];
  }

  lemma Reassociate<T>(x: T, a: seq<T>, b: seq<T>)
    ensures [x] + a + b == [x] + (a + b)
  {
  }

  lemma {:induction false} ReadAssignments(columns: seq<string>, values: seq<Param>, t: Text, qs: seq<Param>)
    requires |columns| == |values| && Distinct(columns) && (t == [] || AssignedColumn(t[0]).None?)
    ensures var r := ReadSet(Assignments(columns) + t, values + qs); Pairs(r.row, columns, values) && r.rest == t && r.params == qs
  {
    if columns == [] {
      assert [] + t == t && values + qs == qs;
    } else {
      ReadAssignments(columns[1..], values[1..], t, qs);
      ReadOneAssignment(columns[0], values[0], Assignments(columns[1..]) + t, values[1..] + qs);
      FirstAssignment(columns, values, t, qs);
      PairsOfMore(ReadSet(Assignments(columns[1..]) + t, values[1..] + qs).row, columns, values);
    }
  }

  lemma PairsOfMore(more: map<string, Param>, columns: seq<string>, values: seq<Param>)
    requires columns != [] && |columns| == |values| && Distinct(columns) && Pairs(more, columns[1..], values[1..])
    ensures Pairs(map[columns[0] := values[0]] + more, columns, values)
  {
    assert forall i | 0 < i < |columns| :: columns[i] == columns[1..][i - 1] && values[i] == values[1..][i - 1];
  }

  // An update statement writes to every column the value given for it, on the rows for which the condition
  // tree holds.
  lemma UpdateStatementMeansTheEdits(row: Row, table: string, columns: seq<string>, values: seq<Param>, tree: Tree)
    returns (written: map<string, Param>)
    requires |columns| == |values| && Distinct(columns) && WellFormed(row, tree)
    ensures Pairs(written, columns, values)
    ensures var c := Build(tree);
      ReadUpdate(row, UpdateStatement(table, columns, values, BuildWhere(c.FilterConditions(), c.FilterParams())))
      == Some((written, if Meaning(row, tree).None? then True else Meaning(row, tree).value))
  {
    var c := Build(tree);
    var where := BuildWhere(c.FilterConditions(), c.FilterParams());
    var q := UpdateStatement(table, columns, values, where);
    assert q.text[1..] == Assignments(columns) + where.Text();
    WhereClauseMeansTheTree(row, tree);
    ReadAssignments(columns, values, where.Text(), where.Params());
    written := ReadSet(q.text[1..], q.params).row;
    assert where.Where? ==> where.Text()[1..] == where.condition;
  }

  // ---------------------------------------------------------------------------------------------
  // Several conditions in one where clause are joined with `and`, without parentheses.

  // A condition without `or` outside parentheses
  predicate IsConjunct(row: Row, c: QueryCondition) {
    var r := ReadAnd(row, c.expression, c.params);
    r.Parsed? && r.rest == [] && r.params == []
  }

  ghost predicate AreConjuncts(row: Row, cs: seq<QueryCondition>) {
    forall i | 0 <= i < |cs| :: IsConjunct(row, cs[i])
  }

  // All of the conditions hold.
  function Conjunction(row: Row, cs: seq<QueryCondition>): Truth
    requires cs != [] && Evaluable(row, cs)
  {
    var first := Eval(row, cs[0].expression, cs[0].params).value;
    if |cs| == 1 then first else Conj(first, Conjunction(row, cs[1..]))
  }

  function Expressions(cs: seq<QueryCondition>): (es: seq<Text>)
    ensures |es| == |cs|
  {
    if cs == [] then [] else [cs[0].expression] + Expressions(cs[1..])
  }

  lemma {:induction false} MoreAndContinues(row: Row, v: Truth, t: Text, ps: seq<Param>, u: Text, qs: seq<Param>)
    requires var r := MoreAnd(row, v, t, ps); r.Parsed? && r.rest == [] && r.params == []
    ensures MoreAnd(row, v, t + u, ps + qs) == MoreAnd(row, MoreAnd(row, v, t, ps).value, u, qs)
    decreases |t|
  {
    if t == [] {
      assert t + u == u && ps + qs == qs;
    } else {
      assert (t + u)[1..] == t[1..] + u;
      ReadWordExtends(row, t[1..], ps, u, qs);
      var r := ReadWord(row, t[1..], ps);
      MoreAndContinues(row, Conj(v, r.value), r.rest, r.params, u, qs);
    }
  }

  lemma {:induction false} MoreAndFactors(row: Row, v: Truth, w: Truth, t: Text, ps: seq<Param>)
    requires MoreAnd(row, w, t, ps).Parsed?
    ensures MoreAnd(row, Conj(v, w), t, ps) == MoreAnd(row, w, t, ps).(value := Conj(v, MoreAnd(row, w, t, ps).value))
    decreases |t|
  {
    if t != [] && t[0] == And {
      var r := ReadWord(row, t[1..], ps);
      assert Conj(Conj(v, w), r.value) == Conj(v, Conj(w, r.value));
      MoreAndFactors(row, v, Conj(w, r.value), r.rest, r.params);
    }
  }

  // Joining two conjuncts, each with its own parameters
  lemma ReadJoinedConjuncts(row: Row, c: QueryCondition, t: Text, qs: seq<Param>)
    requires IsConjunct(row, c) && ReadAnd(row, t, qs).Parsed?
    ensures var r := ReadAnd(row, t, qs);
      ReadAnd(row, c.expression + [And] + t, c.params + qs) == r.(value := Conj(ReadAnd(row, c.expression, c.params).value, r.value))
  {
    var v := ReadAnd(row, c.expression, c.params).value;
    var word := ReadWord(row, c.expression, c.params);
    assert c.expression + [And] + t == c.expression + ([And] + t);
    ReadWordExtends(row, c.expression, c.params, [And] + t, qs);
    MoreAndContinues(row, word.value, word.rest, word.params, [And] + t, qs);
    assert ([And] + t)[1..] == t;
    var next := ReadWord(row, t, qs);
    MoreAndFactors(row, v, next.value, next.rest, next.params);
  }

  lemma ConjunctIsEvaluable(row: Row, c: QueryCondition)
    requires IsConjunct(row, c)
    ensures Eval(row, c.expression, c.params) == Some(ReadAnd(row, c.expression, c.params).value)
  {
    var v := ReadAnd(row, c.expression, c.params).value;
    assert MoreOr(row, v, [], []) == Parsed(v, [], []);
  }

  // A condition that can be evaluated is a conjunct unless something is left after its first operand of `or`.
  lemma EvaluableBeginsWithAConjunct(row: Row, c: QueryCondition)
    requires Eval(row, c.expression, c.params).Some?
    ensures ReadAnd(row, c.expression, c.params).Parsed?
    ensures IsConjunct(row, c) <==> ReadAnd(row, c.expression, c.params).rest == []
  {
    var r := ReadAnd(row, c.expression, c.params);
    assert r.Parsed? && r.rest == [] ==> ReadOr(row, c.expression, c.params) == MoreOr(row, r.value, [], r.params) == Parsed(r.value, [], r.params);
  }

  lemma JoinedOfOne(c: QueryCondition)
    ensures JoinedWithAnd(Expressions([c])) == c.expression && AllParams([c]) == c.params
  {
    assert [c][1..] == [] && Expressions([c]) == [c.expression] && AllParams([c]) == c.params + [];
  }

  lemma JoinedOfMore(cs: seq<QueryCondition>)
    requires |cs| > 1
    ensures JoinedWithAnd(Expressions(cs)) == cs[0].expression + [And] + JoinedWithAnd(Expressions(cs[1..]))
    ensures AllParams(cs) == cs[0].params + AllParams(cs[1..])
  {
    assert Expressions(cs)[1..] == Expressions(cs[1..]);
  }

  lemma {:induction false} ReadAllConjuncts(row: Row, cs: seq<QueryCondition>)
    requires cs != [] && Evaluable(row, cs) && AreConjuncts(row, cs)
    ensures ReadAnd(row, JoinedWithAnd(Expressions(cs)), AllParams(cs)) == Parsed(Conjunction(row, cs), [], [])
  {
    ConjunctIsEvaluable(row, cs[0]);
    if |cs| == 1 {
      JoinedOfOne(cs[0]);
      assert cs == [cs[0]];
    } else {
      ReadAllConjuncts(row, cs[1..]);
      JoinedOfMore(cs);
      ReadJoinedConjuncts(row, cs[0], JoinedWithAnd(Expressions(cs[1..])), AllParams(cs[1..]));
    }
  }

  lemma ReadOneMore(row: Row, c: QueryCondition, t: Text, qs: seq<Param>)
    requires Eval(row, c.expression, c.params).Some? && ReadAnd(row, t, qs).Parsed?
    ensures var r := ReadAnd(row, c.expression + [And] + t, c.params + qs);
      r.Parsed? && (r.rest == [] <==> IsConjunct(row, c) && ReadAnd(row, t, qs).rest == [])
  {
    EvaluableBeginsWithAConjunct(row, c);
    if IsConjunct(row, c) {
      ReadJoinedConjuncts(row, c, t, qs);
    } else {
      ReadAndExtends(row, c.expression, c.params, [And] + t, qs);
      assert c.expression + [And] + t == c.expression + ([And] + t);
    }
  }

  lemma ConjunctsOfMore(row: Row, cs: seq<QueryCondition>)
    requires cs != []
    ensures AreConjuncts(row, cs) <==> IsConjunct(row, cs[0]) && AreConjuncts(row, cs[1..])
  {
    assert forall i | 0 < i < |cs| :: cs[i] == cs[1..][i - 1];
  }

  // Joined conditions are read as one conjunction, with nothing left over, exactly when each of them is.
  lemma {:induction false} ListReadsAsAConjunctionExactlyWhenItsMembersDo(row: Row, cs: seq<QueryCondition>)
    requires cs != [] && Evaluable(row, cs)
    ensures var r := ReadAnd(row, JoinedWithAnd(Expressions(cs)), AllParams(cs));
      r.Parsed? && (r.rest == [] <==> AreConjuncts(row, cs))
  {
    ConjunctsOfMore(row, cs);
    if |cs| == 1 {
      EvaluableBeginsWithAConjunct(row, cs[0]);
      JoinedOfOne(cs[0]);
      assert cs == [cs[0]];
    } else {
      ListReadsAsAConjunctionExactlyWhenItsMembersDo(row, cs[1..]);
      JoinedOfMore(cs);
      ReadOneMore(row, cs[0], JoinedWithAnd(Expressions(cs[1..])), AllParams(cs[1..]));
    }
  }

  lemma OneConditionIsAConjunction(row: Row, c: QueryCondition)
    requires Eval(row, c.expression, c.params).Some?
    ensures Evaluable(row, [c]) && BuildWhere(Some(Expressions([c])), Some(AllParams([c]))).Selects(row) == Some(Conjunction(row, [c]))
  {
    JoinedOfOne(c);
  }

  lemma ConjunctsAreAConjunction(row: Row, cs: seq<QueryCondition>)
    requires cs != [] && Evaluable(row, cs) && AreConjuncts(row, cs)
    ensures BuildWhere(Some(Expressions(cs)), Some(AllParams(cs))).Selects(row) == Some(Conjunction(row, cs))
  {
    ReadAllConjuncts(row, cs);
    ConjunctIsEvaluable(row, QueryCondition(JoinedWithAnd(Expressions(cs)), AllParams(cs)));
  }

  // A list of conditions selects the rows for which all of them hold, if there is only one, as in `filter`,
  // or if none has an `or` outside parentheses. The conditions that find_one, find_many and delete build
  // from columns are single words.
  lemma WhereClauseIsAConjunction(row: Row, cs: seq<QueryCondition>)
    requires cs != [] && Evaluable(row, cs) && (|cs| == 1 || AreConjuncts(row, cs))
    ensures BuildWhere(Some(Expressions(cs)), Some(AllParams(cs))).Selects(row) == Some(Conjunction(row, cs))
  {
    if |cs| == 1 {
      OneConditionIsAConjunction(row, cs[0]);
      assert cs == [cs[0]];
    } else {
      ConjunctsAreAConjunction(row, cs);
    }
  }

  // With an `or` it may select more: `a or b` and `c` become a or (b and c).
  lemma OrInAListIsNotAConjunction(row: Row)
    requires row("a", []) == True && row("c", []) == False
    ensures BuildWhere(Some([[Word("a", 0), Or, Word("b", 0)], [Word("c", 0)]]), None).Selects(row) == Some(True)
  {
    var t := JoinedWithAnd([[Word("a", 0), Or, Word("b", 0)], [Word("c", 0)]]);
    assert t == [Word("a", 0), Or, Word("b", 0), And, Word("c", 0)];
    var a, b, c := row("a", []), row("b", []), row("c", []);
    assert ReadAnd(row, t, []) == Parsed(a, t[1..], []);
    var u := t[1..][1..];
    assert u == [Word("b", 0), And, Word("c", 0)] && u[1..] == [And, Word("c", 0)] && u[1..][1..] == [Word("c", 0)];
    assert ReadWord(row, u, []) == Parsed(b, u[1..], []);
    assert ReadWord(row, u[1..][1..], []) == Parsed(c, [], []);
    assert MoreAnd(row, Conj(b, c), [], []) == Parsed(Conj(b, c), [], []);
    assert ReadAnd(row, u, []) == Parsed(Conj(b, c), [], []);
    assert MoreOr(row, Disj(a, Conj(b, c)), [], []) == Parsed(True, [], []);
  }

  // The general case of two conditions: the last operand of `or` in the first condition is joined with the
  // second condition.
  lemma {:induction false} LastOperandIsCaptured(row: Row, v: Truth, t: Text, ps: seq<Param>, d: QueryCondition) returns (a: Truth, b: Truth)
    requires t != [] && MoreOr(row, v, t, ps).Parsed? && MoreOr(row, v, t, ps).rest == [] && MoreOr(row, v, t, ps).params == []
    requires IsConjunct(row, d)
    ensures MoreOr(row, v, t, ps).value == Disj(a, b)
    ensures MoreOr(row, v, t + ([And] + d.expression), ps + d.params)
      == Parsed(Disj(a, Conj(b, ReadAnd(row, d.expression, d.params).value)), [], [])
    decreases |t|
  {
    var u := [And] + d.expression;
    var w := ReadAnd(row, d.expression, d.params).value;
    assert (t + u)[1..] == t[1..] + u;
    var r := ReadAnd(row, t[1..], ps);
    if r.rest == [] {
      assert MoreOr(row, Disj(v, r.value), [], r.params) == Parsed(Disj(v, r.value), [], r.params);
      a, b := v, r.value;
      ReadJoinedConjuncts(row, QueryCondition(t[1..], ps), d.expression, d.params);
      assert t[1..] + [And] + d.expression == t[1..] + u;
      assert MoreOr(row, Disj(v, Conj(b, w)), [], []) == Parsed(Disj(v, Conj(b, w)), [], []);
    } else {
      ReadAndExtends(row, t[1..], ps, u, d.params);
      a, b := LastOperandIsCaptured(row, Disj(v, r.value), r.rest, r.params, d);
    }
  }

  // In a list of two, a first condition with an `or` of its own is A or B for some A and B, and the list
  // selects A or (B and the second). That is the conjunction exactly for the rows where A implies the second
  // condition. So on single rows, or when words are repeated, the list may still be right.
  lemma OrInAListIsRightExactlyWhereTheRestFollows(row: Row, c: QueryCondition, d: QueryCondition) returns (a: Truth, b: Truth)
    requires Eval(row, c.expression, c.params).Some? && !IsConjunct(row, c) && IsConjunct(row, d)
    ensures Eval(row, d.expression, d.params).Some?
    ensures var w := Eval(row, d.expression, d.params).value;
      var selects := BuildWhere(Some([c.expression, d.expression]), Some(c.params + d.params)).Selects(row);
      && Eval(row, c.expression, c.params) == Some(Disj(a, b))
      && selects == Some(Disj(a, Conj(b, w)))
      && (selects == Some(Conj(Disj(a, b), w)) <==> Conj(a, w) == a)
  {
    ConjunctIsEvaluable(row, d);
    EvaluableBeginsWithAConjunct(row, c);
    var r, u := ReadAnd(row, c.expression, c.params), [And] + d.expression;
    a, b := LastOperandIsCaptured(row, r.value, r.rest, r.params, d);
    ReadAndExtends(row, c.expression, c.params, u, d.params);
    assert [c.expression, d.expression][1..] == [d.expression];
    assert JoinedWithAnd([c.expression, d.expression]) == c.expression + u;
  }
}
