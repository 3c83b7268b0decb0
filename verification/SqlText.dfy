/**
 * The text of a where clause as a sequence of words, and how a database reads it: `or` binds weaker
 * than `and`, parentheses group, and the placeholders take their parameters from left to right.
 * Conditions are three-valued, as comparisons with NULL are neither true nor false.
 */
module SqlText {
  import opened Wrappers

  // A word with `arity` placeholders in it, for instance a comparison
  datatype Token = Open | Close | And | Or | Word(text: string, arity: nat)

  type Text = seq<Token>

  // A query parameter: a single value, or an empty list
  datatype Param = Scalar(value: string) | EmptyList

  datatype Truth = True | False | Unknown

  // What a word means for one row, given the parameters of its placeholders
  type Row = (string, seq<Param>) -> Truth

  function Conj(a: Truth, b: Truth): Truth {
    if a == False || b == False then False else if a == True then b else if b == True then a else Unknown
  }

  function Disj(a: Truth, b: Truth): Truth {
    if a == True || b == True then True else if a == False then b else if b == False then a else Unknown
  }

  function Placeholders(t: Text): nat {
    if t == [] then 0 else (if t[0].Word? then t[0].arity else 0) + Placeholders(t[1..])
  }

  // Result of reading a prefix of the text: its value, and the text and parameters that are left
  datatype Parsed = Error | Parsed(value: Truth, rest: Text, params: seq<Param>)

  function ReadWord(row: Row, t: Text, ps: seq<Param>): (r: Parsed)
    ensures r.Parsed? ==> |r.rest| < |t|
    decreases |t|, 0
  {
    if t == [] then Error
    else match t[0]
      case Word(text, arity) =>
        if |ps| < arity then Error else Parsed(row(text, ps[..arity]), t[1..], ps[arity..])
      case Open =>
        (match ReadOr(row, t[1..], ps)
         case Parsed(v, rest, qs) => if rest != [] && rest[0] == Close then Parsed(v, rest[1..], qs) else Error
         case Error => Error)
      case _ => Error
  }

  function ReadAnd(row: Row, t: Text, ps: seq<Param>): (r: Parsed)
    ensures r.Parsed? ==> |r.rest| < |t|
    decreases |t|, 1
  {
    match ReadWord(row, t, ps)
    case Parsed(v, rest, qs) => MoreAnd(row, v, rest, qs)
    case Error => Error
  }

  function MoreAnd(row: Row, v: Truth, t: Text, ps: seq<Param>): (r: Parsed)
    ensures r.Parsed? ==> |r.rest| <= |t|
    decreases |t|, 0
  {
    if t == [] || t[0] != And then Parsed(v, t, ps)
    else match ReadWord(row, t[1..], ps)
      case Parsed(w, rest, qs) => MoreAnd(row, Conj(v, w), rest, qs)
      case Error => Error
  }

  function ReadOr(row: Row, t: Text, ps: seq<Param>): (r: Parsed)
    ensures r.Parsed? ==> |r.rest| < |t|
    decreases |t|, 2
  {
    match ReadAnd(row, t, ps)
    case Parsed(v, rest, qs) => MoreOr(row, v, rest, qs)
    case Error => Error
  }

  function MoreOr(row: Row, v: Truth, t: Text, ps: seq<Param>): (r: Parsed)
    ensures r.Parsed? ==> |r.rest| <= |t|
    decreases |t|, 0
  {
    if t == [] || t[0] != Or then Parsed(v, t, ps)
    else match ReadAnd(row, t[1..], ps)
      case Parsed(w, rest, qs) => MoreOr(row, Disj(v, w), rest, qs)
      case Error => Error
  }

  // The value of a whole condition; None if the text is malformed or does not match its parameters
  function Eval(row: Row, t: Text, ps: seq<Param>): Option<Truth> {
    match ReadOr(row, t, ps)
    case Parsed(v, rest, qs) => if rest == [] && qs == [] then Some(v) else None
    case Error => None
  }

  // ---------------------------------------------------------------------------------------------
  // Reading does not depend on what follows, unless that continues the expression.

  predicate Stops(t: Text, continuing: set<Token>) {
    t == [] || t[0] !in continuing
  }

  function Extended(r: Parsed, u: Text, qs: seq<Param>): Parsed {
    match r
    case Parsed(v, rest, ps) => Parsed(v, rest + u, ps + qs)
    case Error => Error
  }

  lemma {:induction false} ReadWordExtends(row: Row, t: Text, ps: seq<Param>, u: Text, qs: seq<Param>)
    requires ReadWord(row, t, ps).Parsed?
    ensures ReadWord(row, t + u, ps + qs) == Extended(ReadWord(row, t, ps), u, qs)
    decreases |t|, 0
  {
    assert (t + u)[1..] == t[1..] + u;
    match t[0]
    case Word(text, arity) =>
      assert (ps + qs)[..arity] == ps[..arity] && (ps + qs)[arity..] == ps[arity..] + qs;
    case Open =>
      ReadOrExtends(row, t[1..], ps, u, qs);
      var rest := ReadOr(row, t[1..], ps).rest;
      assert (rest + u)[1..] == rest[1..] + u;
  }

  lemma {:induction false} ReadAndExtends(row: Row, t: Text, ps: seq<Param>, u: Text, qs: seq<Param>)
    requires var r := ReadAnd(row, t, ps); r.Parsed? && (r.rest == [] ==> Stops(u, {And}))
    ensures ReadAnd(row, t + u, ps + qs) == Extended(ReadAnd(row, t, ps), u, qs)
    decreases |t|, 1
  {
    ReadWordExtends(row, t, ps, u, qs);
    var r := ReadWord(row, t, ps);
    MoreAndExtends(row, r.value, r.rest, r.params, u, qs);
  }

  lemma {:induction false} MoreAndExtends(row: Row, v: Truth, t: Text, ps: seq<Param>, u: Text, qs: seq<Param>)
    requires var r := MoreAnd(row, v, t, ps); r.Parsed? && (r.rest == [] ==> Stops(u, {And}))
    ensures MoreAnd(row, v, t + u, ps + qs) == Extended(MoreAnd(row, v, t, ps), u, qs)
    decreases |t|, 0
  {
    if t == [] {
      assert t + u == u;
    } else if t[0] == And {
      assert (t + u)[1..] == t[1..] + u;
      ReadWordExtends(row, t[1..], ps, u, qs);
      var r := ReadWord(row, t[1..], ps);
      MoreAndExtends(row, Conj(v, r.value), r.rest, r.params, u, qs);
    }
  }

  lemma {:induction false} ReadOrExtends(row: Row, t: Text, ps: seq<Param>, u: Text, qs: seq<Param>)
    requires var r := ReadOr(row, t, ps); r.Parsed? && (r.rest == [] ==> Stops(u, {And, Or}))
    ensures ReadOr(row, t + u, ps + qs) == Extended(ReadOr(row, t, ps), u, qs)
    decreases |t|, 2
  {
    ReadAndExtends(row, t, ps, u, qs);
    var r := ReadAnd(row, t, ps);
    MoreOrExtends(row, r.value, r.rest, r.params, u, qs);
  }

  lemma {:induction false} MoreOrExtends(row: Row, v: Truth, t: Text, ps: seq<Param>, u: Text, qs: seq<Param>)
    requires var r := MoreOr(row, v, t, ps); r.Parsed? && (r.rest == [] ==> Stops(u, {And, Or}))
    ensures MoreOr(row, v, t + u, ps + qs) == Extended(MoreOr(row, v, t, ps), u, qs)
    decreases |t|, 0
  {
    if t == [] {
      assert t + u == u;
    } else if t[0] == Or {
      assert (t + u)[1..] == t[1..] + u;
      ReadAndExtends(row, t[1..], ps, u, qs);
      var r := ReadAnd(row, t[1..], ps);
      MoreOrExtends(row, Disj(v, r.value), r.rest, r.params, u, qs);
    }
  }

  // ---------------------------------------------------------------------------------------------
  // Every placeholder that is read takes one parameter.

  lemma {:induction false} ReadWordCounts(row: Row, t: Text, ps: seq<Param>)
    requires ReadWord(row, t, ps).Parsed?
    ensures var r := ReadWord(row, t, ps); Placeholders(t) + |r.params| == |ps| + Placeholders(r.rest)
    decreases |t|, 0
  {
    if t[0] == Open {
      ReadOrCounts(row, t[1..], ps);
    }
  }

  lemma {:induction false} ReadAndCounts(row: Row, t: Text, ps: seq<Param>)
    requires ReadAnd(row, t, ps).Parsed?
    ensures var r := ReadAnd(row, t, ps); Placeholders(t) + |r.params| == |ps| + Placeholders(r.rest)
    decreases |t|, 1
  {
    ReadWordCounts(row, t, ps);
    var r := ReadWord(row, t, ps);
    MoreAndCounts(row, r.value, r.rest, r.params);
  }

  lemma {:induction false} MoreAndCounts(row: Row, v: Truth, t: Text, ps: seq<Param>)
    requires MoreAnd(row, v, t, ps).Parsed?
    ensures var r := MoreAnd(row, v, t, ps); Placeholders(t) + |r.params| == |ps| + Placeholders(r.rest)
    decreases |t|, 0
  {
    if t != [] && t[0] == And {
      ReadWordCounts(row, t[1..], ps);
      var r := ReadWord(row, t[1..], ps);
      MoreAndCounts(row, Conj(v, r.value), r.rest, r.params);
    }
  }

  lemma {:induction false} ReadOrCounts(row: Row, t: Text, ps: seq<Param>)
    requires ReadOr(row, t, ps).Parsed?
    ensures var r := ReadOr(row, t, ps); Placeholders(t) + |r.params| == |ps| + Placeholders(r.rest)
    decreases |t|, 2
  {
    ReadAndCounts(row, t, ps);
    var r := ReadAnd(row, t, ps);
    MoreOrCounts(row, r.value, r.rest, r.params);
  }

  lemma {:induction false} MoreOrCounts(row: Row, v: Truth, t: Text, ps: seq<Param>)
    requires MoreOr(row, v, t, ps).Parsed?
    ensures var r := MoreOr(row, v, t, ps); Placeholders(t) + |r.params| == |ps| + Placeholders(r.rest)
    decreases |t|, 0
  {
    if t != [] && t[0] == Or {
      ReadAndCounts(row, t[1..], ps);
      var r := ReadAnd(row, t[1..], ps);
      MoreOrCounts(row, Disj(v, r.value), r.rest, r.params);
    }
  }

  // A condition that can be evaluated has as many parameters as placeholders.
  lemma EvaluableIsAligned(row: Row, t: Text, ps: seq<Param>)
    requires Eval(row, t, ps).Some?
    ensures t != [] && Placeholders(t) == |ps|
  {
    ReadOrCounts(row, t, ps);
  }

  lemma {:induction false} PlaceholdersOfConcat(t: Text, u: Text)
    ensures Placeholders(t + u) == Placeholders(t) + Placeholders(u)
  {
    if t == [] {
      assert t + u == u;
    } else {
      assert (t + u)[1..] == t[1..] + u;
      PlaceholdersOfConcat(t[1..], u);
    }
  }
}
