/**
 * Version patterns with wildcards. "1.2.x" and "1.2.*" are compiled to a regular expression in which
 * the wildcard stands for one or more characters of any kind, dots included.
 */
module VersionPattern {
  import opened Wrappers
  import opened Strings
  import opened SemVer

  // An element of a compiled pattern: a character that stands for itself, or `.+`
  datatype Elem = Lit(c: char) | Wild

  // Whether the pattern matches the whole text
  ghost predicate Matches(p: seq<Elem>, s: string) {
    if p == [] then s == ""
    else match p[0]
      case Lit(c) => s != "" && s[0] == c && Matches(p[1..], s[1..])
      case Wild => exists k | 1 <= k <= |s| :: '\n' !in s[..k] && Matches(p[1..], s[k..])
  }

  predicate IsWildcard(w: char) {
    !IsDigit(w) && w != '.'
  }

  // One component of a pattern with wildcard w
  predicate IsComponent(comp: string, w: char) {
    comp == [w] || IsNumber(comp)
  }

  predicate IsXPattern(pattern: string) {
    (forall comp | comp in Split(pattern, '.') :: IsComponent(comp, 'x')) && 'x' in pattern
  }

  // Every wildcard character becomes `.+`, every other character stands for itself.
  function Compile(pattern: string, wildcard: char): (p: seq<Elem>)
    ensures |p| == |pattern|
  {
    if pattern == "" then []
    else [if pattern[0] == wildcard then Wild else Lit(pattern[0])] + Compile(pattern[1..], wildcard)
  }

  function FromXPattern(pattern: string): Result<seq<Elem>, string> {
    if IsXPattern(pattern) then Ok(Compile(pattern, 'x')) else Err("invalid version pattern")
  }

  // An asterisk pattern is one to three components, each a number or an asterisk, and perhaps a label
  // that starts with a dash.
  predicate IsAsteriskPattern(pattern: string) {
    var dash := Find(pattern, '-');
    var comps := Split(pattern[..dash], '.');
    && |comps| <= 3
    && (forall comp | comp in comps :: IsComponent(comp, '*'))
    && (dash < |pattern| ==> dash + 1 < |pattern| && '\n' !in pattern[dash..])
    && '*' in pattern
  }

  function FromAsteriskPattern(pattern: string): Result<seq<Elem>, string> {
    if IsAsteriskPattern(pattern) then Ok(Compile(pattern, '*')) else Err("invalid version pattern")
  }

  // ---------------------------------------------------------------------------------------------
  // What a pattern matches, component by component; x and the asterisk are alike

  // The components of a text without labels
  ghost predicate AreNumbers(ts: seq<string>) {
    forall i | 0 <= i < |ts| :: IsNumber(ts[i])
  }

  ghost predicate AreComponents(ps: seq<string>, w: char) {
    forall i | 0 <= i < |ps| :: IsComponent(ps[i], w)
  }

  // The components ps cover the numbers ts: a number covers its own text, and a wildcard covers one or more
  // of them.
  ghost predicate Covers(ps: seq<string>, ts: seq<string>, w: char) {
    if ps == [] || ts == [] then false
    else if |ps| == 1 then ps[0] == [w] || ts == [ps[0]]
    else if ps[0] == [w] then exists j | 1 <= j < |ts| :: Covers(ps[1..], ts[j..], w)
    else |ts| > 1 && ps[0] == ts[0] && Covers(ps[1..], ts[1..], w)
  }

  lemma {:induction false} CompileConcat(a: string, b: string, w: char)
    ensures Compile(a + b, w) == Compile(a, w) + Compile(b, w)
  {
    if a == "" {
      assert a + b == b;
    } else {
      assert (a + b)[1..] == a[1..] + b;
      CompileConcat(a[1..], b, w);
    }
  }

  // A number in the pattern has to be the beginning of the text.
  lemma {:induction false} MatchLiteral(a: string, p: seq<Elem>, s: string, w: char)
    requires IsWildcard(w) && forall i | 0 <= i < |a| :: IsDigit(a[i])
    ensures Matches(Compile(a, w) + p, s) <==> |a| <= |s| && s[..|a|] == a && Matches(p, s[|a|..])
  {
    var q := Compile(a, w) + p;
    if a == "" {
      assert q == p && s[0..] == s;
    } else {
      assert q[0] == Lit(a[0]) && q[1..] == Compile(a[1..], w) + p;
      if s != "" {
        MatchLiteral(a[1..], p, s[1..], w);
        if |a| <= |s| {
          assert s[..|a|] == [s[0]] + s[1..][..|a| - 1];
          assert a == [a[0]] + a[1..];
          assert s[1..][|a| - 1..] == s[|a|..];
        }
      }
    }
  }

  lemma {:induction false} JoinedNumbers(ts: seq<string>)
    requires ts != [] && AreNumbers(ts)
    ensures Join(ts, '.') != "" && IsDigit(Join(ts, '.')[0]) && '\n' !in Join(ts, '.')
  {
    assert IsNumber(ts[0]);
    if |ts| > 1 {
      JoinedNumbers(ts[1..]);
    }
  }

  // A dot in the text is where one of the components begins.
  lemma {:induction false} DotIsABoundary(ts: seq<string>, k: nat) returns (j: nat)
    requires ts != [] && AreNumbers(ts) && k < |Join(ts, '.')| && Join(ts, '.')[k] == '.'
    ensures 1 <= j < |ts| && Join(ts, '.')[k + 1..] == Join(ts[j..], '.')
  {
    var s := Join(ts, '.');
    assert IsNumber(ts[0]);
    var n := |ts[0]|;
    assert forall i | 0 <= i < n :: s[i] == ts[0][i];
    assert k >= n && |ts| > 1;
    assert s[n + 1..] == Join(ts[1..], '.');
    if k == n {
      j := 1;
    } else {
      var i := DotIsABoundary(ts[1..], k - n - 1);
      j := i + 1;
      assert ts[1..][i..] == ts[j..];
      assert s[k + 1..] == s[n + 1..][k - n..];
    }
  }

  // Every component but the first is preceded by a dot.
  lemma {:induction false} BoundaryHasADot(ts: seq<string>, j: nat) returns (k: nat)
    requires AreNumbers(ts) && 1 <= j < |ts|
    ensures 1 <= k < |Join(ts, '.')| && Join(ts, '.')[k] == '.' && Join(ts, '.')[k + 1..] == Join(ts[j..], '.')
  {
    var s := Join(ts, '.');
    assert IsNumber(ts[0]);
    var n := |ts[0]|;
    assert s[n + 1..] == Join(ts[1..], '.');
    if j == 1 {
      k := n;
    } else {
      var i := BoundaryHasADot(ts[1..], j - 1);
      k := n + 1 + i;
      assert ts[1..][j - 1..] == ts[j..];
      assert s[k + 1..] == s[n + 1..][i + 1..];
    }
  }

  lemma MatchDot(p: seq<Elem>, s: string)
    ensures Matches([Lit('.')] + p, s) <==> s != "" && s[0] == '.' && Matches(p, s[1..])
  {
  }

  lemma MatchWild(p: seq<Elem>, s: string)
    requires '\n' !in s
    ensures Matches([Wild] + p, s) <==> exists k | 1 <= k <= |s| :: Matches(p, s[k..])
  {
  }

  // `.+` and then a dot and the rest of the pattern
  lemma MatchWildThenDot(p: seq<Elem>, ts: seq<string>)
    requires ts != [] && AreNumbers(ts)
    ensures Matches([Wild, Lit('.')] + p, Join(ts, '.')) <==> exists j | 1 <= j < |ts| :: Matches(p, Join(ts[j..], '.'))
  {
    var s, q := Join(ts, '.'), [Lit('.')] + p;
    JoinedNumbers(ts);
    assert [Wild, Lit('.')] + p == [Wild] + q;
    MatchWild(q, s);
    if k :| 1 <= k <= |s| && Matches(q, s[k..]) {
      MatchDot(p, s[k..]);
      assert s[k..][1..] == s[k + 1..];
      var j := DotIsABoundary(ts, k);
    }
    if j :| 1 <= j < |ts| && Matches(p, Join(ts[j..], '.')) {
      var k := BoundaryHasADot(ts, j);
      assert s[k..][1..] == s[k + 1..];
      MatchDot(p, s[k..]);
    }
  }

  lemma MatchLastWild(s: string)
    requires s != "" && '\n' !in s
    ensures Matches([Wild], s)
  {
    assert s[..|s|] == s && Matches([Wild][1..], s[|s|..]);
  }

  lemma WholeText(a: string, s: string)
    ensures |a| <= |s| && s[..|a|] == a && s[|a|..] == "" <==> s == a
  {
    if |a| == |s| {
      assert s[..|a|] == s;
    }
  }

  lemma MatchesNumber(a: string, s: string, w: char)
    requires IsWildcard(w) && IsNumber(a)
    ensures Matches(Compile(a, w), s) <==> s == a
  {
    var p := Compile(a, w);
    assert p + [] == p;
    MatchLiteral(a, [], s, w);
    WholeText(a, s);
  }

  lemma JoinedIsNumber(a: string, ts: seq<string>)
    requires ts != [] && AreNumbers(ts) && IsNumber(a)
    ensures Join(ts, '.') == a <==> ts == [a]
  {
    if |ts| > 1 {
      assert Join(ts, '.')[|ts[0]|] == '.';
      assert '.' in Join(ts, '.') && '.' !in a;
    } else {
      assert ts == [ts[0]];
    }
  }

  // A number at the end of the pattern has to be the whole text.
  lemma MatchLastNumber(a: string, ts: seq<string>, w: char)
    requires IsWildcard(w) && ts != [] && AreNumbers(ts) && IsNumber(a)
    ensures Matches(Compile(a, w), Join(ts, '.')) <==> ts == [a]
  {
    MatchesNumber(a, Join(ts, '.'), w);
    JoinedIsNumber(a, ts);
  }

  // If the text of the components starts with a number and a dot, that number is the first component.
  lemma FirstComponent(a: string, ts: seq<string>)
    requires ts != [] && AreNumbers(ts) && IsNumber(a)
    ensures var s := Join(ts, '.'); |a| < |s| && s[..|a|] == a && s[|a|] == '.' <==> |ts| > 1 && ts[0] == a
    ensures |ts| > 1 && ts[0] == a ==> Join(ts, '.')[|a| + 1..] == Join(ts[1..], '.')
  {
    var s := Join(ts, '.');
    var n := |ts[0]|;
    assert IsNumber(ts[0]);
    assert forall i | 0 <= i < n :: s[i] == ts[0][i];
    assert |ts| > 1 ==> s[n] == '.';
    if |a| < |s| && s[..|a|] == a && s[|a|] == '.' {
      assert forall i | 0 <= i < |a| :: s[i] == a[i];
      assert |a| == n;
      assert s[..n] == ts[0];
    } else if |ts| > 1 {
      assert s[..n] == ts[0];
    }
  }

  // A number, a dot, and the rest of the pattern
  lemma MatchNumberThenDot(a: string, p: seq<Elem>, ts: seq<string>, w: char)
    requires IsWildcard(w) && ts != [] && AreNumbers(ts) && IsNumber(a)
    ensures Matches(Compile(a, w) + [Lit('.')] + p, Join(ts, '.')) <==> |ts| > 1 && ts[0] == a && Matches(p, Join(ts[1..], '.'))
  {
    var s := Join(ts, '.');
    var q := [Lit('.')] + p;
    assert Compile(a, w) + [Lit('.')] + p == Compile(a, w) + q;
    MatchLiteral(a, q, s, w);
    assert q[0] == Lit('.') && q[1..] == p;
    FirstComponent(a, ts);
    assert |a| < |s| ==> s[|a|..][0] == s[|a|] && s[|a|..][1..] == s[|a| + 1..];
  }

  // The compiled pattern matches exactly what its components cover, although `.+` knows nothing of components.
  lemma {:induction false} PatternMatchesWhatItCovers(ps: seq<string>, ts: seq<string>, w: char)
    requires IsWildcard(w) && ps != [] && AreComponents(ps, w) && ts != [] && AreNumbers(ts)
    ensures Matches(Compile(Join(ps, '.'), w), Join(ts, '.')) <==> Covers(ps, ts, w)
    decreases |ps|
  {
    assert IsComponent(ps[0], w);
    JoinedNumbers(ts);
    if |ps| == 1 {
      if ps[0] == [w] {
        assert Compile([w], w) == [Wild];
        MatchLastWild(Join(ts, '.'));
      } else {
        MatchLastNumber(ps[0], ts, w);
      }
    } else {
      var rest := Join(ps[1..], '.');
      var p := Compile(rest, w);
      CompileConcat(ps[0] + ".", rest, w);
      CompileConcat(ps[0], ".", w);
      assert Compile(".", w) == [Lit('.')];
      if ps[0] == [w] {
        assert Compile([w], w) == [Wild];
        assert Compile(Join(ps, '.'), w) == [Wild, Lit('.')] + p;
        MatchWildThenDot(p, ts);
        forall j | 1 <= j < |ts| ensures Matches(p, Join(ts[j..], '.')) <==> Covers(ps[1..], ts[j..], w) {
          PatternMatchesWhatItCovers(ps[1..], ts[j..], w);
        }
      } else {
        assert Compile(Join(ps, '.'), w) == Compile(ps[0], w) + [Lit('.')] + p;
        MatchNumberThenDot(ps[0], p, ts, w);
        if |ts| > 1 {
          PatternMatchesWhatItCovers(ps[1..], ts[1..], w);
        }
      }
    }
  }

  predicate Fits(comp: string, n: nat, w: char) {
    comp == [w] || comp == Decimal(n)
  }

  // Which label-free versions the components match. With two components, the first one is about the
  // major and the second one about the patch number.
  predicate Selects(ps: seq<string>, v: Version, w: char) {
    match |ps|
    case 1 => ps[0] == [w]
    case 2 => (ps[0] == [w] && Fits(ps[1], v.patch, w)) || (ps[1] == [w] && Fits(ps[0], v.major, w))
    case 3 => Fits(ps[0], v.major, w) && Fits(ps[1], v.minor, w) && Fits(ps[2], v.patch, w)
    case _ => false
  }

  lemma CoversOne(ps: seq<string>, c: string, w: char)
    requires AreComponents(ps, w)
    ensures Covers(ps, [c], w) <==> |ps| == 1 && (ps[0] == [w] || ps[0] == c)
  {
  }

  lemma CoversTwo(ps: seq<string>, b: string, c: string, w: char)
    requires AreComponents(ps, w)
    ensures Covers(ps, [b, c], w) <==> (ps == [[w]] || (|ps| == 2 && (ps[0] == [w] || ps[0] == b) && (ps[1] == [w] || ps[1] == c)))
  {
    assert [b, c][1..] == [c];
    if |ps| > 1 {
      CoversOne(ps[1..], c, w);
    }
  }

  lemma CoversThree(ps: seq<string>, v: Version, w: char)
    requires ps != [] && AreComponents(ps, w)
    ensures Covers(ps, [Decimal(v.major), Decimal(v.minor), Decimal(v.patch)], w) <==> Selects(ps, v, w)
  {
    var a, b, c := Decimal(v.major), Decimal(v.minor), Decimal(v.patch);
    var ts := [a, b, c];
    assert ts[1..] == [b, c] && ts[2..] == [c];
    if |ps| > 1 {
      CoversOne(ps[1..], c, w);
      CoversTwo(ps[1..], b, c, w);
      assert ps[0] == [w] ==> (Covers(ps, ts, w) <==> Covers(ps[1..], ts[1..], w) || Covers(ps[1..], ts[2..], w));
    }
  }

  lemma PatternMatchesExactly(pattern: string, v: Version, w: char)
    requires IsWildcard(w) && AreComponents(Split(pattern, '.'), w) && v.IsStable()
    ensures Matches(Compile(pattern, w), Print(v)) <==> Selects(Split(pattern, '.'), v, w)
  {
    var ps := Split(pattern, '.');
    var ts := [Decimal(v.major), Decimal(v.minor), Decimal(v.patch)];
    JoinSplit(pattern, '.');
    assert Join(ts[2..], '.') == ts[2];
    assert Join(ts[1..], '.') == ts[1] + ['.'] + ts[2];
    assert Print(v) == Join(ts, '.');
    PatternMatchesWhatItCovers(ps, ts, w);
    CoversThree(ps, v, w);
  }

  // For every label-free version and every x-pattern: whether the pattern matches the version.
  lemma XPatternMatchesExactly(pattern: string, v: Version)
    requires IsXPattern(pattern) && v.IsStable()
    ensures Matches(FromXPattern(pattern).value, Print(v)) <==> Selects(Split(pattern, '.'), v, 'x')
  {
    PatternMatchesExactly(pattern, v, 'x');
  }

  // The same for every asterisk pattern without a label
  lemma AsteriskPatternMatchesExactly(pattern: string, v: Version)
    requires IsAsteriskPattern(pattern) && '-' !in pattern && v.IsStable()
    ensures Matches(FromAsteriskPattern(pattern).value, Print(v)) <==> Selects(Split(pattern, '.'), v, '*')
  {
    assert pattern[..Find(pattern, '-')] == pattern;
    PatternMatchesExactly(pattern, v, '*');
  }
}
