/**
 * The logfmt output of Pub's logger: a line of key=value pairs whose values are escaped, and
 * quoted where needed, and a reader of such lines.
 */
module LogFormat {
  import opened Wrappers
  import opened Strings

  predicate ForcesQuotes(c: char) {
    c <= ' ' || c == '=' || c == '"'
  }

  predicate ForcesEscape(c: char) {
    c == '\\' || c == '"' || c == '\n' || c == '\r' || c == '\t'
  }

  predicate NeedsQuotes(s: string) {
    exists i | 0 <= i < |s| :: ForcesQuotes(s[i])
  }

  predicate NeedsEscape(s: string) {
    exists i | 0 <= i < |s| :: ForcesEscape(s[i])
  }

  function EscapedRune(c: char): string {
    match c
    case '\\' => "\\\\"
    case '"' => "\\\""
    case '\n' => "\\n"
    case '\r' => "\\r"
    case '\t' => "\\t"
    case _ => [c]
  }

  // The runes of s, escaped, in front of a tail
  function Escaped(s: string, tail: string): string {
    if s == [] then tail else EscapedRune(s[0]) + Escaped(s[1..], tail)
  }

  // A value in front of the rest of its line
  function Value(s: string, rest: string): string {
    if NeedsQuotes(s) then "\"" + Escaped(s, "\"" + rest) else Escaped(s, rest)
  }

  lemma {:induction false} EscapedIsPrefix(s: string, tail: string, rest: string)
    ensures Escaped(s, tail + rest) == Escaped(s, tail) + rest
  {
    if s != [] {
      EscapedIsPrefix(s[1..], tail, rest);
      assert Escaped(s, tail + rest) == EscapedRune(s[0]) + (Escaped(s[1..], tail) + rest);
    }
  }

  lemma {:induction false} PlainStaysPlain(s: string)
    requires !NeedsEscape(s)
    ensures Escaped(s, "") == s
  {
    if s != [] {
      assert forall i | 0 <= i < |s[1..]| :: s[1..][i] == s[i + 1];
      PlainStaysPlain(s[1..]);
      assert s == [s[0]] + s[1..] && !ForcesEscape(s[0]);
    }
  }

  lemma NeedsOfNext(s: string, i: nat)
    requires i < |s|
    ensures NeedsQuotes(s[..i + 1]) <==> NeedsQuotes(s[..i]) || ForcesQuotes(s[i])
    ensures NeedsEscape(s[..i + 1]) <==> NeedsEscape(s[..i]) || ForcesEscape(s[i])
  {
  }

  method EscapeString(s: string) returns (r: string)
    ensures r == Value(s, "")
  {
    var needsQuotes, needsEscape := false, false;
    for i := 0 to |s|
      invariant needsQuotes == NeedsQuotes(s[..i]) && needsEscape == NeedsEscape(s[..i])
    {
      NeedsOfNext(s, i);
      if s[i] <= ' ' || s[i] == '=' || s[i] == '"' {
        needsQuotes := true;
      }
      if s[i] == '\\' || s[i] == '"' || s[i] == '\n' || s[i] == '\r' || s[i] == '\t' {
        needsEscape := true;
      }
    }
    assert s[..|s|] == s;
    if !needsEscape && !needsQuotes {
      PlainStaysPlain(s);
      return s;
    }
    var e := "\"";
    for i := 0 to |s|
      invariant e + Escaped(s[i..], "") == "\"" + Escaped(s, "")
    {
      e := e + EscapedRune(s[i]);
    }
    e := e + "\"";
    QuotedAndNot(s, e);
    r := if needsQuotes then e else e[1..|e| - 1];
  }

  // The buffer holds the quoted form, and the unquoted form between its quotes.
  lemma QuotedAndNot(s: string, e: string)
    requires e == "\"" + Escaped(s, "") + "\""
    ensures if NeedsQuotes(s) then e == Value(s, "") else e[1..|e| - 1] == Value(s, "")
  {
    EscapedIsPrefix(s, "", "\"");
    assert "" + "\"" == "\"" + "";
  }

  // ---------------------------------------------------------------------------------------------

  function Rune(code: char): char {
    if code == 'n' then '\n' else if code == 'r' then '\r' else if code == 't' then '\t' else code
  }

  // Reads the runes of a value up to its closing quote, or up to white space, and gives the rest.
  function ReadRunes(t: string, quoted: bool): (r: Option<(string, string)>)
    ensures r.Some? ==> |r.value.1| <= |t|
  {
    if t == [] then if quoted then None else Some(("", ""))
    else if quoted && t[0] == '"' then Some(("", t[1..]))
    else if !quoted && t[0] <= ' ' then Some(("", t))
    else if t[0] == '\\' && |t| == 1 then None
    else
      var (c, rest) := if t[0] == '\\' then (Rune(t[1]), t[2..]) else (t[0], t[1..]);
      var r := ReadRunes(rest, quoted);
      if r.None? then None else Some(([c] + r.value.0, r.value.1))
  }

  function ReadValue(t: string): (r: Option<(string, string)>)
    ensures r.Some? ==> |r.value.1| <= |t|
  {
    if t != [] && t[0] == '"' then ReadRunes(t[1..], true) else ReadRunes(t, false)
  }

  // The end of a value: the end of the text, or white space
  ghost predicate IsEnd(rest: string) {
    rest != [] ==> rest[0] <= ' '
  }

  lemma ReadOneRune(c: char, t: string, quoted: bool)
    requires quoted || !ForcesQuotes(c)
    ensures ReadRunes(EscapedRune(c) + t, quoted) ==
      (var r := ReadRunes(t, quoted); if r.None? then None else Some(([c] + r.value.0, r.value.1)))
  {
    if ForcesEscape(c) {
      assert (EscapedRune(c) + t)[2..] == t;
    } else {
      assert ([c] + t)[1..] == t;
    }
  }

  lemma {:induction false} ReadEscaped(s: string, tail: string, quoted: bool, rest: string)
    requires if quoted then tail == "\"" + rest else tail == rest && IsEnd(rest) && !NeedsQuotes(s)
    ensures ReadRunes(Escaped(s, tail), quoted) == Some((s, rest))
  {
    if s == [] {
      assert quoted ==> tail[1..] == rest;
    } else {
      assert forall i | 0 <= i < |s[1..]| :: s[1..][i] == s[i + 1];
      ReadEscaped(s[1..], tail, quoted, rest);
      ReadOneRune(s[0], Escaped(s[1..], tail), quoted);
      assert s == [s[0]] + s[1..];
    }
  }

  // Every rune string is read back from its escaped form, whatever follows on the line.
  lemma ValueReadsBack(s: string, rest: string)
    requires IsEnd(rest)
    ensures ReadValue(Value(s, rest)) == Some((s, rest))
  {
    if NeedsQuotes(s) {
      ReadEscaped(s, "\"" + rest, true, rest);
    } else {
      ReadEscaped(s, rest, false, rest);
      UnquotedHasNoQuotes(s, rest);
    }
  }

  // Quoted and unquoted values are told apart by their first character, and an unquoted value has
  // no character that would have asked for quotes.
  lemma {:induction false} UnquotedHasNoQuotes(s: string, rest: string)
    requires !NeedsQuotes(s)
    ensures !NeedsQuotes(Escaped(s, ""))
    ensures IsEnd(rest) ==> Escaped(s, rest) == [] || Escaped(s, rest)[0] != '"'
  {
    if s != [] {
      assert forall i | 0 <= i < |s[1..]| :: s[1..][i] == s[i + 1];
      UnquotedHasNoQuotes(s[1..], rest);
      assert !ForcesQuotes(s[0]) && EscapedRune(s[0]) in [[s[0]], "\\\\"];
    }
  }

  // ---------------------------------------------------------------------------------------------

  type Pair = (string, string)

  function PairText(p: Pair, rest: string): string {
    p.0 + "=" + Value(p.1, rest)
  }

  // The pairs behind the first
  function Tail(pairs: seq<Pair>): string {
    if pairs == [] then "\n" else " " + PairText(pairs[0], Tail(pairs[1..]))
  }

  function Line(pairs: seq<Pair>): string {
    if pairs == [] then "\n" else PairText(pairs[0], Tail(pairs[1..]))
  }

  lemma ValueIsPrefix(s: string, rest: string)
    ensures Value(s, rest) == Value(s, "") + rest
  {
    if NeedsQuotes(s) {
      EscapedIsPrefix(s, "\"", rest);
      assert "\"" + "" == "\"";
    } else {
      EscapedIsPrefix(s, "", rest);
      assert "" + rest == rest;
    }
  }

  lemma TailIsPrefix(pairs: seq<Pair>)
    requires pairs != []
    ensures var text := pairs[0].0 + "=" + Value(pairs[0].1, "");
      Line(pairs) == text + Tail(pairs[1..]) && Tail(pairs) == " " + text + Tail(pairs[1..])
  {
    ValueIsPrefix(pairs[0].1, Tail(pairs[1..]));
  }

  // A line so far, and the same line with the next pair
  lemma NextPair(line: string, pairs: seq<Pair>, i: nat, text: string)
    requires i < |pairs| && text == pairs[i].0 + "=" + Value(pairs[i].1, "")
    ensures line + " " + text + Tail(pairs[i + 1..]) == line + Tail(pairs[i..])
  {
    var rest := pairs[i..];
    TailIsPrefix(rest);
    assert rest[0] == pairs[i] && rest[1..] == pairs[i + 1..];
    Regrouped(line, text, Tail(pairs[i + 1..]));
  }

  lemma Regrouped(line: string, text: string, tail: string)
    ensures line + " " + text + tail == line + (" " + text + tail)
  {
  }

  lemma FirstPair(pairs: seq<Pair>, text: string)
    requires pairs != [] && text == pairs[0].0 + "=" + Value(pairs[0].1, "")
    ensures "" + text + Tail(pairs[1..]) == Line(pairs)
  {
    TailIsPrefix(pairs);
    assert "" + text == text;
  }

  // A key of the logging context, which may be something else than a string, and its value
  datatype Key = StringKey(text: string) | OtherKey

  datatype Entry = Entry(key: Key, value: string)

  const ERROR_KEY := "LOG15_ERROR"

  // A key in a colour
  function Painted(key: string, color: int): string {
    if color > 0 then "\U{1b}[" + Decimal(color) + "m" + key + "\U{1b}[0m" else key
  }

  // What is written for an entry. Neither the key nor the value is, if the key is not a string.
  function PairOf(e: Entry, color: int): Pair {
    if e.key.StringKey? then (Painted(e.key.text, color), e.value) else (Painted(ERROR_KEY, color), "")
  }

  function PairsOf(ctx: seq<Entry>, color: int): (pairs: seq<Pair>)
    ensures |pairs| == |ctx|
    ensures forall i | 0 <= i < |ctx| :: pairs[i] == PairOf(ctx[i], color)
  {
    seq(|ctx|, i requires 0 <= i < |ctx| => PairOf(ctx[i], color))
  }

  // One entry, without what separates it from the others
  method EntryText(e: Entry, color: int) returns (text: string)
    ensures var p := PairOf(e, color); text == p.0 + "=" + Value(p.1, "")
  {
    var k, v;
    if e.key.StringKey? {
      k := e.key.text;
      v := EscapeString(e.value);
    } else {
      k := ERROR_KEY;
      v := EscapeString("");
    }
    text := Painted(k, color) + "=" + v;
  }

  method Logfmt(ctx: seq<Entry>, color: int) returns (line: string)
    ensures line == Line(PairsOf(ctx, color))
  {
    line := "";
    ghost var pairs := PairsOf(ctx, color);
    for i := 0 to |ctx|
      invariant if i == 0 then line == "" else line + Tail(pairs[i..]) == Line(pairs)
    {
      var text := EntryText(ctx[i], color);
      if i != 0 {
        NextPair(line, pairs, i, text);
        line := line + " ";
      } else {
        FirstPair(pairs, text);
      }
      line := line + text;
    }
    line := line + "\n";
  }

  function ReadPairs(t: string): (r: Option<seq<Pair>>)
    ensures r.Some? ==> r.value != [] && forall i | 0 <= i < |r.value| :: '=' !in r.value[i].0
    decreases |t|
  {
    var i := Find(t, '=');
    if i == |t| then None
    else
      var v := ReadValue(t[i + 1..]);
      if v.None? then None
      else if v.value.1 == "\n" then Some([(t[..i], v.value.0)])
      else if v.value.1 == [] || v.value.1[0] != ' ' then None
      else
        var more := ReadPairs(v.value.1[1..]);
        if more.None? then None else Some([(t[..i], v.value.0)] + more.value)
  }

  function ReadLine(t: string): (r: Option<seq<Pair>>) {
    if t == "\n" then Some([]) else ReadPairs(t)
  }

  lemma ReadFirstKey(k: string, t: string)
    requires '=' !in k
    ensures var s := k + "=" + t; Find(s, '=') == |k| < |s| && s[..|k|] == k && s[|k| + 1..] == t
  {
    FindAt(k + "=" + t, '=', |k|);
  }

  ghost predicate PlainKeys(pairs: seq<Pair>) {
    forall i | 0 <= i < |pairs| :: '=' !in pairs[i].0
  }

  lemma FirstPairReadsBack(p: Pair, rest: string)
    requires '=' !in p.0 && rest != [] && rest[0] == ' '
    ensures ReadPairs(PairText(p, "\n")) == Some([p])
    ensures var more := ReadPairs(rest[1..]); more.Some? ==> ReadPairs(PairText(p, rest)) == Some([p] + more.value)
  {
    ReadFirstKey(p.0, Value(p.1, "\n"));
    ReadFirstKey(p.0, Value(p.1, rest));
    ValueReadsBack(p.1, "\n");
    ValueReadsBack(p.1, rest);
  }

  lemma {:induction false} PairsReadBack(p: Pair, pairs: seq<Pair>)
    requires '=' !in p.0 && PlainKeys(pairs)
    ensures ReadPairs(PairText(p, Tail(pairs))) == Some([p] + pairs)
    decreases |pairs|
  {
    if pairs == [] {
      FirstPairReadsBack(p, " ");
      assert [p] + pairs == [p];
    } else {
      PairsReadBack(pairs[0], pairs[1..]);
      FirstPairReadsBack(p, Tail(pairs));
      assert Tail(pairs)[1..] == PairText(pairs[0], Tail(pairs[1..]));
      assert pairs == [pairs[0]] + pairs[1..];
    }
  }

  // A whole line is read back exactly when no key has an equals sign: keys are written as they are.
  lemma LineReadsBackExactlyWhenKeysArePlain(pairs: seq<Pair>)
    ensures ReadLine(Line(pairs)) == Some(pairs) <==> PlainKeys(pairs)
  {
    if pairs != [] {
      assert Line(pairs)[|pairs[0].0|] == '=';
      if PlainKeys(pairs) {
        assert pairs == [pairs[0]] + pairs[1..];
        PairsReadBack(pairs[0], pairs[1..]);
      }
    }
  }

  // Keys that are written as they are, and can be told from the value behind them
  ghost predicate PlainEntries(ctx: seq<Entry>) {
    forall i | 0 <= i < |ctx| && ctx[i].key.StringKey? :: '=' !in ctx[i].key.text
  }

  lemma PaintAddsNoEquals(key: string, color: int)
    ensures '=' in Painted(key, color) <==> '=' in key
  {
    if color > 0 {
      var head, tail := "\U{1b}[" + Decimal(color) + "m", "\U{1b}[0m";
      assert '=' !in head && '=' !in tail;
      assert Painted(key, color) == head + key + tail;
    }
  }

  // What logfmt writes is read back pair by pair, in every colour, exactly when no key that is a string has an
  // equals sign.
  lemma LogLineReadsBackExactlyWhenKeysArePlain(ctx: seq<Entry>, color: int)
    ensures ReadLine(Line(PairsOf(ctx, color))) == Some(PairsOf(ctx, color)) <==> PlainEntries(ctx)
  {
    var pairs := PairsOf(ctx, color);
    forall i | 0 <= i < |ctx| ensures '=' !in pairs[i].0 <==> (ctx[i].key.StringKey? ==> '=' !in ctx[i].key.text) {
      PaintAddsNoEquals(if ctx[i].key.StringKey? then ctx[i].key.text else ERROR_KEY, color);
    }
    LineReadsBackExactlyWhenKeysArePlain(pairs);
  }

  lemma PairsOfStrings(ctx: seq<Entry>, color: int, i: nat)
    requires i < |ctx| && ctx[i].key.StringKey?
    ensures PairsOf(ctx, color)[i].1 == ctx[i].value && Unpainted(PairsOf(ctx, color)[i].0, color) == ctx[i].key.text
  {
    UnpaintedIsTheKey(ctx[i].key.text, color);
  }

  // A key without its colour: what is behind the first m and before the reset sequence of four characters
  function Unpainted(text: string, color: int): string {
    if color <= 0 then text
    else
      var m := Find(text, 'm');
      if m + 5 <= |text| then text[m + 1..|text| - 4] else ""
  }

  lemma UnpaintedIsTheKey(key: string, color: int)
    ensures Unpainted(Painted(key, color), color) == key
  {
    if color > 0 {
      var head, tail := "\U{1b}[" + Decimal(color), "\U{1b}[0m";
      var text := Painted(key, color);
      assert text == head + "m" + key + tail && 'm' !in head && |tail| == 4;
      FindAt(text, 'm', |head|);
      assert text[|head| + 1..|text| - 4] == key;
    }
  }

  // A context whose keys are strings without equals signs is recovered from its line, keys and values, in
  // every colour.
  lemma ContextReadsBack(ctx: seq<Entry>, color: int, i: nat)
    requires PlainEntries(ctx) && i < |ctx| && ctx[i].key.StringKey?
    ensures var r := ReadLine(Line(PairsOf(ctx, color)));
      r.Some? && |r.value| == |ctx| && Unpainted(r.value[i].0, color) == ctx[i].key.text && r.value[i].1 == ctx[i].value
  {
    LogLineReadsBackExactlyWhenKeysArePlain(ctx, color);
    PairsOfStrings(ctx, color, i);
  }

  // A value is quoted exactly when it has white space, a control character, an equals sign or a quote in it,
  // and written as it is exactly when it has none of these and no backslash.
  lemma ValueIsQuotedExactlyWhenNeeded(s: string)
    ensures Value(s, "") != "" && Value(s, "")[0] == '"' <==> exists i | 0 <= i < |s| :: s[i] <= ' ' || s[i] == '=' || s[i] == '"'
    ensures Value(s, "") == s <==> forall i | 0 <= i < |s| :: s[i] > ' ' && s[i] != '=' && s[i] != '"' && s[i] != '\\'
  {
    if NeedsQuotes(s) {
      var i :| 0 <= i < |s| && ForcesQuotes(s[i]);
      EscapedIsLonger(s, "\"" + "");
      assert |Value(s, "")| > |s|;
    } else {
      UnquotedHasNoQuotes(s, "");
      assert forall i | 0 <= i < |s| :: !ForcesQuotes(s[i]);
      if NeedsEscape(s) {
        EscapedIsLonger(s, "");
        var i :| 0 <= i < |s| && ForcesEscape(s[i]);
        assert s[i] == '\\';
      } else {
        PlainStaysPlain(s);
        assert forall i | 0 <= i < |s| :: !ForcesEscape(s[i]);
      }
    }
  }

  lemma {:induction false} EscapedIsLonger(s: string, tail: string)
    ensures |Escaped(s, tail)| >= |s| + |tail| && (NeedsEscape(s) ==> |Escaped(s, tail)| > |s| + |tail|)
  {
    if s != [] {
      assert forall i | 0 < i < |s| :: s[i] == s[1..][i - 1];
      EscapedIsLonger(s[1..], tail);
      assert |EscapedRune(s[0])| == if ForcesEscape(s[0]) then 2 else 1;
    }
  }
}
