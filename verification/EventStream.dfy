/**
 * A result streamed as server-sent events: the server sends heartbeats until the result is there,
 * the client drops the heartbeat lines and cuts the result out of what is left.
 */
module EventStream {
  import opened Wrappers

  const EVENT_RESULT := "event: result\n"
  const EVENT_HEARTBEAT := "event: keepalive_heartbeat"
  const DATA_MESSAGE := "data: "

  // ---------------------------------------------------------------------------------------------
  // Python's line boundaries and white space

  predicate IsBreak(c: char) {
    var n := c as int;
    0x0a <= n <= 0x0d || 0x1c <= n <= 0x1e || n == 0x85 || n == 0x2028 || n == 0x2029
  }

  predicate IsSpace(c: char) {
    var n := c as int;
    || 0x09 <= n <= 0x0d || 0x1c <= n <= 0x20 || n == 0x85 || n == 0xa0 || n == 0x1680 || 0x2000 <= n <= 0x200a
    || n == 0x2028 || n == 0x2029 || n == 0x202f || n == 0x205f || n == 0x3000
  }

  function FindBreak(s: string): (i: nat)
    ensures i <= |s|
    ensures i < |s| ==> IsBreak(s[i])
    ensures forall j | 0 <= j < i :: !IsBreak(s[j])
  {
    if s == [] || IsBreak(s[0]) then 0 else 1 + FindBreak(s[1..])
  }

  // Where the line after the one that ends at position i begins: "\r\n" is one line break.
  function NextLine(s: string, i: nat): (k: nat)
    requires i < |s|
    ensures i < k <= |s|
  {
    if s[i] == '\r' && i + 1 < |s| && s[i + 1] == '\n' then i + 2 else i + 1
  }

  function SplitLines(s: string): seq<string>
    decreases |s|
  {
    var i := FindBreak(s);
    if s == [] then [] else if i == |s| then [s] else [s[..i]] + SplitLines(s[NextLine(s, i)..])
  }

  function StripLeft(s: string): string {
    if s != [] && IsSpace(s[0]) then StripLeft(s[1..]) else s
  }

  function StripRight(s: string): string {
    if s != [] && IsSpace(s[|s| - 1]) then StripRight(s[..|s| - 1]) else s
  }

  predicate IsHeartbeat(line: string) {
    StripRight(StripLeft(line)) == EVENT_HEARTBEAT
  }

  // ---------------------------------------------------------------------------------------------

  // A tail behind n copies of a text
  function Repeated(unit: string, n: nat, tail: string): string {
    if n == 0 then tail else unit + Repeated(unit, n - 1, tail)
  }

  function ResultEvent(payload: string): string {
    EVENT_RESULT + (DATA_MESSAGE + payload + "\n\n")
  }

  function Stream(timeouts: nat, payload: string): string {
    Repeated(EVENT_HEARTBEAT + "\n\n", timeouts, ResultEvent(payload))
  }

  // The server's generator: the result queue is empty for the given number of polls.
  method SseGenerator(timeouts: nat, payload: string) returns (stream: string)
    ensures stream == Stream(timeouts, payload)
  {
    stream := "";
    var polls := 0;
    while polls < timeouts
      invariant polls <= timeouts
      invariant stream + Stream(timeouts - polls, payload) == Stream(timeouts, payload)
    {
      stream := stream + (EVENT_HEARTBEAT + "\n\n");
      polls := polls + 1;
    }
    stream := stream + ResultEvent(payload);
  }

  function Kept(lines: seq<string>): string {
    if lines == [] then ""
    else (if IsHeartbeat(lines[0]) then "" else lines[0] + "\n") + Kept(lines[1..])
  }

  predicate IsAt(text: string, part: string, i: nat) {
    i + |part| <= |text| && text[i..i + |part|] == part
  }

  lemma IsAtInTail(text: string, part: string)
    requires text != []
    ensures forall i: nat | i >= 1 :: IsAt(text, part, i) == IsAt(text[1..], part, i - 1)
  {
  }

  // str.find
  function FindText(text: string, part: string): (r: Option<nat>)
    ensures r.Some? ==> IsAt(text, part, r.value) && forall i: nat | i < r.value :: !IsAt(text, part, i)
    ensures r.None? ==> forall i: nat :: !IsAt(text, part, i)
  {
    if IsAt(text, part, 0) then Some(0)
    else if text == [] then None
    else
      IsAtInTail(text, part);
      var rest := FindText(text[1..], part);
      if rest.Some? then Some(rest.value + 1) else None
  }

  // extract_response_dict, up to the decoding of the JSON text
  function ExtractResponse(text: string): Result<string, string> {
    var prefix := EVENT_RESULT + DATA_MESSAGE;
    var found := FindText(text, prefix);
    if found.None? then Err("could not find result event in the SSE response")
    else Ok(text[found.value + |prefix|..])
  }

  lemma KeptOfMore(buffer: string, lines: seq<string>)
    requires lines != []
    ensures buffer + Kept(lines) == (if IsHeartbeat(lines[0]) then buffer else buffer + (lines[0] + "\n")) + Kept(lines[1..])
  {
  }

  // The client's loop over the lines of the response
  method MakeSseRequest(stream: string) returns (r: Result<string, string>)
    ensures r == ExtractResponse(Kept(SplitLines(stream)))
  {
    var lines := SplitLines(stream);
    var buffer := "";
    var k := 0;
    while k < |lines|
      invariant k <= |lines|
      invariant buffer + Kept(lines[k..]) == Kept(lines)
    {
      KeptOfMore(buffer, lines[k..]);
      if !IsHeartbeat(lines[k]) {
        buffer := buffer + (lines[k] + "\n");
      }
      k := k + 1;
    }
    assert buffer + Kept(lines[k..]) == buffer;
    r := ExtractResponse(buffer);
  }

  // ---------------------------------------------------------------------------------------------

  function Received(text: string): string {
    Kept(SplitLines(text))
  }

  // Text whose lines all end in "\n" and are no heartbeats
  ghost predicate Plain(text: string) {
    PlainBreaks(text) && NoHeartbeat(SplitLines(text))
  }

  ghost predicate PlainBreaks(text: string) {
    forall i | 0 <= i < |text| && IsBreak(text[i]) :: text[i] == '\n'
  }

  ghost predicate NoHeartbeat(lines: seq<string>) {
    forall line | line in lines :: !IsHeartbeat(line)
  }

  ghost predicate Unbroken(s: string) {
    forall i | 0 <= i < |s| :: !IsBreak(s[i])
  }

  lemma {:induction false} FindBreakAt(s: string, i: nat)
    requires i <= |s| && Unbroken(s[..i]) && (i < |s| ==> IsBreak(s[i]))
    ensures FindBreak(s) == i
  {
    if i > 0 {
      assert s[..i][0] == s[0] && s[..i][1..] == s[1..][..i - 1];
      FindBreakAt(s[1..], i - 1);
    }
  }

  lemma ReceivedLine(line: string, rest: string)
    requires Unbroken(line)
    ensures Received(line + "\n" + rest) == (if IsHeartbeat(line) then "" else line + "\n") + Received(rest)
  {
    var text := line + "\n" + rest;
    assert text[..|line|] == line && text[|line| + 1..] == rest;
    FindBreakAt(text, |line|);
    assert SplitLines(text) == [line] + SplitLines(rest);
  }

  // Stripping keeps a first character that is no white space.
  lemma {:induction false} StripKeepsFirst(s: string)
    requires s != [] && !IsSpace(s[0])
    ensures StripRight(s) != [] && StripRight(s)[0] == s[0]
    decreases |s|
  {
    if IsSpace(s[|s| - 1]) {
      StripKeepsFirst(s[..|s| - 1]);
    }
  }

  lemma MarkersAreTold(data: string)
    ensures IsHeartbeat(EVENT_HEARTBEAT) && !IsHeartbeat("") && !IsHeartbeat("event: result") && !IsHeartbeat(DATA_MESSAGE + data)
  {
    StripKeepsFirst(DATA_MESSAGE + data);
  }

  lemma BeatLeavesANewline(beat: string, rest: string)
    requires Unbroken(beat) && IsHeartbeat(beat)
    ensures Received(beat + "\n\n" + rest) == "\n" + Received(rest)
  {
    MarkersAreTold("");
    ReceivedLine(beat, "\n" + rest);
    ReceivedLine("", rest);
    assert beat + "\n\n" + rest == beat + "\n" + ("\n" + rest);
    assert "\n" + rest == "" + "\n" + rest;
  }

  // Each heartbeat leaves only the empty line behind it.
  lemma {:induction false} BeatsLeaveNewlines(beat: string, n: nat, tail: string)
    requires Unbroken(beat) && IsHeartbeat(beat)
    ensures Received(Repeated(beat + "\n\n", n, tail)) == Repeated("\n", n, Received(tail))
  {
    if n > 0 {
      BeatLeavesANewline(beat, Repeated(beat + "\n\n", n - 1, tail));
      BeatsLeaveNewlines(beat, n - 1, tail);
    }
  }

  lemma HeartbeatsLeaveNewlines(n: nat, tail: string)
    ensures Received(Repeated(EVENT_HEARTBEAT + "\n\n", n, tail)) == Repeated("\n", n, Received(tail))
  {
    var beat := EVENT_HEARTBEAT;
    assert Unbroken(beat);
    assert IsHeartbeat(beat) by { MarkersAreTold(""); }
    BeatsLeaveNewlines(beat, n, tail);
  }

  lemma ResultIsKept(data: string)
    ensures Received(EVENT_RESULT + data) == EVENT_RESULT + Received(data)
  {
    var event := "event: result";
    MarkersAreTold("");
    ReceivedLine(event, data);
    assert EVENT_RESULT == event + "\n";
  }

  lemma FindSkips(c: char, text: string, part: string)
    requires part != [] && part[0] != c && FindText(text, part).Some?
    ensures FindText([c] + text, part) == Some(FindText(text, part).value + 1)
  {
  }

  lemma FindAtStart(text: string, part: string)
    requires part <= text
    ensures FindText(text, part) == Some(0)
  {
  }

  // The first part found behind n newlines is the one that follows them.
  lemma {:induction false} FoundAfterNewlines(n: nat, part: string, tail: string)
    requires part != [] && part[0] != '\n' && part <= tail
    ensures FindText(Repeated("\n", n, tail), part) == Some(n)
  {
    if n == 0 {
      FindAtStart(tail, part);
    } else {
      var rest := Repeated("\n", n - 1, tail);
      FoundAfterNewlines(n - 1, part, tail);
      FindSkips('\n', rest, part);
      assert Repeated("\n", n, tail) == ['\n'] + rest;
    }
  }

  lemma {:induction false} BehindNewlines(n: nat, tail: string)
    ensures n <= |Repeated("\n", n, tail)| && Repeated("\n", n, tail)[n..] == tail
  {
    if n > 0 {
      BehindNewlines(n - 1, tail);
      assert Repeated("\n", n, tail)[n..] == Repeated("\n", n - 1, tail)[n - 1..];
    }
  }

  lemma ExtractedIsTheTail(n: nat, data: string)
    ensures ExtractResponse(Repeated("\n", n, EVENT_RESULT + (DATA_MESSAGE + data))) == Ok(data)
  {
    var prefix := EVENT_RESULT + DATA_MESSAGE;
    assert EVENT_RESULT + (DATA_MESSAGE + data) == prefix + data;
    FoundAfterNewlines(n, prefix, prefix + data);
    BehindNewlines(n, prefix + data);
    var text := Repeated("\n", n, prefix + data);
    assert text[n + |prefix|..] == text[n..][|prefix|..];
  }

  // ---------------------------------------------------------------------------------------------

  ghost predicate Terminated(text: string) {
    text == [] || text[|text| - 1] == '\n'
  }

  lemma ReceivedFirst(text: string, i: nat)
    requires i == FindBreak(text) < |text|
    ensures Received(text) == (if IsHeartbeat(text[..i]) then "" else text[..i] + "\n") + Received(text[NextLine(text, i)..])
  {
  }

  lemma SameAfterLine(line: string, c: char, x: string, y: string)
    ensures line + "\n" + x == line + [c] + y <==> c == '\n' && x == y
  {
    var a, b := line + "\n" + x, line + [c] + y;
    assert a[|line|] == '\n' && b[|line|] == c && a[|line| + 1..] == x && b[|line| + 1..] == y;
  }

  // The client sees a text as it was sent exactly when all its lines end in "\n" and none is a heartbeat.
  lemma {:induction false} ReceivedAsSentExactlyWhenPlain(text: string)
    requires Terminated(text)
    ensures |Received(text)| <= |text|
    ensures Received(text) == text <==> Plain(text)
    decreases |text|
  {
    if text != [] {
      var i := FindBreak(text);
      assert i < |text| by { assert IsBreak(text[|text| - 1]); }
      var k := NextLine(text, i);
      var line, rest := text[..i], text[k..];
      ReceivedAsSentExactlyWhenPlain(rest);
      ReceivedFirst(text, i);
      PlainLine(text, i);
      if k == i + 1 {
        CutAt(text, i);
        SameAfterLine(line, text[i], Received(rest), rest);
      }
    }
  }

  lemma PlainBreaksOfConcat(a: string, b: string)
    ensures PlainBreaks(a + b) <==> PlainBreaks(a) && PlainBreaks(b)
  {
    var s := a + b;
    if PlainBreaks(s) {
      assert forall i | 0 <= i < |a| :: a[i] == s[i];
      assert forall i | 0 <= i < |b| :: b[i] == s[|a| + i];
    }
  }

  lemma PlainBreaksOfLine(line: string, c: char, rest: string)
    requires Unbroken(line) && IsBreak(c)
    ensures PlainBreaks(line + ([c] + rest)) <==> c == '\n' && PlainBreaks(rest)
  {
    PlainBreaksOfConcat(line, [c] + rest);
    PlainBreaksOfConcat([c], rest);
    assert [c][0] == c;
  }

  lemma NoHeartbeatInFirst(line: string, lines: seq<string>)
    ensures NoHeartbeat([line] + lines) <==> !IsHeartbeat(line) && NoHeartbeat(lines)
  {
  }

  lemma CutAt(text: string, i: nat)
    requires i < |text|
    ensures text == text[..i] + ([text[i]] + text[i + 1..]) == text[..i] + [text[i]] + text[i + 1..]
  {
  }

  lemma PlainBreaksOfFirst(text: string, i: nat)
    requires i == FindBreak(text) < |text|
    ensures PlainBreaks(text) <==> text[i] == '\n' && PlainBreaks(text[i + 1..])
  {
    CutAt(text, i);
    PlainBreaksOfLine(text[..i], text[i], text[i + 1..]);
  }

  lemma PlainLine(text: string, i: nat)
    requires i == FindBreak(text) < |text|
    ensures Plain(text) <==> text[i] == '\n' && !IsHeartbeat(text[..i]) && Plain(text[NextLine(text, i)..])
  {
    PlainBreaksOfFirst(text, i);
    var lines := SplitLines(text[NextLine(text, i)..]);
    assert SplitLines(text) == [text[..i]] + lines;
    NoHeartbeatInFirst(text[..i], lines);
  }

  // The first line of a text that is no heartbeat comes through whole.
  lemma FirstLineIsKept(text: string, i: nat)
    requires i == FindBreak(text) < |text| && !IsHeartbeat(text[..i])
    ensures text[..i] <= Received(text)
  {
  }

  // What the client makes of a streamed result, for every number of heartbeats
  lemma StreamedResult(timeouts: nat, payload: string)
    ensures var data := Received(DATA_MESSAGE + payload + "\n\n");
      DATA_MESSAGE <= data && ExtractResponse(Received(Stream(timeouts, payload))) == Ok(data[|DATA_MESSAGE|..])
  {
    var data := Received(DATA_MESSAGE + payload + "\n\n");
    MessageIsKept(payload);
    HeartbeatsLeaveNewlines(timeouts, ResultEvent(payload));
    ResultIsKept(DATA_MESSAGE + payload + "\n\n");
    ExtractedIsTheTail(timeouts, data[|DATA_MESSAGE|..]);
    assert data == DATA_MESSAGE + data[|DATA_MESSAGE|..];
  }

  lemma MessageIsKept(payload: string)
    ensures DATA_MESSAGE <= Received(DATA_MESSAGE + payload + "\n\n")
  {
    var text := DATA_MESSAGE + payload + "\n\n";
    var i := FindBreak(text);
    assert i >= |DATA_MESSAGE|;
    assert i < |text| by { assert IsBreak(text[|text| - 1]); }
    MarkersAreTold(text[..i][|DATA_MESSAGE|..]);
    assert text[..i] == DATA_MESSAGE + text[..i][|DATA_MESSAGE|..];
    FirstLineIsKept(text, i);
  }

  // The client recovers the payload exactly when the text it is sent in is plain; the JSON decoder
  // ignores the two newlines behind it.
  lemma PayloadSurvivesExactlyWhenPlain(timeouts: nat, payload: string)
    ensures ExtractResponse(Received(Stream(timeouts, payload))) == Ok(payload + "\n\n")
      <==> Plain(DATA_MESSAGE + payload + "\n\n")
  {
    var message, sent := DATA_MESSAGE, DATA_MESSAGE + payload + "\n\n";
    StreamedResult(timeouts, payload);
    ReceivedAsSentExactlyWhenPlain(sent);
    assert sent == message + (payload + "\n\n");
    assert Received(sent) == message + Received(sent)[|message|..];
  }

  lemma UnbrokenDataIsPlain(data: string)
    requires Unbroken(data) && !IsHeartbeat(data)
    ensures Plain(data + "\n" + "\n")
  {
    var text := data + "\n" + "\n";
    assert text[..|data|] == data && text[|data| + 1..] == "\n";
    FindBreakAt(text, |data|);
    FindBreakAt("\n", 0);
    MarkersAreTold("");
    PlainLine("\n", 0);
    PlainLine(text, |data|);
  }

  // In particular every payload on one line survives, as JSON text always is.
  lemma UnbrokenPayloadSurvives(timeouts: nat, payload: string)
    requires Unbroken(payload)
    ensures ExtractResponse(Received(Stream(timeouts, payload))) == Ok(payload + "\n\n")
  {
    var data := DATA_MESSAGE + payload;
    MarkersAreTold(payload);
    UnbrokenDataIsPlain(data);
    assert data + "\n" + "\n" == data + "\n\n";
    PayloadSurvivesExactlyWhenPlain(timeouts, payload);
  }

  function CountHeartbeats(lines: seq<string>): nat {
    if lines == [] then 0 else (if IsHeartbeat(lines[0]) then 1 else 0) + CountHeartbeats(lines[1..])
  }

  lemma CountOfLine(line: string, rest: string)
    requires Unbroken(line)
    ensures CountHeartbeats(SplitLines(line + "\n" + rest)) == (if IsHeartbeat(line) then 1 else 0) + CountHeartbeats(SplitLines(rest))
  {
    var text := line + "\n" + rest;
    assert text[..|line|] == line && text[|line| + 1..] == rest;
    FindBreakAt(text, |line|);
    assert SplitLines(text) == [line] + SplitLines(rest);
  }

  lemma CountOfBeat(beat: string, rest: string)
    requires Unbroken(beat) && IsHeartbeat(beat)
    ensures CountHeartbeats(SplitLines(beat + "\n\n" + rest)) == 1 + CountHeartbeats(SplitLines(rest))
  {
    MarkersAreTold("");
    CountOfLine(beat, "\n" + rest);
    CountOfLine("", rest);
    assert beat + "\n\n" + rest == beat + "\n" + ("\n" + rest);
    assert "\n" + rest == "" + "\n" + rest;
  }

  function Beats(text: string): nat {
    CountHeartbeats(SplitLines(text))
  }

  // The text is one heartbeat, whatever comes after it.
  ghost predicate IsOneBeat(unit: string) {
    forall rest: string :: Beats(unit + rest) == 1 + Beats(rest)
  }

  lemma {:induction false} CountOfBeats(unit: string, n: nat, tail: string)
    requires IsOneBeat(unit)
    ensures Beats(Repeated(unit, n, tail)) == n + Beats(tail)
  {
    if n > 0 {
      CountOfBeats(unit, n - 1, tail);
    }
  }

  // One heartbeat goes out for every poll that finds no result, and no more.
  lemma EveryTimeoutSendsOneHeartbeat(timeouts: nat, payload: string)
    ensures Beats(Stream(timeouts, payload)) == timeouts + Beats(ResultEvent(payload))
  {
    var beat := EVENT_HEARTBEAT;
    assert Unbroken(beat);
    assert IsHeartbeat(beat) by { MarkersAreTold(""); }
    HeartbeatIsOneBeat(beat);
    CountOfBeats(beat + "\n\n", timeouts, ResultEvent(payload));
  }

  lemma HeartbeatIsOneBeat(beat: string)
    requires Unbroken(beat) && IsHeartbeat(beat)
    ensures IsOneBeat(beat + "\n\n")
  {
    forall rest: string ensures Beats(beat + "\n\n" + rest) == 1 + Beats(rest) {
      CountOfBeat(beat, rest);
    }
  }
}
