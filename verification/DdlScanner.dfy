/**
  The splitter inside `parseDDL`: it cuts the body of a CREATE TABLE statement at the commas that
  are outside quotes and brackets.
*/
module DdlScanner {
  import opened Results

  datatype DdlError = InvalidDdl | UnbalancedBrackets

  /** The character class of `separatorRegexp`: three quotes, the tab, and the bar that was meant as "or". */
  predicate IsQuote(c: char) { c == '`' || c == '|' || c == '"' || c == '\'' || c == '\t' }

  /** unicode.IsSpace */
  predicate IsSpace(c: char) {
    || '\t' <= c <= '\r' || c == ' ' || c == '\U{85}' || c == '\U{A0}' || c == '\U{1680}'
    || '\U{2000}' <= c <= '\U{200A}' || c == '\U{2028}' || c == '\U{2029}' || c == '\U{202F}'
    || c == '\U{205F}' || c == '\U{3000}'
  }

  function TrimLeft(s: string): string {
    if s != "" && IsSpace(s[0]) then TrimLeft(s[1..]) else s
  }

  function TrimRight(s: string): string {
    if s != "" && IsSpace(s[|s| - 1]) then TrimRight(s[..|s| - 1]) else s
  }

  /** strings.TrimSpace */
  function TrimSpace(s: string): string { TrimRight(TrimLeft(s)) }

  function TrimAll(ss: seq<string>): (r: seq<string>)
    ensures |r| == |ss| && forall i :: 0 <= i < |ss| ==> r[i] == TrimSpace(ss[i])
  {
    seq(|ss|, i requires 0 <= i < |ss| => TrimSpace(ss[i]))
  }

  // ---------------------------------------------------------------- what the body means

  /** A doubled quote character is one token that changes nothing; a single one opens or closes a quote. */
  datatype Token = Doubled(c: char) | Toggle(c: char) | Plain(c: char)

  function Tokens(s: string): seq<Token> {
    if s == "" then []
    else if !IsQuote(s[0]) then [Plain(s[0])] + Tokens(s[1..])
    else if |s| > 1 && s[1] == s[0] then [Doubled(s[0])] + Tokens(s[2..])
    else [Toggle(s[0])] + Tokens(s[1..])
  }

  function Spelling(t: Token): string { if t.Doubled? then [t.c, t.c] else [t.c] }

  function Text(ts: seq<Token>): string {
    if ts == [] then "" else Text(ts[..|ts| - 1]) + Spelling(ts[|ts| - 1])
  }

  /** How many quotes were opened or closed so far; any of the five characters closes any other. */
  function Toggles(ts: seq<Token>): nat {
    if ts == [] then 0 else Toggles(ts[..|ts| - 1]) + if ts[|ts| - 1].Toggle? then 1 else 0
  }

  predicate Quoted(ts: seq<Token>) { Toggles(ts) % 2 == 1 }

  /** Opening minus closing brackets outside quotes. */
  function Depth(ts: seq<Token>): int {
    if ts == [] then 0
    else
      var init, t := ts[..|ts| - 1], ts[|ts| - 1];
      Depth(init) +
      if Quoted(init) then 0 else if t == Plain('(') then 1 else if t == Plain(')') then -1 else 0
  }

  function DepthAt(ts: seq<Token>, k: nat): int
    requires k <= |ts|
  {
    Depth(ts[..k])
  }

  /** The unquoted brackets never close more than they opened, and end closed. */
  ghost predicate Balanced(ts: seq<Token>) {
    (forall k :: 0 <= k <= |ts| ==> DepthAt(ts, k) >= 0) && DepthAt(ts, |ts|) == 0
  }

  /** A separating comma: outside quotes and outside brackets. */
  predicate IsCut(ts: seq<Token>, k: nat)
    requires k < |ts|
  {
    ts[k] == Plain(',') && !Quoted(ts[..k]) && Depth(ts[..k]) == 0
  }

  /** The text between separating commas, before trimming. */
  function Segments(ts: seq<Token>): (r: seq<string>)
    ensures |r| > 0
  {
    if ts == [] then [""]
    else
      var init, k := Segments(ts[..|ts| - 1]), |ts| - 1;
      if IsCut(ts, k) then init + [""]
      else init[..|init| - 1] + [init[|init| - 1] + Spelling(ts[k])]
  }

  /** The fields: trimmed segments, without a last one that is empty before trimming. */
  function Fields(segments: seq<string>): seq<string>
    requires |segments| > 0
  {
    TrimAll(if segments[|segments| - 1] == "" then segments[..|segments| - 1] else segments)
  }

  ghost function Parsed(body: string): Result<seq<string>, DdlError> {
    if Balanced(Tokens(body)) then Ok(Fields(Segments(Tokens(body)))) else Err(UnbalancedBrackets)
  }

  // ---------------------------------------------------------------- the loop

  predicate NeverBelow(ts: seq<Token>) {
    ts == [] || (NeverBelow(ts[..|ts| - 1]) && Depth(ts) >= 0)
  }

  lemma {:induction false} NeverBelowAt(ts: seq<Token>)
    ensures NeverBelow(ts) <==> forall k :: 0 <= k <= |ts| ==> DepthAt(ts, k) >= 0
  {
    if ts == [] {
      assert forall k :: 0 <= k <= |ts| ==> ts[..k] == ts;
    } else {
      var init := ts[..|ts| - 1];
      NeverBelowAt(init);
      assert forall k :: 0 <= k <= |init| ==> init[..k] == ts[..k];
      assert forall k :: 0 <= k <= |init| ==> DepthAt(init, k) == DepthAt(ts, k);
      assert ts[..|ts|] == ts;
      assert DepthAt(ts, |ts|) == Depth(ts);
    }
  }

  /** What one more token does to the quote, the depth, the text and the segments so far. */
  lemma Snoc(ts: seq<Token>, t: Token, closed: seq<string>, buf: string)
    requires Segments(ts) == closed + [buf]
    ensures Quoted(ts + [t]) == (Quoted(ts) != t.Toggle?)
    ensures Depth(ts + [t]) == Depth(ts)
              + if Quoted(ts) then 0 else if t == Plain('(') then 1 else if t == Plain(')') then -1 else 0
    ensures NeverBelow(ts + [t]) <==> NeverBelow(ts) && Depth(ts + [t]) >= 0
    ensures Text(ts + [t]) == Text(ts) + Spelling(t)
    ensures Segments(ts + [t]) ==
            if t == Plain(',') && !Quoted(ts) && Depth(ts) == 0 then closed + [buf] + [""]
            else closed + [buf + Spelling(t)]
  {
    assert (ts + [t])[..|ts|] == ts;
    assert closed + [buf] + [""] == (closed + [buf]) + [""];
    SegmentsSnoc(ts, t, closed, buf);
  }

  lemma SegmentsSnoc(ts: seq<Token>, t: Token, closed: seq<string>, buf: string)
    requires Segments(ts) == closed + [buf]
    ensures Segments(ts + [t]) ==
            if t == Plain(',') && !Quoted(ts) && Depth(ts) == 0 then closed + [buf] + [""]
            else closed + [buf + Spelling(t)]
  {
    assert (ts + [t])[..|ts|] == ts && (ts + [t])[|ts|] == t;
    assert Segments(ts)[..|closed|] == closed && Segments(ts)[|closed|] == buf;
  }

  function TokenAt(body: string, idx: nat): Token
    requires idx < |body|
  {
    var c := body[idx];
    if !IsQuote(c) then Plain(c) else if idx + 1 < |body| && body[idx + 1] == c then Doubled(c) else Toggle(c)
  }

  lemma NextToken(body: string, idx: nat, done: seq<Token>)
    requires idx < |body|
    ensures idx + |Spelling(TokenAt(body, idx))| <= |body|
    ensures done + Tokens(body[idx..]) ==
            done + [TokenAt(body, idx)] + Tokens(body[idx + |Spelling(TokenAt(body, idx))|..])
  {
    assert body[idx..][1..] == body[idx + 1..];
    if idx + 1 < |body| { assert body[idx..][2..] == body[idx + 2..]; }
  }

  lemma Unbalanced(ts: seq<Token>, rest: seq<Token>)
    requires Depth(ts) < 0
    ensures !Balanced(ts + rest)
  {
    assert (ts + rest)[..|ts|] == ts;
    assert DepthAt(ts + rest, |ts|) < 0;
  }

  /** The loop's variables describe the tokens read so far; `closed` are the segments that became fields. */
  ghost predicate Scanned(
    body: string, idx: nat, quoted: bool, level: int, fields: seq<string>, buf: string,
    done: seq<Token>, closed: seq<string>)
  {
    && idx <= |body|
    && Tokens(body) == done + Tokens(body[idx..])
    && Describes(quoted, level, fields, buf, done, closed)
  }

  ghost predicate Describes(
    quoted: bool, level: int, fields: seq<string>, buf: string, done: seq<Token>, closed: seq<string>)
  {
    && quoted == Quoted(done)
    && level == Depth(done)
    && NeverBelow(done)
    && Segments(done) == closed + [buf]
    && fields == TrimAll(closed)
  }

  lemma FieldClosed(closed: seq<string>, buf: string)
    ensures TrimAll(closed + [buf]) == TrimAll(closed) + [TrimSpace(buf)]
  {
    assert forall i :: 0 <= i < |closed| ==> (closed + [buf])[i] == closed[i];
  }

  predicate CutsHere(token: Token, quoted: bool, level: int) { token == Plain(',') && !quoted && level == 0 }

  function LevelAfter(token: Token, quoted: bool, level: int): int {
    level + if quoted then 0 else if token == Plain('(') then 1 else if token == Plain(')') then -1 else 0
  }

  lemma DescribesNext(quoted: bool, level: int, fields: seq<string>, buf: string,
                      done: seq<Token>, closed: seq<string>, token: Token)
    requires Describes(quoted, level, fields, buf, done, closed)
    ensures Depth(done + [token]) == LevelAfter(token, quoted, level)
    ensures LevelAfter(token, quoted, level) >= 0 ==>
              var cut := CutsHere(token, quoted, level);
              Describes(quoted != token.Toggle?, LevelAfter(token, quoted, level),
                if cut then fields + [TrimSpace(buf)] else fields,
                if cut then "" else buf + Spelling(token),
                done + [token], if cut then closed + [buf] else closed)
  {
    Snoc(done, token, closed, buf);
    FieldClosed(closed, buf);
  }

  /** Reading one more token: the next state, or the proof that the brackets do not balance. */
  lemma Read(body: string, idx: nat, quoted: bool, level: int, fields: seq<string>, buf: string,
             done: seq<Token>, closed: seq<string>)
    returns (done': seq<Token>, closed': seq<string>)
    requires Scanned(body, idx, quoted, level, fields, buf, done, closed) && idx < |body|
    ensures var token := TokenAt(body, idx);
            var cut := CutsHere(token, quoted, level);
            if LevelAfter(token, quoted, level) < 0 then !Balanced(Tokens(body))
            else Scanned(body, idx + |Spelling(token)|, quoted != token.Toggle?, LevelAfter(token, quoted, level),
                   if cut then fields + [TrimSpace(buf)] else fields,
                   if cut then "" else buf + Spelling(token), done', closed')
  {
    var token := TokenAt(body, idx);
    NextToken(body, idx, done);
    DescribesNext(quoted, level, fields, buf, done, closed, token);
    done' := done + [token];
    closed' := if CutsHere(token, quoted, level) then closed + [buf] else closed;
    if LevelAfter(token, quoted, level) < 0 {
      Unbalanced(done', Tokens(body[idx + |Spelling(token)|..]));
    }
  }

  /** The same, character by character as the loop sees it. */
  lemma Advance(body: string, idx: nat, quoted: bool, level: int, fields: seq<string>, buf: string,
                done: seq<Token>, closed: seq<string>)
    returns (done': seq<Token>, closed': seq<string>)
    requires Scanned(body, idx, quoted, level, fields, buf, done, closed) && idx < |body|
    ensures var c := body[idx];
            if IsQuote(c) then
              if idx + 1 < |body| && body[idx + 1] == c
              then Scanned(body, idx + 2, quoted, level, fields, buf + [c] + [c], done', closed')
              else Scanned(body, idx + 1, !quoted, level, fields, buf + [c], done', closed')
            else if !quoted && c == '(' then Scanned(body, idx + 1, quoted, level + 1, fields, buf + [c], done', closed')
            else if !quoted && c == ')' then
              if level - 1 < 0 then !Balanced(Tokens(body))
              else Scanned(body, idx + 1, quoted, level - 1, fields, buf + [c], done', closed')
            else if !quoted && c == ',' && level == 0
            then Scanned(body, idx + 1, quoted, level, fields + [TrimSpace(buf)], "", done', closed')
            else Scanned(body, idx + 1, quoted, level, fields, buf + [c], done', closed')
  {
    assert level >= 0;
    var c := body[idx];
    if TokenAt(body, idx).Doubled? { assert buf + [c] + [c] == buf + Spelling(TokenAt(body, idx)); }
    done', closed' := Read(body, idx, quoted, level, fields, buf, done, closed);
  }

  method ScanBody(body: string) returns (r: Result<seq<string>, DdlError>)
    ensures r == Parsed(body)
  {
    var fields: seq<string>, buf := [], "";
    var bracketLevel, quote, idx := 0, '\0', 0;
    ghost var done: seq<Token>, closed: seq<string> := [], [];
    assert body[0..] == body;
    while idx < |body|
      invariant Scanned(body, idx, quote != '\0', bracketLevel, fields, buf, done, closed)
      decreases |body| - idx
    {
      var c := body[idx];
      var next := if idx + 1 < |body| then body[idx + 1] else '\0';
      done, closed := Advance(body, idx, quote != '\0', bracketLevel, fields, buf, done, closed);
      idx := idx + 1;

      if IsQuote(c) {
        if c == next {
          buf := buf + [c];
          idx := idx + 1;
        } else if quote != '\0' {
          quote := '\0';
        } else {
          quote := c;
        }
      } else if quote == '\0' {
        if c == '(' {
          bracketLevel := bracketLevel + 1;
        } else if c == ')' {
          bracketLevel := bracketLevel - 1;
        } else if bracketLevel == 0 {
          if c == ',' {
            fields := fields + [TrimSpace(buf)];
            buf := "";
            continue;
          }
        }
      }

      if bracketLevel < 0 { return Err(UnbalancedBrackets); }
      buf := buf + [c];
    }

    ScanEnd(body, idx, quote != '\0', bracketLevel, fields, buf, done, closed);
    if bracketLevel != 0 { return Err(UnbalancedBrackets); }
    if buf != "" { fields := fields + [TrimSpace(buf)]; }
    return Ok(fields);
  }

  lemma ScanEnd(body: string, idx: nat, quoted: bool, level: int, fields: seq<string>, buf: string,
                ts: seq<Token>, closed: seq<string>)
    requires Scanned(body, idx, quoted, level, fields, buf, ts, closed) && idx == |body|
    ensures Parsed(body) ==
            if level != 0 then Err(UnbalancedBrackets)
            else Ok(if buf == "" then fields else fields + [TrimSpace(buf)])
  {
    assert Tokens(body) == ts && ts[..|ts|] == ts;
    NeverBelowAt(ts);
    FieldsOf(closed, buf);
  }

  lemma FieldsOf(closed: seq<string>, buf: string)
    ensures Fields(closed + [buf]) == TrimAll(closed) + if buf == "" then [] else [TrimSpace(buf)]
  {
    assert (closed + [buf])[..|closed|] == closed;
  }
}
