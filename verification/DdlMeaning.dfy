/** The splitter's result told without its own vocabulary: characters, counts and trimmed cuts. */
module DdlMeaning {
  import opened Results
  import opened DdlScanner
  import opened DdlSegments
  import opened DdlRoundTrip
  import opened DdlConstraints

  // ---------------------------------------------------------------- trimming

  /** The characters of Unicode's white space property. */
  lemma SpacesMean(c: char)
    ensures IsSpace(c) <==>
            c in "\t\n\U{0B}\U{0C}\r \U{85}\U{A0}\U{1680}"
               + "\U{2000}\U{2001}\U{2002}\U{2003}\U{2004}\U{2005}\U{2006}\U{2007}\U{2008}\U{2009}\U{200A}"
               + "\U{2028}\U{2029}\U{202F}\U{205F}\U{3000}"
  {
  }

  predicate Blank(s: string) { forall i :: 0 <= i < |s| ==> IsSpace(s[i]) }

  /** Nothing to trim at either end. */
  predicate Tight(s: string) { s == "" || (!IsSpace(s[0]) && !IsSpace(s[|s| - 1])) }

  lemma {:induction false} TrimLeftMeans(s: string) returns (a: string)
    ensures s == a + TrimLeft(s) && Blank(a)
    ensures TrimLeft(s) == "" || !IsSpace(TrimLeft(s)[0])
  {
    a := "";
    if s != "" && IsSpace(s[0]) {
      a := TrimLeftMeans(s[1..]);
      a := [s[0]] + a;
    }
  }

  lemma {:induction false} TrimRightMeans(s: string) returns (b: string)
    ensures s == TrimRight(s) + b && Blank(b)
    ensures TrimRight(s) == "" || !IsSpace(TrimRight(s)[|TrimRight(s)| - 1])
  {
    b := "";
    if s != "" && IsSpace(s[|s| - 1]) {
      b := TrimRightMeans(s[..|s| - 1]);
      b := b + [s[|s| - 1]];
    }
  }

  /** Trimming removes blanks at both ends, all of them, and nothing else. */
  lemma TrimSpaceMeans(s: string) returns (a: string, b: string)
    ensures s == a + TrimSpace(s) + b && Blank(a) && Blank(b) && Tight(TrimSpace(s))
  {
    a := TrimLeftMeans(s);
    b := TrimRightMeans(TrimLeft(s));
    var t := TrimSpace(s);
    assert TrimLeft(s) == t + b;
    if t != "" { assert t[0] == TrimLeft(s)[0]; }
  }

  // ---------------------------------------------------------------- tokens

  /** Quote characters are read greedily in pairs; everything else stands for itself. */
  predicate Greedy(ts: seq<Token>) {
    forall k :: 0 <= k < |ts| ==>
      && (ts[k].Plain? <==> !IsQuote(ts[k].c))
      && (ts[k].Toggle? && k + 1 < |ts| ==> ts[k + 1].c != ts[k].c)
  }

  function Spelled(ts: seq<Token>): string {
    if ts == [] then "" else Spelling(ts[0]) + Spelled(ts[1..])
  }

  lemma GreedyCons(t: Token, rest: seq<Token>)
    ensures Greedy([t] + rest) <==>
            && Greedy(rest) && (t.Plain? <==> !IsQuote(t.c)) && (t.Toggle? && rest != [] ==> rest[0].c != t.c)
  {
    var ts := [t] + rest;
    assert ts[0] == t && forall k :: 0 <= k < |rest| ==> ts[k + 1] == rest[k];
    if Greedy(ts) {
      forall k | 0 <= k < |rest|
        ensures rest[k].Plain? <==> !IsQuote(rest[k].c)
        ensures rest[k].Toggle? && k + 1 < |rest| ==> rest[k + 1].c != rest[k].c
      {
        assert ts[k + 1] == rest[k];
        if k + 1 < |rest| { assert ts[k + 2] == rest[k + 1]; }
      }
    }
  }

  lemma TokensCons(s: string) returns (t: Token, n: nat)
    requires s != ""
    ensures n == |Spelling(t)| <= |s| && Tokens(s) == [t] + Tokens(s[n..]) && s[..n] == Spelling(t)
    ensures (t.Plain? <==> !IsQuote(t.c)) && (t.Toggle? && n < |s| ==> s[n] != t.c) && t.c == s[0]
  {
    t := if !IsQuote(s[0]) then Plain(s[0]) else if |s| > 1 && s[1] == s[0] then Doubled(s[0]) else Toggle(s[0]);
    n := if t.Doubled? then 2 else 1;
  }

  lemma {:induction false} TokensAreGreedy(s: string)
    ensures Greedy(Tokens(s)) && Spelled(Tokens(s)) == s
  {
    if s != "" {
      var t, n := TokensCons(s);
      var rest := Tokens(s[n..]);
      TokensAreGreedy(s[n..]);
      if rest != [] { var next, _ := TokensCons(s[n..]); }
      GreedyCons(t, rest);
      assert ([t] + rest)[1..] == rest;
      assert s == Spelling(t) + s[n..];
    }
  }

  /** There is one such reading of a text. */
  lemma {:induction false} OneReading(ts: seq<Token>)
    requires Greedy(ts)
    ensures Tokens(Spelled(ts)) == ts
  {
    if ts != [] {
      var s, rest := Spelled(ts), ts[1..];
      assert ts == [ts[0]] + rest;
      GreedyCons(ts[0], rest);
      OneReading(rest);
      assert s[|Spelling(ts[0])|..] == Spelled(rest);
      if |rest| > 0 { assert Spelled(rest)[0] == rest[0].c; }
    }
  }

  // ---------------------------------------------------------------- quotes and brackets, counted

  /** The single quote characters before position k. */
  function TogglesBefore(ts: seq<Token>, k: nat): set<nat>
    requires k <= |ts|
  {
    set j: nat | j < k && ts[j].Toggle?
  }

  predicate Outside(ts: seq<Token>, j: nat)
    requires j <= |ts|
  {
    |TogglesBefore(ts, j)| % 2 == 0
  }

  /** The places before position k where this character stands outside quotes. */
  function Places(ts: seq<Token>, c: char, k: nat): set<nat>
    requires k <= |ts|
  {
    set j: nat | j < k && ts[j] == Plain(c) && Outside(ts, j)
  }

  lemma {:induction false} QuotedCounts(ts: seq<Token>, k: nat)
    requires k <= |ts|
    ensures Toggles(ts[..k]) == |TogglesBefore(ts, k)|
    ensures Quoted(ts[..k]) <==> !Outside(ts, k)
  {
    if k > 0 {
      QuotedCounts(ts, k - 1);
      assert ts[..k][..k - 1] == ts[..k - 1];
      assert TogglesBefore(ts, k) == TogglesBefore(ts, k - 1) + if ts[k - 1].Toggle? then {k - 1} else {};
    }
  }

  lemma PlacesStep(ts: seq<Token>, c: char, k: nat)
    requires 0 < k <= |ts|
    ensures |Places(ts, c, k)| == |Places(ts, c, k - 1)| + if ts[k - 1] == Plain(c) && Outside(ts, k - 1) then 1 else 0
  {
    assert Places(ts, c, k) ==
           Places(ts, c, k - 1) + if ts[k - 1] == Plain(c) && Outside(ts, k - 1) then {k - 1} else {};
  }

  lemma {:induction false} DepthCounts(ts: seq<Token>, k: nat)
    requires k <= |ts|
    ensures DepthAt(ts, k) == |Places(ts, '(', k)| - |Places(ts, ')', k)|
  {
    if k > 0 {
      DepthCounts(ts, k - 1);
      QuotedCounts(ts, k - 1);
      PlacesStep(ts, '(', k);
      PlacesStep(ts, ')', k);
      assert ts[..k][..k - 1] == ts[..k - 1];
    }
  }

  /**
    A body is accepted exactly when, outside quotes, no prefix closes more brackets than it opens and
    the whole closes as many as it opens.
  */
  lemma AcceptedMeans(body: string)
    ensures var ts := Tokens(body);
            Parsed(body).Ok? <==>
            && (forall k :: 0 <= k <= |ts| ==> |Places(ts, ')', k)| <= |Places(ts, '(', k)|)
            && |Places(ts, ')', |ts|)| == |Places(ts, '(', |ts|)|
  {
    var ts := Tokens(body);
    forall k | 0 <= k <= |ts| ensures DepthAt(ts, k) == |Places(ts, '(', k)| - |Places(ts, ')', k)| {
      DepthCounts(ts, k);
    }
  }

  /** The body is cut at the commas outside quotes where as many brackets were closed as opened. */
  lemma CutMeans(ts: seq<Token>, k: nat)
    ensures k in Cuts(ts) <==>
            && k < |ts| && ts[k] == Plain(',') && Outside(ts, k)
            && |Places(ts, '(', k)| == |Places(ts, ')', k)|
  {
    CutsAreTheCuts(ts, k);
    if k < |ts| {
      QuotedCounts(ts, k);
      DepthCounts(ts, k);
    }
  }

  // ---------------------------------------------------------------- fields

  function CutText(ts: seq<Token>, i: nat): string
    requires i <= |Cuts(ts)| && Start(ts, i) <= Stop(ts, i) <= |ts|
  {
    Text(ts[Start(ts, i)..Stop(ts, i)])
  }

  lemma CutBounds(ts: seq<Token>, i: nat)
    requires i <= |Cuts(ts)|
    ensures Start(ts, i) <= Stop(ts, i) <= |ts|
  {
    StartBeforeStop(ts, i);
  }

  /**
    The fields of an accepted body are the texts between the cuts with the blanks at their ends
    removed; only a last text that is empty even before that is dropped.
  */
  lemma FieldsAreTrimmedCuts(body: string, i: nat) returns (a: string, b: string)
    ensures forall k :: 0 <= k <= |Cuts(Tokens(body))| ==> Start(Tokens(body), k) <= Stop(Tokens(body), k) <= |Tokens(body)|
    ensures Parsed(body).Ok? ==>
              var ts, fields := Tokens(body), Parsed(body).value;
              && |fields| == |Cuts(ts)| + (if CutText(ts, |Cuts(ts)|) == "" then 0 else 1)
              && (i < |fields| ==> CutText(ts, i) == a + fields[i] + b && Blank(a) && Blank(b) && Tight(fields[i]))
  {
    ParsedMeans(body);
    var ts := Tokens(body);
    a, b := "", "";
    if i < |Segments(ts)| { a, b := TrimSpaceMeans(Segments(ts)[i]); }
  }

  // ---------------------------------------------------------------- quoted text is inert

  predicate Unquotable(w: string) { forall i :: 0 <= i < |w| ==> !IsQuote(w[i]) }

  function Plains(w: string): (r: seq<Token>)
    ensures |r| == |w| && forall i :: 0 <= i < |w| ==> r[i] == Plain(w[i])
  {
    seq(|w|, i requires 0 <= i < |w| => Plain(w[i]))
  }

  lemma {:induction false} PlainTokens(w: string, rest: string)
    requires Unquotable(w)
    ensures Tokens(w + rest) == Plains(w) + Tokens(rest)
  {
    if w == "" {
      assert w + rest == rest;
    } else {
      assert (w + rest)[1..] == w[1..] + rest;
      PlainTokens(w[1..], rest);
      assert Plains(w) == [Plain(w[0])] + Plains(w[1..]);
    }
  }

  lemma QuotedTokens(q: char, w: string)
    requires q in "`|\"'\t" && w != "" && Unquotable(w)
    ensures Tokens([q] + w + [q]) == [Toggle(q)] + Plains(w) + [Toggle(q)]
  {
    var s := [q] + w + [q];
    assert IsQuote(q) && s[1] == w[0] && !IsQuote(w[0]);
    assert s[1..] == w + [q];
    PlainTokens(w, [q]);
    assert Tokens([q]) == [Toggle(q)] by { assert [q][1..] == ""; }
  }

  lemma {:induction false} InsideQuotes(ts: seq<Token>, w: string, q: char, k: nat)
    requires ts == [Toggle(q)] + Plains(w) + [Toggle(q)] && k <= |ts|
    ensures Toggles(ts[..k]) == if k == 0 then 0 else if k < |ts| then 1 else 2
    ensures Depth(ts[..k]) == 0
  {
    if k > 0 {
      InsideQuotes(ts, w, q, k - 1);
      assert ts[..k][..k - 1] == ts[..k - 1];
    }
  }

  lemma QuotedPiece(ts: seq<Token>, w: string, q: char)
    requires ts == [Toggle(q)] + Plains(w) + [Toggle(q)]
    ensures Balanced(ts) && forall k :: 0 <= k < |ts| ==> !IsCut(ts, k)
  {
    forall k | 0 <= k <= |ts| ensures DepthAt(ts, k) == 0 { InsideQuotes(ts, w, q, k); }
    forall k | 0 <= k < |ts| ensures !IsCut(ts, k) { InsideQuotes(ts, w, q, k); }
  }

  /** Between any of the five quote characters, commas and brackets mean nothing. */
  lemma QuotedIsInert(q: char, w: string)
    requires q in "`|\"'\t" && w != "" && Unquotable(w)
    ensures Parsed([q] + w + [q]) == Ok([TrimSpace([q] + w + [q])])
  {
    var body := [q] + w + [q];
    var ts := Tokens(body);
    QuotedTokens(q, w);
    assert OnePiece(body, true) by { QuotedPiece(ts, w, q); }
    WholeIsOnePiece(body);
  }

  lemma WholeIsOnePiece(body: string)
    requires body != "" && OnePiece(body, true)
    ensures Parsed(body) == Ok([TrimSpace(body)])
  {
    OnePieceSegments(body, true);
    assert Fields([body]) == [TrimSpace(body)];
  }

  // ---------------------------------------------------------------- heads, bodies and clauses

  /** A head is CREATE TABLE in any case, and a name of word characters with or without a quote on each side. */
  ghost predicate HeadShape(head: string, create: string, q1: string, name: string, q2: string) {
    && head == create + q1 + name + q2
    && CreateTable(create) && MaybeQuote(q1) && MaybeQuote(q2) && name != "" && WordChars(name)
  }

  predicate CreateTable(s: string) {
    |s| == 13 && forall i :: 0 <= i < 13 ==> s[i] == "CREATE TABLE "[i] || s[i] == "create table "[i]
  }

  predicate MaybeQuote(q: string) { q in ["", "`", "|", "\"", "'", "\t"] }

  predicate WordChars(name: string) {
    forall i :: 0 <= i < |name| ==>
      'a' <= name[i] <= 'z' || 'A' <= name[i] <= 'Z' || '0' <= name[i] <= '9' || name[i] in "_-"
  }

  lemma {:induction false} WordRunAll(name: string, rest: string)
    requires (forall i :: 0 <= i < |name| ==> IsWord(name[i])) && (rest == "" || !IsWord(rest[0]))
    ensures WordRun(name + rest) == |name|
  {
    if name == "" {
      assert name + rest == rest;
    } else {
      assert (name + rest)[1..] == name[1..] + rest;
      WordRunAll(name[1..], rest);
    }
  }

  lemma {:induction false} WordRunWords(s: string)
    ensures forall i :: 0 <= i < WordRun(s) ==> IsWord(s[i])
  {
    if s != "" && IsWord(s[0]) {
      WordRunWords(s[1..]);
      forall i | 0 <= i < WordRun(s) ensures IsWord(s[i]) { if i > 0 { assert s[i] == s[1..][i - 1]; } }
    }
  }

  lemma QuoteAhead(q: string, rest: string)
    requires MaybeQuote(q) && (rest == "" || !IsQuote(rest[0]) || q != "")
    ensures QuoteRun(q + rest) == |q|
  {
    if q == "" { assert q + rest == rest; } else { assert (q + rest)[0] == q[0]; }
  }

  lemma NameShaped(q1: string, name: string, q2: string)
    requires MaybeQuote(q1) && MaybeQuote(q2) && name != "" && WordChars(name)
    ensures NameLength(q1 + name + q2) == Some(|q1 + name + q2|)
  {
    var s := q1 + name + q2;
    assert s == q1 + (name + q2);
    QuoteAhead(q1, name + q2);
    assert s[|q1|..] == name + q2;
    WordRunAll(name, q2);
    assert s[|q1| + |name|..] == q2;
    assert q2 + "" == q2;
    QuoteAhead(q2, "");
  }

  lemma LetterInEitherCase(i: nat, c: char)
    requires i < 13
    ensures Upper(c) == CREATE[i] <==> c == "CREATE TABLE "[i] || c == "create table "[i]
  {
  }

  lemma HeadParts(create: string, s: string)
    requires |create| == 13
    ensures (create + s)[13..] == s && (create + s)[..13] == create
    ensures ValidHead(create + s) <==> CreateTable(create) && NameLength(s) == Some(|s|)
  {
    var head := create + s;
    assert head[13..] == s && forall i :: 0 <= i < 13 ==> head[i] == create[i];
    forall i | 0 <= i < 13
      ensures Upper(head[i]) == CREATE[i] <==> create[i] == "CREATE TABLE "[i] || create[i] == "create table "[i]
    {
      LetterInEitherCase(i, head[i]);
    }
    assert StartsCreate(head) <==> CreateTable(create);
  }

  lemma ShapedIsValid(head: string, create: string, q1: string, name: string, q2: string)
    requires HeadShape(head, create, q1, name, q2)
    ensures ValidHead(head)
  {
    assert head == create + (q1 + name + q2);
    NameShaped(q1, name, q2);
    HeadParts(create, q1 + name + q2);
  }

  lemma NameParts(s: string) returns (q1: string, name: string, q2: string)
    requires NameLength(s) == Some(|s|)
    ensures s == q1 + name + q2 && name != "" && WordChars(name) && MaybeQuote(q1) && MaybeQuote(q2)
  {
    var i := QuoteRun(s);
    var n := WordRun(s[i..]);
    WordRunWords(s[i..]);
    q1, name, q2 := s[..i], s[i..i + n], s[i + n..];
    assert forall k :: 0 <= k < n ==> name[k] == s[i..][k];
    assert QuoteRun(q2) == |q2|;
    if i == 1 { assert q1 == [s[0]]; }
    if |q2| == 1 { assert q2 == [q2[0]]; }
  }

  lemma ValidIsShaped(head: string) returns (create: string, q1: string, name: string, q2: string)
    requires ValidHead(head)
    ensures HeadShape(head, create, q1, name, q2)
  {
    create := head[..13];
    assert head == create + head[13..];
    HeadParts(create, head[13..]);
    q1, name, q2 := NameParts(head[13..]);
    assert create + (q1 + name + q2) == create + q1 + name + q2;
  }

  /** Exactly the texts of that shape are heads. */
  lemma HeadsMean(head: string)
    ensures ValidHead(head) <==> exists create, q1, name, q2 :: HeadShape(head, create, q1, name, q2)
  {
    if ValidHead(head) {
      var create, q1, name, q2 := ValidIsShaped(head);
    }
    if create, q1, name, q2 :| HeadShape(head, create, q1, name, q2) {
      ShapedIsValid(head, create, q1, name, q2);
    }
  }

  lemma {:induction false} BlankRunAll(blanks: string, rest: string)
    requires (forall i :: 0 <= i < |blanks| ==> IsBlank(blanks[i])) && rest != "" && !IsBlank(rest[0])
    ensures BlankRun(blanks + rest) == |blanks|
  {
    if blanks == "" {
      assert blanks + rest == rest;
    } else {
      assert (blanks + rest)[1..] == blanks[1..] + rest;
      BlankRunAll(blanks[1..], rest);
    }
  }

  lemma {:induction false} LastClosingAt(body: string, tail: string)
    requires ')' !in tail
    ensures LastClosing(body + ")" + tail) == Some(|body|)
  {
    var s := body + ")" + tail;
    if tail != "" {
      assert s[..|s| - 1] == body + ")" + tail[..|tail| - 1];
      assert s[|s| - 1] == tail[|tail| - 1];
      LastClosingAt(body, tail[..|tail| - 1]);
    }
  }

  /** After the head, the body reaches from the opening bracket to the last closing one. */
  lemma BodyMeans(blanks: string, body: string, tail: string)
    requires (forall i :: 0 <= i < |blanks| ==> blanks[i] in " \t\n\r\U{0C}") && ')' !in tail
    ensures BodyAfter(blanks + "(" + body + ")" + tail) == body
  {
    var s := blanks + "(" + body + ")" + tail;
    var rest := "(" + body + ")" + tail;
    assert s == blanks + rest;
    BlankRunAll(blanks, rest);
    assert s[|blanks| + 1..] == body + ")" + tail;
    LastClosingAt(body, tail);
  }

  ghost predicate ClauseShape(field: string, q: string, name: string, e: string, rest: string) {
    field == "CONSTRAINT " + q + name + e + rest && q in ["", "\"", "`"] && e in ["\"", "`", " "]
  }

  lemma FollowsShape(field: string, q: string, name: string)
    requires Follows(field, KEYWORD + q + name) && q in ["", "\"", "`"]
    ensures exists e, rest :: ClauseShape(field, q, name, e, rest)
  {
    var x := KEYWORD + q + name;
    var e, rest := [field[|x|]], field[|x| + 1..];
    assert field == x + e + rest;
    assert ClauseShape(field, q, name, e, rest);
  }

  lemma ShapeFollows(field: string, q: string, name: string, e: string, rest: string)
    requires ClauseShape(field, q, name, e, rest)
    ensures Follows(field, KEYWORD + q + name)
  {
    var x := KEYWORD + q + name;
    assert field == x + (e + rest);
    assert field[..|x|] == x && field[|x|] == e[0];
  }

  /** A clause carries a name exactly when it is CONSTRAINT, the name bare or opened by a quote, and a quote or a space. */
  lemma ClausesMean(field: string, name: string)
    ensures Names(field, name) <==> exists q, e, rest :: ClauseShape(field, q, name, e, rest)
  {
    assert KEYWORD + "" == KEYWORD;
    if Names(field, name) {
      FollowsShape(field,
        if Follows(field, KEYWORD + name) then "" else if Follows(field, KEYWORD + "\"" + name) then "\"" else "`", name);
    }
    if q, e, rest :| ClauseShape(field, q, name, e, rest) { ShapeFollows(field, q, name, e, rest); }
  }

  // ---------------------------------------------------------------- printing, and text before the head

  /** A definition prints as its head, and its fields in brackets with commas between them. */
  lemma PrintedMeans(head: string, fields: seq<string>, field: string) returns (body: string)
    ensures Compile(Statement(head, [])) == head
    ensures Compile(Statement(head, [field])) == head + " (" + field + ")"
    ensures fields != [] ==>
              && Compile(Statement(head, fields)) == head + " (" + body + ")"
              && Compile(Statement(head, fields + [field])) == head + " (" + body + "," + field + ")"
  {
    body := Join(fields);
    if fields != [] {
      JoinSnoc(fields, field);
      assert head + " (" + (body + "," + field) + ")" == head + " (" + body + "," + field + ")";
    }
  }

  /** Text before the first head is skipped; without a head anywhere the statement is refused. */
  lemma {:induction false} FirstHeadCounts(before: string, s: string)
    requires forall i :: 0 <= i < |before| ==> HeadLength((before + s)[i..]).None?
    ensures ParseTable(before + s) == ParseTable(s)
    ensures s == "" && HeadLength("").None? ==> ParseTable(before + s) == Err(InvalidDdl)
  {
    if before == "" {
      assert before + s == s;
    } else {
      assert (before + s)[0..] == before + s;
      assert (before + s)[1..] == before[1..] + s;
      forall i | 0 <= i < |before[1..]| ensures HeadLength((before[1..] + s)[i..]).None? {
        assert (before[1..] + s)[i..] == (before + s)[i + 1..];
      }
      FirstHeadCounts(before[1..], s);
    }
  }

  /** An edit concerns the first clause of that name and no other field. */
  lemma EditsMean(fields: seq<string>, name: string, sql: string, i: nat)
    requires i <= |fields|
    ensures var free := forall j :: 0 <= j < |fields| ==> !Names(fields[j], name);
            && (free ==> Added(fields, name, sql) == fields + [sql] && Removed(fields, name) == fields)
            && (!free ==> |Added(fields, name, sql)| == |fields| && |Removed(fields, name)| == |fields| - 1)
    ensures i < |fields| && Names(fields[i], name) && (forall j :: 0 <= j < i ==> !Names(fields[j], name)) ==>
              && Added(fields, name, sql) == fields[..i] + [sql] + fields[i + 1..]
              && Removed(fields, name) == fields[..i] + fields[i + 1..]
  {
    var first := First(fields, name);
    if i < |fields| && Names(fields[i], name) && (forall j :: 0 <= j < i ==> !Names(fields[j], name)) {
      assert first == i;
      assert fields[i := sql] == fields[..i] + [sql] + fields[i + 1..];
    }
  }
}
