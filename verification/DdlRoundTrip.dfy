/** Printing a table definition and parsing it again. */
module DdlRoundTrip {
  import opened Results
  import opened DdlScanner
  import opened DdlSegments
  import Seqs

  // ---------------------------------------------------------------- the head of the statement

  predicate IsWord(c: char) { 'a' <= c <= 'z' || 'A' <= c <= 'Z' || '0' <= c <= '9' || c == '_' || c == '-' }

  predicate IsBlank(c: char) { c == ' ' || c == '\t' || c == '\n' || c == '\r' || c == '\U{0C}' }

  function Upper(c: char): char { if 'a' <= c <= 'z' then (c as int - 32) as char else c }

  const CREATE := "CREATE TABLE "

  predicate StartsCreate(s: string) {
    |s| >= |CREATE| && forall i :: 0 <= i < |CREATE| ==> Upper(s[i]) == CREATE[i]
  }

  function WordRun(s: string): (n: nat)
    ensures n <= |s|
  {
    if s != "" && IsWord(s[0]) then 1 + WordRun(s[1..]) else 0
  }

  function BlankRun(s: string): (n: nat)
    ensures n <= |s|
  {
    if s != "" && IsBlank(s[0]) then 1 + BlankRun(s[1..]) else 0
  }

  function QuoteRun(s: string): (n: nat)
    ensures n <= |s|
  {
    if s != "" && IsQuote(s[0]) then 1 else 0
  }

  function LastClosing(s: string): (r: Option<nat>)
    ensures r.Some? ==> r.value < |s| && s[r.value] == ')'
  {
    if s == "" then None
    else if s[|s| - 1] == ')' then Some(|s| - 1)
    else LastClosing(s[..|s| - 1])
  }

  /** The quoted or bare name after CREATE TABLE: its length, or None. */
  function NameLength(s: string): (r: Option<nat>)
    ensures r.Some? ==> r.value <= |s|
  {
    var i := QuoteRun(s);
    var n := WordRun(s[i..]);
    if n == 0 then None else Some(i + n + QuoteRun(s[i + n..]))
  }

  /** `tableRegexp` tried at the beginning of `s`: the length of group 1, or None. */
  function HeadLength(s: string): (r: Option<nat>)
    ensures r.Some? ==> r.value <= |s|
  {
    if StartsCreate(s) && NameLength(s[|CREATE|..]).Some?
    then Some(|CREATE| + NameLength(s[|CREATE|..]).value)
    else None
  }

  /** Group 2: everything between the first bracket, if it comes next, and the last closing one. */
  function BodyAfter(s: string): string {
    var b := BlankRun(s);
    if b < |s| && s[b] == '(' && LastClosing(s[b + 1..]).Some?
    then s[b + 1..][..LastClosing(s[b + 1..]).value]
    else ""
  }

  datatype Statement = Statement(head: string, fields: seq<string>)

  /** The leftmost match of `tableRegexp`, then the scanner on its body. */
  ghost function ParseTable(s: string): Result<Statement, DdlError> {
    if HeadLength(s).Some? then
      var n := HeadLength(s).value;
      match Parsed(BodyAfter(s[n..]))
      case Ok(fields) => Ok(Statement(s[..n], fields))
      case Err(e) => Err(e)
    else if s == "" then Err(InvalidDdl)
    else ParseTable(s[1..])
  }

  /** ddl.compile */
  function Compile(d: Statement): string {
    if d.fields == [] then d.head else d.head + " (" + Join(d.fields) + ")"
  }

  predicate ValidHead(head: string) { HeadLength(head) == Some(|head|) }

  lemma {:induction false} WordRunStops(s: string, rest: string)
    requires rest == "" || !IsWord(rest[0])
    ensures WordRun(s + rest) == WordRun(s)
  {
    if s != "" {
      Seqs.DropConcat(s, rest, 1);
      WordRunStops(s[1..], rest);
    } else {
      assert s + rest == rest;
    }
  }

  lemma StartsCreateStays(head: string, rest: string)
    requires StartsCreate(head)
    ensures StartsCreate(head + rest)
  {
    forall i | 0 <= i < |CREATE| ensures Upper((head + rest)[i]) == CREATE[i] {
      assert (head + rest)[i] == head[i];
    }
  }

  lemma QuoteRunStops(s: string, rest: string)
    requires rest == "" || !IsQuote(rest[0])
    ensures QuoteRun(s + rest) == QuoteRun(s)
  {
    if s == "" { assert s + rest == rest; }
  }

  lemma NameStops(name: string, rest: string)
    requires NameLength(name) == Some(|name|) && (rest == "" || rest[0] == ' ')
    ensures NameLength(name + rest) == Some(|name|)
  {
    var i := QuoteRun(name);
    QuoteRunStops(name, rest);
    Seqs.DropConcat(name, rest, i);
    WordRunStops(name[i..], rest);
    var n := WordRun(name[i..]);
    Seqs.DropConcat(name, rest, i + n);
    QuoteRunStops(name[i + n..], rest);
  }

  lemma HeadStops(head: string, rest: string)
    requires ValidHead(head) && (rest == "" || rest[0] == ' ')
    ensures HeadLength(head + rest) == Some(|head|)
  {
    StartsCreateStays(head, rest);
    NameStops(head[|CREATE|..], rest);
    assert (head + rest)[|CREATE|..] == head[|CREATE|..] + rest;
  }

  lemma BodyBack(body: string)
    ensures BodyAfter(" (" + body + ")") == body
  {
    var rest := " (" + body + ")";
    assert rest[1..] == "(" + body + ")" && rest[2..] == body + ")";
    assert BlankRun(rest) == 1;
    assert LastClosing(body + ")") == Some(|body|);
    assert (body + ")")[..|body|] == body;
  }

  lemma CompiledSplits(head: string, fields: seq<string>)
    requires ValidHead(head)
    ensures var s := Compile(Statement(head, fields));
            HeadLength(s) == Some(|head|) && s[..|head|] == head && BodyAfter(s[|head|..]) == Join(fields)
  {
    var rest := if fields == [] then "" else " (" + Join(fields) + ")";
    HeadStops(head, rest);
    if fields != [] { BodyBack(Join(fields)); }
    CompileShape(head, fields);
    Seqs.DropConcat(head, rest, |head|);
  }

  lemma CompileShape(head: string, fields: seq<string>)
    ensures Compile(Statement(head, fields)) == head + if fields == [] then "" else " (" + Join(fields) + ")"
  {
  }

  // ---------------------------------------------------------------- fields side by side

  /** A comma ends a token, so it splits the tokens where it splits the text. */
  lemma {:induction false} TokensAtComma(a: string, b: string)
    ensures Tokens(a + "," + b) == Tokens(a) + [Plain(',')] + Tokens(b)
  {
    var s := a + "," + b;
    if a == "" {
      assert s[1..] == b;
    } else if !IsQuote(a[0]) {
      assert s[1..] == a[1..] + "," + b;
      TokensAtComma(a[1..], b);
    } else if |a| > 1 && a[1] == a[0] {
      assert s[2..] == a[2..] + "," + b;
      TokensAtComma(a[2..], b);
    } else {
      assert s[1..] == a[1..] + "," + b;
      TokensAtComma(a[1..], b);
    }
  }

  // After a separating comma the scan starts afresh.

  lemma {:induction false} FreshQuote(p: seq<Token>, b: seq<Token>)
    ensures Toggles(p + b) == Toggles(p) + Toggles(b)
    ensures Quoted(p + b) == (Quoted(p) != Quoted(b))
  {
    if b == [] {
      assert p + b == p;
    } else {
      Seqs.InitConcat(p, b);
      FreshQuote(p, b[..|b| - 1]);
    }
  }

  lemma {:induction false} FreshDepth(p: seq<Token>, b: seq<Token>)
    requires !Quoted(p) && Depth(p) == 0
    ensures Depth(p + b) == Depth(b)
    ensures NeverBelow(p + b) <==> NeverBelow(p) && NeverBelow(b)
  {
    if b == [] {
      assert p + b == p;
    } else {
      Seqs.InitConcat(p, b);
      FreshDepth(p, b[..|b| - 1]);
      FreshQuote(p, b[..|b| - 1]);
    }
  }

  lemma {:induction false} FreshSegments(p: seq<Token>, b: seq<Token>, closed: seq<string>)
    requires !Quoted(p) && Depth(p) == 0 && Segments(p) == closed + [""]
    ensures Segments(p + b) == closed + Segments(b)
  {
    if b == [] {
      assert p + b == p;
    } else {
      var init, t := b[..|b| - 1], b[|b| - 1];
      FreshSegments(p, init, closed);
      FreshStep(p, init, t, closed);
      Seqs.Snoc(b);
    }
  }

  lemma FreshStep(p: seq<Token>, init: seq<Token>, t: Token, closed: seq<string>)
    requires !Quoted(p) && Depth(p) == 0 && Segments(p + init) == closed + Segments(init)
    ensures Segments(p + (init + [t])) == closed + Segments(init + [t])
  {
    FreshDepth(p, init);
    FreshQuote(p, init);
    var segs := Segments(init);
    Seqs.Snoc(segs);
    FreshLast(p, init, t, closed, segs[..|segs| - 1], segs[|segs| - 1]);
    Seqs.Assoc(p, init, [t]);
  }

  lemma FreshLast(p: seq<Token>, init: seq<Token>, t: Token, closed: seq<string>, done: seq<string>, buf: string)
    requires Segments(init) == done + [buf] && Segments(p + init) == closed + Segments(init)
    requires Quoted(p + init) == Quoted(init) && Depth(p + init) == Depth(init)
    ensures Segments(p + init + [t]) == closed + Segments(init + [t])
  {
    Seqs.Assoc(closed, done, [buf]);
    Snoc(init, t, done, buf);
    Snoc(p + init, t, closed + done, buf);
    Seqs.Assoc(closed, done, [buf + Spelling(t)]);
    Seqs.Assoc(closed, done + [buf], [""]);
  }

  lemma AfterField(a: seq<Token>, b: seq<Token>)
    requires !Quoted(a) && Depth(a) == 0
    ensures Toggles(a + [Plain(',')] + b) == Toggles(a) + Toggles(b)
    ensures Depth(a + [Plain(',')] + b) == Depth(b)
    ensures NeverBelow(a + [Plain(',')] + b) <==> NeverBelow(a) && NeverBelow(b)
    ensures Segments(a + [Plain(',')] + b) == Segments(a) + Segments(b)
  {
    var p := a + [Plain(',')];
    AtComma(a);
    FreshQuote(p, b);
    FreshDepth(p, b);
    FreshSegments(p, b, Segments(a));
  }

  lemma AtComma(a: seq<Token>)
    requires !Quoted(a) && Depth(a) == 0
    ensures var p := a + [Plain(',')];
            && Toggles(p) == Toggles(a) && Depth(p) == 0 && Segments(p) == Segments(a) + [""]
            && (NeverBelow(p) <==> NeverBelow(a))
  {
    var segs := Segments(a);
    Seqs.Snoc(segs);
    Snoc(a, Plain(','), segs[..|segs| - 1], segs[|segs| - 1]);
    FreshQuote(a, [Plain(',')]);
    assert [Plain(',')][..0] == [];
  }

  /** A field the scanner takes in one piece: no separating comma of its own, nothing left open. */
  ghost predicate OnePiece(f: string, last: bool) {
    var ts := Tokens(f);
    && Balanced(ts)
    && (forall k :: 0 <= k < |ts| ==> !IsCut(ts, k))
    && (last || !Quoted(ts))
  }

  ghost predicate Printable(fields: seq<string>) {
    && (forall i :: 0 <= i < |fields| ==> TrimSpace(fields[i]) == fields[i] && OnePiece(fields[i], i == |fields| - 1))
    && (fields != [] ==> fields[|fields| - 1] != "")
  }

  lemma OnePieceSegments(f: string, last: bool)
    ensures OnePiece(f, last) <==>
            NeverBelow(Tokens(f)) && Depth(Tokens(f)) == 0 && Segments(Tokens(f)) == [f] && (last || !Quoted(Tokens(f)))
  {
    var ts := Tokens(f);
    NeverBelowAt(ts);
    assert ts[..|ts|] == ts;
    SegmentCount(ts);
    SegmentsRejoin(ts);
    TokensKeepText(f);
    if Cuts(ts) == [] {
      forall k: nat | k < |ts| ensures !IsCut(ts, k) { CutsAreTheCuts(ts, k); }
      assert Segments(ts) == [Join(Segments(ts))];
    } else {
      CutsInOrder(ts, 0);
      CutsAreTheCuts(ts, Cuts(ts)[0]);
    }
  }

  ghost predicate Pieces(fields: seq<string>) {
    forall i :: 0 <= i < |fields| ==> OnePiece(fields[i], i == |fields| - 1)
  }

  ghost predicate SplitsInto(body: string, segments: seq<string>) {
    var ts := Tokens(body);
    NeverBelow(ts) && Depth(ts) == 0 && Segments(ts) == segments
  }

  /** Fields in one piece, joined, split back into themselves. */
  lemma {:induction false} PiecesSplit(fields: seq<string>)
    requires fields != [] && Pieces(fields)
    ensures SplitsInto(Join(fields), fields)
  {
    OnePieceSegments(fields[0], |fields| == 1);
    if |fields| > 1 {
      var rest := fields[1..];
      assert Pieces(rest) by {
        forall i | 0 <= i < |rest| ensures OnePiece(rest[i], i == |rest| - 1) {
          assert rest[i] == fields[i + 1];
        }
      }
      PiecesSplit(rest);
      TokensAtComma(fields[0], Join(rest));
      AfterField(Tokens(fields[0]), Tokens(Join(rest)));
      assert fields == [fields[0]] + rest;
    }
  }

  lemma {:induction false} TextGrows(ts: seq<Token>, i: nat, j: nat)
    requires i < j <= |ts|
    ensures |Text(ts[..i])| < |Text(ts[..j])|
  {
    assert ts[..j][..j - 1] == ts[..j - 1];
    if i < j - 1 { TextGrows(ts, i, j - 1); }
  }

  /** If the first segment is all of `f`, the comma after `f` separates. */
  lemma FirstCut(f: string, b: seq<Token>)
    requires var ts := Tokens(f) + [Plain(',')] + b;
             |Segments(ts)| > 1 && Segments(ts)[0] == f
    ensures !Quoted(Tokens(f)) && Depth(Tokens(f)) == 0
  {
    var a := Tokens(f);
    var ts := a + [Plain(',')] + b;
    SegmentCount(ts);
    StartBeforeStop(ts, 0);
    SegmentAt(ts, 0);
    var p := Cuts(ts)[0];
    CutsInOrder(ts, 0);
    CutsAreTheCuts(ts, p);
    TokensKeepText(f);
    assert ts[0..p] == ts[..p] && ts[..|a|] == a;
    if p < |a| { TextGrows(ts, p, |a|); }
    if |a| < p { TextGrows(ts, |a|, p); }
  }

  lemma JoinLonger(ss: seq<string>)
    requires |ss| > 1
    ensures |Join(ss)| > |ss[0]|
  {
  }

  lemma OnlySegment(f: string)
    requires Segments(Tokens(f))[0] == f
    ensures Segments(Tokens(f)) == [f]
  {
    SegmentsRejoin(Tokens(f));
    TokensKeepText(f);
    if |Segments(Tokens(f))| > 1 { JoinLonger(Segments(Tokens(f))); }
  }

  /** Conversely, a list that splits back into itself consists of fields in one piece. */
  lemma {:induction false} SplitPieces(fields: seq<string>)
    requires fields != [] && SplitsInto(Join(fields), fields)
    ensures Pieces(fields)
  {
    var f := fields[0];
    if |fields| > 1 {
      var rest := fields[1..];
      TokensAtComma(f, Join(rest));
      FirstCut(f, Tokens(Join(rest)));
      AfterField(Tokens(f), Tokens(Join(rest)));
      var a, b := Segments(Tokens(f)), Segments(Tokens(Join(rest)));
      assert (a + b)[0] == a[0];
      OnlySegment(f);
      assert b == (a + b)[1..] == rest;
      SplitPieces(rest);
      OnePieceSegments(f, false);
      forall i | 0 <= i < |fields| ensures OnePiece(fields[i], i == |fields| - 1) {
        if i > 0 { assert fields[i] == rest[i - 1]; }
      }
    } else {
      OnePieceSegments(f, true);
    }
  }

  // ---------------------------------------------------------------- trimming can only shorten

  function Total(ss: seq<string>): nat {
    if ss == [] then 0 else |ss[0]| + Total(ss[1..])
  }

  lemma {:induction false} JoinLength(ss: seq<string>)
    requires ss != []
    ensures |Join(ss)| == Total(ss) + |ss| - 1
  {
    if |ss| > 1 { JoinLength(ss[1..]); }
  }

  lemma {:induction false} TrimLeftShortens(s: string)
    ensures |TrimLeft(s)| <= |s| && (|TrimLeft(s)| == |s| ==> TrimLeft(s) == s)
  {
    if s != "" { TrimLeftShortens(s[1..]); }
  }

  lemma {:induction false} TrimRightShortens(s: string)
    ensures |TrimRight(s)| <= |s| && (|TrimRight(s)| == |s| ==> TrimRight(s) == s)
  {
    if s != "" { TrimRightShortens(s[..|s| - 1]); }
  }

  lemma {:induction false} TrimAllShortens(ss: seq<string>)
    ensures Total(TrimAll(ss)) <= Total(ss) && (Total(TrimAll(ss)) == Total(ss) ==> TrimAll(ss) == ss)
  {
    if ss != [] {
      TrimLeftShortens(ss[0]);
      TrimRightShortens(TrimLeft(ss[0]));
      TrimAllShortens(ss[1..]);
      assert TrimAll(ss)[1..] == TrimAll(ss[1..]);
      assert ss == [ss[0]] + ss[1..] && TrimAll(ss) == [TrimSpace(ss[0])] + TrimAll(ss[1..]);
    }
  }

  lemma {:induction false} TotalSnoc(ss: seq<string>)
    requires ss != []
    ensures Total(ss) == Total(ss[..|ss| - 1]) + |ss[|ss| - 1]|
  {
    if |ss| > 1 {
      TotalSnoc(ss[1..]);
      assert ss[1..][..|ss| - 2] == ss[..|ss| - 1][1..];
    }
  }

  /** If the parsed fields are the printed ones, trimming and dropping changed nothing. */
  lemma NothingLost(fields: seq<string>, segments: seq<string>)
    requires fields != [] && segments != [] && Join(segments) == Join(fields) && Fields(segments) == fields
    ensures segments == fields && fields[|fields| - 1] != ""
  {
    JoinLength(fields);
    JoinLength(segments);
    var kept := if segments[|segments| - 1] == "" then segments[..|segments| - 1] else segments;
    TotalSnoc(segments);
    TrimAllShortens(kept);
  }

  lemma PrintableStays(fields: seq<string>)
    requires fields != [] && fields[|fields| - 1] != ""
    requires forall i :: 0 <= i < |fields| ==> TrimSpace(fields[i]) == fields[i]
    ensures Fields(fields) == fields
  {
  }

  // ---------------------------------------------------------------- the round trip

  lemma ParsedJoin(fields: seq<string>)
    requires fields != []
    ensures Parsed(Join(fields)) == Ok(fields) <==> Printable(fields)
  {
    var body := Join(fields);
    var ts := Tokens(body);
    NeverBelowAt(ts);
    assert ts[..|ts|] == ts;
    if Printable(fields) {
      PiecesSplit(fields);
      PrintableStays(fields);
    }
    if Parsed(body) == Ok(fields) {
      SegmentsRejoin(ts);
      TokensKeepText(body);
      NothingLost(fields, Segments(ts));
      SplitPieces(fields);
      forall i | 0 <= i < |fields| ensures TrimSpace(fields[i]) == fields[i] {
        assert TrimAll(fields)[i] == TrimSpace(fields[i]);
      }
    }
  }

  lemma NothingParsed()
    ensures Parsed(Join([])) == Ok([])
  {
    NeverBelowAt([]);
  }

  /**
    Print, then parse: the same definition comes back exactly when every field is trimmed and is
    one piece for the scanner, and the last one is not empty.
  */
  lemma RoundTrip(head: string, fields: seq<string>)
    requires ValidHead(head)
    ensures ParseTable(Compile(Statement(head, fields))) == Ok(Statement(head, fields)) <==> Printable(fields)
  {
    CompiledSplits(head, fields);
    if fields != [] {
      ParsedJoin(fields);
    } else {
      NothingParsed();
    }
  }
}
