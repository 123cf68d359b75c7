/** The scanner's segments, told without the scanner: the text between the separating commas. */
module DdlSegments {
  import opened DdlScanner

  /** strings.Join(ss, ",") */
  function Join(ss: seq<string>): string {
    if ss == [] then "" else if |ss| == 1 then ss[0] else ss[0] + "," + Join(ss[1..])
  }

  lemma {:induction false} JoinSnoc(ss: seq<string>, x: string)
    requires ss != []
    ensures Join(ss + [x]) == Join(ss) + "," + x
  {
    if |ss| > 1 {
      JoinSnoc(ss[1..], x);
      assert (ss + [x])[1..] == ss[1..] + [x];
      assert ss[0] + "," + (Join(ss[1..]) + "," + x) == ss[0] + "," + Join(ss[1..]) + "," + x;
    } else {
      assert (ss + [x])[1..] == [x];
    }
  }

  lemma {:induction false} JoinGrow(ss: seq<string>, x: string, y: string)
    ensures Join(ss + [x + y]) == Join(ss + [x]) + y
  {
    if ss != [] {
      JoinSnoc(ss, x + y);
      JoinSnoc(ss, x);
    }
  }

  lemma {:induction false} TextAppend(a: seq<Token>, b: seq<Token>)
    ensures Text(a + b) == Text(a) + Text(b)
  {
    if b == [] {
      assert a + b == a;
    } else {
      TextAppend(a, b[..|b| - 1]);
      assert (a + b)[..|a + b| - 1] == a + b[..|b| - 1];
    }
  }

  lemma TextCons(t: Token, ts: seq<Token>)
    ensures Text([t] + ts) == Spelling(t) + Text(ts)
  {
    TextAppend([t], ts);
    assert Text([t]) == Text([]) + Spelling(t);
  }

  /** Tokens lose nothing of the body. */
  lemma {:induction false} TokensKeepText(s: string)
    ensures Text(Tokens(s)) == s
  {
    if s == "" {
    } else if !IsQuote(s[0]) {
      TokensKeepText(s[1..]);
      TextCons(Plain(s[0]), Tokens(s[1..]));
    } else if |s| > 1 && s[1] == s[0] {
      TokensKeepText(s[2..]);
      TextCons(Doubled(s[0]), Tokens(s[2..]));
    } else {
      TokensKeepText(s[1..]);
      TextCons(Toggle(s[0]), Tokens(s[1..]));
    }
  }

  /** Rejoined with commas, the untrimmed segments give the text back. */
  lemma {:induction false} SegmentsRejoin(ts: seq<Token>)
    ensures Join(Segments(ts)) == Text(ts)
  {
    if ts != [] {
      var init, t := ts[..|ts| - 1], ts[|ts| - 1];
      SegmentsRejoin(init);
      var closed, buf := Segments(init)[..|Segments(init)| - 1], Segments(init)[|Segments(init)| - 1];
      assert Segments(init) == closed + [buf] && init + [t] == ts;
      if IsCut(ts, |init|) {
        JoinSnoc(closed + [buf], "");
      } else {
        JoinGrow(closed, buf, Spelling(t));
      }
    }
  }

  /** The positions of the separating commas. */
  function Cuts(ts: seq<Token>): seq<nat> {
    if ts == [] then []
    else Cuts(ts[..|ts| - 1]) + if IsCut(ts, |ts| - 1) then [|ts| - 1] else []
  }

  lemma {:induction false} CutsAreTheCuts(ts: seq<Token>, k: nat)
    ensures k in Cuts(ts) <==> k < |ts| && IsCut(ts, k)
  {
    if ts != [] {
      var init := ts[..|ts| - 1];
      CutsAreTheCuts(init, k);
      if k < |init| { assert init[..k] == ts[..k]; }
    }
  }

  lemma {:induction false} CutsInOrder(ts: seq<Token>, i: nat)
    requires i < |Cuts(ts)|
    ensures Cuts(ts)[i] < |ts| && (i > 0 ==> Cuts(ts)[i - 1] < Cuts(ts)[i])
  {
    var init := ts[..|ts| - 1];
    if i < |Cuts(init)| { CutsInOrder(init, i); }
    else if i > 0 { CutsInOrder(init, i - 1); }
  }

  /** Segment `i` starts after the cut before it and ends before the next one. */
  function Start(ts: seq<Token>, i: nat): nat
    requires i <= |Cuts(ts)|
  {
    if i == 0 then 0 else Cuts(ts)[i - 1] + 1
  }

  function Stop(ts: seq<Token>, i: nat): nat
    requires i <= |Cuts(ts)|
  {
    if i < |Cuts(ts)| then Cuts(ts)[i] else |ts|
  }

  lemma {:induction false} SegmentCount(ts: seq<Token>)
    ensures |Segments(ts)| == |Cuts(ts)| + 1
  {
    if ts != [] { SegmentCount(ts[..|ts| - 1]); }
  }

  lemma Slices(ts: seq<Token>, a: nat, b: nat)
    requires ts != [] && a <= b < |ts|
    ensures ts[..|ts| - 1][a..b] == ts[a..b]
    ensures ts[a..|ts|] == ts[a..] == ts[a..|ts| - 1] + [ts[|ts| - 1]]
    ensures Text(ts[a..]) == Text(ts[a..|ts| - 1]) + Spelling(ts[|ts| - 1])
  {
    assert ts[a..][..|ts[a..]| - 1] == ts[a..|ts| - 1];
  }

  /** How the last token extends the cuts and the segments. */
  lemma LastToken(ts: seq<Token>, i: nat)
    requires ts != [] && i <= |Cuts(ts)|
    ensures var init := ts[..|ts| - 1];
            |Segments(init)| == |Cuts(init)| + 1 && |Segments(ts)| == |Cuts(ts)| + 1
            && if i > |Cuts(init)| then Segments(ts)[i] == "" && Start(ts, i) == Stop(ts, i) == |ts|
               else if i < |Cuts(ts)| then
                 Segments(ts)[i] == Segments(init)[i] && Start(ts, i) == Start(init, i) && Stop(ts, i) == Stop(init, i)
               else
                 Segments(ts)[i] == Segments(init)[i] + Spelling(ts[|ts| - 1])
                 && Start(ts, i) == Start(init, i) && Stop(ts, i) == |ts| && Stop(init, i) == |init|
  {
    SegmentCount(ts);
    SegmentCount(ts[..|ts| - 1]);
  }

  lemma StartBeforeStop(ts: seq<Token>, i: nat)
    requires i <= |Cuts(ts)|
    ensures Start(ts, i) <= Stop(ts, i) <= |ts|
  {
    if i < |Cuts(ts)| { CutsInOrder(ts, i); }
    else if i > 0 { CutsInOrder(ts, i - 1); }
  }

  lemma {:induction false} SegmentAt(ts: seq<Token>, i: nat)
    requires i <= |Cuts(ts)| && i < |Segments(ts)| && Start(ts, i) <= Stop(ts, i) <= |ts|
    ensures Segments(ts)[i] == Text(ts[Start(ts, i)..Stop(ts, i)])
  {
    if ts != [] {
      var init := ts[..|ts| - 1];
      LastToken(ts, i);
      if i <= |Cuts(init)| {
        StartBeforeStop(init, i);
        SegmentAt(init, i);
        Slices(ts, Start(init, i), Stop(init, i));
      }
    }
  }

  /**
    What ScanBody's result means. It accepts exactly the balanced bodies; the untrimmed segments
    rejoin to the body and are the texts between the separating commas; the fields are those
    segments trimmed, except that an empty last segment is dropped.
  */
  lemma ParsedMeans(body: string)
    ensures Parsed(body).Ok? <==> Balanced(Tokens(body))
    ensures Join(Segments(Tokens(body))) == body
    ensures |Segments(Tokens(body))| == |Cuts(Tokens(body))| + 1
    ensures forall i :: 0 <= i <= |Cuts(Tokens(body))| ==>
              var ts := Tokens(body);
              Start(ts, i) <= Stop(ts, i) <= |ts| && Segments(ts)[i] == Text(ts[Start(ts, i)..Stop(ts, i)])
  {
    TokensKeepText(body);
    SegmentsRejoin(Tokens(body));
    SegmentCount(Tokens(body));
    forall i | 0 <= i <= |Cuts(Tokens(body))|
      ensures var ts := Tokens(body);
              Start(ts, i) <= Stop(ts, i) <= |ts| && Segments(ts)[i] == Text(ts[Start(ts, i)..Stop(ts, i)])
    {
      StartBeforeStop(Tokens(body), i);
      SegmentAt(Tokens(body), i);
    }
  }
}
