/** Chained pages deliver a conversation completely, in order and without repeats. */
module PagingProofs {
  import opened Results
  import opened Schema
  import opened Paging
  import Interactions

  /** A conversation's rows after the cursor, in order. */
  function Ordering(table: seq<Interaction>, pk: string, asc: bool, cursor: Option<Interaction>): seq<Interaction> {
    OrderBy(asc, Select(table, pk, asc, cursor))
  }

  lemma OrderingSorts(table: seq<Interaction>, pk: string, asc: bool, cursor: Option<Interaction>)
    requires DistinctCids(table)
    ensures Sorted(asc, Ordering(table, pk, asc, cursor))
    ensures forall row :: row in Ordering(table, pk, asc, cursor) <==> row in table && Wanted(row, pk, asc, cursor)
  {
    SelectDistinct(table, pk, asc, cursor);
    OrderBySorts(asc, Select(table, pk, asc, cursor));
  }

  /** Moving the cursor to row `k` leaves exactly the rows after it. */
  lemma CursorSplits(table: seq<Interaction>, pk: string, asc: bool, cursor: Option<Interaction>, k: nat)
    requires DistinctCids(table) && k < |Ordering(table, pk, asc, cursor)|
    ensures Ordering(table, pk, asc, Some(Ordering(table, pk, asc, cursor)[k])) == Ordering(table, pk, asc, cursor)[k + 1..]
  {
    var all := Ordering(table, pk, asc, cursor);
    var next := Ordering(table, pk, asc, Some(all[k]));
    OrderingSorts(table, pk, asc, cursor);
    OrderingSorts(table, pk, asc, Some(all[k]));
    forall row ensures row in next <==> row in all[k + 1..] {
      assert all[k] in all;
      if row in next {
        if cursor.Some? { BeforeTransitive(asc, cursor.value, all[k], row); }
        var i :| 0 <= i < |all| && all[i] == row;
        BeforeTotal(asc, all[k], row);
        assert i > k;
      }
      if row in all[k + 1..] { assert row in all; }
    }
    SortedUnique(asc, next, all[k + 1..]);
  }

  // ---------------------------------------------------------------- which rows a page holds

  /** The rows that come before `row` on the way from the cursor. */
  ghost function Preceding(table: seq<Interaction>, pk: string, asc: bool, cursor: Option<Interaction>, row: Interaction)
    : set<Interaction>
  {
    set r | r in table && Wanted(r, pk, asc, cursor) && Before(asc, r, row)
  }

  lemma LastIsNew(asc: bool, rows: seq<Interaction>)
    requires Sorted(asc, rows) && rows != []
    ensures rows[|rows| - 1] !in rows[..|rows| - 1]
  {
    BeforeTotal(asc, rows[|rows| - 1], rows[|rows| - 1]);
  }

  lemma SetSnoc(rows: seq<Interaction>, last: Interaction)
    ensures (set r | r in rows + [last]) == (set r | r in rows) + {last}
  {
  }

  lemma {:induction false} SortedSize(asc: bool, rows: seq<Interaction>)
    requires Sorted(asc, rows)
    ensures |set r | r in rows| == |rows|
  {
    if rows == [] {
      assert (set r | r in rows) == {};
    } else {
      var init, last := rows[..|rows| - 1], rows[|rows| - 1];
      SortedSize(asc, init);
      LastIsNew(asc, rows);
      SetSnoc(init, last);
      assert rows == init + [last];
    }
  }

  lemma PrecedingIsPrefix(table: seq<Interaction>, pk: string, asc: bool, cursor: Option<Interaction>, k: nat)
    requires DistinctCids(table) && k < |Ordering(table, pk, asc, cursor)|
    ensures |Preceding(table, pk, asc, cursor, Ordering(table, pk, asc, cursor)[k])| == k
  {
    var all := Ordering(table, pk, asc, cursor);
    OrderingSorts(table, pk, asc, cursor);
    forall r ensures r in Preceding(table, pk, asc, cursor, all[k]) <==> r in all[..k] {
      if r in all {
        var i :| 0 <= i < |all| && all[i] == r;
        BeforeTotal(asc, all[i], all[k]);
        if i < k { assert all[..k][i] == r; }
      }
      if r in all[..k] { assert r in all; }
    }
    assert Preceding(table, pk, asc, cursor, all[k]) == set r | r in all[..k];
    SortedSize(asc, all[..k]);
  }

  /** A page holds exactly the wanted rows that fewer than `n` others precede. */
  lemma PageRank(table: seq<Interaction>, pk: string, asc: bool, cursor: Option<Interaction>, n: nat, row: Interaction)
    requires DistinctCids(table)
    ensures row in Page(table, pk, asc, cursor, n) <==>
            row in table && Wanted(row, pk, asc, cursor) && |Preceding(table, pk, asc, cursor, row)| < n
  {
    var all, page := Ordering(table, pk, asc, cursor), Page(table, pk, asc, cursor, n);
    OrderingSorts(table, pk, asc, cursor);
    assert forall k :: 0 <= k < |page| ==> page[k] == all[k];
    if row in page {
      var k :| 0 <= k < |page| && page[k] == row;
      PrecedingIsPrefix(table, pk, asc, cursor, k);
    }
    if row in all {
      var k :| 0 <= k < |all| && all[k] == row;
      PrecedingIsPrefix(table, pk, asc, cursor, k);
      if k < n { assert page[k] == row; }
    }
  }

  // ---------------------------------------------------------------- a client that chains pages

  /** What stays the same from call to call: a conversation, a direction and an amount. */
  datatype Query = Query(pk: string, asc: bool, n: nat) {
    predicate Usable() { pk != "" && n > 0 }
  }

  function Request(q: Query, refCid: string): Options { Options(q.n, refCid, q.pk, q.asc) }

  /** The rows one call delivers; none when it is refused. */
  function Answer(table: seq<Interaction>, q: Query, refCid: string): seq<Interaction> {
    if Refused(table, Request(q, refCid)) then [] else PageFor(table, q.pk, Request(q, refCid))
  }

  predicate NoEmptyCid(table: seq<Interaction>) { forall row :: row in table ==> row.cid != "" }

  /** A row of the conversation that is in the table is accepted as reference and stands for itself. */
  lemma CursorFinds(table: seq<Interaction>, q: Query, row: Interaction)
    requires DistinctCids(table) && NoEmptyCid(table) && row in table && row.conversationPk == q.pk
    ensures !Refused(table, Request(q, row.cid)) && Cursor(table, Request(q, row.cid)) == Some(row)
  {
    LookupFinds(table, row);
  }

  lemma LimitSplits(all: seq<Interaction>, n: nat)
    requires n > 0
    ensures Limit(all, n) == [] <==> all == []
    ensures Limit(all, n) == all[..|Limit(all, n)|]
  {
  }

  /** The ordering is a page and what follows its last row. */
  lemma AfterPage(table: seq<Interaction>, pk: string, asc: bool, cursor: Option<Interaction>, n: nat)
    requires DistinctCids(table) && n > 0
    ensures var all, page := Ordering(table, pk, asc, cursor), Limit(Ordering(table, pk, asc, cursor), n);
            if page == [] then all == []
            else page[|page| - 1] in table && all == page + Ordering(table, pk, asc, Some(page[|page| - 1]))
  {
    var all := Ordering(table, pk, asc, cursor);
    var page := Limit(all, n);
    LimitSplits(all, n);
    if page != [] {
      var k := |page| - 1;
      OrderingSorts(table, pk, asc, cursor);
      assert page[k] == all[k] && all[k] in all;
      CursorSplits(table, pk, asc, cursor, k);
      assert all == all[..k + 1] + all[k + 1..];
    }
  }

  lemma LastIsReadable(table: seq<Interaction>, q: Query, cursor: Option<Interaction>)
    requires DistinctCids(table) && NoEmptyCid(table) && q.Usable() && Page(table, q.pk, q.asc, cursor, q.n) != []
    ensures var page := Page(table, q.pk, q.asc, cursor, q.n);
            var last := page[|page| - 1];
            !Refused(table, Request(q, last.cid)) && Cursor(table, Request(q, last.cid)) == Some(last)
  {
    var page := Page(table, q.pk, q.asc, cursor, q.n);
    PageSorted(table, q.pk, q.asc, cursor, q.n);
    assert page[|page| - 1] in page;
    CursorFinds(table, q, page[|page| - 1]);
  }

  lemma AnswerAdvances(table: seq<Interaction>, q: Query, refCid: string)
    requires DistinctCids(table) && NoEmptyCid(table) && q.Usable() && !Refused(table, Request(q, refCid))
    ensures var all, page := Ordering(table, q.pk, q.asc, Cursor(table, Request(q, refCid))), Answer(table, q, refCid);
            if page == [] then all == []
            else
              var next := Request(q, page[|page| - 1].cid);
              !Refused(table, next) && all == page + Ordering(table, q.pk, q.asc, Cursor(table, next))
  {
    var cursor, page := Cursor(table, Request(q, refCid)), Answer(table, q, refCid);
    AfterPage(table, q.pk, q.asc, cursor, q.n);
    if page != [] { LastIsReadable(table, q, cursor); }
  }

  /** A client that asks for page after page, each time passing the last cid it got, until a page is empty. */
  ghost function ReadAll(table: seq<Interaction>, q: Query, refCid: string): seq<Interaction>
    requires DistinctCids(table) && NoEmptyCid(table) && q.Usable() && !Refused(table, Request(q, refCid))
    decreases |Ordering(table, q.pk, q.asc, Cursor(table, Request(q, refCid)))|
  {
    AnswerAdvances(table, q, refCid);
    var page := Answer(table, q, refCid);
    if page == [] then [] else page + ReadAll(table, q, page[|page| - 1].cid)
  }

  /** Over a fixed table that client terminates with the whole ordering, in either direction and from any cursor. */
  lemma {:induction false} ReadAllIsComplete(table: seq<Interaction>, q: Query, refCid: string)
    requires DistinctCids(table) && NoEmptyCid(table) && q.Usable() && !Refused(table, Request(q, refCid))
    ensures ReadAll(table, q, refCid) == Ordering(table, q.pk, q.asc, Cursor(table, Request(q, refCid)))
    decreases |Ordering(table, q.pk, q.asc, Cursor(table, Request(q, refCid)))|
  {
    AnswerAdvances(table, q, refCid);
    var page := Answer(table, q, refCid);
    if page != [] { ReadAllIsComplete(table, q, page[|page| - 1].cid); }
  }

  /** With a conversation or a cursor, GetPaginatedInteractions answers with that one page. */
  lemma OneConversation(table: seq<Interaction>, conversations: seq<string>, opts: Options, result: seq<Interaction>)
    requires DistinctCids(table) && !Refused(table, opts) && (opts.conversationPk != "" || opts.refCid != "")
    requires Sorted(opts.oldestToNewest, result)
    requires forall row :: row in result <==> InSomePage(table, Listed(table, conversations, opts), opts, row)
    ensures |Listed(table, conversations, opts)| == 1
    ensures result == PageFor(table, Listed(table, conversations, opts)[0], opts)
    ensures opts.conversationPk != "" ==> Listed(table, conversations, opts)[0] == opts.conversationPk
  {
    var pks := Listed(table, conversations, opts);
    PageSorted(table, pks[0], opts.oldestToNewest, Cursor(table, opts), Amount(opts));
    forall row ensures row in result <==> row in PageFor(table, pks[0], opts) {
      if row in PageFor(table, pks[0], opts) { assert InSomePage(table, pks, opts, row); }
    }
    SortedUnique(opts.oldestToNewest, result, PageFor(table, pks[0], opts));
  }

  function Restrict(rows: seq<Interaction>, pk: string): (r: seq<Interaction>)
    ensures forall row :: row in r <==> row in rows && row.conversationPk == pk
  {
    if rows == [] then []
    else (if rows[0].conversationPk == pk then [rows[0]] else []) + Restrict(rows[1..], pk)
  }

  lemma {:induction false} RestrictSorted(asc: bool, rows: seq<Interaction>, pk: string)
    requires Sorted(asc, rows)
    ensures Sorted(asc, Restrict(rows, pk))
  {
    if rows != [] {
      RestrictSorted(asc, rows[1..], pk);
      var rest := Restrict(rows[1..], pk);
      forall i | 0 <= i < |rest| ensures Before(asc, rows[0], rest[i]) { assert rest[i] in rest; }
    }
  }

  /** Without either, the answer holds for each listed conversation exactly that conversation's own page. */
  lemma EveryConversation(table: seq<Interaction>, conversations: seq<string>, opts: Options, result: seq<Interaction>, pk: string)
    requires DistinctCids(table) && opts.conversationPk == "" && opts.refCid == ""
    requires "" !in conversations && pk in conversations
    requires Sorted(opts.oldestToNewest, result)
    requires forall row :: row in result <==> InSomePage(table, Listed(table, conversations, opts), opts, row)
    ensures Restrict(result, pk) == PageFor(table, pk, opts)
  {
    var page := PageFor(table, pk, opts);
    PageSorted(table, pk, opts.oldestToNewest, None, Amount(opts));
    RestrictSorted(opts.oldestToNewest, result, pk);
    var k :| 0 <= k < |conversations| && conversations[k] == pk;
    forall row ensures row in Restrict(result, pk) <==> row in page {
      if row in page { assert row in PageFor(table, conversations[k], opts); }
      if row in Restrict(result, pk) {
        assert InSomePage(table, conversations, opts, row);
        var i :| 0 <= i < |conversations| && row in PageFor(table, conversations[i], opts);
        PageSorted(table, conversations[i], opts.oldestToNewest, None, Amount(opts));
        assert conversations[i] in conversations;
        assert conversations[i] == pk;
      }
    }
    SortedUnique(opts.oldestToNewest, Restrict(result, pk), page);
  }

  // ---------------------------------------------------------------- answers, row by row

  /** `result` is what GetPaginatedInteractions returns. */
  ghost predicate Returned(
    table: seq<Interaction>, conversations: seq<string>, opts: Options, result: seq<Interaction>)
  {
    && DistinctCids(table) && !Refused(table, opts) && Sorted(opts.oldestToNewest, result)
    && forall row :: row in result <==> InSomePage(table, Listed(table, conversations, opts), opts, row)
  }

  /** The rows of one page, counted. */
  lemma PageMeans(table: seq<Interaction>, pk: string, opts: Options, row: Interaction)
    requires DistinctCids(table)
    ensures row in PageFor(table, pk, opts) <==>
            && row in table && Wanted(row, pk, opts.oldestToNewest, Cursor(table, opts))
            && |Preceding(table, pk, opts.oldestToNewest, Cursor(table, opts), row)|
               < if opts.amount <= 0 then 5 else opts.amount
  {
    PageRank(table, pk, opts.oldestToNewest, Cursor(table, opts), Amount(opts), row);
  }

  /**
    With a reference: the rows after it in the reference's own conversation, as long as fewer than
    the requested number lie between. (No key at all stands for every conversation.)
  */
  lemma AnswerAfterReference(
      table: seq<Interaction>, conversations: seq<string>, opts: Options, result: seq<Interaction>,
      ref: Interaction, row: Interaction)
    requires Returned(table, conversations, opts, result)
    requires ref in table && ref.cid == opts.refCid != "" && ref.conversationPk != ""
    ensures row in result <==>
            && row in table && row.conversationPk == ref.conversationPk && Before(opts.oldestToNewest, ref, row)
            && |set r | r in table && r.conversationPk == ref.conversationPk
                 && Before(opts.oldestToNewest, ref, r) && Before(opts.oldestToNewest, r, row)|
               < if opts.amount <= 0 then 5 else opts.amount
  {
    LookupFinds(table, ref);
    var pk := ref.conversationPk;
    PageMeans(table, pk, opts, row);
    assert Listed(table, conversations, opts) == [pk];
    assert row in result <==> row in PageFor(table, pk, opts) by {
      assert InSomePage(table, [pk], opts, row) <==> row in PageFor(table, [pk][0], opts);
    }
    assert Preceding(table, pk, opts.oldestToNewest, Some(ref), row) ==
           set r | r in table && r.conversationPk == pk
             && Before(opts.oldestToNewest, ref, r) && Before(opts.oldestToNewest, r, row);
  }

  /** With a conversation and no reference: the first rows of that conversation. */
  lemma AnswerOfConversation(
      table: seq<Interaction>, conversations: seq<string>, opts: Options, result: seq<Interaction>, row: Interaction)
    requires Returned(table, conversations, opts, result) && opts.refCid == "" && opts.conversationPk != ""
    ensures row in result <==>
            && row in table && row.conversationPk == opts.conversationPk
            && |set r | r in table && r.conversationPk == opts.conversationPk && Before(opts.oldestToNewest, r, row)|
               < if opts.amount <= 0 then 5 else opts.amount
  {
    var pk := opts.conversationPk;
    PageMeans(table, pk, opts, row);
    assert row in result <==> row in PageFor(table, pk, opts) by {
      assert InSomePage(table, [pk], opts, row) <==> row in PageFor(table, [pk][0], opts);
    }
    assert Preceding(table, pk, opts.oldestToNewest, None, row) ==
           set r | r in table && r.conversationPk == pk && Before(opts.oldestToNewest, r, row);
  }

  /** With neither: the first rows of every listed conversation. */
  lemma AnswerOfAll(
      table: seq<Interaction>, conversations: seq<string>, opts: Options, result: seq<Interaction>, row: Interaction)
    requires Returned(table, conversations, opts, result) && opts.refCid == "" && opts.conversationPk == ""
    requires "" !in conversations
    ensures row in result <==>
            && row in table && row.conversationPk in conversations
            && |set r | r in table && r.conversationPk == row.conversationPk && Before(opts.oldestToNewest, r, row)|
               < if opts.amount <= 0 then 5 else opts.amount
  {
    var pk := row.conversationPk;
    PageMeans(table, pk, opts, row);
    assert row in result <==> pk in conversations && row in PageFor(table, pk, opts) by {
      if row in result {
        var i :| 0 <= i < |conversations| && row in PageFor(table, conversations[i], opts);
        PageMeans(table, conversations[i], opts, row);
        assert conversations[i] in conversations;
      }
      if pk in conversations && row in PageFor(table, pk, opts) {
        var i :| 0 <= i < |conversations| && conversations[i] == pk;
        assert row in PageFor(table, conversations[i], opts);
      }
    }
    if pk != "" {
      assert Preceding(table, pk, opts.oldestToNewest, None, row) ==
             set r | r in table && r.conversationPk == pk && Before(opts.oldestToNewest, r, row);
    }
  }

  // ---------------------------------------------------------------- tables that change between pages

  /** The last row the client has seen after a call to each of the tables; `first` is where it started. */
  function Last(tables: seq<seq<Interaction>>, q: Query, first: Option<Interaction>): Option<Interaction>
    decreases |tables|, 1
  {
    if tables == [] then first
    else
      var page := LastPage(tables, q, first);
      if page == [] then Last(tables[..|tables| - 1], q, first) else Some(page[|page| - 1])
  }

  /** The answer to the last call: its RefCid is the cid of the last row seen. */
  function LastPage(tables: seq<seq<Interaction>>, q: Query, first: Option<Interaction>): seq<Interaction>
    requires tables != []
    decreases |tables|, 0
  {
    Answer(tables[|tables| - 1], q, RefCid(Last(tables[..|tables| - 1], q, first)))
  }

  function RefCid(last: Option<Interaction>): string { if last.Some? then last.value.cid else "" }

  /** All rows delivered, in order. */
  function Chain(tables: seq<seq<Interaction>>, q: Query, first: Option<Interaction>): seq<Interaction> {
    if tables == [] then [] else Chain(tables[..|tables| - 1], q, first) + LastPage(tables, q, first)
  }

  ghost predicate Readable(tables: seq<seq<Interaction>>, q: Query, first: Option<Interaction>) {
    && q.Usable()
    && (first.Some? ==> first.value.conversationPk == q.pk && first.value.cid != "")
    && (forall i :: 0 <= i < |tables| ==> DistinctCids(tables[i]) && NoEmptyCid(tables[i]))
  }

  /** Whether the call with that reference delivers the row: the row lies after the reference row's current position. */
  ghost predicate Due(table: seq<Interaction>, q: Query, refCid: string, row: Interaction) {
    && !Refused(table, Request(q, refCid)) && row in table
    && Wanted(row, q.pk, q.asc, Cursor(table, Request(q, refCid)))
    && |Preceding(table, q.pk, q.asc, Cursor(table, Request(q, refCid)), row)| < q.n
  }

  lemma AnswerIsDue(table: seq<Interaction>, q: Query, refCid: string, row: Interaction)
    requires DistinctCids(table) && q.Usable()
    ensures row in Answer(table, q, refCid) <==> Due(table, q, refCid, row)
  {
    if !Refused(table, Request(q, refCid)) {
      PageRank(table, q.pk, q.asc, Cursor(table, Request(q, refCid)), q.n, row);
    }
  }

  lemma AnswerSorted(table: seq<Interaction>, q: Query, refCid: string)
    requires DistinctCids(table)
    ensures Sorted(q.asc, Answer(table, q, refCid)) && DistinctCids(Answer(table, q, refCid))
  {
    if !Refused(table, Request(q, refCid)) {
      var page, cursor := PageFor(table, q.pk, Request(q, refCid)), Cursor(table, Request(q, refCid));
      PageSorted(table, q.pk, q.asc, cursor, Amount(Request(q, refCid)));
      forall i, j | 0 <= i < j < |page| ensures page[i].cid != page[j].cid {
        assert page[i] in page && page[j] in page;
        BeforeTotal(q.asc, page[i], page[j]);
        BeforeTotal(q.asc, page[i], page[i]);
      }
    }
  }

  // ---------------------------------------------------------------- exactly when a row is repeated

  /** Some call delivers a row under a cid that was delivered before. */
  ghost predicate RedeliversAt(tables: seq<seq<Interaction>>, q: Query, first: Option<Interaction>, i: nat)
    requires i < |tables|
  {
    exists row: Interaction, old_: Interaction ::
      && old_ in Chain(tables[..i], q, first) && row.cid == old_.cid
      && Due(tables[i], q, RefCid(Last(tables[..i], q, first)), row)
  }

  lemma DistinctConcat(a: seq<Interaction>, b: seq<Interaction>)
    ensures DistinctCids(a + b) <==>
            DistinctCids(a) && DistinctCids(b) && forall x, y :: x in a && y in b ==> x.cid != y.cid
  {
    var all := a + b;
    if DistinctCids(all) {
      forall i, j | 0 <= i < j < |a| ensures a[i].cid != a[j].cid { assert all[i].cid != all[j].cid; }
      forall i, j | 0 <= i < j < |b| ensures b[i].cid != b[j].cid {
        assert all[|a| + i] == b[i] && all[|a| + j] == b[j];
      }
      forall x, y | x in a && y in b ensures x.cid != y.cid {
        var i :| 0 <= i < |a| && a[i] == x;
        var j :| 0 <= j < |b| && b[j] == y;
        assert all[i] == x && all[|a| + j] == y;
      }
    }
  }

  ghost predicate NeverRedelivers(tables: seq<seq<Interaction>>, q: Query, first: Option<Interaction>) {
    forall i :: 0 <= i < |tables| ==> !RedeliversAt(tables, q, first, i)
  }

  lemma RedeliversSnoc(init: seq<seq<Interaction>>, table: seq<Interaction>, q: Query, first: Option<Interaction>)
    ensures NeverRedelivers(init + [table], q, first) <==>
            NeverRedelivers(init, q, first) && !RedeliversAt(init + [table], q, first, |init|)
  {
    var tables := init + [table];
    forall i | 0 <= i < |init| ensures RedeliversAt(init, q, first, i) <==> RedeliversAt(tables, q, first, i) {
      assert init[..i] == tables[..i] && init[i] == tables[i];
    }
  }

  /** The last call redelivers exactly when its page shares a cid with the rows before. */
  lemma LastCallRedelivers(init: seq<seq<Interaction>>, table: seq<Interaction>, q: Query, first: Option<Interaction>)
    requires DistinctCids(table) && q.Usable()
    ensures RedeliversAt(init + [table], q, first, |init|) <==>
            exists row, old_ :: row in Answer(table, q, RefCid(Last(init, q, first)))
              && old_ in Chain(init, q, first) && row.cid == old_.cid
  {
    var tables, ref := init + [table], RefCid(Last(init, q, first));
    assert tables[..|init|] == init;
    forall row ensures row in Answer(table, q, ref) <==> Due(table, q, ref, row) { AnswerIsDue(table, q, ref, row); }
  }

  lemma ChainSnoc(init: seq<seq<Interaction>>, table: seq<Interaction>, q: Query, first: Option<Interaction>)
    ensures Chain(init + [table], q, first) == Chain(init, q, first) + Answer(table, q, RefCid(Last(init, q, first)))
  {
    assert (init + [table])[..|init|] == init;
  }

  /**
    However the tables change between calls: a cid is delivered twice exactly when, at some call, a
    row already delivered is stored after the current position of the last row seen, within the page.
  */
  lemma {:induction false} RepeatsExactly(tables: seq<seq<Interaction>>, q: Query, first: Option<Interaction>)
    requires Readable(tables, q, first)
    ensures DistinctCids(Chain(tables, q, first)) <==> NeverRedelivers(tables, q, first)
  {
    if tables != [] {
      var init, table := tables[..|tables| - 1], tables[|tables| - 1];
      var ref := RefCid(Last(init, q, first));
      assert tables == init + [table];
      RepeatsExactly(init, q, first);
      RedeliversSnoc(init, table, q, first);
      LastCallRedelivers(init, table, q, first);
      ChainSnoc(init, table, q, first);
      AnswerSorted(table, q, ref);
      DistinctConcat(Chain(init, q, first), Answer(table, q, ref));
    }
  }

  ghost predicate DueAt(
    tables: seq<seq<Interaction>>, q: Query, first: Option<Interaction>, i: nat, row: Interaction)
    requires i < |tables|
  {
    Due(tables[i], q, RefCid(Last(tables[..i], q, first)), row)
  }

  ghost predicate EverDue(tables: seq<seq<Interaction>>, q: Query, first: Option<Interaction>, row: Interaction) {
    exists i :: 0 <= i < |tables| && DueAt(tables, q, first, i, row)
  }

  lemma EverDueSnoc(
      init: seq<seq<Interaction>>, table: seq<Interaction>, q: Query, first: Option<Interaction>, row: Interaction)
    ensures EverDue(init + [table], q, first, row) <==>
            EverDue(init, q, first, row) || Due(table, q, RefCid(Last(init, q, first)), row)
  {
    var tables := init + [table];
    assert tables[..|init|] == init && tables[|init|] == table;
    forall i | 0 <= i < |init| ensures DueAt(init, q, first, i, row) <==> DueAt(tables, q, first, i, row) {
      assert init[..i] == tables[..i] && init[i] == tables[i];
    }
    assert DueAt(tables, q, first, |init|, row) <==> Due(table, q, RefCid(Last(init, q, first)), row);
    if EverDue(init, q, first, row) {
      var i :| 0 <= i < |init| && DueAt(init, q, first, i, row);
      assert DueAt(tables, q, first, i, row);
    }
  }

  /** A row is delivered exactly when it is due at some call. */
  lemma {:induction false} DeliveredExactly(
      tables: seq<seq<Interaction>>, q: Query, first: Option<Interaction>, row: Interaction)
    requires Readable(tables, q, first)
    ensures row in Chain(tables, q, first) <==> EverDue(tables, q, first, row)
  {
    if tables != [] {
      var init, table := tables[..|tables| - 1], tables[|tables| - 1];
      assert tables == init + [table];
      DeliveredExactly(init, q, first, row);
      AnswerIsDue(table, q, RefCid(Last(init, q, first)), row);
      EverDueSnoc(init, table, q, first, row);
      ChainSnoc(init, table, q, first);
    }
  }

  // An out-of-store copy may carry any date; the synced copy that replaces it moves the row.

  const NEWEST := Interaction("a", "c", 10, false, "")
  const OLDEST := Interaction("d", "c", 8, false, "")
  const EARLY := Interaction("b", "c", 9, true, "")
  const BY_TWO := Query("c", false, 2)

  function Replaced(date: int): Interaction { Interaction("b", "c", date, false, "") }

  lemma FirstPage(rest: seq<Interaction>)
    requires rest == [] || rest == [OLDEST]
    ensures Answer([NEWEST, EARLY] + rest, BY_TWO, "") == [NEWEST, EARLY]
  {
    var table := [NEWEST, EARLY] + rest;
    assert Select(rest, "c", false, None) == rest;
    assert table[1..] == [EARLY] + rest && table[1..][1..] == rest;
    assert Select(table[1..], "c", false, None) == table[1..];
    assert Select(table, "c", false, None) == table;
    assert OrderBy(false, rest) == rest by { if rest != [] { assert rest[1..] == []; } }
    assert OrderBy(false, table[1..]) == table[1..];
    assert OrderBy(false, table) == table;
  }

  lemma ReplacedRepeats()
    ensures Answer([NEWEST, Replaced(12)], BY_TWO, "b") == [NEWEST]
  {
    var t1 := [NEWEST, Replaced(12)];
    var cursor := Some(Replaced(12));
    assert t1[1..] == [Replaced(12)];
    assert Lookup(t1, "b") == cursor;
    assert Select(t1[1..], "c", false, cursor) == [];
    assert Select(t1, "c", false, cursor) == [NEWEST];
    assert OrderBy(false, [NEWEST]) == [NEWEST];
    assert Answer(t1, BY_TWO, "b") == [NEWEST];
  }

  /** Moved to a later date, the last row seen makes the next page repeat a row. */
  lemma MovedRowRepeats()
    ensures var tables := [[NEWEST, EARLY], [NEWEST, Replaced(12)]];
            Readable(tables, BY_TWO, None) && Chain(tables, BY_TWO, None) == [NEWEST, EARLY, NEWEST]
  {
    var t0, t1 := [NEWEST, EARLY], [NEWEST, Replaced(12)];
    FirstPage([]);
    assert [NEWEST, EARLY] + [] == t0;
    ReplacedRepeats();
    TwoReadable(t0, t1, BY_TWO);
    SecondPage(t0, t1, BY_TWO, [NEWEST, EARLY], [NEWEST]);
  }

  lemma OneCall(table: seq<Interaction>, q: Query)
    ensures var page := Answer(table, q, "");
            && Last([table], q, None) == (if page == [] then None else Some(page[|page| - 1]))
            && Chain([table], q, None) == page
  {
    assert [table][..0] == [];
    assert LastPage([table], q, None) == Answer(table, q, "");
  }

  lemma TwoCalls(t0: seq<Interaction>, t1: seq<Interaction>, q: Query)
    ensures var page := Answer(t0, q, "");
            var last := if page == [] then None else Some(page[|page| - 1]);
            && Last([t0, t1][..1], q, None) == last
            && LastPage([t0, t1], q, None) == Answer(t1, q, RefCid(last))
            && Chain([t0, t1], q, None) == page + Answer(t1, q, RefCid(last))
  {
    OneCall(t0, q);
    assert [t0, t1][..1] == [t0];
  }

  lemma NothingAfter()
    ensures var t1 := [NEWEST, Replaced(5), OLDEST]; !Refused(t1, Request(BY_TWO, "b")) && Answer(t1, BY_TWO, "b") == []
  {
    var t1 := [NEWEST, Replaced(5), OLDEST];
    var cursor := Some(Replaced(5));
    assert t1[1..] == [Replaced(5), OLDEST] && t1[1..][1..] == [OLDEST];
    assert Lookup(t1, "b") == cursor;
    assert Select([OLDEST], "c", false, cursor) == [];
    assert Select(t1[1..], "c", false, cursor) == [];
    assert Select(t1, "c", false, cursor) == [];
    assert Answer(t1, BY_TWO, "b") == [];
  }

  /** Moved to an earlier date, it makes the next page empty although a row was never delivered. */
  lemma MovedRowSkips()
    ensures var tables := [[NEWEST, EARLY, OLDEST], [NEWEST, Replaced(5), OLDEST]];
            && Readable(tables, BY_TWO, None)
            && !Refused(tables[1], Request(BY_TWO, RefCid(Last(tables[..1], BY_TWO, None))))
            && Chain(tables, BY_TWO, None) == [NEWEST, EARLY] && LastPage(tables, BY_TWO, None) == []
  {
    var t0, t1 := [NEWEST, EARLY, OLDEST], [NEWEST, Replaced(5), OLDEST];
    FirstPage([OLDEST]);
    assert [NEWEST, EARLY] + [OLDEST] == t0;
    NothingAfter();
    TwoReadable(t0, t1, BY_TWO);
    SecondPage(t0, t1, BY_TWO, [NEWEST, EARLY], []);
  }

  /** The same rows as a list and as the keyed table that AddInteraction works on. */
  ghost predicate Lists(table: seq<Interaction>, t: Interactions.Tables) {
    forall row :: row in table <==> row.cid in t.rows && t.rows[row.cid].inte == row
  }

  /** Both moves are what AddInteraction does when the synced copy of the last row seen arrives. */
  lemma MovesAreDeliveries(t: Interactions.Tables, rest: seq<Interaction>, date: int, rowid: nat)
    requires rest == [] || rest == [OLDEST]
    requires Lists([NEWEST, EARLY] + rest, t)
    ensures Lists([NEWEST, Replaced(date)] + rest, Interactions.Added(t, Replaced(date), rowid))
  {
    var t' := Interactions.Added(t, Replaced(date), rowid);
    assert EARLY in [NEWEST, EARLY] + rest && Interactions.IsNew(t, Replaced(date));
    forall row
      ensures row in [NEWEST, Replaced(date)] + rest <==> row.cid in t'.rows && t'.rows[row.cid].inte == row
    {
      assert row in [NEWEST, EARLY] + rest <==> row.cid in t.rows && t.rows[row.cid].inte == row;
      assert row.cid != "b" ==> (row.cid in t'.rows <==> row.cid in t.rows);
    }
  }

  lemma TwoReadable(t0: seq<Interaction>, t1: seq<Interaction>, q: Query)
    requires q.Usable() && DistinctCids(t0) && NoEmptyCid(t0) && DistinctCids(t1) && NoEmptyCid(t1)
    ensures Readable([t0, t1], q, None)
  {
  }

  lemma SecondPage(t0: seq<Interaction>, t1: seq<Interaction>, q: Query, first: seq<Interaction>, second: seq<Interaction>)
    requires first != [] && Answer(t0, q, "") == first && Answer(t1, q, first[|first| - 1].cid) == second
    ensures RefCid(Last([t0, t1][..1], q, None)) == first[|first| - 1].cid
    ensures LastPage([t0, t1], q, None) == second
    ensures Chain([t0, t1], q, None) == first + second
  {
    TwoCalls(t0, t1, q);
  }

  // ---------------------------------------------------------------- while the last row seen stays

  /** At each call the last row seen is still stored as it was; other rows may come, go and change. */
  ghost predicate Steady(tables: seq<seq<Interaction>>, q: Query, first: Option<Interaction>) {
    forall i :: 0 <= i < |tables| ==> SeenStays(tables, q, first, i)
  }

  ghost predicate SeenStays(tables: seq<seq<Interaction>>, q: Query, first: Option<Interaction>, i: nat)
    requires i < |tables|
  {
    var last := Last(tables[..i], q, first);
    last.Some? ==> last.value in tables[i]
  }

  lemma LastOfConversation(tables: seq<seq<Interaction>>, q: Query, first: Option<Interaction>)
    requires Readable(tables, q, first)
    ensures var last := Last(tables, q, first); last.Some? ==> last.value.conversationPk == q.pk && last.value.cid != ""
    ensures tables != [] ==> forall row :: row in LastPage(tables, q, first) ==>
              row in tables[|tables| - 1] && row.conversationPk == q.pk && row.cid != ""
  {
    if tables != [] {
      var n := |tables| - 1;
      LastOfConversation(tables[..n], q, first);
      var page, ref := LastPage(tables, q, first), RefCid(Last(tables[..n], q, first));
      forall row | row in page ensures row in tables[n] && row.conversationPk == q.pk && row.cid != "" {
        AnswerIsDue(tables[n], q, ref, row);
      }
      if page != [] { assert page[|page| - 1] in page; }
    }
  }

  /** Then each call is accepted and continues after exactly that row. */
  lemma SteadyCall(tables: seq<seq<Interaction>>, q: Query, first: Option<Interaction>)
    requires Readable(tables, q, first) && Steady(tables, q, first) && tables != []
    ensures var n := |tables| - 1;
            var last := Last(tables[..n], q, first);
            && Readable(tables[..n], q, first) && Steady(tables[..n], q, first)
            && !Refused(tables[n], Request(q, RefCid(last)))
            && LastPage(tables, q, first) == Page(tables[n], q.pk, q.asc, last, q.n)
  {
    var n := |tables| - 1;
    forall i | 0 <= i < n ensures SeenStays(tables[..n], q, first, i) {
      assert SeenStays(tables, q, first, i);
      assert tables[..n][..i] == tables[..i];
    }
    assert SeenStays(tables, q, first, n);
    LastOfConversation(tables[..n], q, first);
    var last := Last(tables[..n], q, first);
    if last.Some? { CursorFinds(tables[n], q, last.value); }
  }

  /** The rows are in order and none comes after `last`. */
  ghost predicate EndsAt(asc: bool, rows: seq<Interaction>, last: Option<Interaction>) {
    && Sorted(asc, rows)
    && (last.None? ==> rows == [])
    && (last.Some? ==> forall row :: row in rows ==> row == last.value || Before(asc, row, last.value))
  }

  /** The last row seen after a page. */
  function Reached(last: Option<Interaction>, page: seq<Interaction>): Option<Interaction> {
    if page == [] then last else Some(page[|page| - 1])
  }

  lemma EndsLater(asc: bool, rows: seq<Interaction>, last: Option<Interaction>, page: seq<Interaction>,
                  rows': seq<Interaction>, last': Option<Interaction>)
    requires EndsAt(asc, rows, last) && Sorted(asc, page)
    requires forall row :: row in page && last.Some? ==> Before(asc, last.value, row)
    requires rows' == rows + page && last' == Reached(last, page)
    ensures EndsAt(asc, rows', last')
  {
    if page == [] {
      assert rows + page == rows;
    } else {
      var end := page[|page| - 1];
      if last.Some? { SortedConcat(asc, rows, page, last.value); } else { assert rows + page == page; }
      forall row | row in rows + page ensures row == end || Before(asc, row, end) {
        if row in page {
          var i :| 0 <= i < |page| && page[i] == row;
        } else {
          assert end in page && row in rows;
          EndsBefore(asc, rows, last, end, row);
        }
      }
    }
  }

  lemma EndsBefore(asc: bool, rows: seq<Interaction>, last: Option<Interaction>, end: Interaction, row: Interaction)
    requires EndsAt(asc, rows, last) && row in rows && (last.Some? ==> Before(asc, last.value, end))
    ensures Before(asc, row, end)
  {
    if row != last.value { BeforeTransitive(asc, row, last.value, end); }
  }

  /** A call to one more table: what it adds and where it leaves the client. */
  lemma OneMoreCall(tables: seq<seq<Interaction>>, q: Query, first: Option<Interaction>)
    requires Readable(tables, q, first) && Steady(tables, q, first) && tables != []
    ensures var n := |tables| - 1;
            var last, page := Last(tables[..n], q, first), LastPage(tables, q, first);
            && Chain(tables, q, first) == Chain(tables[..n], q, first) + page
            && Last(tables, q, first) == Reached(last, page)
            && Sorted(q.asc, page)
            && (forall row :: row in page && last.Some? ==> Before(q.asc, last.value, row))
            && Readable(tables[..n], q, first) && Steady(tables[..n], q, first)
  {
    var n := |tables| - 1;
    SteadyCall(tables, q, first);
    PageSorted(tables[n], q.pk, q.asc, Last(tables[..n], q, first), q.n);
  }

  /** No row is delivered twice and the order is kept, while the last row seen stays. */
  lemma {:induction false} NoRepeats(tables: seq<seq<Interaction>>, q: Query, first: Option<Interaction>)
    requires Readable(tables, q, first) && Steady(tables, q, first)
    ensures EndsAt(q.asc, Chain(tables, q, first), Last(tables, q, first))
  {
    if tables != [] {
      var init := tables[..|tables| - 1];
      OneMoreCall(tables, q, first);
      NoRepeats(init, q, first);
      EndsLater(q.asc, Chain(init, q, first), Last(init, q, first), LastPage(tables, q, first),
                Chain(tables, q, first), Last(tables, q, first));
    }
  }

  /** A row that stays is delivered, or still lies ahead of the last row seen. */
  lemma {:induction false} NothingSkipped(
      tables: seq<seq<Interaction>>, q: Query, first: Option<Interaction>, row: Interaction)
    requires Readable(tables, q, first) && Steady(tables, q, first) && Wanted(row, q.pk, q.asc, first)
    requires forall i :: 0 <= i < |tables| ==> row in tables[i]
    ensures row in Chain(tables, q, first) || Wanted(row, q.pk, q.asc, Last(tables, q, first))
  {
    if tables != [] {
      var n := |tables| - 1;
      SteadyCall(tables, q, first);
      OneMoreCall(tables, q, first);
      NothingSkipped(tables[..n], q, first, row);
      StillAhead(tables[n], q, Last(tables[..n], q, first), row, Chain(tables[..n], q, first), LastPage(tables, q, first),
                 Chain(tables, q, first), Last(tables, q, first));
    }
  }

  lemma StillAhead(
      table: seq<Interaction>, q: Query, last: Option<Interaction>, row: Interaction, rows: seq<Interaction>,
      page: seq<Interaction>, rows': seq<Interaction>, last': Option<Interaction>)
    requires q.Usable() && DistinctCids(table) && row in table && page == Page(table, q.pk, q.asc, last, q.n)
    requires row in rows || Wanted(row, q.pk, q.asc, last)
    requires rows' == rows + page && last' == Reached(last, page)
    ensures row in rows' || Wanted(row, q.pk, q.asc, last')
  {
    if row !in rows' { AheadOfPage(table, q.pk, q.asc, last, q.n, row); }
  }

  lemma AheadOfPage(table: seq<Interaction>, pk: string, asc: bool, cursor: Option<Interaction>, n: nat, row: Interaction)
    requires DistinctCids(table) && row in table && Wanted(row, pk, asc, cursor) && n > 0
    requires row !in Page(table, pk, asc, cursor, n)
    ensures var page := Page(table, pk, asc, cursor, n); page != [] && Wanted(row, pk, asc, Some(page[|page| - 1]))
  {
    var all := Ordering(table, pk, asc, cursor);
    OrderingSorts(table, pk, asc, cursor);
    var i :| 0 <= i < |all| && all[i] == row;
    var page := Page(table, pk, asc, cursor, n);
    assert forall k :: 0 <= k < |page| ==> page[k] == all[k];
    assert i >= |page|;
  }

  /** So once a page comes back empty, every row present throughout has been delivered, exactly once. */
  lemma EmptyPageEnds(tables: seq<seq<Interaction>>, q: Query, first: Option<Interaction>, row: Interaction)
    requires Readable(tables, q, first) && Steady(tables, q, first) && Wanted(row, q.pk, q.asc, first)
    requires forall i :: 0 <= i < |tables| ==> row in tables[i]
    requires tables != [] && LastPage(tables, q, first) == []
    ensures row in Chain(tables, q, first) && Sorted(q.asc, Chain(tables, q, first))
  {
    var n := |tables| - 1;
    NoRepeats(tables, q, first);
    NothingSkipped(tables, q, first, row);
    SteadyCall(tables, q, first);
    if row !in Chain(tables, q, first) { AheadOfPage(tables[n], q.pk, q.asc, Last(tables[..n], q, first), q.n, row); }
  }

  // ---------------------------------------------------------------- while rows are only added

  ghost predicate OnlyAdded(tables: seq<seq<Interaction>>, first: Option<Interaction>) {
    && (tables != [] && first.Some? ==> first.value in tables[0])
    && (forall i, j, row :: 0 <= i <= j < |tables| && row in tables[i] ==> row in tables[j])
  }

  lemma {:induction false} LastStays(tables: seq<seq<Interaction>>, q: Query, first: Option<Interaction>, i: nat, j: nat)
    requires Readable(tables, q, first) && OnlyAdded(tables, first) && i <= j < |tables|
    ensures Last(tables[..i], q, first).Some? ==> Last(tables[..i], q, first).value in tables[j]
  {
    if i > 0 {
      var seen := tables[..i];
      assert seen[..i - 1] == tables[..i - 1];
      LastStays(tables, q, first, i - 1, j);
      LastOfConversation(seen, q, first);
      var page := LastPage(seen, q, first);
      if page != [] { assert page[|page| - 1] in page && page[|page| - 1] in tables[i - 1]; }
    }
  }

  /**
    Paging is complete and free of repeats when rows are added between pages and none is changed
    or deleted: the order is kept, and at the first empty page every row of the conversation that
    was there from the start has been delivered.
  */
  lemma AddedRowsOnly(tables: seq<seq<Interaction>>, q: Query, first: Option<Interaction>)
    requires Readable(tables, q, first) && OnlyAdded(tables, first)
    ensures Sorted(q.asc, Chain(tables, q, first))
    ensures tables != [] && LastPage(tables, q, first) == [] ==>
              forall row :: row in tables[0] && Wanted(row, q.pk, q.asc, first) ==> row in Chain(tables, q, first)
  {
    forall i | 0 <= i < |tables| ensures SeenStays(tables, q, first, i) {
      LastStays(tables, q, first, i, i);
    }
    NoRepeats(tables, q, first);
    if tables != [] && LastPage(tables, q, first) == [] {
      forall row | row in tables[0] && Wanted(row, q.pk, q.asc, first) ensures row in Chain(tables, q, first) {
        EmptyPageEnds(tables, q, first, row);
      }
    }
  }
}
