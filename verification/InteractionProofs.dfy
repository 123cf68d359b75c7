/** What the interaction table and its index hold after any history of calls. */
module InteractionProofs {
  import opened Results
  import opened Schema
  import opened Interactions

  datatype Op =
    | Add(raw: Interaction, rowid: nat)
    | Delete(cids: set<string>)
    | Index(cid: string, text: string)

  function Apply(t: Tables, op: Op): Tables {
    match op
    case Add(raw, rowid) => Added(t, raw, rowid)
    case Delete(cids) => Deleted(t, cids)
    case Index(cid, text) => Indexed(t, cid, text)
  }

  function After(ops: seq<Op>): Tables {
    if ops == [] then Tables(map[], map[]) else Apply(After(ops[..|ops| - 1]), ops[|ops| - 1])
  }

  /** SQLite hands out only rowids that no other row has. */
  ghost predicate History(ops: seq<Op>) {
    ops == [] ||
    (var before, op := ops[..|ops| - 1], ops[|ops| - 1];
     History(before) && (op.Add? ==> FreeRowid(After(before), op.raw.cid, op.rowid)))
  }

  // ---------------------------------------------------------------- the reference: what arrived

  /** The copies of `cid` submitted since it was last deleted. */
  function Arrivals(ops: seq<Op>, cid: string): seq<Interaction> {
    if ops == [] then []
    else
      var before, op := Arrivals(ops[..|ops| - 1], cid), ops[|ops| - 1];
      if op.Add? && op.raw.cid == cid && cid != "" then before + [op.raw]
      else if op.Delete? && cid in op.cids then []
      else before
  }

  function FirstSynced(copies: seq<Interaction>): Option<Interaction> {
    if copies == [] then None else if !copies[0].outOfStore then Some(copies[0]) else FirstSynced(copies[1..])
  }

  /** The first synced copy if any arrived, otherwise the first out-of-store copy. */
  function Winner(copies: seq<Interaction>): Option<Interaction> {
    if FirstSynced(copies).Some? then FirstSynced(copies)
    else if copies != [] then Some(copies[0])
    else None
  }

  /** A copy is reported as new when it is the first, or the first synced one after out-of-store copies. */
  predicate Counts(earlier: seq<Interaction>, copy: Interaction) {
    earlier == [] || (FirstSynced(earlier).None? && !copy.outOfStore)
  }

  function News(copies: seq<Interaction>): nat {
    if copies == [] then 0
    else News(copies[..|copies| - 1]) + if Counts(copies[..|copies| - 1], copies[|copies| - 1]) then 1 else 0
  }

  /** The last text indexed for `cid` since its row was last written; None when there is none. */
  function CurrentText(ops: seq<Op>, cid: string): Option<string> {
    if ops == [] then None
    else
      var before, op := ops[..|ops| - 1], ops[|ops| - 1];
      match op
      case Index(c, text) => if c == cid && Arrivals(before, cid) != [] then Some(text) else CurrentText(before, cid)
      case Delete(cids) => if cid in cids then None else CurrentText(before, cid)
      case Add(raw, _) =>
        if raw.cid == cid && cid != "" && Counts(Arrivals(before, cid), raw) then None else CurrentText(before, cid)
  }

  // ---------------------------------------------------------------- convergence

  lemma {:induction false} FirstSyncedSnoc(copies: seq<Interaction>, copy: Interaction)
    ensures FirstSynced(copies + [copy]) ==
            if FirstSynced(copies).Some? then FirstSynced(copies) else if copy.outOfStore then None else Some(copy)
  {
    if copies == [] {
      assert (copies + [copy])[1..] == [];
    } else {
      assert (copies + [copy])[1..] == copies[1..] + [copy];
      FirstSyncedSnoc(copies[1..], copy);
    }
  }

  lemma {:induction false} FirstSyncedIs(copies: seq<Interaction>)
    ensures FirstSynced(copies).Some? ==> FirstSynced(copies).value in copies && !FirstSynced(copies).value.outOfStore
    ensures FirstSynced(copies).None? ==> forall copy :: copy in copies ==> copy.outOfStore
  {
    if copies != [] { FirstSyncedIs(copies[1..]); }
  }

  /** The row a step leaves for `cid`, given the row before. */
  function RowAfter(row: Option<Interaction>, op: Op, cid: string): Option<Interaction> {
    match op
    case Add(raw, _) =>
      if raw.cid == cid && cid != "" && (row.None? || (row.value.outOfStore && !raw.outOfStore)) then Some(raw) else row
    case Delete(cids) => if cid in cids then None else row
    case Index(_, _) => row
  }

  function Row(t: Tables, cid: string): Option<Interaction> {
    if cid in t.rows then Some(t.rows[cid].inte) else None
  }

  lemma ApplyRow(t: Tables, op: Op, cid: string)
    ensures Row(Apply(t, op), cid) == RowAfter(Row(t, cid), op, cid)
  {
  }

  lemma WinnerRow(copies: seq<Interaction>, raw: Interaction)
    ensures Winner(copies + [raw]) ==
            if Winner(copies).None? || (Winner(copies).value.outOfStore && !raw.outOfStore) then Some(raw)
            else Winner(copies)
    ensures Counts(copies, raw) <==> Winner(copies).None? || (Winner(copies).value.outOfStore && !raw.outOfStore)
  {
    FirstSyncedSnoc(copies, raw);
    FirstSyncedIs(copies);
    if copies != [] { assert copies[0] in copies; }
  }

  /** After any history the row stored for a cid is the winner among the copies that arrived since its last deletion. */
  lemma {:induction false} StoredIsWinner(ops: seq<Op>, cid: string)
    ensures Row(After(ops), cid) == Winner(Arrivals(ops, cid))
  {
    if ops != [] {
      var before, op := ops[..|ops| - 1], ops[|ops| - 1];
      StoredIsWinner(before, cid);
      ApplyRow(After(before), op, cid);
      if op.Add? { WinnerRow(Arrivals(before, cid), op.raw); }
    }
  }

  /** AddInteraction's second result says exactly that the submitted copy counts. */
  lemma ReportedNew(ops: seq<Op>, raw: Interaction)
    requires raw.cid != ""
    ensures IsNew(After(ops), raw) <==> Counts(Arrivals(ops, raw.cid), raw)
  {
    StoredIsWinner(ops, raw.cid);
    WinnerRow(Arrivals(ops, raw.cid), raw);
  }

  lemma {:induction false} NewsCount(copies: seq<Interaction>)
    ensures News(copies) ==
            if copies == [] then 0
            else if copies[0].outOfStore && FirstSynced(copies).Some? then 2
            else 1
  {
    if copies != [] {
      var before, copy := copies[..|copies| - 1], copies[|copies| - 1];
      NewsCount(before);
      assert copies == before + [copy];
      FirstSyncedSnoc(before, copy);
      FirstSyncedIs(before);
      if before != [] { assert before[0] in before; }
    }
  }

  /** How often AddInteraction has reported `cid` as new since its last deletion. */
  function Reports(ops: seq<Op>, cid: string): nat {
    if ops == [] then 0
    else
      var before, op := ops[..|ops| - 1], ops[|ops| - 1];
      match op
      case Add(raw, _) =>
        Reports(before, cid) + if raw.cid == cid && cid != "" && IsNew(After(before), raw) then 1 else 0
      case Delete(cids) => if cid in cids then 0 else Reports(before, cid)
      case Index(_, _) => Reports(before, cid)
  }

  lemma {:induction false} ReportsAreNews(ops: seq<Op>, cid: string)
    ensures Reports(ops, cid) == News(Arrivals(ops, cid))
  {
    if ops != [] {
      var before, op := ops[..|ops| - 1], ops[|ops| - 1];
      ReportsAreNews(before, cid);
      if op.Add? && op.raw.cid == cid && cid != "" {
        ReportedNew(before, op.raw);
        assert (Arrivals(before, cid) + [op.raw])[..|Arrivals(before, cid)|] == Arrivals(before, cid);
      }
    }
  }

  /**
    Hence, in any history, at most two reports for a cid between deletions: two exactly when a
    synced copy followed an out-of-store first one, and one for any other copies.
  */
  lemma NewAtMostTwice(ops: seq<Op>, cid: string)
    ensures var copies := Arrivals(ops, cid);
            Reports(ops, cid) ==
            if copies == [] then 0
            else if copies[0].outOfStore && FirstSynced(copies).Some? then 2
            else 1
  {
    ReportsAreNews(ops, cid);
    NewsCount(Arrivals(ops, cid));
  }

  /** Copies of one cid that agree: all synced ones are equal, and without a synced one all are equal. */
  ghost predicate Agree(copies: seq<Interaction>) {
    && (forall x, y :: x in copies && y in copies && !x.outOfStore && !y.outOfStore ==> x == y)
    && (FirstSynced(copies).None? ==> forall x, y :: x in copies && y in copies ==> x == y)
  }

  /** Delivery order does not matter: histories that delivered the same agreeing copies store the same row. */
  lemma DeliveryConverges(left: seq<Op>, right: seq<Op>, cid: string)
    requires Agree(Arrivals(left, cid))
    requires forall copy :: copy in Arrivals(left, cid) <==> copy in Arrivals(right, cid)
    ensures Row(After(left), cid) == Row(After(right), cid)
  {
    var a, b := Arrivals(left, cid), Arrivals(right, cid);
    StoredIsWinner(left, cid);
    StoredIsWinner(right, cid);
    FirstSyncedIs(a);
    FirstSyncedIs(b);
    assert a != [] ==> a[0] in b;
    assert b != [] ==> b[0] in a;
  }

  /** A synced row stays until it is deleted, whatever arrives. */
  lemma SyncedStays(ops: seq<Op>, op: Op, cid: string)
    requires var row := Row(After(ops), cid); row.Some? && !row.value.outOfStore
    requires !(op.Delete? && cid in op.cids)
    ensures Row(After(ops + [op]), cid) == Row(After(ops), cid)
  {
    assert (ops + [op])[..|ops|] == ops;
    ApplyRow(After(ops), op, cid);
  }

  // ---------------------------------------------------------------- the index

  ghost predicate RowidsDistinct(t: Tables) {
    && (forall c :: c in t.rows ==> t.rows[c].rowid > 0)
    && (forall c, d :: c in t.rows && d in t.rows && t.rows[c].rowid == t.rows[d].rowid ==> c == d)
  }

  /** Every index entry sits at the rowid of a live row. */
  ghost predicate IndexLive(t: Tables) {
    forall id :: id in t.fts ==> exists c :: c in t.rows && t.rows[c].rowid == id
  }

  function Text(t: Tables, cid: string): Option<string> {
    if cid in t.rows && t.rows[cid].rowid in t.fts then Some(t.fts[t.rows[cid].rowid]) else None
  }

  lemma DeleteKeeps(t: Tables, cids: set<string>, c: string)
    requires RowidsDistinct(t) && IndexLive(t)
    ensures RowidsDistinct(Deleted(t, cids)) && IndexLive(Deleted(t, cids))
    ensures Text(Deleted(t, cids), c) == if c in cids then None else Text(t, c)
  {
    var t' := Deleted(t, cids);
    forall id | id in t'.fts ensures exists d :: d in t'.rows && t'.rows[d].rowid == id {
      var d :| d in t.rows && t.rows[d].rowid == id;
      assert d in t'.rows;
    }
  }

  /** No index entry waits at a rowid that is handed out, even if the rowid was used before. */
  lemma FreshRowid(t: Tables, cid: string, rowid: nat)
    requires IndexLive(t) && cid !in t.rows && FreeRowid(t, cid, rowid)
    ensures rowid !in t.fts
  {
  }

  lemma CreateStaysLive(t: Tables, inte: Interaction, rowid: nat)
    requires IndexLive(t) && inte.cid !in t.rows
    ensures IndexLive(Created(t, inte, rowid))
  {
    var t' := Created(t, inte, rowid);
    forall id | id in t'.fts ensures exists d :: d in t'.rows && t'.rows[d].rowid == id {
      var d :| d in t.rows && t.rows[d].rowid == id;
      assert t'.rows[d].rowid == id;
    }
  }

  /** So a new row starts without indexed text. */
  lemma CreateKeeps(t: Tables, inte: Interaction, rowid: nat, c: string)
    requires RowidsDistinct(t) && IndexLive(t) && inte.cid !in t.rows && FreeRowid(t, inte.cid, rowid)
    ensures RowidsDistinct(Created(t, inte, rowid)) && IndexLive(Created(t, inte, rowid))
    ensures Text(Created(t, inte, rowid), c) == if c == inte.cid then None else Text(t, c)
  {
    FreshRowid(t, inte.cid, rowid);
    CreateStaysLive(t, inte, rowid);
  }

  lemma IndexStaysLive(t: Tables, cid: string, text: string)
    requires IndexLive(t)
    ensures IndexLive(Indexed(t, cid, text))
  {
    var t' := Indexed(t, cid, text);
    if cid in t.rows {
      var at := t.rows[cid].rowid;
      forall id | id in t'.fts ensures exists d :: d in t'.rows && t'.rows[d].rowid == id {
        if id == at { assert t'.rows[cid].rowid == id; } else { assert id in t.fts; }
      }
    }
  }

  lemma IndexKeeps(t: Tables, cid: string, text: string, c: string)
    requires RowidsDistinct(t)
    ensures RowidsDistinct(Indexed(t, cid, text))
    ensures Text(Indexed(t, cid, text), c) == if c == cid && cid in t.rows then Some(text) else Text(t, c)
  {
  }

  lemma ApplyKeeps(t: Tables, op: Op, cid: string)
    requires RowidsDistinct(t) && IndexLive(t) && (op.Add? ==> FreeRowid(t, op.raw.cid, op.rowid))
    ensures RowidsDistinct(Apply(t, op)) && IndexLive(Apply(t, op))
    ensures Text(Apply(t, op), cid) ==
            match op
            case Add(raw, _) => if raw.cid == cid && cid != "" && IsNew(t, raw) then None else Text(t, cid)
            case Delete(cids) => if cid in cids then None else Text(t, cid)
            case Index(c, text) => if c == cid && cid in t.rows then Some(text) else Text(t, cid)
  {
    match op
    case Add(raw, rowid) =>
      if raw.cid != "" && IsNew(t, raw) {
        DeleteKeeps(t, {raw.cid}, cid);
        CreateKeeps(Deleted(t, {raw.cid}), raw, rowid, cid);
      }
    case Delete(cids) => DeleteKeeps(t, cids, cid);
    case Index(c, text) => IndexKeeps(t, c, text, cid); IndexStaysLive(t, c, text);
  }

  /**
    In every history, through deletions, replacements and reused rowids: each index entry belongs
    to a live row, and holds the last text indexed for the cid that is at that rowid now.
  */
  lemma {:induction false} IndexAgrees(ops: seq<Op>, cid: string)
    requires History(ops)
    ensures RowidsDistinct(After(ops)) && IndexLive(After(ops))
    ensures Text(After(ops), cid) == CurrentText(ops, cid)
  {
    if ops != [] {
      var before, op := ops[..|ops| - 1], ops[|ops| - 1];
      IndexAgrees(before, cid);
      ApplyKeeps(After(before), op, cid);
      StoredIsWinner(before, cid);
      if op.Add? && op.raw.cid == cid && cid != "" { ReportedNew(before, op.raw); }
    }
  }

  lemma {:induction false} RowsKeyed(ops: seq<Op>)
    ensures Keyed(After(ops))
  {
    if ops != [] { RowsKeyed(ops[..|ops| - 1]); }
  }

  /**
    So a search is about exactly the stored rows in its date window whose current text matches;
    each of them is the row that won for its cid.
  */
  lemma SearchIsExact(
      ops: seq<Op>, query: string, matches: (string, string) -> bool, opts: SearchOptions, row: Interaction)
    requires History(ops)
    ensures row in Hits(After(ops), query, matches, opts) <==>
            && Winner(Arrivals(ops, row.cid)) == Some(row)
            && CurrentText(ops, row.cid).Some? && matches(CurrentText(ops, row.cid).value, query)
            && InWindow(row, CutOff(After(ops), opts))
  {
    RowsKeyed(ops);
    IndexAgrees(ops, row.cid);
    StoredIsWinner(ops, row.cid);
  }

  /** In particular no search, whatever its options, finds a deleted cid until it is added and indexed again. */
  lemma DeletedIsNotFound(
      ops: seq<Op>, cids: set<string>, query: string, matches: (string, string) -> bool, opts: SearchOptions, row: Interaction)
    requires History(ops) && row.cid in cids
    ensures row !in Hits(After(ops + [Delete(cids)]), query, matches, opts)
  {
    var all := ops + [Delete(cids)];
    assert all[..|ops|] == ops;
    SearchIsExact(all, query, matches, opts, row);
  }

  /** A stored row whose indexed text matches. */
  predicate Matched(t: Tables, query: string, matches: (string, string) -> bool, row: Interaction) {
    && row.cid in t.rows && t.rows[row.cid].inte == row
    && t.rows[row.cid].rowid in t.fts && matches(t.fts[t.rows[row.cid].rowid], query)
  }

  /** Without a reference a hit lies strictly inside the dates given, each of which counts when it is not 0. */
  lemma SearchBetweenDates(
      t: Tables, query: string, matches: (string, string) -> bool, before: int, after: int, n: int, asc: bool, row: Interaction)
    requires Keyed(t)
    ensures row in Hits(t, query, matches, SearchOptions(before, after, n, "", asc)) <==>
            && Matched(t, query, matches, row)
            && (after != 0 ==> row.sentDate > after) && (before != 0 ==> row.sentDate < before)
  {
  }

  /**
    With a date and a reference, a hit comes strictly after, or before, that date paired with that
    cid; the reference's own date plays no part then.
  */
  lemma SearchFromReference(
      t: Tables, query: string, matches: (string, string) -> bool, before: int, after: int, n: int, asc: bool,
      refCid: string, row: Interaction)
    requires Keyed(t) && refCid != "" && (before != 0 || after != 0)
    ensures row in Hits(t, query, matches, SearchOptions(before, after, n, refCid, asc)) <==>
            && Matched(t, query, matches, row)
            && (after != 0 ==> row.sentDate > after || (row.sentDate == after && CidLess(refCid, row.cid)))
            && (before != 0 ==> row.sentDate < before || (row.sentDate == before && CidLess(row.cid, refCid)))
  {
  }

  /** A reference alone stands for its own date: hits after it, in the chosen direction; unknown or dated 0, it is ignored. */
  lemma SearchAfterReference(
      t: Tables, query: string, matches: (string, string) -> bool, n: int, asc: bool, refCid: string, row: Interaction)
    requires Keyed(t) && refCid != ""
    ensures row in Hits(t, query, matches, SearchOptions(0, 0, n, refCid, asc)) <==>
            && Matched(t, query, matches, row)
            && (refCid in t.rows && t.rows[refCid].inte.sentDate != 0 ==>
                  var date := t.rows[refCid].inte.sentDate;
                  if asc then row.sentDate > date || (row.sentDate == date && CidLess(refCid, row.cid))
                  else row.sentDate < date || (row.sentDate == date && CidLess(row.cid, refCid)))
  {
  }

  /** No dates, and a reference to the last row seen, if any. */
  function Continue(asc: bool, refCid: string, n: nat): SearchOptions { SearchOptions(0, 0, n, refCid, asc) }

  lemma WindowAfter(t: Tables, last: Interaction, asc: bool, n: nat, row: Interaction)
    requires Keyed(t) && last.cid in t.rows && t.rows[last.cid].inte == last && last.sentDate != 0
    ensures InWindow(row, CutOff(t, Continue(asc, last.cid, n))) <==> Before(asc, last, row)
  {
  }

  /**
    Continuing a search after a hit: what is left is exactly the hits after it, in either
    direction, if and only if its date is not 0. A row dated 0 as reference starts the search over.
  */
  lemma SearchContinues(
      t: Tables, query: string, matches: (string, string) -> bool, asc: bool, n: nat, last: Interaction)
    requires Keyed(t) && last in Hits(t, query, matches, Continue(asc, "", n))
    ensures (forall row :: row in Hits(t, query, matches, Continue(asc, last.cid, n)) <==>
               row in Hits(t, query, matches, Continue(asc, "", n)) && Before(asc, last, row))
            <==> last.sentDate != 0
    ensures last.sentDate == 0 ==>
              Hits(t, query, matches, Continue(asc, last.cid, n)) == Hits(t, query, matches, Continue(asc, "", n))
  {
    var all := Hits(t, query, matches, Continue(asc, "", n));
    var rest := Hits(t, query, matches, Continue(asc, last.cid, n));
    if last.sentDate != 0 {
      forall row ensures row in rest <==> row in all && Before(asc, last, row) {
        WindowAfter(t, last, asc, n, row);
      }
    } else {
      assert all == rest;
      BeforeTotal(asc, last, last);
    }
  }

  // ---------------------------------------------------------------- a client that chains searches

  function Flat(pages: seq<seq<Interaction>>): seq<Interaction> {
    if pages == [] then [] else pages[0] + Flat(pages[1..])
  }

  /** The reference for the next search: the last cid got. */
  function NextRef(page: seq<Interaction>, refCid: string): string {
    if page == [] then refCid else page[|page| - 1].cid
  }

  /** `pages` are answers of InteractionsSearch, each continued after the last row before it. */
  ghost predicate Chained(
    t: Tables, query: string, matches: (string, string) -> bool, asc: bool, n: nat, refCid: string,
    pages: seq<seq<Interaction>>)
    decreases |pages|
  {
    pages == [] ||
    (IsFirstOf(pages[0], Hits(t, query, matches, Continue(asc, refCid, n)), asc, n)
     && Chained(t, query, matches, asc, n, NextRef(pages[0], refCid), pages[1..]))
  }

  /** `left` are the hits after the reference, if there is one. */
  ghost predicate LeftAfter(
    t: Tables, query: string, matches: (string, string) -> bool, asc: bool, n: nat, refCid: string, left: set<Interaction>)
  {
    && left == Hits(t, query, matches, Continue(asc, refCid, n))
    && left <= Hits(t, query, matches, Continue(asc, "", n))
    && (refCid != "" ==>
          exists last :: last in Hits(t, query, matches, Continue(asc, "", n)) && last.cid == refCid
            && forall row :: row in left <==> row in Hits(t, query, matches, Continue(asc, "", n)) && Before(asc, last, row))
  }

  /** What is left after a page: the hits that were left and are not on it. */
  lemma LeftAfterPage(
      t: Tables, query: string, matches: (string, string) -> bool, asc: bool, n: nat, refCid: string,
      page: seq<Interaction>)
    requires Keyed(t) && page != []
    requires forall row :: row in Hits(t, query, matches, Continue(asc, "", n)) ==> row.sentDate != 0
    requires LeftAfter(t, query, matches, asc, n, refCid, Hits(t, query, matches, Continue(asc, refCid, n)))
    requires IsFirstOf(page, Hits(t, query, matches, Continue(asc, refCid, n)), asc, n)
    ensures var left, rest := Hits(t, query, matches, Continue(asc, refCid, n)),
                              Hits(t, query, matches, Continue(asc, page[|page| - 1].cid, n));
            && LeftAfter(t, query, matches, asc, n, page[|page| - 1].cid, rest)
            && (forall row :: row in left <==> row in page || row in rest)
            && (forall row :: row in rest ==> Before(asc, page[|page| - 1], row))
            && |rest| < |left|
  {
    var all, left := Hits(t, query, matches, Continue(asc, "", n)), Hits(t, query, matches, Continue(asc, refCid, n));
    var last := page[|page| - 1];
    assert last in page && last in left && last in all;
    SearchContinues(t, query, matches, asc, n, last);
    var rest := Hits(t, query, matches, Continue(asc, last.cid, n));
    forall row | row in rest ensures row in left {
      if refCid != "" {
        var p :| p in all && p.cid == refCid && forall x :: x in left <==> x in all && Before(asc, p, x);
        BeforeTransitive(asc, p, last, row);
      }
    }
    forall row | row in left && row !in page ensures row in rest {}
    BeforeTotal(asc, last, last);
    SmallerWithout(rest, left, last);
  }

  lemma SmallerWithout(rest: set<Interaction>, left: set<Interaction>, x: Interaction)
    requires rest <= left && x in left && x !in rest
    ensures |rest| < |left|
  {
    var more := left - rest;
    assert x in more && left == rest + more;
  }

  /**
    The answers put together are in order, without repeats, and hold only rows that were left; after
    more calls than rows the last answer is empty, and once it is, every row has been listed.
  */
  ghost predicate ListsLeft(asc: bool, left: set<Interaction>, pages: seq<seq<Interaction>>)
    requires pages != []
  {
    && Sorted(asc, Flat(pages))
    && (forall row :: row in Flat(pages) ==> row in left)
    && (|pages| > |left| ==> pages[|pages| - 1] == [])
    && (pages[|pages| - 1] == [] ==> forall row :: row in left ==> row in Flat(pages))
  }

  lemma OnePageLists(asc: bool, left: set<Interaction>, page: seq<Interaction>)
    requires Sorted(asc, page) && (page == [] <==> left == {}) && forall row :: row in page ==> row in left
    ensures ListsLeft(asc, left, [page])
  {
    assert Flat([page]) == page + Flat([]);
  }

  lemma EmptyPageLists(asc: bool, rest: seq<seq<Interaction>>)
    requires rest != [] && ListsLeft(asc, {}, rest)
    ensures ListsLeft(asc, {}, [[]] + rest)
  {
    assert ([[]] + rest)[1..] == rest;
    assert Flat([[]] + rest) == [] + Flat(rest) == Flat(rest);
  }

  lemma PageLists(
      asc: bool, left: set<Interaction>, later: set<Interaction>, page: seq<Interaction>, rest: seq<seq<Interaction>>)
    requires rest != [] && ListsLeft(asc, later, rest) && page != [] && Sorted(asc, page) && |later| < |left|
    requires forall row :: row in left <==> row in page || row in later
    requires forall row :: row in later ==> Before(asc, page[|page| - 1], row)
    ensures ListsLeft(asc, left, [page] + rest)
  {
    assert ([page] + rest)[1..] == rest;
    assert Flat([page] + rest) == page + Flat(rest);
    SortedConcat(asc, page, Flat(rest), page[|page| - 1]);
  }

  /** Chained searches list everything, when no hit is dated 0. */
  lemma {:induction false} SearchChainIsComplete(
      t: Tables, query: string, matches: (string, string) -> bool, asc: bool, n: nat, refCid: string,
      pages: seq<seq<Interaction>>)
    requires Keyed(t) && n > 0 && Chained(t, query, matches, asc, n, refCid, pages) && pages != []
    requires forall row :: row in Hits(t, query, matches, Continue(asc, "", n)) ==> row.sentDate != 0
    requires LeftAfter(t, query, matches, asc, n, refCid, Hits(t, query, matches, Continue(asc, refCid, n)))
    ensures ListsLeft(asc, Hits(t, query, matches, Continue(asc, refCid, n)), pages)
    decreases |pages|
  {
    var left, page := Hits(t, query, matches, Continue(asc, refCid, n)), pages[0];
    assert page == [] <==> left == {};
    assert pages == [page] + pages[1..];
    if page != [] { LeftAfterPage(t, query, matches, asc, n, refCid, page); }
    if |pages| == 1 {
      assert pages == [page];
      OnePageLists(asc, left, page);
    } else {
      SearchChainIsComplete(t, query, matches, asc, n, NextRef(page, refCid), pages[1..]);
      if page == [] {
        EmptyPageLists(asc, pages[1..]);
      } else {
        PageLists(asc, left, Hits(t, query, matches, Continue(asc, NextRef(page, refCid), n)), page, pages[1..]);
      }
    }
  }

  /** From the first search on: all hits, in order, exactly once. */
  lemma SearchListsAll(
      t: Tables, query: string, matches: (string, string) -> bool, asc: bool, n: nat, pages: seq<seq<Interaction>>)
    requires Keyed(t) && n > 0 && Chained(t, query, matches, asc, n, "", pages) && pages != []
    requires forall row :: row in Hits(t, query, matches, Continue(asc, "", n)) ==> row.sentDate != 0
    ensures var hits := Hits(t, query, matches, Continue(asc, "", n));
            && (|pages| > |hits| ==> pages[|pages| - 1] == [])
            && (pages[|pages| - 1] == [] ==>
                  Sorted(asc, Flat(pages)) && forall row :: row in Flat(pages) <==> row in hits)
  {
    SearchChainIsComplete(t, query, matches, asc, n, "", pages);
  }
}
