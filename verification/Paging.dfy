/** `GetPaginatedInteractions`: pages of a conversation, chained by the cid of the last row seen. */
module Paging {
  import opened Results
  import opened Schema

  datatype DbError = DbRead | InvalidInput

  datatype Options = Options(amount: int, refCid: string, conversationPk: string, oldestToNewest: bool)

  /**
    The rows of a conversation after the cursor. A struct condition with an empty key is no
    condition: it selects every conversation.
  */
  predicate Wanted(row: Interaction, pk: string, asc: bool, cursor: Option<Interaction>) {
    && (pk == "" || row.conversationPk == pk)
    && (cursor.Some? ==> Before(asc, cursor.value, row))
  }

  function Select(table: seq<Interaction>, pk: string, asc: bool, cursor: Option<Interaction>): (r: seq<Interaction>)
    ensures forall row :: row in r <==> row in table && Wanted(row, pk, asc, cursor)
  {
    if table == [] then []
    else if Wanted(table[0], pk, asc, cursor) then [table[0]] + Select(table[1..], pk, asc, cursor)
    else Select(table[1..], pk, asc, cursor)
  }

  function Page(table: seq<Interaction>, pk: string, asc: bool, cursor: Option<Interaction>, n: nat): seq<Interaction> {
    Limit(OrderBy(asc, Select(table, pk, asc, cursor)), n)
  }

  function Lookup(table: seq<Interaction>, cid: string): (r: Option<Interaction>)
    ensures r.Some? ==> r.value in table && r.value.cid == cid
    ensures r.None? ==> forall row :: row in table ==> row.cid != cid
  {
    if table == [] then None else if table[0].cid == cid then Some(table[0]) else Lookup(table[1..], cid)
  }

  function ByCid(table: seq<Interaction>, cids: set<string>): (r: seq<Interaction>)
    ensures forall row :: row in r <==> row in table && row.cid in cids
  {
    if table == [] then []
    else if table[0].cid in cids then [table[0]] + ByCid(table[1..], cids)
    else ByCid(table[1..], cids)
  }

  function Amount(opts: Options): nat { if opts.amount <= 0 then 5 else opts.amount }

  function Cursor(table: seq<Interaction>, opts: Options): Option<Interaction> {
    if opts.refCid == "" then None else Lookup(table, opts.refCid)
  }

  /** A cursor that is unknown, or of another conversation than the one asked for. */
  predicate Refused(table: seq<Interaction>, opts: Options) {
    && opts.refCid != ""
    && var cursor := Cursor(table, opts);
       cursor.None? || (opts.conversationPk != "" && cursor.value.conversationPk != opts.conversationPk)
  }

  lemma RefusedMeans(table: seq<Interaction>, opts: Options)
    requires DistinctCids(table)
    ensures !Refused(table, opts) <==>
            opts.refCid == "" ||
            exists ref :: ref in table && ref.cid == opts.refCid
              && (opts.conversationPk == "" || ref.conversationPk == opts.conversationPk)
  {
    if ref :| opts.refCid != "" && ref in table && ref.cid == opts.refCid { LookupFinds(table, ref); }
  }

  lemma LookupFinds(table: seq<Interaction>, row: Interaction)
    requires DistinctCids(table) && row in table
    ensures Lookup(table, row.cid) == Some(row)
  {
    var i :| 0 <= i < |table| && table[i] == row;
    var found := Lookup(table, row.cid);
    var j :| 0 <= j < |table| && table[j] == found.value;
  }

  /** The conversations whose pages are fetched. */
  function Listed(table: seq<Interaction>, conversations: seq<string>, opts: Options): seq<string> {
    var cursor := Cursor(table, opts);
    if cursor.Some? then [cursor.value.conversationPk]
    else if opts.conversationPk != "" then [opts.conversationPk]
    else conversations
  }

  function PageFor(table: seq<Interaction>, pk: string, opts: Options): seq<Interaction> {
    Page(table, pk, opts.oldestToNewest, Cursor(table, opts), Amount(opts))
  }

  function Cids(page: seq<Interaction>): set<string> { set row | row in page :: row.cid }

  ghost predicate InSomePage(table: seq<Interaction>, pks: seq<string>, opts: Options, row: Interaction) {
    exists i :: 0 <= i < |pks| && row in PageFor(table, pks[i], opts)
  }

  lemma {:induction false} SelectDistinct(table: seq<Interaction>, pk: string, asc: bool, cursor: Option<Interaction>)
    requires DistinctCids(table)
    ensures DistinctCids(Select(table, pk, asc, cursor))
  {
    if table != [] {
      var rest := Select(table[1..], pk, asc, cursor);
      SelectDistinct(table[1..], pk, asc, cursor);
      forall i | 0 <= i < |rest| ensures rest[i].cid != table[0].cid { assert rest[i] in rest; }
    }
  }

  lemma {:induction false} ByCidDistinct(table: seq<Interaction>, cids: set<string>)
    requires DistinctCids(table)
    ensures DistinctCids(ByCid(table, cids))
  {
    if table != [] {
      var rest := ByCid(table[1..], cids);
      ByCidDistinct(table[1..], cids);
      forall i | 0 <= i < |rest| ensures rest[i].cid != table[0].cid { assert rest[i] in rest; }
    }
  }

  lemma PageSorted(table: seq<Interaction>, pk: string, asc: bool, cursor: Option<Interaction>, n: nat)
    requires DistinctCids(table)
    ensures Sorted(asc, Page(table, pk, asc, cursor, n))
    ensures forall row :: row in Page(table, pk, asc, cursor, n) ==> row in table && Wanted(row, pk, asc, cursor)
  {
    SelectDistinct(table, pk, asc, cursor);
    OrderBySorts(asc, Select(table, pk, asc, cursor));
  }

  /** The rows whose cids were collected are those in the pages so far. */
  ghost predicate Collected(table: seq<Interaction>, pks: seq<string>, opts: Options, cids: set<string>) {
    forall row :: InSomePage(table, pks, opts, row) <==> row in table && row.cid in cids
  }

  lemma CollectPage(table: seq<Interaction>, pks: seq<string>, pk: string, opts: Options, cids: set<string>)
    requires DistinctCids(table) && Collected(table, pks, opts, cids)
    ensures Collected(table, pks + [pk], opts, cids + Cids(PageFor(table, pk, opts)))
  {
    var page, all := PageFor(table, pk, opts), pks + [pk];
    PageSorted(table, pk, opts.oldestToNewest, Cursor(table, opts), Amount(opts));
    forall row ensures InSomePage(table, all, opts, row) <==> row in table && row.cid in cids + Cids(page) {
      if InSomePage(table, pks, opts, row) {
        var i :| 0 <= i < |pks| && row in PageFor(table, pks[i], opts);
        assert all[i] == pks[i];
      }
      if row in page { assert all[|pks|] == pk; }
      if row in table && row.cid !in cids && row.cid in Cids(page) {
        var r :| r in page && r.cid == row.cid;
        assert r == row;
      }
    }
  }

  /** The cids of the pages of all listed conversations. */
  function AllCids(table: seq<Interaction>, pks: seq<string>, opts: Options): set<string> {
    if pks == [] then {}
    else AllCids(table, pks[..|pks| - 1], opts) + Cids(PageFor(table, pks[|pks| - 1], opts))
  }

  lemma {:induction false} AllCidsCollected(table: seq<Interaction>, pks: seq<string>, opts: Options)
    requires DistinctCids(table)
    ensures Collected(table, pks, opts, AllCids(table, pks, opts))
  {
    if pks != [] {
      var init, pk := pks[..|pks| - 1], pks[|pks| - 1];
      assert pks == init + [pk];
      AllCidsCollected(table, init, opts);
      CollectPage(table, init, pk, opts, AllCids(table, init, opts));
    }
  }

  lemma Fetched(table: seq<Interaction>, asc: bool, cids: set<string>)
    requires DistinctCids(table)
    ensures Sorted(asc, OrderBy(asc, ByCid(table, cids)))
    ensures forall row :: row in OrderBy(asc, ByCid(table, cids)) <==> row in table && row.cid in cids
  {
    ByCidDistinct(table, cids);
    OrderBySorts(asc, ByCid(table, cids));
  }

  method GetPaginatedInteractions(table: seq<Interaction>, conversations: seq<string>, opts: Options)
    returns (r: Result<seq<Interaction>, DbError>)
    requires DistinctCids(table)
    ensures r.Ok? <==>
            opts.refCid == "" ||
            exists ref :: ref in table && ref.cid == opts.refCid
              && (opts.conversationPk == "" || ref.conversationPk == opts.conversationPk)
    ensures r.Err? ==> (r.error == DbRead <==> forall row :: row in table ==> row.cid != opts.refCid)
    ensures r.Err? ==> r.error == DbRead || r.error == InvalidInput
    ensures r.Err? <==> Refused(table, opts)
    ensures r.Ok? ==> Sorted(opts.oldestToNewest, r.value)
                      && forall row :: row in r.value <==> InSomePage(table, Listed(table, conversations, opts), opts, row)
  {
    RefusedMeans(table, opts);
    var amount := if opts.amount <= 0 then 5 else opts.amount;
    var pks := if opts.conversationPk != "" then [opts.conversationPk] else conversations;
    var previous: Option<Interaction> := None;
    if opts.refCid != "" {
      previous := Lookup(table, opts.refCid);
      if previous.None? { return Err(DbRead); }
      if opts.conversationPk != "" && previous.value.conversationPk != opts.conversationPk {
        return Err(InvalidInput);
      }
      pks := [previous.value.conversationPk];
    }

    var cids: set<string>, i := {}, 0;
    while i < |pks|
      invariant 0 <= i <= |pks| && cids == AllCids(table, pks[..i], opts)
    {
      var page := Page(table, pks[i], opts.oldestToNewest, previous, amount);
      cids := cids + Cids(page);
      assert pks[..i + 1][..i] == pks[..i] && page == PageFor(table, pks[i], opts);
      i := i + 1;
    }
    assert pks[..i] == Listed(table, conversations, opts);
    AllCidsCollected(table, pks, opts);
    Fetched(table, opts.oldestToNewest, cids);
    return Ok(OrderBy(opts.oldestToNewest, ByCid(table, cids)));
  }
}
