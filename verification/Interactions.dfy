/**
  The interaction table, its full-text index, and the trigger that keeps the index in step.

  SQLite's choice of a rowid for a new row is a parameter: any positive id no other row has.
*/
module Interactions {
  import opened Results
  import opened Schema

  datatype StoreError = InvalidInput | SearchDisabled

  datatype Stored = Stored(rowid: nat, inte: Interaction)

  /** Both tables: rows by cid, indexed text by rowid. */
  datatype Tables = Tables(rows: map<string, Stored>, fts: map<nat, string>)

  predicate FreeRowid(t: Tables, cid: string, rowid: nat) {
    rowid > 0 && forall c :: c in t.rows && c != cid ==> t.rows[c].rowid != rowid
  }

  /** The rows go, and for each of them the trigger deletes the index entry at its rowid. */
  function Deleted(t: Tables, cids: set<string>): Tables {
    Tables(t.rows - cids, t.fts - set c | c in t.rows && c in cids :: t.rows[c].rowid)
  }

  function Created(t: Tables, inte: Interaction, rowid: nat): Tables {
    t.(rows := t.rows[inte.cid := Stored(rowid, inte)])
  }

  /** A synced copy replaces an out-of-store one; otherwise the first copy stays. */
  predicate IsNew(t: Tables, raw: Interaction) {
    raw.cid !in t.rows || (t.rows[raw.cid].inte.outOfStore && !raw.outOfStore)
  }

  function Added(t: Tables, raw: Interaction, rowid: nat): Tables {
    if raw.cid == "" || !IsNew(t, raw) then t else Created(Deleted(t, {raw.cid}), raw, rowid)
  }

  function Indexed(t: Tables, cid: string, text: string): Tables {
    if cid !in t.rows then t else t.(fts := t.fts[t.rows[cid].rowid := text])
  }

  /** The cids joined through the rowid with an index entry that matches. */
  function Found(t: Tables, query: string, matches: (string, string) -> bool): set<string> {
    set c | c in t.rows && t.rows[c].rowid in t.fts && matches(t.fts[t.rows[c].rowid], query)
  }

  // ---------------------------------------------------------------- search options

  datatype SearchOptions = SearchOptions(beforeDate: int, afterDate: int, limit: int, refCid: string, oldestToNewest: bool)

  /** Without dates, the date of the reference row is the cut-off; an unknown reference gives 0. */
  function CutOff(t: Tables, opts: SearchOptions): SearchOptions {
    if opts.afterDate != 0 || opts.beforeDate != 0 || opts.refCid == "" then opts
    else
      var date := if opts.refCid in t.rows then t.rows[opts.refCid].inte.sentDate else 0;
      if opts.oldestToNewest then opts.(afterDate := date) else opts.(beforeDate := date)
  }

  /** The date conditions; a date of 0 is no condition. */
  predicate InWindow(row: Interaction, opts: SearchOptions) {
    && (opts.afterDate != 0 ==>
          || row.sentDate > opts.afterDate
          || (opts.refCid != "" && row.sentDate == opts.afterDate && CidLess(opts.refCid, row.cid)))
    && (opts.beforeDate != 0 ==>
          || row.sentDate < opts.beforeDate
          || (opts.refCid != "" && row.sentDate == opts.beforeDate && CidLess(row.cid, opts.refCid)))
  }

  /** The rows a search is about, before it is cut to the limit. */
  function Hits(t: Tables, query: string, matches: (string, string) -> bool, opts: SearchOptions): set<Interaction> {
    set c | c in Found(t, query, matches) && InWindow(t.rows[c].inte, CutOff(t, opts)) :: t.rows[c].inte
  }

  /** `page` lists the first `n` of `hits` in order. */
  ghost predicate IsFirstOf(page: seq<Interaction>, hits: set<Interaction>, asc: bool, n: nat) {
    && Sorted(asc, page)
    && |page| == (if n < |hits| then n else |hits|)
    && (forall row :: row in page ==> row in hits)
    && (forall row, other :: row in page && other in hits && other !in page ==> Before(asc, row, other))
  }

  /** Each row is stored under its own cid, which is not empty. */
  ghost predicate Keyed(t: Tables) {
    forall c :: c in t.rows ==> c != "" && t.rows[c].inte.cid == c
  }

  lemma HitsDistinct(t: Tables, query: string, matches: (string, string) -> bool, opts: SearchOptions)
    requires Keyed(t)
    ensures var hits := Hits(t, query, matches, opts); forall x, y :: x in hits && y in hits && x.cid == y.cid ==> x == y
  {
    forall x, y | x in Hits(t, query, matches, opts) && y in Hits(t, query, matches, opts) && x.cid == y.cid
      ensures x == y
    {
      assert t.rows[x.cid].inte == x && t.rows[y.cid].inte == y;
    }
  }

  lemma LimitIsFirst(sorted: seq<Interaction>, hits: set<Interaction>, asc: bool, n: nat)
    requires Sorted(asc, sorted) && |sorted| == |hits| && forall row :: row in sorted <==> row in hits
    ensures IsFirstOf(Limit(sorted, n), hits, asc, n)
  {
    var page := Limit(sorted, n);
    assert forall k :: 0 <= k < |page| ==> page[k] == sorted[k] && page[k] in page;
    forall row, other | row in page && other in hits && other !in page ensures Before(asc, row, other) {
      var i :| 0 <= i < |page| && page[i] == row;
      var j :| 0 <= j < |sorted| && sorted[j] == other;
    }
  }

  class DBWrapper {
    var rows: map<string, Stored>
    var fts: map<nat, string>
    const disableFTS: bool

    ghost function View(): Tables
      reads this
    {
      Tables(rows, fts)
    }

    constructor (disableFTS: bool)
      ensures View() == Tables(map[], map[]) && this.disableFTS == disableFTS
    {
      this.disableFTS, rows, fts := disableFTS, map[], map[];
    }

    /** DELETE on the interaction table, with its trigger. */
    method DeleteRows(cids: set<string>)
      modifies this
      ensures View() == Deleted(old(View()), cids)
    {
      fts := fts - set c | c in rows && c in cids :: rows[c].rowid;
      rows := rows - cids;
    }

    method AddInteraction(raw: Interaction, rowid: nat) returns (r: Result<(Interaction, bool), StoreError>)
      requires FreeRowid(View(), raw.cid, rowid)
      modifies this
      ensures View() == Added(old(View()), raw, rowid)
      ensures raw.cid == "" <==> r == Err(InvalidInput)
      ensures raw.cid != "" ==>
                raw.cid in rows && r == Ok((rows[raw.cid].inte, IsNew(old(View()), raw)))
      ensures raw.cid != "" ==>
                if raw.cid !in old(rows) || (old(rows)[raw.cid].inte.outOfStore && !raw.outOfStore)
                then r == Ok((raw, true)) && rows[raw.cid] == Stored(rowid, raw)
                else r == Ok((old(rows)[raw.cid].inte, false)) && rows == old(rows) && fts == old(fts)
    {
      if raw.cid == "" { return Err(InvalidInput); }
      var isNew := false;
      var existing: Option<Interaction> := if raw.cid in rows then Some(rows[raw.cid].inte) else None;
      if existing.None? {
        rows := rows[raw.cid := Stored(rowid, raw)];
        isNew := true;
      }
      if !isNew && existing.Some? {
        if !existing.value.outOfStore && raw.outOfStore {
          return Ok((existing.value, false));
        } else if existing.value.outOfStore && !raw.outOfStore {
          DeleteRows({raw.cid});
          rows := rows[raw.cid := Stored(rowid, raw)];
          isNew := true;
        }
      }
      assert old(raw.cid !in rows) ==> Deleted(old(View()), {raw.cid}) == old(View()) by {
        assert old(raw.cid !in rows) ==> old(rows) - {raw.cid} == old(rows);
        assert old(raw.cid !in rows) ==> old(fts) - (set c | c in old(rows) && c in {raw.cid} :: old(rows)[c].rowid) == old(fts);
      }
      return Ok((rows[raw.cid].inte, isNew));
    }

    method DeleteInteractions(cids: seq<string>) returns (r: Result<(), StoreError>)
      modifies this
      ensures View() == Deleted(old(View()), set c | c in cids)
      ensures cids == [] <==> r == Err(InvalidInput)
    {
      if cids == [] {
        assert rows - (set c | c in cids) == rows;
        assert fts - (set c | c in rows && c in (set d | d in cids) :: rows[c].rowid) == fts;
        return Err(InvalidInput);
      }
      DeleteRows(set c | c in cids);
      return Ok(());
    }

    method InteractionIndexText(cid: string, text: string) returns (r: Result<(), StoreError>)
      modifies this
      ensures View() == if disableFTS then old(View()) else Indexed(old(View()), cid, text)
      ensures r == if disableFTS || cid in old(rows) then Ok(()) else Err(InvalidInput)
    {
      if disableFTS { return Ok(()); }
      if cid !in rows { return Err(InvalidInput); }
      fts := fts[rows[cid].rowid := text];
      return Ok(());
    }

    /** The rows carry their own cids, as RowsKeyed shows of every history. */
    method InteractionsSearch(query: string, matches: (string, string) -> bool, options: Option<SearchOptions>)
      returns (r: Result<seq<Interaction>, StoreError>)
      requires Keyed(View())
      ensures r.Err? <==> disableFTS || query == ""
      ensures r.Ok? ==>
                var opts := if options.Some? then options.value else SearchOptions(0, 0, 0, "", false);
                IsFirstOf(r.value, Hits(View(), query, matches, opts), opts.oldestToNewest,
                  if opts.limit <= 0 then 10 else opts.limit)
    {
      if disableFTS { return Err(SearchDisabled); }
      if query == "" { return Err(InvalidInput); }
      var opts := if options.Some? then options.value else SearchOptions(0, 0, 0, "", false);
      var limit := if opts.limit <= 0 then 10 else opts.limit;
      var asc, hits := opts.oldestToNewest, Hits(Tables(rows, fts), query, matches, opts);
      HitsDistinct(Tables(rows, fts), query, matches, opts);
      var todo, sorted: seq<Interaction> := hits, [];
      while todo != {}
        invariant todo <= hits && Sorted(asc, sorted) && |sorted| == |hits| - |todo|
        invariant forall row :: row in sorted <==> row in hits && row !in todo
        decreases todo
      {
        var row :| row in todo;
        InsertSorts(asc, sorted, row);
        InsertLength(asc, sorted, row);
        sorted, todo := Insert(asc, sorted, row), todo - {row};
      }
      LimitIsFirst(sorted, hits, asc, limit);
      return Ok(Limit(sorted, limit));
    }
  }
}
