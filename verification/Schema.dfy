/** The interaction table's rows and the order its queries use. */
module Schema {
  datatype Interaction = Interaction(
    cid: string,
    conversationPk: string,
    sentDate: int,
    outOfStore: bool,
    payload: string)

  /** SQLite's binary order on text. */
  predicate CidLess(a: string, b: string) {
    b != "" && (a == "" || a[0] < b[0] || (a[0] == b[0] && CidLess(a[1..], b[1..])))
  }

  predicate Older(a: Interaction, b: Interaction) {
    a.sentDate < b.sentDate || (a.sentDate == b.sentDate && CidLess(a.cid, b.cid))
  }

  /** `order by sent_date, cid`, or both descending. */
  predicate Before(oldestToNewest: bool, a: Interaction, b: Interaction) {
    if oldestToNewest then Older(a, b) else Older(b, a)
  }

  lemma {:induction false} CidTotal(a: string, b: string)
    ensures a != b ==> CidLess(a, b) || CidLess(b, a)
    ensures !(CidLess(a, b) && CidLess(b, a))
  {
    if a != "" && b != "" && a[0] == b[0] {
      CidTotal(a[1..], b[1..]);
      assert a == [a[0]] + a[1..] && b == [b[0]] + b[1..];
    }
  }

  lemma {:induction false} CidTransitive(a: string, b: string, c: string)
    requires CidLess(a, b) && CidLess(b, c)
    ensures CidLess(a, c)
  {
    if a != "" && a[0] == b[0] == c[0] { CidTransitive(a[1..], b[1..], c[1..]); }
  }

  /** Binary order: at the first difference the smaller character comes first, and a prefix before what extends it. */
  lemma {:induction false} CidLessMeans(a: string, b: string)
    ensures CidLess(a, b) <==>
            exists k: nat :: k <= |a| && k < |b| && a[..k] == b[..k] && (k == |a| || a[k] < b[k])
  {
    if b != "" && a != "" && a[0] == b[0] {
      CidLessMeans(a[1..], b[1..]);
      if k: nat :| k <= |a[1..]| && k < |b[1..]| && a[1..][..k] == b[1..][..k] && (k == |a[1..]| || a[1..][k] < b[1..][k]) {
        assert a[..k + 1] == [a[0]] + a[1..][..k] && b[..k + 1] == [b[0]] + b[1..][..k];
      }
      if k: nat :| k <= |a| && k < |b| && a[..k] == b[..k] && (k == |a| || a[k] < b[k]) {
        assert k > 0;
        assert a[1..][..k - 1] == a[..k][1..] && b[1..][..k - 1] == b[..k][1..];
      }
    } else if b != "" {
      assert a[..0] == b[..0];
      if k: nat :| k <= |a| && k < |b| && a[..k] == b[..k] && (k == |a| || a[k] < b[k]) {
        assert k > 0 ==> a[..k][0] == b[..k][0];
      }
    }
  }

  /** The date decides first, then the cid; newest first is the reverse. */
  lemma BeforeMeans(a: Interaction, b: Interaction)
    ensures a.sentDate < b.sentDate ==> Before(true, a, b) && Before(false, b, a)
    ensures a.sentDate == b.sentDate ==> (Before(true, a, b) <==> CidLess(a.cid, b.cid))
    ensures Before(true, a, b) <==> Before(false, b, a)
    ensures !(Before(true, a, b) && Before(true, b, a))
  {
    BeforeTotal(true, a, b);
  }

  lemma BeforeTotal(asc: bool, a: Interaction, b: Interaction)
    ensures a.cid != b.cid ==> Before(asc, a, b) || Before(asc, b, a)
    ensures !(Before(asc, a, b) && Before(asc, b, a))
  {
    CidTotal(a.cid, b.cid);
  }

  lemma BeforeTransitive(asc: bool, a: Interaction, b: Interaction, c: Interaction)
    requires Before(asc, a, b) && Before(asc, b, c)
    ensures Before(asc, a, c)
  {
    if CidLess(a.cid, b.cid) && CidLess(b.cid, c.cid) { CidTransitive(a.cid, b.cid, c.cid); }
    if CidLess(c.cid, b.cid) && CidLess(b.cid, a.cid) { CidTransitive(c.cid, b.cid, a.cid); }
  }

  // ---------------------------------------------------------------- ordered results

  ghost predicate Sorted(asc: bool, rows: seq<Interaction>) {
    forall i, j :: 0 <= i < j < |rows| ==> Before(asc, rows[i], rows[j])
  }

  ghost predicate DistinctCids(rows: seq<Interaction>) {
    forall i, j :: 0 <= i < j < |rows| ==> rows[i].cid != rows[j].cid
  }

  function Insert(asc: bool, rows: seq<Interaction>, row: Interaction): seq<Interaction> {
    if rows == [] || Before(asc, row, rows[0]) then [row] + rows
    else [rows[0]] + Insert(asc, rows[1..], row)
  }

  function OrderBy(asc: bool, rows: seq<Interaction>): seq<Interaction> {
    if rows == [] then [] else Insert(asc, OrderBy(asc, rows[1..]), rows[0])
  }

  /** LIMIT. */
  function Limit(rows: seq<Interaction>, n: nat): seq<Interaction> {
    if n < |rows| then rows[..n] else rows
  }

  lemma {:induction false} InsertLength(asc: bool, rows: seq<Interaction>, row: Interaction)
    ensures |Insert(asc, rows, row)| == |rows| + 1
  {
    if rows != [] { InsertLength(asc, rows[1..], row); }
  }

  lemma {:induction false} InsertSorts(asc: bool, rows: seq<Interaction>, row: Interaction)
    requires Sorted(asc, rows) && forall r :: r in rows ==> r.cid != row.cid
    ensures Sorted(asc, Insert(asc, rows, row))
    ensures forall r :: r in Insert(asc, rows, row) <==> r == row || r in rows
  {
    if rows != [] {
      BeforeTotal(asc, row, rows[0]);
      if Before(asc, row, rows[0]) {
        forall i | 0 < i < |rows| ensures Before(asc, row, rows[i]) { BeforeTransitive(asc, row, rows[0], rows[i]); }
      } else {
        InsertSorts(asc, rows[1..], row);
        assert rows[0] in rows && forall r :: r in rows <==> r == rows[0] || r in rows[1..];
        var rest := Insert(asc, rows[1..], row);
        forall i | 0 <= i < |rest| ensures Before(asc, rows[0], rest[i]) { assert rest[i] in rest; }
      }
    }
  }

  lemma {:induction false} OrderBySorts(asc: bool, rows: seq<Interaction>)
    requires DistinctCids(rows)
    ensures Sorted(asc, OrderBy(asc, rows))
    ensures forall r :: r in OrderBy(asc, rows) <==> r in rows
  {
    if rows != [] {
      OrderBySorts(asc, rows[1..]);
      InsertSorts(asc, OrderBy(asc, rows[1..]), rows[0]);
    }
  }

  lemma SortedConcat(asc: bool, a: seq<Interaction>, b: seq<Interaction>, last: Interaction)
    requires Sorted(asc, a) && Sorted(asc, b)
    requires forall row :: row in a ==> row == last || Before(asc, row, last)
    requires forall row :: row in b ==> Before(asc, last, row)
    ensures Sorted(asc, a + b)
  {
    forall i, j | 0 <= i < |a| && 0 <= j < |b| ensures Before(asc, a[i], b[j]) {
      assert a[i] in a && b[j] in b;
      if a[i] != last { BeforeTransitive(asc, a[i], last, b[j]); }
    }
  }

  /** An ordered result is determined by its rows. */
  lemma {:induction false} SortedUnique(asc: bool, a: seq<Interaction>, b: seq<Interaction>)
    requires Sorted(asc, a) && Sorted(asc, b) && forall r :: r in a <==> r in b
    ensures a == b
  {
    assert a != [] ==> a[0] in b;
    assert b != [] ==> b[0] in a;
    if a != [] {
      var i :| 0 <= i < |b| && b[i] == a[0];
      var j :| 0 <= j < |a| && a[j] == b[0];
      BeforeTotal(asc, a[0], b[0]);
      assert a[0] == b[0];
      forall r ensures r in a[1..] <==> r in b[1..] {
        BeforeTotal(asc, a[0], a[0]);
        if r in a[1..] { var k :| 0 < k < |a| && a[k] == r; assert r in b; }
        if r in b[1..] { var k :| 0 < k < |b| && b[k] == r; assert r in a; }
      }
      SortedUnique(asc, a[1..], b[1..]);
    }
  }
}
