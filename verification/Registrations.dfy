/** Verified credentials, in a table without a key. */
module Registrations {
  import opened Results

  const FACTOR := 1000000 // MilliToNanoFactor

  /** Go's integer division truncates toward zero. */
  function Scaled(date: int): int { if date >= 0 then date / FACTOR else -(-date / FACTOR) }

  datatype SaveError = InvalidInput(field: string) | AccountNotFound | AlreadyExists | WriteFailed

  datatype Submission = Submission(identifier: string, issuer: string, registration: int, expiration: int)

  datatype Credential = Credential(
    accountPk: string, identifier: string, registration: int, expiration: int, issuer: string)

  predicate Matches(c: Credential, identifier: string, issuer: string) {
    c.identifier == identifier && c.issuer == issuer
  }

  predicate Valid(ev: Submission) {
    && FACTOR < ev.expiration
    && FACTOR < ev.registration <= ev.expiration
    && ev.identifier != "" && ev.issuer != ""
  }

  function RowOf(accountPk: string, ev: Submission): Credential {
    Credential(accountPk, ev.identifier, Scaled(ev.registration), Scaled(ev.expiration), ev.issuer)
  }

  /** DELETE ... WHERE identifier == ? AND issuer == ? AND expiration_date < ? */
  function WithoutOlder(table: seq<Credential>, ev: Submission): seq<Credential> {
    if table == [] then []
    else
      var rest := WithoutOlder(table[1..], ev);
      if Matches(table[0], ev.identifier, ev.issuer) && table[0].expiration < Scaled(ev.expiration) then rest
      else [table[0]] + rest
  }

  predicate AtLeastAsRecent(table: seq<Credential>, ev: Submission) {
    exists i :: 0 <= i < |table| &&
      Matches(table[i], ev.identifier, ev.issuer) && table[i].expiration >= Scaled(ev.expiration)
  }

  predicate Older(table: seq<Credential>, ev: Submission) {
    exists i :: 0 <= i < |table| &&
      Matches(table[i], ev.identifier, ev.issuer) && table[i].expiration < Scaled(ev.expiration)
  }

  function SavedCredential(table: seq<Credential>, accounts: seq<string>, ev: Submission): seq<Credential> {
    if !Valid(ev) || |accounts| != 1 || AtLeastAsRecent(table, ev) then table
    else WithoutOlder(table, ev) + [RowOf(accounts[0], ev)]
  }

  lemma {:induction false} NothingOlder(table: seq<Credential>, ev: Submission)
    requires !Older(table, ev)
    ensures WithoutOlder(table, ev) == table
  {
    if table != [] {
      assert !Older(table[1..], ev) by {
        forall i | 0 <= i < |table[1..]| ensures table[1..][i] == table[i + 1] {}
      }
      NothingOlder(table[1..], ev);
    }
  }

  class CredentialTable {
    var accounts: seq<string>
    var table: seq<Credential>

    method SaveAccountVerifiedCredential(ev: Submission) returns (r: Result<(), SaveError>)
      modifies this`table
      ensures table == SavedCredential(old(table), accounts, ev)
      ensures r.Ok? <==>
              && |accounts| == 1 && ev.identifier != "" && ev.issuer != ""
              && 1000000 < ev.registration <= ev.expiration
      ensures r.Err? ==> table == old(table)
    {
      if ev.expiration <= FACTOR { return Err(InvalidInput("expiration date")); }
      if ev.registration <= FACTOR || ev.registration > ev.expiration { return Err(InvalidInput("registration date")); }
      if ev.identifier == "" { return Err(InvalidInput("identifier")); }
      if ev.issuer == "" { return Err(InvalidInput("issuer")); }
      if |accounts| != 1 { return Err(AccountNotFound); }

      var elt := RowOf(accounts[0], ev);
      if AtLeastAsRecent(table, ev) { return Ok(()); }
      if Older(table, ev) {
        table := WithoutOlder(table, ev);
      } else {
        NothingOlder(table, ev);
      }
      table := table + [elt];
      return Ok(());
    }
  }

  /** One call: the accounts in the database at that time, and the event. */
  datatype Call = Call(accounts: seq<string>, ev: Submission) {
    predicate Counts(identifier: string, issuer: string) {
      Valid(ev) && |accounts| == 1 && ev.identifier == identifier && ev.issuer == issuer
    }
  }

  function CredentialsAfter(calls: seq<Call>): seq<Credential> {
    if calls == [] then []
    else
      var call := calls[|calls| - 1];
      SavedCredential(CredentialsAfter(calls[..|calls| - 1]), call.accounts, call.ev)
  }

  function ForKey(table: seq<Credential>, identifier: string, issuer: string): seq<Credential> {
    if table == [] then []
    else (if Matches(table[0], identifier, issuer) then [table[0]] else []) + ForKey(table[1..], identifier, issuer)
  }

  /** The first valid submission whose scaled expiration no other valid submission exceeds. */
  ghost predicate IsBest(calls: seq<Call>, identifier: string, issuer: string, b: nat) {
    && b < |calls| && calls[b].Counts(identifier, issuer)
    && forall i :: 0 <= i < |calls| && calls[i].Counts(identifier, issuer) ==>
         && Scaled(calls[i].ev.expiration) <= Scaled(calls[b].ev.expiration)
         && (i < b ==> Scaled(calls[i].ev.expiration) < Scaled(calls[b].ev.expiration))
  }

  ghost predicate IsBestRow(calls: seq<Call>, identifier: string, issuer: string, row: Credential) {
    exists b: nat :: IsBest(calls, identifier, issuer, b) && row == RowOf(calls[b].accounts[0], calls[b].ev)
  }

  lemma {:induction false} ForKeyAppend(a: seq<Credential>, b: seq<Credential>, identifier: string, issuer: string)
    ensures ForKey(a + b, identifier, issuer) == ForKey(a, identifier, issuer) + ForKey(b, identifier, issuer)
  {
    if a == [] {
      assert a + b == b;
    } else {
      assert (a + b)[1..] == a[1..] + b;
      ForKeyAppend(a[1..], b, identifier, issuer);
    }
  }

  lemma {:induction false} OlderGone(table: seq<Credential>, ev: Submission, identifier: string, issuer: string)
    ensures ForKey(WithoutOlder(table, ev), identifier, issuer) ==
            if identifier == ev.identifier && issuer == ev.issuer
            then WithoutOlder(ForKey(table, identifier, issuer), ev)
            else ForKey(table, identifier, issuer)
  {
    if table != [] {
      OlderGone(table[1..], ev, identifier, issuer);
      var head, rest := [table[0]], WithoutOlder(table[1..], ev);
      ForKeyAppend(head, rest, identifier, issuer);
      assert ([table[0]] + ForKey(table[1..], identifier, issuer))[1..] == ForKey(table[1..], identifier, issuer);
      assert [] + ForKey(table[1..], identifier, issuer) == ForKey(table[1..], identifier, issuer);
    }
  }

  lemma {:induction false} RecentByKey(table: seq<Credential>, ev: Submission)
    ensures AtLeastAsRecent(table, ev) <==> AtLeastAsRecent(ForKey(table, ev.identifier, ev.issuer), ev)
  {
    if table != [] {
      RecentByKey(table[1..], ev);
      var rows, rest := ForKey(table, ev.identifier, ev.issuer), ForKey(table[1..], ev.identifier, ev.issuer);
      if AtLeastAsRecent(table[1..], ev) {
        var i :| 0 <= i < |rest| && Matches(rest[i], ev.identifier, ev.issuer) && rest[i].expiration >= Scaled(ev.expiration);
        assert rows[i + |rows| - |rest|] == rest[i];
        var j :| 0 <= j < |table[1..]| && Matches(table[1..][j], ev.identifier, ev.issuer)
                 && table[1..][j].expiration >= Scaled(ev.expiration);
        assert table[j + 1] == table[1..][j];
      }
      if i :| 0 <= i < |table| && Matches(table[i], ev.identifier, ev.issuer) && table[i].expiration >= Scaled(ev.expiration) {
        if i == 0 { assert rows[0] == table[0]; } else { assert table[1..][i - 1] == table[i]; }
      }
      if i :| 0 <= i < |rows| && Matches(rows[i], ev.identifier, ev.issuer) && rows[i].expiration >= Scaled(ev.expiration) {
        if |rows| == |rest| { assert rest == rows; } else if i > 0 { assert rest[i - 1] == rows[i]; }
      }
    }
  }

  ghost predicate Submitted(calls: seq<Call>, identifier: string, issuer: string) {
    exists i :: 0 <= i < |calls| && calls[i].Counts(identifier, issuer)
  }

  /** The rows of one key are none before a valid submission, and then the best submission's. */
  ghost predicate KeyHolds(calls: seq<Call>, identifier: string, issuer: string) {
    var rows := ForKey(CredentialsAfter(calls), identifier, issuer);
    if Submitted(calls, identifier, issuer) then |rows| == 1 && IsBestRow(calls, identifier, issuer, rows[0])
    else rows == []
  }

  /** What one more call does to the rows of one key. */
  lemma RowsStep(calls: seq<Call>, call: Call, identifier: string, issuer: string)
    ensures ForKey(CredentialsAfter(calls + [call]), identifier, issuer) ==
            var rows := ForKey(CredentialsAfter(calls), identifier, issuer);
            if !call.Counts(identifier, issuer) || AtLeastAsRecent(rows, call.ev) then rows
            else WithoutOlder(rows, call.ev) + [RowOf(call.accounts[0], call.ev)]
  {
    assert (calls + [call])[..|calls|] == calls;
    SaveByKey(CredentialsAfter(calls), call, identifier, issuer);
  }

  lemma SaveByKey(table: seq<Credential>, call: Call, identifier: string, issuer: string)
    ensures ForKey(SavedCredential(table, call.accounts, call.ev), identifier, issuer) ==
            var rows := ForKey(table, identifier, issuer);
            if !call.Counts(identifier, issuer) || AtLeastAsRecent(rows, call.ev) then rows
            else WithoutOlder(rows, call.ev) + [RowOf(call.accounts[0], call.ev)]
  {
    RecentByKey(table, call.ev);
    OlderGone(table, call.ev, identifier, issuer);
    if |call.accounts| == 1 {
      var row := RowOf(call.accounts[0], call.ev);
      ForKeyAppend(WithoutOlder(table, call.ev), [row], identifier, issuer);
      assert ForKey([row], identifier, issuer) == if Matches(row, identifier, issuer) then [row] else [];
    }
  }

  lemma SameBest(calls: seq<Call>, call: Call, identifier: string, issuer: string, b: nat)
    requires IsBest(calls, identifier, issuer, b)
    requires call.Counts(identifier, issuer) ==> Scaled(call.ev.expiration) <= Scaled(calls[b].ev.expiration)
    ensures IsBest(calls + [call], identifier, issuer, b)
  {
  }

  lemma NewBest(calls: seq<Call>, call: Call, identifier: string, issuer: string, b: nat)
    requires IsBest(calls, identifier, issuer, b) && call.Counts(identifier, issuer)
    requires Scaled(call.ev.expiration) > Scaled(calls[b].ev.expiration)
    ensures IsBest(calls + [call], identifier, issuer, |calls|)
  {
  }

  lemma SubmittedLater(calls: seq<Call>, call: Call, identifier: string, issuer: string)
    ensures Submitted(calls + [call], identifier, issuer) <==>
            Submitted(calls, identifier, issuer) || call.Counts(identifier, issuer)
  {
    var all := calls + [call];
    assert all[|calls|] == call && forall i :: 0 <= i < |calls| ==> all[i] == calls[i];
    if Submitted(calls, identifier, issuer) {
      var i :| 0 <= i < |calls| && calls[i].Counts(identifier, issuer);
      assert all[i].Counts(identifier, issuer);
    }
  }

  /** The best row after one more call, when there was one before. */
  lemma BestStep(calls: seq<Call>, call: Call, identifier: string, issuer: string, row: Credential)
    requires IsBestRow(calls, identifier, issuer, row)
    ensures IsBestRow(calls + [call], identifier, issuer,
              if call.Counts(identifier, issuer) && row.expiration < Scaled(call.ev.expiration)
              then RowOf(call.accounts[0], call.ev) else row)
  {
    var b: nat :| IsBest(calls, identifier, issuer, b) && row == RowOf(calls[b].accounts[0], calls[b].ev);
    if call.Counts(identifier, issuer) && row.expiration < Scaled(call.ev.expiration) {
      NewBest(calls, call, identifier, issuer, b);
    } else {
      SameBest(calls, call, identifier, issuer, b);
      assert (calls + [call])[b] == calls[b];
    }
  }

  lemma FirstBest(calls: seq<Call>, call: Call, identifier: string, issuer: string)
    requires !Submitted(calls, identifier, issuer) && call.Counts(identifier, issuer)
    ensures IsBestRow(calls + [call], identifier, issuer, RowOf(call.accounts[0], call.ev))
  {
    assert IsBest(calls + [call], identifier, issuer, |calls|);
  }

  lemma KeyStep(calls: seq<Call>, call: Call, identifier: string, issuer: string)
    requires KeyHolds(calls, identifier, issuer)
    ensures KeyHolds(calls + [call], identifier, issuer)
  {
    var rows := ForKey(CredentialsAfter(calls), identifier, issuer);
    RowsStep(calls, call, identifier, issuer);
    SubmittedLater(calls, call, identifier, issuer);
    if Submitted(calls, identifier, issuer) {
      BestStep(calls, call, identifier, issuer, rows[0]);
      BestMatches(calls, identifier, issuer, rows[0]);
      assert rows == [rows[0]];
    } else if call.Counts(identifier, issuer) {
      FirstBest(calls, call, identifier, issuer);
    }
  }

  lemma BestMatches(calls: seq<Call>, identifier: string, issuer: string, row: Credential)
    requires IsBestRow(calls, identifier, issuer, row)
    ensures Matches(row, identifier, issuer) && 1 <= row.registration <= row.expiration
  {
  }

  /**
    After any calls there is at most one row per identifier and issuer, and it is the one made
    from the first valid submission that reached the greatest scaled expiration.
  */
  lemma {:induction false} OneCredentialPerKey(calls: seq<Call>, identifier: string, issuer: string)
    ensures KeyHolds(calls, identifier, issuer)
  {
    if calls != [] {
      OneCredentialPerKey(calls[..|calls| - 1], identifier, issuer);
      KeyStep(calls[..|calls| - 1], calls[|calls| - 1], identifier, issuer);
      assert calls == calls[..|calls| - 1] + [calls[|calls| - 1]];
    }
  }

  /** Dates are stored in thousandths, rounded toward zero. */
  lemma ScaledTruncates(date: int)
    ensures date >= 0 ==> Scaled(date) * 1000000 <= date < (Scaled(date) + 1) * 1000000
    ensures Scaled(-date) == -Scaled(date)
  {
  }

  /** The row of a key, column by column: the winning submission's, under the account it was made for. */
  lemma StoredRowMeans(calls: seq<Call>, identifier: string, issuer: string, row: Credential) returns (b: nat)
    requires row in ForKey(CredentialsAfter(calls), identifier, issuer)
    ensures IsBest(calls, identifier, issuer, b)
    ensures row.accountPk == calls[b].accounts[0] && row.identifier == identifier && row.issuer == issuer
    ensures row.registration == Scaled(calls[b].ev.registration) && row.expiration == Scaled(calls[b].ev.expiration)
  {
    OneCredentialPerKey(calls, identifier, issuer);
    var rows := ForKey(CredentialsAfter(calls), identifier, issuer);
    assert rows == [rows[0]];
    b :| IsBest(calls, identifier, issuer, b) && row == RowOf(calls[b].accounts[0], calls[b].ev);
  }

  /** A stored credential is never registered after it expires. */
  lemma StoredDatesInOrder(calls: seq<Call>, identifier: string, issuer: string)
    ensures forall c :: c in ForKey(CredentialsAfter(calls), identifier, issuer) ==> 1 <= c.registration <= c.expiration
  {
    OneCredentialPerKey(calls, identifier, issuer);
    var rows := ForKey(CredentialsAfter(calls), identifier, issuer);
    if Submitted(calls, identifier, issuer) {
      BestMatches(calls, identifier, issuer, rows[0]);
      assert rows == [rows[0]];
    }
  }
}
