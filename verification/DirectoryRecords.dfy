/** Account records on directory services: saved all at once or not at all, and only ever renewed. */
module DirectoryRecords {
  import opened Results
  import opened Registrations

  datatype Message = Message(
    identifier: string,
    proofIssuer: string,
    serverAddr: string,
    registration: int,
    expiration: int,
    token: string,
    unregisterToken: string)

  datatype Record = Record(
    accountPk: string,
    identifier: string,
    proofIssuer: string,
    serverAddr: string,
    registration: int,
    expiration: int,
    token: string,
    unregisterToken: string)

  predicate At(r: Record, identifier: string, serverAddr: string) {
    r.identifier == identifier && r.serverAddr == serverAddr
  }

  function RecordOf(accountPk: string, m: Message): Record {
    Record(accountPk, m.identifier, m.proofIssuer, m.serverAddr, Scaled(m.registration), Scaled(m.expiration),
           m.token, m.unregisterToken)
  }

  predicate NotOlder(table: seq<Record>, m: Message) {
    exists i :: 0 <= i < |table| && At(table[i], m.identifier, m.serverAddr) && table[i].expiration >= Scaled(m.expiration)
  }

  /** DELETE ... WHERE identifier = ? AND server_addr = ? AND expiration_date < ? */
  function WithoutExpiredBy(table: seq<Record>, m: Message): seq<Record> {
    if table == [] then []
    else
      var rest := WithoutExpiredBy(table[1..], m);
      if At(table[0], m.identifier, m.serverAddr) && table[0].expiration < Scaled(m.expiration) then rest
      else [table[0]] + rest
  }

  predicate Complete(accountPk: string, m: Message) {
    && m.unregisterToken != "" && accountPk != "" && m.identifier != "" && m.proofIssuer != ""
    && m.serverAddr != "" && m.registration != 0 && m.expiration != 0 && m.token != ""
  }

  predicate Accepts(table: seq<Record>, accountPk: string, m: Message) {
    !NotOlder(table, m) && Complete(accountPk, m)
  }

  function SavedRecord(table: seq<Record>, accountPk: string, m: Message): seq<Record> {
    if Accepts(table, accountPk, m) then WithoutExpiredBy(table, m) + [RecordOf(accountPk, m)] else table
  }

  /** The table's key. */
  ghost predicate Keyed(table: seq<Record>) {
    forall i, j :: 0 <= i < j < |table| ==> !At(table[i], table[j].identifier, table[j].serverAddr)
  }

  lemma {:induction false} DeleteExpired(table: seq<Record>, m: Message)
    requires Keyed(table)
    ensures Keyed(WithoutExpiredBy(table, m))
    ensures forall r :: r in WithoutExpiredBy(table, m) ==> r in table
    ensures !NotOlder(table, m) ==> forall r :: r in WithoutExpiredBy(table, m) ==> !At(r, m.identifier, m.serverAddr)
  {
    if table != [] {
      var rest := WithoutExpiredBy(table[1..], m);
      DeleteExpired(table[1..], m);
      if !NotOlder(table, m) {
        assert !NotOlder(table[1..], m) by {
          forall i | 0 <= i < |table[1..]| ensures table[1..][i] == table[i + 1] {}
        }
      }
      forall i | 0 <= i < |rest| ensures !At(table[0], rest[i].identifier, rest[i].serverAddr) {
        assert rest[i] in table[1..];
      }
    }
  }

  class DirectoryTable {
    var table: seq<Record>

    /** The insert of a record whose key is taken would fail; the transaction's earlier deletion rules that out. */
    method SaveAccountDirectoryServiceRecord(accountPk: string, m: Message) returns (r: Result<(), SaveError>)
      requires Keyed(table)
      modifies this
      ensures Keyed(table)
      ensures table == SavedRecord(old(table), accountPk, m)
      ensures r.Ok? <==> Accepts(old(table), accountPk, m)
      ensures r.Err? ==> table == old(table) && r.error != WriteFailed
      ensures r.Ok? ==>
                && accountPk != "" && m.identifier != "" && m.proofIssuer != "" && m.serverAddr != ""
                && m.token != "" && m.unregisterToken != "" && m.registration != 0 && m.expiration != 0
      ensures r == Err(AlreadyExists) <==>
              exists i :: 0 <= i < |old(table)| && old(table)[i].identifier == m.identifier
                && old(table)[i].serverAddr == m.serverAddr && old(table)[i].expiration >= Scaled(m.expiration)
    {
      var saved := table;
      r := Transaction(accountPk, m);
      if r.Err? { table := saved; }
    }

    /** The body of the transaction; on an error it leaves the table half changed. */
    method Transaction(accountPk: string, m: Message) returns (r: Result<(), SaveError>)
      requires Keyed(table)
      modifies this
      ensures r.Ok? <==> Accepts(old(table), accountPk, m)
      ensures r.Ok? ==> table == SavedRecord(old(table), accountPk, m) && Keyed(table)
      ensures r.Err? ==> r.error != WriteFailed
      ensures r == Err(AlreadyExists) <==> NotOlder(old(table), m)
    {
      if NotOlder(table, m) { return Err(AlreadyExists); }
      DeleteExpired(table, m);
      table := WithoutExpiredBy(table, m);
      if m.unregisterToken == "" { return Err(InvalidInput("DirectoryRecordUnregisterToken")); }
      if accountPk == "" { return Err(InvalidInput("accountPK")); }
      if m.identifier == "" { return Err(InvalidInput("Identifier")); }
      if m.proofIssuer == "" { return Err(InvalidInput("IdentifierProofIssuer")); }
      if m.serverAddr == "" { return Err(InvalidInput("ServerAddr")); }
      if m.registration == 0 { return Err(InvalidInput("RegistrationDate")); }
      if m.expiration == 0 { return Err(InvalidInput("ExpirationDate")); }
      if m.token == "" { return Err(InvalidInput("DirectoryRecordToken")); }
      if exists i :: 0 <= i < |table| && At(table[i], m.identifier, m.serverAddr) { return Err(WriteFailed); }
      table := table + [RecordOf(accountPk, m)];
      return Ok(());
    }
  }

  /**
    What a save leaves, column by column. It is refused for a record as recent or a missing field;
    otherwise the key's older record gives way to one with each field in its own column.
  */
  lemma SavedMeans(table: seq<Record>, accountPk: string, m: Message, r: Record)
    requires Keyed(table)
    ensures var recent := exists i :: 0 <= i < |table| && table[i].identifier == m.identifier
                            && table[i].serverAddr == m.serverAddr && table[i].expiration >= Scaled(m.expiration);
            var complete := accountPk != "" && m.identifier != "" && m.proofIssuer != "" && m.serverAddr != ""
                            && m.token != "" && m.unregisterToken != "" && m.registration != 0 && m.expiration != 0;
            r in SavedRecord(table, accountPk, m) <==>
            if recent || !complete then r in table
            else if r.identifier == m.identifier && r.serverAddr == m.serverAddr then
              && r.accountPk == accountPk && r.proofIssuer == m.proofIssuer
              && r.token == m.token && r.unregisterToken == m.unregisterToken
              && r.registration == Scaled(m.registration) && r.expiration == Scaled(m.expiration)
            else r in table
  {
    KeptByDelete(table, m, r);
    DeleteExpired(table, m);
    assert NotOlder(table, m) <==>
           exists i :: 0 <= i < |table| && table[i].identifier == m.identifier && table[i].serverAddr == m.serverAddr
             && table[i].expiration >= Scaled(m.expiration);
  }

  // ---------------------------------------------------------------- over a whole history

  datatype Save = Save(accountPk: string, m: Message)

  function RecordsAfter(saves: seq<Save>): seq<Record> {
    if saves == [] then []
    else SavedRecord(RecordsAfter(saves[..|saves| - 1]), saves[|saves| - 1].accountPk, saves[|saves| - 1].m)
  }

  /** The records of one key in the order in which they were successfully saved. */
  function Renewals(saves: seq<Save>, identifier: string, serverAddr: string): seq<Record> {
    if saves == [] then []
    else
      var before, s := saves[..|saves| - 1], saves[|saves| - 1];
      Renewals(before, identifier, serverAddr) +
      if Accepts(RecordsAfter(before), s.accountPk, s.m) && At(RecordOf(s.accountPk, s.m), identifier, serverAddr)
      then [RecordOf(s.accountPk, s.m)] else []
  }

  ghost predicate Increasing(records: seq<Record>) {
    forall i, j :: 0 <= i < j < |records| ==> records[i].expiration < records[j].expiration
  }

  /** The table holds the latest renewal of a key and nothing else for it. */
  ghost predicate HoldsLatest(table: seq<Record>, renewals: seq<Record>, identifier: string, serverAddr: string) {
    forall r :: r in table && At(r, identifier, serverAddr) <==> renewals != [] && r == renewals[|renewals| - 1]
  }

  lemma {:induction false} KeptByDelete(table: seq<Record>, m: Message, r: Record)
    ensures r in WithoutExpiredBy(table, m) <==>
            r in table && !(At(r, m.identifier, m.serverAddr) && r.expiration < Scaled(m.expiration))
  {
    if table != [] { KeptByDelete(table[1..], m, r); }
  }

  lemma HoldsStep(table: seq<Record>, renewals: seq<Record>, s: Save, identifier: string, serverAddr: string)
    requires HoldsLatest(table, renewals, identifier, serverAddr) && Accepts(table, s.accountPk, s.m)
    ensures var record, table' := RecordOf(s.accountPk, s.m), SavedRecord(table, s.accountPk, s.m);
            HoldsLatest(table', if At(record, identifier, serverAddr) then renewals + [record] else renewals, identifier, serverAddr)
  {
    var record, table' := RecordOf(s.accountPk, s.m), SavedRecord(table, s.accountPk, s.m);
    var renewals' := if At(record, identifier, serverAddr) then renewals + [record] else renewals;
    forall r
      ensures r in table' && At(r, identifier, serverAddr) <==> renewals' != [] && r == renewals'[|renewals'| - 1]
    {
      KeptByDelete(table, s.m, r);
      if r in table && At(r, s.m.identifier, s.m.serverAddr) {
        var i :| 0 <= i < |table| && table[i] == r;
        assert r.expiration < Scaled(s.m.expiration);
      }
      assert r in table && At(r, identifier, serverAddr) <==> renewals != [] && r == renewals[|renewals| - 1];
    }
  }

  lemma {:induction false} RecordsStayKeyed(saves: seq<Save>)
    ensures Keyed(RecordsAfter(saves))
  {
    if saves != [] {
      RecordsStayKeyed(saves[..|saves| - 1]);
      DeleteExpired(RecordsAfter(saves[..|saves| - 1]), saves[|saves| - 1].m);
    }
  }

  /**
    Whatever is submitted for whichever account, the successful saves for one identifier and
    server store strictly increasing expirations, and the table, which never has two records of
    one key, holds exactly the last of them.
  */
  lemma {:induction false} RecordsOnlyRenew(saves: seq<Save>, identifier: string, serverAddr: string)
    ensures Increasing(Renewals(saves, identifier, serverAddr))
    ensures HoldsLatest(RecordsAfter(saves), Renewals(saves, identifier, serverAddr), identifier, serverAddr)
    ensures Keyed(RecordsAfter(saves))
  {
    RecordsStayKeyed(saves);
    if saves != [] {
      var before, s := saves[..|saves| - 1], saves[|saves| - 1];
      var renewals, table, record := Renewals(before, identifier, serverAddr), RecordsAfter(before), RecordOf(s.accountPk, s.m);
      RecordsOnlyRenew(before, identifier, serverAddr);
      if Accepts(table, s.accountPk, s.m) {
        HoldsStep(table, renewals, s, identifier, serverAddr);
        if At(record, identifier, serverAddr) && renewals != [] {
          var last := renewals[|renewals| - 1];
          assert last in table && At(last, identifier, serverAddr);
          var i :| 0 <= i < |table| && table[i] == last;
          assert last.expiration < record.expiration;
        }
      }
    }
  }
}
