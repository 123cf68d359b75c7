/**
  Opening the database: compare schemas, and if they differ keep the local state, drop the
  tables, replay, and restore.
*/
module Rebuild {
  import opened Results

  // ---------------------------------------------------------------- schemas

  datatype Column = Column(id: string, name: string, ctype: string, notNull: string, default_: Option<string>, pk: string)

  type Schema = map<string, seq<Column>>

  /** Position and default value do not count. */
  predicate Equals(a: Column, b: Column) {
    a.name == b.name && a.ctype == b.ctype && a.notNull == b.notNull && a.pk == b.pk
  }

  predicate HasColumn(table: seq<Column>, c: Column) { exists i :: 0 <= i < |table| && Equals(c, table[i]) }

  /** Every column of `first` is in `second`. */
  predicate Covers(second: seq<Column>, first: seq<Column>) { forall c :: c in first ==> HasColumn(second, c) }

  datatype SchemaError = ExtraneousTable | MissingTable(table: string) | MissingColumn(column: string, table: string)

  method CompareTableSchemas(first: seq<Column>, second: seq<Column>, table: string) returns (errs: seq<SchemaError>)
    ensures errs == [] <==> Covers(second, first)
    ensures errs == [] <==>
            forall c :: c in first ==>
              exists d :: d in second && d.name == c.name && d.ctype == c.ctype && d.notNull == c.notNull && d.pk == c.pk
    ensures forall e :: e in errs ==>
              e.MissingColumn? && e.table == table && exists c :: c in first && !HasColumn(second, c) && e.column == c.name
  {
    errs := [];
    var i := 0;
    while i < |first|
      invariant 0 <= i <= |first|
      invariant errs == [] <==> Covers(second, first[..i])
      invariant forall e :: e in errs ==>
                  e.MissingColumn? && e.table == table && exists c :: c in first && !HasColumn(second, c) && e.column == c.name
    {
      var isFound, j := false, 0;
      while j < |second|
        invariant 0 <= j <= |second|
        invariant !isFound ==> forall k :: 0 <= k < j ==> !Equals(first[i], second[k])
        invariant isFound ==> HasColumn(second, first[i])
      {
        if Equals(first[i], second[j]) {
          isFound := true;
          break;
        }
        j := j + 1;
      }
      assert isFound == HasColumn(second, first[i]);
      assert first[..i + 1] == first[..i] + [first[i]];
      if !isFound {
        assert first[i] in first[..i + 1];
        errs := errs + [MissingColumn(first[i].name, table)];
      }
      i := i + 1;
    }
    assert first[..i] == first;
    forall c | c in first ensures HasColumn(second, c) <==>
      exists d :: d in second && d.name == c.name && d.ctype == c.ctype && d.notNull == c.notNull && d.pk == c.pk
    {
      ColumnMeans(second, c);
    }
  }

  /** Name, type, not-null and key decide whether a column is there; its position and default do not. */
  lemma ColumnMeans(table: seq<Column>, c: Column)
    ensures HasColumn(table, c) <==>
            exists d :: d in table && d.name == c.name && d.ctype == c.ctype && d.notNull == c.notNull && d.pk == c.pk
  {
    if d :| d in table && d.name == c.name && d.ctype == c.ctype && d.notNull == c.notNull && d.pk == c.pk {
      var i :| 0 <= i < |table| && table[i] == d;
      assert Equals(c, table[i]);
    }
  }

  /** The disk schema passes: the same tables, and no column that is not expected. */
  predicate Matches(disk: Schema, expected: Schema) {
    disk.Keys == expected.Keys && forall t :: t in disk && t in expected ==> Covers(expected[t], disk[t])
  }

  method CompareDBSchema(dbA: Schema, dbB: Schema) returns (errs: seq<SchemaError>)
    ensures errs == [] <==> Matches(dbA, dbB)
  {
    if |dbA| != |dbB| {
      assert dbA.Keys != dbB.Keys by { assert |dbA.Keys| != |dbB.Keys|; }
      return [ExtraneousTable];
    }
    errs := [];
    var todo := dbA.Keys;
    while todo != {}
      invariant todo <= dbA.Keys
      invariant errs == [] <==> forall t :: t in dbA.Keys - todo ==> t in dbB && Covers(dbB[t], dbA[t])
      decreases todo
    {
      var t :| t in todo;
      todo := todo - {t};
      if t !in dbB {
        errs := errs + [MissingTable(t)];
        continue;
      }
      var es := CompareTableSchemas(dbA[t], dbB[t], t);
      errs := errs + es;
    }
    assert dbA.Keys - todo == dbA.Keys;
    ghost var half := errs;
    todo := dbB.Keys;
    while todo != {}
      invariant todo <= dbB.Keys
      invariant errs == [] <==> half == [] && forall t :: t in dbB.Keys - todo ==> t in dbA
      decreases todo
    {
      var t :| t in todo;
      todo := todo - {t};
      if t !in dbA { errs := errs + [MissingTable(t)]; }
    }
    assert dbB.Keys - todo == dbB.Keys;
  }

  // ---------------------------------------------------------------- the local state

  datatype Account = Account(pk: string, displayName: string, link: string, replicate: bool, autoShare: bool, rest: string)

  datatype Conversation = Conversation(pk: string, isOpen: bool, unread: int, rest: string)

  /** The two tables in row order; `rest` stands for the columns that are not local state. */
  datatype Tables = Tables(accounts: seq<Account>, conversations: seq<Conversation>)

  datatype Field = PublicKey | DisplayName | Link | Replicate | AutoShare | Conversations

  /** The tables before the drop, and what an outdated schema still lets us read. */
  datatype OldTables = OldTables(tables: Tables, readable: set<Field>)

  datatype Kept = Kept(pk: string, isOpen: bool, unread: int)

  datatype LocalState = LocalState(
    pk: string, displayName: string, link: string, replicate: bool, autoShare: bool, conversations: seq<Kept>)

  predicate Readable(old_: OldTables, f: Field) { f in old_.readable && old_.tables.accounts != [] }

  function KeepConversations(rows: seq<Conversation>): (r: seq<Kept>)
    ensures |r| == |rows|
    ensures forall i :: 0 <= i < |rows| ==> r[i] == Kept(rows[i].pk, rows[i].isOpen, rows[i].unread)
  {
    seq(|rows|, i requires 0 <= i < |rows| => Kept(rows[i].pk, rows[i].isOpen, rows[i].unread))
  }

  function KeepDatabaseLocalState(old_: OldTables): LocalState {
    LocalState(
      if Readable(old_, PublicKey) then old_.tables.accounts[0].pk else "",
      if Readable(old_, DisplayName) then old_.tables.accounts[0].displayName else "",
      if Readable(old_, Link) then old_.tables.accounts[0].link else "",
      if Readable(old_, Replicate) then old_.tables.accounts[0].replicate else true,
      if Readable(old_, AutoShare) then old_.tables.accounts[0].autoShare else true,
      if Conversations in old_.readable then KeepConversations(old_.tables.conversations) else [])
  }

  function SetAccount(a: Account, s: LocalState): Account {
    if a.pk == s.pk
    then a.(displayName := s.displayName, link := s.link, replicate := s.replicate, autoShare := s.autoShare)
    else a
  }

  function SetAccounts(rows: seq<Account>, s: LocalState): (r: seq<Account>)
    ensures |r| == |rows| && forall i :: 0 <= i < |rows| ==> r[i] == SetAccount(rows[i], s)
  {
    seq(|rows|, i requires 0 <= i < |rows| => SetAccount(rows[i], s))
  }

  function SetConversation(c: Conversation, k: Kept): Conversation {
    if c.pk == k.pk then c.(isOpen := k.isOpen, unread := k.unread) else c
  }

  function SetConversations(rows: seq<Conversation>, k: Kept): (r: seq<Conversation>)
    ensures |r| == |rows| && forall i :: 0 <= i < |rows| ==> r[i] == SetConversation(rows[i], k)
  {
    seq(|rows|, i requires 0 <= i < |rows| => SetConversation(rows[i], k))
  }

  function SetAllConversations(rows: seq<Conversation>, kept: seq<Kept>): (r: seq<Conversation>)
    ensures |r| == |rows|
  {
    if kept == [] then rows
    else SetConversations(SetAllConversations(rows, kept[..|kept| - 1]), kept[|kept| - 1])
  }

  predicate HasAccount(rows: seq<Account>, pk: string) { exists i :: 0 <= i < |rows| && rows[i].pk == pk }

  predicate HasConversation(rows: seq<Conversation>, pk: string) { exists i :: 0 <= i < |rows| && rows[i].pk == pk }

  /** Everything the kept state refers to has been recreated. */
  ghost predicate Recreated(t: Tables, s: LocalState) {
    HasAccount(t.accounts, s.pk) && forall i :: 0 <= i < |s.conversations| ==> HasConversation(t.conversations, s.conversations[i].pk)
  }

  function Restored(t: Tables, s: LocalState): Tables {
    Tables(SetAccounts(t.accounts, s), SetAllConversations(t.conversations, s.conversations))
  }

  /** What a failed restore leaves: it stops at the first kept conversation that does not exist. */
  ghost predicate StoppedEarly(t: Tables, s: LocalState, t': Tables) {
    exists k :: 0 <= k < |s.conversations| && !HasConversation(t.conversations, s.conversations[k].pk)
      && t' == Restored(t, s.(conversations := s.conversations[..k]))
  }

  /** How the database itself can fail on the way; a failed drop leaves some of the tables. */
  datatype Fault = NoFault | DropFault(left: Tables) | MigrateFault | TriggerFault

  datatype OpenError = DestroyFailed | MigrateFailed | SetupFailed | ReplayFailed | AccountNotFound | ConversationNotFound

  class DBWrapper {
    var accounts: seq<Account>
    var conversations: seq<Conversation>

    ghost function View(): Tables
      reads this
    {
      Tables(accounts, conversations)
    }

    method RestoreDatabaseLocalState(s: LocalState) returns (r: Result<(), OpenError>)
      modifies this
      ensures r.Ok? <==> Recreated(old(View()), s)
      ensures r.Ok? ==> View() == Restored(old(View()), s)
      ensures r == Err(AccountNotFound) <==> !HasAccount(old(accounts), s.pk)
      ensures r == Err(AccountNotFound) ==> View() == old(View())
      ensures r == Err(ConversationNotFound) ==> StoppedEarly(old(View()), s, View())
      ensures r.Err? ==> r.error.AccountNotFound? || r.error.ConversationNotFound?
    {
      var found := HasAccount(accounts, s.pk);
      accounts := SetAccounts(accounts, s);
      if !found { return Err(AccountNotFound); }
      var i := 0;
      while i < |s.conversations|
        invariant 0 <= i <= |s.conversations|
        invariant accounts == SetAccounts(old(accounts), s)
        invariant conversations == SetAllConversations(old(conversations), s.conversations[..i])
        invariant forall k :: 0 <= k < i ==> HasConversation(old(conversations), s.conversations[k].pk)
      {
        assert s.conversations[..i + 1][..i] == s.conversations[..i];
        KeysStay(old(conversations), s.conversations[..i], s.conversations[i].pk);
        if !HasConversation(conversations, s.conversations[i].pk) { return Err(ConversationNotFound); }
        conversations := SetConversations(conversations, s.conversations[i]);
        i := i + 1;
      }
      assert s.conversations[..i] == s.conversations;
      return Ok(());
    }

    /** The replayer may do anything to the emptied tables; `outcome` is what it left and whether it succeeded. */
    method GetUpdatedDB(disk: Schema, expected: Schema, readable: set<Field>, fault: Fault, outcome: (Tables, bool))
      returns (r: Result<(), OpenError>)
      modifies this
      ensures Matches(disk, expected) ==>
                View() == old(View()) && r == if fault.TriggerFault? then Err(SetupFailed) else Ok(())
      ensures !Matches(disk, expected) ==>
                var state := KeepDatabaseLocalState(OldTables(old(View()), readable));
                && (r.Ok? <==> fault.NoFault? && outcome.1 && Recreated(outcome.0, state))
                && (r.Ok? ==> View() == Restored(outcome.0, state))
                && (r.Err? ==>
                      match r.error
                      case DestroyFailed => fault.DropFault? && View() == fault.left
                      case MigrateFailed => fault.MigrateFault? && View() == Tables([], [])
                      case SetupFailed => fault.TriggerFault? && View() == Tables([], [])
                      case ReplayFailed => fault.NoFault? && !outcome.1 && View() == outcome.0
                      case AccountNotFound => !HasAccount(outcome.0.accounts, state.pk) && View() == outcome.0
                      case ConversationNotFound => StoppedEarly(outcome.0, state, View()))
    {
      var errs := CompareDBSchema(disk, expected);
      if errs == [] {
        if fault.TriggerFault? { return Err(SetupFailed); }
        return Ok(());
      }
      var state := KeepDatabaseLocalState(OldTables(Tables(accounts, conversations), readable));
      if fault.DropFault? {
        accounts, conversations := fault.left.accounts, fault.left.conversations;
        return Err(DestroyFailed);
      }
      accounts, conversations := [], [];
      if fault.MigrateFault? { return Err(MigrateFailed); }
      if fault.TriggerFault? { return Err(SetupFailed); }
      accounts, conversations := outcome.0.accounts, outcome.0.conversations;
      if !outcome.1 { return Err(ReplayFailed); }
      r := RestoreDatabaseLocalState(state);
    }
  }

  lemma {:induction false} KeysStay(rows: seq<Conversation>, kept: seq<Kept>, pk: string)
    ensures HasConversation(SetAllConversations(rows, kept), pk) <==> HasConversation(rows, pk)
  {
    if kept != [] {
      var before := SetAllConversations(rows, kept[..|kept| - 1]);
      KeysStay(rows, kept[..|kept| - 1], pk);
      var after := SetConversations(before, kept[|kept| - 1]);
      if i :| 0 <= i < |before| && before[i].pk == pk { assert after[i].pk == pk; }
      if i :| 0 <= i < |after| && after[i].pk == pk { assert before[i].pk == pk; }
    }
  }

  // ---------------------------------------------------------------- what survives

  ghost predicate DistinctKeys(rows: seq<Conversation>) {
    forall i, j :: 0 <= i < j < |rows| ==> rows[i].pk != rows[j].pk
  }

  /** A kept row decides its conversation's flag and counter; other rows and columns are as replayed. */
  lemma {:induction false} RestoredRow(rows: seq<Conversation>, kept: seq<Kept>, n: nat)
    requires n < |rows|
    requires forall i, j :: 0 <= i < j < |kept| ==> kept[i].pk != kept[j].pk
    ensures var row := SetAllConversations(rows, kept)[n];
            && row.pk == rows[n].pk && row.rest == rows[n].rest
            && (forall i :: 0 <= i < |kept| && kept[i].pk == row.pk ==> row.isOpen == kept[i].isOpen && row.unread == kept[i].unread)
            && ((forall i :: 0 <= i < |kept| ==> kept[i].pk != row.pk) ==> row == rows[n])
  {
    if kept != [] { RestoredRow(rows, kept[..|kept| - 1], n); }
  }

  /** The conversation exists again, with its flag and counter, and with the replayed other columns. */
  ghost predicate ConversationBack(c: Conversation, replayed: Tables, state: LocalState) {
    var rows := Restored(replayed, state).conversations;
    && HasConversation(rows, c.pk)
    && forall n :: 0 <= n < |rows| && rows[n].pk == c.pk ==> rows[n] == c.(rest := replayed.conversations[n].rest)
  }

  lemma KeptConversation(c: Conversation, replayed: Tables, state: LocalState, k: nat)
    requires forall i, j :: 0 <= i < j < |state.conversations| ==> state.conversations[i].pk != state.conversations[j].pk
    requires k < |state.conversations| && state.conversations[k] == Kept(c.pk, c.isOpen, c.unread)
    requires HasConversation(replayed.conversations, c.pk)
    ensures ConversationBack(c, replayed, state)
  {
    var rows := Restored(replayed, state).conversations;
    KeysStay(replayed.conversations, state.conversations, c.pk);
    forall n | 0 <= n < |rows| && rows[n].pk == c.pk ensures rows[n] == c.(rest := replayed.conversations[n].rest) {
      RestoredRow(replayed.conversations, state.conversations, n);
    }
  }

  /** The old account's local columns, as far as they could be read, on the replayed row. */
  function AccountBack(a: Account, readable: set<Field>, rest: string): Account {
    Account(
      a.pk,
      if DisplayName in readable then a.displayName else "",
      if Link in readable then a.link else "",
      if Replicate in readable then a.replicate else true,
      if AutoShare in readable then a.autoShare else true,
      rest)
  }

  /**
    When a rebuild succeeds, then whatever the replayer did: every account row with the key of the
    first old account has that one's name, link and flags, every old conversation exists again with
    its open flag and unread count, and nothing else of the replayed rows is changed. A column that
    could not be read is at its default, and conversations that could not be read are as replayed.
  */
  lemma RebuildKeepsLocalState(before: Tables, replayed: Tables, readable: set<Field>)
    requires before.accounts != [] && DistinctKeys(before.conversations) && PublicKey in readable
    requires Recreated(replayed, KeepDatabaseLocalState(OldTables(before, readable)))
    ensures var state, a := KeepDatabaseLocalState(OldTables(before, readable)), before.accounts[0];
            var after := Restored(replayed, state);
            && HasAccount(after.accounts, a.pk) && |after.accounts| == |replayed.accounts|
            && (forall i :: 0 <= i < |after.accounts| ==>
                  after.accounts[i] ==
                  if replayed.accounts[i].pk == a.pk then AccountBack(a, readable, replayed.accounts[i].rest)
                  else replayed.accounts[i])
            && (if Conversations in readable
                then forall c :: c in before.conversations ==> ConversationBack(c, replayed, state)
                else after.conversations == replayed.conversations)
  {
    var state := KeepDatabaseLocalState(OldTables(before, readable));
    var i :| 0 <= i < |replayed.accounts| && replayed.accounts[i].pk == state.pk;
    assert Restored(replayed, state).accounts[i].pk == state.pk;
    if Conversations in readable {
      forall c | c in before.conversations ensures ConversationBack(c, replayed, state) {
        var k :| 0 <= k < |before.conversations| && before.conversations[k] == c;
        assert state.conversations[k] == Kept(c.pk, c.isOpen, c.unread);
        KeptConversation(c, replayed, state, k);
      }
    }
  }

  /** Rows the kept state does not mention come out as the replayer left them. */
  lemma OtherRowsAsReplayed(replayed: Tables, state: LocalState, n: nat)
    requires n < |replayed.conversations|
    requires forall i, j :: 0 <= i < j < |state.conversations| ==> state.conversations[i].pk != state.conversations[j].pk
    requires forall i :: 0 <= i < |state.conversations| ==> state.conversations[i].pk != replayed.conversations[n].pk
    ensures Restored(replayed, state).conversations[n] == replayed.conversations[n]
  {
    RestoredRow(replayed.conversations, state.conversations, n);
  }

  /**
    Without an account before the drop the kept key is empty: the restore then succeeds exactly when
    the replayer left an account under the empty key, and every kept conversation.
  */
  lemma NoAccountNoRebuild(before: Tables, replayed: Tables, readable: set<Field>)
    requires before.accounts == []
    ensures Recreated(replayed, KeepDatabaseLocalState(OldTables(before, readable))) <==>
            && HasAccount(replayed.accounts, "")
            && (Conversations in readable ==>
                  forall c :: c in before.conversations ==> HasConversation(replayed.conversations, c.pk))
  {
    var state := KeepDatabaseLocalState(OldTables(before, readable));
    if Conversations in readable {
      if Recreated(replayed, state) {
        forall c | c in before.conversations ensures HasConversation(replayed.conversations, c.pk) {
          var k :| 0 <= k < |before.conversations| && before.conversations[k] == c;
          assert state.conversations[k].pk == c.pk;
        }
      }
      forall i | 0 <= i < |state.conversations| ensures state.conversations[i].pk == before.conversations[i].pk {}
    }
  }
}
