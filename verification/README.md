# Berty messenger: models and proofs

This project models four parts of Berty's Go code in Dafny and proves what each of them promises over
every run. The modules follow the code they describe.

**Welcome bot** (`go/cmd/welcomebot/main.go`): `WelcomeBot`, `WelcomeBotProofs`,
`WelcomeBotRuns`, `WelcomeBotHistory`.
A state machine with one thread per handled event. Every lock operation is an action of its own: the map
lock, one mutex per conversation, the read/write lock that stands for all conversations, and the store's
read/write lock. A waiting writer blocks new readers, as in Go's `sync.RWMutex`: `Lock` is two actions.

**DDL scanner** (`go/internal/gorm-sqlcipher/ddlmod.go`): `DdlScanner`, `DdlSegments`, `DdlRoundTrip`,
`DdlConstraints`, `DdlMeaning`. The loop of `parseDDL` is a method proved against a token-level definition of segments;
the printer, the head match and the in-place constraint edits are beside it.

**Messenger database** (`go/internal/messengerdb`): `Transactions`, `Schema`, `Paging`, `PagingProofs`,
`Interactions`, `InteractionProofs`, `Conversations`, `Members`, `Registrations`, `DirectoryRecords`,
`Rebuild`. Tables are maps or sequences held in the fields of classes whose methods change them. Each
method is proved equal to a function on tables, and the histories quantified over are arbitrary sequences
of these functions.

**Keystore** (`go/internal/accountutils/keystore.go`): `Keystore`.

`Results` and `Seqs` hold the option type and a few equations on sequences.

What is assumed of the libraries: `Updates` with a struct writes exactly the non-zero fields, keys included; `DoNothing` on a
conflict keeps the stored row; an error inside `Transaction` restores the tables; the database has a
single connection; a new row gets any positive rowid that no other row has. Random bytes, rowids, times,
the replayer's effect, the matching relation of the full-text index and the outcome of network calls are
parameters.

Findings that a reader of the code may not expect:

- `RepeatsExactly`, `MovedRowRepeats`, `MovedRowSkips`: paging looks the reference row up again at each call. If a
  synced copy with another date replaced that row in the meantime, the next page can repeat rows or end early;
  if it was deleted, the call fails. Rows that are only added between pages do no harm.
- `SearchContinues`: a search continued after a row dated 0 starts over, because a date of 0 is no condition.
- `SelfStaysSelf`: an upsert whose payload names a member that does not exist moves the stored row there; a device
  bound to the old one then no longer counts as self.
- `DispatchOutOfRange`: a store file with a step above 2 on an entry that a message can reach makes the
  bot panic on the array index; `DispatchInRange` shows that this is the only way.
- `OneToOneStep`: `UpdateConversation` can give a contact a second conversation, exactly when it inserts a
  row whose contact key is already taken. No other operation can.
- `AddThenRemove`: adding and removing a constraint is not the identity when the name was taken, because the
  first edit overwrites the old clause.
- `RoundTrip`: printing and parsing again returns the same definition exactly for trimmed fields that are one
  piece for the scanner, the last one non-empty. A tab counts as a quote character.
- `NoAccountNoRebuild`: a database without an account goes through the drop-and-replay path only if the replayer
  creates an account with an empty key; otherwise the restore step reports a missing account.
- `DistinctExactlyWhenSafe`: key names collide exactly when an account id is "global" or runs through another
  one's `/salt` path; ids without a slash other than "global" never do.
- `UpdateConversationReadState` has a comment that limits the increment to closed conversations
  (`db.go:399`); the code increments for open ones as well, and so does the model.

## Model

| member | source | states |
|---|---|---|
| WelcomeBot.Find | go/cmd/welcomebot/main.go:334-340 | the scan settles on the last entry with the message's conversation key, and on none only when there is none |
| WelcomeBotProofs.PerformAgrees | go/cmd/welcomebot/main.go:78-98 | a read/write lock's record of its readers, waiting writer and writer keeps agreeing with the roles of the threads through any lock operation |
| WelcomeBotProofs.EveryPositionFits | go/cmd/welcomebot/main.go:593-610 | at every program position the lock operation fits the roles before and after it: what is acquired is released exactly once, on both read/write locks |
| WelcomeBotProofs.OwnersStep | go/cmd/welcomebot/main.go:78-98 | a conversation mutex is owned by exactly the one thread inside its critical section, at every step |
| WelcomeBotRuns.WholeHolderMoves | go/cmd/welcomebot/main.go:367-437 | every holder of the whole-conversation lock can take its next action without waiting |
| WelcomeBotRuns.OneHolder | go/cmd/welcomebot/main.go:78-98 | two handlers are never inside the critical section of the same conversation |
| WelcomeBotRuns.WriterIsAlone | go/cmd/welcomebot/main.go:593-610 | while a snapshot is written nobody appends to the list or increments a step |
| WelcomeBotRuns.DeadlockFree | go/cmd/welcomebot/main.go:341-352 | in every state of every run that has not crashed on an index out of range, with any number of handlers and saves, some unfinished thread can act |
| WelcomeBotRuns.RunsAreShort | go/cmd/welcomebot/main.go:329-437 | n started events take at most 44 n actions in all, in every interleaving, so every handler finishes |
| WelcomeBotRuns.StepIsSmall | go/cmd/welcomebot/main.go:367-390 | each action leaves the list alone, appends one entry at step 0 or advances one entry by one, and a save writes the list as it is at the instant of the write |
| WelcomeBotRuns.ConvsOnlyAdvance | go/cmd/welcomebot/main.go:316-324 | between any two states of a run the earlier list is a prefix of the later one and no step is lowered |
| WelcomeBotRuns.FileNeverGoesBack | go/cmd/welcomebot/main.go:593-610 | of any two contents of the store file in a run the later extends the earlier and lowers no step |
| WelcomeBotRuns.QuietIsSaved | go/cmd/welcomebot/main.go:316-324 | nothing is lost: whenever all started handlers have finished, the file holds exactly the list in memory, or there is neither |
| WelcomeBotRuns.StepsStayInRange | go/cmd/welcomebot/main.go:344-349 | a store loaded with steps 0, 1 and 2 has only such steps in every state |
| WelcomeBotRuns.GroupCreatedOnce | go/cmd/welcomebot/main.go:387-406 | group creation is called at most once per entry, whichever handlers race on it, and only for an entry at step 2 |
| WelcomeBotRuns.DispatchInRange | go/cmd/welcomebot/main.go:345-349 | no run from a store whose reachable entries are at steps 0 to 2 indexes past the three step functions |
| WelcomeBotRuns.DispatchOutOfRange | go/cmd/welcomebot/main.go:345-349 | from every other loaded store some run panics, so the condition is exact |
| WelcomeBotHistory.ValidMessagesAdvance | go/cmd/welcomebot/main.go:367-434 | a finished message handler has advanced an entry iff its scan had met one, the message validated and the entry was at step 0 or 1 at the dispatch; no other thread ever advances one |
| WelcomeBotHistory.ScanMeets | go/cmd/welcomebot/main.go:334-343 | the scan settles on an entry iff it is one-to-one, has the message's conversation and no later entry has it |
| WelcomeBotHistory.DispatchSees | go/cmd/welcomebot/main.go:345-349 | the dispatch uses the step that very entry has at that moment, and panics iff it is above 2 |
| WelcomeBotHistory.StepsAreCounted | go/cmd/welcomebot/main.go:368-388 | in every state an entry's step is what was loaded, or 0, plus the number of handlers that have advanced it |
| WelcomeBotHistory.QuietIsEntered | go/cmd/welcomebot/main.go:316-322 | whenever all handlers have finished, the list is the loaded entries, steps apart, followed by exactly one entry per accepted contact, with its keys and name, and one per group created |
| WelcomeBotHistory.SecondStepCreatesGroup | go/cmd/welcomebot/main.go:386-420 | a finished handler has passed the group creation iff it took its entry from step 1 to 2 |
| WelcomeBotHistory.WriterComesFirst | go/cmd/welcomebot/main.go:593-610 | while a writer waits for or holds a read/write lock no new reader gets it, and a writer holds it alone |
| DdlScanner.ScanBody | go/internal/gorm-sqlcipher/ddlmod.go:58-103 | the loop with its quote, bracket level and buffer returns the trimmed segments of the token list when the brackets balance and an error otherwise |
| DdlScanner.NeverBelowAt | go/internal/gorm-sqlcipher/ddlmod.go:90-92 | the running check of the level is the same as no prefix having negative unquoted depth |
| DdlSegments.ParsedMeans | go/internal/gorm-sqlcipher/ddlmod.go:58-103 | a body is accepted iff its unquoted depth never is negative and ends at zero; the untrimmed segments rejoin to the body and are the texts between the separating commas |
| DdlSegments.CutsAreTheCuts | go/internal/gorm-sqlcipher/ddlmod.go:81-86 | the cut positions are exactly the unquoted commas at depth zero |
| DdlSegments.TokensKeepText | go/internal/gorm-sqlcipher/ddlmod.go:67-75 | reading doubled, toggling and plain characters as tokens loses no character |
| DdlMeaning.TokensAreGreedy | go/internal/gorm-sqlcipher/ddlmod.go:67-75 | the tokens spell the body, quote characters are paired greedily, and only the five quote characters are special |
| DdlMeaning.OneReading | go/internal/gorm-sqlcipher/ddlmod.go:67-75 | no other token list does that |
| DdlMeaning.AcceptedMeans | go/internal/gorm-sqlcipher/ddlmod.go:76-99 | a body is accepted iff, counting brackets with an even number of single quote characters before them, no prefix has more closing than opening ones and the whole has as many |
| DdlMeaning.CutMeans | go/internal/gorm-sqlcipher/ddlmod.go:76-88 | the cuts are the commas with an even number of single quote characters, and as many closing as opening brackets, before them |
| DdlMeaning.TrimSpaceMeans | go/internal/gorm-sqlcipher/ddlmod.go:83 | trimming takes blanks off both ends, all of them and nothing else |
| DdlMeaning.FieldsAreTrimmedCuts | go/internal/gorm-sqlcipher/ddlmod.go:82-103 | the fields are the texts between the cuts without the blanks at their ends; only a last text that is empty before trimming is dropped |
| DdlMeaning.QuotedIsInert | go/internal/gorm-sqlcipher/ddlmod.go:16-19 | between any of the five quote characters commas and brackets have no effect |
| DdlMeaning.HeadsMean | go/internal/gorm-sqlcipher/ddlmod.go:18 | the heads are exactly CREATE TABLE in any case followed by a name of word characters with or without a quote on either side |
| DdlMeaning.BodyMeans | go/internal/gorm-sqlcipher/ddlmod.go:18 | the body reaches from the bracket after the head to the last closing bracket |
| DdlMeaning.ClausesMean | go/internal/gorm-sqlcipher/ddlmod.go:187-188 | a field carries a name iff it is the keyword, the name bare or opened by one of two quotes, and a closing quote or a space |
| DdlMeaning.EditsMean | go/internal/gorm-sqlcipher/ddlmod.go:187-210 | adding and removing concern the first clause of that name and leave every other field in place |
| DdlMeaning.PrintedMeans | go/internal/gorm-sqlcipher/ddlmod.go:179-185 | a definition prints as its head and its fields in brackets with commas between them |
| DdlMeaning.FirstHeadCounts | go/internal/gorm-sqlcipher/ddlmod.go:46 | text before the first head is skipped |
| DdlMeaning.SpacesMean | go/internal/gorm-sqlcipher/ddlmod.go:83 | the blanks are the characters of the white space property |
| DdlRoundTrip.CompiledSplits | go/internal/gorm-sqlcipher/ddlmod.go:179-185 | matching the head pattern on a printed definition gives back its head and its joined fields |
| DdlRoundTrip.ParsedJoin | go/internal/gorm-sqlcipher/ddlmod.go:58-103 | scanning joined fields returns them iff each is trimmed and one piece and the last is not empty |
| DdlRoundTrip.RoundTrip | go/internal/gorm-sqlcipher/ddlmod.go:43-103 | parsing a printed definition returns the same head and fields iff the fields are printable in that sense |
| DdlConstraints.Ddl.AddConstraint | go/internal/gorm-sqlcipher/ddlmod.go:187-198 | replaces the first clause of that name, or appends |
| DdlConstraints.Ddl.RemoveConstraint | go/internal/gorm-sqlcipher/ddlmod.go:200-210 | removes the first clause of that name and says whether there was one |
| DdlConstraints.Ddl.HasConstraint | go/internal/gorm-sqlcipher/ddlmod.go:212-221 | says whether some clause has that name |
| DdlConstraints.AddThenRemove | go/internal/gorm-sqlcipher/ddlmod.go:187-210 | add and then remove restores the list iff the name was free and the added text declares it |
| DdlConstraints.AddKeepsUnique | go/internal/gorm-sqlcipher/ddlmod.go:187-198 | adding never makes a name ambiguous, and the name is then present iff the text declares it |
| DdlConstraints.RemoveClears | go/internal/gorm-sqlcipher/ddlmod.go:200-221 | after a removal the name is gone iff it was unique before |
| DdlConstraints.EditsStayApart | go/internal/gorm-sqlcipher/ddlmod.go:187-221 | editing one plain name changes the presence of no other plain name |
| Transactions.DBWrapper.PostAction | go/internal/messengerdb/db.go:187-210 | outside a transaction it refuses; inside, the action goes to the end of the registered ones |
| Transactions.DBWrapper.TX | go/internal/messengerdb/db.go:212-243 | result, tables, registered actions and trace at any nesting depth; a failed body restores the tables and the wrapper, a successful one is committed before anything else |
| Transactions.ChainRunsInOrder | go/internal/messengerdb/db.go:187-210 | the nested closures run the actions in registration order and stop at the first error |
| Transactions.NoActionRunsTwice | go/internal/messengerdb/db.go:187-243 | every single registration, told apart by its position in the trace, runs at most once and only after it was made, in every program, however transactions nest and fail |
| Transactions.CallsStaySound | go/internal/messengerdb/db.go:187-243 | at any nesting depth a call keeps this: each registration has run once, waits once or does neither, and none runs or waits that was not made |
| Transactions.FailureRollsBack | go/internal/messengerdb/db.go:226-235 | any body that fails, whether it registered actions or not, leaves tables and outer wrapper as they were, and nothing runs after it |
| Transactions.FailedBody | go/internal/messengerdb/db.go:212-243 | a body that fails leaves tables and outer registrations untouched; none of the actions registered on its wrapper has run, and none runs whatever is executed on the outer wrapper next |
| Transactions.CommittedBody | go/internal/messengerdb/db.go:212-243 | a body that succeeds is committed before its actions run, and its rows stay even if one of them fails |
| Transactions.SuccessRunsEachOnce | go/internal/messengerdb/db.go:187-243 | when the call succeeds, at any nesting depth, each action registered on its wrapper has run exactly once and only after the commit |
| Schema.OrderBySorts | go/internal/messengerdb/db.go:618-695 | the ordering holds exactly the given rows, sorted by date and cid in the chosen direction |
| Schema.BeforeMeans | go/internal/messengerdb/db.go:651-654 | the date decides first and then the cid; newest first is the exact reverse |
| Schema.CidLessMeans | go/internal/messengerdb/db.go:651-654 | cids compare at their first difference, and a prefix comes before what extends it |
| Paging.GetPaginatedInteractions | go/internal/messengerdb/db.go:618-695 | fails exactly for an unknown cursor or one of another conversation; otherwise returns, in order and without duplicates, the rows that are in some listed conversation's page |
| PagingProofs.AnswerAfterReference | go/internal/messengerdb/db.go:637-676 | with a reference the answer is exactly the rows after it in the reference's own conversation that fewer than the requested number (5 if none) precede |
| PagingProofs.AnswerOfConversation | go/internal/messengerdb/db.go:628-676 | with a conversation and no reference it is that conversation's first rows |
| PagingProofs.AnswerOfAll | go/internal/messengerdb/db.go:628-676 | with neither it is the first rows of each listed conversation |
| PagingProofs.CursorSplits | go/internal/messengerdb/db.go:618-695 | moving the cursor to a row leaves exactly the rows after it in the ordering |
| PagingProofs.PageRank | go/internal/messengerdb/db.go:656-676 | a page holds exactly the rows after the cursor that fewer than the requested number of such rows precede |
| PagingProofs.ReadAllIsComplete | go/internal/messengerdb/db.go:618-695 | over a fixed table, passing the last cid of each page until a page is empty terminates and concatenates to the conversation's whole ordering, in either direction, from any cursor |
| PagingProofs.OneConversation | go/internal/messengerdb/db.go:618-695 | with a conversation or a cursor the answer is the one page of that conversation |
| PagingProofs.EveryConversation | go/internal/messengerdb/db.go:618-695 | with neither, the answer restricted to a listed conversation is that conversation's own page |
| PagingProofs.NoRepeats | go/internal/messengerdb/db.go:618-695 | over changing tables, while the last row seen is still stored as it was at each call, no row is delivered twice and the order is kept |
| PagingProofs.NothingSkipped | go/internal/messengerdb/db.go:618-695 | under the same condition a row that stays in the table has been delivered or still lies ahead |
| PagingProofs.EmptyPageEnds | go/internal/messengerdb/db.go:618-695 | under the same condition, once a page is empty every row present throughout has been delivered exactly once |
| PagingProofs.AddedRowsOnly | go/internal/messengerdb/db.go:637-676 | when rows are only added between calls, the chained calls keep the order, repeat nothing and, at the first empty page, have delivered every row that was there at the start |
| PagingProofs.RepeatsExactly | go/internal/messengerdb/db.go:637-676 | however the tables change, a cid is delivered twice iff at some accepted call a delivered row is stored after the current position of the last row seen, within the page |
| PagingProofs.DeliveredExactly | go/internal/messengerdb/db.go:637-676 | however the tables change, a row is delivered iff at some accepted call it is stored after the current position of the last row seen, with fewer than the requested number of rows between |
| PagingProofs.MovedRowRepeats | go/internal/messengerdb/db.go:637-668 | an out-of-store row replaced by a synced one with a later date makes the next page repeat a row |
| PagingProofs.MovedRowSkips | go/internal/messengerdb/db.go:637-668 | one replaced by a synced one with an earlier date makes the next page empty although a row was never delivered |
| PagingProofs.MovesAreDeliveries | go/internal/messengerdb/db.go:1044-1053 | both replacements are what AddInteraction does to the table when the synced copy arrives |
| Interactions.DBWrapper.AddInteraction | go/internal/messengerdb/db.go:1017-1064 | the new tables and the returned row and flag, for a missing cid, a replacement and a duplicate |
| Interactions.DBWrapper.DeleteInteractions | go/internal/messengerdb/db.go:879-891 | removes the rows and, through the trigger, their index entries |
| Interactions.DBWrapper.DeleteRows | go/internal/messengerdb/db.go:1559-1565 | each deleted row takes the index entry at its rowid with it |
| Interactions.DBWrapper.InteractionIndexText | go/internal/messengerdb/db.go:1440-1468 | sets the text at the row's rowid; an unknown cid is an error that changes nothing |
| Interactions.DBWrapper.InteractionsSearch | go/internal/messengerdb/db.go:1478-1545 | the first rows, up to the limit and in the chosen order, of those joined with a matching index entry and inside the date window that dates and reference give; an error for an empty query or a disabled index |
| InteractionProofs.StoredIsWinner | go/internal/messengerdb/db.go:1017-1064 | in every history the stored row is the first synced copy if one arrived since the last deletion, otherwise the first out-of-store copy |
| InteractionProofs.ReportedNew | go/internal/messengerdb/db.go:1017-1064 | a copy is reported as new iff it is the first, or the first synced one after out-of-store copies |
| InteractionProofs.NewAtMostTwice | go/internal/messengerdb/db.go:1017-1064 | in every history, between deletions of a cid, AddInteraction reports it as new 0, 1 or 2 times, and 2 exactly when a synced copy followed an out-of-store first one |
| InteractionProofs.DeliveryConverges | go/internal/messengerdb/db.go:1017-1064 | histories that delivered the same agreeing copies in any order and number store the same row |
| InteractionProofs.SyncedStays | go/internal/messengerdb/db.go:1017-1064 | a synced row is never replaced |
| InteractionProofs.IndexAgrees | go/internal/messengerdb/db.go:1547-1569 | in every history each index entry belongs to a live row and holds the last text indexed for the cid now at that rowid, through deletion, replacement and reused rowids |
| InteractionProofs.SearchIsExact | go/internal/messengerdb/db.go:1497-1529 | a search is about exactly the rows that won for their cid, whose current text matches and which lie in the date window |
| InteractionProofs.SearchBetweenDates | go/internal/messengerdb/db.go:1516-1529 | without a reference the hits are the matching rows strictly inside the dates given, each of which counts when it is not 0 |
| InteractionProofs.SearchFromReference | go/internal/messengerdb/db.go:1516-1529 | with a date and a reference they come strictly after, or before, that date paired with that cid, whatever the reference's own date |
| InteractionProofs.SearchAfterReference | go/internal/messengerdb/db.go:1502-1529 | with a reference alone they come after it in the chosen direction; an unknown reference, or one dated 0, is ignored |
| InteractionProofs.DeletedIsNotFound | go/internal/messengerdb/db.go:879-891 | no search, whatever its options, finds a cid that has just been deleted |
| InteractionProofs.SearchContinues | go/internal/messengerdb/db.go:1502-1529 | a search continued after a hit is about exactly the hits after it iff that hit's date is not 0; a hit dated 0 starts the search over |
| InteractionProofs.SearchListsAll | go/internal/messengerdb/db.go:1478-1545 | when no hit is dated 0, searches chained by the last cid list hits in order and once; after more calls than hits an answer is empty, and then all hits have been listed |
| Conversations.DBWrapper.AddConversationForContact | go/internal/messengerdb/db.go:245-296 | refuses exactly the calls that would pair a used contact or a used conversation differently; otherwise creates or keeps the row |
| Conversations.DBWrapper.AddConversation | go/internal/messengerdb/db.go:298-334 | creates the group conversation without a contact, or reports that it exists |
| Conversations.DBWrapper.UpdateConversation | go/internal/messengerdb/db.go:336-388 | inserts a missing row as given; of a stored one it assigns only the non-empty listed columns |
| Conversations.DBWrapper.UpdateConversationReadState | go/internal/messengerdb/db.go:390-417 | sets the date and increments the counter for a new unread message |
| Conversations.DBWrapper.SetConversationIsOpenStatus | go/internal/messengerdb/db.go:1203-1241 | sets the flag, clears the counter only when a closed conversation opens, and reports whether anything changed |
| Conversations.ContactRowMeans | go/internal/messengerdb/db.go:245-296 | a stored row is kept; a new one is made only for a contact no row has, with each key in its column and everything else empty |
| Conversations.GroupRowMeans | go/internal/messengerdb/db.go:298-334 | the same for a group, without a contact |
| Conversations.UpsertedRowMeans | go/internal/messengerdb/db.go:336-388 | six columns of a stored row take the new value of that column unless it is empty; all others stay |
| Conversations.ReadStateRowMeans | go/internal/messengerdb/db.go:390-417 | the date and the counter change as asked and nothing else does |
| Conversations.OpenRowMeans | go/internal/messengerdb/db.go:1203-1241 | the flag is what was asked for, the counter is cleared only by opening a closed row, and nothing else changes |
| Conversations.OpenFollowsCalls | go/internal/messengerdb/db.go:1203-1241 | in every history a conversation is open iff the last call about its flag, or its creation, said so |
| Conversations.OneToOneStep | go/internal/messengerdb/db.go:245-388 | an operation keeps contacts and conversations one to one iff it is not an insert through the upsert with a contact key already taken |
| Conversations.ContactsStayOneToOne | go/internal/messengerdb/db.go:245-388 | after any history no two conversations share a non-empty contact key iff no upsert in it inserted a row with a contact key already taken |
| Conversations.UpsertCanDuplicate | go/internal/messengerdb/db.go:336-388 | an add for a contact followed by an upsert of a second conversation with that contact key pairs the contact twice |
| Conversations.ContactIsFixed | go/internal/messengerdb/db.go:245-388 | no operation changes the contact key of a stored conversation or removes one |
| Conversations.RepeatedAdd | go/internal/messengerdb/db.go:245-296 | in a history without such inserts an add that succeeded succeeds again at any later time and changes nothing |
| Conversations.UnreadSinceOpened | go/internal/messengerdb/db.go:1203-1241 | in every history the counter is the number of unread updates since the conversation last went from closed to open or was created |
| Members.DBWrapper.AddDevice | go/internal/messengerdb/db.go:948-993 | binds a new device; a bound one is returned if the member agrees and is an error if not |
| Members.DBWrapper.AddMember | go/internal/messengerdb/db.go:1121-1159 | inserts a new member; an existing one comes back unchanged with an error |
| Members.DBWrapper.UpsertMember | go/internal/messengerdb/db.go:1161-1201 | inserts under the payload's keys, or merges the non-zero fields and moves the row when the payload names another key; succeeds iff the member's row exists under the given key afterwards; a taken key changes nothing |
| Members.DBWrapper.MarkMemberAsConversationCreator | go/internal/messengerdb/db.go:1647-1659 | sets the creator flag of an existing member and is an error otherwise |
| Members.DBWrapper.IsFromSelf | go/internal/messengerdb/db.go:1605-1621 | whether the device's member in that group carries the flag |
| Members.SelfStaysSelf | go/internal/messengerdb/db.go:1605-1621 | from any state over any operations, a device that counts as self does so throughout iff no upsert moves its member's row to another key |
| Members.GrowsStep | go/internal/messengerdb/db.go:1161-1201 | an operation keeps every binding, row and true flag iff it is not an upsert that moves a row |
| Members.MovedRowMeans | go/internal/messengerdb/db.go:1180-1190 | where an upsert leaves a stored row, key by key |
| Members.FittingOpsOnlyAdd | go/internal/messengerdb/db.go:948-1201 | over any operations whose upsert payloads have empty keys or those of the arguments, bindings never change, flags only go from false to true and self never turns into not self |
| Members.MembersMatchHistory | go/internal/messengerdb/db.go:1121-1201 | in every history whose upsert payloads have empty keys or those of the arguments, a member's row and flag exist exactly as the creating and marking calls say |
| Members.ColumnsStep | go/internal/messengerdb/db.go:1121-1201 | what one call does to every column of a member's row |
| Members.ColumnsMatchHistory | go/internal/messengerdb/db.go:1121-1201 | in every such history the creator flag and the name are exactly what the calls say |
| Members.DevicesMatchHistory | go/internal/messengerdb/db.go:948-993 | a device is bound to the member of its first well-formed add |
| Members.SelfFromHistory | go/internal/messengerdb/db.go:1605-1621 | in every such history a device counts as self iff its first binding names a member that was ever marked |
| Registrations.CredentialTable.SaveAccountVerifiedCredential | go/internal/messengerdb/db.go:1728-1799 | the new table for valid, invalid, stale and renewing submissions, and when the call succeeds |
| Registrations.OneCredentialPerKey | go/internal/messengerdb/db.go:1728-1799 | in every history a key has at most one row, the one of the first valid submission that reached the greatest truncated expiration |
| Registrations.StoredRowMeans | go/internal/messengerdb/db.go:1753-1759 | that row has the submission's keys and truncated dates in their columns and the account it was submitted for |
| Registrations.ScaledTruncates | go/internal/messengerdb/db.go:1756-1757 | dates are divided by a million, toward zero |
| Registrations.StoredDatesInOrder | go/internal/messengerdb/db.go:1728-1799 | a stored registration is positive and not after the stored expiration |
| DirectoryRecords.DirectoryTable.SaveAccountDirectoryServiceRecord | go/internal/messengerdb/db.go:1822-1891 | succeeds iff no record is as recent and all fields are set; a failure leaves the table exactly as it was although the body deletes first |
| DirectoryRecords.SavedMeans | go/internal/messengerdb/db.go:1822-1891 | when a save is accepted, and the record it leaves, field by field |
| DirectoryRecords.RecordsOnlyRenew | go/internal/messengerdb/db.go:1822-1891 | in every history the table has at most one record of each identifier and server, the last of the successful saves for them, whose expirations strictly increase |
| Rebuild.CompareTableSchemas | go/internal/messengerdb/db_utils.go:195-214 | no error iff each column of the first has one in the second with the same name, type, not-null and key; each error names a missing column |
| Rebuild.CompareDBSchema | go/internal/messengerdb/db_utils.go:79-105 | no error iff both databases have the same tables and the first has no column the second lacks |
| Rebuild.DBWrapper.RestoreDatabaseLocalState | go/internal/messengerdb/db_utils.go:107-141 | succeeds iff the account and all kept conversations exist; what it writes then, and what it leaves when it stops early |
| Rebuild.DBWrapper.GetUpdatedDB | go/internal/messengerdb/db.go:140-171 | leaves a matching database alone; otherwise succeeds iff no step and not the replayer fails and everything kept is recreated, and says what each failure leaves |
| Rebuild.RebuildKeepsLocalState | go/internal/messengerdb/db_state_keeper.go:86-95 | whatever the replayer did, a successful rebuild restores the first old account's name, link and flags and each old conversation's open flag and counter, as far as they were readable, and leaves everything else as replayed |
| Rebuild.OtherRowsAsReplayed | go/internal/messengerdb/db_utils.go:124-138 | a conversation that was not kept comes out as replayed |
| Rebuild.NoAccountNoRebuild | go/internal/messengerdb/db_state_keeper.go:61-84 | without an account before the drop the restore succeeds iff the replayer left an account with the empty key and every kept conversation |
| Keystore.DistinctExactlyWhenSafe | go/internal/accountutils/keystore.go:66-100 | over a set of account ids no two requests share a key name iff no id is "global" and none runs through another's salt path |
| Keystore.SlashFreeIsSafe | go/internal/accountutils/keystore.go:70-84 | ids without a slash meet that condition iff none is "global" |
| Keystore.NamesSpelled | go/internal/accountutils/keystore.go:66-84 | the key names and sizes, spelled out |
| Keystore.MemNativeKeystore.Get | go/internal/accountutils/keystore.go:24-30 | the stored bytes or not found |
| Keystore.MemNativeKeystore.Put | go/internal/accountutils/keystore.go:32-35 | stores the bytes under that key only |
| Keystore.GetOrCreateKeystoreKey | go/internal/accountutils/keystore.go:43-64 | returns what is stored, else stores and returns fresh bytes; fails only when both are missing, and then changes nothing |
| Keystore.EachRequestHasItsOwnBytes | go/internal/accountutils/keystore.go:43-100 | in every sequence of requests each is answered with the bytes first drawn for that very request, 32 for keys and 16 for salts |
| Keystore.SameBytesAgain | go/internal/accountutils/keystore.go:43-64 | a request that was answered once gets the same bytes ever after and cannot fail |
| Keystore.LengthsAccepted | go/internal/accountutils/utils.go:299-314 | decides the length checks of the database opener |
| Keystore.OpenerAccepts | go/internal/accountutils/utils.go:307-314 | a key and a salt from one run always pass those checks, for every path |
| Keystore.SlashedIdMixesSizes | go/internal/accountutils/keystore.go:70-84 | an id with a slash can make a salt getter return a 32-byte key, which the opener refuses |

## Left out

- IPFS, libp2p, gRPC and HTTP setup, the other commands, all Swift, Expo and React code: wrappers and user interface.
- Gorm, SQLite and SQL text: only the effect on tables; failures of the disk or of a statement that the function itself does not cause (in `AddInteraction`, for instance, a failing insert after the deletion).
- Bot: message texts, sleeps, replies, the accept of incoming requests, the events received before the event loop, staff commands and empty message bodies; they touch neither lock nor store. The store file is written as one atomic action.
- WelcomeBot.Find: two entries for one public key are allowed, and claims are then per entry; only the last such entry is ever matched.
- DdlRoundTrip.RoundTrip: the head is matched at the beginning of the text with ASCII word characters; index statements, several statements and the columns derived from the fields are not modelled.
- DdlConstraints.EditsStayApart: only names without a quote or a space, since other names can be read as a longer one.
- Paging.GetPaginatedInteractions: associations loaded with the rows (member, conversation, reactions); the list of all conversations is a parameter.
- Interactions.DBWrapper.InteractionsSearch: matching, tokenizing and stemming are a relation that is a parameter; the code writes the cut-off date and the default limit back into the options it was given, and a caller who passes the same options again is not modelled; associations are left out.
- Conversations.DBWrapper.UpdateConversation: the columns that the upsert never writes (mute, shared tokens) and created dates; wall-clock times are inputs.
- Members.DBWrapper.UpsertMember: avatars are not modelled; that keys are written like other non-zero fields is the stated assumption on `Updates`.
- Rebuild.RebuildKeepsLocalState: for old tables with an account and a readable key; NULL columns are not modelled. An automatic migration that fails or a schema that cannot be read counts as a schema that does not match.
- Keystore.GetOrCreateKeystoreKey: only the in-memory store, which neither fails nor forgets; platform keystores can. The mutex makes a call atomic and is not modelled; neither is a caller that writes into the returned slice.
- `MarkAccountDirectoryServiceRecordAsRevoked` and the revoked column: its conditions have a meaning that only gorm decides.
- `AddContactRequest...`, `AttributeBacklogInteractions`, `MarkInteractionAsAcknowledged`, push and service tokens, metadata event marks, backup restore, row counts and getters: reads and single-row writes without an interplay between calls.
- `migrator.go`: table rebuilds by regular expressions.
- Panics inside a transaction function.
