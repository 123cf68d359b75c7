/** The conversation table: one conversation per contact, and the unread counter. */
module Conversations {
  import opened Results

  datatype ConvError = InvalidInput | AddRefused | AlreadyExists | NotFound

  datatype Kind = Undefined | AccountType | ContactType | MultiMemberType

  datatype Conv = Conv(
    contactPk: string,
    kind: Kind,
    displayName: string,
    link: string,
    localDevicePk: string,
    localMemberPk: string,
    accountMemberPk: string,
    infoDate: int,
    isOpen: bool,
    unread: int,
    lastUpdate: int)

  type Table = map<string, Conv>

  function NewConv(contactPk: string, kind: Kind, devicePk: string, memberPk: string): Conv {
    Conv(contactPk, kind, "", "", devicePk, memberPk, "", 0, false, 0, 0)
  }

  /** (contact == ? AND public_key != ?) OR (contact != ? AND public_key == ?) selects no row. */
  predicate Compatible(t: Table, pk: string, contactPk: string) {
    forall p :: p in t ==> (t[p].contactPk == contactPk <==> p == pk)
  }

  function ContactAdded(t: Table, pk: string, memberPk: string, devicePk: string, contactPk: string): Table {
    if pk == "" || contactPk == "" || !Compatible(t, pk, contactPk) || pk in t then t
    else t[pk := NewConv(contactPk, ContactType, devicePk, memberPk)]
  }

  function GroupAdded(t: Table, pk: string, memberPk: string, devicePk: string): Table {
    if pk == "" || devicePk == "" || memberPk == "" || pk in t then t
    else t[pk := NewConv("", MultiMemberType, devicePk, memberPk)]
  }

  /** The upsert assigns only the columns whose new value is not empty. */
  function Merged(row: Conv, c: Conv): Conv {
    row.(
      link := if c.link != "" then c.link else row.link,
      displayName := if c.displayName != "" then c.displayName else row.displayName,
      localDevicePk := if c.localDevicePk != "" then c.localDevicePk else row.localDevicePk,
      localMemberPk := if c.localMemberPk != "" then c.localMemberPk else row.localMemberPk,
      accountMemberPk := if c.accountMemberPk != "" then c.accountMemberPk else row.accountMemberPk,
      infoDate := if c.infoDate != 0 then c.infoDate else row.infoDate)
  }

  function Updated(t: Table, pk: string, c: Conv): Table {
    if pk == "" then t else t[pk := if pk in t then Merged(t[pk], c) else c]
  }

  function ReadStateUpdated(t: Table, pk: string, newUnread: bool, date: int): Table {
    if pk !in t then t
    else t[pk := t[pk].(lastUpdate := date, unread := t[pk].unread + if newUnread then 1 else 0)]
  }

  function OpenSet(t: Table, pk: string, status: bool): Table {
    if pk !in t || t[pk].isOpen == status then t
    else t[pk := t[pk].(isOpen := status, unread := if status then 0 else t[pk].unread)]
  }

  class DBWrapper {
    var conversations: Table

    constructor ()
      ensures conversations == map[]
    {
      conversations := map[];
    }

    method AddConversationForContact(pk: string, memberPk: string, devicePk: string, contactPk: string)
      returns (r: Result<Conv, ConvError>)
      modifies this
      ensures conversations == ContactAdded(old(conversations), pk, memberPk, devicePk, contactPk)
      ensures r.Ok? <==> pk != "" && contactPk != "" && Compatible(old(conversations), pk, contactPk)
      ensures r.Ok? ==> pk in conversations && r.value == conversations[pk] && r.value.contactPk == contactPk
    {
      if pk == "" { return Err(InvalidInput); }
      if contactPk == "" { return Err(InvalidInput); }
      if !Compatible(conversations, pk, contactPk) { return Err(AddRefused); }
      if pk !in conversations {
        conversations := conversations[pk := NewConv(contactPk, ContactType, devicePk, memberPk)];
      }
      return Ok(conversations[pk]);
    }

    method AddConversation(pk: string, memberPk: string, devicePk: string) returns (r: Result<Conv, ConvError>)
      modifies this
      ensures conversations == GroupAdded(old(conversations), pk, memberPk, devicePk)
      ensures r.Ok? <==> pk != "" && memberPk != "" && devicePk != "" && pk !in old(conversations)
      ensures r.Ok? ==> pk in conversations && r.value == conversations[pk]
    {
      if pk == "" { return Err(InvalidInput); }
      if devicePk == "" { return Err(InvalidInput); }
      if memberPk == "" { return Err(InvalidInput); }
      if pk in conversations { return Err(AlreadyExists); }
      conversations := conversations[pk := NewConv("", MultiMemberType, devicePk, memberPk)];
      return Ok(conversations[pk]);
    }

    method UpdateConversation(pk: string, c: Conv) returns (r: Result<bool, ConvError>)
      modifies this
      ensures conversations == Updated(old(conversations), pk, c)
      ensures r == if pk == "" then Err(InvalidInput) else Ok(pk !in old(conversations))
    {
      if pk == "" { return Err(InvalidInput); }
      var isNew := pk !in conversations;
      var columns: set<string> := {};
      if c.link != "" { columns := columns + {"link"}; }
      if c.displayName != "" { columns := columns + {"display_name"}; }
      if c.localDevicePk != "" { columns := columns + {"local_device_public_key"}; }
      if c.localMemberPk != "" { columns := columns + {"local_member_public_key"}; }
      if c.accountMemberPk != "" { columns := columns + {"account_member_public_key"}; }
      if c.infoDate != 0 { columns := columns + {"info_date"}; }
      if columns == {} && !isNew {
        assert "link" !in columns && "display_name" !in columns && "local_device_public_key" !in columns
          && "local_member_public_key" !in columns && "account_member_public_key" !in columns && "info_date" !in columns;
        return Ok(false);
      }
      if isNew {
        conversations := conversations[pk := c];
      } else {
        conversations := conversations[pk := Merged(conversations[pk], c)];
      }
      return Ok(isNew);
    }

    method UpdateConversationReadState(pk: string, newUnread: bool, date: int) returns (r: Result<(), ConvError>)
      modifies this
      ensures conversations == if pk == "" then old(conversations) else ReadStateUpdated(old(conversations), pk, newUnread, date)
      ensures r.Ok? <==> pk != "" && pk in old(conversations)
    {
      if pk == "" { return Err(InvalidInput); }
      if pk !in conversations { return Err(NotFound); }
      var row := conversations[pk].(lastUpdate := date);
      if newUnread { row := row.(unread := row.unread + 1); }
      conversations := conversations[pk := row];
      return Ok(());
    }

    method SetConversationIsOpenStatus(pk: string, status: bool) returns (r: Result<(Conv, bool), ConvError>)
      modifies this
      ensures conversations == if pk == "" then old(conversations) else OpenSet(old(conversations), pk, status)
      ensures r.Ok? <==> pk != "" && pk in old(conversations)
      ensures r.Ok? ==> r.value == (conversations[pk], old(conversations)[pk].isOpen != status)
    {
      if pk == "" { return Err(InvalidInput); }
      if pk !in conversations { return Err(NotFound); }
      if conversations[pk].isOpen == status { return Ok((conversations[pk], false)); }
      var row := conversations[pk].(isOpen := status);
      if status { row := row.(unread := 0); }
      conversations := conversations[pk := row];
      return Ok((row, true));
    }
  }

  // ---------------------------------------------------------------- histories

  datatype Op =
    | AddForContact(pk: string, memberPk: string, devicePk: string, contactPk: string)
    | AddGroup(pk: string, memberPk: string, devicePk: string)
    | Update(pk: string, c: Conv)
    | ReadState(pk: string, newUnread: bool, date: int)
    | SetOpen(pk: string, status: bool)

  function Apply(t: Table, op: Op): Table {
    match op
    case AddForContact(pk, memberPk, devicePk, contactPk) => ContactAdded(t, pk, memberPk, devicePk, contactPk)
    case AddGroup(pk, memberPk, devicePk) => GroupAdded(t, pk, memberPk, devicePk)
    case Update(pk, c) => Updated(t, pk, c)
    case ReadState(pk, newUnread, date) => if pk == "" then t else ReadStateUpdated(t, pk, newUnread, date)
    case SetOpen(pk, status) => if pk == "" then t else OpenSet(t, pk, status)
  }

  function After(ops: seq<Op>): Table {
    if ops == [] then map[] else Apply(After(ops[..|ops| - 1]), ops[|ops| - 1])
  }

  // ---------------------------------------------------------------- each call, column by column

  /** No call touches another conversation. */
  lemma OtherRowsStay(t: Table, op: Op, pk: string)
    requires pk != op.pk
    ensures pk in Apply(t, op) <==> pk in t
    ensures pk in t ==> Apply(t, op)[pk] == t[pk]
  {
  }

  /** A stored row is kept as it is; a new one is made only for a free contact, with the keys in their columns. */
  lemma ContactRowMeans(t: Table, pk: string, memberPk: string, devicePk: string, contactPk: string)
    ensures var t' := Apply(t, AddForContact(pk, memberPk, devicePk, contactPk));
            && (pk in t ==> t' == t)
            && (pk !in t ==>
                  (pk in t' <==> pk != "" && contactPk != "" && forall p :: p in t ==> t[p].contactPk != contactPk))
            && (pk !in t && pk in t' ==>
                  var row := t'[pk];
                  && row.contactPk == contactPk && row.kind == ContactType
                  && row.localDevicePk == devicePk && row.localMemberPk == memberPk
                  && row.displayName == row.link == row.accountMemberPk == ""
                  && !row.isOpen && row.unread == row.infoDate == row.lastUpdate == 0)
  {
  }

  lemma GroupRowMeans(t: Table, pk: string, memberPk: string, devicePk: string)
    ensures var t' := Apply(t, AddGroup(pk, memberPk, devicePk));
            && (pk in t ==> t' == t)
            && (pk !in t ==> (pk in t' <==> pk != "" && memberPk != "" && devicePk != ""))
            && (pk !in t && pk in t' ==>
                  var row := t'[pk];
                  && row.contactPk == "" && row.kind == MultiMemberType
                  && row.localDevicePk == devicePk && row.localMemberPk == memberPk
                  && row.displayName == row.link == row.accountMemberPk == ""
                  && !row.isOpen && row.unread == row.infoDate == row.lastUpdate == 0)
  {
  }

  /** An upsert of a stored row assigns six columns, each from its own and only if that is not empty. */
  lemma UpsertedRowMeans(t: Table, pk: string, c: Conv)
    requires pk != ""
    ensures var t' := Apply(t, Update(pk, c));
            && pk in t'
            && (pk !in t ==> t'[pk] == c)
            && (pk in t ==>
                  var row, was := t'[pk], t[pk];
                  && row.displayName == (if c.displayName == "" then was.displayName else c.displayName)
                  && row.link == (if c.link == "" then was.link else c.link)
                  && row.localDevicePk == (if c.localDevicePk == "" then was.localDevicePk else c.localDevicePk)
                  && row.localMemberPk == (if c.localMemberPk == "" then was.localMemberPk else c.localMemberPk)
                  && row.accountMemberPk == (if c.accountMemberPk == "" then was.accountMemberPk else c.accountMemberPk)
                  && row.infoDate == (if c.infoDate == 0 then was.infoDate else c.infoDate)
                  && row.contactPk == was.contactPk && row.kind == was.kind && row.isOpen == was.isOpen
                  && row.unread == was.unread && row.lastUpdate == was.lastUpdate)
  {
  }

  lemma ReadStateRowMeans(t: Table, pk: string, newUnread: bool, date: int)
    requires pk != "" && pk in t
    ensures var t' := Apply(t, ReadState(pk, newUnread, date));
            && pk in t' && t'[pk].lastUpdate == date && t'[pk].unread == t[pk].unread + (if newUnread then 1 else 0)
            && t'[pk] == t[pk].(lastUpdate := t'[pk].lastUpdate, unread := t'[pk].unread)
  {
  }

  lemma OpenRowMeans(t: Table, pk: string, status: bool)
    requires pk != "" && pk in t
    ensures var t' := Apply(t, SetOpen(pk, status));
            && pk in t' && t'[pk].isOpen == status
            && t'[pk].unread == (if status && !t[pk].isOpen then 0 else t[pk].unread)
            && t'[pk] == t[pk].(isOpen := status, unread := t'[pk].unread)
  {
  }

  /** What the calls say about the flag: the last status set since the row was made, or what it was made with. */
  function LastStatus(ops: seq<Op>, pk: string): Option<bool> {
    if ops == [] then None
    else
      var before, op := LastStatus(ops[..|ops| - 1], pk), ops[|ops| - 1];
      if op.pk != pk || pk == "" then before
      else
        match op
        case AddForContact(_, _, _, contactPk) =>
          if before.None? && contactPk != "" && Compatible(After(ops[..|ops| - 1]), pk, contactPk) then Some(false) else before
        case AddGroup(_, memberPk, devicePk) =>
          if before.None? && memberPk != "" && devicePk != "" then Some(false) else before
        case Update(_, c) => if before.None? then Some(c.isOpen) else before
        case ReadState(_, _, _) => before
        case SetOpen(_, status) => if before.None? then None else Some(status)
  }

  /** In every history a conversation is open exactly when the last call about it said so. */
  lemma {:induction false} OpenFollowsCalls(ops: seq<Op>, pk: string)
    ensures LastStatus(ops, pk) == if pk in After(ops) then Some(After(ops)[pk].isOpen) else None
  {
    if ops != [] {
      var before, op := ops[..|ops| - 1], ops[|ops| - 1];
      OpenFollowsCalls(before, pk);
      if op.pk != pk { OtherRowsStay(After(before), op, pk); }
    }
  }

  // ---------------------------------------------------------------- one conversation per contact

  ghost predicate OneToOne(t: Table) {
    forall p, q :: p in t && q in t && t[p].contactPk == t[q].contactPk && t[p].contactPk != "" ==> p == q
  }

  /** An upsert that would create a second conversation for a contact. */
  predicate Duplicates(t: Table, op: Op) {
    && op.Update? && op.pk != "" && op.pk !in t && op.c.contactPk != ""
    && exists p :: p in t && t[p].contactPk == op.c.contactPk
  }

  /** Every operation keeps contacts and conversations one to one, except exactly such an upsert. */
  lemma OneToOneStep(t: Table, op: Op)
    requires OneToOne(t)
    ensures OneToOne(Apply(t, op)) <==> !Duplicates(t, op)
  {
    var t' := Apply(t, op);
    if Duplicates(t, op) {
      var p :| p in t && t[p].contactPk == op.c.contactPk;
      assert p in t' && op.pk in t' && t'[p].contactPk == t'[op.pk].contactPk;
    }
  }

  /** UpdateConversation's inserts carry no contact key that is already taken; in practice, none at all. */
  ghost predicate NoDuplicates(ops: seq<Op>) {
    forall i :: 0 <= i < |ops| ==> !Duplicates(After(ops[..i]), ops[i])
  }

  lemma NoDuplicatesSnoc(before: seq<Op>, op: Op)
    ensures NoDuplicates(before + [op]) <==> NoDuplicates(before) && !Duplicates(After(before), op)
  {
    var ops := before + [op];
    assert ops[..|before|] == before && ops[|before|] == op;
    forall i | 0 <= i < |before|
      ensures Duplicates(After(ops[..i]), ops[i]) <==> Duplicates(After(before[..i]), before[i])
    {
      assert ops[..i] == before[..i];
    }
  }

  lemma ContactStep(t: Table, op: Op, pk: string)
    requires pk in t
    ensures pk in Apply(t, op) && Apply(t, op)[pk].contactPk == t[pk].contactPk
  {
  }

  /** A pairing once broken stays broken. */
  lemma BrokenStays(t: Table, op: Op)
    requires !OneToOne(t)
    ensures !OneToOne(Apply(t, op))
  {
    var p, q :| p in t && q in t && t[p].contactPk == t[q].contactPk && t[p].contactPk != "" && p != q;
    ContactStep(t, op, p);
    ContactStep(t, op, q);
  }

  /** After any history contacts and conversations are one to one exactly when no insert duplicated a contact. */
  lemma {:induction false} ContactsStayOneToOne(ops: seq<Op>)
    ensures OneToOne(After(ops)) <==> NoDuplicates(ops)
  {
    if ops != [] {
      var before, op := ops[..|ops| - 1], ops[|ops| - 1];
      ContactsStayOneToOne(before);
      NoDuplicatesSnoc(before, op);
      assert ops == before + [op];
      if OneToOne(After(before)) { OneToOneStep(After(before), op); } else { BrokenStays(After(before), op); }
    }
  }

  /** An upsert can pair a contact with a second conversation. */
  lemma UpsertCanDuplicate()
    ensures !OneToOne(After([AddForContact("c1", "m", "d", "contact"), Update("c2", NewConv("contact", ContactType, "d", "m"))]))
  {
    var ops := [AddForContact("c1", "m", "d", "contact"), Update("c2", NewConv("contact", ContactType, "d", "m"))];
    var first := After(ops[..1]);
    AfterNext(ops, 0);
    AfterNext(ops, 1);
    assert ops[..0] == [] && ops[..2] == ops;
    assert first == ContactAdded(map[], "c1", "m", "d", "contact");
    assert "c1" in first && first["c1"].contactPk == "contact";
    assert first.Keys == {"c1"} && "c2" !in first;
    assert Duplicates(first, ops[1]);
    assert OneToOne(first);
    OneToOneStep(first, ops[1]);
  }

  /** No operation at all changes the contact of a stored conversation, or removes one. */
  lemma {:induction false} ContactIsFixed(ops: seq<Op>, i: nat, pk: string)
    requires i <= |ops| && pk in After(ops[..i])
    ensures pk in After(ops) && After(ops)[pk].contactPk == After(ops[..i])[pk].contactPk
  {
    if i == |ops| {
      assert ops[..i] == ops;
    } else {
      var before := ops[..|ops| - 1];
      assert before[..i] == ops[..i];
      ContactIsFixed(before, i, pk);
      ContactStep(After(before), ops[|ops| - 1], pk);
    }
  }

  lemma AfterNext(ops: seq<Op>, i: nat)
    requires i < |ops|
    ensures After(ops[..i + 1]) == Apply(After(ops[..i]), ops[i])
  {
    assert ops[..i + 1][..i] == ops[..i];
  }

  lemma OnlyRowOfContact(t: Table, pk: string, contactPk: string)
    requires OneToOne(t) && pk in t && t[pk].contactPk == contactPk != ""
    ensures Compatible(t, pk, contactPk)
  {
  }

  /** Once an add for a contact succeeded, repeating it, at any later time, changes nothing and succeeds again. */
  lemma RepeatedAdd(ops: seq<Op>, i: nat, pk: string, memberPk: string, devicePk: string, contactPk: string)
    requires NoDuplicates(ops) && i < |ops| && ops[i] == AddForContact(pk, memberPk, devicePk, contactPk)
    requires pk != "" && contactPk != "" && Compatible(After(ops[..i]), pk, contactPk)
    ensures Compatible(After(ops), pk, contactPk)
    ensures Apply(After(ops), ops[i]) == After(ops)
  {
    AfterNext(ops, i);
    ContactIsFixed(ops, i + 1, pk);
    ContactsStayOneToOne(ops);
    OnlyRowOfContact(After(ops), pk, contactPk);
  }

  // ---------------------------------------------------------------- the unread counter

  /** The operation at `i` created the row, or took it from closed to open. */
  ghost predicate Resets(ops: seq<Op>, i: nat, pk: string)
    requires i < |ops|
  {
    var before, after := After(ops[..i]), After(ops[..i + 1]);
    && pk in after
    && (pk !in before || (!before[pk].isOpen && after[pk].isOpen))
  }

  function Unreads(op: Op, pk: string): nat { if op.ReadState? && op.pk == pk && op.newUnread then 1 else 0 }

  function NewUnreads(ops: seq<Op>, pk: string): nat {
    if ops == [] then 0
    else NewUnreads(ops[..|ops| - 1], pk) + Unreads(ops[|ops| - 1], pk)
  }

  /** `r` is the last reset, and the counter is what it was then plus the unread updates since. */
  ghost predicate CountsSince(ops: seq<Op>, r: nat, pk: string) {
    && LastReset(ops, r, pk)
    && pk in After(ops)
    && After(ops)[pk].unread == After(ops[..r + 1])[pk].unread + NewUnreads(ops[r + 1..], pk)
    && (pk in After(ops[..r]) ==> After(ops[..r + 1])[pk].unread == 0)
  }

  lemma UnreadStep(t: Table, op: Op, pk: string)
    requires pk in t && pk != ""
    ensures var t' := Apply(t, op);
            && pk in t'
            && t'[pk].unread == if !t[pk].isOpen && t'[pk].isOpen then 0 else t[pk].unread + Unreads(op, pk)
  {
  }

  lemma SameResets(ops: seq<Op>, i: nat, pk: string)
    requires i + 1 < |ops|
    ensures Resets(ops[..|ops| - 1], i, pk) <==> Resets(ops, i, pk)
    ensures After(ops[..|ops| - 1][..i + 1]) == After(ops[..i + 1]) && After(ops[..|ops| - 1][..i]) == After(ops[..i])
  {
    assert ops[..|ops| - 1][..i] == ops[..i] && ops[..|ops| - 1][..i + 1] == ops[..i + 1];
  }

  lemma LastUnread(ops: seq<Op>, r: nat, pk: string)
    requires r + 1 < |ops|
    ensures NewUnreads(ops[r + 1..], pk) == NewUnreads(ops[..|ops| - 1][r + 1..], pk) + Unreads(ops[|ops| - 1], pk)
  {
    assert ops[r + 1..][..|ops[r + 1..]| - 1] == ops[..|ops| - 1][r + 1..];
  }

  /** An operation that resets nothing adds its own unread update, if it is one. */
  lemma NotReset(ops: seq<Op>, pk: string)
    requires ops != [] && pk != "" && pk in After(ops[..|ops| - 1]) && !Resets(ops, |ops| - 1, pk)
    ensures pk in After(ops)
    ensures After(ops)[pk].unread == After(ops[..|ops| - 1])[pk].unread + Unreads(ops[|ops| - 1], pk)
  {
    assert ops[..|ops|] == ops;
    UnreadStep(After(ops[..|ops| - 1]), ops[|ops| - 1], pk);
  }

  /** The last reset is at `r`. */
  ghost predicate LastReset(ops: seq<Op>, r: nat, pk: string) {
    r < |ops| && Resets(ops, r, pk) && forall i :: r < i < |ops| ==> !Resets(ops, i, pk)
  }

  lemma ResetsLater(ops: seq<Op>, r: nat, pk: string)
    requires ops != [] && LastReset(ops[..|ops| - 1], r, pk) && !Resets(ops, |ops| - 1, pk)
    ensures LastReset(ops, r, pk)
  {
    SameResets(ops, r, pk);
    forall i | r < i < |ops| ensures !Resets(ops, i, pk) {
      if i < |ops| - 1 { SameResets(ops, i, pk); }
    }
  }

  lemma CountsLater(ops: seq<Op>, r: nat, pk: string)
    requires ops != [] && pk != "" && CountsSince(ops[..|ops| - 1], r, pk) && !Resets(ops, |ops| - 1, pk)
    ensures CountsSince(ops, r, pk)
  {
    ResetsLater(ops, r, pk);
    SameResets(ops, r, pk);
    LastUnread(ops, r, pk);
    NotReset(ops, pk);
  }

  /**
    In every history the unread count is the number of unread updates since the conversation last
    went from closed to open (or since it was created, on top of what it was created with).
  */
  lemma {:induction false} UnreadSinceOpened(ops: seq<Op>, pk: string) returns (r: nat)
    requires pk != "" && pk in After(ops)
    ensures CountsSince(ops, r, pk)
  {
    var before, last := ops[..|ops| - 1], |ops| - 1;
    assert ops[..last] == before && ops[..|ops|] == ops;
    if Resets(ops, last, pk) {
      r := last;
      assert ops[|ops|..] == [];
      if pk in After(before) { UnreadStep(After(before), ops[last], pk); }
    } else {
      r := UnreadSinceOpened(before, pk);
      CountsLater(ops, r, pk);
    }
  }
}
