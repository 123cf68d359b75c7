/** Devices, members, and who counts as "self". */
module Members {
  import opened Results

  datatype MemberError = InvalidInput | AlreadyExists | NotFound | WriteFailed

  datatype Member = Member(displayName: string, isMe: bool, isCreator: bool, infoDate: int)

  /** The members table is keyed by public key and conversation. */
  datatype Key = Key(memberPk: string, groupPk: string)

  /** What UpsertMember is given; either key may be left empty. */
  datatype Payload = Payload(key: Key, member: Member)

  datatype Tables = Tables(devices: map<string, string>, members: map<Key, Member>)

  predicate Named(key: Key) { key.memberPk != "" && key.groupPk != "" }

  /** Updates with a struct writes its non-zero fields only. */
  function Merged(old_: Member, m: Member): Member {
    Member(
      if m.displayName != "" then m.displayName else old_.displayName,
      old_.isMe || m.isMe,
      old_.isCreator || m.isCreator,
      if m.infoDate != 0 then m.infoDate else old_.infoDate)
  }

  /** The keys are columns too: a payload that names another member moves the row. */
  function Rekeyed(key: Key, payload: Key): Key {
    Key(if payload.memberPk != "" then payload.memberPk else key.memberPk,
        if payload.groupPk != "" then payload.groupPk else key.groupPk)
  }

  /** A payload whose keys are empty or those of the arguments. */
  predicate Fits(payload: Payload, key: Key) {
    && (payload.key.memberPk == "" || payload.key.memberPk == key.memberPk)
    && (payload.key.groupPk == "" || payload.key.groupPk == key.groupPk)
  }

  function DeviceAdded(t: Tables, devicePk: string, memberPk: string): Tables {
    if devicePk == "" || memberPk == "" || devicePk in t.devices then t
    else t.(devices := t.devices[devicePk := memberPk])
  }

  function MemberAdded(t: Tables, key: Key, m: Member): Tables {
    if !Named(key) || key in t.members then t else t.(members := t.members[key := m])
  }

  /**
    A missing member is created under the payload's own keys, even when they are empty; a write
    whose key belongs to another row fails.
  */
  function Upserted(t: Tables, key: Key, payload: Payload): Tables {
    if !Named(key) then t
    else if key !in t.members then
      if payload.key in t.members then t else t.(members := t.members[payload.key := payload.member])
    else
      var to := Rekeyed(key, payload.key);
      if to != key && to in t.members then t
      else t.(members := (t.members - {key})[to := Merged(t.members[key], payload.member)])
  }

  function CreatorMarked(t: Tables, key: Key): Tables {
    if Named(key) && key in t.members then t.(members := t.members[key := t.members[key].(isCreator := true)]) else t
  }

  predicate FromSelf(t: Tables, groupPk: string, devicePk: string) {
    && devicePk in t.devices
    && Key(t.devices[devicePk], groupPk) in t.members
    && t.members[Key(t.devices[devicePk], groupPk)].isMe
  }

  class DBWrapper {
    var devices: map<string, string>
    var members: map<Key, Member>

    ghost function View(): Tables
      reads this
    {
      Tables(devices, members)
    }

    constructor ()
      ensures View() == Tables(map[], map[])
    {
      devices, members := map[], map[];
    }

    method AddDevice(devicePk: string, memberPk: string) returns (r: Result<string, MemberError>)
      modifies this
      ensures View() == DeviceAdded(old(View()), devicePk, memberPk)
      ensures r.Ok? <==> devicePk != "" && memberPk != "" && (devicePk in old(devices) ==> old(devices)[devicePk] == memberPk)
      ensures r.Ok? ==> devicePk in devices && devices[devicePk] == r.value == memberPk
    {
      if devicePk == "" { return Err(InvalidInput); }
      if memberPk == "" { return Err(InvalidInput); }
      if devicePk in devices && devices[devicePk] != memberPk { return Err(WriteFailed); }
      if devicePk !in devices { devices := devices[devicePk := memberPk]; }
      return Ok(devices[devicePk]);
    }

    /** On AlreadyExists the stored member comes back with the error. */
    method AddMember(key: Key, displayName: string, isMe: bool, isCreator: bool)
      returns (r: Result<(), MemberError>, m: Option<Member>)
      modifies this
      ensures View() == MemberAdded(old(View()), key, Member(displayName, isMe, isCreator, 0))
      ensures r == if !Named(key) then Err(InvalidInput) else if key in old(members) then Err(AlreadyExists) else Ok(())
      ensures Named(key) ==> key in members && m == Some(members[key])
    {
      if key.memberPk == "" || key.groupPk == "" { return Err(InvalidInput), None; }
      if key in members { return Err(AlreadyExists), Some(members[key]); }
      members := members[key := Member(displayName, isMe, isCreator, 0)];
      return Ok(()), Some(members[key]);
    }

    method UpsertMember(key: Key, payload: Payload) returns (r: Result<(Member, bool), MemberError>)
      modifies this
      ensures View() == Upserted(old(View()), key, payload)
      ensures r.Ok? <==> Named(key) && key == if key in old(members) then Rekeyed(key, payload.key) else payload.key
      ensures r.Ok? ==> key in members && r.value == (members[key], key !in old(members))
      ensures r == Err(WriteFailed) ==> members == old(members)
    {
      if key.memberPk == "" || key.groupPk == "" { return Err(InvalidInput); }
      var isNew := key !in members;
      if isNew {
        if payload.key in members { return Err(WriteFailed); }
        members := members[payload.key := payload.member];
      } else {
        var to := Rekeyed(key, payload.key);
        if to != key && to in members { return Err(WriteFailed); }
        members := (members - {key})[to := Merged(members[key], payload.member)];
      }
      if key !in members { return Err(NotFound); }
      return Ok((members[key], isNew));
    }

    method MarkMemberAsConversationCreator(key: Key) returns (r: Result<(), MemberError>)
      modifies this
      ensures View() == CreatorMarked(old(View()), key)
      ensures r.Ok? <==> Named(key) && key in old(members)
    {
      if !Named(key) { return Err(InvalidInput); }
      if key !in members { return Err(NotFound); }
      members := members[key := members[key].(isCreator := true)];
      return Ok(());
    }

    method IsFromSelf(groupPk: string, devicePk: string) returns (r: Result<bool, MemberError>)
      ensures r.Err? <==> devicePk == "" || (devicePk in devices && !Named(Key(devices[devicePk], groupPk)))
      ensures r.Ok? ==> r.value == FromSelf(View(), groupPk, devicePk)
    {
      if devicePk == "" { return Err(InvalidInput); }
      if devicePk !in devices { return Ok(false); }
      var key := Key(devices[devicePk], groupPk);
      if !Named(key) { return Err(InvalidInput); }
      if key !in members { return Ok(false); }
      return Ok(members[key].isMe);
    }
  }

  // ---------------------------------------------------------------- over a whole history

  datatype Op =
    | AddDevice(devicePk: string, memberPk: string)
    | AddMember(key: Key, m: Member)
    | Upsert(key: Key, payload: Payload)
    | MarkCreator(key: Key)

  function Apply(t: Tables, op: Op): Tables {
    match op
    case AddDevice(devicePk, memberPk) => DeviceAdded(t, devicePk, memberPk)
    case AddMember(key, m) => MemberAdded(t, key, m)
    case Upsert(key, payload) => Upserted(t, key, payload)
    case MarkCreator(key) => CreatorMarked(t, key)
  }

  function After(ops: seq<Op>): Tables {
    if ops == [] then Tables(map[], map[]) else Apply(After(ops[..|ops| - 1]), ops[|ops| - 1])
  }

  ghost predicate AllFit(ops: seq<Op>) {
    forall i :: 0 <= i < |ops| && ops[i].Upsert? ==> Fits(ops[i].payload, ops[i].key)
  }

  /** Bindings, rows and flags of `earlier` are still there in `later`. */
  ghost predicate Grows(earlier: Tables, later: Tables) {
    && (forall d :: d in earlier.devices ==> d in later.devices && later.devices[d] == earlier.devices[d])
    && (forall k :: k in earlier.members ==>
          k in later.members
          && (earlier.members[k].isMe ==> later.members[k].isMe)
          && (earlier.members[k].isCreator ==> later.members[k].isCreator))
  }

  /** An upsert that takes this member's row away, by naming a member that does not exist. */
  predicate Moves(t: Tables, op: Op, key: Key) {
    && op.Upsert? && op.key == key && Named(key) && key in t.members
    && Rekeyed(key, op.payload.key) !in t.members
  }

  predicate MovesSome(t: Tables, op: Op) { op.Upsert? && Moves(t, op, op.key) }

  /** Every operation keeps all bindings, rows and flags, except exactly such an upsert. */
  lemma GrowsStep(t: Tables, op: Op)
    ensures Grows(t, Apply(t, op)) <==> !MovesSome(t, op)
  {
    if MovesSome(t, op) { assert op.key !in Apply(t, op).members; }
  }

  /** A device that counts as self stops counting exactly when its member's row is moved away. */
  lemma SelfStep(t: Tables, op: Op, groupPk: string, devicePk: string)
    requires FromSelf(t, groupPk, devicePk)
    ensures FromSelf(Apply(t, op), groupPk, devicePk) <==> !Moves(t, op, Key(t.devices[devicePk], groupPk))
    ensures devicePk in Apply(t, op).devices && Apply(t, op).devices[devicePk] == t.devices[devicePk]
  {
  }

  /** Where an upsert of a stored row leaves it: under each key of the payload that is not empty. */
  lemma MovedRowMeans(t: Tables, memberPk: string, groupPk: string, payload: Payload)
    requires memberPk != "" && groupPk != "" && Key(memberPk, groupPk) in t.members
    ensures var key, t' := Key(memberPk, groupPk), Apply(t, Upsert(Key(memberPk, groupPk), payload));
            var to := Key(if payload.key.memberPk == "" then memberPk else payload.key.memberPk,
                          if payload.key.groupPk == "" then groupPk else payload.key.groupPk);
            && t'.devices == t.devices
            && (to != key && to in t.members ==> t' == t)
            && (to != key && to !in t.members ==>
                  to in t'.members && t'.members.Keys == t.members.Keys - {key} + {to}
                  && forall k :: k in t.members && k != key ==> t'.members[k] == t.members[k])
            && (to == key ==> t'.members.Keys == t.members.Keys)
  {
  }

  ghost predicate AlwaysSelf(t: Tables, ops: seq<Op>, groupPk: string, devicePk: string) {
    forall i :: 0 <= i <= |ops| ==> FromSelf(Continued(t, ops[..i]), groupPk, devicePk)
  }

  ghost predicate NeverMoved(t: Tables, ops: seq<Op>, key: Key) {
    forall i :: 0 <= i < |ops| ==> !Moves(Continued(t, ops[..i]), ops[i], key)
  }

  lemma AlwaysSelfSnoc(t: Tables, before: seq<Op>, op: Op, groupPk: string, devicePk: string)
    ensures AlwaysSelf(t, before + [op], groupPk, devicePk) <==>
            AlwaysSelf(t, before, groupPk, devicePk) && FromSelf(Continued(t, before + [op]), groupPk, devicePk)
  {
    var ops := before + [op];
    assert ops[..|ops|] == ops;
    assert forall i :: 0 <= i <= |before| ==> ops[..i] == before[..i];
    if AlwaysSelf(t, ops, groupPk, devicePk) {
      forall i | 0 <= i <= |before| ensures FromSelf(Continued(t, before[..i]), groupPk, devicePk) {
        assert before[..i] == ops[..i];
      }
    }
  }

  lemma NeverMovedSnoc(t: Tables, before: seq<Op>, op: Op, key: Key)
    ensures NeverMoved(t, before + [op], key) <==> NeverMoved(t, before, key) && !Moves(Continued(t, before), op, key)
  {
    var ops := before + [op];
    assert ops[|before|] == op && ops[..|before|] == before;
    assert forall i :: 0 <= i < |before| ==> ops[..i] == before[..i] && ops[i] == before[i];
    if NeverMoved(t, ops, key) {
      forall i | 0 <= i < |before| ensures !Moves(Continued(t, before[..i]), before[i], key) {
        assert !Moves(Continued(t, ops[..i]), ops[i], key);
      }
    }
  }

  /**
    From any state, over any further operations: a device that counts as self does so throughout
    exactly when no operation moves its member's row away.
  */
  lemma {:induction false} SelfStaysSelf(t: Tables, ops: seq<Op>, groupPk: string, devicePk: string)
    requires FromSelf(t, groupPk, devicePk)
    ensures AlwaysSelf(t, ops, groupPk, devicePk) <==> NeverMoved(t, ops, Key(t.devices[devicePk], groupPk))
    ensures AlwaysSelf(t, ops, groupPk, devicePk) ==>
              FromSelf(Continued(t, ops), groupPk, devicePk) && Continued(t, ops).devices[devicePk] == t.devices[devicePk]
  {
    if ops != [] {
      var before, op := ops[..|ops| - 1], ops[|ops| - 1];
      assert ops == before + [op];
      SelfStaysSelf(t, before, groupPk, devicePk);
      AlwaysSelfSnoc(t, before, op, groupPk, devicePk);
      NeverMovedSnoc(t, before, op, Key(t.devices[devicePk], groupPk));
      if AlwaysSelf(t, before, groupPk, devicePk) { SelfStep(Continued(t, before), op, groupPk, devicePk); }
    }
  }

  /** When every upsert's payload fits its arguments, nothing is ever lost. */
  lemma {:induction false} FittingOpsOnlyAdd(t: Tables, ops: seq<Op>, groupPk: string, devicePk: string)
    requires AllFit(ops)
    ensures Grows(t, Continued(t, ops))
    ensures FromSelf(t, groupPk, devicePk) ==> FromSelf(Continued(t, ops), groupPk, devicePk)
  {
    if ops != [] {
      FittingOpsOnlyAdd(t, ops[..|ops| - 1], groupPk, devicePk);
      GrowsStep(Continued(t, ops[..|ops| - 1]), ops[|ops| - 1]);
    }
  }

  function Continued(t: Tables, ops: seq<Op>): Tables {
    if ops == [] then t else Apply(Continued(t, ops[..|ops| - 1]), ops[|ops| - 1])
  }

  // The reference: what the history itself says.

  /** Whether this operation creates the row of a missing member. */
  predicate Creates(op: Op, key: Key) {
    || (op.AddMember? && op.key == key)
    || (op.Upsert? && op.key == key && op.payload.key == key)
  }

  ghost predicate Existed(ops: seq<Op>, key: Key) {
    exists i :: 0 <= i < |ops| && Creates(ops[i], key)
  }

  /** The operation at `i` set the flag: an effective upsert that carries it, or the creating AddMember. */
  ghost predicate SetsMe(ops: seq<Op>, i: nat, key: Key)
    requires i < |ops|
  {
    || (ops[i].Upsert? && ops[i].key == key && ops[i].payload.member.isMe
        && (ops[i].payload.key == key || Existed(ops[..i], key)))
    || (ops[i].AddMember? && ops[i].key == key && ops[i].m.isMe && !Existed(ops[..i], key))
  }

  ghost predicate Marked(ops: seq<Op>, key: Key) {
    exists i :: 0 <= i < |ops| && SetsMe(ops, i, key)
  }

  /** The member named by the first well-formed AddDevice of the device. */
  function FirstBinding(ops: seq<Op>, devicePk: string): Option<string> {
    if ops == [] then None
    else
      var before, op := FirstBinding(ops[..|ops| - 1], devicePk), ops[|ops| - 1];
      if before.None? && op.AddDevice? && op.devicePk == devicePk && devicePk != "" && op.memberPk != ""
      then Some(op.memberPk) else before
  }

  lemma ExistedSnoc(before: seq<Op>, op: Op, key: Key)
    ensures Existed(before + [op], key) <==> Existed(before, key) || Creates(op, key)
  {
    var ops := before + [op];
    assert ops[|before|] == op && forall i :: 0 <= i < |before| ==> ops[i] == before[i];
    if i :| 0 <= i < |before| && Creates(before[i], key) { assert Creates(ops[i], key); }
  }

  lemma MarkedSnoc(before: seq<Op>, op: Op, key: Key)
    ensures Marked(before + [op], key) <==> Marked(before, key) || SetsMe(before + [op], |before|, key)
  {
    var ops := before + [op];
    assert forall i :: 0 <= i <= |before| ==> ops[..i] == before[..i];
    assert forall i :: 0 <= i < |before| ==> (SetsMe(ops, i, key) <==> SetsMe(before, i, key));
    if i :| 0 <= i < |before| && SetsMe(before, i, key) { assert SetsMe(ops, i, key); }
  }

  /** What one operation does to one member's row: it may create it, and an effective one may mark it. */
  lemma MemberStep(t: Tables, op: Op, key: Key)
    requires Named(key) && (op.Upsert? ==> Fits(op.payload, op.key))
    ensures var before, after := t.members, Apply(t, op).members;
            && (key in after <==> key in before || Creates(op, key))
            && (key in after ==>
                  (after[key].isMe <==>
                     || (key in before && before[key].isMe)
                     || (op.Upsert? && op.key == key && op.payload.member.isMe)
                     || (op.AddMember? && op.key == key && op.m.isMe && key !in before)))
  {
  }

  lemma {:induction false} MembersMatchHistory(ops: seq<Op>, key: Key)
    requires AllFit(ops) && Named(key)
    ensures key in After(ops).members <==> Existed(ops, key)
    ensures key in After(ops).members ==> (After(ops).members[key].isMe <==> Marked(ops, key))
    ensures Marked(ops, key) ==> Existed(ops, key)
  {
    if ops != [] {
      var before, op := ops[..|ops| - 1], ops[|ops| - 1];
      assert ops == before + [op] && ops[..|before|] == before;
      MembersMatchHistory(before, key);
      ExistedSnoc(before, op, key);
      MarkedSnoc(before, op, key);
      MemberStep(After(before), op, key);
    }
  }

  /** The operation at `i` set the creator flag: a mark, an effective upsert that carries it, or the creating AddMember. */
  ghost predicate SetsCreator(ops: seq<Op>, i: nat, key: Key)
    requires i < |ops|
  {
    || (ops[i].MarkCreator? && ops[i].key == key && Existed(ops[..i], key))
    || (ops[i].Upsert? && ops[i].key == key && ops[i].payload.member.isCreator
        && (ops[i].payload.key == key || Existed(ops[..i], key)))
    || (ops[i].AddMember? && ops[i].key == key && ops[i].m.isCreator && !Existed(ops[..i], key))
  }

  ghost predicate Crowned(ops: seq<Op>, key: Key) {
    exists i :: 0 <= i < |ops| && SetsCreator(ops, i, key)
  }

  lemma CrownedSnoc(before: seq<Op>, op: Op, key: Key)
    ensures Crowned(before + [op], key) <==> Crowned(before, key) || SetsCreator(before + [op], |before|, key)
  {
    var ops := before + [op];
    assert forall i :: 0 <= i <= |before| ==> ops[..i] == before[..i];
    assert forall i :: 0 <= i < |before| ==> (SetsCreator(ops, i, key) <==> SetsCreator(before, i, key));
    if i :| 0 <= i < |before| && SetsCreator(before, i, key) { assert SetsCreator(ops, i, key); }
  }

  /** The last name that was not empty, since the row was created with one. */
  ghost function LastName(ops: seq<Op>, key: Key): string {
    if ops == [] then ""
    else
      var before, op := ops[..|ops| - 1], ops[|ops| - 1];
      if op.Upsert? && op.key == key && (op.payload.key == key || Existed(before, key)) && op.payload.member.displayName != ""
      then op.payload.member.displayName
      else if op.AddMember? && op.key == key && !Existed(before, key) then op.m.displayName
      else LastName(before, key)
  }

  /** What one operation does to the other columns of one member's row. */
  lemma ColumnsStep(t: Tables, op: Op, key: Key)
    requires Named(key) && (op.Upsert? ==> Fits(op.payload, op.key)) && key in Apply(t, op).members
    ensures var row, created := Apply(t, op).members[key], key !in t.members;
            if op.MarkCreator? && op.key == key then !created && row == t.members[key].(isCreator := true)
            else if op.Upsert? && op.key == key then
              var m := op.payload.member;
              if created then row == m
              else
                var was := t.members[key];
                && row.displayName == (if m.displayName == "" then was.displayName else m.displayName)
                && row.infoDate == (if m.infoDate == 0 then was.infoDate else m.infoDate)
                && row.isMe == (was.isMe || m.isMe) && row.isCreator == (was.isCreator || m.isCreator)
            else if created then op.AddMember? && op.key == key && row == op.m
            else row == t.members[key]
  {
  }

  /** The creator flag and the name, too, are exactly what the calls say. */
  lemma {:induction false} ColumnsMatchHistory(ops: seq<Op>, key: Key)
    requires AllFit(ops) && Named(key)
    ensures key in After(ops).members ==>
              && (After(ops).members[key].isCreator <==> Crowned(ops, key))
              && After(ops).members[key].displayName == LastName(ops, key)
    ensures key !in After(ops).members ==> !Crowned(ops, key) && LastName(ops, key) == ""
  {
    if ops != [] {
      var before, op := ops[..|ops| - 1], ops[|ops| - 1];
      assert ops == before + [op] && ops[..|before|] == before;
      ColumnsMatchHistory(before, key);
      MembersMatchHistory(before, key);
      MembersMatchHistory(ops, key);
      CrownedSnoc(before, op, key);
      if key in After(ops).members { ColumnsStep(After(before), op, key); }
      else { ExistedSnoc(before, op, key); }
    }
  }

  lemma {:induction false} DevicesMatchHistory(ops: seq<Op>, devicePk: string)
    ensures FirstBinding(ops, devicePk) ==
            if devicePk in After(ops).devices then Some(After(ops).devices[devicePk]) else None
    ensures FirstBinding(ops, devicePk).Some? ==> FirstBinding(ops, devicePk).value != ""
  {
    if ops != [] { DevicesMatchHistory(ops[..|ops| - 1], devicePk); }
  }

  /** IsFromSelf answers from the history: the device's first binding, and whether that member was ever marked as me. */
  lemma SelfFromHistory(ops: seq<Op>, groupPk: string, devicePk: string)
    requires AllFit(ops) && groupPk != ""
    ensures FromSelf(After(ops), groupPk, devicePk) <==>
            FirstBinding(ops, devicePk).Some? && Marked(ops, Key(FirstBinding(ops, devicePk).value, groupPk))
  {
    DevicesMatchHistory(ops, devicePk);
    if FirstBinding(ops, devicePk).Some? { MembersMatchHistory(ops, Key(FirstBinding(ops, devicePk).value, groupPk)); }
  }
}
