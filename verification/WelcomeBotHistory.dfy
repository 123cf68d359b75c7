/** What a whole run of the welcome bot has done, told from its events and the replies it got. */
module WelcomeBotHistory {
  import opened Results
  import opened WelcomeBot
  import opened WelcomeBotProofs
  import opened WelcomeBotRuns

  // ---------------------------------------------------------------- what one thread decides

  /** The events that started the threads, in order. */
  function Started(ls: seq<Label>, i: nat): seq<Event>
    requires i <= |ls|
  {
    if i == 0 then [] else Started(ls, i - 1) + if ls[i - 1].Spawn? then [ls[i - 1].ev] else []
  }

  /** Positions of a message handler before its step function has decided. */
  predicate Undecided(pc: PC) {
    || pc.ScanRLock? || pc.Scan? || pc.ScanRUnlock? || pc.MapLock? || pc.MapLookup? || pc.MapUnlock?
    || pc.ConvLock? || pc.WholeRLock? || pc.Dispatch? || pc.Panicked?
  }

  /** A thread still works for the event that started it. */
  predicate WorksFor(th: Thread, ev: Event) {
    if ev.Message? then th.msgPk == ev.pk && th.valid == ev.valid
    else !th.found && !th.advanced && !Undecided(th.pc) && !th.pc.Increment?
  }

  /** The step functions advance on a validation message at step 0 or 1, and only then. */
  predicate Decided(th: Thread) {
    if th.pc.ScanRLock? || th.pc.Scan? then !th.found && !th.advanced
    else if Undecided(th.pc) then !th.advanced && (th.pc.ScanRUnlock? || th.found)
    else if th.pc.Increment? then !th.advanced && th.found && th.valid && th.seen <= 1
    else th.advanced <==> th.found && th.valid && th.seen <= 1
  }

  /** An entry that was advanced is in the list; a thread that took it to step 2 goes on to its group. */
  predicate Placed(s: State, th: Thread) {
    && (th.advanced ==> th.conv < |s.convs|)
    && (CreatesGroup(th) ==> th.advanced && th.seen == 1)
  }

  ghost predicate HandlersInv(s: State, events: seq<Event>) {
    && |s.threads| == |events|
    && forall t: nat :: t < |s.threads| ==>
         WorksFor(s.threads[t], events[t]) && Decided(s.threads[t]) && Placed(s, s.threads[t])
  }

  lemma MovedDecides(s: State, t: nat, env: Env, ev: Event)
    requires Enabled(s, t) && Decided(s.threads[t]) && WorksFor(s.threads[t], ev)
    ensures Decided(Moved(s, t, env)) && WorksFor(Moved(s, t, env), ev)
  {
  }

  lemma MovedPlaced(s: State, t: nat, env: Env)
    requires Enabled(s, t) && Decided(s.threads[t]) && Placed(s, s.threads[t]) && Creates(s, t, s.threads[t])
    ensures Placed(Fired(s, t, env), Moved(s, t, env))
  {
  }

  lemma HandlersStep(s: State, l: Label, events: seq<Event>)
    requires HandlersInv(s, events) && StoreInv(s) && Allowed(s, l)
    ensures HandlersInv(Next(s, l), events + if l.Spawn? then [l.ev] else [])
  {
    if l.Fire? {
      assert Creates(s, l.t, s.threads[l.t]);
      MovedDecides(s, l.t, l.env, events[l.t]);
      MovedPlaced(s, l.t, l.env);
    }
  }

  lemma {:induction false} RunKeepsHandlers(tr: seq<State>, ls: seq<Label>, i: nat)
    requires Run(tr, ls) && i < |tr|
    ensures HandlersInv(tr[i], Started(ls, i))
  {
    if i > 0 {
      RunKeepsStore(tr, ls, i - 1);
      RunKeepsHandlers(tr, ls, i - 1);
      RunMoves(tr, ls, i - 1);
      HandlersStep(tr[i - 1], ls[i - 1], Started(ls, i - 1));
    }
  }

  /**
    A finished message handler has advanced an entry exactly when its scan had met one, the message
    validated, and the entry was at step 0 or 1 at the dispatch; other threads never advance any.
  */
  lemma ValidMessagesAdvance(tr: seq<State>, ls: seq<Label>, i: nat, t: nat)
    requires Run(tr, ls) && i < |tr| && t < |tr[i].threads| && tr[i].threads[t].pc.Done?
    ensures |Started(ls, i)| == |tr[i].threads|
    ensures var th, ev := tr[i].threads[t], Started(ls, i)[t];
            && (ev.Message? ==> th.msgPk == ev.pk && (th.advanced <==> th.found && ev.valid && th.seen <= 1))
            && (!ev.Message? ==> !th.advanced)
  {
    RunKeepsHandlers(tr, ls, i);
  }

  /** The scan meets the last entry of the message's conversation, if that is a one-to-one conversation. */
  lemma ScanMeets(tr: seq<State>, ls: seq<Label>, i: nat, c: nat)
    requires Run(tr, ls) && i < |ls| && ls[i].Fire? && ls[i].t < |tr[i].threads| && tr[i].threads[ls[i].t].pc.Scan?
    requires c < |tr[i].convs|
    ensures |tr[i + 1].threads| == |tr[i].threads|
    ensures var convs, th := tr[i].convs, tr[i + 1].threads[ls[i].t];
            (th.found && th.conv == c) <==>
            && convs[c].pk == th.msgPk && convs[c].oneToOne
            && forall d :: c < d < |convs| ==> convs[d].pk != th.msgPk
  {
    RunMoves(tr, ls, i);
    RunKeepsHandlers(tr, ls, i);
    ScanFinds(tr[i], ls[i].t, ls[i].env, c);
  }

  lemma ScanFinds(s: State, t: nat, env: Env, c: nat)
    requires Enabled(s, t) && s.threads[t].pc.Scan? && !s.threads[t].found && c < |s.convs|
    ensures var th := Moved(s, t, env);
            (th.found && th.conv == c) <==>
            && s.convs[c].pk == th.msgPk && s.convs[c].oneToOne
            && forall d :: c < d < |s.convs| ==> s.convs[d].pk != th.msgPk
  {
  }

  /** The dispatch looks at the step of that entry at this very moment. */
  lemma DispatchSees(tr: seq<State>, ls: seq<Label>, i: nat)
    requires Run(tr, ls) && i < |ls| && ls[i].Fire? && ls[i].t < |tr[i].threads| && tr[i].threads[ls[i].t].pc.Dispatch?
    ensures |tr[i + 1].threads| == |tr[i].threads|
    ensures var th, th' := tr[i].threads[ls[i].t], tr[i + 1].threads[ls[i].t];
            && th.conv < |tr[i].convs| && th'.conv == th.conv && th'.seen == tr[i].convs[th.conv].step
            && (th'.pc.Panicked? <==> th'.seen > 2)
  {
    RunMoves(tr, ls, i);
  }

  // ---------------------------------------------------------------- the steps add up

  /** How many threads have advanced an entry. */
  function Advances(threads: seq<Thread>, c: nat): nat {
    if threads == [] then 0
    else Advances(threads[..|threads| - 1], c) + One(threads[|threads| - 1], c)
  }

  function One(th: Thread, c: nat): nat { if th.advanced && th.conv == c then 1 else 0 }

  lemma AdvancesSnoc(threads: seq<Thread>, th: Thread, c: nat)
    ensures Advances(threads + [th], c) == Advances(threads, c) + One(th, c)
  {
    assert (threads + [th])[..|threads|] == threads;
  }

  lemma {:induction false} AdvancesUpdate(threads: seq<Thread>, t: nat, th: Thread, c: nat)
    requires t < |threads|
    ensures Advances(threads[t := th], c) == Advances(threads, c) - One(threads[t], c) + One(th, c)
  {
    var n := |threads| - 1;
    if t < n {
      AdvancesUpdate(threads[..n], t, th, c);
      assert threads[t := th][..n] == threads[..n][t := th];
    } else {
      assert threads[t := th][..n] == threads[..n];
    }
  }

  lemma {:induction false} NobodyAdvances(threads: seq<Thread>, c: nat)
    requires forall t: nat :: t < |threads| && threads[t].advanced ==> threads[t].conv != c
    ensures Advances(threads, c) == 0
  {
    if threads != [] { NobodyAdvances(threads[..|threads| - 1], c); }
  }

  function Loaded(convs: seq<Conv>, c: nat): nat { if c < |convs| then convs[c].step else 0 }

  ghost predicate StepsAddUp(loaded: seq<Conv>, s: State) {
    forall c: nat :: c < |s.convs| ==> s.convs[c].step == Loaded(loaded, c) + Advances(s.threads, c)
  }

  lemma StepsOfEntry(loaded: seq<Conv>, s: State, t: nat, env: Env, events: seq<Event>, c: nat)
    requires StepsAddUp(loaded, s) && HandlersInv(s, events) && StoreInv(s) && Enabled(s, t) && |loaded| <= |s.convs|
    requires c < |Fired(s, t, env).convs|
    ensures Fired(s, t, env).convs[c].step == Loaded(loaded, c) + Advances(Fired(s, t, env).threads, c)
  {
    assert Knows(s, s.threads[t]) && Decided(s.threads[t]) && Placed(s, s.threads[t]);
    AdvancesUpdate(s.threads, t, Moved(s, t, env), c);
    if c == |s.convs| {
      forall u: nat | u < |s.threads| && s.threads[u].advanced ensures s.threads[u].conv != c {
        assert Placed(s, s.threads[u]);
      }
      NobodyAdvances(s.threads, c);
    }
  }

  lemma StepsStep(loaded: seq<Conv>, s: State, l: Label, events: seq<Event>)
    requires StepsAddUp(loaded, s) && HandlersInv(s, events) && StoreInv(s) && Allowed(s, l) && |loaded| <= |s.convs|
    ensures StepsAddUp(loaded, Next(s, l))
  {
    forall c: nat | c < |Next(s, l).convs|
      ensures Next(s, l).convs[c].step == Loaded(loaded, c) + Advances(Next(s, l).threads, c)
    {
      match l
      case Spawn(ev) => AdvancesSnoc(s.threads, NewThread(ev), c);
      case Fire(t, env) => StepsOfEntry(loaded, s, t, env, events, c);
    }
  }

  lemma RunStepsStep(tr: seq<State>, ls: seq<Label>, i: nat)
    requires Run(tr, ls) && i < |ls| && StepsAddUp(tr[0].convs, tr[i])
    ensures StepsAddUp(tr[0].convs, tr[i + 1])
  {
    RunKeepsStore(tr, ls, i);
    RunKeepsHandlers(tr, ls, i);
    RunMoves(tr, ls, i);
    ConvsOnlyAdvance(tr, ls, 0, i);
    StepsStep(tr[0].convs, tr[i], ls[i], Started(ls, i));
  }

  lemma {:induction false} RunAddsUp(tr: seq<State>, ls: seq<Label>, i: nat)
    requires Run(tr, ls) && i < |tr|
    ensures StepsAddUp(tr[0].convs, tr[i])
  {
    if i == 0 {
      assert tr[0].threads == [];
    } else {
      RunAddsUp(tr, ls, i - 1);
      RunStepsStep(tr, ls, i - 1);
    }
  }

  /** In every state an entry's step is what was loaded, or 0, plus one for each handler that has advanced it. */
  lemma StepsAreCounted(tr: seq<State>, ls: seq<Label>, i: nat, c: nat)
    requires Run(tr, ls) && i < |tr| && c < |tr[i].convs|
    ensures tr[i].convs[c].step ==
            (if c < |tr[0].convs| then tr[0].convs[c].step else 0) + Advances(tr[i].threads, c)
  {
    RunAddsUp(tr, ls, i);
  }

  // ---------------------------------------------------------------- every accepted contact and group is entered

  function Plain(c: Conv): Conv { c.(step := 0) }

  /** Whether a label makes this entry due: for an accepted contact, or for a group just created. */
  function Due(s: State, l: Label, e: Conv): nat {
    match l
    case Spawn(ev) => if ev.Accepted? && e == Conv(ev.pk, ev.contactPk, ev.name, 0, true) then 1 else 0
    case Fire(t, env) =>
      if t < |s.threads| && s.threads[t].pc.CreateGroup? && env.Created? && e == Conv(env.pk, "", "", 0, false) then 1
      else 0
  }

  function Announced(tr: seq<State>, ls: seq<Label>, i: nat, e: Conv): nat
    requires i <= |ls| < |tr|
  {
    if i == 0 then 0 else Announced(tr, ls, i - 1, e) + Due(tr[i - 1], ls[i - 1], e)
  }

  /** Whether a thread has yet to append this entry. */
  function Owed(th: Thread, e: Conv): nat {
    if (th.pc.StoreLock? || th.pc.StoreWait? || th.pc.Append?) && th.entry == e then 1 else 0
  }

  function AllOwed(threads: seq<Thread>, e: Conv): nat {
    if threads == [] then 0 else AllOwed(threads[..|threads| - 1], e) + Owed(threads[|threads| - 1], e)
  }

  lemma AllOwedSnoc(threads: seq<Thread>, th: Thread, e: Conv)
    ensures AllOwed(threads + [th], e) == AllOwed(threads, e) + Owed(th, e)
  {
    assert (threads + [th])[..|threads|] == threads;
  }

  lemma {:induction false} AllOwedUpdate(threads: seq<Thread>, t: nat, th: Thread, e: Conv)
    requires t < |threads|
    ensures AllOwed(threads[t := th], e) == AllOwed(threads, e) - Owed(threads[t], e) + Owed(th, e)
  {
    var n := |threads| - 1;
    if t < n {
      AllOwedUpdate(threads[..n], t, th, e);
      assert threads[t := th][..n] == threads[..n][t := th];
    } else {
      assert threads[t := th][..n] == threads[..n];
    }
  }

  lemma {:induction false} NothingOwed(threads: seq<Thread>, e: Conv)
    requires forall t: nat :: t < |threads| ==> threads[t].pc.Done?
    ensures AllOwed(threads, e) == 0
  {
    if threads != [] { NothingOwed(threads[..|threads| - 1], e); }
  }

  /** How often the entry stands from position k on, steps apart. */
  function Entered(convs: seq<Conv>, k: nat, e: Conv): nat {
    if |convs| <= k then 0
    else Entered(convs[..|convs| - 1], k, e) + if Plain(convs[|convs| - 1]) == e then 1 else 0
  }

  lemma {:induction false} EnteredUpdate(convs: seq<Conv>, c: nat, conv: Conv, k: nat, e: Conv)
    requires c < |convs| && Plain(conv) == Plain(convs[c])
    ensures Entered(convs[c := conv], k, e) == Entered(convs, k, e)
  {
    var n := |convs| - 1;
    if |convs| > k {
      if c < n {
        EnteredUpdate(convs[..n], c, conv, k, e);
        assert convs[c := conv][..n] == convs[..n][c := conv];
      } else {
        assert convs[c := conv][..n] == convs[..n];
      }
    }
  }

  lemma EnteredSnoc(convs: seq<Conv>, conv: Conv, k: nat, e: Conv)
    requires k <= |convs|
    ensures Entered(convs + [conv], k, e) == Entered(convs, k, e) + if Plain(conv) == e then 1 else 0
  {
    assert (convs + [conv])[..|convs|] == convs;
  }

  function Appends(th: Thread, e: Conv): nat { if th.pc.Append? && th.entry == e then 1 else 0 }

  lemma OwedMoves(s: State, t: nat, env: Env, e: Conv)
    requires Enabled(s, t)
    ensures Owed(Moved(s, t, env), e) + Appends(s.threads[t], e) == Owed(s.threads[t], e) + Due(s, Fire(t, env), e)
  {
  }

  lemma ListMoves(s: State, t: nat, env: Env, k: nat, e: Conv)
    requires StoreInv(s) && Enabled(s, t) && k <= |s.convs|
    ensures Entered(Fired(s, t, env).convs, k, e) == Entered(s.convs, k, e) + Appends(s.threads[t], e)
  {
    var th := s.threads[t];
    assert Knows(s, th);
    if th.pc.Increment? {
      EnteredUpdate(s.convs, th.conv, s.convs[th.conv].(step := s.convs[th.conv].step + 1), k, e);
    } else if th.pc.Append? {
      EnteredSnoc(s.convs, th.entry, k, e);
      assert Plain(th.entry) == th.entry;
    }
  }

  ghost predicate EntriesAgree(s: State, k: nat, e: Conv, announced: nat) {
    Entered(s.convs, k, e) + AllOwed(s.threads, e) == announced
  }

  lemma EntriesStep(s: State, l: Label, k: nat, e: Conv, announced: nat)
    requires StoreInv(s) && Allowed(s, l) && k <= |s.convs| && EntriesAgree(s, k, e, announced)
    ensures EntriesAgree(Next(s, l), k, e, announced + Due(s, l, e))
  {
    match l
    case Spawn(ev) => AllOwedSnoc(s.threads, NewThread(ev), e);
    case Fire(t, env) =>
      AllOwedUpdate(s.threads, t, Moved(s, t, env), e);
      ListMoves(s, t, env, k, e);
      OwedMoves(s, t, env, e);
  }

  lemma RunEntriesStep(tr: seq<State>, ls: seq<Label>, i: nat, e: Conv, announced: nat)
    requires Run(tr, ls) && i < |ls| && EntriesAgree(tr[i], |tr[0].convs|, e, announced)
    ensures EntriesAgree(tr[i + 1], |tr[0].convs|, e, announced + Due(tr[i], ls[i], e))
  {
    RunKeepsStore(tr, ls, i);
    RunMoves(tr, ls, i);
    ConvsOnlyAdvance(tr, ls, 0, i);
    EntriesStep(tr[i], ls[i], |tr[0].convs|, e, announced);
  }

  lemma {:induction false} RunEnters(tr: seq<State>, ls: seq<Label>, i: nat, e: Conv)
    requires Run(tr, ls) && i < |tr|
    ensures EntriesAgree(tr[i], |tr[0].convs|, e, Announced(tr, ls, i, e))
  {
    if i == 0 {
      assert tr[0].threads == [];
    } else {
      RunEnters(tr, ls, i - 1, e);
      RunEntriesStep(tr, ls, i - 1, e, Announced(tr, ls, i - 1, e));
    }
  }

  /**
    Whenever all started handlers have finished, the list is what was loaded, steps apart, followed by
    each entry as often as it was due: once for each accepted contact, with its keys and name, and once
    for each group created.
  */
  lemma QuietIsEntered(tr: seq<State>, ls: seq<Label>, i: nat, e: Conv)
    requires Run(tr, ls) && i < |tr| && forall t: nat :: !Live(tr[i], t)
    ensures Extends(tr[0].convs, tr[i].convs)
    ensures Entered(tr[i].convs, |tr[0].convs|, e) == Announced(tr, ls, i, e)
  {
    RunEnters(tr, ls, i, e);
    ConvsOnlyAdvance(tr, ls, 0, i);
    forall t: nat | t < |tr[i].threads| ensures tr[i].threads[t].pc.Done? { assert !Live(tr[i], t); }
    NothingOwed(tr[i].threads, e);
  }

  // ---------------------------------------------------------------- who creates a group

  /** The thread has passed the group creation before state i. */
  ghost predicate PassedGroup(tr: seq<State>, ls: seq<Label>, i: nat, t: nat)
    requires i <= |ls| < |tr|
  {
    exists j: nat :: j < i && AtGroup(tr[j], ls[j], t)
  }

  predicate AtGroup(s: State, l: Label, t: nat) {
    l.Fire? && l.t == t && t < |s.threads| && s.threads[t].pc.CreateGroup?
  }

  lemma PassedGroupStep(tr: seq<State>, ls: seq<Label>, i: nat, t: nat)
    requires i < |ls| < |tr|
    ensures PassedGroup(tr, ls, i + 1, t) <==> PassedGroup(tr, ls, i, t) || AtGroup(tr[i], ls[i], t)
  {
    if PassedGroup(tr, ls, i, t) {
      var j: nat :| j < i && AtGroup(tr[j], ls[j], t);
      assert j < i + 1 && AtGroup(tr[j], ls[j], t);
    }
  }

  predicate SecondStep(th: Thread) { th.advanced && th.seen == 1 }

  lemma SecondStepMoves(s: State, t: nat, env: Env)
    requires Enabled(s, t) && Decided(s.threads[t]) && Placed(s, s.threads[t]) && Creates(s, t, s.threads[t])
    ensures var th, th' := s.threads[t], Moved(s, t, env);
            && (SecondStep(th) ==> SecondStep(th'))
            && (SecondStep(th') ==> SecondStep(th) || CreatesGroup(th'))
            && (CreatesGroup(th) ==> CreatesGroup(th') || th.pc.CreateGroup?)
            && (CreatesGroup(th') ==> SecondStep(th'))
            && (th.pc.CreateGroup? ==> SecondStep(th'))
  {
  }

  ghost predicate OnTheWay(tr: seq<State>, ls: seq<Label>, i: nat, t: nat)
    requires i <= |ls| < |tr|
  {
    t < |tr[i].threads| ==> (SecondStep(tr[i].threads[t]) <==> CreatesGroup(tr[i].threads[t]) || PassedGroup(tr, ls, i, t))
  }

  lemma OnTheWayStep(tr: seq<State>, ls: seq<Label>, i: nat, t: nat)
    requires Run(tr, ls) && i < |ls| && t < |tr[i].threads| && OnTheWay(tr, ls, i, t)
    ensures OnTheWay(tr, ls, i + 1, t)
  {
    var s, l := tr[i], ls[i];
    RunMoves(tr, ls, i);
    PassedGroupStep(tr, ls, i, t);
    if l.Fire? && l.t == t {
      RunKeepsStore(tr, ls, i);
      RunKeepsHandlers(tr, ls, i);
      assert Decided(s.threads[t]) && Placed(s, s.threads[t]) && Creates(s, t, s.threads[t]);
      SecondStepMoves(s, t, l.env);
    } else {
      assert tr[i + 1].threads[t] == s.threads[t] && !AtGroup(s, l, t);
    }
  }

  lemma OnTheWayStart(tr: seq<State>, ls: seq<Label>, i: nat, t: nat)
    requires Run(tr, ls) && i < |ls| && t >= |tr[i].threads|
    ensures OnTheWay(tr, ls, i + 1, t)
  {
    RunMoves(tr, ls, i);
    NotPassed(tr, ls, i, t);
    PassedGroupStep(tr, ls, i, t);
  }

  /** A handler that took its entry from step 1 to 2 is on its way to the group creation, or past it; nobody else is. */
  lemma {:induction false} GroupIsOnTheWay(tr: seq<State>, ls: seq<Label>, i: nat, t: nat)
    requires Run(tr, ls) && i < |tr|
    ensures OnTheWay(tr, ls, i, t)
  {
    if i > 0 {
      if t < |tr[i - 1].threads| {
        GroupIsOnTheWay(tr, ls, i - 1, t);
        OnTheWayStep(tr, ls, i - 1, t);
      } else {
        OnTheWayStart(tr, ls, i - 1, t);
      }
    }
  }

  lemma {:induction false} NotPassed(tr: seq<State>, ls: seq<Label>, i: nat, t: nat)
    requires Run(tr, ls) && i < |tr| && t >= |tr[i].threads|
    ensures !PassedGroup(tr, ls, i, t)
  {
    if i > 0 {
      RunMoves(tr, ls, i - 1);
      NotPassed(tr, ls, i - 1, t);
      PassedGroupStep(tr, ls, i - 1, t);
    }
  }

  /** So a finished handler has asked for a group exactly when it took an entry from step 1 to 2. */
  lemma SecondStepCreatesGroup(tr: seq<State>, ls: seq<Label>, i: nat, t: nat)
    requires Run(tr, ls) && i < |tr| && t < |tr[i].threads| && tr[i].threads[t].pc.Done?
    ensures tr[i].threads[t].advanced && tr[i].threads[t].seen == 1 <==> PassedGroup(tr, ls, i, t)
  {
    GroupIsOnTheWay(tr, ls, i, t);
    assert OnTheWay(tr, ls, i, t);
    RunKeepsStore(tr, ls, i);
    assert Creates(tr[i], t, tr[i].threads[t]);
  }

  // ---------------------------------------------------------------- writers

  /** While a writer waits or works, no new reader gets in. */
  lemma WriterComesFirst(tr: seq<State>, ls: seq<Label>, i: nat)
    requires Run(tr, ls) && i < |ls|
    ensures tr[i].store.pending.Some? || tr[i].store.writer.Some? ==> tr[i + 1].store.readers <= tr[i].store.readers
    ensures tr[i].whole.pending.Some? || tr[i].whole.writer.Some? ==> tr[i + 1].whole.readers <= tr[i].whole.readers
    ensures tr[i + 1].store.writer.Some? ==> tr[i + 1].store.readers == {}
    ensures tr[i + 1].whole.writer.Some? ==> tr[i + 1].whole.readers == {}
  {
    RunMoves(tr, ls, i);
    RunKeepsLocks(tr, ls, i + 1);
  }
}
