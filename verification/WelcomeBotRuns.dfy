/** Safety and progress of the welcome bot over whole runs. */
module WelcomeBotRuns {
  import opened Results
  import opened WelcomeBot
  import opened WelcomeBotProofs

  // ---------------------------------------------------------------- no deadlock

  ghost predicate LocksInv(s: State) {
    RWLocksAgree(s) && MapLockAgrees(s) && ThreadsAgree(s) && OwnersAgree(s)
  }

  lemma LocksInvStep(s: State, l: Label)
    requires LocksInv(s) && Allowed(s, l)
    ensures LocksInv(Next(s, l))
  {
    RWLocksStep(s, l);
    MapLockStep(s, l);
    ThreadsStep(s, l);
    OwnersStep(s, l);
  }

  predicate Live(s: State, t: nat) { t < |s.threads| && !s.threads[t].pc.Done? }

  ghost predicate NoPanic(s: State) { forall t: nat :: t < |s.threads| ==> !s.threads[t].pc.Panicked? }

  /** A holder of the whole-conversation lock finishes with it without waiting. */
  lemma WholeHolderMoves(s: State, t: nat)
    requires ThreadsAgree(s) && OwnersAgree(s) && t < |s.threads| && !s.threads[t].pc.Panicked?
    requires WholeRole(s.threads[t].pc).Reader? || WholeRole(s.threads[t].pc).Writer?
    ensures Enabled(s, t)
  {
    assert ThreadAgrees(s, s.threads[t]);
  }

  /** So that lock never blocks for good: somebody concerned with it can always act. */
  lemma WholeLockMoves(s: State, u: nat) returns (t: nat)
    requires LocksInv(s) && NoPanic(s)
    requires u < |s.threads| && (!WholeRole(s.threads[u].pc).Out? || s.threads[u].pc.WholeRLock? || s.threads[u].pc.WholeLock?)
    ensures Enabled(s, t)
  {
    if r: nat :| r in s.whole.readers {
      t := r;
      assert WholeRoles(s)[t].Reader?;
      WholeHolderMoves(s, t);
    } else if s.whole.writer.Some? {
      t := s.whole.writer.value;
      assert WholeRoles(s)[t].Writer?;
      WholeHolderMoves(s, t);
    } else if s.whole.pending.Some? {
      t := s.whole.pending.value;
      assert WholeRoles(s)[t].Waiter?;
    } else {
      t := u;
      assert WholeRoles(s)[t] == WholeRole(s.threads[t].pc);
    }
  }

  /** A holder of the store lock waits at most for the whole-conversation lock. */
  lemma StoreHolderMoves(s: State, t: nat)
    requires t < |s.threads|
    requires StoreRole(s.threads[t].pc).Reader? || StoreRole(s.threads[t].pc).Writer?
    ensures Enabled(s, t) || s.threads[t].pc.WholeLock? || s.threads[t].pc.WholeWait?
  {
  }

  /** Nor does the store lock: its readers wait at most for the whole-conversation lock. */
  lemma StoreLockMoves(s: State, u: nat) returns (t: nat)
    requires LocksInv(s) && NoPanic(s) && u < |s.threads|
    requires || !StoreRole(s.threads[u].pc).Out? || s.threads[u].pc.ScanRLock? || s.threads[u].pc.SaveRLock?
             || s.threads[u].pc.StoreLock?
    ensures Enabled(s, t)
  {
    if r: nat :| r in s.store.readers {
      t := r;
      assert StoreRoles(s)[t].Reader?;
      StoreHolderMoves(s, t);
      if !Enabled(s, t) { t := WholeLockMoves(s, r); }
    } else if s.store.writer.Some? {
      t := s.store.writer.value;
      assert StoreRoles(s)[t].Writer?;
      StoreHolderMoves(s, t);
    } else if s.store.pending.Some? {
      t := s.store.pending.value;
      assert StoreRoles(s)[t].Waiter?;
    } else {
      t := u;
      assert StoreRoles(s)[t] == StoreRole(s.threads[t].pc);
    }
  }

  /** Deadlock freedom: while a started handler is unfinished, some started handler can act. */
  lemma SomeoneMoves(s: State, u: nat) returns (t: nat)
    requires LocksInv(s) && NoPanic(s) && Live(s, u)
    ensures Live(s, t) && Enabled(s, t)
  {
    var pc := s.threads[u].pc;
    if !StoreRole(pc).Out? || pc.ScanRLock? || pc.SaveRLock? || pc.StoreLock? {
      t := StoreLockMoves(s, u);
    } else if !WholeRole(pc).Out? || pc.WholeRLock? {
      t := WholeLockMoves(s, u);
    } else if pc.MapLock? && s.mapLock.Some? {
      t := s.mapLock.value;
    } else if pc.ConvLock? && s.owners[s.threads[u].mutex].Some? {
      t := s.owners[s.threads[u].mutex].value;
      t := WholeLockMoves(s, t);
    } else {
      t := u;
    }
  }

  // ---------------------------------------------------------------- every handler finishes

  /** An upper bound on the actions a thread has left. */
  function Rank(th: Thread): nat {
    match th.pc
    case ScanRLock => 44
    case Scan => 43
    case ScanRUnlock => 42
    case MapLock => 41
    case MapLookup => 40
    case MapUnlock => 39
    case ConvLock => 38
    case WholeRLock => 37
    case Dispatch => 36
    case Increment => 35
    case ConvUnlock => 34
    case WholeRUnlock => 33
    case SaveRLock => if th.more then 27 else 7
    case WholeLock => if th.more then 26 else 6
    case WholeWait => if th.more then 25 else 5
    case Marshal => if th.more then 24 else 4
    case WriteFile => if th.more then 23 else 3
    case WholeUnlock => if th.more then 22 else 2
    case SaveRUnlock => if th.more then 21 else 1
    case CreateGroup => if th.more then 32 else 20
    case StoreLock => if th.more then 31 else 11
    case StoreWait => if th.more then 30 else 10
    case Append => if th.more then 29 else 9
    case StoreUnlock => if th.more then 28 else 8
    case Done => 0
    case Panicked => 0
  }

  ghost function Work(threads: seq<Thread>): nat {
    if threads == [] then 0 else Rank(threads[0]) + Work(threads[1..])
  }

  lemma {:induction false} WorkUpdate(threads: seq<Thread>, t: nat, th: Thread)
    requires t < |threads|
    ensures Work(threads[t := th]) == Work(threads) - Rank(threads[t]) + Rank(th)
  {
    if t == 0 {
      assert threads[0 := th][1..] == threads[1..];
    } else {
      WorkUpdate(threads[1..], t - 1, th);
      assert threads[t := th][1..] == threads[1..][t - 1 := th];
    }
  }

  lemma {:induction false} WorkAppend(threads: seq<Thread>, th: Thread)
    ensures Work(threads + [th]) == Work(threads) + Rank(th)
  {
    if threads == [] {
      assert (threads + [th])[1..] == [];
    } else {
      WorkAppend(threads[1..], th);
      assert (threads + [th])[1..] == threads[1..] + [th];
    }
  }

  lemma StepWork(s: State, l: Label)
    requires Allowed(s, l)
    ensures l.Spawn? ==> Work(Next(s, l).threads) <= Work(s.threads) + 44
    ensures l.Fire? ==> Work(Next(s, l).threads) < Work(s.threads)
  {
    match l
    case Spawn(ev) => WorkAppend(s.threads, NewThread(ev));
    case Fire(t, env) =>
      WorkUpdate(s.threads, t, Moved(s, t, env));
      RankFalls(s, t, env);
  }

  lemma RankFalls(s: State, t: nat, env: Env)
    requires Enabled(s, t)
    ensures Rank(Moved(s, t, env)) < Rank(s.threads[t])
  {
  }

  // ---------------------------------------------------------------- steps, snapshots and group creation

  /** `later` continues `earlier`: same entries first, none of them at a lower step. */
  ghost predicate Extends(earlier: seq<Conv>, later: seq<Conv>) {
    && |earlier| <= |later|
    && forall c :: 0 <= c < |earlier| ==>
         earlier[c].step <= later[c].step && later[c] == earlier[c].(step := later[c].step)
  }

  /** A message can only be matched to an entry that has no later entry for the same conversation. */
  ghost predicate Shadowed(convs: seq<Conv>, c: nat)
    requires c < |convs|
  {
    exists d :: c < d < |convs| && convs[d].pk == convs[c].pk
  }

  /** Every one-to-one entry a message can reach is at step 0, 1 or 2. */
  ghost predicate InRange(convs: seq<Conv>) {
    forall c: nat :: c < |convs| && convs[c].oneToOne && convs[c].step > 2 ==> Shadowed(convs, c)
  }

  predicate CreatesGroup(th: Thread) { th.more || th.pc.CreateGroup? }

  /** What one thread knows about the entry it works on. */
  ghost predicate KnowsStep(s: State, th: Thread) {
    && (HasConv(th) ==> th.conv < |s.convs|)
    && (th.pc.Increment? ==> th.seen == s.convs[th.conv].step <= 1)
  }

  /** What one thread is about to store. */
  ghost predicate KnowsData(s: State, th: Thread) {
    && (th.pc.WriteFile? ==> th.data == s.convs)
    && (StoreRole(th.pc).Waiter? || th.pc.StoreLock? || th.pc.Append? ==> th.entry.step == 0)
  }

  ghost predicate Knows(s: State, th: Thread) { KnowsStep(s, th) && KnowsData(s, th) }

  /** Between doStep1's increment and the end of its saveStore. */
  predicate Saving(pc: PC) {
    || pc.ConvUnlock? || pc.WholeRUnlock? || pc.SaveRLock? || pc.WholeLock? || pc.WholeWait?
    || pc.Marshal? || pc.WriteFile? || pc.WholeUnlock? || pc.SaveRUnlock?
  }

  /** The thread that took an entry to step 2 is the only one to create its group, and does so once. */
  ghost predicate Creates(s: State, t: nat, th: Thread) {
    && (th.more ==> Saving(th.pc) && th.advanced)
    && (CreatesGroup(th) ==> th.conv in s.bumped && s.bumped[th.conv] == t && th.conv !in s.calls)
  }

  ghost predicate Distinct(calls: seq<nat>) {
    forall i, j :: 0 <= i < j < |calls| ==> calls[i] != calls[j]
  }

  ghost predicate StoreInv(s: State) {
    && (s.file.Some? ==> Extends(s.file.value, s.convs))
    && Distinct(s.calls)
    && (forall c :: c in s.calls ==> c in s.bumped)
    && (forall c :: c in s.bumped ==> c < |s.convs| && s.convs[c].step == 2)
    && (forall t: nat :: t < |s.threads| ==> Knows(s, s.threads[t]) && Creates(s, t, s.threads[t]))
  }

  /** Two threads never work inside the same conversation's critical section. */
  lemma OneHolder(s: State, t: nat, u: nat)
    requires ThreadsAgree(s) && OwnersAgree(s)
    requires t < |s.threads| && u < |s.threads| && s.threads[t].conv == s.threads[u].conv
    requires HoldsConv(s.threads[t].pc) && HoldsConv(s.threads[u].pc)
    ensures t == u
  {
    assert ThreadAgrees(s, s.threads[t]) && ThreadAgrees(s, s.threads[u]);
  }

  /** While a saver writes its snapshot, nobody changes the list. */
  lemma WriterIsAlone(s: State, t: nat, u: nat)
    requires RWLocksAgree(s) && t < |s.threads| && u < |s.threads| && s.threads[t].pc.WriteFile?
    ensures !s.threads[u].pc.Increment? && !s.threads[u].pc.Append?
  {
    assert StoreRoles(s)[t].Reader? && WholeRoles(s)[t].Writer?;
    assert StoreRoles(s)[u] == StoreRole(s.threads[u].pc) && WholeRoles(s)[u] == WholeRole(s.threads[u].pc);
  }

  lemma ConvsMove(s: State, t: nat, env: Env)
    requires Enabled(s, t) && StoreInv(s)
    ensures Extends(s.convs, Fired(s, t, env).convs)
  {
    assert Knows(s, s.threads[t]);
  }

  lemma OthersKnow(s: State, t: nat, env: Env, u: nat)
    requires LocksInv(s) && StoreInv(s) && Enabled(s, t) && u < |s.threads| && u != t
    ensures Knows(Fired(s, t, env), s.threads[u]) && Creates(Fired(s, t, env), u, s.threads[u])
  {
    var th, tu := s.threads[t], s.threads[u];
    assert Knows(s, th) && Knows(s, tu) && Creates(s, t, th) && Creates(s, u, tu);
    if tu.pc.WriteFile? { WriterIsAlone(s, u, t); }
    if tu.pc.Increment? && th.pc.Increment? && tu.conv == th.conv {
      OneHolder(s, t, u);
    }
  }

  lemma MovedKnowsStep(s: State, t: nat, env: Env)
    requires Enabled(s, t) && KnowsStep(s, s.threads[t])
    ensures KnowsStep(Fired(s, t, env), Moved(s, t, env))
  {
  }

  lemma MovedKnowsData(s: State, t: nat, env: Env)
    requires Enabled(s, t) && KnowsData(s, s.threads[t])
    ensures KnowsData(Fired(s, t, env), Moved(s, t, env))
  {
  }

  lemma MovedCreates(s: State, t: nat, env: Env)
    requires Enabled(s, t) && KnowsStep(s, s.threads[t]) && Creates(s, t, s.threads[t])
    requires (forall c :: c in s.calls ==> c in s.bumped)
    requires (forall c :: c in s.bumped ==> c < |s.convs| && s.convs[c].step == 2)
    ensures Creates(Fired(s, t, env), t, Moved(s, t, env))
  {
  }

  lemma CallsMove(s: State, t: nat, env: Env)
    requires Enabled(s, t) && StoreInv(s)
    ensures var s' := Fired(s, t, env);
            && Distinct(s'.calls)
            && (forall c :: c in s'.calls ==> c in s'.bumped)
            && (forall c :: c in s'.bumped ==> c < |s'.convs| && s'.convs[c].step == 2)
  {
    var th, s' := s.threads[t], Fired(s, t, env);
    assert Knows(s, th) && Creates(s, t, th);
    if th.pc.CreateGroup? {
      assert s'.calls == s.calls || s'.calls == s.calls + [th.conv];
      assert s'.bumped == s.bumped && s'.convs == s.convs;
    } else if th.pc.Increment? {
      assert s'.calls == s.calls && th.conv !in s.bumped;
    } else {
      assert s'.calls == s.calls && s'.bumped == s.bumped;
      assert s'.convs == s.convs || s'.convs == s.convs + [th.entry];
    }
  }

  lemma ExtendsTransitive(a: seq<Conv>, b: seq<Conv>, c: seq<Conv>)
    requires Extends(a, b) && Extends(b, c)
    ensures Extends(a, c)
  {
  }

  lemma MovedThread(s: State, t: nat, env: Env)
    requires StoreInv(s) && Enabled(s, t)
    ensures Knows(Fired(s, t, env), Moved(s, t, env)) && Creates(Fired(s, t, env), t, Moved(s, t, env))
  {
    assert Knows(s, s.threads[t]) && Creates(s, t, s.threads[t]);
    MovedKnowsStep(s, t, env);
    MovedKnowsData(s, t, env);
    MovedCreates(s, t, env);
  }

  lemma FileMove(s: State, t: nat, env: Env)
    requires StoreInv(s) && Enabled(s, t) && Extends(s.convs, Fired(s, t, env).convs)
    ensures Fired(s, t, env).file.Some? ==> Extends(Fired(s, t, env).file.value, Fired(s, t, env).convs)
  {
    assert Knows(s, s.threads[t]);
    if s.file.Some? { ExtendsTransitive(s.file.value, s.convs, Fired(s, t, env).convs); }
  }

  lemma StoreInvStep(s: State, l: Label)
    requires LocksInv(s) && StoreInv(s) && Allowed(s, l)
    ensures StoreInv(Next(s, l)) && Extends(s.convs, Next(s, l).convs)
  {
    match l
    case Spawn(ev) =>
      forall t: nat | t <= |s.threads|
        ensures Knows(Next(s, l), Next(s, l).threads[t]) && Creates(Next(s, l), t, Next(s, l).threads[t])
      {
        if t < |s.threads| { assert Knows(s, s.threads[t]) && Creates(s, t, s.threads[t]); }
      }
    case Fire(t, env) =>
      ConvsMove(s, t, env);
      CallsMove(s, t, env);
      FileMove(s, t, env);
      MovedThread(s, t, env);
      forall u: nat | u < |s.threads| && u != t
        ensures Knows(Fired(s, t, env), s.threads[u]) && Creates(Fired(s, t, env), u, s.threads[u])
      {
        OthersKnow(s, t, env, u);
      }
  }

  // ---------------------------------------------------------------- whole runs

  lemma RunMoves(tr: seq<State>, ls: seq<Label>, i: nat)
    requires Run(tr, ls) && i < |ls|
    ensures Allowed(tr[i], ls[i]) && tr[i + 1] == Next(tr[i], ls[i])
  {
    assert Moves(tr[i], ls[i], tr[i + 1]);
  }

  lemma {:induction false} RunKeepsLocks(tr: seq<State>, ls: seq<Label>, i: nat)
    requires Run(tr, ls) && i < |tr|
    ensures LocksInv(tr[i])
  {
    if i > 0 {
      RunKeepsLocks(tr, ls, i - 1);
      RunMoves(tr, ls, i - 1);
      LocksInvStep(tr[i - 1], ls[i - 1]);
    }
  }

  lemma {:induction false} RunKeepsStore(tr: seq<State>, ls: seq<Label>, i: nat)
    requires Run(tr, ls) && i < |tr|
    ensures StoreInv(tr[i])
  {
    if i > 0 {
      RunKeepsLocks(tr, ls, i - 1);
      RunKeepsStore(tr, ls, i - 1);
      RunMoves(tr, ls, i - 1);
      StoreInvStep(tr[i - 1], ls[i - 1]);
    }
  }

  /**
    Deadlock freedom over every run: while one started handler is unfinished, some started handler
    can act, unless the program has crashed on an index out of range.
  */
  lemma DeadlockFree(tr: seq<State>, ls: seq<Label>, i: nat, u: nat) returns (t: nat)
    requires Run(tr, ls) && i < |tr| && NoPanic(tr[i]) && Live(tr[i], u)
    ensures Live(tr[i], t) && Enabled(tr[i], t)
  {
    RunKeepsLocks(tr, ls, i);
    t := SomeoneMoves(tr[i], u);
  }

  function Spawns(ls: seq<Label>): nat {
    if ls == [] then 0 else Spawns(ls[..|ls| - 1]) + if ls[|ls| - 1].Spawn? then 1 else 0
  }

  lemma RunPrefix(tr: seq<State>, ls: seq<Label>)
    requires Run(tr, ls) && ls != []
    ensures Run(tr[..|ls|], ls[..|ls| - 1])
  {
  }

  /** Handlers never spin: with n events started, the handlers take at most 44 n actions altogether. */
  lemma {:induction false} RunsAreShort(tr: seq<State>, ls: seq<Label>)
    requires Run(tr, ls)
    ensures |ls| - Spawns(ls) + Work(tr[|ls|].threads) <= 44 * Spawns(ls)
  {
    if ls != [] {
      var n := |ls| - 1;
      RunPrefix(tr, ls);
      RunsAreShort(tr[..n + 1], ls[..n]);
      assert tr[..n + 1][n] == tr[n];
      RunMoves(tr, ls, n);
      StepWork(tr[n], ls[n]);
    }
  }

  /** An action leaves the list alone, appends an entry at step 0, or advances one entry by one. */
  ghost predicate SmallMove(before: seq<Conv>, after: seq<Conv>) {
    || after == before
    || (|after| == |before| + 1 && after[..|before|] == before && after[|before|].step == 0)
    || (exists c :: 0 <= c < |before| && before[c].step < 2
          && after == before[c := before[c].(step := before[c].step + 1)])
  }

  lemma ActionIsSmall(s: State, t: nat, env: Env)
    requires Enabled(s, t) && Knows(s, s.threads[t])
    ensures SmallMove(s.convs, Fired(s, t, env).convs)
    ensures var s' := Fired(s, t, env); s'.file == s.file || s'.file == Some(s.convs)
  {
    var th := s.threads[t];
    if th.pc.Increment? { assert s.convs[th.conv].step < 2; }
  }

  /**
    One step of any run: entries only advance, one at a time and by one; and what saveStore
    writes is the in-memory store at the instant of the write.
  */
  lemma StepIsSmall(tr: seq<State>, ls: seq<Label>, i: nat)
    requires Run(tr, ls) && i < |ls|
    ensures SmallMove(tr[i].convs, tr[i + 1].convs) && Extends(tr[i].convs, tr[i + 1].convs)
    ensures tr[i + 1].file == tr[i].file || tr[i + 1].file == Some(tr[i].convs)
    ensures tr[i].file.Some? ==> Extends(tr[i].file.value, tr[i].convs)
  {
    RunKeepsLocks(tr, ls, i);
    RunKeepsStore(tr, ls, i);
    RunMoves(tr, ls, i);
    StoreInvStep(tr[i], ls[i]);
    if ls[i].Fire? {
      assert Knows(tr[i], tr[i].threads[ls[i].t]);
      ActionIsSmall(tr[i], ls[i].t, ls[i].env);
    }
  }

  lemma StepExtends(tr: seq<State>, ls: seq<Label>, i: nat)
    requires Run(tr, ls) && i < |ls|
    ensures Extends(tr[i].convs, tr[i + 1].convs)
  {
    StepIsSmall(tr, ls, i);
  }

  /** The in-memory list only ever grows and its entries only ever advance. */
  lemma {:induction false} ConvsOnlyAdvance(tr: seq<State>, ls: seq<Label>, i: nat, j: nat)
    requires Run(tr, ls) && i <= j < |tr|
    ensures Extends(tr[i].convs, tr[j].convs)
  {
    if i < j {
      ConvsOnlyAdvance(tr, ls, i, j - 1);
      StepExtends(tr, ls, j - 1);
      ExtendsTransitive(tr[i].convs, tr[j - 1].convs, tr[j].convs);
    }
  }

  /** The store file never goes backwards, however saves, appends and increments interleave. */
  lemma {:induction false} FileNeverGoesBack(tr: seq<State>, ls: seq<Label>, i: nat, j: nat)
    requires Run(tr, ls) && i <= j < |tr| && tr[i].file.Some?
    ensures tr[j].file.Some? && Extends(tr[i].file.value, tr[j].file.value)
  {
    if i < j {
      FileNeverGoesBack(tr, ls, i, j - 1);
      StepIsSmall(tr, ls, j - 1);
      if tr[j].file != tr[j - 1].file {
        ExtendsTransitive(tr[i].file.value, tr[j - 1].file.value, tr[j - 1].convs);
      }
    }
  }

  // ---------------------------------------------------------------- nothing is lost

  /** The thread has yet to write the store after its change, or was asked to write it anyway. */
  predicate Owes(th: Thread) {
    || ((th.pc.ConvUnlock? || th.pc.WholeRUnlock?) && th.advanced)
    || th.pc.StoreUnlock?
    || th.pc.SaveRLock? || th.pc.WholeLock? || th.pc.WholeWait? || th.pc.Marshal? || th.pc.WriteFile?
  }

  predicate Saved(s: State) { s.file == Some(s.convs) || (s.file.None? && s.convs == []) }

  ghost predicate SavedOrOwed(s: State) {
    Saved(s) || exists t: nat :: t < |s.threads| && Owes(s.threads[t])
  }

  lemma OwesUntilWritten(s: State, t: nat, env: Env)
    requires Enabled(s, t)
    ensures Owes(s.threads[t]) && !s.threads[t].pc.WriteFile? ==> Owes(Moved(s, t, env))
    ensures Fired(s, t, env).convs != s.convs ==> Owes(Moved(s, t, env))
  {
  }

  lemma SavedStep(s: State, l: Label)
    requires SavedOrOwed(s) && StoreInv(s) && Allowed(s, l)
    ensures SavedOrOwed(Next(s, l))
  {
    var s' := Next(s, l);
    match l
    case Spawn(ev) =>
      if !Saved(s) {
        var u: nat :| u < |s.threads| && Owes(s.threads[u]);
        assert s'.threads[u] == s.threads[u];
      }
    case Fire(t, env) =>
      OwesUntilWritten(s, t, env);
      assert s'.threads[t] == Moved(s, t, env);
      if s.threads[t].pc.WriteFile? {
        assert Knows(s, s.threads[t]);
      } else if !Saved(s) {
        var u: nat :| u < |s.threads| && Owes(s.threads[u]);
        assert Owes(s'.threads[u]);
      }
  }

  lemma {:induction false} RunKeepsSaved(tr: seq<State>, ls: seq<Label>, i: nat)
    requires Run(tr, ls) && i < |tr|
    ensures SavedOrOwed(tr[i])
  {
    if i > 0 {
      RunKeepsStore(tr, ls, i - 1);
      RunKeepsSaved(tr, ls, i - 1);
      RunMoves(tr, ls, i - 1);
      SavedStep(tr[i - 1], ls[i - 1]);
    }
  }

  /** Nothing is lost: whenever all started handlers have finished, the file holds exactly the list in memory. */
  lemma QuietIsSaved(tr: seq<State>, ls: seq<Label>, i: nat)
    requires Run(tr, ls) && i < |tr| && forall t: nat :: !Live(tr[i], t)
    ensures tr[i].file == Some(tr[i].convs) || (tr[i].file.None? && tr[i].convs == [])
  {
    RunKeepsSaved(tr, ls, i);
    if t: nat :| t < |tr[i].threads| && Owes(tr[i].threads[t]) { assert !Live(tr[i], t); }
  }

  /** A store loaded with steps 0, 1 and 2 keeps all its steps there. */
  lemma {:induction false} StepsStayInRange(tr: seq<State>, ls: seq<Label>, i: nat)
    requires Run(tr, ls) && i < |tr| && forall c :: 0 <= c < |tr[0].convs| ==> tr[0].convs[c].step <= 2
    ensures forall c :: 0 <= c < |tr[i].convs| ==> tr[i].convs[c].step <= 2
  {
    if i > 0 {
      StepsStayInRange(tr, ls, i - 1);
      StepIsSmall(tr, ls, i - 1);
    }
  }

  /** ConversationCreate is called at most once per entry, whichever handlers race on it. */
  lemma GroupCreatedOnce(tr: seq<State>, ls: seq<Label>, i: nat)
    requires Run(tr, ls) && i < |tr|
    ensures Distinct(tr[i].calls)
    ensures forall c :: c in tr[i].calls ==> c < |tr[i].convs| && tr[i].convs[c].step == 2
  {
    RunKeepsStore(tr, ls, i);
  }

  // ---------------------------------------------------------------- when the dispatch can panic

  /** With the loaded store in range, so is everything a handler may index with. */
  ghost predicate RangeInv(s: State) {
    && InRange(s.convs)
    && (forall t: nat :: t < |s.threads| ==> Inside(s, s.threads[t]))
  }

  predicate Inside(s: State, th: Thread) {
    !th.pc.Panicked? && (HasConv(th) ==> th.conv < |s.convs| && s.convs[th.conv].step <= 2)
  }

  lemma ConvsInRange(s: State, t: nat, env: Env)
    requires Enabled(s, t) && Knows(s, s.threads[t]) && InRange(s.convs)
    ensures InRange(Fired(s, t, env).convs)
  {
    var convs, convs' := s.convs, Fired(s, t, env).convs;
    forall c: nat | c < |convs'| && convs'[c].oneToOne && convs'[c].step > 2 ensures Shadowed(convs', c) {
      assert c < |convs| && Shadowed(convs, c);
      var d :| c < d < |convs| && convs[d].pk == convs[c].pk;
      assert convs'[d].pk == convs'[c].pk;
    }
  }

  lemma GotoInside(s: State, t: nat, env: Env)
    requires Enabled(s, t) && Inside(s, s.threads[t])
    ensures !Goto(s, s.threads[t], env).Panicked?
    ensures HasConv(Moved(s, t, env)) ==>
              HasConv(s.threads[t]) || (s.threads[t].pc.Scan? && Target(s, s.threads[t]).Some?)
  {
  }

  lemma TargetInside(s: State, th: Thread)
    requires InRange(s.convs) && Target(s, th).Some?
    ensures s.convs[Target(s, th).value].step <= 2
  {
  }

  lemma StepsInside(s: State, t: nat, env: Env, c: nat)
    requires Enabled(s, t) && Knows(s, s.threads[t]) && c < |s.convs| && s.convs[c].step <= 2
    ensures var convs' := Fired(s, t, env).convs; c < |convs'| && convs'[c].step <= 2
  {
  }

  lemma MovedInside(s: State, t: nat, env: Env)
    requires Enabled(s, t) && Knows(s, s.threads[t]) && Inside(s, s.threads[t]) && InRange(s.convs)
    ensures Inside(Fired(s, t, env), Moved(s, t, env))
  {
    var th, th' := s.threads[t], Moved(s, t, env);
    GotoInside(s, t, env);
    if HasConv(th') {
      if th.pc.Scan? && Target(s, th).Some? { TargetInside(s, th); }
      StepsInside(s, t, env, th'.conv);
    }
  }

  lemma RangeStep(s: State, l: Label)
    requires StoreInv(s) && RangeInv(s) && Allowed(s, l)
    ensures RangeInv(Next(s, l))
  {
    match l
    case Spawn(ev) =>
    case Fire(t, env) =>
      assert Knows(s, s.threads[t]);
      ConvsInRange(s, t, env);
      MovedInside(s, t, env);
      forall u: nat | u < |s.threads| && u != t ensures Inside(Fired(s, t, env), s.threads[u]) {
        assert Inside(s, s.threads[u]);
      }
  }

  lemma {:induction false} RunKeepsRange(tr: seq<State>, ls: seq<Label>, i: nat)
    requires Run(tr, ls) && InRange(tr[0].convs) && i < |tr|
    ensures RangeInv(tr[i])
  {
    if i > 0 {
      RunKeepsStore(tr, ls, i - 1);
      RunKeepsRange(tr, ls, i - 1);
      RunMoves(tr, ls, i - 1);
      RangeStep(tr[i - 1], ls[i - 1]);
    }
  }

  /** No run from a store in range ever indexes past the three step functions. */
  lemma DispatchInRange(tr: seq<State>, ls: seq<Label>, i: nat)
    requires Run(tr, ls) && InRange(tr[0].convs) && i < |tr|
    ensures NoPanic(tr[i])
  {
    RunKeepsRange(tr, ls, i);
    forall t: nat | t < |tr[i].threads| ensures !tr[i].threads[t].pc.Panicked? {
      assert Inside(tr[i], tr[i].threads[t]);
    }
  }

  lemma FindLast(convs: seq<Conv>, c: nat)
    requires c < |convs| && !Shadowed(convs, c)
    ensures Find(convs, convs[c].pk) == Some(c)
  {
  }

  lemma RunExtended(tr: seq<State>, ls: seq<Label>, l: Label)
    requires Run(tr, ls) && Allowed(tr[|ls|], l)
    ensures Run(tr + [Next(tr[|ls|], l)], ls + [l])
  {
    var tr', ls' := tr + [Next(tr[|ls|], l)], ls + [l];
    assert forall i :: 0 <= i <= |ls| ==> tr'[i] == tr[i];
    assert forall i :: 0 <= i < |ls| ==> ls'[i] == ls[i];
  }

  /** The positions of a message handler up to the dispatch. */
  function Path(k: nat): PC {
    match k
    case 0 => ScanRLock
    case 1 => Scan
    case 2 => ScanRUnlock
    case 3 => MapLock
    case 4 => MapLookup
    case 5 => MapUnlock
    case 6 => ConvLock
    case 7 => WholeRLock
    case 8 => Dispatch
    case _ => Panicked
  }

  /** The only handler of a run has taken its first `k` actions, with nobody in its way. */
  ghost predicate Alone(s: State, c: nat, k: nat, x: State)
    requires c < |s.convs|
  {
    && |x.threads| == 1 && x.convs == s.convs
    && x.threads[0].pc == Path(k) && x.threads[0].msgPk == s.convs[c].pk
    && (k >= 2 ==> x.threads[0].found && x.threads[0].conv == c)
    && x.store.pending.None? && x.store.writer.None? && x.whole.pending.None? && x.whole.writer.None?
    && (k <= 3 ==> x.mapLock.None?)
    && (k <= 4 ==> x.convMutex == map[])
    && (5 <= k <= 6 ==> x.threads[0].mutex < |x.owners| && x.owners[x.threads[0].mutex].None?)
  }

  lemma AloneStep(s: State, c: nat, k: nat, x: State)
    requires c < |s.convs| && s.convs[c].oneToOne && s.convs[c].step > 2 && Find(s.convs, s.convs[c].pk) == Some(c)
    requires k < 9 && Alone(s, c, k, x)
    ensures Enabled(x, 0) && Alone(s, c, k + 1, Fired(x, 0, NotCalled))
  {
  }

  lemma {:induction false} AloneRun(s: State, c: nat, k: nat) returns (tr: seq<State>, ls: seq<Label>)
    requires Init(s) && k <= 9
    requires c < |s.convs| && s.convs[c].oneToOne && s.convs[c].step > 2 && Find(s.convs, s.convs[c].pk) == Some(c)
    ensures Run(tr, ls) && tr[0] == s && Alone(s, c, k, tr[|ls|])
  {
    var l: Label;
    if k == 0 {
      tr, ls, l := [s], [], Spawn(Message(s.convs[c].pk, true));
    } else {
      tr, ls := AloneRun(s, c, k - 1);
      AloneStep(s, c, k - 1, tr[|ls|]);
      l := Fire(0, NotCalled);
    }
    RunExtended(tr, ls, l);
    tr, ls := tr + [Next(tr[|ls|], l)], ls + [l];
  }

  /** Any other loaded store panics as soon as a message reaches the offending entry. */
  lemma DispatchOutOfRange(s: State) returns (tr: seq<State>, ls: seq<Label>)
    requires Init(s) && !InRange(s.convs)
    ensures Run(tr, ls) && tr[0] == s && !NoPanic(tr[|ls|])
  {
    var c: nat :| c < |s.convs| && s.convs[c].oneToOne && s.convs[c].step > 2 && !Shadowed(s.convs, c);
    FindLast(s.convs, c);
    tr, ls := AloneRun(s, c, 9);
    assert tr[|ls|].threads[0].pc.Panicked?;
  }
}
