/** What every run of the welcome bot keeps, and why it cannot get stuck. */
module WelcomeBotProofs {
  import opened Results
  import opened WelcomeBot

  // ---------------------------------------------------------------- the read/write locks

  /** Where a thread stands with respect to one lock. */
  datatype Role = Out | Reader | Waiter | Writer

  function StoreRole(pc: PC): Role {
    match pc
    case Scan | ScanRUnlock => Reader
    case WholeLock | WholeWait | Marshal | WriteFile | WholeUnlock | SaveRUnlock => Reader
    case StoreWait => Waiter
    case Append | StoreUnlock => Writer
    case _ => Out
  }

  function WholeRole(pc: PC): Role {
    match pc
    case Dispatch | Increment | ConvUnlock | WholeRUnlock | Panicked => Reader
    case WholeWait => Waiter
    case Marshal | WriteFile | WholeUnlock => Writer
    case _ => Out
  }

  ghost function StoreRoles(s: State): seq<Role> {
    seq(|s.threads|, i requires 0 <= i < |s.threads| => StoreRole(s.threads[i].pc))
  }

  ghost function WholeRoles(s: State): seq<Role> {
    seq(|s.threads|, i requires 0 <= i < |s.threads| => WholeRole(s.threads[i].pc))
  }

  /** The lock's own state says exactly which threads stand between its acquire and its release. */
  ghost predicate Agrees(l: RWLock, roles: seq<Role>) {
    && (forall t: nat :: t in l.readers <==> t < |roles| && roles[t].Reader?)
    && (forall t: nat :: l.pending == Some(t) <==> t < |roles| && roles[t].Waiter?)
    && (forall t: nat :: l.writer == Some(t) <==> t < |roles| && roles[t].Writer?)
    && (l.writer.Some? ==> l.readers == {} && l.pending.None?)
  }

  /** A lock is acquired from outside and released by its holder: never twice, never without holding it. */
  predicate Fits(before: Role, op: Op, after: Role) {
    match op
    case Nop => before == after
    case RLock => before.Out? && after.Reader?
    case RUnlock => before.Reader? && after.Out?
    case Announce => before.Out? && after.Waiter?
    case Acquire => before.Waiter? && after.Writer?
    case Unlock => before.Writer? && after.Out?
  }

  lemma PerformAgrees(l: RWLock, roles: seq<Role>, op: Op, t: nat, after: Role)
    requires t < |roles| && Agrees(l, roles) && Ready(l, op) && Fits(roles[t], op, after)
    ensures Agrees(Perform(l, op, t), roles[t := after])
  {
  }

  lemma EveryPositionFits(s: State, t: nat, env: Env)
    requires Enabled(s, t)
    ensures var th, pc := s.threads[t], Goto(s, s.threads[t], env);
            && Fits(StoreRole(th.pc), StoreOp(th.pc), StoreRole(pc))
            && Fits(WholeRole(th.pc), WholeOp(th.pc), WholeRole(pc))
  {
  }

  ghost predicate RWLocksAgree(s: State) {
    Agrees(s.store, StoreRoles(s)) && Agrees(s.whole, WholeRoles(s))
  }

  lemma RWLocksStep(s: State, l: Label)
    requires RWLocksAgree(s) && Allowed(s, l)
    ensures RWLocksAgree(Next(s, l))
  {
    match l
    case Spawn(ev) =>
      assert StoreRoles(Next(s, l)) == StoreRoles(s) + [Out];
      assert WholeRoles(Next(s, l)) == WholeRoles(s) + [Out];
    case Fire(t, env) =>
      EveryPositionFits(s, t, env);
      var pc, pc' := s.threads[t].pc, Goto(s, s.threads[t], env);
      PerformAgrees(s.store, StoreRoles(s), StoreOp(pc), t, StoreRole(pc'));
      PerformAgrees(s.whole, WholeRoles(s), WholeOp(pc), t, WholeRole(pc'));
      assert StoreRoles(Next(s, l)) == StoreRoles(s)[t := StoreRole(pc')];
      assert WholeRoles(Next(s, l)) == WholeRoles(s)[t := WholeRole(pc')];
  }

  // ---------------------------------------------------------------- the map lock and the conversation mutexes

  predicate HoldsMap(pc: PC) { pc.MapLookup? || pc.MapUnlock? }

  predicate HoldsConv(pc: PC) { pc.WholeRLock? || pc.Dispatch? || pc.Increment? || pc.ConvUnlock? || pc.Panicked? }

  predicate HasMutex(pc: PC) { HoldsConv(pc) || pc.MapUnlock? || pc.ConvLock? }

  predicate HasConv(th: Thread) {
    || HasMutex(th.pc) || th.more
    || th.pc.MapLock? || th.pc.MapLookup? || th.pc.WholeRUnlock? || th.pc.CreateGroup?
    || (th.pc.ScanRUnlock? && th.found)
  }

  ghost predicate MapLockAgrees(s: State) {
    forall t: nat :: s.mapLock == Some(t) <==> t < |s.threads| && HoldsMap(s.threads[t].pc)
  }

  lemma MapLockStep(s: State, l: Label)
    requires MapLockAgrees(s) && Allowed(s, l)
    ensures MapLockAgrees(Next(s, l))
  {
  }

  /** Distinct entries have distinct mutexes. */
  ghost predicate MapInjective(s: State) {
    && (forall c :: c in s.convMutex ==> s.convMutex[c] < |s.owners|)
    && (forall c, d :: c in s.convMutex && d in s.convMutex && s.convMutex[c] == s.convMutex[d] ==> c == d)
  }

  /** A thread past the scan works on a one-to-one entry; past the lookup it has that entry's mutex. */
  ghost predicate ThreadAgrees(s: State, th: Thread) {
    && (HasConv(th) ==> th.conv < |s.convs| && s.convs[th.conv].oneToOne)
    && (HasMutex(th.pc) ==> th.conv in s.convMutex && th.mutex == s.convMutex[th.conv])
  }

  ghost predicate ThreadsAgree(s: State) {
    MapInjective(s) && forall t: nat :: t < |s.threads| ==> ThreadAgrees(s, s.threads[t])
  }

  lemma ThreadAgreesLater(s: State, t: nat, env: Env, th: Thread)
    requires Enabled(s, t) && ThreadAgrees(s, th)
    ensures ThreadAgrees(Fired(s, t, env), th)
  {
  }

  lemma MovedAgrees(s: State, t: nat, env: Env)
    requires Enabled(s, t) && ThreadAgrees(s, s.threads[t])
    ensures ThreadAgrees(Fired(s, t, env), Moved(s, t, env))
  {
  }

  lemma ThreadsStep(s: State, l: Label)
    requires ThreadsAgree(s) && Allowed(s, l)
    ensures ThreadsAgree(Next(s, l))
  {
    match l
    case Spawn(ev) =>
    case Fire(t, env) =>
      MovedAgrees(s, t, env);
      forall u: nat | u < |s.threads| && u != t ensures ThreadAgrees(Fired(s, t, env), s.threads[u]) {
        ThreadAgreesLater(s, t, env, s.threads[u]);
      }
  }

  /** A conversation mutex is owned by exactly the thread that is between its Lock and its Unlock. */
  ghost predicate Owned(owners: seq<Option<nat>>, threads: seq<Thread>) {
    && (forall t: nat :: t < |threads| && HoldsConv(threads[t].pc) ==>
          threads[t].mutex < |owners| && owners[threads[t].mutex] == Some(t))
    && (forall m: nat :: m < |owners| && owners[m].Some? ==>
          var t := owners[m].value;
          t < |threads| && HoldsConv(threads[t].pc) && threads[t].mutex == m)
  }

  ghost predicate OwnersAgree(s: State) { Owned(s.owners, s.threads) }

  lemma OwnersEffect(s: State, t: nat, env: Env)
    requires Enabled(s, t)
    ensures var th, th', m, owners' := s.threads[t], Moved(s, t, env), s.threads[t].mutex, Fired(s, t, env).owners;
            match th.pc
            case ConvLock => HoldsConv(th'.pc) && th'.mutex == m && owners' == s.owners[m := Some(t)]
            case ConvUnlock => !HoldsConv(th'.pc) && owners' == s.owners[m := None]
            case _ =>
              && HoldsConv(th'.pc) == HoldsConv(th.pc)
              && (HoldsConv(th.pc) ==> th'.mutex == m)
              && (owners' == s.owners || owners' == s.owners + [None])
  {
  }

  lemma OwnersStep(s: State, l: Label)
    requires OwnersAgree(s) && Allowed(s, l)
    ensures OwnersAgree(Next(s, l))
  {
    match l
    case Spawn(ev) =>
    case Fire(t, env) =>
      OwnersEffect(s, t, env);
      OwnersMove(s.owners, s.threads, t, Moved(s, t, env), Fired(s, t, env).owners);
  }

  lemma OwnersMove(owners: seq<Option<nat>>, threads: seq<Thread>, t: nat, th: Thread, owners': seq<Option<nat>>)
    requires t < |threads| && Owned(owners, threads)
    requires var m := threads[t].mutex;
             || (m < |owners| && owners[m].None? && !HoldsConv(threads[t].pc)
                 && HoldsConv(th.pc) && th.mutex == m && owners' == owners[m := Some(t)])
             || (m < |owners| && HoldsConv(threads[t].pc) && !HoldsConv(th.pc) && owners' == owners[m := None])
             || (HoldsConv(th.pc) == HoldsConv(threads[t].pc) && (HoldsConv(th.pc) ==> th.mutex == m)
                 && (owners' == owners || owners' == owners + [None]))
    ensures Owned(owners', threads[t := th])
  {
  }
}
