/**
  The welcome bot as a state machine: one thread per handled event, interleaved at every lock
  operation, plus the shared store and the store file.

  A thread is the part of a goroutine that touches locks or the store. Network calls and sleeps
  happen while no lock is held; only the outcome that decides the path is kept (`Env`).
*/
module WelcomeBot {
  import opened Results

  /** One entry of `bot.store.Convs`. The list only grows, so an index stands for a `*Conversation`. */
  datatype Conv = Conv(pk: string, contactPk: string, name: string, step: nat, oneToOne: bool)

  /**
    Go's `sync.RWMutex`. `pending` is the writer that called Lock and waits for the active
    readers; from that moment new readers are blocked and other writers queue.
  */
  datatype RWLock = RWLock(readers: set<nat>, pending: Option<nat>, writer: Option<nat>)

  /** What one action does to a read/write lock. A Lock call is two actions: Announce, then Acquire. */
  datatype Op = Nop | RLock | RUnlock | Announce | Acquire | Unlock

  predicate Ready(l: RWLock, op: Op) {
    match op
    case RLock | Announce => l.pending.None? && l.writer.None?
    case Acquire => l.readers == {}
    case _ => true
  }

  function Perform(l: RWLock, op: Op, t: nat): RWLock {
    match op
    case Nop => l
    case RLock => l.(readers := l.readers + {t})
    case RUnlock => l.(readers := l.readers - {t})
    case Announce => l.(pending := Some(t))
    case Acquire => l.(pending := None, writer := Some(t))
    case Unlock => l.(writer := None)
  }

  datatype PC =
    // handleUserMessageInteractionUpdated: the scan of the store
    | ScanRLock | Scan | ScanRUnlock
    // LockConversation
    | MapLock | MapLookup | MapUnlock | ConvLock | WholeRLock
    // the step functions, up to both halves of the unlocker
    | Dispatch | Increment | ConvUnlock | WholeRUnlock
    // doStep1 after its first saveStore
    | CreateGroup
    // appending an entry to the store
    | StoreLock | StoreWait | Append | StoreUnlock
    // saveStore
    | SaveRLock | WholeLock | WholeWait | Marshal | WriteFile | WholeUnlock | SaveRUnlock
    | Done | Panicked

  datatype Thread = Thread(
    pc: PC,
    msgPk: string,      // conversation of the received message
    valid: bool,        // checkValidationMessage of its body
    found: bool,        // the scan met an entry
    conv: nat,          // that entry
    mutex: nat,         // its mutex
    seen: nat,          // the step at dispatch
    advanced: bool,     // the step function incremented the entry
    more: bool,         // doStep1 continues after this saveStore
    entry: Conv,        // entry to append
    data: seq<Conv>)    // marshalled store

  datatype State = State(
    convs: seq<Conv>,
    file: Option<seq<Conv>>,
    mapLock: Option<nat>,
    convMutex: map<nat, nat>,       // storeConvMap
    owners: seq<Option<nat>>,       // every conversation mutex ever allocated
    whole: RWLock,                  // storeWholeConvLock
    store: RWLock,                  // storeMutex
    calls: seq<nat>,                // entries for which ConversationCreate was called, in order
    bumped: map<nat, nat>,          // history: the thread that took an entry from step 1 to 2
    threads: seq<Thread>)

  /** What the event loop may start: a user message, an accepted contact, main's own saveStore. */
  datatype Event = Message(pk: string, valid: bool) | Accepted(pk: string, contactPk: string, name: string) | Save

  /** How the network calls before and including ConversationCreate end. */
  datatype Env = NotCalled | CallFailed | Created(pk: string)

  datatype Label = Spawn(ev: Event) | Fire(t: nat, env: Env)

  const NOCONV := Conv("", "", "", 0, false)

  function NewThread(ev: Event): Thread {
    match ev
    case Message(pk, valid) => Thread(ScanRLock, pk, valid, false, 0, 0, 0, false, false, NOCONV, [])
    case Accepted(pk, contactPk, name) =>
      Thread(StoreLock, "", false, false, 0, 0, 0, false, false, Conv(pk, contactPk, name, 0, true), [])
    case Save => Thread(SaveRLock, "", false, false, 0, 0, 0, false, false, NOCONV, [])
  }

  /** The scan loop keeps the last match: it has no break. */
  function Find(convs: seq<Conv>, pk: string): (r: Option<nat>)
    ensures r.Some? ==> r.value < |convs| && convs[r.value].pk == pk
                        && forall d :: r.value < d < |convs| ==> convs[d].pk != pk
    ensures r.None? ==> forall d :: 0 <= d < |convs| ==> convs[d].pk != pk
  {
    if convs == [] then None
    else if convs[|convs| - 1].pk == pk then Some(|convs| - 1)
    else Find(convs[..|convs| - 1], pk)
  }

  // ---------------------------------------------------------------- the locks, position by position

  /** storeMutex */
  function StoreOp(pc: PC): Op {
    match pc
    case ScanRLock | SaveRLock => RLock
    case ScanRUnlock | SaveRUnlock => RUnlock
    case StoreLock => Announce
    case StoreWait => Acquire
    case StoreUnlock => Unlock
    case _ => Nop
  }

  /** storeWholeConvLock */
  function WholeOp(pc: PC): Op {
    match pc
    case WholeRLock => RLock
    case WholeRUnlock => RUnlock
    case WholeLock => Announce
    case WholeWait => Acquire
    case WholeUnlock => Unlock
    case _ => Nop
  }

  /** Whether thread `t` can take its next action now. */
  predicate Enabled(s: State, t: nat) {
    t < |s.threads| &&
    var th := s.threads[t];
    && !th.pc.Done? && !th.pc.Panicked?
    && Ready(s.store, StoreOp(th.pc))
    && Ready(s.whole, WholeOp(th.pc))
    && (th.pc.MapLock? ==> s.mapLock.None?)
    && (th.pc.ConvLock? ==> th.mutex < |s.owners| && s.owners[th.mutex].None?)
    && (th.pc.ConvUnlock? ==> th.mutex < |s.owners|)
    && (th.pc.Dispatch? || th.pc.Increment? ==> th.conv < |s.convs|)
  }

  // ---------------------------------------------------------------- one action of one thread

  /** The entry the scan settles on, when it is a one-to-one conversation. */
  function Target(s: State, th: Thread): Option<nat> {
    var c := Find(s.convs, th.msgPk);
    if c.Some? && s.convs[c.value].oneToOne then c else None
  }

  /** Where the thread goes next. */
  function Goto(s: State, th: Thread, env: Env): PC
    requires th.pc.Dispatch? ==> th.conv < |s.convs|
  {
    match th.pc
    case ScanRLock => Scan
    case Scan => ScanRUnlock
    case ScanRUnlock => if th.found then MapLock else Done
    case MapLock => MapLookup
    case MapLookup => MapUnlock
    case MapUnlock => ConvLock
    case ConvLock => WholeRLock
    case WholeRLock => Dispatch
    case Dispatch => // [3]doStepFn{...}[conv.Step] panics on an index out of range
      if s.convs[th.conv].step > 2 then Panicked
      else if s.convs[th.conv].step < 2 && th.valid then Increment
      else ConvUnlock
    case Increment => ConvUnlock
    case ConvUnlock => WholeRUnlock
    case WholeRUnlock => if th.advanced then SaveRLock else Done
    case CreateGroup => if env.Created? then StoreLock else Done
    case StoreLock => StoreWait
    case StoreWait => Append
    case Append => StoreUnlock
    case StoreUnlock => SaveRLock
    case SaveRLock => WholeLock
    case WholeLock => WholeWait
    case WholeWait => Marshal
    case Marshal => WriteFile
    case WriteFile => WholeUnlock
    case WholeUnlock => SaveRUnlock
    case SaveRUnlock => if th.more then CreateGroup else Done
    case Done => Done
    case Panicked => Panicked
  }

  /** The thread's own variables after its action. */
  function Moved(s: State, t: nat, env: Env): Thread
    requires Enabled(s, t)
  {
    var th := s.threads[t];
    Thread(
      Goto(s, th, env),
      th.msgPk,
      th.valid,
      if th.pc.Scan? then Target(s, th).Some? else th.found,
      if th.pc.Scan? && Target(s, th).Some? then Target(s, th).value else th.conv,
      if !th.pc.MapLookup? then th.mutex
      else if th.conv in s.convMutex then s.convMutex[th.conv]
      else |s.owners|,
      if th.pc.Dispatch? then s.convs[th.conv].step else th.seen,
      th.advanced || th.pc.Increment?,
      if th.pc.Increment? then th.seen == 1 else th.more && !th.pc.SaveRUnlock?,
      if th.pc.CreateGroup? && env.Created? then Conv(env.pk, "", "", 0, false) else th.entry,
      if th.pc.Marshal? then s.convs else th.data)
  }

  /** `conv.Step++`, or an append to the list, or nothing. */
  function ConvsAfter(s: State, th: Thread): seq<Conv>
    requires th.pc.Increment? ==> th.conv < |s.convs|
  {
    if th.pc.Increment? then s.convs[th.conv := s.convs[th.conv].(step := s.convs[th.conv].step + 1)]
    else if th.pc.Append? then s.convs + [th.entry]
    else s.convs
  }

  /** The lookup allocates a mutex for an entry that has none; Lock and Unlock set its owner. */
  function OwnersAfter(s: State, t: nat): seq<Option<nat>>
    requires Enabled(s, t)
  {
    var th := s.threads[t];
    if th.pc.MapLookup? && th.conv !in s.convMutex then s.owners + [None]
    else if th.pc.ConvLock? then s.owners[th.mutex := Some(t)]
    else if th.pc.ConvUnlock? then s.owners[th.mutex := None]
    else s.owners
  }

  function Fired(s: State, t: nat, env: Env): State
    requires Enabled(s, t)
  {
    var th := s.threads[t];
    State(
      ConvsAfter(s, th),
      if th.pc.WriteFile? then Some(th.data) else s.file,
      if th.pc.MapLock? then Some(t) else if th.pc.MapUnlock? then None else s.mapLock,
      if th.pc.MapLookup? && th.conv !in s.convMutex then s.convMutex[th.conv := |s.owners|] else s.convMutex,
      OwnersAfter(s, t),
      Perform(s.whole, WholeOp(th.pc), t),
      Perform(s.store, StoreOp(th.pc), t),
      if th.pc.CreateGroup? && !env.NotCalled? then s.calls + [th.conv] else s.calls,
      if th.pc.Increment? && th.seen == 1 then s.bumped[th.conv := t] else s.bumped,
      s.threads[t := Moved(s, t, env)])
  }

  predicate Allowed(s: State, l: Label) { l.Spawn? || Enabled(s, l.t) }

  function Next(s: State, l: Label): State
    requires Allowed(s, l)
  {
    match l
    case Spawn(ev) => s.(threads := s.threads + [NewThread(ev)])
    case Fire(t, env) => Fired(s, t, env)
  }

  ghost predicate Moves(s: State, l: Label, s': State) { Allowed(s, l) && s' == Next(s, l) }

  /** The bot when its event loop starts: entries loaded from `fromFile`, or none and no file. */
  ghost predicate Init(s: State) {
    && (s.file == Some(s.convs) || (s.file.None? && s.convs == []))
    && s == State(s.convs, s.file, None, map[], [], RWLock({}, None, None), RWLock({}, None, None), [], map[], [])
  }

  /** A run: the state before each label, and the state after the last one. */
  ghost predicate Run(tr: seq<State>, ls: seq<Label>) {
    && |tr| == |ls| + 1
    && Init(tr[0])
    && forall i :: 0 <= i < |ls| ==> Moves(tr[i], ls[i], tr[i + 1])
  }
}
