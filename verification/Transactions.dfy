/**
  `TX` and `PostAction`: transactions that nest, and actions deferred until the transaction they
  were registered in is over.

  What a transaction function does is given by a tree: the statements it runs, with a branch on
  every error it can see. Statements change the tables; here the tables are the list of rows written.
*/
module Transactions {
  datatype Body =
    | Return(ok: bool)
    | Write(row: string, next: Body)
    | Post(action: Body, onOk: Body, onErr: Body)
    | Nested(body: Body, onOk: Body, onErr: Body)

  /**
    One registration of a deferred action, which is called with the wrapper that TX was called on.
    Its id is the position of the registration in the trace, so no two registrations share one.
  */
  datatype Action = Action(id: nat, body: Body)

  /** The closure in `postaction`: each registration wraps the previous one. */
  datatype Chain = NoAction | Single(a: Action) | AndThen(previous: Chain, a: Action)

  datatype Event = Posted | Committed | RolledBack | Ran(id: nat)

  /** What a call returns and leaves behind. */
  datatype Out = Out(ok: bool, chain: Chain, rows: seq<string>, trace: seq<Event>)

  function Size(b: Body): nat {
    match b
    case Return(_) => 1
    case Write(_, next) => 1 + Size(next)
    case Post(action, onOk, onErr) => 2 + Size(action) + Size(onOk) + Size(onErr)
    case Nested(body, onOk, onErr) => 1 + Size(body) + Size(onOk) + Size(onErr)
  }

  function ChainSize(c: Chain): nat {
    match c
    case NoAction => 0
    case Single(a) => 1 + Size(a.body)
    case AndThen(previous, a) => ChainSize(previous) + 1 + Size(a.body)
  }

  function Registering(c: Chain, a: Action): Chain {
    if c.NoAction? then Single(a) else AndThen(c, a)
  }

  /** The statements of a transaction function, run on a wrapper with the given `inTx` and `postaction`. */
  function Exec(b: Body, inTx: bool, chain: Chain, rows: seq<string>, trace: seq<Event>): (r: Out)
    ensures ChainSize(r.chain) <= ChainSize(chain) + Size(b)
    decreases Size(b), 0
  {
    match b
    case Return(ok) => Out(ok, chain, rows, trace)
    case Write(row, next) => Exec(next, inTx, chain, rows + [row], trace)
    case Post(action, onOk, onErr) =>
      if inTx then Exec(onOk, inTx, Registering(chain, Action(|trace|, action)), rows, trace + [Posted])
      else Exec(onErr, inTx, chain, rows, trace)
    case Nested(body, onOk, onErr) =>
      var r := ExecTX(body, inTx, chain, rows, trace);
      Exec(if r.ok then onOk else onErr, inTx, r.chain, r.rows, r.trace)
  }

  /** TX on that wrapper. */
  function ExecTX(b: Body, inTx: bool, chain: Chain, rows: seq<string>, trace: seq<Event>): (r: Out)
    ensures ChainSize(r.chain) <= ChainSize(chain) + Size(b)
    decreases Size(b), 2
  {
    var inner := Exec(b, true, NoAction, rows, trace);
    if !inner.ok then Out(false, chain, rows, inner.trace + [RolledBack])
    else ExecChain(inner.chain, inTx, chain, inner.rows, inner.trace + [Committed])
  }

  function ExecChain(c: Chain, inTx: bool, chain: Chain, rows: seq<string>, trace: seq<Event>): (r: Out)
    ensures ChainSize(r.chain) <= ChainSize(chain) + ChainSize(c)
    decreases ChainSize(c), 1
  {
    match c
    case NoAction => Out(true, chain, rows, trace)
    case Single(a) => Exec(a.body, inTx, chain, rows, trace + [Ran(a.id)])
    case AndThen(previous, a) =>
      var r := ExecChain(previous, inTx, chain, rows, trace);
      if !r.ok then r else Exec(a.body, inTx, r.chain, r.rows, r.trace + [Ran(a.id)])
  }

  // ---------------------------------------------------------------- the code

  class Database {
    var rows: seq<string>
    var trace: seq<Event> // history
  }

  class DBWrapper {
    const inTx: bool
    var postaction: Chain

    constructor (inTx: bool)
      ensures this.inTx == inTx && postaction == NoAction
    {
      this.inTx, postaction := inTx, NoAction;
    }

    method PostAction(action: Action) returns (ok: bool)
      modifies this
      ensures ok == inTx
      ensures Registered(postaction) == Registered(old(postaction)) + if inTx then [action] else []
      ensures postaction == if inTx then Registering(old(postaction), action) else old(postaction)
    {
      if !inTx { return false; }
      if postaction == NoAction {
        postaction := Single(action);
        return true;
      }
      postaction := AndThen(postaction, action);
      return true;
    }

    method TX(db: Database, txFunc: Body) returns (ok: bool)
      modifies this, db
      ensures Out(ok, postaction, db.rows, db.trace)
           == ExecTX(txFunc, inTx, old(postaction), old(db.rows), old(db.trace))
      ensures var inner := Exec(txFunc, true, NoAction, old(db.rows), old(db.trace));
              if inner.ok then inner.rows <= db.rows && inner.trace + [Committed] <= db.trace
              else !ok && db.rows == old(db.rows) && postaction == old(postaction) && db.trace == inner.trace + [RolledBack]
      decreases Size(txFunc), 2
    {
      var saved := db.rows;
      var txwrapper := new DBWrapper(true);
      ok := txwrapper.Run(db, txFunc);
      if !ok {
        db.rows := saved;
        db.trace := db.trace + [RolledBack];
        return;
      }
      db.trace := db.trace + [Committed];
      ChainGrows(txwrapper.postaction, inTx, postaction, db.rows, db.trace);
      ok := RunChain(db, txwrapper.postaction);
    }

    /** Calls the closure built by PostAction. */
    method RunChain(db: Database, c: Chain) returns (ok: bool)
      modifies this, db
      ensures Out(ok, postaction, db.rows, db.trace)
           == ExecChain(c, inTx, old(postaction), old(db.rows), old(db.trace))
      decreases ChainSize(c), 1
    {
      match c
      case NoAction => return true;
      case Single(a) =>
        db.trace := db.trace + [Ran(a.id)];
        ok := Run(db, a.body);
      case AndThen(previous, a) =>
        ok := RunChain(db, previous);
        if !ok { return; }
        db.trace := db.trace + [Ran(a.id)];
        ok := Run(db, a.body);
    }

    /** A transaction function at work. */
    method Run(db: Database, b: Body) returns (ok: bool)
      modifies this, db
      ensures Out(ok, postaction, db.rows, db.trace)
           == Exec(b, inTx, old(postaction), old(db.rows), old(db.trace))
      decreases Size(b), 0
    {
      match b
      case Return(result) => return result;
      case Write(row, next) =>
        db.rows := db.rows + [row];
        ok := Run(db, next);
      case Post(action, onOk, onErr) =>
        ok := PostAction(Action(|db.trace|, action));
        if ok {
          db.trace := db.trace + [Posted];
          ok := Run(db, onOk);
        } else {
          ok := Run(db, onErr);
        }
      case Nested(body, onOk, onErr) =>
        ok := TX(db, body);
        if ok { ok := Run(db, onOk); } else { ok := Run(db, onErr); }
    }
  }

  // ---------------------------------------------------------------- the order of deferred actions

  /** The registered actions, first one first. */
  function Registered(c: Chain): seq<Action> {
    match c
    case NoAction => []
    case Single(a) => [a]
    case AndThen(previous, a) => Registered(previous) + [a]
  }

  /** Running a list of actions in order, up to the first error. */
  function ExecList(actions: seq<Action>, inTx: bool, chain: Chain, rows: seq<string>, trace: seq<Event>): Out {
    if actions == [] then Out(true, chain, rows, trace)
    else
      var r := Exec(actions[0].body, inTx, chain, rows, trace + [Ran(actions[0].id)]);
      if r.ok then ExecList(actions[1..], inTx, r.chain, r.rows, r.trace) else r
  }

  lemma {:induction false} ExecListSnoc(
      actions: seq<Action>, a: Action, inTx: bool, chain: Chain, rows: seq<string>, trace: seq<Event>)
    ensures ExecList(actions + [a], inTx, chain, rows, trace) ==
            var r := ExecList(actions, inTx, chain, rows, trace);
            if r.ok then Exec(a.body, inTx, r.chain, r.rows, r.trace + [Ran(a.id)]) else r
  {
    if actions == [] {
      assert (actions + [a])[1..] == [];
    } else {
      var r := Exec(actions[0].body, inTx, chain, rows, trace + [Ran(actions[0].id)]);
      assert (actions + [a])[1..] == actions[1..] + [a];
      if r.ok { ExecListSnoc(actions[1..], a, inTx, r.chain, r.rows, r.trace); }
    }
  }

  /** The nested closures run the registered actions one by one, in registration order, up to the first error. */
  lemma {:induction false} ChainRunsInOrder(c: Chain, inTx: bool, chain: Chain, rows: seq<string>, trace: seq<Event>)
    ensures ExecChain(c, inTx, chain, rows, trace) == ExecList(Registered(c), inTx, chain, rows, trace)
  {
    match c
    case NoAction =>
    case Single(a) => ExecListSnoc([], a, inTx, chain, rows, trace); assert [] + [a] == [a];
    case AndThen(previous, a) =>
      ChainRunsInOrder(previous, inTx, chain, rows, trace);
      ExecListSnoc(Registered(previous), a, inTx, chain, rows, trace);
  }

  // ---------------------------------------------------------------- nothing runs twice

  /** How often a registration waits in the closure. */
  function Waiting(c: Chain, id: nat): nat {
    match c
    case NoAction => 0
    case Single(a) => if a.id == id then 1 else 0
    case AndThen(previous, a) => Waiting(previous, id) + if a.id == id then 1 else 0
  }

  function Runs(trace: seq<Event>, id: nat): nat {
    if trace == [] then 0
    else Runs(trace[..|trace| - 1], id) + if trace[|trace| - 1] == Ran(id) then 1 else 0
  }

  /** Whether the registration has been made: 1 or 0. */
  function Made(trace: seq<Event>, id: nat): nat {
    if id < |trace| && trace[id] == Posted then 1 else 0
  }

  lemma TraceSnoc(trace: seq<Event>, e: Event, id: nat)
    ensures Runs(trace + [e], id) == Runs(trace, id) + if e == Ran(id) then 1 else 0
    ensures Made(trace + [e], id) == if e == Posted && id == |trace| then 1 else Made(trace, id)
  {
    assert (trace + [e])[..|trace|] == trace;
  }

  // Every run of a registered action, and every one still waiting, is paid for by its registration.

  lemma {:induction false} ExecConserves(
      b: Body, inTx: bool, chain: Chain, rows: seq<string>, trace: seq<Event>, id: nat)
    ensures var r := Exec(b, inTx, chain, rows, trace);
            Runs(r.trace, id) + Waiting(r.chain, id) + Made(trace, id) <=
            Runs(trace, id) + Waiting(chain, id) + Made(r.trace, id)
    decreases Size(b), 0
  {
    match b
    case Return(_) =>
    case Write(row, next) => ExecConserves(next, inTx, chain, rows + [row], trace, id);
    case Post(action, onOk, onErr) =>
      if inTx {
        TraceSnoc(trace, Posted, id);
        ExecConserves(onOk, inTx, Registering(chain, Action(|trace|, action)), rows, trace + [Posted], id);
      } else {
        ExecConserves(onErr, inTx, chain, rows, trace, id);
      }
    case Nested(body, onOk, onErr) =>
      TXConserves(body, inTx, chain, rows, trace, id);
      var r := ExecTX(body, inTx, chain, rows, trace);
      ExecConserves(if r.ok then onOk else onErr, inTx, r.chain, r.rows, r.trace, id);
  }

  lemma {:induction false} TXConserves(
      b: Body, inTx: bool, chain: Chain, rows: seq<string>, trace: seq<Event>, id: nat)
    ensures var r := ExecTX(b, inTx, chain, rows, trace);
            Runs(r.trace, id) + Waiting(r.chain, id) + Made(trace, id) <=
            Runs(trace, id) + Waiting(chain, id) + Made(r.trace, id)
    decreases Size(b), 2
  {
    ExecConserves(b, true, NoAction, rows, trace, id);
    var inner := Exec(b, true, NoAction, rows, trace);
    TraceSnoc(inner.trace, RolledBack, id);
    TraceSnoc(inner.trace, Committed, id);
    if inner.ok { ChainConserves(inner.chain, inTx, chain, inner.rows, inner.trace + [Committed], id); }
  }

  lemma {:induction false} ChainConserves(
      c: Chain, inTx: bool, chain: Chain, rows: seq<string>, trace: seq<Event>, id: nat)
    ensures var r := ExecChain(c, inTx, chain, rows, trace);
            Runs(r.trace, id) + Waiting(r.chain, id) + Made(trace, id) <=
            Runs(trace, id) + Waiting(chain, id) + Waiting(c, id) + Made(r.trace, id)
    decreases ChainSize(c), 1
  {
    match c
    case NoAction =>
    case Single(a) =>
      TraceSnoc(trace, Ran(a.id), id);
      ExecConserves(a.body, inTx, chain, rows, trace + [Ran(a.id)], id);
    case AndThen(previous, a) =>
      ChainConserves(previous, inTx, chain, rows, trace, id);
      var r := ExecChain(previous, inTx, chain, rows, trace);
      if r.ok {
        TraceSnoc(r.trace, Ran(a.id), id);
        ExecConserves(a.body, inTx, r.chain, r.rows, r.trace + [Ran(a.id)], id);
      }
  }

  /** In every program: what has run or waits was registered, and is one of the two, and only once. */
  ghost predicate Sound(chain: Chain, trace: seq<Event>) {
    forall id: nat :: Runs(trace, id) + Waiting(chain, id) <= Made(trace, id)
  }

  /** Every call keeps this; the body of a new transaction starts from it with nothing registered. */
  lemma BodiesStaySound(b: Body, inTx: bool, chain: Chain, rows: seq<string>, trace: seq<Event>)
    requires Sound(chain, trace)
    ensures Sound(NoAction, trace)
    ensures var r := Exec(b, inTx, chain, rows, trace); Sound(r.chain, r.trace)
  {
    var r := Exec(b, inTx, chain, rows, trace);
    forall id: nat ensures Runs(r.trace, id) + Waiting(r.chain, id) <= Made(r.trace, id) {
      ExecConserves(b, inTx, chain, rows, trace, id);
    }
  }

  lemma CallsStaySound(b: Body, inTx: bool, chain: Chain, rows: seq<string>, trace: seq<Event>)
    requires Sound(chain, trace)
    ensures var r := ExecTX(b, inTx, chain, rows, trace); Sound(r.chain, r.trace)
  {
    var r := ExecTX(b, inTx, chain, rows, trace);
    forall id: nat ensures Runs(r.trace, id) + Waiting(r.chain, id) <= Made(r.trace, id) {
      TXConserves(b, inTx, chain, rows, trace, id);
    }
  }

  /** A registration runs at most once, and only if it was made, however the transactions nest and fail. */
  lemma NoActionRunsTwice(b: Body, rows: seq<string>, id: nat)
    ensures var trace := ExecTX(b, false, NoAction, rows, []).trace;
            Runs(trace, id) <= 1 && (Runs(trace, id) == 1 ==> id < |trace| && trace[id] == Posted)
  {
    TXConserves(b, false, NoAction, rows, [], id);
  }

  // ---------------------------------------------------------------- failure and commit

  lemma {:induction false} RegisteredWaits(c: Chain, i: nat)
    requires i < |Registered(c)|
    ensures Waiting(c, Registered(c)[i].id) >= 1
  {
    match c
    case Single(a) =>
    case AndThen(previous, a) => if i < |Registered(previous)| { RegisteredWaits(previous, i); }
  }

  /** An action registered on the wrapper of a transaction has not run when its body ends, and waits nowhere else. */
  lemma WaitingHasNotRun(b: Body, chain: Chain, rows: seq<string>, trace: seq<Event>, i: nat)
    requires Sound(chain, trace) && i < |Registered(Exec(b, true, NoAction, rows, trace).chain)|
    ensures var inner := Exec(b, true, NoAction, rows, trace);
            var id := Registered(inner.chain)[i].id;
            && Runs(inner.trace, id) == 0 && Waiting(chain, id) == 0
            && Waiting(inner.chain, id) == 1 && Made(inner.trace, id) == 1
  {
    var inner := Exec(b, true, NoAction, rows, trace);
    var id := Registered(inner.chain)[i].id;
    RegisteredWaits(inner.chain, i);
    ExecConserves(b, true, NoAction, rows, trace, id);
    assert Runs(trace, id) + Waiting(chain, id) <= Made(trace, id);
  }

  /** A registration that neither ran nor waits on this wrapper never will, whatever runs on it next. */
  lemma DroppedForGood(next: Body, inTx: bool, chain: Chain, rows: seq<string>, trace: seq<Event>, id: nat)
    requires Made(trace, id) == 1 && Runs(trace, id) == 0 && Waiting(chain, id) == 0
    ensures var r := Exec(next, inTx, chain, rows, trace);
            Runs(r.trace, id) == 0 && Waiting(r.chain, id) == 0 && Made(r.trace, id) == 1
    ensures var r := ExecTX(next, inTx, chain, rows, trace);
            Runs(r.trace, id) == 0 && Waiting(r.chain, id) == 0 && Made(r.trace, id) == 1
  {
    ExecConserves(next, inTx, chain, rows, trace, id);
    TXConserves(next, inTx, chain, rows, trace, id);
    ExecGrows(next, inTx, chain, rows, trace);
    TXGrows(next, inTx, chain, rows, trace);
  }

  /** Any body that fails, whatever it wrote or registered: the tables and the wrapper are as before, and nothing runs. */
  lemma FailureRollsBack(b: Body, inTx: bool, chain: Chain, rows: seq<string>, trace: seq<Event>, id: nat)
    requires !Exec(b, true, NoAction, rows, trace).ok
    ensures var r := ExecTX(b, inTx, chain, rows, trace);
            && !r.ok && r.rows == rows && r.chain == chain
            && r.trace == Exec(b, true, NoAction, rows, trace).trace + [RolledBack]
            && Runs(r.trace, id) == Runs(Exec(b, true, NoAction, rows, trace).trace, id)
  {
    TraceSnoc(Exec(b, true, NoAction, rows, trace).trace, RolledBack, id);
  }

  /**
    A body that fails leaves tables and outer wrapper untouched; none of the actions registered on
    its wrapper has run, and none will, whatever the caller does next.
  */
  lemma FailedBody(b: Body, inTx: bool, chain: Chain, rows: seq<string>, trace: seq<Event>, i: nat, next: Body)
    requires Sound(chain, trace)
    requires var inner := Exec(b, true, NoAction, rows, trace); !inner.ok && i < |Registered(inner.chain)|
    ensures var r := ExecTX(b, inTx, chain, rows, trace);
            var id := Registered(Exec(b, true, NoAction, rows, trace).chain)[i].id;
            && !r.ok && r.rows == rows && r.chain == chain
            && Runs(r.trace, id) == 0
            && Runs(Exec(next, inTx, r.chain, r.rows, r.trace).trace, id) == 0
  {
    var inner := Exec(b, true, NoAction, rows, trace);
    var id := Registered(inner.chain)[i].id;
    WaitingHasNotRun(b, chain, rows, trace, i);
    TraceSnoc(inner.trace, RolledBack, id);
    DroppedForGood(next, inTx, chain, rows, inner.trace + [RolledBack], id);
  }

  /** Statements only add rows, unless the transaction they are in fails. */
  lemma {:induction false} ExecGrows(b: Body, inTx: bool, chain: Chain, rows: seq<string>, trace: seq<Event>)
    ensures var r := Exec(b, inTx, chain, rows, trace); rows <= r.rows && trace <= r.trace
    decreases Size(b), 0
  {
    match b
    case Return(_) =>
    case Write(row, next) => ExecGrows(next, inTx, chain, rows + [row], trace);
    case Post(action, onOk, onErr) =>
      if inTx { ExecGrows(onOk, inTx, Registering(chain, Action(|trace|, action)), rows, trace + [Posted]); }
      else { ExecGrows(onErr, inTx, chain, rows, trace); }
    case Nested(body, onOk, onErr) =>
      TXGrows(body, inTx, chain, rows, trace);
      var r := ExecTX(body, inTx, chain, rows, trace);
      ExecGrows(if r.ok then onOk else onErr, inTx, r.chain, r.rows, r.trace);
  }

  lemma {:induction false} TXGrows(b: Body, inTx: bool, chain: Chain, rows: seq<string>, trace: seq<Event>)
    ensures var r := ExecTX(b, inTx, chain, rows, trace); rows <= r.rows && trace <= r.trace
    decreases Size(b), 2
  {
    ExecGrows(b, true, NoAction, rows, trace);
    var inner := Exec(b, true, NoAction, rows, trace);
    if inner.ok { ChainGrows(inner.chain, inTx, chain, inner.rows, inner.trace + [Committed]); }
  }

  lemma {:induction false} ChainGrows(c: Chain, inTx: bool, chain: Chain, rows: seq<string>, trace: seq<Event>)
    ensures var r := ExecChain(c, inTx, chain, rows, trace); rows <= r.rows && trace <= r.trace
    decreases ChainSize(c), 1
  {
    match c
    case NoAction =>
    case Single(a) => ExecGrows(a.body, inTx, chain, rows, trace + [Ran(a.id)]);
    case AndThen(previous, a) =>
      ChainGrows(previous, inTx, chain, rows, trace);
      var r := ExecChain(previous, inTx, chain, rows, trace);
      if r.ok { ExecGrows(a.body, inTx, r.chain, r.rows, r.trace + [Ran(a.id)]); }
  }

  /**
    A body that succeeds is committed first: its rows stay even when a deferred action fails
    later, and the registered actions run after the commit, in order, up to the first error.
  */
  lemma CommittedBody(b: Body, inTx: bool, chain: Chain, rows: seq<string>, trace: seq<Event>)
    requires Exec(b, true, NoAction, rows, trace).ok
    ensures var inner, r := Exec(b, true, NoAction, rows, trace), ExecTX(b, inTx, chain, rows, trace);
            && r == ExecList(Registered(inner.chain), inTx, chain, inner.rows, inner.trace + [Committed])
            && inner.rows <= r.rows && inner.trace + [Committed] <= r.trace
  {
    var inner := Exec(b, true, NoAction, rows, trace);
    ChainRunsInOrder(inner.chain, inTx, chain, inner.rows, inner.trace + [Committed]);
    ChainGrows(inner.chain, inTx, chain, inner.rows, inner.trace + [Committed]);
  }

  lemma {:induction false} RunsGrow(before: seq<Event>, after: seq<Event>, id: nat)
    requires before <= after
    ensures Runs(before, id) <= Runs(after, id)
  {
    if before != after { RunsGrow(before, after[..|after| - 1], id); }
  }

  lemma {:induction false} ListRunsAll(
      actions: seq<Action>, inTx: bool, chain: Chain, rows: seq<string>, trace: seq<Event>, i: nat)
    requires i < |actions| && ExecList(actions, inTx, chain, rows, trace).ok
    ensures trace <= ExecList(actions, inTx, chain, rows, trace).trace
    ensures Runs(ExecList(actions, inTx, chain, rows, trace).trace, actions[i].id) >= 1
  {
    var started := trace + [Ran(actions[0].id)];
    ExecGrows(actions[0].body, inTx, chain, rows, started);
    var r := Exec(actions[0].body, inTx, chain, rows, started);
    if |actions| > 1 { ListRunsAll(actions[1..], inTx, r.chain, r.rows, r.trace, if i > 0 then i - 1 else 0); }
    if i == 0 {
      TraceSnoc(trace, Ran(actions[0].id), actions[0].id);
      RunsGrow(started, ExecList(actions, inTx, chain, rows, trace).trace, actions[0].id);
    }
  }

  /** When TX succeeds, every action registered on its wrapper has run exactly once, after the commit. */
  lemma SuccessRunsEachOnce(b: Body, inTx: bool, chain: Chain, rows: seq<string>, trace: seq<Event>, i: nat)
    requires Sound(chain, trace) && ExecTX(b, inTx, chain, rows, trace).ok
    requires i < |Registered(Exec(b, true, NoAction, rows, trace).chain)|
    ensures var inner, r := Exec(b, true, NoAction, rows, trace), ExecTX(b, inTx, chain, rows, trace);
            Runs(inner.trace, Registered(inner.chain)[i].id) == 0 && Runs(r.trace, Registered(inner.chain)[i].id) == 1
  {
    var inner := Exec(b, true, NoAction, rows, trace);
    var id := Registered(inner.chain)[i].id;
    WaitingHasNotRun(b, chain, rows, trace, i);
    CommittedBody(b, inTx, chain, rows, trace);
    ListRunsAll(Registered(inner.chain), inTx, chain, inner.rows, inner.trace + [Committed], i);
    CallsStaySound(b, inTx, chain, rows, trace);
    var r := ExecTX(b, inTx, chain, rows, trace);
    assert Runs(r.trace, id) + Waiting(r.chain, id) <= Made(r.trace, id);
  }
}
