/** The mutating handlers of internal/httpserver/server.go over both stores: concurrent requests, failed
    writes and crashes anywhere, and the order in which the two stores reach the disk. */
module Handlers {
  import opened Text
  import opened StateModel
  import S = StateMachine
  import O = OperationsModel
  import StateStore
  import Octets
  import Password

  const PASSWORD := "auth.password.change"
  const CREATE := "rbac.user.create"
  const BLOCK := "rbac.user.block"
  const UNBLOCK := "rbac.user.unblock"

  /** The change is what the handler of that kind makes for that target. */
  predicate Matches(kind: string, target: string, x: Mutation) {
    match x
    case Bootstrap(_, _, _) => false
    case Create(name, _, _, _) => kind == CREATE && name == target
    case Change(name, _, _) => kind == PASSWORD && name == target
    case Block(name, blocked) => kind == (if blocked then BLOCK else UNBLOCK) && name == Canonical(target)
  }

  /** Where a request stands after beginOperation; `Called` is when its store call returned. */
  datatype Phase = Begun | Calling | Called(acknowledged: bool)

  datatype Request = Request(kind: string, target: string, phase: Phase)

  /** Requests by operation identifier, of which at most one holds the lock of the state store, and for each
      identifier ever used in a store call the place of its change in the log of memory. */
  datatype World = World(store: S.World, operations: O.World, requests: map<string, Request>, caller: Option<string>,
                         calls: map<string, nat>)

  const INIT := World(S.INIT.(process := S.Down), O.INIT, map[], None, map[])

  datatype Step =
    | BeginOperation(id: string, kind: string, actor: string, role: string, target: string, started: int,
                     kept: O.Records, ok: bool)
    | CallStore(id: string, x: Mutation)
    | CallDirectly(x: Mutation)
    | Refuse(id: string)
    | StoreWrite(write: S.Step)
    | FinishOperation(id: string, errorCode: string, now: int, ok: bool)
    | Crash
    | OpenState
    | OpenOperations(now: int, ok: bool)

  predicate Serving(w: World) { w.store.process.Up? && w.operations.memory.Some? }

  /** What the handlers record is what they call: createUser records the name under which CreateUser stores the
      user, changePassword the name of the user of its session, and setBlocked the text from the path. */
  lemma RecordedTargetIsTheUser(prf: Password.Prf, m: Memory, text: string, before: Octets.Bytes,
                                password: Octets.Bytes, role: Role, blocked: bool, salt: Octets.Bytes, now: int)
    ensures var x := StateStore.CreateMutation(prf, m, text, password, role, salt, now);
            x.Some? ==> Enabled(m, x.value) && Matches(CREATE, Canonical(text), x.value)
    ensures var x := StateStore.ChangeMutation(prf, m, text, before, password, salt, now);
            && (x.Some? ==> Enabled(m, x.value))
            && (x.Some? && NormalizeUsername(text) == Some(text) ==> Matches(PASSWORD, text, x.value))
    ensures var x := StateStore.BlockMutation(m, text, blocked);
            x.Some? ==> Enabled(m, x.value) && Matches(if blocked then BLOCK else UNBLOCK, text, x.value)
    ensures NormalizeUsername(text).Some? ==> NormalizeUsername(Canonical(text)) == Some(Canonical(text))
  {
    StateStore.MutationsAreEnabled(prf, m, text, before, password, role, salt, now);
    StateStore.BlockIsEnabled(m, text, blocked);
    if NormalizeUsername(text).Some? { NormalizeIsIdempotent(text); }
  }

  /** The record that Start builds from what the handler passes to it. */
  function RecordOf(s: Step): O.Record
    requires s.BeginOperation?
  {
    O.NewRecord(s.id, s.kind, s.actor, s.role, s.target, s.started)
  }

  function Began(w: World, r: O.Record, kept: O.Records, ok: bool): World {
    if !Serving(w) || !O.Startable(w.operations, r, kept) then w
    else
      var v := w.(operations := O.Started(w.operations, r, kept, ok));
      if ok then v.(requests := w.requests[r.id := Request(r.kind, r.target, Begun)]) else v
  }

  /** The request makes the store call of its kind, for its target. */
  predicate Callable(w: World, id: string, x: Mutation) {
    && id in w.requests && w.requests[id].phase.Begun?
    && w.store.process.Up? && w.store.process.phase.Idle? && Enabled(w.store.process.mem, x)
    && Matches(w.requests[id].kind, w.requests[id].target, x)
  }

  function Called(w: World, id: string, x: Mutation): World {
    if !Callable(w, id, x) then w
    else w.(store := S.Began(w.store, x), caller := Some(id), calls := w.calls[id := |w.store.memLog|],
            requests := w.requests[id := w.requests[id].(phase := Calling)])
  }

  /** A process that opens only the state store calls it without a request, as bootstrap-admin does. */
  function CalledDirectly(w: World, x: Mutation): World {
    if w.operations.memory.Some? || w.caller.Some? then w else w.(store := S.Began(w.store, x))
  }

  function Refused(w: World, id: string): World {
    if id !in w.requests || !w.requests[id].phase.Begun? then w
    else w.(requests := w.requests[id := w.requests[id].(phase := Phase.Called(false))])
  }

  /** A file operation of the call under way; when the call returns its request, if it has one, goes on. */
  function Wrote(w: World, s: S.Step): World {
    if s.Begin? || s.Crash? || s.Reopen? then w
    else
      var store := S.Next(w.store, s);
      if w.caller.Some? && w.caller.value in w.requests && store.process.Up? && store.process.phase.Idle? then
        var id := w.caller.value;
        w.(store := store, caller := None,
           requests := w.requests[id := w.requests[id].(phase := Phase.Called(store.ackLog == store.memLog))])
      else w.(store := store)
  }

  function Finished(w: World, id: string, errorCode: string, now: int, ok: bool): World {
    if id !in w.requests || !w.requests[id].phase.Called? then w
    else
      var status := if w.requests[id].phase.acknowledged then O.Succeeded else O.Failed;
      w.(operations := O.Finished(w.operations, id, status, errorCode, now, ok), requests := w.requests - {id})
  }

  function Next(w: World, s: Step): World {
    match s
    case BeginOperation(_, _, _, _, _, _, kept, ok) => Began(w, RecordOf(s), kept, ok)
    case CallStore(id, x) => Called(w, id, x)
    case CallDirectly(x) => CalledDirectly(w, x)
    case Refuse(id) => Refused(w, id)
    case StoreWrite(write) => Wrote(w, write)
    case FinishOperation(id, errorCode, now, ok) => Finished(w, id, errorCode, now, ok)
    case Crash => World(S.Next(w.store, S.Crash), O.Next(w.operations, O.Crash), map[], None, w.calls)
    case OpenState => w.(store := S.Next(w.store, S.Reopen))
    case OpenOperations(now, ok) => w.(operations := O.Next(w.operations, O.Open(now, ok)))
  }

  function Exec(steps: seq<Step>): World {
    if steps == [] then INIT else Next(Exec(steps[..|steps| - 1]), steps[|steps| - 1])
  }

  predicate FreshIds(steps: seq<Step>) {
    steps == [] ||
    var p := steps[..|steps| - 1];
    var s := steps[|steps| - 1];
    FreshIds(p) && (s.BeginOperation? ==> s.id !in Exec(p).operations.used)
  }

  // ----- the invariant ----------------------------------------------------------------------

  /** The users that state.json holds. */
  function DiskUsers(w: S.World): set<string> {
    if w.files.state.Some? then w.files.state.value.users.Keys else {}
  }

  /** The log holds the change that the operation called for. */
  predicate Made(calls: map<string, nat>, log: seq<Mutation>, id: string, kind: string, target: string) {
    id in calls && calls[id] < |log| && Matches(kind, target, log[calls[id]])
  }

  /** The changes of the succeeded operations are in the log. */
  predicate Honest(rs: O.Records, calls: map<string, nat>, log: seq<Mutation>) {
    forall id :: id in rs && rs[id].status.Succeeded? ==> Made(calls, log, id, rs[id].kind, rs[id].target)
  }

  predicate RecordsHonest(w: O.World, calls: map<string, nat>, log: seq<Mutation>) {
    Honest(O.OnDisk(w), calls, log) && (w.memory.Some? ==> Honest(w.memory.value, calls, log))
  }

  /** The record of a request is the one it started, and requests live in a process. */
  predicate Linked(w: World) {
    && (w.operations.memory.None? || w.store.process.Down? ==> w.requests == map[])
    && w.calls.Keys <= w.operations.used
    && forall id :: id in w.requests ==>
      && id in w.operations.used
      && (w.operations.memory.Some? && id in w.operations.memory.value ==>
            && w.operations.memory.value[id].kind == w.requests[id].kind
            && w.operations.memory.value[id].target == w.requests[id].target)
  }

  /** The change of a request, if it made one, is in memory, and in state.json when the call was acknowledged. */
  predicate RequestHonest(r: Request, id: string, calls: map<string, nat>, store: S.World) {
    && (r.phase.Begun? ==> id !in calls)
    && (id in calls ==> Made(calls, store.memLog, id, r.kind, r.target))
    && (r.phase == Phase.Called(true) ==> Made(calls, store.stateLog, id, r.kind, r.target))
  }

  /** The call under way is the caller's. */
  predicate CallerHonest(w: World) {
    w.caller.Some? ==>
      && w.caller.value in w.requests && w.requests[w.caller.value].phase.Calling?
      && w.store.process.Up? && !w.store.process.phase.Idle?
      && w.caller.value in w.calls && w.calls[w.caller.value] == |w.store.memLog| - 1
  }

  predicate RequestsHonest(w: World) {
    && (forall id :: id in w.requests ==> RequestHonest(w.requests[id], id, w.calls, w.store))
    && CallerHonest(w)
  }

  predicate Inv(w: World) {
    && S.Inv(w.store)
    && O.Inv(w.operations)
    && RecordsHonest(w.operations, w.calls, w.store.stateLog)
    && Linked(w)
    && RequestsHonest(w)
  }

  lemma DiskUsersMeans(w: S.World)
    requires S.Inv(w)
    ensures DiskUsers(w) == MemoryOf(w.stateLog).doc.users.Keys
  {
  }

  /** A step of the state store keeps its invariant and only adds to the log of state.json. */
  lemma StoreStepGrows(w: S.World, s: S.Step)
    requires S.Inv(w) && S.Small(w)
    ensures var v := S.Next(w, s); S.Inv(v) && w.stateLog <= v.stateLog && |v.memLog| <= |w.memLog| + 1
  {
    S.StepKeeps(w, s);
    S.StepMovesLogs(w, s);
  }

  lemma FullyAcknowledged(w: S.World)
    requires S.Inv(w) && w.ackLog == w.memLog
    ensures w.stateLog == w.memLog
  {
  }

  lemma MemoryStays(w: S.World, s: S.Step)
    requires w.process.Up? && !s.Begin? && !s.Crash? && !s.Reopen?
    ensures S.Next(w, s).memLog == w.memLog
  {
  }

  /** A user that some change of the log created, or changed, is there. */
  lemma LoggedUserIsInMemory(log: seq<Mutation>, k: nat)
    requires ValidLog(log) && k < |log|
    ensures log[k].username in MemoryOf(log).doc.users
  {
    var p := log[..k + 1];
    LaterLogKeeps(p, log);
    assert p[|p| - 1] == log[k] && p[..|p| - 1] == log[..k];
  }

  lemma LoggedUserIsOnDisk(w: S.World, k: nat)
    requires S.Inv(w) && k < |w.stateLog|
    ensures w.stateLog[k].username in DiskUsers(w)
  {
    DiskUsersMeans(w);
    LoggedUserIsInMemory(w.stateLog, k);
  }

  lemma CreationMatches(target: string, x: Mutation)
    requires Matches(CREATE, target, x)
    ensures x.Create? && x.username == target
  {
    assert |CREATE| == 16 && |PASSWORD| == 20 && |BLOCK| == 15 && |UNBLOCK| == 17;
  }

  // ----- the steps --------------------------------------------------------------------------

  lemma StartIsHonest(w: O.World, r: O.Record, kept: O.Records, ok: bool, calls: map<string, nat>, log: seq<Mutation>)
    requires RecordsHonest(w, calls, log) && O.Startable(w, r, kept)
    ensures RecordsHonest(O.Started(w, r, kept, ok), calls, log)
  {
    var before := w.memory.value[r.id := r];
    assert forall id :: id in kept ==> kept[id] == before[id];
    assert Honest(kept, calls, log);
  }

  /** Starting an operation does not touch the records of the others. */
  lemma StartKeepsOthers(w: O.World, r: O.Record, kept: O.Records, ok: bool)
    requires O.Startable(w, r, kept)
    ensures var v := O.Started(w, r, kept, ok);
            && v.used == w.used + {r.id} && v.memory.Some?
            && (forall id :: id in v.memory.value && id != r.id ==>
                  id in w.memory.value && v.memory.value[id] == w.memory.value[id])
            && (r.id in v.memory.value ==> v.memory.value[r.id] == r)
  {
  }

  lemma NewRequestIsLinked(w: World, r: O.Record, kept: O.Records, ok: bool)
    requires Linked(w) && RequestsHonest(w) && r.id !in w.operations.used
    requires Serving(w) && O.Startable(w.operations, r, kept)
    ensures Linked(Began(w, r, kept, ok)) && RequestsHonest(Began(w, r, kept, ok))
  {
    StartKeepsOthers(w.operations, r, kept, ok);
  }

  lemma BeginOperationKeeps(w: World, r: O.Record, kept: O.Records, ok: bool)
    requires Inv(w) && r.id !in w.operations.used
    ensures Inv(Began(w, r, kept, ok))
  {
    if Serving(w) && O.Startable(w.operations, r, kept) {
      O.StartKeeps(w.operations, r, kept, ok);
      StartIsHonest(w.operations, r, kept, ok, w.calls, w.store.stateLog);
      NewRequestIsLinked(w, r, kept, ok);
    }
  }

  /** A new call does not touch what is known of the others. */
  lemma NewCallIsHonest(w: World, id: string, x: Mutation)
    requires Linked(w) && RequestsHonest(w) && RecordsHonest(w.operations, w.calls, w.store.stateLog)
    requires Callable(w, id, x)
    ensures var v := Called(w, id, x);
            Linked(v) && RequestsHonest(v) && RecordsHonest(v.operations, v.calls, v.store.stateLog)
  {
    var v := Called(w, id, x);
    assert v.store.memLog == w.store.memLog + [x] && v.store.stateLog == w.store.stateLog;
    assert id !in w.calls;
    assert forall k :: k in w.calls ==> k != id && v.calls[k] == w.calls[k];
  }

  lemma CallKeeps(w: World, id: string, x: Mutation)
    requires Inv(w)
    ensures Inv(Called(w, id, x))
  {
    if Callable(w, id, x) {
      S.BeginKeeps(w.store, x);
      NewCallIsHonest(w, id, x);
    }
  }

  lemma CallDirectlyKeeps(w: World, x: Mutation)
    requires Inv(w)
    ensures Inv(CalledDirectly(w, x))
  {
    S.BeginKeeps(w.store, x);
  }

  lemma RefuseKeeps(w: World, id: string)
    requires Inv(w)
    ensures Inv(Refused(w, id))
  {
  }

  lemma RecordsStayHonest(w: O.World, calls: map<string, nat>, log: seq<Mutation>, more: seq<Mutation>)
    requires RecordsHonest(w, calls, log) && log <= more
    ensures RecordsHonest(w, calls, more)
  {
  }

  /** A write changes the store and leaves its records honest; who called does not matter. */
  lemma StoreWriteKeeps(w: World, s: S.Step)
    requires Inv(w) && S.Small(w.store)
    ensures var store := S.Next(w.store, s);
            && S.Inv(store) && w.store.stateLog <= store.stateLog
            && (store.ackLog == store.memLog ==> store.stateLog == store.memLog)
            && RecordsHonest(w.operations, w.calls, store.stateLog)
  {
    StoreStepGrows(w.store, s);
    RecordsStayHonest(w.operations, w.calls, w.store.stateLog, S.Next(w.store, s).stateLog);
    if S.Next(w.store, s).ackLog == S.Next(w.store, s).memLog { FullyAcknowledged(S.Next(w.store, s)); }
  }

  /** File operations leave memory's log alone and only add to that of state.json. */
  lemma WriteKeepsRequests(w: World, s: S.Step)
    requires Linked(w) && RequestsHonest(w)
    requires !s.Begin? && !s.Crash? && !s.Reopen?
    requires var store := S.Next(w.store, s);
             w.store.stateLog <= store.stateLog && (store.ackLog == store.memLog ==> store.stateLog == store.memLog)
    ensures Linked(Wrote(w, s)) && RequestsHonest(Wrote(w, s))
  {
    var store := S.Next(w.store, s);
    if w.store.process.Up? {
      MemoryStays(w.store, s);
      if w.caller.Some? { PhaseKeepsCall(w.store, s); }
    }
    forall id | id in w.requests ensures RequestHonest(w.requests[id], id, w.calls, store) {
      assert RequestHonest(w.requests[id], id, w.calls, w.store);
    }
  }

  lemma WriteKeeps(w: World, s: S.Step)
    requires Inv(w) && S.Small(w.store)
    ensures Inv(Wrote(w, s))
  {
    if !s.Begin? && !s.Crash? && !s.Reopen? {
      StoreWriteKeeps(w, s);
      WriteKeepsRequests(w, s);
      assert Wrote(w, s).store == S.Next(w.store, s) && Wrote(w, s).operations == w.operations;
    }
  }

  lemma PhaseKeepsCall(w: S.World, s: S.Step)
    requires w.process.Up? && !w.process.phase.Idle? && !s.Begin? && !s.Crash? && !s.Reopen?
    ensures var v := S.Next(w, s); v.process.Up? && (!v.process.phase.Idle? ==> v.process.phase.x == w.process.phase.x)
  {
  }

  lemma FinishIsHonest(w: O.World, id: string, status: O.Status, errorCode: string, now: int, ok: bool,
                       calls: map<string, nat>, log: seq<Mutation>)
    requires RecordsHonest(w, calls, log)
    requires status.Succeeded? && w.memory.Some? && id in w.memory.value ==>
               Made(calls, log, id, w.memory.value[id].kind, w.memory.value[id].target)
    ensures RecordsHonest(O.Finished(w, id, status, errorCode, now, ok), calls, log)
  {
    if O.Finishable(w, id, status) {
      var rs := w.memory.value[id := O.Terminal(w.memory.value[id], status, errorCode, now)];
      assert Honest(rs, calls, log);
    }
  }

  lemma FinishKeepsTargets(w: O.World, id: string, status: O.Status, errorCode: string, now: int, ok: bool)
    ensures var v := O.Finished(w, id, status, errorCode, now, ok);
            && v.used == w.used && (v.memory.Some? <==> w.memory.Some?)
            && (v.memory.Some? ==> v.memory.value.Keys == w.memory.value.Keys)
            && (v.memory.Some? ==> forall k :: k in v.memory.value ==>
                  && v.memory.value[k].kind == w.memory.value[k].kind
                  && v.memory.value[k].target == w.memory.value[k].target)
  {
  }

  lemma FinishedRequestIsGone(w: World, id: string, errorCode: string, now: int, ok: bool)
    requires Linked(w) && RequestsHonest(w) && id in w.requests && w.requests[id].phase.Called?
    ensures Linked(Finished(w, id, errorCode, now, ok)) && RequestsHonest(Finished(w, id, errorCode, now, ok))
  {
    var status := if w.requests[id].phase.acknowledged then O.Succeeded else O.Failed;
    FinishKeepsTargets(w.operations, id, status, errorCode, now, ok);
  }

  lemma FinishKeeps(w: World, id: string, errorCode: string, now: int, ok: bool)
    requires Inv(w)
    ensures Inv(Finished(w, id, errorCode, now, ok))
  {
    if id in w.requests && w.requests[id].phase.Called? {
      var status := if w.requests[id].phase.acknowledged then O.Succeeded else O.Failed;
      assert RequestHonest(w.requests[id], id, w.calls, w.store);
      O.FinishKeeps(w.operations, id, status, errorCode, now, ok);
      FinishIsHonest(w.operations, id, status, errorCode, now, ok, w.calls, w.store.stateLog);
      FinishedRequestIsGone(w, id, errorCode, now, ok);
    }
  }

  lemma InterruptIsHonest(rs: O.Records, now: int, calls: map<string, nat>, log: seq<Mutation>)
    requires Honest(rs, calls, log)
    ensures Honest(O.InterruptAll(rs, now), calls, log)
  {
  }

  lemma OpenIsHonest(w: O.World, now: int, ok: bool, calls: map<string, nat>, log: seq<Mutation>)
    requires RecordsHonest(w, calls, log)
    ensures RecordsHonest(O.Opened(w, now, ok), calls, log)
  {
    InterruptIsHonest(O.OnDisk(w), now, calls, log);
  }

  lemma OpenKeepsRequests(w: World, now: int, ok: bool)
    requires Linked(w) && RequestsHonest(w)
    ensures var v := Next(w, OpenOperations(now, ok)); Linked(v) && RequestsHonest(v)
  {
  }

  lemma OpenKeeps(w: World, now: int, ok: bool)
    requires Inv(w)
    ensures Inv(Next(w, OpenOperations(now, ok)))
  {
    O.OpenKeeps(w.operations, now, ok);
    OpenIsHonest(w.operations, now, ok, w.calls, w.store.stateLog);
    OpenKeepsRequests(w, now, ok);
  }

  lemma CrashKeeps(w: World)
    requires Inv(w)
    ensures Inv(Next(w, Crash))
  {
    S.CrashKeeps(w.store);
    CrashLeavesNoRequest(w);
  }

  lemma CrashLeavesNoRequest(w: World)
    requires O.Inv(w.operations) && RecordsHonest(w.operations, w.calls, w.store.stateLog) && Linked(w)
    ensures var v := Next(w, Crash);
            && v.store == w.store.(process := S.Down)
            && O.Inv(v.operations) && RecordsHonest(v.operations, v.calls, v.store.stateLog)
            && Linked(v) && RequestsHonest(v)
  {
    assert O.OnDisk(Next(w, Crash).operations) == O.OnDisk(w.operations);
  }

  /** Only a process that is down is opened, so no request loses its change. */
  lemma ReopenKeepsRequests(w: World)
    requires Linked(w) && RequestsHonest(w)
    ensures Linked(Next(w, OpenState)) && RequestsHonest(Next(w, OpenState))
  {
  }

  lemma OpenStateKeeps(w: World)
    requires Inv(w) && S.Small(w.store)
    ensures Inv(Next(w, OpenState))
  {
    StoreStepGrows(w.store, S.Reopen);
    RecordsStayHonest(w.operations, w.calls, w.store.stateLog, S.Next(w.store, S.Reopen).stateLog);
    ReopenKeepsRequests(w);
  }

  lemma StepKeeps(w: World, s: Step)
    requires Inv(w) && S.Small(w.store)
    requires s.BeginOperation? ==> s.id !in w.operations.used
    ensures Inv(Next(w, s))
  {
    match s
    case BeginOperation(_, _, _, _, _, _, kept, ok) => BeginOperationKeeps(w, RecordOf(s), kept, ok);
    case CallStore(id, x) => CallKeeps(w, id, x);
    case CallDirectly(x) => CallDirectlyKeeps(w, x);
    case Refuse(id) => RefuseKeeps(w, id);
    case StoreWrite(write) => WriteKeeps(w, write);
    case FinishOperation(id, errorCode, now, ok) => FinishKeeps(w, id, errorCode, now, ok);
    case Crash => CrashKeeps(w);
    case OpenState => OpenStateKeeps(w);
    case OpenOperations(now, ok) => OpenKeeps(w, now, ok);
  }

  lemma LogsAreOrdered(w: S.World)
    requires S.Inv(w)
    ensures w.stateLog <= w.memLog
  {
  }

  lemma StateLogGrows(w: World, s: Step)
    requires w.store.stateLog <= w.store.memLog
    ensures w.store.stateLog <= Next(w, s).store.stateLog
    ensures |Next(w, s).store.memLog| <= |w.store.memLog| + 1
  {
    match s
    case CallStore(_, x) => S.StepMovesLogs(w.store, S.Begin(x));
    case CallDirectly(x) => S.StepMovesLogs(w.store, S.Begin(x));
    case StoreWrite(write) => S.StepMovesLogs(w.store, write);
    case OpenState => S.StepMovesLogs(w.store, S.Reopen);
    case _ =>
  }

  lemma {:induction false} RunKeeps(steps: seq<Step>)
    requires FreshIds(steps) && |steps| + 1 < WRAP
    ensures Inv(Exec(steps)) && |Exec(steps).store.memLog| <= |steps|
  {
    if steps == [] {
      assert ValidLog([]);
    } else {
      var p := steps[..|steps| - 1];
      RunKeeps(p);
      StepKeeps(Exec(p), steps[|steps| - 1]);
      LogsAreOrdered(Exec(p).store);
      StateLogGrows(Exec(p), steps[|steps| - 1]);
    }
  }

  lemma {:induction false} StateFileGrows(steps: seq<Step>, i: nat)
    requires FreshIds(steps) && |steps| + 1 < WRAP && i <= |steps|
    ensures FreshIds(steps[..i]) && Exec(steps[..i]).store.stateLog <= Exec(steps).store.stateLog
    decreases |steps|
  {
    if i < |steps| {
      var p := steps[..|steps| - 1];
      assert p[..i] == steps[..i];
      StateFileGrows(p, i);
      RunKeeps(p);
      LogsAreOrdered(Exec(p).store);
      StateLogGrows(Exec(p), steps[|steps| - 1]);
    } else {
      assert steps[..i] == steps;
    }
  }

  /** At every point of every run, with concurrent requests, failed writes and crashes: the change of every
      operation that operations.json holds as succeeded is in the log that state.json is built by, then and
      ever after. */
  lemma SucceededOperationIsDurable(steps: seq<Step>, i: nat, id: string)
    requires FreshIds(steps) && |steps| + 1 < WRAP && i <= |steps|
    requires var disk := O.OnDisk(Exec(steps[..i]).operations); id in disk && disk[id].status.Succeeded?
    ensures var (w, end) := (Exec(steps[..i]), Exec(steps).store);
            var record := O.OnDisk(w.operations)[id];
            && Made(w.calls, w.store.stateLog, id, record.kind, record.target)
            && w.store.stateLog <= end.stateLog && Made(w.calls, end.stateLog, id, record.kind, record.target)
            && end.files.state == Some(MemoryOf(end.stateLog).doc)
  {
    StateFileGrows(steps, i);
    RunKeeps(steps[..i]);
    RunKeeps(steps);
  }

  /** In particular a succeeded rbac.user.create names a user that state.json holds, then and ever after. */
  lemma SucceededCreationIsDurable(steps: seq<Step>, i: nat, id: string)
    requires FreshIds(steps) && |steps| + 1 < WRAP && i <= |steps|
    requires var disk := O.OnDisk(Exec(steps[..i]).operations);
             id in disk && disk[id].kind == CREATE && disk[id].status.Succeeded?
    ensures var target := O.OnDisk(Exec(steps[..i]).operations)[id].target;
            target in DiskUsers(Exec(steps[..i]).store) && target in DiskUsers(Exec(steps).store)
  {
    var w, end := Exec(steps[..i]), Exec(steps).store;
    var record := O.OnDisk(w.operations)[id];
    SucceededOperationIsDurable(steps, i, id);
    var k := w.calls[id];
    CreationMatches(record.target, w.store.stateLog[k]);
    assert end.stateLog[k] == w.store.stateLog[k];
    StateFileGrows(steps, i);
    RunKeeps(steps[..i]);
    LoggedUserIsOnDisk(w.store, k);
    RunKeeps(steps);
    LoggedUserIsOnDisk(end, k);
  }
}
