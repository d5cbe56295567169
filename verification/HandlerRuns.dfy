/** What the records of operations.json say about the state store over whole runs of the handlers: how the record
    of an acknowledged call ends, and when the change of a failed call becomes durable. */
module HandlerRuns {
  import opened Text
  import opened StateModel
  import S = StateMachine
  import O = OperationsModel
  import opened Handlers

  // ----- the record of an acknowledged call -------------------------------------------------

  predicate Finishes(s: Step, id: string) { s.FinishOperation? && s.id == id }

  predicate PrunesRecord(w: World, s: Step, id: string) {
    s.BeginOperation? && Serving(w) && O.PrunesAway(w.operations, O.Start(RecordOf(s), s.kept, s.ok), id)
  }

  /** From step n on the process does not crash and no pruning drops the record. */
  predicate Spared(steps: seq<Step>, n: nat, id: string) {
    forall j :: n <= j < |steps| ==> !steps[j].Crash? && !PrunesRecord(Exec(steps[..j]), steps[j], id)
  }

  /** Step k writes operations.json. */
  predicate Writes(steps: seq<Step>, k: nat)
    requires k < |steps|
  {
    Exec(steps[..k + 1]).operations.history != Exec(steps[..k]).operations.history
  }

  predicate FinishedSince(steps: seq<Step>, n: nat, id: string) {
    exists f :: n <= f < |steps| && Finishes(steps[f], id)
  }

  /** operations.json was written by the Finish of the operation, or after it by any other operation. */
  predicate WrittenSinceFinish(steps: seq<Step>, n: nat, id: string) {
    exists f, k: nat :: n <= f <= k < |steps| && Finishes(steps[f], id) && Writes(steps, k)
  }

  /** The record is in memory and on disk, as `now` and as `disk`. */
  predicate Holds(w: O.World, now: O.Record, disk: O.Record) {
    && w.memory.Some? && now.id in w.memory.value && w.memory.value[now.id] == now
    && now.id in O.OnDisk(w) && O.OnDisk(w)[now.id] == disk
  }

  /** The request has its acknowledgement and has not called Finish. */
  predicate Unfinished(w: World, was: O.Record) {
    && was.id in w.requests && w.requests[was.id].phase == Phase.Called(true)
    && Holds(w.operations, was, was)
  }

  /** Finish made the record terminal in memory only. */
  predicate FinishedInMemory(w: World, was: O.Record, done: O.Record) {
    was.id !in w.requests && done.id == was.id && done.status.Succeeded? && Holds(w.operations, done, was)
  }

  predicate FinishedOnDisk(w: World, done: O.Record) {
    done.id !in w.requests && done.status.Succeeded? && Holds(w.operations, done, done)
  }

  function Done(was: O.Record, s: Step): O.Record
    requires s.FinishOperation?
  {
    O.Terminal(was, O.Succeeded, s.errorCode, s.now)
  }

  lemma UnfinishedStep(w: World, s: Step, was: O.Record)
    requires CallerHonest(w) && was.status.Running? && Unfinished(w, was)
    requires !s.Crash? && !PrunesRecord(w, s, was.id)
    ensures var v := Next(w, s);
            if !Finishes(s, was.id) then Unfinished(v, was)
            else if v.operations.history != w.operations.history then FinishedOnDisk(v, Done(was, s))
            else FinishedInMemory(v, was, Done(was, s))
  {
  }

  lemma FinishedStep(w: World, s: Step, was: O.Record, done: O.Record)
    requires FinishedInMemory(w, was, done) && !s.Crash? && !PrunesRecord(w, s, was.id)
    ensures var v := Next(w, s);
            if v.operations.history != w.operations.history then FinishedOnDisk(v, done)
            else FinishedInMemory(v, was, done)
  {
  }

  lemma RecordedStep(w: World, s: Step, done: O.Record)
    requires FinishedOnDisk(w, done) && !s.Crash? && !PrunesRecord(w, s, done.id)
    ensures FinishedOnDisk(Next(w, s), done)
  {
  }

  lemma PrefixSteps(steps: seq<Step>, m: nat, k: nat)
    requires k < m <= |steps|
    ensures steps[..m][k] == steps[k] && steps[..m][..k] == steps[..k]
    ensures Writes(steps[..m], k) <==> Writes(steps, k)
  {
    assert steps[..m][..k] == steps[..k] && steps[..m][..k + 1] == steps[..k + 1];
  }

  lemma OneMoreFinishes(steps: seq<Step>, n: nat, id: string)
    requires n < |steps|
    ensures var m := |steps| - 1;
            FinishedSince(steps, n, id) <==> FinishedSince(steps[..m], n, id) || Finishes(steps[m], id)
  {
    var m := |steps| - 1;
    var p := steps[..m];
    if f :| n <= f < |steps| && Finishes(steps[f], id) {
      if f < m { assert Finishes(p[f], id); }
    }
    if f :| n <= f < |p| && Finishes(p[f], id) { assert Finishes(steps[f], id); }
  }

  /** One more step decides the condition by what was before it. */
  lemma OneMoreWrites(steps: seq<Step>, n: nat, id: string)
    requires n < |steps|
    ensures var m := |steps| - 1;
            WrittenSinceFinish(steps, n, id) <==>
              WrittenSinceFinish(steps[..m], n, id) || (FinishedSince(steps, n, id) && Writes(steps, m))
  {
    var m := |steps| - 1;
    var p := steps[..m];
    if f, k: nat :| n <= f <= k < |p| && Finishes(p[f], id) && Writes(p, k) {
      PrefixSteps(steps, m, k);
      assert Finishes(steps[f], id) && Writes(steps, k);
    }
    if f, k: nat :| n <= f <= k < |steps| && Finishes(steps[f], id) && Writes(steps, k) {
      if k < m {
        PrefixSteps(steps, m, k);
        assert Finishes(p[f], id) && Writes(p, k);
      }
    }
  }

  /** Where the record stands after any steps that spare it. */
  predicate Stands(steps: seq<Step>, n: nat, was: O.Record, done: O.Record) {
    var w := Exec(steps);
    if WrittenSinceFinish(steps, n, was.id) then done.id == was.id && FinishedOnDisk(w, done)
    else if FinishedSince(steps, n, was.id) then FinishedInMemory(w, was, done)
    else Unfinished(w, was)
  }

  lemma StandsAtFirst(steps: seq<Step>, was: O.Record)
    requires Unfinished(Exec(steps), was)
    ensures Stands(steps, |steps|, was, was)
  {
    assert !FinishedSince(steps, |steps|, was.id) && !WrittenSinceFinish(steps, |steps|, was.id);
  }

  /** After the first k steps, of which n led to the acknowledgement. */
  lemma {:induction false} StandsAfter(steps: seq<Step>, n: nat, k: nat, was: O.Record) returns (done: O.Record)
    requires n <= k <= |steps| && was.status.Running? && Unfinished(Exec(steps[..n]), was) && Spared(steps, n, was.id)
    requires forall j :: n <= j < |steps| ==> CallerHonest(Exec(steps[..j]))
    ensures Stands(steps[..k], n, was, done)
    decreases k
  {
    if k == n {
      StandsAtFirst(steps[..n], was);
      done := was;
    } else {
      done := StandsAfter(steps, n, k - 1, was);
      var p := steps[..k];
      assert p[..|p| - 1] == steps[..k - 1] && p[|p| - 1] == steps[k - 1];
      done := StandsStep(p, n, was, done);
    }
  }

  lemma CallersAreHonest(steps: seq<Step>, j: nat)
    requires FreshIds(steps) && |steps| + 1 < WRAP && j <= |steps|
    ensures CallerHonest(Exec(steps[..j]))
  {
    StateFileGrows(steps, j);
    RunKeeps(steps[..j]);
  }

  lemma StandsStep(steps: seq<Step>, n: nat, was: O.Record, before: O.Record) returns (done: O.Record)
    requires n < |steps| && was.status.Running? && CallerHonest(Exec(steps[..|steps| - 1]))
    requires Stands(steps[..|steps| - 1], n, was, before)
    requires var m := |steps| - 1; !steps[m].Crash? && !PrunesRecord(Exec(steps[..m]), steps[m], was.id)
    ensures Stands(steps, n, was, done)
  {
    var m := |steps| - 1;
    var p, s := steps[..m], steps[m];
    OneMoreFinishes(steps, n, was.id);
    OneMoreWrites(steps, n, was.id);
    assert steps[..m + 1] == steps;
    if WrittenSinceFinish(p, n, was.id) {
      RecordedStep(Exec(p), s, before);
      done := before;
    } else if FinishedSince(p, n, was.id) {
      FinishedStep(Exec(p), s, was, before);
      done := before;
    } else {
      UnfinishedStep(Exec(p), s, was);
      done := if Finishes(s, was.id) then Done(was, s) else was;
    }
  }

  /** The crash, and the two openings of the next process. */
  function Restarted(w: World, now: int): World { Next(Next(Next(w, Crash), OpenState), OpenOperations(now, true)) }

  lemma RestartMeans(w: World, now: int)
    ensures Restarted(w, now).operations == O.Opened(O.Next(w.operations, O.Crash), now, true)
    ensures Restarted(w, now).store.stateLog == w.store.stateLog
  {
    var a := Next(w, Crash);
    assert Next(a, OpenState).operations == a.operations;
  }

  lemma RestartShows(w: O.World, id: string, now: int)
    requires id in O.OnDisk(w)
    ensures var (disk, v) := (O.OnDisk(w), O.Opened(O.Next(w, O.Crash), now, true));
            && id in O.OnDisk(v)
            && O.OnDisk(v)[id] ==
                 if disk[id].status.Running? then O.Terminal(disk[id], O.Interrupted, "process_restarted", now)
                 else disk[id]
  {
  }

  lemma RecordWhileRunning(steps: seq<Step>, n: nat, was: O.Record)
    requires FreshIds(steps) && |steps| + 1 < WRAP && n <= |steps| && Spared(steps, n, was.id)
    requires was.status.Running? && Unfinished(Exec(steps[..n]), was)
    ensures var disk := O.OnDisk(Exec(steps).operations);
            && was.id in disk && !disk[was.id].status.Interrupted?
            && (disk[was.id].status.Succeeded? <==> WrittenSinceFinish(steps, n, was.id))
            && (disk[was.id] == was <==> !WrittenSinceFinish(steps, n, was.id))
  {
    forall j | n <= j < |steps| ensures CallerHonest(Exec(steps[..j])) { CallersAreHonest(steps, j); }
    var done := StandsAfter(steps, n, |steps|, was);
    assert steps[..|steps|] == steps;
  }

  /** How the record of an acknowledged call ends. While the process runs, the file shows it as succeeded exactly
      when it was written at or after the Finish of the operation, by whatever operation, and as running before
      that; a crash makes the next opening show it as interrupted in exactly the latter case. The change itself is
      durable in both. */
  lemma RecordOfAcknowledgedCall(steps: seq<Step>, n: nat, id: string, now: int)
    requires FreshIds(steps) && |steps| + 1 < WRAP && n <= |steps| && Spared(steps, n, id)
    requires var w := Exec(steps[..n]);
             && id in w.requests && w.requests[id].phase == Phase.Called(true)
             && O.Finishable(w.operations, id, O.Succeeded)
    ensures var (w, end, after) := (Exec(steps[..n]), Exec(steps), Restarted(Exec(steps), now));
            var was := w.operations.memory.value[id];
            && id in O.OnDisk(end.operations) && id in O.OnDisk(after.operations)
            && (O.OnDisk(end.operations)[id].status.Succeeded? <==> WrittenSinceFinish(steps, n, id))
            && (O.OnDisk(end.operations)[id] == was <==> !WrittenSinceFinish(steps, n, id))
            && (O.OnDisk(after.operations)[id].status.Succeeded? <==> WrittenSinceFinish(steps, n, id))
            && (O.OnDisk(after.operations)[id] == O.Terminal(was, O.Interrupted, "process_restarted", now) <==>
                !WrittenSinceFinish(steps, n, id))
            && Made(w.calls, after.store.stateLog, id, was.kind, was.target)
  {
    var w, end := Exec(steps[..n]), Exec(steps);
    StateFileGrows(steps, n);
    RunKeeps(steps[..n]);
    RequestIsUnfinished(w, id);
    var was := w.operations.memory.value[id];
    RecordWhileRunning(steps, n, was);
    RestartMeans(end, now);
    RestartShows(end.operations, id, now);
  }

  lemma RequestIsUnfinished(w: World, id: string)
    requires Inv(w) && id in w.requests && w.requests[id].phase == Phase.Called(true)
    requires O.Finishable(w.operations, id, O.Succeeded)
    ensures var was := w.operations.memory.value[id];
            && was.id == id && was.status.Running? && Unfinished(w, was)
            && Made(w.calls, w.store.stateLog, id, was.kind, was.target)
  {
    assert RequestHonest(w.requests[id], id, w.calls, w.store);
    assert O.Progress(O.OnDisk(w.operations)[id], w.operations.memory.value[id]);
  }

  // ----- the change of a call that failed ---------------------------------------------------

  /** Step j replaces state.json. */
  predicate ReplacesState(steps: seq<Step>, j: nat)
    requires j < |steps|
  {
    var w := Exec(steps[..j]).store;
    steps[j] == StoreWrite(S.WriteState(true)) && w.process.Up? && w.process.phase.StateNext?
  }

  predicate StateReplacedSince(steps: seq<Step>, b: nat) {
    exists j: nat :: b < j < |steps| && ReplacesState(steps, j)
  }

  predicate NoCrash(steps: seq<Step>, b: nat) { forall j :: b <= j < |steps| ==> !steps[j].Crash? }

  /** Inside one process memory's log grows, and the log of state.json is that of memory after a replacement and
      stays otherwise. */
  lemma StoreStep(w: World, s: Step)
    requires w.store.process.Up? && !s.Crash?
    ensures var v := Next(w, s).store;
            && v.process.Up? && w.store.memLog <= v.memLog
            && (if s == StoreWrite(S.WriteState(true)) && w.store.process.phase.StateNext?
                then v.stateLog == w.store.memLog
                else v.stateLog == w.store.stateLog)
  {
    match s
    case StoreWrite(write) => if !write.Begin? && !write.Reopen? && !write.Crash? { MemoryStays(w.store, write); }
    case _ =>
  }

  lemma ReplacesInPrefix(steps: seq<Step>, m: nat, j: nat)
    requires j < m <= |steps|
    ensures ReplacesState(steps[..m], j) <==> ReplacesState(steps, j)
  {
    assert steps[..m][..j] == steps[..j];
  }

  lemma OneMoreReplaces(steps: seq<Step>, b: nat)
    requires b + 1 < |steps|
    ensures var m := |steps| - 1;
            StateReplacedSince(steps, b) <==> StateReplacedSince(steps[..m], b) || ReplacesState(steps, m)
  {
    var m := |steps| - 1;
    var p := steps[..m];
    if j: nat :| b < j < |p| && ReplacesState(p, j) { ReplacesInPrefix(steps, m, j); }
    if j: nat :| b < j < |steps| && ReplacesState(steps, j) {
      if j < m { ReplacesInPrefix(steps, m, j); }
    }
  }

  lemma {:induction false} ChangeSinceCall(steps: seq<Step>, b: nat, x: Mutation)
    requires FreshIds(steps) && |steps| + 1 < WRAP && b < |steps| && NoCrash(steps, b)
    requires steps[b].CallStore? && Callable(Exec(steps[..b]), steps[b].id, x) && steps[b].x == x
    ensures var k := |Exec(steps[..b]).store.memLog|;
            var end := Exec(steps).store;
            && end.process.Up? && k < |end.memLog| && end.memLog[k] == x
            && (k < |end.stateLog| <==> StateReplacedSince(steps, b))
    decreases |steps|
  {
    var m := |steps| - 1;
    var p := steps[..m];
    if b == m {
      RunKeeps(p);
      LogsAreOrdered(Exec(p).store);
    } else {
      assert p[..b] == steps[..b] && p[b] == steps[b];
      ChangeSinceCall(p, b, x);
      StoreStep(Exec(p), steps[m]);
      OneMoreReplaces(steps, b);
    }
  }

  /** The change of a request, once its call began, is in memory from then on, whether the call was acknowledged
      and whatever its record says; the process makes it durable exactly when, by that call or any later one,
      it replaces state.json. A crash keeps it exactly then. */
  lemma ChangeIsDurableExactlyWhenWritten(steps: seq<Step>, b: nat)
    requires FreshIds(steps) && |steps| + 1 < WRAP && b < |steps| && NoCrash(steps, b)
    requires steps[b].CallStore? && Callable(Exec(steps[..b]), steps[b].id, steps[b].x)
    ensures var k := |Exec(steps[..b]).store.memLog|;
            var end := Exec(steps).store;
            var reopened := Next(Next(Exec(steps), Crash), OpenState).store;
            && k < |end.memLog| && end.memLog[k] == steps[b].x
            && end.process.Up? && end.process.mem == MemoryOf(end.memLog)
            && (k < |end.stateLog| <==> StateReplacedSince(steps, b))
            && (reopened.process.Up? ==>
                  && reopened.process.mem == MemoryOf(reopened.memLog) && reopened.memLog <= end.memLog
                  && (k < |reopened.memLog| <==> StateReplacedSince(steps, b)))
  {
    ChangeSinceCall(steps, b, steps[b].x);
    RunKeeps(steps);
    ReopenedMemory(Exec(steps).store);
    ReopenedStore(Exec(steps));
  }

  lemma ReopenedStore(w: World)
    ensures Next(Next(w, Crash), OpenState).store == S.Reopened(w.store.(process := S.Down))
  {
  }

  lemma ReopenedMemory(w: S.World)
    requires S.Inv(w) && S.Small(w)
    ensures w.process.Up? ==> w.process.mem == MemoryOf(w.memLog)
    ensures w.stateLog <= w.memLog
    ensures var v := S.Reopened(w.(process := S.Down));
            v.process.Up? ==> v.process.mem == MemoryOf(v.memLog) && v.memLog == w.stateLog
  {
    S.LoadMeans(w);
  }

  /** A refused request never has a change. */
  lemma {:induction false} RefusedRequestHasNoChange(steps: seq<Step>, r: nat, id: string)
    requires FreshIds(steps) && |steps| + 1 < WRAP && r < |steps|
    requires steps[r] == Refuse(id) && id in Exec(steps[..r]).requests && Exec(steps[..r]).requests[id].phase.Begun?
    ensures id !in Exec(steps).calls
    ensures id in Exec(steps).operations.used
    ensures id in Exec(steps).requests ==> Exec(steps).requests[id].phase == Phase.Called(false)
    decreases |steps|
  {
    var m := |steps| - 1;
    var p := steps[..m];
    RunKeeps(p);
    if r == m {
      assert RequestHonest(Exec(p).requests[id], id, Exec(p).calls, Exec(p).store);
    } else {
      assert p[..r] == steps[..r];
      RefusedRequestHasNoChange(p, r, id);
      RefusedStep(Exec(p), steps[m], id);
    }
  }

  lemma RefusedStep(w: World, s: Step, id: string)
    requires CallerHonest(w) && id !in w.calls && id in w.operations.used
    requires id in w.requests ==> w.requests[id].phase == Phase.Called(false)
    requires s.BeginOperation? ==> s.id !in w.operations.used
    ensures var v := Next(w, s);
            && id !in v.calls && id in v.operations.used
            && (id in v.requests ==> v.requests[id].phase == Phase.Called(false))
  {
  }

  // ----- what a record says of the call that started it --------------------------------------

  /** Wherever the record of the operation is, it has the given identity. */
  predicate Carries(w: O.World, id: string, kind: string, actor: string, role: string, target: string, started: int) {
    && (id in O.OnDisk(w) ==> HasOrigin(O.OnDisk(w)[id], id, kind, actor, role, target, started))
    && (w.memory.Some? && id in w.memory.value ==>
          HasOrigin(w.memory.value[id], id, kind, actor, role, target, started))
  }

  predicate HasOrigin(r: O.Record, id: string, kind: string, actor: string, role: string, target: string,
                      started: int)
  {
    r.id == id && r.kind == kind && r.actor == actor && r.role == role && r.target == target && r.startedAt == started
  }

  lemma CarriesThroughStart(w: O.World, r: O.Record, kept: O.Records, ok: bool, b: Step)
    requires b.BeginOperation? && b.id in w.used && r.id != b.id
    requires Carries(w, b.id, b.kind, b.actor, b.role, b.target, b.started)
    ensures var v := O.Started(w, r, kept, ok);
            b.id in v.used && Carries(v, b.id, b.kind, b.actor, b.role, b.target, b.started)
  {
  }

  lemma CarriesThroughFinish(w: O.World, id: string, status: O.Status, code: string, now: int, ok: bool, b: Step)
    requires b.BeginOperation? && b.id in w.used
    requires Carries(w, b.id, b.kind, b.actor, b.role, b.target, b.started)
    ensures var v := O.Finished(w, id, status, code, now, ok);
            b.id in v.used && Carries(v, b.id, b.kind, b.actor, b.role, b.target, b.started)
  {
  }

  lemma CarriesThroughOpen(w: O.World, now: int, ok: bool, b: Step)
    requires b.BeginOperation? && b.id in w.used
    requires Carries(w, b.id, b.kind, b.actor, b.role, b.target, b.started)
    ensures var v := O.Opened(w, now, ok);
            b.id in v.used && Carries(v, b.id, b.kind, b.actor, b.role, b.target, b.started)
  {
  }

  lemma CarriesStays(w: World, s: Step, b: Step)
    requires b.BeginOperation? && b.id in w.operations.used && (s.BeginOperation? ==> s.id != b.id)
    requires Carries(w.operations, b.id, b.kind, b.actor, b.role, b.target, b.started)
    ensures var v := Next(w, s).operations;
            b.id in v.used && Carries(v, b.id, b.kind, b.actor, b.role, b.target, b.started)
  {
    match s
    case BeginOperation(_, _, _, _, _, _, kept, ok) => CarriesThroughStart(w.operations, RecordOf(s), kept, ok, b);
    case FinishOperation(id, code, now, ok) =>
      CarriesThroughFinish(w.operations, id, O.Succeeded, code, now, ok, b);
      CarriesThroughFinish(w.operations, id, O.Failed, code, now, ok, b);
    case OpenOperations(now, ok) => CarriesThroughOpen(w.operations, now, ok, b);
    case _ =>
  }

  /** Over every run, while its record is kept, in memory or in operations.json, an operation has the identifier,
      kind, actor, role, target and start time that the handler passed to Start. */
  lemma {:induction false} RecordsCarryTheirStart(steps: seq<Step>, b: nat)
    requires FreshIds(steps) && |steps| + 1 < WRAP && b < |steps| && steps[b].BeginOperation?
    requires Serving(Exec(steps[..b])) && O.Startable(Exec(steps[..b]).operations, RecordOf(steps[b]), steps[b].kept)
    ensures var (s, w) := (steps[b], Exec(steps).operations);
            s.id in w.used && Carries(w, s.id, s.kind, s.actor, s.role, s.target, s.started)
    decreases |steps|
  {
    var m := |steps| - 1;
    var p := steps[..m];
    if b == m {
      RunKeeps(p);
      StartedHere(Exec(p), steps[m]);
    } else {
      assert p[..b] == steps[..b] && p[b] == steps[b];
      RecordsCarryTheirStart(p, b);
      CarriesStays(Exec(p), steps[m], steps[b]);
    }
  }

  lemma StartedHere(w: World, s: Step)
    requires O.Inv(w.operations) && s.BeginOperation? && s.id !in w.operations.used
    requires Serving(w) && O.Startable(w.operations, RecordOf(s), s.kept)
    ensures var v := Next(w, s).operations;
            s.id in v.used && Carries(v, s.id, s.kind, s.actor, s.role, s.target, s.started)
  {
    StartKeepsOthers(w.operations, RecordOf(s), s.kept, s.ok);
    assert s.id !in O.OnDisk(w.operations);
  }

  /** The user that a handler passed to Start for a creation is in state.json, then and ever after, whenever
      operations.json shows that operation as succeeded. */
  lemma StartedCreationIsStored(steps: seq<Step>, b: nat, i: nat)
    requires FreshIds(steps) && |steps| + 1 < WRAP && b < i <= |steps|
    requires steps[b].BeginOperation? && steps[b].kind == CREATE
    requires Serving(Exec(steps[..b])) && O.Startable(Exec(steps[..b]).operations, RecordOf(steps[b]), steps[b].kept)
    requires var disk := O.OnDisk(Exec(steps[..i]).operations);
             steps[b].id in disk && disk[steps[b].id].status.Succeeded?
    ensures steps[b].target in DiskUsers(Exec(steps[..i]).store) && steps[b].target in DiskUsers(Exec(steps).store)
  {
    StateFileGrows(steps, i);
    assert steps[..i][..b] == steps[..b] && steps[..i][b] == steps[b];
    RecordsCarryTheirStart(steps[..i], b);
    SucceededCreationIsDurable(steps, i, steps[b].id);
  }
}
