/** internal/operations/store.go: operation records, the store as a machine over one file whose writes may
    fail and a process that may crash, and what every run keeps. */
module OperationsModel {
  import opened Text

  const MAX_RECORDS: nat := 1000

  datatype Status = Running | Succeeded | Failed | Interrupted

  datatype Record = Record(id: string, kind: string, actor: string, role: string, target: string, status: Status,
                           startedAt: int, finishedAt: Option<int>, errorCode: string)

  type Records = map<string, Record>

  /** What Start builds from its arguments. */
  function NewRecord(id: string, kind: string, actor: string, role: string, target: string, now: int): Record {
    Record(id, kind, actor, role, target, Running, now, None, "")
  }

  predicate Keyed(rs: Records) { forall id :: id in rs ==> rs[id].id == id }

  /** The terminal form of a running record. */
  function Terminal(r: Record, status: Status, errorCode: string, now: int): Record {
    r.(status := status, finishedAt := Some(now), errorCode := errorCode)
  }

  predicate NoneRunning(rs: Records) { forall id :: id in rs ==> !rs[id].status.Running? }

  /** What Open makes of the records it reads. */
  function InterruptAll(rs: Records, now: int): Records {
    map id | id in rs ::
      if rs[id].status.Running? then Terminal(rs[id], Interrupted, "process_restarted", now) else rs[id]
  }

  /** pruneLocked with ties broken in any way: the newest MAX_RECORDS stay. */
  predicate Pruned(before: Records, after: Records) {
    && after.Keys <= before.Keys
    && (forall id :: id in after ==> after[id] == before[id])
    && (if |before| <= MAX_RECORDS then after == before
        else |after| == MAX_RECORDS
             && forall removed, kept :: removed in before.Keys - after.Keys && kept in after ==>
                  before[removed].startedAt <= before[kept].startedAt)
  }

  // ----- the machine ------------------------------------------------------------------------

  /** Memory while the process runs, the file, the identifiers ever given to Start, and every content the
      file ever had. */
  datatype World = World(memory: Option<Records>, file: Option<Records>, used: set<string>, history: seq<Records>)

  const INIT := World(None, None, {}, [])

  datatype Step =
    | Start(record: Record, kept: Records, ok: bool)
    | Finish(id: string, status: Status, errorCode: string, now: int, ok: bool)
    | Open(now: int, ok: bool)
    | Crash

  function OnDisk(w: World): Records { if w.file.Some? then w.file.value else map[] }

  function Persist(w: World, rs: Records): World { w.(file := Some(rs), history := w.history + [rs]) }

  /** The checks of Start, and the running record that it builds. */
  predicate Accepts(w: World, r: Record) {
    && w.memory.Some? && r.id !in w.memory.value
    && r.id != "" && r.kind != "" && r.actor != ""
    && r.status.Running? && r.finishedAt.None? && r.errorCode == ""
  }

  /** Start accepts a new running record; `kept` is what pruning leaves. */
  predicate Startable(w: World, r: Record, kept: Records) {
    Accepts(w, r) && Pruned(w.memory.value[r.id := r], kept)
  }

  /** A failed write removes the new record from memory but does not restore the pruned ones. */
  function Started(w: World, r: Record, kept: Records, ok: bool): World {
    if !Startable(w, r, kept) then w
    else
      var v := w.(used := w.used + {r.id});
      if ok then Persist(v.(memory := Some(kept)), kept) else v.(memory := Some(kept - {r.id}))
  }

  predicate Finishable(w: World, id: string, status: Status) {
    && (status.Succeeded? || status.Failed?)
    && w.memory.Some? && id in w.memory.value && w.memory.value[id].status.Running?
  }

  /** A failed write leaves the record terminal in memory. */
  function Finished(w: World, id: string, status: Status, errorCode: string, now: int, ok: bool): World {
    if !Finishable(w, id, status) then w
    else
      var rs := w.memory.value[id := Terminal(w.memory.value[id], status, errorCode, now)];
      if ok then Persist(w.(memory := Some(rs)), rs) else w.(memory := Some(rs))
  }

  /** Open writes only when it interrupted something, and fails when that write fails. */
  function Opened(w: World, now: int, ok: bool): World {
    if w.memory.Some? then w
    else
      var rs := InterruptAll(OnDisk(w), now);
      if NoneRunning(OnDisk(w)) then w.(memory := Some(rs))
      else if ok then Persist(w.(memory := Some(rs)), rs)
      else w
  }

  function Next(w: World, s: Step): World {
    match s
    case Start(r, kept, ok) => Started(w, r, kept, ok)
    case Finish(id, status, errorCode, now, ok) => Finished(w, id, status, errorCode, now, ok)
    case Open(now, ok) => Opened(w, now, ok)
    case Crash => w.(memory := None)
  }

  // ----- the invariant ----------------------------------------------------------------------

  /** A record stays as it is, or goes from running to a terminal status; everything else about it is fixed. */
  predicate Progress(r: Record, s: Record) {
    || s == r
    || (r.status.Running? && !s.status.Running?
        && s == r.(status := s.status, finishedAt := s.finishedAt, errorCode := s.errorCode))
  }

  lemma ProgressComposes(r: Record, s: Record, t: Record)
    requires Progress(r, s) && Progress(s, t)
    ensures Progress(r, t)
  {
  }

  /** What is in memory is on disk, at the same point or before its terminal status. */
  predicate Behind(disk: Records, memory: Records) {
    forall id :: id in memory ==> id in disk && Progress(disk[id], memory[id])
  }

  predicate Inv(w: World) {
    && Keyed(OnDisk(w)) && OnDisk(w).Keys <= w.used
    && (w.memory.Some? ==> Keyed(w.memory.value) && Behind(OnDisk(w), w.memory.value))
    && (w.file.Some? <==> w.history != [])
    && (w.file.Some? ==> w.history[|w.history| - 1] == w.file.value)
    && (forall i :: 0 <= i < |w.history| ==> w.history[i].Keys <= w.used)
  }

  /** One content of the file follows another: common records progress, new ones are running and unused before. */
  predicate Evolves(used: set<string>, d: Records, e: Records) {
    && (forall id :: id in d && id in e ==> Progress(d[id], e[id]))
    && (forall id :: id in e && id !in d ==> e[id].status.Running? && id !in used)
  }

  predicate FreshStart(w: World, s: Step) { s.Start? ==> s.record.id !in w.used }

  lemma InterruptProgresses(rs: Records, now: int)
    ensures var after := InterruptAll(rs, now);
            && after.Keys == rs.Keys && NoneRunning(after) && Behind(rs, after) && (NoneRunning(rs) ==> after == rs)
            && (Keyed(rs) ==> Keyed(after))
  {
  }

  /** What pruning leaves beside the new record was in memory, hence on disk. */
  lemma KeptIsBehind(w: World, r: Record, kept: Records)
    requires Inv(w) && r.id !in w.used && Startable(w, r, kept)
    ensures Keyed(kept) && kept.Keys <= w.used + {r.id} && Behind(OnDisk(w), kept - {r.id})
    ensures Evolves(w.used, OnDisk(w), kept)
  {
    var before := w.memory.value[r.id := r];
    assert forall id :: id in kept ==> kept[id] == before[id];
    assert forall id :: id in kept && id != r.id ==> id in w.memory.value && kept[id] == w.memory.value[id];
  }

  lemma PersistKeeps(w: World, rs: Records, used: set<string>)
    requires Inv(w) && Keyed(rs) && rs.Keys <= used && w.used <= used
    ensures Inv(Persist(w.(memory := Some(rs), used := used), rs))
  {
  }

  lemma StartKeeps(w: World, r: Record, kept: Records, ok: bool)
    requires Inv(w) && r.id !in w.used
    ensures var v := Started(w, r, kept, ok);
            && Inv(v)
            && (v.history != w.history ==>
                  v.history == w.history + [OnDisk(v)] && Evolves(w.used, OnDisk(w), OnDisk(v)))
  {
    if Startable(w, r, kept) {
      KeptIsBehind(w, r, kept);
      if ok { PersistKeeps(w, kept, w.used + {r.id}); }
    }
  }

  lemma FinishKeeps(w: World, id: string, status: Status, errorCode: string, now: int, ok: bool)
    requires Inv(w)
    ensures var v := Finished(w, id, status, errorCode, now, ok);
            && Inv(v)
            && (v.history != w.history ==>
                  v.history == w.history + [OnDisk(v)] && Evolves(w.used, OnDisk(w), OnDisk(v)))
  {
    if Finishable(w, id, status) {
      var rs := w.memory.value[id := Terminal(w.memory.value[id], status, errorCode, now)];
      assert Behind(OnDisk(w), rs);
      assert rs.Keys == w.memory.value.Keys;
    }
  }

  lemma OpenKeeps(w: World, now: int, ok: bool)
    requires Inv(w)
    ensures var v := Opened(w, now, ok);
            && Inv(v)
            && (v.history != w.history ==>
                  v.history == w.history + [OnDisk(v)] && Evolves(w.used, OnDisk(w), OnDisk(v)))
  {
    InterruptProgresses(OnDisk(w), now);
  }

  lemma StepKeeps(w: World, s: Step)
    requires Inv(w) && FreshStart(w, s)
    ensures var v := Next(w, s);
            && Inv(v) && w.used <= v.used
            && (|| v.history == w.history
                || (v.history == w.history + [OnDisk(v)] && Evolves(w.used, OnDisk(w), OnDisk(v))))
  {
    match s
    case Start(r, kept, ok) => StartKeeps(w, r, kept, ok);
    case Finish(id, status, errorCode, now, ok) => FinishKeeps(w, id, status, errorCode, now, ok);
    case Open(now, ok) => OpenKeeps(w, now, ok);
    case Crash =>
  }

  // ----- runs -------------------------------------------------------------------------------

  function Exec(steps: seq<Step>): World {
    if steps == [] then INIT else Next(Exec(steps[..|steps| - 1]), steps[|steps| - 1])
  }

  /** Identifiers are never reused; the HTTP layer draws them at random. */
  predicate FreshIds(steps: seq<Step>) {
    steps == [] ||
    (FreshIds(steps[..|steps| - 1]) && FreshStart(Exec(steps[..|steps| - 1]), steps[|steps| - 1]))
  }

  /** Every two contents that the file had, in order, agree on how far each common record had come. */
  predicate Durable(history: seq<Records>) {
    forall i, j, id :: 0 <= i <= j < |history| && id in history[i] && id in history[j] ==>
        Progress(history[i][id], history[j][id])
  }

  /** A record comes into the file running. */
  predicate AppearsRunning(history: seq<Records>) {
    forall j, id :: 0 <= j < |history| && id in history[j] && (j == 0 || id !in history[j - 1]) ==>
        history[j][id].status.Running?
  }

  /** An identifier that left the file never comes back. */
  predicate GoneForGood(history: seq<Records>) {
    forall i, j, k, id :: 0 <= i < j < k < |history| && id in history[i] && id in history[k] ==> id in history[j]
  }

  predicate Lifecycle(history: seq<Records>) { Durable(history) && AppearsRunning(history) && GoneForGood(history) }

  lemma DurableGrows(w: World, e: Records)
    requires Inv(w) && Durable(w.history) && Evolves(w.used, OnDisk(w), e)
    ensures Durable(w.history + [e])
  {
    var h: seq<Records>, n := w.history + [e], |w.history|;
    forall i, j, id | 0 <= i <= j < |h| && id in h[i] && id in h[j]
      ensures Progress(h[i][id], h[j][id])
    {
      if i < j == n {
        assert id in w.history[i] && w.history[i].Keys <= w.used;
        assert id in OnDisk(w);
        assert OnDisk(w) == w.history[n - 1];
        ProgressComposes(w.history[i][id], w.history[n - 1][id], e[id]);
      }
    }
  }

  /** What is in the next content and was in an earlier one is in the present one. */
  lemma OnlyPresentRecordsStay(w: World, e: Records, i: nat, id: string)
    requires Inv(w) && Evolves(w.used, OnDisk(w), e)
    requires i < |w.history| && id in w.history[i] && id in e
    ensures id in OnDisk(w)
  {
    assert w.history[i].Keys <= w.used;
  }

  lemma GoneForGoodGrows(w: World, e: Records)
    requires Inv(w) && GoneForGood(w.history) && Evolves(w.used, OnDisk(w), e)
    ensures GoneForGood(w.history + [e])
  {
    var h: seq<Records>, n := w.history + [e], |w.history|;
    forall i: nat, j, k, id | i < j < k < |h| && id in h[i] && id in h[k]
      ensures id in h[j]
    {
      if k == n {
        OnlyPresentRecordsStay(w, e, i, id);
        assert id in w.history[n - 1];
      }
    }
  }

  lemma AppearsRunningGrows(w: World, e: Records)
    requires Inv(w) && AppearsRunning(w.history) && Evolves(w.used, OnDisk(w), e)
    ensures AppearsRunning(w.history + [e])
  {
    var h: seq<Records>, n := w.history + [e], |w.history|;
    forall j: int, id: string | 0 <= j < |h| && id in h[j] && (j == 0 || id !in h[j - 1])
      ensures h[j][id].status.Running?
    {
      if j == n { assert id !in OnDisk(w); }
    }
  }

  lemma {:induction false} RunKeeps(steps: seq<Step>)
    requires FreshIds(steps)
    ensures Inv(Exec(steps)) && Lifecycle(Exec(steps).history)
  {
    if steps == [] {
    } else {
      var p := steps[..|steps| - 1];
      RunKeeps(p);
      StepKeeps(Exec(p), steps[|steps| - 1]);
      if Exec(steps).history != Exec(p).history {
        DurableGrows(Exec(p), OnDisk(Exec(steps)));
        AppearsRunningGrows(Exec(p), OnDisk(Exec(steps)));
        GoneForGoodGrows(Exec(p), OnDisk(Exec(steps)));
      }
    }
  }

  /** The life of an identifier in operations.json, over every run of calls, failed writes, crashes and
      reopenings: it first appears running, is there without a gap, and goes to at most one terminal record. */
  lemma TerminalStatusIsFinal(steps: seq<Step>, i: nat, j: nat, id: string)
    requires FreshIds(steps) && i <= j < |Exec(steps).history|
    requires id in Exec(steps).history[i] && id in Exec(steps).history[j]
    ensures var h := Exec(steps).history;
            && (forall k :: i <= k <= j ==> id in h[k])
            && ((forall k :: 0 <= k < i ==> id !in h[k]) ==> h[i][id].status.Running?)
            && (!h[i][id].status.Running? ==> h[j][id] == h[i][id])
            && h[j][id] == h[i][id].(status := h[j][id].status, finishedAt := h[j][id].finishedAt,
                errorCode := h[j][id].errorCode)
  {
    RunKeeps(steps);
    LifecycleMeans(Exec(steps).history, i, j, id);
  }

  lemma LifecycleMeans(h: seq<Records>, i: nat, j: nat, id: string)
    requires Lifecycle(h) && i <= j < |h| && id in h[i] && id in h[j]
    ensures Progress(h[i][id], h[j][id]) && (forall k :: i <= k <= j ==> id in h[k])
    ensures (forall k :: 0 <= k < i ==> id !in h[k]) ==> h[i][id].status.Running?
  {
    if i > 0 && (forall k :: 0 <= k < i ==> id !in h[k]) { assert id !in h[i - 1]; }
  }

  lemma {:induction false} HistoryGrows(steps: seq<Step>, i: nat)
    requires FreshIds(steps) && i <= |steps|
    ensures FreshIds(steps[..i]) && Exec(steps[..i]).history <= Exec(steps).history
    decreases |steps|
  {
    if i < |steps| {
      var p := steps[..|steps| - 1];
      assert p[..i] == steps[..i];
      HistoryGrows(p, i);
      RunKeeps(p);
      StepKeeps(Exec(p), steps[|steps| - 1]);
    } else {
      assert steps[..i] == steps;
    }
  }

  /** The step is a Start that drops the record in pruning. */
  predicate PrunesAway(w: World, s: Step, id: string) {
    s.Start? && Startable(w, s.record, s.kept) && id in w.memory.value && id !in s.kept
  }

  predicate PrunedAt(steps: seq<Step>, j: nat, id: string) {
    j < |steps| && PrunesAway(Exec(steps[..j]), steps[j], id)
  }

  /** The record is in the file and, while a process runs, in memory. */
  predicate Shown(w: World, r: Record) {
    && r.id in OnDisk(w) && OnDisk(w)[r.id] == r
    && (w.memory.Some? ==> r.id in w.memory.value && w.memory.value[r.id] == r)
  }

  lemma ShownStays(w: World, s: Step, r: Record)
    requires Shown(w, r) && !r.status.Running? && !PrunesAway(w, s, r.id)
    ensures Shown(Next(w, s), r)
  {
  }

  lemma {:induction false} ShownUntilPruned(steps: seq<Step>, i: nat, r: Record)
    requires i <= |steps| && Shown(Exec(steps[..i]), r) && !r.status.Running?
    requires forall j: nat :: i <= j < |steps| ==> !PrunedAt(steps, j, r.id)
    ensures Shown(Exec(steps), r)
    decreases |steps|
  {
    if i == |steps| {
      assert steps[..i] == steps;
    } else {
      var n := |steps| - 1;
      var p := steps[..n];
      assert p[..i] == steps[..i];
      forall j: nat | i <= j < n ensures !PrunedAt(p, j, r.id) {
        assert p[..j] == steps[..j];
        assert !PrunedAt(steps, j, r.id);
      }
      ShownUntilPruned(p, i, r);
      assert !PrunedAt(steps, n, r.id);
      ShownStays(Exec(p), steps[n], r);
    }
  }

  /** An acknowledged Finish is never lost: until a Start prunes its record, the file holds the terminal
      record, and so does every process, after any failed writes, crashes and reopenings. */
  lemma AcknowledgedFinishSurvives(steps: seq<Step>, i: nat, now: int, ok: bool)
    requires FreshIds(steps) && i < |steps| && steps[i].Finish? && steps[i].ok
    requires Finishable(Exec(steps[..i]), steps[i].id, steps[i].status)
    requires forall j: nat :: i < j < |steps| ==> !PrunedAt(steps, j, steps[i].id)
    ensures var f := steps[i];
            var done := Terminal(Exec(steps[..i]).memory.value[f.id], f.status, f.errorCode, f.now);
            var reopened := Opened(Next(Exec(steps), Crash), now, ok);
            && f.id in OnDisk(Exec(steps)) && OnDisk(Exec(steps))[f.id] == done
            && (Exec(steps).memory.Some? ==> f.id in Exec(steps).memory.value && Exec(steps).memory.value[f.id] == done)
            && (reopened.memory.Some? ==> f.id in reopened.memory.value && reopened.memory.value[f.id] == done)
  {
    var f := steps[i];
    HistoryGrows(steps, i);
    RunKeeps(steps[..i]);
    var before := Exec(steps[..i]);
    var done := Terminal(before.memory.value[f.id], f.status, f.errorCode, f.now);
    assert done.id == f.id;
    assert steps[..i + 1][..i] == steps[..i];
    assert Shown(Exec(steps[..i + 1]), done);
    ShownUntilPruned(steps, i + 1, done);
    ShownStays(Exec(steps), Crash, done);
    ShownStays(Next(Exec(steps), Crash), Open(now, ok), done);
  }

  predicate NoStart(steps: seq<Step>) { forall i :: 0 <= i < |steps| ==> !steps[i].Start? }

  function Continue(w: World, steps: seq<Step>): World {
    if steps == [] then w else Next(Continue(w, steps[..|steps| - 1]), steps[|steps| - 1])
  }

  /** An opened store has no running record, in memory or in the file, until its next Start. */
  lemma {:induction false} NothingRunsUntilStart(w: World, now: int, ok: bool, steps: seq<Step>)
    requires Inv(w) && w.memory.None? && Opened(w, now, ok).memory.Some? && NoStart(steps)
    ensures var v := Continue(Opened(w, now, ok), steps);
            NoneRunning(OnDisk(v)) && (v.memory.Some? ==> NoneRunning(v.memory.value))
  {
    if steps == [] {
      InterruptProgresses(OnDisk(w), now);
    } else {
      var p := steps[..|steps| - 1];
      NothingRunsUntilStart(w, now, ok, p);
      InterruptProgresses(OnDisk(Continue(Opened(w, now, ok), p)), now);
    }
  }

  // ----- pruning over runs ------------------------------------------------------------------

  predicate Bounded(w: World) {
    && |OnDisk(w)| <= MAX_RECORDS
    && (w.memory.Some? ==> |w.memory.value| <= MAX_RECORDS)
    && forall i :: 0 <= i < |w.history| ==> |w.history[i]| <= MAX_RECORDS
  }

  lemma SameKeysSameSize(a: Records, b: Records)
    requires a.Keys == b.Keys
    ensures |a| == |b|
  {
    assert |a.Keys| == |a| && |b.Keys| == |b|;
  }

  lemma FewerKeysSmaller(a: Records, b: Records)
    requires a.Keys <= b.Keys
    ensures |a| <= |b|
  {
    SubsetSize(a.Keys, b.Keys);
    assert |a.Keys| == |a| && |b.Keys| == |b|;
  }

  lemma StartStaysBounded(w: World, r: Record, kept: Records, ok: bool)
    requires Bounded(w)
    ensures Bounded(Started(w, r, kept, ok))
  {
    if Startable(w, r, kept) {
      assert |kept| <= MAX_RECORDS;
      FewerKeysSmaller(kept - {r.id}, kept);
    }
  }

  lemma FinishStaysBounded(w: World, id: string, status: Status, errorCode: string, now: int, ok: bool)
    requires Bounded(w)
    ensures Bounded(Finished(w, id, status, errorCode, now, ok))
  {
    if Finishable(w, id, status) {
      var rs := w.memory.value[id := Terminal(w.memory.value[id], status, errorCode, now)];
      SameKeysSameSize(rs, w.memory.value);
    }
  }

  lemma OpenStaysBounded(w: World, now: int, ok: bool)
    requires Bounded(w)
    ensures Bounded(Opened(w, now, ok))
  {
    InterruptProgresses(OnDisk(w), now);
    SameKeysSameSize(InterruptAll(OnDisk(w), now), OnDisk(w));
  }

  /** Every content that operations.json ever has, and every memory, holds at most 1000 records. */
  lemma {:induction false} AtMostMaxRecords(steps: seq<Step>)
    ensures forall i :: 0 <= i < |Exec(steps).history| ==> |Exec(steps).history[i]| <= 1000
    ensures Exec(steps).memory.Some? ==> |Exec(steps).memory.value| <= 1000
    ensures |OnDisk(Exec(steps))| <= 1000
  {
    if steps == [] {
    } else {
      var w := Exec(steps[..|steps| - 1]);
      AtMostMaxRecords(steps[..|steps| - 1]);
      match steps[|steps| - 1]
      case Start(r, kept, ok) => StartStaysBounded(w, r, kept, ok);
      case Finish(id, status, errorCode, now, ok) => FinishStaysBounded(w, id, status, errorCode, now, ok);
      case Open(now, ok) => OpenStaysBounded(w, now, ok);
      case Crash =>
    }
  }

  /** What memory dropped while the file still has it is no newer than what memory kept. */
  predicate DroppedAreOldest(w: World) {
    w.memory.Some? ==>
      forall removed, kept :: removed in OnDisk(w) && removed !in w.memory.value && kept in w.memory.value ==>
        OnDisk(w)[removed].startedAt <= w.memory.value[kept].startedAt
  }

  /** From one content of the file to a later one: a record that left is no newer than one that stayed. */
  predicate LeavesBefore(d: Records, e: Records) {
    forall removed, kept :: removed in d && removed !in e && kept in d && kept in e ==>
        d[removed].startedAt <= d[kept].startedAt
  }

  /** Old records of memory that pruning drops, and records that memory had dropped before, against one kept. */
  lemma PruningDropsOldest(w: World, r: Record, kept: Records, removed: string, stays: string)
    requires Inv(w) && DroppedAreOldest(w) && Startable(w, r, kept) && r.id !in w.used
    requires removed in OnDisk(w) && removed !in kept && stays in kept && stays != r.id
    ensures stays in OnDisk(w) && stays in w.memory.value
    ensures OnDisk(w)[removed].startedAt <= kept[stays].startedAt == OnDisk(w)[stays].startedAt
  {
    var mem := w.memory.value;
    var before := mem[r.id := r];
    assert stays in before && kept[stays] == before[stays] == mem[stays];
    assert Progress(OnDisk(w)[stays], mem[stays]);
    if removed in mem {
      assert Progress(OnDisk(w)[removed], mem[removed]);
      assert removed in before.Keys - kept.Keys;
      assert before[removed].startedAt <= before[stays].startedAt;
    }
  }

  lemma StartDropsOldest(w: World, r: Record, kept: Records, ok: bool)
    requires Inv(w) && DroppedAreOldest(w) && r.id !in w.used
    ensures var v := Started(w, r, kept, ok);
            DroppedAreOldest(v) && (v.history != w.history ==> LeavesBefore(OnDisk(w), OnDisk(v)))
  {
    if Startable(w, r, kept) {
      KeptAgainstDropped(w, r, kept);
      assert r.id !in OnDisk(w);
    }
  }

  lemma KeptAgainstDropped(w: World, r: Record, kept: Records)
    requires Inv(w) && DroppedAreOldest(w) && Startable(w, r, kept) && r.id !in w.used
    ensures forall removed, stays :: removed in OnDisk(w) && removed !in kept && stays in kept && stays != r.id ==>
              stays in OnDisk(w) && OnDisk(w)[removed].startedAt <= kept[stays].startedAt == OnDisk(w)[stays].startedAt
  {
    forall removed, stays | removed in OnDisk(w) && removed !in kept && stays in kept && stays != r.id
      ensures stays in OnDisk(w) && OnDisk(w)[removed].startedAt <= kept[stays].startedAt == OnDisk(w)[stays].startedAt
    {
      PruningDropsOldest(w, r, kept, removed, stays);
    }
  }

  lemma FinishDropsOldest(w: World, id: string, status: Status, errorCode: string, now: int, ok: bool)
    requires Inv(w) && DroppedAreOldest(w)
    ensures var v := Finished(w, id, status, errorCode, now, ok);
            DroppedAreOldest(v) && (v.history != w.history ==> LeavesBefore(OnDisk(w), OnDisk(v)))
  {
    if Finishable(w, id, status) {
      assert forall k :: k in w.memory.value ==> Progress(OnDisk(w)[k], w.memory.value[k]);
    }
  }

  lemma OpenDropsNothing(w: World, now: int, ok: bool)
    requires Inv(w) && DroppedAreOldest(w)
    ensures var v := Opened(w, now, ok);
            DroppedAreOldest(v) && (v.history != w.history ==> LeavesBefore(OnDisk(w), OnDisk(v)))
  {
    InterruptProgresses(OnDisk(w), now);
  }

  lemma StepDropsOldest(w: World, s: Step)
    requires Inv(w) && DroppedAreOldest(w) && FreshStart(w, s)
    ensures var v := Next(w, s); DroppedAreOldest(v) && (v.history != w.history ==> LeavesBefore(OnDisk(w), OnDisk(v)))
  {
    match s
    case Start(r, kept, ok) => StartDropsOldest(w, r, kept, ok);
    case Finish(id, status, errorCode, now, ok) => FinishDropsOldest(w, id, status, errorCode, now, ok);
    case Open(now, ok) => OpenDropsNothing(w, now, ok);
    case Crash =>
  }

  predicate AllLeaveBefore(history: seq<Records>) {
    forall i, j :: 0 <= i < j < |history| ==> LeavesBefore(history[i], history[j])
  }

  lemma AllLeaveBeforeGrows(w: World, e: Records)
    requires Inv(w) && Durable(w.history) && AllLeaveBefore(w.history)
    requires Evolves(w.used, OnDisk(w), e) && LeavesBefore(OnDisk(w), e)
    ensures AllLeaveBefore(w.history + [e])
  {
    var h: seq<Records>, n := w.history + [e], |w.history|;
    forall i, j | 0 <= i < j < |h| ensures LeavesBefore(h[i], h[j]) {
      if j == n {
        var d := OnDisk(w);
        assert d == h[n - 1];
        forall removed, kept | removed in h[i] && removed !in e && kept in h[i] && kept in e
          ensures h[i][removed].startedAt <= h[i][kept].startedAt
        {
          OnlyPresentRecordsStay(w, e, i, kept);
          assert Progress(h[i][kept], d[kept]);
          if removed in d {
            assert Progress(h[i][removed], d[removed]);
          } else {
            assert LeavesBefore(h[i], h[n - 1]);
          }
        }
      }
    }
  }

  lemma {:induction false} DropsOldestOverRuns(steps: seq<Step>)
    requires FreshIds(steps)
    ensures DroppedAreOldest(Exec(steps)) && AllLeaveBefore(Exec(steps).history)
  {
    if steps == [] {
    } else {
      var p := steps[..|steps| - 1];
      var w, v := Exec(p), Exec(steps);
      DropsOldestOverRuns(p);
      RunKeeps(p);
      StepKeeps(w, steps[|steps| - 1]);
      StepDropsOldest(w, steps[|steps| - 1]);
      if v.history != w.history { AllLeaveBeforeGrows(w, OnDisk(v)); }
    }
  }

  /** Over every run, of two records that one content of operations.json has, a later content that has only
      one of them has the one that started later: pruning removes the oldest, also after failed writes have
      let memory and file differ. */
  lemma OnlyOldestArePruned(steps: seq<Step>, i: nat, j: nat, removed: string, kept: string)
    requires FreshIds(steps) && i < j < |Exec(steps).history|
    requires var h := Exec(steps).history; removed in h[i] && removed !in h[j] && kept in h[i] && kept in h[j]
    ensures var h := Exec(steps).history;
            h[i][removed].startedAt <= h[i][kept].startedAt && h[j][kept].startedAt == h[i][kept].startedAt
  {
    DropsOldestOverRuns(steps);
    RunKeeps(steps);
    var h := Exec(steps).history;
    assert LeavesBefore(h[i], h[j]);
    assert Progress(h[i][kept], h[j][kept]);
  }

  lemma {:induction false} SubsetSize(x: set<string>, y: set<string>)
    requires x <= y
    ensures |x| <= |y|
  {
    if x == {} {
    } else {
      var e :| e in x;
      SubsetSize(x - {e}, y - {e});
    }
  }

  lemma SubsetOfEqualSize(x: set<string>, y: set<string>)
    requires x <= y && |x| == |y|
    ensures x == y
  {
    if e :| e in y && e !in x {
      SubsetSize(x, y - {e});
    }
  }

  // ----- a failed Start ---------------------------------------------------------------------

  /** "A failed Start has no effect" fails: it has none on memory exactly when the store is not full or
      pruning chose the new record itself. Whatever memory forgets, the file still has. */
  lemma FailedStartForgets(w: World, r: Record, kept: Records)
    requires Startable(w, r, kept) && |w.memory.value| <= MAX_RECORDS
    ensures var v := Started(w, r, kept, false);
            && v.file == w.file && v.history == w.history
            && (v.memory == w.memory <==> |w.memory.value| < MAX_RECORDS || r.id !in kept)
            && (Inv(w) ==> forall id :: id in w.memory.value && id !in v.memory.value ==>
                             id in OnDisk(v) && Progress(OnDisk(v)[id], w.memory.value[id]))
  {
    var mem := w.memory.value;
    var before := mem[r.id := r];
    assert before.Keys == mem.Keys + {r.id};
    assert |before| == |mem| + 1;
    var v := Started(w, r, kept, false);
    if |mem| < MAX_RECORDS {
      assert kept - {r.id} == mem;
    } else if r.id in kept {
      assert |(kept - {r.id}).Keys| == |kept.Keys - {r.id}| == MAX_RECORDS - 1;
      assert |kept.Keys| == |kept| && |mem.Keys| == |mem|;
    } else {
      assert kept.Keys <= mem.Keys;
      assert |kept.Keys| == |kept| && |mem.Keys| == |mem|;
      SubsetOfEqualSize(kept.Keys, mem.Keys);
      assert kept - {r.id} == mem;
    }
  }

  /** Whatever pruning does with ties, a failed Start changes memory, or never does. */
  ghost predicate AlwaysForgets(w: World, r: Record)
    requires Accepts(w, r)
  {
    forall kept :: Startable(w, r, kept) ==> Started(w, r, kept, false).memory != w.memory
  }

  ghost predicate NeverForgets(w: World, r: Record)
    requires Accepts(w, r)
  {
    forall kept :: Startable(w, r, kept) ==> Started(w, r, kept, false).memory == w.memory
  }

  lemma {:induction false} OldestOf(rs: Records, keys: set<string>) returns (oldest: string)
    requires keys != {} && keys <= rs.Keys
    ensures oldest in keys && forall id :: id in keys ==> rs[oldest].startedAt <= rs[id].startedAt
    decreases |keys|
  {
    oldest :| oldest in keys;
    if keys == {oldest} {
    } else {
      var other := OldestOf(rs, keys - {oldest});
      if rs[other].startedAt < rs[oldest].startedAt { oldest := other; }
      assert forall id :: id in keys ==>
          id == oldest || id in keys - {oldest} || rs[oldest].startedAt <= rs[id].startedAt;
    }
  }

  /** Dropping one oldest record of a store that is one over the limit is pruning. */
  lemma DropOldestIsPruning(before: Records, oldest: string)
    requires |before| == MAX_RECORDS + 1 && oldest in before
    requires forall id :: id in before ==> before[oldest].startedAt <= before[id].startedAt
    ensures Pruned(before, before - {oldest})
  {
    var after := before - {oldest};
    assert after.Keys == before.Keys - {oldest};
    assert |after.Keys| == |before.Keys| - 1;
    assert before.Keys - after.Keys == {oldest};
  }

  lemma WhatPruningDropped(mem: Records, r: Record, kept: Records)
    requires r.id !in mem && |mem| == MAX_RECORDS && Pruned(mem[r.id := r], kept)
    ensures r.id in kept ==> exists id :: id in mem && mem[id].startedAt <= r.startedAt
    ensures r.id !in kept ==> forall id :: id in mem ==> r.startedAt <= mem[id].startedAt
  {
    var before := mem[r.id := r];
    assert before.Keys == mem.Keys + {r.id};
    assert |before| == MAX_RECORDS + 1;
    assert |kept.Keys| == |kept| && |mem.Keys| == |mem|;
    if r.id in kept {
      assert |before.Keys| == |before|;
      if before.Keys <= kept.Keys { SubsetSize(before.Keys, kept.Keys); }
      var gone :| gone in before.Keys && gone !in kept.Keys;
      assert gone in before.Keys - kept.Keys;
      assert before[gone].startedAt <= before[r.id].startedAt;
      assert gone in mem && mem[gone] == before[gone];
    } else {
      assert kept.Keys <= mem.Keys;
      SubsetOfEqualSize(kept.Keys, mem.Keys);
      assert r.id in before.Keys - kept.Keys;
      assert forall id :: id in mem ==> before[r.id].startedAt <= before[id].startedAt == mem[id].startedAt;
    }
  }

  /** Against an oldest record of a full store, both outcomes of pruning that the start times allow exist. */
  lemma PruningCanChoose(w: World, r: Record, oldest: string)
    requires Accepts(w, r) && |w.memory.value| == MAX_RECORDS && oldest in w.memory.value
    requires forall id :: id in w.memory.value ==> w.memory.value[oldest].startedAt <= w.memory.value[id].startedAt
    ensures w.memory.value[oldest].startedAt <= r.startedAt ==> exists kept :: Startable(w, r, kept) && r.id in kept
    ensures r.startedAt <= w.memory.value[oldest].startedAt ==> exists kept :: Startable(w, r, kept) && r.id !in kept
  {
    var mem := w.memory.value;
    var before := mem[r.id := r];
    assert before.Keys == mem.Keys + {r.id};
    assert |before| == MAX_RECORDS + 1;
    if mem[oldest].startedAt <= r.startedAt {
      DropOldestIsPruning(before, oldest);
      assert Startable(w, r, before - {oldest}) && r.id in before - {oldest};
    }
    if r.startedAt <= mem[oldest].startedAt {
      DropOldestIsPruning(before, r.id);
      assert Startable(w, r, before - {r.id}) && r.id !in before - {r.id};
    }
  }

  /** In a full store pruning must keep the new record when some record is strictly older, and must drop it
      when all are strictly newer; otherwise both are possible. */
  lemma PruningAFullStore(w: World, r: Record)
    requires Accepts(w, r) && |w.memory.value| == MAX_RECORDS
    ensures var mem := w.memory.value;
            && ((forall kept :: Startable(w, r, kept) ==> r.id in kept) <==>
                exists id :: id in mem && mem[id].startedAt < r.startedAt)
            && ((forall kept :: Startable(w, r, kept) ==> r.id !in kept) <==>
                forall id :: id in mem ==> r.startedAt < mem[id].startedAt)
  {
    var mem := w.memory.value;
    assert |mem.Keys| == |mem|;
    var oldest := OldestOf(mem, mem.Keys);
    PruningCanChoose(w, r, oldest);
    forall kept | Startable(w, r, kept)
      ensures r.id in kept ==> exists id :: id in mem && mem[id].startedAt <= r.startedAt
      ensures r.id !in kept ==> forall id :: id in mem ==> r.startedAt <= mem[id].startedAt
    {
      WhatPruningDropped(mem, r, kept);
    }
  }

  lemma ForgettingIsKeeping(w: World, r: Record)
    requires Accepts(w, r) && |w.memory.value| == MAX_RECORDS
    ensures AlwaysForgets(w, r) <==> forall kept :: Startable(w, r, kept) ==> r.id in kept
    ensures NeverForgets(w, r) <==> forall kept :: Startable(w, r, kept) ==> r.id !in kept
  {
    forall kept | Startable(w, r, kept)
      ensures Started(w, r, kept, false).memory == w.memory <==> r.id !in kept
    {
      FailedStartForgets(w, r, kept);
    }
  }

  lemma RoomForOneMore(w: World, r: Record)
    requires Accepts(w, r) && |w.memory.value| < MAX_RECORDS
    ensures NeverForgets(w, r) && !AlwaysForgets(w, r)
  {
    forall kept | Startable(w, r, kept) ensures Started(w, r, kept, false).memory == w.memory {
      FailedStartForgets(w, r, kept);
    }
    var before := w.memory.value[r.id := r];
    assert |before| == |w.memory.value| + 1;
    assert Startable(w, r, before);
  }

  /** Before the call: a failed Start is certain to change memory exactly when the store is full and some record
      is strictly older than the new one, and certain not to exactly when it is not full or all are newer. */
  lemma FailedStartForgetsWhen(w: World, r: Record)
    requires Accepts(w, r) && |w.memory.value| <= MAX_RECORDS
    ensures var (mem, full) := (w.memory.value, |w.memory.value| == MAX_RECORDS);
            && (AlwaysForgets(w, r) <==> full && exists id :: id in mem && mem[id].startedAt < r.startedAt)
            && (NeverForgets(w, r) <==> !full || forall id :: id in mem ==> r.startedAt < mem[id].startedAt)
  {
    if |w.memory.value| < MAX_RECORDS {
      RoomForOneMore(w, r);
    } else {
      ForgettingIsKeeping(w, r);
      PruningAFullStore(w, r);
    }
  }

  function Letters(n: nat): string { seq(n + 1, _ => 'a') }

  lemma OneMore(steps: seq<Step>, s: Step)
    ensures Exec(steps + [s]) == Next(Exec(steps), s)
    ensures FreshIds(steps) && FreshStart(Exec(steps), s) ==> FreshIds(steps + [s])
  {
    assert (steps + [s])[..|steps + [s]| - 1] == steps;
  }

  /** The store holds n records that started at instant 0. */
  predicate Filled(w: World, n: nat) {
    && w.memory.Some? && |w.memory.value| == n && w.memory.value.Keys <= w.used
    && (forall id :: id in w.used ==> |id| <= n)
    && forall id :: id in w.memory.value ==> w.memory.value[id].startedAt == 0
  }

  lemma {:induction false} Filling(n: nat) returns (steps: seq<Step>)
    requires n <= MAX_RECORDS
    ensures FreshIds(steps) && Filled(Exec(steps), n)
  {
    if n == 0 {
      steps := [] + [Open(0, true)];
      OneMore([], Open(0, true));
    } else {
      var before := Filling(n - 1);
      var r := Record(Letters(n - 1), "kind", "actor", "role", "target", Running, 0, None, "");
      var kept := Exec(before).memory.value[r.id := r];
      steps := before + [Start(r, kept, true)];
      assert |r.id| == n;
      assert |kept| == n;
      OneMore(before, Start(r, kept, true));
    }
  }

  /** A run reaches a full store and a Start whose failed write is certain to make memory forget a record. */
  lemma FailedStartCanForget() returns (steps: seq<Step>, r: Record)
    ensures FreshIds(steps) && Accepts(Exec(steps), r) && r.id !in Exec(steps).used
    ensures |Exec(steps).memory.value| == 1000 && AlwaysForgets(Exec(steps), r)
  {
    steps := Filling(MAX_RECORDS);
    r := Record(Letters(MAX_RECORDS), "kind", "actor", "role", "target", Running, 1, None, "");
    NextIsAccepted(Exec(steps), MAX_RECORDS, r);
    FilledHasOlder(Exec(steps), MAX_RECORDS, 1);
    FailedStartForgetsWhen(Exec(steps), r);
  }

  lemma NextIsAccepted(w: World, n: nat, r: Record)
    requires Filled(w, n) && r == Record(Letters(n), "kind", "actor", "role", "target", Running, 1, None, "")
    ensures Accepts(w, r) && r.id !in w.used
  {
    assert |r.id| == n + 1;
  }

  lemma FilledHasOlder(w: World, n: nat, now: int)
    requires Filled(w, n) && n > 0 && now > 0
    ensures exists id :: id in w.memory.value && w.memory.value[id].startedAt < now
  {
    var mem := w.memory.value;
    assert mem.Keys != {} by { assert |mem.Keys| == |mem|; }
    var id :| id in mem.Keys;
    assert id in mem && mem[id].startedAt < now;
  }

  // ----- a failed Finish --------------------------------------------------------------------

  /** No crash and no write of the file in these steps, and none of them uses the identifier again. */
  predicate Unwritten(w: World, id: string, steps: seq<Step>) {
    steps == [] ||
    var p, s := steps[..|steps| - 1], steps[|steps| - 1];
    && Unwritten(w, id, p)
    && !s.Crash? && (s.Start? ==> s.record.id != id)
    && Continue(w, steps).history == Continue(w, p).history
  }

  /** The file holds `was` and memory holds `done`, unless pruning dropped it. */
  predicate Pending(w: World, was: Record, done: Record) {
    && was.id in OnDisk(w) && OnDisk(w)[was.id] == was
    && w.memory.Some? && (was.id in w.memory.value ==> w.memory.value[was.id] == done)
  }

  lemma PendingStep(w: World, s: Step, was: Record, done: Record)
    requires Pending(w, was, done) && !done.status.Running?
    requires !s.Crash? && (s.Start? ==> s.record.id != was.id)
    ensures var v := Next(w, s);
            if v.history == w.history then Pending(v, was, done)
            else && (was.id in OnDisk(v) ==> OnDisk(v)[was.id] == done)
                 && (was.id in OnDisk(v) <==> was.id in w.memory.value && !PrunesAway(w, s, was.id))
  {
    var v := Next(w, s);
    if v.history != w.history { assert v.history == w.history + [OnDisk(v)]; }
  }

  lemma {:induction false} PendingUntilWritten(w: World, steps: seq<Step>, was: Record, done: Record)
    requires Pending(w, was, done) && !done.status.Running? && Unwritten(w, was.id, steps)
    ensures Pending(Continue(w, steps), was, done)
  {
    if steps == [] {
    } else {
      var p := steps[..|steps| - 1];
      PendingUntilWritten(w, p, was, done);
      PendingStep(Continue(w, p), steps[|steps| - 1], was, done);
    }
  }

  /** A failed Finish is not a call without effect. Memory has the terminal record, so Finish cannot be
      repeated, while the file shows it running as long as nothing is written; the next write of the process,
      for whatever operation, makes the terminal record durable if it keeps it; a crash before that makes the
      next opening record it as interrupted. */
  lemma FailedFinishIsDecidedLater(w: World, id: string, status: Status, errorCode: string, now: int,
                                   more: seq<Step>, next: Step, reopened: int)
    requires Inv(w) && Finishable(w, id, status)
    requires Unwritten(Finished(w, id, status, errorCode, now, false), id, more)
    requires !next.Crash? && (next.Start? ==> next.record.id != id)
    ensures var was := w.memory.value[id];
            var done := Terminal(was, status, errorCode, now);
            var u := Continue(Finished(w, id, status, errorCode, now, false), more);
            var v := Next(u, next);
            var restarted := Opened(Next(u, Crash), reopened, true);
            && was.status.Running? && Pending(u, was, done) && (forall again :: !Finishable(u, id, again))
            && (v.history != u.history ==> (id in OnDisk(v) <==> id in u.memory.value && !PrunesAway(u, next, id)))
            && (v.history != u.history && id in OnDisk(v) ==> OnDisk(v)[id] == done)
            && Shown(restarted, Terminal(was, Interrupted, "process_restarted", reopened))
  {
    var was := w.memory.value[id];
    var done := Terminal(was, status, errorCode, now);
    assert was.id == id;
    assert Progress(OnDisk(w)[id], was);
    var start := Finished(w, id, status, errorCode, now, false);
    assert Pending(start, was, done);
    PendingUntilWritten(start, more, was, done);
    var u := Continue(start, more);
    PendingStep(u, next, was, done);
    assert !NoneRunning(OnDisk(u));
  }
}
