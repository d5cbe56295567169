/** The persistence of internal/state/store.go as a machine: one process, three files, writes that may
    fail, and crashes between any two steps. Logs of mutations record where each document comes from. */
module StateMachine {
  import opened Text
  import opened StateModel

  datatype Files = Files(state: Option<Document>, secrets: Option<SecretDocument>, bootstrap: Option<string>)

  /** Where a call stands while it holds the store's lock. */
  datatype Phase =
    | Idle
    | SecretsNext(x: Mutation)
    | StateNext(x: Mutation)
    | BootstrapNext(x: Mutation)
    | CleanupNext(x: Mutation)

  datatype Process = Down | Up(mem: Memory, phase: Phase)

  /** memLog, secretLog and stateLog are the mutations in memory and in the two files; ackLog those in
      memory when a call last returned without an error. */
  datatype World = World(process: Process, files: Files, memLog: seq<Mutation>,
                         secretLog: seq<Mutation>, stateLog: seq<Mutation>, ackLog: seq<Mutation>)

  const INIT := World(Up(EMPTY, Idle), Files(None, None, None), [], [], [], [])

  /** load: a missing file stands for the initial document; schemas and revisions must agree. */
  function Load(f: Files): Option<Memory> {
    var doc := if f.state.Some? then f.state.value else EMPTY.doc;
    var secrets := if f.secrets.Some? then f.secrets.value else EMPTY.secrets;
    if doc.schema != SCHEMA || secrets.schema != SCHEMA || doc.revision != secrets.revision then None
    else Some(Memory(doc, secrets))
  }

  /** A pair of files loads exactly when both have schema 1 and the same revision, a missing file counting as one of
      revision 1 without entries; it is then what is in the files. */
  lemma LoadsExactly(f: Files)
    ensures Load(f).Some? <==>
              && (f.state.Some? ==> f.state.value.schema == 1) && (f.secrets.Some? ==> f.secrets.value.schema == 1)
              && (if f.state.Some? then f.state.value.revision else 1) ==
                   (if f.secrets.Some? then f.secrets.value.revision else 1)
    ensures Load(f).Some? ==>
              && Load(f).value.doc == (if f.state.Some? then f.state.value else Document(1, 1, map[]))
              && Load(f).value.secrets == (if f.secrets.Some? then f.secrets.value else SecretDocument(1, 1, map[]))
  {
  }

  /** `ok` says whether an atomic write replaced its file or failed and left it alone. */
  datatype Step =
    | Begin(mutation: Mutation)
    | WriteSecrets(ok: bool)
    | WriteState(ok: bool)
    | WriteBootstrap(ok: bool, text: string)
    | RemoveBootstrap(ok: bool)
    | Crash
    | Reopen

  function Acknowledge(w: World): World
    requires w.process.Up?
  {
    w.(process := w.process.(phase := Idle), ackLog := w.memLog)
  }

  /** The change in memory; the lock is free only when no other call is under way. */
  function Began(w: World, x: Mutation): World {
    if w.process.Up? && w.process.phase.Idle? && Enabled(w.process.mem, x)
    then w.(process := Up(Apply(w.process.mem, x), SecretsNext(x)), memLog := w.memLog + [x])
    else w
  }

  function WroteSecrets(w: World, ok: bool): World {
    if !w.process.Up? || !w.process.phase.SecretsNext? then w
    else if !ok then w.(process := w.process.(phase := Idle))
    else w.(process := w.process.(phase := StateNext(w.process.phase.x)),
            files := w.files.(secrets := Some(w.process.mem.secrets)), secretLog := w.memLog)
  }

  function WroteState(w: World, ok: bool): World {
    if !w.process.Up? || !w.process.phase.StateNext? then w
    else if !ok then w.(process := w.process.(phase := Idle))
    else
      var x := w.process.phase.x;
      var v := w.(files := w.files.(state := Some(w.process.mem.doc)), stateLog := w.memLog);
      if x.Bootstrap? then v.(process := w.process.(phase := BootstrapNext(x)))
      else if x.Change? then v.(process := w.process.(phase := CleanupNext(x)))
      else Acknowledge(v)
  }

  function WroteBootstrap(w: World, ok: bool, text: string): World {
    if !w.process.Up? || !w.process.phase.BootstrapNext? then w
    else if !ok then w.(process := w.process.(phase := Idle))
    else Acknowledge(w.(files := w.files.(bootstrap := Some(text))))
  }

  /** The error of os.Remove is ignored. */
  function RemovedBootstrap(w: World, ok: bool): World {
    if !w.process.Up? || !w.process.phase.CleanupNext? then w
    else Acknowledge(if ok then w.(files := w.files.(bootstrap := None)) else w)
  }

  function Reopened(w: World): World {
    if w.process.Up? || Load(w.files).None? then w
    else w.(process := Up(Load(w.files).value, Idle), memLog := w.stateLog)
  }

  /** A step that does not apply leaves the world as it is. */
  function Next(w: World, s: Step): World {
    match s
    case Begin(x) => Began(w, x)
    case WriteSecrets(ok) => WroteSecrets(w, ok)
    case WriteState(ok) => WroteState(w, ok)
    case WriteBootstrap(ok, text) => WroteBootstrap(w, ok, text)
    case RemoveBootstrap(ok) => RemovedBootstrap(w, ok)
    case Crash => w.(process := Down)
    case Reopen => Reopened(w)
  }

  // ----- the invariant ----------------------------------------------------------------------

  function StateFile(log: seq<Mutation>): Option<Document> {
    if log == [] then None else Some(MemoryOf(log).doc)
  }

  function SecretFile(log: seq<Mutation>): Option<SecretDocument> {
    if log == [] then None else Some(MemoryOf(log).secrets)
  }

  /** The call under way made the last change in memory, which is not acknowledged yet. */
  predicate InPhase(w: World, phase: Phase) {
    && (!phase.Idle? ==> w.memLog != [] && w.memLog[|w.memLog| - 1] == phase.x && |w.ackLog| < |w.memLog|)
    && (phase.StateNext? ==> w.secretLog == w.memLog)
    && (phase.BootstrapNext? || phase.CleanupNext? ==> w.stateLog == w.memLog)
  }

  /** Acknowledged mutations are in state.json, those in state.json are in secrets.json, those in
      secrets.json are in memory, and always as a prefix. */
  predicate Inv(w: World) { LogsAgree(w) && FilesAgree(w) && ProcessAgrees(w) }

  predicate LogsAgree(w: World) {
    && ValidLog(w.memLog) && ValidLog(w.secretLog) && ValidLog(w.stateLog)
    && w.ackLog <= w.stateLog <= w.secretLog <= w.memLog
  }

  predicate FilesAgree(w: World) {
    w.files.state == StateFile(w.stateLog) && w.files.secrets == SecretFile(w.secretLog)
  }

  predicate ProcessAgrees(w: World) {
    w.process.Up? ==> w.process.mem == MemoryOf(w.memLog) && InPhase(w, w.process.phase)
  }

  predicate Small(w: World) { |w.memLog| + 1 < WRAP }

  lemma PrefixesOfEqualLength(a: seq<Mutation>, b: seq<Mutation>)
    requires a <= b && |a| == |b|
    ensures a == b
  {
  }

  /** The pair on disk loads exactly when both files come from the same mutations, and then gives their memory. */
  lemma LoadMeans(w: World)
    requires Inv(w) && Small(w)
    ensures Load(w.files).Some? <==> w.stateLog == w.secretLog
    ensures Load(w.files).Some? ==> Load(w.files).value == MemoryOf(w.stateLog)
  {
    RevisionCounts(w.stateLog);
    RevisionCounts(w.secretLog);
    if |w.stateLog| == |w.secretLog| { PrefixesOfEqualLength(w.stateLog, w.secretLog); }
  }

  lemma BeginKeeps(w: World, x: Mutation)
    requires Inv(w)
    ensures Inv(Began(w, x))
  {
    if Began(w, x) != w {
      var log := w.memLog + [x];
      assert log[..|log| - 1] == w.memLog;
      assert w.secretLog <= log;
    }
  }

  function SecretsReplaced(w: World): World
    requires w.process.Up? && w.process.phase.SecretsNext?
  {
    w.(process := w.process.(phase := StateNext(w.process.phase.x)),
       files := w.files.(secrets := Some(w.process.mem.secrets)), secretLog := w.memLog)
  }

  lemma SecretsFileAgrees(w: World)
    requires FilesAgree(w) && ProcessAgrees(w) && w.process.Up? && w.process.phase.SecretsNext?
    ensures FilesAgree(SecretsReplaced(w))
  {
    SecretFileOf(w.memLog);
  }

  lemma SecretsProcessAgrees(w: World)
    requires ProcessAgrees(w) && w.process.Up? && w.process.phase.SecretsNext?
    ensures ProcessAgrees(SecretsReplaced(w))
  {
  }

  lemma SecretsFileKeeps(w: World)
    requires Inv(w) && w.process.Up? && w.process.phase.SecretsNext?
    ensures Inv(SecretsReplaced(w))
  {
    SecretsFileAgrees(w);
    SecretsProcessAgrees(w);
    assert LogsAgree(SecretsReplaced(w));
  }

  lemma SecretFileOf(log: seq<Mutation>)
    requires log != []
    ensures SecretFile(log) == Some(MemoryOf(log).secrets)
  {
  }

  lemma GiveUpKeeps(w: World)
    requires Inv(w) && w.process.Up?
    ensures Inv(w.(process := w.process.(phase := Idle)))
  {
  }

  lemma SecretsWriteKeeps(w: World, ok: bool)
    requires Inv(w)
    ensures Inv(WroteSecrets(w, ok))
  {
    if w.process.Up? && w.process.phase.SecretsNext? {
      if ok { SecretsFileKeeps(w); } else { GiveUpKeeps(w); }
    }
  }

  lemma AcknowledgeKeeps(w: World)
    requires Inv(w) && w.process.Up? && w.stateLog == w.memLog
    ensures Inv(Acknowledge(w))
  {
  }

  lemma StateFileKeeps(w: World, phase: Phase)
    requires Inv(w) && w.process.Up? && w.process.phase.StateNext?
    requires phase == Idle || phase == BootstrapNext(w.process.phase.x) || phase == CleanupNext(w.process.phase.x)
    ensures Inv(w.(files := w.files.(state := Some(w.process.mem.doc)), stateLog := w.memLog,
                   process := w.process.(phase := phase)))
  {
  }

  lemma StateWriteKeeps(w: World, ok: bool)
    requires Inv(w)
    ensures Inv(WroteState(w, ok))
  {
    if w.process.Up? && w.process.phase.StateNext? && !ok {
      GiveUpKeeps(w);
    } else if w.process.Up? && w.process.phase.StateNext? {
      var x := w.process.phase.x;
      var phase := if x.Bootstrap? then BootstrapNext(x) else if x.Change? then CleanupNext(x) else Idle;
      StateFileKeeps(w, phase);
      var v := w.(files := w.files.(state := Some(w.process.mem.doc)), stateLog := w.memLog,
                  process := w.process.(phase := phase));
      if phase == Idle { AcknowledgeKeeps(v); }
    }
  }

  lemma BootstrapWriteKeeps(w: World, ok: bool, text: string)
    requires Inv(w)
    ensures Inv(WroteBootstrap(w, ok, text))
  {
  }

  lemma BootstrapRemovalKeeps(w: World, ok: bool)
    requires Inv(w)
    ensures Inv(RemovedBootstrap(w, ok))
  {
  }

  lemma CrashKeeps(w: World)
    requires Inv(w)
    ensures Inv(w.(process := Down))
  {
  }

  lemma ReopenKeeps(w: World)
    requires Inv(w) && Small(w)
    ensures Inv(Reopened(w))
  {
    LoadMeans(w);
  }

  lemma StepKeeps(w: World, s: Step)
    requires Inv(w) && Small(w)
    ensures Inv(Next(w, s))
  {
    match s
    case Begin(x) => BeginKeeps(w, x);
    case WriteSecrets(ok) => SecretsWriteKeeps(w, ok);
    case WriteState(ok) => StateWriteKeeps(w, ok);
    case WriteBootstrap(ok, text) => BootstrapWriteKeeps(w, ok, text);
    case RemoveBootstrap(ok) => BootstrapRemovalKeeps(w, ok);
    case Crash => CrashKeeps(w);
    case Reopen => ReopenKeeps(w);
  }

  /** How the logs move in one step. */
  lemma StepMovesLogs(w: World, s: Step)
    requires |w.stateLog| <= |w.memLog|
    ensures var v := Next(w, s);
            && (v.ackLog == w.ackLog || v.ackLog == w.memLog)
            && (v.stateLog == w.stateLog || (w.process.Up? && v.stateLog == w.memLog))
            && |v.memLog| <= |w.memLog| + 1
            && (w.process.Up? && !s.Crash? ==> v.process.Up? && w.memLog <= v.memLog)
  {
  }

  // ----- runs -------------------------------------------------------------------------------

  function Exec(steps: seq<Step>): World {
    if steps == [] then INIT else Next(Exec(steps[..|steps| - 1]), steps[|steps| - 1])
  }

  lemma {:induction false} RunKeeps(steps: seq<Step>)
    requires |steps| + 1 < WRAP
    ensures Inv(Exec(steps)) && |Exec(steps).memLog| <= |steps|
  {
    if steps != [] {
      var p := steps[..|steps| - 1];
      RunKeeps(p);
      StepKeeps(Exec(p), steps[|steps| - 1]);
      StepMovesLogs(Exec(p), steps[|steps| - 1]);
    } else {
      assert ValidLog([]);
    }
  }

  /** The log of acknowledged changes and that of state.json only grow. */
  lemma LogsGrow(w: World, s: Step)
    requires w.ackLog <= w.memLog && w.stateLog <= w.memLog
    ensures w.ackLog <= Next(w, s).ackLog && w.stateLog <= Next(w, s).stateLog
  {
    StepMovesLogs(w, s);
  }

  lemma RunIsOrdered(steps: seq<Step>)
    requires |steps| + 1 < WRAP
    ensures Exec(steps).ackLog <= Exec(steps).memLog && Exec(steps).stateLog <= Exec(steps).memLog
  {
    RunKeeps(steps);
  }

  lemma {:induction false} RunGrows(steps: seq<Step>, i: nat)
    requires |steps| + 1 < WRAP && i <= |steps|
    ensures Exec(steps[..i]).ackLog <= Exec(steps).ackLog
    ensures Exec(steps[..i]).stateLog <= Exec(steps).stateLog
    decreases |steps| - i
  {
    if i < |steps| {
      RunGrows(steps, i + 1);
      assert steps[..i + 1][..i] == steps[..i];
      RunIsOrdered(steps[..i]);
      LogsGrow(Exec(steps[..i]), steps[i]);
    } else {
      assert steps[..i] == steps;
    }
  }

  function StateRevision(f: Files): nat { if f.state.Some? then f.state.value.revision else 1 }

  function SecretRevision(f: Files): nat { if f.secrets.Some? then f.secrets.value.revision else 1 }

  lemma RevisionsOfFiles(w: World)
    requires Inv(w) && Small(w)
    ensures StateRevision(w.files) == 1 + |w.stateLog| && SecretRevision(w.files) == 1 + |w.secretLog|
  {
    RevisionCounts(w.stateLog);
    RevisionCounts(w.secretLog);
  }

  /** Over every run, the revision in state.json is never above that in secrets.json, and Open succeeds
      exactly when they are equal. */
  lemma RevisionsAreOrdered(steps: seq<Step>)
    requires |steps| + 1 < WRAP
    ensures var f := Exec(steps).files;
            StateRevision(f) <= SecretRevision(f) && (Load(f).Some? <==> StateRevision(f) == SecretRevision(f))
  {
    var w := Exec(steps);
    RunKeeps(steps);
    LoadMeans(w);
    RevisionsOfFiles(w);
    if |w.stateLog| == |w.secretLog| { PrefixesOfEqualLength(w.stateLog, w.secretLog); }
  }

  /** What state.json holds was the whole memory of a running process at some point of the run. */
  lemma {:induction false} StateFileWasInMemory(steps: seq<Step>) returns (k: nat)
    requires |steps| + 1 < WRAP
    ensures k <= |steps|
    ensures Exec(steps[..k]).process.Up? && Exec(steps[..k]).memLog == Exec(steps).stateLog
  {
    if steps == [] {
      k := 0;
      assert steps[..0] == steps;
    } else {
      var n := |steps| - 1;
      var p := steps[..n];
      RunKeeps(p);
      StepMovesLogs(Exec(p), steps[n]);
      if Exec(steps).stateLog == Exec(p).stateLog {
        k := StateFileWasInMemory(p);
        assert p[..k] == steps[..k];
      } else {
        k := n;
      }
    }
  }

  /** Reopening restores one whole past snapshot of a process, or fails; never a mix of two. */
  lemma ReopeningRestoresASnapshot(steps: seq<Step>) returns (k: nat)
    requires |steps| + 1 < WRAP && Load(Exec(steps).files).Some?
    ensures k <= |steps| && Exec(steps[..k]).process.Up?
    ensures Load(Exec(steps).files) == Some(Exec(steps[..k]).process.mem)
  {
    RunKeeps(steps);
    LoadMeans(Exec(steps));
    k := StateFileWasInMemory(steps);
    RunKeeps(steps[..k]);
  }

  /** No acknowledged change is lost: what a reopening restores is the memory of a log that extends every
      log acknowledged before, by any process; its revision counts that log. */
  lemma AcknowledgedSurvives(steps: seq<Step>, i: nat)
    requires |steps| + 1 < WRAP && i <= |steps| && Load(Exec(steps).files).Some?
    ensures var (acked, log) := (Exec(steps[..i]).ackLog, Exec(steps).stateLog);
            && acked <= log && ValidLog(log) && ValidLog(acked)
            && Load(Exec(steps).files) == Some(MemoryOf(log))
            && MemoryOf(acked).doc.revision == 1 + |acked| <= 1 + |log| == MemoryOf(log).doc.revision
  {
    RunKeeps(steps);
    LoadMeans(Exec(steps));
    RunGrows(steps, i);
    LogRevisions(Exec(steps[..i]).ackLog, Exec(steps).stateLog);
  }

  lemma LogRevisions(acked: seq<Mutation>, log: seq<Mutation>)
    requires ValidLog(log) && acked <= log && |log| + 1 < WRAP
    ensures ValidLog(acked)
    ensures MemoryOf(acked).doc.revision == 1 + |acked| && MemoryOf(log).doc.revision == 1 + |log|
  {
    PrefixIsValid(acked, log);
    RevisionCounts(acked);
    RevisionCounts(log);
  }

  /** Accounts in every process and in every accepted pair: users and hashes have the same keys, and each key
      is its record's normalized name. */
  lemma AccountsOverRuns(steps: seq<Step>)
    requires |steps| + 1 < WRAP
    ensures Exec(steps).process.Up? ==> Consistent(Exec(steps).process.mem)
    ensures Load(Exec(steps).files).Some? ==> Consistent(Load(Exec(steps).files).value)
  {
    var w := Exec(steps);
    RunKeeps(steps);
    LoadMeans(w);
    AccountsAreConsistent(w.memLog);
    AccountsAreConsistent(w.stateLog);
  }

  predicate NoCrash(steps: seq<Step>, i: nat) {
    forall j :: i <= j < |steps| ==> !steps[j].Crash?
  }

  lemma {:induction false} SameProcessGrows(steps: seq<Step>, i: nat)
    requires |steps| + 1 < WRAP && i <= |steps| && NoCrash(steps, i) && Exec(steps[..i]).process.Up?
    ensures Exec(steps).process.Up? && Exec(steps[..i]).memLog <= Exec(steps).memLog
    decreases |steps|
  {
    if i < |steps| {
      var p := steps[..|steps| - 1];
      assert p[..i] == steps[..i];
      SameProcessGrows(p, i);
      RunKeeps(p);
      StepMovesLogs(Exec(p), steps[|steps| - 1]);
    } else {
      assert steps[..i] == steps;
    }
  }

  /** Once a process has an active administrator it always has one, and so do accepted pairs on disk. */
  lemma AdministratorRemains(steps: seq<Step>, i: nat)
    requires |steps| + 1 < WRAP && i <= |steps|
    ensures (NoCrash(steps, i) && Exec(steps[..i]).process.Up? && HasAdmin(Exec(steps[..i]).process.mem))
            ==> (Exec(steps).process.Up? && HasAdmin(Exec(steps).process.mem))
    ensures var (before, after) := (Load(Exec(steps[..i]).files), Load(Exec(steps).files));
            before.Some? && HasAdmin(before.value) && after.Some? ==> HasAdmin(after.value)
  {
    RunKeeps(steps);
    RunKeeps(steps[..i]);
    if NoCrash(steps, i) && Exec(steps[..i]).process.Up? {
      SameProcessGrows(steps, i);
      LaterLogKeeps(Exec(steps[..i]).memLog, Exec(steps).memLog);
    }
    LoadMeans(Exec(steps[..i]));
    LoadMeans(Exec(steps));
    RunGrows(steps, i);
    LaterLogKeeps(Exec(steps[..i]).stateLog, Exec(steps).stateLog);
  }

  // ----- the bootstrap file -----------------------------------------------------------------

  predicate WritesBootstrap(steps: seq<Step>, i: nat, text: string)
    requires i < |steps|
  {
    var w := Exec(steps[..i]);
    w.process.Up? && w.process.phase.BootstrapNext? && steps[i] == WriteBootstrap(true, text)
  }

  predicate Removes(w: World, s: Step) { w.process.Up? && w.process.phase.CleanupNext? && s == RemoveBootstrap(true) }

  predicate RemovesAt(steps: seq<Step>, j: nat)
    requires j < |steps|
  {
    Removes(Exec(steps[..j]), steps[j])
  }

  predicate RemovedSince(steps: seq<Step>, i: nat) { exists j: nat :: i <= j < |steps| && RemovesAt(steps, j) }

  /** state.json has users, and no bootstrap is under way. */
  predicate Settled(w: World) {
    && w.stateLog != []
    && (w.process.Up? && !w.process.phase.Idle? ==> !w.process.phase.x.Bootstrap? && !w.process.phase.BootstrapNext?)
  }

  lemma StoredUsersAreInMemory(w: World)
    requires Inv(w) && w.process.Up? && w.stateLog != []
    ensures w.process.mem.doc.users != map[]
  {
    var first := w.memLog[..1];
    LaterLogKeeps(first, w.memLog);
    assert first[..0] == [];
    assert first[0].username in MemoryOf(first).doc.users;
  }

  lemma SettledStep(w: World, s: Step)
    requires Inv(w) && Settled(w)
    ensures Settled(Next(w, s))
    ensures Next(w, s).files.bootstrap == if Removes(w, s) then None else w.files.bootstrap
  {
    if w.process.Up? { StoredUsersAreInMemory(w); }
  }

  lemma RemovesInPrefix(steps: seq<Step>, n: nat, j: nat)
    requires j < n <= |steps|
    ensures RemovesAt(steps[..n], j) <==> RemovesAt(steps, j)
  {
    assert steps[..n][..j] == steps[..j];
  }

  lemma OneMoreRemoves(steps: seq<Step>, i: nat)
    requires i < |steps|
    ensures var n := |steps| - 1; RemovedSince(steps, i) <==> RemovedSince(steps[..n], i) || RemovesAt(steps, n)
  {
    var n := |steps| - 1;
    if j: nat :| i <= j < n && RemovesAt(steps[..n], j) { RemovesInPrefix(steps, n, j); }
    if j: nat :| i <= j < |steps| && RemovesAt(steps, j) {
      if j < n { RemovesInPrefix(steps, n, j); }
    }
  }

  lemma SettledRunStep(steps: seq<Step>, i: nat)
    requires |steps| + 1 < WRAP && i < |steps|
    requires var p := steps[..|steps| - 1];
             && Settled(Exec(p))
             && Exec(p).files.bootstrap == if RemovedSince(p, i) then None else Exec(p[..i]).files.bootstrap
    ensures Settled(Exec(steps))
    ensures Exec(steps).files.bootstrap == if RemovedSince(steps, i) then None else Exec(steps[..i]).files.bootstrap
  {
    var n := |steps| - 1;
    assert steps[..n][..i] == steps[..i];
    RunKeeps(steps[..n]);
    SettledStep(Exec(steps[..n]), steps[n]);
    OneMoreRemoves(steps, i);
  }

  /** Once state.json has users the bootstrap file can only go away. */
  lemma {:induction false} SettledRun(steps: seq<Step>, i: nat)
    requires |steps| + 1 < WRAP && i <= |steps| && Settled(Exec(steps[..i]))
    ensures Settled(Exec(steps))
    ensures Exec(steps).files.bootstrap == if RemovedSince(steps, i) then None else Exec(steps[..i]).files.bootstrap
    decreases |steps|
  {
    if i == |steps| {
      assert steps[..i] == steps;
    } else {
      var n := |steps| - 1;
      assert steps[..n][..i] == steps[..i];
      SettledRun(steps[..n], i);
      SettledRunStep(steps, i);
    }
  }

  lemma WrittenIsSettled(steps: seq<Step>, i: nat, text: string)
    requires |steps| + 1 < WRAP && i < |steps| && WritesBootstrap(steps, i, text)
    ensures Settled(Exec(steps[..i + 1])) && Exec(steps[..i + 1]).files.bootstrap == Some(text)
    ensures !Settled(Exec(steps[..i]))
  {
    assert steps[..i + 1][..i] == steps[..i];
    RunKeeps(steps[..i]);
    BootstrapIsUnderWay(steps[..i]);
  }

  /** The phase that writes the bootstrap file belongs to a bootstrap. */
  lemma {:induction false} BootstrapIsUnderWay(steps: seq<Step>)
    ensures var p := Exec(steps).process;
            p.Up? ==> (p.phase.BootstrapNext? ==> p.phase.x.Bootstrap?) && (p.phase.CleanupNext? ==> p.phase.x.Change?)
  {
    if steps == [] {
    } else {
      BootstrapIsUnderWay(steps[..|steps| - 1]);
    }
  }

  /** The bootstrap file is written at most once in the life of a state directory. */
  lemma BootstrapFileIsWrittenOnce(steps: seq<Step>, i: nat, j: nat, text: string, other: string)
    requires |steps| + 1 < WRAP && i < |steps| && j < |steps|
    requires WritesBootstrap(steps, i, text) && WritesBootstrap(steps, j, other)
    ensures i == j
  {
    WrittenIsSettled(steps, i, text);
    WrittenIsSettled(steps, j, other);
    if i < j {
      assert steps[..j][..i + 1] == steps[..i + 1];
      SettledRun(steps[..j], i + 1);
    } else if j < i {
      assert steps[..i][..j + 1] == steps[..j + 1];
      SettledRun(steps[..i], j + 1);
    }
  }

  /** A removal of the bootstrap file is for good, over every run of calls, failures, crashes and reopenings. */
  lemma RemovedBootstrapNeverReturns(steps: seq<Step>, i: nat)
    requires |steps| + 1 < WRAP && i < |steps| && RemovesAt(steps, i)
    ensures Exec(steps).files.bootstrap.None?
  {
    assert steps[..i + 1][..i] == steps[..i];
    RunKeeps(steps[..i]);
    BootstrapIsUnderWay(steps[..i]);
    assert Settled(Exec(steps[..i]));
    SettledRun(steps, i);
  }

  /** The bootstrap file is there, with a text, exactly when some bootstrap wrote that text and no password change,
      of whatever user, has removed the file since. */
  lemma {:induction false} BootstrapFileIsPresentExactly(steps: seq<Step>, text: string)
    requires |steps| + 1 < WRAP
    ensures Exec(steps).files.bootstrap == Some(text) <==>
              exists i: nat :: i < |steps| && WritesBootstrap(steps, i, text) && !RemovedSince(steps, i + 1)
  {
    if i: nat :| i < |steps| && WritesBootstrap(steps, i, text) && !RemovedSince(steps, i + 1) {
      WrittenIsSettled(steps, i, text);
      SettledRun(steps, i + 1);
    }
    if Exec(steps).files.bootstrap == Some(text) {
      var i := PresentWasWritten(steps, text);
      WrittenIsSettled(steps, i, text);
      SettledRun(steps, i + 1);
    }
  }

  lemma {:induction false} PresentWasWritten(steps: seq<Step>, text: string) returns (i: nat)
    requires Exec(steps).files.bootstrap == Some(text)
    ensures i < |steps| && WritesBootstrap(steps, i, text)
  {
    var n := |steps| - 1;
    if Exec(steps[..n]).files.bootstrap == Some(text) {
      i := PresentWasWritten(steps[..n], text);
      assert steps[..n][..i] == steps[..i];
    } else {
      i := n;
    }
  }
}
