/** internal/state/store.go: the store object. Every method is one call of the machine in StateMachine. */
module StateStore {
  import opened Text
  import opened Octets
  import opened StateModel
  import opened StateMachine
  import opened Accounts
  import Password

  /** What the operating system answers to the writes of one call. */
  datatype Io = Io(secrets: bool, state: bool, bootstrap: bool, remove: bool)

  /** One call: the change, and the file operations that belong to it; those that do not apply do nothing. */
  function Call(w: World, x: Mutation, io: Io, text: string): World {
    RemovedBootstrap(WroteBootstrap(WroteState(WroteSecrets(Began(w, x), io.secrets), io.state), io.bootstrap, text),
                     io.remove)
  }

  function Script(x: Mutation, io: Io, text: string): seq<Step> {
    [Begin(x), WriteSecrets(io.secrets), WriteState(io.state), WriteBootstrap(io.bootstrap, text),
     RemoveBootstrap(io.remove)]
  }

  /** A call returns nil exactly when every write it needs succeeded. */
  predicate Acknowledged(x: Mutation, io: Io) { io.secrets && io.state && (x.Bootstrap? ==> io.bootstrap) }

  /** A call is a piece of a run, so every theorem about runs speaks of sequences of calls, crashes and reopenings. */
  lemma CallIsRun(steps: seq<Step>, x: Mutation, io: Io, text: string)
    ensures Exec(steps + Script(x, io, text)) == Call(Exec(steps), x, io, text)
  {
    var s1 := steps + [Begin(x)];
    var s2 := s1 + [WriteSecrets(io.secrets)];
    var s3 := s2 + [WriteState(io.state)];
    var s4 := s3 + [WriteBootstrap(io.bootstrap, text)];
    var s5 := s4 + [RemoveBootstrap(io.remove)];
    OneMore(steps, Begin(x));
    OneMore(s1, WriteSecrets(io.secrets));
    OneMore(s2, WriteState(io.state));
    OneMore(s3, WriteBootstrap(io.bootstrap, text));
    OneMore(s4, RemoveBootstrap(io.remove));
    assert steps + Script(x, io, text) == s5;
  }

  lemma OneMore(steps: seq<Step>, s: Step)
    ensures Exec(steps + [s]) == Next(Exec(steps), s)
  {
    assert (steps + [s])[..|steps + [s]| - 1] == steps;
  }

  /** What a call leaves in memory, in the files and in the log of acknowledged changes. */
  lemma CallMeans(w: World, x: Mutation, io: Io, text: string)
    requires w.process.Up? && w.process.phase.Idle? && Enabled(w.process.mem, x)
    ensures var v := Call(w, x, io, text);
            && v.process == Up(Apply(w.process.mem, x), Idle) && v.memLog == w.memLog + [x]
            && v.ackLog == (if Acknowledged(x, io) then v.memLog else w.ackLog)
            && v.secretLog == (if io.secrets then v.memLog else w.secretLog)
            && v.stateLog == (if io.secrets && io.state then v.memLog else w.stateLog)
  {
  }

  // ----- calls that return an error ---------------------------------------------------------

  /** A method of the store refuses before it changes anything, or makes one call. */
  function Outcome(w: World, c: Option<Mutation>, io: Io, text: string): World {
    if c.None? then w else Call(w, c.value, io, text)
  }

  predicate ReturnsError(c: Option<Mutation>, io: Io) { c.Some? ==> !Acknowledged(c.value, io) }

  /** "An error means that nothing changed" holds exactly for the calls that were refused. */
  lemma ErrorMeansNoEffectExactlyWhenRefused(w: World, c: Option<Mutation>, io: Io, text: string)
    requires w.process.Up? && w.process.phase.Idle? && (c.Some? ==> Enabled(w.process.mem, c.value))
    requires ReturnsError(c, io)
    ensures Outcome(w, c, io, text).process.Up?
    ensures Outcome(w, c, io, text).process.mem == w.process.mem <==> c.None?
    ensures Outcome(w, c, io, text).ackLog == w.ackLog
  {
    if c.Some? {
      CallMeans(w, c.value, io, text);
      assert Apply(w.process.mem, c.value).doc.revision != w.process.mem.doc.revision;
    }
  }

  /** Whether the two files load after a call: a write of secrets.json decides it anew, by what the write of
      state.json then does; without it they load exactly as before. */
  lemma FilesLoadAfterCall(w: World, x: Mutation, io: Io, text: string)
    requires Inv(w) && |w.memLog| + 2 < WRAP
    requires w.process.Up? && w.process.phase.Idle? && Enabled(w.process.mem, x)
    ensures Load(Call(w, x, io, text).files).Some? <==> if io.secrets then io.state else Load(w.files).Some?
    ensures Load(Call(w, x, io, text).files).Some? ==>
              Load(Call(w, x, io, text).files) == if io.secrets then Some(Apply(w.process.mem, x)) else Load(w.files)
  {
    var v := Call(w, x, io, text);
    CallKeeps(w, x, io, text);
    CallMeans(w, x, io, text);
    LoadMeans(w);
    LoadMeans(v);
    assert |v.secretLog| == if io.secrets then |w.memLog| + 1 else |w.secretLog|;
  }

  lemma CallKeeps(w: World, x: Mutation, io: Io, text: string)
    requires Inv(w)
    ensures Inv(Call(w, x, io, text))
  {
    BeginKeeps(w, x);
    var b := Began(w, x);
    SecretsWriteKeeps(b, io.secrets);
    var c := WroteSecrets(b, io.secrets);
    StateWriteKeeps(c, io.state);
    var d := WroteState(c, io.state);
    BootstrapWriteKeeps(d, io.bootstrap, text);
    BootstrapRemovalKeeps(WroteBootstrap(d, io.bootstrap, text), io.remove);
  }

  /** A call that returned an error is not undone: after any further steps of the same process the next call
      that is acknowledged makes its change durable as well, for every later reopening, with all changes before. */
  lemma FailedCallIsMadeDurable(steps: seq<Step>, x: Mutation, io: Io, text: string, more: seq<Step>,
                                y: Mutation, io2: Io, text2: string, later: seq<Step>)
    requires |steps| + |more| + |later| + 11 < WRAP && !Acknowledged(x, io) && Acknowledged(y, io2) && NoCrash(more, 0)
    requires Exec(steps).process.Up? && Exec(steps).process.phase.Idle? && Enabled(Exec(steps).process.mem, x)
    requires var p := Exec(steps + Script(x, io, text) + more).process; p.Up? && p.phase.Idle? && Enabled(p.mem, y)
    ensures var acknowledged := Exec(steps + Script(x, io, text) + more + Script(y, io2, text2));
            var end := Exec(steps + Script(x, io, text) + more + Script(y, io2, text2) + later);
            && Exec(steps).memLog + [x] <= acknowledged.stateLog <= end.stateLog
            && acknowledged.process.Up? && Load(acknowledged.files) == Some(acknowledged.process.mem)
            && (Load(end.files).Some? ==> Load(end.files).value == MemoryOf(end.stateLog))
  {
    var called := steps + Script(x, io, text);
    var ready := called + more;
    var done := ready + Script(y, io2, text2);
    CallIsRun(steps, x, io, text);
    CallMeans(Exec(steps), x, io, text);
    assert ready[..|called|] == called;
    SameProcessGrows(ready, |called|);
    CallIsRun(ready, y, io2, text2);
    CallMeans(Exec(ready), y, io2, text2);
    RunKeeps(done);
    LoadMeans(Exec(done));
    assert (done + later)[..|done|] == done;
    RunGrows(done + later, |done|);
    RunKeeps(done + later);
    LoadMeans(Exec(done + later));
  }

  // ----- the changes of the methods ---------------------------------------------------------

  /** The change that a call of CreateUser makes, None when it is refused. */
  function CreateMutation(prf: Password.Prf, m: Memory, username: string, password: Bytes, role: Role,
                          salt: Bytes, now: int): Option<Mutation> {
    var name := NormalizeUsername(username);
    if name.None? || role.Unknown? then None
    else
      var hash := Password.HashPassword(prf, password, salt);
      if hash.None? || name.value in m.doc.users then None
      else Some(Create(name.value, hash.value, role, now))
  }

  function ChangeMutation(prf: Password.Prf, m: Memory, username: string, before: Bytes, after: Bytes,
                          salt: Bytes, now: int): Option<Mutation> {
    var name := NormalizeUsername(username);
    var hash := Password.HashPassword(prf, after, salt);
    if name.None? || hash.None? || name.value !in m.doc.users || m.doc.users[name.value].blocked then None
    else if name.value !in m.secrets.passwords || !Password.VerifyPassword(prf, before, m.secrets.passwords[name.value])
        then None
    else Some(Change(name.value, hash.value, now))
  }

  function BlockMutation(m: Memory, username: string, blocked: bool): Option<Mutation> {
    var name := NormalizeUsername(username);
    if name.None? || name.value !in m.doc.users then None
    else if m.doc.users[name.value].role == Admin && blocked && |ActiveAdmins(m.doc.users)| <= 1 then None
    else Some(Block(name.value, blocked))
  }

  /** A change that is not refused is one the machine can begin. */
  lemma MutationsAreEnabled(prf: Password.Prf, m: Memory, username: string, before: Bytes, password: Bytes, role: Role,
                            salt: Bytes, now: int)
    ensures var c := CreateMutation(prf, m, username, password, role, salt, now); c.Some? ==> Enabled(m, c.value)
    ensures var c := ChangeMutation(prf, m, username, before, password, salt, now); c.Some? ==> Enabled(m, c.value)
  {
    NormalizedIsUsername(username);
  }

  lemma BlockIsEnabled(m: Memory, username: string, blocked: bool)
    ensures var b := BlockMutation(m, username, blocked); b.Some? ==> Enabled(m, b.value)
  {
    NormalizedIsUsername(username);
  }

  lemma NormalizedIsUsername(username: string)
    ensures var name := NormalizeUsername(username); name.Some? ==> Username(name.value)
  {
  }

  predicate IsActive(users: map<string, User>, name: string) {
    name in users && users[name].role == Admin && !users[name].blocked
  }

  lemma MoreThanOne(names: set<string>)
    ensures |names| > 1 <==> exists a, b :: a in names && b in names && a != b
  {
    if a, b :| a in names && b in names && a != b {
      assert |names - {a}| == |names| - 1 && b in names - {a};
    }
    if |names| > 1 {
      var a :| a in names;
      assert |names - {a}| == |names| - 1;
      var b :| b in names - {a};
    }
  }

  /** Which calls are refused, and what the others change. An administrator is not blocked unless two
      administrators are active. */
  lemma RefusedExactly(prf: Password.Prf, m: Memory, username: string, before: Bytes, password: Bytes, role: Role,
                       blocked: bool, salt: Bytes, now: int)
    ensures var (name, x) := (Canonical(username), CreateMutation(prf, m, username, password, role, salt, now));
            && (x.Some? <==> Username(name) && !role.Unknown? && 12 <= |password| <= 1024 && name !in m.doc.users)
            && (x.Some? ==> x.value == Create(name, Password.HashPassword(prf, password, salt).value, role, now))
    ensures var (name, x) := (Canonical(username), ChangeMutation(prf, m, username, before, password, salt, now));
            && (x.Some? <==>
                  && Username(name) && 12 <= |password| <= 1024 && name in m.doc.users && !m.doc.users[name].blocked
                  && name in m.secrets.passwords && Password.VerifyPassword(prf, before, m.secrets.passwords[name]))
            && (x.Some? ==> x.value == Change(name, Password.HashPassword(prf, password, salt).value, now))
    ensures var (name, x) := (Canonical(username), BlockMutation(m, username, blocked));
            && (x.Some? <==>
                  && Username(name) && name in m.doc.users
                  && (m.doc.users[name].role == Admin && blocked ==>
                        exists a, b :: a != b && IsActive(m.doc.users, a) && IsActive(m.doc.users, b)))
            && (x.Some? ==> x.value == Block(name, blocked))
  {
    MoreThanOne(ActiveAdmins(m.doc.users));
    assert forall a :: a in ActiveAdmins(m.doc.users) <==> IsActive(m.doc.users, a);
  }

  /** The state directory. */
  class Directory {
    var state: Option<Document>
    var secrets: Option<SecretDocument>
    var bootstrap: Option<string>
    ghost var secretLog: seq<Mutation>
    ghost var stateLog: seq<Mutation>
    ghost var ackLog: seq<Mutation>

    constructor ()
      ensures Found([]) == INIT.(process := Down)
    {
      state, secrets, bootstrap := None, None, None;
      secretLog, stateLog, ackLog := [], [], [];
    }

    function Contents(): Files
      reads this
    {
      Files(state, secrets, bootstrap)
    }

    /** The world without a process; `memLog` is the log of the last one. */
    ghost function Found(memLog: seq<Mutation>): World
      reads this
    {
      World(Down, Contents(), memLog, secretLog, stateLog, ackLog)
    }
  }

  datatype BootstrapResult = Failed | Skipped | Created(password: Bytes)

  class Store {
    const dir: Directory
    var doc: Document
    var secrets: SecretDocument
    ghost var memLog: seq<Mutation>

    constructor (dir: Directory, m: Memory, ghost log: seq<Mutation>)
      ensures this.dir == dir && Mem() == m && memLog == log
    {
      this.dir, this.doc, this.secrets, this.memLog := dir, m.doc, m.secrets, log;
    }

    function Mem(): Memory
      reads this
    {
      Memory(doc, secrets)
    }

    /** The world between two calls of this process. */
    ghost function View(): World
      reads this, dir
    {
      World(Up(Mem(), Idle), dir.Contents(), memLog, dir.secretLog, dir.stateLog, dir.ackLog)
    }

    /** `readable` is false when a file exists and cannot be read or decoded. */
    static method Open(dir: Directory, readable: bool) returns (r: Option<Store>)
      ensures r.Some? <==> readable && Load(dir.Contents()).Some?
      ensures r.Some? ==> fresh(r.value) && r.value.dir == dir
      ensures r.Some? ==> forall log :: r.value.View() == Reopened(dir.Found(log))
    {
      if !readable { return None; }
      var m := Load(dir.Contents());
      if m.None? { return None; }
      var store := new Store(dir, m.value, dir.stateLog);
      return Some(store);
    }

    /** persistLocked, after the change of `x` in memory. */
    method PersistLocked(ghost x: Mutation, io: Io) returns (ok: bool)
      modifies this`secrets, dir
      ensures ok == (io.secrets && io.state)
      ensures secrets == old(secrets).(revision := doc.revision)
      ensures dir.secrets == (if io.secrets then Some(secrets) else old(dir.secrets))
      ensures dir.state == (if ok then Some(doc) else old(dir.state))
      ensures dir.secretLog == (if io.secrets then memLog else old(dir.secretLog))
      ensures dir.stateLog == (if ok then memLog else old(dir.stateLog))
      ensures dir.ackLog == (if ok && !x.Bootstrap? then memLog else old(dir.ackLog))
      ensures dir.bootstrap == old(dir.bootstrap)
    {
      secrets := secrets.(revision := doc.revision);
      if !io.secrets { return false; }
      dir.secrets := Some(secrets);
      dir.secretLog := memLog;
      if !io.state { return false; }
      dir.state := Some(doc);
      dir.stateLog := memLog;
      if !x.Bootstrap? { dir.ackLog := memLog; }
      return true;
    }

    /** The changes of one call to the maps, the revision and the files. */
    method Commit(x: Mutation, user: User, io: Io) returns (ok: bool)
      requires Enabled(Mem(), x) && user == ChangedUser(Mem(), x) && !x.Bootstrap? && !x.Change?
      modifies this, dir
      ensures View() == Call(old(View()), x, io, "")
      ensures ok <==> Acknowledged(x, io)
    {
      doc := doc.(users := doc.users[x.username := user]);
      if !x.Block? { secrets := secrets.(passwords := secrets.passwords[x.username := x.hash]); }
      doc := doc.(revision := (doc.revision + 1) % WRAP);
      memLog := memLog + [x];
      ok := PersistLocked(x, io);
    }

    method CreateUser(prf: Password.Prf, username: string, password: Bytes, role: Role, salt: Bytes, now: int, io: Io)
      returns (r: Option<User>)
      modifies this, dir
      ensures var x := CreateMutation(prf, old(Mem()), username, password, role, salt, now);
              && (x.None? ==> View() == old(View()) && r.None?)
              && (x.Some? ==> View() == Call(old(View()), x.value, io, ""))
              && (x.Some? ==> r == if Acknowledged(x.value, io) then Some(ChangedUser(old(Mem()), x.value)) else None)
      ensures r.Some? ==>
                && r.value == User(Canonical(username), role, false, false, now, now)
                && doc.users == old(doc.users)[Canonical(username) := r.value]
                && secrets.passwords ==
                     old(secrets.passwords)[Canonical(username) := Password.HashPassword(prf, password, salt).value]
    {
      var name := NormalizeUsername(username);
      if name.None? { return None; }
      if role != Admin && role != Viewer { return None; }
      var hash := Password.HashPassword(prf, password, salt);
      if hash.None? { return None; }
      if name.value in doc.users { return None; }
      var x := Create(name.value, hash.value, role, now);
      var user := User(name.value, role, false, false, now, now);
      var ok := Commit(x, user, io);
      CallMeans(old(View()), x, io, "");
      if !ok { return None; }
      return Some(user);
    }

    /** The counting loop of SetBlocked, over the map in any order. */
    method CountActiveAdmins() returns (n: nat)
      ensures n == |ActiveAdmins(doc.users)| == |set name | name in doc.users && IsActive(doc.users, name)|
    {
      var rest := doc.users.Keys;
      n := 0;
      ghost var counted: set<string> := {};
      while rest != {}
        invariant rest <= doc.users.Keys
        invariant counted == set name | name in ActiveAdmins(doc.users) && name !in rest
        invariant n == |counted|
        decreases rest
      {
        var name :| name in rest;
        rest := rest - {name};
        if doc.users[name].role == Admin && !doc.users[name].blocked {
          n := n + 1;
          counted := counted + {name};
        }
      }
      assert counted == ActiveAdmins(doc.users);
      assert counted == set name | name in doc.users && IsActive(doc.users, name);
    }

    method SetBlocked(username: string, blocked: bool, io: Io) returns (r: Option<User>)
      modifies this, dir
      ensures var x := BlockMutation(old(Mem()), username, blocked);
              && (x.None? ==> View() == old(View()) && r.None?)
              && (x.Some? ==> View() == Call(old(View()), x.value, io, ""))
              && (x.Some? ==> r == if Acknowledged(x.value, io) then Some(ChangedUser(old(Mem()), x.value)) else None)
      ensures r.Some? ==>
                && Canonical(username) in old(doc.users)
                && r.value == old(doc.users)[Canonical(username)].(blocked := blocked)
                && doc.users == old(doc.users)[Canonical(username) := r.value]
                && secrets.passwords == old(secrets.passwords)
    {
      var name := NormalizeUsername(username);
      if name.None? { return None; }
      if name.value !in doc.users { return None; }
      var u := doc.users[name.value];
      if u.role == Admin && blocked {
        var activeAdmins := CountActiveAdmins();
        if activeAdmins <= 1 { return None; }
      }
      u := u.(blocked := blocked);
      var x := Block(name.value, blocked);
      assert BlockMutation(Mem(), username, blocked) == Some(x);
      BlockIsEnabled(Mem(), username, blocked);
      var ok := Commit(x, u, io);
      CallMeans(old(View()), x, io, "");
      if !ok { return None; }
      return Some(u);
    }

    method ChangePassword(prf: Password.Prf, username: string, before: Bytes, after: Bytes, salt: Bytes, now: int,
                          io: Io)
      returns (ok: bool)
      modifies this, dir
      ensures var x := ChangeMutation(prf, old(Mem()), username, before, after, salt, now);
              && (x.None? ==> View() == old(View()) && !ok)
              && (x.Some? ==> View() == Call(old(View()), x.value, io, ""))
              && (x.Some? ==> (ok <==> Acknowledged(x.value, io)))
      ensures ok ==>
                var name := Canonical(username);
                && name in old(doc.users) && name in old(secrets.passwords)
                && Password.VerifyPassword(prf, before, old(secrets.passwords)[name])
                && doc.users == old(doc.users)
                     [name := old(doc.users)[name].(mustChangePassword := false, passwordChangedAt := now)]
                && secrets.passwords ==
                     old(secrets.passwords)[name := Password.HashPassword(prf, after, salt).value]
    {
      var name := NormalizeUsername(username);
      if name.None? { return false; }
      var hash := Password.HashPassword(prf, after, salt);
      if hash.None? { return false; }
      if name.value !in doc.users { return false; }
      var u := doc.users[name.value];
      if u.blocked || name.value !in secrets.passwords { return false; }
      if !Password.VerifyPassword(prf, before, secrets.passwords[name.value]) { return false; }
      var x := Change(name.value, hash.value, now);
      ok := CommitPassword(x, u, io);
      CallMeans(old(View()), x, io, "");
    }

    method CommitPassword(x: Mutation, u: User, io: Io) returns (ok: bool)
      requires x.Change? && Enabled(Mem(), x) && u == doc.users[x.username]
      modifies this, dir
      ensures View() == Call(old(View()), x, io, "")
      ensures ok <==> Acknowledged(x, io)
    {
      secrets := secrets.(passwords := secrets.passwords[x.username := x.hash]);
      doc := doc.(users := doc.users[x.username := u.(mustChangePassword := false, passwordChangedAt := x.now)]);
      doc := doc.(revision := (doc.revision + 1) % WRAP);
      memLog := memLog + [x];
      ok := PersistLocked(x, io);
      if ok && io.remove { dir.bootstrap := None; }
    }

    method BootstrapAdmin(prf: Password.Prf, username: string, password: Bytes, salt: Bytes, now: int, io: Io)
      returns (r: BootstrapResult)
      requires Password.ValidPassword(password)
      modifies this, dir
      ensures var name := NormalizeUsername(username);
              && (name.None? ==> View() == old(View()) && r == Failed)
              && (name.Some? && old(doc.users) != map[] ==> View() == old(View()) && r == Skipped)
              && (name.Some? && old(doc.users) == map[] ==>
                    var x := Bootstrap(name.value, Password.HashPassword(prf, password, salt).value, now);
                    && View() == Call(old(View()), x, io, BootstrapText(name.value, password))
                    && r == if Acknowledged(x, io) then Created(password) else Failed)
      ensures r.Created? ==>
                && doc.users == map[Canonical(username) := User(Canonical(username), Admin, false, true, now, now)]
                && secrets.passwords ==
                     old(secrets.passwords)[Canonical(username) := Password.HashPassword(prf, password, salt).value]
                && dir.bootstrap == Some(BootstrapText(Canonical(username), password))
    {
      var name := NormalizeUsername(username);
      if name.None? { return Failed; }
      if |doc.users| != 0 { return Skipped; }
      assert doc.users == map[];
      var x := Bootstrap(name.value, Password.HashPassword(prf, password, salt).value, now);
      var ok := CommitBootstrap(x, BootstrapText(name.value, password), io);
      CallMeans(old(View()), x, io, BootstrapText(name.value, password));
      if !ok { return Failed; }
      return Created(password);
    }

    method CommitBootstrap(x: Mutation, text: string, io: Io) returns (ok: bool)
      requires x.Bootstrap? && Enabled(Mem(), x)
      modifies this, dir
      ensures View() == Call(old(View()), x, io, text)
      ensures ok <==> Acknowledged(x, io)
    {
      doc := doc.(users := doc.users[x.username := User(x.username, Admin, false, true, x.now, x.now)]);
      secrets := secrets.(passwords := secrets.passwords[x.username := x.hash]);
      doc := doc.(revision := (doc.revision + 1) % WRAP);
      memLog := memLog + [x];
      ok := PersistLocked(x, io);
      if !ok || !io.bootstrap { return false; }
      dir.bootstrap := Some(text);
      dir.ackLog := memLog;
    }

    method VerifyCredentials(prf: Password.Prf, username: string, password: Bytes) returns (r: Option<User>)
      ensures r == Credentials(prf, Mem(), username, password)
      ensures r.Some? <==>
                var name := Canonical(username);
                && Username(name) && name in doc.users && !doc.users[name].blocked && name in secrets.passwords
                && Password.VerifyPassword(prf, password, secrets.passwords[name])
      ensures r.Some? ==> r.value == doc.users[Canonical(username)]
    {
      CredentialsExactly(prf, Mem(), username, password);
      var name := NormalizeUsername(username);
      if name.None? { return None; }
      if name.value !in doc.users || doc.users[name.value].blocked { return None; }
      if name.value !in secrets.passwords || secrets.passwords[name.value] == "" { return None; }
      if !Password.VerifyPassword(prf, password, secrets.passwords[name.value]) { return None; }
      return Some(doc.users[name.value]);
    }

    /** Ready stops at the first active administrator that it meets. */
    method Ready() returns (ready: bool)
      ensures ready <==> exists name :: IsActive(doc.users, name)
    {
      var rest := doc.users.Keys;
      while rest != {}
        invariant rest <= doc.users.Keys
        invariant forall name :: IsActive(doc.users, name) ==> name in rest
        decreases rest
      {
        var name :| name in rest;
        if doc.users[name].role == Admin && !doc.users[name].blocked {
          assert IsActive(doc.users, name);
          return true;
        }
        rest := rest - {name};
      }
      return false;
    }
  }

  /** The text of bootstrap-admin.secret. */
  function BootstrapText(username: string, password: Bytes): string {
    "username=" + username + "\npassword="
    + seq(|password|, i requires 0 <= i < |password| => password[i] as char) + "\n"
  }

  function Characters(b: Bytes): string { seq(|b|, i requires 0 <= i < |b| => b[i] as char) }

  /** The bootstrap file has a line with the user and a line with the password, when the password is one line. */
  lemma BootstrapTextHasBoth(username: string, password: Bytes)
    requires '\n' !in username && '\n' as int !in password
    ensures Split(BootstrapText(username, password), '\n') ==
              ["username=" + username, "password=" + Characters(password), ""]
  {
    var first, second := "username=" + username, "password=" + Characters(password);
    assert '\n' !in first && '\n' !in second;
    JoinThree(first, second, "", '\n');
    assert BootstrapText(username, password) == first + ['\n'] + second + ['\n'] + "";
    SplitOfJoin([first, second, ""], '\n');
  }

  /** The changes after which an account may refuse the password it accepted before. */
  predicate Touches(x: Mutation, username: string) { x.username == username && (x.Change? || (x.Block? && x.blocked)) }

  predicate Untouched(log: seq<Mutation>, n: nat, username: string) {
    forall k :: n <= k < |log| ==> !Touches(log[k], username)
  }

  /** No other change reaches the account: its record and its hash stay as they are. */
  lemma {:induction false} AccountStays(p: seq<Mutation>, log: seq<Mutation>, username: string)
    requires ValidLog(log) && p <= log && Untouched(log, |p|, username)
    requires var m := MemoryOf(p);
             username in m.doc.users && !m.doc.users[username].blocked && username in m.secrets.passwords
    ensures var (m, n) := (MemoryOf(p), MemoryOf(log));
            && username in n.doc.users && n.doc.users[username] == m.doc.users[username]
            && username in n.secrets.passwords && n.secrets.passwords[username] == m.secrets.passwords[username]
    decreases |log|
  {
    if p == log {
    } else {
      var q, x := log[..|log| - 1], log[|log| - 1];
      assert p <= q;
      AccountStays(p, q, username);
      assert !Touches(x, username);
    }
  }

  /** While nothing touches the account, the password is accepted in the memory of every process that runs at the
      end, and in every store that an opening of the files restores. */
  predicate PasswordStays(prf: Password.Prf, called: World, end: World, x: Mutation, username: string,
                          password: Bytes)
  {
    && called.process.Up? && Credentials(prf, called.process.mem, username, password).Some?
    && called.memLog <= end.stateLog <= end.memLog
    && (end.process.Up? && Untouched(end.memLog, |called.memLog|, x.username) ==>
          Credentials(prf, end.process.mem, username, password).Some?)
    && (Load(end.files).Some? && Untouched(end.stateLog, |called.memLog|, x.username) ==>
          Credentials(prf, Load(end.files).value, username, password).Some?)
  }

  /** Once CreateUser was acknowledged its password is accepted, in this process and in all later ones, until the
      user's password is changed or the user is blocked. */
  lemma CreatedPasswordVerifies(prf: Password.Prf, steps: seq<Step>, more: seq<Step>, username: string, password: Bytes,
                                role: Role, salt: Bytes, now: int, io: Io)
    requires |steps| + 5 + |more| + 1 < WRAP && |salt| == Password.SALT_BYTES
    requires Exec(steps).process.Up? && Exec(steps).process.phase.Idle?
    requires CreateMutation(prf, Exec(steps).process.mem, username, password, role, salt, now).Some?
    requires io.secrets && io.state
    ensures var x := CreateMutation(prf, Exec(steps).process.mem, username, password, role, salt, now).value;
            var called := Exec(steps + Script(x, io, ""));
            PasswordStays(prf, called, Exec(steps + Script(x, io, "") + more), x, username, password)
  {
    var mem := Exec(steps).process.mem;
    var x := CreateMutation(prf, mem, username, password, role, salt, now).value;
    StoredPasswordVerifies(prf, mem, x, username, password, salt);
    AcknowledgedAccountStays(prf, steps, more, x, io, "", username, password);
  }

  /** The same for an acknowledged ChangePassword. */
  lemma ChangedPasswordVerifies(prf: Password.Prf, steps: seq<Step>, more: seq<Step>, username: string, before: Bytes,
                                after: Bytes, salt: Bytes, now: int, io: Io)
    requires |steps| + 5 + |more| + 1 < WRAP && |salt| == Password.SALT_BYTES
    requires Exec(steps).process.Up? && Exec(steps).process.phase.Idle?
    requires ChangeMutation(prf, Exec(steps).process.mem, username, before, after, salt, now).Some?
    requires io.secrets && io.state
    ensures var x := ChangeMutation(prf, Exec(steps).process.mem, username, before, after, salt, now).value;
            var called := Exec(steps + Script(x, io, ""));
            PasswordStays(prf, called, Exec(steps + Script(x, io, "") + more), x, username, after)
  {
    var mem := Exec(steps).process.mem;
    var x := ChangeMutation(prf, mem, username, before, after, salt, now).value;
    StoredPasswordVerifies(prf, mem, x, username, after, salt);
    AcknowledgedAccountStays(prf, steps, more, x, io, "", username, after);
  }

  /** The same for an acknowledged BootstrapAdmin, whose password is the one in the bootstrap file. */
  lemma BootstrapPasswordVerifies(prf: Password.Prf, steps: seq<Step>, more: seq<Step>, username: string,
                                  password: Bytes, salt: Bytes, now: int, io: Io)
    requires |steps| + 5 + |more| + 1 < WRAP && |salt| == Password.SALT_BYTES && Password.ValidPassword(password)
    requires Exec(steps).process.Up? && Exec(steps).process.phase.Idle? && Exec(steps).process.mem.doc.users == map[]
    requires NormalizeUsername(username).Some? && io.secrets && io.state && io.bootstrap
    ensures var name := NormalizeUsername(username).value;
            var x := Bootstrap(name, Password.HashPassword(prf, password, salt).value, now);
            var script := Script(x, io, BootstrapText(name, password));
            && Exec(steps + script).files.bootstrap == Some(BootstrapText(name, password))
            && PasswordStays(prf, Exec(steps + script), Exec(steps + script + more), x, username, password)
  {
    var mem, name := Exec(steps).process.mem, NormalizeUsername(username).value;
    var x := Bootstrap(name, Password.HashPassword(prf, password, salt).value, now);
    CallIsRun(steps, x, io, BootstrapText(name, password));
    StoredPasswordVerifies(prf, mem, x, username, password, salt);
    AcknowledgedAccountStays(prf, steps, more, x, io, BootstrapText(name, password), username, password);
  }

  /** An account that an acknowledged call left, with a password that it accepts, accepts it while nothing
      touches it. */
  lemma AcknowledgedAccountStays(prf: Password.Prf, steps: seq<Step>, more: seq<Step>, x: Mutation, io: Io,
                                 text: string, username: string, password: Bytes)
    requires |steps| + 5 + |more| + 1 < WRAP
    requires Exec(steps).process.Up? && Exec(steps).process.phase.Idle? && Enabled(Exec(steps).process.mem, x)
    requires Acknowledged(x, io) && NormalizeUsername(username) == Some(x.username)
    requires Credentials(prf, Apply(Exec(steps).process.mem, x), username, password).Some?
    ensures var called := Exec(steps + Script(x, io, text));
            PasswordStays(prf, called, Exec(steps + Script(x, io, text) + more), x, username, password)
  {
    var all, n := steps + Script(x, io, text) + more, |steps| + 5;
    var called, end := Exec(steps + Script(x, io, text)), Exec(all);
    CallMeans(Exec(steps), x, io, text);
    CallIsRun(steps, x, io, text);
    assert all[..n] == steps + Script(x, io, text);
    RunGrows(all, n);
    RunIsOrdered(all);
    RunKeeps(all[..n]);
    RunKeeps(all);
    LoadMeans(end);
    MemoryAccepts(prf, called.memLog, end.memLog, x, username, password);
    MemoryAccepts(prf, called.memLog, end.stateLog, x, username, password);
  }

  lemma MemoryAccepts(prf: Password.Prf, p: seq<Mutation>, log: seq<Mutation>, x: Mutation, username: string,
                      password: Bytes)
    requires ValidLog(log) && p <= log && NormalizeUsername(username) == Some(x.username)
    requires Credentials(prf, MemoryOf(p), username, password).Some?
    ensures Untouched(log, |p|, x.username) ==> Credentials(prf, MemoryOf(log), username, password).Some?
  {
    if Untouched(log, |p|, x.username) { AccountStays(p, log, x.username); }
  }

  /** "The bootstrap file is removed after the first successful password change" holds of an acknowledged change
      exactly when the removal succeeds, or the file was gone; the change may be of any user, and the file then
      stays away for good. */
  lemma ChangeRemovesBootstrapExactly(steps: seq<Step>, more: seq<Step>, x: Mutation, io: Io, text: string)
    requires |steps| + 5 + |more| + 1 < WRAP
    requires Exec(steps).process.Up? && Exec(steps).process.phase.Idle? && Enabled(Exec(steps).process.mem, x)
    requires x.Change? && Acknowledged(x, io)
    ensures var called := Exec(steps + Script(x, io, text));
            && (called.files.bootstrap.None? <==> io.remove || Exec(steps).files.bootstrap.None?)
            && (called.files.bootstrap.None? ==> Exec(steps + Script(x, io, text) + more).files.bootstrap.None?)
  {
    var all, n := steps + Script(x, io, text) + more, |steps| + 5;
    CallMeans(Exec(steps), x, io, text);
    CallIsRun(steps, x, io, text);
    assert all[..n] == steps + Script(x, io, text);
    SettledRun(all, n);
  }

  /** In every process of every run, with hashes that HashPassword printed: VerifyCredentials accepts a password
      exactly when the last block or unblock of the user left it unblocked and the password derives the key of the
      one that its last bootstrap, creation or change stored. */
  lemma PasswordIsChecked(prf: Password.Prf, steps: seq<Step>, username: string, password: Bytes, k: nat, secret: Bytes,
                          salt: Bytes)
    requires |steps| + 1 < WRAP && Exec(steps).process.Up? && NormalizeUsername(username).Some?
    requires LastPassword(Exec(steps).memLog, k, NormalizeUsername(username).value)
    requires |salt| == Password.SALT_BYTES
    requires Password.HashPassword(prf, secret, salt) == Some(Exec(steps).memLog[k].hash)
    ensures Credentials(prf, Exec(steps).process.mem, username, password).Some? <==>
              && !BlockedIn(Exec(steps).memLog, NormalizeUsername(username).value)
              && Password.DerivedKey(prf, password, salt, 600000, 32)
                   == Password.DerivedKey(prf, secret, salt, 600000, 32)
  {
    RunKeeps(steps);
    AcceptedExactly(prf, Exec(steps).memLog, username, password, k, secret, salt);
  }
}
