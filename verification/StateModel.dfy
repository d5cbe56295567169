/** internal/state/store.go: the two documents, what each mutation does to them, and what every
    sequence of mutations keeps. */
module StateModel {
  import opened Text
  import opened Octets
  import Password

  const SCHEMA: int := 1

  /** Revisions are uint64. */
  const WRAP: nat := 0x1_0000_0000_0000_0000

  datatype Role = Admin | Viewer | Unknown(text: string)

  datatype User = User(username: string, role: Role, blocked: bool, mustChangePassword: bool,
                       createdAt: int, passwordChangedAt: int)

  datatype Document = Document(schema: int, revision: nat, users: map<string, User>)

  datatype SecretDocument = SecretDocument(schema: int, revision: nat, passwords: map<string, string>)

  datatype Memory = Memory(doc: Document, secrets: SecretDocument)

  /** What Open starts from when a file does not exist. */
  const EMPTY := Memory(Document(SCHEMA, 1, map[]), SecretDocument(SCHEMA, 1, map[]))

  // ----- user names (ASCII) -----------------------------------------------------------------

  predicate Space(c: char) { c == ' ' || c == '\t' || c == '\n' || c == '\r' || c == 11 as char || c == 12 as char }

  function TrimLeft(s: string): string {
    if s != [] && Space(s[0]) then TrimLeft(s[1..]) else s
  }

  function TrimRight(s: string): string {
    if s != [] && Space(s[|s| - 1]) then TrimRight(s[..|s| - 1]) else s
  }

  function Lower(c: char): char { if 'A' <= c <= 'Z' then (c as int + 32) as char else c }

  function ToLower(s: string): string { seq(|s|, i requires 0 <= i < |s| => Lower(s[i])) }

  /** ^[a-z][a-z0-9._-]{2,63}$ */
  predicate Username(s: string) {
    && 3 <= |s| <= 64
    && 'a' <= s[0] <= 'z'
    && forall i :: 1 <= i < |s| ==> 'a' <= s[i] <= 'z' || IsDigit(s[i]) || s[i] == '.' || s[i] == '_' || s[i] == '-'
  }

  /** strings.ToLower(strings.TrimSpace(username)), as the HTTP handlers also compute it. */
  function Canonical(username: string): string { ToLower(TrimRight(TrimLeft(username))) }

  function NormalizeUsername(username: string): Option<string> {
    if Username(Canonical(username)) then Some(Canonical(username)) else None
  }

  /** A name that satisfies the pattern is its own normal form. */
  lemma UsernameIsNormalized(s: string)
    requires Username(s)
    ensures NormalizeUsername(s) == Some(s)
  {
    assert !Space(s[0]) && !Space(s[|s| - 1]);
    assert ToLower(s) == s;
  }

  /** A normalized name is normalized again to itself. */
  lemma NormalizeIsIdempotent(username: string)
    requires NormalizeUsername(username).Some?
    ensures NormalizeUsername(NormalizeUsername(username).value) == NormalizeUsername(username)
  {
    UsernameIsNormalized(Canonical(username));
  }

  // ----- mutations --------------------------------------------------------------------------

  datatype Mutation =
    | Bootstrap(username: string, hash: string, now: int)
    | Create(username: string, hash: string, role: Role, now: int)
    | Change(username: string, hash: string, now: int)
    | Block(username: string, blocked: bool)

  predicate ActiveAdmin(users: map<string, User>, name: string) {
    name in users && users[name].role == Admin && !users[name].blocked
  }

  function ActiveAdmins(users: map<string, User>): set<string> {
    set name | name in users && ActiveAdmin(users, name)
  }

  /** The checks that precede the change. */
  predicate Enabled(m: Memory, x: Mutation) {
    && Username(x.username)
    && match x
       case Bootstrap(_, _, _) => m.doc.users == map[]
       case Create(name, _, role, _) => name !in m.doc.users && !role.Unknown?
       case Change(name, _, _) => name in m.doc.users && !m.doc.users[name].blocked
       case Block(name, blocked) =>
         && name in m.doc.users
         && (m.doc.users[name].role == Admin && blocked ==> |ActiveAdmins(m.doc.users)| > 1)
  }

  function ChangedUser(m: Memory, x: Mutation): User
    requires Enabled(m, x)
  {
    match x
    case Bootstrap(name, _, now) => User(name, Admin, false, true, now, now)
    case Create(name, _, role, now) => User(name, role, false, false, now, now)
    case Change(name, _, now) => m.doc.users[name].(mustChangePassword := false, passwordChangedAt := now)
    case Block(name, blocked) => m.doc.users[name].(blocked := blocked)
  }

  /** The change in memory, with the revision of both documents. */
  function Apply(m: Memory, x: Mutation): Memory
    requires Enabled(m, x)
  {
    var revision := (m.doc.revision + 1) % WRAP;
    Memory(
      m.doc.(users := m.doc.users[x.username := ChangedUser(m, x)], revision := revision),
      m.secrets.(passwords := if x.Block? then m.secrets.passwords else m.secrets.passwords[x.username := x.hash],
                 revision := revision))
  }

  /** The memory that a sequence of mutations builds from nothing. */
  function MemoryOf(log: seq<Mutation>): Memory {
    if log == [] then EMPTY
    else
      var m := MemoryOf(log[..|log| - 1]);
      if Enabled(m, log[|log| - 1]) then Apply(m, log[|log| - 1]) else m
  }

  /** Every mutation of the sequence passed its checks. */
  predicate ValidLog(log: seq<Mutation>) {
    log == [] || (ValidLog(log[..|log| - 1]) && Enabled(MemoryOf(log[..|log| - 1]), log[|log| - 1]))
  }

  function RevisionOf(log: seq<Mutation>): nat { (1 + |log|) % WRAP }

  lemma {:induction false} PrefixIsValid(p: seq<Mutation>, log: seq<Mutation>)
    requires ValidLog(log) && p <= log
    ensures ValidLog(p)
    decreases |log|
  {
    if p != log {
      assert p <= log[..|log| - 1];
      PrefixIsValid(p, log[..|log| - 1]);
    } else {
      assert p == log;
    }
  }

  lemma {:induction false} RevisionCounts(log: seq<Mutation>)
    requires ValidLog(log)
    ensures MemoryOf(log).doc.revision == MemoryOf(log).secrets.revision == RevisionOf(log)
    ensures MemoryOf(log).doc.schema == MemoryOf(log).secrets.schema == SCHEMA
    ensures |log| + 1 < WRAP ==> RevisionOf(log) == 1 + |log|
  {
    if log == [] {
    } else {
      RevisionCounts(log[..|log| - 1]);
    }
  }

  // ----- what every sequence of mutations keeps ----------------------------------------------

  /** Users and password hashes have the same keys, and each key is its record's normalized name. */
  predicate Consistent(m: Memory) {
    && m.doc.users.Keys == m.secrets.passwords.Keys
    && forall name :: name in m.doc.users ==>
        Username(name) && m.doc.users[name].username == name && !m.doc.users[name].role.Unknown?
  }

  lemma {:induction false} AccountsAreConsistent(log: seq<Mutation>)
    requires ValidLog(log)
    ensures Consistent(MemoryOf(log))
  {
    if log == [] {
    } else {
      AccountsAreConsistent(log[..|log| - 1]);
    }
  }

  predicate HasAdmin(m: Memory) { ActiveAdmins(m.doc.users) != {} }

  /** An active administrator is a user with the role of an administrator who is not blocked. */
  lemma HasAdminMeans(m: Memory)
    ensures HasAdmin(m) <==>
              exists name :: name in m.doc.users && m.doc.users[name].role == Admin && !m.doc.users[name].blocked
  {
    if HasAdmin(m) {
      var name :| name in ActiveAdmins(m.doc.users);
      assert m.doc.users[name].role == Admin;
    }
    if name :| name in m.doc.users && m.doc.users[name].role == Admin && !m.doc.users[name].blocked {
      assert name in ActiveAdmins(m.doc.users);
    }
  }

  /** No mutation removes the last active administrator: the count in SetBlocked is what makes this true. */
  lemma AdminStays(m: Memory, x: Mutation)
    requires Enabled(m, x) && HasAdmin(m)
    ensures HasAdmin(Apply(m, x))
  {
    var users, after := m.doc.users, Apply(m, x).doc.users;
    var admins := ActiveAdmins(users);
    var other :| other in admins;
    if other == x.username && x.Block? && x.blocked {
      assert |admins - {other}| == |admins| - 1;
      var another :| another in admins - {other};
      assert another in ActiveAdmins(after);
    } else if other == x.username {
      assert x.Block? || x.Change?;
      assert other in ActiveAdmins(after);
    } else {
      assert other in ActiveAdmins(after);
    }
  }

  /** Nor does any mutation remove a user. */
  lemma UsersStay(m: Memory, x: Mutation)
    requires Enabled(m, x)
    ensures m.doc.users.Keys <= Apply(m, x).doc.users.Keys
  {
  }

  lemma {:induction false} LaterLogKeeps(p: seq<Mutation>, log: seq<Mutation>)
    requires ValidLog(log) && p <= log
    ensures ValidLog(p)
    ensures MemoryOf(p).doc.users.Keys <= MemoryOf(log).doc.users.Keys
    ensures HasAdmin(MemoryOf(p)) ==> HasAdmin(MemoryOf(log))
    decreases |log|
  {
    PrefixIsValid(p, log);
    if p != log {
      var q := log[..|log| - 1];
      assert p <= q;
      LaterLogKeeps(p, q);
      UsersStay(MemoryOf(q), log[|log| - 1]);
      if HasAdmin(MemoryOf(p)) { AdminStays(MemoryOf(q), log[|log| - 1]); }
    } else {
      assert p == log;
    }
  }

  // ----- credentials ------------------------------------------------------------------------

  /** VerifyCredentials. */
  function Credentials(prf: Password.Prf, m: Memory, username: string, password: Bytes): Option<User> {
    var name := NormalizeUsername(username);
    if name.None? || name.value !in m.doc.users || m.doc.users[name.value].blocked then None
    else if name.value !in m.secrets.passwords || m.secrets.passwords[name.value] == "" then None
    else if Password.VerifyPassword(prf, password, m.secrets.passwords[name.value]) then Some(m.doc.users[name.value])
    else None
  }

  /** After a mutation that stores the hash of a password, that password is accepted for that user. */
  lemma StoredPasswordVerifies(prf: Password.Prf, m: Memory, x: Mutation, username: string, password: Bytes,
                               salt: Bytes)
    requires Enabled(m, x) && !x.Block? && NormalizeUsername(username) == Some(x.username)
    requires |salt| == Password.SALT_BYTES && Password.HashPassword(prf, password, salt) == Some(x.hash)
    ensures Credentials(prf, Apply(m, x), username, password) == Some(ChangedUser(m, x))
  {
    Password.HashThenVerify(prf, password, salt, password);
  }
}
