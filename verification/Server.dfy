/** internal/httpserver/server.go: the order in which the handlers use the limiter, the credentials and the
    sessions. Each handler is one atomic step and the clock does not go back. */
module Server {
  import opened Text
  import opened Octets
  import opened StateModel
  import opened StateStore
  import opened Accounts
  import opened Limiter
  import opened Sessions
  import Password

  datatype LoginResult = RateLimited | InvalidCredentials | NoToken | Welcome(session: Session)

  /** GetUser. */
  function UserOf(m: Memory, username: string): Option<User> {
    var name := NormalizeUsername(username);
    if name.None? || name.value !in m.doc.users then None else Some(m.doc.users[name.value])
  }

  /** When a request with a session cookie passes, and as whom. */
  ghost function Authenticated(events: seq<Event>, ttl: int, m: Memory, token: string, now: int)
    : Option<(Session, User)>
  {
    var s := if token == "" then None else SessionOf(events, ttl, token);
    if s.None? || now > s.value.expiresAt then None
    else
      var u := UserOf(m, s.value.username);
      if u.None? || u.value.blocked || u.value.role != s.value.role then None else Some((s.value, u.value))
  }

  /** The request presents an unexpired session whose user is gone, blocked or of another role. */
  ghost predicate Refused(events: seq<Event>, ttl: int, m: Memory, token: string, now: int) {
    && token != "" && SessionOf(events, ttl, token).Some? && now <= SessionOf(events, ttl, token).value.expiresAt
    && Authenticated(events, ttl, m, token, now).None?
  }

  /** hasPermission. */
  predicate Permits(role: Role, permission: string) {
    role == Admin || (role == Viewer && permission == "system.read")
  }

  predicate EqualFold(s: string, t: string) { ToLower(s) == ToLower(t) }

  class Server {
    const limiter: LoginLimiter
    const sessions: Manager
    const store: Store
    ghost var events: seq<Event>
    ghost var clock: int

    constructor (limiter: LoginLimiter, sessions: Manager, store: Store)
      requires sessions.sessions == map[] && forall s, t :: sessions.digest(s) == sessions.digest(t) ==> s == t
      ensures this.limiter == limiter && this.sessions == sessions && this.store == store
      ensures Valid() && events == []
    {
      this.limiter, this.sessions, this.store, events, clock := limiter, sessions, store, [], 0;
    }

    ghost predicate Valid()
      reads this, sessions
    {
      Agrees(sessions.sessions, sessions.digest, events, sessions.ttl, clock)
    }

    method Login(prf: Password.Prf, ip: string, username: string, password: Bytes, asked: int, answered: int,
                 token: Option<string>, csrf: string, now: int)
      returns (r: LoginResult)
      requires Valid()
      modifies this, limiter, sessions
      ensures Valid() && clock == old(clock)
      ensures var key := ip + "|" + Canonical(username);
              var u := Credentials(prf, store.Mem(), username, password);
              var admitted := Admits(old(limiter.Entry(key)), limiter.limit, asked);
              && limiter.Entry(key) == AfterAttempt(old(limiter.Entry(key)), limiter.limit, limiter.window,
                                                       Attempt(asked, answered, u.Some?))
              && (forall k :: k != key ==> limiter.Entry(k) == old(limiter.Entry(k)))
              && (r == RateLimited <==> !admitted)
              && (r == InvalidCredentials <==> admitted && u.None?)
              && (r.Welcome? <==> admitted && u.Some? && token.Some?)
              && (r.Welcome? ==>
                    events == old(events) + [LoggedIn(token.value, u.value.username, u.value.role, csrf, now)])
              && (!r.Welcome? ==> events == old(events))
      ensures r.Welcome? ==>
                var (name, m) := (Canonical(username), store.Mem());
                && name in m.doc.users && !m.doc.users[name].blocked && name in m.secrets.passwords
                && Password.VerifyPassword(prf, password, m.secrets.passwords[name])
    {
      var key := ip + "|" + Canonical(username);
      var admitted := limiter.Allowed(key, asked);
      if !admitted { return RateLimited; }
      var u := store.VerifyCredentials(prf, username, password);
      if u.None? {
        limiter.Failure(key, answered);
        return InvalidCredentials;
      }
      limiter.Success(key);
      if token.None? { return NoToken; }
      var s := CreateSession(u.value, token.value, csrf, now);
      return Welcome(s);
    }

    method CreateSession(u: User, token: string, csrf: string, now: int) returns (s: Session)
      requires Valid()
      modifies this, sessions
      ensures Valid() && clock == old(clock) && events == old(events) + [LoggedIn(token, u.username, u.role, csrf, now)]
      ensures SessionOf(events, sessions.ttl, token) == Some(s)
    {
      LoginAgrees(sessions.sessions, sessions.digest, events, sessions.ttl, clock, token, u.username, u.role,
                  csrf, now);
      s := sessions.Create(u, token, csrf, now);
      events := events + [LoggedIn(token, u.username, u.role, csrf, now)];
    }

    /** A request passes exactly when the history says so; a refused session of a known token is revoked. */
    method CurrentSession(token: string, now: int) returns (r: Option<(Session, User)>)
      requires Valid() && clock <= now
      modifies this, sessions
      ensures Valid() && clock == now
      ensures r == Authenticated(old(events), sessions.ttl, store.Mem(), token, now)
      ensures events == old(events) +
                (if Refused(old(events), sessions.ttl, store.Mem(), token, now) then [Rejected(token)] else [])
    {
      assert Holds(sessions.sessions, sessions.digest, events, sessions.ttl, clock, token);
      ExpiryAgrees(sessions.sessions, sessions.digest, events, sessions.ttl, clock, token, now);
      clock := now;
      var s := sessions.Lookup(token, now);
      if s.None? { return None; }
      var u := UserOf(store.Mem(), s.value.username);
      if u.None? || u.value.blocked || u.value.role != s.value.role {
        RevokeAgrees(sessions.sessions, sessions.digest, events, sessions.ttl, clock, Rejected(token));
        sessions.Revoke(token);
        events := events + [Rejected(token)];
        return None;
      }
      return Some((s.value, u.value));
    }

    /** requirePermission: a session, and a role that carries the permission. */
    method RequirePermission(token: string, permission: string, now: int) returns (r: Option<(Session, User)>)
      requires Valid() && clock <= now
      modifies this, sessions
      ensures Valid() && clock == now
      ensures var a := Authenticated(old(events), sessions.ttl, store.Mem(), token, now);
              r == if a.Some? && Permits(a.value.1.role, permission) then a else None
    {
      r := CurrentSession(token, now);
      if r.Some? && !Permits(r.value.1.role, permission) { return None; }
    }

    method Logout(token: string)
      requires Valid()
      modifies this, sessions
      ensures Valid() && clock == old(clock) && events == old(events) + [LoggedOut(token)]
    {
      RevokeAgrees(sessions.sessions, sessions.digest, events, sessions.ttl, clock, LoggedOut(token));
      sessions.Revoke(token);
      events := events + [LoggedOut(token)];
    }

    /** The revocation of the sessions of a user. */
    method EndSessions(username: string, ghost e: Event)
      requires Valid() && (e == PasswordChanged(username) || e == UserBlocked(username))
      modifies this, sessions
      ensures Valid() && clock == old(clock) && events == old(events) + [e]
    {
      RevokeUserAgrees(sessions.sessions, sessions.digest, events, sessions.ttl, clock, e);
      sessions.RevokeUser(username);
      events := events + [e];
    }

    /** The sessions are revoked after the change is durable, and only then. `u` is the user of the request,
        whose name is normalized like every name in the store. */
    method ChangePassword(prf: Password.Prf, u: User, before: Bytes, after: Bytes, salt: Bytes, now: int, io: Io)
      returns (ok: bool)
      requires Valid() && NormalizeUsername(u.username) == Some(u.username)
      modifies this, sessions, store, store.dir
      ensures Valid() && clock == old(clock)
      ensures events == (if ok then old(events) + [PasswordChanged(u.username)] else old(events))
      ensures var x := ChangeMutation(prf, old(store.Mem()), u.username, before, after, salt, now);
              && (ok <==> x.Some? && Acknowledged(x.value, io))
              && store.View() == if x.Some? then Call(old(store.View()), x.value, io, "") else old(store.View())
    {
      ok := store.ChangePassword(prf, u.username, before, after, salt, now, io);
      if !ok { return; }
      EndSessions(u.username, PasswordChanged(u.username));
    }

    method SetBlocked(actor: User, target: string, blocked: bool, io: Io) returns (r: Option<User>)
      requires Valid()
      modifies this, sessions, store, store.dir
      ensures Valid() && clock == old(clock)
      ensures events == (if r.Some? && blocked then old(events) + [UserBlocked(r.value.username)] else old(events))
      ensures EqualFold(target, actor.username) ==> r.None? && store.View() == old(store.View())
      ensures var x := BlockMutation(old(store.Mem()), target, blocked);
              && (r.Some? <==> !EqualFold(target, actor.username) && x.Some? && Acknowledged(x.value, io))
              && store.View() ==
                   if !EqualFold(target, actor.username) && x.Some? then Call(old(store.View()), x.value, io, "")
                   else old(store.View())
    {
      if EqualFold(target, actor.username) { return None; }
      r := store.SetBlocked(target, blocked, io);
      if r.None? || !blocked { return r; }
      EndSessions(r.value.username, UserBlocked(r.value.username));
    }
  }

  /** Who passes: the token came from a login of that user, after which no password change and no block of the
      user was acknowledged and the token was not logged out; it has not expired; and the user now exists, is
      not blocked and still has the role of the session. Nobody else passes. */
  lemma WhoPasses(events: seq<Event>, ttl: int, m: Memory, token: string, now: int, s: Session, u: User)
    requires token != ""
    ensures Authenticated(events, ttl, m, token, now) == Some((s, u)) <==>
              && (exists i :: LoginAt(events, ttl, token, s, i))
              && now <= s.expiresAt
              && UserOf(m, s.username) == Some(u) && !u.blocked && u.role == s.role
  {
    SessionsComeFromLogins(events, ttl, token, s);
  }

  /** What a change or block adds to the history of acknowledged events. */
  function EventsAfter(events: seq<Event>, x: Mutation, io: Io): seq<Event>
    requires x.Change? || x.Block?
  {
    if !Acknowledged(x, io) || (x.Block? && !x.blocked) then events
    else events + [if x.Change? then PasswordChanged(x.username) else UserBlocked(x.username)]
  }

  lemma EventEndsSession(events: seq<Event>, ttl: int, token: string, e: Event)
    requires SessionOf(events, ttl, token).Some? && Ends(e, token, SessionOf(events, ttl, token).value.username)
    requires !e.LoggedIn?
    ensures SessionOf(events + [e], ttl, token).None?
  {
    LastEvent(events, e);
  }

  /** "A password change revokes the user's sessions" holds of a call exactly when it is acknowledged: after a
      failed write the session passes as before, although the new password is the one that is accepted. */
  lemma ChangeEndsSessions(prf: Password.Prf, events: seq<Event>, ttl: int, m: Memory, token: string, now: int,
                           later: int, s: Session, u: User, x: Mutation, io: Io, password: Bytes, salt: Bytes)
    requires Authenticated(events, ttl, m, token, now) == Some((s, u)) && later <= s.expiresAt
    requires x.Change? && Enabled(m, x) && x.username == s.username
    ensures Authenticated(EventsAfter(events, x, io), ttl, Apply(m, x), token, later).Some? <==> !Acknowledged(x, io)
    ensures |salt| == Password.SALT_BYTES && Password.HashPassword(prf, password, salt) == Some(x.hash) ==>
              Credentials(prf, Apply(m, x), s.username, password).Some?
  {
    UsernameIsNormalized(x.username);
    if |salt| == Password.SALT_BYTES && Password.HashPassword(prf, password, salt) == Some(x.hash) {
      StoredPasswordVerifies(prf, m, x, s.username, password, salt);
    }
    if Acknowledged(x, io) { EventEndsSession(events, ttl, token, PasswordChanged(x.username)); }
  }

  predicate EndedIn(between: seq<Event>, token: string, username: string) {
    exists e :: e in between && Ends(e, token, username)
  }

  lemma OneMoreEnds(p: seq<Event>, e: Event, token: string, username: string)
    ensures EndedIn(p + [e], token, username) <==> EndedIn(p, token, username) || Ends(e, token, username)
  {
    assert e in p + [e];
    assert forall d :: d in p ==> d in p + [e];
  }

  lemma SessionAfterOneMore(events: seq<Event>, e: Event, ttl: int, token: string)
    requires SessionOf(events, ttl, token).Some? && (e.LoggedIn? ==> e.token != token)
    ensures var s := SessionOf(events, ttl, token);
            SessionOf(events + [e], ttl, token) == if Ends(e, token, s.value.username) then None else s
  {
    LastEvent(events, e);
  }

  /** What happened between two moments does not end the session of a token. */
  lemma {:induction false} SessionOutlives(events: seq<Event>, between: seq<Event>, ttl: int, token: string)
    requires SessionOf(events, ttl, token).Some?
    requires forall e :: e in between && e.LoggedIn? ==> e.token != token
    ensures var s := SessionOf(events, ttl, token);
            SessionOf(events + between, ttl, token) == if EndedIn(between, token, s.value.username) then None else s
  {
    if between == [] {
      assert events + between == events;
    } else {
      var n := |between| - 1;
      var p, e := between[..n], between[n];
      SessionOutlives(events, p, ttl, token);
      assert between == p + [e] && events + between == (events + p) + [e];
      OneMoreEnds(p, e, token, SessionOf(events, ttl, token).value.username);
      if SessionOf(events + p, ttl, token).Some? {
        SessionAfterOneMore(events + p, e, ttl, token);
      } else {
        LastEvent(events + p, e);
      }
    }
  }

  lemma {:induction false} EndedStaysEnded(events: seq<Event>, between: seq<Event>, ttl: int, token: string)
    requires SessionOf(events, ttl, token).None?
    requires forall e :: e in between && e.LoggedIn? ==> e.token != token
    ensures SessionOf(events + between, ttl, token).None?
  {
    if between == [] {
      assert events + between == events;
    } else {
      var n := |between| - 1;
      EndedStaysEnded(events, between[..n], ttl, token);
      assert events + between == (events + between[..n]) + [between[n]];
      LastEvent(events + between[..n], between[n]);
    }
  }

  /** The same of a block, seen at any later moment when the user is unblocked again, whatever happened in
      between: tokens are never drawn twice, and a request that the user made while blocked counts as an event
      that ends the session. Directly after the block the user does not pass at all. */
  lemma BlockEndsSessions(events: seq<Event>, ttl: int, m: Memory, token: string, now: int, later: int, s: Session,
                          u: User, x: Mutation, io: Io, between: seq<Event>, n: Memory, v: User)
    requires Authenticated(events, ttl, m, token, now) == Some((s, u)) && later <= s.expiresAt
    requires x == Block(s.username, true) && Enabled(m, x)
    requires forall e :: e in between && e.LoggedIn? ==> e.token != token
    requires UserOf(n, s.username) == Some(v) && !v.blocked && v.role == s.role
    ensures Authenticated(EventsAfter(events, x, io), ttl, Apply(m, x), token, later).None?
    ensures Authenticated(EventsAfter(events, x, io) + between, ttl, n, token, later).Some? <==>
              !Acknowledged(x, io) && !EndedIn(between, token, s.username)
  {
    UsernameIsNormalized(x.username);
    if Acknowledged(x, io) {
      EventEndsSession(events, ttl, token, UserBlocked(x.username));
      EndedStaysEnded(EventsAfter(events, x, io), between, ttl, token);
    } else {
      SessionOutlives(events, between, ttl, token);
    }
  }

  /** While an unacknowledged block lasts, one request of its user is refused, and is such an event. */
  lemma RefusedWhileBlocked(events: seq<Event>, ttl: int, m: Memory, token: string, now: int, s: Session, u: User,
                            x: Mutation, io: Io, asked: int)
    requires Authenticated(events, ttl, m, token, now) == Some((s, u)) && asked <= s.expiresAt
    requires x == Block(s.username, true) && Enabled(m, x)
    ensures Refused(EventsAfter(events, x, io), ttl, Apply(m, x), token, asked) <==> !Acknowledged(x, io)
    ensures Ends(Rejected(token), token, s.username)
  {
    UsernameIsNormalized(x.username);
    if Acknowledged(x, io) { EventEndsSession(events, ttl, token, UserBlocked(x.username)); }
  }

  lemma FreshLoginPasses(events: seq<Event>, ttl: int, m: Memory, u: User, token: string, csrf: string, at: int,
                         now: int)
    requires UserOf(m, u.username) == Some(u) && !u.blocked && token != "" && now <= at + ttl
    ensures Authenticated(events + [LoggedIn(token, u.username, u.role, csrf, at)], ttl, m, token, now)
              == Some((Session(u.username, u.role, csrf, at + ttl), u))
  {
    LastEvent(events, LoggedIn(token, u.username, u.role, csrf, at));
  }

  lemma UnblockRestores(m: Memory, name: string)
    requires Enabled(m, Block(name, false)) && m.doc.users[name].username == name
    ensures UserOf(Apply(m, Block(name, false)), name) == Some(m.doc.users[name].(blocked := false))
    ensures Apply(m, Block(name, false)).secrets.passwords == m.secrets.passwords
  {
    UsernameIsNormalized(name);
  }

  lemma RightPasswordIsAccepted(prf: Password.Prf, m: Memory, name: string, u: User, password: Bytes)
    requires NormalizeUsername(name) == Some(name) && UserOf(m, name) == Some(u) && !u.blocked
    requires name in m.secrets.passwords && Password.VerifyPassword(prf, password, m.secrets.passwords[name])
    ensures Credentials(prf, m, name, password) == Some(u)
  {
    CredentialsExactly(prf, m, name, password);
  }

  /** An unblock lets the user in again: the right password is accepted, and the session of a login with it passes
      until it expires. */
  lemma UnblockLetsIn(prf: Password.Prf, events: seq<Event>, ttl: int, m: Memory, name: string, password: Bytes,
                      token: string, csrf: string, at: int, now: int)
    requires Enabled(m, Block(name, false)) && name in m.secrets.passwords
    requires Password.VerifyPassword(prf, password, m.secrets.passwords[name]) && m.doc.users[name].username == name
    requires token != "" && now <= at + ttl
    ensures var (n, u) := (Apply(m, Block(name, false)), m.doc.users[name].(blocked := false));
            && Credentials(prf, n, name, password) == Some(u)
            && Authenticated(events + [LoggedIn(token, name, u.role, csrf, at)], ttl, n, token, now)
                 == Some((Session(name, u.role, csrf, at + ttl), u))
  {
    var n, u := Apply(m, Block(name, false)), m.doc.users[name].(blocked := false);
    UnblockRestores(m, name);
    UsernameIsNormalized(name);
    RightPasswordIsAccepted(prf, n, name, u, password);
    FreshLoginPasses(events, ttl, n, u, token, csrf, at, now);
  }

  /** Administrators may do everything, viewers may read the system, nobody else anything. */
  lemma PermitsExactly(role: Role, permission: string)
    ensures Permits(Admin, permission) && (Permits(Viewer, permission) <==> permission == "system.read")
    ensures role != Admin && role != Viewer ==> !Permits(role, permission)
  {
  }

  // ----- who may block whom -----------------------------------------------------------------

  lemma {:induction false} TrimLeftLength(s: string)
    ensures |TrimLeft(s)| <= |s| && (|TrimLeft(s)| == |s| ==> TrimLeft(s) == s)
  {
    if s == [] || !Space(s[0]) {
    } else {
      TrimLeftLength(s[1..]);
    }
  }

  lemma {:induction false} TrimRightLength(s: string)
    ensures |TrimRight(s)| <= |s| && (|TrimRight(s)| == |s| ==> TrimRight(s) == s)
  {
    if s == [] || !Space(s[|s| - 1]) {
    } else {
      TrimRightLength(s[..|s| - 1]);
    }
  }

  /** "Nobody blocks itself" fails: setBlocked compares the text of the path with the name of the actor, and
      SetBlocked then trims it. Of the texts that name the actor, exactly those without surrounding white space
      are refused. */
  lemma SelfBlockIsRefusedExactlyWhenTrimmed(actor: string, target: string)
    requires NormalizeUsername(target) == Some(actor)
    ensures EqualFold(target, actor) <==> TrimRight(TrimLeft(target)) == target
  {
    var trimmed := TrimRight(TrimLeft(target));
    UsernameIsNormalized(actor);
    assert ToLower(actor) == actor by { AlreadyLower(actor); }
    assert ToLower(trimmed) == actor;
    TrimLeftLength(target);
    TrimRightLength(TrimLeft(target));
    if EqualFold(target, actor) { assert |trimmed| == |actor| == |target|; }
  }

  lemma AlreadyLower(s: string)
    requires Username(s)
    ensures ToLower(s) == s
  {
  }

  /** An administrator who is not the last active one blocks itself with a blank before its name: the check of
      the handler passes, and the store makes the change. */
  lemma SelfBlockWithBlank(m: Memory, actor: string)
    requires Username(actor) && ActiveAdmin(m.doc.users, actor) && |ActiveAdmins(m.doc.users)| > 1
    ensures var target := [' '] + actor;
            && !EqualFold(target, actor)
            && BlockMutation(m, target, true) == Some(Block(actor, true))
            && !ActiveAdmin(Apply(m, Block(actor, true)).doc.users, actor)
  {
    BlankBeforeIsTrimmed(actor);
  }

  lemma BlankBeforeIsTrimmed(actor: string)
    requires Username(actor)
    ensures var target := [' '] + actor; NormalizeUsername(target) == Some(actor) && !EqualFold(target, actor)
  {
    var target := [' '] + actor;
    assert target[1..] == actor && TrimLeft(actor) == actor && TrimRight(actor) == actor;
    AlreadyLower(actor);
    SelfBlockIsRefusedExactlyWhenTrimmed(actor, target);
  }
}
