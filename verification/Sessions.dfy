/** internal/auth/sessions.go: the session table, and its meaning as a function of the events so far. */
module Sessions {
  import opened Text
  import opened Octets
  import opened StateModel

  datatype Session = Session(username: string, role: Role, csrf: string, expiresAt: int)

  type Table = map<Bytes, Session>

  /** The part of a table that does not belong to a user. */
  function WithoutUser(m: Table, username: string): Table {
    map k | k in m && m[k].username != username :: m[k]
  }

  class Manager {
    var sessions: Table
    const ttl: int
    const digest: string -> Bytes

    constructor (ttl: int, digest: string -> Bytes)
      ensures this.ttl == ttl && this.digest == digest && sessions == map[]
    {
      this.ttl, this.digest, sessions := ttl, digest, map[];
    }

    /** `token` and `csrf` are what the random source gives. */
    method Create(u: User, token: string, csrf: string, now: int) returns (s: Session)
      modifies this
      ensures s == Session(u.username, u.role, csrf, now + ttl)
      ensures sessions == old(sessions)[digest(token) := s]
    {
      s := Session(u.username, u.role, csrf, now + ttl);
      sessions := sessions[digest(token) := s];
    }

    method Lookup(token: string, now: int) returns (r: Option<Session>)
      modifies this
      ensures r == if token != "" && digest(token) in old(sessions) && now <= old(sessions)[digest(token)].expiresAt
                   then Some(old(sessions)[digest(token)]) else None
      ensures sessions == if token != "" && digest(token) in old(sessions)
                             && now > old(sessions)[digest(token)].expiresAt
                          then old(sessions) - {digest(token)} else old(sessions)
    {
      if token == "" { return None; }
      var key := digest(token);
      if key !in sessions { return None; }
      var s := sessions[key];
      if now > s.expiresAt {
        sessions := sessions - {key};
        return None;
      }
      return Some(s);
    }

    method Revoke(token: string)
      modifies this
      ensures sessions == old(sessions) - {digest(token)}
    {
      sessions := sessions - {digest(token)};
    }

    /** The deleting loop, over the map in any order. */
    method RevokeUser(username: string)
      modifies this
      ensures sessions == WithoutUser(old(sessions), username)
    {
      var rest := sessions.Keys;
      ghost var before := sessions;
      while rest != {}
        invariant rest <= before.Keys
        invariant forall k :: k in before ==> (k in sessions <==> k in rest || before[k].username != username)
        invariant forall k :: k in sessions ==> k in before && sessions[k] == before[k]
        decreases rest
      {
        var k :| k in rest;
        rest := rest - {k};
        if k in sessions && sessions[k].username == username { sessions := sessions - {k}; }
      }
    }
  }

  // ----- the history ------------------------------------------------------------------------

  /** What the handlers acknowledged; Rejected is a request whose user is gone, blocked or of another role. */
  datatype Event =
    | LoggedIn(token: string, username: string, role: Role, csrf: string, at: int)
    | LoggedOut(token: string)
    | Rejected(token: string)
    | PasswordChanged(username: string)
    | UserBlocked(username: string)

  /** Does the event end the session that `token` holds for `username`? */
  predicate Ends(e: Event, token: string, username: string) {
    match e
    case LoggedIn(t, _, _, _, _) => t == token
    case LoggedOut(t) => t == token
    case Rejected(t) => t == token
    case PasswordChanged(u) => u == username
    case UserBlocked(u) => u == username
  }

  /** The session that a token holds after the events, expired or not. */
  function SessionOf(events: seq<Event>, ttl: int, token: string): Option<Session> {
    if events == [] then None
    else
      var before := SessionOf(events[..|events| - 1], ttl, token);
      var e := events[|events| - 1];
      if e.LoggedIn? && e.token == token then Some(Session(e.username, e.role, e.csrf, e.at + ttl))
      else if before.Some? && Ends(e, token, before.value.username) then None
      else before
  }

  predicate LoginAt(events: seq<Event>, ttl: int, token: string, s: Session, i: int) {
    && 0 <= i < |events|
    && events[i].LoggedIn? && events[i].token == token
    && s == Session(events[i].username, events[i].role, events[i].csrf, events[i].at + ttl)
    && forall j :: i < j < |events| ==> !Ends(events[j], token, s.username)
  }

  /** A token holds a session exactly when a login gave it that session and nothing since ended it: no later
      acknowledged password change or block of that user, no logout and no rejection. */
  lemma {:induction false} SessionsComeFromLogins(events: seq<Event>, ttl: int, token: string, s: Session)
    ensures SessionOf(events, ttl, token) == Some(s) <==> exists i :: LoginAt(events, ttl, token, s, i)
  {
    if events == [] {
    } else {
      var n := |events| - 1;
      var p, e := events[..n], events[n];
      SessionsComeFromLogins(p, ttl, token, s);
      if SessionOf(events, ttl, token) == Some(s) {
        if e.LoggedIn? && e.token == token {
          assert LoginAt(events, ttl, token, s, n);
        } else {
          var i :| LoginAt(p, ttl, token, s, i);
          assert LoginAt(events, ttl, token, s, i);
        }
      }
      if i :| LoginAt(events, ttl, token, s, i) {
        if i < n {
          assert LoginAt(p, ttl, token, s, i);
          assert !Ends(events[n], token, s.username);
        }
      }
    }
  }

  // ----- the table agrees with the history ---------------------------------------------------

  predicate Holds(m: Table, digest: string -> Bytes, events: seq<Event>, ttl: int, clock: int, token: string) {
    var s := SessionOf(events, ttl, token);
    if digest(token) in m then s == Some(m[digest(token)]) else s.None? || s.value.expiresAt < clock
  }

  /** For every token, the table has its session, except sessions that have expired by `clock`. */
  ghost predicate Agrees(m: Table, digest: string -> Bytes, events: seq<Event>, ttl: int, clock: int) {
    && (forall s, t :: digest(s) == digest(t) ==> s == t)
    && (forall t: string :: Holds(m, digest, events, ttl, clock, t))
  }

  lemma LastEvent(events: seq<Event>, e: Event)
    ensures (events + [e])[..|events + [e]| - 1] == events && (events + [e])[|events + [e]| - 1] == e
  {
  }

  lemma LoginAgrees(m: Table, digest: string -> Bytes, events: seq<Event>, ttl: int, clock: int,
                    token: string, username: string, role: Role, csrf: string, now: int)
    requires Agrees(m, digest, events, ttl, clock)
    ensures Agrees(m[digest(token) := Session(username, role, csrf, now + ttl)], digest,
                   events + [LoggedIn(token, username, role, csrf, now)], ttl, clock)
  {
    var e := LoggedIn(token, username, role, csrf, now);
    var after := m[digest(token) := Session(username, role, csrf, now + ttl)];
    LastEvent(events, e);
    forall t ensures Holds(after, digest, events + [e], ttl, clock, t) {
      assert Holds(m, digest, events, ttl, clock, t);
    }
  }

  lemma RevokeAgrees(m: Table, digest: string -> Bytes, events: seq<Event>, ttl: int, clock: int, e: Event)
    requires Agrees(m, digest, events, ttl, clock) && (e.LoggedOut? || e.Rejected?)
    ensures Agrees(m - {digest(e.token)}, digest, events + [e], ttl, clock)
  {
    var after := m - {digest(e.token)};
    LastEvent(events, e);
    forall t ensures Holds(after, digest, events + [e], ttl, clock, t) {
      assert Holds(m, digest, events, ttl, clock, t);
    }
  }

  lemma RevokeUserAgrees(m: Table, digest: string -> Bytes, events: seq<Event>, ttl: int, clock: int, e: Event)
    requires Agrees(m, digest, events, ttl, clock) && (e.PasswordChanged? || e.UserBlocked?)
    ensures Agrees(WithoutUser(m, e.username), digest, events + [e], ttl, clock)
  {
    var after := WithoutUser(m, e.username);
    LastEvent(events, e);
    forall t ensures Holds(after, digest, events + [e], ttl, clock, t) {
      assert Holds(m, digest, events, ttl, clock, t);
    }
  }

  /** Dropping an expired session goes unnoticed, because the clock does not go back. */
  lemma ExpiryAgrees(m: Table, digest: string -> Bytes, events: seq<Event>, ttl: int, clock: int, token: string,
                     now: int)
    requires Agrees(m, digest, events, ttl, clock) && clock <= now
    ensures Agrees(m, digest, events, ttl, now)
    ensures digest(token) in m && m[digest(token)].expiresAt < now ==>
        Agrees(m - {digest(token)}, digest, events, ttl, now)
  {
    forall t ensures Holds(m, digest, events, ttl, now, t) { assert Holds(m, digest, events, ttl, clock, t); }
    if digest(token) in m && m[digest(token)].expiresAt < now {
      var after := m - {digest(token)};
      forall t ensures Holds(after, digest, events, ttl, now, t) { assert Holds(m, digest, events, ttl, clock, t); }
    }
  }
}
