/** Logins that overlap password changes and blocks (internal/httpserver/server.go). A login checks the
    credentials and creates its session in two locked steps; a password change or a block takes effect in
    memory, and revokes the sessions of its user in a later locked step, only when its writes succeeded. */
module LoginRace {

  /** The locked steps. `id` is a login, and the session it creates; `handler` is a request that changes or
      blocks. A failed write is `acknowledged` false. Dropped is a logout, or a refusal of the session of a
      blocked user. */
  datatype Step =
    | Verified(id: string, username: string)
    | Created(id: string)
    | Changed(handler: string, username: string, acknowledged: bool)
    | Blocked(handler: string, username: string, acknowledged: bool)
    | Unblocked(username: string)
    | Revoked(handler: string, username: string)
    | Dropped(id: string)

  /** Whose credentials were checked, and at which step. */
  datatype Login = Login(username: string, verifiedAt: nat)

  /** Logins under way, sessions, blocked users, handlers that have yet to revoke, and the names in use. */
  datatype World = World(pending: map<string, Login>, sessions: map<string, Login>, blocked: set<string>,
                         revoking: map<string, string>, logins: set<string>, handlers: set<string>)

  const INIT := World(map[], map[], {}, map[], {}, {})

  /** What the code lets happen: fresh names, credentials of unblocked users, and each handler's own order. */
  predicate Enabled(w: World, s: Step) {
    match s
    case Verified(id, username) => id !in w.logins && username !in w.blocked
    case Created(id) => id in w.pending
    case Changed(handler, username, _) => handler !in w.handlers && username !in w.blocked
    case Blocked(handler, _, _) => handler !in w.handlers
    case Unblocked(_) => true
    case Revoked(handler, username) => handler in w.revoking && w.revoking[handler] == username
    case Dropped(_) => true
  }

  function Revoking(w: World, handler: string, username: string, acknowledged: bool): World {
    w.(handlers := w.handlers + {handler},
       revoking := if acknowledged then w.revoking[handler := username] else w.revoking)
  }

  function Next(w: World, s: Step, now: nat): World {
    match s
    case Verified(id, username) => w.(pending := w.pending[id := Login(username, now)], logins := w.logins + {id})
    case Created(id) =>
      if id in w.pending then w.(pending := w.pending - {id}, sessions := w.sessions[id := w.pending[id]]) else w
    case Changed(handler, username, acknowledged) => Revoking(w, handler, username, acknowledged)
    case Blocked(handler, username, acknowledged) =>
      Revoking(w.(blocked := w.blocked + {username}), handler, username, acknowledged)
    case Unblocked(username) => w.(blocked := w.blocked - {username})
    case Revoked(handler, username) =>
      w.(revoking := w.revoking - {handler},
         sessions := map id | id in w.sessions && w.sessions[id].username != username :: w.sessions[id])
    case Dropped(id) => w.(sessions := w.sessions - {id})
  }

  function Exec(steps: seq<Step>): World {
    if steps == [] then INIT else Next(Exec(steps[..|steps| - 1]), steps[|steps| - 1], |steps| - 1)
  }

  predicate Legal(steps: seq<Step>) {
    steps == [] || (Legal(steps[..|steps| - 1]) && Enabled(Exec(steps[..|steps| - 1]), steps[|steps| - 1]))
  }

  /** A session lets its user in. */
  predicate Passes(w: World, id: string) { id in w.sessions && w.sessions[id].username !in w.blocked }

  // ----- who holds a session, by the order of the steps alone ---------------------------------

  predicate Ends(s: Step, id: string, username: string) {
    (s.Revoked? && s.username == username) || s == Dropped(id)
  }

  predicate UnderWay(steps: seq<Step>, id: string, l: Login) {
    && l.verifiedAt < |steps| && steps[l.verifiedAt] == Verified(id, l.username)
    && forall k :: 0 <= k < |steps| ==> steps[k] != Created(id)
  }

  /** Step i creates the session of a login checked before, and no step since then ends it. */
  predicate HeldSince(steps: seq<Step>, i: nat, id: string, l: Login) {
    && l.verifiedAt < i < |steps|
    && steps[l.verifiedAt] == Verified(id, l.username) && steps[i] == Created(id)
    && forall k :: i < k < |steps| ==> !Ends(steps[k], id, l.username)
  }

  lemma {:induction false} NamesAreSeen(steps: seq<Step>, id: string)
    requires Legal(steps)
    ensures id in Exec(steps).pending || id in Exec(steps).sessions ==> id in Exec(steps).logins
    ensures forall k :: 0 <= k < |steps| && Mentions(steps[k], id) ==> id in Exec(steps).logins
  {
    if steps == [] {
    } else {
      NamesAreSeen(steps[..|steps| - 1], id);
    }
  }

  predicate IsPending(w: World, id: string, l: Login) { id in w.pending && w.pending[id] == l }

  predicate Mentions(s: Step, id: string) { (s.Verified? || s.Created?) && s.id == id }

  lemma UnderWayExtends(steps: seq<Step>, s: Step, id: string, l: Login)
    ensures !Mentions(s, id) ==> (UnderWay(steps + [s], id, l) <==> UnderWay(steps, id, l))
    ensures s == Created(id) ==> !UnderWay(steps + [s], id, l)
    ensures s.Verified? && s.id == id && (forall k :: 0 <= k < |steps| ==> !Mentions(steps[k], id)) ==>
              (UnderWay(steps + [s], id, l) <==> l == Login(s.username, |steps|))
  {
    var t := steps + [s];
    assert t[|steps|] == s;
    assert forall k :: 0 <= k < |steps| ==> t[k] == steps[k];
  }

  lemma PendingExtends(w: World, s: Step, now: nat, id: string, l: Login)
    ensures !Mentions(s, id) ==> (IsPending(Next(w, s, now), id, l) <==> IsPending(w, id, l))
    ensures s == Created(id) ==> !IsPending(Next(w, s, now), id, l)
    ensures s.Verified? && s.id == id ==> (IsPending(Next(w, s, now), id, l) <==> l == Login(s.username, now))
  {
  }

  lemma {:induction false} LoginsUnderWay(steps: seq<Step>, id: string, l: Login)
    requires Legal(steps)
    ensures IsPending(Exec(steps), id, l) <==> UnderWay(steps, id, l)
  {
    if steps == [] {
    } else {
      var n := |steps| - 1;
      var p, s := steps[..n], steps[n];
      LoginsUnderWay(p, id, l);
      NamesAreSeen(p, id);
      assert steps == p + [s];
      UnderWayExtends(p, s, id, l);
      PendingExtends(Exec(p), s, n, id, l);
    }
  }

  lemma NotYetCreated(steps: seq<Step>, id: string, k: nat)
    requires Legal(steps) && id in Exec(steps).pending && k < |steps|
    ensures steps[k] != Created(id)
  {
    LoginsUnderWay(steps, id, Exec(steps).pending[id]);
  }

  lemma HeldStep(steps: seq<Step>, i: nat, id: string, l: Login)
    requires steps != [] && i < |steps| - 1
    ensures HeldSince(steps, i, id, l) <==>
              HeldSince(steps[..|steps| - 1], i, id, l) && !Ends(steps[|steps| - 1], id, l.username)
  {
    var p := steps[..|steps| - 1];
    assert forall k :: 0 <= k < |p| ==> steps[k] == p[k];
  }

  lemma SessionStays(w: World, s: Step, now: nat, id: string, l: Login)
    requires s != Created(id)
    ensures var v := Next(w, s, now);
            id in v.sessions && v.sessions[id] == l <==>
                id in w.sessions && w.sessions[id] == l && !Ends(s, id, l.username)
  {
  }

  /** In any interleaving of logins, changes, blocks and revocations, a session is there exactly when a login
      that was checked created it and no later step revoked or dropped it. */
  lemma {:induction false} SessionsInAnyInterleaving(steps: seq<Step>, id: string, l: Login)
    requires Legal(steps)
    ensures id in Exec(steps).sessions && Exec(steps).sessions[id] == l <==> exists i: nat :: HeldSince(steps, i, id, l)
  {
    if steps == [] {
    } else {
      var n := |steps| - 1;
      var p, s := steps[..n], steps[n];
      if s == Created(id) {
        CreatedNow(steps, id, l);
      } else {
        SessionsInAnyInterleaving(p, id, l);
        SessionStays(Exec(p), s, n, id, l);
        if i: nat :| HeldSince(p, i, id, l) { HeldStep(steps, i, id, l); }
        if i: nat :| HeldSince(steps, i, id, l) { HeldStep(steps, i, id, l); }
      }
    }
  }

  lemma CreatedNow(steps: seq<Step>, id: string, l: Login)
    requires steps != [] && Legal(steps) && steps[|steps| - 1] == Created(id)
    ensures id in Exec(steps).sessions && Exec(steps).sessions[id] == l <==> exists i: nat :: HeldSince(steps, i, id, l)
  {
    var n := |steps| - 1;
    var p := steps[..n];
    var m := Exec(p).pending[id];
    LoginsUnderWay(p, id, m);
    LoginsUnderWay(p, id, l);
    assert Exec(steps).sessions[id] == m;
    if l == m { assert HeldSince(steps, n, id, l); }
    if i: nat :| HeldSince(steps, i, id, l) {
      assert p[l.verifiedAt] == Verified(id, l.username);
      assert UnderWay(p, id, l) by {
        forall k | 0 <= k < n ensures p[k] != Created(id) { NotYetCreated(p, id, k); }
      }
    }
  }

  predicate Handles(s: Step, handler: string) { (s.Changed? || s.Blocked?) && s.handler == handler }

  predicate RevokesFor(s: Step, handler: string) { s.Revoked? && s.handler == handler }

  /** A session whose credentials were checked before step g, a change of the user's password or a block, is left
      exactly when the revocation of that handler, if it came, came before the session was created, and nothing
      else has ended the session since. A handler revokes nothing but its own user, only after its change, and
      never when its write failed. */
  lemma OutdatedSessionIsLeft(steps: seq<Step>, v: nat, i: nat, g: nat, id: string, username: string)
    requires Legal(steps) && v < i < |steps| && v < g < |steps|
    requires steps[v] == Verified(id, username) && steps[i] == Created(id)
    requires (steps[g].Changed? || steps[g].Blocked?) && steps[g].username == username
    ensures id in Exec(steps).sessions && Exec(steps).sessions[id] == Login(username, v) <==>
              && (forall r :: 0 <= r < |steps| && RevokesFor(steps[r], steps[g].handler) ==> r < i)
              && (forall k :: i < k < |steps| && !RevokesFor(steps[k], steps[g].handler) ==>
                  !Ends(steps[k], id, username))
    ensures forall r :: 0 <= r < |steps| && RevokesFor(steps[r], steps[g].handler) ==>
              g < r && steps[g].acknowledged && steps[r].username == username
  {
    var l := Login(username, v);
    forall r | 0 <= r < |steps| && RevokesFor(steps[r], steps[g].handler)
      ensures g < r && steps[g].acknowledged && steps[r].username == username
    {
      RevocationOfHandler(steps, g, r);
    }
    SessionsInAnyInterleaving(steps, id, l);
    if forall k :: i < k < |steps| ==> !Ends(steps[k], id, username) { assert HeldSince(steps, i, id, l); }
    if j: nat :| HeldSince(steps, j, id, l) {
      CreatedOnce(steps, i, j, id);
      OwnRevocationsCameBefore(steps, i, steps[g].handler, id, username);
    }
  }

  lemma OwnRevocationsCameBefore(steps: seq<Step>, i: nat, handler: string, id: string, username: string)
    requires i < |steps| && !steps[i].Revoked? && forall k :: i < k < |steps| ==> !Ends(steps[k], id, username)
    requires forall r :: 0 <= r < |steps| && RevokesFor(steps[r], handler) ==> steps[r].username == username
    ensures forall r :: 0 <= r < |steps| && RevokesFor(steps[r], handler) ==> r < i
  {
  }

  lemma {:induction false} LegalPrefix(steps: seq<Step>, n: nat)
    requires Legal(steps) && n <= |steps|
    ensures Legal(steps[..n])
    decreases |steps|
  {
    if n == |steps| {
      assert steps[..n] == steps;
    } else {
      assert steps[..|steps| - 1][..n] == steps[..n];
      LegalPrefix(steps[..|steps| - 1], n);
    }
  }

  lemma EnabledAt(steps: seq<Step>, k: nat)
    requires Legal(steps) && k < |steps|
    ensures Legal(steps[..k]) && Enabled(Exec(steps[..k]), steps[k])
    ensures Exec(steps[..k + 1]) == Next(Exec(steps[..k]), steps[k], k)
  {
    LegalPrefix(steps, k);
    LegalPrefix(steps, k + 1);
    assert steps[..k + 1][..k] == steps[..k];
  }

  lemma CreatedOnce(steps: seq<Step>, i: nat, j: nat, id: string)
    requires Legal(steps) && i < |steps| && j < |steps| && steps[i] == Created(id) && steps[j] == Created(id)
    ensures i == j
  {
    if i < j {
      EnabledAt(steps, j);
      NotYetCreated(steps[..j], id, i);
    } else if j < i {
      EnabledAt(steps, i);
      NotYetCreated(steps[..i], id, j);
    }
  }

  lemma HandlersStep(w: World, s: Step, now: nat, handler: string)
    requires Enabled(w, s)
    ensures var v := Next(w, s, now);
            && (handler in v.handlers <==> handler in w.handlers || Handles(s, handler))
            && (Handles(s, handler) ==> handler !in w.handlers)
            && (handler in v.revoking && handler !in w.revoking ==> Handles(s, handler))
            && (handler in v.revoking && !Handles(s, handler) ==>
                handler in w.revoking && v.revoking[handler] == w.revoking[handler])
            && (handler in v.revoking && Handles(s, handler) && handler !in w.revoking ==>
                  s.acknowledged && v.revoking[handler] == s.username)
  {
  }

  /** What a handler will revoke is what it changed, and only after its writes succeeded. */
  lemma {:induction false} RevokingMeans(steps: seq<Step>, handler: string)
    requires Legal(steps)
    ensures handler in Exec(steps).handlers <==> exists g :: 0 <= g < |steps| && Handles(steps[g], handler)
    ensures handler in Exec(steps).revoking ==> handler in Exec(steps).handlers
    ensures handler in Exec(steps).revoking ==>
              forall g :: 0 <= g < |steps| && Handles(steps[g], handler) ==>
                steps[g].acknowledged && steps[g].username == Exec(steps).revoking[handler]
  {
    if steps == [] {
    } else {
      var n := |steps| - 1;
      var p, s := steps[..n], steps[n];
      RevokingMeans(p, handler);
      assert forall g :: 0 <= g < n ==> steps[g] == p[g];
      HandlersStep(Exec(p), s, n, handler);
      if handler in Exec(p).handlers {
        var g :| 0 <= g < n && Handles(p[g], handler);
        assert Handles(steps[g], handler);
      }
    }
  }

  lemma HandlerIsKnown(steps: seq<Step>, r: nat, n: nat)
    requires Legal(steps) && r < n <= |steps| && steps[r].Revoked?
    ensures steps[r].handler in Exec(steps[..n]).handlers
  {
    EnabledAt(steps, r);
    LegalPrefix(steps, n);
    var p, q := steps[..r], steps[..n];
    RevokingMeans(p, steps[r].handler);
    RevokingMeans(q, steps[r].handler);
    var h :| 0 <= h < r && Handles(p[h], steps[r].handler);
    assert q[h] == p[h];
  }

  lemma RevocationOfHandler(steps: seq<Step>, g: nat, r: nat)
    requires Legal(steps) && g < |steps| && r < |steps|
    requires (steps[g].Changed? || steps[g].Blocked?) && steps[r].Revoked? && steps[r].handler == steps[g].handler
    ensures g < r && steps[g].acknowledged && steps[r].username == steps[g].username
  {
    EnabledAt(steps, r);
    if g < r {
      RevokingMeans(steps[..r], steps[r].handler);
      assert steps[..r][g] == steps[g];
    } else {
      EnabledAt(steps, g);
      HandlerIsKnown(steps, r, g);
    }
  }

  /** A user is blocked from a block on, acknowledged or not, until the next unblock. */
  predicate BlockedSince(steps: seq<Step>, g: nat, username: string) {
    && g < |steps| && steps[g].Blocked? && steps[g].username == username
    && forall k :: g < k < |steps| ==> steps[k] != Unblocked(username)
  }

  /** Exactly then it is refused: no session of it passes, and no login of it is checked. */
  lemma {:induction false} BlockedExactly(steps: seq<Step>, username: string)
    ensures username in Exec(steps).blocked <==> exists g: nat :: BlockedSince(steps, g, username)
    ensures username in Exec(steps).blocked ==>
              forall id :: Passes(Exec(steps), id) ==> Exec(steps).sessions[id].username != username
    ensures username in Exec(steps).blocked ==> forall id :: !Enabled(Exec(steps), Verified(id, username))
  {
    if steps == [] {
    } else {
      var n := |steps| - 1;
      var p := steps[..n];
      BlockedExactly(p, username);
      assert forall k :: 0 <= k < n ==> p[k] == steps[k];
      if steps[n].Blocked? && steps[n].username == username { assert BlockedSince(steps, n, username); }
      if g: nat :| BlockedSince(p, g, username) {
        if steps[n] != Unblocked(username) { assert BlockedSince(steps, g, username); }
      }
      if g: nat :| BlockedSince(steps, g, username) {
        if g < n { assert BlockedSince(p, g, username); }
      }
    }
  }

  // ----- when the promise holds ---------------------------------------------------------------

  /** The credentials were checked before step g. */
  predicate Outdated(l: Login, g: nat, username: string) { l.username == username && l.verifiedAt < g }

  /** "A password change or a block revokes the sessions of its user": from here on, however the run goes on,
      no session whose credentials were checked before step g lets the user in. */
  ghost predicate PromiseKept(steps: seq<Step>, g: nat, username: string) {
    forall more: seq<Step>, id :: Legal(steps + more) && Passes(Exec(steps + more), id) ==>
      !Outdated(Exec(steps + more).sessions[id], g, username)
  }

  predicate NoneOutdated(w: World, g: nat, username: string) {
    && (forall id :: id in w.sessions ==> !Outdated(w.sessions[id], g, username))
    && (forall id :: id in w.pending ==> !Outdated(w.pending[id], g, username))
  }

  lemma OneMore(steps: seq<Step>, s: Step)
    ensures Exec(steps + [s]) == Next(Exec(steps), s, |steps|)
    ensures Legal(steps) && Enabled(Exec(steps), s) ==> Legal(steps + [s])
  {
    assert (steps + [s])[..|steps + [s]| - 1] == steps;
  }

  lemma NoneOutdatedStep(w: World, s: Step, now: nat, g: nat, username: string)
    requires NoneOutdated(w, g, username) && g <= now
    ensures NoneOutdated(Next(w, s, now), g, username)
  {
  }

  lemma {:induction false} NoneOutdatedStays(steps: seq<Step>, more: seq<Step>, g: nat, username: string)
    requires g <= |steps| && NoneOutdated(Exec(steps), g, username)
    ensures NoneOutdated(Exec(steps + more), g, username)
  {
    if more == [] {
      assert steps + more == steps;
    } else {
      var n := |more| - 1;
      NoneOutdatedStays(steps, more[..n], g, username);
      assert steps + more == (steps + more[..n]) + [more[n]];
      OneMore(steps + more[..n], more[n]);
      NoneOutdatedStep(Exec(steps + more[..n]), more[n], |steps| + n, g, username);
    }
  }

  /** A run that lets an outdated session in: it is created if it was not yet, and its user unblocked. */
  lemma OutdatedCanPass(steps: seq<Step>, id: string, g: nat, username: string) returns (more: seq<Step>)
    requires Legal(steps)
    requires var w := Exec(steps);
             || (id in w.sessions && Outdated(w.sessions[id], g, username))
             || (id in w.pending && Outdated(w.pending[id], g, username))
    ensures Legal(steps + more) && Passes(Exec(steps + more), id)
    ensures Outdated(Exec(steps + more).sessions[id], g, username)
  {
    var w := Exec(steps);
    if id in w.pending && Outdated(w.pending[id], g, username) {
      more := [Created(id), Unblocked(username)];
      OneMore(steps, Created(id));
      OneMore(steps + [Created(id)], Unblocked(username));
      assert steps + more == (steps + [Created(id)]) + [Unblocked(username)];
    } else {
      more := [Unblocked(username)];
      OneMore(steps, Unblocked(username));
    }
  }

  /** The promise holds from some point on exactly when, at that point, no session and no login under way has
      credentials that were checked before the change. */
  lemma PromiseKeptExactly(steps: seq<Step>, g: nat, username: string)
    requires Legal(steps) && g <= |steps|
    ensures PromiseKept(steps, g, username) <==> NoneOutdated(Exec(steps), g, username)
  {
    if NoneOutdated(Exec(steps), g, username) {
      forall more: seq<Step>, id | Legal(steps + more) && Passes(Exec(steps + more), id)
        ensures !Outdated(Exec(steps + more).sessions[id], g, username)
      {
        NoneOutdatedStays(steps, more, g, username);
      }
    } else {
      var w := Exec(steps);
      var id :|
        || (id in w.sessions && Outdated(w.sessions[id], g, username))
        || (id in w.pending && Outdated(w.pending[id], g, username));
      var more := OutdatedCanPass(steps, id, g, username);
      assert Legal(steps + more) && Passes(Exec(steps + more), id);
    }
  }

  /** The handler of an acknowledged change or block keeps the promise from its revocation on exactly when no
      login of the user was checked before the change and is still to create its session. */
  lemma AcknowledgedHandlerKeepsPromise(steps: seq<Step>, g: nat, handler: string, username: string)
    requires Legal(steps + [Revoked(handler, username)]) && g < |steps|
    requires steps[g] == Changed(handler, username, true) || steps[g] == Blocked(handler, username, true)
    ensures PromiseKept(steps + [Revoked(handler, username)], g, username) <==>
              forall id :: id in Exec(steps).pending ==> !Outdated(Exec(steps).pending[id], g, username)
  {
    OneMore(steps, Revoked(handler, username));
    PromiseKeptExactly(steps + [Revoked(handler, username)], g, username);
  }

  /** The handler of a change or block whose write failed keeps it exactly when the user has no session and no
      login under way at all. */
  lemma FailedHandlerKeepsPromise(steps: seq<Step>, handler: string, username: string, block: bool)
    requires var s := if block then Blocked(handler, username, false) else Changed(handler, username, false);
             Legal(steps + [s])
    ensures var s := if block then Blocked(handler, username, false) else Changed(handler, username, false);
            PromiseKept(steps + [s], |steps|, username) <==>
              && (forall id :: id in Exec(steps).sessions ==> Exec(steps).sessions[id].username != username)
              && (forall id :: id in Exec(steps).pending ==> Exec(steps).pending[id].username != username)
  {
    var s := if block then Blocked(handler, username, false) else Changed(handler, username, false);
    OneMore(steps, s);
    assert (steps + [s])[..|steps + [s]| - 1] == steps;
    PromiseKeptExactly(steps + [s], |steps|, username);
    EarlierChecks(steps);
  }

  lemma {:induction false} EarlierChecks(steps: seq<Step>)
    ensures forall id :: id in Exec(steps).sessions ==> Exec(steps).sessions[id].verifiedAt < |steps|
    ensures forall id :: id in Exec(steps).pending ==> Exec(steps).pending[id].verifiedAt < |steps|
  {
    if steps == [] {
    } else {
      EarlierChecks(steps[..|steps| - 1]);
    }
  }

  /** Both failures happen at any point of any run: an acknowledged handler around which a login is checked
      before and created after, and a handler whose write failed after a finished login. */
  lemma PromiseCanFail(steps: seq<Step>, id: string, handler: string, username: string, block: bool, acknowledged: bool)
      returns (run: seq<Step>, g: nat)
    requires Legal(steps) && id !in Exec(steps).logins && handler !in Exec(steps).handlers
    requires username !in Exec(steps).blocked
    ensures steps <= run && |steps| < g < |run| && Legal(run)
    ensures run[g] ==
              if block then Blocked(handler, username, acknowledged) else Changed(handler, username, acknowledged)
    ensures acknowledged ==> Revoked(handler, username) in run[g..]
    ensures Passes(Exec(run), id) && Outdated(Exec(run).sessions[id], g, username)
  {
    var change := if block then Blocked(handler, username, acknowledged) else Changed(handler, username, acknowledged);
    var checked := steps + [Verified(id, username)];
    var changed := checked + [change];
    OneMore(steps, Verified(id, username));
    OneMore(checked, change);
    g := |checked|;
    var upTo := if acknowledged then changed + [Revoked(handler, username)] else changed;
    if acknowledged { OneMore(changed, Revoked(handler, username)); }
    assert Legal(upTo) && id in Exec(upTo).pending && Exec(upTo).pending[id] == Login(username, |steps|);
    var more := OutdatedCanPass(upTo, id, g, username);
    run := upTo + more;
    assert run[g] == change;
    if acknowledged { assert run[g..][1] == Revoked(handler, username); }
  }
}
