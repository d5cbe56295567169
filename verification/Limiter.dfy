/** internal/auth/rate.go: the login limiter, its sliding-window bound and its bound under concurrent logins. */
module Limiter {

  const ZERO_TIME: int := 0

  /** Instants are positive integers; ZERO_TIME is Go's zero time. */
  datatype RateEntry = RateEntry(count: int, reset: int)

  /** What reading a missing key of the map gives. */
  const NOENTRY := RateEntry(0, ZERO_TIME)

  predicate Expired(e: RateEntry, now: int) { e.reset == ZERO_TIME || now > e.reset }

  predicate Admits(e: RateEntry, limit: int, now: int) { Expired(e, now) || e.count < limit }

  function AfterAsk(e: RateEntry, now: int): RateEntry { if Expired(e, now) then NOENTRY else e }

  function AfterFailure(e: RateEntry, window: int, now: int): RateEntry {
    if Expired(e, now) then RateEntry(1, now + window) else e.(count := e.count + 1)
  }

  class LoginLimiter {
    var entries: map<string, RateEntry>
    const limit: int
    const window: int

    constructor (limit: int, window: int)
      ensures this.limit == limit && this.window == window && entries == map[]
    {
      this.limit, this.window, entries := limit, window, map[];
    }

    function Entry(key: string): RateEntry
      reads this
    {
      if key in entries then entries[key] else NOENTRY
    }

    method Allowed(key: string, now: int) returns (ok: bool)
      modifies this
      ensures ok <==> Admits(old(Entry(key)), limit, now)
      ensures Entry(key) == AfterAsk(old(Entry(key)), now)
      ensures forall k :: k != key ==> Entry(k) == old(Entry(k))
    {
      var e := Entry(key);
      if e.reset == ZERO_TIME || now > e.reset {
        entries := entries - {key};
        return true;
      }
      return e.count < limit;
    }

    method Failure(key: string, now: int)
      modifies this
      ensures Entry(key) == AfterFailure(old(Entry(key)), window, now)
      ensures forall k :: k != key ==> Entry(k) == old(Entry(k))
    {
      var e := Entry(key);
      if e.reset == ZERO_TIME || now > e.reset {
        e := RateEntry(0, now + window);
      }
      e := e.(count := e.count + 1);
      entries := entries[key := e];
    }

    method Success(key: string)
      modifies this
      ensures Entry(key) == NOENTRY
      ensures forall k :: k != key ==> Entry(k) == old(Entry(k))
    {
      entries := entries - {key};
    }

  }

  // ----- logins of one key, one after another -----------------------------------------------

  /** A login: when Allowed is asked, when the outcome is recorded, and whether the credentials were right. */
  datatype Attempt = Attempt(asked: int, answered: int, correct: bool)

  function AfterAttempt(e: RateEntry, limit: int, window: int, a: Attempt): RateEntry {
    if !Admits(e, limit, a.asked) then AfterAsk(e, a.asked)
    else if a.correct then NOENTRY
    else AfterFailure(AfterAsk(e, a.asked), window, a.answered)
  }

  function Run(limit: int, window: int, h: seq<Attempt>): RateEntry {
    if h == [] then NOENTRY
    else AfterAttempt(Run(limit, window, h[..|h| - 1]), limit, window, h[|h| - 1])
  }

  /** Logins do not overlap and the clock does not go back. */
  predicate Sequential(h: seq<Attempt>) {
    && (forall i :: 0 <= i < |h| ==> ZERO_TIME < h[i].asked <= h[i].answered)
    && (forall i, j :: 0 <= i < j < |h| ==> h[i].answered <= h[j].asked)
  }

  predicate AdmittedAt(limit: int, window: int, h: seq<Attempt>, i: nat)
    requires i < |h|
  {
    Admits(Run(limit, window, h[..i]), limit, h[i].asked)
  }

  /** The failures recorded in the closed interval from `a` to `b`. */
  function Failures(limit: int, window: int, h: seq<Attempt>, a: int, b: int): nat {
    if h == [] then 0
    else
      var n := |h| - 1;
      Failures(limit, window, h[..n], a, b)
      + (if AdmittedAt(limit, window, h, n) && !h[n].correct && a <= h[n].answered <= b then 1 else 0)
  }

  predicate NoSuccess(limit: int, window: int, h: seq<Attempt>, a: int, b: int) {
    forall i: nat :: i < |h| && AdmittedAt(limit, window, h, i) && h[i].correct ==> !(a <= h[i].answered <= b)
  }

  /** How the single count and reset time account for the failures since `a`: a window opened before `a`
      spent one failure before it, and a window opened later outlasts the interval. */
  predicate Accounts(limit: int, window: int, e: RateEntry, failures: nat, a: int) {
    if e.reset == ZERO_TIME then failures == 0
    else
      && 1 <= e.count <= limit
      && (e.reset - window < a ==> failures <= e.count - 1)
      && failures <= limit - 1 + e.count
  }

  lemma PrefixFacts(limit: int, window: int, h: seq<Attempt>, a: int, b: int)
    requires h != [] && Sequential(h) && NoSuccess(limit, window, h, a, b)
    ensures var p := h[..|h| - 1]; Sequential(p) && NoSuccess(limit, window, p, a, b)
  {
    var p := h[..|h| - 1];
    forall i: nat | i < |p| && AdmittedAt(limit, window, p, i) && p[i].correct
      ensures !(a <= p[i].answered <= b)
    {
      assert p[..i] == h[..i];
      assert AdmittedAt(limit, window, h, i);
    }
  }

  lemma {:induction false} EarlierFailuresNotCounted(limit: int, window: int, h: seq<Attempt>, a: int, b: int)
    requires Sequential(h) && (h != [] ==> h[|h| - 1].answered < a)
    ensures Failures(limit, window, h, a, b) == 0
  {
    if h == [] {
    } else {
      var p := h[..|h| - 1];
      assert p != [] ==> p[|p| - 1] == h[|p| - 1];
      EarlierFailuresNotCounted(limit, window, p, a, b);
    }
  }

  lemma {:induction false} WindowInvariant(limit: int, window: int, h: seq<Attempt>, a: int)
    requires limit >= 1 && window >= 0 && Sequential(h)
    requires NoSuccess(limit, window, h, a, a + window)
    requires h != [] ==> h[|h| - 1].answered <= a + window
    ensures Accounts(limit, window, Run(limit, window, h), Failures(limit, window, h, a, a + window), a)
  {
    if h == [] {
    } else {
      var n := |h| - 1;
      var p, last := h[..n], h[n];
      PrefixFacts(limit, window, h, a, a + window);
      assert p != [] ==> p[|p| - 1] == h[|p| - 1];
      WindowInvariant(limit, window, p, a);
      if last.answered < a {
        EarlierFailuresNotCounted(limit, window, h, a, a + window);
      } else {
        assert AdmittedAt(limit, window, h, n) ==> !last.correct;
      }
    }
  }

  /** Any closed interval of the window's length without a success holds at most 2 * limit - 1 recorded failures. */
  lemma {:induction false} SlidingWindowBound(limit: int, window: int, h: seq<Attempt>, a: int)
    requires limit >= 1 && window >= 0 && Sequential(h)
    requires NoSuccess(limit, window, h, a, a + window)
    ensures Failures(limit, window, h, a, a + window) <= 2 * limit - 1
  {
    if h != [] && h[|h| - 1].answered > a + window {
      PrefixFacts(limit, window, h, a, a + window);
      SlidingWindowBound(limit, window, h[..|h| - 1], a);
    } else {
      WindowInvariant(limit, window, h, a);
    }
  }

  lemma PrefixMore(h: seq<Attempt>, a: Attempt)
    ensures (h + [a])[..|h + [a]| - 1] == h && (h + [a])[|h + [a]| - 1] == a
  {
  }

  /** A login with the right credentials gives the whole quota back: what follows is as if nothing had been
      before it. */
  lemma {:induction false} SuccessForgetsFailures(limit: int, window: int, h: seq<Attempt>, a: Attempt,
                                                  more: seq<Attempt>)
    requires Admits(Run(limit, window, h), limit, a.asked) && a.correct
    ensures Run(limit, window, h + [a] + more) == Run(limit, window, more)
  {
    if more == [] {
      PrefixMore(h, a);
      assert h + [a] + more == h + [a];
    } else {
      var n := |more| - 1;
      SuccessForgetsFailures(limit, window, h, a, more[..n]);
      assert h + [a] + more == (h + [a] + more[..n]) + [more[n]];
      PrefixMore(h + [a] + more[..n], more[n]);
    }
  }

  lemma {:induction false} WiderIntervalHoldsMore(limit: int, window: int, h: seq<Attempt>, a: int, b: int,
                                                   c: int, d: int)
    requires c <= a && b <= d
    ensures Failures(limit, window, h, a, b) <= Failures(limit, window, h, c, d)
  {
    if h == [] {
    } else {
      WiderIntervalHoldsMore(limit, window, h[..|h| - 1], a, b, c, d);
    }
  }

  /** The count of an open window is of failures recorded since it was opened. */
  lemma {:induction false} CountIsEarned(limit: int, window: int, h: seq<Attempt>, b: int)
    requires limit >= 1 && window >= 0 && Sequential(h) && (h != [] ==> h[|h| - 1].answered <= b)
    ensures var e := Run(limit, window, h);
            e.reset != ZERO_TIME ==>
              && e.count <= Failures(limit, window, h, e.reset - window, b)
              && h != [] && e.reset - window <= h[|h| - 1].answered
  {
    if h == [] {
    } else {
      var n := |h| - 1;
      var p, last := h[..n], h[n];
      assert p != [] ==> p[|p| - 1] == h[n - 1] && h[n - 1].answered <= h[n].asked;
      CountIsEarned(limit, window, p, b);
    }
  }

  /** Nobody is refused without cause: a refusal means at least `limit` failures within the last window. */
  lemma RefusalsAreEarned(limit: int, window: int, h: seq<Attempt>, now: int)
    requires limit >= 1 && window >= 0 && Sequential(h) && (h != [] ==> h[|h| - 1].answered <= now)
    requires !Admits(Run(limit, window, h), limit, now)
    ensures Failures(limit, window, h, now - window, now) >= limit
  {
    CountIsEarned(limit, window, h, now);
    var e := Run(limit, window, h);
    WiderIntervalHoldsMore(limit, window, h, e.reset - window, now, now - window, now);
  }

  /** One failure, limit - 1 more when its window ends, and limit in the next window. */
  function Burst(limit: nat, window: nat, n: nat): (h: seq<Attempt>)
    ensures |h| == n
  {
    seq(n, i => var t := if i == 0 then 1 else if i < limit then 1 + window else 2 + window; Attempt(t, t, false))
  }

  lemma {:induction false} BurstIsCounted(limit: nat, window: nat, n: nat)
    requires limit >= 1 && window >= 1 && 1 <= n <= 2 * limit
    ensures var h := Burst(limit, window, n);
            && Run(limit, window, h) ==
                 (if n <= limit then RateEntry(n, 1 + window) else RateEntry(n - limit, 2 + 2 * window))
            && Failures(limit, window, h, 1 + window, 1 + 2 * window) == n - 1
  {
    var h := Burst(limit, window, n);
    var p := h[..n - 1];
    if n == 1 {
      assert p == [];
    } else {
      BurstIsCounted(limit, window, n - 1);
      assert p == Burst(limit, window, n - 1);
    }
  }

  lemma BurstIsAdmissible(limit: nat, window: nat, n: nat)
    ensures var h := Burst(limit, window, n); Sequential(h) && forall i :: 0 <= i < n ==> !h[i].correct
  {
  }

  /** The bound is attained for every limit and window. */
  lemma SlidingWindowBoundIsTight(limit: nat, window: nat) returns (h: seq<Attempt>, a: int)
    requires limit >= 1 && window >= 1
    ensures Sequential(h) && NoSuccess(limit, window, h, a, a + window)
    ensures Failures(limit, window, h, a, a + window) == 2 * limit - 1
  {
    BurstIsCounted(limit, window, 2 * limit);
    BurstIsAdmissible(limit, window, 2 * limit);
    h, a := Burst(limit, window, 2 * limit), 1 + window;
  }

  // ----- concurrent logins of one key -------------------------------------------------------

  /** The locked steps of the limiter; between them other logins of the key may run. */
  datatype Step = Ask(now: int) | Fail(now: int) | Succeed

  datatype Config = Config(entry: RateEntry, inFlight: nat)

  function Next(limit: int, window: int, c: Config, s: Step): Config {
    match s
    case Ask(now) => Config(AfterAsk(c.entry, now), if Admits(c.entry, limit, now) then c.inFlight + 1 else c.inFlight)
    case Fail(now) => Config(AfterFailure(c.entry, window, now), if c.inFlight > 0 then c.inFlight - 1 else 0)
    case Succeed => Config(NOENTRY, if c.inFlight > 0 then c.inFlight - 1 else 0)
  }

  function Interleave(limit: int, window: int, steps: seq<Step>): Config {
    if steps == [] then Config(NOENTRY, 0)
    else Next(limit, window, Interleave(limit, window, steps[..|steps| - 1]), steps[|steps| - 1])
  }

  /** At most `most` admitted logins are unfinished at any time, and only admitted logins report an outcome. */
  predicate InFlightAtMost(limit: int, window: int, steps: seq<Step>, most: nat) {
    steps == [] ||
    var p := steps[..|steps| - 1];
    && InFlightAtMost(limit, window, p, most)
    && (!steps[|steps| - 1].Ask? ==> Interleave(limit, window, p).inFlight > 0)
    && Interleave(limit, window, steps).inFlight <= most
  }

  /** Every unfinished login may still add one failure, and all of them together stay within the bound. */
  lemma {:induction false} ConcurrentBound(limit: int, window: int, steps: seq<Step>, most: nat)
    requires limit >= 1 && InFlightAtMost(limit, window, steps, most)
    ensures var c := Interleave(limit, window, steps);
            c.inFlight <= most && c.entry.count + c.inFlight <= limit - 1 + most && 0 <= c.entry.count
  {
    if steps == [] {
    } else {
      ConcurrentBound(limit, window, steps[..|steps| - 1], most);
    }
  }

  /** A login that nothing interrupts is its two locked steps. */
  lemma AttemptIsTwoSteps(limit: int, window: int, steps: seq<Step>, a: Attempt)
    requires Admits(Interleave(limit, window, steps).entry, limit, a.asked)
    ensures var done := steps + [Ask(a.asked)] + [if a.correct then Succeed else Fail(a.answered)];
            var (c, d) := (Interleave(limit, window, steps), Interleave(limit, window, done));
            d.entry == AfterAttempt(c.entry, limit, window, a) && d.inFlight == c.inFlight
  {
    OneMore(limit, window, steps, Ask(a.asked), 0);
    OneMore(limit, window, steps + [Ask(a.asked)], if a.correct then Succeed else Fail(a.answered), 0);
  }

  lemma OneMore(limit: int, window: int, steps: seq<Step>, s: Step, most: nat)
    ensures Interleave(limit, window, steps + [s]) == Next(limit, window, Interleave(limit, window, steps), s)
    ensures InFlightAtMost(limit, window, steps + [s], most) <==>
              && InFlightAtMost(limit, window, steps, most)
              && (!s.Ask? ==> Interleave(limit, window, steps).inFlight > 0)
              && Interleave(limit, window, steps + [s]).inFlight <= most
  {
    assert (steps + [s])[..|steps + [s]| - 1] == steps;
  }

  /** The entry after n failures at instant 1. */
  function Failed(window: nat, n: nat): RateEntry { if n == 0 then NOENTRY else RateEntry(n, 1 + window) }

  lemma {:induction false} OneByOne(limit: nat, window: nat, most: nat, n: nat) returns (steps: seq<Step>)
    requires n < limit && most >= 1
    ensures InFlightAtMost(limit, window, steps, most)
    ensures Interleave(limit, window, steps) == Config(Failed(window, n), 0)
  {
    if n == 0 {
      steps := [];
    } else {
      var before := OneByOne(limit, window, most, n - 1);
      steps := before + [Ask(1)] + [Fail(1)];
      OneMore(limit, window, before, Ask(1), most);
      OneMore(limit, window, before + [Ask(1)], Fail(1), most);
    }
  }

  lemma {:induction false} AllAdmitted(limit: nat, window: nat, most: nat, n: nat) returns (steps: seq<Step>)
    requires limit >= 1 && most >= 1 && n <= most
    ensures InFlightAtMost(limit, window, steps, most)
    ensures Interleave(limit, window, steps) == Config(Failed(window, limit - 1), n)
  {
    if n == 0 {
      steps := OneByOne(limit, window, most, limit - 1);
    } else {
      var before := AllAdmitted(limit, window, most, n - 1);
      steps := before + [Ask(1)];
      OneMore(limit, window, before, Ask(1), most);
    }
  }

  lemma {:induction false} AllFail(limit: nat, window: nat, most: nat, n: nat) returns (steps: seq<Step>)
    requires limit >= 1 && most >= 1 && n <= most
    ensures InFlightAtMost(limit, window, steps, most)
    ensures Interleave(limit, window, steps) == Config(Failed(window, limit - 1 + n), most - n)
  {
    if n == 0 {
      steps := AllAdmitted(limit, window, most, most);
    } else {
      var before := AllFail(limit, window, most, n - 1);
      steps := before + [Fail(1)];
      OneMore(limit, window, before, Fail(1), most);
    }
  }

  /** The bound is attained for every limit, window and number of logins in flight. */
  lemma ConcurrentBoundIsTight(limit: nat, window: nat, most: nat) returns (steps: seq<Step>)
    requires limit >= 1 && most >= 1
    ensures InFlightAtMost(limit, window, steps, most)
    ensures Interleave(limit, window, steps).entry.count == limit - 1 + most
  {
    steps := AllFail(limit, window, most, most);
  }
}
