/** The login limiter of login_limiter.hpp and the login handler that drives
    it: the limiter's answers are a function of the failure history, cleaning
    up is invisible, and guessing is limited to five failures in 29 seconds.
    Time counts nanoseconds since the epoch, as `system_clock` does. */
module LoginLimiter {

  const SECOND: nat := 1_000_000_000
  const LOCKOUT: nat := 30 * SECOND
  const COOLDOWN: nat := 60 * SECOND
  const MAX_FAILED_ATTEMPTS: nat := 5

  type User = string
  type Time = nat

  datatype Attempt = Attempt(failed: nat, lockoutUntil: Time, lastFail: Time)

  type Attempts = map<User, Attempt>

  // ------------------------------------------------------------ the methods as functions

  predicate Expired(a: Attempt, now: Time) {
    now >= a.lockoutUntil && now - a.lastFail >= COOLDOWN
  }

  function Remaining(m: Attempts, user: User, now: Time): nat {
    if user in m && now < m[user].lockoutUntil then (m[user].lockoutUntil - now) / SECOND else 0
  }

  function AfterQuery(m: Attempts, user: User, now: Time): Attempts {
    if user in m && Expired(m[user], now) then m - {user} else m
  }

  /** The clock is read at `now`, and again at `later` when a lockout starts. */
  function AfterFailure(m: Attempts, user: User, now: Time, later: Time): Attempts {
    var old' := if user in m then m[user] else Attempt(0, 0, 0);
    var failed := (if now >= old'.lastFail && now - old'.lastFail >= COOLDOWN then 0 else old'.failed) + 1;
    m[user := Attempt(failed, if failed >= MAX_FAILED_ATTEMPTS then later + LOCKOUT else old'.lockoutUntil, now)]
  }

  function AfterCleanup(m: Attempts, now: Time): Attempts {
    map user | user in m && !Expired(m[user], now) :: m[user]
  }

  /** What the calls do to each user's entry, in numbers: a check or a sweep
      erases it once the lockout is past and 60 s have gone by since the last
      failure, and touches nothing else. */
  lemma ErasingInNumbers(m: Attempts, user: User, now: Time, u: User)
    ensures var over := u in m && now >= m[u].lockoutUntil && now >= m[u].lastFail + 60_000_000_000;
            && (u in AfterQuery(m, user, now) <==> u in m && !(u == user && over))
            && (u in AfterQuery(m, user, now) ==> AfterQuery(m, user, now)[u] == m[u])
            && (u in AfterCleanup(m, now) <==> u in m && !over)
            && (u in AfterCleanup(m, now) ==> AfterCleanup(m, now)[u] == m[u])
  {
  }

  /** A failure less than 60 s after the last one counts on, a later one counts
      from one; the fifth and every further one locks for 30 s. */
  lemma FailureInNumbers(m: Attempts, user: User, now: Time, later: Time, u: User)
    ensures var m' := AfterFailure(m, user, now, later);
            && (u != user ==> (u in m' <==> u in m) && (u in m ==> m'[u] == m[u]))
            && user in m' && m'[user].lastFail == now
            && m'[user].failed == (if user in m && now < m[user].lastFail + 60_000_000_000
                                   then m[user].failed + 1 else 1)
            && (m'[user].failed >= 5 ==> m'[user].lockoutUntil == later + 30_000_000_000)
            && (m'[user].failed < 5 ==> m'[user].lockoutUntil == if user in m then m[user].lockoutUntil else 0)
  {
  }

  /** The answer counts the whole seconds that are left. */
  lemma AnswerInNumbers(m: Attempts, user: User, now: Time)
    ensures user in m && now < m[user].lockoutUntil ==>
              var left := m[user].lockoutUntil - now;
              1_000_000_000 * Remaining(m, user, now) <= left < 1_000_000_000 * Remaining(m, user, now) + 1_000_000_000
    ensures !(user in m && now < m[user].lockoutUntil) ==> Remaining(m, user, now) == 0
  {
  }

  class Limiter {
    var attempts: Attempts

    constructor ()
      ensures attempts == map[]
    {
      attempts := map[];
    }

    method GetRemainingLockoutTime(user: User, now: Time) returns (seconds: nat)
      modifies this
      ensures seconds == Remaining(old(attempts), user, now)
      ensures attempts == AfterQuery(old(attempts), user, now)
    {
      if user !in attempts {
        return 0;
      }
      var it := attempts[user];
      if now >= it.lockoutUntil && now - it.lastFail >= COOLDOWN {
        attempts := attempts - {user};
        return 0;
      }
      if now < it.lockoutUntil {
        return (it.lockoutUntil - now) / SECOND;
      }
      return 0;
    }

    method RecordFailure(user: User, now: Time, later: Time)
      modifies this
      ensures attempts == AfterFailure(old(attempts), user, now, later)
    {
      if user !in attempts {
        attempts := attempts[user := Attempt(0, 0, 0)];
      }
      var attempt := attempts[user];
      if now >= attempt.lastFail && now - attempt.lastFail >= COOLDOWN {
        attempt := attempt.(failed := 0);
      }
      attempt := attempt.(failed := attempt.failed + 1, lastFail := now);
      if attempt.failed >= MAX_FAILED_ATTEMPTS {
        attempt := attempt.(lockoutUntil := later + LOCKOUT);
      }
      attempts := attempts[user := attempt];
    }

    method ResetAttempts(user: User)
      modifies this
      ensures attempts == old(attempts) - {user}
    {
      attempts := attempts - {user};
    }

    /** The iterator loop visits every entry once, in no particular order. */
    method CleanupExpiredAttempts(now: Time)
      modifies this
      ensures attempts == AfterCleanup(old(attempts), now)
    {
      var rest := attempts.Keys;
      while rest != {}
        invariant rest <= attempts.Keys <= old(attempts).Keys
        invariant forall u :: u in old(attempts) ==>
                    (u in attempts <==> u in rest || !Expired(old(attempts)[u], now))
        invariant forall u :: u in attempts ==> attempts[u] == old(attempts)[u]
        decreases |rest|
      {
        var user :| user in rest;
        if now >= attempts[user].lockoutUntil && now - attempts[user].lastFail >= COOLDOWN {
          attempts := attempts - {user};
        }
        rest := rest - {user};
      }
    }
  }

  // ------------------------------------------------------------ runs

  datatype Event =
    | Query(user: User, now: Time)
    | Fail(user: User, now: Time, later: Time)
    | Success(user: User)
    | Cleanup(now: Time)

  function Apply(m: Attempts, e: Event): Attempts {
    match e
    case Query(user, now) => AfterQuery(m, user, now)
    case Fail(user, now, later) => AfterFailure(m, user, now, later)
    case Success(user) => m - {user}
    case Cleanup(now) => AfterCleanup(m, now)
  }

  function Front<T>(s: seq<T>): seq<T>
    requires s != []
  {
    s[..|s| - 1]
  }

  function Last<T>(s: seq<T>): T
    requires s != []
  {
    s[|s| - 1]
  }

  function After(events: seq<Event>): Attempts {
    if events == [] then map[] else Apply(After(Front(events)), Last(events))
  }

  /** The latest clock reading of a run. */
  function Clock(events: seq<Event>): Time {
    if events == [] then 0
    else
      match Last(events)
      case Query(_, now) => now
      case Fail(_, _, later) => later
      case Success(_) => Clock(Front(events))
      case Cleanup(now) => now
  }

  /** The clock never goes back. */
  predicate Ordered(events: seq<Event>) {
    events == [] ||
    (&& Ordered(Front(events))
     && match Last(events)
        case Query(_, now) => Clock(Front(events)) <= now
        case Fail(_, now, later) => Clock(Front(events)) <= now <= later
        case Success(_) => true
        case Cleanup(now) => Clock(Front(events)) <= now)
  }

  datatype Failure = Failure(at: Time, later: Time)

  /** A user's failures since the last success. */
  function History(events: seq<Event>, user: User): seq<Failure> {
    if events == [] then []
    else
      var before := History(Front(events), user);
      match Last(events)
      case Fail(u, now, later) => if u == user then before + [Failure(now, later)] else before
      case Success(u) => if u == user then [] else before
      case Query(_, _) => before
      case Cleanup(_) => before
  }

  /** How many failures the latest run has; gaps below the cooldown join. */
  function RunLength(h: seq<Failure>): nat {
    if h == [] then 0
    else if |h| > 1 && h[|h| - 1].at - h[|h| - 2].at < COOLDOWN then RunLength(Front(h)) + 1
    else 1
  }

  /** When the last lockout that the history started ends, 0 if it started none. */
  function Until(h: seq<Failure>): Time {
    if h == [] then 0
    else if RunLength(h) >= MAX_FAILED_ATTEMPTS then Last(h).later + LOCKOUT
    else Until(Front(h))
  }

  /** The whole seconds from `now` to a point in time, 0 if it is past. */
  function SecondsLeft(end: Time, now: Time): nat {
    if now < end then (end - now) / SECOND else 0
  }

  /** The whole seconds of lockout when only the latest run matters. */
  function LockoutOf(h: seq<Failure>, now: Time): nat {
    if RunLength(h) >= MAX_FAILED_ATTEMPTS then SecondsLeft(Last(h).later + LOCKOUT, now) else 0
  }

  /** The two clock readings of one failure lie less than 31 seconds apart; they
      coincide when the clock is read once. */
  predicate Prompt(h: seq<Failure>) {
    forall i :: 0 <= i < |h| ==> h[i].later - h[i].at < COOLDOWN - LOCKOUT + SECOND
  }

  // ------------------------------------------------------------ the answer is a function of the history

  lemma {:induction false} HistoryIsPast(events: seq<Event>, user: User)
    requires Ordered(events)
    ensures forall i :: 0 <= i < |History(events, user)| ==>
              History(events, user)[i].at <= History(events, user)[i].later <= Clock(events)
    ensures forall i, j :: 0 <= i < j < |History(events, user)| ==>
              History(events, user)[i].later <= History(events, user)[j].at
    decreases |events|
  {
    if events != [] {
      HistoryIsPast(Front(events), user);
    }
  }

  /** What the map knows about a user: the length of the latest run, its last
      failure, and the end of the last lockout unless that is past; or nothing,
      once all of it is over. */
  predicate Represents(m: Attempts, user: User, h: seq<Failure>, clock: Time) {
    if user in m then
      && h != [] && m[user].failed == RunLength(h) && m[user].lastFail == Last(h).at
      && (m[user].lockoutUntil == Until(h) || (m[user].lockoutUntil <= clock && Until(h) <= clock))
    else
      h == [] || (clock >= Last(h).at + COOLDOWN && clock >= Until(h))
  }

  lemma ErasingKeeps(m: Attempts, m': Attempts, user: User, h: seq<Failure>, clock: Time, now: Time)
    requires Represents(m, user, h, clock) && clock <= now
    requires user in m' ==> user in m && m'[user] == m[user]
    requires user in m && user !in m' ==> Expired(m[user], now)
    ensures Represents(m', user, h, now)
  {
    hide RunLength, Until;
  }

  lemma FailureKeeps(m: Attempts, user: User, h: seq<Failure>, clock: Time, now: Time, later: Time)
    requires Represents(m, user, h, clock) && clock <= now <= later
    requires h != [] ==> Last(h).at <= clock
    ensures Represents(AfterFailure(m, user, now, later), user, h + [Failure(now, later)], later)
  {
    RunGrows(h, Failure(now, later));
    hide RunLength, Until;
  }

  lemma RunGrows(h: seq<Failure>, f: Failure)
    ensures RunLength(h + [f]) == if h != [] && f.at - Last(h).at < COOLDOWN then RunLength(h) + 1 else 1
    ensures Until(h + [f]) ==
            if RunLength(h + [f]) >= MAX_FAILED_ATTEMPTS then f.later + LOCKOUT else Until(h)
    ensures Until([]) == 0
  {
    assert Front(h + [f]) == h;
  }

  lemma {:induction false} MapRepresentsHistory(events: seq<Event>, user: User)
    requires Ordered(events)
    ensures Represents(After(events), user, History(events, user), Clock(events))
    decreases |events|
  {
    hide RunLength, Until;
    if events != [] {
      var front, e := Front(events), Last(events);
      var h := History(front, user);
      var m, now := After(front), Clock(events);
      if !(e.Success? && e.user == user) {
        MapRepresentsHistory(front, user);
        HistoryIsPast(front, user);
        if e.Fail? && e.user == user {
          FailureKeeps(m, user, h, Clock(front), e.now, e.later);
        } else {
          ErasingKeeps(m, After(events), user, h, Clock(front), now);
        }
      }
    }
  }

  /** `getRemainingLockoutTime` after any run, for every user: the whole seconds
      to the end of the last lockout started since the last success, whatever
      has been erased in between. */
  lemma AnswerIsHistory(events: seq<Event>, user: User, now: Time)
    requires Ordered(events) && Clock(events) <= now
    ensures Remaining(After(events), user, now) == SecondsLeft(Until(History(events, user)), now)
  {
    MapRepresentsHistory(events, user);
    hide RunLength;
  }

  /** The latest run alone decides, unless it is short and an older lockout
      still has a second to go. */
  lemma WhenLatestRunDecides(events: seq<Event>, user: User, now: Time)
    requires Ordered(events) && Clock(events) <= now
    ensures var h := History(events, user);
            Remaining(After(events), user, now) == LockoutOf(h, now)
            <==> RunLength(h) >= MAX_FAILED_ATTEMPTS || Until(h) < now + SECOND
  {
    AnswerIsHistory(events, user, now);
  }

  /** With prompt readings the lockout of an earlier run ends less than a second
      after the latest failure. */
  lemma {:induction false} OlderLockoutIsOver(h: seq<Failure>)
    requires Prompt(h) && RunLength(h) < MAX_FAILED_ATTEMPTS
    requires forall i, j :: 0 <= i < j < |h| ==> h[i].at <= h[j].at
    ensures h != [] ==> Until(h) < Last(h).at + SECOND
    ensures h == [] ==> Until(h) == 0
    decreases |h|
  {
    if |h| > 1 {
      var front := Front(h);
      assert Last(front) == h[|h| - 2];
      if RunLength(front) < MAX_FAILED_ATTEMPTS {
        OlderLockoutIsOver(front);
      }
    }
  }

  /** With prompt readings the latest run always decides. */
  lemma PromptAnswer(events: seq<Event>, user: User, now: Time)
    requires Ordered(events) && Clock(events) <= now && Prompt(History(events, user))
    ensures Remaining(After(events), user, now) == LockoutOf(History(events, user), now)
  {
    WhenLatestRunDecides(events, user, now);
    HistoryIsPast(events, user);
    var h := History(events, user);
    if RunLength(h) < MAX_FAILED_ATTEMPTS {
      OlderLockoutIsOver(h);
    }
    hide RunLength, Until;
  }

  /** Thirty-one seconds is the exact margin: with readings that far apart an
      old lockout can outlive the cooldown by a second. */
  lemma SlowReadingBreaksTheFormula(user: User)
    ensures var f := Fail(user, 0, 0);
            var events := [f, f, f, f, Fail(user, 0, 31 * SECOND), Fail(user, 60 * SECOND, 60 * SECOND)];
            && Ordered(events) && Clock(events) == 60 * SECOND
            && (forall i :: 0 <= i < |History(events, user)| ==>
                  History(events, user)[i].later - History(events, user)[i].at <= 31 * SECOND)
            && Remaining(After(events), user, 60 * SECOND) == 1
            && LockoutOf(History(events, user), 60 * SECOND) == 0
  {
    hide After, Apply, Ordered, Clock, History;
    NothingYet(user);
    var f, g := Fail(user, 0, 0), Fail(user, 0, 31 * SECOND);
    var x, y := Failure(0, 0), Failure(0, 31 * SECOND);
    var slow := Fail(user, 60 * SECOND, 60 * SECOND);
    var e1 := [] + [f];
    var e2, e3, e4, e5 := e1 + [f], e1 + [f] + [f], e1 + [f] + [f] + [f], e1 + [f] + [f] + [f] + [g];
    FailureNext([], user, 0, 0);
    assert After(e1)[user] == Attempt(1, 0, 0);
    FailureNext(e1, user, 0, 0);
    assert After(e2)[user] == Attempt(2, 0, 0);
    FailureNext(e2, user, 0, 0);
    assert After(e3)[user] == Attempt(3, 0, 0);
    FailureNext(e3, user, 0, 0);
    assert After(e4)[user] == Attempt(4, 0, 0);
    FailureNext(e4, user, 0, 31 * SECOND);
    assert After(e5)[user] == Attempt(5, 61 * SECOND, 0);
    FailureNext(e5, user, 60 * SECOND, 60 * SECOND);
    assert e5 + [slow] == [f, f, f, f, g, slow];
    var h := [x, x, x, x, y, Failure(60 * SECOND, 60 * SECOND)];
    assert History(e5 + [slow], user) == h;
    assert RunLength(h) == 1;
  }

  lemma NothingYet(user: User)
    ensures Ordered([]) && Clock([]) == 0 && After([]) == map[] && History([], user) == []
  {
  }

  lemma FailureNext(events: seq<Event>, user: User, now: Time, later: Time)
    requires Ordered(events) && Clock(events) <= now <= later
    ensures var next := events + [Fail(user, now, later)];
            && Ordered(next) && Clock(next) == later
            && After(next) == AfterFailure(After(events), user, now, later)
            && History(next, user) == History(events, user) + [Failure(now, later)]
  {
    assert Front(events + [Fail(user, now, later)]) == events;
  }

  // ------------------------------------------------------------ cleaning up is invisible

  /** Two views of one user's entry, one possibly swept and one not: equal up
      to entries that are over and lockouts that are past. */
  predicate Alike(m: Attempts, n: Attempts, user: User, clock: Time) {
    || (Over(m, user, clock) && Over(n, user, clock))
    || (&& user in m && user in n
        && m[user].failed == n[user].failed && m[user].lastFail == n[user].lastFail
        && (|| m[user].lockoutUntil == n[user].lockoutUntil
            || (m[user].lockoutUntil <= clock && n[user].lockoutUntil <= clock)))
  }

  predicate Over(m: Attempts, user: User, clock: Time) {
    user in m ==> Expired(m[user], clock)
  }

  lemma AlikeLater(m: Attempts, n: Attempts, m': Attempts, n': Attempts, user: User, clock: Time, now: Time)
    requires Alike(m, n, user, clock) && clock <= now
    requires user in m' ==> user in m && m'[user] == m[user]
    requires user in n' ==> user in n && n'[user] == n[user]
    requires user in m && user !in m' ==> Expired(m[user], now)
    requires user in n && user !in n' ==> Expired(n[user], now)
    ensures Alike(m', n', user, now)
  {
  }

  lemma AlikeFailure(m: Attempts, n: Attempts, user: User, clock: Time, now: Time, later: Time)
    requires Alike(m, n, user, clock) && clock <= now <= later
    ensures Alike(AfterFailure(m, user, now, later), AfterFailure(n, user, now, later), user, later)
  {
  }

  lemma AlikeAnswers(m: Attempts, n: Attempts, user: User, clock: Time, now: Time)
    requires Alike(m, n, user, clock) && clock <= now
    ensures Remaining(m, user, now) == Remaining(n, user, now)
  {
  }

  function WithoutCleanup(events: seq<Event>): seq<Event> {
    if events == [] then []
    else WithoutCleanup(Front(events)) + if Last(events).Cleanup? then [] else [Last(events)]
  }

  /** Sweeps alone are left out, and the other calls keep their order. */
  lemma OnlySweepsLeftOut(events: seq<Event>, e: Event)
    ensures WithoutCleanup([]) == []
    ensures e.Cleanup? ==> WithoutCleanup(events + [e]) == WithoutCleanup(events)
    ensures !e.Cleanup? ==> WithoutCleanup(events + [e]) == WithoutCleanup(events) + [e]
  {
    assert Front(events + [e]) == events;
  }

  lemma {:induction false} SweptRunIsAlike(events: seq<Event>, user: User)
    requires Ordered(events)
    ensures Alike(After(events), After(WithoutCleanup(events)), user, Clock(events))
    decreases |events|
  {
    if events != [] {
      var front, e := Front(events), Last(events);
      SweptRunIsAlike(front, user);
      SweptRunStep(events);
      hide After, WithoutCleanup;
      AlikeStep(After(front), After(WithoutCleanup(front)), user, Clock(front), e);
    }
  }

  lemma SweptRunStep(events: seq<Event>)
    requires events != [] && Ordered(events)
    ensures var front, e := Front(events), Last(events);
            && After(events) == Apply(After(front), e)
            && After(WithoutCleanup(events)) ==
               (if e.Cleanup? then After(WithoutCleanup(front)) else Apply(After(WithoutCleanup(front)), e))
            && Ordered(front) && Clock(front) <= Clock(events) && Clock(events) == ClockAfter(Clock(front), e)
            && (e.Fail? ==> Clock(front) <= e.now <= e.later)
  {
    var front, e := Front(events), Last(events);
    if e.Cleanup? {
      assert WithoutCleanup(events) == WithoutCleanup(front);
    } else {
      assert Front(WithoutCleanup(events)) == WithoutCleanup(front);
      assert Last(WithoutCleanup(events)) == e;
    }
  }

  function ClockAfter(clock: Time, e: Event): Time {
    match e
    case Query(_, now) => now
    case Fail(_, _, later) => later
    case Success(_) => clock
    case Cleanup(now) => now
  }

  /** The same call on both sides, or a sweep on one. */
  lemma AlikeStep(m: Attempts, n: Attempts, user: User, clock: Time, e: Event)
    requires Alike(m, n, user, clock) && clock <= ClockAfter(clock, e)
    requires e.Fail? ==> clock <= e.now <= e.later
    ensures Alike(Apply(m, e), if e.Cleanup? then n else Apply(n, e), user, ClockAfter(clock, e))
  {
    if e.Fail? && e.user == user {
      AlikeFailure(m, n, user, clock, e.now, e.later);
    } else if !(e.Success? && e.user == user) {
      AlikeLater(m, n, Apply(m, e), if e.Cleanup? then n else Apply(n, e), user, clock, ClockAfter(clock, e));
    }
  }

  /** However often and whenever the sweeper runs, every later answer is the
      one without it, although swept entries restart with another lockout. */
  lemma CleanupIsInvisible(events: seq<Event>, user: User, now: Time)
    requires Ordered(events) && Clock(events) <= now
    ensures Remaining(After(events), user, now) == Remaining(After(WithoutCleanup(events)), user, now)
  {
    SweptRunIsAlike(events, user);
    AlikeAnswers(After(events), After(WithoutCleanup(events)), user, Clock(events), now);
  }

  // ------------------------------------------------------------ the login handler

  datatype AuthResult = AuthSuccess | AuthFail | AuthDbError

  datatype Request = Request(username: User, password: string, validName: bool, auth: AuthResult,
                             checkedAt: Time, failedAt: Time, failedLater: Time)

  /** The limiter calls of one request: check, and only if the answer is 0 the
      password result is recorded. */
  function CallsOf(m: Attempts, r: Request): seq<Event> {
    if r.username == "" || r.password == "" || !r.validName then []
    else
      var check := Query(r.username, r.checkedAt);
      if Remaining(m, r.username, r.checkedAt) > 0 then [check]
      else
        match r.auth
        case AuthSuccess => [check, Success(r.username)]
        case AuthFail => [check, Fail(r.username, r.failedAt, r.failedLater)]
        case AuthDbError => [check]
  }

  function ApplyAll(m: Attempts, events: seq<Event>): Attempts {
    if events == [] then m else Apply(ApplyAll(m, Front(events)), Last(events))
  }

  /** The request is well formed, so that the limiter is asked. */
  predicate Reaches(r: Request) { r.username != "" && r.password != "" && r.validName }

  /** A wrong password for an admitted user lengthens that user's history by one
      failure, a right one clears it, and nothing else that a request does
      changes any history. */
  lemma RequestInHistory(events: seq<Event>, r: Request, user: User)
    ensures var before, after := History(events, user), History(events + CallsOf(After(events), r), user);
            var admitted := Reaches(r) && Remaining(After(events), r.username, r.checkedAt) == 0;
            && (admitted && user == r.username && r.auth == AuthFail ==>
                  after == before + [Failure(r.failedAt, r.failedLater)])
            && (admitted && user == r.username && r.auth == AuthSuccess ==> after == [])
            && (!admitted || user != r.username || r.auth == AuthDbError ==> after == before)
  {
    hide After;
    var calls := CallsOf(After(events), r);
    if |calls| == 0 {
      assert events + calls == events;
    } else if |calls| == 1 {
      assert Front(events + calls) == events;
    } else {
      var one := events + [calls[0]];
      assert Front(events + calls) == one && Front(one) == events;
    }
  }

  /** `handleLogin`, with the HTTP status it sets. */
  method HandleLogin(limiter: Limiter, r: Request) returns (status: nat)
    modifies limiter
    ensures limiter.attempts == ApplyAll(old(limiter.attempts), CallsOf(old(limiter.attempts), r))
    ensures status == 401 <==> exists e :: e in CallsOf(old(limiter.attempts), r) && e.Fail?
    ensures status == 429 <==> CallsOf(old(limiter.attempts), r) != []
                               && Remaining(old(limiter.attempts), r.username, r.checkedAt) > 0
    ensures r.username == "" || r.password == "" || !r.validName ==>
              status == 400 && limiter.attempts == old(limiter.attempts)
    ensures Reaches(r) && Remaining(old(limiter.attempts), r.username, r.checkedAt) > 0 ==>
              status == 429 && limiter.attempts == AfterQuery(old(limiter.attempts), r.username, r.checkedAt)
    ensures Reaches(r) && Remaining(old(limiter.attempts), r.username, r.checkedAt) == 0 ==>
              var checked := AfterQuery(old(limiter.attempts), r.username, r.checkedAt);
              match r.auth
              case AuthFail =>
                status == 401
                && limiter.attempts == AfterFailure(checked, r.username, r.failedAt, r.failedLater)
              case AuthSuccess =>
                status == 200 && r.username !in limiter.attempts && limiter.attempts == checked - {r.username}
              case AuthDbError => status == 503 && limiter.attempts == checked
  {
    ghost var m := limiter.attempts;
    if r.username == "" || r.password == "" {
      return 400;
    }
    if !r.validName {
      return 400;
    }
    var check := Query(r.username, r.checkedAt);
    var remaining := limiter.GetRemainingLockoutTime(r.username, r.checkedAt);
    assert Front([check]) == [];
    assert limiter.attempts == ApplyAll(m, [check]);
    if remaining > 0 {
      return 429;
    }
    match r.auth {
      case AuthSuccess =>
        limiter.ResetAttempts(r.username);
        assert Front([check, Success(r.username)]) == [check];
        status := 200;
      case AuthFail =>
        limiter.RecordFailure(r.username, r.failedAt, r.failedLater);
        ghost var fail := Fail(r.username, r.failedAt, r.failedLater);
        assert Front([check, fail]) == [check] && fail in [check, fail];
        status := 401;
      case AuthDbError =>
        status := 503;
    }
  }

  /** When the last call for `user` was a check answered with 0, the time of
      that check. */
  datatype Admission = Refused | Admitted(at: Time)

  function AdmissionOf(events: seq<Event>, user: User): Admission {
    if events == [] then Refused
    else
      match Last(events)
      case Query(u, now) =>
        if u != user then AdmissionOf(Front(events), user)
        else if Remaining(After(Front(events)), user, now) == 0 then Admitted(now) else Refused
      case Fail(u, _, _) => if u == user then Refused else AdmissionOf(Front(events), user)
      case Success(u) => if u == user then Refused else AdmissionOf(Front(events), user)
      case Cleanup(_) => AdmissionOf(Front(events), user)
  }

  /** One user's requests handled one at a time: each recorded failure follows
      its own admitting check. Other users' calls and the sweeper may fall in
      between anywhere. */
  predicate OneAtATime(events: seq<Event>, user: User) {
    events == [] ||
    (&& OneAtATime(Front(events), user)
     && (Last(events).Fail? && Last(events).user == user ==> AdmissionOf(Front(events), user).Admitted?))
  }

  /** The handler keeps to that, whatever came before. */
  lemma HandlerIsOneAtATime(events: seq<Event>, r: Request, user: User)
    requires OneAtATime(events, user)
    ensures OneAtATime(events + CallsOf(After(events), r), user)
    ensures After(events + CallsOf(After(events), r)) == ApplyAll(After(events), CallsOf(After(events), r))
  {
    hide After, Apply, OneAtATime, AdmissionOf;
    var m := After(events);
    var calls := CallsOf(m, r);
    if |calls| == 0 {
      assert events + calls == events;
    } else {
      var one := events + [calls[0]];
      OneMore(events, calls[0], user);
      assert ApplyAll(m, [calls[0]]) == Apply(m, calls[0]) by {
        assert Front([calls[0]]) == [];
      }
      if |calls| == 1 {
        assert calls == [calls[0]];
      } else {
        assert calls == [calls[0], calls[1]] && events + calls == one + [calls[1]];
        CheckAdmits(events, r.username, r.checkedAt);
        OneMore(one, calls[1], user);
        assert Front(calls) == [calls[0]] && Last(calls) == calls[1];
      }
    }
  }

  lemma OneMore(events: seq<Event>, e: Event, user: User)
    requires OneAtATime(events, user)
    requires e.Fail? && e.user == user ==> AdmissionOf(events, user).Admitted?
    ensures OneAtATime(events + [e], user)
    ensures After(events + [e]) == Apply(After(events), e)
  {
    hide Apply;
    assert Front(events + [e]) == events && Last(events + [e]) == e;
  }

  lemma CheckAdmits(events: seq<Event>, user: User, now: Time)
    requires Remaining(After(events), user, now) == 0
    ensures AdmissionOf(events + [Query(user, now)], user) == Admitted(now)
  {
    hide After;
    assert Front(events + [Query(user, now)]) == events;
  }

  lemma {:induction false} AdmissionMeansUnlocked(events: seq<Event>, user: User)
    requires Ordered(events) && AdmissionOf(events, user).Admitted?
    ensures Until(History(events, user)) < AdmissionOf(events, user).at + SECOND
    ensures AdmissionOf(events, user).at <= Clock(events)
    ensures forall i :: 0 <= i < |History(events, user)| ==>
              History(events, user)[i].later <= AdmissionOf(events, user).at
    decreases |events|
  {
    hide RunLength, Until;
    var front, e := Front(events), Last(events);
    assert History(front, user) == History(events, user);
    if e.Query? && e.user == user {
      AnswerIsHistory(front, user, e.now);
      HistoryIsPast(front, user);
    } else {
      AdmissionMeansUnlocked(front, user);
    }
  }

  lemma {:induction false} FiveCloseFailures(h: seq<Failure>, n: nat)
    requires n < |h| && forall i, j :: 0 <= i < j < |h| ==> h[i].at <= h[j].at
    requires Last(h).at - h[|h| - 1 - n].at < COOLDOWN
    ensures RunLength(h) >= n + 1
    decreases |h|
  {
    if n > 0 {
      FiveCloseFailures(Front(h), n - 1);
    }
  }

  predicate Spread(h: seq<Failure>) {
    forall i :: 0 <= i < |h| - 5 ==> h[i].at + 29 * SECOND < h[i + 5].at
  }

  lemma SixthIsLate(h: seq<Failure>, admitted: Time, f: Failure)
    requires Spread(h) && Until(h) < admitted + SECOND && admitted <= f.at
    requires h != [] ==> Last(h).later <= admitted
    requires forall i, j :: 0 <= i < j < |h| ==> h[i].at <= h[j].at
    requires forall i :: 0 <= i < |h| ==> h[i].at <= h[i].later
    ensures Spread(h + [f])
  {
    if |h| >= 5 {
      var first := h[|h| - 5].at;
      if Last(h).at - first < COOLDOWN {
        FiveCloseFailures(h, 4);
        assert Until(h) == Last(h).later + LOCKOUT;
      }
    }
  }

  /** Without a success in between, a user's sixth recorded failure comes more
      than 29 seconds after the first. */
  lemma {:induction false} FailuresAreSpread(events: seq<Event>, user: User)
    requires Ordered(events) && OneAtATime(events, user)
    ensures Spread(History(events, user))
    decreases |events|
  {
    hide RunLength, Until;
    if events != [] {
      var front, e := Front(events), Last(events);
      if !(e.Success? && e.user == user) {
        var h := History(front, user);
        assert forall i :: 0 <= i < |h| ==> h[i] == History(events, user)[i];
        FailuresAreSpread(front, user);
        if e.Fail? && e.user == user {
          AdmissionMeansUnlocked(front, user);
          HistoryIsPast(front, user);
          SixthIsLate(h, AdmissionOf(front, user).at, Failure(e.now, e.later));
        }
      }
    }
  }

  function CountWithin(h: seq<Failure>, from: Time, to: Time): nat {
    if h == [] then 0 else CountWithin(Front(h), from, to) + if from <= Last(h).at <= to then 1 else 0
  }

  lemma {:induction false} CountWithinIsCount(h: seq<Failure>, from: Time, to': Time)
    ensures CountWithin(h, from, to') == |set i: nat | i < |h| && from <= h[i].at <= to'|
  {
    var all := set i: nat | i < |h| && from <= h[i].at <= to';
    if h == [] {
      assert all == {};
    } else {
      var n := |h| - 1;
      var fewer := set i: nat | i < |Front(h)| && from <= Front(h)[i].at <= to';
      CountWithinIsCount(Front(h), from, to');
      assert all == fewer + if from <= h[n].at <= to' then {n} else {};
    }
  }

  /** The failures counted are a stretch of the history. */
  lemma {:induction false} WindowSpan(h: seq<Failure>, from: Time, to: Time) returns (i: nat)
    requires forall i, j :: 0 <= i < j < |h| ==> h[i].at <= h[j].at
    ensures var n := CountWithin(h, from, to);
            i + n <= |h| && (n > 0 ==> from <= h[i].at && h[i + n - 1].at <= to)
    decreases |h|
  {
    i := 0;
    if h != [] {
      i := WindowSpan(Front(h), from, to);
      if from <= Last(h).at <= to {
        var m := CountWithin(Front(h), from, to);
        assert m > 0 ==> h[i].at <= h[|h| - 1 - m].at;
        i := |h| - 1 - m;
      }
    }
  }

  lemma LongStretch(h: seq<Failure>, i: nat, n: nat)
    requires Spread(h) && n > 5 && i + n <= |h|
    requires forall i, j :: 0 <= i < j < |h| ==> h[i].at <= h[j].at
    ensures h[i].at + 29 * SECOND < h[i + n - 1].at
  {
    assert i + 5 == i + n - 1 || h[i + 5].at <= h[i + n - 1].at;
  }

  /** No 29-second window holds more than five of a user's failures since the
      last success. */
  lemma AtMostFivePerWindow(events: seq<Event>, user: User, from: Time)
    requires Ordered(events) && OneAtATime(events, user)
    ensures CountWithin(History(events, user), from, from + 29 * SECOND) <= 5
  {
    var h := History(events, user);
    FailuresAreSpread(events, user);
    HistoryIsPast(events, user);
    var n := CountWithin(h, from, from + 29 * SECOND);
    var i := WindowSpan(h, from, from + 29 * SECOND);
    if n > 5 {
      LongStretch(h, i, n);
    }
  }
}
