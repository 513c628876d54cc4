/**
  The login throttle and the session table of the hub (internal/hub/auth.go). Each method is what happens under one
  hold of the lock; a login holds it twice, and issues its session with the time it read the first time.
 */
module Auth {
  import opened Ordering
  import opened HubDb

  const MINUTE: int := 60 * 1_000_000_000
  const SESSION_LIFE: int := 8 * 60 * MINUTE
  const MAX_ATTEMPTS: nat := 20
  const MAX_SESSIONS: nat := 128

  type Sessions = map<Digest, int>

  /** The throttle: when the window began (None: the zero time, ages ago) and the attempts since. */
  datatype Throttle = Throttle(window: Option<int>, attempts: nat)

  predicate Expired(t: Throttle, now: int) {
    t.window.None? || now - t.window.value >= MINUTE
  }

  function Attempted(t: Throttle, now: int): Throttle {
    if Expired(t, now) then Throttle(Some(now), 1) else t.(attempts := t.attempts + 1)
  }

  /** The attempt is among the first twenty of its window. */
  predicate Admits(t: Throttle, now: int) {
    Expired(t, now) || t.attempts < MAX_ATTEMPTS
  }

  /** The sessions still alive. */
  function Purge(sessions: Sessions, now: int): Sessions {
    map d | d in sessions && now < sessions[d] :: sessions[d]
  }

  predicate CanIssue(sessions: Sessions, now: int) {
    |Purge(sessions, now)| < MAX_SESSIONS
  }

  function Issued(sessions: Sessions, token: string, now: int): Sessions {
    if CanIssue(sessions, now) then Purge(sessions, now)[Sha256(token) := now + SESSION_LIFE] else Purge(sessions, now)
  }

  /** A session is given exactly when fewer than 128 are alive; those stay, and only they. */
  lemma IssuedMeans(sessions: Sessions, token: string, now: int)
    ensures CanIssue(sessions, now) <==> |set d | d in sessions && now < sessions[d]| < 128
    ensures forall d | d in Issued(sessions, token, now) :: now < Issued(sessions, token, now)[d]
    ensures forall d | d in sessions && now < sessions[d] && d != Sha256(token) ::
              d in Issued(sessions, token, now) && Issued(sessions, token, now)[d] == sessions[d]
    ensures forall d | d in Issued(sessions, token, now) && d != Sha256(token) :: d in sessions
  {
    assert Purge(sessions, now).Keys == set d | d in sessions && now < sessions[d];
  }

  predicate Accepts(sessions: Sessions, token: string, now: int) {
    Sha256(token) in sessions && now < sessions[Sha256(token)]
  }

  class AuthState {
    var sessions: Sessions
    var window: Option<int>
    var attempts: nat

    constructor ()
      ensures sessions == map[] && window == None && attempts == 0
    {
      sessions, window, attempts := map[], None, 0;
    }

    ghost function Limits(): Throttle
      reads this
    {
      Throttle(window, attempts)
    }

    /** The first part of a login: is the attempt within the limit? */
    method Attempt(now: int) returns (limited: bool)
      modifies this
      ensures Limits() == Attempted(old(Limits()), now) && sessions == old(sessions)
      ensures limited <==> !Admits(old(Limits()), now)
    {
      if window.None? || now - window.value >= MINUTE {
        window := Some(now);
        attempts := 0;
      }
      attempts := attempts + 1;
      limited := attempts > MAX_ATTEMPTS;
    }

    /** The second part, for the right credential: drops expired sessions, then adds the new one if there is room. */
    method Issue(token: string, now: int) returns (issued: bool)
      modifies this
      ensures sessions == Issued(old(sessions), token, now) && Limits() == old(Limits())
      ensures issued <==> CanIssue(old(sessions), now)
    {
      var left := sessions.Keys;
      while left != {}
        invariant left <= old(sessions).Keys && Limits() == old(Limits())
        invariant sessions == map d | d in old(sessions) && (d in left || now < old(sessions)[d]) :: old(sessions)[d]
        decreases left
      {
        var d :| d in left;
        if now >= sessions[d] {
          sessions := sessions - {d};
        }
        left := left - {d};
      }
      assert sessions == Purge(old(sessions), now);
      issued := |sessions| < MAX_SESSIONS;
      if issued {
        sessions := sessions[Sha256(token) := now + SESSION_LIFE];
      }
    }

    method SessionOk(token: string, now: int) returns (ok: bool)
      ensures ok <==> Accepts(sessions, token, now)
    {
      ok := Sha256(token) in sessions && now < sessions[Sha256(token)];
    }

    method Logout(token: string)
      modifies this
      ensures sessions == old(sessions) - {Sha256(token)} && Limits() == old(Limits())
    {
      sessions := sessions - {Sha256(token)};
    }
  }

  // ---- Runs: any interleaving of the locked sections ----

  /** A login attempt, right or wrong; the second part of the k-th waiting login, with a token; a logout. */
  datatype Action = Attempt(now: int, right: bool) | Issue(k: nat, token: string) | Logout(token: string)

  /** The server's state, the latest clock reading, and the times of admitted logins that have no session yet. */
  datatype World = World(sessions: Sessions, throttle: Throttle, clock: Option<int>, waiting: seq<int>)

  const START := World(map[], Throttle(None, 0), None, [])

  predicate Enabled(w: World, a: Action) {
    match a
    case Attempt(now, _) => w.clock.None? || w.clock.value <= now
    case Issue(k, _) => k < |w.waiting|
    case Logout(_) => true
  }

  function Do(w: World, a: Action): World {
    match a
    case Attempt(now, right) =>
      World(w.sessions, Attempted(w.throttle, now), Some(now),
            if right && Admits(w.throttle, now) then w.waiting + [now] else w.waiting)
    case Issue(k, token) =>
      if k < |w.waiting|
      then w.(sessions := Issued(w.sessions, token, w.waiting[k]), waiting := w.waiting[..k] + w.waiting[k + 1..])
      else w
    case Logout(token) => w.(sessions := w.sessions - {Sha256(token)})
  }

  function After(run: seq<Action>): World {
    if |run| == 0 then START else Do(After(run[..|run| - 1]), run[|run| - 1])
  }

  /** The i-th action is enabled where it is taken. */
  ghost predicate EnabledAt(run: seq<Action>, i: nat) {
    i < |run| && Enabled(After(run[..i]), run[i])
  }

  lemma EnabledInPart(run: seq<Action>, n: nat, i: nat)
    requires i < n <= |run|
    ensures EnabledAt(run[..n], i) <==> EnabledAt(run, i)
  {
    assert run[..n][..i] == run[..i];
  }

  /** The clock never goes back, and sessions are issued to waiting logins only. */
  ghost predicate Valid(run: seq<Action>) {
    forall i | 0 <= i < |run| :: EnabledAt(run, i)
  }

  lemma ValidPart(run: seq<Action>, n: nat)
    requires Valid(run) && n <= |run|
    ensures Valid(run[..n])
  {
    forall i | 0 <= i < n
      ensures EnabledAt(run[..n], i)
    {
      EnabledInPart(run, n, i);
    }
  }

  lemma ValidInit(run: seq<Action>)
    requires Valid(run) && |run| > 0
    ensures Valid(run[..|run| - 1]) && Enabled(After(run[..|run| - 1]), run[|run| - 1])
  {
    ValidPart(run, |run| - 1);
    assert EnabledAt(run, |run| - 1);
  }

  // ---- The throttle over any minute ----

  predicate In(at: int, lo: int) {
    lo <= at < lo + MINUTE
  }

  /** The action is an attempt of the minute from lo on that passes the throttle. */
  predicate Passes(w: World, a: Action, lo: int) {
    a.Attempt? && In(a.now, lo) && Admits(w.throttle, a.now)
  }

  function Passed(run: seq<Action>, lo: int): nat {
    if |run| == 0 then 0
    else Passed(run[..|run| - 1], lo) + if Passes(After(run[..|run| - 1]), run[|run| - 1], lo) then 1 else 0
  }

  /** Passes of the minute, bounded by the window open now: those in it, and 19 of the one before. */
  predicate Bounded(t: Throttle, passed: nat, lo: int) {
    if t.window.None? then passed == 0
    else
      && t.attempts >= 1
      && passed <= (if t.attempts < MAX_ATTEMPTS then t.attempts else MAX_ATTEMPTS) +
                   (if t.window.value < lo then -1 else MAX_ATTEMPTS - 1)
  }

  /** No time is later than the clock. */
  predicate Behind(clock: Option<int>, times: seq<int>) {
    if clock.None? then times == [] else forall k | 0 <= k < |times| :: times[k] <= clock.value
  }

  predicate Consistent(w: World) {
    && (w.clock.None? <==> w.throttle.window.None?)
    && (w.clock.Some? ==> w.throttle.window.value <= w.clock.value)
    && Behind(w.clock, w.waiting)
  }

  lemma ConsistentNext(w: World, a: Action)
    requires Consistent(w) && Enabled(w, a)
    ensures Consistent(Do(w, a))
  {
  }

  lemma {:induction false} ClockAndWindow(run: seq<Action>)
    requires Valid(run)
    ensures Consistent(After(run))
  {
    if |run| > 0 {
      ValidInit(run);
      ClockAndWindow(run[..|run| - 1]);
      ConsistentNext(After(run[..|run| - 1]), run[|run| - 1]);
    }
  }

  lemma {:induction false} PassedIsBounded(run: seq<Action>, lo: int)
    requires Valid(run)
    requires After(run).clock.Some? ==> After(run).clock.value < lo + MINUTE
    ensures Bounded(After(run).throttle, Passed(run, lo), lo)
    ensures After(run).clock.Some? && After(run).clock.value < lo ==> Passed(run, lo) == 0
  {
    if |run| > 0 {
      ValidInit(run);
      ClockAndWindow(run[..|run| - 1]);
      PassedIsBounded(run[..|run| - 1], lo);
    }
  }

  /** In no half-open minute do more than 39 attempts pass, wherever the minute starts. */
  lemma {:induction false} AtMost39(run: seq<Action>, lo: int)
    requires Valid(run)
    ensures Passed(run, lo) <= 39
  {
    var w := After(run);
    if w.clock.Some? && w.clock.value >= lo + MINUTE {
      ValidInit(run);
      AtMost39(run[..|run| - 1], lo);
    } else {
      PassedIsBounded(run, lo);
    }
  }

  /** 39 is reached: one attempt opens a window, 19 follow at its end, and 20 open the next. */
  function BurstTime(i: nat): int {
    if i == 0 then 0 else if i < 20 then MINUTE - 1 else MINUTE
  }

  /** n attempts of the burst have been made, and all but the first passed in the minute from 1 on. */
  ghost predicate BurstMade(run: seq<Action>, n: nat) {
    var w := After(run);
    && Valid(run) && Passed(run, 1) == (if n == 0 then 0 else n - 1)
    && w.clock == (if n == 0 then None else Some(BurstTime(n - 1)))
    && w.throttle == if n == 0 then Throttle(None, 0) else if n <= 20 then Throttle(Some(0), n)
                     else Throttle(Some(MINUTE), n - 20)
  }

  lemma BurstNext(run: seq<Action>, n: nat)
    requires n < 40 && BurstMade(run, n)
    ensures BurstMade(run + [Attempt(BurstTime(n), false)], n + 1)
  {
    ValidMore(run, Attempt(BurstTime(n), false));
    assert (run + [Attempt(BurstTime(n), false)])[..|run|] == run;
  }

  lemma {:induction false} BurstRun(n: nat) returns (run: seq<Action>)
    requires n <= 40
    ensures BurstMade(run, n)
  {
    run := [];
    if n > 0 {
      run := BurstRun(n - 1);
      BurstNext(run, n - 1);
      run := run + [Attempt(BurstTime(n - 1), false)];
    }
  }

  lemma EnabledMore(run: seq<Action>, a: Action, i: nat)
    requires i < |run|
    ensures EnabledAt(run + [a], i) <==> EnabledAt(run, i)
  {
    assert (run + [a])[..i] == run[..i];
  }

  lemma ValidMore(run: seq<Action>, a: Action)
    requires Valid(run) && Enabled(After(run), a)
    ensures Valid(run + [a])
  {
    assert (run + [a])[..|run|] == run;
    forall i | 0 <= i <= |run|
      ensures EnabledAt(run + [a], i)
    {
      if i < |run| {
        EnabledMore(run, a, i);
        assert EnabledAt(run, i);
      }
    }
  }

  /** The bound is the best possible. */
  lemma Reaches39()
    ensures exists run, lo :: Valid(run) && Passed(run, lo) == 39
  {
    var run := BurstRun(40);
    assert Valid(run) && Passed(run, 1) == 39;
  }

  /** Nobody is locked out for good: among attempts a minute or more apart, one after the first passes. */
  lemma {:induction false} NoLockOut(run: seq<Action>, i: nat, j: nat)
    requires Valid(run) && i < j < |run| && run[i].Attempt? && run[j].Attempt?
    requires run[j].now - run[i].now >= MINUTE
    ensures exists k | i < k <= j :: run[k].Attempt? && Admits(After(run[..k]).throttle, run[k].now)
  {
    if !Admits(After(run[..j]).throttle, run[j].now) {
      WindowAtAttempt(run, i);
      var k := WindowMoves(run, i, j, run[i].now);
    }
  }

  predicate Since(w: World, at: int) {
    w.throttle.window.Some? && w.throttle.window.value <= at
  }

  /** A window that moved on was moved by an attempt that passes. */
  lemma {:induction false} WindowMoves(run: seq<Action>, i: nat, j: nat, at: int) returns (k: nat)
    requires i < j <= |run|
    requires Since(After(run[..i + 1]), at) && !Since(After(run[..j]), at)
    ensures i < k < j && run[k].Attempt? && Admits(After(run[..k]).throttle, run[k].now)
  {
    var w, a := After(run[..j - 1]), run[j - 1];
    assert run[..j][..j - 1] == run[..j - 1];
    if a.Attempt? && Expired(w.throttle, a.now) {
      k := j - 1;
    } else {
      WindowStays(w, a);
      k := WindowMoves(run, i, j - 1, at);
    }
  }

  lemma WindowStays(w: World, a: Action)
    requires !(a.Attempt? && Expired(w.throttle, a.now))
    ensures Do(w, a).throttle.window == w.throttle.window
  {
  }

  /** Right after an attempt the window is not later than it. */
  lemma WindowAtAttempt(run: seq<Action>, i: nat)
    requires Valid(run) && i < |run| && run[i].Attempt?
    ensures Since(After(run[..i + 1]), run[i].now)
  {
    ValidPart(run, i);
    ClockAndWindow(run[..i]);
    assert run[..i + 1][..i] == run[..i];
    assert EnabledAt(run, i);
  }

  // ---- Sessions ----

  /** Logins of the minute from lo on that got their session. */
  function SessionsOf(run: seq<Action>, lo: int): nat {
    if |run| == 0 then 0
    else
      var w, a := After(run[..|run| - 1]), run[|run| - 1];
      SessionsOf(run[..|run| - 1], lo) + if GetsSession(w, a, lo) then 1 else 0
  }

  predicate GetsSession(w: World, a: Action, lo: int) {
    a.Issue? && a.k < |w.waiting| && In(w.waiting[a.k], lo) && CanIssue(w.sessions, w.waiting[a.k])
  }

  /** Waiting logins of the minute from lo on. */
  function Waiting(times: seq<int>, lo: int): nat {
    if |times| == 0 then 0 else Waiting(times[..|times| - 1], lo) + if In(times[|times| - 1], lo) then 1 else 0
  }

  lemma {:induction false} WaitingConcat(a: seq<int>, b: seq<int>, lo: int)
    ensures Waiting(a + b, lo) == Waiting(a, lo) + Waiting(b, lo)
  {
    if |b| == 0 {
      assert a + b == a;
    } else {
      assert (a + b)[..|a + b| - 1] == a + b[..|b| - 1];
      WaitingConcat(a, b[..|b| - 1], lo);
    }
  }

  lemma WaitingOne(at: int, lo: int)
    ensures Waiting([at], lo) == if In(at, lo) then 1 else 0
  {
    assert [at][..0] == [];
  }

  lemma WaitingWithout(times: seq<int>, k: nat, lo: int)
    requires k < |times|
    ensures Waiting(times, lo) == Waiting(times[..k] + times[k + 1..], lo) + if In(times[k], lo) then 1 else 0
  {
    var before, after := times[..k], times[k + 1..];
    assert times == before + ([times[k]] + after);
    WaitingConcat(before, [times[k]] + after, lo);
    WaitingConcat([times[k]], after, lo);
    WaitingConcat(before, after, lo);
    WaitingOne(times[k], lo);
  }

  /** Attempts of the minute from lo on that pass, with the right credential. */
  function RightPasses(run: seq<Action>, lo: int): nat {
    if |run| == 0 then 0
    else
      var w, a := After(run[..|run| - 1]), run[|run| - 1];
      RightPasses(run[..|run| - 1], lo) + if IsRightPass(w, a, lo) then 1 else 0
  }

  predicate IsRightPass(w: World, a: Action, lo: int) {
    a.Attempt? && a.right && In(a.now, lo) && Admits(w.throttle, a.now)
  }

  /** Logins of the minute from lo on that found no room for a session. */
  function TurnedAway(run: seq<Action>, lo: int): nat {
    if |run| == 0 then 0
    else
      var w, a := After(run[..|run| - 1]), run[|run| - 1];
      TurnedAway(run[..|run| - 1], lo) + if FindsNoRoom(w, a, lo) then 1 else 0
  }

  predicate FindsNoRoom(w: World, a: Action, lo: int) {
    a.Issue? && a.k < |w.waiting| && In(w.waiting[a.k], lo) && !CanIssue(w.sessions, w.waiting[a.k])
  }

  lemma StepAddsUp(w: World, a: Action, lo: int)
    ensures (if GetsSession(w, a, lo) then 1 else 0) + (if FindsNoRoom(w, a, lo) then 1 else 0) +
            Waiting(Do(w, a).waiting, lo) ==
            Waiting(w.waiting, lo) + if IsRightPass(w, a, lo) then 1 else 0
  {
    match a
    case Attempt(now, right) =>
      assert (w.waiting + [now])[..|w.waiting|] == w.waiting;
    case Issue(k, token) =>
      if k < |w.waiting| {
        WaitingWithout(w.waiting, k, lo);
      }
    case Logout(token) =>
  }

  /**
    Every attempt with the right credential that passes the throttle gets its session, is turned away for lack of room,
    or still waits; and no other attempt does.
   */
  lemma {:induction false} LoginsAddUp(run: seq<Action>, lo: int)
    ensures SessionsOf(run, lo) + TurnedAway(run, lo) + Waiting(After(run).waiting, lo) == RightPasses(run, lo)
  {
    if |run| > 0 {
      LoginsAddUp(run[..|run| - 1], lo);
      StepAddsUp(After(run[..|run| - 1]), run[|run| - 1], lo);
    }
  }

  lemma {:induction false} RightAmongAll(run: seq<Action>, lo: int)
    ensures RightPasses(run, lo) <= Passed(run, lo)
  {
    if |run| > 0 {
      RightAmongAll(run[..|run| - 1], lo);
    }
  }

  /** Every session of a login uses up one pass of the throttle. */
  lemma SessionsUsePasses(run: seq<Action>, lo: int)
    requires Valid(run)
    ensures SessionsOf(run, lo) + Waiting(After(run).waiting, lo) <= Passed(run, lo)
  {
    LoginsAddUp(run, lo);
    RightAmongAll(run, lo);
  }

  /** At most 39 sessions come from the logins of any minute. */
  lemma AtMost39Sessions(run: seq<Action>, lo: int)
    requires Valid(run)
    ensures SessionsOf(run, lo) <= 39
  {
    SessionsUsePasses(run, lo);
    AtMost39(run, lo);
  }

  /** The session table never holds more than 128 entries. */
  lemma {:induction false} AtMost128(run: seq<Action>)
    ensures |After(run).sessions| <= MAX_SESSIONS
  {
    if |run| > 0 {
      var w, a := After(run[..|run| - 1]), run[|run| - 1];
      AtMost128(run[..|run| - 1]);
      match a
      case Attempt(_, _) =>
      case Issue(k, token) =>
        if k < |w.waiting| {
          PurgeShrinks(w.sessions, w.waiting[k]);
          AddOne(Purge(w.sessions, w.waiting[k]), Sha256(token), w.waiting[k] + SESSION_LIFE);
        }
      case Logout(token) =>
        Part(w.sessions - {Sha256(token)}, w.sessions);
    }
  }

  lemma PurgeShrinks(sessions: Sessions, now: int)
    ensures |Purge(sessions, now)| <= |sessions|
  {
    Part(Purge(sessions, now), sessions);
  }

  lemma Part(part: Sessions, whole: Sessions)
    requires part.Keys <= whole.Keys
    ensures |part| <= |whole|
  {
    SubsetSize(part.Keys, whole.Keys);
  }

  lemma AddOne(sessions: Sessions, d: Digest, at: int)
    ensures |sessions[d := at]| <= |sessions| + 1
  {
    assert sessions[d := at].Keys == sessions.Keys + {d};
  }

  /** Tokens come fresh from the random source. */
  ghost predicate FreshTokens(run: seq<Action>) {
    forall i, j | 0 <= i < j < |run| && run[i].Issue? && run[j].Issue? :: run[i].token != run[j].token
  }

  /** The action gives the token to a waiting login. */
  predicate Hands(w: World, a: Action, token: string) {
    a.Issue? && a.token == token && a.k < |w.waiting| && CanIssue(w.sessions, w.waiting[a.k])
  }

  /** The i-th action gives the token to a login that began at the given time. */
  ghost predicate Gives(run: seq<Action>, i: nat, token: string, at: int) {
    && i < |run| && Hands(After(run[..i]), run[i], token)
    && After(run[..i]).waiting[run[i].k] == at
  }

  ghost predicate LoggedOutSince(run: seq<Action>, i: nat, token: string) {
    exists j | i < j < |run| :: run[j] == Logout(token)
  }

  /** The token was given to a login less than eight hours old and not logged out since. */
  ghost predicate Alive(run: seq<Action>, token: string, now: int) {
    exists i: nat, at: int | Gives(run, i, token, at) :: !LoggedOutSince(run, i, token) && now < at + SESSION_LIFE
  }

  lemma GivesBefore(run: seq<Action>, i: nat, token: string, at: int)
    requires |run| > 0 && i < |run| - 1
    ensures Gives(run, i, token, at) <==> Gives(run[..|run| - 1], i, token, at)
    ensures LoggedOutSince(run, i, token) <==>
            LoggedOutSince(run[..|run| - 1], i, token) || run[|run| - 1] == Logout(token)
  {
    var init := run[..|run| - 1];
    assert init[..i] == run[..i];
    if j :| i < j < |init| && init[j] == Logout(token) {
      assert run[j] == Logout(token);
    }
    if LoggedOutSince(run, i, token) {
      var j :| i < j < |run| && run[j] == Logout(token);
      assert j == |run| - 1 || init[j] == Logout(token);
    }
  }

  /** What is alive now was given just now, or was alive before and is not logged out now. */
  lemma AliveWas(run: seq<Action>, token: string, now: int)
    requires |run| > 0 && Alive(run, token, now)
    ensures var w, a := After(run[..|run| - 1]), run[|run| - 1];
            || (Alive(run[..|run| - 1], token, now) && a != Logout(token))
            || (Hands(w, a, token) && now < w.waiting[a.k] + SESSION_LIFE)
  {
    var i: nat, at: int :| Gives(run, i, token, at) && !LoggedOutSince(run, i, token) && now < at + SESSION_LIFE;
    if i < |run| - 1 {
      GivesBefore(run, i, token, at);
    }
  }

  lemma AliveStays(run: seq<Action>, token: string, now: int)
    requires |run| > 0 && Alive(run[..|run| - 1], token, now) && run[|run| - 1] != Logout(token)
    ensures Alive(run, token, now)
  {
    var init := run[..|run| - 1];
    var i: nat, at: int :| Gives(init, i, token, at) && !LoggedOutSince(init, i, token) && now < at + SESSION_LIFE;
    GivesBefore(run, i, token, at);
  }

  lemma AliveWhenGiven(run: seq<Action>, token: string, now: int)
    requires |run| > 0 && Hands(After(run[..|run| - 1]), run[|run| - 1], token)
    requires now < After(run[..|run| - 1]).waiting[run[|run| - 1].k] + SESSION_LIFE
    ensures Alive(run, token, now)
  {
    var n := |run| - 1;
    assert Gives(run, n, token, After(run[..n]).waiting[run[n].k]) && !LoggedOutSince(run, n, token);
  }

  /** Whether a token is alive changes with a logout, and when it is given. */
  lemma AliveNext(run: seq<Action>, token: string, now: int)
    requires |run| > 0
    ensures var w, a := After(run[..|run| - 1]), run[|run| - 1];
            Alive(run, token, now) <==>
            || (Alive(run[..|run| - 1], token, now) && a != Logout(token))
            || (Hands(w, a, token) && now < w.waiting[a.k] + SESSION_LIFE)
  {
    var w, a := After(run[..|run| - 1]), run[|run| - 1];
    if Alive(run, token, now) {
      AliveWas(run, token, now);
    } else if Alive(run[..|run| - 1], token, now) && a != Logout(token) {
      AliveStays(run, token, now);
    } else if Hands(w, a, token) && now < w.waiting[a.k] + SESSION_LIFE {
      AliveWhenGiven(run, token, now);
    }
  }

  /** A token that comes now has not been given before. */
  lemma FreshIsNotAlive(run: seq<Action>, now: int)
    requires FreshTokens(run) && |run| > 0 && run[|run| - 1].Issue?
    ensures !Alive(run[..|run| - 1], run[|run| - 1].token, now)
  {
  }

  /** A run and a later clock reading. */
  ghost predicate Upto(run: seq<Action>, now: int) {
    && Valid(run) && FreshTokens(run)
    && (After(run).clock.Some? ==> After(run).clock.value <= now)
  }

  lemma UptoInit(run: seq<Action>, now: int)
    requires Upto(run, now) && |run| > 0
    ensures var init := run[..|run| - 1];
            Upto(init, now) && Enabled(After(init), run[|run| - 1]) && Behind(Some(now), After(init).waiting)
  {
    ValidInit(run);
    ClockAndWindow(run[..|run| - 1]);
  }

  /** A session is accepted exactly while it is alive. */
  lemma {:induction false} AcceptedWhileAlive(run: seq<Action>, token: string, now: int)
    requires Upto(run, now)
    ensures Accepts(After(run).sessions, token, now) <==> Alive(run, token, now)
  {
    if |run| > 0 {
      UptoInit(run, now);
      AcceptedWhileAlive(run[..|run| - 1], token, now);
      AliveOrAccepted(run, token, now);
    }
  }

  lemma AliveOrAccepted(run: seq<Action>, token: string, now: int)
    requires |run| > 0 && FreshTokens(run) && Enabled(After(run[..|run| - 1]), run[|run| - 1])
    requires Behind(Some(now), After(run[..|run| - 1]).waiting)
    requires Accepts(After(run[..|run| - 1]).sessions, token, now) <==> Alive(run[..|run| - 1], token, now)
    ensures Accepts(After(run).sessions, token, now) <==> Alive(run, token, now)
  {
    var w, a := After(run[..|run| - 1]), run[|run| - 1];
    AliveNext(run, token, now);
    AcceptsNext(w, a, token, now);
    if Hands(w, a, token) {
      FreshIsNotAlive(run, now);
    }
  }

  /** Acceptance changes in the same way. */
  lemma AcceptsNext(w: World, a: Action, token: string, now: int)
    requires Enabled(w, a) && Behind(Some(now), w.waiting)
    ensures Accepts(Do(w, a).sessions, token, now) <==>
            if Hands(w, a, token) then now < w.waiting[a.k] + SESSION_LIFE
            else Accepts(w.sessions, token, now) && a != Logout(token)
  {
    if a.Issue? {
      IssueAccepts(w.sessions, a.token, w.waiting[a.k], token, now);
    }
  }

  lemma IssueAccepts(sessions: Sessions, token: string, at: int, other: string, now: int)
    requires at <= now
    ensures Accepts(Issued(sessions, token, at), other, now) <==>
            if token == other && CanIssue(sessions, at) then now < at + SESSION_LIFE else Accepts(sessions, other, now)
  {
  }

  /** Once given and no longer accepted, a token is never accepted again. */
  lemma NeverRevives(run: seq<Action>, m: nat, token: string, i: nat, at: int, now: int, later: int)
    requires m <= |run| && now <= later && Upto(run[..m], now) && Upto(run, later)
    requires Gives(run[..m], i, token, at) && !Accepts(After(run[..m]).sessions, token, now)
    ensures !Accepts(After(run).sessions, token, later)
  {
    AcceptedWhileAlive(run[..m], token, now);
    AcceptedWhileAlive(run, token, later);
    if Alive(run, token, later) {
      AliveEarlier(run, m, token, i, at, now, later);
    }
  }

  /** A token that is alive was alive before, back to when it was given. */
  lemma AliveEarlier(run: seq<Action>, m: nat, token: string, i: nat, at: int, now: int, later: int)
    requires FreshTokens(run) && m <= |run| && now <= later
    requires Gives(run[..m], i, token, at) && Alive(run, token, later)
    ensures Alive(run[..m], token, now)
  {
    var j: nat, since: int :| 
      Gives(run, j, token, since) && !LoggedOutSince(run, j, token) && later < since + SESSION_LIFE;
    assert run[i] == run[..m][i];
    assert j == i;
    assert run[..m][..i] == run[..i];
    assert forall l | i < l < m :: run[..m][l] == run[l];
    assert Gives(run[..m], j, token, since) && !LoggedOutSince(run[..m], j, token);
  }
}
