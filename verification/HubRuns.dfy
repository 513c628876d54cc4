/**
  Runs of the hub: every interleaving of enrolment, registration, revocation, deletion, cleanup, and agent requests
  whose authorisation and write are separate steps (internal/hub).
 */
module HubRuns {
  import opened Snapshots
  import opened DiskCompare
  import opened HubDb
  import opened SqliteStore

  datatype Request =
    | Heartbeat(agent: string, at: int, metrics: Metrics)
    | Upload(snap: Snapshot)

  function AgentOf(r: Request): string {
    match r
    case Heartbeat(agent, _, _) => agent
    case Upload(snap) => snap.agent
  }

  datatype Action =
    | Issue(id: string, code: string, now: int)
    | Redeem(id: string, code: string, token: string, now: int)
    | Revocation(id: string)
    | Deletion(id: string)
    | Admit(bearer: Option<string>, request: Request)
    | Write(request: Request, now: int, threshold: int)
    | Cleanup(samples: set<SampleKey>, snapshots: set<SnapKey>, events: set<Event>)

  /** The tables, and the requests that have been authorised but not written yet. */
  datatype Sys = Sys(db: Db, inflight: multiset<Request>)

  ghost predicate Admissible(s: Sys, shared: string, bearer: Option<string>, r: Request) {
    AuthorizedFor(s.db, shared, bearer, AgentOf(r)) && (r.Upload? ==> ValidNodes(r.snap.nodes))
  }

  ghost function WriteRequest(db: Db, r: Request, now: int, threshold: int): Db {
    match r
    case Heartbeat(agent, at, metrics) => Upsert(db, agent, at, metrics, now)
    case Upload(snap) => SaveDiskEvents(db, snap, threshold)
  }

  ghost function Step(s: Sys, a: Action, shared: string): Sys {
    match a
    case Issue(id, code, now) => s.(db := Enrol(s.db, id, code, now))
    case Redeem(id, code, token, now) => s.(db := Register(s.db, id, code, token, now))
    case Revocation(id) => s.(db := Revoke(s.db, id))
    case Deletion(id) => s.(db := Delete(s.db, id))
    case Admit(bearer, r) =>
      if Admissible(s, shared, bearer, r) then s.(inflight := s.inflight + multiset{r}) else s
    case Write(r, now, threshold) =>
      if r in s.inflight
      then Sys(WriteRequest(s.db, r, now, threshold), s.inflight - multiset{r})
      else s
    case Cleanup(samples, snapshots, events) => s.(db := Remove(s.db, samples, snapshots, events))
  }

  /** The state after a run that starts with empty tables. */
  ghost function After(actions: seq<Action>, shared: string): Sys {
    if |actions| == 0 then Sys(EMPTY, multiset{})
    else Step(After(actions[..|actions| - 1], shared), actions[|actions| - 1], shared)
  }

  lemma AfterNext(actions: seq<Action>, shared: string, n: nat)
    requires n < |actions|
    ensures After(actions[..n + 1], shared) == Step(After(actions[..n], shared), actions[n], shared)
  {
    assert actions[..n + 1][..n] == actions[..n];
  }

  lemma AfterMore(actions: seq<Action>, a: Action, shared: string)
    ensures After(actions + [a], shared) == Step(After(actions, shared), a, shared)
  {
    assert (actions + [a])[..|actions|] == actions;
  }

  /** The action keeps what holds of the state before it. */
  ghost predicate Carries(actions: seq<Action>, shared: string, i: nat, holds: Sys -> bool) {
    i < |actions| &&
    (holds(After(actions[..i], shared)) ==> holds(Step(After(actions[..i], shared), actions[i], shared)))
  }

  /** What holds after n actions, and is kept by those up to the m-th, holds then. */
  lemma {:induction false} Onwards(actions: seq<Action>, shared: string, n: nat, m: nat, holds: Sys -> bool)
    requires n <= m <= |actions| && holds(After(actions[..n], shared))
    requires forall i | n <= i < m :: Carries(actions, shared, i, holds)
    ensures holds(After(actions[..m], shared))
    decreases m
  {
    if n < m {
      Onwards(actions, shared, n, m - 1, holds);
      assert Carries(actions, shared, m - 1, holds);
      AfterNext(actions, shared, m - 1);
    }
  }

  /** No snapshot and no event changed, and no tombstone was added. */
  ghost predicate SameHistory(a: Db, b: Db) {
    b.snapshots == a.snapshots && b.events == a.events && b.deleted <= a.deleted
  }

  lemma CredentialsKeepHistory(db: Db, id: string, code: string, token: string, now: int)
    ensures SameHistory(db, Enrol(db, id, code, now)) && SameHistory(db, Revoke(db, id))
    ensures SameHistory(db, Register(db, id, code, token, now))
  {
  }

  /** Steps on credentials, heartbeats and authorisation leave the history as it is. */
  lemma OtherStepsKeepHistory(s: Sys, a: Action, shared: string)
    requires !a.Deletion? && !a.Cleanup? && !(a.Write? && a.request in s.inflight && a.request.Upload?)
    ensures SameHistory(s.db, Step(s, a, shared).db)
  {
    match a
    case Issue(id, code, now) => CredentialsKeepHistory(s.db, id, code, "", now);
    case Redeem(id, code, token, now) => CredentialsKeepHistory(s.db, id, code, token, now);
    case Revocation(id) => CredentialsKeepHistory(s.db, id, "", "", 0);
    case Admit(_, _) =>
    case Write(_, _, _) =>
  }

  /** Uploads are checked before they are on their way. */
  ghost predicate ValidUploads(s: Sys) {
    forall r | r in s.inflight && r.Upload? :: ValidNodes(r.snap.nodes)
  }

  lemma UploadsAreValid(s: Sys, a: Action, shared: string)
    requires ValidUploads(s)
    ensures ValidUploads(Step(s, a, shared))
  {
  }

  lemma {:induction false} InflightIsValid(actions: seq<Action>, shared: string)
    ensures ValidUploads(After(actions, shared))
  {
    if |actions| > 0 {
      InflightIsValid(actions[..|actions| - 1], shared);
      UploadsAreValid(After(actions[..|actions| - 1], shared), actions[|actions| - 1], shared);
    }
  }

  /** Every snapshot is stored under its own device, root and time. */
  ghost predicate WellKeyed(snapshots: map<SnapKey, Snapshot>) {
    forall k | k in snapshots :: KeyOf(snapshots[k]) == k
  }

  lemma StepKeepsKeys(s: Sys, a: Action, shared: string)
    requires WellKeyed(s.db.snapshots)
    ensures WellKeyed(Step(s, a, shared).db.snapshots)
  {
    if !a.Deletion? && !a.Cleanup? && !(a.Write? && a.request in s.inflight && a.request.Upload?) {
      OtherStepsKeepHistory(s, a, shared);
    }
  }

  lemma {:induction false} RunIsKeyed(actions: seq<Action>, shared: string)
    ensures WellKeyed(After(actions, shared).db.snapshots)
  {
    if |actions| > 0 {
      RunIsKeyed(actions[..|actions| - 1], shared);
      StepKeepsKeys(After(actions[..|actions| - 1], shared), actions[|actions| - 1], shared);
    }
  }

  /** No stored time is later than that of the newest snapshot. */
  lemma NoneLater(snapshots: map<SnapKey, Snapshot>, agent: string, root: string, at: int)
    requires WellKeyed(snapshots) && SnapKey(agent, root, at) in snapshots
    ensures Rows(snapshots, agent, root) != {} && at <= Latest(snapshots, agent, root).at
  {
    assert SnapKey(agent, root, at) in Rows(snapshots, agent, root);
    assert KeyOf(snapshots[Newest(Rows(snapshots, agent, root))]) == Newest(Rows(snapshots, agent, root));
  }

  // ---- Tombstones ----

  ghost predicate NoTrace(db: Db, id: string) {
    && id !in db.servers
    && (forall k | k in db.samples :: k.agent != id)
    && (forall k | k in db.snapshots :: k.agent != id)
    && (forall e | e in db.events.rows :: e.agent != id)
  }

  /** A tombstoned device has a revoked row and no history. */
  ghost predicate TombstonesHold(db: Db) {
    forall id | id in db.deleted :: id in db.devices && db.devices[id].revoked && NoTrace(db, id)
  }

  /** Every metric sample belongs to a listed server. */
  ghost predicate SamplesOwned(db: Db) {
    forall k | k in db.samples :: k.agent in db.servers
  }

  lemma {:induction false} EventsWithoutMeans(rows: seq<Event>, id: string, e: Event)
    ensures e in EventsWithout(rows, id) <==> e in rows && e.agent != id
  {
    if |rows| > 0 {
      EventsWithoutMeans(rows[..|rows| - 1], id, e);
      assert rows == rows[..|rows| - 1] + [rows[|rows| - 1]];
    }
  }

  lemma {:induction false} EventsExceptMeans(rows: seq<Event>, gone: set<Event>, e: Event)
    ensures e in EventsExcept(rows, gone) <==> e in rows && e !in gone
  {
    if |rows| > 0 {
      EventsExceptMeans(rows[..|rows| - 1], gone, e);
      assert rows == rows[..|rows| - 1] + [rows[|rows| - 1]];
    }
  }

  lemma {:induction false} AddEventsOwner(t: EventTable, agent: string, root: string, threshold: int,
                                          alerts: seq<Alert>, e: Event)
    requires e in AddEvents(t, agent, root, threshold, alerts).rows
    ensures e in t.rows || e.agent == agent
  {
    if |alerts| > 0 {
      var before := AddEvents(t, agent, root, threshold, alerts[..|alerts| - 1]);
      if e in before.rows {
        AddEventsOwner(t, agent, root, threshold, alerts[..|alerts| - 1], e);
      }
    }
  }

  lemma DeleteKeeps(db: Db, id: string)
    requires TombstonesHold(db) && SamplesOwned(db)
    ensures TombstonesHold(Delete(db, id)) && SamplesOwned(Delete(db, id))
  {
    forall e: Event
      ensures e in EventsWithout(db.events.rows, id) <==> e in db.events.rows && e.agent != id
    {
      EventsWithoutMeans(db.events.rows, id, e);
    }
  }

  lemma SaveKeeps(db: Db, snap: Snapshot, threshold: int)
    requires TombstonesHold(db) && SamplesOwned(db)
    ensures TombstonesHold(SaveDiskEvents(db, snap, threshold)) && SamplesOwned(SaveDiskEvents(db, snap, threshold))
  {
    var after := SaveDiskEvents(db, snap, threshold);
    forall e | e in after.events.rows
      ensures e in db.events.rows || e.agent == snap.agent
    {
      var previous := Latest(db.snapshots, snap.agent, snap.root);
      if e !in db.events.rows {
        AddEventsOwner(db.events, snap.agent, snap.root, threshold, Growth(previous, snap, threshold), e);
      }
    }
  }

  lemma RemoveKeeps(db: Db, samples: set<SampleKey>, snapshots: set<SnapKey>, events: set<Event>)
    requires TombstonesHold(db) && SamplesOwned(db)
    ensures TombstonesHold(Remove(db, samples, snapshots, events))
    ensures SamplesOwned(Remove(db, samples, snapshots, events))
  {
    forall e: Event
      ensures e in EventsExcept(db.events.rows, events) ==> e in db.events.rows
    {
      EventsExceptMeans(db.events.rows, events, e);
    }
  }

  lemma StepKeeps(s: Sys, a: Action, shared: string)
    requires TombstonesHold(s.db) && SamplesOwned(s.db)
    ensures TombstonesHold(Step(s, a, shared).db) && SamplesOwned(Step(s, a, shared).db)
  {
    match a
    case Deletion(id) => DeleteKeeps(s.db, id);
    case Write(r, now, threshold) =>
      if r.Upload? {
        SaveKeeps(s.db, r.snap, threshold);
      }
    case Cleanup(samples, snapshots, events) => RemoveKeeps(s.db, samples, snapshots, events);
    case _ =>
  }

  /**
    In every interleaving: a tombstoned device has a revoked row and not a single row of history, and every sample
    has its server. A request authorised before the deletion and written after it brings nothing back.
   */
  lemma {:induction false} TombstonesHoldInEveryRun(actions: seq<Action>, shared: string)
    ensures TombstonesHold(After(actions, shared).db)
    ensures SamplesOwned(After(actions, shared).db)
  {
    if |actions| > 0 {
      TombstonesHoldInEveryRun(actions[..|actions| - 1], shared);
      StepKeeps(After(actions[..|actions| - 1], shared), actions[|actions| - 1], shared);
    }
  }

  /** Redeeming a code for a device succeeds. */
  ghost predicate RedeemsAt(s: Sys, a: Action, id: string) {
    a.Redeem? && a.id == id && CanRegister(s.db, id, a.code, a.token, a.now)
  }

  ghost predicate Redeems(actions: seq<Action>, shared: string, n: nat, id: string) {
    n < |actions| && RedeemsAt(After(actions[..n], shared), actions[n], id)
  }

  lemma StepKeepsDeleted(s: Sys, a: Action, shared: string, id: string)
    requires id in s.db.deleted && !RedeemsAt(s, a, id)
    ensures id in Step(s, a, shared).db.deleted
  {
  }

  /** No code is redeemed for the device from action n up to m. */
  ghost predicate NoRedemption(actions: seq<Action>, shared: string, n: nat, m: nat, id: string) {
    forall j | n <= j < m :: !Redeems(actions, shared, j, id)
  }

  lemma {:induction false} StaysDeleted(actions: seq<Action>, shared: string, n: nat, m: nat, id: string)
    requires n <= m <= |actions| && id in After(actions[..n], shared).db.deleted
    requires NoRedemption(actions, shared, n, m, id)
    ensures id in After(actions[..m], shared).db.deleted
    decreases m
  {
    if n < m {
      StaysDeleted(actions, shared, n, m - 1, id);
      AfterNext(actions, shared, m - 1);
      assert !Redeems(actions, shared, m - 1, id);
      StepKeepsDeleted(After(actions[..m - 1], shared), actions[m - 1], shared, id);
    }
  }

  /** History stays deleted until a code is redeemed for the device again. */
  lemma DeletedStaysGone(actions: seq<Action>, shared: string, n: nat, m: nat, id: string)
    requires n <= m <= |actions| && id in After(actions[..n], shared).db.deleted
    requires NoRedemption(actions, shared, n, m, id)
    ensures id in After(actions[..m], shared).db.deleted && NoTrace(After(actions[..m], shared).db, id)
  {
    StaysDeleted(actions, shared, n, m, id);
    TombstonesHoldInEveryRun(actions[..m], shared);
  }

  // ---- Enrolment codes ----

  /** Issuing a code for a device succeeds. */
  ghost predicate IssuesAt(s: Sys, a: Action, id: string) {
    a.Issue? && a.id == id && CanEnrol(s.db, id, a.code)
  }

  /** The life of a device's waiting code ends: a newer code, its redemption, a revocation, a deletion. */
  ghost predicate EndsAt(s: Sys, a: Action, id: string) {
    || IssuesAt(s, a, id)
    || RedeemsAt(s, a, id)
    || (a == Revocation(id) && id in s.db.devices)
    || (a == Deletion(id) && CanDelete(s.db, id))
  }

  ghost predicate Issues(actions: seq<Action>, shared: string, n: nat, id: string) {
    n < |actions| && IssuesAt(After(actions[..n], shared), actions[n], id)
  }

  ghost predicate EndsCode(actions: seq<Action>, shared: string, n: nat, id: string) {
    n < |actions| && EndsAt(After(actions[..n], shared), actions[n], id)
  }

  /** What a step does to a device's waiting code. */
  lemma StepCode(s: Sys, a: Action, shared: string, id: string)
    requires id in Step(s, a, shared).db.enrollments
    ensures IssuesAt(s, a, id) ==>
              Step(s, a, shared).db.enrollments[id] == Enrollment(Sha256(a.code), a.now + ENROLLMENT_LIFE)
    ensures !IssuesAt(s, a, id) ==> !EndsAt(s, a, id) && id in s.db.enrollments
    ensures !IssuesAt(s, a, id) ==> Step(s, a, shared).db.enrollments[id] == s.db.enrollments[id]
  {
  }

  /** A waiting code was issued for its device, and nothing has ended its life since. */
  lemma {:induction false} CodeOrigin(actions: seq<Action>, shared: string, n: nat, id: string) returns (i: nat)
    requires n <= |actions| && id in After(actions[..n], shared).db.enrollments
    ensures i < n && Issues(actions, shared, i, id)
    ensures After(actions[..n], shared).db.enrollments[id] ==
            Enrollment(Sha256(actions[i].code), actions[i].now + ENROLLMENT_LIFE)
    ensures forall k | i < k < n :: !EndsCode(actions, shared, k, id)
    decreases n
  {
    var last := n - 1;
    AfterNext(actions, shared, last);
    StepCode(After(actions[..last], shared), actions[last], shared, id);
    if Issues(actions, shared, last, id) {
      i := last;
    } else {
      i := CodeOrigin(actions, shared, last, id);
    }
  }

  /**
    A redeemed code was issued for that very device less than ten minutes before, and in between there was no newer
    code, no redemption, no revocation of the registered device and no deletion.
   */
  lemma RedeemedAsIssued(actions: seq<Action>, shared: string, n: nat, id: string) returns (i: nat)
    requires Redeems(actions, shared, n, id)
    ensures i < n && Issues(actions, shared, i, id)
    ensures actions[i].code == actions[n].code && actions[n].now < actions[i].now + ENROLLMENT_LIFE
    ensures forall k | i < k < n :: !EndsCode(actions, shared, k, id)
  {
    i := CodeOrigin(actions, shared, n, id);
  }

  /** No two issued codes are the same: they are drawn at random from 2^256. */
  ghost predicate FreshCodes(actions: seq<Action>) {
    forall i, j | 0 <= i < j < |actions| && actions[i].Issue? && actions[j].Issue? :: actions[i].code != actions[j].code
  }

  /** A code is redeemed at most once in a run, and for one device only. */
  lemma RedeemedOnce(actions: seq<Action>, shared: string, m: nat, n: nat, idM: string, idN: string)
    requires FreshCodes(actions)
    requires Redeems(actions, shared, m, idM) && Redeems(actions, shared, n, idN)
    requires actions[m].code == actions[n].code
    ensures m == n && idM == idN
  {
    var i := RedeemedAsIssued(actions, shared, m, idM);
    var j := RedeemedAsIssued(actions, shared, n, idN);
    assert i == j;
    assert idM == idN;
    if m < n {
      assert EndsCode(actions, shared, m, idM);
      assert false;
    }
    if n < m {
      assert EndsCode(actions, shared, n, idN);
      assert false;
    }
  }

  /**
    Revoking an id ends its waiting code if and only if the id has registered, and then its credential too; otherwise
    the answer is "not found", and code and shared token stay usable.
   */
  lemma RevokingKeepsUnregisteredCode(db: Db, id: string, code: string, token: string, now: int, shared: string,
                                      bearer: Option<string>)
    requires CanRegister(db, id, code, token, now) && id != ""
    ensures CanRegister(Revoke(db, id), id, code, token, now) <==> id !in db.devices
    ensures AuthorizedFor(Revoke(db, id), shared, bearer, id) <==>
            id !in db.devices && shared != "" && bearer == Some(shared)
  {
  }

  /** A code is issued, its id revoked, and the code redeemed. */
  function RevokedRun(id: string, code: string, token: string, now: int): seq<Action> {
    [Issue(id, code, now)] + [Revocation(id)] + [Redeem(id, code, token, now)]
  }

  /** From empty tables, the last step of that run registers the device. */
  lemma RevokedCodeIsRedeemed(id: string, code: string, token: string, shared: string, now: int)
    requires |code| == CODE_LENGTH
    ensures Redeems(RevokedRun(id, code, token, now), shared, 2, id)
    ensures AuthorizedFor(After(RevokedRun(id, code, token, now), shared).db, shared, Some(token), id)
  {
    var one := [Issue(id, code, now)];
    var two := one + [Revocation(id)];
    assert [] + one == one;
    AfterMore([], Issue(id, code, now), shared);
    AfterMore(one, Revocation(id), shared);
    AfterMore(two, Redeem(id, code, token, now), shared);
    assert RevokedRun(id, code, token, now)[..2] == two;
    CodeSurvives(id, code, token, now);
  }

  lemma CodeSurvives(id: string, code: string, token: string, now: int)
    requires |code| == CODE_LENGTH
    ensures var db := Revoke(Enrol(EMPTY, id, code, now), id);
            && CanRegister(db, id, code, token, now)
            && Register(db, id, code, token, now).devices == map[id := Device(Sha256(token), false)]
  {
  }

  // ---- Device rows and the shared token ----

  lemma StepKeepsDevice(s: Sys, a: Action, shared: string, id: string)
    requires id in s.db.devices
    ensures id in Step(s, a, shared).db.devices
  {
  }

  /** Device rows are never removed. */
  lemma {:induction false} DeviceRowsStay(actions: seq<Action>, shared: string, n: nat, m: nat, id: string)
    requires n <= m <= |actions| && id in After(actions[..n], shared).db.devices
    ensures id in After(actions[..m], shared).db.devices
    decreases m
  {
    if n < m {
      DeviceRowsStay(actions, shared, n, m - 1, id);
      AfterNext(actions, shared, m - 1);
      StepKeepsDevice(After(actions[..m - 1], shared), actions[m - 1], shared, id);
    }
  }

  /** Once a device has registered, only its own unrevoked credential speaks for it, in every later state. */
  lemma SharedTokenRefused(actions: seq<Action>, shared: string, n: nat, m: nat, id: string, bearer: Option<string>)
    requires n <= m <= |actions| && id != "" && id in After(actions[..n], shared).db.devices
    ensures id in After(actions[..m], shared).db.devices
    ensures AuthorizedFor(After(actions[..m], shared).db, shared, bearer, id) <==>
              bearer.Some? && After(actions[..m], shared).db.devices[id] == Device(Sha256(bearer.value), false)
  {
    DeviceRowsStay(actions, shared, n, m, id);
  }
}
