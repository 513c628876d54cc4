/**
  Who may speak for a device, and what each step leaves alone, told from the actions of a run alone
  (internal/hub/devices.go, device_delete.go, sqlite_store.go).
 */
module Credentials {
  import opened Snapshots
  import opened DiskCompare
  import opened HubDb
  import opened SqliteStore
  import opened HubRuns

  // ---- The credential of a device ----

  /** The latest redemption for the device among the first n actions. */
  ghost predicate LastRedeemed(actions: seq<Action>, shared: string, n: nat, id: string, i: nat) {
    && i < n <= |actions| && Redeems(actions, shared, i, id)
    && forall k | i < k < n :: !Redeems(actions, shared, k, id)
  }

  predicate Revokes(actions: seq<Action>, k: nat, id: string) {
    k < |actions| && actions[k] == Revocation(id)
  }

  predicate RevokedSince(actions: seq<Action>, n: nat, id: string, i: nat) {
    exists k | i < k < n :: Revokes(actions, k, id)
  }

  /** The token was given to the device by its latest redemption, and not revoked since. */
  ghost predicate Current(actions: seq<Action>, shared: string, n: nat, id: string, token: string) {
    exists i: nat | LastRedeemed(actions, shared, n, id, i) ::
      actions[i].token == token && !RevokedSince(actions, n, id, i)
  }

  /**
    The bearer may speak for the device after n actions: with the credential of its latest redemption, not revoked
    since; or with the shared token, as long as no code was ever redeemed for it.
   */
  ghost predicate MaySpeak(actions: seq<Action>, shared: string, n: nat, bearer: Option<string>, id: string) {
    bearer.Some? &&
    (Current(actions, shared, n, id, bearer.value) ||
     ((forall i | 0 <= i < n :: !Redeems(actions, shared, i, id)) && shared != "" && bearer.value == shared))
  }

  /** What a step does to a device's row. */
  lemma StepDevice(s: Sys, a: Action, shared: string, id: string)
    requires id in Step(s, a, shared).db.devices
    ensures RedeemsAt(s, a, id) ==> Step(s, a, shared).db.devices[id] == Device(Sha256(a.token), false)
    ensures !RedeemsAt(s, a, id) ==>
              && id in s.db.devices && Step(s, a, shared).db.devices[id].token == s.db.devices[id].token
              && (Step(s, a, shared).db.devices[id].revoked <==> s.db.devices[id].revoked || a == Revocation(id))
  {
    match a
    case Issue(other, code, now) =>
    case Redeem(other, code, token, now) =>
    case Revocation(other) =>
    case Deletion(other) =>
    case Admit(_, _) =>
    case Write(r, now, threshold) =>
    case Cleanup(samples, snapshots, events) =>
  }

  lemma RevokedNext(actions: seq<Action>, n: nat, id: string, i: nat)
    requires i < n < |actions|
    ensures RevokedSince(actions, n + 1, id, i) <==> RevokedSince(actions, n, id, i) || actions[n] == Revocation(id)
  {
    assert Revokes(actions, n, id) <==> actions[n] == Revocation(id);
  }

  /** A device's row holds the token of its latest redemption, and tells whether it was revoked since. */
  lemma {:induction false} DeviceHistory(actions: seq<Action>, shared: string, n: nat, id: string) returns (i: nat)
    requires n <= |actions| && id in After(actions[..n], shared).db.devices
    ensures LastRedeemed(actions, shared, n, id, i)
    ensures After(actions[..n], shared).db.devices[id] ==
            Device(Sha256(actions[i].token), RevokedSince(actions, n, id, i))
    decreases n
  {
    var last := n - 1;
    AfterNext(actions, shared, last);
    StepDevice(After(actions[..last], shared), actions[last], shared, id);
    if Redeems(actions, shared, last, id) {
      i := last;
    } else {
      i := DeviceHistory(actions, shared, last, id);
      RevokedNext(actions, last, id, i);
    }
  }

  lemma RedeemedHasRow(actions: seq<Action>, shared: string, i: nat, n: nat, id: string)
    requires i < n <= |actions| && Redeems(actions, shared, i, id)
    ensures id in After(actions[..n], shared).db.devices
  {
    AfterNext(actions, shared, i);
    DeviceRowsStay(actions, shared, i + 1, n, id);
  }

  /** What the tables accept is what the actions say. */
  lemma SpeaksExactly(actions: seq<Action>, shared: string, n: nat, bearer: Option<string>, id: string)
    requires n <= |actions|
    ensures Speaks(After(actions[..n], shared).db, shared, bearer, id) <==> MaySpeak(actions, shared, n, bearer, id)
  {
    var db := After(actions[..n], shared).db;
    if id in db.devices {
      var i := DeviceHistory(actions, shared, n, id);
      forall j | LastRedeemed(actions, shared, n, id, j)
        ensures j == i
      {
      }
    } else {
      forall i | 0 <= i < n
        ensures !Redeems(actions, shared, i, id)
      {
        if Redeems(actions, shared, i, id) {
          RedeemedHasRow(actions, shared, i, n, id);
        }
      }
    }
  }

  lemma AuthorizedExactly(actions: seq<Action>, shared: string, n: nat, bearer: Option<string>, id: string)
    requires n <= |actions| && id != ""
    ensures AuthorizedFor(After(actions[..n], shared).db, shared, bearer, id) <==>
            MaySpeak(actions, shared, n, bearer, id)
  {
    SpeaksExactly(actions, shared, n, bearer, id);
    RowDecides(After(actions[..n], shared).db, shared, bearer, id);
  }

  /**
    A heartbeat or upload is admitted if and only if its bearer may speak for the device: with the token of the latest
    redemption, not revoked since, or with the shared token if no code was ever redeemed.
   */
  lemma AdmittedExactly(actions: seq<Action>, shared: string, n: nat, bearer: Option<string>, r: Request)
    requires n < |actions| && actions[n] == Admit(bearer, r) && AgentOf(r) != ""
    ensures var before, after := After(actions[..n], shared), After(actions[..n + 1], shared);
            var valid := r.Upload? ==> ValidNodes(r.snap.nodes);
            && after.db == before.db
            && after.inflight == before.inflight +
               if valid && MaySpeak(actions, shared, n, bearer, AgentOf(r)) then multiset{r} else multiset{}
  {
    AfterNext(actions, shared, n);
    AuthorizedExactly(actions, shared, n, bearer, AgentOf(r));
  }

  /** The action admits the request, for a bearer who may speak. */
  ghost predicate AdmitsAt(actions: seq<Action>, shared: string, i: nat, r: Request) {
    && i < |actions| && actions[i].Admit? && actions[i].request == r
    && MaySpeak(actions, shared, i, actions[i].bearer, AgentOf(r))
  }

  /** Every request on its way was admitted for a bearer who might speak for its device. */
  lemma {:induction false} InflightOrigin(actions: seq<Action>, shared: string, n: nat, r: Request) returns (i: nat)
    requires n <= |actions| && r in After(actions[..n], shared).inflight && AgentOf(r) != ""
    ensures i < n && AdmitsAt(actions, shared, i, r)
    decreases n
  {
    var last := n - 1;
    AfterNext(actions, shared, last);
    if r in After(actions[..last], shared).inflight {
      i := InflightOrigin(actions, shared, last, r);
    } else {
      i := last;
      AuthorizedExactly(actions, shared, last, actions[last].bearer, AgentOf(r));
    }
  }

  /** A registered device that was revoked has no credential until a code is redeemed for it again. */
  lemma RevokedIsRefused(actions: seq<Action>, shared: string, n: nat, m: nat, id: string, bearer: Option<string>)
    requires n < m <= |actions| && actions[n] == Revocation(id) && id != ""
    requires id in After(actions[..n], shared).db.devices && NoRedemption(actions, shared, n, m, id)
    ensures !AuthorizedFor(After(actions[..m], shared).db, shared, bearer, id)
  {
    var i := DeviceHistory(actions, shared, n, id);
    AuthorizedExactly(actions, shared, m, bearer, id);
    assert Revokes(actions, n, id);
    forall j | LastRedeemed(actions, shared, m, id, j)
      ensures RevokedSince(actions, m, id, j)
    {
    }
  }

  /** A tombstone goes back to a deletion, with no redemption for the device since. */
  lemma {:induction false} TombstoneOrigin(actions: seq<Action>, shared: string, n: nat, id: string) returns (i: nat)
    requires n <= |actions| && IsDeleted(After(actions[..n], shared), id)
    ensures i < n && Deletes(actions, shared, i, id) && NoRedemption(actions, shared, i, n, id)
    decreases n
  {
    TombstoneBefore(actions, shared, n, id);
    if Deletes(actions, shared, n - 1, id) {
      i := n - 1;
    } else {
      i := TombstoneOrigin(actions, shared, n - 1, id);
    }
    NoneSince(actions, shared, i, n, id);
  }

  lemma TombstoneBefore(actions: seq<Action>, shared: string, n: nat, id: string)
    requires n <= |actions| && IsDeleted(After(actions[..n], shared), id)
    ensures n > 0 && !Redeems(actions, shared, n - 1, id)
    ensures Deletes(actions, shared, n - 1, id) || IsDeleted(After(actions[..n - 1], shared), id)
  {
    AfterNext(actions, shared, n - 1);
    StepTombstone(After(actions[..n - 1], shared), actions[n - 1], shared, id);
  }

  lemma NoneSince(actions: seq<Action>, shared: string, i: nat, n: nat, id: string)
    requires i < n && (i == n - 1 || NoRedemption(actions, shared, i, n - 1, id))
    requires !Redeems(actions, shared, n - 1, id)
    ensures NoRedemption(actions, shared, i, n, id)
  {
  }

  predicate IsDeleted(s: Sys, id: string) {
    id in s.db.deleted
  }

  lemma StepTombstone(s: Sys, a: Action, shared: string, id: string)
    requires IsDeleted(Step(s, a, shared), id)
    ensures !RedeemsAt(s, a, id) && (DeletesAt(s, a, id) || IsDeleted(s, id))
  {
  }

  // ---- Codes ----

  lemma StepCodeStays(s: Sys, a: Action, shared: string, id: string)
    requires id in s.db.enrollments && !EndsAt(s, a, id)
    ensures id in Step(s, a, shared).db.enrollments
    ensures Step(s, a, shared).db.enrollments[id] == s.db.enrollments[id]
  {
    match a
    case Issue(other, code, now) =>
    case Redeem(other, code, token, now) =>
    case Revocation(other) =>
    case Deletion(other) =>
    case Admit(_, _) =>
    case Write(r, now, threshold) =>
    case Cleanup(samples, snapshots, events) =>
  }

  lemma StepIssues(s: Sys, a: Action, shared: string, id: string)
    requires IssuesAt(s, a, id)
    ensures id in Step(s, a, shared).db.enrollments
    ensures Step(s, a, shared).db.enrollments[id] == Enrollment(Sha256(a.code), a.now + ENROLLMENT_LIFE)
  {
  }

  /** An issued code waits until something ends its life. */
  lemma CodeStays(actions: seq<Action>, shared: string, i: nat, n: nat, id: string)
    requires i < n <= |actions| && Issues(actions, shared, i, id)
    requires forall k | i < k < n :: !EndsCode(actions, shared, k, id)
    ensures HasCode(After(actions[..n], shared).db, id,
                    Enrollment(Sha256(actions[i].code), actions[i].now + ENROLLMENT_LIFE))
  {
    var code := Enrollment(Sha256(actions[i].code), actions[i].now + ENROLLMENT_LIFE);
    var holds := (s: Sys) => HasCode(s.db, id, code);
    AfterNext(actions, shared, i);
    StepIssues(After(actions[..i], shared), actions[i], shared, id);
    forall k | i + 1 <= k < n
      ensures Carries(actions, shared, k, holds)
    {
      assert !EndsCode(actions, shared, k, id);
      KeepsCode(After(actions[..k], shared), actions[k], shared, id, code);
    }
    Onwards(actions, shared, i + 1, n, holds);
  }

  predicate HasCode(db: Db, id: string, code: Enrollment) {
    id in db.enrollments && db.enrollments[id] == code
  }

  lemma KeepsCode(s: Sys, a: Action, shared: string, id: string, code: Enrollment)
    requires !EndsAt(s, a, id)
    ensures HasCode(s.db, id, code) ==> HasCode(Step(s, a, shared).db, id, code)
  {
    if HasCode(s.db, id, code) {
      StepCodeStays(s, a, shared, id);
    }
  }

  /** The code of the n-th action was issued for the device less than ten minutes before, and nothing ended its life. */
  ghost predicate IssuedFor(actions: seq<Action>, shared: string, i: nat, n: nat, id: string)
    requires n < |actions| && actions[n].Redeem?
  {
    && i < n && Issues(actions, shared, i, id) && actions[i].code == actions[n].code
    && actions[n].now < actions[i].now + 600_000_000_000
    && forall k | i < k < n :: !EndsCode(actions, shared, k, id)
  }

  /** A redemption succeeds exactly if its code was issued like that, has its length, and the token is nobody else's. */
  lemma RedeemedExactly(actions: seq<Action>, shared: string, n: nat, id: string)
    requires n < |actions| && actions[n].Redeem? && actions[n].id == id
    ensures Redeems(actions, shared, n, id) <==>
            && |actions[n].code| == 64
            && !TokenTaken(After(actions[..n], shared).db.devices, id, Sha256(actions[n].token))
            && exists i :: IssuedFor(actions, shared, i, n, id)
  {
    if Redeems(actions, shared, n, id) {
      var i := RedeemedAsIssued(actions, shared, n, id);
      assert IssuedFor(actions, shared, i, n, id);
    }
    if i :| IssuedFor(actions, shared, i, n, id) {
      CodeStays(actions, shared, i, n, id);
    }
  }

  /** No two tokens are the same either. */
  ghost predicate FreshTokens(actions: seq<Action>) {
    forall i, j | 0 <= i < j < |actions| && actions[i].Redeem? && actions[j].Redeem? ::
      actions[i].token != actions[j].token
  }

  /** With fresh codes and tokens, issuing always succeeds, and redeeming exactly for a code that was issued. */
  lemma FreshRedemption(actions: seq<Action>, shared: string, n: nat)
    requires FreshCodes(actions) && FreshTokens(actions) && n < |actions|
    ensures actions[n].Issue? ==> Issues(actions, shared, n, actions[n].id)
    ensures actions[n].Redeem? ==>
              (Redeems(actions, shared, n, actions[n].id) <==>
               |actions[n].code| == 64 && exists i :: IssuedFor(actions, shared, i, n, actions[n].id))
  {
    var db := After(actions[..n], shared).db;
    if actions[n].Issue? {
      forall other | other in db.enrollments
        ensures db.enrollments[other].code != Sha256(actions[n].code)
      {
        var i := CodeOrigin(actions, shared, n, other);
      }
    }
    if actions[n].Redeem? {
      RedeemedExactly(actions, shared, n, actions[n].id);
      forall other | other in db.devices
        ensures db.devices[other].token != Sha256(actions[n].token)
      {
        var i := DeviceHistory(actions, shared, n, other);
      }
    }
  }

  /** No two devices have the same token, and no two wait with the same code. */
  ghost predicate Unique(db: Db) {
    && (forall a, b | a in db.devices && b in db.devices && db.devices[a].token == db.devices[b].token :: a == b)
    && (forall a, b | a in db.enrollments && b in db.enrollments && db.enrollments[a].code == db.enrollments[b].code ::
          a == b)
  }

  lemma StepKeepsUnique(s: Sys, a: Action, shared: string)
    requires Unique(s.db)
    ensures Unique(Step(s, a, shared).db)
  {
    match a
    case Issue(id, code, now) => CodesStayUnique(s.db, id, code, now);
    case Redeem(id, code, token, now) => TokensStayUnique(s.db, id, code, token, now);
    case Revocation(id) =>
    case Deletion(id) =>
    case Admit(_, _) =>
    case Write(r, now, threshold) =>
    case Cleanup(samples, snapshots, events) =>
  }

  lemma CodesStayUnique(db: Db, id: string, code: string, now: int)
    requires Unique(db)
    ensures Unique(Enrol(db, id, code, now))
  {
  }

  lemma TokensStayUnique(db: Db, id: string, code: string, token: string, now: int)
    requires Unique(db)
    ensures Unique(Register(db, id, code, token, now))
  {
  }

  /** In every run, whether or not codes and tokens are fresh. */
  lemma {:induction false} CredentialsAreUnique(actions: seq<Action>, shared: string)
    ensures Unique(After(actions, shared).db)
  {
    if |actions| > 0 {
      CredentialsAreUnique(actions[..|actions| - 1], shared);
      StepKeepsUnique(After(actions[..|actions| - 1], shared), actions[|actions| - 1], shared);
    }
  }

  /** A device is enrolled, registered, revoked and deleted. */
  function WholeLife(id: string, code: string, token: string, now: int): seq<Action> {
    [Issue(id, code, now)] + [Redeem(id, code, token, now)] + [Revocation(id)] + [Deletion(id)]
  }

  /** That run, from empty tables, ends with a tombstone. */
  lemma WholeLifeEndsDeleted(id: string, code: string, token: string, shared: string, now: int)
    requires |code| == CODE_LENGTH
    ensures id in After(WholeLife(id, code, token, now), shared).db.deleted
  {
    var one := [Issue(id, code, now)];
    var two := one + [Redeem(id, code, token, now)];
    var three := two + [Revocation(id)];
    assert [] + one == one;
    AfterMore([], Issue(id, code, now), shared);
    AfterMore(one, Redeem(id, code, token, now), shared);
    AfterMore(two, Revocation(id), shared);
    AfterMore(three, Deletion(id), shared);
    DeletedInTheEnd(id, code, token, now);
  }

  lemma DeletedInTheEnd(id: string, code: string, token: string, now: int)
    requires |code| == CODE_LENGTH
    ensures id in Delete(Revoke(Register(Enrol(EMPTY, id, code, now), id, code, token, now), id), id).deleted
  {
  }

  // ---- What each step leaves alone ----

  /** The tables hold the same about a device. */
  ghost predicate SameRows(a: Db, b: Db, id: string) {
    && (id in a.devices <==> id in b.devices) && (id in a.devices ==> a.devices[id] == b.devices[id])
    && (id in a.enrollments <==> id in b.enrollments)
    && (id in a.enrollments ==> a.enrollments[id] == b.enrollments[id])
    && (id in a.deleted <==> id in b.deleted)
    && (id in a.servers <==> id in b.servers) && (id in a.servers ==> a.servers[id] == b.servers[id])
    && SameHistoryOf(a, b, id)
  }

  ghost predicate SameHistoryOf(a: Db, b: Db, id: string) {
    && (forall k: SampleKey | k.agent == id ::
          (k in a.samples <==> k in b.samples) && (k in a.samples ==> a.samples[k] == b.samples[k]))
    && (forall k: SnapKey | k.agent == id ::
          (k in a.snapshots <==> k in b.snapshots) && (k in a.snapshots ==> a.snapshots[k] == b.snapshots[k]))
    && (forall e: Event | e.agent == id :: e in a.events.rows <==> e in b.events.rows)
  }

  /** The step is about the device. */
  predicate IsAbout(a: Action, id: string) {
    match a
    case Issue(other, _, _) => other == id
    case Redeem(other, _, _, _) => other == id
    case Revocation(other) => other == id
    case Deletion(other) => other == id
    case Admit(_, _) => false
    case Write(r, _, _) => AgentOf(r) == id
    case Cleanup(_, _, _) => true
  }

  lemma EnrolmentSparesOthers(db: Db, id: string, code: string, now: int, other: string)
    requires other != id
    ensures SameRows(db, Enrol(db, id, code, now), other) && SameRows(db, Revoke(db, id), other)
  {
  }

  lemma RegistrationSparesOthers(db: Db, id: string, code: string, token: string, now: int, other: string)
    requires other != id
    ensures SameRows(db, Register(db, id, code, token, now), other)
  {
  }

  lemma HeartbeatSparesOthers(db: Db, id: string, at: int, metrics: Metrics, now: int, other: string)
    requires other != id
    ensures SameRows(db, Upsert(db, id, at, metrics, now), other)
  {
  }

  lemma DeletionSparesOthers(db: Db, id: string, other: string)
    requires other != id
    ensures SameRows(db, Delete(db, id), other)
  {
    forall e: Event | e.agent == other
      ensures e in EventsWithout(db.events.rows, id) <==> e in db.events.rows
    {
      EventsWithoutMeans(db.events.rows, id, e);
    }
  }

  lemma UploadSparesOthers(db: Db, snap: Snapshot, threshold: int, other: string)
    requires other != snap.agent
    ensures SameRows(db, SaveDiskEvents(db, snap, threshold), other)
  {
    var growth := Growth(Latest(db.snapshots, snap.agent, snap.root), snap, threshold);
    forall e: Event | e.agent == other
      ensures e in AddEvents(db.events, snap.agent, snap.root, threshold, growth).rows <==> e in db.events.rows
    {
      AddedAreOwn(db.events, snap.agent, snap.root, threshold, growth, e);
    }
  }

  lemma {:induction false} AddedAreOwn(t: EventTable, agent: string, root: string, threshold: int, alerts: seq<Alert>,
                                       e: Event)
    requires e.agent != agent
    ensures e in AddEvents(t, agent, root, threshold, alerts).rows <==> e in t.rows
  {
    if |alerts| > 0 {
      AddedAreOwn(t, agent, root, threshold, alerts[..|alerts| - 1], e);
    }
  }

  /** No step but a cleanup changes anything the tables hold about a device that it is not about. */
  lemma OthersKeepTheirRows(s: Sys, a: Action, shared: string, id: string)
    requires !IsAbout(a, id)
    ensures SameRows(s.db, Step(s, a, shared).db, id)
  {
    match a
    case Issue(other, code, now) => EnrolmentSparesOthers(s.db, other, code, now, id);
    case Redeem(other, code, token, now) => RegistrationSparesOthers(s.db, other, code, token, now, id);
    case Revocation(other) => EnrolmentSparesOthers(s.db, other, "", 0, id);
    case Deletion(other) => DeletionSparesOthers(s.db, other, id);
    case Admit(_, _) =>
    case Write(r, now, threshold) =>
      if r.Upload? {
        UploadSparesOthers(s.db, r.snap, threshold, id);
      } else {
        HeartbeatSparesOthers(s.db, r.agent, r.at, r.metrics, now, id);
      }
    case Cleanup(_, _, _) =>
  }

  // ---- Samples, and when a device was last seen ----

  /** The step writes a heartbeat of the device, which is not deleted. */
  ghost predicate BeatsAt(s: Sys, a: Action, id: string) {
    a.Write? && a.request.Heartbeat? && a.request.agent == id && a.request in s.inflight && id !in s.db.deleted
  }

  ghost predicate Beats(actions: seq<Action>, shared: string, i: nat, id: string) {
    i < |actions| && BeatsAt(After(actions[..i], shared), actions[i], id)
  }

  ghost predicate DeletesAt(s: Sys, a: Action, id: string) {
    a == Deletion(id) && CanDelete(s.db, id)
  }

  ghost predicate Deletes(actions: seq<Action>, shared: string, i: nat, id: string) {
    i < |actions| && DeletesAt(After(actions[..i], shared), actions[i], id)
  }

  /** The action writes this sample. */
  ghost predicate Samples(actions: seq<Action>, shared: string, i: nat, k: SampleKey) {
    Beats(actions, shared, i, k.agent) && actions[i].request.at == k.at
  }

  /** The action replaces or takes the sample. */
  ghost predicate EndsSample(actions: seq<Action>, shared: string, i: nat, k: SampleKey) {
    || Samples(actions, shared, i, k) || Deletes(actions, shared, i, k.agent)
    || (i < |actions| && actions[i].Cleanup? && k in actions[i].samples)
  }

  lemma CredentialsKeepSamples(db: Db, id: string, code: string, token: string, now: int)
    ensures Enrol(db, id, code, now).samples == db.samples && Enrol(db, id, code, now).servers == db.servers
    ensures Revoke(db, id).samples == db.samples && Revoke(db, id).servers == db.servers
    ensures Register(db, id, code, token, now).samples == db.samples
    ensures Register(db, id, code, token, now).servers == db.servers
  {
  }

  /** What a step does to a stored sample. */
  lemma StepSample(s: Sys, a: Action, shared: string, k: SampleKey)
    ensures var before, after := s.db.samples, Step(s, a, shared).db.samples;
            var written := BeatsAt(s, a, k.agent) && a.request.at == k.at;
            && (written ==> k in after && after[k] == a.request.metrics)
            && (!written ==> (k in after <==> k in before && !DeletesAt(s, a, k.agent) &&
                                              !(a.Cleanup? && k in a.samples)))
            && (!written && k in after ==> k in before && after[k] == before[k])
  {
    match a
    case Issue(id, code, now) => CredentialsKeepSamples(s.db, id, code, "", now);
    case Redeem(id, code, token, now) => CredentialsKeepSamples(s.db, id, code, token, now);
    case Revocation(id) => CredentialsKeepSamples(s.db, id, "", "", 0);
    case Deletion(id) =>
    case Admit(_, _) =>
    case Write(r, now, threshold) =>
    case Cleanup(samples, snapshots, events) =>
  }

  /** A stored sample is what the latest heartbeat for its time reported, and nothing has taken it since. */
  lemma {:induction false} SampleOrigin(actions: seq<Action>, shared: string, n: nat, k: SampleKey) returns (i: nat)
    requires n <= |actions| && k in After(actions[..n], shared).db.samples
    ensures i < n && Samples(actions, shared, i, k) && Untouched(actions, shared, i, n, k)
    ensures HasSample(After(actions[..n], shared).db, k, actions[i].request.metrics)
    decreases n
  {
    var last := n - 1;
    AfterNext(actions, shared, last);
    StepSample(After(actions[..last], shared), actions[last], shared, k);
    if Samples(actions, shared, last, k) {
      i := last;
    } else {
      i := SampleOrigin(actions, shared, last, k);
    }
  }

  ghost predicate HasSample(db: Db, k: SampleKey, m: Metrics) {
    k in db.samples && db.samples[k] == m
  }

  /** Nothing between the i-th action and the n-th replaces or takes the sample. */
  ghost predicate Untouched(actions: seq<Action>, shared: string, i: nat, n: nat, k: SampleKey) {
    forall j | i < j < n :: !EndsSample(actions, shared, j, k)
  }

  lemma StepWritesSample(s: Sys, a: Action, shared: string, k: SampleKey)
    requires BeatsAt(s, a, k.agent) && a.request.at == k.at
    ensures HasSample(Step(s, a, shared).db, k, a.request.metrics)
  {
  }

  lemma KeepsSample(s: Sys, a: Action, shared: string, k: SampleKey, m: Metrics)
    requires !(BeatsAt(s, a, k.agent) && a.request.at == k.at)
    requires !DeletesAt(s, a, k.agent) && !(a.Cleanup? && k in a.samples)
    ensures HasSample(s.db, k, m) ==> HasSample(Step(s, a, shared).db, k, m)
  {
    StepSample(s, a, shared, k);
  }

  /** A sample that was written stays as it is until something takes it. */
  lemma SampleStays(actions: seq<Action>, shared: string, i: nat, n: nat, k: SampleKey)
    requires i < n <= |actions| && Samples(actions, shared, i, k) && Untouched(actions, shared, i, n, k)
    ensures HasSample(After(actions[..n], shared).db, k, actions[i].request.metrics)
  {
    var m := actions[i].request.metrics;
    var holds := (s: Sys) => HasSample(s.db, k, m);
    AfterNext(actions, shared, i);
    StepWritesSample(After(actions[..i], shared), actions[i], shared, k);
    forall j | i + 1 <= j < n
      ensures Carries(actions, shared, j, holds)
    {
      assert !EndsSample(actions, shared, j, k);
      KeepsSample(After(actions[..j], shared), actions[j], shared, k, m);
    }
    Onwards(actions, shared, i + 1, n, holds);
  }

  /** What a step does to the time a device was last seen. */
  lemma StepServer(s: Sys, a: Action, shared: string, id: string)
    ensures var before, after := s.db.servers, Step(s, a, shared).db.servers;
            && (BeatsAt(s, a, id) ==> id in after && after[id] == a.now)
            && (!BeatsAt(s, a, id) ==> (id in after <==> id in before && !DeletesAt(s, a, id)))
            && (!BeatsAt(s, a, id) && id in after ==> id in before && after[id] == before[id])
  {
    match a
    case Issue(other, code, now) => CredentialsKeepSamples(s.db, other, code, "", now);
    case Redeem(other, code, token, now) => CredentialsKeepSamples(s.db, other, code, token, now);
    case Revocation(other) => CredentialsKeepSamples(s.db, other, "", "", 0);
    case Deletion(other) =>
    case Admit(_, _) =>
    case Write(r, now, threshold) =>
    case Cleanup(samples, snapshots, events) =>
  }

  /** A listed device was last seen when its latest heartbeat was written. */
  lemma {:induction false} LastSeen(actions: seq<Action>, shared: string, n: nat, id: string, at: int) returns (i: nat)
    requires n <= |actions| && SeenAt(After(actions[..n], shared).db, id, at)
    ensures i < n && Beats(actions, shared, i, id) && at == actions[i].now
    ensures QuietSince(actions, shared, i, n, id)
    decreases n
  {
    var last := n - 1;
    AfterNext(actions, shared, last);
    StepSeen(After(actions[..last], shared), actions[last], shared, id, at);
    if Beats(actions, shared, last, id) {
      i := last;
    } else {
      i := LastSeen(actions, shared, last, id, at);
    }
  }

  predicate SeenAt(db: Db, id: string, at: int) {
    id in db.servers && db.servers[id] == at
  }

  /** No heartbeat of the device between the i-th action and the n-th, and no deletion. */
  ghost predicate QuietSince(actions: seq<Action>, shared: string, i: nat, n: nat, id: string) {
    forall j | i < j < n :: !Beats(actions, shared, j, id) && !Deletes(actions, shared, j, id)
  }

  lemma StepSeen(s: Sys, a: Action, shared: string, id: string, at: int)
    requires SeenAt(Step(s, a, shared).db, id, at)
    ensures BeatsAt(s, a, id) ==> at == a.now
    ensures !BeatsAt(s, a, id) ==> SeenAt(s.db, id, at) && !DeletesAt(s, a, id)
  {
    StepServer(s, a, shared, id);
  }

  lemma StepListsServer(s: Sys, a: Action, shared: string, id: string)
    requires BeatsAt(s, a, id)
    ensures id in Step(s, a, shared).db.servers
  {
  }

  lemma KeepsServer(s: Sys, a: Action, shared: string, id: string)
    requires !DeletesAt(s, a, id)
    ensures id in s.db.servers ==> id in Step(s, a, shared).db.servers
  {
    StepServer(s, a, shared, id);
  }

  /** A device that was seen stays listed until it is deleted. */
  lemma SeenStays(actions: seq<Action>, shared: string, i: nat, n: nat, id: string)
    requires i < n <= |actions| && Beats(actions, shared, i, id)
    requires forall j | i < j < n :: !Deletes(actions, shared, j, id)
    ensures id in After(actions[..n], shared).db.servers
  {
    var holds := (s: Sys) => id in s.db.servers;
    AfterNext(actions, shared, i);
    StepListsServer(After(actions[..i], shared), actions[i], shared, id);
    forall j | i + 1 <= j < n
      ensures Carries(actions, shared, j, holds)
    {
      assert !Deletes(actions, shared, j, id);
      KeepsServer(After(actions[..j], shared), actions[j], shared, id);
    }
    Onwards(actions, shared, i + 1, n, holds);
  }
}
