/**
  The intervals of logged events in every run, with deletions and with cleanups (internal/hub/events.go, retention.go,
  device_delete.go).
 */
module EventSpans {
  import opened Ordering
  import opened Snapshots
  import opened DiskCompare
  import opened HubDb
  import opened HubRuns
  import opened EventLog

  ghost predicate Of(e: Event, agent: string, root: string) {
    e.agent == agent && e.root == root
  }

  /** Intervals that are the same or do not overlap. */
  ghost predicate Apart(from: int, to: int, from': int, to': int) {
    (from == from' && to == to') || to <= from' || to' <= from
  }

  /** The events of a device and root have proper intervals, and the snapshots they end at are stored. */
  ghost predicate Anchored(db: Db, agent: string, root: string) {
    forall e | e in db.events.rows && Of(e, agent, root) :: e.from < e.to && SnapKey(agent, root, e.to) in db.snapshots
  }

  ghost predicate AllApart(rows: seq<Event>, agent: string, root: string) {
    forall e, f | e in rows && f in rows && Of(e, agent, root) && Of(f, agent, root) ::
      Apart(e.from, e.to, f.from, f.to)
  }

  ghost predicate Spaced(db: Db, agent: string, root: string) {
    WellKeyed(db.snapshots) && Anchored(db, agent, root) && AllApart(db.events.rows, agent, root)
  }

  // ---- Cleanups that keep pace ----

  /** The cleanup takes the snapshot that the event ends at. */
  ghost predicate LosesEnd(db: Db, snapshots: set<SnapKey>, e: Event) {
    SnapKey(e.agent, e.root, e.to) in db.snapshots && SnapKey(e.agent, e.root, e.to) in snapshots
  }

  /** The events that end at a snapshot go when it goes. */
  ghost predicate KeepsPace(db: Db, snapshots: set<SnapKey>, events: set<Event>, agent: string, root: string) {
    forall e | e in db.events.rows && Of(e, agent, root) && LosesEnd(db, snapshots, e) :: e in events
  }

  /** A batch that is not too small for the expired events keeps pace, for every device and root. */
  lemma BatchKeepsPace(db: Db, cutoff: int, batch: nat, snapshots: set<SnapKey>, events: set<Event>,
                       agent: string, root: string)
    requires OldestExpired(SnapStamps(db), cutoff, batch, snapshots)
    requires OldestExpired(EventStamps(db), cutoff, batch, events)
    requires |Expired(EventStamps(db), cutoff)| <= batch
    ensures KeepsPace(db, snapshots, events, agent, root)
  {
    var expired := Expired(EventStamps(db), cutoff);
    WholeBatch(expired, events, batch);
    forall e | e in db.events.rows && Of(e, agent, root) && LosesEnd(db, snapshots, e)
      ensures e in events
    {
      assert SnapKey(agent, root, e.to) in Expired(SnapStamps(db), cutoff);
      assert e in expired;
    }
  }

  lemma WholeBatch(expired: set<Event>, chosen: set<Event>, batch: nat)
    requires chosen <= expired && |expired| <= batch && (|chosen| == batch || chosen == expired)
    ensures chosen == expired
  {
    if chosen != expired {
      var e :| e in expired && e !in chosen;
      SubsetSize(chosen, expired - {e});
    }
  }

  ghost predicate PaceAt(actions: seq<Action>, shared: string, i: nat, agent: string, root: string) {
    && i < |actions|
    && (actions[i].Cleanup? ==>
          KeepsPace(After(actions[..i], shared).db, actions[i].snapshots, actions[i].events, agent, root))
  }

  /** Every cleanup of the run keeps pace. */
  ghost predicate InPace(actions: seq<Action>, shared: string, agent: string, root: string) {
    forall i | 0 <= i < |actions| :: PaceAt(actions, shared, i, agent, root)
  }

  lemma PaceInit(actions: seq<Action>, shared: string, agent: string, root: string)
    requires InPace(actions, shared, agent, root) && |actions| > 0
    ensures InPace(actions[..|actions| - 1], shared, agent, root) && PaceAt(actions, shared, |actions| - 1, agent, root)
  {
    var init := actions[..|actions| - 1];
    forall i | 0 <= i < |init|
      ensures PaceAt(init, shared, i, agent, root)
    {
      assert init[..i] == actions[..i];
      assert PaceAt(actions, shared, i, agent, root);
    }
  }

  /** Cleanups that take nothing of the device and root keep pace for it. */
  lemma UndisturbedIsInPace(actions: seq<Action>, shared: string, agent: string, root: string)
    requires Undisturbed(actions, shared, agent, root)
    ensures InPace(actions, shared, agent, root)
  {
    forall i | 0 <= i < |actions|
      ensures PaceAt(actions, shared, i, agent, root)
    {
      assert !DisturbedAt(actions, shared, i, agent, root);
      if actions[i].Cleanup? {
        SparingKeepsPace(After(actions[..i], shared).db, actions[i].snapshots, actions[i].events, agent, root);
      }
    }
  }

  lemma SparingKeepsPace(db: Db, snapshots: set<SnapKey>, events: set<Event>, agent: string, root: string)
    requires Spares(db, snapshots, events, agent, root)
    ensures KeepsPace(db, snapshots, events, agent, root)
  {
    forall e | e in db.events.rows && Of(e, agent, root)
      ensures !LosesEnd(db, snapshots, e)
    {
      var k := SnapKey(agent, root, e.to);
      assert k in db.snapshots ==> k in Rows(db.snapshots, agent, root);
    }
  }

  // ---- Where events come from ----

  /** Rows that adding alerts brings are of the device and root, with the alerts' interval, and not acknowledged. */
  lemma {:induction false} AddedRow(t: EventTable, agent: string, root: string, threshold: int, alerts: seq<Alert>,
                                    from: int, to: int, e: Event)
    requires forall a | a in alerts :: a.from == from && a.to == to
    requires e in AddEvents(t, agent, root, threshold, alerts).rows && e !in t.rows
    ensures Of(e, agent, root) && e.from == from && e.to == to && e.threshold == threshold && e.ack.None?
  {
    var n := |alerts| - 1;
    if e in AddEvents(t, agent, root, threshold, alerts[..n]).rows {
      AddedRow(t, agent, root, threshold, alerts[..n], from, to, e);
    } else {
      assert alerts[n] in alerts;
    }
  }

  /** The event reaches from the newest snapshot to the one being saved. */
  ghost predicate IsNew(db: Db, snap: Snapshot, e: Event) {
    && Of(e, snap.agent, snap.root)
    && Rows(db.snapshots, snap.agent, snap.root) != {}
    && e.from == Latest(db.snapshots, snap.agent, snap.root).at < e.to == snap.at
    && Lands(db, snap)
  }

  lemma EventOrigin(db: Db, snap: Snapshot, threshold: int, e: Event)
    requires DistinctPaths(snap.nodes) && e in SaveDiskEvents(db, snap, threshold).events.rows && e !in db.events.rows
    ensures IsNew(db, snap, e)
  {
    var previous := Latest(db.snapshots, snap.agent, snap.root);
    GrowthAlertsDistinct(previous, snap, threshold);
    AddedRow(db.events, snap.agent, snap.root, threshold, Growth(previous, snap, threshold), previous.at, snap.at, e);
  }

  // ---- What each step keeps ----

  lemma SavingKeepsAnchors(db: Db, snap: Snapshot, threshold: int, agent: string, root: string)
    requires Anchored(db, agent, root) && DistinctPaths(snap.nodes)
    ensures Anchored(SaveDiskEvents(db, snap, threshold), agent, root)
  {
    var after := SaveDiskEvents(db, snap, threshold);
    forall e | e in after.events.rows && Of(e, agent, root)
      ensures e.from < e.to && SnapKey(agent, root, e.to) in after.snapshots
    {
      if e !in db.events.rows {
        EventOrigin(db, snap, threshold, e);
      }
    }
  }

  /** What is new begins where everything there is has ended. */
  lemma NewIsApart(db: Db, snap: Snapshot, e: Event, f: Event)
    requires WellKeyed(db.snapshots) && Anchored(db, snap.agent, snap.root)
    requires IsNew(db, snap, e) && f in db.events.rows && Of(f, snap.agent, snap.root)
    ensures f.to <= e.from
  {
    NoneLater(db.snapshots, snap.agent, snap.root, f.to);
  }

  lemma SavingKeepsApart(db: Db, snap: Snapshot, threshold: int, agent: string, root: string)
    requires Spaced(db, agent, root) && DistinctPaths(snap.nodes)
    ensures AllApart(SaveDiskEvents(db, snap, threshold).events.rows, agent, root)
  {
    var rows := SaveDiskEvents(db, snap, threshold).events.rows;
    forall e, f | e in rows && f in rows && Of(e, agent, root) && Of(f, agent, root)
      ensures Apart(e.from, e.to, f.from, f.to)
    {
      if e !in db.events.rows {
        EventOrigin(db, snap, threshold, e);
      }
      if f !in db.events.rows {
        EventOrigin(db, snap, threshold, f);
      }
      PairApart(db, snap, e, f, agent, root);
    }
  }

  lemma PairApart(db: Db, snap: Snapshot, e: Event, f: Event, agent: string, root: string)
    requires Spaced(db, agent, root) && Of(e, agent, root) && Of(f, agent, root)
    requires (e in db.events.rows || IsNew(db, snap, e)) && (f in db.events.rows || IsNew(db, snap, f))
    ensures Apart(e.from, e.to, f.from, f.to)
  {
    if IsNew(db, snap, e) && f in db.events.rows {
      NewIsApart(db, snap, e, f);
    } else if IsNew(db, snap, f) && e in db.events.rows {
      NewIsApart(db, snap, f, e);
    }
  }

  /** Fewer events, as long as each finds its snapshot. */
  lemma FewerEvents(db: Db, after: Db, agent: string, root: string)
    requires Spaced(db, agent, root) && WellKeyed(after.snapshots)
    requires forall e | e in after.events.rows && Of(e, agent, root) ::
               e in db.events.rows && SnapKey(agent, root, e.to) in after.snapshots
    ensures Spaced(after, agent, root)
  {
  }

  lemma DeletingKeeps(db: Db, id: string, agent: string, root: string)
    requires Spaced(db, agent, root)
    ensures Spaced(Delete(db, id), agent, root)
  {
    var after := Delete(db, id);
    if CanDelete(db, id) {
      forall e | e in after.events.rows && Of(e, agent, root)
        ensures e in db.events.rows && SnapKey(agent, root, e.to) in after.snapshots
      {
        EventsWithoutMeans(db.events.rows, id, e);
      }
      FewerEvents(db, after, agent, root);
    }
  }

  lemma CleaningKeeps(db: Db, samples: set<SampleKey>, snapshots: set<SnapKey>, events: set<Event>,
                      agent: string, root: string)
    requires Spaced(db, agent, root) && KeepsPace(db, snapshots, events, agent, root)
    ensures Spaced(Remove(db, samples, snapshots, events), agent, root)
  {
    var after := Remove(db, samples, snapshots, events);
    forall e | e in after.events.rows && Of(e, agent, root)
      ensures e in db.events.rows && SnapKey(agent, root, e.to) in after.snapshots
    {
      EventsExceptMeans(db.events.rows, events, e);
      assert !LosesEnd(db, snapshots, e);
    }
    FewerEvents(db, after, agent, root);
  }

  lemma StepKeepsSpacing(s: Sys, a: Action, shared: string, agent: string, root: string)
    requires Spaced(s.db, agent, root) && ValidUploads(s)
    requires a.Cleanup? ==> KeepsPace(s.db, a.snapshots, a.events, agent, root)
    ensures Spaced(Step(s, a, shared).db, agent, root)
  {
    if a.Write? && a.request in s.inflight && a.request.Upload? {
      StepKeepsKeys(s, a, shared);
      SavingKeepsAnchors(s.db, a.request.snap, a.threshold, agent, root);
      SavingKeepsApart(s.db, a.request.snap, a.threshold, agent, root);
    } else if a.Deletion? {
      DeletingKeeps(s.db, a.id, agent, root);
    } else if a.Cleanup? {
      CleaningKeeps(s.db, a.samples, a.snapshots, a.events, agent, root);
    } else {
      OtherStepsKeepHistory(s, a, shared);
      SameSpacing(s.db, Step(s, a, shared).db, agent, root);
    }
  }

  lemma SameSpacing(a: Db, b: Db, agent: string, root: string)
    requires Spaced(a, agent, root) && b.snapshots == a.snapshots && b.events == a.events
    ensures Spaced(b, agent, root)
  {
  }

  lemma {:induction false} RunIsSpaced(actions: seq<Action>, shared: string, agent: string, root: string)
    requires InPace(actions, shared, agent, root)
    ensures Spaced(After(actions, shared).db, agent, root)
  {
    if |actions| > 0 {
      var n := |actions| - 1;
      PaceInit(actions, shared, agent, root);
      RunIsSpaced(actions[..n], shared, agent, root);
      InflightIsValid(actions[..n], shared);
      StepKeepsSpacing(After(actions[..n], shared), actions[n], shared, agent, root);
    }
  }

  // ---- No two rows alike ----

  ghost predicate Twins(e: Event, f: Event) {
    e.agent == f.agent && e.root == f.root && e.path == f.path && e.to == f.to
  }

  ghost predicate NoTwins(rows: seq<Event>) {
    forall i, j | 0 <= i < j < |rows| :: !Twins(rows[i], rows[j])
  }

  lemma NoTwinsMore(rows: seq<Event>, e: Event)
    requires NoTwins(rows) && forall f | f in rows :: !Twins(f, e)
    ensures NoTwins(rows + [e])
  {
    forall i | 0 <= i < |rows|
      ensures !Twins(rows[i], e)
    {
      assert rows[i] in rows;
    }
  }

  lemma {:induction false} AddingKeepsNoTwins(t: EventTable, agent: string, root: string, threshold: int,
                                              alerts: seq<Alert>)
    requires NoTwins(t.rows)
    ensures NoTwins(AddEvents(t, agent, root, threshold, alerts).rows)
  {
    if |alerts| > 0 {
      var n := |alerts| - 1;
      var before, a := AddEvents(t, agent, root, threshold, alerts[..n]), alerts[n];
      AddingKeepsNoTwins(t, agent, root, threshold, alerts[..n]);
      if !Clashes(before.rows, agent, root, a.path, a.to) {
        NoTwinsMore(before.rows, Event(before.lastId + 1, agent, root, a.path, a.delta, threshold, a.from, a.to, None));
      }
    }
  }

  lemma {:induction false} RemovingKeepsNoTwins(rows: seq<Event>, gone: set<Event>, id: string)
    requires NoTwins(rows)
    ensures NoTwins(EventsExcept(rows, gone)) && NoTwins(EventsWithout(rows, id))
  {
    if |rows| > 0 {
      var n := |rows| - 1;
      RemovingKeepsNoTwins(rows[..n], gone, id);
      forall f | f in EventsExcept(rows[..n], gone) || f in EventsWithout(rows[..n], id)
        ensures !Twins(f, rows[n])
      {
        EventsExceptMeans(rows[..n], gone, f);
        EventsWithoutMeans(rows[..n], id, f);
        var i :| 0 <= i < n && rows[i] == f;
      }
      NoTwinsMore(EventsExcept(rows[..n], gone), rows[n]);
      NoTwinsMore(EventsWithout(rows[..n], id), rows[n]);
    }
  }

  lemma StepKeepsNoTwins(s: Sys, a: Action, shared: string)
    requires NoTwins(s.db.events.rows)
    ensures NoTwins(Step(s, a, shared).db.events.rows)
  {
    if a.Write? && a.request in s.inflight && a.request.Upload? {
      var snap := a.request.snap;
      AddingKeepsNoTwins(s.db.events, snap.agent, snap.root, a.threshold,
                         Growth(Latest(s.db.snapshots, snap.agent, snap.root), snap, a.threshold));
    } else if a.Deletion? {
      RemovingKeepsNoTwins(s.db.events.rows, {}, a.id);
    } else if a.Cleanup? {
      RemovingKeepsNoTwins(s.db.events.rows, a.events, "");
    } else {
      OtherStepsKeepHistory(s, a, shared);
    }
  }

  /** In every run, no two events have the same device, root, path and end. */
  lemma {:induction false} NoEventTwice(actions: seq<Action>, shared: string)
    ensures NoTwins(After(actions, shared).db.events.rows)
  {
    if |actions| > 0 {
      NoEventTwice(actions[..|actions| - 1], shared);
      StepKeepsNoTwins(After(actions[..|actions| - 1], shared), actions[|actions| - 1], shared);
    }
  }

  // ---- The theorems ----

  /**
    In every run, with deletions and with cleanups that keep pace, the events of a device and root have proper intervals
    that end at stored snapshots, and any two intervals are the same or do not overlap.
   */
  lemma IntervalsAreDisjoint(actions: seq<Action>, shared: string, agent: string, root: string, e: Event, f: Event)
    requires InPace(actions, shared, agent, root)
    requires e in After(actions, shared).db.events.rows && Of(e, agent, root)
    requires f in After(actions, shared).db.events.rows && Of(f, agent, root)
    ensures e.from < e.to && SnapKey(agent, root, e.to) in After(actions, shared).db.snapshots
    ensures Apart(e.from, e.to, f.from, f.to)
  {
    RunIsSpaced(actions, shared, agent, root);
  }

  /** No event carries a time that is newer than the newest snapshot. */
  lemma NewTimeIsFree(db: Db, agent: string, root: string, at: int)
    requires Spaced(db, agent, root) && Latest(db.snapshots, agent, root).at < at
    ensures SnapKey(agent, root, at) !in db.snapshots && NoneAt(db.events.rows, agent, root, at)
  {
    if SnapKey(agent, root, at) in db.snapshots {
      NoneLater(db.snapshots, agent, root, at);
    }
    forall e | e in db.events.rows && Of(e, agent, root)
      ensures e.to != at
    {
      assert SnapKey(agent, root, e.to) in db.snapshots;
    }
  }

  /** Saving a snapshot at a free time newer than the newest adds one row per alert: none clashes. */
  lemma NewerIsLogged(db: Db, snap: Snapshot, threshold: int)
    requires Lands(db, snap) && Latest(db.snapshots, snap.agent, snap.root).at < snap.at && DistinctPaths(snap.nodes)
    requires NoneAt(db.events.rows, snap.agent, snap.root, snap.at)
    ensures var alerts := Growth(Latest(db.snapshots, snap.agent, snap.root), snap, threshold);
            var after := SaveDiskEvents(db, snap, threshold);
            && |after.events.rows| == |db.events.rows| + |alerts|
            && LogOf(after.events.rows, snap.agent, snap.root) ==
               LogOf(db.events.rows, snap.agent, snap.root) + Noted(alerts, threshold)
  {
    var previous := Latest(db.snapshots, snap.agent, snap.root);
    GrowthAlertsDistinct(previous, snap, threshold);
    AllAlertsBecomeRows(db.events, snap.agent, snap.root, threshold, Growth(previous, snap, threshold), snap.at);
  }

  /**
    In every such run, an upload for a device that is not deleted and newer than the newest snapshot becomes one row
    per alert: the uniqueness constraint drops none.
   */
  lemma EveryAlertIsLogged(actions: seq<Action>, shared: string, a: Action, agent: string, root: string)
    requires InPace(actions, shared, agent, root) && Arrives(After(actions, shared), a, agent, root)
    requires agent !in After(actions, shared).db.deleted
    requires Latest(After(actions, shared).db.snapshots, agent, root).at < a.request.snap.at
    ensures var db, after := After(actions, shared).db, Step(After(actions, shared), a, shared).db;
            var alerts := Growth(Latest(db.snapshots, agent, root), a.request.snap, a.threshold);
            && |after.events.rows| == |db.events.rows| + |alerts|
            && LogOf(after.events.rows, agent, root) == LogOf(db.events.rows, agent, root) + Noted(alerts, a.threshold)
  {
    RunIsSpaced(actions, shared, agent, root);
    InflightIsValid(actions, shared);
    NewTimeIsFree(After(actions, shared).db, agent, root, a.request.snap.at);
    NewerIsLogged(After(actions, shared).db, a.request.snap, a.threshold);
  }
}
