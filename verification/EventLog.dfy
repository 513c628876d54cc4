/** The growth-event log under any order of uploads (internal/hub/events.go, internal/hub/disk.go). */
module EventLog {
  import opened Ordering
  import opened Snapshots
  import opened DiskCompare
  import opened HubDb
  import opened SqliteStore
  import opened HubRuns

  /** An upload that reached the tables, with the threshold in force. */
  datatype Arrival = Arrival(snap: Snapshot, threshold: int)

  /** What an event says, without its row id and acknowledgement. */
  datatype Entry = Entry(path: string, delta: int, threshold: int, from: int, to: int)

  // ---- The specification: growth between consecutive strict prefix maxima ----

  /** The uploads that are newer than everything that came before them. */
  ghost function Maxima(us: seq<Arrival>): seq<Arrival> {
    if |us| == 0 then []
    else
      var last := us[|us| - 1];
      Maxima(us[..|us| - 1]) + if forall u | u in us[..|us| - 1] :: u.snap.at < last.snap.at then [last] else []
  }

  ghost function Noted(alerts: seq<Alert>, threshold: int): seq<Entry> {
    seq(|alerts|, i requires 0 <= i < |alerts| => NotedAlert(alerts[i], threshold))
  }

  /** The growth alerts of consecutive members, one after the other. */
  ghost function GrowthAlong(ms: seq<Arrival>): seq<Entry> {
    if |ms| < 2 then []
    else
      var a, b := ms[|ms| - 2], ms[|ms| - 1];
      GrowthAlong(ms[..|ms| - 1]) + Noted(Growth(a.snap, b.snap, b.threshold), b.threshold)
  }

  // ---- The tables, seen for one device and root ----

  /** The log of a device and root. */
  ghost function LogOf(rows: seq<Event>, agent: string, root: string): seq<Entry> {
    if |rows| == 0 then []
    else
      var e := rows[|rows| - 1];
      LogOf(rows[..|rows| - 1], agent, root) +
      if e.agent == agent && e.root == root then [Entry(e.path, e.delta, e.threshold, e.from, e.to)] else []
  }

  /** The uploads for a device and root that reached the tables, in order of arrival. */
  ghost function Arrivals(actions: seq<Action>, shared: string, agent: string, root: string): seq<Arrival> {
    if |actions| == 0 then []
    else
      var last := |actions| - 1;
      Arrivals(actions[..last], shared, agent, root) +
      ArrivalOf(After(actions[..last], shared), actions[last], agent, root)
  }

  /** An authorised upload for the device and root is being written. */
  ghost predicate Arrives(s: Sys, a: Action, agent: string, root: string) {
    && a.Write? && a.request in s.inflight
    && a.request.Upload? && a.request.snap.agent == agent && a.request.snap.root == root
  }

  /** A cleanup takes no snapshot and no event of the device and root. */
  ghost predicate Spares(db: Db, snapshots: set<SnapKey>, events: set<Event>, agent: string, root: string) {
    && (forall k | k in Rows(db.snapshots, agent, root) :: k !in snapshots)
    && forall e | e in db.events.rows && e.agent == agent && e.root == root :: e !in events
  }

  /** The step takes history of the device and root, or deletes the device. */
  ghost predicate Disturbs(s: Sys, a: Action, agent: string, root: string) {
    || (a == Deletion(agent) && CanDelete(s.db, agent))
    || (a.Cleanup? && !Spares(s.db, a.snapshots, a.events, agent, root))
  }

  ghost predicate DisturbedAt(actions: seq<Action>, shared: string, i: nat, agent: string, root: string) {
    i < |actions| && Disturbs(After(actions[..i], shared), actions[i], agent, root)
  }

  /** Cleanups have taken nothing of the device and root, and it was not deleted. */
  ghost predicate Undisturbed(actions: seq<Action>, shared: string, agent: string, root: string) {
    forall i | 0 <= i < |actions| :: !DisturbedAt(actions, shared, i, agent, root)
  }

  lemma UndisturbedInit(actions: seq<Action>, shared: string, agent: string, root: string)
    requires Undisturbed(actions, shared, agent, root) && |actions| > 0
    ensures var n := |actions| - 1;
            && Undisturbed(actions[..n], shared, agent, root)
            && !Disturbs(After(actions[..n], shared), actions[n], agent, root)
  {
    var n := |actions| - 1;
    forall i | 0 <= i < n
      ensures !DisturbedAt(actions[..n], shared, i, agent, root)
    {
      assert actions[..n][..i] == actions[..i];
      assert !DisturbedAt(actions, shared, i, agent, root);
    }
    assert !DisturbedAt(actions, shared, n, agent, root);
  }

  // ---- Adding events ----

  /** Rows that another row may not repeat: none of this device, root and time. */
  ghost predicate NoneAt(rows: seq<Event>, agent: string, root: string, to: int) {
    forall e | e in rows :: !(e.agent == agent && e.root == root && e.to == to)
  }

  const alertPath: Alert -> string := (a: Alert) => a.path

  /** After adding alerts, new rows carry the time and one of the paths of the alerts. */
  lemma {:induction false} NewRowsAreAlerts(t: EventTable, agent: string, root: string, threshold: int,
                                            alerts: seq<Alert>, to: int, e: Event)
    requires forall a | a in alerts :: a.to == to
    requires e in AddEvents(t, agent, root, threshold, alerts).rows && e !in t.rows
    ensures e.to == to && exists i :: 0 <= i < |alerts| && alerts[i].path == e.path
  {
    var n := |alerts| - 1;
    if e in AddEvents(t, agent, root, threshold, alerts[..n]).rows {
      NewRowsAreAlerts(t, agent, root, threshold, alerts[..n], to, e);
      var i :| 0 <= i < n && alerts[..n][i].path == e.path;
      assert alerts[i].path == e.path;
    } else {
      assert alerts[n] in alerts;
    }
  }

  /** An alert whose path did not occur before it does not clash with the rows of its predecessors. */
  lemma NextAlertIsFree(t: EventTable, agent: string, root: string, threshold: int, alerts: seq<Alert>, to: int)
    requires |alerts| > 0
    requires NoneAt(t.rows, agent, root, to)
    requires DistinctBy(alertPath, alerts) && forall a | a in alerts :: a.to == to
    ensures var n := |alerts| - 1;
            !Clashes(AddEvents(t, agent, root, threshold, alerts[..n]).rows, agent, root, alerts[n].path, to)
  {
    var n := |alerts| - 1;
    forall e | e in AddEvents(t, agent, root, threshold, alerts[..n]).rows && e !in t.rows
      ensures e.path != alerts[n].path
    {
      NewRowsAreAlerts(t, agent, root, threshold, alerts[..n], to, e);
      var i :| 0 <= i < n && alerts[..n][i].path == e.path;
      assert alertPath(alerts[i]) != alertPath(alerts[n]);
    }
  }

  /** Alerts with distinct paths and a new time never meet the uniqueness constraint: each of them becomes a row. */
  lemma {:induction false} AllAlertsBecomeRows(t: EventTable, agent: string, root: string, threshold: int,
                                               alerts: seq<Alert>, to: int)
    requires NoneAt(t.rows, agent, root, to)
    requires DistinctBy(alertPath, alerts) && forall a | a in alerts :: a.to == to
    ensures var after := AddEvents(t, agent, root, threshold, alerts);
            && |after.rows| == |t.rows| + |alerts| && after.lastId == t.lastId + |alerts|
            && LogOf(after.rows, agent, root) == LogOf(t.rows, agent, root) + Noted(alerts, threshold)
  {
    if |alerts| > 0 {
      var n := |alerts| - 1;
      FirstAlerts(alerts, to);
      AllAlertsBecomeRows(t, agent, root, threshold, alerts[..n], to);
      NextAlertIsFree(t, agent, root, threshold, alerts, to);
      OneAlertBecomesRow(AddEvents(t, agent, root, threshold, alerts[..n]), agent, root, threshold, alerts[n]);
      NotedNext(alerts, threshold);
    } else {
      assert LogOf(t.rows, agent, root) + Noted(alerts, threshold) == LogOf(t.rows, agent, root);
    }
  }

  lemma FirstAlerts(alerts: seq<Alert>, to: int)
    requires |alerts| > 0 && DistinctBy(alertPath, alerts) && forall a | a in alerts :: a.to == to
    ensures var n := |alerts| - 1;
            alerts[n].to == to && DistinctBy(alertPath, alerts[..n]) && forall a | a in alerts[..n] :: a.to == to
  {
    assert alerts[|alerts| - 1] in alerts;
  }

  lemma OneAlertBecomesRow(t: EventTable, agent: string, root: string, threshold: int, a: Alert)
    requires !Clashes(t.rows, agent, root, a.path, a.to)
    ensures var after := AddEvent(t, agent, root, threshold, a);
            && |after.rows| == |t.rows| + 1 && after.lastId == t.lastId + 1
            && LogOf(after.rows, agent, root) == LogOf(t.rows, agent, root) + [NotedAlert(a, threshold)]
  {
    var after := AddEvent(t, agent, root, threshold, a);
    assert after.rows[..|t.rows|] == t.rows;
  }

  ghost function NotedAlert(a: Alert, threshold: int): Entry {
    Entry(a.path, a.delta, threshold, a.from, a.to)
  }

  lemma NotedNext(alerts: seq<Alert>, threshold: int)
    requires |alerts| > 0
    ensures var n := |alerts| - 1;
            Noted(alerts, threshold) == Noted(alerts[..n], threshold) + [NotedAlert(alerts[n], threshold)]
  {
  }

  /** Events of one device and root do not show in the log of another. */
  lemma {:induction false} OtherLogsStay(t: EventTable, agent: string, root: string, threshold: int,
                                         alerts: seq<Alert>, agent': string, root': string)
    requires agent' != agent || root' != root
    ensures LogOf(AddEvents(t, agent, root, threshold, alerts).rows, agent', root') == LogOf(t.rows, agent', root')
    ensures forall e | e in AddEvents(t, agent, root, threshold, alerts).rows ::
              e in t.rows || !(e.agent == agent' && e.root == root')
  {
    if |alerts| > 0 {
      OtherLogsStay(t, agent, root, threshold, alerts[..|alerts| - 1], agent', root');
      var mid := AddEvents(t, agent, root, threshold, alerts[..|alerts| - 1]);
      var after := AddEvents(t, agent, root, threshold, alerts);
      assert after == mid || after.rows[..|mid.rows|] == mid.rows;
    }
  }

  /** Alerts of one comparison have distinct paths and carry its two times. */
  lemma {:induction false} MarkedAlerts(changes: seq<Change>, threshold: int, from: int, to: int)
    requires DistinctBy(changePath, changes)
    ensures DistinctBy(alertPath, Marked(changes, threshold, from, to))
    ensures forall a | a in Marked(changes, threshold, from, to) ::
              a.from == from && a.to == to && exists c :: c in changes && c.path == a.path
  {
    if |changes| > 0 {
      var n := |changes| - 1;
      var init, c := changes[..n], changes[n];
      MarkedAlerts(init, threshold, from, to);
      var before, after := Marked(init, threshold, from, to), Marked(changes, threshold, from, to);
      forall a | a in before
        ensures a.path != c.path && exists c' :: c' in changes && c'.path == a.path
      {
        var d :| d in init && d.path == a.path;
        var i :| 0 <= i < n && changes[i] == d;
        assert changePath(changes[i]) != changePath(changes[n]);
        assert d in changes;
      }
      assert c in changes;
      forall i, j | 0 <= i < j < |after|
        ensures alertPath(after[i]) != alertPath(after[j])
      {
        if j < |before| {
          assert alertPath(before[i]) != alertPath(before[j]);
        } else {
          assert before[i] in before;
        }
      }
    }
  }

  lemma GrowthAlertsDistinct(previous: Snapshot, current: Snapshot, threshold: int)
    requires DistinctPaths(current.nodes)
    ensures DistinctBy(alertPath, Growth(previous, current, threshold))
    ensures forall a | a in Growth(previous, current, threshold) :: a.from == previous.at && a.to == current.at
  {
    ComparisonDistinct(previous, current, Comparison(previous, current));
    MarkedAlerts(Comparison(previous, current), threshold, previous.at, current.at);
  }

  // ---- The invariant that carries the log through a run ----

  /** The snapshots stored for a device and root are those of the given arrivals. */
  ghost predicate Stored(snapshots: map<SnapKey, Snapshot>, agent: string, root: string, us: seq<Arrival>) {
    && (forall k | k in Rows(snapshots, agent, root) ::
          KeyOf(snapshots[k]) == k && exists u :: u in us && u.snap.at == k.at)
    && (forall u | u in us :: SnapKey(agent, root, u.snap.at) in snapshots)
  }

  /** Each prefix maximum is stored as it arrived: a retry of its time does not replace it. */
  ghost predicate MaximaStored(snapshots: map<SnapKey, Snapshot>, agent: string, root: string, us: seq<Arrival>) {
    forall m | m in Maxima(us) ::
      SnapKey(agent, root, m.snap.at) in snapshots && snapshots[SnapKey(agent, root, m.snap.at)] == m.snap
  }

  /** The newest of the given arrivals. */
  ghost function NewestArrival(us: seq<Arrival>): Snapshot {
    if |Maxima(us)| == 0 then ZERO_SNAPSHOT else Maxima(us)[|Maxima(us)| - 1].snap
  }

  /** No event of the device and root is newer than every arrival. */
  ghost predicate NotAhead(rows: seq<Event>, agent: string, root: string, us: seq<Arrival>) {
    forall e | e in rows && e.agent == agent && e.root == root :: exists u :: u in us && e.to <= u.snap.at
  }

  /** What the tables hold for a device and root after the given arrivals. */
  ghost predicate Holds(db: Db, agent: string, root: string, us: seq<Arrival>) {
    && agent !in db.deleted
    && Stored(db.snapshots, agent, root, us)
    && MaximaStored(db.snapshots, agent, root, us)
    && Latest(db.snapshots, agent, root) == NewestArrival(us)
    && NotAhead(db.events.rows, agent, root, us)
    && LogOf(db.events.rows, agent, root) == GrowthAlong(Maxima(us))
  }

  /** Every upload is at most as new as the last prefix maximum, which is one of them. */
  lemma {:induction false} LastMaximum(us: seq<Arrival>)
    requires |us| > 0
    ensures |Maxima(us)| > 0
    ensures Maxima(us)[|Maxima(us)| - 1] in us
    ensures forall u | u in us :: u.snap.at <= Maxima(us)[|Maxima(us)| - 1].snap.at
  {
    var n := |us| - 1;
    assert us == us[..n] + [us[n]];
    if n > 0 {
      LastMaximum(us[..n]);
    }
  }

  /** Storing a snapshot changes the newest one exactly when the new one is newer. */
  lemma LatestAfterInsert(snapshots: map<SnapKey, Snapshot>, snap: Snapshot)
    requires KeyOf(snap) !in snapshots
    ensures var rows := Rows(snapshots, snap.agent, snap.root);
            Latest(snapshots[KeyOf(snap) := snap], snap.agent, snap.root) ==
            if rows == {} || snap.at > Newest(rows).at then snap else Latest(snapshots, snap.agent, snap.root)
  {
    var rows := Rows(snapshots, snap.agent, snap.root);
    var more := snapshots[KeyOf(snap) := snap];
    assert Rows(more, snap.agent, snap.root) == rows + {KeyOf(snap)};
    if rows == {} || snap.at > Newest(rows).at {
      NewestIs(rows + {KeyOf(snap)}, snap.agent, snap.root, KeyOf(snap));
    } else {
      NewestIs(rows + {KeyOf(snap)}, snap.agent, snap.root, Newest(rows));
    }
  }

  /** Two tables that agree on a device and root have the same newest snapshot of it. */
  lemma SameLatest(a: map<SnapKey, Snapshot>, b: map<SnapKey, Snapshot>, agent: string, root: string)
    requires forall k: SnapKey | k.agent == agent && k.root == root ::
               (k in a <==> k in b) && (k in a ==> a[k] == b[k])
    ensures Rows(a, agent, root) == Rows(b, agent, root)
    ensures Latest(a, agent, root) == Latest(b, agent, root)
  {
    assert Rows(a, agent, root) == Rows(b, agent, root);
  }

  lemma {:induction false} LogWithoutOther(rows: seq<Event>, agent: string, root: string, id: string)
    requires id != agent
    ensures LogOf(EventsWithout(rows, id), agent, root) == LogOf(rows, agent, root)
  {
    if |rows| > 0 {
      var n := |rows| - 1;
      LogWithoutOther(rows[..n], agent, root, id);
      var before := EventsWithout(rows[..n], id);
      assert (before + [rows[n]])[..|before|] == before;
      assert before + [] == before;
    }
  }

  /** A retry of a stored time changes nothing; an upload that is not newer than the newest adds no events. */
  lemma LateUploadsAddNothing(db: Db, snap: Snapshot, threshold: int)
    ensures KeyOf(snap) in db.snapshots ==> SaveDiskEvents(db, snap, threshold) == db
    ensures snap.at <= Latest(db.snapshots, snap.agent, snap.root).at ==>
              SaveDiskEvents(db, snap, threshold).events == db.events
  {
  }

  /** The newest stored row carries the time of the newest arrival. */
  lemma NewestRow(snapshots: map<SnapKey, Snapshot>, agent: string, root: string, us: seq<Arrival>)
    requires Stored(snapshots, agent, root, us) && Latest(snapshots, agent, root) == NewestArrival(us)
    ensures Rows(snapshots, agent, root) == {} <==> |us| == 0
    ensures |us| > 0 ==> Newest(Rows(snapshots, agent, root)).at == NewestArrival(us).at
    ensures forall u | u in us :: u.snap.at <= NewestArrival(us).at
  {
    var rows := Rows(snapshots, agent, root);
    if |us| > 0 {
      LastMaximum(us);
      assert us[0] in us;
      assert SnapKey(agent, root, us[0].snap.at) in rows;
      assert KeyOf(snapshots[Newest(rows)]) == Newest(rows);
    }
  }

  lemma StoredGrows(snapshots: map<SnapKey, Snapshot>, snap: Snapshot, threshold: int, us: seq<Arrival>)
    requires Stored(snapshots, snap.agent, snap.root, us)
    ensures Stored(if KeyOf(snap) in snapshots then snapshots else snapshots[KeyOf(snap) := snap],
                   snap.agent, snap.root, us + [Arrival(snap, threshold)])
  {
    var u := Arrival(snap, threshold);
    var more := us + [u];
    var after := if KeyOf(snap) in snapshots then snapshots else snapshots[KeyOf(snap) := snap];
    assert u in more;
    forall k | k in Rows(after, snap.agent, snap.root)
      ensures KeyOf(after[k]) == k && exists v :: v in more && v.snap.at == k.at
    {
      if k in Rows(snapshots, snap.agent, snap.root) {
        var v :| v in us && v.snap.at == k.at;
        assert v in more;
      }
    }
  }

  /** One more arrival is a new maximum exactly when it is newer than all before it. */
  lemma MaximaNext(us: seq<Arrival>, u: Arrival)
    ensures (forall v | v in us :: v.snap.at < u.snap.at) ==> Maxima(us + [u]) == Maxima(us) + [u]
    ensures (exists v :: v in us && v.snap.at >= u.snap.at) ==> Maxima(us + [u]) == Maxima(us)
  {
    assert (us + [u])[..|us|] == us;
  }

  lemma MaximaStoredGrows(snapshots: map<SnapKey, Snapshot>, snap: Snapshot, threshold: int, us: seq<Arrival>)
    requires Stored(snapshots, snap.agent, snap.root, us) && MaximaStored(snapshots, snap.agent, snap.root, us)
    ensures MaximaStored(if KeyOf(snap) in snapshots then snapshots else snapshots[KeyOf(snap) := snap],
                         snap.agent, snap.root, us + [Arrival(snap, threshold)])
  {
    MaximaNext(us, Arrival(snap, threshold));
    if KeyOf(snap) in snapshots {
      assert KeyOf(snap) in Rows(snapshots, snap.agent, snap.root);
      var v :| v in us && v.snap.at == snap.at;
    }
  }

  lemma LatestGrows(snapshots: map<SnapKey, Snapshot>, snap: Snapshot, threshold: int, us: seq<Arrival>)
    requires Stored(snapshots, snap.agent, snap.root, us)
    requires Latest(snapshots, snap.agent, snap.root) == NewestArrival(us)
    ensures Latest(if KeyOf(snap) in snapshots then snapshots else snapshots[KeyOf(snap) := snap],
                   snap.agent, snap.root)
            == NewestArrival(us + [Arrival(snap, threshold)])
  {
    NewestArrivalNext(us, Arrival(snap, threshold));
    NewestRow(snapshots, snap.agent, snap.root, us);
    if KeyOf(snap) in snapshots {
      StoredIsNotNewer(snapshots, snap, us);
    } else {
      LatestAfterInsert(snapshots, snap);
    }
  }

  lemma NewestArrivalNext(us: seq<Arrival>, u: Arrival)
    ensures NewestArrival(us + [u]) ==
            if |us| == 0 || u.snap.at > NewestArrival(us).at then u.snap else NewestArrival(us)
  {
    if v :| v in us && v.snap.at >= u.snap.at {
      NewestStays(us, u, v);
    } else {
      NewestMoves(us, u);
    }
  }

  lemma NewestStays(us: seq<Arrival>, u: Arrival, v: Arrival)
    requires v in us && v.snap.at >= u.snap.at
    ensures |us| > 0 && u.snap.at <= NewestArrival(us).at && NewestArrival(us + [u]) == NewestArrival(us)
  {
    LastMaximum(us);
    MaximaNext(us, u);
  }

  lemma NewestMoves(us: seq<Arrival>, u: Arrival)
    requires forall v | v in us :: v.snap.at < u.snap.at
    ensures NewestArrival(us + [u]) == u.snap && (|us| > 0 ==> u.snap.at > NewestArrival(us).at)
  {
    MaximaNext(us, u);
    if |us| > 0 {
      LastMaximum(us);
    }
  }

  lemma StoredIsNotNewer(snapshots: map<SnapKey, Snapshot>, snap: Snapshot, us: seq<Arrival>)
    requires Stored(snapshots, snap.agent, snap.root, us) && KeyOf(snap) in snapshots
    ensures |us| > 0 && snap.at <= NewestArrival(us).at
  {
    assert KeyOf(snap) in Rows(snapshots, snap.agent, snap.root);
    var v :| v in us && v.snap.at == snap.at;
    LastMaximum(us);
  }

  /** Later arrivals keep the bound on event times. */
  lemma NotAheadStays(rows: seq<Event>, agent: string, root: string, us: seq<Arrival>, u: Arrival)
    requires NotAhead(rows, agent, root, us)
    ensures NotAhead(rows, agent, root, us + [u])
  {
    forall e | e in rows && e.agent == agent && e.root == root
      ensures exists v :: v in us + [u] && e.to <= v.snap.at
    {
      var v :| v in us && e.to <= v.snap.at;
      assert v in us + [u];
    }
  }

  /** A new maximum appends its growth to the log, every alert of it. */
  lemma NewMaximumGrows(t: EventTable, snap: Snapshot, threshold: int, us: seq<Arrival>)
    requires |us| > 0 && NotAhead(t.rows, snap.agent, snap.root, us)
    requires forall u | u in us :: u.snap.at < snap.at
    requires DistinctPaths(snap.nodes)
    requires LogOf(t.rows, snap.agent, snap.root) == GrowthAlong(Maxima(us))
    ensures var rows := AddEvents(t, snap.agent, snap.root, threshold, Growth(NewestArrival(us), snap, threshold)).rows;
            var more := us + [Arrival(snap, threshold)];
            && NotAhead(rows, snap.agent, snap.root, more)
            && LogOf(rows, snap.agent, snap.root) == GrowthAlong(Maxima(more))
  {
    var u := Arrival(snap, threshold);
    var alerts := Growth(NewestArrival(us), snap, threshold);
    var rows := AddEvents(t, snap.agent, snap.root, threshold, alerts).rows;
    LastMaximum(us);
    MaximaNext(us, u);
    GrowthAlertsDistinct(NewestArrival(us), snap, threshold);
    assert NoneAt(t.rows, snap.agent, snap.root, snap.at);
    AllAlertsBecomeRows(t, snap.agent, snap.root, threshold, alerts, snap.at);
    GrowthAlongNext(Maxima(us), u);
    NotAheadStays(t.rows, snap.agent, snap.root, us, u);
    forall e | e in rows && e.agent == snap.agent && e.root == snap.root
      ensures exists v :: v in us + [u] && e.to <= v.snap.at
    {
      if e !in t.rows {
        NewRowsAreAlerts(t, snap.agent, snap.root, threshold, alerts, snap.at, e);
        assert u in us + [u];
      }
    }
  }

  lemma GrowthAlongNext(ms: seq<Arrival>, u: Arrival)
    requires |ms| > 0
    ensures GrowthAlong(ms + [u]) ==
            GrowthAlong(ms) + Noted(Growth(ms[|ms| - 1].snap, u.snap, u.threshold), u.threshold)
  {
    assert (ms + [u])[..|ms|] == ms;
  }

  /** What a landing upload does to the event table, given the newest arrival before it. */
  lemma EventsAfter(db: Db, snap: Snapshot, threshold: int, us: seq<Arrival>)
    requires Holds(db, snap.agent, snap.root, us) && KeyOf(snap) !in db.snapshots
    ensures SaveDiskEvents(db, snap, threshold).events ==
            if snap.at > NewestArrival(us).at
            then AddEvents(db.events, snap.agent, snap.root, threshold, Growth(NewestArrival(us), snap, threshold))
            else db.events
  {
  }

  /** The events a landing upload adds are exactly the growth from the newest arrival, if it is a new maximum. */
  lemma LogGrows(t: EventTable, after: EventTable, snap: Snapshot, threshold: int, us: seq<Arrival>)
    requires NotAhead(t.rows, snap.agent, snap.root, us) && DistinctPaths(snap.nodes)
    requires LogOf(t.rows, snap.agent, snap.root) == GrowthAlong(Maxima(us))
    requires after == if snap.at > NewestArrival(us).at
                      then AddEvents(t, snap.agent, snap.root, threshold, Growth(NewestArrival(us), snap, threshold))
                      else t
    ensures NotAhead(after.rows, snap.agent, snap.root, us + [Arrival(snap, threshold)])
    ensures LogOf(after.rows, snap.agent, snap.root) == GrowthAlong(Maxima(us + [Arrival(snap, threshold)]))
  {
    if |us| == 0 {
      FirstUpload(t, snap, threshold);
    } else {
      LastMaximum(us);
      if snap.at > NewestArrival(us).at {
        NewMaximumGrows(t, snap, threshold, us);
      } else {
        MaximaNext(us, Arrival(snap, threshold));
        NotAheadStays(t.rows, snap.agent, snap.root, us, Arrival(snap, threshold));
      }
    }
  }

  /** The first upload has nothing to be compared with. */
  lemma FirstUpload(t: EventTable, snap: Snapshot, threshold: int)
    requires NotAhead(t.rows, snap.agent, snap.root, []) && LogOf(t.rows, snap.agent, snap.root) == []
    ensures AddEvents(t, snap.agent, snap.root, threshold, Growth(ZERO_SNAPSHOT, snap, threshold)) == t
    ensures NotAhead(t.rows, snap.agent, snap.root, [] + [Arrival(snap, threshold)])
    ensures LogOf(t.rows, snap.agent, snap.root) == GrowthAlong(Maxima([] + [Arrival(snap, threshold)]))
  {
    MaximaNext([], Arrival(snap, threshold));
    NotAheadStays(t.rows, snap.agent, snap.root, [], Arrival(snap, threshold));
  }

  lemma RetryHolds(db: Db, snap: Snapshot, threshold: int, us: seq<Arrival>)
    requires Holds(db, snap.agent, snap.root, us) && KeyOf(snap) in db.snapshots
    ensures NotAhead(db.events.rows, snap.agent, snap.root, us + [Arrival(snap, threshold)])
    ensures Maxima(us + [Arrival(snap, threshold)]) == Maxima(us)
  {
    assert KeyOf(snap) in Rows(db.snapshots, snap.agent, snap.root);
    var v :| v in us && v.snap.at == snap.at;
    MaximaNext(us, Arrival(snap, threshold));
    NotAheadStays(db.events.rows, snap.agent, snap.root, us, Arrival(snap, threshold));
  }

  /** An upload for the device and root extends what the tables hold by one arrival. */
  lemma UploadExtends(db: Db, snap: Snapshot, threshold: int, us: seq<Arrival>)
    requires Holds(db, snap.agent, snap.root, us) && DistinctPaths(snap.nodes)
    ensures Holds(SaveDiskEvents(db, snap, threshold), snap.agent, snap.root, us + [Arrival(snap, threshold)])
  {
    StoredGrows(db.snapshots, snap, threshold, us);
    MaximaStoredGrows(db.snapshots, snap, threshold, us);
    LatestGrows(db.snapshots, snap, threshold, us);
    if KeyOf(snap) in db.snapshots {
      RetryHolds(db, snap, threshold, us);
    } else {
      EventsAfter(db, snap, threshold, us);
      LogGrows(db.events, SaveDiskEvents(db, snap, threshold).events, snap, threshold, us);
    }
  }

  /** A write for another device or root leaves what the tables hold. */
  lemma OtherUploadKeeps(db: Db, snap: Snapshot, threshold: int, agent: string, root: string, us: seq<Arrival>)
    requires Holds(db, agent, root, us) && (snap.agent != agent || snap.root != root)
    ensures Holds(SaveDiskEvents(db, snap, threshold), agent, root, us)
  {
    var after := SaveDiskEvents(db, snap, threshold);
    OtherRowsSame(db, snap, threshold, agent, root);
    OtherRowsKeep(db.snapshots, after.snapshots, agent, root, us);
    OtherEventsKeep(db, snap, threshold, agent, root, us);
  }

  lemma OtherRowsSame(db: Db, snap: Snapshot, threshold: int, agent: string, root: string)
    requires snap.agent != agent || snap.root != root
    ensures var after := SaveDiskEvents(db, snap, threshold);
            && after.deleted == db.deleted
            && forall k: SnapKey | k.agent == agent && k.root == root ::
                 (k in db.snapshots <==> k in after.snapshots) &&
                 (k in db.snapshots ==> db.snapshots[k] == after.snapshots[k])
  {
  }

  /** What is stored for a device and root does not depend on other rows. */
  lemma OtherRowsKeep(a: map<SnapKey, Snapshot>, b: map<SnapKey, Snapshot>, agent: string, root: string,
                      us: seq<Arrival>)
    requires Stored(a, agent, root, us) && MaximaStored(a, agent, root, us)
    requires forall k: SnapKey | k.agent == agent && k.root == root ::
               (k in a <==> k in b) && (k in a ==> a[k] == b[k])
    ensures Stored(b, agent, root, us) && MaximaStored(b, agent, root, us)
    ensures Latest(b, agent, root) == Latest(a, agent, root)
  {
    SameLatest(a, b, agent, root);
  }

  lemma OtherEventsKeep(db: Db, snap: Snapshot, threshold: int, agent: string, root: string, us: seq<Arrival>)
    requires NotAhead(db.events.rows, agent, root, us) && (snap.agent != agent || snap.root != root)
    ensures NotAhead(SaveDiskEvents(db, snap, threshold).events.rows, agent, root, us)
    ensures LogOf(SaveDiskEvents(db, snap, threshold).events.rows, agent, root) == LogOf(db.events.rows, agent, root)
  {
    var previous := Latest(db.snapshots, snap.agent, snap.root);
    OtherLogsStay(db.events, snap.agent, snap.root, threshold, Growth(previous, snap, threshold), agent, root);
  }

  lemma OtherDeleteKeeps(db: Db, id: string, agent: string, root: string, us: seq<Arrival>)
    requires Holds(db, agent, root, us) && (id != agent || !CanDelete(db, id))
    ensures Holds(Delete(db, id), agent, root, us)
  {
    if !CanDelete(db, id) {
      return;
    }
    var after := Delete(db, id);
    SameLatest(db.snapshots, after.snapshots, agent, root);
    LogWithoutOther(db.events.rows, agent, root, id);
    forall e | e in after.events.rows
      ensures e in db.events.rows
    {
      EventsWithoutMeans(db.events.rows, id, e);
    }
  }

  lemma {:induction false} LogExceptOther(rows: seq<Event>, gone: set<Event>, agent: string, root: string)
    requires forall e | e in rows && e.agent == agent && e.root == root :: e !in gone
    ensures LogOf(EventsExcept(rows, gone), agent, root) == LogOf(rows, agent, root)
  {
    if |rows| > 0 {
      var n := |rows| - 1;
      assert rows[n] in rows && forall e | e in rows[..n] :: e in rows;
      LogExceptOther(rows[..n], gone, agent, root);
      var before := EventsExcept(rows[..n], gone);
      LogWithLast(before, rows[n], agent, root);
      assert before + [] == before && LogOf(before, agent, root) + [] == LogOf(before, agent, root);
    }
  }

  lemma LogWithLast(rows: seq<Event>, e: Event, agent: string, root: string)
    ensures LogOf(rows + [e], agent, root) ==
            LogOf(rows, agent, root) +
            if e.agent == agent && e.root == root then [Entry(e.path, e.delta, e.threshold, e.from, e.to)] else []
  {
    assert (rows + [e])[..|rows|] == rows;
  }

  lemma OtherCleanupKeeps(db: Db, samples: set<SampleKey>, snapshots: set<SnapKey>, events: set<Event>,
                          agent: string, root: string, us: seq<Arrival>)
    requires Holds(db, agent, root, us) && Spares(db, snapshots, events, agent, root)
    ensures Holds(Remove(db, samples, snapshots, events), agent, root, us)
  {
    var after := Remove(db, samples, snapshots, events);
    SparedRowsSame(db.snapshots, snapshots, agent, root);
    OtherRowsKeep(db.snapshots, after.snapshots, agent, root, us);
    LogExceptOther(db.events.rows, events, agent, root);
    FewerNotAhead(db.events.rows, events, agent, root, us);
  }

  lemma SparedRowsSame(snapshots: map<SnapKey, Snapshot>, gone: set<SnapKey>, agent: string, root: string)
    requires forall k | k in Rows(snapshots, agent, root) :: k !in gone
    ensures forall k: SnapKey | k.agent == agent && k.root == root ::
              (k in snapshots <==> k in snapshots - gone) &&
              (k in snapshots ==> snapshots[k] == (snapshots - gone)[k])
  {
    forall k: SnapKey | k.agent == agent && k.root == root && k in snapshots
      ensures k !in gone
    {
      assert k in Rows(snapshots, agent, root);
    }
  }

  lemma FewerNotAhead(rows: seq<Event>, gone: set<Event>, agent: string, root: string, us: seq<Arrival>)
    requires NotAhead(rows, agent, root, us)
    ensures NotAhead(EventsExcept(rows, gone), agent, root, us)
  {
    forall e | e in EventsExcept(rows, gone)
      ensures e in rows
    {
      EventsExceptMeans(rows, gone, e);
    }
  }

  /** What the tables hold does not depend on credentials and metrics. */
  lemma HoldsSame(a: Db, b: Db, agent: string, root: string, us: seq<Arrival>)
    requires Holds(a, agent, root, us)
    requires b.snapshots == a.snapshots && b.events == a.events && b.deleted <= a.deleted
    ensures Holds(b, agent, root, us)
  {
  }

  /** The arrival that a step brings. */
  ghost function ArrivalOf(s: Sys, a: Action, agent: string, root: string): seq<Arrival> {
    if Arrives(s, a, agent, root) then [Arrival(a.request.snap, a.threshold)] else []
  }

  lemma WriteExtends(s: Sys, a: Action, shared: string, agent: string, root: string, us: seq<Arrival>)
    requires Holds(s.db, agent, root, us) && a.Write? && a.request in s.inflight && a.request.Upload?
    requires ValidNodes(a.request.snap.nodes)
    ensures Holds(SaveDiskEvents(s.db, a.request.snap, a.threshold), agent, root, us + ArrivalOf(s, a, agent, root))
  {
    if Arrives(s, a, agent, root) {
      UploadExtends(s.db, a.request.snap, a.threshold, us);
    } else {
      assert us + [] == us;
      OtherUploadKeeps(s.db, a.request.snap, a.threshold, agent, root, us);
    }
  }

  lemma StepExtends(s: Sys, a: Action, shared: string, agent: string, root: string, us: seq<Arrival>)
    requires Holds(s.db, agent, root, us) && !Disturbs(s, a, agent, root)
    requires ValidUploads(s)
    ensures Holds(Step(s, a, shared).db, agent, root, us + ArrivalOf(s, a, agent, root))
  {
    if a.Write? && a.request in s.inflight && a.request.Upload? {
      WriteExtends(s, a, shared, agent, root, us);
    } else {
      assert us + [] == us;
      if a.Deletion? {
        OtherDeleteKeeps(s.db, a.id, agent, root, us);
      } else if a.Cleanup? {
        OtherCleanupKeeps(s.db, a.samples, a.snapshots, a.events, agent, root, us);
      } else {
        OtherStepsKeepHistory(s, a, shared);
        HoldsSame(s.db, Step(s, a, shared).db, agent, root, us);
      }
    }
  }

  lemma {:induction false} RunHolds(actions: seq<Action>, shared: string, agent: string, root: string)
    requires Undisturbed(actions, shared, agent, root)
    ensures Holds(After(actions, shared).db, agent, root, Arrivals(actions, shared, agent, root))
  {
    if |actions| > 0 {
      var last := |actions| - 1;
      UndisturbedInit(actions, shared, agent, root);
      RunHolds(actions[..last], shared, agent, root);
      InflightIsValid(actions[..last], shared);
      StepExtends(After(actions[..last], shared), actions[last], shared, agent, root,
                  Arrivals(actions[..last], shared, agent, root));
    }
  }

  // ---- The theorems ----

  /**
    In every run in which nothing of a device and root is cleaned up or deleted, whatever order the uploads arrive in
    and however often they repeat, its log is the growth between consecutive strict prefix maxima of the upload times.
   */
  lemma LogIsGrowthAlongMaxima(actions: seq<Action>, shared: string, agent: string, root: string)
    requires Undisturbed(actions, shared, agent, root)
    ensures LogOf(After(actions, shared).db.events.rows, agent, root) ==
            GrowthAlong(Maxima(Arrivals(actions, shared, agent, root)))
  {
    RunHolds(actions, shared, agent, root);
  }

  ghost predicate UsablePaths(ms: seq<Arrival>) {
    forall m | m in ms :: DistinctPaths(m.snap.nodes)
  }

  ghost predicate Increasing(ms: seq<Arrival>) {
    forall i, j | 0 <= i < j < |ms| :: ms[i].snap.at < ms[j].snap.at
  }

  /** Prefix maxima are strictly increasing in time. */
  lemma {:induction false} MaximaIncrease(us: seq<Arrival>)
    ensures Increasing(Maxima(us))
    ensures forall m | m in Maxima(us) :: m in us
  {
    if |us| > 0 {
      MaximaIncrease(us[..|us| - 1]);
      assert us == us[..|us| - 1] + [us[|us| - 1]];
    }
  }

  /** The interval lies between the i-th arrival and the next. */
  ghost predicate Spans(ms: seq<Arrival>, i: nat, from: int, to: int) {
    i + 1 < |ms| && from == ms[i].snap.at && to == ms[i + 1].snap.at
  }

  /** Alerts keep their interval when they are noted. */
  lemma NotedSpan(alerts: seq<Alert>, threshold: int, from: int, to: int, e: Entry)
    requires (forall a | a in alerts :: a.from == from && a.to == to) && e in Noted(alerts, threshold)
    ensures e.from == from && e.to == to
  {
    var k :| 0 <= k < |alerts| && Noted(alerts, threshold)[k] == e;
    assert alerts[k] in alerts;
  }

  lemma UsablePart(ms: seq<Arrival>, n: nat)
    requires UsablePaths(ms) && n < |ms|
    ensures UsablePaths(ms[..n]) && DistinctPaths(ms[n].snap.nodes)
  {
    assert forall m | m in ms[..n] :: m in ms;
    assert ms[n] in ms;
  }

  /** Where an entry of the growth log comes from. */
  lemma {:induction false} GrowthSource(ms: seq<Arrival>, e: Entry) returns (i: nat)
    requires e in GrowthAlong(ms)
    requires UsablePaths(ms)
    ensures Spans(ms, i, e.from, e.to)
  {
    var n := |ms| - 1;
    UsablePart(ms, n);
    if e in GrowthAlong(ms[..n]) {
      i := GrowthSource(ms[..n], e);
    } else {
      i := n - 1;
      GrowthAlertsDistinct(ms[n - 1].snap, ms[n].snap, ms[n].threshold);
      NotedSpan(Growth(ms[n - 1].snap, ms[n].snap, ms[n].threshold), ms[n].threshold,
                ms[n - 1].snap.at, ms[n].snap.at, e);
    }
  }

  lemma {:induction false} ArrivalsAreValid(actions: seq<Action>, shared: string, agent: string, root: string)
    ensures UsablePaths(Arrivals(actions, shared, agent, root))
  {
    if |actions| > 0 {
      var last := |actions| - 1;
      ArrivalsAreValid(actions[..last], shared, agent, root);
      InflightIsValid(actions[..last], shared);
    }
  }

  lemma UsableMaxima(actions: seq<Action>, shared: string, agent: string, root: string)
    ensures UsablePaths(Maxima(Arrivals(actions, shared, agent, root)))
    ensures Increasing(Maxima(Arrivals(actions, shared, agent, root)))
  {
    ArrivalsAreValid(actions, shared, agent, root);
    MaximaIncrease(Arrivals(actions, shared, agent, root));
  }
}
