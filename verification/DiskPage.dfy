/** The alerts of the disk page against the growth log (internal/hub/disk.go, internal/hub/events.go). */
module DiskPage {
  import opened Snapshots
  import opened DiskCompare
  import opened HubDb
  import opened SqliteStore
  import opened HubRuns
  import opened EventLog
  import opened EventSpans

  /** The entries that end at a given time. */
  ghost function EndingAt(log: seq<Entry>, to: int): seq<Entry> {
    if |log| == 0 then []
    else EndingAt(log[..|log| - 1], to) + if log[|log| - 1].to == to then [log[|log| - 1]] else []
  }

  lemma {:induction false} EndingAtConcat(a: seq<Entry>, b: seq<Entry>, to: int)
    ensures EndingAt(a + b, to) == EndingAt(a, to) + EndingAt(b, to)
  {
    if |b| == 0 {
      assert a + b == a;
    } else {
      assert (a + b)[..|a + b| - 1] == a + b[..|b| - 1];
      EndingAtConcat(a, b[..|b| - 1], to);
    }
  }

  lemma {:induction false} EndingAtUniform(log: seq<Entry>, to: int)
    ensures (forall e | e in log :: e.to == to) ==> EndingAt(log, to) == log
    ensures (forall e | e in log :: e.to != to) ==> EndingAt(log, to) == []
  {
    if |log| > 0 {
      assert log == log[..|log| - 1] + [log[|log| - 1]];
      EndingAtUniform(log[..|log| - 1], to);
    }
  }

  /** Everything the growth log holds before the last arrival ends before it. */
  lemma EarlierGrowthEnds(ms: seq<Arrival>, to: int)
    requires UsablePaths(ms) && forall m | m in ms :: m.snap.at < to
    ensures EndingAt(GrowthAlong(ms), to) == []
  {
    forall e | e in GrowthAlong(ms)
      ensures e.to != to
    {
      var i := GrowthSource(ms, e);
      assert ms[i + 1] in ms;
    }
    EndingAtUniform(GrowthAlong(ms), to);
  }

  lemma GrowthEnds(a: Snapshot, b: Snapshot, threshold: int)
    requires DistinctPaths(b.nodes)
    ensures EndingAt(Noted(Growth(a, b, threshold), threshold), b.at) == Noted(Growth(a, b, threshold), threshold)
  {
    var log := Noted(Growth(a, b, threshold), threshold);
    GrowthAlertsDistinct(a, b, threshold);
    forall e | e in log
      ensures e.to == b.at
    {
      NotedSpan(Growth(a, b, threshold), threshold, a.at, b.at, e);
    }
    EndingAtUniform(log, b.at);
  }

  /** The entries that end at the last maximum are the growth since the one before it. */
  lemma LastGrowth(ms: seq<Arrival>)
    requires |ms| >= 2 && UsablePaths(ms) && Increasing(ms)
    ensures var a, b := ms[|ms| - 2], ms[|ms| - 1];
            EndingAt(GrowthAlong(ms), b.snap.at) == Noted(Growth(a.snap, b.snap, b.threshold), b.threshold)
  {
    var n := |ms| - 1;
    var a, b := ms[n - 1], ms[n];
    UsablePart(ms, n);
    assert forall m | m in ms[..n] :: m.snap.at < b.snap.at;
    EarlierGrowthEnds(ms[..n], b.snap.at);
    GrowthEnds(a.snap, b.snap, b.threshold);
    EndingAtConcat(GrowthAlong(ms[..n]), Noted(Growth(a.snap, b.snap, b.threshold), b.threshold), b.snap.at);
  }

  // ---- The snapshots the page compares, and those compared on arrival ----

  /** A row lies strictly between the two times. */
  ghost predicate RowBetween(snapshots: map<SnapKey, Snapshot>, agent: string, root: string, from: int, to: int) {
    exists k | k in Rows(snapshots, agent, root) :: from < k.at < to
  }

  ghost predicate IsStored(snapshots: map<SnapKey, Snapshot>, agent: string, root: string, s: Snapshot) {
    SnapKey(agent, root, s.at) in snapshots && snapshots[SnapKey(agent, root, s.at)] == s
  }

  /** The newest snapshot, and the latest one at the time it arrived, are stored. */
  ghost predicate Settled(snapshots: map<SnapKey, Snapshot>, agent: string, root: string, previous: Option<Snapshot>,
                          newest: Snapshot)
  {
    && IsStored(snapshots, agent, root, newest)
    && (forall k | k in Rows(snapshots, agent, root) :: KeyOf(snapshots[k]) == k && k.at <= newest.at)
    && (previous.Some? ==> previous.value.at < newest.at && IsStored(snapshots, agent, root, previous.value))
  }

  lemma SettledLatest(snapshots: map<SnapKey, Snapshot>, agent: string, root: string, previous: Option<Snapshot>,
                      newest: Snapshot)
    requires Settled(snapshots, agent, root, previous, newest)
    ensures Latest(snapshots, agent, root) == newest
  {
    NewestIs(Rows(snapshots, agent, root), agent, root, SnapKey(agent, root, newest.at));
  }

  lemma SecondIs(snapshots: map<SnapKey, Snapshot>, agent: string, root: string, newest: int, second: int)
    requires second < newest
    requires SnapKey(agent, root, newest) in snapshots && SnapKey(agent, root, second) in snapshots
    requires forall k | k in Rows(snapshots, agent, root) :: k.at <= second || k.at == newest
    ensures HasTwo(snapshots, agent, root)
    ensures Latest(snapshots, agent, root) == snapshots[SnapKey(agent, root, newest)]
    ensures SecondNewest(snapshots, agent, root) == snapshots[SnapKey(agent, root, second)]
  {
    var rows, first, next := Rows(snapshots, agent, root), SnapKey(agent, root, newest), SnapKey(agent, root, second);
    NewestIs(rows, agent, root, first);
    assert next in rows - {first};
    NewestIs(rows - {first}, agent, root, next);
  }

  lemma SettledSecond(snapshots: map<SnapKey, Snapshot>, agent: string, root: string, previous: Snapshot,
                      newest: Snapshot)
    requires Settled(snapshots, agent, root, Some(previous), newest)
    requires !RowBetween(snapshots, agent, root, previous.at, newest.at)
    ensures HasTwo(snapshots, agent, root) && SecondNewest(snapshots, agent, root) == previous
  {
    SecondIs(snapshots, agent, root, newest.at, previous.at);
  }

  /** A row in between makes the second newest later. */
  lemma SecondIsLater(snapshots: map<SnapKey, Snapshot>, agent: string, root: string, previous: Snapshot,
                      newest: Snapshot)
    requires Settled(snapshots, agent, root, Some(previous), newest) && HasTwo(snapshots, agent, root)
    requires RowBetween(snapshots, agent, root, previous.at, newest.at)
    ensures SecondNewest(snapshots, agent, root).at > previous.at
  {
    var rows := Rows(snapshots, agent, root);
    SettledLatest(snapshots, agent, root, Some(previous), newest);
    SecondIsStored(snapshots, agent, root);
    var k :| k in rows && previous.at < k.at < newest.at;
    assert k in rows - {Newest(rows)};
    assert KeyOf(SecondNewest(snapshots, agent, root)) == Newest(rows - {Newest(rows)});
  }

  /** Whether nothing came in between, said of the table. */
  ghost predicate NoRowBetween(snapshots: map<SnapKey, Snapshot>, agent: string, root: string,
                               previous: Option<Snapshot>, newest: Snapshot)
  {
    previous.Some? && !RowBetween(snapshots, agent, root, previous.value.at, newest.at)
  }

  /** The growth that was logged when the newest snapshot arrived. */
  ghost function LoggedGrowth(previous: Option<Snapshot>, newest: Snapshot, threshold: int): seq<Alert> {
    if previous.None? then [] else Growth(previous.value, newest, threshold)
  }

  /** Equal growth that is not empty begins at the same time. */
  lemma SameGrowthSameStart(a: Snapshot, b: Snapshot, newest: Snapshot, threshold: int)
    requires DistinctPaths(newest.nodes)
    requires Growth(a, newest, threshold) == Growth(b, newest, threshold) != []
    ensures a.at == b.at
  {
    GrowthAlertsDistinct(a, newest, threshold);
    GrowthAlertsDistinct(b, newest, threshold);
    assert Growth(a, newest, threshold)[0] in Growth(b, newest, threshold);
  }

  /** The page shows the growth on arrival exactly when no row lies in between, or neither shows any. */
  lemma SameAlertsWhenSettled(snapshots: map<SnapKey, Snapshot>, agent: string, root: string,
                              previous: Option<Snapshot>, newest: Snapshot, threshold: int)
    requires Settled(snapshots, agent, root, previous, newest) && DistinctPaths(newest.nodes)
    ensures var logged := LoggedGrowth(previous, newest, threshold);
            var page := PageAlerts(snapshots, agent, root, threshold);
            logged == page <==> NoRowBetween(snapshots, agent, root, previous, newest) || (logged == [] && page == [])
  {
    var logged, page := LoggedGrowth(previous, newest, threshold), PageAlerts(snapshots, agent, root, threshold);
    SettledLatest(snapshots, agent, root, previous, newest);
    if NoRowBetween(snapshots, agent, root, previous, newest) {
      SettledSecond(snapshots, agent, root, previous.value, newest);
    } else if previous.Some? && logged == page && page != [] {
      SecondIsLater(snapshots, agent, root, previous.value, newest);
      SameGrowthSameStart(previous.value, SecondNewest(snapshots, agent, root), newest, threshold);
    }
  }

  // ---- Agreement over whole runs ----

  /** The latest snapshot at the time the newest one arrived. */
  ghost function PreviousMaximum(us: seq<Arrival>): Option<Snapshot> {
    var ms := Maxima(us);
    if |ms| < 2 then None else Some(ms[|ms| - 2].snap)
  }

  /** Every arrival has the newest time or is not newer than the second. */
  ghost predicate AllBehind(us: seq<Arrival>, newest: int, second: int) {
    forall u | u in us :: u.snap.at <= second || u.snap.at == newest
  }

  /** There was a snapshot when the newest one arrived, and the latest one then is the second newest now. */
  ghost predicate NothingCameBetween(us: seq<Arrival>) {
    PreviousMaximum(us).Some? && AllBehind(us, NewestArrival(us).at, PreviousMaximum(us).value.at)
  }

  /** The arrivals settle the tables; what came in between is a row in between. */
  lemma MaximaSettle(snapshots: map<SnapKey, Snapshot>, agent: string, root: string, us: seq<Arrival>)
    requires Stored(snapshots, agent, root, us) && MaximaStored(snapshots, agent, root, us) && |us| > 0
    ensures Settled(snapshots, agent, root, PreviousMaximum(us), NewestArrival(us))
    ensures NoRowBetween(snapshots, agent, root, PreviousMaximum(us), NewestArrival(us)) <==> NothingCameBetween(us)
  {
    var ms := Maxima(us);
    LastMaximum(us);
    assert ms[|ms| - 1] in ms;
    if PreviousMaximum(us).Some? {
      MaximaIncrease(us);
      assert ms[|ms| - 2] in ms;
      ArrivalsBetween(snapshots, agent, root, us, PreviousMaximum(us).value.at, NewestArrival(us).at);
    }
  }

  lemma ArrivalsBetween(snapshots: map<SnapKey, Snapshot>, agent: string, root: string, us: seq<Arrival>,
                        second: int, newest: int)
    requires Stored(snapshots, agent, root, us) && forall u | u in us :: u.snap.at <= newest
    ensures RowBetween(snapshots, agent, root, second, newest) <==> !AllBehind(us, newest, second)
  {
    forall u | u in us
      ensures SnapKey(agent, root, u.snap.at) in Rows(snapshots, agent, root)
    {
    }
  }

  /** Page and arrival show the same alerts exactly when nothing came in between, or neither shows any. */
  lemma SameAlerts(snapshots: map<SnapKey, Snapshot>, agent: string, root: string, us: seq<Arrival>, threshold: int)
    requires Stored(snapshots, agent, root, us) && MaximaStored(snapshots, agent, root, us)
    requires DistinctPaths(NewestArrival(us).nodes)
    ensures var logged := LoggedGrowth(PreviousMaximum(us), NewestArrival(us), threshold);
            var page := PageAlerts(snapshots, agent, root, threshold);
            logged == page <==> NothingCameBetween(us) || (logged == [] && page == [])
  {
    if |us| > 0 {
      MaximaSettle(snapshots, agent, root, us);
      SameAlertsWhenSettled(snapshots, agent, root, PreviousMaximum(us), NewestArrival(us), threshold);
    } else {
      assert Rows(snapshots, agent, root) == {};
    }
  }

  /** The threshold is the one in force when the newest upload arrived. */
  ghost predicate SameThreshold(us: seq<Arrival>, threshold: int) {
    |Maxima(us)| > 0 ==> threshold == Maxima(us)[|Maxima(us)| - 1].threshold
  }

  /** Fewer than two maxima have left no log. */
  lemma NoGrowthYet(ms: seq<Arrival>, to: int)
    requires |ms| < 2
    ensures EndingAt(GrowthAlong(ms), to) == []
  {
  }

  /** The log's entries that end at the newest snapshot are the growth on its arrival. */
  lemma LoggedLast(us: seq<Arrival>, ms: seq<Arrival>, threshold: int)
    requires ms == Maxima(us) && UsablePaths(ms) && Increasing(ms) && SameThreshold(us, threshold)
    ensures EndingAt(GrowthAlong(ms), NewestArrival(us).at) ==
            Noted(LoggedGrowth(PreviousMaximum(us), NewestArrival(us), threshold), threshold)
  {
    if |ms| < 2 {
      NoGrowthYet(ms, NewestArrival(us).at);
    } else {
      LastGrowth(ms);
    }
  }

  lemma NotedIsInjective(a: seq<Alert>, b: seq<Alert>, threshold: int)
    ensures Noted(a, threshold) == Noted(b, threshold) <==> a == b
  {
    if Noted(a, threshold) == Noted(b, threshold) {
      assert |Noted(a, threshold)| == |a| && |Noted(b, threshold)| == |b|;
      forall i | 0 <= i < |a|
        ensures a[i] == b[i]
      {
        assert Noted(a, threshold)[i] == Noted(b, threshold)[i];
      }
    }
  }

  lemma NewestIsUsable(us: seq<Arrival>)
    requires UsablePaths(Maxima(us))
    ensures DistinctPaths(NewestArrival(us).nodes)
  {
    if |Maxima(us)| > 0 {
      assert Maxima(us)[|Maxima(us)| - 1] in Maxima(us);
    }
  }

  /** The logged events that end at the newest snapshot of a device and root. */
  ghost function LastLog(db: Db, agent: string, root: string): seq<Entry> {
    EndingAt(LogOf(db.events.rows, agent, root), Latest(db.snapshots, agent, root).at)
  }

  lemma LastLogIs(db: Db, agent: string, root: string, us: seq<Arrival>, threshold: int)
    requires Holds(db, agent, root, us)
    requires UsablePaths(Maxima(us)) && Increasing(Maxima(us)) && SameThreshold(us, threshold)
    ensures LastLog(db, agent, root) ==
            Noted(LoggedGrowth(PreviousMaximum(us), NewestArrival(us), threshold), threshold)
  {
    LoggedLast(us, Maxima(us), threshold);
  }

  /**
    In every run in which nothing of the device and root is cleaned up or deleted, the alerts the page recomputes are
    the logged events that end at the newest snapshot if and only if the second newest was the latest when the newest
    arrived, or there are no alerts on either side; the threshold being the one in force then.
   */
  lemma AgreeFromTheStart(actions: seq<Action>, shared: string, agent: string, root: string, threshold: int)
    requires Undisturbed(actions, shared, agent, root)
    requires SameThreshold(Arrivals(actions, shared, agent, root), threshold)
    ensures var db := After(actions, shared).db;
            var page := PageAlerts(db.snapshots, agent, root, threshold);
            LastLog(db, agent, root) == Noted(page, threshold) <==>
            NothingCameBetween(Arrivals(actions, shared, agent, root)) || (LastLog(db, agent, root) == [] && page == [])
  {
    var db, us := After(actions, shared).db, Arrivals(actions, shared, agent, root);
    RunHolds(actions, shared, agent, root);
    UsableMaxima(actions, shared, agent, root);
    NewestIsUsable(us);
    LastLogIs(db, agent, root, us, threshold);
    SameAlerts(db.snapshots, agent, root, us, threshold);
    NotedIsInjective(LoggedGrowth(PreviousMaximum(us), NewestArrival(us), threshold),
                     PageAlerts(db.snapshots, agent, root, threshold), threshold);
  }

  // ---- What the steps after the arrival keep ----

  /** The times that matter to the page: from the previous snapshot on. */
  function Since(previous: Option<Snapshot>, newest: Snapshot): int {
    if previous.Some? then previous.value.at else newest.at
  }

  /** A cleanup takes no snapshot from then on, and no event that ends at the newest. */
  ghost predicate SparesRecent(snapshots: set<SnapKey>, events: set<Event>, agent: string, root: string,
                               since: int, newest: int)
  {
    && (forall k | k in snapshots && k.agent == agent && k.root == root :: k.at < since)
    && forall e | e in events && Of(e, agent, root) :: e.to != newest
  }

  /** The step does not delete the device, spares its recent history, and brings nothing newer. */
  ghost predicate Quiet(s: Sys, a: Action, agent: string, root: string, since: int, newest: int) {
    && !(a == Deletion(agent) && CanDelete(s.db, agent))
    && (a.Cleanup? ==> SparesRecent(a.snapshots, a.events, agent, root, since, newest))
    && (Arrives(s, a, agent, root) ==> a.request.snap.at <= newest)
  }

  /** The step brings a snapshot strictly between the two times. */
  ghost predicate ComesBetween(s: Sys, a: Action, agent: string, root: string, from: int, to: int) {
    Arrives(s, a, agent, root) && from < a.request.snap.at < to
  }

  /** The logged growth ends at the newest snapshot, and is all that does. */
  ghost predicate Logged(rows: seq<Event>, agent: string, root: string, previous: Option<Snapshot>, newest: Snapshot,
                         threshold: int)
  {
    EndingAt(LogOf(rows, agent, root), newest.at) == Noted(LoggedGrowth(previous, newest, threshold), threshold)
  }

  /** What holds from the arrival on: device, snapshots, and the logged growth. */
  ghost predicate Remembers(db: Db, agent: string, root: string, previous: Option<Snapshot>, newest: Snapshot,
                            threshold: int)
  {
    && agent !in db.deleted && WellKeyed(db.snapshots)
    && Settled(db.snapshots, agent, root, previous, newest)
    && Logged(db.events.rows, agent, root, previous, newest, threshold)
  }

  /** Two tables have the same snapshots of a device and root from some time on. */
  ghost predicate AgreeSince(a: map<SnapKey, Snapshot>, b: map<SnapKey, Snapshot>, agent: string, root: string,
                             since: int)
  {
    forall k: SnapKey | k.agent == agent && k.root == root && k.at >= since ::
      (k in a <==> k in b) && (k in a ==> a[k] == b[k])
  }

  lemma AgreeingTables(a: map<SnapKey, Snapshot>, b: map<SnapKey, Snapshot>, agent: string, root: string,
                       previous: Option<Snapshot>, newest: Snapshot)
    requires Settled(a, agent, root, previous, newest) && WellKeyed(b)
    requires AgreeSince(a, b, agent, root, Since(previous, newest))
    ensures Settled(b, agent, root, previous, newest)
    ensures NoRowBetween(b, agent, root, previous, newest) <==> NoRowBetween(a, agent, root, previous, newest)
  {
    forall k | k in Rows(b, agent, root)
      ensures k.at <= newest.at
    {
      assert k.at >= Since(previous, newest) ==> k in Rows(a, agent, root);
    }
    if previous.Some? {
      SameRowsBetween(a, b, agent, root, previous.value.at, newest.at);
    }
  }

  lemma SameRowsBetween(a: map<SnapKey, Snapshot>, b: map<SnapKey, Snapshot>, agent: string, root: string,
                        from: int, to: int)
    requires AgreeSince(a, b, agent, root, from)
    ensures RowBetween(b, agent, root, from, to) <==> RowBetween(a, agent, root, from, to)
  {
    forall k: SnapKey | from < k.at < to
      ensures k in Rows(a, agent, root) <==> k in Rows(b, agent, root)
    {
    }
  }

  /** One more row, not newer than the newest: it lies in between or it does not matter. */
  lemma OneMoreRow(snapshots: map<SnapKey, Snapshot>, snap: Snapshot, previous: Option<Snapshot>, newest: Snapshot)
    requires Settled(snapshots, snap.agent, snap.root, previous, newest)
    requires KeyOf(snap) !in snapshots && snap.at <= newest.at
    ensures var after := snapshots[KeyOf(snap) := snap];
            && Settled(after, snap.agent, snap.root, previous, newest)
            && (NoRowBetween(after, snap.agent, snap.root, previous, newest) <==>
                NoRowBetween(snapshots, snap.agent, snap.root, previous, newest)
                && !(previous.value.at < snap.at < newest.at))
  {
    var after := snapshots[KeyOf(snap) := snap];
    assert Rows(after, snap.agent, snap.root) == Rows(snapshots, snap.agent, snap.root) + {KeyOf(snap)};
    assert KeyOf(snap) in Rows(after, snap.agent, snap.root);
  }

  /** A stored row adds nothing: it lies in between already or does not matter. */
  lemma StoredRow(snapshots: map<SnapKey, Snapshot>, snap: Snapshot, previous: Snapshot, newest: Snapshot)
    requires KeyOf(snap) in snapshots && previous.at < snap.at < newest.at
    ensures !NoRowBetween(snapshots, snap.agent, snap.root, Some(previous), newest)
  {
    assert KeyOf(snap) in Rows(snapshots, snap.agent, snap.root);
  }

  lemma {:induction false} EndingExcept(rows: seq<Event>, gone: set<Event>, agent: string, root: string, to: int)
    requires forall e | e in gone && Of(e, agent, root) :: e.to != to
    ensures EndingAt(LogOf(EventsExcept(rows, gone), agent, root), to) == EndingAt(LogOf(rows, agent, root), to)
  {
    if |rows| > 0 {
      var n := |rows| - 1;
      EndingExcept(rows[..n], gone, agent, root, to);
      assert rows == rows[..n] + [rows[n]];
      EndingExceptNext(rows[..n], EventsExcept(rows[..n], gone), rows[n], rows[n] in gone, agent, root, to);
    }
  }

  lemma EndingExceptNext(rows: seq<Event>, left: seq<Event>, e: Event, goes: bool, agent: string, root: string, to: int)
    requires EndingAt(LogOf(left, agent, root), to) == EndingAt(LogOf(rows, agent, root), to)
    requires goes ==> !(Of(e, agent, root) && e.to == to)
    ensures EndingAt(LogOf(left + if !goes then [e] else [], agent, root), to) ==
            EndingAt(LogOf(rows + [e], agent, root), to)
  {
    EndingWithLast(rows, e, agent, root, to);
    if goes {
      assert left + [] == left;
    } else {
      EndingWithLast(left, e, agent, root, to);
    }
  }

  lemma EndingWithLast(rows: seq<Event>, e: Event, agent: string, root: string, to: int)
    ensures EndingAt(LogOf(rows + [e], agent, root), to) ==
            EndingAt(LogOf(rows, agent, root), to) +
            if Of(e, agent, root) && e.to == to then [Entry(e.path, e.delta, e.threshold, e.from, e.to)] else []
  {
    var entry := Entry(e.path, e.delta, e.threshold, e.from, e.to);
    LogWithLast(rows, e, agent, root);
    var log := LogOf(rows, agent, root);
    if Of(e, agent, root) {
      assert (log + [entry])[..|log|] == log;
    } else {
      assert log + [] == log && EndingAt(log, to) + [] == EndingAt(log, to);
    }
  }

  lemma {:induction false} FreeTimeEndsNothing(rows: seq<Event>, agent: string, root: string, to: int)
    requires NoneAt(rows, agent, root, to)
    ensures EndingAt(LogOf(rows, agent, root), to) == []
  {
    if |rows| > 0 {
      var n := |rows| - 1;
      assert rows == rows[..n] + [rows[n]] && rows[n] in rows;
      FreeTimeEndsNothing(rows[..n], agent, root, to);
      EndingWithLast(rows[..n], rows[n], agent, root, to);
    }
  }

  // ---- Each quiet step keeps what is remembered ----

  /** An action brings a snapshot between the previous one and the newest. */
  ghost predicate Intrudes(s: Sys, a: Action, agent: string, root: string, previous: Option<Snapshot>,
                           newest: Snapshot) {
    previous.Some? && ComesBetween(s, a, agent, root, previous.value.at, newest.at)
  }

  /** What is remembered holds on, and a row comes in between only if the step brings it. */
  ghost predicate Keeps(before: Db, after: Db, agent: string, root: string, previous: Option<Snapshot>,
                        newest: Snapshot,
                        threshold: int, intrudes: bool)
  {
    && Remembers(after, agent, root, previous, newest, threshold)
    && (NoRowBetween(after.snapshots, agent, root, previous, newest) <==>
        NoRowBetween(before.snapshots, agent, root, previous, newest) && !intrudes)
  }

  /** An upload for the device and root that is not newer than the newest. */
  lemma LateUploadKeeps(db: Db, snap: Snapshot, threshold': int, previous: Option<Snapshot>, newest: Snapshot,
                        threshold: int)
    requires Remembers(db, snap.agent, snap.root, previous, newest, threshold) && snap.at <= newest.at
    ensures Keeps(db, SaveDiskEvents(db, snap, threshold'), snap.agent, snap.root, previous, newest, threshold,
                  previous.Some? && previous.value.at < snap.at < newest.at)
  {
    SettledLatest(db.snapshots, snap.agent, snap.root, previous, newest);
    LateUploadsAddNothing(db, snap, threshold');
    if KeyOf(snap) in db.snapshots {
      if previous.Some? && previous.value.at < snap.at < newest.at {
        StoredRow(db.snapshots, snap, previous.value, newest);
      }
    } else {
      OneMoreRow(db.snapshots, snap, previous, newest);
      LateRow(db, snap, threshold');
    }
  }

  lemma LateRow(db: Db, snap: Snapshot, threshold: int)
    requires Lands(db, snap)
    ensures SaveDiskEvents(db, snap, threshold).snapshots == db.snapshots[KeyOf(snap) := snap]
    ensures SaveDiskEvents(db, snap, threshold).deleted == db.deleted
  {
  }

  /** Steps that leave the recent snapshots and the log's last events as they are. */
  lemma SameHistoryKeeps(before: Db, after: Db, agent: string, root: string, previous: Option<Snapshot>,
                         newest: Snapshot, threshold: int)
    requires Remembers(before, agent, root, previous, newest, threshold)
    requires agent !in after.deleted && WellKeyed(after.snapshots)
    requires AgreeSince(before.snapshots, after.snapshots, agent, root, Since(previous, newest))
    requires EndingAt(LogOf(after.events.rows, agent, root), newest.at) ==
             EndingAt(LogOf(before.events.rows, agent, root), newest.at)
    ensures Keeps(before, after, agent, root, previous, newest, threshold, false)
  {
    AgreeingTables(before.snapshots, after.snapshots, agent, root, previous, newest);
  }

  lemma OtherUploadRemembers(db: Db, snap: Snapshot, threshold': int, agent: string, root: string,
                             previous: Option<Snapshot>, newest: Snapshot, threshold: int)
    requires Remembers(db, agent, root, previous, newest, threshold) && (snap.agent != agent || snap.root != root)
    requires WellKeyed(SaveDiskEvents(db, snap, threshold').snapshots)
    ensures Keeps(db, SaveDiskEvents(db, snap, threshold'), agent, root, previous, newest, threshold, false)
  {
    var growth := Growth(Latest(db.snapshots, snap.agent, snap.root), snap, threshold');
    OtherRowsSame(db, snap, threshold', agent, root);
    OtherLogsStay(db.events, snap.agent, snap.root, threshold', growth, agent, root);
    SameHistoryKeeps(db, SaveDiskEvents(db, snap, threshold'), agent, root, previous, newest, threshold);
  }

  lemma OtherDeletionRemembers(db: Db, id: string, agent: string, root: string, previous: Option<Snapshot>,
                               newest: Snapshot, threshold: int)
    requires Remembers(db, agent, root, previous, newest, threshold) && !(id == agent && CanDelete(db, id))
    requires WellKeyed(Delete(db, id).snapshots)
    ensures Keeps(db, Delete(db, id), agent, root, previous, newest, threshold, false)
  {
    if CanDelete(db, id) {
      LogWithoutOther(db.events.rows, agent, root, id);
    }
    SameHistoryKeeps(db, Delete(db, id), agent, root, previous, newest, threshold);
  }

  lemma CleanupRemembers(db: Db, samples: set<SampleKey>, snapshots: set<SnapKey>, events: set<Event>,
                         agent: string, root: string, previous: Option<Snapshot>, newest: Snapshot, threshold: int)
    requires Remembers(db, agent, root, previous, newest, threshold)
    requires SparesRecent(snapshots, events, agent, root, Since(previous, newest), newest.at)
    ensures Keeps(db, Remove(db, samples, snapshots, events), agent, root, previous, newest, threshold, false)
  {
    EndingExcept(db.events.rows, events, agent, root, newest.at);
    SameHistoryKeeps(db, Remove(db, samples, snapshots, events), agent, root, previous, newest, threshold);
  }

  lemma QuietStepKeeps(s: Sys, a: Action, shared: string, agent: string, root: string, previous: Option<Snapshot>,
                       newest: Snapshot, threshold: int)
    requires Remembers(s.db, agent, root, previous, newest, threshold)
    requires Quiet(s, a, agent, root, Since(previous, newest), newest.at)
    ensures Keeps(s.db, Step(s, a, shared).db, agent, root, previous, newest, threshold,
                  Intrudes(s, a, agent, root, previous, newest))
  {
    StepKeepsKeys(s, a, shared);
    if a.Write? && a.request in s.inflight && a.request.Upload? {
      if Arrives(s, a, agent, root) {
        LateUploadKeeps(s.db, a.request.snap, a.threshold, previous, newest, threshold);
      } else {
        OtherUploadRemembers(s.db, a.request.snap, a.threshold, agent, root, previous, newest, threshold);
      }
    } else if a.Deletion? {
      OtherDeletionRemembers(s.db, a.id, agent, root, previous, newest, threshold);
    } else if a.Cleanup? {
      CleanupRemembers(s.db, a.samples, a.snapshots, a.events, agent, root, previous, newest, threshold);
    } else {
      OtherStepsKeepHistory(s, a, shared);
      SameHistoryKeeps(s.db, Step(s, a, shared).db, agent, root, previous, newest, threshold);
    }
  }

  // ---- From the arrival on ----

  /** What an upload is compared with when it arrives. */
  ghost function NewestSoFar(snapshots: map<SnapKey, Snapshot>, agent: string, root: string): Option<Snapshot> {
    if Rows(snapshots, agent, root) == {} then None else Some(Latest(snapshots, agent, root))
  }

  /** The upload reaches the tables, for a device that is not deleted, newer than every stored one, at a free time. */
  ghost predicate ArrivesNewest(s: Sys, a: Action, agent: string, root: string) {
    && Arrives(s, a, agent, root) && agent !in s.db.deleted
    && (Rows(s.db.snapshots, agent, root) == {} || Latest(s.db.snapshots, agent, root).at < a.request.snap.at)
    && NoneAt(s.db.events.rows, agent, root, a.request.snap.at)
  }

  lemma NewestIsStored(snapshots: map<SnapKey, Snapshot>, agent: string, root: string)
    requires WellKeyed(snapshots) && Rows(snapshots, agent, root) != {}
    ensures IsStored(snapshots, agent, root, Latest(snapshots, agent, root))
    ensures forall k | k in Rows(snapshots, agent, root) :: k.at <= Latest(snapshots, agent, root).at
  {
    assert KeyOf(snapshots[Newest(Rows(snapshots, agent, root))]) == Newest(Rows(snapshots, agent, root));
  }

  /** A newer snapshot settles on top of the newest so far, with nothing in between. */
  lemma NewerSettles(snapshots: map<SnapKey, Snapshot>, snap: Snapshot)
    requires WellKeyed(snapshots)
    requires Rows(snapshots, snap.agent, snap.root) == {} || Latest(snapshots, snap.agent, snap.root).at < snap.at
    ensures KeyOf(snap) !in snapshots
    ensures var previous := NewestSoFar(snapshots, snap.agent, snap.root);
            && Settled(snapshots[KeyOf(snap) := snap], snap.agent, snap.root, previous, snap)
            && (previous.Some? ==>
                  NoRowBetween(snapshots[KeyOf(snap) := snap], snap.agent, snap.root, previous, snap))
  {
    var rows := Rows(snapshots, snap.agent, snap.root);
    assert KeyOf(snap) in snapshots ==> KeyOf(snap) in rows;
    if rows != {} {
      NewestIsStored(snapshots, snap.agent, snap.root);
    }
    assert Rows(snapshots[KeyOf(snap) := snap], snap.agent, snap.root) == rows + {KeyOf(snap)};
  }

  /** The log then ends with the growth since the newest so far. */
  lemma NewerLogs(db: Db, snap: Snapshot, threshold: int)
    requires Lands(db, snap) && DistinctPaths(snap.nodes)
    requires Rows(db.snapshots, snap.agent, snap.root) == {} || Latest(db.snapshots, snap.agent, snap.root).at < snap.at
    requires NoneAt(db.events.rows, snap.agent, snap.root, snap.at)
    ensures Logged(SaveDiskEvents(db, snap, threshold).events.rows, snap.agent, snap.root,
                   NewestSoFar(db.snapshots, snap.agent, snap.root), snap, threshold)
  {
    FreeTimeEndsNothing(db.events.rows, snap.agent, snap.root, snap.at);
    var newest := Latest(db.snapshots, snap.agent, snap.root);
    if Rows(db.snapshots, snap.agent, snap.root) == {} {
      assert Growth(ZERO_SNAPSHOT, snap, threshold) == [];
    } else {
      NewerIsLogged(db, snap, threshold);
      GrowthEnds(newest, snap, threshold);
      EndingAtConcat(LogOf(db.events.rows, snap.agent, snap.root), Noted(Growth(newest, snap, threshold), threshold),
                     snap.at);
    }
  }

  lemma ArrivalIsRemembered(s: Sys, a: Action, shared: string, agent: string, root: string)
    requires ArrivesNewest(s, a, agent, root) && WellKeyed(s.db.snapshots) && ValidUploads(s)
    ensures var after := Step(s, a, shared).db;
            var previous := NewestSoFar(s.db.snapshots, agent, root);
            && Remembers(after, agent, root, previous, a.request.snap, a.threshold)
            && (previous.Some? ==> NoRowBetween(after.snapshots, agent, root, previous, a.request.snap))
  {
    NewerSettles(s.db.snapshots, a.request.snap);
    LateRow(s.db, a.request.snap, a.threshold);
    NewerLogs(s.db, a.request.snap, a.threshold);
  }

  ghost predicate QuietAt(actions: seq<Action>, shared: string, i: nat, agent: string, root: string, since: int,
                          newest: int)
  {
    i < |actions| && Quiet(After(actions[..i], shared), actions[i], agent, root, since, newest)
  }

  /** Every action after the n-th, up to the m-th, is quiet. */
  ghost predicate QuietAfter(actions: seq<Action>, shared: string, n: nat, m: nat, agent: string, root: string,
                             since: int, newest: int)
  {
    forall i | n < i < m :: QuietAt(actions, shared, i, agent, root, since, newest)
  }

  ghost predicate IntrudesAt(actions: seq<Action>, shared: string, i: nat, agent: string, root: string,
                             previous: Option<Snapshot>, newest: Snapshot)
  {
    i < |actions| && Intrudes(After(actions[..i], shared), actions[i], agent, root, previous, newest)
  }

  /** There was a snapshot when the newest one arrived, and nothing came in between since. */
  ghost predicate NothingIntrudes(actions: seq<Action>, shared: string, n: nat, m: nat, agent: string, root: string,
                                  previous: Option<Snapshot>, newest: Snapshot)
  {
    previous.Some? && forall i | n < i < m :: !IntrudesAt(actions, shared, i, agent, root, previous, newest)
  }

  /** The tables after m actions: what is remembered, and whether a row has come in between. */
  ghost predicate RemembersSince(db: Db, actions: seq<Action>, shared: string, n: nat, m: nat, agent: string,
                                 root: string, previous: Option<Snapshot>, newest: Snapshot, threshold: int)
  {
    && Remembers(db, agent, root, previous, newest, threshold)
    && (NoRowBetween(db.snapshots, agent, root, previous, newest) <==>
        NothingIntrudes(actions, shared, n, m, agent, root, previous, newest))
  }

  lemma RemembersNext(s: Sys, actions: seq<Action>, shared: string, n: nat, m: nat, agent: string, root: string,
                      previous: Option<Snapshot>, newest: Snapshot, threshold: int)
    requires n + 1 < m <= |actions| && s == After(actions[..m - 1], shared)
    requires RemembersSince(s.db, actions, shared, n, m - 1, agent, root, previous, newest, threshold)
    requires QuietAt(actions, shared, m - 1, agent, root, Since(previous, newest), newest.at)
    ensures RemembersSince(Step(s, actions[m - 1], shared).db, actions, shared, n, m, agent, root, previous, newest,
                           threshold)
  {
    QuietStepKeeps(s, actions[m - 1], shared, agent, root, previous, newest, threshold);
    IntrusionNext(actions, shared, n, m, agent, root, previous, newest);
  }

  lemma {:induction false} StaysRemembered(actions: seq<Action>, shared: string, n: nat, m: nat, agent: string,
                                           root: string, previous: Option<Snapshot>, newest: Snapshot, threshold: int)
    requires n < m <= |actions|
    requires RemembersSince(After(actions[..n + 1], shared).db, actions, shared, n, n + 1, agent, root, previous,
                            newest, threshold)
    requires QuietAfter(actions, shared, n, m, agent, root, Since(previous, newest), newest.at)
    ensures RemembersSince(After(actions[..m], shared).db, actions, shared, n, m, agent, root, previous, newest,
                           threshold)
    decreases m
  {
    if m > n + 1 {
      StaysRemembered(actions, shared, n, m - 1, agent, root, previous, newest, threshold);
      AfterNext(actions, shared, m - 1);
      assert QuietAt(actions, shared, m - 1, agent, root, Since(previous, newest), newest.at);
      RemembersNext(After(actions[..m - 1], shared), actions, shared, n, m, agent, root, previous, newest, threshold);
    }
  }

  lemma IntrusionNext(actions: seq<Action>, shared: string, n: nat, m: nat, agent: string, root: string,
                      previous: Option<Snapshot>, newest: Snapshot)
    requires n + 1 < m <= |actions|
    ensures NothingIntrudes(actions, shared, n, m, agent, root, previous, newest) <==>
            NothingIntrudes(actions, shared, n, m - 1, agent, root, previous, newest) &&
            !Intrudes(After(actions[..m - 1], shared), actions[m - 1], agent, root, previous, newest)
  {
    assert IntrudesAt(actions, shared, m - 1, agent, root, previous, newest) <==>
           Intrudes(After(actions[..m - 1], shared), actions[m - 1], agent, root, previous, newest);
  }

  /** What the tables say then, in terms of page and log. */
  lemma RememberedAlertsAgree(db: Db, agent: string, root: string, previous: Option<Snapshot>, newest: Snapshot,
                              threshold: int)
    requires Remembers(db, agent, root, previous, newest, threshold) && DistinctPaths(newest.nodes)
    ensures var page := PageAlerts(db.snapshots, agent, root, threshold);
            LastLog(db, agent, root) == Noted(page, threshold) <==>
            NoRowBetween(db.snapshots, agent, root, previous, newest) ||
            (LastLog(db, agent, root) == [] && page == [])
  {
    SettledLatest(db.snapshots, agent, root, previous, newest);
    SameAlertsWhenSettled(db.snapshots, agent, root, previous, newest, threshold);
    NotedIsInjective(LoggedGrowth(previous, newest, threshold), PageAlerts(db.snapshots, agent, root, threshold),
                     threshold);
  }

  /**
    In any run, from the moment the n-th action brings an upload newer than every stored one, and as long as the device
    is not deleted, cleanups spare its history from the snapshot before on, and nothing newer arrives: the alerts the
    page recomputes are the logged events that end at the newest snapshot if and only if there was a snapshot before
    and none has come in between since, or there are no alerts on either side.
   */
  lemma RecomputedAlertsAgree(actions: seq<Action>, shared: string, n: nat, agent: string, root: string)
    requires n < |actions| && ArrivesNewest(After(actions[..n], shared), actions[n], agent, root)
    requires var previous := NewestSoFar(After(actions[..n], shared).db.snapshots, agent, root);
             var newest := actions[n].request.snap;
             QuietAfter(actions, shared, n, |actions|, agent, root, Since(previous, newest), newest.at)
    ensures var previous := NewestSoFar(After(actions[..n], shared).db.snapshots, agent, root);
            var db, newest, threshold := After(actions, shared).db, actions[n].request.snap, actions[n].threshold;
            var page := PageAlerts(db.snapshots, agent, root, threshold);
            && Latest(db.snapshots, agent, root) == newest
            && (LastLog(db, agent, root) == Noted(page, threshold) <==>
                NothingIntrudes(actions, shared, n, |actions|, agent, root, previous, newest) ||
                (LastLog(db, agent, root) == [] && page == []))
  {
    var s := After(actions[..n], shared);
    var previous, newest, threshold := NewestSoFar(s.db.snapshots, agent, root), actions[n].request.snap,
                                       actions[n].threshold;
    RunIsKeyed(actions[..n], shared);
    InflightIsValid(actions[..n], shared);
    AfterNext(actions, shared, n);
    ArrivalIsRemembered(s, actions[n], shared, agent, root);
    StaysRemembered(actions, shared, n, |actions|, agent, root, previous, newest, threshold);
    assert actions[..|actions|] == actions;
    SettledLatest(After(actions, shared).db.snapshots, agent, root, previous, newest);
    RememberedAlertsAgree(After(actions, shared).db, agent, root, previous, newest, threshold);
  }

  /** In a run whose cleanups keep pace, an upload newer than every stored one finds no events at its time. */
  lemma NewestFindsNoEvents(actions: seq<Action>, shared: string, a: Action, agent: string, root: string)
    requires InPace(actions, shared, agent, root)
    requires Arrives(After(actions, shared), a, agent, root) && agent !in After(actions, shared).db.deleted
    requires var snapshots := After(actions, shared).db.snapshots;
             Rows(snapshots, agent, root) == {} || Latest(snapshots, agent, root).at < a.request.snap.at
    ensures ArrivesNewest(After(actions, shared), a, agent, root)
  {
    var db := After(actions, shared).db;
    RunIsSpaced(actions, shared, agent, root);
    if Rows(db.snapshots, agent, root) != {} {
      NewTimeIsFree(db, agent, root, a.request.snap.at);
    } else {
      forall e | e in db.events.rows
        ensures !Of(e, agent, root)
      {
        if Of(e, agent, root) {
          LoggedEndIsStored(db, agent, root, e);
        }
      }
    }
  }

  lemma LoggedEndIsStored(db: Db, agent: string, root: string, e: Event)
    requires Anchored(db, agent, root) && e in db.events.rows && Of(e, agent, root)
    ensures Rows(db.snapshots, agent, root) != {}
  {
    assert SnapKey(agent, root, e.to) in Rows(db.snapshots, agent, root);
  }
}
