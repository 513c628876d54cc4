/** Concrete runs of the hub that show what can happen (internal/hub/events.go, disk.go, retention.go). */
module SampleRuns {
  import opened Ordering
  import opened Snapshots
  import opened DiskCompare
  import opened HubDb
  import opened SqliteStore
  import opened HubRuns
  import opened EventLog
  import opened EventPaging
  import opened EventSpans
  import opened DiskPage

  // ---- Uploads into a hub without devices ----

  /** A complete scan that found one directory with so many bytes. */
  function Scan(agent: string, root: string, at: int, bytes: int): Snapshot {
    Snapshot(agent, root, at, 0, true, 1, 0, NoReason, [Node(".", bytes)])
  }

  /** The growth between two such scans. */
  lemma ScanGrowth(agent: string, root: string, at: int, bytes: int, at': int, bytes': int, threshold: int)
    requires at < at' && threshold > 0
    ensures Growth(Scan(agent, root, at, bytes), Scan(agent, root, at', bytes'), threshold) ==
            if bytes' - bytes >= threshold then [Alert(".", bytes' - bytes, at, at')] else []
  {
    var a, b := Scan(agent, root, at, bytes), Scan(agent, root, at', bytes');
    var c := Change(".", bytes', bytes' - bytes);
    OneNode(a.nodes);
    OneNode(b.nodes);
    OneChange(a, b, c);
    assert Marked([c][..0], threshold, at, at') == [];
  }

  lemma OneNode(nodes: seq<Node>)
    requires |nodes| == 1
    ensures SizeMap(nodes) == map[nodes[0].path := nodes[0].bytes] && DistinctPaths(nodes)
  {
    assert SizeMap(nodes[..0]) == map[];
  }

  /** Two snapshots of the same single path have one change. */
  lemma OneChange(a: Snapshot, b: Snapshot, c: Change)
    requires DistinctPaths(b.nodes)
    requires SizeMap(a.nodes).Keys == SizeMap(b.nodes).Keys == {c.path} && c == EntryOf(a, b, c.path)
    ensures Comparison(a, b) == [c]
  {
    var changes := Comparison(a, b);
    forall i | 0 <= i < |changes|
      ensures changes[i] == c
    {
      assert changes[i] in multiset(changes);
      EntriesMean(a, b, changes[i]);
    }
    EntriesMean(a, b, c);
    assert c in multiset(changes) && c in changes;
    OnlyOnce(changes, c);
  }

  lemma OnlyOnce(changes: seq<Change>, c: Change)
    requires c in changes && multiset(changes)[c] <= 1 && forall i | 0 <= i < |changes| :: changes[i] == c
    ensures changes == [c]
  {
    if |changes| > 1 {
      OccursTwice(changes, 0, 1);
    }
  }

  /** A hub that knows no device: what the shared token uploads is written. */
  ghost predicate NoDevices(s: Sys) {
    s.db.devices == map[] && s.db.deleted == {} && s.inflight == multiset{}
  }

  /** The run goes on with one more upload. */
  function Upload(actions: seq<Action>, shared: string, snap: Snapshot, threshold: int): seq<Action> {
    actions + [Admit(Some(shared), Request.Upload(snap))] + [Write(Request.Upload(snap), 0, threshold)]
  }

  lemma AdmitsShared(s: Sys, shared: string, snap: Snapshot)
    requires NoDevices(s) && shared != "" && ValidNodes(snap.nodes)
    ensures Step(s, Admit(Some(shared), Request.Upload(snap)), shared) == Sys(s.db, multiset{Request.Upload(snap)})
  {
  }

  lemma WritesAdmitted(db: Db, shared: string, snap: Snapshot, threshold: int)
    requires db.devices == map[] && db.deleted == {}
    ensures var s := Step(Sys(db, multiset{Request.Upload(snap)}), Write(Request.Upload(snap), 0, threshold), shared);
            s.db == SaveDiskEvents(db, snap, threshold) && NoDevices(s)
  {
  }

  lemma UploadWrites(actions: seq<Action>, shared: string, snap: Snapshot, threshold: int)
    requires NoDevices(After(actions, shared)) && shared != "" && ValidNodes(snap.nodes)
    ensures NoDevices(After(Upload(actions, shared, snap, threshold), shared))
    ensures After(Upload(actions, shared, snap, threshold), shared).db ==
            SaveDiskEvents(After(actions, shared).db, snap, threshold)
  {
    var admit := Admit(Some(shared), Request.Upload(snap));
    AfterMore(actions, admit, shared);
    AdmitsShared(After(actions, shared), shared, snap);
    AfterMore(actions + [admit], Write(Request.Upload(snap), 0, threshold), shared);
    WritesAdmitted(After(actions, shared).db, shared, snap, threshold);
  }

  /** Three uploads, the one in the middle last; the directory has grown to its size by then. */
  function LateRun(agent: string, root: string, shared: string, times: Times, size: nat, threshold: int): seq<Action> {
    Upload(Upload(Upload([], shared, Scan(agent, root, times.first, 0), threshold),
                  shared, Scan(agent, root, times.last, size), threshold),
           shared, Scan(agent, root, times.middle, size), threshold)
  }

  datatype Times = Times(first: int, middle: int, last: int)

  /** Two uploads, the newer one first. */
  function BackwardRun(agent: string, root: string, shared: string, times: Times, size: nat,
                       threshold: int): seq<Action> {
    Upload(Upload([], shared, Scan(agent, root, times.last, size), threshold),
           shared, Scan(agent, root, times.first, 0), threshold)
  }

  ghost predicate HasScan(snapshots: map<SnapKey, Snapshot>, agent: string, root: string, at: int, bytes: int) {
    SnapKey(agent, root, at) in snapshots && snapshots[SnapKey(agent, root, at)] == Scan(agent, root, at, bytes)
  }

  /** No row has a time other than these two. */
  ghost predicate NoneBut(snapshots: map<SnapKey, Snapshot>, agent: string, root: string, at: int, at': int) {
    forall k | k in Rows(snapshots, agent, root) :: k.at == at || k.at == at'
  }

  /** One scan is stored, and there are no events. */
  ghost predicate OneScan(db: Db, agent: string, root: string, at: int, bytes: int) {
    && db.deleted == {} && db.events.rows == []
    && HasScan(db.snapshots, agent, root, at, bytes) && NoneBut(db.snapshots, agent, root, at, at)
  }

  /** A scan with nothing at the first of two times, and one with the given size at the last, are stored and logged. */
  ghost predicate TwoScans(db: Db, agent: string, root: string, first: int, last: int, size: int, threshold: int) {
    && db.deleted == {} && LogOf(db.events.rows, agent, root) == [Entry(".", size, threshold, first, last)]
    && HasScan(db.snapshots, agent, root, first, 0) && HasScan(db.snapshots, agent, root, last, size)
    && NoneBut(db.snapshots, agent, root, first, last)
  }

  /** The page shows the growth between the two newest. */
  lemma PageOfTwo(snapshots: map<SnapKey, Snapshot>, agent: string, root: string,
                  newest: int, bytes': int, second: int, bytes: int, threshold: int)
    requires second < newest && threshold > 0
    requires HasScan(snapshots, agent, root, newest, bytes') && HasScan(snapshots, agent, root, second, bytes)
    requires forall k | k in Rows(snapshots, agent, root) :: k.at <= second || k.at == newest
    ensures Latest(snapshots, agent, root).at == newest
    ensures PageAlerts(snapshots, agent, root, threshold) ==
            if bytes' - bytes >= threshold then [Alert(".", bytes' - bytes, second, newest)] else []
  {
    SecondIs(snapshots, agent, root, newest, second);
    ScanGrowth(agent, root, second, bytes, newest, bytes', threshold);
  }

  lemma LatestOfOne(snapshots: map<SnapKey, Snapshot>, agent: string, root: string, at: int, bytes: int)
    requires HasScan(snapshots, agent, root, at, bytes) && NoneBut(snapshots, agent, root, at, at)
    ensures Latest(snapshots, agent, root) == Scan(agent, root, at, bytes)
  {
    NewestIs(Rows(snapshots, agent, root), agent, root, SnapKey(agent, root, at));
  }

  lemma FirstScan(agent: string, root: string, at: int, bytes: int, threshold: int)
    ensures OneScan(SaveDiskEvents(EMPTY, Scan(agent, root, at, bytes), threshold), agent, root, at, bytes)
  {
    assert Rows(EMPTY.snapshots, agent, root) == {};
  }

  /** A newer scan that found more is stored and logged. */
  lemma NewerScan(db: Db, agent: string, root: string, first: int, last: int, size: int, threshold: int)
    requires OneScan(db, agent, root, first, 0) && first < last && 0 < threshold <= size
    ensures TwoScans(SaveDiskEvents(db, Scan(agent, root, last, size), threshold), agent, root,
                     first, last, size, threshold)
  {
    StoresNewer(db.snapshots, agent, root, first, last, size);
    LogsNewer(db, agent, root, first, last, size, threshold);
  }

  lemma StoresNewer(snapshots: map<SnapKey, Snapshot>, agent: string, root: string, first: int, last: int, size: int)
    requires HasScan(snapshots, agent, root, first, 0) && NoneBut(snapshots, agent, root, first, first) && first < last
    ensures SnapKey(agent, root, last) !in snapshots
    ensures var after := snapshots[SnapKey(agent, root, last) := Scan(agent, root, last, size)];
            && HasScan(after, agent, root, first, 0) && HasScan(after, agent, root, last, size)
            && NoneBut(after, agent, root, first, last)
  {
    assert SnapKey(agent, root, last) in snapshots ==> SnapKey(agent, root, last) in Rows(snapshots, agent, root);
  }

  lemma LogsNewer(db: Db, agent: string, root: string, first: int, last: int, size: int, threshold: int)
    requires OneScan(db, agent, root, first, 0) && first < last && 0 < threshold <= size
    requires SnapKey(agent, root, last) !in db.snapshots
    ensures LogOf(SaveDiskEvents(db, Scan(agent, root, last, size), threshold).events.rows, agent, root) ==
            [Entry(".", size, threshold, first, last)]
  {
    LatestOfOne(db.snapshots, agent, root, first, 0);
    ScanGrowth(agent, root, first, 0, last, size, threshold);
    LogOfSaved(db, Scan(agent, root, first, 0), Scan(agent, root, last, size), threshold,
               Alert(".", size, first, last));
  }

  lemma LogOfSaved(db: Db, previous: Snapshot, snap: Snapshot, threshold: int, a: Alert)
    requires Lands(db, snap) && Latest(db.snapshots, snap.agent, snap.root) == previous && previous.at < snap.at
    requires Growth(previous, snap, threshold) == [a] && db.events.rows == []
    ensures LogOf(SaveDiskEvents(db, snap, threshold).events.rows, snap.agent, snap.root) ==
            [Entry(a.path, a.delta, threshold, a.from, a.to)]
  {
    SavesGrowth(db, previous, snap, threshold);
    OneEvent(db.events, snap.agent, snap.root, threshold, a);
  }

  lemma SavesGrowth(db: Db, previous: Snapshot, snap: Snapshot, threshold: int)
    requires Lands(db, snap) && Latest(db.snapshots, snap.agent, snap.root) == previous && previous.at < snap.at
    ensures SaveDiskEvents(db, snap, threshold).events ==
            AddEvents(db.events, snap.agent, snap.root, threshold, Growth(previous, snap, threshold))
  {
  }

  lemma OneEvent(t: EventTable, agent: string, root: string, threshold: int, a: Alert)
    requires t.rows == []
    ensures LogOf(AddEvents(t, agent, root, threshold, [a]).rows, agent, root) ==
            [Entry(a.path, a.delta, threshold, a.from, a.to)]
  {
    AddingOne(t, agent, root, threshold, a);
    OneAlertBecomesRow(t, agent, root, threshold, a);
    assert LogOf(t.rows, agent, root) == [];
  }

  lemma AddingOne(t: EventTable, agent: string, root: string, threshold: int, a: Alert)
    ensures AddEvents(t, agent, root, threshold, [a]) == AddEvent(t, agent, root, threshold, a)
  {
    assert [a][..0] == [];
  }

  /** A scan that is not newer than the newest is stored and changes no event. */
  lemma LateScan(db: Db, agent: string, root: string, at: int, bytes: int, threshold: int)
    requires db.deleted == {} && SnapKey(agent, root, at) !in db.snapshots
    requires at < Latest(db.snapshots, agent, root).at
    ensures var after := SaveDiskEvents(db, Scan(agent, root, at, bytes), threshold);
            && after.snapshots == db.snapshots[SnapKey(agent, root, at) := Scan(agent, root, at, bytes)]
            && after.events == db.events
  {
  }

  /**
    A directory grows by the threshold or more between the first and the last of three times, and a scan at the middle
    one comes in late: the log keeps the event, the page shows none.
   */
  lemma LateScanHides(db: Db, after: Db, agent: string, root: string, times: Times, size: int, threshold: int)
    requires times.first < times.middle < times.last && 0 < threshold <= size
    requires TwoScans(db, agent, root, times.first, times.last, size, threshold) && after.events == db.events
    requires after.snapshots ==
             db.snapshots[SnapKey(agent, root, times.middle) := Scan(agent, root, times.middle, size)]
    ensures LastLog(after, agent, root) == [Entry(".", size, threshold, times.first, times.last)]
    ensures PageAlerts(after.snapshots, agent, root, threshold) == []
  {
    StoresMiddle(db.snapshots, agent, root, times, size);
    PageOfTwo(after.snapshots, agent, root, times.last, size, times.middle, size, threshold);
    EndingAtUniform([Entry(".", size, threshold, times.first, times.last)], times.last);
  }

  lemma LateScanIsStored(db: Db, agent: string, root: string, times: Times, size: int, threshold: int)
    requires times.first < times.middle < times.last && 0 < threshold <= size
    requires TwoScans(db, agent, root, times.first, times.last, size, threshold)
    ensures var after := SaveDiskEvents(db, Scan(agent, root, times.middle, size), threshold);
            && after.events == db.events
            && after.snapshots ==
               db.snapshots[SnapKey(agent, root, times.middle) := Scan(agent, root, times.middle, size)]
  {
    StoresMiddle(db.snapshots, agent, root, times, size);
    PageOfTwo(db.snapshots, agent, root, times.last, size, times.first, 0, threshold);
    LateScan(db, agent, root, times.middle, size, threshold);
  }

  lemma StoresMiddle(snapshots: map<SnapKey, Snapshot>, agent: string, root: string, times: Times, size: int)
    requires times.first < times.middle < times.last && HasScan(snapshots, agent, root, times.last, size)
    requires NoneBut(snapshots, agent, root, times.first, times.last)
    ensures SnapKey(agent, root, times.middle) !in snapshots
    ensures var after := snapshots[SnapKey(agent, root, times.middle) := Scan(agent, root, times.middle, size)];
            && HasScan(after, agent, root, times.middle, size) && HasScan(after, agent, root, times.last, size)
            && forall k | k in Rows(after, agent, root) :: k.at <= times.middle || k.at == times.last
  {
    assert SnapKey(agent, root, times.middle) in snapshots ==>
        SnapKey(agent, root, times.middle) in Rows(snapshots, agent, root);
  }

  /** The newer of two scans comes in first: the page shows the growth between them, the log has nothing. */
  lemma BackwardScanShows(db: Db, agent: string, root: string, times: Times, size: int, threshold: int)
    requires times.first < times.last && 0 < threshold <= size
    requires OneScan(db, agent, root, times.last, size)
    ensures var after := SaveDiskEvents(db, Scan(agent, root, times.first, 0), threshold);
            && LastLog(after, agent, root) == []
            && PageAlerts(after.snapshots, agent, root, threshold) == [Alert(".", size, times.first, times.last)]
  {
    StoresOlder(db.snapshots, agent, root, times, size);
    LatestOfOne(db.snapshots, agent, root, times.last, size);
    LateScan(db, agent, root, times.first, 0, threshold);
    PageOfTwo(db.snapshots[SnapKey(agent, root, times.first) := Scan(agent, root, times.first, 0)],
              agent, root, times.last, size, times.first, 0, threshold);
    NoEvents(db.events.rows, agent, root, times.last);
  }

  lemma NoEvents(rows: seq<Event>, agent: string, root: string, to: int)
    requires rows == []
    ensures EndingAt(LogOf(rows, agent, root), to) == []
  {
  }

  lemma StoresOlder(snapshots: map<SnapKey, Snapshot>, agent: string, root: string, times: Times, size: int)
    requires times.first < times.last && HasScan(snapshots, agent, root, times.last, size)
    requires NoneBut(snapshots, agent, root, times.last, times.last)
    ensures SnapKey(agent, root, times.first) !in snapshots
    ensures var after := snapshots[SnapKey(agent, root, times.first) := Scan(agent, root, times.first, 0)];
            && HasScan(after, agent, root, times.first, 0) && HasScan(after, agent, root, times.last, size)
            && forall k | k in Rows(after, agent, root) :: k.at <= times.first || k.at == times.last
  {
    assert SnapKey(agent, root, times.first) in snapshots ==>
        SnapKey(agent, root, times.first) in Rows(snapshots, agent, root);
  }

  lemma ScanUpload(actions: seq<Action>, shared: string, agent: string, root: string, at: int, bytes: nat,
                   threshold: int)
    requires NoDevices(After(actions, shared)) && shared != ""
    ensures var s := After(Upload(actions, shared, Scan(agent, root, at, bytes), threshold), shared);
            NoDevices(s) && s.db == SaveDiskEvents(After(actions, shared).db, Scan(agent, root, at, bytes), threshold)
  {
    UploadWrites(actions, shared, Scan(agent, root, at, bytes), threshold);
  }

  /** The late upload, as a run from empty tables. */
  lemma LateUploadHidesAlerts(agent: string, root: string, shared: string, times: Times, size: nat, threshold: int)
    requires shared != "" && times.first < times.middle < times.last && 0 < threshold <= size
    ensures var db := After(LateRun(agent, root, shared, times, size, threshold), shared).db;
            && LastLog(db, agent, root) == [Entry(".", size, threshold, times.first, times.last)]
            && PageAlerts(db.snapshots, agent, root, threshold) == []
  {
    var one := Upload([], shared, Scan(agent, root, times.first, 0), threshold);
    var two := Upload(one, shared, Scan(agent, root, times.last, size), threshold);
    ScanUpload([], shared, agent, root, times.first, 0, threshold);
    ScanUpload(one, shared, agent, root, times.last, size, threshold);
    ScanUpload(two, shared, agent, root, times.middle, size, threshold);
    FirstScan(agent, root, times.first, 0, threshold);
    NewerScan(After(one, shared).db, agent, root, times.first, times.last, size, threshold);
    LateScanIsStored(After(two, shared).db, agent, root, times, size, threshold);
    LateScanHides(After(two, shared).db, After(LateRun(agent, root, shared, times, size, threshold), shared).db,
                  agent, root, times, size, threshold);
  }

  /** The same for the newer scan uploaded first. */
  lemma BackwardUploadShowsUnloggedAlert(agent: string, root: string, shared: string, times: Times, size: nat,
                                         threshold: int)
    requires shared != "" && times.first < times.last && 0 < threshold <= size
    ensures var db := After(BackwardRun(agent, root, shared, times, size, threshold), shared).db;
            && LastLog(db, agent, root) == []
            && PageAlerts(db.snapshots, agent, root, threshold) == [Alert(".", size, times.first, times.last)]
  {
    var one := Upload([], shared, Scan(agent, root, times.last, size), threshold);
    ScanUpload([], shared, agent, root, times.last, size, threshold);
    ScanUpload(one, shared, agent, root, times.first, 0, threshold);
    FirstScan(agent, root, times.last, size, threshold);
    BackwardScanShows(After(one, shared).db, agent, root, times, size, threshold);
  }

  lemma UploadsDisturbNothing(actions: seq<Action>, shared: string, agent: string, root: string)
    requires forall a | a in actions :: a.Admit? || a.Write?
    ensures Undisturbed(actions, shared, agent, root)
  {
    forall i | 0 <= i < |actions|
      ensures !DisturbedAt(actions, shared, i, agent, root)
    {
      assert actions[i] in actions;
    }
  }

  /** Neither run has a cleanup or a deletion. */
  lemma RunsAreUndisturbed(agent: string, root: string, shared: string, times: Times, size: nat, threshold: int)
    ensures Undisturbed(LateRun(agent, root, shared, times, size, threshold), shared, agent, root)
    ensures Undisturbed(BackwardRun(agent, root, shared, times, size, threshold), shared, agent, root)
  {
    UploadsDisturbNothing(LateRun(agent, root, shared, times, size, threshold), shared, agent, root);
    UploadsDisturbNothing(BackwardRun(agent, root, shared, times, size, threshold), shared, agent, root);
  }

  // ---- A cleanup with more expired events than fit its batch ----

  /** Names of different lengths. */
  function DirName(i: nat): (name: string)
    ensures |name| == i + 1
  {
    if i == 0 then "." else seq(i + 1, _ => 'd')
  }

  function WideNodes(width: nat, bytes: int): seq<Node> {
    seq(width, i requires 0 <= i < width => Node(DirName(i), bytes))
  }

  /** A complete scan that found so many directories, each with so many bytes. */
  function Wide(agent: string, root: string, at: int, width: nat, bytes: int): Snapshot {
    Snapshot(agent, root, at, 0, true, width, 0, NoReason, WideNodes(width, bytes))
  }

  lemma WideIsValid(width: nat, bytes: nat)
    ensures ValidNodes(WideNodes(width, bytes))
  {
  }

  /** The directories found are the same whatever their sizes, and all have the same size. */
  lemma WideSize(agent: string, root: string, at: int, width: nat, bytes: nat, path: string)
    ensures var s := Wide(agent, root, at, width, bytes);
            && (Names(s, path) <==> exists i | 0 <= i < width :: DirName(i) == path)
            && (Names(s, path) ==> Size(s, path) == bytes)
  {
    var nodes := WideNodes(width, bytes);
    WideIsValid(width, bytes);
    SizeMapKeys(nodes);
    if i :| 0 <= i < width && DirName(i) == path {
      assert nodes[i] in nodes;
      SizeMapAt(nodes, i);
    }
  }

  /** Every directory has grown by the size. */
  lemma WideChange(agent: string, root: string, from: int, to: int, width: nat, size: nat, c: Change)
    requires c in Comparison(Wide(agent, root, from, width, 0), Wide(agent, root, to, width, size))
    ensures c.delta == size
  {
    var a, b := Wide(agent, root, from, width, 0), Wide(agent, root, to, width, size);
    WideIsValid(width, size);
    assert c in multiset(Comparison(a, b));
    EntriesMean(a, b, c);
    WideSize(agent, root, from, width, 0, c.path);
    WideSize(agent, root, to, width, size, c.path);
  }

  /** One alert for each of them. */
  lemma WideGrowth(agent: string, root: string, from: int, to: int, width: nat, size: nat, threshold: int)
    requires from < to && 0 < threshold <= size
    ensures |Growth(Wide(agent, root, from, width, 0), Wide(agent, root, to, width, size), threshold)| >= width
  {
    var a, b := Wide(agent, root, from, width, 0), Wide(agent, root, to, width, size);
    var changes := Comparison(a, b);
    AlertsArePrefix(changes, threshold, from, to);
    assert |changes| == |multiset(changes)| && |multiset(Kept(a, b))| == width;
    var n := |Marked(changes, threshold, from, to)|;
    if n < |changes| {
      WideChange(agent, root, from, to, width, size, changes[n]);
    }
  }

  /** The first snapshot of a device and root is stored, and adds no event. */
  lemma FirstOfRoot(db: Db, snap: Snapshot, threshold: int)
    requires db.deleted == {} && Rows(db.snapshots, snap.agent, snap.root) == {}
    ensures var after := SaveDiskEvents(db, snap, threshold);
            && after.deleted == {} && after.events == db.events
            && after.snapshots == db.snapshots[KeyOf(snap) := snap]
            && Latest(after.snapshots, snap.agent, snap.root) == snap
  {
    assert KeyOf(snap) !in Rows(db.snapshots, snap.agent, snap.root);
    LatestAfterInsert(db.snapshots, snap);
  }

  /** All snapshots have one of two times, and all events, at least so many, are from the one to the other. */
  ghost predicate Filled(db: Db, agent: string, root: string, from: int, to: int, width: nat) {
    && db.deleted == {} && db.snapshots.Keys <= {SnapKey(agent, root, from), SnapKey(agent, root, to)}
    && |db.events.rows| >= width && NoRepeats(db.events.rows)
    && AllSpan(db.events.rows, agent, root, from, to)
  }

  ghost predicate AllSpan(rows: seq<Event>, agent: string, root: string, from: int, to: int) {
    forall e | e in rows :: Of(e, agent, root) && e.from == from && e.to == to
  }

  /** Two wide scans fill the tables. */
  lemma TwoWideScans(agent: string, root: string, from: int, to: int, width: nat, size: nat, threshold: int)
    requires from < to && 0 < threshold <= size
    ensures var one := SaveDiskEvents(EMPTY, Wide(agent, root, from, width, 0), threshold);
            Filled(SaveDiskEvents(one, Wide(agent, root, to, width, size), threshold), agent, root, from, to, width)
  {
    var a, b := Wide(agent, root, from, width, 0), Wide(agent, root, to, width, size);
    FirstOfRoot(EMPTY, a, threshold);
    SecondWideScan(SaveDiskEvents(EMPTY, a, threshold), a, b, threshold);
    WideGrowth(agent, root, from, to, width, size, threshold);
  }

  lemma SecondWideScan(db: Db, a: Snapshot, b: Snapshot, threshold: int)
    requires a.agent == b.agent && a.root == b.root && a.at < b.at && DistinctPaths(b.nodes)
    requires db.deleted == {} && db.events == EventTable([], 0) && db.snapshots.Keys == {KeyOf(a)}
    requires Latest(db.snapshots, a.agent, a.root) == a
    ensures Filled(SaveDiskEvents(db, b, threshold), a.agent, a.root, a.at, b.at, |Growth(a, b, threshold)|)
  {
    var after := SaveDiskEvents(db, b, threshold);
    NewerIsLogged(db, b, threshold);
    SavesGrowth(db, a, b, threshold);
    AddingEvolves(db.events, b.agent, b.root, threshold, Growth(a, b, threshold));
    forall e | e in after.events.rows
      ensures Of(e, a.agent, a.root) && e.from == a.at && e.to == b.at
    {
      EventOrigin(db, b, threshold, e);
    }
  }

  /** More rows than are taken leave one. */
  lemma OneIsLeft(rows: seq<Event>, gone: set<Event>) returns (e: Event)
    requires NoRepeats(rows) && |gone| < |rows|
    ensures e in EventsExcept(rows, gone)
  {
    CountDistinct(rows);
    if Elements(rows) <= gone {
      SubsetSize(Elements(rows), gone);
    }
    e :| e in Elements(rows) && e !in gone;
    EventsExceptMeans(rows, gone, e);
  }

  /** A batch takes both snapshots, and leaves an event. */
  lemma CleanupFallsBehind(db: Db, agent: string, root: string, from: int, to: int, cutoff: int, batch: nat,
                           samples: set<SampleKey>, snapshots: set<SnapKey>, events: set<Event>) returns (e: Event)
    requires Filled(db, agent, root, from, to, batch + 1) && from < to < cutoff && batch >= 2
    requires OldestExpired(SnapStamps(db), cutoff, batch, snapshots)
    requires OldestExpired(EventStamps(db), cutoff, batch, events)
    ensures var after := Remove(db, samples, snapshots, events);
            && Rows(after.snapshots, agent, root) == {} && after.deleted == {}
            && e in after.events.rows && AllSpan(after.events.rows, agent, root, from, to)
  {
    TwoExpired(db, agent, root, from, to, cutoff, batch, snapshots);
    e := OneIsLeft(db.events.rows, events);
    forall f | f in EventsExcept(db.events.rows, events)
      ensures f in db.events.rows
    {
      EventsExceptMeans(db.events.rows, events, f);
    }
  }

  lemma TwoExpired(db: Db, agent: string, root: string, from: int, to: int, cutoff: int, batch: nat,
                   snapshots: set<SnapKey>)
    requires db.snapshots.Keys <= {SnapKey(agent, root, from), SnapKey(agent, root, to)}
    requires from < cutoff && to < cutoff && batch >= 2
    requires OldestExpired(SnapStamps(db), cutoff, batch, snapshots)
    ensures snapshots == db.snapshots.Keys
  {
    var expired := Expired(SnapStamps(db), cutoff);
    SubsetSize(expired, {SnapKey(agent, root, from), SnapKey(agent, root, to)});
    if snapshots != expired {
      var k :| k in expired && k !in snapshots;
      SubsetSize(snapshots, expired - {k});
    }
    assert expired == db.snapshots.Keys;
  }

  /** Two scans after that log one more event. */
  lemma ScansAfterwards(db: Db, agent: string, root: string, from: int, to: int, late: int, last: int, size: nat,
                        threshold: int, e: Event) returns (f: Event)
    requires db.deleted == {} && Rows(db.snapshots, agent, root) == {}
    requires e in db.events.rows && AllSpan(db.events.rows, agent, root, from, to)
    requires late < last && to != last && 0 < threshold <= size
    ensures var one := SaveDiskEvents(db, Scan(agent, root, late, 0), threshold);
            var rows := SaveDiskEvents(one, Scan(agent, root, last, size), threshold).events.rows;
            e in rows && f in rows && Of(f, agent, root) && f.from == late && f.to == last
  {
    var a, b := Scan(agent, root, late, 0), Scan(agent, root, last, size);
    var one := SaveDiskEvents(db, a, threshold);
    FirstOfRoot(db, a, threshold);
    assert KeyOf(b) in db.snapshots ==> KeyOf(b) in Rows(db.snapshots, agent, root);
    ScanGrowth(agent, root, late, 0, last, size, threshold);
    SavesGrowth(one, a, b, threshold);
    AddingOne(one.events, agent, root, threshold, Alert(".", size, late, last));
    f := AddedLast(one.events, agent, root, threshold, Alert(".", size, late, last));
  }

  lemma AddedLast(t: EventTable, agent: string, root: string, threshold: int, a: Alert) returns (f: Event)
    requires !Clashes(t.rows, agent, root, a.path, a.to)
    ensures f in AddEvent(t, agent, root, threshold, a).rows
    ensures Of(f, agent, root) && f.from == a.from && f.to == a.to
    ensures forall e | e in t.rows :: e in AddEvent(t, agent, root, threshold, a).rows
  {
    f := Event(t.lastId + 1, agent, root, a.path, a.delta, threshold, a.from, a.to, None);
  }

  /** Two spans of time that overlap. */
  datatype Crossing = Crossing(from: int, late: int, to: int, last: int)

  /** Two wide scans, in which every directory grows. */
  function WideRun(agent: string, root: string, shared: string, times: Crossing, width: nat, size: nat,
                   threshold: int): seq<Action>
  {
    Upload(Upload([], shared, Wide(agent, root, times.from, width, 0), threshold),
           shared, Wide(agent, root, times.to, width, size), threshold)
  }

  /** Two more scans, one of them late, in which a directory grows. */
  function LaterScans(actions: seq<Action>, agent: string, root: string, shared: string, times: Crossing, size: nat,
                      threshold: int): seq<Action>
  {
    Upload(Upload(actions, shared, Scan(agent, root, times.late, 0), threshold),
           shared, Scan(agent, root, times.last, size), threshold)
  }

  lemma WideRunFills(agent: string, root: string, shared: string, times: Crossing, width: nat, size: nat,
                     threshold: int)
    requires shared != "" && times.from < times.to && 0 < threshold <= size
    ensures var s := After(WideRun(agent, root, shared, times, width, size, threshold), shared);
            NoDevices(s) && Filled(s.db, agent, root, times.from, times.to, width)
  {
    var a, b := Wide(agent, root, times.from, width, 0), Wide(agent, root, times.to, width, size);
    WideIsValid(width, 0);
    WideIsValid(width, size);
    UploadWrites([], shared, a, threshold);
    UploadWrites(Upload([], shared, a, threshold), shared, b, threshold);
    TwoWideScans(agent, root, times.from, times.to, width, size, threshold);
  }

  lemma CleanupStep(actions: seq<Action>, shared: string, samples: set<SampleKey>, snapshots: set<SnapKey>,
                    events: set<Event>)
    requires NoDevices(After(actions, shared))
    ensures var s := After(actions + [Cleanup(samples, snapshots, events)], shared);
            NoDevices(s) && s.db == Remove(After(actions, shared).db, samples, snapshots, events)
  {
    AfterMore(actions, Cleanup(samples, snapshots, events), shared);
  }

  /**
    Whatever the batch, from 2 on: a run with one more expired event than fits, in which the oldest expired rows go as
    the cleanup chooses them, and two intervals overlap in the log afterwards.
   */
  lemma OverrunOverlaps(agent: string, root: string, shared: string, times: Crossing, size: nat, threshold: int,
                        cutoff: int, batch: nat, samples: set<SampleKey>, snapshots: set<SnapKey>, events: set<Event>)
    returns (e: Event, f: Event)
    requires shared != "" && times.from < times.late < times.to < times.last && 0 < threshold <= size
    requires times.to < cutoff && batch >= 2
    requires var db := After(WideRun(agent, root, shared, times, batch + 1, size, threshold), shared).db;
             && OldestExpired(SnapStamps(db), cutoff, batch, snapshots)
             && OldestExpired(EventStamps(db), cutoff, batch, events)
    ensures var actions := WideRun(agent, root, shared, times, batch + 1, size, threshold) +
                           [Cleanup(samples, snapshots, events)];
            var rows := After(LaterScans(actions, agent, root, shared, times, size, threshold), shared).db.events.rows;
            e in rows && f in rows && Of(e, agent, root) && Of(f, agent, root) && !Apart(e.from, e.to, f.from, f.to)
  {
    var actions := WideRun(agent, root, shared, times, batch + 1, size, threshold);
    var cleaned := actions + [Cleanup(samples, snapshots, events)];
    WideRunFills(agent, root, shared, times, batch + 1, size, threshold);
    CleanupStep(actions, shared, samples, snapshots, events);
    e := CleanupFallsBehind(After(actions, shared).db, agent, root, times.from, times.to, cutoff, batch,
                            samples, snapshots, events);
    ScanUpload(cleaned, shared, agent, root, times.late, 0, threshold);
    ScanUpload(Upload(cleaned, shared, Scan(agent, root, times.late, 0), threshold), shared, agent, root, times.last,
               size, threshold);
    f := ScansAfterwards(After(cleaned, shared).db, agent, root, times.from, times.to, times.late, times.last, size,
                         threshold, e);
  }
}
