/** The hub's store and the handlers that write it, statement by statement (internal/hub). */
module SqliteStore {
  import opened Snapshots
  import opened DiskCompare
  import opened HubDb

  datatype Status = Success | Accepted | Created | BadRequest | Unauthorized | NotFound | Conflict | ServerError

  datatype Table = MetricSamples | DiskSnapshots | DiskEvents | Enrollments | Servers

  datatype CleanupResult = CleanupResult(events: int, metrics: int, snapshots: int)

  /** What the upload handler demands of a snapshot's nodes. */
  ghost predicate ValidNodes(nodes: seq<Node>) {
    (forall n | n in nodes :: n.bytes >= 0 && n.path != "") && DistinctPaths(nodes)
  }

  /** Node by node: no negative size, no empty path, no path that came before. */
  lemma ValidNodesMeans(nodes: seq<Node>)
    ensures ValidNodes(nodes) <==>
            forall i | 0 <= i < |nodes| ::
              nodes[i].bytes >= 0 && nodes[i].path != "" && forall j | 0 <= j < i :: nodes[j].path != nodes[i].path
  {
    if ValidNodes(nodes) {
      forall i, j | 0 <= j < i < |nodes|
        ensures nodes[j].path != nodes[i].path
      {
        assert nodePath(nodes[j]) != nodePath(nodes[i]);
      }
    }
  }

  /** The newest row is found by its time alone. */
  lemma NewestIs(keys: set<SnapKey>, agent: string, root: string, best: SnapKey)
    requires best in keys && forall k | k in keys :: k.agent == agent && k.root == root && k.at <= best.at
    ensures Newest(keys) == best
  {
  }

  lemma LatestIsStored(snapshots: map<SnapKey, Snapshot>, agent: string, root: string)
    requires Rows(snapshots, agent, root) != {}
    ensures exists k :: k in snapshots && snapshots[k] == Latest(snapshots, agent, root)
  {
    assert Newest(Rows(snapshots, agent, root)) in snapshots;
  }

  /** `SELECT snapshot_json ... WHERE agent_id=? AND root=? ORDER BY at_ns DESC LIMIT 1`. */
  method QueryLatest(snapshots: map<SnapKey, Snapshot>, agent: string, root: string) returns (latest: Snapshot)
    ensures latest == Latest(snapshots, agent, root)
  {
    latest := ZERO_SNAPSHOT;
    var rows := Rows(snapshots, agent, root);
    if rows == {} {
      return;
    }
    var best := QueryNewest(rows, agent, root);
    latest := snapshots[best];
  }

  /** At least two snapshots of the device and root are stored. */
  predicate HasTwo(snapshots: map<SnapKey, Snapshot>, agent: string, root: string) {
    var rows := Rows(snapshots, agent, root);
    rows != {} && exists k | k in rows :: exists l | l in rows :: k != l
  }

  /** The newest stored snapshot of the device and root but one. */
  ghost function SecondNewest(snapshots: map<SnapKey, Snapshot>, agent: string, root: string): Snapshot
    requires HasTwo(snapshots, agent, root)
  {
    var rows := Rows(snapshots, agent, root);
    TwoRows(snapshots, agent, root);
    snapshots[Newest(rows - {Newest(rows)})]
  }

  lemma TwoRows(snapshots: map<SnapKey, Snapshot>, agent: string, root: string)
    requires HasTwo(snapshots, agent, root)
    ensures var rows := Rows(snapshots, agent, root);
            rows != {} && rows - {Newest(rows)} != {}
  {
    var rows := Rows(snapshots, agent, root);
    var k :| k in rows && exists l | l in rows :: k != l;
    var l :| l in rows && k != l;
    assert k in rows - {Newest(rows)} || l in rows - {Newest(rows)};
  }

  /** The newest row and the newest of the others. */
  lemma SecondIsStored(snapshots: map<SnapKey, Snapshot>, agent: string, root: string)
    requires HasTwo(snapshots, agent, root)
    ensures var rows := Rows(snapshots, agent, root);
            && rows != {} && rows - {Newest(rows)} != {}
            && Newest(rows) in rows && Latest(snapshots, agent, root) == snapshots[Newest(rows)]
            && Newest(rows - {Newest(rows)}) in rows
            && SecondNewest(snapshots, agent, root) == snapshots[Newest(rows - {Newest(rows)})]
  {
    TwoRows(snapshots, agent, root);
  }

  /** The growth alerts of the disk page: between the two newest snapshots, once there are two. */
  ghost function PageAlerts(snapshots: map<SnapKey, Snapshot>, agent: string, root: string,
                            threshold: int): seq<Alert> {
    if HasTwo(snapshots, agent, root)
    then Growth(SecondNewest(snapshots, agent, root), Latest(snapshots, agent, root), threshold)
    else []
  }

  /** No snapshot of the device, of whatever root, is newer than one of this root. */
  ghost predicate ScannedLast(snapshots: map<SnapKey, Snapshot>, agent: string, root: string) {
    exists newest | newest in Rows(snapshots, agent, root) ::
      forall k | k in snapshots && k.agent == agent :: k.at <= newest.at
  }

  /** The key of the newest row, among rows of one device and root. */
  method QueryNewest(rows: set<SnapKey>, ghost agent: string, ghost root: string) returns (best: SnapKey)
    requires rows != {} && forall k | k in rows :: k.agent == agent && k.root == root
    ensures best == Newest(rows)
  {
    best :| best in rows;
    var left := rows - {best};
    while left != {}
      invariant left <= rows && best in rows - left
      invariant forall k | k in rows - left :: k.at <= best.at
      decreases left
    {
      var k :| k in left;
      if k.at > best.at {
        best := k;
      }
      left := left - {k};
    }
    NewestIs(rows, agent, root, best);
  }

  /** Picks the oldest expired rows, one after the other. */
  method SelectOldest<K(!new)>(stamps: map<K, int>, cutoff: int, batch: nat) returns (chosen: set<K>)
    ensures OldestExpired(stamps, cutoff, batch, chosen)
  {
    chosen := {};
    var expired := Expired(stamps, cutoff);
    var left := expired;
    while left != {} && |chosen| < batch
      invariant left == expired - chosen && chosen <= expired && |chosen| <= batch
      invariant forall c, k | c in chosen && k in left :: stamps[c] <= stamps[k]
      decreases left
    {
      var k := Oldest(stamps, left);
      chosen := chosen + {k};
      left := left - {k};
    }
  }

  method Oldest<K(!new)>(stamps: map<K, int>, keys: set<K>) returns (oldest: K)
    requires keys != {} && keys <= stamps.Keys
    ensures oldest in keys && forall k | k in keys :: stamps[oldest] <= stamps[k]
  {
    oldest :| oldest in keys;
    var left := keys - {oldest};
    while left != {}
      invariant left <= keys && oldest in keys - left
      invariant forall k | k in keys - left :: stamps[oldest] <= stamps[k]
      decreases left
    {
      var k :| k in left;
      if stamps[k] < stamps[oldest] {
        oldest := k;
      }
      left := left - {k};
    }
  }

  /** The rows a table holds for a device. */
  function RowCount(db: Db, table: Table, id: string): int {
    match table
    case MetricSamples => |set k | k in db.samples && k.agent == id|
    case DiskSnapshots => |set k | k in db.snapshots && k.agent == id|
    case DiskEvents => |db.events.rows| - |EventsWithout(db.events.rows, id)|
    case Enrollments => if id in db.enrollments then 1 else 0
    case Servers => if id in db.servers then 1 else 0
  }

  /** Two parts that make up a set. */
  lemma TwoParts<K>(all: set<K>, part: set<K>, rest: set<K>)
    requires part !! rest && all == part + rest
    ensures |part| == |all| - |rest|
  {
  }

  lemma SamplesGone(samples: map<SampleKey, Metrics>, id: string)
    ensures |set k | k in samples && k.agent == id| == |samples| - |SamplesWithout(samples, id)|
  {
    TwoParts(samples.Keys, (set k | k in samples && k.agent == id), SamplesWithout(samples, id).Keys);
  }

  lemma SnapshotsGone(snapshots: map<SnapKey, Snapshot>, id: string)
    ensures |set k | k in snapshots && k.agent == id| == |snapshots| - |SnapshotsWithout(snapshots, id)|
  {
    TwoParts(snapshots.Keys, (set k | k in snapshots && k.agent == id), SnapshotsWithout(snapshots, id).Keys);
  }

  lemma EntryGone<V>(entries: map<string, V>, id: string)
    ensures (if id in entries then 1 else 0) == |entries| - |entries - {id}|
  {
    TwoParts(entries.Keys, if id in entries then {id} else {}, (entries - {id}).Keys);
  }

  /** What a deletion counts is what each table of the history lost. */
  lemma DeletionCounts(db: Db, id: string)
    requires CanDelete(db, id)
    ensures var after := Delete(db, id);
            && RowCount(db, MetricSamples, id) == |db.samples| - |after.samples|
            && RowCount(db, DiskSnapshots, id) == |db.snapshots| - |after.snapshots|
            && RowCount(db, DiskEvents, id) == |db.events.rows| - |after.events.rows|
  {
    SamplesGone(db.samples, id);
    SnapshotsGone(db.snapshots, id);
  }

  /** Likewise for the code and the server entry. */
  lemma DeletionCountsEntries(db: Db, id: string)
    requires CanDelete(db, id)
    ensures RowCount(db, Enrollments, id) == |db.enrollments| - |Delete(db, id).enrollments|
    ensures RowCount(db, Servers, id) == |db.servers| - |Delete(db, id).servers|
  {
    EntryGone(db.enrollments, id);
    EntryGone(db.servers, id);
  }

  const TABLES: seq<Table> := [MetricSamples, DiskSnapshots, DiskEvents, Enrollments, Servers]

  /** The row of the device, or the shared token as long as there is none, speaks for it. */
  predicate Speaks(db: Db, shared: string, bearer: Option<string>, id: string) {
    && bearer.Some?
    && if id in db.devices then db.devices[id].token == Sha256(bearer.value) && !db.devices[id].revoked
       else shared != "" && bearer.value == shared
  }

  /** For a device, its row alone decides. */
  lemma RowDecides(db: Db, shared: string, bearer: Option<string>, id: string)
    requires id != ""
    ensures AuthorizedFor(db, shared, bearer, id) <==> Speaks(db, shared, bearer, id)
  {
  }

  /** Who is authorised for a device is authorised. */
  lemma OwnImpliesAny(db: Db, shared: string, bearer: Option<string>, id: string)
    requires AuthorizedFor(db, shared, bearer, id)
    ensures AuthorizedFor(db, shared, bearer, "")
  {
  }

  class SQLiteStore {
    var db: Db

    constructor ()
      ensures db == EMPTY
    {
      db := EMPTY;
    }

    /** Issues a one-time code; another code for the same device replaces it. */
    method IssueEnrollment(id: string, code: string, now: int) returns (status: Status)
      modifies this
      ensures db == Enrol(old(db), id, code, now)
      ensures status == Created <==> CanEnrol(old(db), id, code)
    {
      if CodeTaken(db.enrollments, id, Sha256(code)) {
        return ServerError;
      }
      db := db.(enrollments := db.enrollments[id := Enrollment(Sha256(code), now + ENROLLMENT_LIFE)]);
      status := Created;
    }

    /** Redeems a code for a device credential, and lifts the tombstone. */
    method RegisterDevice(id: string, code: string, token: string, now: int) returns (status: Status)
      modifies this
      ensures db == Register(old(db), id, code, token, now)
      ensures status == Created <==> CanRegister(old(db), id, code, token, now)
    {
      if |code| != CODE_LENGTH {
        return BadRequest;
      }
      var tx := db;
      var affected := 0;
      if id in tx.enrollments && tx.enrollments[id].code == Sha256(code) && tx.enrollments[id].expires > now {
        tx := tx.(enrollments := tx.enrollments - {id});
        affected := 1;
      }
      if affected != 1 {
        return Unauthorized;
      }
      if TokenTaken(tx.devices, id, Sha256(token)) {
        return ServerError;
      }
      tx := tx.(devices := tx.devices[id := Device(Sha256(token), false)]);
      tx := tx.(deleted := tx.deleted - {id});
      db := tx;
      status := Created;
    }

    /** Revokes a device's credential and any code waiting for it. */
    method RevokeDevice(id: string) returns (status: Status)
      modifies this
      ensures db == Revoke(old(db), id)
      ensures status == Success <==> id in old(db).devices
    {
      var tx := db;
      if id !in tx.devices {
        return NotFound;
      }
      tx := tx.(devices := tx.devices[id := tx.devices[id].(revoked := true)]);
      tx := tx.(enrollments := tx.enrollments - {id});
      db := tx;
      status := Success;
    }

    /** Deletes a revoked device's history behind a tombstone, and reports the rows removed from each table. */
    method DeleteDevice(id: string, confirm: string) returns (status: Status, counts: map<Table, int>)
      modifies this
      ensures db == if confirm == id then Delete(old(db), id) else old(db)
      ensures status == Success <==> confirm == id && CanDelete(old(db), id)
      ensures status == BadRequest <==> confirm != id
      ensures status == NotFound <==> confirm == id && (id !in old(db).devices || id in old(db).deleted)
      ensures status == Success ==> forall t: Table :: t in counts && counts[t] == RowCount(old(db), t, id)
    {
      counts := map[];
      if confirm != id {
        status := BadRequest;
        return;
      }
      var tx := db;
      if id !in tx.devices || id in tx.deleted {
        status := NotFound;
        return;
      }
      if !tx.devices[id].revoked {
        status := Conflict;
        return;
      }
      tx := tx.(deleted := tx.deleted + {id});
      for i := 0 to |TABLES|
        invariant tx.devices == db.devices && tx.deleted == db.deleted + {id}
        invariant tx.samples == if i > 0 then SamplesWithout(db.samples, id) else db.samples
        invariant tx.snapshots == if i > 1 then SnapshotsWithout(db.snapshots, id) else db.snapshots
        invariant tx.events == if i > 2 then db.events.(rows := EventsWithout(db.events.rows, id)) else db.events
        invariant tx.enrollments == if i > 3 then db.enrollments - {id} else db.enrollments
        invariant tx.servers == if i > 4 then db.servers - {id} else db.servers
        invariant forall j | 0 <= j < i :: TABLES[j] in counts && counts[TABLES[j]] == RowCount(db, TABLES[j], id)
      {
        counts := counts[TABLES[i] := RowCount(tx, TABLES[i], id)];
        match TABLES[i] {
          case MetricSamples => tx := tx.(samples := SamplesWithout(tx.samples, id));
          case DiskSnapshots => tx := tx.(snapshots := SnapshotsWithout(tx.snapshots, id));
          case DiskEvents => tx := tx.(events := tx.events.(rows := EventsWithout(tx.events.rows, id)));
          case Enrollments => tx := tx.(enrollments := tx.enrollments - {id});
          case Servers => tx := tx.(servers := tx.servers - {id});
        }
      }
      forall t: Table
        ensures t in counts && counts[t] == RowCount(db, t, id)
      {
        var j := match t
          case MetricSamples => 0
          case DiskSnapshots => 1
          case DiskEvents => 2
          case Enrollments => 3
          case Servers => 4;
        assert TABLES[j] == t;
      }
      db := tx;
      status := Success;
    }

    /** Writes a heartbeat that has been authorised, unless the device has been deleted since. */
    method UpsertHeartbeat(agent: string, at: int, metrics: Metrics, now: int) returns (status: Status)
      modifies this
      ensures db == Upsert(old(db), agent, at, metrics, now)
      ensures status == Accepted <==> agent !in old(db).deleted
    {
      var tx := db;
      if agent in tx.deleted {
        return ServerError;
      }
      tx := tx.(servers := tx.servers[agent := now]);
      tx := tx.(samples := tx.samples[SampleKey(agent, at) := metrics]);
      db := tx;
      status := Accepted;
    }

    /** Stores a snapshot and the events it gives rise to in one transaction. */
    method SaveSnapshot(snap: Snapshot, threshold: int) returns (status: Status)
      requires DistinctPaths(snap.nodes)
      modifies this
      ensures db == SaveDiskEvents(old(db), snap, threshold)
      ensures status == if snap.agent in old(db).deleted then ServerError else Accepted
    {
      var tx := db;
      if snap.agent in tx.deleted {
        return ServerError;
      }
      var previous := QueryLatest(tx.snapshots, snap.agent, snap.root);
      var inserted := KeyOf(snap) !in tx.snapshots;
      if inserted {
        tx := tx.(snapshots := tx.snapshots[KeyOf(snap) := snap]);
      }
      if inserted && snap.at > previous.at {
        var alerts := GrowthAlerts(previous, snap, threshold);
        var table := tx.events;
        for i := 0 to |alerts|
          invariant table == AddEvents(db.events, snap.agent, snap.root, threshold, alerts[..i])
        {
          assert alerts[..i + 1][..i] == alerts[..i];
          table := AddEvent(table, snap.agent, snap.root, threshold, alerts[i]);
        }
        assert alerts[..|alerts|] == alerts;
        tx := tx.(events := table);
      }
      db := tx;
      status := Accepted;
    }

    /** The checks of the upload handler, without and with the device, then the write. */
    method UploadSnapshot(snap: Snapshot, threshold: int, shared: string,
                          bearer: Option<string>) returns (status: Status)
      modifies this
      ensures status == Accepted <==>
                (AuthorizedFor(old(db), shared, bearer, snap.agent) && ValidNodes(snap.nodes)
                 && snap.agent !in old(db).deleted)
      ensures snap.agent != "" ==> (status == Unauthorized <==> !Speaks(old(db), shared, bearer, snap.agent))
      ensures db == if status == Accepted then SaveDiskEvents(old(db), snap, threshold) else old(db)
    {
      if snap.agent != "" {
        RowDecides(db, shared, bearer, snap.agent);
      }
      if AuthorizedFor(db, shared, bearer, snap.agent) {
        OwnImpliesAny(db, shared, bearer, snap.agent);
      }
      if !AuthorizedFor(db, shared, bearer, "") || !AuthorizedFor(db, shared, bearer, snap.agent) {
        return Unauthorized;
      }
      var seen: set<string> := {};
      for i := 0 to |snap.nodes|
        invariant seen == Paths(snap.nodes[..i])
        invariant ValidNodes(snap.nodes[..i])
      {
        var n := snap.nodes[i];
        assert snap.nodes[..i + 1] == snap.nodes[..i] + [n];
        if n.bytes < 0 || n.path == "" || n.path in seen {
          return BadRequest;
        }
        seen := seen + {n.path};
      }
      assert snap.nodes[..|snap.nodes|] == snap.nodes;
      status := SaveSnapshot(snap, threshold);
    }

    /** The two newest snapshots of the root scanned last. */
    method DiskSnapshots(id: string) returns (out: seq<Snapshot>, ghost root: string)
      ensures out == [] <==> forall k | k in db.snapshots :: k.agent != id
      ensures out != [] ==> ScannedLast(db.snapshots, id, root) && out[0] == Latest(db.snapshots, id, root)
      ensures |out| <= 2 && (|out| == 2 <==> HasTwo(db.snapshots, id, root))
      ensures |out| == 2 ==> out[1] == SecondNewest(db.snapshots, id, root)
    {
      out, root := [], "";
      var keys := set k | k in db.snapshots && k.agent == id;
      assert forall k | k in db.snapshots && k.agent == id :: k in keys;
      if keys == {} {
        return;
      }
      var newest :| newest in keys;
      var left := keys - {newest};
      while left != {}
        invariant left <= keys && newest in keys - left
        invariant forall k | k in keys - left :: k.at <= newest.at
        decreases left
      {
        var k :| k in left;
        if k.at > newest.at {
          newest := k;
        }
        left := left - {k};
      }
      root := newest.root;
      var rows := Rows(db.snapshots, id, newest.root);
      assert newest in rows;
      var first := QueryNewest(rows, id, newest.root);
      out := [db.snapshots[first]];
      var rest := rows - {first};
      if rest != {} {
        var second := QueryNewest(rest, id, newest.root);
        assert first in rows && second in rows && first != second;
        out := out + [db.snapshots[second]];
      }
    }

    /** What the disk page shows: the two newest snapshots, their comparison and the growth alerts between them. */
    method ShowDisk(id: string, threshold: int)
      returns (snapshots: seq<Snapshot>, changes: seq<Change>, comparable: bool, alerts: seq<Alert>, ghost root: string)
      requires forall k | k in db.snapshots :: DistinctPaths(db.snapshots[k].nodes)
      ensures snapshots == [] <==> forall k | k in db.snapshots :: k.agent != id
      ensures snapshots != [] ==>
                ScannedLast(db.snapshots, id, root) && snapshots[0] == Latest(db.snapshots, id, root)
      ensures |snapshots| <= 2 && (|snapshots| == 2 <==> HasTwo(db.snapshots, id, root))
      ensures |snapshots| == 2 ==> snapshots[1] == SecondNewest(db.snapshots, id, root)
      ensures comparable <==> |snapshots| == 2 && Comparable(snapshots[1], snapshots[0])
      ensures changes == if comparable then Comparison(snapshots[1], snapshots[0]) else []
      ensures alerts == PageAlerts(db.snapshots, id, root, threshold)
    {
      changes, comparable, alerts := [], false, [];
      snapshots, root := DiskSnapshots(id);
      if |snapshots| == 2 {
        LatestIsStored(db.snapshots, id, root);
        changes, comparable := Compare(snapshots[1], snapshots[0]);
        if comparable {
          CompareIsDetermined(snapshots[1], snapshots[0], changes);
        }
        alerts := GrowthAlerts(snapshots[1], snapshots[0], threshold);
      }
    }

    /** One bounded cleanup transaction over the three history tables. */
    method CleanupBatch(now: int, retention: int, batch: int)
      returns (result: CleanupResult, ok: bool,
               ghost samples: set<SampleKey>, ghost snapshots: set<SnapKey>, ghost events: set<Event>)
      modifies this
      ensures ok <==> retention > 0 && 1 <= batch <= 10000
      ensures !ok ==> db == old(db) && result == CleanupResult(0, 0, 0)
      ensures ok ==> db == Remove(old(db), samples, snapshots, events)
      ensures ok ==> OldestExpired(SampleStamps(old(db)), now - retention, batch, samples)
      ensures ok ==> OldestExpired(SnapStamps(old(db)), now - retention, batch, snapshots)
      ensures ok ==> OldestExpired(EventStamps(old(db)), now - retention, batch, events)
      ensures ok ==> result == CleanupResult(|events|, |samples|, |snapshots|)
    {
      result := CleanupResult(0, 0, 0);
      samples, snapshots, events := {}, {}, {};
      if retention <= 0 || batch < 1 || batch > 10000 {
        ok := false;
        return;
      }
      var cutoff := now - retention;
      var tx := db;
      var oldSamples := SelectOldest(SampleStamps(tx), cutoff, batch);
      tx := tx.(samples := tx.samples - oldSamples);
      var oldSnapshots := SelectOldest(SnapStamps(tx), cutoff, batch);
      tx := tx.(snapshots := tx.snapshots - oldSnapshots);
      var oldEvents := SelectOldest(EventStamps(tx), cutoff, batch);
      tx := tx.(events := tx.events.(rows := EventsExcept(tx.events.rows, oldEvents)));
      result := CleanupResult(|oldEvents|, |oldSamples|, |oldSnapshots|);
      samples, snapshots, events := oldSamples, oldSnapshots, oldEvents;
      db := tx;
      ok := true;
    }
  }
}
