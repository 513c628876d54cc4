/**
  The hub's tables and what each of its transactions does to them (internal/hub/sqlite_store.go, devices.go,
  device_delete.go, events.go, retention.go). Tables are maps from their primary keys; a transaction that reports
  an error leaves them unchanged. Times are nanoseconds.
 */
module HubDb {
  import opened Snapshots
  import opened DiskCompare

  datatype Option<T> = None | Some(value: T)

  /** SHA-256, taken to be injective: a digest determines the text it was made from. */
  datatype Digest = Sha256(text: string)

  datatype Device = Device(token: Digest, revoked: bool)

  datatype Enrollment = Enrollment(code: Digest, expires: int)

  datatype SampleKey = SampleKey(agent: string, at: int)

  datatype SnapKey = SnapKey(agent: string, root: string, at: int)

  /** Any text but the word for an unavailable network. */
  type OtherText = text: string | text != "unavailable" witness ""

  /** The reported network scope: the word "unavailable", or any other text. */
  datatype ScopeName = Unavailable | Named(text: OtherText)

  /** The part of a heartbeat's metrics that the hub works on. */
  datatype Metrics = Metrics(cpuPercent: real, memoryUsed: int, memoryTotal: int, diskUsed: int, diskTotal: int,
                             scope: ScopeName, interfaces: seq<string>, missing: seq<string>, rateUnavailable: bool,
                             received: real, sent: real)

  datatype Event = Event(id: nat, agent: string, root: string, path: string, delta: int, threshold: int,
                         from: int, to: int, ack: Option<int>)

  /** disk_events: rows by ascending id, and the highest id ever given (AUTOINCREMENT). */
  datatype EventTable = EventTable(rows: seq<Event>, lastId: nat)

  datatype Db = Db(
    devices: map<string, Device>,
    enrollments: map<string, Enrollment>,
    deleted: set<string>,
    servers: map<string, int>,
    samples: map<SampleKey, Metrics>,
    snapshots: map<SnapKey, Snapshot>,
    events: EventTable)

  const EMPTY := Db(map[], map[], {}, map[], map[], map[], EventTable([], 0))

  const ENROLLMENT_LIFE: int := 10 * 60 * 1_000_000_000
  const CODE_LENGTH: nat := 64

  // ---- Credentials ----

  /** UNIQUE(code_hash): another device waits with this code. */
  predicate CodeTaken(enrollments: map<string, Enrollment>, id: string, code: Digest) {
    exists other | other in enrollments :: other != id && enrollments[other].code == code
  }

  /** UNIQUE(token_hash): another device has this token. */
  predicate TokenTaken(devices: map<string, Device>, id: string, token: Digest) {
    exists other | other in devices :: other != id && devices[other].token == token
  }

  predicate CanEnrol(db: Db, id: string, code: string) {
    !CodeTaken(db.enrollments, id, Sha256(code))
  }

  function Enrol(db: Db, id: string, code: string, now: int): Db {
    if CanEnrol(db, id, code)
    then db.(enrollments := db.enrollments[id := Enrollment(Sha256(code), now + ENROLLMENT_LIFE)])
    else db
  }

  predicate CanRegister(db: Db, id: string, code: string, token: string, now: int) {
    && |code| == CODE_LENGTH
    && id in db.enrollments && db.enrollments[id].code == Sha256(code) && db.enrollments[id].expires > now
    && !TokenTaken(db.devices, id, Sha256(token))
  }

  function Register(db: Db, id: string, code: string, token: string, now: int): Db {
    if CanRegister(db, id, code, token, now)
    then db.(enrollments := db.enrollments - {id},
             devices := db.devices[id := Device(Sha256(token), false)],
             deleted := db.deleted - {id})
    else db
  }

  function Revoke(db: Db, id: string): Db {
    if id in db.devices
    then db.(devices := db.devices[id := db.devices[id].(revoked := true)], enrollments := db.enrollments - {id})
    else db
  }

  predicate CanDelete(db: Db, id: string) {
    id in db.devices && id !in db.deleted && db.devices[id].revoked
  }

  function SamplesWithout(samples: map<SampleKey, Metrics>, id: string): map<SampleKey, Metrics> {
    map k | k in samples && k.agent != id :: samples[k]
  }

  function SnapshotsWithout(snapshots: map<SnapKey, Snapshot>, id: string): map<SnapKey, Snapshot> {
    map k | k in snapshots && k.agent != id :: snapshots[k]
  }

  function EventsWithout(rows: seq<Event>, id: string): seq<Event> {
    if |rows| == 0 then []
    else EventsWithout(rows[..|rows| - 1], id) +
         if rows[|rows| - 1].agent != id then [rows[|rows| - 1]] else []
  }

  function Delete(db: Db, id: string): Db {
    if CanDelete(db, id)
    then db.(deleted := db.deleted + {id},
             samples := SamplesWithout(db.samples, id),
             snapshots := SnapshotsWithout(db.snapshots, id),
             events := db.events.(rows := EventsWithout(db.events.rows, id)),
             enrollments := db.enrollments - {id},
             servers := db.servers - {id})
    else db
  }

  /**
    Whether a bearer token may act for a device: its own unrevoked credential, or the shared token as long as the
    device has no row of its own. `id` is empty where a request is checked before its device is known.
   */
  predicate AuthorizedFor(db: Db, shared: string, bearer: Option<string>, id: string) {
    bearer.Some? &&
    var token := bearer.value;
    if exists d | d in db.devices :: db.devices[d] == Device(Sha256(token), false) && (id != "" ==> d == id) then true
    else if id != "" && id in db.devices then false
    else shared != "" && token == shared
  }

  // ---- Ingestion ----

  function Upsert(db: Db, agent: string, at: int, metrics: Metrics, now: int): Db {
    if agent in db.deleted then db
    else db.(servers := db.servers[agent := now], samples := db.samples[SampleKey(agent, at) := metrics])
  }

  /** The keys of a device's snapshots of one root. */
  function Rows(snapshots: map<SnapKey, Snapshot>, agent: string, root: string): set<SnapKey> {
    set k | k in snapshots && k.agent == agent && k.root == root
  }

  ghost predicate IsNewest(keys: set<SnapKey>, newest: SnapKey) {
    newest in keys && forall k | k in keys :: k.at <= newest.at
  }

  lemma {:induction false} NewestExists(keys: set<SnapKey>)
    requires keys != {}
    ensures exists newest :: IsNewest(keys, newest)
  {
    var k :| k in keys;
    if keys == {k} {
      assert IsNewest(keys, k);
    } else {
      var rest := keys - {k};
      assert keys == rest + {k};
      NewestExists(rest);
      var newest :| IsNewest(rest, newest);
      assert IsNewest(keys, if k.at > newest.at then k else newest);
    }
  }

  /** The key with the latest time, among keys of one device and root. */
  ghost function Newest(keys: set<SnapKey>): (newest: SnapKey)
    requires keys != {}
    ensures newest in keys && forall k | k in keys :: k.at <= newest.at
  {
    NewestExists(keys);
    var newest :| IsNewest(keys, newest);
    newest
  }

  /** What a query leaves in the destination when there is no row. */
  const ZERO_SNAPSHOT := Snapshot("", "", -62135596800 * 1_000_000_000, 0, false, 0, 0, NoReason, [])

  /** The newest stored snapshot of a device and root. */
  ghost function Latest(snapshots: map<SnapKey, Snapshot>, agent: string, root: string): Snapshot {
    if Rows(snapshots, agent, root) == {} then ZERO_SNAPSHOT
    else snapshots[Newest(Rows(snapshots, agent, root))]
  }

  /** UNIQUE(agent_id, root, path, to_ns). */
  predicate Clashes(rows: seq<Event>, agent: string, root: string, path: string, to: int) {
    exists e | e in rows :: e.agent == agent && e.root == root && e.path == path && e.to == to
  }

  /** INSERT ... ON CONFLICT DO NOTHING for one alert. */
  function AddEvent(t: EventTable, agent: string, root: string, threshold: int, a: Alert): EventTable {
    if Clashes(t.rows, agent, root, a.path, a.to) then t
    else EventTable(t.rows + [Event(t.lastId + 1, agent, root, a.path, a.delta, threshold, a.from, a.to, None)],
                    t.lastId + 1)
  }

  function AddEvents(t: EventTable, agent: string, root: string, threshold: int, alerts: seq<Alert>): EventTable {
    if |alerts| == 0 then t
    else AddEvent(AddEvents(t, agent, root, threshold, alerts[..|alerts| - 1]), agent, root, threshold,
                  alerts[|alerts| - 1])
  }

  function KeyOf(snap: Snapshot): SnapKey {
    SnapKey(snap.agent, snap.root, snap.at)
  }

  /** Whether an upload adds a row: not for a deleted device, not for a time already stored. */
  predicate Lands(db: Db, snap: Snapshot) {
    snap.agent !in db.deleted && KeyOf(snap) !in db.snapshots
  }

  ghost function SaveDiskEvents(db: Db, snap: Snapshot, threshold: int): Db {
    if !Lands(db, snap) then db
    else
      var previous := Latest(db.snapshots, snap.agent, snap.root);
      db.(snapshots := db.snapshots[KeyOf(snap) := snap],
          events := if snap.at > previous.at
                    then AddEvents(db.events, snap.agent, snap.root, threshold, Growth(previous, snap, threshold))
                    else db.events)
  }

  // ---- Retention ----

  function EventsExcept(rows: seq<Event>, gone: set<Event>): seq<Event> {
    if |rows| == 0 then []
    else EventsExcept(rows[..|rows| - 1], gone) +
         if rows[|rows| - 1] !in gone then [rows[|rows| - 1]] else []
  }

  /** One cleanup transaction that removes the given rows. */
  function Remove(db: Db, samples: set<SampleKey>, snapshots: set<SnapKey>, events: set<Event>): Db {
    db.(samples := db.samples - samples,
        snapshots := db.snapshots - snapshots,
        events := db.events.(rows := EventsExcept(db.events.rows, events)))
  }

  /** The rows older than a cutoff, by a table's time column. */
  function Expired<K>(stamps: map<K, int>, cutoff: int): set<K> {
    set k | k in stamps && stamps[k] < cutoff
  }

  /** `WHERE time < cutoff ORDER BY time LIMIT batch`: some oldest expired rows, up to the limit. */
  ghost predicate OldestExpired<K(!new)>(stamps: map<K, int>, cutoff: int, batch: nat, chosen: set<K>) {
    var expired := Expired(stamps, cutoff);
    && chosen <= expired
    && (|chosen| == batch || chosen == expired) && |chosen| <= batch
    && forall c, k | c in chosen && k in expired - chosen :: stamps[c] <= stamps[k]
  }

  function SampleStamps(db: Db): map<SampleKey, int> {
    map k | k in db.samples :: k.at
  }

  function SnapStamps(db: Db): map<SnapKey, int> {
    map k | k in db.snapshots :: k.at
  }

  function EventStamps(db: Db): map<Event, int> {
    map e | e in db.events.rows :: e.to
  }
}
