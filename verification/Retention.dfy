/** The batched retention sweep against a one-shot "drop everything older" (internal/hub/retention.go). */
module Retention {
  import opened Snapshots
  import opened DiskCompare
  import opened HubDb
  import opened SqliteStore
  import opened HubRuns

  const BATCH: nat := 1000

  /** A write that reaches the store between two batches. */
  datatype Arrived = Arrived(request: Request, now: int, threshold: int)

  /**
    What the world does around one batch: the clock, whether the transaction fails, the writes that come in while the
    sweep pauses, and whether its time runs out in the pause.
   */
  datatype Tick = Tick(now: int, fails: bool, arrivals: seq<Arrived>, timeout: bool)

  /** One batch as it happened: its cutoff, the rows it removed, and the writes that followed. */
  datatype Round = Round(cutoff: int, samples: set<SampleKey>, snapshots: set<SnapKey>, events: set<Event>,
                         arrivals: seq<Arrived>)

  ghost predicate ValidArrivals(arrivals: seq<Arrived>) {
    forall a | a in arrivals :: a.request.Upload? ==> DistinctPaths(a.request.snap.nodes)
  }

  ghost function WriteAll(db: Db, arrivals: seq<Arrived>): Db {
    if |arrivals| == 0 then db
    else
      var last := arrivals[|arrivals| - 1];
      WriteRequest(WriteAll(db, arrivals[..|arrivals| - 1]), last.request, last.now, last.threshold)
  }

  ghost function Swept(db: Db, r: Round): Db {
    Remove(db, r.samples, r.snapshots, r.events)
  }

  /** The tables after the given rounds. */
  ghost function Replay(db: Db, log: seq<Round>): Db {
    if |log| == 0 then db
    else WriteAll(Swept(Replay(db, log[..|log| - 1]), log[|log| - 1]), log[|log| - 1].arrivals)
  }

  /** A round removes some oldest expired rows of each table, up to the batch size. */
  ghost predicate Sweeps(db: Db, r: Round) {
    && OldestExpired(SampleStamps(db), r.cutoff, BATCH, r.samples)
    && OldestExpired(SnapStamps(db), r.cutoff, BATCH, r.snapshots)
    && OldestExpired(EventStamps(db), r.cutoff, BATCH, r.events)
  }

  ghost predicate Faithful(db: Db, log: seq<Round>) {
    |log| == 0 || (Faithful(db, log[..|log| - 1]) && Sweeps(Replay(db, log[..|log| - 1]), log[|log| - 1]))
  }

  /** Every table had fewer expired rows than a batch takes. */
  ghost predicate Short(r: Round) {
    |r.samples| < BATCH && |r.snapshots| < BATCH && |r.events| < BATCH
  }

  ghost function Totals(log: seq<Round>): CleanupResult {
    if |log| == 0 then CleanupResult(0, 0, 0)
    else
      var t, r := Totals(log[..|log| - 1]), log[|log| - 1];
      CleanupResult(t.events + |r.events|, t.metrics + |r.samples|, t.snapshots + |r.snapshots|)
  }

  lemma LastRound(log: seq<Round>, r: Round)
    ensures (log + [r])[..|log + [r]| - 1] == log && (log + [r])[|log + [r]| - 1] == r
  {
  }

  lemma NextFaithful(db: Db, log: seq<Round>, r: Round)
    requires Faithful(db, log) && Sweeps(Replay(db, log), r)
    ensures Faithful(db, log + [r])
  {
    LastRound(log, r);
  }

  lemma NextReplay(db: Db, log: seq<Round>, r: Round)
    ensures Replay(db, log + [r]) == WriteAll(Swept(Replay(db, log), r), r.arrivals)
  {
    LastRound(log, r);
  }

  lemma NextTotals(log: seq<Round>, r: Round)
    ensures Totals(log + [r]) == CleanupResult(Totals(log).events + |r.events|, Totals(log).metrics + |r.samples|,
                                               Totals(log).snapshots + |r.snapshots|)
  {
    LastRound(log, r);
  }

  /** The record of the rounds follows the script: no round but the last came up short. */
  ghost predicate Follows(log: seq<Round>, script: seq<Tick>, retention: int) {
    |log| == 0 ||
    var n := |log| - 1;
    && n < |script| && log[n].cutoff == script[n].now - retention
    && (log[n].arrivals == [] || log[n].arrivals == script[n].arrivals)
    && Follows(log[..n], script, retention) && EndsFull(log[..n])
  }

  ghost predicate EndsFull(log: seq<Round>) {
    |log| > 0 ==> !Short(log[|log| - 1])
  }

  lemma NextFollows(log: seq<Round>, script: seq<Tick>, retention: int, r: Round) returns (more: seq<Round>)
    requires Follows(log, script, retention) && EndsFull(log) && |log| < |script|
    requires r.cutoff == script[|log|].now - retention
    requires r.arrivals == [] || r.arrivals == script[|log|].arrivals
    ensures more == log + [r] && |more| == |log| + 1 && more[|log|] == r
    ensures Follows(more, script, retention)
    ensures !Short(r) ==> EndsFull(more)
  {
    more := log + [r];
    LastRound(log, r);
  }

  /** Where a sweep stands: the tables, the totals and the record agree. */
  ghost predicate Progress(start: Db, db: Db, total: CleanupResult, log: seq<Round>) {
    Faithful(start, log) && db == Replay(start, log) && total == Totals(log)
  }

  lemma ProgressNext(start: Db, db: Db, total: CleanupResult, log: seq<Round>, r: Round)
    requires Progress(start, db, total, log) && Sweeps(db, r)
    ensures Progress(start, WriteAll(Swept(db, r), r.arrivals),
                     CleanupResult(total.events + |r.events|, total.metrics + |r.samples|,
                                   total.snapshots + |r.snapshots|),
                     log + [r])
  {
    NextFaithful(start, log, r);
    NextReplay(start, log, r);
    NextTotals(log, r);
  }

  /** The sweep: batches until one comes up short in every table, or something stops it. */
  method Sweep(store: SQLiteStore, retention: int, script: seq<Tick>)
    returns (total: CleanupResult, finished: bool, ghost log: seq<Round>)
    requires retention > 0 && forall t | t in script :: ValidArrivals(t.arrivals)
    modifies store
    ensures Progress(old(store.db), store.db, total, log) && Follows(log, script, retention)
    ensures finished ==> |log| > 0 && Short(log[|log| - 1]) && log[|log| - 1].arrivals == []
    ensures !finished ==> EndsFull(log)
    ensures !finished && |log| < |script| ==> script[|log|].fails || (|log| > 0 && script[|log| - 1].timeout)
  {
    total := CleanupResult(0, 0, 0);
    log := [];
    finished := false;
    var i := 0;
    while i < |script|
      invariant 0 <= i <= |script| && |log| == i && !finished
      invariant Progress(old(store.db), store.db, total, log)
      invariant Follows(log, script, retention) && EndsFull(log)
    {
      var tick := script[i];
      assert tick in script;
      if tick.fails {
        return;
      }
      var short;
      ghost var round;
      total, short, round := SweepBatch(store, tick, retention, total, old(store.db), log);
      log := NextFollows(log, script, retention, round);
      if short || tick.timeout {
        finished := short;
        return;
      }
      i := i + 1;
    }
  }

  /** One turn of the loop. */
  method SweepBatch(store: SQLiteStore, tick: Tick, retention: int, sum: CleanupResult, ghost start: Db,
                    ghost log: seq<Round>)
    returns (total: CleanupResult, short: bool, ghost round: Round)
    requires retention > 0 && ValidArrivals(tick.arrivals) && Progress(start, store.db, sum, log)
    modifies store
    ensures Progress(start, store.db, total, log + [round])
    ensures round.cutoff == tick.now - retention && (short <==> Short(round))
    ensures round.arrivals == if short || tick.timeout then [] else tick.arrivals
  {
    ghost var before := store.db;
    var batch;
    batch, short, round := BatchAndPause(store, tick, retention);
    total := CleanupResult(sum.events + batch.events, sum.metrics + batch.metrics, sum.snapshots + batch.snapshots);
    ProgressNext(start, before, sum, log, round);
  }

  /** A batch and, unless it came up short or time runs out, the writes of the pause after it. */
  method BatchAndPause(store: SQLiteStore, tick: Tick, retention: int)
    returns (batch: CleanupResult, short: bool, ghost round: Round)
    requires retention > 0 && ValidArrivals(tick.arrivals)
    modifies store
    ensures Sweeps(old(store.db), round) && round.cutoff == tick.now - retention
    ensures round.arrivals == if short || tick.timeout then [] else tick.arrivals
    ensures store.db == WriteAll(Swept(old(store.db), round), round.arrivals)
    ensures batch == CleanupResult(|round.events|, |round.samples|, |round.snapshots|)
    ensures short <==> Short(round)
  {
    batch, round := OneBatch(store, tick.now, retention);
    short := batch.metrics < BATCH && batch.snapshots < BATCH && batch.events < BATCH;
    if !short && !tick.timeout {
      round := round.(arrivals := tick.arrivals);
      AcceptWrites(store, tick.arrivals);
    }
  }

  /** One batch of a thousand, with the record of what it removed. */
  method OneBatch(store: SQLiteStore, now: int, retention: int) returns (batch: CleanupResult, ghost round: Round)
    requires retention > 0
    modifies store
    ensures Sweeps(old(store.db), round) && round.cutoff == now - retention && round.arrivals == []
    ensures store.db == Swept(old(store.db), round)
    ensures batch == CleanupResult(|round.events|, |round.samples|, |round.snapshots|)
  {
    var ok;
    ghost var samples, snapshots, events;
    batch, ok, samples, snapshots, events := store.CleanupBatch(now, retention, BATCH);
    round := Round(now - retention, samples, snapshots, events, []);
  }

  /** The writes that come in during the pause between two batches. */
  method AcceptWrites(store: SQLiteStore, arrivals: seq<Arrived>)
    requires ValidArrivals(arrivals)
    modifies store
    ensures store.db == WriteAll(old(store.db), arrivals)
  {
    var i := 0;
    while i < |arrivals|
      invariant 0 <= i <= |arrivals|
      invariant store.db == WriteAll(old(store.db), arrivals[..i])
    {
      var a := arrivals[i];
      assert a in arrivals && arrivals[..i + 1][..i] == arrivals[..i];
      var status;
      match a.request {
        case Heartbeat(agent, at, metrics) => status := store.UpsertHeartbeat(agent, at, metrics, a.now);
        case Upload(snap) => status := store.SaveSnapshot(snap, a.threshold);
      }
      i := i + 1;
    }
    assert arrivals[..|arrivals|] == arrivals;
  }

  // ---- What a short batch leaves ----

  lemma ShortTakesAll<K(!new)>(stamps: map<K, int>, cutoff: int, chosen: set<K>)
    requires OldestExpired(stamps, cutoff, BATCH, chosen) && |chosen| < BATCH
    ensures chosen == Expired(stamps, cutoff)
  {
  }

  /** Nothing older than the cutoff is left. */
  ghost predicate NothingOlder(db: Db, cutoff: int) {
    && (forall k | k in db.samples :: k.at >= cutoff)
    && (forall k | k in db.snapshots :: k.at >= cutoff)
    && (forall e | e in db.events.rows :: e.to >= cutoff)
  }

  /** Whatever came in meanwhile, a sweep that ends normally leaves nothing older than its last cutoff. */
  lemma FinishedLeavesNothingOld(db: Db, log: seq<Round>)
    requires Faithful(db, log) && |log| > 0
    requires Short(log[|log| - 1]) && log[|log| - 1].arrivals == []
    ensures NothingOlder(Replay(db, log), log[|log| - 1].cutoff)
  {
    var r, before := log[|log| - 1], Replay(db, log[..|log| - 1]);
    ShortTakesAll(SampleStamps(before), r.cutoff, r.samples);
    ShortTakesAll(SnapStamps(before), r.cutoff, r.snapshots);
    ShortTakesAll(EventStamps(before), r.cutoff, r.events);
    forall e | e in EventsExcept(before.events.rows, r.events)
      ensures e.to >= r.cutoff
    {
      EventsExceptMeans(before.events.rows, r.events, e);
      assert e in EventStamps(before);
    }
  }

  // ---- What a sweep never removes ----

  lemma {:induction false} WritesKeepRows(db: Db, arrivals: seq<Arrived>)
    ensures forall k | k in db.samples :: k in WriteAll(db, arrivals).samples
    ensures forall k | k in db.snapshots :: k in WriteAll(db, arrivals).snapshots
    ensures forall e | e in db.events.rows :: e in WriteAll(db, arrivals).events.rows
  {
    if |arrivals| > 0 {
      var last := arrivals[|arrivals| - 1];
      WritesKeepRows(db, arrivals[..|arrivals| - 1]);
      var mid := WriteAll(db, arrivals[..|arrivals| - 1]);
      if last.request.Upload? {
        var snap := last.request.snap;
        AddingKeepsRows(mid.events, snap.agent, snap.root, last.threshold,
                        Growth(Latest(mid.snapshots, snap.agent, snap.root), snap, last.threshold));
      }
    }
  }

  lemma {:induction false} AddingKeepsRows(t: EventTable, agent: string, root: string, threshold: int,
                                           alerts: seq<Alert>)
    ensures forall e | e in t.rows :: e in AddEvents(t, agent, root, threshold, alerts).rows
  {
    if |alerts| > 0 {
      AddingKeepsRows(t, agent, root, threshold, alerts[..|alerts| - 1]);
    }
  }

  /** A row of one of the three tables. */
  datatype AnyRow = Sample(sample: SampleKey) | Snap(snap: SnapKey) | Logged(event: Event)

  function StampOf(row: AnyRow): int {
    match row
    case Sample(k) => k.at
    case Snap(k) => k.at
    case Logged(e) => e.to
  }

  ghost predicate Has(db: Db, row: AnyRow) {
    match row
    case Sample(k) => k in db.samples
    case Snap(k) => k in db.snapshots
    case Logged(e) => e in db.events.rows
  }

  /** One round keeps the rows that are not older than its cutoff. */
  lemma RoundKeeps(db: Db, r: Round, row: AnyRow)
    requires Sweeps(db, r) && Has(db, row) && StampOf(row) >= r.cutoff
    ensures Has(WriteAll(Swept(db, r), r.arrivals), row)
  {
    WritesKeepRows(Swept(db, r), r.arrivals);
    if row.Logged? {
      EventsExceptMeans(db.events.rows, r.events, row.event);
    }
  }

  /** Not older than any cutoff from round n on. */
  ghost predicate Recent(at: int, log: seq<Round>, n: nat) {
    forall i | n <= i < |log| :: at >= log[i].cutoff
  }

  lemma RecentInit(log: seq<Round>, n: nat, at: int)
    requires n < |log| && Recent(at, log, n)
    ensures Recent(at, log[..|log| - 1], n) && at >= log[|log| - 1].cutoff
    ensures log[..|log| - 1][..n] == log[..n]
  {
  }

  /** A row that is present after n rounds and not older than any later cutoff is still there in the end. */
  lemma {:induction false} RecentRowsStay(db: Db, log: seq<Round>, n: nat, row: AnyRow)
    requires Faithful(db, log) && n <= |log|
    requires Has(Replay(db, log[..n]), row) && Recent(StampOf(row), log, n)
    ensures Has(Replay(db, log), row)
  {
    if n == |log| {
      assert log[..n] == log;
    } else {
      RecentInit(log, n, StampOf(row));
      RecentRowsStay(db, log[..|log| - 1], n, row);
      RoundKeeps(Replay(db, log[..|log| - 1]), log[|log| - 1], row);
    }
  }

  // ---- Without interference: the one-shot deletion ----

  /** All rounds use one cutoff and no writes come in between. */
  ghost predicate Quiet(log: seq<Round>, cutoff: int) {
    forall r | r in log :: r.cutoff == cutoff && r.arrivals == []
  }

  lemma QuietSplit(log: seq<Round>, cutoff: int)
    requires Quiet(log, cutoff) && |log| > 0
    ensures Quiet(log[..|log| - 1], cutoff)
    ensures log[|log| - 1].cutoff == cutoff && log[|log| - 1].arrivals == []
  {
    assert log[|log| - 1] in log;
    assert forall r | r in log[..|log| - 1] :: r in log;
  }

  ghost function ExpiredRows(db: Db, cutoff: int): nat {
    |Expired(SampleStamps(db), cutoff)| + |Expired(SnapStamps(db), cutoff)| + |Expired(EventStamps(db), cutoff)|
  }

  /** Removing chosen expired rows removes just these from the expired ones. */
  lemma ExpiredShrinks<K(!new)>(stamps: map<K, int>, after: map<K, int>, cutoff: int, chosen: set<K>)
    requires OldestExpired(stamps, cutoff, BATCH, chosen) && after == stamps - chosen
    ensures Expired(after, cutoff) == Expired(stamps, cutoff) - chosen
    ensures |Expired(after, cutoff)| + |chosen| == |Expired(stamps, cutoff)|
  {
    assert Expired(after, cutoff) == Expired(stamps, cutoff) - chosen;
  }

  /** What one quiet round does to the rows of each table. */
  lemma QuietRound(db: Db, r: Round)
    requires Sweeps(db, r)
    ensures |Expired(SampleStamps(Swept(db, r)), r.cutoff)| + |r.samples| == |Expired(SampleStamps(db), r.cutoff)|
    ensures |Expired(SnapStamps(Swept(db, r)), r.cutoff)| + |r.snapshots| == |Expired(SnapStamps(db), r.cutoff)|
    ensures |Expired(EventStamps(Swept(db, r)), r.cutoff)| + |r.events| == |Expired(EventStamps(db), r.cutoff)|
  {
    var after := Swept(db, r);
    SweptStamps(db, r);
    SweptEvents(db, r);
    ExpiredShrinks(SampleStamps(db), SampleStamps(after), r.cutoff, r.samples);
    ExpiredShrinks(SnapStamps(db), SnapStamps(after), r.cutoff, r.snapshots);
    ExpiredShrinks(EventStamps(db), EventStamps(after), r.cutoff, r.events);
  }

  lemma SweptStamps(db: Db, r: Round)
    ensures SampleStamps(Swept(db, r)) == SampleStamps(db) - r.samples
    ensures SnapStamps(Swept(db, r)) == SnapStamps(db) - r.snapshots
  {
  }

  lemma SweptEvents(db: Db, r: Round)
    ensures EventStamps(Swept(db, r)) == EventStamps(db) - r.events
  {
    forall e: Event
      ensures e in Swept(db, r).events.rows <==> e in db.events.rows && e !in r.events
    {
      EventsExceptMeans(db.events.rows, r.events, e);
    }
  }

  /** Totals count what is gone, so far. */
  lemma {:induction false} QuietTotals(db: Db, log: seq<Round>, cutoff: int)
    requires Faithful(db, log) && Quiet(log, cutoff)
    ensures var after := Replay(db, log);
            && Totals(log).metrics == |Expired(SampleStamps(db), cutoff)| - |Expired(SampleStamps(after), cutoff)|
            && Totals(log).snapshots == |Expired(SnapStamps(db), cutoff)| - |Expired(SnapStamps(after), cutoff)|
            && Totals(log).events == |Expired(EventStamps(db), cutoff)| - |Expired(EventStamps(after), cutoff)|
  {
    if |log| > 0 {
      var init, r := log[..|log| - 1], log[|log| - 1];
      QuietSplit(log, cutoff);
      QuietTotals(db, init, cutoff);
      QuietRound(Replay(db, init), r);
    }
  }

  /** Every round that is not the last takes a thousand expired rows, so the sweep ends. */
  lemma {:induction false} QuietSweepEnds(db: Db, log: seq<Round>, cutoff: int)
    requires Faithful(db, log) && Quiet(log, cutoff)
    requires forall r | r in log :: !Short(r)
    ensures BATCH * |log| + ExpiredRows(Replay(db, log), cutoff) <= ExpiredRows(db, cutoff)
  {
    if |log| > 0 {
      var init, r := log[..|log| - 1], log[|log| - 1];
      QuietSplit(log, cutoff);
      assert forall q | q in init :: q in log;
      assert r in log;
      QuietSweepEnds(db, init, cutoff);
      QuietRound(Replay(db, init), r);
    }
  }

  /** Rows only leave, and only expired ones. */
  lemma {:induction false} QuietKeeps(db: Db, log: seq<Round>, cutoff: int)
    requires Faithful(db, log) && Quiet(log, cutoff)
    ensures var after := Replay(db, log);
            && (forall k | k in after.samples :: k in db.samples && after.samples[k] == db.samples[k])
            && (forall k | k in db.samples && k.at >= cutoff :: k in after.samples)
            && (forall k | k in after.snapshots :: k in db.snapshots && after.snapshots[k] == db.snapshots[k])
            && (forall k | k in db.snapshots && k.at >= cutoff :: k in after.snapshots)
            && RowsSince(after.events.rows, cutoff) == RowsSince(db.events.rows, cutoff)
  {
    if |log| > 0 {
      var init, r := log[..|log| - 1], log[|log| - 1];
      QuietSplit(log, cutoff);
      QuietKeeps(db, init, cutoff);
      var before := Replay(db, init);
      forall e | e in r.events
        ensures e.to < cutoff
      {
        assert e in Expired(EventStamps(before), cutoff);
      }
      RowsSinceExcept(before.events.rows, r.events, cutoff);
    }
  }

  /** The rows of the event table that are not older than the cutoff. */
  ghost function RowsSince(rows: seq<Event>, cutoff: int): seq<Event> {
    if |rows| == 0 then []
    else RowsSince(rows[..|rows| - 1], cutoff) + if rows[|rows| - 1].to >= cutoff then [rows[|rows| - 1]] else []
  }

  lemma {:induction false} RowsSinceExcept(rows: seq<Event>, gone: set<Event>, cutoff: int)
    requires forall e | e in gone :: e.to < cutoff
    ensures RowsSince(EventsExcept(rows, gone), cutoff) == RowsSince(rows, cutoff)
  {
    if |rows| > 0 {
      var n := |rows| - 1;
      RowsSinceExcept(rows[..n], gone, cutoff);
      var before := EventsExcept(rows[..n], gone);
      assert (before + [rows[n]])[..|before|] == before;
      assert before + [] == before;
      assert RowsSince(rows[..n], cutoff) + [] == RowsSince(rows[..n], cutoff);
    }
  }

  lemma {:induction false} RowsSinceAll(rows: seq<Event>, cutoff: int)
    requires forall e | e in rows :: e.to >= cutoff
    ensures RowsSince(rows, cutoff) == rows
  {
    if |rows| > 0 {
      assert rows == rows[..|rows| - 1] + [rows[|rows| - 1]];
      RowsSinceAll(rows[..|rows| - 1], cutoff);
    }
  }

  /** The one-shot deletion. */
  ghost predicate IsDropOlder(db: Db, after: Db, cutoff: int) {
    && after.samples == (map k | k in db.samples && k.at >= cutoff :: db.samples[k])
    && after.snapshots == (map k | k in db.snapshots && k.at >= cutoff :: db.snapshots[k])
    && after.events.rows == RowsSince(db.events.rows, cutoff)
  }

  /**
    With a fixed cutoff and nothing written in between, a sweep that ends normally leaves exactly what deleting all
    older rows at once would leave, and reports exactly the rows that are gone.
   */
  lemma QuietSweepIsOneShot(db: Db, log: seq<Round>, cutoff: int)
    requires Faithful(db, log) && Quiet(log, cutoff) && |log| > 0 && Short(log[|log| - 1])
    ensures IsDropOlder(db, Replay(db, log), cutoff)
    ensures Totals(log) == CleanupResult(|Expired(EventStamps(db), cutoff)|, |Expired(SampleStamps(db), cutoff)|,
                                         |Expired(SnapStamps(db), cutoff)|)
  {
    assert log[|log| - 1] in log;
    FinishedLeavesNothingOld(db, log);
    QuietKeeps(db, log, cutoff);
    QuietTotals(db, log, cutoff);
    RowsSinceAll(Replay(db, log).events.rows, cutoff);
    NothingExpired(Replay(db, log), cutoff);
    SamplesDropped(db.samples, Replay(db, log).samples, cutoff);
    SnapshotsDropped(db.snapshots, Replay(db, log).snapshots, cutoff);
  }

  lemma NothingExpired(db: Db, cutoff: int)
    requires NothingOlder(db, cutoff)
    ensures Expired(SampleStamps(db), cutoff) == {}
    ensures Expired(SnapStamps(db), cutoff) == {}
    ensures Expired(EventStamps(db), cutoff) == {}
  {
  }

  lemma SamplesDropped(before: map<SampleKey, Metrics>, after: map<SampleKey, Metrics>, cutoff: int)
    requires forall k | k in after :: k in before && after[k] == before[k] && k.at >= cutoff
    requires forall k | k in before && k.at >= cutoff :: k in after
    ensures after == (map k | k in before && k.at >= cutoff :: before[k])
  {
  }

  lemma SnapshotsDropped(before: map<SnapKey, Snapshot>, after: map<SnapKey, Snapshot>, cutoff: int)
    requires forall k | k in after :: k in before && after[k] == before[k] && k.at >= cutoff
    requires forall k | k in before && k.at >= cutoff :: k in after
    ensures after == (map k | k in before && k.at >= cutoff :: before[k])
  {
  }
}
