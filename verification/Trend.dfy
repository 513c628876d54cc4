/** The 360-bucket trend (internal/hub/trend.go). */
module Trend {
  import opened Ordering
  import opened HubDb

  const BUCKETS: nat := 360
  const FIELDS: nat := 5

  /** The five plotted values: CPU, memory, disk, received and sent rate. */
  type Values = v: seq<real> | |v| == FIELDS witness [0.0, 0.0, 0.0, 0.0, 0.0]

  const ZEROS: Values := [0.0, 0.0, 0.0, 0.0, 0.0]

  /** The five values as a record. */
  datatype Five = Five(cpu: real, memory: real, disk: real, received: real, sent: real) {
    function At(i: nat): real
      requires i < FIELDS
    {
      match i
      case 0 => cpu
      case 1 => memory
      case 2 => disk
      case 3 => received
      case _ => sent
    }

    /** The same as the array the store keeps. */
    function AsArray(): Values {
      [cpu, memory, disk, received, sent]
    }
  }

  const NONE := Five(0.0, 0.0, 0.0, 0.0, 0.0)

  /** A network scope together with its interfaces; points of one scope can be compared. */
  datatype Scope = Scope(name: ScopeName, interfaces: seq<string>)

  /** What one stored sample contributes: its time, network scope, whether that is unusable, its values. */
  datatype Row = Row(at: int, scope: Scope, flagged: bool, values: Five)

  function ScopeOf(m: Metrics): Scope {
    Scope(m.scope, m.interfaces)
  }

  function Percent(used: int, total: int): real {
    if total > 0 then used as real / total as real * 100.0 else 0.0
  }

  function ValuesOf(m: Metrics): Five {
    Five(m.cpuPercent, Percent(m.memoryUsed, m.memoryTotal), Percent(m.diskUsed, m.diskTotal), m.received, m.sent)
  }

  /** The sample's network values cannot be used. */
  predicate Flagged(m: Metrics) {
    m.rateUnavailable || m.scope.Unavailable? || |m.missing| > 0
  }

  function RowOf(at: int, m: Metrics): Row {
    Row(at, ScopeOf(m), Flagged(m), ValuesOf(m))
  }

  /** A bucket while it is being filled (sums) and a point once it is finished (averages). */
  datatype TrendPoint = TrendPoint(unavailable: bool, scope: Scope, at: int, count: nat, average: Values, peak: Values)

  const EMPTY_POINT := TrendPoint(false, NO_SCOPE, 0, 0, ZEROS, ZEROS)

  const NO_SCOPE := Scope(Named(""), [])

  datatype TrendRange = HalfHour | Hour | Day

  const SECOND: int := 1_000_000_000

  function Duration(r: TrendRange): int {
    match r
    case HalfHour => 1800 * SECOND
    case Hour => 3600 * SECOND
    case Day => 86400 * SECOND
  }

  /** The window a request asks for: ending now, or at a past time within the allowed lookback (not for a day). */
  datatype WindowResult = Refused | Window(from: int, to: int)

  function ChooseWindow(r: TrendRange, now: int, end: WindowEnd): WindowResult {
    match end
    case Now => Window(now - Duration(r), now)
    case Invalid => Refused
    case Past(to) =>
      var lookback := if r == Hour then 12 * 3600 * SECOND else 6 * 3600 * SECOND;
      if r == Day || to > now || to - Duration(r) < now - lookback then Refused
      else Window(to - Duration(r), to)
  }

  datatype WindowEnd = Now | Invalid | Past(to: int)

  // ---- The specification: a summary of a set of samples ----

  /** What a bucket says about its samples: how many, their sums, their peaks (never below 0), the network verdict. */
  datatype Summary = Summary(count: nat, sums: Five, peaks: Five, scope: Scope, unavailable: bool)

  const NOTHING := Summary(0, NONE, NONE, NO_SCOPE, false)

  function AddValues(a: Five, b: Five): Five {
    Five(a.cpu + b.cpu, a.memory + b.memory, a.disk + b.disk, a.received + b.received, a.sent + b.sent)
  }

  function MaxReal(x: real, y: real): real {
    if y > x then y else x
  }

  function MaxValues(a: Five, b: Five): Five {
    Five(MaxReal(a.cpu, b.cpu), MaxReal(a.memory, b.memory), MaxReal(a.disk, b.disk),
         MaxReal(a.received, b.received), MaxReal(a.sent, b.sent))
  }

  /** Joins the summaries of two adjoining sets of samples. */
  function Merge(a: Summary, b: Summary): Summary {
    Summary(a.count + b.count, AddValues(a.sums, b.sums), MaxValues(a.peaks, b.peaks),
            if a.count == 0 then b.scope else a.scope,
            a.unavailable || b.unavailable || (a.count > 0 && b.count > 0 && a.scope != b.scope))
  }

  function One(r: Row): Summary {
    Summary(1, r.values, MaxValues(NONE, r.values), r.scope, r.flagged)
  }

  function Summarize(rows: seq<Row>): Summary {
    if |rows| == 0 then NOTHING
    else Merge(Summarize(rows[..|rows| - 1]), One(rows[|rows| - 1]))
  }

  /** A summary of some rows: nothing is known of none, and peaks are never below 0. */
  ghost predicate Proper(a: Summary) {
    (a.count == 0 ==> a == NOTHING) && forall i | 0 <= i < FIELDS :: a.peaks.At(i) >= 0.0
  }

  lemma MergeNothing(a: Summary)
    requires Proper(a)
    ensures Merge(a, NOTHING) == a && Merge(NOTHING, a) == a
  {
    assert a.peaks.At(0) >= 0.0 && a.peaks.At(1) >= 0.0 && a.peaks.At(2) >= 0.0;
    assert a.peaks.At(3) >= 0.0 && a.peaks.At(4) >= 0.0;
  }

  lemma MergeAssociative(a: Summary, b: Summary, c: Summary)
    ensures Merge(Merge(a, b), c) == Merge(a, Merge(b, c))
  {
  }

  lemma {:induction false} SummaryIsProper(rows: seq<Row>)
    ensures Proper(Summarize(rows)) && Summarize(rows).count == |rows|
  {
    if |rows| > 0 {
      SummaryIsProper(rows[..|rows| - 1]);
    }
  }

  /** Summaries of adjoining parts merge into the summary of the whole. */
  lemma {:induction false} SummarizeConcat(a: seq<Row>, b: seq<Row>)
    ensures Summarize(a + b) == Merge(Summarize(a), Summarize(b))
  {
    if |b| == 0 {
      assert a + b == a;
      SummaryIsProper(a);
      MergeNothing(Summarize(a));
    } else {
      var init, last := b[..|b| - 1], b[|b| - 1];
      assert (a + b)[..|a + b| - 1] == a + init;
      SummarizeConcat(a, init);
      MergeAssociative(Summarize(a), Summarize(init), One(last));
    }
  }

  // ---- What a summary means ----

  ghost function SumOf(rows: seq<Row>, field: nat): real
    requires field < FIELDS
  {
    if |rows| == 0 then 0.0 else SumOf(rows[..|rows| - 1], field) + rows[|rows| - 1].values.At(field)
  }

  /** Sums are sums, and counts count. */
  lemma {:induction false} SumsMean(rows: seq<Row>, field: nat)
    requires field < FIELDS
    ensures Summarize(rows).count == |rows|
    ensures Summarize(rows).sums.At(field) == SumOf(rows, field)
    ensures |rows| > 0 ==> Summarize(rows).scope == rows[0].scope
  {
    if |rows| > 0 {
      SumsMean(rows[..|rows| - 1], field);
    }
  }

  /** A peak is the least bound of 0 and the values. */
  lemma {:induction false} PeaksMean(rows: seq<Row>, field: nat)
    requires field < FIELDS
    ensures Summarize(rows).peaks.At(field) >= 0.0
    ensures forall r | r in rows :: r.values.At(field) <= Summarize(rows).peaks.At(field)
    ensures Summarize(rows).peaks.At(field) == 0.0 ||
            exists r :: r in rows && r.values.At(field) == Summarize(rows).peaks.At(field)
  {
    if |rows| > 0 {
      var init, last := rows[..|rows| - 1], rows[|rows| - 1];
      PeaksMean(init, field);
      assert rows == init + [last];
      assert forall r :: r in rows <==> r in init || r == last;
      assert Summarize(rows).peaks.At(field) ==
             MaxReal(Summarize(init).peaks.At(field), MaxReal(0.0, last.values.At(field)));
    }
  }

  /** Some row is flagged, or some row differs in scope from the first. */
  ghost predicate Unusable(rows: seq<Row>) {
    exists i | 0 <= i < |rows| :: rows[i].flagged || rows[i].scope != rows[0].scope
  }

  /** The network is unavailable exactly when some row is flagged or two rows differ in scope. */
  lemma {:induction false} NetworkMeans(rows: seq<Row>)
    ensures Summarize(rows).unavailable <==> Unusable(rows)
    ensures Unusable(rows) <==>
            (exists i | 0 <= i < |rows| :: rows[i].flagged) ||
            (exists i, j | 0 <= i < j < |rows| :: rows[i].scope != rows[j].scope)
  {
    if |rows| > 0 {
      var n := |rows| - 1;
      NetworkMeans(rows[..n]);
      SumsMean(rows[..n], 0);
      assert Unusable(rows[..n]) ==> Unusable(rows);
      assert Unusable(rows) ==> Unusable(rows[..n]) || rows[n].flagged || rows[n].scope != rows[0].scope;
    }
  }

  // ---- Rows of a time window ----

  ghost predicate Ascending(rows: seq<Row>) {
    forall i, j | 0 <= i < j < |rows| :: rows[i].at < rows[j].at
  }

  /** The rows with lo <= at < hi, in their order. */
  ghost function InWindow(rows: seq<Row>, lo: int, hi: int): seq<Row> {
    if |rows| == 0 then []
    else
      var last := rows[|rows| - 1];
      InWindow(rows[..|rows| - 1], lo, hi) + if lo <= last.at < hi then [last] else []
  }

  lemma {:induction false} InWindowMeans(rows: seq<Row>, lo: int, hi: int, r: Row)
    ensures r in InWindow(rows, lo, hi) <==> r in rows && lo <= r.at < hi
  {
    if |rows| > 0 {
      InWindowMeans(rows[..|rows| - 1], lo, hi, r);
      assert rows == rows[..|rows| - 1] + [rows[|rows| - 1]];
    }
  }

  /** A window inside a window. */
  lemma {:induction false} WindowOfWindow(rows: seq<Row>, from: int, to: int, lo: int, hi: int)
    requires from <= lo && hi <= to
    ensures InWindow(InWindow(rows, from, to), lo, hi) == InWindow(rows, lo, hi)
  {
    if |rows| > 0 {
      var init, last := rows[..|rows| - 1], rows[|rows| - 1];
      WindowOfWindow(init, from, to, lo, hi);
      var outer := InWindow(init, from, to);
      assert (outer + [last])[..|outer|] == outer;
      assert outer + [] == outer && InWindow(init, lo, hi) + [] == InWindow(init, lo, hi);
    }
  }

  /** Ascending rows of a window are those of its first part followed by those of its second. */
  lemma {:induction false} WindowSplits(rows: seq<Row>, lo: int, mid: int, hi: int)
    requires Ascending(rows) && lo <= mid <= hi
    ensures InWindow(rows, lo, hi) == InWindow(rows, lo, mid) + InWindow(rows, mid, hi)
  {
    if |rows| > 0 {
      var init, last := rows[..|rows| - 1], rows[|rows| - 1];
      WindowSplits(init, lo, mid, hi);
      if lo <= last.at < mid {
        NothingLater(init, mid, hi, last.at);
      }
    }
  }

  lemma {:induction false} NothingLater(rows: seq<Row>, lo: int, hi: int, bound: int)
    requires bound < lo && forall i | 0 <= i < |rows| :: rows[i].at < bound
    ensures InWindow(rows, lo, hi) == []
  {
    if |rows| > 0 {
      NothingLater(rows[..|rows| - 1], lo, hi, bound);
    }
  }

  // ---- Buckets and points ----

  /** Where the i-th bucket of a window starts, counted in steps. */
  function Start(from: int, step: int, i: nat): int {
    if i == 0 then from else Start(from, step, i - 1) + step
  }

  lemma {:induction false} StartIs(from: int, step: int, i: nat)
    ensures Start(from, step, i) == from + i * step
  {
    if i > 0 {
      StartIs(from, step, i - 1);
      assert (i - 1) * step + step == i * step;
    }
  }

  /** The summary of the i-th bucket of a window that starts at `from`. */
  ghost function Bucket(rows: seq<Row>, from: int, step: int, i: nat): Summary {
    Summarize(InWindow(rows, Start(from, step, i), Start(from, step, i + 1)))
  }

  /** A finished point: sums become averages. */
  function Finish(at: int, s: Summary): TrendPoint
    requires s.count > 0
  {
    TrendPoint(s.unavailable, s.scope, at, s.count, Scale(s.sums, s.count).AsArray(), s.peaks.AsArray())
  }

  function Scale(sums: Five, count: nat): Five
    requires count > 0
  {
    Five(sums.cpu / count as real, sums.memory / count as real, sums.disk / count as real,
         sums.received / count as real, sums.sent / count as real)
  }

  /** An empty bucket gives no point. */
  function PointOf(b: Summary, at: int): seq<TrendPoint> {
    if b.count > 0 then [Finish(at, b)] else []
  }

  /** The points of the first n buckets. */
  ghost function Points(rows: seq<Row>, from: int, step: int, n: nat): seq<TrendPoint> {
    if n == 0 then []
    else
      Points(rows, from, step, n - 1) + PointOf(Bucket(rows, from, step, n - 1), Start(from, step, n - 1))
  }

  /** The points of a window. */
  ghost function TrendPoints(rows: seq<Row>, from: int, to: int): seq<TrendPoint> {
    Points(rows, from, (to - from) / BUCKETS, BUCKETS)
  }

  /** A bucket in the making holds the summary of the rows seen so far. */
  ghost predicate Holding(b: TrendPoint, s: Summary, at: int) {
    && b.count == s.count && b.average == s.sums.AsArray() && b.peak == s.peaks.AsArray()
    && b.unavailable == s.unavailable
    && (b.count > 0 ==> b.scope == s.scope && b.at == at)
  }

  /** Adds the values to the sums and raises the peaks, field by field. */
  method AddFields(average: Values, peak: Values, values: Values, ghost sums: Five, ghost peaks: Five, ghost more: Five)
    returns (average': Values, peak': Values)
    requires average == sums.AsArray() && peak == peaks.AsArray() && values == more.AsArray()
    ensures average' == AddValues(sums, more).AsArray() && peak' == MaxValues(peaks, more).AsArray()
  {
    average', peak' := average, peak;
    for i := 0 to FIELDS
      invariant forall j | 0 <= j < FIELDS :: average'[j] == average[j] + if j < i then values[j] else 0.0
      invariant forall j | 0 <= j < FIELDS :: peak'[j] == if j < i then MaxReal(peak[j], values[j]) else peak[j]
    {
      average' := average'[i := average'[i] + values[i]];
      if values[i] > peak'[i] {
        peak' := peak'[i := values[i]];
      }
    }
  }

  /** Peaks that start at 0 need not look at 0 again. */
  lemma PeakFromZero(peaks: Five, values: Five)
    requires forall i | 0 <= i < FIELDS :: peaks.At(i) >= 0.0
    ensures MaxValues(peaks, MaxValues(NONE, values)) == MaxValues(peaks, values)
  {
    assert peaks.At(0) >= 0.0 && peaks.At(1) >= 0.0 && peaks.At(2) >= 0.0;
    assert peaks.At(3) >= 0.0 && peaks.At(4) >= 0.0;
  }

  /** Takes one row into its bucket. */
  method AddRow(b: TrendPoint, r: Row, at: int, ghost s: Summary) returns (b': TrendPoint)
    requires Holding(b, s, at) && Proper(s)
    ensures Holding(b', Merge(s, One(r)), at)
  {
    b' := b;
    if b'.count == 0 {
      b' := b'.(scope := r.scope);
    } else if b'.scope != r.scope {
      b' := b'.(unavailable := true);
    }
    if r.flagged {
      b' := b'.(unavailable := true);
    }
    b' := b'.(at := at, count := b'.count + 1);
    PeakFromZero(s.peaks, r.values);
    var average, peak := AddFields(b.average, b.peak, r.values.AsArray(), s.sums, s.peaks, r.values);
    b' := b'.(average := average, peak := peak);
  }

  /** The bucket a time falls into is the one whose interval contains it. */
  lemma BucketIndex(at: int, from: int, step: int, i: nat)
    requires step > 0 && at >= from
    ensures (at - from) / step == i <==> Start(from, step, i) <= at < Start(from, step, i + 1)
  {
    StartIs(from, step, i);
    StartIs(from, step, i + 1);
    DivisionIs(at - from, step, i);
  }

  lemma DivisionIs(x: int, step: int, i: nat)
    requires step > 0 && x >= 0
    ensures x / step == i <==> i * step <= x < (i + 1) * step
  {
    var q := x / step;
    assert q * step <= x < q * step + step;
    assert (i + 1) * step == i * step + step;
    if i < q {
      MultiplyMonotone(i + 1, q, step);
    } else if i > q {
      MultiplyMonotone(q + 1, i, step);
      assert (q + 1) * step == q * step + step;
    }
  }

  /** The buckets hold the summaries of the rows seen so far. */
  ghost predicate AllHolding(buckets: seq<TrendPoint>, rows: seq<Row>, from: int, step: int) {
    && |buckets| == BUCKETS
    && forall i | 0 <= i < BUCKETS :: Holding(buckets[i], Bucket(rows, from, step, i), Start(from, step, i))
  }

  /** The time lies in the index-th step. */
  predicate Lands(at: int, from: int, step: int, index: nat) {
    Start(from, step, index) <= at < Start(from, step, index + 1)
  }

  /** `int(at.Sub(from) / step)`. */
  method IndexOf(at: int, from: int, step: int) returns (index: nat)
    requires step > 0 && at >= from
    ensures Lands(at, from, step, index) && Start(from, step, index) == from + index * step
  {
    index := (at - from) / step;
    BucketIndex(at, from, step, index);
    StartIs(from, step, index);
  }

  /** A time lies in one step only. */
  lemma LandsInOne(at: int, from: int, step: int, i: nat, j: nat)
    requires step > 0 && Lands(at, from, step, i)
    ensures Lands(at, from, step, j) <==> i == j
  {
    if i < j {
      StartsAscend(from, step, i + 1, j);
    } else if j < i {
      StartsAscend(from, step, j + 1, i);
    }
  }

  /** What one more row does to each bucket's summary. */
  lemma NextBucket(rows: seq<Row>, r: Row, from: int, step: int, i: nat, index: nat)
    requires step > 0 && Lands(r.at, from, step, index)
    ensures Bucket(rows + [r], from, step, i) ==
            if i == index then Merge(Bucket(rows, from, step, i), One(r)) else Bucket(rows, from, step, i)
  {
    LandsInOne(r.at, from, step, index, i);
    NextRow(rows, r, Start(from, step, i), Start(from, step, i + 1));
  }

  lemma HoldingNext(buckets: seq<TrendPoint>, after: seq<TrendPoint>, rows: seq<Row>, r: Row, from: int,
                    step: int, index: nat)
    requires step > 0 && Lands(r.at, from, step, index)
    requires AllHolding(buckets, rows, from, step) && |after| == BUCKETS
    requires forall i: nat | i < BUCKETS && i != index :: after[i] == buckets[i]
    requires index < BUCKETS ==>
               Holding(after[index], Merge(Bucket(rows, from, step, index), One(r)), Start(from, step, index))
    ensures AllHolding(after, rows + [r], from, step)
  {
    forall i: nat | i < BUCKETS
      ensures Holding(after[i], Bucket(rows + [r], from, step, i), Start(from, step, i))
    {
      NextBucket(rows, r, from, step, i, index);
      assert i != index ==> Holding(buckets[i], Bucket(rows, from, step, i), Start(from, step, i));
    }
  }

  /** Puts one row into its bucket, in place; a row behind the last bucket is left out. */
  method PutRow(buckets: array<TrendPoint>, ghost seen: seq<Row>, r: Row, from: int, step: int)
    requires step > 0 && r.at >= from && AllHolding(buckets[..], seen, from, step)
    modifies buckets
    ensures AllHolding(buckets[..], seen + [r], from, step)
  {
    var index := IndexOf(r.at, from, step);
    ghost var before := buckets[..];
    if index < 0 || index >= BUCKETS {
      HoldingNext(before, before, seen, r, from, step, index);
      return;
    }
    ghost var s := Bucket(seen, from, step, index);
    SummaryIsProper(InWindow(seen, Start(from, step, index), Start(from, step, index + 1)));
    assert Holding(before[index], s, Start(from, step, index));
    var b := AddRow(buckets[index], r, from + index * step, s);
    buckets[index] := b;
    assert buckets[..] == before[index := b];
    HoldingNext(before, before[index := b], seen, r, from, step, index);
  }

  /** Fills the buckets, row by row. */
  method FillBuckets(buckets: array<TrendPoint>, rows: seq<Row>, from: int, step: int)
    requires buckets.Length == BUCKETS && step > 0 && forall r | r in rows :: r.at >= from
    requires forall i | 0 <= i < BUCKETS :: buckets[i] == EMPTY_POINT
    modifies buckets
    ensures AllHolding(buckets[..], rows, from, step)
  {
    for n := 0 to |rows|
      invariant AllHolding(buckets[..], rows[..n], from, step)
    {
      assert rows[n] in rows && rows[..n] + [rows[n]] == rows[..n + 1];
      PutRow(buckets, rows[..n], rows[n], from, step);
    }
    assert rows[..|rows|] == rows;
  }

  /** Divides sums by counts. */
  method Divide(average: Values, count: nat, ghost sums: Five) returns (average': Values)
    requires count > 0 && average == sums.AsArray()
    ensures average' == Scale(sums, count).AsArray()
  {
    average' := average;
    for j := 0 to FIELDS
      invariant forall k | 0 <= k < FIELDS :: average'[k] == if k < j then average[k] / count as real else average[k]
    {
      average' := average'[j := average'[j] / count as real];
    }
  }

  /** Turns the sums of a bucket into averages. */
  method FinishBucket(b: TrendPoint, ghost at: int, ghost s: Summary) returns (p: TrendPoint)
    requires Holding(b, s, at) && b.count > 0
    ensures p == Finish(at, s)
  {
    var average := Divide(b.average, b.count, s.sums);
    p := b.(average := average);
  }

  /** The second loop: the buckets that hold something become points, in order. */
  method FinishPoints(buckets: seq<TrendPoint>, ghost rows: seq<Row>, ghost from: int, ghost step: int)
    returns (points: seq<TrendPoint>)
    requires AllHolding(buckets, rows, from, step)
    ensures points == Points(rows, from, step, BUCKETS)
  {
    points := [];
    for i := 0 to BUCKETS
      invariant points == Points(rows, from, step, i)
    {
      ghost var s := Bucket(rows, from, step, i);
      assert Holding(buckets[i], s, Start(from, step, i));
      if buckets[i].count > 0 {
        var p := FinishBucket(buckets[i], Start(from, step, i), s);
        points := points + [p];
      }
    }
  }

  /** Aggregates the rows of a window, in ascending order, into at most 360 points. */
  method Aggregate(rows: seq<Row>, from: int, to: int) returns (points: seq<TrendPoint>)
    requires to - from >= BUCKETS && forall r | r in rows :: r.at >= from
    ensures points == TrendPoints(rows, from, to)
  {
    var step := (to - from) / BUCKETS;
    var buckets := new TrendPoint[BUCKETS](_ => EMPTY_POINT);
    FillBuckets(buckets, rows, from, step);
    points := FinishPoints(buckets[..], rows, from, step);
  }

  /** The rows are those stored for the device in the window, by ascending time. */
  ghost predicate WindowRows(samples: map<SampleKey, Metrics>, id: string, from: int, to: int, rows: seq<Row>) {
    && Ascending(rows)
    && (forall k | k in samples && k.agent == id && from <= k.at < to :: RowOf(k.at, samples[k]) in rows)
    && (forall r | r in rows :: from <= r.at < to && SampleKey(id, r.at) in samples
          && r == RowOf(r.at, samples[SampleKey(id, r.at)]))
  }

  /** The keys of the window. */
  function KeysOf(samples: map<SampleKey, Metrics>, id: string, from: int, to: int): set<SampleKey> {
    set k | k in samples && k.agent == id && from <= k.at < to
  }

  /** All but the remaining keys of one device, which are later than all rows, have been read, in order. */
  ghost predicate Read(samples: map<SampleKey, Metrics>, id: string, all: set<SampleKey>, left: set<SampleKey>,
                       rows: seq<Row>) {
    && Ascending(rows)
    && left <= all && all <= samples.Keys
    && (forall k | k in all :: k.agent == id)
    && (forall r, k | r in rows && k in left :: r.at < k.at)
    && (forall k | k in all :: k in left || RowOf(k.at, samples[k]) in rows)
    && (forall r | r in rows :: SampleKey(id, r.at) in all && r == RowOf(r.at, samples[SampleKey(id, r.at)]))
  }

  lemma ReadNext(samples: map<SampleKey, Metrics>, id: string, all: set<SampleKey>, left: set<SampleKey>,
                 rows: seq<Row>, k: SampleKey)
    requires Read(samples, id, all, left, rows) && k in left
    requires forall l | l in left && l != k :: k.at < l.at
    ensures Read(samples, id, all, left - {k}, rows + [RowOf(k.at, samples[k])])
  {
    var row := RowOf(k.at, samples[k]);
    assert k == SampleKey(id, row.at);
    assert row in rows + [row];
    forall l | l in all
      ensures l in left - {k} || RowOf(l.at, samples[l]) in rows + [row]
    {
      assert l in left || RowOf(l.at, samples[l]) in rows;
    }
  }

  lemma ReadAll(samples: map<SampleKey, Metrics>, id: string, from: int, to: int, rows: seq<Row>)
    requires Read(samples, id, KeysOf(samples, id, from, to), {}, rows)
    ensures WindowRows(samples, id, from, to, rows)
  {
    forall k | k in samples && k.agent == id && from <= k.at < to
      ensures RowOf(k.at, samples[k]) in rows
    {
      assert k in KeysOf(samples, id, from, to);
    }
  }

  /** `SELECT ... WHERE agent_id=? AND collected_at_ns>=? AND collected_at_ns<? ORDER BY collected_at_ns`. */
  method QueryWindow(samples: map<SampleKey, Metrics>, id: string, from: int, to: int) returns (rows: seq<Row>)
    ensures WindowRows(samples, id, from, to, rows)
  {
    rows := [];
    var left := KeysOf(samples, id, from, to);
    ghost var all := left;
    while left != {}
      invariant Read(samples, id, all, left, rows)
      decreases left
    {
      var k := Earliest(left, id);
      ReadNext(samples, id, all, left, rows, k);
      rows := rows + [RowOf(k.at, samples[k])];
      left := left - {k};
    }
    ReadAll(samples, id, from, to, rows);
  }

  method Earliest(keys: set<SampleKey>, ghost id: string) returns (first: SampleKey)
    requires keys != {} && forall k | k in keys :: k.agent == id
    ensures first in keys && forall k | k in keys && k != first :: first.at < k.at
  {
    first :| first in keys;
    var left := keys - {first};
    while left != {}
      invariant left <= keys && first in keys - left
      invariant forall k | k in keys - left :: first.at <= k.at
      decreases left
    {
      var k :| k in left;
      if k.at < first.at {
        first := k;
      }
      left := left - {k};
    }
    assert forall k | k in keys && k.at == first.at :: k == first;
  }

  /** Rows with the same elements, both in ascending order, are the same. */
  lemma {:induction false} OneAscendingOrder(a: seq<Row>, b: seq<Row>)
    requires Ascending(a) && Ascending(b) && forall r :: r in a <==> r in b
    ensures a == b
  {
    assert (|a| > 0 ==> a[0] in a) && (|b| > 0 ==> b[0] in b);
    if |a| > 0 && |b| > 0 {
      var m, n := |a| - 1, |b| - 1;
      assert a[m] in b && b[n] in a;
      assert a[m] == b[n];
      AllButLast(a);
      AllButLast(b);
      forall r
        ensures r in a[..m] <==> r in b[..n]
      {
        assert r in a <==> r in b;
      }
      OneAscendingOrder(a[..m], b[..n]);
      assert a == a[..m] + [a[m]] && b == b[..n] + [b[n]];
    }
  }

  /** In ascending order the last row differs from the others. */
  lemma AllButLast(a: seq<Row>)
    requires Ascending(a) && |a| > 0
    ensures Ascending(a[..|a| - 1])
    ensures forall r :: r in a[..|a| - 1] <==> r in a && r != a[|a| - 1]
  {
    assert a == a[..|a| - 1] + [a[|a| - 1]];
  }

  /** So a query has one result. */
  lemma OneWindow(samples: map<SampleKey, Metrics>, id: string, from: int, to: int, a: seq<Row>, b: seq<Row>)
    requires WindowRows(samples, id, from, to, a) && WindowRows(samples, id, from, to, b)
    ensures a == b
  {
    forall r
      ensures r in a <==> r in b
    {
      if r in a || r in b {
        assert SampleKey(id, r.at) in samples && r == RowOf(r.at, samples[SampleKey(id, r.at)]);
      }
    }
    OneAscendingOrder(a, b);
  }

  // ---- What an answer says about the samples ----

  lemma {:induction false} WindowAscends(rows: seq<Row>, lo: int, hi: int)
    requires Ascending(rows)
    ensures Ascending(InWindow(rows, lo, hi))
  {
    if |rows| > 0 {
      var init, last := rows[..|rows| - 1], rows[|rows| - 1];
      WindowAscends(init, lo, hi);
      forall r | r in InWindow(init, lo, hi)
        ensures r.at < last.at
      {
        InWindowMeans(init, lo, hi, r);
      }
    }
  }

  /** The rows of a part of the window. */
  lemma RowsOfPart(samples: map<SampleKey, Metrics>, id: string, from: int, to: int, rows: seq<Row>, lo: int, hi: int)
    requires WindowRows(samples, id, from, to, rows) && from <= lo && hi <= to
    ensures WindowRows(samples, id, lo, hi, InWindow(rows, lo, hi))
  {
    WindowAscends(rows, lo, hi);
    forall r
      ensures r in InWindow(rows, lo, hi) <==> r in rows && lo <= r.at < hi
    {
      InWindowMeans(rows, lo, hi, r);
    }
  }

  /** The values of all keys together. */
  ghost function Sum(values: map<SampleKey, real>): real
    decreases |values|
  {
    if values == map[] then 0.0
    else
      var k :| k in values;
      values[k] + Sum(values - {k})
  }

  lemma {:induction false} SumAdd(values: map<SampleKey, real>, k: SampleKey)
    requires k in values
    ensures Sum(values) == values[k] + Sum(values - {k})
    decreases |values|
  {
    var first :| first in values && Sum(values) == values[first] + Sum(values - {first});
    if first != k {
      SumAdd(values - {first}, k);
      SumAdd(values - {k}, first);
      assert values - {first} - {k} == values - {k} - {first};
    }
  }

  ghost function SumUp(vs: seq<real>): real {
    if |vs| == 0 then 0.0 else SumUp(vs[..|vs| - 1]) + vs[|vs| - 1]
  }

  /** The keys are those of the map, once each, with these values. */
  ghost predicate Lists(keys: seq<SampleKey>, vs: seq<real>, values: map<SampleKey, real>) {
    && |keys| == |vs| && NoRepeats(keys) && (forall k :: k in keys <==> k in values)
    && forall i | 0 <= i < |keys| :: keys[i] in values && values[keys[i]] == vs[i]
  }

  lemma ListsInit(keys: seq<SampleKey>, vs: seq<real>, values: map<SampleKey, real>)
    requires Lists(keys, vs, values) && |keys| > 0
    ensures var n := |keys| - 1;
            Lists(keys[..n], vs[..n], values - {keys[n]}) && keys[n] in values && values[keys[n]] == vs[n]
  {
    var n := |keys| - 1;
    assert keys == keys[..n] + [keys[n]];
  }

  lemma {:induction false} ListedSum(keys: seq<SampleKey>, vs: seq<real>, values: map<SampleKey, real>)
    requires Lists(keys, vs, values)
    ensures |values| == |vs| && Sum(values) == SumUp(vs)
  {
    if |keys| == 0 {
      assert values == map[];
    } else {
      var n := |keys| - 1;
      ListsInit(keys, vs, values);
      ListedSum(keys[..n], vs[..n], values - {keys[n]});
      SumAdd(values, keys[n]);
      assert values.Keys == (values - {keys[n]}).Keys + {keys[n]};
    }
  }

  /** Count times average is the sum of the values, and the peak is the highest of 0 and the values. */
  ghost predicate Plots(count: nat, average: real, peak: real, values: map<SampleKey, real>) {
    && count == |values|
    && average * count as real == Sum(values)
    && peak >= 0.0 && (forall k | k in values :: values[k] <= peak)
    && (peak == 0.0 || exists k | k in values :: values[k] == peak)
  }

  /** The same said of listed values. */
  ghost predicate PlotsListed(count: nat, average: real, peak: real, vs: seq<real>) {
    && count == |vs|
    && average * count as real == SumUp(vs)
    && peak >= 0.0 && (forall v | v in vs :: v <= peak)
    && (peak == 0.0 || peak in vs)
  }

  lemma ListedPlots(count: nat, average: real, peak: real, keys: seq<SampleKey>, vs: seq<real>,
                    values: map<SampleKey, real>)
    requires Lists(keys, vs, values) && PlotsListed(count, average, peak, vs)
    ensures Plots(count, average, peak, values)
  {
    ListedSum(keys, vs, values);
    forall k | k in values
      ensures values[k] <= peak
    {
      var i :| 0 <= i < |keys| && keys[i] == k;
      assert vs[i] in vs;
    }
    if peak != 0.0 {
      var i :| 0 <= i < |vs| && vs[i] == peak;
      assert values[keys[i]] == peak;
    }
  }

  /** One value of each row. */
  ghost function Column(rows: seq<Row>, field: nat): seq<real>
    requires field < FIELDS
  {
    seq(|rows|, i requires 0 <= i < |rows| => rows[i].values.At(field))
  }

  lemma {:induction false} ColumnSum(rows: seq<Row>, field: nat)
    requires field < FIELDS
    ensures SumUp(Column(rows, field)) == SumOf(rows, field)
  {
    if |rows| > 0 {
      var n := |rows| - 1;
      ColumnSum(rows[..n], field);
      assert Column(rows, field)[..n] == Column(rows[..n], field);
    }
  }

  /** What a summary says of one field of its rows. */
  ghost predicate Says(s: Summary, field: nat, vs: seq<real>)
    requires field < FIELDS
  {
    && s.count == |vs| && s.sums.At(field) == SumUp(vs)
    && s.peaks.At(field) >= 0.0 && (forall v | v in vs :: v <= s.peaks.At(field))
    && (s.peaks.At(field) == 0.0 || s.peaks.At(field) in vs)
  }

  lemma SummarySays(rows: seq<Row>, field: nat)
    requires field < FIELDS
    ensures Says(Summarize(rows), field, Column(rows, field))
  {
    SumsMean(rows, field);
    PeaksMean(rows, field);
    ColumnSum(rows, field);
    ColumnPeak(rows, field, Summarize(rows).peaks.At(field));
  }

  lemma FinishPlots(s: Summary, at: int, field: nat, vs: seq<real>, p: TrendPoint)
    requires field < FIELDS && s.count > 0 && Says(s, field, vs) && p == Finish(at, s)
    ensures PlotsListed(p.count, p.average[field], p.peak[field], vs)
  {
    AverageTimesCount(at, s, field);
    PeakIs(s, at, field);
  }

  lemma ColumnPeak(rows: seq<Row>, field: nat, peak: real)
    requires field < FIELDS && forall r | r in rows :: r.values.At(field) <= peak
    requires peak == 0.0 || exists r :: r in rows && r.values.At(field) == peak
    ensures forall v | v in Column(rows, field) :: v <= peak
    ensures peak == 0.0 || peak in Column(rows, field)
  {
    var vs := Column(rows, field);
    forall v | v in vs
      ensures v <= peak
    {
      var i :| 0 <= i < |vs| && vs[i] == v;
      assert rows[i] in rows;
    }
    if peak != 0.0 {
      var r :| r in rows && r.values.At(field) == peak;
      var i :| 0 <= i < |rows| && rows[i] == r;
      assert vs[i] == peak;
    }
  }

  lemma PeakIs(s: Summary, at: int, field: nat)
    requires field < FIELDS && s.count > 0
    ensures Finish(at, s).peak[field] == s.peaks.At(field)
  {
  }

  /** The stored samples of a device from one time up to another. */
  ghost predicate Among(samples: map<SampleKey, Metrics>, id: string, lo: int, hi: int, k: SampleKey) {
    k in samples && k.agent == id && lo <= k.at < hi
  }

  /** The sample's rates are unusable, or another one has a different scope. */
  ghost predicate Spoils(samples: map<SampleKey, Metrics>, id: string, lo: int, hi: int, k: SampleKey) {
    Among(samples, id, lo, hi, k) &&
    var m := samples[k];
    || m.rateUnavailable || m.scope.Unavailable? || |m.missing| > 0
    || exists l | Among(samples, id, lo, hi, l) ::
         samples[l].scope != m.scope || samples[l].interfaces != m.interfaces
  }

  /** What a point says about the samples of its interval: CPU, memory, disk and the two rates, and the network. */
  ghost predicate IsPoint(samples: map<SampleKey, Metrics>, id: string, lo: int, hi: int, p: TrendPoint) {
    && p.at == lo && p.count > 0
    && Plots(p.count, p.average[0], p.peak[0],
             map k | k in samples && Among(samples, id, lo, hi, k) :: samples[k].cpuPercent)
    && Plots(p.count, p.average[1], p.peak[1],
             map k | k in samples && Among(samples, id, lo, hi, k) ::
               if samples[k].memoryTotal > 0
               then 100.0 * samples[k].memoryUsed as real / samples[k].memoryTotal as real else 0.0)
    && Plots(p.count, p.average[2], p.peak[2],
             map k | k in samples && Among(samples, id, lo, hi, k) ::
               if samples[k].diskTotal > 0
               then 100.0 * samples[k].diskUsed as real / samples[k].diskTotal as real else 0.0)
    && Plots(p.count, p.average[3], p.peak[3],
             map k | k in samples && Among(samples, id, lo, hi, k) :: samples[k].received)
    && Plots(p.count, p.average[4], p.peak[4],
             map k | k in samples && Among(samples, id, lo, hi, k) :: samples[k].sent)
    && (p.unavailable <==> exists k :: Spoils(samples, id, lo, hi, k))
    && exists k | IsEarliest(samples, id, lo, hi, k) :: p.scope == Scope(samples[k].scope, samples[k].interfaces)
  }

  ghost predicate IsEarliest(samples: map<SampleKey, Metrics>, id: string, lo: int, hi: int, k: SampleKey) {
    Among(samples, id, lo, hi, k) && forall l | Among(samples, id, lo, hi, l) :: k.at <= l.at
  }

  lemma PercentIs(used: int, total: int)
    ensures Percent(used, total) == if total > 0 then 100.0 * used as real / total as real else 0.0
  {
  }

  /** The keys of the rows, in their order. */
  ghost function KeysOfRows(id: string, rows: seq<Row>): seq<SampleKey> {
    seq(|rows|, i requires 0 <= i < |rows| => SampleKey(id, rows[i].at))
  }

  lemma RowsListKeys(samples: map<SampleKey, Metrics>, id: string, lo: int, hi: int, rows: seq<Row>)
    requires WindowRows(samples, id, lo, hi, rows)
    ensures NoRepeats(KeysOfRows(id, rows))
    ensures forall k :: k in KeysOfRows(id, rows) <==> Among(samples, id, lo, hi, k)
  {
    var keys := KeysOfRows(id, rows);
    forall k | k in keys
      ensures Among(samples, id, lo, hi, k)
    {
      var i :| 0 <= i < |keys| && keys[i] == k;
      assert rows[i] in rows;
    }
    forall k | Among(samples, id, lo, hi, k)
      ensures k in keys
    {
      assert RowOf(k.at, samples[k]) in rows;
      var i :| 0 <= i < |rows| && rows[i] == RowOf(k.at, samples[k]);
      assert keys[i] == k;
    }
  }

  /** What a finished summary says of the values that the samples have for one field. */
  lemma FieldPlots(samples: map<SampleKey, Metrics>, id: string, lo: int, hi: int, rows: seq<Row>, field: nat,
                   values: map<SampleKey, real>, p: TrendPoint)
    requires field < FIELDS && WindowRows(samples, id, lo, hi, rows) && IsFinished(rows, lo, p)
    requires forall k :: k in values <==> Among(samples, id, lo, hi, k)
    requires forall k | k in values && k in samples :: values[k] == ValuesOf(samples[k]).At(field)
    ensures Plots(p.count, p.average[field], p.peak[field], values)
  {
    SummarySays(rows, field);
    FinishPlots(Summarize(rows), lo, field, Column(rows, field), p);
    RowsListKeys(samples, id, lo, hi, rows);
    RowsListValues(samples, id, lo, hi, rows, field, values);
    ListedPlots(p.count, p.average[field], p.peak[field], KeysOfRows(id, rows), Column(rows, field), values);
  }

  /** The point is the finished summary of the rows. */
  ghost predicate IsFinished(rows: seq<Row>, at: int, p: TrendPoint) {
    Summarize(rows).count > 0 && p == Finish(at, Summarize(rows))
  }

  lemma RowsListValues(samples: map<SampleKey, Metrics>, id: string, lo: int, hi: int, rows: seq<Row>, field: nat,
                       values: map<SampleKey, real>)
    requires field < FIELDS && WindowRows(samples, id, lo, hi, rows)
    requires forall k :: k in values <==> Among(samples, id, lo, hi, k)
    requires forall k | k in values && k in samples :: values[k] == ValuesOf(samples[k]).At(field)
    requires NoRepeats(KeysOfRows(id, rows))
    requires forall k :: k in KeysOfRows(id, rows) <==> Among(samples, id, lo, hi, k)
    ensures Lists(KeysOfRows(id, rows), Column(rows, field), values)
  {
    var keys := KeysOfRows(id, rows);
    forall i | 0 <= i < |keys|
      ensures keys[i] in values && values[keys[i]] == Column(rows, field)[i]
    {
      assert keys[i] in keys && rows[i] in rows;
      assert rows[i] == RowOf(keys[i].at, samples[keys[i]]);
    }
  }

  lemma PlotsLoad(samples: map<SampleKey, Metrics>, id: string, lo: int, hi: int, rows: seq<Row>, p: TrendPoint)
    requires WindowRows(samples, id, lo, hi, rows) && IsFinished(rows, lo, p)
    ensures Plots(p.count, p.average[1], p.peak[1], map k | k in samples && Among(samples, id, lo, hi, k) ::
                    if samples[k].memoryTotal > 0
                    then 100.0 * samples[k].memoryUsed as real / samples[k].memoryTotal as real else 0.0)
    ensures Plots(p.count, p.average[2], p.peak[2], map k | k in samples && Among(samples, id, lo, hi, k) ::
                    if samples[k].diskTotal > 0
                    then 100.0 * samples[k].diskUsed as real / samples[k].diskTotal as real else 0.0)
  {
    forall used, total
      ensures Percent(used, total) == if total > 0 then 100.0 * used as real / total as real else 0.0
    {
      PercentIs(used, total);
    }
    FieldPlots(samples, id, lo, hi, rows, 1, map k | k in samples && Among(samples, id, lo, hi, k) ::
                 if samples[k].memoryTotal > 0
                 then 100.0 * samples[k].memoryUsed as real / samples[k].memoryTotal as real else 0.0, p);
    FieldPlots(samples, id, lo, hi, rows, 2, map k | k in samples && Among(samples, id, lo, hi, k) ::
                 if samples[k].diskTotal > 0
                 then 100.0 * samples[k].diskUsed as real / samples[k].diskTotal as real else 0.0, p);
  }

  lemma PlotsCpu(samples: map<SampleKey, Metrics>, id: string, lo: int, hi: int, rows: seq<Row>, p: TrendPoint)
    requires WindowRows(samples, id, lo, hi, rows) && IsFinished(rows, lo, p)
    ensures Plots(p.count, p.average[0], p.peak[0],
                  map k | k in samples && Among(samples, id, lo, hi, k) :: samples[k].cpuPercent)
  {
    FieldPlots(samples, id, lo, hi, rows, 0,
               map k | k in samples && Among(samples, id, lo, hi, k) :: samples[k].cpuPercent, p);
  }

  lemma PlotsReceived(samples: map<SampleKey, Metrics>, id: string, lo: int, hi: int, rows: seq<Row>, p: TrendPoint)
    requires WindowRows(samples, id, lo, hi, rows) && IsFinished(rows, lo, p)
    ensures Plots(p.count, p.average[3], p.peak[3],
                  map k | k in samples && Among(samples, id, lo, hi, k) :: samples[k].received)
  {
    FieldPlots(samples, id, lo, hi, rows, 3,
               map k | k in samples && Among(samples, id, lo, hi, k) :: samples[k].received, p);
  }

  lemma PlotsSent(samples: map<SampleKey, Metrics>, id: string, lo: int, hi: int, rows: seq<Row>, p: TrendPoint)
    requires WindowRows(samples, id, lo, hi, rows) && IsFinished(rows, lo, p)
    ensures Plots(p.count, p.average[4], p.peak[4],
                  map k | k in samples && Among(samples, id, lo, hi, k) :: samples[k].sent)
  {
    FieldPlots(samples, id, lo, hi, rows, 4,
               map k | k in samples && Among(samples, id, lo, hi, k) :: samples[k].sent, p);
  }

  /** The rows are unusable together exactly when some sample spoils them. */
  lemma SpoiledMeans(samples: map<SampleKey, Metrics>, id: string, lo: int, hi: int, rows: seq<Row>)
    requires WindowRows(samples, id, lo, hi, rows)
    ensures Unusable(rows) <==> exists k :: Spoils(samples, id, lo, hi, k)
  {
    if i :| 0 <= i < |rows| && (rows[i].flagged || rows[i].scope != rows[0].scope) {
      assert rows[i] in rows && rows[0] in rows;
      var k, l := SampleKey(id, rows[i].at), SampleKey(id, rows[0].at);
      assert Among(samples, id, lo, hi, l) && rows[0] == RowOf(l.at, samples[l]);
      assert Spoils(samples, id, lo, hi, k);
    }
    if k :| Spoils(samples, id, lo, hi, k) {
      assert RowOf(k.at, samples[k]) in rows;
      var i :| 0 <= i < |rows| && rows[i] == RowOf(k.at, samples[k]);
      if !rows[i].flagged {
        var l :| Among(samples, id, lo, hi, l) &&
                 (samples[l].scope != samples[k].scope || samples[l].interfaces != samples[k].interfaces);
        assert RowOf(l.at, samples[l]) in rows;
        var j :| 0 <= j < |rows| && rows[j] == RowOf(l.at, samples[l]);
        assert rows[i].scope != rows[0].scope || rows[j].scope != rows[0].scope;
      }
    }
  }

  /** The first row is the earliest sample. */
  lemma FirstIsEarliest(samples: map<SampleKey, Metrics>, id: string, lo: int, hi: int, rows: seq<Row>)
    requires WindowRows(samples, id, lo, hi, rows) && |rows| > 0
    ensures var k := SampleKey(id, rows[0].at);
            IsEarliest(samples, id, lo, hi, k) && rows[0].scope == Scope(samples[k].scope, samples[k].interfaces)
  {
    assert rows[0] in rows;
    forall l | Among(samples, id, lo, hi, l)
      ensures rows[0].at <= l.at
    {
      assert RowOf(l.at, samples[l]) in rows;
      var i :| 0 <= i < |rows| && rows[i] == RowOf(l.at, samples[l]);
    }
  }

  /** The finished summary of the rows of an interval is the point of its samples. */
  lemma SummaryIsPoint(samples: map<SampleKey, Metrics>, id: string, lo: int, hi: int, rows: seq<Row>)
    requires WindowRows(samples, id, lo, hi, rows) && |rows| > 0
    ensures Summarize(rows).count == |rows| && IsPoint(samples, id, lo, hi, Finish(lo, Summarize(rows)))
  {
    SummaryIsProper(rows);
    var p := Finish(lo, Summarize(rows));
    PlotsCpu(samples, id, lo, hi, rows, p);
    PlotsLoad(samples, id, lo, hi, rows, p);
    PlotsReceived(samples, id, lo, hi, rows, p);
    PlotsSent(samples, id, lo, hi, rows, p);
    NetworkMeans(rows);
    SpoiledMeans(samples, id, lo, hi, rows);
    FirstIsEarliest(samples, id, lo, hi, rows);
    SumsMean(rows, 0);
  }

  /** The point is that of the i-th step. */
  ghost predicate PointAt(samples: map<SampleKey, Metrics>, id: string, from: int, step: int, i: nat, p: TrendPoint) {
    p.at == from + i * step && IsPoint(samples, id, Start(from, step, i), Start(from, step, i + 1), p)
  }

  /** The device has samples in the i-th step. */
  ghost predicate Busy(samples: map<SampleKey, Metrics>, id: string, from: int, step: int, i: nat) {
    var lo, hi := Start(from, step, i), Start(from, step, i + 1);
    exists k :: Among(samples, id, lo, hi, k)
  }

  ghost function PointsOfSteps(samples: map<SampleKey, Metrics>, id: string, from: int,
                               step: int): (nat, TrendPoint) -> bool {
    (i: nat, p: TrendPoint) => PointAt(samples, id, from, step, i, p)
  }

  ghost function BusySteps(samples: map<SampleKey, Metrics>, id: string, from: int, step: int): nat -> bool {
    (i: nat) => Busy(samples, id, from, step, i)
  }

  /** Ascending points, one for each of the n steps with samples, and no other. */
  ghost predicate Answers(samples: map<SampleKey, Metrics>, id: string, from: int, step: int, n: nat,
                          points: seq<TrendPoint>)
  {
    && (forall i, j | 0 <= i < j < |points| :: points[i].at < points[j].at)
    && Covers(PointsOfSteps(samples, id, from, step), BusySteps(samples, id, from, step), n, points)
  }

  lemma BucketIsPoint(samples: map<SampleKey, Metrics>, id: string, from: int, to: int, rows: seq<Row>, step: int,
                      i: nat)
    requires step > 0 && WindowRows(samples, id, from, to, rows) && Start(from, step, i + 1) <= to
    ensures var b := Bucket(rows, from, step, i);
            && (b.count > 0 <==> Busy(samples, id, from, step, i))
            && (b.count > 0 ==> PointAt(samples, id, from, step, i, Finish(Start(from, step, i), b)))
  {
    var lo, hi := Start(from, step, i), Start(from, step, i + 1);
    var part := InWindow(rows, lo, hi);
    StartsAscend(from, step, 0, i);
    RowsOfPart(samples, id, from, to, rows, lo, hi);
    SummaryIsProper(part);
    StartIs(from, step, i);
    if |part| > 0 {
      assert part[0] in part;
      assert Among(samples, id, lo, hi, SampleKey(id, part[0].at));
      SummaryIsPoint(samples, id, lo, hi, part);
    }
    if Busy(samples, id, from, step, i) {
      var k :| Among(samples, id, lo, hi, k);
      assert RowOf(k.at, samples[k]) in part;
    }
  }

  /** Each of the first n steps that are busy has its point, and each point has its step. */
  ghost predicate Covers(fits: (nat, TrendPoint) -> bool, busy: nat -> bool, n: nat, points: seq<TrendPoint>) {
    && (forall p | p in points :: exists i: nat | i < n :: fits(i, p))
    && (forall i: nat | i < n && busy(i) :: exists p | p in points :: fits(i, p))
  }

  lemma NextEmpty(fits: (nat, TrendPoint) -> bool, busy: nat -> bool, n: nat, points: seq<TrendPoint>)
    requires Covers(fits, busy, n, points) && !busy(n)
    ensures Covers(fits, busy, n + 1, points)
  {
    forall p | p in points
      ensures exists i: nat | i < n + 1 :: fits(i, p)
    {
      var i: nat :| i < n && fits(i, p);
    }
  }

  lemma NextPoint(fits: (nat, TrendPoint) -> bool, busy: nat -> bool, n: nat, points: seq<TrendPoint>, more: TrendPoint)
    requires Covers(fits, busy, n, points) && fits(n, more)
    ensures Covers(fits, busy, n + 1, points + [more])
  {
    forall p | p in points + [more]
      ensures exists i: nat | i < n + 1 :: fits(i, p)
    {
      if p in points {
        var i: nat :| i < n && fits(i, p);
      }
    }
    forall i: nat | i < n + 1 && busy(i)
      ensures exists p | p in points + [more] :: fits(i, p)
    {
      if i == n {
        assert more in points + [more];
      } else {
        var p :| p in points && fits(i, p);
        assert p in points + [more];
      }
    }
  }

  /** The parts, one after the other. */
  ghost function Joined(parts: seq<seq<TrendPoint>>): seq<TrendPoint> {
    if |parts| == 0 then [] else Joined(parts[..|parts| - 1]) + parts[|parts| - 1]
  }

  /** The i-th part is one point that fits, or none where the step is not busy. */
  ghost predicate IsPart(fits: (nat, TrendPoint) -> bool, busy: nat -> bool, i: nat, part: seq<TrendPoint>) {
    if busy(i) then |part| == 1 && fits(i, part[0]) else part == []
  }

  lemma {:induction false} PartsCover(fits: (nat, TrendPoint) -> bool, busy: nat -> bool, parts: seq<seq<TrendPoint>>)
    requires forall i: nat | i < |parts| :: IsPart(fits, busy, i, parts[i])
    ensures Covers(fits, busy, |parts|, Joined(parts))
  {
    if |parts| > 0 {
      var n := |parts| - 1;
      var before, part := Joined(parts[..n]), parts[n];
      forall i: nat | i < n
        ensures IsPart(fits, busy, i, parts[..n][i])
      {
        assert IsPart(fits, busy, i, parts[i]);
      }
      PartsCover(fits, busy, parts[..n]);
      assert IsPart(fits, busy, n, part);
      if busy(n) {
        assert part == [part[0]];
        NextPoint(fits, busy, n, before, part[0]);
      } else {
        NextEmpty(fits, busy, n, before);
        assert before + [] == before;
      }
    }
  }

  /** What grows by one part after the other is the parts joined. */
  lemma {:induction false} GrowsJoined(points: nat -> seq<TrendPoint>, parts: seq<seq<TrendPoint>>)
    requires points(0) == [] && forall i: nat | i < |parts| :: points(i + 1) == points(i) + parts[i]
    ensures points(|parts|) == Joined(parts)
  {
    if |parts| > 0 {
      GrowsJoined(points, parts[..|parts| - 1]);
    }
  }

  ghost function PartAt(rows: seq<Row>, from: int, step: int, i: nat): seq<TrendPoint> {
    PointOf(Bucket(rows, from, step, i), Start(from, step, i))
  }

  /** The points of the first n buckets, bucket by bucket. */
  ghost function Parts(rows: seq<Row>, from: int, step: int, n: nat): seq<seq<TrendPoint>> {
    seq(n, i requires 0 <= i < n => PartAt(rows, from, step, i))
  }

  lemma NextPart(rows: seq<Row>, from: int, step: int, n: nat, i: nat)
    requires i < n
    ensures Points(rows, from, step, i + 1) == Points(rows, from, step, i) + Parts(rows, from, step, n)[i]
  {
  }

  lemma PointsAreParts(rows: seq<Row>, from: int, step: int, n: nat)
    ensures Points(rows, from, step, n) == Joined(Parts(rows, from, step, n))
  {
    var points := Prefixes(rows, from, step);
    forall i: nat | i < n
      ensures points(i + 1) == points(i) + Parts(rows, from, step, n)[i]
    {
      NextPart(rows, from, step, n, i);
    }
    GrowsJoined(points, Parts(rows, from, step, n));
  }

  ghost function Prefixes(rows: seq<Row>, from: int, step: int): nat -> seq<TrendPoint> {
    (i: nat) => Points(rows, from, step, i)
  }

  lemma BucketIsPart(samples: map<SampleKey, Metrics>, id: string, from: int, to: int, rows: seq<Row>, i: nat)
    requires to - from >= BUCKETS && WindowRows(samples, id, from, to, rows) && i < BUCKETS
    ensures var step := (to - from) / BUCKETS;
            IsPart(PointsOfSteps(samples, id, from, step), BusySteps(samples, id, from, step), i,
                   PartAt(rows, from, step, i))
  {
    var step := (to - from) / BUCKETS;
    StepsFit(from, to);
    StartsAscend(from, step, i + 1, BUCKETS);
    BucketIsPoint(samples, id, from, to, rows, step, i);
  }

  /** The points of a window answer for its samples. */
  lemma PointsAnswer(samples: map<SampleKey, Metrics>, id: string, from: int, to: int, rows: seq<Row>)
    requires to - from >= BUCKETS && WindowRows(samples, id, from, to, rows)
    ensures Answers(samples, id, from, (to - from) / BUCKETS, BUCKETS, TrendPoints(rows, from, to))
  {
    var step := (to - from) / BUCKETS;
    var fits, busy := PointsOfSteps(samples, id, from, step), BusySteps(samples, id, from, step);
    var parts := Parts(rows, from, step, BUCKETS);
    PointsAscend(rows, from, step, BUCKETS);
    forall i: nat | i < BUCKETS
      ensures IsPart(fits, busy, i, parts[i])
    {
      BucketIsPart(samples, id, from, to, rows, i);
    }
    PartsCover(fits, busy, parts);
    PointsAreParts(rows, from, step, BUCKETS);
  }

  /** The time of the device's first sample of the window, and that of its last. */
  ghost predicate Spans(samples: map<SampleKey, Metrics>, id: string, from: int, to: int, first: Option<int>,
                        last: Option<int>)
  {
    && (first.None? <==> forall k :: !Among(samples, id, from, to, k)) && (last.None? <==> first.None?)
    && (first.Some? ==> Among(samples, id, from, to, SampleKey(id, first.value)))
    && (last.Some? ==> Among(samples, id, from, to, SampleKey(id, last.value)))
    && (first.Some? && last.Some? ==>
          forall k | Among(samples, id, from, to, k) :: first.value <= k.at <= last.value)
  }

  lemma RowOfSample(samples: map<SampleKey, Metrics>, id: string, from: int, to: int, rows: seq<Row>, k: SampleKey)
    returns (i: nat)
    requires WindowRows(samples, id, from, to, rows) && Among(samples, id, from, to, k)
    ensures i < |rows| && rows[i].at == k.at
  {
    assert RowOf(k.at, samples[k]) in rows;
    i :| 0 <= i < |rows| && rows[i] == RowOf(k.at, samples[k]);
  }

  lemma RowsSpan(samples: map<SampleKey, Metrics>, id: string, from: int, to: int, rows: seq<Row>, first: Option<int>,
                 last: Option<int>)
    requires WindowRows(samples, id, from, to, rows)
    requires first == if |rows| == 0 then None else Some(rows[0].at)
    requires last == if |rows| == 0 then None else Some(rows[|rows| - 1].at)
    ensures Spans(samples, id, from, to, first, last)
  {
    forall k | Among(samples, id, from, to, k)
      ensures first.Some? && last.Some? && first.value <= k.at <= last.value
    {
      var i := RowOfSample(samples, id, from, to, rows, k);
    }
    if |rows| > 0 {
      assert rows[0] in rows && rows[|rows| - 1] in rows;
      assert Among(samples, id, from, to, SampleKey(id, rows[0].at));
    }
  }

  /** The trend of a device over a window: its points, and the times of the first and last sample. */
  method Trend(samples: map<SampleKey, Metrics>, id: string, from: int, to: int)
    returns (points: seq<TrendPoint>, first: Option<int>, last: Option<int>)
    requires to - from >= BUCKETS
    ensures Answers(samples, id, from, (to - from) / 360, 360, points) && Spans(samples, id, from, to, first, last)
    ensures forall rows: seq<Row> | WindowRows(samples, id, from, to, rows) ::
              && points == TrendPoints(rows, from, to)
              && first == (if |rows| == 0 then None else Some(rows[0].at))
              && last == if |rows| == 0 then None else Some(rows[|rows| - 1].at)
  {
    var found := QueryWindow(samples, id, from, to);
    points := Aggregate(found, from, to);
    first := if |found| == 0 then None else Some(found[0].at);
    last := if |found| == 0 then None else Some(found[|found| - 1].at);
    PointsAnswer(samples, id, from, to, found);
    RowsSpan(samples, id, from, to, found, first, last);
    forall rows: seq<Row> | WindowRows(samples, id, from, to, rows)
      ensures rows == found
    {
      OneWindow(samples, id, from, to, rows, found);
    }
  }

  /** All 360 steps lie in the window. */
  lemma StepsFit(from: int, to: int)
    requires to - from >= BUCKETS
    ensures (to - from) / BUCKETS > 0 && Start(from, (to - from) / BUCKETS, BUCKETS) <= to
  {
    StartIs(from, (to - from) / BUCKETS, BUCKETS);
  }

  /** One more row joins the summary of the window it falls into. */
  lemma NextRow(rows: seq<Row>, r: Row, lo: int, hi: int)
    ensures Summarize(InWindow(rows + [r], lo, hi)) ==
            if lo <= r.at < hi then Merge(Summarize(InWindow(rows, lo, hi)), One(r))
            else Summarize(InWindow(rows, lo, hi))
    ensures (rows + [r])[..|rows|] == rows
  {
    var before := InWindow(rows, lo, hi);
    assert (rows + [r])[..|rows|] == rows;
    assert (before + [r])[..|before|] == before;
    assert before + [] == before;
  }

  // ---- Every sample counts once ----

  /** In a window of 360 steps every row lands in exactly one bucket, and that bucket's interval contains it. */
  lemma LandsOnce(at: int, from: int, to: int, step: int)
    requires step > 0 && from <= at < to && to - from == BUCKETS * step
    ensures exists index: nat | index < BUCKETS :: Lands(at, from, step, index) &&
              forall i: nat :: Lands(at, from, step, i) ==> i == index
  {
    var q := (at - from) / step;
    DivisionIs(at - from, step, q);
    BucketIndex(at, from, step, q);
    QuotientAtLeast(at - from, step, BUCKETS);
    forall i: nat | Lands(at, from, step, i)
      ensures i == q
    {
      LandsInOne(at, from, step, q, i);
    }
    assert Lands(at, from, step, q);
  }

  lemma QuotientAtLeast(x: int, step: int, n: nat)
    requires step > 0 && x >= 0
    ensures x / step >= n <==> x >= n * step
  {
    var q := x / step;
    assert q * step <= x < q * step + step;
    if q >= n {
      MultiplyMonotone(n, q, step);
    } else {
      MultiplyMonotone(q + 1, n, step);
      assert (q + 1) * step == q * step + step;
    }
  }

  lemma MultiplyMonotone(a: int, b: int, c: int)
    requires a <= b && c > 0
    ensures a * c <= b * c
  {
  }

  ghost function CountsOf(rows: seq<Row>, from: int, step: int, n: nat): nat {
    if n == 0 then 0 else CountsOf(rows, from, step, n - 1) + Bucket(rows, from, step, n - 1).count
  }

  lemma {:induction false} StartsAscend(from: int, step: int, i: nat, j: nat)
    requires step > 0 && i <= j
    ensures Start(from, step, i) <= Start(from, step, j)
    decreases j
  {
    if i < j {
      StartsAscend(from, step, i, j - 1);
    }
  }

  /** One more bucket extends the window. */
  lemma WindowNext(rows: seq<Row>, from: int, step: int, i: nat, n: nat)
    requires Ascending(rows) && step > 0 && i <= n
    ensures InWindow(rows, Start(from, step, i), Start(from, step, n + 1)) ==
            InWindow(rows, Start(from, step, i), Start(from, step, n)) +
            InWindow(rows, Start(from, step, n), Start(from, step, n + 1))
  {
    StartsAscend(from, step, i, n);
    WindowSplits(rows, Start(from, step, i), Start(from, step, n), Start(from, step, n + 1));
  }

  /** The rows of the buckets i to n - 1, bucket by bucket. */
  ghost function Windows(rows: seq<Row>, from: int, step: int, i: nat, n: nat): seq<seq<Row>>
    decreases n
  {
    if n <= i then []
    else Windows(rows, from, step, i, n - 1) + [InWindow(rows, Start(from, step, n - 1), Start(from, step, n))]
  }

  ghost function Concat(parts: seq<seq<Row>>): seq<Row> {
    if |parts| == 0 then [] else Concat(parts[..|parts| - 1]) + parts[|parts| - 1]
  }

  /** Merges the summaries of the parts. */
  ghost function MergeAll(parts: seq<seq<Row>>): Summary {
    if |parts| == 0 then NOTHING else Merge(MergeAll(parts[..|parts| - 1]), Summarize(parts[|parts| - 1]))
  }

  /** Merging the summaries of parts summarises their concatenation. */
  lemma {:induction false} MergeAllSummarizes(parts: seq<seq<Row>>)
    ensures MergeAll(parts) == Summarize(Concat(parts))
  {
    if |parts| > 0 {
      var init, last := parts[..|parts| - 1], parts[|parts| - 1];
      MergeAllSummarizes(init);
      SummarizeConcat(Concat(init), last);
    }
  }

  /** The buckets together are the window. */
  lemma {:induction false} WindowsCover(rows: seq<Row>, from: int, step: int, i: nat, n: nat)
    requires Ascending(rows) && step > 0 && i <= n
    ensures Concat(Windows(rows, from, step, i, n)) == InWindow(rows, Start(from, step, i), Start(from, step, n))
    decreases n
  {
    if i == n {
      EmptyWindow(rows, Start(from, step, i));
    } else {
      var init := Windows(rows, from, step, i, n - 1);
      var last := InWindow(rows, Start(from, step, n - 1), Start(from, step, n));
      WindowsCover(rows, from, step, i, n - 1);
      WindowNext(rows, from, step, i, n - 1);
      ConcatNext(init, last);
    }
  }

  lemma ConcatNext(init: seq<seq<Row>>, last: seq<Row>)
    ensures Concat(init + [last]) == Concat(init) + last
  {
    assert (init + [last])[..|init|] == init;
  }

  lemma {:induction false} EmptyWindow(rows: seq<Row>, at: int)
    ensures InWindow(rows, at, at) == []
  {
    if |rows| > 0 {
      EmptyWindow(rows[..|rows| - 1], at);
    }
  }

  /** The merge of the buckets i to n - 1. */
  ghost function MergeRange(rows: seq<Row>, from: int, step: int, i: nat, n: nat): Summary {
    MergeAll(Windows(rows, from, step, i, n))
  }

  /** In a window of 360 steps the counts of the buckets add up to the number of rows. */
  lemma {:induction false} CountsAddUp(rows: seq<Row>, from: int, step: int, n: nat)
    requires Ascending(rows) && step > 0
    ensures CountsOf(rows, from, step, n) == |InWindow(rows, from, Start(from, step, n))|
  {
    if n == 0 {
      EmptyWindow(rows, from);
    } else {
      CountsAddUp(rows, from, step, n - 1);
      StartsAscend(from, step, 0, n - 1);
      WindowSplits(rows, from, Start(from, step, n - 1), Start(from, step, n));
      SummaryIsProper(InWindow(rows, Start(from, step, n - 1), Start(from, step, n)));
    }
  }

  /** The number of samples behind some points. */
  function CountOf(points: seq<TrendPoint>): nat {
    if |points| == 0 then 0 else CountOf(points[..|points| - 1]) + points[|points| - 1].count
  }

  /** The last bucket and what it adds to points and counts. */
  lemma LastBucket(rows: seq<Row>, from: int, step: int, n: nat)
    returns (all: seq<TrendPoint>, before: seq<TrendPoint>, b: Summary, at: int)
    requires n > 0
    ensures all == Points(rows, from, step, n) && before == Points(rows, from, step, n - 1)
    ensures all == before + PointOf(b, at)
    ensures CountsOf(rows, from, step, n) == CountsOf(rows, from, step, n - 1) + b.count
  {
    all, before := Points(rows, from, step, n), Points(rows, from, step, n - 1);
    b, at := Bucket(rows, from, step, n - 1), Start(from, step, n - 1);
  }

  lemma {:induction false} PointsCount(rows: seq<Row>, from: int, step: int, n: nat)
    ensures CountOf(Points(rows, from, step, n)) == CountsOf(rows, from, step, n)
  {
    if n > 0 {
      PointsCount(rows, from, step, n - 1);
      var all, before, b, at := LastBucket(rows, from, step, n);
      CountMore(all, before, b, at);
    }
  }

  lemma CountMore(all: seq<TrendPoint>, points: seq<TrendPoint>, b: Summary, at: int)
    requires all == points + PointOf(b, at)
    ensures CountOf(all) == CountOf(points) + b.count
  {
    if b.count > 0 {
      assert (points + [Finish(at, b)])[..|points|] == points;
    } else {
      assert points + [] == points;
    }
  }

  lemma {:induction false} WindowKeepsAll(rows: seq<Row>, lo: int, hi: int)
    ensures |InWindow(rows, lo, hi)| <= |rows|
    ensures |InWindow(rows, lo, hi)| == |rows| <==> forall i | 0 <= i < |rows| :: lo <= rows[i].at < hi
  {
    if |rows| > 0 {
      WindowKeepsAll(rows[..|rows| - 1], lo, hi);
    }
  }

  /**
    The points count every sample of the window if and only if none of them lies behind the last whole step. When the
    window is a multiple of 360 steps, there is nothing behind it.
   */
  lemma LeftOutExactly(rows: seq<Row>, from: int, to: int)
    requires Ascending(rows) && to - from >= BUCKETS && forall i | 0 <= i < |rows| :: from <= rows[i].at < to
    ensures var end := Start(from, (to - from) / BUCKETS, BUCKETS);
            && end <= to && (end == to <==> (to - from) % BUCKETS == 0)
            && CountOf(TrendPoints(rows, from, to)) == |InWindow(rows, from, end)|
            && (CountOf(TrendPoints(rows, from, to)) == |rows| <==> forall i | 0 <= i < |rows| :: rows[i].at < end)
  {
    var step := (to - from) / BUCKETS;
    StartIs(from, step, BUCKETS);
    PointsCount(rows, from, step, BUCKETS);
    CountsAddUp(rows, from, step, BUCKETS);
    WindowKeepsAll(rows, from, Start(from, step, BUCKETS));
  }

  /** Points are strictly ascending in time, non-empty, and below the n-th step. */
  lemma {:induction false} PointsAscend(rows: seq<Row>, from: int, step: int, n: nat)
    requires step > 0
    ensures forall i, j | 0 <= i < j < |Points(rows, from, step, n)| ::
              Points(rows, from, step, n)[i].at < Points(rows, from, step, n)[j].at
    ensures forall p | p in Points(rows, from, step, n) :: p.count > 0 && p.at < Start(from, step, n)
  {
    if n > 0 {
      PointsAscend(rows, from, step, n - 1);
    }
  }

  // ---- The windows on offer ----

  /** The windows a request can get are multiples of 360 whole steps and end within the allowed lookback. */
  lemma ChosenWindows(r: TrendRange, now: int, end: WindowEnd)
    requires ChooseWindow(r, now, end).Window?
    ensures var w := ChooseWindow(r, now, end);
            && w.to - w.from == Duration(r) == BUCKETS * (Duration(r) / BUCKETS) && Duration(r) / BUCKETS > 0
            && w.to <= now
            && w.from >= now - (if r == Day then Duration(Day)
                                else if r == Hour then 12 * 3600 * SECOND else 6 * 3600 * SECOND)
  {
  }

  /** A past half hour may end up to five and a half hours back, a past hour up to eleven, and a past day not at all. */
  lemma PastWindows(now: int, to: int)
    ensures ChooseWindow(HalfHour, now, Past(to)) ==
            if now - 19_800_000_000_000 <= to <= now then Window(to - 1_800_000_000_000, to) else Refused
    ensures ChooseWindow(Hour, now, Past(to)) ==
            if now - 39_600_000_000_000 <= to <= now then Window(to - 3_600_000_000_000, to) else Refused
    ensures ChooseWindow(Day, now, Past(to)) == Refused
    ensures ChooseWindow(Day, now, Now) == Window(now - 86_400_000_000_000, now)
  {
  }

  /** Count times average gives the sum back. */
  lemma AverageTimesCount(at: int, s: Summary, i: nat)
    requires s.count > 0 && i < FIELDS
    ensures Finish(at, s).average[i] * s.count as real == s.sums.At(i)
  {
    assert Finish(at, s).average[i] == s.sums.At(i) / s.count as real;
    DivideMultiply(s.sums.At(i), s.count);
  }

  lemma DivideMultiply(x: real, n: nat)
    requires n > 0
    ensures x / n as real * n as real == x
  {
  }
}
