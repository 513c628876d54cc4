/** Trends of different ranges that end at the same time (internal/hub/trend.go): the coarse one merges the fine one. */
module TrendMerge {
  import opened HubDb
  import opened Trend

  // ---- Coarse buckets are merges of fine ones ----

  /** A bucket is the merge of the finer buckets, of another window, that together cover its interval. */
  lemma CoarseIsMerge(rows: seq<Row>, from: int, coarse: int, i: nat, later: int, step: int, m: nat, n: nat)
    requires Ascending(rows) && step > 0 && m <= n
    requires Start(from, coarse, i) == Start(later, step, m) && Start(from, coarse, i + 1) == Start(later, step, n)
    ensures Bucket(rows, from, coarse, i) == MergeRange(rows, later, step, m, n)
  {
    WindowsCover(rows, later, step, m, n);
    MergeAllSummarizes(Windows(rows, later, step, m, n));
  }

  /** Counting k small steps at a time, from a start that lies `offset` small steps earlier. */
  lemma CoarseStart(from: int, coarse: int, i: nat, later: int, step: int, k: nat, m: nat, offset: nat)
    requires coarse == k * step && later == from + offset * step && i * k == offset + m
    ensures Start(from, coarse, i) == Start(later, step, m)
  {
    StartIs(from, coarse, i);
    StartIs(later, step, m);
    assert i * (k * step) == (i * k) * step;
    assert (offset + m) * step == offset * step + m * step;
  }

  /** Merging a range of two is merging its two buckets. */
  lemma RangeOfTwo(rows: seq<Row>, from: int, step: int, i: nat)
    ensures MergeRange(rows, from, step, i, i + 2) ==
            Merge(Bucket(rows, from, step, i), Bucket(rows, from, step, i + 1))
  {
    NothingToMerge(rows, from, step, i, i);
    MergeRangeNext(rows, from, step, i, i + 1);
    MergeRangeNext(rows, from, step, i, i + 2);
    BucketIsProper(rows, from, step, i);
    MergeNothing(Bucket(rows, from, step, i));
  }

  lemma BucketIsProper(rows: seq<Row>, from: int, step: int, i: nat)
    ensures Proper(Bucket(rows, from, step, i))
  {
    SummaryIsProper(InWindow(rows, Start(from, step, i), Start(from, step, i + 1)));
  }

  // ---- Merging finished points ----

  function WeightedMean(x: real, m: nat, y: real, n: nat): real
    requires m + n > 0
  {
    (x * m as real + y * n as real) / (m + n) as real
  }

  function WeightedMeans(p: Values, m: nat, q: Values, n: nat): Values
    requires m + n > 0
  {
    [WeightedMean(p[0], m, q[0], n), WeightedMean(p[1], m, q[1], n), WeightedMean(p[2], m, q[2], n),
     WeightedMean(p[3], m, q[3], n), WeightedMean(p[4], m, q[4], n)]
  }

  function Peaks(p: Values, q: Values): Values {
    [MaxReal(p[0], q[0]), MaxReal(p[1], q[1]), MaxReal(p[2], q[2]), MaxReal(p[3], q[3]), MaxReal(p[4], q[4])]
  }

  /** Joins two points: counts add, averages are weighted by counts, peaks are maxima. */
  function MergePoints(p: TrendPoint, q: TrendPoint, at: int): TrendPoint
    requires p.count > 0 && q.count > 0
  {
    TrendPoint(p.unavailable || q.unavailable || p.scope != q.scope, p.scope, at, p.count + q.count,
               WeightedMeans(p.average, p.count, q.average, q.count), Peaks(p.peak, q.peak))
  }

  lemma WeightedMeanOfSums(s: real, m: nat, t: real, n: nat)
    requires m > 0 && n > 0
    ensures WeightedMean(s / m as real, m, t / n as real, n) == (s + t) / (m + n) as real
  {
    assert s / m as real * m as real == s;
    assert t / n as real * n as real == t;
  }

  /** The point of merged summaries is the merge of their points. */
  lemma FinishMerges(a: Summary, b: Summary, at: int, atA: int, atB: int)
    requires a.count > 0 && b.count > 0
    ensures Finish(at, Merge(a, b)) == MergePoints(Finish(atA, a), Finish(atB, b), at)
  {
    WeightedMeanOfSums(a.sums.cpu, a.count, b.sums.cpu, b.count);
    WeightedMeanOfSums(a.sums.memory, a.count, b.sums.memory, b.count);
    WeightedMeanOfSums(a.sums.disk, a.count, b.sums.disk, b.count);
    WeightedMeanOfSums(a.sums.received, a.count, b.sums.received, b.count);
    WeightedMeanOfSums(a.sums.sent, a.count, b.sums.sent, b.count);
  }

  // ---- Points of an interval ----

  /** The points with lo <= at < hi, in their order. */
  function Within(points: seq<TrendPoint>, lo: int, hi: int): seq<TrendPoint> {
    if |points| == 0 then []
    else
      var last := points[|points| - 1];
      Within(points[..|points| - 1], lo, hi) + if lo <= last.at < hi then [last] else []
  }

  lemma WithinMore(points: seq<TrendPoint>, p: TrendPoint, lo: int, hi: int)
    ensures Within(points + [p], lo, hi) == Within(points, lo, hi) + if lo <= p.at < hi then [p] else []
  {
    assert (points + [p])[..|points|] == points;
  }

  lemma {:induction false} WithinNothing(points: seq<TrendPoint>, lo: int, hi: int)
    requires hi <= lo
    ensures Within(points, lo, hi) == []
  {
    if |points| > 0 {
      WithinNothing(points[..|points| - 1], lo, hi);
    }
  }

  /** Above all points the upper bound does not matter. */
  lemma {:induction false} WithinAbove(points: seq<TrendPoint>, lo: int, hi: int, hi': int)
    requires hi <= hi' && forall p | p in points :: p.at < hi
    ensures Within(points, lo, hi') == Within(points, lo, hi)
  {
    if |points| > 0 {
      var init := points[..|points| - 1];
      assert points == init + [points[|points| - 1]];
      WithinAbove(init, lo, hi, hi');
    }
  }

  // ---- Buckets as a list ----

  /** The summaries of the first n buckets. */
  ghost function Buckets(rows: seq<Row>, from: int, step: int, n: nat): (bs: seq<Summary>)
    ensures |bs| == n
  {
    if n == 0 then [] else Buckets(rows, from, step, n - 1) + [Bucket(rows, from, step, n - 1)]
  }

  lemma {:induction false} BucketsAt(rows: seq<Row>, from: int, step: int, n: nat, i: nat)
    requires i < n
    ensures Buckets(rows, from, step, n)[i] == Bucket(rows, from, step, i)
  {
    if i < n - 1 {
      BucketsAt(rows, from, step, n - 1, i);
    }
  }

  lemma BucketsAreProper(rows: seq<Row>, from: int, step: int, n: nat)
    ensures AllProper(Buckets(rows, from, step, n))
  {
    forall i | 0 <= i < n
      ensures Proper(Buckets(rows, from, step, n)[i])
    {
      BucketsAt(rows, from, step, n, i);
      BucketIsProper(rows, from, step, i);
    }
  }

  ghost predicate AllProper(bs: seq<Summary>) {
    forall i | 0 <= i < |bs| :: Proper(bs[i])
  }

  /** The points of a list of buckets. */
  function PointsOf(bs: seq<Summary>, from: int, step: int): seq<TrendPoint> {
    if |bs| == 0 then []
    else PointsOf(bs[..|bs| - 1], from, step) + PointOf(bs[|bs| - 1], Start(from, step, |bs| - 1))
  }

  lemma {:induction false} PointsAreOfBuckets(rows: seq<Row>, from: int, step: int, n: nat)
    ensures Points(rows, from, step, n) == PointsOf(Buckets(rows, from, step, n), from, step)
  {
    if n > 0 {
      PointsAreOfBuckets(rows, from, step, n - 1);
      var init, last := Buckets(rows, from, step, n - 1), Bucket(rows, from, step, n - 1);
      assert (init + [last])[..n - 1] == init;
    }
  }

  /** The points of the buckets m to n - 1. */
  function PointsBetween(bs: seq<Summary>, from: int, step: int, m: nat, n: nat): seq<TrendPoint>
    requires n <= |bs|
    decreases n
  {
    if n <= m then []
    else PointsBetween(bs, from, step, m, n - 1) + PointOf(bs[n - 1], Start(from, step, n - 1))
  }

  lemma {:induction false} PointsBelow(bs: seq<Summary>, from: int, step: int)
    requires step > 0
    ensures forall p | p in PointsOf(bs, from, step) :: p.at < Start(from, step, |bs|)
  {
    if |bs| > 0 {
      PointsBelow(bs[..|bs| - 1], from, step);
    }
  }

  lemma {:induction false} BetweenOfPart(bs: seq<Summary>, from: int, step: int, k: nat, m: nat, n: nat)
    requires n <= k <= |bs|
    ensures PointsBetween(bs[..k], from, step, m, n) == PointsBetween(bs, from, step, m, n)
    decreases n
  {
    if m < n {
      BetweenOfPart(bs, from, step, k, m, n - 1);
    }
  }

  lemma WithinPoint(points: seq<TrendPoint>, b: Summary, at: int, lo: int, hi: int)
    ensures Within(points + PointOf(b, at), lo, hi) ==
            Within(points, lo, hi) + if lo <= at < hi then PointOf(b, at) else []
  {
    if b.count > 0 {
      WithinMore(points, Finish(at, b), lo, hi);
    } else {
      assert points + [] == points;
    }
  }

  /** The last point lies behind every window that ends earlier. */
  lemma LastIsBehind(bs: seq<Summary>, from: int, step: int, lo: int, n: nat)
    requires step > 0 && n < |bs|
    ensures Within(PointsOf(bs, from, step), lo, Start(from, step, n)) ==
            Within(PointsOf(bs[..|bs| - 1], from, step), lo, Start(from, step, n))
  {
    var k := |bs| - 1;
    StartsAscend(from, step, n, k);
    WithinPoint(PointsOf(bs[..k], from, step), bs[k], Start(from, step, k), lo, Start(from, step, n));
    assert Within(PointsOf(bs[..k], from, step), lo, Start(from, step, n)) + [] ==
           Within(PointsOf(bs[..k], from, step), lo, Start(from, step, n));
  }

  /** It is the last of every window that reaches to the end. */
  lemma LastIsWithin(bs: seq<Summary>, from: int, step: int, m: nat)
    requires step > 0 && m < |bs|
    ensures var k := |bs| - 1;
            Within(PointsOf(bs, from, step), Start(from, step, m), Start(from, step, |bs|)) ==
            Within(PointsOf(bs[..k], from, step), Start(from, step, m), Start(from, step, k)) +
            PointOf(bs[k], Start(from, step, k))
  {
    var k := |bs| - 1;
    StartsAscend(from, step, m, k);
    WithinPoint(PointsOf(bs[..k], from, step), bs[k], Start(from, step, k),
                Start(from, step, m), Start(from, step, |bs|));
    PointsBelow(bs[..k], from, step);
    WithinAbove(PointsOf(bs[..k], from, step), Start(from, step, m), Start(from, step, k), Start(from, step, |bs|));
  }

  lemma {:induction false} WithinFirst(bs: seq<Summary>, from: int, step: int, lo: int, n: nat)
    requires step > 0 && n <= |bs|
    ensures Within(PointsOf(bs, from, step), lo, Start(from, step, n)) ==
            Within(PointsOf(bs[..n], from, step), lo, Start(from, step, n))
    decreases |bs|
  {
    if n == |bs| {
      assert bs[..n] == bs;
    } else {
      var k := |bs| - 1;
      assert bs[..k][..n] == bs[..n];
      LastIsBehind(bs, from, step, lo, n);
      WithinFirst(bs[..k], from, step, lo, n);
    }
  }

  lemma {:induction false} WithinToEnd(bs: seq<Summary>, from: int, step: int, m: nat)
    requires step > 0 && m <= |bs|
    ensures Within(PointsOf(bs, from, step), Start(from, step, m), Start(from, step, |bs|)) ==
            PointsBetween(bs, from, step, m, |bs|)
    decreases |bs|
  {
    if m == |bs| {
      WithinNothing(PointsOf(bs, from, step), Start(from, step, m), Start(from, step, m));
    } else {
      WithinToEnd(bs[..|bs| - 1], from, step, m);
      OneMoreWithin(bs, from, step, m);
    }
  }

  lemma OneMoreWithin(bs: seq<Summary>, from: int, step: int, m: nat)
    requires step > 0 && m < |bs|
    requires var k := |bs| - 1;
             Within(PointsOf(bs[..k], from, step), Start(from, step, m), Start(from, step, k)) ==
             PointsBetween(bs[..k], from, step, m, k)
    ensures Within(PointsOf(bs, from, step), Start(from, step, m), Start(from, step, |bs|)) ==
            PointsBetween(bs, from, step, m, |bs|)
  {
    LastIsWithin(bs, from, step, m);
    BetweenToEnd(bs, from, step, m);
  }

  lemma BetweenToEnd(bs: seq<Summary>, from: int, step: int, m: nat)
    requires m < |bs|
    ensures var k := |bs| - 1;
            PointsBetween(bs, from, step, m, |bs|) ==
            PointsBetween(bs[..k], from, step, m, k) + PointOf(bs[k], Start(from, step, k))
  {
    BetweenOfPart(bs, from, step, |bs| - 1, m, |bs| - 1);
  }

  /** They are the points that lie between the starts of these buckets. */
  lemma WithinIsBetween(bs: seq<Summary>, from: int, step: int, m: nat, n: nat)
    requires step > 0 && m <= n <= |bs|
    ensures Within(PointsOf(bs, from, step), Start(from, step, m), Start(from, step, n)) ==
            PointsBetween(bs, from, step, m, n)
  {
    WithinFirst(bs, from, step, Start(from, step, m), n);
    WithinToEnd(bs[..n], from, step, m);
    BetweenOfPart(bs, from, step, n, m, n);
  }

  // ---- Joining finished points ----

  /** Some points, none of them empty. */
  predicate Filled(ps: seq<TrendPoint>) {
    |ps| > 0 && forall p | p in ps :: p.count > 0
  }

  /** One point for several. */
  function Join(ps: seq<TrendPoint>, at: int): (p: TrendPoint)
    requires Filled(ps)
    ensures p.count > 0
  {
    if |ps| == 1 then ps[0].(at := at)
    else MergePoints(Join(ps[..|ps| - 1], at), ps[|ps| - 1], at)
  }

  lemma JoinMore(ps: seq<TrendPoint>, p: TrendPoint, at: int)
    requires Filled(ps) && p.count > 0
    ensures Filled(ps + [p]) && Join(ps + [p], at) == MergePoints(Join(ps, at), p, at)
  {
    assert (ps + [p])[..|ps|] == ps;
  }

  /** The merge of the buckets m to n - 1. */
  function MergeBuckets(bs: seq<Summary>, m: nat, n: nat): Summary
    requires n <= |bs|
    decreases n
  {
    if n <= m then NOTHING else Merge(MergeBuckets(bs, m, n - 1), bs[n - 1])
  }

  lemma {:induction false} MergeIsProper(bs: seq<Summary>, m: nat, n: nat)
    requires n <= |bs| && AllProper(bs)
    ensures Proper(MergeBuckets(bs, m, n))
    decreases n
  {
    if m < n {
      MergeIsProper(bs, m, n - 1);
      ProperMerge(MergeBuckets(bs, m, n - 1), bs[n - 1]);
    }
  }

  lemma ProperMerge(a: Summary, b: Summary)
    requires Proper(a) && Proper(b)
    ensures Proper(Merge(a, b))
  {
    if a.count == 0 {
      MergeNothing(b);
    } else {
      forall i | 0 <= i < FIELDS
        ensures Merge(a, b).peaks.At(i) >= 0.0
      {
        assert a.peaks.At(i) >= 0.0;
      }
    }
  }

  lemma MergeNext(bs: seq<Summary>, m: nat, n: nat, before: Summary, last: Summary)
    requires m < n <= |bs| && MergeBuckets(bs, m, n - 1) == before && bs[n - 1] == last
    ensures MergeBuckets(bs, m, n) == Merge(before, last)
  {
  }

  lemma NothingToMerge(rows: seq<Row>, from: int, step: int, m: nat, n: nat)
    requires n <= m
    ensures MergeRange(rows, from, step, m, n) == NOTHING
  {
  }

  lemma {:induction false} MergeBucketsIsRange(rows: seq<Row>, from: int, step: int, bs: seq<Summary>, m: nat, n: nat)
    requires n <= |bs| && forall i: nat | i < |bs| :: bs[i] == Bucket(rows, from, step, i)
    ensures MergeBuckets(bs, m, n) == MergeRange(rows, from, step, m, n)
    decreases n
  {
    if n <= m {
      NothingToMerge(rows, from, step, m, n);
    } else {
      MergeBucketsIsRange(rows, from, step, bs, m, n - 1);
      var r, b := LastMerge(rows, from, step, m, n);
      MergeNext(bs, m, n, r, b);
    }
  }

  lemma LastMerge(rows: seq<Row>, from: int, step: int, m: nat, n: nat) returns (r: Summary, b: Summary)
    requires m < n
    ensures r == MergeRange(rows, from, step, m, n - 1) && b == Bucket(rows, from, step, n - 1)
    ensures MergeRange(rows, from, step, m, n) == Merge(r, b)
  {
    MergeRangeNext(rows, from, step, m, n);
    r, b := MergeRange(rows, from, step, m, n - 1), Bucket(rows, from, step, n - 1);
  }

  /** One more bucket. */
  lemma MergeRangeNext(rows: seq<Row>, from: int, step: int, m: nat, n: nat)
    requires m < n
    ensures MergeRange(rows, from, step, m, n) ==
            Merge(MergeRange(rows, from, step, m, n - 1), Bucket(rows, from, step, n - 1))
  {
    var init := Windows(rows, from, step, m, n - 1);
    var last := InWindow(rows, Start(from, step, n - 1), Start(from, step, n));
    assert (init + [last])[..|init|] == init;
  }

  /** The summary is shown by these points: nothing by none, anything else by their join. */
  ghost predicate ShownBy(s: Summary, ps: seq<TrendPoint>, at: int) {
    && (s.count > 0 <==> |ps| > 0)
    && (s.count > 0 ==> Filled(ps) && Finish(at, s) == Join(ps, at))
  }

  /** One more bucket joins what is shown. */
  lemma ShownNext(s: Summary, ps: seq<TrendPoint>, at: int, b: Summary, start: int)
    requires Proper(s) && Proper(b) && ShownBy(s, ps, at)
    ensures ShownBy(Merge(s, b), ps + PointOf(b, start), at)
  {
    if b.count == 0 {
      MergeNothing(s);
      assert ps + [] == ps;
    } else if s.count == 0 {
      MergeNothing(b);
      assert ps + [Finish(start, b)] == [Finish(start, b)];
    } else {
      FinishMerges(s, b, at, at, start);
      JoinMore(ps, Finish(start, b), at);
    }
  }

  /** A range of buckets, empty ones included, is shown by its points. */
  lemma {:induction false} RangeIsShown(bs: seq<Summary>, from: int, step: int, m: nat, n: nat, at: int)
    requires m <= n <= |bs| && AllProper(bs)
    ensures ShownBy(MergeBuckets(bs, m, n), PointsBetween(bs, from, step, m, n), at)
    decreases n
  {
    if m < n {
      RangeIsShown(bs, from, step, m, n - 1, at);
      ShownLast(bs, from, step, m, n, at);
    } else {
      NothingShown(MergeBuckets(bs, m, n), PointsBetween(bs, from, step, m, n), at);
    }
  }

  lemma NothingShown(s: Summary, ps: seq<TrendPoint>, at: int)
    requires s == NOTHING && ps == []
    ensures ShownBy(s, ps, at)
  {
  }

  lemma ShownLast(bs: seq<Summary>, from: int, step: int, m: nat, n: nat, at: int)
    requires m < n <= |bs| && AllProper(bs)
    requires ShownBy(MergeBuckets(bs, m, n - 1), PointsBetween(bs, from, step, m, n - 1), at)
    ensures ShownBy(MergeBuckets(bs, m, n), PointsBetween(bs, from, step, m, n), at)
  {
    var s, ps, b, start := LastOfRange(bs, from, step, m, n);
    ShownNext(s, ps, at, b, start);
  }

  /** The last bucket of a range and what it adds. */
  lemma LastOfRange(bs: seq<Summary>, from: int, step: int, m: nat, n: nat)
    returns (s: Summary, ps: seq<TrendPoint>, b: Summary, start: int)
    requires m < n <= |bs| && AllProper(bs)
    ensures s == MergeBuckets(bs, m, n - 1) && ps == PointsBetween(bs, from, step, m, n - 1)
    ensures MergeBuckets(bs, m, n) == Merge(s, b) && PointsBetween(bs, from, step, m, n) == ps + PointOf(b, start)
    ensures Proper(s) && Proper(b)
  {
    s, ps := MergeBuckets(bs, m, n - 1), PointsBetween(bs, from, step, m, n - 1);
    b, start := bs[n - 1], Start(from, step, n - 1);
    MergeIsProper(bs, m, n - 1);
  }

  // ---- Two queries that end at the same time ----

  /** The rows a window query returns show the same buckets as all rows do. */
  lemma WindowShowsSameBuckets(rows: seq<Row>, from: int, step: int, i: nat)
    requires step > 0 && i < BUCKETS
    ensures Bucket(InWindow(rows, from, Start(from, step, BUCKETS)), from, step, i) == Bucket(rows, from, step, i)
  {
    StartsAscend(from, step, 0, i);
    StartsAscend(from, step, i + 1, BUCKETS);
    WindowOfWindow(rows, from, Start(from, step, BUCKETS), Start(from, step, i), Start(from, step, i + 1));
  }

  /** The rows of the shorter query are the window of the longer query's rows. */
  lemma SubWindow(samples: map<SampleKey, Metrics>, id: string, from: int, later: int, to: int, rows: seq<Row>,
                  part: seq<Row>)
    requires from <= later
    requires WindowRows(samples, id, from, to, rows) && WindowRows(samples, id, later, to, part)
    ensures part == InWindow(rows, later, to)
  {
    RowsOfPart(samples, id, from, to, rows, later, to);
    OneWindow(samples, id, later, to, part, InWindow(rows, later, to));
  }

  lemma {:induction false} SameBuckets(rows: seq<Row>, part: seq<Row>, from: int, step: int, n: nat)
    requires step > 0 && n <= BUCKETS && part == InWindow(rows, from, Start(from, step, BUCKETS))
    ensures Buckets(part, from, step, n) == Buckets(rows, from, step, n)
  {
    if n > 0 {
      SameBuckets(rows, part, from, step, n - 1);
      WindowShowsSameBuckets(rows, from, step, n - 1);
    }
  }

  /** In the interval the coarse trend shows one point, the join of those the fine one shows, or both show none. */
  ghost predicate Merges(coarse: seq<TrendPoint>, fine: seq<TrendPoint>, lo: int, hi: int) {
    var ps := Within(fine, lo, hi);
    if ps == [] then Within(coarse, lo, hi) == []
    else Filled(ps) && Within(coarse, lo, hi) == [Join(ps, lo)]
  }

  /** One bucket that is the merge of finer ones is shown as the join of their points. */
  lemma ShowsMerge(coarse: seq<Summary>, from: int, long: int, i: nat, fine: seq<Summary>, later: int, step: int,
                   m: nat, n: nat)
    requires long > 0 && step > 0 && i < |coarse| && m <= n <= |fine| && AllProper(fine)
    requires Start(from, long, i) == Start(later, step, m) && Start(from, long, i + 1) == Start(later, step, n)
    requires coarse[i] == MergeBuckets(fine, m, n)
    ensures Merges(PointsOf(coarse, from, long), PointsOf(fine, later, step),
                   Start(from, long, i), Start(from, long, i + 1))
  {
    WithinIsBetween(coarse, from, long, i, i + 1);
    WithinIsBetween(fine, later, step, m, n);
    RangeIsShown(fine, later, step, m, n, Start(from, long, i));
    OneBetween(coarse, from, long, i);
  }

  lemma OneBetween(bs: seq<Summary>, from: int, step: int, i: nat)
    requires i < |bs|
    ensures PointsBetween(bs, from, step, i, i + 1) == PointOf(bs[i], Start(from, step, i))
  {
    assert PointsBetween(bs, from, step, i, i) == [];
  }

  /** Any bucket that covers whole finer buckets of another window is shown as their join. */
  lemma CoarseShowsMerge(rows: seq<Row>, from: int, coarse: int, i: nat, later: int, step: int, m: nat, n: nat)
    requires Ascending(rows) && coarse > 0 && step > 0 && i < BUCKETS && m <= n <= BUCKETS
    requires Start(from, coarse, i) == Start(later, step, m) && Start(from, coarse, i + 1) == Start(later, step, n)
    ensures Merges(PointsOf(Buckets(rows, from, coarse, BUCKETS), from, coarse),
                   PointsOf(Buckets(rows, later, step, BUCKETS), later, step),
                   Start(from, coarse, i), Start(from, coarse, i + 1))
  {
    CoarseIsMerge(rows, from, coarse, i, later, step, m, n);
    BucketsAt(rows, from, coarse, BUCKETS, i);
    var fine := Buckets(rows, later, step, BUCKETS);
    forall k: nat | k < |fine|
      ensures fine[k] == Bucket(rows, later, step, k)
    {
      BucketsAt(rows, later, step, BUCKETS, k);
    }
    MergeBucketsIsRange(rows, later, step, fine, m, n);
    BucketsAreProper(rows, later, step, BUCKETS);
    ShowsMerge(Buckets(rows, from, coarse, BUCKETS), from, coarse, i,
               Buckets(rows, later, step, BUCKETS), later, step, m, n);
  }

  /** The length of a window in steps. */
  lemma WindowSteps(from: int, to: int, step: int)
    requires to - from == BUCKETS * step
    ensures Start(from, step, BUCKETS) == to && (to - from) / BUCKETS == step
  {
    StartIs(from, step, BUCKETS);
  }

  /** What the two requests show, when each coarse bucket i covers k fine ones. */
  lemma TrendsMerge(samples: map<SampleKey, Metrics>, id: string, from: int, later: int, to: int, rows: seq<Row>,
                    part: seq<Row>,
                    coarse: int, step: int, i: nat, m: nat, n: nat)
    requires from <= later && WindowRows(samples, id, from, to, rows) && WindowRows(samples, id, later, to, part)
    requires coarse > 0 && step > 0 && to - from == BUCKETS * coarse && to - later == BUCKETS * step
    requires i < BUCKETS && m <= n <= BUCKETS && Aligned(from, coarse, i, later, step, m, n)
    ensures Merges(TrendPoints(rows, from, to), TrendPoints(part, later, to),
                   Start(from, coarse, i), Start(from, coarse, i + 1))
  {
    WindowSteps(from, to, coarse);
    WindowSteps(later, to, step);
    SubWindow(samples, id, from, later, to, rows, part);
    SameBuckets(rows, part, later, step, BUCKETS);
    PointsAreOfBuckets(rows, from, coarse, BUCKETS);
    PointsAreOfBuckets(part, later, step, BUCKETS);
    CoarseShowsMerge(rows, from, coarse, i, later, step, m, n);
  }

  const DAY_STEP: int := 240 * SECOND
  const HOUR_STEP: int := 10 * SECOND
  const HALF_HOUR_STEP: int := 5 * SECOND

  /** Bucket i of the one window is buckets m to n - 1 of the other. */
  ghost predicate Aligned(from: int, coarse: int, i: nat, later: int, step: int, m: nat, n: nat) {
    Start(from, coarse, i) == Start(later, step, m) && Start(from, coarse, i + 1) == Start(later, step, n)
  }

  lemma DayAligned(day: int, hour: int, j: nat)
    requires hour == day + Duration(Day) - Duration(Hour)
    ensures Aligned(day, DAY_STEP, 345 + j, hour, HOUR_STEP, 24 * j, 24 * j + 24)
  {
    CoarseStart(day, DAY_STEP, 345 + j, hour, HOUR_STEP, 24, 24 * j, 345 * 24);
    CoarseStart(day, DAY_STEP, 345 + j + 1, hour, HOUR_STEP, 24, 24 * j + 24, 345 * 24);
  }

  lemma HourAligned(hour: int, half: int, j: nat)
    requires half == hour + Duration(Hour) - Duration(HalfHour)
    ensures Aligned(hour, HOUR_STEP, 180 + j, half, HALF_HOUR_STEP, 2 * j, 2 * j + 2)
  {
    CoarseStart(hour, HOUR_STEP, 180 + j, half, HALF_HOUR_STEP, 2, 2 * j, 360);
    CoarseStart(hour, HOUR_STEP, 180 + j + 1, half, HALF_HOUR_STEP, 2, 2 * j + 2, 360);
  }

  /**
    Each of the last 15 intervals of the 24h trend shows the join of the points that the 1h trend with the same end
    shows there, whichever of its 24 buckets are empty.
   */
  lemma DayMergesHour(samples: map<SampleKey, Metrics>, id: string, from: int, later: int, to: int,
                      day: seq<Row>, hour: seq<Row>, j: nat)
    requires from == to - Duration(Day) && later == to - Duration(Hour) && j < 15
    requires WindowRows(samples, id, from, to, day) && WindowRows(samples, id, later, to, hour)
    ensures Merges(TrendPoints(day, from, to), TrendPoints(hour, later, to),
                   Start(from, DAY_STEP, 345 + j), Start(from, DAY_STEP, 345 + j + 1))
  {
    DayAligned(from, later, j);
    TrendsMerge(samples, id, from, later, to, day, hour, DAY_STEP, HOUR_STEP, 345 + j, 24 * j, 24 * j + 24);
  }

  /** Each of the last 180 intervals of the 1h trend shows the join of what the 30m trend shows in its two buckets. */
  lemma HourMergesHalfHour(samples: map<SampleKey, Metrics>, id: string, from: int, later: int, to: int,
                           hour: seq<Row>, half: seq<Row>, j: nat)
    requires from == to - Duration(Hour) && later == to - Duration(HalfHour) && j < 180
    requires WindowRows(samples, id, from, to, hour) && WindowRows(samples, id, later, to, half)
    ensures Merges(TrendPoints(hour, from, to), TrendPoints(half, later, to),
                   Start(from, HOUR_STEP, 180 + j), Start(from, HOUR_STEP, 180 + j + 1))
  {
    HourAligned(from, later, j);
    TrendsMerge(samples, id, from, later, to, hour, half, HOUR_STEP, HALF_HOUR_STEP, 180 + j, 2 * j, 2 * j + 2);
  }

  // ---- What a join says ----

  /** Count times average. */
  function Weight(p: TrendPoint, field: nat): real
    requires field < FIELDS
  {
    p.average[field] * p.count as real
  }

  lemma MergedAverage(p: TrendPoint, q: TrendPoint, at: int, field: nat)
    requires p.count > 0 && q.count > 0 && field < FIELDS
    ensures MergePoints(p, q, at).average[field] == WeightedMean(p.average[field], p.count, q.average[field], q.count)
  {
  }

  lemma MergedWeight(p: TrendPoint, q: TrendPoint, at: int, field: nat)
    requires p.count > 0 && q.count > 0 && field < FIELDS
    ensures Weight(MergePoints(p, q, at), field) == Weight(p, field) + Weight(q, field)
  {
    MergedAverage(p, q, at, field);
    MeanTimesCount(p.average[field], p.count, q.average[field], q.count);
  }

  lemma MeanTimesCount(x: real, m: nat, y: real, n: nat)
    requires m + n > 0
    ensures WeightedMean(x, m, y, n) * (m + n) as real == x * m as real + y * n as real
  {
    DivideReal(x * m as real + y * n as real, (m + n) as real);
  }

  lemma DivideReal(x: real, y: real)
    requires y > 0.0
    ensures x / y * y == x
  {
  }

  function CountSum(ps: seq<TrendPoint>): nat {
    if |ps| == 0 then 0 else CountSum(ps[..|ps| - 1]) + ps[|ps| - 1].count
  }

  function WeightSum(ps: seq<TrendPoint>, field: nat): real
    requires field < FIELDS
  {
    if |ps| == 0 then 0.0 else WeightSum(ps[..|ps| - 1], field) + Weight(ps[|ps| - 1], field)
  }

  /** Counts add up, and averages are weighted by counts. */
  lemma {:induction false} JoinAverages(ps: seq<TrendPoint>, at: int, field: nat)
    requires Filled(ps) && field < FIELDS
    ensures Join(ps, at).at == at && Join(ps, at).count == CountSum(ps)
    ensures Weight(Join(ps, at), field) == WeightSum(ps, field)
  {
    var init, last := ps[..|ps| - 1], ps[|ps| - 1];
    if |ps| == 1 {
      assert CountSum(init) == 0 && WeightSum(init, field) == 0.0;
    } else {
      JoinAverages(init, at, field);
      MergedWeight(Join(init, at), last, at, field);
    }
  }

  lemma MergedPeak(p: TrendPoint, q: TrendPoint, at: int, field: nat)
    requires p.count > 0 && q.count > 0 && field < FIELDS
    ensures MergePoints(p, q, at).peak[field] == MaxReal(p.peak[field], q.peak[field])
  {
  }

  lemma {:induction false} JoinBounds(ps: seq<TrendPoint>, at: int, field: nat, i: nat)
    requires Filled(ps) && field < FIELDS && i < |ps|
    ensures ps[i].peak[field] <= Join(ps, at).peak[field]
  {
    if |ps| > 1 {
      var init, last := ps[..|ps| - 1], ps[|ps| - 1];
      MergedPeak(Join(init, at), last, at, field);
      if i < |init| {
        JoinBounds(init, at, field, i);
      }
    }
  }

  lemma {:induction false} JoinReaches(ps: seq<TrendPoint>, at: int, field: nat) returns (i: nat)
    requires Filled(ps) && field < FIELDS
    ensures i < |ps| && ps[i].peak[field] == Join(ps, at).peak[field]
  {
    i := |ps| - 1;
    if |ps| > 1 {
      var init, last := ps[..i], ps[i];
      MergedPeak(Join(init, at), last, at, field);
      if ps[i].peak[field] != Join(ps, at).peak[field] {
        i := JoinReaches(init, at, field);
      }
    }
  }

  /** The peak is the highest of the peaks. */
  lemma JoinPeaks(ps: seq<TrendPoint>, at: int, field: nat)
    requires Filled(ps) && field < FIELDS
    ensures forall i | 0 <= i < |ps| :: ps[i].peak[field] <= Join(ps, at).peak[field]
    ensures exists i | 0 <= i < |ps| :: ps[i].peak[field] == Join(ps, at).peak[field]
  {
    forall i | 0 <= i < |ps|
      ensures ps[i].peak[field] <= Join(ps, at).peak[field]
    {
      JoinBounds(ps, at, field, i);
    }
    var i := JoinReaches(ps, at, field);
  }

  /** Some point says that the network is unavailable, or differs in scope from the first. */
  predicate Unfit(ps: seq<TrendPoint>) {
    exists i | 0 <= i < |ps| :: ps[i].unavailable || ps[i].scope != ps[0].scope
  }

  lemma UnfitNext(ps: seq<TrendPoint>)
    requires |ps| > 1
    ensures var init, last := ps[..|ps| - 1], ps[|ps| - 1];
            Unfit(ps) <==> Unfit(init) || last.unavailable || last.scope != ps[0].scope
  {
    var init := ps[..|ps| - 1];
    if Unfit(init) {
      var i :| 0 <= i < |init| && (init[i].unavailable || init[i].scope != init[0].scope);
      assert ps[i] == init[i];
    }
    if Unfit(ps) {
      var i :| 0 <= i < |ps| && (ps[i].unavailable || ps[i].scope != ps[0].scope);
      assert i < |init| ==> init[i] == ps[i];
    }
  }

  /** The network is unavailable if and only if some point says so or two points differ in scope. */
  lemma {:induction false} JoinNetwork(ps: seq<TrendPoint>, at: int)
    requires Filled(ps)
    ensures Join(ps, at).scope == ps[0].scope
    ensures Join(ps, at).unavailable <==> Unfit(ps)
  {
    if |ps| > 1 {
      JoinNetwork(ps[..|ps| - 1], at);
      UnfitNext(ps);
    }
  }
}
