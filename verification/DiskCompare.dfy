/** Comparing two snapshots and picking the growth alerts (internal/disk/scan.go, internal/disk/schedule.go). */
module DiskCompare {
  import opened Ordering
  import opened Snapshots

  datatype Change = Change(path: string, bytes: int, delta: int)

  datatype Alert = Alert(path: string, delta: int, from: int, to: int)

  const changePath: Change -> string := (c: Change) => c.path

  /** Largest growth first, equal growth by path. */
  const changeLeq: (Change, Change) -> bool :=
    (a: Change, b: Change) => if a.delta != b.delta then a.delta > b.delta else StringLeq(a.path, b.path)

  lemma ChangeOrder()
    ensures TotalPreorder(changeLeq)
  {
    forall x: Change, y: Change
      ensures changeLeq(x, y) || changeLeq(y, x)
    {
      StringLeqTotal(x.path, y.path);
    }
    forall x: Change, y: Change, z: Change | changeLeq(x, y) && changeLeq(y, z)
      ensures changeLeq(x, z)
    {
      if x.delta == y.delta == z.delta {
        StringLeqTransitive(x.path, y.path, z.path);
      }
    }
  }

  predicate Comparable(previous: Snapshot, current: Snapshot) {
    previous.complete && current.complete && previous.root == current.root && previous.depth == current.depth
  }

  // ---- The entries of a comparison ----

  /** The size listed for each path; the last one listed counts. */
  function SizeMap(nodes: seq<Node>): map<string, int> {
    if |nodes| == 0 then map[]
    else SizeMap(nodes[..|nodes| - 1])[nodes[|nodes| - 1].path := nodes[|nodes| - 1].bytes]
  }

  /** The size a snapshot lists for a path, 0 when it does not. */
  function Size(s: Snapshot, path: string): int {
    var sizes := SizeMap(s.nodes);
    if path in sizes then sizes[path] else 0
  }

  ghost predicate Names(s: Snapshot, path: string) {
    path in SizeMap(s.nodes)
  }

  ghost function Paths(nodes: seq<Node>): set<string> {
    set n | n in nodes :: n.path
  }

  lemma {:induction false} SizeMapKeys(nodes: seq<Node>)
    ensures SizeMap(nodes).Keys == Paths(nodes)
  {
    if |nodes| > 0 {
      SizeMapKeys(nodes[..|nodes| - 1]);
      assert nodes == nodes[..|nodes| - 1] + [nodes[|nodes| - 1]];
    }
  }

  lemma {:induction false} SizeMapAt(nodes: seq<Node>, i: nat)
    requires DistinctPaths(nodes) && i < |nodes|
    ensures nodes[i].path in SizeMap(nodes) && SizeMap(nodes)[nodes[i].path] == nodes[i].bytes
  {
    var last := |nodes| - 1;
    if i < last {
      assert DistinctPaths(nodes[..last]);
      SizeMapAt(nodes[..last], i);
      assert nodes[..last][i] == nodes[i];
      assert nodePath(nodes[i]) != nodePath(nodes[last]);
    }
  }

  /** The entry of the i-th current node: a path already met compares with nothing, as its old size was used up. */
  ghost function EntryAt(oldSizes: map<string, int>, nodes: seq<Node>, i: nat): Change
    requires i < |nodes|
  {
    var n := nodes[i];
    Change(n.path, n.bytes,
           n.bytes - if n.path in oldSizes && n.path !in Paths(nodes[..i]) then oldSizes[n.path] else 0)
  }

  /** The entries of the current nodes, in their order. */
  ghost function Kept(previous: Snapshot, current: Snapshot): seq<Change> {
    seq(|current.nodes|, i requires 0 <= i < |current.nodes| => EntryAt(SizeMap(previous.nodes), current.nodes, i))
  }

  /** The entries of the paths that are gone. */
  ghost function Gone(previous: Snapshot, current: Snapshot): set<Change> {
    set p | p in SizeMap(previous.nodes).Keys - Paths(current.nodes) :: Change(p, 0, -SizeMap(previous.nodes)[p])
  }

  ghost function Entries(previous: Snapshot, current: Snapshot): multiset<Change> {
    multiset(Kept(previous, current)) + multiset(Gone(previous, current))
  }

  /** Compare: the entries in order, whatever order the map of old sizes is ranged over. */
  method Compare(previous: Snapshot, current: Snapshot) returns (changes: seq<Change>, ok: bool)
    ensures ok <==> Comparable(previous, current)
    ensures !ok ==> changes == []
    ensures ok ==> Sorted(changeLeq, changes) && multiset(changes) == Entries(previous, current)
  {
    if !previous.complete || !current.complete || previous.root != current.root || previous.depth != current.depth {
      return [], false;
    }
    var sizes := ReadSizes(previous.nodes);
    var oldSizes;
    changes, oldSizes := CompareCurrent(previous, current, sizes);
    changes := AppendGone(previous, current, changes, oldSizes);
    ChangeOrder();
    changes := SortSlice(changeLeq, changes);
    ok := true;
  }

  /** The sizes by path. */
  method ReadSizes(nodes: seq<Node>) returns (sizes: map<string, int>)
    ensures sizes == SizeMap(nodes)
  {
    sizes := map[];
    for i := 0 to |nodes|
      invariant sizes == SizeMap(nodes[..i])
    {
      assert nodes[..i + 1][..i] == nodes[..i];
      sizes := sizes[nodes[i].path := nodes[i].bytes];
    }
    assert nodes[..|nodes|] == nodes;
  }

  /** One change for each current node; old sizes that are used go. */
  method CompareCurrent(ghost previous: Snapshot, current: Snapshot, sizes: map<string, int>)
    returns (changes: seq<Change>, oldSizes: map<string, int>)
    requires sizes == SizeMap(previous.nodes)
    ensures changes == Kept(previous, current) && oldSizes == sizes - Paths(current.nodes)
  {
    changes, oldSizes := [], sizes;
    for i := 0 to |current.nodes|
      invariant oldSizes == sizes - Paths(current.nodes[..i])
      invariant changes == Kept(previous, current)[..i]
    {
      var n := current.nodes[i];
      assert current.nodes[..i + 1] == current.nodes[..i] + [n];
      assert Paths(current.nodes[..i + 1]) == Paths(current.nodes[..i]) + {n.path};
      changes := changes + [Change(n.path, n.bytes, n.bytes - if n.path in oldSizes then oldSizes[n.path] else 0)];
      oldSizes := oldSizes - {n.path};
    }
    assert current.nodes[..|current.nodes|] == current.nodes;
  }

  /** The last loop of Compare: one entry for every old size that is left. */
  method AppendGone(ghost previous: Snapshot, ghost current: Snapshot, kept: seq<Change>, oldSizes: map<string, int>)
    returns (changes: seq<Change>)
    requires oldSizes == SizeMap(previous.nodes) - Paths(current.nodes)
    ensures multiset(changes) == multiset(kept) + multiset(Gone(previous, current))
  {
    changes := kept;
    var left := oldSizes.Keys;
    ghost var taken: set<Change> := {};
    while left != {}
      invariant left <= oldSizes.Keys
      invariant taken == set p | p in oldSizes.Keys - left :: Change(p, 0, -oldSizes[p])
      invariant multiset(changes) == multiset(kept) + multiset(taken)
      decreases left
    {
      var path :| path in left;
      var c := Change(path, 0, -oldSizes[path]);
      assert c !in taken;
      changes := changes + [c];
      taken := taken + {c};
      left := left - {path};
    }
    assert taken == Gone(previous, current);
  }

  // ---- What a comparison says ----

  /** The entry of a path in a comparison of snapshots with distinct paths. */
  ghost function EntryOf(previous: Snapshot, current: Snapshot, path: string): Change {
    Change(path, Size(current, path), Size(current, path) - Size(previous, path))
  }

  /** The i-th current node contributes its path's entry. */
  lemma KeptEntry(previous: Snapshot, current: Snapshot, i: nat)
    requires DistinctPaths(current.nodes) && i < |current.nodes|
    ensures Kept(previous, current)[i] == EntryOf(previous, current, current.nodes[i].path)
    ensures Names(current, current.nodes[i].path)
  {
    SizeMapAt(current.nodes, i);
    forall n | n in current.nodes[..i]
      ensures n.path != current.nodes[i].path
    {
      var j :| 0 <= j < i && current.nodes[j] == n;
      assert nodePath(current.nodes[j]) != nodePath(current.nodes[i]);
    }
  }

  /** The entries of the current nodes are those of its paths, each once. */
  lemma KeptMeans(previous: Snapshot, current: Snapshot, c: Change)
    requires DistinctPaths(current.nodes)
    ensures multiset(Kept(previous, current))[c] <= 1
    ensures c in Kept(previous, current) <==> c == EntryOf(previous, current, c.path) && Names(current, c.path)
  {
    var kept := Kept(previous, current);
    SizeMapKeys(current.nodes);
    forall i, j | 0 <= i < j < |kept|
      ensures changePath(kept[i]) != changePath(kept[j])
    {
      KeptEntry(previous, current, i);
      KeptEntry(previous, current, j);
      assert nodePath(current.nodes[i]) != nodePath(current.nodes[j]);
    }
    DistinctOccursOnce(changePath, kept, c);
    if c in kept {
      var i :| 0 <= i < |kept| && kept[i] == c;
      KeptEntry(previous, current, i);
    }
    if c == EntryOf(previous, current, c.path) && Names(current, c.path) {
      var n :| n in current.nodes && n.path == c.path;
      var i :| 0 <= i < |current.nodes| && current.nodes[i] == n;
      KeptEntry(previous, current, i);
      assert kept[i] in kept;
    }
  }

  /** Entries are those of the named paths, each once. */
  lemma EntriesMean(previous: Snapshot, current: Snapshot, c: Change)
    requires DistinctPaths(current.nodes)
    ensures Entries(previous, current)[c] <= 1
    ensures c in Entries(previous, current) <==>
              c == EntryOf(previous, current, c.path) && (Names(previous, c.path) || Names(current, c.path))
  {
    KeptMeans(previous, current, c);
    SizeMapKeys(current.nodes);
    assert c in multiset(Kept(previous, current)) <==> c in Kept(previous, current);
    assert c in Gone(previous, current) <==>
           c == EntryOf(previous, current, c.path) && Names(previous, c.path) && !Names(current, c.path);
  }

  /** The order tells the entries of a comparison apart, and no path has two. */
  lemma ComparisonDistinct(previous: Snapshot, current: Snapshot, changes: seq<Change>)
    requires DistinctPaths(current.nodes) && multiset(changes) == Entries(previous, current)
    ensures DistinctBy(changePath, changes)
    ensures Separates(changeLeq, changes)
  {
    forall i, j | 0 <= i < j < |changes|
      ensures changePath(changes[i]) != changePath(changes[j])
    {
      assert changes[i] in multiset(changes) && changes[j] in multiset(changes);
      EntriesMean(previous, current, changes[i]);
      EntriesMean(previous, current, changes[j]);
      if changes[i] == changes[j] {
        OccursTwice(changes, i, j);
      }
    }
    forall i, j | 0 <= i < |changes| && 0 <= j < |changes| &&
                  changeLeq(changes[i], changes[j]) && changeLeq(changes[j], changes[i])
      ensures changes[i] == changes[j]
    {
      StringLeqTotal(changes[i].path, changes[j].path);
      assert changePath(changes[i]) == changePath(changes[j]);
    }
  }

  /** The outcome of a comparison, as a function of the snapshots. */
  ghost function Comparison(previous: Snapshot, current: Snapshot): (changes: seq<Change>)
    ensures Sorted(changeLeq, changes) && multiset(changes) == Entries(previous, current)
  {
    ChangeOrder();
    SortedExists(changeLeq, Entries(previous, current));
    var changes: seq<Change> :| Sorted(changeLeq, changes) && multiset(changes) == Entries(previous, current);
    changes
  }

  /** However the map of old sizes is ranged over and ties are sorted, the outcome is the same. */
  lemma CompareIsDetermined(previous: Snapshot, current: Snapshot, changes: seq<Change>)
    requires DistinctPaths(current.nodes)
    requires Sorted(changeLeq, changes) && multiset(changes) == Entries(previous, current)
    ensures changes == Comparison(previous, current)
  {
    ComparisonDistinct(previous, current, changes);
    SortedIsUnique(changeLeq, changes, Comparison(previous, current));
  }

  /** One entry for every path of either snapshot and for no other: its new size, and new minus old. */
  lemma CompareCoversBoth(previous: Snapshot, current: Snapshot, path: string)
    requires DistinctPaths(current.nodes)
    ensures DistinctBy(changePath, Comparison(previous, current))
    ensures Names(previous, path) || Names(current, path) <==>
              EntryOf(previous, current, path) in Comparison(previous, current)
    ensures forall c | c in Comparison(previous, current) :: c == EntryOf(previous, current, c.path)
  {
    var changes := Comparison(previous, current);
    ComparisonDistinct(previous, current, changes);
    EntriesMean(previous, current, EntryOf(previous, current, path));
    assert EntryOf(previous, current, path) in changes <==> EntryOf(previous, current, path) in multiset(changes);
    forall c | c in changes
      ensures c == EntryOf(previous, current, c.path)
    {
      assert c in multiset(changes);
      EntriesMean(previous, current, c);
    }
  }

  /** Swapping the snapshots keeps the paths and negates every delta. */
  lemma SwapNegates(a: Snapshot, b: Snapshot, c: Change)
    requires DistinctPaths(a.nodes) && DistinctPaths(b.nodes)
    requires c in Comparison(a, b)
    ensures Change(c.path, Size(a, c.path), -c.delta) in Comparison(b, a)
  {
    CompareCoversBoth(a, b, c.path);
    CompareCoversBoth(b, a, c.path);
  }

  /** The delta a comparison reports for a path, 0 when it has no entry. */
  ghost function DeltaIn(changes: seq<Change>, path: string): int {
    if |changes| == 0 then 0
    else if changes[0].path == path then changes[0].delta
    else DeltaIn(changes[1..], path)
  }

  lemma {:induction false} DeltaInFinds(changes: seq<Change>, path: string)
    ensures (exists c :: c in changes && c.path == path && c.delta == DeltaIn(changes, path))
         || (DeltaIn(changes, path) == 0 && forall c | c in changes :: c.path != path)
  {
    if |changes| > 0 {
      assert changes == [changes[0]] + changes[1..];
      assert changes[0] in changes;
      if changes[0].path != path {
        DeltaInFinds(changes[1..], path);
        if exists c :: c in changes[1..] && c.path == path && c.delta == DeltaIn(changes[1..], path) {
          var c :| c in changes[1..] && c.path == path && c.delta == DeltaIn(changes[1..], path);
          assert c in changes;
        }
      }
    }
  }

  lemma DeltaOfPair(a: Snapshot, b: Snapshot, path: string)
    requires DistinctPaths(b.nodes)
    ensures DeltaIn(Comparison(a, b), path) == Size(b, path) - Size(a, path)
  {
    CompareCoversBoth(a, b, path);
    DeltaInFinds(Comparison(a, b), path);
  }

  /** Deltas reported for a path along a chain of snapshots. */
  ghost function DeltasAlong(chain: seq<Snapshot>, path: string): int {
    if |chain| < 2 then 0
    else DeltasAlong(chain[..|chain| - 1], path) +
         DeltaIn(Comparison(chain[|chain| - 2], chain[|chain| - 1]), path)
  }

  /** Along any chain the reported deltas of a path add up to its overall change. */
  lemma {:induction false} DeltasTelescope(chain: seq<Snapshot>, path: string)
    requires |chain| > 0
    requires forall s | s in chain :: DistinctPaths(s.nodes)
    ensures DeltasAlong(chain, path) == Size(chain[|chain| - 1], path) - Size(chain[0], path)
  {
    if |chain| > 1 {
      var n := |chain|;
      DeltasTelescope(chain[..n - 1], path);
      assert chain[n - 1] in chain;
      DeltaOfPair(chain[n - 2], chain[n - 1], path);
    }
  }

  // ---- Growth alerts ----

  /** The alerts among ordered changes. */
  ghost function Marked(changes: seq<Change>, threshold: int, from: int, to: int): seq<Alert> {
    if |changes| == 0 then []
    else
      var c := changes[|changes| - 1];
      Marked(changes[..|changes| - 1], threshold, from, to) +
      if c.delta >= threshold then [Alert(c.path, c.delta, from, to)] else []
  }

  ghost function Growth(previous: Snapshot, current: Snapshot, threshold: int): seq<Alert> {
    if threshold <= 0 || current.at <= previous.at || !Comparable(previous, current) then []
    else Marked(Comparison(previous, current), threshold, previous.at, current.at)
  }

  /**
    A path has an alert exactly when there is a threshold, time has advanced, both scans are complete, of one root and
    depth, and the path, named by either, has grown by the threshold or more.
   */
  lemma GrowthExactly(previous: Snapshot, current: Snapshot, threshold: int, path: string)
    requires DistinctPaths(current.nodes)
    ensures (exists a :: a in Growth(previous, current, threshold) && a.path == path) <==>
            && threshold > 0 && current.at > previous.at && previous.complete && current.complete
            && previous.root == current.root && previous.depth == current.depth
            && (Names(previous, path) || Names(current, path))
            && Size(current, path) - Size(previous, path) >= threshold
    ensures forall a | a in Growth(previous, current, threshold) && a.path == path ::
              a == Alert(path, Size(current, path) - Size(previous, path), previous.at, current.at)
  {
    if threshold > 0 && current.at > previous.at && Comparable(previous, current) {
      CompareCoversBoth(previous, current, path);
      MarkedExactly(Comparison(previous, current), threshold, previous.at, current.at);
      assert EntryOf(previous, current, path).path == path;
    }
  }

  lemma {:induction false} MarkedExactly(changes: seq<Change>, threshold: int, from: int, to: int)
    ensures forall c | c in changes && c.delta >= threshold ::
              Alert(c.path, c.delta, from, to) in Marked(changes, threshold, from, to)
    ensures forall a | a in Marked(changes, threshold, from, to) ::
              && a.from == from && a.to == to && a.delta >= threshold
              && exists c :: c in changes && c == Change(a.path, c.bytes, a.delta)
  {
    if |changes| > 0 {
      var n := |changes| - 1;
      MarkedExactly(changes[..n], threshold, from, to);
      assert changes == changes[..n] + [changes[n]];
    }
  }

  method GrowthAlerts(previous: Snapshot, current: Snapshot, threshold: int) returns (out: seq<Alert>)
    requires DistinctPaths(current.nodes)
    ensures out == Growth(previous, current, threshold)
  {
    out := [];
    if threshold <= 0 || current.at <= previous.at {
      return;
    }
    var changes, ok := Compare(previous, current);
    if !ok {
      return;
    }
    CompareIsDetermined(previous, current, changes);
    for i := 0 to |changes|
      invariant out == Marked(changes[..i], threshold, previous.at, current.at)
    {
      var c := changes[i];
      assert changes[..i + 1][..i] == changes[..i];
      if c.delta >= threshold {
        out := out + [Alert(c.path, c.delta, previous.at, current.at)];
      }
    }
    assert changes[..|changes|] == changes;
  }

  /** Alerts are the first entries of the ordered comparison, all of them at or above the threshold and none after. */
  lemma {:induction false} AlertsArePrefix(changes: seq<Change>, threshold: int, from: int, to: int)
    requires Sorted(changeLeq, changes)
    ensures |Marked(changes, threshold, from, to)| <= |changes|
    ensures forall i | 0 <= i < |Marked(changes, threshold, from, to)| ::
              Marked(changes, threshold, from, to)[i] == Alert(changes[i].path, changes[i].delta, from, to)
    ensures forall i | 0 <= i < |changes| ::
              i < |Marked(changes, threshold, from, to)| <==> changes[i].delta >= threshold
  {
    if |changes| > 0 {
      var n := |changes| - 1;
      AlertsArePrefix(changes[..n], threshold, from, to);
      if changes[n].delta >= threshold {
        forall i | 0 <= i < n
          ensures changes[i].delta >= threshold
        {
          assert changeLeq(changes[i], changes[n]);
        }
        if n > 0 {
          assert changes[..n][n - 1].delta >= threshold;
        }
      }
    }
  }
}
