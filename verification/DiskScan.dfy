/** The bounded scan of a directory tree (internal/disk/scan.go): the walk, its callback and the resulting snapshot. */
module DiskScan {
  import opened Ordering
  import opened Paths
  import opened ScanTree
  import opened Snapshots

  const BATCH: nat := 64

  /** What the walk callback returns: nil, fs.SkipDir, the stop marker, or the error about the root. */
  datatype Outcome = Continue | SkipDir | Stop | NotDirectory

  datatype ScanError = BadRate | BadBounds | RootNotDirectory

  datatype ScanResult = Rejected(error: ScanError) | Scanned(snapshot: Snapshot)

  // ---- What a scan keeps, as a function of the visits made ----

  datatype Totals = Totals(entries: int, skipped: int, sizes: map<RelPath, int>)

  /** What a scan of display depth `depth` holds after the given visits. */
  ghost function Tally(done: seq<Step>, depth: nat): Totals {
    if |done| == 0 then Totals(0, 0, map[[] := 0])
    else Add(Tally(done[..|done| - 1], depth), done[|done| - 1], depth)
  }

  ghost function Add(t: Totals, s: Step, depth: nat): Totals {
    Totals(t.entries + (if s.Failed? then 0 else 1),
           t.skipped + (if s.Skipped? || s.Failed? then 1 else 0),
           AddSize(t.sizes, s, depth))
  }

  ghost function AddSize(sizes: map<RelPath, int>, s: Step, depth: nat): map<RelPath, int> {
    match s
    case Entered(path) => List(sizes, path, depth)
    case Counted(path, size) => Spread(sizes, path, size, depth)
    case _ => sizes
  }

  /** Lists a directory, with no bytes of its own. */
  ghost function List(sizes: map<RelPath, int>, path: RelPath, depth: nat): map<RelPath, int> {
    if |path| <= depth then sizes[path := Held(sizes, path)] else sizes
  }

  /** Adds a file to every directory above it that is shallow enough to be listed, and to no other. */
  ghost function Spread(sizes: map<RelPath, int>, path: RelPath, size: nat, depth: nat): map<RelPath, int> {
    SpreadFrom(sizes, path, size, depth, 0)
  }

  /** The same for the directories of at least n components only, the deepest first. */
  ghost function SpreadFrom(sizes: map<RelPath, int>, path: RelPath, size: nat, depth: nat, n: nat): map<RelPath, int>
    decreases |path| - n
  {
    if n >= |path| then sizes
    else
      var later := SpreadFrom(sizes, path, size, depth, n + 1);
      if n <= depth then later[path[..n] := Held(later, path[..n]) + size] else later
  }

  function Held(sizes: map<RelPath, int>, p: RelPath): int {
    if p in sizes then sizes[p] else 0
  }

  /** Exactly the proper ancestors of at least n and at most `depth` components receive the size. */
  lemma {:induction false} SpreadMeans(sizes: map<RelPath, int>, path: RelPath, size: nat, depth: nat, n: nat,
                                       p: RelPath)
    ensures p in SpreadFrom(sizes, path, size, depth, n) <==> p in sizes || (p < path && n <= |p| <= depth)
    ensures Held(SpreadFrom(sizes, path, size, depth, n), p) ==
            Held(sizes, p) + if p < path && n <= |p| <= depth then size else 0
    decreases |path| - n
  {
    if n < |path| {
      SpreadMeans(sizes, path, size, depth, n + 1, p);
      if p < path && |p| == n {
        assert p == path[..n];
      }
    }
  }

  lemma TallyMore(done: seq<Step>, s: Step, depth: nat)
    ensures Tally(done + [s], depth) == Add(Tally(done, depth), s, depth)
  {
    assert (done + [s])[..|done|] == done;
  }

  lemma TallyEntries(done: seq<Step>, s: Step, depth: nat)
    ensures Tally(done + [s], depth).entries == Tally(done, depth).entries + if s.Failed? then 0 else 1
  {
    TallyMore(done, s, depth);
  }

  /** The counters of a scan are the counts of its visits. */
  lemma {:induction false} TallyCounts(done: seq<Step>, depth: nat)
    ensures Tally(done, depth).entries == Entries(done)
    ensures Tally(done, depth).skipped == Skips(done)
  {
    if |done| > 0 {
      TallyCounts(done[..|done| - 1], depth);
    }
  }

  /** The directories a scan lists after the given visits: the root and the entered ones within the depth. */
  ghost predicate Shown(done: seq<Step>, depth: nat, p: RelPath) {
    p == [] || (Entered(p) in done && |p| <= depth)
  }

  /** Whenever a file is counted, all directories above it have been entered before. */
  ghost predicate Rooted(done: seq<Step>) {
    forall i, k | 0 <= i < |done| && done[i].Counted? && 0 <= k < |done[i].path| ::
      Entered(done[i].path[..k]) in done[..i]
  }

  lemma AncestorEntered(done: seq<Step>, i: nat, p: RelPath)
    requires Rooted(done) && i < |done| && done[i].Counted? && p < done[i].path
    ensures Entered(p) in done
  {
    assert done[i].path[..|p|] == p;
    assert Entered(p) in done[..i];
  }

  /** Nothing has been counted below a directory that has not been entered. */
  lemma NothingBelowUnentered(done: seq<Step>, p: RelPath)
    requires Rooted(done) && Entered(p) !in done
    ensures Bytes(done, p) == 0
  {
    forall s | s in done
      ensures Share(p)(s) == 0
    {
      var i :| 0 <= i < |done| && done[i] == s;
      if s.Counted? && p < s.path {
        AncestorEntered(done, i, p);
      }
    }
    SumCompare(done, Share(p), _ => 0);
    ZeroSum(done);
  }

  lemma RootedPrefix(done: seq<Step>, n: nat)
    requires Rooted(done) && n <= |done|
    ensures Rooted(done[..n])
  {
    forall i, k | 0 <= i < n && done[..n][i].Counted? && 0 <= k < |done[..n][i].path|
      ensures Entered(done[..n][i].path[..k]) in done[..n][..i]
    {
      assert done[..n][i] == done[i] && done[..n][..i] == done[..i];
    }
  }

  /** A scan's sizes: one for every listed directory, the bytes of the files visited below it. */
  lemma {:induction false} TallySizes(done: seq<Step>, depth: nat)
    requires Rooted(done)
    ensures forall p :: p in Tally(done, depth).sizes <==> Shown(done, depth, p)
    ensures forall p | p in Tally(done, depth).sizes :: Tally(done, depth).sizes[p] == Bytes(done, p)
  {
    if |done| > 0 {
      var init, s := done[..|done| - 1], done[|done| - 1];
      RootedPrefix(done, |done| - 1);
      TallySizes(init, depth);
      assert done == init + [s];
      if s.Counted? {
        forall k | 0 <= k < |s.path|
          ensures Entered(s.path[..k]) in init
        {
          assert done[|init|] == s && done[..|init|] == init;
        }
      }
      forall p
        ensures p in Tally(done, depth).sizes <==> Shown(done, depth, p)
        ensures p in Tally(done, depth).sizes ==> Tally(done, depth).sizes[p] == Bytes(done, p)
      {
        TallySize(init, s, depth, p);
      }
    }
  }

  /** One step of TallySizes, for one directory. */
  lemma TallySize(init: seq<Step>, s: Step, depth: nat, p: RelPath)
    requires Rooted(init)
    requires s.Counted? ==> forall k | 0 <= k < |s.path| :: Entered(s.path[..k]) in init
    requires p in Tally(init, depth).sizes <==> Shown(init, depth, p)
    requires p in Tally(init, depth).sizes ==> Tally(init, depth).sizes[p] == Bytes(init, p)
    ensures p in AddSize(Tally(init, depth).sizes, s, depth) <==> Shown(init + [s], depth, p)
    ensures p in AddSize(Tally(init, depth).sizes, s, depth) ==>
              AddSize(Tally(init, depth).sizes, s, depth)[p] == Bytes(init + [s], p)
  {
    assert (init + [s])[..|init|] == init;
    assert Entered(p) in init + [s] <==> Entered(p) in init || s == Entered(p);
    match s
    case Counted(path, size) =>
      SpreadMeans(Tally(init, depth).sizes, path, size, depth, 0, p);
      if p < path {
        assert p == path[..|p|];
      }
    case Entered(path) =>
      if path == p && |p| <= depth && !Shown(init, depth, p) {
        NothingBelowUnentered(init, p);
      }
    case _ =>
  }

  // ---- Files are counted below entered directories only ----

  /** Like Rooted, for visits that start below `base`. */
  ghost predicate RootedBelow(steps: seq<Step>, base: nat) {
    forall i, k | 0 <= i < |steps| && steps[i].Counted? && base <= k < |steps[i].path| ::
      Entered(steps[i].path[..k]) in steps[..i]
  }

  lemma RootedConcat(a: seq<Step>, b: seq<Step>, base: nat)
    requires RootedBelow(a, base) && RootedBelow(b, base)
    ensures RootedBelow(a + b, base)
  {
    var c := a + b;
    forall i, k | 0 <= i < |c| && c[i].Counted? && base <= k < |c[i].path|
      ensures Entered(c[i].path[..k]) in c[..i]
    {
      if i < |a| {
        assert c[i] == a[i] && c[..i] == a[..i];
      } else {
        assert c[i] == b[i - |a|] && c[..i] == a + b[..i - |a|];
      }
    }
  }

  lemma RootedFrom(path: RelPath, body: seq<Step>)
    requires RootedBelow(body, |path| + 1)
    requires forall s | s in body :: path <= s.path
    ensures RootedBelow([Entered(path)] + body, |path|)
  {
    var c := [Entered(path)] + body;
    forall i, k | 0 <= i < |c| && c[i].Counted? && |path| <= k < |c[i].path|
      ensures Entered(c[i].path[..k]) in c[..i]
    {
      assert c[i] == body[i - 1] && c[..i] == [Entered(path)] + body[..i - 1];
      if k == |path| {
        assert c[i].path[..k] == path;
      }
    }
  }

  lemma {:induction false} TraceRooted(e: Entry, path: RelPath, hidden: set<RelPath>)
    ensures RootedBelow(Trace(e, path, hidden), if e.Dir? then |path| else |path| + 1)
    decreases e
  {
    if !e.Dir? || path in hidden {
      TraceStaysBelow(e, path, hidden);
    } else if |path| < MAX_NESTING && e.opens {
      var body, tail := TraceAll(e.children, path, hidden), if e.lists then [] else [Failed(path)];
      TraceAllRooted(e.children, path, hidden);
      TraceAllStaysBelow(e.children, path, hidden);
      RootedFrom(path, body);
      RootedConcat([Entered(path)] + body, tail, |path|);
    }
  }

  lemma {:induction false} TraceAllRooted(cs: seq<Child>, path: RelPath, hidden: set<RelPath>)
    ensures RootedBelow(TraceAll(cs, path, hidden), |path| + 1)
    decreases cs
  {
    if |cs| > 0 {
      TraceRooted(cs[0].entry, path + [cs[0].name], hidden);
      TraceAllRooted(cs[1..], path, hidden);
      RootedConcat(Trace(cs[0].entry, path + [cs[0].name], hidden), TraceAll(cs[1..], path, hidden), |path| + 1);
    }
  }

  // ---- The walk of one list ----

  /** The visits that reading a directory's list brings, after the directory itself. */
  ghost function ListTrace(e: Entry, path: RelPath, hidden: set<RelPath>): seq<Step>
    requires e.Dir?
  {
    TraceAll(e.children, path, hidden) + if e.lists then [] else [Failed(path)]
  }

  /** Walking one more child of a list: what it adds, and that it stays within the whole list. */
  lemma NextChild(before: seq<Step>, mid: seq<Step>, e: Entry, n: nat, path: RelPath, hidden: set<RelPath>)
    requires e.Dir? && n < |e.children|
    requires mid == before + TraceAll(e.children[..n], path, hidden)
    ensures mid + Trace(e.children[n].entry, path + [e.children[n].name], hidden) ==
            before + TraceAll(e.children[..n + 1], path, hidden)
    ensures before <= mid
    ensures mid + Trace(e.children[n].entry, path + [e.children[n].name], hidden) <=
            before + ListTrace(e, path, hidden)
  {
    var cs := e.children;
    TraceAllExtend(cs[..n], cs[n], path, hidden);
    assert cs[..n + 1] == cs[..n] + [cs[n]];
    TraceAllPrefix(cs, n + 1, path, hidden);
    PrefixAppend(before, TraceAll(cs[..n + 1], path, hidden), ListTrace(e, path, hidden));
  }

  lemma PrefixAppend(a: seq<Step>, b: seq<Step>, c: seq<Step>)
    requires b <= c
    ensures a + b <= a + c
  {
  }

  /** The list read so far lies within the whole list. */
  lemma ListSoFar(before: seq<Step>, e: Entry, n: nat, path: RelPath, hidden: set<RelPath>)
    requires e.Dir? && n <= |e.children|
    ensures before + TraceAll(e.children[..n], path, hidden) <= before + ListTrace(e, path, hidden)
  {
    TraceAllPrefix(e.children, n, path, hidden);
    PrefixAppend(before, TraceAll(e.children[..n], path, hidden), ListTrace(e, path, hidden));
  }

  lemma ListRead(before: seq<Step>, now: seq<Step>, e: Entry, path: RelPath, hidden: set<RelPath>)
    requires e.Dir? && now == before + TraceAll(e.children[..|e.children|], path, hidden)
    ensures before + ListTrace(e, path, hidden) == if e.lists then now else now + [Failed(path)]
  {
    assert e.children[..|e.children|] == e.children;
  }

  /** A directory's visits are itself, then its list. */
  lemma DirTrace(before: seq<Step>, e: Entry, path: RelPath, hidden: set<RelPath>)
    requires e.Dir? && path !in hidden
    ensures |path| >= MAX_NESTING || !e.opens ==>
              before + [Entered(path)] + [Failed(path)] == before + Trace(e, path, hidden)
    ensures |path| < MAX_NESTING && e.opens ==>
              before + [Entered(path)] + ListTrace(e, path, hidden) == before + Trace(e, path, hidden)
  {
  }

  lemma {:induction false} TraceAllPrefix(cs: seq<Child>, n: nat, path: RelPath, hidden: set<RelPath>)
    requires n <= |cs|
    ensures TraceAll(cs[..n], path, hidden) <= TraceAll(cs, path, hidden)
  {
    if n > 0 {
      assert cs[..n][1..] == cs[1..][..n - 1];
      TraceAllPrefix(cs[1..], n - 1, path, hidden);
    }
  }

  /** The entries counted only grow. */
  lemma MoreVisitsMoreEntries(part: seq<Step>, whole: seq<Step>, depth: nat)
    requires part <= whole
    ensures Tally(part, depth).entries <= Tally(whole, depth).entries
  {
    TallyCounts(part, depth);
    TallyCounts(whole, depth);
    PrefixCountsLess(part, whole, entryWeight);
  }

  /** The state of one running scan. */
  class Scanner {
    const depth: nat
    const limit: nat
    const hidden: set<RelPath>
    /** The context answers "cancelled" from this poll on. */
    const cancelAt: nat
    /** The polls at which pacing finds a positive wait. */
    const slow: set<nat>

    var polls: nat
    var entries: int
    var skipped: int
    var reason: Reason
    var sizes: map<RelPath, int>
    /** The visits made so far. */
    ghost var done: seq<Step>
    /** Once stopped: the visits made and the one that was refused. */
    ghost var cut: seq<Step>

    ghost predicate Valid()
      reads this
    {
      Tallied() && |done| <= polls && |done| <= cancelAt
    }

    /** Counters and sizes are those of the visits made. */
    ghost predicate Tallied()
      reads this
    {
      && Tally(done, depth).entries == entries <= limit
      && Tally(done, depth).skipped == skipped
      && Tally(done, depth).sizes == sizes
    }

    /** No visit has asked to stop. */
    ghost predicate Running()
      reads this
    {
      Valid() && reason == NoReason && polls <= cancelAt
    }

    /** A visit has asked to stop: the context was cancelled, or one more entry would pass the limit. */
    ghost predicate Stopped()
      reads this
    {
      && Valid()
      && done <= cut
      && ((reason == TimeLimitOrCancellation && cancelAt < polls) ||
          (reason == EntryLimit && polls <= cancelAt && Tally(cut, depth).entries > limit))
    }

    constructor (depth: nat, limit: nat, hidden: set<RelPath>, cancelAt: nat, slow: set<nat>)
      ensures Running() && done == [] && polls == 0
      ensures this.depth == depth && this.limit == limit && this.hidden == hidden && this.cancelAt == cancelAt
    {
      this.depth, this.limit, this.hidden, this.cancelAt, this.slow := depth, limit, hidden, cancelAt, slow;
      polls, entries, skipped, reason := 0, 0, 0, NoReason;
      sizes := map[[] := 0];
      done, cut := [], [];
    }

    /** `ctx.Err() != nil`. */
    method Cancelled() returns (c: bool)
      modifies this`polls
      ensures polls == old(polls) + 1
      ensures c <==> cancelAt <= old(polls)
    {
      c := cancelAt <= polls;
      polls := polls + 1;
    }

    /** Appends a visit to the record. */
    ghost method Log(s: Step)
      modifies this`done
      ensures done == old(done) + [s]
      ensures Tally(done, depth) == Add(Tally(old(done), depth), s, depth)
    {
      TallyMore(done, s, depth);
      done := done + [s];
    }

    /** Adds a file's size to every directory above it that is shallow enough to be listed. */
    method AddToAncestors(path: RelPath, size: nat)
      requires |path| > 0
      modifies this`sizes
      ensures sizes == Spread(old(sizes), path, size, depth)
    {
      var parent := path[..|path| - 1];
      while true
        invariant |parent| < |path| && parent == path[..|parent|]
        invariant sizes == SpreadFrom(old(sizes), path, size, depth, |parent| + 1)
        decreases |parent|
      {
        if parent == [] || |parent| <= depth {
          sizes := sizes[parent := Held(sizes, parent) + size];
        }
        if parent == [] { break; }
        parent := parent[..|parent| - 1];
      }
    }

    /** Lists a directory that is shallow enough. */
    method ListDirectory(path: RelPath)
      modifies this`sizes
      ensures sizes == List(old(sizes), path, depth)
    {
      if path == [] || |path| <= depth {
        sizes := sizes[path := Held(sizes, path) + 0];
      }
    }

    /** The second half of the callback: what becomes of an entry that has been counted. */
    method Account(path: RelPath, e: Entry) returns (o: Outcome)
      requires path == [] ==> e.Dir?
      requires Tally(done, depth).entries == entries - 1 < limit
      requires Tally(done, depth).skipped == skipped && Tally(done, depth).sizes == sizes
      modifies this`skipped, this`sizes, this`done
      ensures Tallied() && done == old(done) + [StepOf(path, e, hidden)]
      ensures o.Continue? || (o.SkipDir? && path in hidden)
      ensures o.Continue? && e.Dir? ==> path !in hidden
    {
      if e.Link? {
        skipped := skipped + 1;
        Log(Skipped(path));
        return Continue;
      }
      if path in hidden {
        skipped := skipped + 1;
        Log(Skipped(path));
        return SkipDir;
      }
      if e.Dir? {
        ListDirectory(path);
        Log(Entered(path));
        return Continue;
      }
      if !e.stats {
        skipped := skipped + 1;
        Log(Skipped(path));
        return Continue;
      }
      if e.Special? {
        Log(Ignored(path));
        return Continue;
      }
      AddToAncestors(path, e.size);
      Log(Counted(path, e.size));
      return Continue;
    }

    /** Waits for the scan's pace; the context may be cancelled meanwhile. */
    method Pace() returns (stop: bool)
      requires Running()
      modifies this`polls, this`reason, this`cut
      ensures stop ==> Stopped() && cut == done
      ensures !stop ==> Running() && polls >= old(polls)
    {
      stop := false;
      if polls in slow {
        stop := Cancelled();
        if stop {
          reason, cut := TimeLimitOrCancellation, done;
        }
      }
    }

    /** Counts the entry whose visit is `step`, unless that would pass the limit. */
    method CountEntry(ghost step: Step) returns (stop: bool)
      requires Running() && !step.Failed?
      modifies this`entries, this`reason, this`cut
      ensures stop ==> Stopped() && cut == done + [step]
      ensures !stop ==> Tally(done, depth).entries == entries - 1 < limit
      ensures !stop ==> Tally(done, depth).skipped == skipped && Tally(done, depth).sizes == sizes
      ensures !stop ==> reason == NoReason
    {
      entries := entries + 1;
      stop := entries > limit;
      if stop {
        entries := entries - 1;
        TallyEntries(done, step, depth);
        reason, cut := EntryLimit, done + [step];
      }
    }

    /** The walk callback. */
    method Visit(path: RelPath, e: Entry, failed: bool) returns (o: Outcome)
      requires Valid() && reason == NoReason
      requires polls <= cancelAt || failed
      modifies this
      ensures o.Stop? ==> done == old(done) && Stopped()
      ensures o.Stop? ==> cut <= done + [if failed then Failed(path) else StepOf(path, e, hidden)]
      ensures o.NotDirectory? <==> !failed && path == [] && !e.Dir? && old(polls) < cancelAt
      ensures o.NotDirectory? ==> done == old(done)
      ensures !failed && path == [] && !e.Dir? ==> o.NotDirectory? || o.Stop?
      ensures o.Continue? || o.SkipDir? ==> Running()
      ensures o.Continue? || o.SkipDir? ==>
                done == old(done) + [if failed then Failed(path) else StepOf(path, e, hidden)]
      ensures o.SkipDir? ==> path in hidden && !failed
      ensures o.Continue? && !failed && e.Dir? ==> path !in hidden
      ensures old(polls) > cancelAt ==> o.Stop? && cut == done
    {
      var c := Cancelled();
      if c {
        reason, cut := TimeLimitOrCancellation, done;
        return Stop;
      }
      if failed {
        skipped := skipped + 1;
        Log(Failed(path));
        return Continue;
      }
      if path == [] && !e.Dir? {
        return NotDirectory;
      }
      c := Pace();
      if c {
        return Stop;
      }
      c := CountEntry(StepOf(path, e, hidden));
      if c {
        return Stop;
      }
      o := Account(path, e);
    }

    /** The recursive walk: visit, then the directory's list. */
    method Walk(path: RelPath, e: Entry, nesting: nat) returns (o: Outcome)
      requires Running() && nesting == |path|
      modifies this
      ensures !o.SkipDir?
      ensures o.NotDirectory? <==> path == [] && !e.Dir? && old(polls) < cancelAt
      ensures o.NotDirectory? ==> done == old(done)
      ensures path == [] && !e.Dir? ==> done == old(done)
      ensures o.Continue? ==> Running() && done == old(done) + Trace(e, path, hidden)
      ensures o.Stop? ==> Stopped() && old(done) <= done && cut <= old(done) + Trace(e, path, hidden)
      decreases e, 2
    {
      ghost var before := done;
      o := Visit(path, e, false);
      if !o.Continue? {
        if o.SkipDir? {
          return Continue;
        }
        return;
      }
      if !e.Dir? {
        return;
      }
      DirTrace(before, e, path, hidden);
      if nesting >= MAX_NESTING {
        o := Visit(path, e, true);
        return;
      }
      if !e.opens {
        o := Visit(path, e, true);
        return;
      }
      o := WalkList(path, e, nesting);
    }

    /** Walks a directory's list, read in batches of 64. */
    method WalkList(path: RelPath, e: Entry, nesting: nat) returns (o: Outcome)
      requires e.Dir?
      requires Running() && nesting == |path|
      modifies this
      ensures o.Continue? || o.Stop?
      ensures o.Continue? ==> Running() && done == old(done) + ListTrace(e, path, hidden)
      ensures o.Stop? ==> Stopped() && old(done) <= done && cut <= old(done) + ListTrace(e, path, hidden)
      decreases e, 1
    {
      ghost var before := done;
      var pos := 0;
      assert e.children[..0] == [];
      while true
        invariant 0 <= pos <= |e.children|
        invariant Running()
        invariant done == before + TraceAll(e.children[..pos], path, hidden)
        decreases |e.children| - pos
      {
        var c := Cancelled();
        if c {
          ListSoFar(before, e, pos, path, hidden);
          o := Visit(path, e, true);
          return;
        }
        var size := if |e.children| - pos < BATCH then |e.children| - pos else BATCH;
        o := WalkBatch(path, e, pos, pos + size, nesting, before);
        if !o.Continue? {
          return;
        }
        pos := pos + size;
        if e.lists && size == 0 {
          ListRead(before, done, e, path, hidden);
          return Continue;
        }
        if !e.lists && size < BATCH {
          ListRead(before, done, e, path, hidden);
          o := Visit(path, e, true);
          return;
        }
      }
    }

    /** Walks the children from `from` to `end` of a directory's list. */
    method WalkBatch(path: RelPath, e: Entry, from: nat, end: nat, nesting: nat, ghost before: seq<Step>)
      returns (o: Outcome)
      requires e.Dir? && from <= end <= |e.children|
      requires Running() && nesting == |path|
      requires done == before + TraceAll(e.children[..from], path, hidden)
      modifies this
      ensures o.Continue? || o.Stop?
      ensures o.Continue? ==> Running()
      ensures o.Continue? ==> done == before + TraceAll(e.children[..end], path, hidden)
      ensures o.Stop? ==> Stopped() && before <= done && cut <= before + ListTrace(e, path, hidden)
      decreases e, 0
    {
      var pos := from;
      while pos < end
        invariant from <= pos <= end
        invariant Running()
        invariant done == before + TraceAll(e.children[..pos], path, hidden)
      {
        var child := e.children[pos];
        ghost var mid := done;
        NextChild(before, mid, e, pos, path, hidden);
        o := Walk(path + [child.name], child.entry, nesting + 1);
        if !o.Continue? {
          return;
        }
        pos := pos + 1;
      }
      o := Continue;
    }
  }

  /** The visits of an undisturbed scan; `Lstat` of the root may fail. */
  ghost function RootTrace(root: Found, hidden: set<RelPath>): seq<Step> {
    if root.Absent? then [Failed([])] else Trace(root.entry, [], hidden)
  }

  /** A snapshot lists exactly the given sizes, under their text names and in the order of these. */
  ghost predicate ListsExactly(nodes: seq<Node>, sizes: map<RelPath, int>) {
    && Sorted(nodeLeq, nodes)
    && DistinctPaths(nodes)
    && (forall p | p in sizes :: Node(Render(p), sizes[p]) in nodes)
    && (forall n | n in nodes :: exists p :: p in sizes && n == Node(Render(p), sizes[p]))
  }

  const nodeLeq: (Node, Node) -> bool := (a: Node, b: Node) => StringLeq(a.path, b.path)

  lemma NodeOrder()
    ensures TotalPreorder(nodeLeq)
  {
    forall x: Node, y: Node
      ensures nodeLeq(x, y) || nodeLeq(y, x)
    {
      StringLeqTotal(x.path, y.path);
    }
    forall x: Node, y: Node, z: Node | nodeLeq(x, y) && nodeLeq(y, z)
      ensures nodeLeq(x, z)
    {
      StringLeqTransitive(x.path, y.path, z.path);
    }
  }

  /** Turns the size map, in whatever order the map is ranged over, into the snapshot's sorted node list. */
  method CollectNodes(sizes: map<RelPath, int>) returns (nodes: seq<Node>)
    requires forall p | p in sizes :: ValidPath(p)
    ensures DistinctPaths(nodes)
    ensures forall p | p in sizes :: Node(Render(p), sizes[p]) in nodes
    ensures forall n | n in nodes :: exists p :: p in sizes && n == Node(Render(p), sizes[p])
  {
    nodes := [];
    var todo := sizes.Keys;
    ghost var order: seq<RelPath> := [];
    while todo != {}
      invariant todo <= sizes.Keys
      invariant |order| == |nodes|
      invariant forall i | 0 <= i < |order| ::
                  order[i] in sizes.Keys - todo && nodes[i] == Node(Render(order[i]), sizes[order[i]])
      invariant forall i, j | 0 <= i < j < |order| :: order[i] != order[j]
      invariant forall p | p in sizes.Keys - todo :: Node(Render(p), sizes[p]) in nodes
      decreases todo
    {
      var p :| p in todo;
      nodes := nodes + [Node(Render(p), sizes[p])];
      order := order + [p];
      todo := todo - {p};
    }
    assert DistinctPaths(nodes) by {
      forall i, j | 0 <= i < j < |nodes|
        ensures nodePath(nodes[i]) != nodePath(nodes[j])
      {
        if Render(order[i]) == Render(order[j]) {
          RenderInjective(order[i], order[j]);
        }
      }
    }
  }

  /** Lists them by path. */
  method ListNodes(sizes: map<RelPath, int>) returns (nodes: seq<Node>)
    requires forall p | p in sizes :: ValidPath(p)
    ensures ListsExactly(nodes, sizes)
  {
    nodes := CollectNodes(sizes);
    NodeOrder();
    var sorted := SortSlice(nodeLeq, nodes);
    PermutationKeepsDistinct(nodePath, nodes, sorted);
    forall n
      ensures n in sorted <==> n in nodes
    {
      assert n in multiset(sorted) <==> n in multiset(nodes);
    }
    nodes := sorted;
  }

  /** A path that leads somewhere in a well-named tree is made of usable names. */
  lemma {:induction false} PathsAreValid(e: Entry, p: RelPath)
    requires WellNamed(e) && At(e, p).Present?
    ensures ValidPath(p)
    decreases e
  {
    if |p| > 0 {
      ChildPathsAreValid(e.children, p);
    }
  }

  lemma {:induction false} ChildPathsAreValid(cs: seq<Child>, p: RelPath)
    requires AllWellNamed(cs) && |p| > 0 && AtChild(cs, p).Present?
    ensures ValidPath(p)
    decreases cs
  {
    if cs[0].name == p[0] {
      PathsAreValid(cs[0].entry, p[1..]);
      assert p == [p[0]] + p[1..];
    } else {
      ChildPathsAreValid(cs[1..], p);
    }
  }

  /** Any part of the undisturbed walk counts files below entered directories only. */
  lemma ScanRooted(root: Found, hidden: set<RelPath>, done: seq<Step>)
    requires done <= RootTrace(root, hidden)
    requires root.Present? && !root.entry.Dir? ==> done == []
    ensures Rooted(done)
  {
    if root.Present? && root.entry.Dir? {
      TraceRooted(root.entry, [], hidden);
      var t := RootTrace(root, hidden);
      forall i, k | 0 <= i < |done| && done[i].Counted? && 0 <= k < |done[i].path|
        ensures Entered(done[i].path[..k]) in done[..i]
      {
        assert done[i] == t[i] && done[..i] == t[..i];
      }
    }
  }

  /** Every directory a scan lists below the root is a directory of the tree. */
  lemma ShownAreDirectories(root: Found, hidden: set<RelPath>, done: seq<Step>, depth: nat, p: RelPath)
    requires root.Present? ==> WellNamed(root.entry)
    requires done <= RootTrace(root, hidden) && Shown(done, depth, p)
    ensures p == [] || (root.Present? && IsDir(root.entry, p))
    ensures ValidPath(p)
  {
    if p != [] {
      assert Entered(p) in RootTrace(root, hidden);
      assert [] + p == p;
      EntersDirectories(root.entry, [], hidden, p);
      PathsAreValid(root.entry, p);
    }
  }

  /** A snapshot lists exactly the directories to be shown after the given visits, each with the bytes below it. */
  ghost predicate Lists(nodes: seq<Node>, done: seq<Step>, depth: nat) {
    && Sorted(nodeLeq, nodes)
    && DistinctPaths(nodes)
    && (forall p | Shown(done, depth, p) :: Node(Render(p), Bytes(done, p)) in nodes)
    && (forall n | n in nodes :: exists p :: Shown(done, depth, p) && n == Node(Render(p), Bytes(done, p)))
  }

  lemma ListsVisits(nodes: seq<Node>, done: seq<Step>, depth: nat)
    requires Rooted(done) && ListsExactly(nodes, Tally(done, depth).sizes)
    ensures Lists(nodes, done, depth)
  {
    TallySizes(done, depth);
    var sizes := Tally(done, depth).sizes;
    forall n | n in nodes
      ensures exists p :: Shown(done, depth, p) && n == Node(Render(p), Bytes(done, p))
    {
      var p :| p in sizes && n == Node(Render(p), sizes[p]);
      assert Shown(done, depth, p);
    }
  }

  /** How a snapshot follows from the visits that were made. */
  ghost predicate Explains(s: Snapshot, root: Found, hidden: set<RelPath>, depth: nat, limit: nat, done: seq<Step>) {
    && done <= RootTrace(root, hidden)
    && s.entries == Entries(done) <= limit
    && s.skipped == Skips(done)
    && Lists(s.nodes, done, depth)
    && Judged(s.complete, s.reason, root, hidden, limit, done)
  }

  /** How the verdict of a snapshot follows from the visits that were made. */
  ghost predicate Judged(complete: bool, reason: Reason, root: Found, hidden: set<RelPath>, limit: nat,
                         done: seq<Step>) {
    && (complete <==> reason == NoReason)
    && (reason == NoReason || reason == UnreadableOrExcluded ==> done == RootTrace(root, hidden))
    && (reason == NoReason ==> Skips(done) == 0)
    && (reason == UnreadableOrExcluded ==> Skips(done) > 0)
    && (reason == EntryLimit ==> Entries(RootTrace(root, hidden)) > limit)
  }

  /** The verdict that `ScanRate` derives from how the walk ended. */
  lemma VerdictHolds(stopped: bool, skipped: int, reason: Reason, root: Found, hidden: set<RelPath>, depth: nat,
                     limit: nat, done: seq<Step>, cut: seq<Step>)
    requires skipped == Tally(done, depth).skipped
    requires !stopped ==> reason == NoReason && done == RootTrace(root, hidden)
    requires stopped ==>
               reason == TimeLimitOrCancellation || (reason == EntryLimit && Tally(cut, depth).entries > limit)
    requires stopped ==> cut <= RootTrace(root, hidden)
    ensures Judged(!stopped && skipped == 0, if skipped > 0 && reason == NoReason then UnreadableOrExcluded else reason,
                   root, hidden, limit, done)
  {
    TallyCounts(done, depth);
    TallyCounts(RootTrace(root, hidden), depth);
    if stopped {
      MoreVisitsMoreEntries(cut, RootTrace(root, hidden), depth);
    }
  }

  /** Starts the walk at the root. */
  method RunWalk(root: Found, hidden: set<RelPath>, depth: nat, limit: nat, cancelAt: nat, slow: set<nat>)
    returns (o: Outcome, scan: Scanner)
    ensures scan.depth == depth && scan.limit == limit && scan.hidden == hidden && scan.cancelAt == cancelAt
    ensures !o.SkipDir?
    ensures o.NotDirectory? <==> root.Present? && !root.entry.Dir? && cancelAt > 0
    ensures !o.NotDirectory? ==> scan.Valid() && scan.done <= RootTrace(root, hidden)
    ensures !o.NotDirectory? && root.Present? && !root.entry.Dir? ==> scan.done == []
    ensures o.Continue? ==> scan.Running() && scan.done == RootTrace(root, hidden)
    ensures o.Stop? ==> scan.Stopped() && scan.cut <= RootTrace(root, hidden)
  {
    scan := new Scanner(depth, limit, hidden, cancelAt, slow);
    assert [] + RootTrace(root, hidden) == RootTrace(root, hidden);
    if root.Absent? {
      o := scan.Visit([], Link, true);
    } else {
      o := scan.Walk([], root.entry, 0);
    }
  }

  /**
    One bounded scan. `done` are the visits it made: a prefix of the undisturbed walk, all of it unless the
    scan stopped, and every number in the snapshot is a function of them.
   */
  method ScanRate(root: Found, slash: bool, depth: int, maxEntries: int, entriesPerSecond: int,
                  agent: string, rootName: string, at: int, cancelAt: nat, slow: set<nat>)
    returns (r: ScanResult, polls: nat, ghost done: seq<Step>)
    requires root.Present? ==> WellNamed(root.entry)
    ensures r == Rejected(BadRate) <==> !(1 <= entriesPerSecond <= 100000)
    ensures r == Rejected(BadBounds) <==>
              1 <= entriesPerSecond <= 100000 && !(0 <= depth <= 5 && 1 <= maxEntries <= 100000)
    ensures r == Rejected(RootNotDirectory) ==> root.Present? && !root.entry.Dir?
    ensures r == Rejected(RootNotDirectory) ==> cancelAt > 0
    ensures r.Scanned? ==> root.Present? && !root.entry.Dir? ==> cancelAt == 0
    ensures r.Scanned? ==> r.snapshot.agent == agent && r.snapshot.root == rootName && r.snapshot.at == at
    ensures r.Scanned? ==> 0 <= depth && 1 <= maxEntries && r.snapshot.depth == depth
    ensures r.Scanned? ==> Explains(r.snapshot, root, Hidden(slash), depth, maxEntries, done)
    ensures r.Scanned? ==> (r.snapshot.reason == TimeLimitOrCancellation <==> cancelAt < polls)
    ensures r.Scanned? ==> |done| <= polls && |done| <= cancelAt
  {
    done, polls := [], 0;
    if entriesPerSecond < 1 || entriesPerSecond > 100000 {
      r := Rejected(BadRate);
      return;
    }
    if depth < 0 || depth > 5 || maxEntries < 1 || maxEntries > 100000 {
      r := Rejected(BadBounds);
      return;
    }
    var o, scan := RunWalk(root, Hidden(slash), depth, maxEntries, cancelAt, slow);
    if o.NotDirectory? {
      r := Rejected(RootNotDirectory);
      return;
    }
    done, polls := scan.done, scan.polls;
    var complete := !o.Stop? && scan.skipped == 0;
    var reason := scan.reason;
    if scan.skipped > 0 && reason == NoReason {
      reason := UnreadableOrExcluded;
    }
    TallyCounts(done, depth);
    VerdictHolds(o.Stop?, scan.skipped, scan.reason, root, Hidden(slash), depth, maxEntries, done, scan.cut);
    assert Judged(complete, reason, root, Hidden(slash), maxEntries, done);
    ScanRooted(root, Hidden(slash), done);
    TallySizes(done, depth);
    forall p | p in scan.sizes
      ensures ValidPath(p)
    {
      ShownAreDirectories(root, Hidden(slash), done, depth, p);
    }
    var nodes := ListNodes(scan.sizes);
    ListsVisits(nodes, done, depth);
    var s := Snapshot(agent, rootName, at, depth, complete, scan.entries, scan.skipped, reason, nodes);
    assert Explains(s, root, Hidden(slash), depth, maxEntries, done);
    r := Scanned(s);
  }

  // ---- What a snapshot tells about the tree ----

  /** A scan is complete exactly when nothing had to be skipped, everything fits the limit and nobody cancelled. */
  lemma CompleteUnlessTimeout(s: Snapshot, e: Entry, slash: bool, depth: nat, limit: nat, done: seq<Step>)
    requires Explains(s, Present(e), Hidden(slash), depth, limit, done)
    ensures s.complete <==>
              Clean(e, [], Hidden(slash)) && EntryCount(e) <= limit && s.reason != TimeLimitOrCancellation
    ensures s.complete ==> s.entries == EntryCount(e) && s.skipped == 0
  {
    CleanTrace(e, [], Hidden(slash));
    PrefixCountsLess(done, RootTrace(Present(e), Hidden(slash)), skipWeight);
  }

  /**
    Whenever `ScanRate` returns a snapshot of a directory, it is complete if and only if the tree is clean and within
    the entry limit, and no poll came after the cancellation.
   */
  lemma CompleteMeans(s: Snapshot, e: Entry, slash: bool, depth: nat, limit: nat, done: seq<Step>,
                      cancelAt: nat, polls: nat)
    requires Explains(s, Present(e), Hidden(slash), depth, limit, done)
    requires s.reason == TimeLimitOrCancellation <==> cancelAt < polls
    ensures s.complete <==> Clean(e, [], Hidden(slash)) && EntryCount(e) <= limit && polls <= cancelAt
    ensures s.complete ==> s.entries == EntryCount(e) && s.skipped == 0
  {
    CompleteUnlessTimeout(s, e, slash, depth, limit, done);
  }

  /** A complete scan lists exactly the directories of at most `depth` components, with their recursive sums. */
  lemma CompleteListsTree(s: Snapshot, e: Entry, slash: bool, depth: nat, limit: nat, done: seq<Step>)
    requires WellNamed(e) && e.Dir?
    requires Explains(s, Present(e), Hidden(slash), depth, limit, done) && s.complete
    ensures forall p | |p| <= depth && IsDir(e, p) :: Node(Render(p), TreeBytes(At(e, p).entry)) in s.nodes
    ensures forall n | n in s.nodes ::
              exists p :: |p| <= depth && IsDir(e, p) && n == Node(Render(p), TreeBytes(At(e, p).entry))
    ensures Node(".", TreeBytes(e)) in s.nodes
  {
    CompleteUnlessTimeout(s, e, slash, depth, limit, done);
    forall p: RelPath
      ensures Shown(done, depth, p) <==> |p| <= depth && IsDir(e, p)
      ensures IsDir(e, p) ==> Bytes(done, p) == TreeBytes(At(e, p).entry)
    {
      assert [] + p == p;
      EntersDirectories(e, [], Hidden(slash), p);
      if IsDir(e, p) {
        SubtreeSum(e, [], Hidden(slash), p);
      }
    }
    assert IsDir(e, []) && Render([]) == ".";
    forall n | n in s.nodes
      ensures exists p :: |p| <= depth && IsDir(e, p) && n == Node(Render(p), TreeBytes(At(e, p).entry))
    {
      var p :| Shown(done, depth, p) && n == Node(Render(p), Bytes(done, p));
      assert |p| <= depth && IsDir(e, p);
    }
  }

  /** The total of a complete scan does not depend on how deep the listing goes. */
  lemma RootTotalIgnoresDepth(s: Snapshot, t: Snapshot, e: Entry, slash: bool,
                              d1: nat, d2: nat, limit1: nat, limit2: nat, done1: seq<Step>, done2: seq<Step>, n: Node)
    requires WellNamed(e) && e.Dir?
    requires Explains(s, Present(e), Hidden(slash), d1, limit1, done1) && s.complete
    requires Explains(t, Present(e), Hidden(slash), d2, limit2, done2) && t.complete
    requires n.path == "." && n in s.nodes
    ensures n in t.nodes
  {
    CompleteListsTree(s, e, slash, d1, limit1, done1);
    CompleteListsTree(t, e, slash, d2, limit2, done2);
    SamePathSameNode(s.nodes, n, Node(".", TreeBytes(e)));
  }

  lemma SamePathSameNode(nodes: seq<Node>, a: Node, b: Node)
    requires DistinctPaths(nodes) && a in nodes && b in nodes && a.path == b.path
    ensures a == b
  {
    var i :| 0 <= i < |nodes| && nodes[i] == a;
    var j :| 0 <= j < |nodes| && nodes[j] == b;
    var pathA, pathB := nodePath(nodes[i]), nodePath(nodes[j]);
  }

  /**
    Wherever a scan stopped: every listed directory exists, its bytes are those of the files visited below it and
    never more than the tree holds there, and never less than those of a listed directory below it.
   */
  lemma PartialNeverExceeds(s: Snapshot, e: Entry, slash: bool, depth: nat, limit: nat, done: seq<Step>,
                            p: RelPath, q: RelPath)
    requires WellNamed(e) && e.Dir?
    requires Explains(s, Present(e), Hidden(slash), depth, limit, done)
    requires Shown(done, depth, p) && Shown(done, depth, q) && p <= q
    ensures IsDir(e, p) && Node(Render(p), Bytes(done, p)) in s.nodes
    ensures Bytes(done, p) <= TreeBytes(At(e, p).entry)
    ensures Bytes(done, q) <= Bytes(done, p)
  {
    ShownAreDirectories(Present(e), Hidden(slash), done, depth, p);
    assert [] + p == p;
    SubtreeSum(e, [], Hidden(slash), p);
    PrefixCountsLess(done, RootTrace(Present(e), Hidden(slash)), Share(p));
    AncestorHoldsMore(done, p, q);
  }

  /**
    A scan is complete if and only if its tree is clean, within the entry limit, and no poll came after the
    cancellation; and for "/", which has nothing at proc, sys and dev. Below other roots these names mean nothing.
   */
  lemma CompleteExactly(s: Snapshot, e: Entry, slash: bool, depth: nat, limit: nat, done: seq<Step>,
                        cancelAt: nat, polls: nat)
    requires WellNamed(e) && Explains(s, Present(e), Hidden(slash), depth, limit, done)
    requires s.reason == TimeLimitOrCancellation <==> cancelAt < polls
    ensures s.complete <==>
            && Clean(e, [], {}) && EntryCount(e) <= limit && polls <= cancelAt
            && (slash ==> At(e, ["proc"]).Absent? && At(e, ["sys"]).Absent? && At(e, ["dev"]).Absent?)
  {
    CompleteMeans(s, e, slash, depth, limit, done, cancelAt, polls);
    CleanButHidden(e, slash);
  }

  lemma CleanButHidden(e: Entry, slash: bool)
    requires WellNamed(e)
    ensures Clean(e, [], Hidden(slash)) <==>
            && Clean(e, [], {})
            && (slash ==> At(e, ["proc"]).Absent? && At(e, ["sys"]).Absent? && At(e, ["dev"]).Absent?)
  {
    CleanWithout(e, [], Hidden(slash));
    forall p: RelPath
      ensures [] + p == p
    {
    }
    if Clean(e, [], Hidden(slash)) && slash {
      forall p: RelPath | p in Hidden(true)
        ensures At(e, p).Absent?
      {
        if At(e, p).Present? {
          CleanBelow(e, [], Hidden(true), p);
        }
      }
      assert ["proc"] in Hidden(true) && ["sys"] in Hidden(true) && ["dev"] in Hidden(true);
    }
  }

  /** A scan of "/" that meets /proc, /sys or /dev is never complete. */
  lemma SlashScanIsPartial(s: Snapshot, e: Entry, depth: nat, limit: nat, done: seq<Step>, p: RelPath)
    requires Explains(s, Present(e), Hidden(true), depth, limit, done)
    requires p == ["proc"] || p == ["sys"] || p == ["dev"]
    requires At(e, p).Present?
    ensures !s.complete
  {
    CompleteUnlessTimeout(s, e, true, depth, limit, done);
    if Clean(e, [], Hidden(true)) {
      assert [] + p == p;
      CleanBelow(e, [], Hidden(true), p);
    }
  }

  /** Wherever it stops, a scan of "/" visits nothing below them. */
  lemma NothingBelowHidden(s: Snapshot, root: Found, depth: nat, limit: nat, done: seq<Step>, p: RelPath, t: Step)
    requires Explains(s, root, Hidden(true), depth, limit, done) && t in done
    requires p == ["proc"] || p == ["sys"] || p == ["dev"]
    ensures !(p < t.path)
  {
    if root.Present? {
      assert t in Trace(root.entry, [], Hidden(true));
      TraceStaysOut(root.entry, [], Hidden(true));
    } else {
      assert t in RootTrace(root, Hidden(true));
    }
  }

  /** A file system root with nothing but an empty proc directory. */
  const PROC_ROOT: Entry := Dir([Child("proc", Dir([], true, true))], true, true)

  function ProcSnapshot(agent: string, at: int, depth: nat): Snapshot {
    Snapshot(agent, "/", at, depth, false, 2, 1, UnreadableOrExcluded, [Node(".", 0)])
  }

  lemma ProcTrace()
    ensures Trace(PROC_ROOT, [], Hidden(true)) == [Entered([]), Skipped(["proc"])]
  {
    var child := Child("proc", Dir([], true, true));
    assert [] + [child.name] == ["proc"];
    assert Trace(child.entry, ["proc"], Hidden(true)) == [Skipped(["proc"])];
    assert TraceAll([child], [], Hidden(true)) == [Skipped(["proc"])];
  }

  lemma ProcSums(done: seq<Step>)
    requires done == [Entered([]), Skipped(["proc"])]
    ensures Entries(done) == 2 && Skips(done) == 1 && Bytes(done, []) == 0
  {
    assert done == [done[0]] + [done[1]];
    SumConcat([done[0]], [done[1]], entryWeight);
    SumConcat([done[0]], [done[1]], skipWeight);
    SumConcat([done[0]], [done[1]], Share([]));
    SumOne(done[0], entryWeight);
    SumOne(done[1], entryWeight);
    SumOne(done[0], skipWeight);
    SumOne(done[1], skipWeight);
    SumOne(done[0], Share([]));
    SumOne(done[1], Share([]));
  }

  /** Scanning it from "/" explains a snapshot that is not complete, though everything could be read. */
  lemma ProcRootIsPartial(agent: string, at: int, depth: nat, limit: nat)
    requires limit >= 2
    ensures WellNamed(PROC_ROOT) && IsDir(PROC_ROOT, ["proc"])
    ensures Explains(ProcSnapshot(agent, at, depth), Present(PROC_ROOT), Hidden(true), depth, limit,
                     Trace(PROC_ROOT, [], Hidden(true)))
  {
    var done := Trace(PROC_ROOT, [], Hidden(true));
    ProcTrace();
    ProcSums(done);
    assert Render([]) == ".";
    assert forall p | Shown(done, depth, p) :: p == [];
  }
}
