/**
  What a directory scan ought to report: the file tree, the sequence of visits an undisturbed walk makes over it,
  and how sums over visits relate to recursive sums over the tree (internal/disk/scan.go).
 */
module ScanTree {
  import opened Paths

  const MAX_NESTING: nat := 128

  /**
    A directory entry together with how the operating system answers about it: whether `Info` succeeds,
    whether the directory opens, and whether reading its list ends in an error.
   */
  datatype Entry =
    | Link
    | File(size: nat, stats: bool)
    | Special(stats: bool)
    | Dir(children: seq<Child>, opens: bool, lists: bool)

  datatype Child = Child(name: string, entry: Entry)

  /** What one call of the walk callback amounts to. All but Failed count as an entry. */
  datatype Step =
    | Entered(path: RelPath)
    | Counted(path: RelPath, size: nat)
    | Ignored(path: RelPath)
    | Skipped(path: RelPath)
    | Failed(path: RelPath)

  /** The kernel's virtual trees, never walked when the scan root is "/" itself. */
  function Hidden(slash: bool): set<RelPath> {
    if slash then {["proc"], ["sys"], ["dev"]} else {}
  }

  /** The callback's verdict on an entry. */
  function StepOf(path: RelPath, e: Entry, hidden: set<RelPath>): (s: Step)
    ensures s.path == path
  {
    if e.Link? || path in hidden then Skipped(path)
    else match e
      case File(size, stats) => if stats then Counted(path, size) else Skipped(path)
      case Special(stats) => if stats then Ignored(path) else Skipped(path)
      case Dir(_, _, _) => Entered(path)
  }

  /** The visits of a walk that is neither cancelled nor limited. */
  function Trace(e: Entry, path: RelPath, hidden: set<RelPath>): seq<Step>
    decreases e
  {
    if !e.Dir? || path in hidden then [StepOf(path, e, hidden)]
    else if |path| >= MAX_NESTING || !e.opens then [Entered(path), Failed(path)]
    else [Entered(path)] + TraceAll(e.children, path, hidden) + (if e.lists then [] else [Failed(path)])
  }

  function TraceAll(cs: seq<Child>, path: RelPath, hidden: set<RelPath>): seq<Step>
    decreases cs
  {
    if |cs| == 0 then []
    else Trace(cs[0].entry, path + [cs[0].name], hidden) + TraceAll(cs[1..], path, hidden)
  }

  lemma {:induction false} TraceAllExtend(cs: seq<Child>, c: Child, path: RelPath, hidden: set<RelPath>)
    ensures TraceAll(cs + [c], path, hidden) ==
            TraceAll(cs, path, hidden) + Trace(c.entry, path + [c.name], hidden)
  {
    if |cs| == 0 {
      assert TraceAll([c][1..], path, hidden) == [];
    } else {
      assert (cs + [c])[1..] == cs[1..] + [c];
      TraceAllExtend(cs[1..], c, path, hidden);
    }
  }

  // ---- Sums over visits ----

  function Sum(steps: seq<Step>, weight: Step -> nat): nat {
    if |steps| == 0 then 0 else Sum(steps[..|steps| - 1], weight) + weight(steps[|steps| - 1])
  }

  lemma SumOne(s: Step, weight: Step -> nat)
    ensures Sum([s], weight) == weight(s)
  {
    assert [s][..0] == [];
  }

  lemma {:induction false} SumConcat(a: seq<Step>, b: seq<Step>, weight: Step -> nat)
    ensures Sum(a + b, weight) == Sum(a, weight) + Sum(b, weight)
  {
    if |b| == 0 {
      assert a + b == a;
    } else {
      assert (a + b)[..|a + b| - 1] == a + b[..|b| - 1];
      SumConcat(a, b[..|b| - 1], weight);
    }
  }

  lemma {:induction false} SumCompare(steps: seq<Step>, f: Step -> nat, g: Step -> nat)
    requires forall s | s in steps :: f(s) <= g(s)
    ensures Sum(steps, f) <= Sum(steps, g)
    ensures (forall s | s in steps :: f(s) == g(s)) ==> Sum(steps, f) == Sum(steps, g)
  {
    if |steps| > 0 {
      assert steps == steps[..|steps| - 1] + [steps[|steps| - 1]];
      SumCompare(steps[..|steps| - 1], f, g);
    }
  }

  function Share(p: RelPath): Step -> nat {
    (s: Step) => if s.Counted? && p < s.path then s.size else 0
  }

  /** Bytes of the regular files visited strictly below p. */
  function Bytes(steps: seq<Step>, p: RelPath): nat {
    Sum(steps, Share(p))
  }

  const entryWeight: Step -> nat := (s: Step) => if s.Failed? then 0 else 1
  const skipWeight: Step -> nat := (s: Step) => if s.Skipped? || s.Failed? then 1 else 0
  const sizeWeight: Step -> nat := (s: Step) => if s.Counted? then s.size else 0

  function Entries(steps: seq<Step>): nat { Sum(steps, entryWeight) }

  function Skips(steps: seq<Step>): nat { Sum(steps, skipWeight) }

  /** A prefix of the visits never counts more than the whole. */
  lemma PrefixCountsLess(a: seq<Step>, b: seq<Step>, weight: Step -> nat)
    requires a <= b
    ensures Sum(a, weight) <= Sum(b, weight)
  {
    SumConcat(a, b[|a|..], weight);
    assert b == a + b[|a|..];
  }

  /** A directory always holds at least what a directory below it holds. */
  lemma AncestorHoldsMore(steps: seq<Step>, p: RelPath, q: RelPath)
    requires p <= q
    ensures Bytes(steps, q) <= Bytes(steps, p)
  {
    SumCompare(steps, Share(q), Share(p));
  }

  // ---- The tree and its recursive sums ----

  /** Distinct, usable names inside every directory: what a file system guarantees. */
  ghost predicate WellNamed(e: Entry)
    decreases e
  {
    e.Dir? ==> AllWellNamed(e.children)
  }

  ghost predicate AllWellNamed(cs: seq<Child>)
    decreases cs
  {
    |cs| == 0 ||
    (ValidName(cs[0].name) && (forall c | c in cs[1..] :: c.name != cs[0].name)
     && WellNamed(cs[0].entry) && AllWellNamed(cs[1..]))
  }

  /** Recursive sum of regular-file sizes. */
  function TreeBytes(e: Entry): nat
    decreases e
  {
    match e
    case File(size, _) => size
    case Dir(children, _, _) => ListBytes(children)
    case _ => 0
  }

  function ListBytes(cs: seq<Child>): nat
    decreases cs
  {
    if |cs| == 0 then 0 else TreeBytes(cs[0].entry) + ListBytes(cs[1..])
  }

  /** Number of entries of a tree, its root included. */
  function EntryCount(e: Entry): nat
    decreases e
  {
    1 + if e.Dir? then ListCount(e.children) else 0
  }

  function ListCount(cs: seq<Child>): nat
    decreases cs
  {
    if |cs| == 0 then 0 else EntryCount(cs[0].entry) + ListCount(cs[1..])
  }

  datatype Found = Absent | Present(entry: Entry)

  /** The entry at path p below e. */
  function At(e: Entry, p: RelPath): Found
    decreases e
  {
    if |p| == 0 then Present(e)
    else if e.Dir? then AtChild(e.children, p)
    else Absent
  }

  function AtChild(cs: seq<Child>, p: RelPath): Found
    requires |p| > 0
    decreases cs
  {
    if |cs| == 0 then Absent
    else if cs[0].name == p[0] then At(cs[0].entry, p[1..])
    else AtChild(cs[1..], p)
  }

  predicate IsDir(e: Entry, p: RelPath) {
    At(e, p).Present? && At(e, p).entry.Dir?
  }

  /** Everything is readable, nothing is a link or excluded, and no directory is nested 128 deep. */
  ghost predicate Clean(e: Entry, path: RelPath, hidden: set<RelPath>)
    decreases e
  {
    && path !in hidden
    && match e
       case Link => false
       case File(_, stats) => stats
       case Special(stats) => stats
       case Dir(children, opens, lists) =>
         |path| < MAX_NESTING && opens && lists && AllClean(children, path, hidden)
  }

  ghost predicate AllClean(cs: seq<Child>, path: RelPath, hidden: set<RelPath>)
    decreases cs
  {
    |cs| == 0 || (Clean(cs[0].entry, path + [cs[0].name], hidden) && AllClean(cs[1..], path, hidden))
  }

  // ---- From visits to the tree ----

  /** Visits stay below the entry they started from. */
  lemma {:induction false} TraceStaysBelow(e: Entry, path: RelPath, hidden: set<RelPath>)
    ensures forall s | s in Trace(e, path, hidden) :: path <= s.path && (s.Counted? && e.Dir? ==> path < s.path)
    decreases e
  {
    if e.Dir? && path !in hidden && |path| < MAX_NESTING && e.opens {
      TraceAllStaysBelow(e.children, path, hidden);
    }
  }

  lemma {:induction false} TraceAllStaysBelow(cs: seq<Child>, path: RelPath, hidden: set<RelPath>)
    ensures forall s | s in TraceAll(cs, path, hidden) ::
              path < s.path && exists c | c in cs :: s.path[|path|] == c.name
    decreases cs
  {
    if |cs| > 0 {
      TraceStaysBelow(cs[0].entry, path + [cs[0].name], hidden);
      TraceAllStaysBelow(cs[1..], path, hidden);
      forall s | s in TraceAll(cs, path, hidden)
        ensures path < s.path && exists c | c in cs :: s.path[|path|] == c.name
      {
        if s in Trace(cs[0].entry, path + [cs[0].name], hidden) {
          assert s.path[|path|] == cs[0].name && cs[0] in cs;
        } else {
          assert s in TraceAll(cs[1..], path, hidden);
          var c :| c in cs[1..] && s.path[|path|] == c.name;
          assert c in cs;
        }
      }
    }
  }

  /** An undisturbed walk skips nothing exactly when the tree is clean, and then visits every entry once. */
  lemma {:induction false} CleanTrace(e: Entry, path: RelPath, hidden: set<RelPath>)
    ensures Skips(Trace(e, path, hidden)) == 0 <==> Clean(e, path, hidden)
    ensures Clean(e, path, hidden) ==> Entries(Trace(e, path, hidden)) == EntryCount(e)
    decreases e
  {
    var t := Trace(e, path, hidden);
    if e.Dir? && path !in hidden {
      if |path| >= MAX_NESTING || !e.opens {
        assert t == [Entered(path)] + [Failed(path)];
        SumConcat([Entered(path)], [Failed(path)], skipWeight);
        SumOne(Failed(path), skipWeight);
      } else {
        var body, tail := TraceAll(e.children, path, hidden), if e.lists then [] else [Failed(path)];
        CleanTraceAll(e.children, path, hidden);
        SumConcat([Entered(path)] + body, tail, skipWeight);
        SumConcat([Entered(path)], body, skipWeight);
        SumConcat([Entered(path)] + body, tail, entryWeight);
        SumConcat([Entered(path)], body, entryWeight);
        SumOne(Entered(path), skipWeight);
        SumOne(Failed(path), skipWeight);
        SumOne(Entered(path), entryWeight);
        SumOne(Failed(path), entryWeight);
      }
    } else {
      assert t == [StepOf(path, e, hidden)];
      SumOne(StepOf(path, e, hidden), skipWeight);
      SumOne(StepOf(path, e, hidden), entryWeight);
    }
  }

  lemma {:induction false} CleanTraceAll(cs: seq<Child>, path: RelPath, hidden: set<RelPath>)
    ensures Skips(TraceAll(cs, path, hidden)) == 0 <==> AllClean(cs, path, hidden)
    ensures AllClean(cs, path, hidden) ==> Entries(TraceAll(cs, path, hidden)) == ListCount(cs)
    decreases cs
  {
    if |cs| > 0 {
      var first, rest := Trace(cs[0].entry, path + [cs[0].name], hidden), TraceAll(cs[1..], path, hidden);
      CleanTrace(cs[0].entry, path + [cs[0].name], hidden);
      CleanTraceAll(cs[1..], path, hidden);
      SumConcat(first, rest, skipWeight);
      SumConcat(first, rest, entryWeight);
    }
  }

  /** All sizes counted by an undisturbed walk add up to at most the tree, and exactly to it when it is clean. */
  lemma {:induction false} TraceTotal(e: Entry, path: RelPath, hidden: set<RelPath>)
    ensures Sum(Trace(e, path, hidden), sizeWeight) <= TreeBytes(e)
    ensures Clean(e, path, hidden) ==> Sum(Trace(e, path, hidden), sizeWeight) == TreeBytes(e)
    decreases e
  {
    var t := Trace(e, path, hidden);
    if e.Dir? && path !in hidden && |path| < MAX_NESTING && e.opens {
      var body, tail := TraceAll(e.children, path, hidden), if e.lists then [] else [Failed(path)];
      TraceAllTotal(e.children, path, hidden);
      SumConcat([Entered(path)] + body, tail, sizeWeight);
      SumConcat([Entered(path)], body, sizeWeight);
      SumOne(Entered(path), sizeWeight);
      SumOne(Failed(path), sizeWeight);
    } else if e.Dir? && path !in hidden {
      assert t == [Entered(path)] + [Failed(path)];
      SumConcat([Entered(path)], [Failed(path)], sizeWeight);
      SumOne(Entered(path), sizeWeight);
      SumOne(Failed(path), sizeWeight);
    } else {
      assert t == [StepOf(path, e, hidden)];
      SumOne(StepOf(path, e, hidden), sizeWeight);
    }
  }

  lemma {:induction false} TraceAllTotal(cs: seq<Child>, path: RelPath, hidden: set<RelPath>)
    ensures Sum(TraceAll(cs, path, hidden), sizeWeight) <= ListBytes(cs)
    ensures AllClean(cs, path, hidden) ==> Sum(TraceAll(cs, path, hidden), sizeWeight) == ListBytes(cs)
    decreases cs
  {
    if |cs| > 0 {
      var first, rest := Trace(cs[0].entry, path + [cs[0].name], hidden), TraceAll(cs[1..], path, hidden);
      TraceTotal(cs[0].entry, path + [cs[0].name], hidden);
      TraceAllTotal(cs[1..], path, hidden);
      SumConcat(first, rest, sizeWeight);
    }
  }

  /**
    For every directory of the tree: what the walk counts below it never exceeds the recursive sum of the
    regular files beneath it, and is that sum when the tree is clean.
   */
  lemma {:induction false} SubtreeSum(e: Entry, path: RelPath, hidden: set<RelPath>, p: RelPath)
    requires WellNamed(e) && IsDir(e, p)
    ensures Bytes(Trace(e, path, hidden), path + p) <= TreeBytes(At(e, p).entry)
    ensures Clean(e, path, hidden) ==> Bytes(Trace(e, path, hidden), path + p) == TreeBytes(At(e, p).entry)
    decreases e
  {
    var t := Trace(e, path, hidden);
    if |p| == 0 {
      assert path + p == path;
      TraceStaysBelow(e, path, hidden);
      SumCompare(t, Share(path), sizeWeight);
      TraceTotal(e, path, hidden);
    } else if path in hidden || |path| >= MAX_NESTING || !e.opens {
      SumCompare(t, Share(path + p), _ => 0);
      ZeroSum(t);
    } else {
      var body, tail := TraceAll(e.children, path, hidden), if e.lists then [] else [Failed(path)];
      SubtreeSumAll(e.children, path, hidden, p);
      SumConcat([Entered(path)] + body, tail, Share(path + p));
      SumConcat([Entered(path)], body, Share(path + p));
      SumOne(Entered(path), Share(path + p));
      SumOne(Failed(path), Share(path + p));
    }
  }

  /** A path below path + p continues path with the first component of p. */
  lemma BranchName(path: RelPath, p: RelPath, q: RelPath)
    requires |p| > 0
    ensures path + p < q ==> q[|path|] == p[0]
  {
    assert (path + p)[|path|] == p[0];
  }

  lemma {:induction false} SubtreeSumAll(cs: seq<Child>, path: RelPath, hidden: set<RelPath>, p: RelPath)
    requires AllWellNamed(cs) && |p| > 0
    requires AtChild(cs, p).Present? && AtChild(cs, p).entry.Dir?
    ensures Bytes(TraceAll(cs, path, hidden), path + p) <= TreeBytes(AtChild(cs, p).entry)
    ensures AllClean(cs, path, hidden) ==>
              Bytes(TraceAll(cs, path, hidden), path + p) == TreeBytes(AtChild(cs, p).entry)
    decreases cs
  {
    var here := path + [cs[0].name];
    var first, rest := Trace(cs[0].entry, here, hidden), TraceAll(cs[1..], path, hidden);
    SumConcat(first, rest, Share(path + p));
    if cs[0].name == p[0] {
      assert here + p[1..] == path + p;
      SubtreeSum(cs[0].entry, here, hidden, p[1..]);
      TraceAllStaysBelow(cs[1..], path, hidden);
      forall s | s in rest
        ensures Share(path + p)(s) == 0
      {
        BranchName(path, p, s.path);
      }
      SumCompare(rest, Share(path + p), _ => 0);
      ZeroSum(rest);
    } else {
      TraceStaysBelow(cs[0].entry, here, hidden);
      forall s | s in first
        ensures Share(path + p)(s) == 0
      {
        assert s.path[|path|] == here[|path|];
        BranchName(path, p, s.path);
      }
      SumCompare(first, Share(path + p), _ => 0);
      ZeroSum(first);
      SubtreeSumAll(cs[1..], path, hidden, p);
    }
  }

  lemma {:induction false} ZeroSum(steps: seq<Step>)
    ensures Sum(steps, _ => 0) == 0
  {
    if |steps| > 0 {
      ZeroSum(steps[..|steps| - 1]);
    }
  }

  /** The directories a walk enters are directories of the tree, and all of them when the tree is clean. */
  lemma {:induction false} EntersDirectories(e: Entry, path: RelPath, hidden: set<RelPath>, p: RelPath)
    requires WellNamed(e)
    ensures Entered(path + p) in Trace(e, path, hidden) ==> IsDir(e, p)
    ensures Clean(e, path, hidden) && IsDir(e, p) ==> Entered(path + p) in Trace(e, path, hidden)
    decreases e
  {
    var t := Trace(e, path, hidden);
    if |p| == 0 {
      assert path + p == path;
      if e.Dir? {
        assert Clean(e, path, hidden) ==> t[0] == Entered(path);
      }
    } else {
      assert path + p != path;
      if e.Dir? && path !in hidden && |path| < MAX_NESTING && e.opens {
        EntersDirectoriesAll(e.children, path, hidden, p);
      }
    }
  }

  lemma {:induction false} EntersDirectoriesAll(cs: seq<Child>, path: RelPath, hidden: set<RelPath>, p: RelPath)
    requires AllWellNamed(cs) && |p| > 0
    ensures Entered(path + p) in TraceAll(cs, path, hidden) ==> AtChild(cs, p).Present? && AtChild(cs, p).entry.Dir?
    ensures AllClean(cs, path, hidden) && AtChild(cs, p).Present? && AtChild(cs, p).entry.Dir? ==>
              Entered(path + p) in TraceAll(cs, path, hidden)
    decreases cs
  {
    if |cs| > 0 {
      var here := path + [cs[0].name];
      if cs[0].name == p[0] {
        assert here + p[1..] == path + p;
        EntersDirectories(cs[0].entry, here, hidden, p[1..]);
        TraceAllStaysBelow(cs[1..], path, hidden);
        assert (path + p)[|path|] == p[0];
      } else {
        TraceStaysBelow(cs[0].entry, here, hidden);
        assert (path + p)[|path|] == p[0] && here[|path|] == cs[0].name;
        EntersDirectoriesAll(cs[1..], path, hidden, p);
      }
    }
  }

  // ---- Excluded paths ----

  /** Every entry of a clean tree is clean where it lies. */
  lemma {:induction false} CleanBelow(e: Entry, path: RelPath, hidden: set<RelPath>, p: RelPath)
    requires Clean(e, path, hidden) && At(e, p).Present?
    ensures path + p !in hidden
    decreases e
  {
    if |p| == 0 {
      assert path + p == path;
    } else {
      CleanBelowAll(e.children, path, hidden, p);
    }
  }

  lemma {:induction false} CleanBelowAll(cs: seq<Child>, path: RelPath, hidden: set<RelPath>, p: RelPath)
    requires |p| > 0 && AllClean(cs, path, hidden) && AtChild(cs, p).Present?
    ensures path + p !in hidden
    decreases cs
  {
    if cs[0].name == p[0] {
      assert (path + [cs[0].name]) + p[1..] == path + p;
      CleanBelow(cs[0].entry, path + [cs[0].name], hidden, p[1..]);
    } else {
      CleanBelowAll(cs[1..], path, hidden, p);
    }
  }

  /** A tree that is clean but for excluded paths, with nothing at any of these, is clean. */
  lemma {:induction false} CleanWithout(e: Entry, path: RelPath, hidden: set<RelPath>)
    requires WellNamed(e)
    ensures Clean(e, path, hidden) ==> Clean(e, path, {})
    ensures Clean(e, path, {}) && (forall p | At(e, p).Present? :: path + p !in hidden) ==> Clean(e, path, hidden)
    decreases e
  {
    assert At(e, []).Present? && path + [] == path;
    if e.Dir? {
      CleanWithoutAll(e.children, path, hidden);
    }
  }

  lemma {:induction false} CleanWithoutAll(cs: seq<Child>, path: RelPath, hidden: set<RelPath>)
    requires AllWellNamed(cs)
    ensures AllClean(cs, path, hidden) ==> AllClean(cs, path, {})
    ensures AllClean(cs, path, {}) && (forall p | |p| > 0 && AtChild(cs, p).Present? :: path + p !in hidden) ==>
              AllClean(cs, path, hidden)
    decreases cs
  {
    if |cs| > 0 {
      CleanWithout(cs[0].entry, path + [cs[0].name], hidden);
      CleanWithoutAll(cs[1..], path, hidden);
      if forall p | |p| > 0 && AtChild(cs, p).Present? :: path + p !in hidden {
        forall p | At(cs[0].entry, p).Present?
          ensures path + [cs[0].name] + p !in hidden
        {
          assert ([cs[0].name] + p)[1..] == p && AtChild(cs, [cs[0].name] + p).Present?;
          assert path + [cs[0].name] + p == path + ([cs[0].name] + p);
        }
        forall p | |p| > 0 && AtChild(cs[1..], p).Present?
          ensures path + p !in hidden
        {
          FoundIsNamed(cs[1..], p);
          assert AtChild(cs, p) == AtChild(cs[1..], p);
        }
      }
    }
  }

  lemma {:induction false} FoundIsNamed(cs: seq<Child>, p: RelPath)
    requires |p| > 0 && AtChild(cs, p).Present?
    ensures exists c | c in cs :: c.name == p[0]
    decreases cs
  {
    if cs[0].name == p[0] {
      assert cs[0] in cs;
    } else {
      FoundIsNamed(cs[1..], p);
      var c :| c in cs[1..] && c.name == p[0];
      assert c in cs;
    }
  }

  lemma PrefixOrSame(p: RelPath, q: RelPath)
    ensures p <= q <==> p < q || p == q
  {
    if p <= q && |p| == |q| {
      assert p == q;
    }
  }

  /** A walk that starts outside the excluded paths visits nothing below them. */
  lemma {:induction false} TraceStaysOut(e: Entry, path: RelPath, hidden: set<RelPath>)
    requires forall h | h in hidden :: !(h < path)
    ensures forall s, h | s in Trace(e, path, hidden) && h in hidden :: !(h < s.path)
    decreases e
  {
    if e.Dir? && path !in hidden && |path| < MAX_NESTING && e.opens {
      forall h | h in hidden
        ensures !(h <= path)
      {
        PrefixOrSame(h, path);
      }
      TraceAllStaysOut(e.children, path, hidden);
    }
  }

  lemma {:induction false} TraceAllStaysOut(cs: seq<Child>, path: RelPath, hidden: set<RelPath>)
    requires forall h | h in hidden :: !(h <= path)
    ensures forall s, h | s in TraceAll(cs, path, hidden) && h in hidden :: !(h < s.path)
    decreases cs
  {
    if |cs| > 0 {
      TraceStaysOut(cs[0].entry, path + [cs[0].name], hidden);
      TraceAllStaysOut(cs[1..], path, hidden);
    }
  }
}
