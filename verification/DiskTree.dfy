/**
  The directory tree of the web page (internal/hub/web/index.html, `renderDiskTree`): rebuilt from the flat node list
  of a snapshot, sorted, and cut down to what is unfolded. Paths are text; any text is a path here.
 */
module DiskTree {
  import opened Ordering
  import opened Paths
  import opened Snapshots
  import opened DiskCompare
  import opened ScanTree
  import DiskScan

  const ROOT: string := "."

  /** Grows from a path to the paths below it. */
  function Rank(path: string): nat {
    if path == ROOT then 0 else 1 + |path|
  }

  lemma ParentRank(path: string)
    requires path != ROOT
    ensures Rank(ParentText(path)) < Rank(path)
  {
  }

  /** The nearest proper ancestor that is listed, or the root. */
  function ParentOf(keys: set<string>, path: string): (parent: string)
    requires path != ROOT
    ensures Rank(parent) < Rank(path)
    ensures parent in keys || parent == ROOT
    decreases Rank(path)
  {
    ParentRank(path);
    var p := ParentText(path);
    if p in keys || p == ROOT then p else ParentOf(keys, p)
  }

  /** The path k steps up. */
  function Up(path: string, k: nat): string {
    if k == 0 then path else ParentText(Up(path, k - 1))
  }

  lemma {:induction false} UpFromParent(path: string, k: nat)
    ensures Up(ParentText(path), k) == Up(path, k + 1)
  {
    if k > 0 {
      UpFromParent(path, k - 1);
    }
  }

  /** No listed path and no root lies between a path and its parent. */
  lemma {:induction false} NearestListed(keys: set<string>, path: string) returns (k: nat)
    requires path != ROOT
    ensures k > 0 && ParentOf(keys, path) == Up(path, k)
    ensures forall i | 0 < i < k :: Up(path, i) !in keys && Up(path, i) != ROOT
    decreases Rank(path)
  {
    ParentRank(path);
    var p := ParentText(path);
    if p in keys || p == ROOT {
      k := 1;
      assert Up(path, 0) == path;
    } else {
      var j := NearestListed(keys, p);
      k := j + 1;
      UpFromParent(path, j);
      forall i | 0 < i < k
        ensures Up(path, i) !in keys && Up(path, i) != ROOT
      {
        UpFromParent(path, i - 1);
        assert i == 1 ==> Up(path, 1) == ParentText(Up(path, 0)) == p;
      }
    }
  }

  // ---- Trees of paths ----

  type Children = map<string, seq<string>>

  predicate IsChild(keys: set<string>, p: string, c: string) {
    c in keys && c != ROOT && ParentOf(keys, c) == p
  }

  /** Every list of children holds the right paths, once each. */
  ghost predicate Linked(keys: set<string>, children: Children) {
    && ROOT in keys && children.Keys == keys
    && forall p | p in keys :: NoRepeats(children[p]) && forall c :: c in children[p] <==> IsChild(keys, p, c)
  }

  /** Every path but the root occurs once in all lists of children together. */
  lemma OneParent(keys: set<string>, children: Children, c: string)
    requires Linked(keys, children) && c in keys && c != ROOT
    ensures ParentOf(keys, c) in keys
    ensures forall p | p in keys :: c in children[p] <==> p == ParentOf(keys, c)
    ensures multiset(children[ParentOf(keys, c)])[c] == 1
  {
    var p := ParentOf(keys, c);
    assert c in children[p] by { assert IsChild(keys, p, c); }
    assert c in multiset(children[p]);
    if multiset(children[p])[c] > 1 {
      var i, j := TwoPlaces(children[p], c);
      assert false;
    }
  }

  /** a is x, or is reached from x through parents that are all unfolded, a included. */
  predicate Reaches(keys: set<string>, open: set<string>, a: string, x: string)
    decreases Rank(x)
  {
    x == a || (x != ROOT && ParentOf(keys, x) in open && Reaches(keys, open, a, ParentOf(keys, x)))
  }

  /** How many parents lie between. */
  function Steps(keys: set<string>, a: string, x: string): nat
    decreases Rank(x)
  {
    if x == a || x == ROOT then 0 else 1 + Steps(keys, a, ParentOf(keys, x))
  }

  lemma {:induction false} ReachesUp(keys: set<string>, open: set<string>, a: string, x: string)
    requires Reaches(keys, open, a, x)
    ensures Rank(a) <= Rank(x)
    decreases Rank(x)
  {
    if x != a {
      ReachesUp(keys, open, a, ParentOf(keys, x));
    }
  }

  /** What is reached from a is a itself or reached from one of its children. */
  lemma {:induction false} ReachesByChild(keys: set<string>, open: set<string>, a: string, x: string)
    requires ROOT in keys && x in keys && x != a && Reaches(keys, open, a, x)
    ensures a in open
    ensures exists c :: IsChild(keys, a, c) && Reaches(keys, open, c, x) && Steps(keys, a, x) == 1 + Steps(keys, c, x)
    decreases Rank(x)
  {
    var p := ParentOf(keys, x);
    if p == a {
      assert IsChild(keys, a, x) && Reaches(keys, open, x, x);
      assert Steps(keys, a, p) == 0;
    } else {
      ReachesByChild(keys, open, a, p);
      var c :| IsChild(keys, a, c) && Reaches(keys, open, c, p) && Steps(keys, a, p) == 1 + Steps(keys, c, p);
      ReachesUp(keys, open, c, p);
      assert x != c;
      assert Reaches(keys, open, c, x);
    }
  }

  lemma {:induction false} ChildReaches(keys: set<string>, open: set<string>, a: string, c: string, x: string)
    requires a in open && IsChild(keys, a, c) && Reaches(keys, open, c, x)
    ensures Reaches(keys, open, a, x) && x != a && Steps(keys, a, x) == 1 + Steps(keys, c, x)
    decreases Rank(x)
  {
    ReachesUp(keys, open, c, x);
    if x == c {
      assert Reaches(keys, open, a, a);
      assert Steps(keys, a, a) == 0;
    } else {
      ChildReaches(keys, open, a, c, ParentOf(keys, x));
    }
  }

  /** Siblings reach nothing in common. */
  lemma {:induction false} SiblingsApart(keys: set<string>, open: set<string>, a: string, c: string, d: string,
                                         x: string)
    requires IsChild(keys, a, c) && IsChild(keys, a, d)
    requires Reaches(keys, open, c, x) && Reaches(keys, open, d, x)
    ensures c == d
    decreases Rank(x)
  {
    if x != c && x != d {
      SiblingsApart(keys, open, a, c, d, ParentOf(keys, x));
    } else if x == c && x != d {
      ReachesUp(keys, open, d, a);
    } else if x == d && x != c {
      ReachesUp(keys, open, c, a);
    }
  }

  // ---- The visible list ----

  /** A row of the list, indented by its depth. */
  datatype Line = Line(path: string, depth: nat)

  /** No listed path has a higher rank. */
  ghost function Bound(keys: set<string>): nat
    ensures forall k | k in keys :: Rank(k) <= Bound(keys)
  {
    if keys == {} then 0
    else
      var k :| k in keys;
      Rank(k) + Bound(keys - {k})
  }

  ghost function Preorder(keys: set<string>, children: Children, open: set<string>, a: string, depth: nat): seq<Line>
    requires Linked(keys, children) && a in keys
    decreases Bound(keys) - Rank(a), 1, 0
  {
    [Line(a, depth)] + if a in open then PreorderAll(keys, children, open, a, children[a], depth + 1) else []
  }

  ghost function PreorderAll(keys: set<string>, children: Children, open: set<string>, a: string, cs: seq<string>,
                             depth: nat): seq<Line>
    requires Linked(keys, children) && a in keys && forall c | c in cs :: IsChild(keys, a, c)
    decreases Bound(keys) - Rank(a), 0, |cs|
  {
    if |cs| == 0 then []
    else
      var n := |cs| - 1;
      assert cs[n] in cs;
      PreorderAll(keys, children, open, a, cs[..n], depth) + Preorder(keys, children, open, cs[n], depth)
  }

  lemma PreorderNext(keys: set<string>, children: Children, open: set<string>, a: string, i: nat, depth: nat)
    requires Linked(keys, children) && a in keys && i < |children[a]|
    ensures children[a][i] in keys && Rank(children[a][i]) > Rank(a)
    ensures forall c | c in children[a] :: IsChild(keys, a, c)
    ensures PreorderAll(keys, children, open, a, children[a][..i + 1], depth) ==
            PreorderAll(keys, children, open, a, children[a][..i], depth) +
            Preorder(keys, children, open, children[a][i], depth)
  {
    var cs := children[a];
    assert cs[i] in cs && cs[..i + 1][..i] == cs[..i];
  }

  /** The line of a path reached from c, which itself is at the given depth. */
  predicate LineFrom(keys: set<string>, open: set<string>, c: string, depth: nat, l: Line) {
    l.path in keys && Reaches(keys, open, c, l.path) && l.depth == depth + Steps(keys, c, l.path)
  }

  /** The list shows what is reached through unfolded parents, indented by the number of parents. */
  lemma {:induction false} ShowsReached(keys: set<string>, children: Children, open: set<string>, a: string,
                                        depth: nat, l: Line)
    requires Linked(keys, children) && a in keys
    ensures l in Preorder(keys, children, open, a, depth) <==> LineFrom(keys, open, a, depth, l)
    decreases Bound(keys) - Rank(a), 1, 0
  {
    if l.path == a {
      if a in open {
        ShowsReachedAll(keys, children, open, a, children[a], depth + 1, l);
        NotBelowItself(keys, open, a, children[a], depth + 1, l);
      }
    } else {
      if a in open {
        ShowsReachedAll(keys, children, open, a, children[a], depth + 1, l);
        if c :| c in children[a] && LineFrom(keys, open, c, depth + 1, l) {
          ChildReaches(keys, open, a, c, l.path);
        }
      }
      if LineFrom(keys, open, a, depth, l) {
        ReachesByChild(keys, open, a, l.path);
        var c :| IsChild(keys, a, c) && Reaches(keys, open, c, l.path) &&
                 Steps(keys, a, l.path) == 1 + Steps(keys, c, l.path);
        assert c in children[a] && LineFrom(keys, open, c, depth + 1, l);
      }
    }
  }

  lemma {:induction false} ShowsReachedAll(keys: set<string>, children: Children, open: set<string>, a: string,
                                           cs: seq<string>, depth: nat, l: Line)
    requires Linked(keys, children) && a in keys && forall c | c in cs :: IsChild(keys, a, c)
    ensures l in PreorderAll(keys, children, open, a, cs, depth) <==>
            exists c | c in cs :: LineFrom(keys, open, c, depth, l)
    decreases Bound(keys) - Rank(a), 0, |cs|
  {
    if |cs| > 0 {
      var n := |cs| - 1;
      assert cs == cs[..n] + [cs[n]] && cs[n] in cs;
      ShowsReachedAll(keys, children, open, a, cs[..n], depth, l);
      ShowsReached(keys, children, open, cs[n], depth, l);
    }
  }

  lemma NotBelowItself(keys: set<string>, open: set<string>, a: string, cs: seq<string>, depth: nat, l: Line)
    requires l.path == a && forall c | c in cs :: IsChild(keys, a, c)
    ensures forall c | c in cs :: !LineFrom(keys, open, c, depth, l)
  {
    forall c | c in cs
      ensures !LineFrom(keys, open, c, depth, l)
    {
      if Reaches(keys, open, c, a) {
        ReachesUp(keys, open, c, a);
      }
    }
  }

  // ---- Its order ----

  /** x and y are reached from two children of p, the one of x listed before. */
  ghost predicate Branches(keys: set<string>, children: Children, open: set<string>, p: string, c: string,
                           d: string, x: string, y: string) {
    && p in keys && p in children
    && (exists i, j | 0 <= i < j < |children[p]| :: children[p][i] == c && children[p][j] == d)
    && Reaches(keys, open, c, x) && Reaches(keys, open, d, y)
  }

  /** Parents come before what is below them, and whole subtrees in the order of the lists of children. */
  ghost predicate Before(keys: set<string>, children: Children, open: set<string>, x: string, y: string) {
    || (x != y && Reaches(keys, open, x, y))
    || exists p, c, d :: Branches(keys, children, open, p, c, d, x, y)
  }

  ghost predicate InOrder(keys: set<string>, children: Children, open: set<string>, lines: seq<Line>) {
    forall i, j | 0 <= i < j < |lines| :: Before(keys, children, open, lines[i].path, lines[j].path)
  }

  lemma InOrderConcat(keys: set<string>, children: Children, open: set<string>, a: seq<Line>, b: seq<Line>)
    requires InOrder(keys, children, open, a) && InOrder(keys, children, open, b)
    requires forall l, m | l in a && m in b :: Before(keys, children, open, l.path, m.path)
    ensures InOrder(keys, children, open, a + b)
  {
  }

  lemma {:induction false} PreorderInOrder(keys: set<string>, children: Children, open: set<string>, a: string,
                                           depth: nat)
    requires Linked(keys, children) && a in keys
    ensures InOrder(keys, children, open, Preorder(keys, children, open, a, depth))
    decreases Bound(keys) - Rank(a), 1, 0
  {
    if a in open {
      var below := PreorderAll(keys, children, open, a, children[a], depth + 1);
      assert children[a][..|children[a]|] == children[a];
      PreorderAllInOrder(keys, children, open, a, |children[a]|, depth + 1);
      forall m | m in below
        ensures Before(keys, children, open, a, m.path)
      {
        ShowsReachedAll(keys, children, open, a, children[a], depth + 1, m);
        var c :| c in children[a] && LineFrom(keys, open, c, depth + 1, m);
        ChildReaches(keys, open, a, c, m.path);
      }
      InOrderConcat(keys, children, open, [Line(a, depth)], below);
    }
  }

  lemma {:induction false} PreorderAllInOrder(keys: set<string>, children: Children, open: set<string>, a: string,
                                              n: nat, depth: nat)
    requires Linked(keys, children) && a in keys && n <= |children[a]|
    ensures InOrder(keys, children, open, PreorderAll(keys, children, open, a, children[a][..n], depth))
    decreases Bound(keys) - Rank(a), 0, n
  {
    if n > 0 {
      var cs, d := children[a][..n], children[a][n - 1];
      assert cs[..n - 1] == children[a][..n - 1] && cs[n - 1] == d;
      assert d in children[a];
      PreorderAllInOrder(keys, children, open, a, n - 1, depth);
      PreorderInOrder(keys, children, open, d, depth);
      forall l, m | l in PreorderAll(keys, children, open, a, cs[..n - 1], depth) &&
                    m in Preorder(keys, children, open, d, depth)
        ensures Before(keys, children, open, l.path, m.path)
      {
        EarlierSubtree(keys, children, open, a, n - 1, depth, l, m);
      }
      InOrderConcat(keys, children, open, PreorderAll(keys, children, open, a, cs[..n - 1], depth),
                    Preorder(keys, children, open, d, depth));
    }
  }

  lemma EarlierSubtree(keys: set<string>, children: Children, open: set<string>, a: string, n: nat, depth: nat,
                       l: Line, m: Line)
    requires Linked(keys, children) && a in keys && n < |children[a]| && children[a][n] in children[a]
    requires l in PreorderAll(keys, children, open, a, children[a][..n], depth)
    requires m in Preorder(keys, children, open, children[a][n], depth)
    ensures Before(keys, children, open, l.path, m.path)
  {
    ShowsReachedAll(keys, children, open, a, children[a][..n], depth, l);
    ShowsReached(keys, children, open, children[a][n], depth, m);
    var c :| c in children[a][..n] && LineFrom(keys, open, c, depth, l);
    var i :| 0 <= i < n && children[a][i] == c;
    assert Branches(keys, children, open, a, c, children[a][n], l.path, m.path);
  }

  lemma {:induction false} ReachesTransitive(keys: set<string>, open: set<string>, a: string, b: string, x: string)
    requires Reaches(keys, open, a, b) && Reaches(keys, open, b, x)
    ensures Reaches(keys, open, a, x)
    decreases Rank(x)
  {
    if x != b && x != a {
      ReachesTransitive(keys, open, a, b, ParentOf(keys, x));
    }
  }

  /** What reaches the same path is on one line. */
  lemma {:induction false} ReachesChain(keys: set<string>, open: set<string>, a: string, b: string, x: string)
    requires Reaches(keys, open, a, x) && Reaches(keys, open, b, x)
    ensures Reaches(keys, open, a, b) || Reaches(keys, open, b, a)
    decreases Rank(x)
  {
    if x != a && x != b {
      ReachesChain(keys, open, a, b, ParentOf(keys, x));
    }
  }

  /** The children that branch are different siblings, in this order. */
  lemma BranchSides(keys: set<string>, children: Children, open: set<string>, p: string, c: string, d: string,
                    x: string, y: string)
    requires Linked(keys, children) && Branches(keys, children, open, p, c, d, x, y)
    ensures c != d && IsChild(keys, p, c) && IsChild(keys, p, d)
    ensures !Branches(keys, children, open, p, d, c, y, x)
  {
    assert c in children[p] && d in children[p];
  }

  /** Below the first of two siblings nothing reaches what is below the second, nor the other way round. */
  lemma BranchApart(keys: set<string>, children: Children, open: set<string>, p: string, c: string, d: string,
                    x: string, y: string)
    requires Linked(keys, children) && Branches(keys, children, open, p, c, d, x, y)
    ensures x != y && !Reaches(keys, open, x, y) && !Reaches(keys, open, y, x)
  {
    BranchSides(keys, children, open, p, c, d, x, y);
    if Reaches(keys, open, x, y) {
      ReachesTransitive(keys, open, c, x, y);
      SiblingsApart(keys, open, p, c, d, y);
    }
    if Reaches(keys, open, y, x) {
      ReachesTransitive(keys, open, d, y, x);
      SiblingsApart(keys, open, p, c, d, x);
    }
  }

  /** A path that reaches one of two siblings from above reaches the other. */
  lemma ReachesSibling(keys: set<string>, open: set<string>, p: string, c: string, d: string, a: string)
    requires IsChild(keys, p, c) && IsChild(keys, p, d) && a != c && Reaches(keys, open, a, c)
    ensures Reaches(keys, open, a, d)
  {
  }

  lemma BranchOnce(keys: set<string>, children: Children, open: set<string>, p: string, c: string, d: string,
                   q: string, e: string, f: string, x: string, y: string)
    requires Linked(keys, children) && Branches(keys, children, open, p, c, d, x, y)
    ensures !Branches(keys, children, open, q, e, f, y, x)
  {
    if Branches(keys, children, open, q, e, f, y, x) {
      BranchSides(keys, children, open, p, c, d, x, y);
      BranchSides(keys, children, open, q, e, f, y, x);
      ReachesChain(keys, open, c, f, x);
      if c == f {
        SiblingsApart(keys, open, p, d, e, y);
      } else if Reaches(keys, open, c, f) {
        ReachesSibling(keys, open, q, f, e, c);
        ReachesTransitive(keys, open, c, e, y);
        SiblingsApart(keys, open, p, c, d, y);
      } else {
        ReachesSibling(keys, open, p, c, d, f);
        ReachesTransitive(keys, open, f, d, y);
        SiblingsApart(keys, open, q, e, f, y);
      }
    }
  }

  /** The order is strict. */
  lemma BeforeIsStrict(keys: set<string>, children: Children, open: set<string>, x: string, y: string)
    requires Linked(keys, children) && Before(keys, children, open, x, y)
    ensures x != y && !Before(keys, children, open, y, x)
  {
    if p, c, d :| Branches(keys, children, open, p, c, d, x, y) {
      BranchApart(keys, children, open, p, c, d, x, y);
      if q, e, f :| Branches(keys, children, open, q, e, f, y, x) {
        BranchOnce(keys, children, open, p, c, d, q, e, f, x, y);
      }
    } else {
      if q, e, f :| Branches(keys, children, open, q, e, f, y, x) {
        BranchApart(keys, children, open, q, e, f, y, x);
      }
      if Reaches(keys, open, y, x) {
        ReachesUp(keys, open, y, x);
        ReachesUp(keys, open, x, ParentOf(keys, y));
      }
    }
  }

  /** So no path is shown twice. */
  lemma ShownOnce(keys: set<string>, children: Children, open: set<string>, depth: nat)
    requires Linked(keys, children)
    ensures var lines := Preorder(keys, children, open, ROOT, depth);
            forall i, j | 0 <= i < j < |lines| :: lines[i].path != lines[j].path
  {
    var lines := Preorder(keys, children, open, ROOT, depth);
    PreorderInOrder(keys, children, open, ROOT, depth);
    forall i, j | 0 <= i < j < |lines|
      ensures lines[i].path != lines[j].path
    {
      BeforeIsStrict(keys, children, open, lines[i].path, lines[j].path);
    }
  }

  // ---- Building it ----

  datatype Info = Info(bytes: int, delta: int, removed: bool)

  type Table = map<string, Info>

  /** `changes.get(path) || 0`. */
  function DeltaOf(changes: seq<Change>, path: string): int {
    if |changes| == 0 then 0
    else if changes[|changes| - 1].path == path then changes[|changes| - 1].delta
    else DeltaOf(changes[..|changes| - 1], path)
  }

  /** It is that of the last change of the path, and 0 where there is none. */
  lemma {:induction false} DeltaOfMeans(changes: seq<Change>, path: string)
    ensures (DeltaOf(changes, path) == 0 && forall c | c in changes :: c.path != path) ||
            exists i | 0 <= i < |changes| ::
              changes[i].path == path && changes[i].delta == DeltaOf(changes, path) &&
              forall j | i < j < |changes| :: changes[j].path != path
  {
    if |changes| > 0 {
      var n := |changes| - 1;
      if changes[n].path != path {
        DeltaOfMeans(changes[..n], path);
        assert changes == changes[..n] + [changes[n]];
        if i :| 0 <= i < n && changes[..n][i].path == path && changes[..n][i].delta == DeltaOf(changes[..n], path) &&
                forall j | i < j < n :: changes[..n][j].path != path {
          assert changes[i].path == path;
        }
      }
    }
  }

  /** One entry for each node of the snapshot. */
  function FromNodes(nodes: seq<Node>, changes: seq<Change>): Table {
    if |nodes| == 0 then map[]
    else
      var n := nodes[|nodes| - 1];
      FromNodes(nodes[..|nodes| - 1], changes)[n.path := Info(n.bytes, DeltaOf(changes, n.path), false)]
  }

  /** Changes of paths that have no entry yet are shown as removed directories. */
  function WithRemoved(table: Table, changes: seq<Change>): Table {
    if |changes| == 0 then table
    else
      var t, c := WithRemoved(table, changes[..|changes| - 1]), changes[|changes| - 1];
      if c.path in t then t else t[c.path := Info(c.bytes, c.delta, true)]
  }

  function WithRoot(table: Table): Table {
    if ROOT in table then table else table[ROOT := Info(0, 0, false)]
  }

  /** The entries of the page; comparable: whether the snapshot has changes to an earlier one. */
  function Rows(nodes: seq<Node>, comparable: bool, changes: seq<Change>): Table {
    var known := if comparable then changes else [];
    WithRoot(WithRemoved(FromNodes(nodes, known), known))
  }

  predicate HasNode(nodes: seq<Node>, path: string) {
    exists n | n in nodes :: n.path == path
  }

  predicate HasChange(changes: seq<Change>, path: string) {
    exists c | c in changes :: c.path == path
  }

  /** The entry is that of a removed directory. */
  predicate IsRemoved(changes: seq<Change>, path: string, info: Info) {
    exists c | c in changes :: c.path == path && info == Info(c.bytes, c.delta, true)
  }

  lemma {:induction false} FromNodesMeans(nodes: seq<Node>, changes: seq<Change>)
    ensures forall path :: path in FromNodes(nodes, changes) <==> HasNode(nodes, path)
    ensures forall path | path in FromNodes(nodes, changes) ::
              path in SizeMap(nodes) &&
              FromNodes(nodes, changes)[path] == Info(SizeMap(nodes)[path], DeltaOf(changes, path), false)
  {
    if |nodes| > 0 {
      var n := |nodes| - 1;
      FromNodesMeans(nodes[..n], changes);
      assert nodes == nodes[..n] + [nodes[n]];
      forall path
        ensures HasNode(nodes, path) <==> HasNode(nodes[..n], path) || nodes[n].path == path
      {
        assert nodes[n] in nodes && forall m | m in nodes :: m == nodes[n] || m in nodes[..n];
      }
    }
  }

  lemma {:induction false} WithRemovedMeans(table: Table, changes: seq<Change>)
    ensures forall path :: path in WithRemoved(table, changes) <==> path in table || HasChange(changes, path)
    ensures forall path | path in table ::
              path in WithRemoved(table, changes) && WithRemoved(table, changes)[path] == table[path]
    ensures forall path | path in WithRemoved(table, changes) && path !in table ::
              IsRemoved(changes, path, WithRemoved(table, changes)[path])
  {
    if |changes| > 0 {
      var n := |changes| - 1;
      WithRemovedMeans(table, changes[..n]);
      assert changes == changes[..n] + [changes[n]];
      forall path
        ensures HasChange(changes, path) <==> HasChange(changes[..n], path) || changes[n].path == path
      {
        assert changes[n] in changes && forall c | c in changes :: c == changes[n] || c in changes[..n];
      }
    }
  }

  /** Which paths have an entry, and what it says: removed directories are those that only the changes know. */
  lemma RowsMean(nodes: seq<Node>, comparable: bool, changes: seq<Change>, path: string)
    ensures var rows := Rows(nodes, comparable, changes);
            && (path in rows <==> path == ROOT || HasNode(nodes, path) || (comparable && HasChange(changes, path)))
            && (HasNode(nodes, path) ==>
                  && path in SizeMap(nodes)
                  && rows[path] == Info(SizeMap(nodes)[path], if comparable then DeltaOf(changes, path) else 0, false))
            && (!HasNode(nodes, path) && comparable && HasChange(changes, path) ==>
                  IsRemoved(changes, path, rows[path]))
            && (!HasNode(nodes, path) && !(comparable && HasChange(changes, path)) && path == ROOT ==>
                  rows[path] == Info(0, 0, false))
  {
    var known := if comparable then changes else [];
    FromNodesMeans(nodes, known);
    WithRemovedMeans(FromNodes(nodes, known), known);
  }

  lemma RootIsListed(nodes: seq<Node>, comparable: bool, changes: seq<Change>)
    ensures ROOT in Rows(nodes, comparable, changes)
  {
  }

  /** Larger first, by size or by growth, then in the order of the paths' language. */
  function RowLeq(table: Table, growth: bool, local: (string, string) -> bool): (string, string) -> bool {
    (a: string, b: string) => Key(table, growth, a) > Key(table, growth, b) ||
                              (Key(table, growth, a) == Key(table, growth, b) && local(a, b))
  }

  function Key(table: Table, growth: bool, path: string): int {
    if path !in table then 0 else if growth then table[path].delta else table[path].bytes
  }

  /** By size the largest come first, by growth those that grew most, and ties in the order of the paths' language. */
  ghost predicate Ranked(table: Table, growth: bool, local: (string, string) -> bool, paths: seq<string>) {
    && (forall p | p in paths :: p in table)
    && forall i, j | 0 <= i < j < |paths| ::
         var a, b := table[paths[i]], table[paths[j]];
         if growth then a.delta > b.delta || (a.delta == b.delta && local(paths[i], paths[j]))
         else a.bytes > b.bytes || (a.bytes == b.bytes && local(paths[i], paths[j]))
  }

  lemma RowLeqMeans(table: Table, growth: bool, local: (string, string) -> bool, a: string, b: string)
    requires a in table && b in table && RowLeq(table, growth, local)(a, b)
    ensures growth ==> table[a].delta > table[b].delta || (table[a].delta == table[b].delta && local(a, b))
    ensures !growth ==> table[a].bytes > table[b].bytes || (table[a].bytes == table[b].bytes && local(a, b))
  {
    assert Key(table, growth, a) > Key(table, growth, b) ||
           (Key(table, growth, a) == Key(table, growth, b) && local(a, b));
  }

  lemma SortedIsRanked(table: Table, growth: bool, local: (string, string) -> bool, paths: seq<string>)
    requires Sorted(RowLeq(table, growth, local), paths) && forall p | p in paths :: p in table
    ensures Ranked(table, growth, local, paths)
  {
    forall i, j | 0 <= i < j < |paths|
      ensures var a, b := table[paths[i]], table[paths[j]];
              if growth then a.delta > b.delta || (a.delta == b.delta && local(paths[i], paths[j]))
              else a.bytes > b.bytes || (a.bytes == b.bytes && local(paths[i], paths[j]))
    {
      assert paths[i] in paths && paths[j] in paths;
      RowLeqMeans(table, growth, local, paths[i], paths[j]);
    }
  }

  /** The children of each path are ranked. */
  ghost predicate AllRanked(table: Table, growth: bool, local: (string, string) -> bool, children: Children) {
    forall p | p in children :: Ranked(table, growth, local, children[p])
  }

  lemma SortedAreRanked(table: Table, growth: bool, local: (string, string) -> bool, children: Children)
    requires Linked(table.Keys, children)
    requires forall p | p in children :: Sorted(RowLeq(table, growth, local), children[p])
    ensures AllRanked(table, growth, local, children)
  {
    forall p | p in children
      ensures Ranked(table, growth, local, children[p])
    {
      SortedIsRanked(table, growth, local, children[p]);
    }
  }

  lemma RowOrder(table: Table, growth: bool, local: (string, string) -> bool)
    requires TotalPreorder(local)
    ensures TotalPreorder(RowLeq(table, growth, local))
  {
  }

  class Page {
    /** The entries in the order in which they were made. */
    var order: seq<string>
    var table: Table
    var children: Children
    var visible: seq<Line>

    constructor ()
      ensures visible == []
    {
      order, table, children, visible := [], map[], map[], [];
    }

    ghost predicate Ordered()
      reads this
    {
      NoRepeats(order) && forall path :: path in order <==> path in table
    }

    method Put(path: string, info: Info)
      requires Ordered()
      modifies this`order, this`table
      ensures Ordered() && table == old(table)[path := info]
    {
      if path !in table {
        order := order + [path];
      }
      table := table[path := info];
    }

    method Fill(nodes: seq<Node>, comparable: bool, changes: seq<Change>)
      modifies this`order, this`table
      ensures Ordered() && table == Rows(nodes, comparable, changes)
    {
      var known := if comparable then changes else [];
      order, table := [], map[];
      for i := 0 to |nodes|
        invariant Ordered() && table == FromNodes(nodes[..i], known)
      {
        assert nodes[..i + 1][..i] == nodes[..i];
        Put(nodes[i].path, Info(nodes[i].bytes, DeltaOf(known, nodes[i].path), false));
      }
      assert nodes[..|nodes|] == nodes;
      ghost var base := table;
      for i := 0 to |known|
        invariant Ordered() && table == WithRemoved(base, known[..i])
      {
        assert known[..i + 1][..i] == known[..i];
        if known[i].path !in table {
          Put(known[i].path, Info(known[i].bytes, known[i].delta, true));
        }
      }
      assert known[..|known|] == known;
      if ROOT !in table {
        Put(ROOT, Info(0, 0, false));
      }
    }

    /** Walks up to the nearest entry. */
    method FindParent(path: string) returns (parent: string)
      requires path != ROOT && ROOT in table
      ensures parent == ParentOf(table.Keys, path) && parent in table
    {
      ParentRank(path);
      parent := ParentText(path);
      while parent !in table && parent != ROOT
        invariant ParentOf(table.Keys, path) ==
                  if parent in table || parent == ROOT then parent else ParentOf(table.Keys, parent)
        decreases Rank(parent)
      {
        ParentRank(parent);
        parent := ParentText(parent);
      }
    }

    /** Hangs every entry but the root under its parent. */
    method Link()
      requires Ordered() && ROOT in table
      modifies this`children
      ensures Linked(table.Keys, children)
    {
      children := map path | path in table :: [];
      for i := 0 to |order|
        invariant Hung(table.Keys, children, order[..i])
      {
        assert order[i] in order;
        assert order[..i + 1] == order[..i] + [order[i]];
        if order[i] == ROOT {
          HungRoot(table.Keys, children, order[..i]);
          continue;
        }
        var parent := FindParent(order[i]);
        HungNext(table.Keys, children, order[..i], order[i], parent);
        children := children[parent := children[parent] + [order[i]]];
      }
      assert order[..|order|] == order;
    }

    method SortChildren(growth: bool, local: (string, string) -> bool)
      requires Linked(table.Keys, children) && TotalPreorder(local)
      modifies this`children
      ensures Linked(table.Keys, children)
      ensures AllRanked(table, growth, local, children)
    {
      var le := RowLeq(table, growth, local);
      RowOrder(table, growth, local);
      var left := children.Keys;
      while left != {}
        invariant left <= table.Keys && Linked(table.Keys, children)
        invariant forall p | p in children.Keys - left :: Sorted(le, children[p])
        decreases left
      {
        var p :| p in left;
        var sorted := SortSlice(le, children[p]);
        Rearranged(table.Keys, children, p, sorted);
        children := children[p := sorted];
        left := left - {p};
      }
      SortedAreRanked(table, growth, local, children);
    }

    /** Appends a row for the path and, when it is unfolded, its children's. */
    method Visit(path: string, depth: nat, open: set<string>)
      requires Linked(table.Keys, children) && path in table
      modifies this`visible
      ensures visible == old(visible) + Preorder(table.Keys, children, open, path, depth)
      decreases Bound(table.Keys) - Rank(path), 1
    {
      visible := visible + [Line(path, depth)];
      if path in open {
        VisitChildren(path, depth + 1, open);
      }
    }

    method VisitChildren(path: string, depth: nat, open: set<string>)
      requires Linked(table.Keys, children) && path in table
      modifies this`visible
      ensures forall c | c in children[path] :: IsChild(table.Keys, path, c)
      ensures visible == old(visible) + PreorderAll(table.Keys, children, open, path, children[path], depth)
      decreases Bound(table.Keys) - Rank(path), 0
    {
      var cs := children[path];
      for i := 0 to |cs|
        invariant visible == old(visible) + PreorderAll(table.Keys, children, open, path, cs[..i], depth)
      {
        PreorderNext(table.Keys, children, open, path, i, depth);
        Visit(cs[i], depth, open);
      }
      assert cs[..|cs|] == cs;
    }

    /** Makes the entries, hangs them under their parents and sorts; sorting by growth needs changes. */
    method Arrange(nodes: seq<Node>, comparable: bool, changes: seq<Change>, growth: bool,
                   local: (string, string) -> bool)
      requires TotalPreorder(local)
      modifies this`order, this`table, this`children
      ensures table == Rows(nodes, comparable, changes) && Linked(table.Keys, children)
      ensures AllRanked(table, growth && comparable, local, children)
    {
      Fill(nodes, comparable, changes);
      RootIsListed(nodes, comparable, changes);
      Link();
      SortChildren(growth && comparable, local);
    }

    /** The rows of the page. */
    method Render(nodes: seq<Node>, comparable: bool, changes: seq<Change>, growth: bool, open: set<string>,
                  local: (string, string) -> bool)
      requires TotalPreorder(local)
      modifies this
      ensures table == Rows(nodes, comparable, changes) && Linked(table.Keys, children)
      ensures AllRanked(table, growth && comparable, local, children)
      ensures visible == Preorder(table.Keys, children, open, ROOT, 0)
    {
      Arrange(nodes, comparable, changes, growth, local);
      visible := [];
      Visit(ROOT, 0, open);
    }
  }

  /** The entries made so far hang under their parents. */
  ghost predicate Hung(keys: set<string>, children: Children, done: seq<string>) {
    && children.Keys == keys
    && forall p | p in keys ::
         NoRepeats(children[p]) && forall c :: c in children[p] <==> c in done && IsChild(keys, p, c)
  }

  lemma HungRoot(keys: set<string>, children: Children, done: seq<string>)
    requires Hung(keys, children, done)
    ensures Hung(keys, children, done + [ROOT])
  {
  }

  lemma HungNext(keys: set<string>, children: Children, done: seq<string>, c: string, parent: string)
    requires Hung(keys, children, done) && c !in done && IsChild(keys, parent, c) && parent in keys
    ensures Hung(keys, children[parent := children[parent] + [c]], done + [c])
  {
  }

  lemma Rearranged(keys: set<string>, children: Children, p: string, sorted: seq<string>)
    requires Linked(keys, children) && p in keys && multiset(sorted) == multiset(children[p])
    ensures Linked(keys, children[p := sorted])
  {
    var same := (path: string) => path;
    PermutationKeepsDistinct(same, children[p], sorted);
    forall i, j | 0 <= i < j < |sorted|
      ensures sorted[i] != sorted[j]
    {
      assert same(sorted[i]) != same(sorted[j]);
    }
    forall c
      ensures c in sorted <==> c in children[p]
    {
      assert c in multiset(sorted) <==> c in multiset(children[p]);
    }
  }

  // ---- The tree of a complete scan ----

  /** Directories of either tree, cut at the display depth. */
  predicate Listed(e: Entry, f: Entry, depth: nat, p: RelPath) {
    |p| <= depth && (IsDir(e, p) || IsDir(f, p))
  }

  /** The listed paths are those of two directory trees: of the snapshot, and of the one it is compared with. */
  ghost predicate ListsTrees(keys: set<string>, e: Entry, f: Entry, depth: nat) {
    && (forall p | Listed(e, f, depth, p) :: Render(p) in keys)
    && (forall path | path in keys :: exists p :: Listed(e, f, depth, p) && path == Render(p))
  }

  lemma {:induction false} DirAbove(e: Entry, p: RelPath)
    requires |p| > 0 && At(e, p).Present?
    ensures IsDir(e, p[..|p| - 1])
    decreases e
  {
    if |p| > 1 {
      DirAboveIn(e.children, p);
    }
  }

  lemma {:induction false} DirAboveIn(cs: seq<Child>, p: RelPath)
    requires |p| > 1 && AtChild(cs, p).Present?
    ensures AtChild(cs, p[..|p| - 1]).Present? && AtChild(cs, p[..|p| - 1]).entry.Dir?
    decreases cs
  {
    var n := |p| - 1;
    if cs[0].name == p[0] {
      assert p[1..][..n - 1] == p[..n][1..];
      DirAbove(cs[0].entry, p[1..]);
    } else {
      DirAboveIn(cs[1..], p);
    }
  }

  /** In such a list the parent is the directory one level up. */
  lemma ParentIsAbove(keys: set<string>, e: Entry, f: Entry, depth: nat, p: RelPath)
    requires WellNamed(e) && WellNamed(f) && ListsTrees(keys, e, f, depth)
    requires |p| > 0 && Listed(e, f, depth, p)
    ensures ValidPath(p) && Render(p) != ROOT && Listed(e, f, depth, p[..|p| - 1])
    ensures ParentOf(keys, Render(p)) == Render(p[..|p| - 1])
  {
    var tree := if IsDir(e, p) then e else f;
    DiskScan.PathsAreValid(tree, p);
    DirAbove(tree, p);
    RenderNonempty(p);
    RenderParent(p);
  }

  /** A directory is indented by its depth, and visible when all directories above it are unfolded. */
  lemma {:induction false} DirectoryVisible(keys: set<string>, open: set<string>, e: Entry, f: Entry, depth: nat,
                                            p: RelPath)
    requires WellNamed(e) && WellNamed(f) && ListsTrees(keys, e, f, depth) && Listed(e, f, depth, p)
    ensures Steps(keys, ROOT, Render(p)) == |p|
    ensures Reaches(keys, open, ROOT, Render(p)) <==> Unfolded(open, p)
    decreases |p|
  {
    if |p| > 0 {
      var n := |p| - 1;
      ParentIsAbove(keys, e, f, depth, p);
      DirectoryVisible(keys, open, e, f, depth, p[..n]);
      Prefixes(open, p);
    }
  }

  lemma Prefixes(open: set<string>, p: RelPath)
    requires |p| > 0
    ensures Unfolded(open, p) <==> Unfolded(open, p[..|p| - 1]) && Render(p[..|p| - 1]) in open
  {
    var init := p[..|p| - 1];
    assert forall i | 0 <= i < |init| :: init[..i] == p[..i];
  }

  /** All directories above are unfolded. */
  predicate Unfolded(open: set<string>, p: RelPath) {
    forall i | 0 <= i < |p| :: Render(p[..i]) in open
  }

  /** The page shows the scanned tree: a row for each directory whose ancestors are unfolded, and no other rows. */
  lemma PageShowsTree(keys: set<string>, children: Children, open: set<string>, e: Entry, f: Entry, depth: nat, l: Line)
    requires WellNamed(e) && WellNamed(f) && ListsTrees(keys, e, f, depth) && Linked(keys, children)
    ensures l in Preorder(keys, children, open, ROOT, 0) <==>
            exists p :: Listed(e, f, depth, p) && l == Line(Render(p), |p|) && Unfolded(open, p)
  {
    ShowsReached(keys, children, open, ROOT, 0, l);
    if LineFrom(keys, open, ROOT, 0, l) {
      var p :| Listed(e, f, depth, p) && l.path == Render(p);
      DirectoryVisible(keys, open, e, f, depth, p);
    }
    if p :| Listed(e, f, depth, p) && l == Line(Render(p), |p|) && Unfolded(open, p) {
      DirectoryVisible(keys, open, e, f, depth, p);
    }
  }

  /** The nodes of a complete snapshot are the directories of its tree. */
  lemma NodesAreDirectories(s: Snapshot, e: Entry, slash: bool, depth: nat, limit: nat, done: seq<Step>, path: string)
    requires WellNamed(e) && e.Dir?
    requires DiskScan.Explains(s, Present(e), Hidden(slash), depth, limit, done) && s.complete
    ensures HasNode(s.nodes, path) <==> exists p :: Listed(e, e, depth, p) && path == Render(p)
  {
    DiskScan.CompleteListsTree(s, e, slash, depth, limit, done);
    if n :| n in s.nodes && n.path == path {
      var p :| |p| <= depth && IsDir(e, p) && n == Node(Render(p), TreeBytes(At(e, p).entry));
      assert Listed(e, e, depth, p);
    }
    if p :| Listed(e, e, depth, p) && path == Render(p) {
      assert Node(Render(p), TreeBytes(At(e, p).entry)) in s.nodes;
    }
  }

  /** A complete snapshot shown by itself lists its tree. */
  lemma SnapshotListsTree(s: Snapshot, e: Entry, slash: bool, depth: nat, limit: nat, done: seq<Step>)
    requires WellNamed(e) && e.Dir?
    requires DiskScan.Explains(s, Present(e), Hidden(slash), depth, limit, done) && s.complete
    ensures ListsTrees(Rows(s.nodes, false, []).Keys, e, e, depth)
  {
    var keys := Rows(s.nodes, false, []).Keys;
    assert Listed(e, e, depth, []) && Render([]) == ROOT;
    forall path
      ensures path in keys <==> exists p :: Listed(e, e, depth, p) && path == Render(p)
    {
      RowsMean(s.nodes, false, [], path);
      NodesAreDirectories(s, e, slash, depth, limit, done, path);
    }
  }

  lemma ChangesCoverBoth(t: Snapshot, s: Snapshot, path: string)
    requires DistinctPaths(s.nodes)
    ensures HasChange(Comparison(t, s), path) <==> HasNode(t.nodes, path) || HasNode(s.nodes, path)
  {
    NamesAreNodes(t, path);
    NamesAreNodes(s, path);
    CompareCoversBoth(t, s, path);
    if c :| c in Comparison(t, s) && c.path == path {
      assert c == EntryOf(t, s, path);
    }
  }

  lemma NamesAreNodes(s: Snapshot, path: string)
    ensures Names(s, path) <==> HasNode(s.nodes, path)
  {
    SizeMapKeys(s.nodes);
  }

  /** A complete snapshot shown with its changes to an earlier one lists both trees. */
  lemma ComparisonListsTrees(s: Snapshot, e: Entry, limit: nat, done: seq<Step>,
                             t: Snapshot, f: Entry, limit': nat, done': seq<Step>, slash: bool, depth: nat)
    requires WellNamed(e) && e.Dir? && WellNamed(f) && f.Dir?
    requires DiskScan.Explains(s, Present(e), Hidden(slash), depth, limit, done) && s.complete
    requires DiskScan.Explains(t, Present(f), Hidden(slash), depth, limit', done') && t.complete
    ensures ListsTrees(Rows(s.nodes, true, Comparison(t, s)).Keys, e, f, depth)
  {
    var keys := Rows(s.nodes, true, Comparison(t, s)).Keys;
    assert Listed(e, f, depth, []) && Render([]) == ROOT;
    forall path
      ensures path in keys <==> exists p :: Listed(e, f, depth, p) && path == Render(p)
    {
      RowsMean(s.nodes, true, Comparison(t, s), path);
      ChangesCoverBoth(t, s, path);
      NodesAreDirectories(s, e, slash, depth, limit, done, path);
      NodesAreDirectories(t, f, slash, depth, limit', done', path);
      EitherTree(e, f, depth, path);
    }
  }

  lemma EitherTree(e: Entry, f: Entry, depth: nat, path: string)
    ensures (exists p :: Listed(e, f, depth, p) && path == Render(p)) <==>
            (exists p :: Listed(e, e, depth, p) && path == Render(p)) ||
            (exists p :: Listed(f, f, depth, p) && path == Render(p))
  {
    if p :| Listed(e, f, depth, p) && path == Render(p) {
      assert Listed(e, e, depth, p) || Listed(f, f, depth, p);
    }
    if p :| Listed(e, e, depth, p) && path == Render(p) {
      assert Listed(e, f, depth, p);
    }
    if p :| Listed(f, f, depth, p) && path == Render(p) {
      assert Listed(e, f, depth, p);
    }
  }
}
