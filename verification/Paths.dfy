/** Relative paths: as component lists inside the scanner, as "/"-joined text in snapshots and in the page. */
module Paths {

  /** The components below the scan root; [] is the root itself, shown as ".". */
  type RelPath = seq<string>

  predicate ValidName(name: string) {
    name != "" && name != "." && '/' !in name
  }

  predicate ValidPath(path: RelPath) {
    forall name | name in path :: ValidName(name)
  }

  /** The text a snapshot carries for a path (`filepath.Rel` followed by `filepath.ToSlash`). */
  function Render(path: RelPath): string {
    if |path| == 0 then "."
    else if |path| == 1 then path[0]
    else Render(path[..|path| - 1]) + "/" + path[|path| - 1]
  }

  /** JavaScript's `s.lastIndexOf('/')`, for text that contains one. */
  function LastSlash(s: string): (i: nat)
    requires '/' in s
    ensures i < |s| && s[i] == '/'
    ensures forall j | i < j < |s| :: s[j] != '/'
  {
    if s[|s| - 1] == '/' then |s| - 1
    else
      assert s == s[..|s| - 1] + [s[|s| - 1]];
      LastSlash(s[..|s| - 1])
  }

  /** One step towards the root on the text form: cut at the last "/", or "." when there is none. */
  function ParentText(s: string): string {
    if '/' in s then s[..LastSlash(s)] else "."
  }

  /** `len(strings.Split(s, "/"))`. */
  function SplitCount(s: string): nat {
    if |s| == 0 then 1
    else SplitCount(s[1..]) + if s[0] == '/' then 1 else 0
  }

  lemma {:induction false} SplitCountConcat(a: string, b: string)
    ensures SplitCount(a + b) == SplitCount(a) + SplitCount(b) - 1
  {
    if |a| == 0 {
      assert a + b == b;
    } else {
      assert (a + b)[1..] == a[1..] + b;
      SplitCountConcat(a[1..], b);
    }
  }

  lemma {:induction false} SplitCountPlain(a: string)
    requires '/' !in a
    ensures SplitCount(a) == 1
  {
    if |a| > 0 {
      assert a[0] in a;
      SplitCountPlain(a[1..]);
    }
  }

  lemma {:induction false} RenderNonempty(path: RelPath)
    requires ValidPath(path)
    ensures Render(path) != ""
    ensures |path| > 0 ==> Render(path) != "."
    ensures |path| > 1 ==> '/' in Render(path)
  {
    if |path| > 1 {
      RenderNonempty(path[..|path| - 1]);
      assert Render(path)[|Render(path[..|path| - 1])|] == '/';
    } else if |path| == 1 {
      assert ValidName(path[0]);
    }
  }

  /** The depth test of the scanner, made on text, is the length of the component list. */
  lemma {:induction false} RenderDepth(path: RelPath)
    requires ValidPath(path)
    ensures |path| > 0 ==> SplitCount(Render(path)) == |path|
  {
    if |path| == 1 {
      assert ValidName(path[0]);
      SplitCountPlain(path[0]);
    } else if |path| > 1 {
      var front, last := path[..|path| - 1], path[|path| - 1];
      RenderDepth(front);
      assert ValidName(last);
      SplitCountPlain(last);
      SplitCountConcat(Render(front) + "/", last);
      SplitCountConcat(Render(front), "/");
      assert SplitCount("/") == 2 by { assert "/"[1..] == ""; }
    }
  }

  /** The last "/" is found where no later one follows. */
  lemma LastSlashAt(s: string, i: nat)
    requires i < |s| && s[i] == '/'
    requires forall j | i < j < |s| :: s[j] != '/'
    ensures '/' in s && LastSlash(s) == i
  {
  }

  /** Cutting the text at its last "/" is dropping the last component. */
  lemma RenderParent(path: RelPath)
    requires ValidPath(path) && |path| > 0
    ensures ParentText(Render(path)) == Render(path[..|path| - 1])
  {
    var last := path[|path| - 1];
    assert ValidName(last);
    if |path| == 1 {
      assert path[..0] == [];
    } else {
      CutAtSlash(Render(path[..|path| - 1]), last);
    }
  }

  lemma CutAtSlash(front: string, last: string)
    requires '/' !in last
    ensures ParentText(front + "/" + last) == front
  {
    var text := front + "/" + last;
    assert text[|front|] == '/';
    assert forall j | |front| < j < |text| :: text[j] == last[j - |front| - 1];
    LastSlashAt(text, |front|);
    assert text[..|front|] == front;
  }

  /** Different paths never share their text. */
  lemma {:induction false} RenderInjective(p: RelPath, q: RelPath)
    requires ValidPath(p) && ValidPath(q) && Render(p) == Render(q)
    ensures p == q
  {
    RenderNonempty(p);
    RenderNonempty(q);
    RenderDepth(p);
    RenderDepth(q);
    if |p| > 1 {
      RenderParent(p);
      RenderParent(q);
      var i, j := |p| - 1, |q| - 1;
      RenderInjective(p[..i], q[..j]);
      assert Render(p)[|Render(p[..i])| + 1..] == p[i];
      assert Render(q)[|Render(q[..j])| + 1..] == q[j];
      assert p == p[..i] + [p[i]] && q == q[..j] + [q[j]];
    }
  }
}
