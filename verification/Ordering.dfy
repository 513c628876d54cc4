/** Sorting and the string order, as Go's `sort` package provides them, with facts on sequences and sets. */
module Ordering {

  /** Go's `<=` on strings: lexicographic, a proper prefix comes first. */
  predicate StringLeq(a: string, b: string) {
    if |a| == 0 then true
    else if |b| == 0 then false
    else if a[0] != b[0] then a[0] < b[0]
    else StringLeq(a[1..], b[1..])
  }

  /** At the first place where they differ the first text has the smaller character. */
  predicate SmallerAt(a: string, b: string, k: nat) {
    k < |a| && k < |b| && a[..k] == b[..k] && a[k] < b[k]
  }

  lemma SameBefore(a: string, b: string, k: nat)
    requires SmallerAt(a, b, k)
    ensures k > 0 ==> a[0] == b[0]
  {
    assert k > 0 ==> a[..k][0] == a[0] && b[..k][0] == b[0];
  }

  /** The order is lexicographic: a prefix, or smaller where they first differ. */
  lemma {:induction false} StringLeqMeans(a: string, b: string)
    ensures StringLeq(a, b) <==> a <= b || exists k: nat :: SmallerAt(a, b, k)
  {
    if |a| > 0 && |b| > 0 {
      if a[0] == b[0] {
        StringLeqMeans(a[1..], b[1..]);
        assert a == [a[0]] + a[1..] && b == [b[0]] + b[1..];
        if k: nat :| SmallerAt(a[1..], b[1..], k) {
          assert a[..k + 1] == [a[0]] + a[1..][..k] && b[..k + 1] == [b[0]] + b[1..][..k];
          assert SmallerAt(a, b, k + 1);
        }
        if k: nat :| SmallerAt(a, b, k) {
          assert k > 0;
          assert a[1..][..k - 1] == a[..k][1..] && b[1..][..k - 1] == b[..k][1..];
          assert SmallerAt(a[1..], b[1..], k - 1);
        }
      } else if a[0] < b[0] {
        assert SmallerAt(a, b, 0);
      } else if k: nat :| SmallerAt(a, b, k) {
        SameBefore(a, b, k);
      }
    }
  }

  lemma {:induction false} StringLeqTotal(a: string, b: string)
    ensures StringLeq(a, b) || StringLeq(b, a)
    ensures StringLeq(a, b) && StringLeq(b, a) ==> a == b
  {
    if |a| > 0 && |b| > 0 && a[0] == b[0] {
      StringLeqTotal(a[1..], b[1..]);
      assert a == [a[0]] + a[1..] && b == [b[0]] + b[1..];
    }
  }

  lemma {:induction false} StringLeqTransitive(a: string, b: string, c: string)
    requires StringLeq(a, b) && StringLeq(b, c)
    ensures StringLeq(a, c)
  {
    if |a| > 0 && |b| > 0 && |c| > 0 && a[0] == b[0] == c[0] {
      StringLeqTransitive(a[1..], b[1..], c[1..]);
    }
  }

  /** What a comparison must satisfy for sorting to make sense; ties between different elements are allowed. */
  ghost predicate TotalPreorder<T(!new)>(le: (T, T) -> bool) {
    && (forall x, y :: le(x, y) || le(y, x))
    && (forall x, y, z :: le(x, y) && le(y, z) ==> le(x, z))
  }

  lemma StringOrder()
    ensures TotalPreorder(StringLeq) && Antisymmetric(StringLeq)
  {
    forall x, y
      ensures StringLeq(x, y) || StringLeq(y, x)
      ensures StringLeq(x, y) && StringLeq(y, x) ==> x == y
    {
      StringLeqTotal(x, y);
    }
    forall x, y, z | StringLeq(x, y) && StringLeq(y, z)
      ensures StringLeq(x, z)
    {
      StringLeqTransitive(x, y, z);
    }
  }

  ghost predicate Sorted<T(!new)>(le: (T, T) -> bool, xs: seq<T>) {
    forall i, j | 0 <= i < j < |xs| :: le(xs[i], xs[j])
  }

  function Insert<T>(le: (T, T) -> bool, x: T, xs: seq<T>): seq<T> {
    if |xs| == 0 || le(x, xs[0]) then [x] + xs
    else [xs[0]] + Insert(le, x, xs[1..])
  }

  lemma {:induction false} InsertAdds<T>(le: (T, T) -> bool, x: T, xs: seq<T>)
    ensures multiset(Insert(le, x, xs)) == multiset(xs) + multiset{x}
  {
    if |xs| == 0 || le(x, xs[0]) {
    } else {
      InsertAdds(le, x, xs[1..]);
      assert xs == [xs[0]] + xs[1..];
    }
  }

  /** A sorted sequence with a new first element that is below all others. */
  lemma SortedCons<T(!new)>(le: (T, T) -> bool, x: T, xs: seq<T>)
    requires Sorted(le, xs)
    requires forall y | y in xs :: le(x, y)
    ensures Sorted(le, [x] + xs)
  {
  }

  lemma {:induction false} InsertKeepsSorted<T(!new)>(le: (T, T) -> bool, x: T, xs: seq<T>)
    requires TotalPreorder(le) && Sorted(le, xs)
    ensures Sorted(le, Insert(le, x, xs))
  {
    if |xs| == 0 {
    } else if le(x, xs[0]) {
      forall y | y in xs
        ensures le(x, y)
      {
        var j :| 0 <= j < |xs| && xs[j] == y;
        assert j == 0 || le(xs[0], xs[j]);
      }
      SortedCons(le, x, xs);
    } else {
      InsertKeepsSorted(le, x, xs[1..]);
      InsertAdds(le, x, xs[1..]);
      var rest := Insert(le, x, xs[1..]);
      forall y | y in rest
        ensures le(xs[0], y)
      {
        assert y in multiset(rest);
        assert y == x || y in xs[1..];
      }
      SortedCons(le, xs[0], rest);
    }
  }

  /** `sort.Slice`, `sort.Strings`: some sorted permutation of the argument. */
  method SortSlice<T(!new)>(le: (T, T) -> bool, xs: seq<T>) returns (ys: seq<T>)
    requires TotalPreorder(le)
    ensures Sorted(le, ys)
    ensures multiset(ys) == multiset(xs)
  {
    ys := [];
    for i := 0 to |xs|
      invariant Sorted(le, ys)
      invariant multiset(ys) == multiset(xs[..i])
    {
      InsertKeepsSorted(le, xs[i], ys);
      InsertAdds(le, xs[i], ys);
      ys := Insert(le, xs[i], ys);
      assert xs[..i + 1] == xs[..i] + [xs[i]];
    }
    assert xs[..|xs|] == xs;
  }

  /** Two sorted arrangements of the same elements start with elements that are below each other. */
  lemma SortedHeads<T(!new)>(le: (T, T) -> bool, xs: seq<T>, ys: seq<T>)
    requires Sorted(le, xs) && Sorted(le, ys)
    requires multiset(xs) == multiset(ys)
    requires |xs| > 0
    ensures |ys| > 0 && (xs[0] == ys[0] || (le(xs[0], ys[0]) && le(ys[0], xs[0])))
  {
    assert xs[0] in multiset(ys);
    assert xs[0] in ys;
    assert ys[0] in multiset(xs);
    assert ys[0] in xs;
    var i :| 0 <= i < |ys| && ys[i] == xs[0];
    var j :| 0 <= j < |xs| && xs[j] == ys[0];
  }

  /** The order tells the elements of xs apart. */
  ghost predicate Separates<T(!new)>(le: (T, T) -> bool, xs: seq<T>) {
    forall i, j | 0 <= i < |xs| && 0 <= j < |xs| :: le(xs[i], xs[j]) && le(xs[j], xs[i]) ==> xs[i] == xs[j]
  }

  /** Sorting has one outcome as soon as the order tells the elements apart. */
  lemma {:induction false} SortedIsUnique<T(!new)>(le: (T, T) -> bool, xs: seq<T>, ys: seq<T>)
    requires Sorted(le, xs) && Sorted(le, ys)
    requires multiset(xs) == multiset(ys)
    requires Separates(le, xs)
    ensures xs == ys
  {
    if |xs| == 0 {
      assert |multiset(ys)| == 0;
    } else {
      SortedHeads(le, xs, ys);
      assert xs[0] == ys[0] by {
        assert ys[0] in multiset(xs);
        var j :| 0 <= j < |xs| && xs[j] == ys[0];
      }
      TailsAgree(xs, ys);
      SortedIsUnique(le, xs[1..], ys[1..]);
    }
  }

  lemma TailsAgree<T>(xs: seq<T>, ys: seq<T>)
    requires |xs| > 0 && |ys| > 0 && xs[0] == ys[0] && multiset(xs) == multiset(ys)
    ensures multiset(xs[1..]) == multiset(ys[1..])
    ensures xs[1..] == ys[1..] ==> xs == ys
  {
    assert xs == [xs[0]] + xs[1..] && ys == [xs[0]] + ys[1..];
    assert multiset(xs[1..]) == multiset(xs) - multiset{xs[0]};
    assert multiset(ys[1..]) == multiset(ys) - multiset{xs[0]};
  }

  /** Every finite multiset is the content of some sorted sequence. */
  lemma {:induction false} SortedExists<T(!new)>(le: (T, T) -> bool, bag: multiset<T>)
    requires TotalPreorder(le)
    ensures exists xs: seq<T> :: Sorted(le, xs) && multiset(xs) == bag
    decreases |bag|
  {
    if |bag| == 0 {
      var empty: seq<T> := [];
      assert Sorted(le, empty) && multiset(empty) == bag;
    } else {
      var x :| x in bag;
      SortedExists(le, bag - multiset{x});
      var xs: seq<T> :| Sorted(le, xs) && multiset(xs) == bag - multiset{x};
      InsertKeepsSorted(le, x, xs);
      InsertAdds(le, x, xs);
      assert multiset(Insert(le, x, xs)) == bag;
    }
  }

  // ---- Permutations and distinct keys ----

  ghost predicate DistinctBy<T(!new), K(!new)>(key: T -> K, xs: seq<T>) {
    forall i, j | 0 <= i < j < |xs| :: key(xs[i]) != key(xs[j])
  }

  lemma OccursTwice<T>(xs: seq<T>, i: nat, j: nat)
    requires i < j < |xs| && xs[i] == xs[j]
    ensures multiset(xs)[xs[i]] >= 2
  {
    assert xs == xs[..j] + xs[j..];
    assert xs[..j][i] == xs[i] && xs[j..][0] == xs[i];
    assert xs[i] in multiset(xs[..j]) && xs[i] in multiset(xs[j..]);
  }

  lemma {:induction false} TwoPlaces<T>(xs: seq<T>, x: T) returns (i: nat, j: nat)
    requires multiset(xs)[x] >= 2
    ensures i < j < |xs| && xs[i] == x == xs[j]
  {
    assert xs == [xs[0]] + xs[1..];
    if xs[0] == x {
      assert x in multiset(xs[1..]);
      assert x in xs[1..];
      var k :| 0 <= k < |xs[1..]| && xs[1..][k] == x;
      i, j := 0, k + 1;
    } else {
      var a, b := TwoPlaces(xs[1..], x);
      i, j := a + 1, b + 1;
    }
  }

  /** With distinct keys no element occurs twice. */
  lemma DistinctOccursOnce<T(!new), K(!new)>(key: T -> K, xs: seq<T>, x: T)
    requires DistinctBy(key, xs)
    ensures multiset(xs)[x] <= 1
  {
    if multiset(xs)[x] >= 2 {
      var i, j := TwoPlaces(xs, x);
      assert false;
    }
  }

  /** Rearranging keeps keys distinct. */
  lemma PermutationKeepsDistinct<T(!new), K(!new)>(key: T -> K, xs: seq<T>, ys: seq<T>)
    requires DistinctBy(key, xs) && multiset(xs) == multiset(ys)
    ensures DistinctBy(key, ys)
  {
    forall i, j | 0 <= i < j < |ys|
      ensures key(ys[i]) != key(ys[j])
    {
      if ys[i] == ys[j] {
        OccursTwice(ys, i, j);
        var a, b := TwoPlaces(xs, ys[i]);
        assert false;
      } else {
        assert ys[i] in multiset(xs) && ys[j] in multiset(xs);
        assert ys[i] in xs && ys[j] in xs;
        var a :| 0 <= a < |xs| && xs[a] == ys[i];
        var b :| 0 <= b < |xs| && xs[b] == ys[j];
      }
    }
  }

  // ---- Finite sets ----

  lemma {:induction false} SubsetSize<T(!new)>(a: set<T>, b: set<T>)
    requires a <= b
    ensures |a| <= |b|
  {
    if a != {} {
      var x :| x in a;
      SubsetSize(a - {x}, b - {x});
    }
  }

  // ---- Sets as sorted lists ----

  function Elements<T>(xs: seq<T>): set<T> {
    set x | x in xs
  }

  ghost predicate NoRepeats<T(!new)>(xs: seq<T>) {
    forall i, j | 0 <= i < j < |xs| :: xs[i] != xs[j]
  }

  lemma {:induction false} CountDistinct<T(!new)>(xs: seq<T>)
    requires NoRepeats(xs)
    ensures |Elements(xs)| == |xs|
  {
    if |xs| > 0 {
      var n := |xs| - 1;
      CountDistinct(xs[..n]);
      assert xs == xs[..n] + [xs[n]];
      assert Elements(xs) == Elements(xs[..n]) + {xs[n]};
      assert xs[n] !in Elements(xs[..n]);
    }
  }

  lemma NextIsNew<T(!new)>(xs: seq<T>, n: nat)
    requires NoRepeats(xs) && n < |xs|
    ensures xs[n] !in xs[..n] && xs[..n + 1] == xs[..n] + [xs[n]]
  {
  }

  /** Where an element is decides on which side of a cut it is. */
  lemma PositionOf<T(!new)>(xs: seq<T>, x: T, n: nat) returns (i: nat)
    requires NoRepeats(xs) && x in xs && n <= |xs|
    ensures i < |xs| && xs[i] == x
    ensures x in xs[..n] <==> i < n
    ensures x in xs[n..] <==> i >= n
  {
    i :| 0 <= i < |xs| && xs[i] == x;
    if i < n {
      assert xs[..n][i] == x;
    } else {
      assert xs[n..][i - n] == x;
    }
  }

  /** The elements of a set, in order and once each. */
  ghost predicate ListsAll<T(!new)>(le: (T, T) -> bool, all: set<T>, xs: seq<T>) {
    Sorted(le, xs) && NoRepeats(xs) && forall x :: x in xs <==> x in all
  }

  /** Different elements are not below each other. */
  ghost predicate Antisymmetric<T(!new)>(le: (T, T) -> bool) {
    forall x, y :: le(x, y) && le(y, x) ==> x == y
  }

  /** The elements above one. */
  function Above<T>(le: (T, T) -> bool, all: set<T>, x: T): set<T> {
    set y | y in all && y != x && le(x, y)
  }

  lemma AboveAreLater<T(!new)>(le: (T, T) -> bool, all: set<T>, xs: seq<T>, i: nat, y: T)
    requires Antisymmetric(le) && ListsAll(le, all, xs) && i < |xs|
    ensures y in Above(le, all, xs[i]) <==> y in xs[i + 1..]
  {
    if y in xs {
      var j := PositionOf(xs, y, i + 1);
      assert j > i ==> le(xs[i], xs[j]);
      assert j < i ==> le(xs[j], xs[i]);
    } else {
      assert forall k | i < k < |xs| :: xs[k] in xs;
    }
  }

  lemma AboveByPosition<T(!new)>(le: (T, T) -> bool, all: set<T>, xs: seq<T>, i: nat)
    requires Antisymmetric(le) && ListsAll(le, all, xs) && i < |xs|
    ensures |Above(le, all, xs[i])| == |xs| - 1 - i
  {
    forall y
      ensures y in Above(le, all, xs[i]) <==> y in Elements(xs[i + 1..])
    {
      AboveAreLater(le, all, xs, i, y);
    }
    assert Above(le, all, xs[i]) == Elements(xs[i + 1..]);
    CountDistinct(xs[i + 1..]);
  }

  /** The elements with fewer than `keep` above them. */
  function Top<T>(le: (T, T) -> bool, all: set<T>, keep: nat): set<T> {
    set x | x in all && |Above(le, all, x)| < keep
  }

  /** How many elements are before the last `keep`. */
  function Surplus(n: nat, keep: nat): nat {
    if n > keep then n - keep else 0
  }

  /** In the list the top elements are the last ones. */
  lemma TopByPosition<T(!new)>(le: (T, T) -> bool, all: set<T>, xs: seq<T>, keep: nat, x: T)
    requires Antisymmetric(le) && ListsAll(le, all, xs)
    ensures x in Top(le, all, keep) <==> x in xs[Surplus(|xs|, keep)..]
    ensures x in all && x !in Top(le, all, keep) <==> x in xs[..Surplus(|xs|, keep)]
  {
    var n := Surplus(|xs|, keep);
    if x in xs {
      var i := PositionOf(xs, x, n);
      AboveByPosition(le, all, xs, i);
    } else {
      assert xs == xs[..n] + xs[n..];
    }
  }

  lemma TopIsLast<T(!new)>(le: (T, T) -> bool, all: set<T>, xs: seq<T>, keep: nat)
    requires Antisymmetric(le) && ListsAll(le, all, xs)
    ensures Top(le, all, keep) == Elements(xs[Surplus(|xs|, keep)..])
  {
    forall x
      ensures x in Top(le, all, keep) <==> x in Elements(xs[Surplus(|xs|, keep)..])
    {
      TopByPosition(le, all, xs, keep, x);
    }
  }

  /** There are exactly `keep` of them, or all if there are fewer. */
  lemma TopSize<T(!new)>(le: (T, T) -> bool, all: set<T>, xs: seq<T>, keep: nat)
    requires Antisymmetric(le) && ListsAll(le, all, xs)
    ensures |Top(le, all, keep)| == if |all| < keep then |all| else keep
  {
    TopIsLast(le, all, xs, keep);
    CountDistinct(xs[Surplus(|xs|, keep)..]);
    assert all == Elements(xs);
    CountDistinct(xs);
  }

  /** None of the others is above one of them. */
  lemma TopIsAbove<T(!new)>(le: (T, T) -> bool, all: set<T>, xs: seq<T>, keep: nat, x: T, y: T)
    requires Antisymmetric(le) && ListsAll(le, all, xs)
    requires x in Top(le, all, keep) && y in all && y !in Top(le, all, keep)
    ensures le(y, x)
  {
    var n := Surplus(|xs|, keep);
    TopByPosition(le, all, xs, keep, x);
    TopByPosition(le, all, xs, keep, y);
    var i := PositionOf(xs, x, n);
    var j := PositionOf(xs, y, n);
  }
}
