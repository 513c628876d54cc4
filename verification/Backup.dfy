/**
  Backups and their rotation (internal/backup/backup.go, `Create`). Copying, listing, `Stat` and removing may fail; a
  file is known by its identity (`os.SameFile`).
 */
module Backup {
  import opened Ordering
  import opened BackupNames

  // ---- Rotation ----

  /** A directory entry: a regular file or something else, and the identity of what is behind it. */
  datatype File = File(regular: bool, id: nat)

  type Listing = map<string, File>

  /** A backup that rotation looks at. */
  predicate IsBackup(files: Listing, name: string) {
    name in files && files[name].regular && TimeOf(name).Some?
  }

  function Backups(files: Listing): set<string> {
    set name | name in files && IsBackup(files, name)
  }

  /** The backups that rotation would keep by their names alone: those with fewer than `keep` later ones. */
  function Newest(files: Listing, keep: nat): set<string> {
    Top(StringLeq, Backups(files), keep)
  }

  /** The directory without outdated backups; the live source stays. */
  function Rotated(files: Listing, keep: nat, source: nat): Listing {
    Cleared(files, Backups(files) - Newest(files, keep), source)
  }

  function Cleared(files: Listing, gone: set<string>, source: nat): Listing {
    map name | name in files && !(name in gone && files[name].id != source) :: files[name]
  }

  /** The directory without those of the names that are not the source. */
  function Without(files: Listing, names: seq<string>, source: nat): Listing {
    map name | name in files && !(name in names && files[name].id != source) :: files[name]
  }

  /** What `Create` returns: an error before, in or after copying, one during rotation, or success. */
  datatype Outcome = BadKeep | CopyFailed | ListFailed(target: string)
                   | Interrupted(target: string, removed: nat) | Done(target: string, removed: nat)

  /** All backups, oldest name first. */
  ghost predicate Sorting(files: Listing, names: seq<string>) {
    ListsAll(StringLeq, Backups(files), names)
  }

  /** Of the sorted backups, those that the loop pops are those with at least `keep` later ones. */
  lemma OutdatedByPosition(files: Listing, names: seq<string>, keep: nat, name: string)
    requires Sorting(files, names)
    ensures name in Backups(files) - Newest(files, keep) <==> name in names[..Surplus(|names|, keep)]
  {
    StringOrder();
    TopByPosition(StringLeq, Backups(files), names, keep, name);
  }

  /** Removing all but the last `keep` is rotating. */
  lemma RotatedByPosition(files: Listing, names: seq<string>, keep: nat, source: nat)
    requires Sorting(files, names)
    ensures Without(files, names[..Surplus(|names|, keep)], source) == Rotated(files, keep, source)
  {
    var gone := Backups(files) - Newest(files, keep);
    forall name
      ensures name in gone <==> name in names[..Surplus(|names|, keep)]
    {
      OutdatedByPosition(files, names, keep, name);
    }
    SameCleared(files, gone, names[..Surplus(|names|, keep)], source);
  }

  lemma SameCleared(files: Listing, gone: set<string>, names: seq<string>, source: nat)
    requires forall name :: name in gone <==> name in names
    ensures Without(files, names, source) == Cleared(files, gone, source)
  {
  }

  lemma SortedListing(found: seq<string>, names: seq<string>, all: set<string>)
    requires NoRepeats(found) && (forall name :: name in found <==> name in all)
    requires multiset(found) == multiset(names) && Sorted(StringLeq, names)
    ensures ListsAll(StringLeq, all, names)
  {
    var same := (name: string) => name;
    PermutationKeepsDistinct(same, found, names);
    forall i, j | 0 <= i < j < |names|
      ensures names[i] != names[j]
    {
      assert same(names[i]) != same(names[j]);
    }
    forall name
      ensures name in names <==> name in all
    {
      assert name in multiset(found) <==> name in multiset(names);
    }
  }

  /** The next of the sorted backups is still there, and different from those before it. */
  lemma NextBackup(files: Listing, names: seq<string>, n: nat, source: nat)
    requires Sorting(files, names) && n < |names|
    ensures names[n] in files && names[n] !in names[..n]
    ensures names[..n + 1] == names[..n] + [names[n]]
  {
    SortedAreStored(files, names, names[n]);
    NextIsNew(names, n);
  }

  lemma SortedAreStored(files: Listing, names: seq<string>, name: string)
    requires Sorting(files, names) && name in names
    ensures name in files
  {
    assert name in Backups(files);
  }

  lemma WithoutNext(files: Listing, names: seq<string>, name: string, source: nat)
    requires name in files && name !in names
    ensures var left := Without(files, names, source);
            && name in left && left[name] == files[name]
            && Without(files, names + [name], source) == if left[name].id != source then left - {name} else left
  {
  }

  class Folder {
    var files: Listing
    /** The identity of the live database. */
    const source: nat

    constructor (files: Listing, source: nat)
      ensures this.files == files && this.source == source
    {
      this.files, this.source := files, source;
    }

    /** Lists the backups in the order of their names. */
    method ListBackups() returns (names: seq<string>)
      ensures Sorting(files, names)
    {
      names := [];
      var left := files.Keys;
      while left != {}
        invariant left <= files.Keys
        invariant NoRepeats(names)
        invariant forall name :: name in names <==> name in Backups(files) && name !in left
        decreases left
      {
        var name :| name in left;
        if IsBackup(files, name) {
          names := names + [name];
        }
        left := left - {name};
      }
      ghost var found := names;
      StringOrder();
      names := SortSlice(StringLeq, names);
      SortedListing(found, names, Backups(files));
    }

    /** Removes the oldest backups; the step numbered `trouble` fails. */
    method RemoveOld(sorted: seq<string>, keep: nat, trouble: nat) returns (removed: nat, ok: bool, n: nat)
      requires Sorting(files, sorted)
      modifies this
      ensures n <= |sorted| && files == Without(old(files), sorted[..n], source)
      ensures removed + |files| == |old(files)|
      ensures n <= Surplus(|sorted|, keep)
      ensures ok <==> n == Surplus(|sorted|, keep)
      ensures !ok ==> n == trouble
    {
      var names := sorted;
      removed, n := 0, 0;
      assert files == Without(files, sorted[..0], source);
      while |names| > keep
        invariant n <= |sorted| && names == sorted[n..]
        invariant n <= Surplus(|sorted|, keep)
        invariant files == Without(old(files), sorted[..n], source)
        invariant removed + |files| == |old(files)|
      {
        var name := names[0];
        NextBackup(old(files), sorted, n, source);
        WithoutNext(old(files), sorted[..n], name, source);
        if n == trouble {
          return removed, false, n;
        }
        names := names[1..];
        n := n + 1;
        if files[name].id != source {
          files := files - {name};
          removed := removed + 1;
        }
      }
      ok := true;
    }

    /** Publishes a copy under the name of the present time, then rotates. */
    method Create(now: Fields, keep: int, inode: nat, copies: bool, lists: bool, trouble: nat) returns (r: Outcome)
      requires IsTime(now)
      modifies this
      ensures r.BadKeep? <==> keep < 1 || keep > 365
      ensures r.CopyFailed? <==> 1 <= keep <= 365 && (!copies || NameOf(now) in old(files))
      ensures r.BadKeep? || r.CopyFailed? ==> files == old(files)
      ensures r.ListFailed? ==> files == Published(old(files), now, inode)
      ensures r.Done? ==> files == Rotated(Published(old(files), now, inode), keep, source)
      ensures r.Done? ==> r.removed + |files| == |Published(old(files), now, inode)|
      ensures r.Interrupted? ==>
                PartlyRotated(Published(old(files), now, inode), keep, source, files, trouble, r.removed)
      ensures r.ListFailed? || r.Interrupted? || r.Done? ==> r.target == NameOf(now)
    {
      if keep < 1 || keep > 365 {
        return BadKeep;
      }
      var target := NameOf(now);
      if target in files || !copies {
        return CopyFailed;
      }
      files := files[target := File(true, inode)];
      ghost var published := files;
      if !lists {
        return ListFailed(target);
      }
      var names := ListBackups();
      var removed, ok, n := RemoveOld(names, keep, trouble);
      if ok {
        RotatedByPosition(published, names, keep, source);
        r := Done(target, removed);
      } else {
        r := Interrupted(target, removed);
      }
    }
  }

  function Published(files: Listing, now: Fields, inode: nat): Listing
    requires |now| == |LAYOUT|
  {
    files[NameOf(now) := File(true, inode)]
  }

  /** Only the n oldest of the outdated backups were looked at. */
  ghost predicate PartlyRotated(files: Listing, keep: nat, source: nat, left: Listing, n: nat, removed: nat) {
    && removed + |left| == |files|
    && exists names :: Sorting(files, names) && n < Surplus(|names|, keep)
         && left == Without(files, names[..n], source)
  }

  // ---- What a rotation leaves ----

  lemma SortingExists(files: Listing) returns (names: seq<string>)
    ensures Sorting(files, names)
  {
    StringOrder();
    SortedExists(StringLeq, multiset(Backups(files)));
    names :| Sorted(StringLeq, names) && multiset(names) == multiset(Backups(files));
    ListsSet(Backups(files), names);
  }

  lemma ListsSet(all: set<string>, names: seq<string>)
    requires Sorted(StringLeq, names) && multiset(names) == multiset(all)
    ensures ListsAll(StringLeq, all, names)
  {
    forall name
      ensures name in names <==> name in all
    {
      assert name in multiset(names) <==> name in multiset(all);
    }
    forall i, j | 0 <= i < j < |names|
      ensures names[i] != names[j]
    {
      if names[i] == names[j] {
        OccursTwice(names, i, j);
        assert false;
      }
    }
  }

  /** Exactly `keep` backups are kept, or all if there are fewer, and none that is removed is newer. */
  lemma KeepsTheNewest(files: Listing, keep: nat)
    ensures |Newest(files, keep)| == if |Backups(files)| < keep then |Backups(files)| else keep
    ensures forall kept, name | kept in Newest(files, keep) && name in Backups(files) - Newest(files, keep) ::
              StringLeq(name, kept)
  {
    var names := SortingExists(files);
    StringOrder();
    TopSize(StringLeq, Backups(files), names, keep);
    forall kept, name | kept in Newest(files, keep) && name in Backups(files) - Newest(files, keep)
      ensures StringLeq(name, kept)
    {
      TopIsAbove(StringLeq, Backups(files), names, keep, kept, name);
    }
  }

  /** After rotation the backups are the newest and the live source; everything else is as it was. */
  lemma RotationLeaves(files: Listing, keep: nat, source: nat, name: string)
    ensures name in files && (!files[name].regular || TimeOf(name).None? || files[name].id == source) ==>
              name in Rotated(files, keep, source)
    ensures name in Rotated(files, keep, source) <==>
            name in files && (name in Backups(files) ==> name in Newest(files, keep) || files[name].id == source)
    ensures name in Rotated(files, keep, source) ==> Rotated(files, keep, source)[name] == files[name]
  {
  }

  // ---- The new backup itself ----

  /** The backups whose names are behind that of the present time. */
  function Ahead(files: Listing, now: Fields): set<string>
    requires |now| == |LAYOUT|
  {
    set name | name in Backups(files) && name != NameOf(now) && StringLeq(NameOf(now), name)
  }

  /**
    The backup just made outlives its own rotation exactly when fewer than `keep` backups carry later times. So a
    clock that went back can make `Create` report success for a file it has removed.
   */
  lemma TargetSurvives(files: Listing, now: Fields, inode: nat, keep: nat, source: nat)
    requires IsTime(now) && NameOf(now) !in files && inode != source
    ensures NameOf(now) in Rotated(Published(files, now, inode), keep, source) <==> |Ahead(files, now)| < keep
  {
    BackupsPublished(files, now, inode);
    assert Above(StringLeq, Backups(Published(files, now, inode)), NameOf(now)) == Ahead(files, now);
  }

  /** The new backup is one more. */
  lemma BackupsPublished(files: Listing, now: Fields, inode: nat)
    requires IsTime(now)
    ensures Backups(Published(files, now, inode)) == Backups(files) + {NameOf(now)}
  {
    NameRoundTrip(now);
    BackupsWith(files, NameOf(now), inode);
  }

  lemma BackupsWith(files: Listing, name: string, inode: nat)
    requires TimeOf(name).Some?
    ensures Backups(files[name := File(true, inode)]) == Backups(files) + {name}
  {
    forall other
      ensures other in Backups(files[name := File(true, inode)]) <==> other in Backups(files) || other == name
    {
    }
  }

  /** A folder that holds one backup, of a later time. */
  function LaterBackup(later: Fields, inode: nat): Listing
    requires |later| == |LAYOUT|
  {
    map[NameOf(later) := File(true, inode)]
  }

  /** With one backup of a later time and keep 1, the backup just made is removed at once, and the other one stays. */
  lemma ClockWentBack(now: Fields, later: Fields, inode: nat, inode': nat, source: nat)
    requires IsTime(now) && IsTime(later) && FieldsLeq(now, later) && now != later && inode' != source
    ensures NameOf(now) !in LaterBackup(later, inode)
    ensures NameOf(now) !in Rotated(Published(LaterBackup(later, inode), now, inode'), 1, source)
    ensures NameOf(later) in Rotated(Published(LaterBackup(later, inode), now, inode'), 1, source)
  {
    var files := LaterBackup(later, inode);
    OneBackup(later, inode);
    NameOrder(now, later);
    StringLeqTotal(NameOf(now), NameOf(later));
    assert Ahead(files, now) == {NameOf(later)};
    TargetSurvives(files, now, inode', 1, source);
    BackupsPublished(files, now, inode');
    assert Above(StringLeq, {NameOf(later), NameOf(now)}, NameOf(later)) == {};
  }

  lemma OneBackup(later: Fields, inode: nat)
    requires IsTime(later)
    ensures Backups(LaterBackup(later, inode)) == {NameOf(later)}
  {
    NameRoundTrip(later);
  }

  /** There are such times. */
  lemma SuchTimesExist()
    ensures exists now: Fields, later: Fields ::
              IsTime(now) && IsTime(later) && FieldsLeq(now, later) && now != later
  {
    var now: Fields, later: Fields := [2025, 1, 1, 0, 0, 0, 0], [2026, 1, 1, 0, 0, 0, 0];
    FieldSizes();
    assert FieldsLeq(now, later) && now[0] != later[0];
    assert IsTime(now) && IsTime(later);
  }

  lemma FieldSizes()
    ensures Pow10(4) == 10000 && Pow10(2) == 100 && Pow10(9) > 0
  {
  }

  /** With a clock that does not go back it always does. */
  lemma SteadyClockKeepsTarget(files: Listing, now: Fields, inode: nat, keep: nat, source: nat)
    requires IsTime(now) && NameOf(now) !in files && inode != source && keep >= 1
    requires forall name | name in Backups(files) :: Plain(name) && FieldsLeq(TimeOf(name).value, now)
    ensures NameOf(now) in Rotated(Published(files, now, inode), keep, source)
  {
    forall name | name in Ahead(files, now)
      ensures false
    {
      PlainNamesOnly(name);
      NameOrder(TimeOf(name).value, now);
      StringLeqTotal(NameOf(now), name);
      assert false;
    }
    assert Ahead(files, now) == {};
    TargetSurvives(files, now, inode, keep, source);
  }

  // ---- Series of backups ----

  datatype Backup = Backup(time: Fields, inode: nat)

  /** One successful backup after the other. */
  ghost function Series(files: Listing, made: seq<Backup>, keep: nat, source: nat): Listing
    requires forall b | b in made :: |b.time| == |LAYOUT|
  {
    if |made| == 0 then files
    else
      var last := made[|made| - 1];
      Rotated(Published(Series(files, made[..|made| - 1], keep, source), last.time, last.inode), keep, source)
  }

  /** How many of n backups a rotation keeps. */
  function KeptOf(n: nat, keep: nat): nat {
    if n < keep then n else keep
  }

  /** The names of the last `keep` backups. */
  ghost function LastNames(made: seq<Backup>, keep: nat): seq<string>
    requires forall b | b in made :: |b.time| == |LAYOUT|
  {
    seq(KeptOf(|made|, keep), i requires 0 <= i < KeptOf(|made|, keep) =>
      NameOf(made[|made| - KeptOf(|made|, keep) + i].time))
  }

  ghost predicate Ascending(made: seq<Backup>, source: nat) {
    && (forall b | b in made :: |b.time| == |LAYOUT| && IsTime(b.time) && b.inode != source)
    && forall i, j | 0 <= i < j < |made| :: FieldsLeq(made[i].time, made[j].time) && made[i].time != made[j].time
  }

  /** With one more backup the names move on. */
  lemma LastNamesNext(made: seq<Backup>, keep: nat)
    requires |made| > 0 && keep > 0 && forall b | b in made :: |b.time| == |LAYOUT|
    ensures var names := LastNames(made[..|made| - 1], keep) + [NameOf(made[|made| - 1].time)];
            LastNames(made, keep) == names[Surplus(|names|, keep)..]
  {
  }

  /** These are the names of the backups from some position on. */
  ghost predicate AreNames(made: seq<Backup>, names: seq<string>, from: int)
    requires forall b | b in made :: |b.time| == |LAYOUT|
  {
    && 0 <= from && from + |names| <= |made|
    && forall i | 0 <= i < |names| :: names[i] == NameOf(made[from + i].time)
  }

  /** Names of ascending times are ascending. */
  lemma NamesAscend(made: seq<Backup>, source: nat, names: seq<string>, from: int)
    requires Ascending(made, source) && AreNames(made, names, from)
    ensures Sorted(StringLeq, names)
    ensures NoRepeats(names)
  {
    forall i, j | 0 <= i < j < |names|
      ensures StringLeq(names[i], names[j]) && names[i] != names[j]
    {
      var b, c := made[from + i], made[from + j];
      assert b in made && c in made;
      NameOrder(b.time, c.time);
    }
  }

  /** The backups of the folder are these, none of them is the source, and the files it had are still there. */
  ghost predicate Holds(files: Listing, now: Listing, names: seq<string>, source: nat) {
    && Sorting(now, names)
    && (forall name | name in names :: name in now && now[name].id != source)
    && (forall name | name in files && TimeOf(name).None? :: name in now && now[name] == files[name])
  }

  lemma HoldsPublished(files: Listing, before: Listing, names: seq<string>, b: Backup, source: nat)
    requires Holds(files, before, names, source) && IsTime(b.time) && b.inode != source
    requires Sorted(StringLeq, names + [NameOf(b.time)]) && NoRepeats(names + [NameOf(b.time)])
    ensures Holds(files, Published(before, b.time, b.inode), names + [NameOf(b.time)], source)
  {
    NameRoundTrip(b.time);
    BackupsPublished(before, b.time, b.inode);
    OneMore(Backups(before), names, NameOf(b.time));
  }

  lemma OneMore(all: set<string>, names: seq<string>, name: string)
    requires ListsAll(StringLeq, all, names)
    requires Sorted(StringLeq, names + [name]) && NoRepeats(names + [name])
    ensures ListsAll(StringLeq, all + {name}, names + [name])
  {
  }

  lemma HoldsWithout(files: Listing, before: Listing, names: seq<string>, n: nat, source: nat)
    requires Holds(files, before, names, source) && n <= |names|
    ensures Holds(files, Without(before, names[..n], source), names[n..], source)
  {
    BackupsWithout(before, names, n, source);
    ListsRest(Backups(before), names, n);
    OthersStay(files, before, names[..n], source);
    assert names == names[..n] + names[n..];
  }

  /** Files that are not backups are not touched. */
  lemma OthersStay(files: Listing, before: Listing, gone: seq<string>, source: nat)
    requires forall name | name in gone :: name in Backups(before)
    requires forall name | name in files && TimeOf(name).None? :: name in before && before[name] == files[name]
    ensures var after := Without(before, gone, source);
            forall name | name in files && TimeOf(name).None? :: name in after && after[name] == files[name]
  {
  }

  lemma BackupsWithout(before: Listing, names: seq<string>, n: nat, source: nat)
    requires n <= |names| && forall i | 0 <= i < n :: names[i] in before && before[names[i]].id != source
    ensures Backups(Without(before, names[..n], source)) == Backups(before) - Elements(names[..n])
  {
    forall name | name in names[..n]
      ensures name in before && before[name].id != source
    {
      var i :| 0 <= i < n && names[..n][i] == name;
      assert names[i] == name;
    }
  }

  lemma ListsRest(all: set<string>, names: seq<string>, n: nat)
    requires ListsAll(StringLeq, all, names) && n <= |names|
    ensures ListsAll(StringLeq, all - Elements(names[..n]), names[n..])
  {
    forall name
      ensures name in names[n..] <==> name in all && name !in names[..n]
    {
      if name in names {
        var i := PositionOf(names, name, n);
      } else {
        assert names == names[..n] + names[n..];
      }
    }
  }

  /** A series of backups into a folder without backups leaves the last `keep` of them, and all other files. */
  lemma {:induction false} SeriesKeepsTheLast(files: Listing, made: seq<Backup>, keep: nat, source: nat)
    requires Ascending(made, source) && keep >= 1 && Backups(files) == {}
    ensures Holds(files, Series(files, made, keep, source), LastNames(made, keep), source)
  {
    if |made| > 0 {
      var n := |made| - 1;
      SeriesKeepsTheLast(files, made[..n], keep, source);
      SeriesNext(files, Series(files, made[..n], keep, source), LastNames(made[..n], keep), made, keep, source);
    }
  }

  /** One more backup and its rotation. */
  lemma RotateHolds(files: Listing, before: Listing, names: seq<string>, b: Backup, keep: nat, source: nat)
    requires Holds(files, before, names, source) && IsTime(b.time) && b.inode != source
    requires Sorted(StringLeq, names + [NameOf(b.time)]) && NoRepeats(names + [NameOf(b.time)])
    ensures var all := names + [NameOf(b.time)];
            Holds(files, Rotated(Published(before, b.time, b.inode), keep, source), all[Surplus(|all|, keep)..], source)
  {
    var all, after := names + [NameOf(b.time)], Published(before, b.time, b.inode);
    HoldsPublished(files, before, names, b, source);
    RotatedByPosition(after, all, keep, source);
    HoldsWithout(files, after, all, Surplus(|all|, keep), source);
  }

  lemma SeriesNext(files: Listing, before: Listing, names: seq<string>, made: seq<Backup>, keep: nat, source: nat)
    requires Ascending(made, source) && keep >= 1 && |made| > 0
    requires names == LastNames(made[..|made| - 1], keep) && Holds(files, before, names, source)
    ensures var b := made[|made| - 1];
            Holds(files, Rotated(Published(before, b.time, b.inode), keep, source), LastNames(made, keep), source)
  {
    var b := made[|made| - 1];
    assert b in made;
    NextNames(made, keep, source, names);
    RotateHolds(files, before, names, b, keep, source);
    LastNamesNext(made, keep);
  }

  lemma NextNames(made: seq<Backup>, keep: nat, source: nat, names: seq<string>)
    requires Ascending(made, source) && |made| > 0 && names == LastNames(made[..|made| - 1], keep)
    ensures var all := names + [NameOf(made[|made| - 1].time)];
            Sorted(StringLeq, all) && NoRepeats(all)
  {
    var n := |made| - 1;
    LastNamesEnd(made[..n], keep, names);
    OneMoreName(made, names, NameOf(made[n].time));
    NamesAscend(made, source, names + [NameOf(made[n].time)], n - |names|);
  }

  lemma OneMoreName(made: seq<Backup>, names: seq<string>, name: string)
    requires (forall b | b in made :: |b.time| == |LAYOUT|) && |made| > 0
    requires AreNames(made[..|made| - 1], names, |made| - 1 - |names|) && name == NameOf(made[|made| - 1].time)
    ensures AreNames(made, names + [name], |made| - 1 - |names|)
  {
  }

  lemma LastNamesEnd(made: seq<Backup>, keep: nat, names: seq<string>)
    requires (forall b | b in made :: |b.time| == |LAYOUT|) && names == LastNames(made, keep)
    ensures AreNames(made, names, |made| - |names|)
  {
  }
}
