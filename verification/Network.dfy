/**
  The network rates of the agent (internal/collector/network.go). Counters are those of /proc/net/dev, already
  split into lines; seconds are real numbers and byte totals unbounded.
 */
module Network {
  import opened Ordering
  import opened HubDb

  datatype Counter = Counter(rx: nat, tx: nat)

  datatype Direction = Received | Transmitted

  /** A line without a colon, or the name before the colon with its two counters; None when they do not parse. */
  datatype Line = Heading | Row(name: string, counter: Option<Counter>)

  type Counters = map<string, Counter>

  datatype Report = Report(selectedScope: bool, interfaces: seq<string>, missing: seq<string>, rateUnavailable: bool,
                           receivedBytes: int, transmittedBytes: int, receivedRate: real, sentRate: real)

  const LOOPBACK: string := "lo"

  function Read(c: Counter, way: Direction): nat {
    match way
    case Received => c.rx
    case Transmitted => c.tx
  }

  function TotalOf(r: Report, way: Direction): int {
    match way
    case Received => r.receivedBytes
    case Transmitted => r.transmittedBytes
  }

  function RateOf(r: Report, way: Direction): real {
    match way
    case Received => r.receivedRate
    case Transmitted => r.sentRate
  }

  predicate InScope(name: string, selected: seq<string>) {
    name != LOOPBACK && (|selected| == 0 || name in selected)
  }

  // ---- What the lines say ----

  /** The counters of the interfaces in scope, or None when one of them does not parse. */
  function Parse(lines: seq<Line>, selected: seq<string>): Option<Counters> {
    if |lines| == 0 then Some(map[])
    else
      var init, last := Parse(lines[..|lines| - 1], selected), lines[|lines| - 1];
      if init.None? || last.Heading? || !InScope(last.name, selected) then init
      else if last.counter.None? then None
      else Some(init.value[last.name := last.counter.value])
  }

  /** A line for an interface in scope. */
  predicate Counts(l: Line, selected: seq<string>) {
    l.Row? && InScope(l.name, selected)
  }

  /** Reading fails exactly on an unreadable line in scope; otherwise it finds the interfaces in scope. */
  lemma {:induction false} ParseMeans(lines: seq<Line>, selected: seq<string>)
    ensures Parse(lines, selected).Some? <==>
            forall l | l in lines && l.Row? && l.name != "lo" && (selected == [] || l.name in selected) ::
              l.counter.Some?
    ensures Parse(lines, selected).Some? ==>
              forall name :: name in Parse(lines, selected).value <==>
                name != "lo" && (selected == [] || name in selected) && HasLine(lines, name)
  {
    ParseCounts(lines, selected);
    forall name
      ensures Listed(lines, name, selected) <==> InScope(name, selected) && HasLine(lines, name)
    {
    }
  }

  ghost predicate HasLine(lines: seq<Line>, name: string) {
    exists l | l in lines :: l.Row? && l.name == name
  }

  lemma {:induction false} ParseCounts(lines: seq<Line>, selected: seq<string>)
    ensures Parse(lines, selected).Some? <==> forall l | l in lines && Counts(l, selected) :: l.counter.Some?
    ensures Parse(lines, selected).Some? ==>
              forall name :: name in Parse(lines, selected).value <==> Listed(lines, name, selected)
  {
    if |lines| > 0 {
      var init, last := lines[..|lines| - 1], lines[|lines| - 1];
      ParseCounts(init, selected);
      assert lines == init + [last];
      forall name
        ensures Listed(lines, name, selected) <==>
                Listed(init, name, selected) || (Counts(last, selected) && last.name == name)
      {
        assert last in lines && forall l | l in lines :: l == last || l in init;
      }
    }
  }

  /** Of several lines for an interface the last one counts. */
  lemma {:induction false} LastLineCounts(lines: seq<Line>, selected: seq<string>, i: int)
    requires Parse(lines, selected).Some? && IsLast(lines, i, selected)
    ensures lines[i].name in Parse(lines, selected).value
    ensures Some(Parse(lines, selected).value[lines[i].name]) == lines[i].counter
  {
    var n := |lines| - 1;
    if i < n {
      assert IsLast(lines[..n], i, selected);
      LastLineCounts(lines[..n], selected, i);
    }
  }

  ghost predicate Listed(lines: seq<Line>, name: string, selected: seq<string>) {
    exists l | l in lines :: Counts(l, selected) && l.name == name
  }

  /** No later line in scope has the same name. */
  ghost predicate IsLast(lines: seq<Line>, i: int, selected: seq<string>) {
    && 0 <= i < |lines| && Counts(lines[i], selected)
    && forall j | i < j < |lines| :: Counts(lines[j], selected) ==> lines[j].name != lines[i].name
  }

  /** The selected interfaces that have no counters, in order. */
  function Missing(selected: seq<string>, counters: Counters): seq<string> {
    if |selected| == 0 then []
    else
      var init, last := Missing(selected[..|selected| - 1], counters), selected[|selected| - 1];
      if last in counters then init else init + [last]
  }

  lemma {:induction false} NoneMissing(selected: seq<string>, counters: Counters)
    ensures Missing(selected, counters) == [] <==> forall name | name in selected :: name in counters
  {
    if |selected| > 0 {
      var init, last := selected[..|selected| - 1], selected[|selected| - 1];
      NoneMissing(init, counters);
      assert selected == init + [last];
    }
  }

  /** They are the selected ones without counters. */
  lemma {:induction false} MissingMeans(selected: seq<string>, counters: Counters)
    ensures forall name :: name in Missing(selected, counters) <==> name in selected && name !in counters
  {
    if |selected| > 0 {
      var n := |selected| - 1;
      MissingMeans(selected[..n], counters);
      assert selected == selected[..n] + [selected[n]];
    }
  }

  lemma {:induction false} MissingSorted(selected: seq<string>, counters: Counters)
    requires Sorted(StringLeq, selected)
    ensures Sorted(StringLeq, Missing(selected, counters))
  {
    if |selected| > 0 {
      var n := |selected| - 1;
      var init := Missing(selected[..n], counters);
      MissingSorted(selected[..n], counters);
      MissingMeans(selected[..n], counters);
      forall name | name in init
        ensures StringLeq(name, selected[n])
      {
        var i :| 0 <= i < n && selected[..n][i] == name;
      }
      SortedSnoc(init, selected[n]);
    }
  }

  lemma SortedSnoc(names: seq<string>, last: string)
    requires Sorted(StringLeq, names) && forall name | name in names :: StringLeq(name, last)
    ensures Sorted(StringLeq, names + [last])
  {
  }

  // ---- Sums over interfaces, in whatever order the map is read ----

  /** The amounts of all names together. */
  ghost function Total(amounts: map<string, int>): int
    decreases |amounts|
  {
    if amounts == map[] then 0
    else
      var name :| name in amounts;
      amounts[name] + Total(amounts - {name})
  }

  lemma {:induction false} TotalAdd(amounts: map<string, int>, name: string)
    requires name in amounts
    ensures Total(amounts) == amounts[name] + Total(amounts - {name})
    decreases |amounts|
  {
    var first :| first in amounts && Total(amounts) == amounts[first] + Total(amounts - {first});
    if first != name {
      TotalAdd(amounts - {first}, name);
      TotalAdd(amounts - {name}, first);
      assert amounts - {first} - {name} == amounts - {name} - {first};
    }
  }

  /** What an interface adds to a total: its counter. */
  ghost function Bytes(counters: Counters, names: set<string>, way: Direction): int
    requires names <= counters.Keys
  {
    if names == {} then 0
    else
      var name :| name in names;
      Read(counters[name], way) + Bytes(counters, names - {name}, way)
  }

  lemma {:induction false} BytesAdd(counters: Counters, names: set<string>, name: string, way: Direction)
    requires names <= counters.Keys && name in names
    ensures Bytes(counters, names, way) == Read(counters[name], way) + Bytes(counters, names - {name}, way)
    decreases names
  {
    var first :| first in names && Bytes(counters, names, way) ==
                                   Read(counters[first], way) + Bytes(counters, names - {first}, way);
    if first != name {
      BytesAdd(counters, names - {first}, name, way);
      BytesAdd(counters, names - {name}, first, way);
      assert names - {first} - {name} == names - {name} - {first};
    }
  }

  /** The interface has a baseline and neither of its counters went back. */
  predicate Comparable(previous: Counters, counters: Counters, name: string) {
    && name in previous && name in counters
    && previous[name].rx <= counters[name].rx && previous[name].tx <= counters[name].tx
  }

  function Delta(previous: Counters, counters: Counters, name: string, way: Direction): int
    requires name in counters
  {
    if Comparable(previous, counters, name) then Read(counters[name], way) - Read(previous[name], way) else 0
  }

  ghost function Growth(previous: Counters, counters: Counters, names: set<string>, way: Direction): int
    requires names <= counters.Keys
  {
    if names == {} then 0
    else
      var name :| name in names;
      Delta(previous, counters, name, way) + Growth(previous, counters, names - {name}, way)
  }

  lemma {:induction false} GrowthAdd(previous: Counters, counters: Counters, names: set<string>, name: string,
                                     way: Direction)
    requires names <= counters.Keys && name in names
    ensures Growth(previous, counters, names, way) ==
            Delta(previous, counters, name, way) + Growth(previous, counters, names - {name}, way)
    decreases names
  {
    var first :| first in names && Growth(previous, counters, names, way) ==
                                   Delta(previous, counters, first, way) +
                                   Growth(previous, counters, names - {first}, way);
    if first != name {
      GrowthAdd(previous, counters, names - {first}, name, way);
      GrowthAdd(previous, counters, names - {name}, first, way);
      assert names - {first} - {name} == names - {name} - {first};
    }
  }

  /** Where every interface is comparable, the growth is the difference of the totals. */
  lemma {:induction false} GrowthIsDifference(previous: Counters, counters: Counters, names: set<string>,
                                              way: Direction)
    requires forall name | name in names :: Comparable(previous, counters, name)
    ensures names <= counters.Keys && names <= previous.Keys
    ensures Growth(previous, counters, names, way) == Bytes(counters, names, way) - Bytes(previous, names, way)
    decreases names
  {
    if names != {} {
      var name :| name in names;
      GrowthAdd(previous, counters, names, name, way);
      BytesAdd(counters, names, name, way);
      BytesAdd(previous, names, name, way);
      GrowthIsDifference(previous, counters, names - {name}, way);
    }
  }

  /** What is missing from previous has no baseline. */
  function Base(previous: Option<Counters>): Counters {
    if previous.None? then map[] else previous.value
  }

  // ---- One sample ----

  /** The rates are over the same non-empty set of interfaces, time advanced and no counter went back. */
  ghost predicate Available(selected: seq<string>, previous: Option<Counters>, at: int, counters: Counters, now: int) {
    && counters.Keys != {}
    && (forall name | name in selected :: name in counters)
    && now > at
    && previous.Some? && previous.value.Keys == counters.Keys
    && forall name | name in counters :: Comparable(previous.value, counters, name)
  }

  /** Seconds between two times in nanoseconds. */
  function Seconds(from: int, to: int): real {
    (to - from) as real / 1_000_000_000.0
  }

  /** Bytes moved at a rate between two times. */
  function Moved(rate: real, from: int, to: int): real {
    rate * Seconds(from, to)
  }

  /** The rate explains the growth, or is 0 where time did not advance. */
  predicate Explains(rate: real, from: int, to: int, growth: int) {
    if to > from then Moved(rate, from, to) == growth as real else rate == 0.0
  }

  /** The total and the rate of one direction, over some of the interfaces. */
  ghost predicate SumsUp(r: Report, way: Direction, previous: Counters, at: int, counters: Counters, now: int,
                         names: set<string>)
    requires names <= counters.Keys
  {
    && TotalOf(r, way) == Bytes(counters, names, way)
    && Explains(RateOf(r, way), at, now, Growth(previous, counters, names, way))
  }

  /** What a successful sample reports. */
  ghost predicate Reports(r: Report, selected: seq<string>, previous: Option<Counters>, at: int,
                          counters: Counters, now: int) {
    && r.selectedScope == (|selected| > 0)
    && multiset(r.interfaces) == multiset(counters.Keys) && Sorted(StringLeq, r.interfaces)
    && r.missing == Missing(selected, counters)
    && (r.rateUnavailable <==> !Available(selected, previous, at, counters, now))
    && r.receivedBytes == Total(map name | name in counters :: counters[name].rx)
    && r.transmittedBytes == Total(map name | name in counters :: counters[name].tx)
    && Explains(r.receivedRate, at, now,
                Total(map name | name in counters && Comparable(Base(previous), counters, name) ::
                        counters[name].rx - Base(previous)[name].rx))
    && Explains(r.sentRate, at, now,
                Total(map name | name in counters && Comparable(Base(previous), counters, name) ::
                        counters[name].tx - Base(previous)[name].tx))
  }

  /** The sums of one direction are sums of its amounts. */
  lemma {:induction false} BytesAreTotal(counters: Counters, names: set<string>, way: Direction,
                                         amounts: map<string, int>)
    requires names <= counters.Keys && amounts.Keys == names
    requires forall name | name in names :: amounts[name] == Read(counters[name], way)
    ensures Bytes(counters, names, way) == Total(amounts)
    decreases names
  {
    if names == {} {
      assert amounts == map[];
    } else {
      var name :| name in names;
      BytesAdd(counters, names, name, way);
      TotalAdd(amounts, name);
      BytesAreTotal(counters, names - {name}, way, amounts - {name});
    }
  }

  /** Likewise for the growth; interfaces that cannot be compared add nothing. */
  lemma {:induction false} GrowthIsTotal(previous: Counters, counters: Counters, names: set<string>, way: Direction,
                                         amounts: map<string, int>)
    requires names <= counters.Keys && amounts.Keys <= names
    requires forall name | name in names :: name in amounts <==> Comparable(previous, counters, name)
    requires forall name | name in amounts :: amounts[name] == Delta(previous, counters, name, way)
    ensures Growth(previous, counters, names, way) == Total(amounts)
    decreases names
  {
    if names == {} {
      assert amounts == map[];
    } else {
      var name :| name in names;
      GrowthAdd(previous, counters, names, name, way);
      if name in amounts {
        TotalAdd(amounts, name);
        GrowthIsTotal(previous, counters, names - {name}, way, amounts - {name});
      } else {
        GrowthIsTotal(previous, counters, names - {name}, way, amounts);
      }
    }
  }

  /** The totals and rates of a report, direction by direction. */
  lemma SumsAreTotals(previous: Counters, counters: Counters)
    ensures Bytes(counters, counters.Keys, Received) == Total(map name | name in counters :: counters[name].rx)
    ensures Bytes(counters, counters.Keys, Transmitted) == Total(map name | name in counters :: counters[name].tx)
    ensures Growth(previous, counters, counters.Keys, Received) ==
            Total(map name | name in counters && Comparable(previous, counters, name) ::
                    counters[name].rx - previous[name].rx)
    ensures Growth(previous, counters, counters.Keys, Transmitted) ==
            Total(map name | name in counters && Comparable(previous, counters, name) ::
                    counters[name].tx - previous[name].tx)
  {
    BytesAreTotal(counters, counters.Keys, Received, map name | name in counters :: counters[name].rx);
    BytesAreTotal(counters, counters.Keys, Transmitted, map name | name in counters :: counters[name].tx);
    GrowthIsTotal(previous, counters, counters.Keys, Received,
                  map name | name in counters && Comparable(previous, counters, name) ::
                    counters[name].rx - previous[name].rx);
    GrowthIsTotal(previous, counters, counters.Keys, Transmitted,
                  map name | name in counters && Comparable(previous, counters, name) ::
                    counters[name].tx - previous[name].tx);
  }

  /** A report sums up both directions. */
  lemma ReportSumsUp(r: Report, selected: seq<string>, previous: Option<Counters>, at: int, counters: Counters,
                     now: int, way: Direction)
    requires Reports(r, selected, previous, at, counters, now)
    ensures SumsUp(r, way, Base(previous), at, counters, now, counters.Keys)
  {
    SumsAreTotals(Base(previous), counters);
    match way
    case Received =>
    case Transmitted =>
  }

  // ---- The state of the collector ----

  /** One more interface joins the sums of one direction. */
  lemma SumsUpNext(r: Report, s: Report, way: Direction, previous: Counters, at: int, counters: Counters, now: int,
                   done: set<string>, name: string)
    requires done <= counters.Keys && name in counters.Keys - done
    requires SumsUp(r, way, previous, at, counters, now, done)
    requires TotalOf(s, way) == TotalOf(r, way) + Read(counters[name], way)
    requires RateOf(s, way) == RateOf(r, way) + Share(Delta(previous, counters, name, way), at, now)
    ensures SumsUp(s, way, previous, at, counters, now, done + {name})
  {
    assert done + {name} - {name} == done;
    BytesAdd(counters, done + {name}, name, way);
    GrowthAdd(previous, counters, done + {name}, name, way);
    ExplainsNext(RateOf(r, way), at, now, Growth(previous, counters, done, way), Delta(previous, counters, name, way));
  }

  /** Two sets make up a third. */
  ghost predicate Halves(all: set<string>, done: set<string>, left: set<string>) {
    done <= all && left <= all && done !! left && forall name | name in all :: name in done || name in left
  }

  lemma HalvesNext(all: set<string>, done: set<string>, left: set<string>, name: string)
    requires Halves(all, done, left) && name in left
    ensures Halves(all, done + {name}, left - {name})
  {
  }

  /** The loop over the interfaces has done some of them. */
  ghost predicate Progress(r: Report, flag: bool, previous: Counters, at: int, counters: Counters, now: int,
                           done: set<string>)
    requires done <= counters.Keys
  {
    && multiset(r.interfaces) == multiset(done)
    && SumsUp(r, Received, previous, at, counters, now, done)
    && SumsUp(r, Transmitted, previous, at, counters, now, done)
    && (r.rateUnavailable <==> flag || exists name | name in done :: !Comparable(previous, counters, name))
  }

  lemma ProgressNext(r: Report, s: Report, flag: bool, previous: Counters, at: int, counters: Counters, now: int,
                     done: set<string>, name: string)
    requires done <= counters.Keys && name in counters.Keys - done
    requires Progress(r, flag, previous, at, counters, now, done)
    requires s.interfaces == r.interfaces + [name]
    requires now <= at ==> flag
    requires s.rateUnavailable <==> r.rateUnavailable || now <= at || !Comparable(previous, counters, name)
    requires forall way :: TotalOf(s, way) == TotalOf(r, way) + Read(counters[name], way)
    requires forall way :: RateOf(s, way) == RateOf(r, way) + Share(Delta(previous, counters, name, way), at, now)
    ensures Progress(s, flag, previous, at, counters, now, done + {name})
  {
    SumsUpNext(r, s, Received, previous, at, counters, now, done, name);
    SumsUpNext(r, s, Transmitted, previous, at, counters, now, done, name);
  }

  /** What a growth adds to a rate. */
  function Share(growth: int, from: int, to: int): real {
    if to > from then growth as real / Seconds(from, to) else 0.0
  }

  lemma ExplainsNext(rate: real, from: int, to: int, growth: int, more: int)
    requires Explains(rate, from, to, growth)
    ensures Explains(rate + Share(more, from, to), from, to, growth + more)
  {
    if to > from {
      AddQuotient(rate, more as real, Seconds(from, to));
    }
  }

  lemma AddQuotient(rate: real, more: real, seconds: real)
    requires seconds > 0.0
    ensures (rate + more / seconds) * seconds == rate * seconds + more
  {
  }

  lemma ShareOfNothing(from: int, to: int)
    ensures Share(0, from, to) == 0.0
  {
  }

  lemma ExplainsNothing(from: int, to: int)
    ensures Explains(0.0, from, to, 0)
  {
  }

  /** Testing for equal sizes and for a baseline of each interface is testing for equal interface sets. */
  lemma AvailableMeans(selected: seq<string>, previous: Option<Counters>, at: int, counters: Counters, now: int)
    ensures Available(selected, previous, at, counters, now) <==>
            && |counters| != 0 && Missing(selected, counters) == [] && now > at
            && previous.Some? && |previous.value| == |counters|
            && forall name | name in counters.Keys :: Comparable(Base(previous), counters, name)
  {
    NoneMissing(selected, counters);
    if previous.Some? && |previous.value| == |counters| &&
       forall name | name in counters.Keys :: name in previous.value {
      SameSizeSameKeys(counters.Keys, previous.value.Keys);
    }
  }

  /** Maps of equal size, one within the other, have the same keys. */
  lemma SameSizeSameKeys(a: set<string>, b: set<string>)
    requires a <= b && |a| == |b|
    ensures a == b
  {
    if a != b {
      var x :| x in b && x !in a;
      assert a <= b - {x};
      SubsetSize(a, b - {x});
    }
  }

  class NetworkState {
    const selected: seq<string>
    var previous: Option<Counters>
    var at: int

    constructor (selected: seq<string>)
      ensures this.selected == selected && previous == None && at == 0
    {
      this.selected := selected;
      previous := None;
      at := 0;
    }

    /** Reads the counters of the interfaces in scope. */
    method ReadLines(lines: seq<Line>) returns (counters: Option<Counters>)
      ensures counters == Parse(lines, selected)
    {
      var read: Counters := map[];
      for n := 0 to |lines|
        invariant Parse(lines[..n], selected) == Some(read)
      {
        assert lines[..n + 1][..n] == lines[..n];
        if lines[n].Heading? || lines[n].name == LOOPBACK {
          continue;
        }
        if |selected| > 0 {
          var found := false;
          for i := 0 to |selected|
            invariant found <==> lines[n].name in selected[..i]
          {
            if selected[i] == lines[n].name {
              found := true;
            }
          }
          assert selected[..|selected|] == selected;
          if !found {
            continue;
          }
        }
        if lines[n].counter.None? {
          ParseStops(lines, n + 1, selected);
          return None;
        }
        read := read[lines[n].name := lines[n].counter.value];
      }
      assert lines[..|lines|] == lines;
      counters := Some(read);
    }

    method ListMissing(counters: Counters) returns (missing: seq<string>)
      ensures missing == Missing(selected, counters)
    {
      missing := [];
      for n := 0 to |selected|
        invariant missing == Missing(selected[..n], counters)
      {
        assert selected[..n + 1][..n] == selected[..n];
        if selected[n] !in counters {
          missing := missing + [selected[n]];
        }
      }
      assert selected[..|selected|] == selected;
    }

    /** Adds one interface to totals and rates; a reset in either direction adds nothing to the rates. */
    method AddInterface(r: Report, current: Counter, base: Counters, ghost counters: Counters, name: string, now: int)
      returns (s: Report)
      requires name in counters && counters[name] == current
      ensures s.interfaces == r.interfaces + [name] && s.missing == r.missing && s.selectedScope == r.selectedScope
      ensures s.rateUnavailable <==> r.rateUnavailable || now <= at || !Comparable(base, counters, name)
      ensures forall way :: TotalOf(s, way) == TotalOf(r, way) + Read(current, way)
      ensures forall way :: RateOf(s, way) == RateOf(r, way) + Share(Delta(base, counters, name, way), at, now)
    {
      var received, sent, lost := 0.0, 0.0, true;
      if name in base && now > at {
        if current.rx >= base[name].rx && current.tx >= base[name].tx {
          lost := false;
          received := Share(current.rx - base[name].rx, at, now);
          sent := Share(current.tx - base[name].tx, at, now);
        }
      }
      ShareOfNothing(at, now);
      s := Report(r.selectedScope, r.interfaces + [name], r.missing, r.rateUnavailable || lost,
                  r.receivedBytes + current.rx, r.transmittedBytes + current.tx,
                  r.receivedRate + received, r.sentRate + sent);
    }

    /** Adds up totals and rates, interface by interface, in whatever order. */
    method SumInterfaces(start: Report, counters: Counters, base: Counters, now: int) returns (r: Report)
      requires start.interfaces == [] && start.receivedBytes == start.transmittedBytes == 0
      requires start.receivedRate == start.sentRate == 0.0 && (now <= at ==> start.rateUnavailable)
      ensures r.selectedScope == start.selectedScope && r.missing == start.missing
      ensures Progress(r, start.rateUnavailable, base, at, counters, now, counters.Keys)
    {
      r := start;
      ExplainsNothing(at, now);
      var left := counters.Keys;
      ghost var done: set<string> := {};
      while left != {}
        invariant r.selectedScope == start.selectedScope && r.missing == start.missing
        invariant Halves(counters.Keys, done, left)
        invariant Progress(r, start.rateUnavailable, base, at, counters, now, done)
        decreases left
      {
        var name :| name in left;
        var s := AddInterface(r, counters[name], base, counters, name, now);
        ProgressNext(r, s, start.rateUnavailable, base, at, counters, now, done, name);
        HalvesNext(counters.Keys, done, left, name);
        r, done, left := s, done + {name}, left - {name};
      }
      assert done == counters.Keys;
    }

    /** The report on the counters read. */
    method Summarize(counters: Counters, now: int, missing: seq<string>) returns (r: Report)
      requires missing == Missing(selected, counters)
      ensures Reports(r, selected, previous, at, counters, now)
    {
      var base := Base(previous);
      var flag := |counters| == 0 || |missing| > 0 || now <= at || previous.None? || |base| != |counters|;
      r := SumInterfaces(Report(|selected| > 0, [], missing, flag, 0, 0, 0.0, 0.0), counters, base, now);
      AvailableMeans(selected, previous, at, counters, now);
      SumsAreTotals(base, counters);
      StringOrder();
      var sorted := SortSlice(StringLeq, r.interfaces);
      r := r.(interfaces := sorted);
    }

    /** One reading of the counters. */
    method Sample(lines: seq<Line>, now: int) returns (r: Option<Report>)
      modifies this
      ensures Sampled(selected, old(previous), old(at), lines, now, previous, at, r)
    {
      var counters := ReadLines(lines);
      if counters.None? {
        previous := None;
        return None;
      }
      var missing := ListMissing(counters.value);
      var report := Summarize(counters.value, now, missing);
      previous := counters;
      at := now;
      r := Some(report);
    }
  }

  /** An unreadable line in scope settles the outcome. */
  lemma {:induction false} ParseStops(lines: seq<Line>, n: nat, selected: seq<string>)
    requires n <= |lines| && Parse(lines[..n], selected).None?
    ensures Parse(lines, selected).None?
    decreases |lines|
  {
    if n < |lines| {
      assert lines[..|lines| - 1][..n] == lines[..n];
      ParseStops(lines[..|lines| - 1], n, selected);
    } else {
      assert lines[..n] == lines;
    }
  }

  /** One sample: what it reports and which baseline it leaves. */
  ghost predicate Sampled(selected: seq<string>, previous: Option<Counters>, at: int, lines: seq<Line>, now: int,
                          previous': Option<Counters>, at': int, r: Option<Report>)
  {
    var counters := Parse(lines, selected);
    && (r.Some? <==> counters.Some?)
    && previous' == counters
    && at' == (if counters.Some? then now else at)
    && (counters.Some? ==> Reports(r.value, selected, previous, at, counters.value, now))
  }

  // ---- Runs of samples ----

  datatype Sampling = Sampling(lines: seq<Line>, now: int, previous: Option<Counters>, at: int,
                               previous': Option<Counters>, at': int, report: Option<Report>)

  /** Samples taken one after the other by the same collector. */
  ghost predicate Run(selected: seq<string>, run: seq<Sampling>) {
    && (forall i | 0 <= i < |run| :: IsSample(selected, run[i]))
    && (forall i | 0 < i < |run| :: Follows(run[i - 1], run[i]))
  }

  ghost predicate IsSample(selected: seq<string>, s: Sampling) {
    Sampled(selected, s.previous, s.at, s.lines, s.now, s.previous', s.at', s.report)
  }

  ghost predicate Follows(before: Sampling, s: Sampling) {
    s.previous == before.previous' && s.at == before.at'
  }

  predicate HasRates(s: Sampling) {
    s.report.Some? && !s.report.value.rateUnavailable
  }

  /** Rate times elapsed time, summed over all samples but the first. */
  ghost function Transferred(run: seq<Sampling>, way: Direction): real {
    if |run| <= 1 then 0.0
    else
      var init, last := run[..|run| - 1], run[|run| - 1];
      Transferred(init, way) +
      if last.report.Some? then Moved(RateOf(last.report.value, way), last.at, last.now) else 0.0
  }

  /** The rates of a sample account for exactly the bytes since the sample before it. */
  lemma RateTimesElapsed(selected: seq<string>, before: Sampling, s: Sampling, way: Direction)
    requires IsSample(selected, before) && IsSample(selected, s) && Follows(before, s) && HasRates(s)
    ensures before.report.Some? && s.at == before.now < s.now
    ensures Moved(RateOf(s.report.value, way), s.at, s.now) ==
            (TotalOf(s.report.value, way) - TotalOf(before.report.value, way)) as real
    ensures before.report.value.interfaces == s.report.value.interfaces && s.report.value.missing == []
    ensures TotalOf(s.report.value, way) >= TotalOf(before.report.value, way)
  {
    var was, present := before.previous'.value, s.previous'.value;
    assert Available(selected, Some(was), s.at, present, s.now);
    ReportSumsUp(before.report.value, selected, before.previous, before.at, was, before.now, way);
    ReportSumsUp(s.report.value, selected, s.previous, s.at, present, s.now, way);
    GrowthIsDifference(was, present, present.Keys, way);
    GrowthIsPositive(was, present, present.Keys, way);
    NoneMissing(selected, present);
    SortedNames(before.report.value.interfaces, s.report.value.interfaces);
  }

  lemma {:induction false} GrowthIsPositive(previous: Counters, counters: Counters, names: set<string>, way: Direction)
    requires names <= counters.Keys
    ensures Growth(previous, counters, names, way) >= 0
    decreases names
  {
    if names != {} {
      var name :| name in names;
      GrowthAdd(previous, counters, names, name, way);
      GrowthIsPositive(previous, counters, names - {name}, way);
      assert way == Received || way == Transmitted;
    }
  }

  /** The interfaces are listed in one order only. */
  lemma SortedNames(a: seq<string>, b: seq<string>)
    requires Sorted(StringLeq, a) && Sorted(StringLeq, b) && multiset(a) == multiset(b)
    ensures a == b
  {
    forall i, j | 0 <= i < |a| && 0 <= j < |a| && StringLeq(a[i], a[j]) && StringLeq(a[j], a[i])
      ensures a[i] == a[j]
    {
      StringLeqTotal(a[i], a[j]);
    }
    SortedIsUnique(StringLeq, a, b);
  }

  /** The later sample's rate accounts for what lies between the two, over the same interfaces. */
  ghost predicate Accounts(before: Sampling, s: Sampling, way: Direction) {
    && before.report.Some? && s.report.Some? && before.report.value.interfaces == s.report.value.interfaces
    && Moved(RateOf(s.report.value, way), s.at, s.now) ==
       (TotalOf(s.report.value, way) - TotalOf(before.report.value, way)) as real
  }

  ghost predicate Steady(run: seq<Sampling>, way: Direction) {
    forall i | 0 < i < |run| :: Accounts(run[i - 1], run[i], way)
  }

  lemma RunIsSteady(selected: seq<string>, run: seq<Sampling>, way: Direction)
    requires Run(selected, run) && forall i | 0 < i < |run| :: HasRates(run[i])
    ensures Steady(run, way)
  {
    forall i | 0 < i < |run|
      ensures Accounts(run[i - 1], run[i], way)
    {
      assert Follows(run[i - 1], run[i]);
      RateTimesElapsed(selected, run[i - 1], run[i], way);
    }
  }

  lemma {:induction false} SteadyAddsUp(run: seq<Sampling>, way: Direction)
    requires |run| > 1 && Steady(run, way)
    ensures run[0].report.Some? && Accounts(run[|run| - 2], run[|run| - 1], way)
    ensures Transferred(run, way) ==
            (TotalOf(run[|run| - 1].report.value, way) - TotalOf(run[0].report.value, way)) as real
    ensures run[0].report.value.interfaces == run[|run| - 1].report.value.interfaces
    decreases |run|
  {
    var n := |run| - 1;
    assert Accounts(run[n - 1], run[n], way);
    TransferredNext(run, way);
    if n > 1 {
      SteadyAddsUp(run[..n], way);
    }
  }

  /** Over a run of samples with rates, rate times time adds up to the growth of the totals, in each direction. */
  lemma Conservation(selected: seq<string>, run: seq<Sampling>, way: Direction)
    requires |run| > 1 && Run(selected, run)
    requires forall i | 0 < i < |run| :: HasRates(run[i])
    ensures run[0].report.Some? && run[|run| - 1].report.Some?
    ensures Transferred(run, way) ==
            (TotalOf(run[|run| - 1].report.value, way) - TotalOf(run[0].report.value, way)) as real
    ensures run[0].report.value.interfaces == run[|run| - 1].report.value.interfaces
  {
    RunIsSteady(selected, run, way);
    SteadyAddsUp(run, way);
  }

  lemma TransferredNext(run: seq<Sampling>, way: Direction)
    requires |run| > 1 && run[|run| - 1].report.Some?
    ensures var last := run[|run| - 1];
            Transferred(run, way) ==
            Transferred(run[..|run| - 1], way) + Moved(RateOf(last.report.value, way), last.at, last.now)
    ensures |run| == 2 ==> Transferred(run[..1], way) == 0.0
  {
  }

  /** Received rate times elapsed time, summed over all samples but the first. */
  ghost function ReceivedAlong(run: seq<Sampling>): real {
    if |run| <= 1 then 0.0
    else
      var last := run[|run| - 1];
      ReceivedAlong(run[..|run| - 1]) +
      if last.report.Some? then last.report.value.receivedRate * ((last.now - last.at) as real / 1_000_000_000.0)
      else 0.0
  }

  /** Sent rate times elapsed time, summed over all samples but the first. */
  ghost function SentAlong(run: seq<Sampling>): real {
    if |run| <= 1 then 0.0
    else
      var last := run[|run| - 1];
      SentAlong(run[..|run| - 1]) +
      if last.report.Some? then last.report.value.sentRate * ((last.now - last.at) as real / 1_000_000_000.0) else 0.0
  }

  lemma {:induction false} ReceivedIsTransferred(run: seq<Sampling>)
    ensures ReceivedAlong(run) == Transferred(run, Received)
  {
    if |run| > 1 {
      ReceivedIsTransferred(run[..|run| - 1]);
    }
  }

  lemma {:induction false} SentIsTransferred(run: seq<Sampling>)
    ensures SentAlong(run) == Transferred(run, Transmitted)
  {
    if |run| > 1 {
      SentIsTransferred(run[..|run| - 1]);
    }
  }

  lemma Conserved(selected: seq<string>, run: seq<Sampling>, way: Direction, moved: real)
    requires |run| > 1 && Run(selected, run) && forall i | 0 < i < |run| :: HasRates(run[i])
    requires moved == Transferred(run, way)
    ensures run[0].report.Some? && run[|run| - 1].report.Some?
    ensures moved == (TotalOf(run[|run| - 1].report.value, way) - TotalOf(run[0].report.value, way)) as real
  {
    Conservation(selected, run, way);
  }

  /** The received rates account for the growth of the received total. */
  lemma ReceivedIsConserved(selected: seq<string>, run: seq<Sampling>)
    requires |run| > 1 && Run(selected, run) && forall i | 0 < i < |run| :: HasRates(run[i])
    ensures run[0].report.Some? && run[|run| - 1].report.Some?
    ensures ReceivedAlong(run) ==
            (run[|run| - 1].report.value.receivedBytes - run[0].report.value.receivedBytes) as real
  {
    ReceivedIsTransferred(run);
    Conserved(selected, run, Received, ReceivedAlong(run));
  }

  /** The sent rates account for the growth of the transmitted total. */
  lemma SentIsConserved(selected: seq<string>, run: seq<Sampling>)
    requires |run| > 1 && Run(selected, run) && forall i | 0 < i < |run| :: HasRates(run[i])
    ensures run[0].report.Some? && run[|run| - 1].report.Some?
    ensures SentAlong(run) ==
            (run[|run| - 1].report.value.transmittedBytes - run[0].report.value.transmittedBytes) as real
  {
    SentIsTransferred(run);
    Conserved(selected, run, Transmitted, SentAlong(run));
  }

  /** After an unreadable sample the next one has no rates. */
  lemma FailureLosesBaseline(selected: seq<string>, run: seq<Sampling>, i: nat)
    requires Run(selected, run) && i + 1 < |run| && run[i].report.None?
    ensures !HasRates(run[i + 1])
  {
    assert Follows(run[i], run[i + 1]);
    if HasRates(run[i + 1]) {
      RateTimesElapsed(selected, run[i], run[i + 1], Received);
    }
  }
}
