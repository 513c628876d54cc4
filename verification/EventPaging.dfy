/** Reading the event log page by page while it changes (internal/hub/events.go). */
module EventPaging {
  import opened Snapshots
  import opened DiskCompare
  import opened HubDb
  import opened HubRuns

  const PAGE_SIZE: nat := 100

  /** The cursor of the first page: larger than any id. */
  const NO_CURSOR: int := 0x7FFF_FFFF_FFFF_FFFF

  /** Rows by ascending id, none above the highest id given. */
  ghost predicate Ordered(t: EventTable) {
    && (forall i, j | 0 <= i < j < |t.rows| :: t.rows[i].id < t.rows[j].id)
    && (forall e | e in t.rows :: 1 <= e.id <= t.lastId)
  }

  ghost predicate Matches(e: Event, agent: string, before: int) {
    e.agent == agent && e.id < before
  }

  ghost predicate Descending(page: seq<Event>) {
    forall i, j | 0 <= i < j < |page| :: page[i].id > page[j].id
  }

  /** What a page of a device's events below a cursor is; the next cursor is 0 when nothing is left. */
  ghost predicate IsPage(t: EventTable, agent: string, before: int, page: seq<Event>, cursor: nat) {
    && Descending(page)
    && (forall e | e in page :: e in t.rows && Matches(e, agent, before))
    && (cursor == 0 ==> |page| <= PAGE_SIZE && forall e | e in t.rows && Matches(e, agent, before) :: e in page)
    && (cursor != 0 ==> |page| == PAGE_SIZE && cursor == page[PAGE_SIZE - 1].id)
    && (cursor != 0 ==> forall e | e in t.rows && Matches(e, agent, before) :: e in page || e.id < cursor)
    && (cursor != 0 ==> exists e | e in t.rows :: Matches(e, agent, cursor))
  }

  /** The page handler: at most one row more than a page is fetched, newest first; the surplus row is cut off. */
  method ListEvents(t: EventTable, agent: string, before: int) returns (page: seq<Event>, cursor: nat)
    requires Ordered(t)
    ensures IsPage(t, agent, before, page, cursor)
  {
    page := [];
    var i := |t.rows|;
    while i > 0 && |page| < PAGE_SIZE + 1
      invariant 0 <= i <= |t.rows| && |page| <= PAGE_SIZE + 1
      invariant Descending(page)
      invariant forall e | e in page :: e in t.rows && Matches(e, agent, before)
      invariant page != [] ==> i < |t.rows|
      invariant forall e | e in page :: e.id >= t.rows[i].id
      invariant forall k | i <= k < |t.rows| && Matches(t.rows[k], agent, before) :: t.rows[k] in page
    {
      i := i - 1;
      if t.rows[i].agent == agent && t.rows[i].id < before {
        page := page + [t.rows[i]];
      }
    }
    cursor := 0;
    if |page| > PAGE_SIZE {
      CutPage(t, agent, before, page, i);
      page := page[..PAGE_SIZE];
      cursor := page[PAGE_SIZE - 1].id;
    }
  }

  lemma CutPage(t: EventTable, agent: string, before: int, page: seq<Event>, i: nat)
    requires Ordered(t) && |page| == PAGE_SIZE + 1 && i < |t.rows|
    requires Descending(page)
    requires forall e | e in page :: e in t.rows && Matches(e, agent, before) && e.id >= t.rows[i].id
    requires forall k | i <= k < |t.rows| && Matches(t.rows[k], agent, before) :: t.rows[k] in page
    ensures page[PAGE_SIZE - 1].id != 0
    ensures IsPage(t, agent, before, page[..PAGE_SIZE], page[PAGE_SIZE - 1].id)
  {
    var cut, cursor := page[..PAGE_SIZE], page[PAGE_SIZE - 1].id;
    assert page[PAGE_SIZE] in page && page[PAGE_SIZE - 1] in page;
    assert Matches(page[PAGE_SIZE], agent, cursor);
    forall e | e in t.rows && Matches(e, agent, before)
      ensures e in cut || e.id < cursor
    {
      var k :| 0 <= k < |t.rows| && t.rows[k] == e;
      if k >= i {
        var j :| 0 <= j < |page| && page[j] == e;
        assert j < PAGE_SIZE ==> cut[j] == e;
      }
    }
    assert forall e | e in cut :: e in page;
  }

  // ---- How the table may change between pages ----

  ghost predicate HasEvent(t: EventTable, agent: string, id: nat) {
    exists e :: e in t.rows && e.agent == agent && e.id == id
  }

  /** Events disappear, are acknowledged, or are added with ids above all given so far. */
  ghost predicate Evolves(a: EventTable, b: EventTable) {
    && a.lastId <= b.lastId
    && forall e | e in b.rows :: e.id > a.lastId || HasEvent(a, e.agent, e.id)
  }

  lemma OneEventEvolves(t: EventTable, agent: string, root: string, threshold: int, a: Alert)
    requires Ordered(t)
    ensures Ordered(AddEvent(t, agent, root, threshold, a)) && Evolves(t, AddEvent(t, agent, root, threshold, a))
  {
  }

  lemma {:induction false} AddingEvolves(t: EventTable, agent: string, root: string, threshold: int, alerts: seq<Alert>)
    requires Ordered(t)
    ensures Ordered(AddEvents(t, agent, root, threshold, alerts))
    ensures Evolves(t, AddEvents(t, agent, root, threshold, alerts))
  {
    if |alerts| > 0 {
      var n := |alerts| - 1;
      var mid := AddEvents(t, agent, root, threshold, alerts[..n]);
      AddingEvolves(t, agent, root, threshold, alerts[..n]);
      OneEventEvolves(mid, agent, root, threshold, alerts[n]);
      EvolvesTransitive(t, mid, AddEvent(mid, agent, root, threshold, alerts[n]));
    }
  }

  lemma {:induction false} RemovingKeepsOrder(rows: seq<Event>, gone: set<Event>, id: string)
    requires forall i, j | 0 <= i < j < |rows| :: rows[i].id < rows[j].id
    ensures forall i, j | 0 <= i < j < |EventsExcept(rows, gone)| ::
              EventsExcept(rows, gone)[i].id < EventsExcept(rows, gone)[j].id
    ensures forall i, j | 0 <= i < j < |EventsWithout(rows, id)| ::
              EventsWithout(rows, id)[i].id < EventsWithout(rows, id)[j].id
    ensures forall e | e in EventsExcept(rows, gone) :: e in rows
    ensures forall e | e in EventsWithout(rows, id) :: e in rows
  {
    if |rows| > 0 {
      var n := |rows| - 1;
      RemovingKeepsOrder(rows[..n], gone, id);
      forall e | e in EventsExcept(rows[..n], gone) || e in EventsWithout(rows[..n], id)
        ensures e.id < rows[n].id
      {
        assert e in rows[..n];
      }
    }
  }

  /** Fewer rows, in the same order. */
  lemma FewerRowsEvolve(t: EventTable, rows: seq<Event>)
    requires Ordered(t) && (forall e | e in rows :: e in t.rows)
    requires forall i, j | 0 <= i < j < |rows| :: rows[i].id < rows[j].id
    ensures Ordered(t.(rows := rows)) && Evolves(t, t.(rows := rows))
  {
  }

  lemma SavingEvolves(db: Db, snap: Snapshot, threshold: int)
    requires Ordered(db.events)
    ensures Ordered(SaveDiskEvents(db, snap, threshold).events)
    ensures Evolves(db.events, SaveDiskEvents(db, snap, threshold).events)
  {
    var previous := Latest(db.snapshots, snap.agent, snap.root);
    AddingEvolves(db.events, snap.agent, snap.root, threshold, Growth(previous, snap, threshold));
    Unchanged(db.events);
  }

  lemma Unchanged(t: EventTable)
    ensures Evolves(t, t)
  {
  }

  /** Whatever the hub does next, its event table stays ordered and evolves. */
  lemma StepEvolves(s: Sys, a: Action, shared: string)
    requires Ordered(s.db.events)
    ensures Ordered(Step(s, a, shared).db.events)
    ensures Evolves(s.db.events, Step(s, a, shared).db.events)
  {
    var t := s.db.events;
    if a.Deletion? {
      DeletionEvolves(s.db, a.id);
    } else if a.Cleanup? {
      RemovingKeepsOrder(t.rows, a.events, "");
      FewerRowsEvolve(t, EventsExcept(t.rows, a.events));
    } else if a.Write? && a.request in s.inflight && a.request.Upload? {
      SavingEvolves(s.db, a.request.snap, a.threshold);
    } else {
      OtherStepsKeepHistory(s, a, shared);
      Unchanged(t);
    }
  }

  lemma DeletionEvolves(db: Db, id: string)
    requires Ordered(db.events)
    ensures Ordered(Delete(db, id).events) && Evolves(db.events, Delete(db, id).events)
  {
    RemovingKeepsOrder(db.events.rows, {}, id);
    FewerRowsEvolve(db.events, EventsWithout(db.events.rows, id));
    Unchanged(db.events);
  }

  lemma EvolvesTransitive(a: EventTable, b: EventTable, c: EventTable)
    requires Evolves(a, b) && Evolves(b, c)
    ensures Evolves(a, c)
  {
    forall e | e in c.rows && e.id <= a.lastId
      ensures HasEvent(a, e.agent, e.id)
    {
      assert HasEvent(b, e.agent, e.id);
      var f :| f in b.rows && f.agent == e.agent && f.id == e.id;
    }
  }

  lemma {:induction false} RunEvolves(actions: seq<Action>, shared: string, n: nat, m: nat)
    requires n <= m <= |actions|
    ensures Ordered(After(actions[..n], shared).db.events) && Ordered(After(actions[..m], shared).db.events)
    ensures Evolves(After(actions[..n], shared).db.events, After(actions[..m], shared).db.events)
    decreases m
  {
    if m == 0 {
      assert actions[..0] == [];
    } else {
      RunEvolves(actions, shared, if n < m then n else n - 1, m - 1);
      AfterNext(actions, shared, m - 1);
      StepEvolves(After(actions[..m - 1], shared), actions[m - 1], shared);
      if n < m {
        EvolvesTransitive(After(actions[..n], shared).db.events, After(actions[..m - 1], shared).db.events,
                          After(actions[..m], shared).db.events);
      }
    }
  }

  // ---- A reading session ----

  /** The i-th page, read from the table of its moment, following the cursor of the page before. */
  ghost predicate PageAt(tables: seq<EventTable>, agent: string, pages: seq<seq<Event>>, cursors: seq<nat>, i: nat)
    requires |tables| == |pages| == |cursors| && i < |tables|
  {
    && Ordered(tables[i])
    && IsPage(tables[i], agent, Before(cursors, i), pages[i], cursors[i])
  }

  ghost function Before(cursors: seq<nat>, i: nat): int
    requires i <= |cursors|
  {
    if i == 0 then NO_CURSOR else cursors[i - 1]
  }

  /** Page after page until a cursor says that nothing is left. */
  ghost predicate Session(tables: seq<EventTable>, agent: string, pages: seq<seq<Event>>, cursors: seq<nat>) {
    && |tables| == |pages| == |cursors|
    && (forall i | 0 <= i < |tables| :: PageAt(tables, agent, pages, cursors, i))
    && (forall i | 0 <= i < |tables| - 1 :: cursors[i] != 0)
  }

  /** The events of the first n pages. */
  ghost function Read(pages: seq<seq<Event>>, n: nat): seq<Event>
    requires n <= |pages|
  {
    if n == 0 then [] else Read(pages, n - 1) + pages[n - 1]
  }

  lemma LastIsLeast(page: seq<Event>)
    requires Descending(page)
    ensures |page| > 0 ==> forall e | e in page :: e.id >= page[|page| - 1].id
  {
  }

  lemma JoinDescending(a: seq<Event>, b: seq<Event>, cursor: int)
    requires Descending(a) && Descending(b)
    requires (forall e | e in a :: e.id >= cursor) && forall e | e in b :: e.id < cursor
    ensures Descending(a + b)
  {
    forall i, j | 0 <= i < j < |a + b|
      ensures (a + b)[i].id > (a + b)[j].id
    {
      if i < |a| <= j {
        assert a[i] in a && b[j - |a|] in b;
      }
    }
  }

  /** Over all pages of a session ids strictly decrease: nothing is shown twice. */
  lemma {:induction false} SessionDescends(tables: seq<EventTable>, agent: string, pages: seq<seq<Event>>,
                                           cursors: seq<nat>, n: nat)
    requires Session(tables, agent, pages, cursors) && n <= |pages|
    ensures Descending(Read(pages, n))
    ensures n > 0 && cursors[n - 1] != 0 ==> forall e | e in Read(pages, n) :: e.id >= cursors[n - 1]
  {
    if n > 0 {
      SessionDescends(tables, agent, pages, cursors, n - 1);
      assert PageAt(tables, agent, pages, cursors, n - 1);
      NextPageDescends(tables[n - 1], agent, Read(pages, n - 1), if n > 1 then cursors[n - 2] else 0, pages[n - 1],
                       cursors[n - 1]);
    }
  }

  /** One more page below the cursor; 0 stands for the first page. */
  lemma NextPageDescends(t: EventTable, agent: string, before: seq<Event>, cursor: nat, page: seq<Event>, next: nat)
    requires IsPage(t, agent, if cursor == 0 then NO_CURSOR else cursor, page, next)
    requires Descending(before) && (if cursor == 0 then before == [] else forall e | e in before :: e.id >= cursor)
    ensures Descending(before + page)
    ensures next != 0 ==> forall e | e in before + page :: e.id >= next
  {
    LastIsLeast(page);
    if cursor == 0 {
      assert before + page == page;
    } else {
      JoinDescending(before, page, cursor);
      if next != 0 {
        assert page[PAGE_SIZE - 1] in page;
      }
    }
  }

  lemma {:induction false} DescendingSpan(page: seq<Event>)
    requires Descending(page) && |page| > 0
    ensures page[0].id >= page[|page| - 1].id + |page| - 1
  {
    if |page| > 1 {
      DescendingSpan(page[..|page| - 1]);
    }
  }

  /**
    A session ends: every page that is not the last uses up a hundred ids, so with N the highest id given when it
    began there are at most N / 100 + 1 pages.
   */
  lemma {:induction false} SessionEnds(tables: seq<EventTable>, agent: string, pages: seq<seq<Event>>,
                                       cursors: seq<nat>, n: nat)
    requires Session(tables, agent, pages, cursors) && 0 < n <= |pages| && cursors[n - 1] != 0
    ensures PAGE_SIZE * n + cursors[n - 1] - 1 <= tables[0].lastId
  {
    var page := pages[n - 1];
    assert PageAt(tables, agent, pages, cursors, n - 1);
    DescendingSpan(page);
    assert page[0] in page;
    if n > 1 {
      SessionEnds(tables, agent, pages, cursors, n - 1);
    }
  }

  /** An event that was there at every page has been shown once the cursor is past it. */
  lemma {:induction false} SessionShows(tables: seq<EventTable>, agent: string, pages: seq<seq<Event>>,
                                        cursors: seq<nat>, n: nat, id: nat)
    requires Session(tables, agent, pages, cursors) && 0 < n <= |pages| && id < NO_CURSOR
    requires forall i | 0 <= i < |tables| :: HasEvent(tables[i], agent, id)
    ensures id >= cursors[n - 1] ==> exists e :: e in Read(pages, n) && e.id == id
  {
    if n > 1 {
      SessionShows(tables, agent, pages, cursors, n - 1, id);
    }
    assert PageAt(tables, agent, pages, cursors, n - 1);
    assert HasEvent(tables[n - 1], agent, id);
    if n > 1 && id >= cursors[n - 2] {
      var f :| f in Read(pages, n - 1) && f.id == id;
      assert f in Read(pages, n);
    } else {
      var e :| e in tables[n - 1].rows && e.agent == agent && e.id == id;
      assert Matches(e, agent, Before(cursors, n - 1));
      assert e in pages[n - 1] ==> e in Read(pages, n);
    }
  }

  /**
    A finished session shows every event that existed when it began and was never deleted exactly once, whatever was
    added or removed in the meantime.
   */
  lemma SessionIsComplete(tables: seq<EventTable>, agent: string, pages: seq<seq<Event>>, cursors: seq<nat>, id: nat)
    requires Session(tables, agent, pages, cursors) && |pages| > 0 && cursors[|cursors| - 1] == 0
    requires id < NO_CURSOR && forall i | 0 <= i < |tables| :: HasEvent(tables[i], agent, id)
    ensures var all := Read(pages, |pages|);
            exists i | 0 <= i < |all| :: all[i].id == id && forall j | 0 <= j < |all| && j != i :: all[j].id != id
  {
    SessionShows(tables, agent, pages, cursors, |pages|, id);
    SessionDescends(tables, agent, pages, cursors, |pages|);
    var all := Read(pages, |pages|);
    var e :| e in all && e.id == id;
    var i :| 0 <= i < |all| && all[i] == e;
    forall j | 0 <= j < |all| && j != i
      ensures all[j].id != id
    {
      assert i < j ==> all[i].id > all[j].id;
      assert j < i ==> all[j].id > all[i].id;
    }
  }

  /** Along a run of the hub, no later page of a session shows an event that was added after the session began. */
  lemma LaterPagesShowNothingNew(actions: seq<Action>, shared: string, agent: string, at: seq<nat>,
                                 tables: seq<EventTable>, pages: seq<seq<Event>>, cursors: seq<nat>, i: nat, e: Event)
    requires |at| == |tables| && Session(tables, agent, pages, cursors)
    requires forall k | 0 <= k < |at| :: at[k] <= |actions| && tables[k] == After(actions[..at[k]], shared).db.events
    requires 0 < i < |tables| && at[0] <= at[i] && e in pages[i]
    ensures HasEvent(tables[0], agent, e.id)
  {
    RunEvolves(actions, shared, at[0], at[i]);
    assert PageAt(tables, agent, pages, cursors, i);
    SessionEnds(tables, agent, pages, cursors, i);
    assert e.id < cursors[i - 1] <= tables[0].lastId;
  }
}
