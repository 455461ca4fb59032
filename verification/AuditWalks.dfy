/** What a reader sees who follows the cursors: order, completeness, and exactly when nothing is skipped. */
module AuditWalks {
  import opened Wrappers
  import opened Ordering
  import opened AuditPages
  import opened Sequences
  import Arithmetic

  predicate UniqueIds(xs: seq<AuditEvent>) {
    forall i, j | 0 <= i < j < |xs| :: xs[i].id != xs[j].id
  }

  predicate Descending(xs: seq<AuditEvent>) {
    forall i, j | 0 <= i < j < |xs| :: Newer(xs[i], xs[j])
  }

  // ----- filters -----

  lemma {:induction false} WhereDescends(xs: seq<AuditEvent>, p: AuditEvent -> bool)
    requires Descending(xs)
    ensures Descending(Where(xs, p))
  {
    if xs != [] {
      var tail := xs[1..];
      WhereDescends(tail, p);
      WhereContents(tail, p);
      forall e | e in Where(tail, p)
        ensures Newer(xs[0], e)
      {
        assert e in tail;
      }
    }
  }

  lemma {:induction false} WhereAll<T>(xs: seq<T>, p: T -> bool)
    ensures (forall i | 0 <= i < |xs| :: p(xs[i])) ==> Where(xs, p) == xs
    ensures (forall i | 0 <= i < |xs| :: !p(xs[i])) ==> Where(xs, p) == []
  {
    if xs != [] {
      WhereAll(xs[1..], p);
      assert xs == [xs[0]] + xs[1..];
    }
  }

  lemma {:induction false} WhereAppend<T>(xs: seq<T>, ys: seq<T>, p: T -> bool)
    ensures Where(xs + ys, p) == Where(xs, p) + Where(ys, p)
  {
    if xs == [] {
      assert xs + ys == ys;
    } else {
      hide Where;
      WhereAppend(xs[1..], ys, p);
      WhereCons(xs, p);
      WhereCons(xs + ys, p);
      HeadAndTail(xs, ys);
      Regroup(if p(xs[0]) then [xs[0]] else [], Where(xs[1..], p), Where(ys, p));
    }
  }

  lemma HeadAndTail<T>(xs: seq<T>, ys: seq<T>)
    requires xs != []
    ensures (xs + ys)[0] == xs[0] && (xs + ys)[1..] == xs[1..] + ys
  {
  }

  lemma WhereCons<T>(xs: seq<T>, p: T -> bool)
    requires xs != []
    ensures Where(xs, p) == (if p(xs[0]) then [xs[0]] else []) + Where(xs[1..], p)
  {
  }

  lemma NotOlderOrders()
    ensures Transitive(NotOlder) && Strong(NotOlder)
  {
  }

  lemma ArrangedUnique(xs: seq<AuditEvent>, ys: seq<AuditEvent>)
    requires UniqueIds(xs) && multiset(xs) == multiset(ys)
    ensures UniqueIds(ys)
  {
    SameMembers(xs, ys);
    ArrangedNoRepeats(xs, ys);
    forall i, j | 0 <= i < j < |ys|
      ensures ys[i].id != ys[j].id
    {
      assert ys[i] in xs && ys[j] in xs;
    }
  }

  /** The listing is strictly descending and has exactly the matching events of the table. */
  lemma ListingContents(table: Table, q: Query, now: int)
    requires UniqueIds(table)
    ensures Descending(Listing(table, q, now))
    ensures forall e :: e in Listing(table, q, now) <==> e in table && Matches(e, q, now)
  {
    hide Matches;
    var sorted := Sort(table, NotOlder);
    NotOlderOrders();
    SortSorts(table, NotOlder);
    SameMembers(sorted, table);
    ArrangedUnique(table, sorted);
    assert Descending(sorted);
    hide Sort;
    WhereDescends(sorted, (e: AuditEvent) => Matches(e, q, now));
    WhereContents(sorted, (e: AuditEvent) => Matches(e, q, now));
  }

  lemma {:induction false} DescendingUnique(xs: seq<AuditEvent>, ys: seq<AuditEvent>)
    requires Descending(xs) && Descending(ys)
    requires forall e :: e in xs <==> e in ys
    ensures xs == ys
  {
    if xs == [] {
      if ys != [] {
        MemberAt(ys, 0);
      }
    } else {
      MemberAt(xs, 0);
      assert ys != [];
      MemberAt(ys, 0);
      assert xs[0] in ys && ys[0] in xs;
      assert xs[0] == ys[0];
      forall e
        ensures e in xs[1..] <==> e in ys[1..]
      {
        assert e in xs[1..] ==> e in xs && e != xs[0];
        assert e in ys[1..] ==> e in ys && e != ys[0];
        assert xs == [xs[0]] + xs[1..] && ys == [ys[0]] + ys[1..];
      }
      DescendingUnique(xs[1..], ys[1..]);
    }
  }

  // ----- one page -----

  /** What the program knows of a page without looking at the table again. */
  lemma PageContents(table: Table, q: Query, now: int, cursor: Option<Cursor>, limit: nat)
    requires UniqueIds(table) && limit > 0
    ensures var page := List(table, q, now, cursor, limit);
      && Descending(page.events)
      && (forall e | e in page.events :: e in table && Matches(e, q, now) && Below(e, cursor))
      && (page.nextCursor.None? ==>
            forall e | e in table && Matches(e, q, now) && Below(e, cursor) :: e in page.events)
      && (page.nextCursor.Some? ==>
            && |page.events| == limit && page.nextCursor == Some(CursorOf(page.events[limit - 1]))
            && forall e | e in table && Matches(e, q, now) && Below(e, cursor) && e !in page.events ::
                 Newer(page.events[limit - 1], e))
  {
    hide Matches, Below, Listing, CursorOf;
    var listing := Listing(table, q, now);
    ListingContents(table, q, now);
    var rows := After(listing, cursor);
    WhereDescends(listing, (e: AuditEvent) => Below(e, cursor));
    WhereContents(listing, (e: AuditEvent) => Below(e, cursor));
    hide Where, After;
    SplitPage(rows, limit);
  }

  lemma PlaceBeyond<T>(xs: seq<T>, n: nat, x: T) returns (i: nat)
    requires n <= |xs| && x in xs && x !in xs[..n]
    ensures n <= i < |xs| && xs[i] == x
  {
    assert xs == xs[..n] + xs[n..];
    var j :| 0 <= j < |xs[n..]| && xs[n..][j] == x;
    i := n + j;
  }

  lemma SplitPage(rows: seq<AuditEvent>, limit: nat)
    requires Descending(rows) && limit > 0
    ensures var page := PageOf(Take(rows, limit + 1), limit);
      && Descending(page.events)
      && (forall e | e in page.events :: e in rows)
      && (page.nextCursor.None? ==> page.events == rows)
      && (page.nextCursor.Some? ==>
            && |page.events| == limit && page.nextCursor == Some(CursorOf(page.events[limit - 1]))
            && forall e | e in rows && e !in page.events :: Newer(page.events[limit - 1], e))
  {
    hide CursorOf;
    var page := PageOf(Take(rows, limit + 1), limit);
    if page.nextCursor.Some? {
      assert page.events == rows[..limit];
      forall e | e in rows && e !in page.events
        ensures Newer(page.events[limit - 1], e)
      {
        var i := PlaceBeyond(rows, limit, e);
        assert Newer(rows[limit - 1], rows[i]);
      }
    }
  }

  lemma BelowIsOlder(last: AuditEvent, e: AuditEvent)
    ensures Below(e, Some(CursorOf(last))) ==> Newer(last, e)
    ensures last.createdAt % 1_000 == 0 && Newer(last, e) ==> Below(e, Some(CursorOf(last)))
  {
    assert last.createdAt == (last.createdAt / 1_000) * 1_000 + last.createdAt % 1_000;
  }

  // ----- any table at any request -----

  ghost predicate AllUnique(visits: seq<Visit>) {
    forall j | 0 <= j < |visits| :: UniqueIds(visits[j].table)
  }

  /** The query finds the event at the request. */
  predicate Found(e: AuditEvent, q: Query, visit: Visit) {
    e in visit.table && Matches(e, q, visit.now)
  }

  ghost predicate FoundOnce(e: AuditEvent, q: Query, visits: seq<Visit>) {
    exists j | 0 <= j < |visits| :: Found(e, q, visits[j])
  }

  ghost predicate FoundAlways(e: AuditEvent, q: Query, visits: seq<Visit>) {
    forall j | 0 <= j < |visits| :: Found(e, q, visits[j])
  }

  /** Whatever is inserted or purged between the requests, and whatever the clock does, the pages together are strictly
      descending: no event appears twice. Every one of them was there at some request, and matched then. */
  lemma {:induction false} WalkDescends(visits: seq<Visit>, q: Query, limit: nat, cursor: Option<Cursor>)
    requires AllUnique(visits) && limit > 0
    ensures var walked := Walk(visits, q, limit, cursor);
      && Descending(walked.events)
      && forall e | e in walked.events :: Below(e, cursor) && FoundOnce(e, q, visits)
  {
    hide Matches, List;
    if visits != [] {
      var page := List(visits[0].table, q, visits[0].now, cursor, limit);
      PageContents(visits[0].table, q, visits[0].now, cursor, limit);
      assert forall e | e in page.events :: Found(e, q, visits[0]);
      if page.nextCursor.Some? {
        var rest := Walk(visits[1..], q, limit, page.nextCursor);
        WalkDescends(visits[1..], q, limit, page.nextCursor);
        PagesJoin(page.events, rest.events, cursor);
        forall e | e in rest.events
          ensures FoundOnce(e, q, visits)
        {
          FoundLater(e, q, visits);
        }
      }
    }
  }

  lemma FoundLater(e: AuditEvent, q: Query, visits: seq<Visit>)
    requires visits != [] && FoundOnce(e, q, visits[1..])
    ensures FoundOnce(e, q, visits)
  {
    hide Found;
    var j :| 0 <= j < |visits[1..]| && Found(e, q, visits[1..][j]);
    assert Found(e, q, visits[j + 1]);
  }

  lemma PagesJoin(page: seq<AuditEvent>, rest: seq<AuditEvent>, cursor: Option<Cursor>)
    requires Descending(page) && Descending(rest) && page != []
    requires forall e | e in page :: Below(e, cursor)
    requires forall e | e in rest :: Below(e, Some(CursorOf(page[|page| - 1])))
    ensures Descending(page + rest)
    ensures forall e | e in rest :: Below(e, cursor)
  {
    var last := page[|page| - 1];
    assert last in page;
    forall e | e in rest
      ensures Newer(last, e) && Below(e, cursor)
    {
      BelowIsOlder(last, e);
    }
    hide Below;
    forall i, j | 0 <= i < |page| && 0 <= j < |rest|
      ensures Newer(page[i], rest[j])
    {
      assert rest[j] in rest;
      assert i < |page| - 1 ==> Newer(page[i], last);
    }
  }

  ghost predicate WholeMilliseconds(table: Table) {
    forall e | e in table :: e.createdAt % 1_000 == 0
  }

  ghost predicate AllWholeMilliseconds(visits: seq<Visit>) {
    forall j | 0 <= j < |visits| :: WholeMilliseconds(visits[j].table)
  }

  /** With timestamps in whole milliseconds a reader who reaches the last page has seen every event that was in the
      table and matched at all requests, whatever else came and went. */
  lemma {:induction false} NothingIsMissed(visits: seq<Visit>, q: Query, limit: nat, cursor: Option<Cursor>,
      e: AuditEvent)
    requires AllUnique(visits) && limit > 0 && AllWholeMilliseconds(visits)
    requires Walk(visits, q, limit, cursor).complete
    requires FoundAlways(e, q, visits) && Below(e, cursor)
    ensures e in Walk(visits, q, limit, cursor).events
  {
    hide Matches, List, Below;
    if visits != [] {
      var page := List(visits[0].table, q, visits[0].now, cursor, limit);
      PageContents(visits[0].table, q, visits[0].now, cursor, limit);
      assert Found(e, q, visits[0]);
      if page.nextCursor.Some? && e !in page.events {
        var last := page.events[limit - 1];
        assert last in page.events;
        BelowIsOlder(last, e);
        NothingIsMissed(visits[1..], q, limit, page.nextCursor, e);
      }
    }
  }

  // ----- when the pages are exactly the listing -----

  function CursorAt(listing: seq<AuditEvent>, k: nat): Option<Cursor>
    requires k <= |listing|
  {
    if k == 0 then None else Some(CursorOf(listing[k - 1]))
  }

  /** The event after a page break is below the cursor made of the event before it. */
  predicate CleanBreak(listing: seq<AuditEvent>, k: nat)
    requires k < |listing|
  {
    Below(listing[k], CursorAt(listing, k))
  }

  predicate CleanBreaks(listing: seq<AuditEvent>, limit: nat)
    requires limit > 0
  {
    forall k | 0 <= k < |listing| && k % limit == 0 :: CleanBreak(listing, k)
  }

  lemma FrontIsAbove(listing: seq<AuditEvent>, k: nat, i: nat)
    requires Descending(listing) && i < k <= |listing|
    ensures !Below(listing[i], CursorAt(listing, k))
  {
    BelowIsOlder(listing[k - 1], listing[i]);
    if i < k - 1 {
      assert Newer(listing[i], listing[k - 1]);
    }
  }

  lemma RestIsBelow(listing: seq<AuditEvent>, k: nat, i: nat)
    requires Descending(listing) && k <= i < |listing| && CleanBreak(listing, k)
    ensures Below(listing[i], CursorAt(listing, k))
  {
    if k < i {
      assert Newer(listing[k], listing[i]);
    }
  }

  lemma AfterIsRest(listing: seq<AuditEvent>, k: nat)
    requires Descending(listing) && k <= |listing| && (k < |listing| ==> CleanBreak(listing, k))
    ensures After(listing, CursorAt(listing, k)) == listing[k..]
  {
    hide Descending, Below, CursorAt, Where, CleanBreak;
    var p := (e: AuditEvent) => Below(e, CursorAt(listing, k));
    var front, rest := listing[..k], listing[k..];
    forall i | 0 <= i < |front|
      ensures !p(front[i])
    {
      FrontIsAbove(listing, k, i);
    }
    forall i | 0 <= i < |rest|
      ensures p(rest[i])
    {
      RestIsBelow(listing, k, k + i);
    }
    WhereAll(front, p);
    WhereAll(rest, p);
    WhereAppend(front, rest, p);
    assert listing == front + rest;
  }

  /** Neither the table nor the clock moves. */
  ghost predicate Constant(visits: seq<Visit>, table: Table, now: int) {
    forall j | 0 <= j < |visits| :: visits[j] == Visit(table, now)
  }

  function Smaller(a: nat, b: nat): nat {
    if a < b then a else b
  }

  lemma PageAt(table: Table, q: Query, now: int, limit: nat, k: nat)
    requires UniqueIds(table) && limit > 0
    requires k <= |Listing(table, q, now)| && (k < |Listing(table, q, now)| ==> CleanBreak(Listing(table, q, now), k))
    ensures var listing := Listing(table, q, now);
      List(table, q, now, CursorAt(listing, k), limit)
        == if k + limit < |listing| then Page(listing[k..k + limit], CursorAt(listing, k + limit))
           else Page(listing[k..], None)
  {
    hide Listing, After, CleanBreak, CursorOf;
    var listing := Listing(table, q, now);
    ListingContents(table, q, now);
    AfterIsRest(listing, k);
    assert k + limit < |listing| ==> Take(listing[k..], limit + 1)[..limit] == listing[k..k + limit];
  }

  /** Where a reader stands who has read so many pages. */
  function Reach(k: nat, pages: nat, limit: nat): nat {
    k + pages * limit
  }

  lemma ReachStep(k: nat, pages: nat, limit: nat)
    ensures Reach(k, 0, limit) == k
    ensures pages > 0 ==> Reach(k, pages, limit) == Reach(k + limit, pages - 1, limit) >= k + limit
  {
    if pages > 0 {
      Arithmetic.Distributes(pages, 1, limit);
      Arithmetic.KeepsOrder(0, pages - 1, limit);
    }
  }

  lemma NextBreak(k: nat, limit: nat)
    requires limit > 0 && k % limit == 0
    ensures (k + limit) % limit == 0
  {
    Arithmetic.Euclid(k, limit);
    Arithmetic.Distributes(k / limit, 1, limit);
    Arithmetic.IsUnique(k + limit, limit, k / limit + 1, 0);
  }

  lemma BreaksApart(k: nat, m: nat, limit: nat)
    requires limit > 0 && k < m && k % limit == 0 && m % limit == 0
    ensures k + limit <= m
  {
    var a, b := k / limit, m / limit;
    Arithmetic.Euclid(k, limit);
    Arithmetic.Euclid(m, limit);
    Arithmetic.NoSmaller(a, b, limit);
    Arithmetic.Distributes(b, a, limit);
    Arithmetic.AtLeastOne(b - a, limit);
  }

  lemma CutAt<T>(xs: seq<T>, k: nat, m: nat, end: nat)
    requires k <= m <= end <= |xs|
    ensures xs[k..m] + xs[m..end] == xs[k..end]
  {
  }

  /** As long as the breaks are clean, following the cursors gives the listing, page by page. */
  lemma {:induction false} WalkFollowsListing(visits: seq<Visit>, table: Table, q: Query, now: int, limit: nat, k: nat)
    requires UniqueIds(table) && limit > 0 && Constant(visits, table, now)
    requires k <= |Listing(table, q, now)| && k % limit == 0 && (k == 0 || k < |Listing(table, q, now)|)
    requires CleanBreaks(Listing(table, q, now), limit)
    ensures var listing := Listing(table, q, now); var end := Smaller(|listing|, Reach(k, |visits|, limit));
      k <= end && Walk(visits, q, limit, CursorAt(listing, k))
        == Walked(listing[k..end], visits != [] && Reach(k, |visits|, limit) >= |listing|)
  {
    hide Listing, List, CleanBreak, Reach, Walk, CursorAt, UniqueIds;
    var listing := Listing(table, q, now);
    ReachStep(k, |visits|, limit);
    if visits == [] {
      WalkNoFurther(q, limit, CursorAt(listing, k));
    } else {
      if k < |listing| {
        assert CleanBreak(listing, k);
      }
      PageAt(table, q, now, limit, k);
      UnfoldWalk(visits, q, limit, CursorAt(listing, k));
      assert visits[0] == Visit(table, now);
      if k + limit < |listing| {
        NextBreak(k, limit);
        ReachStep(k + limit, |visits| - 1, limit);
        WalkFollowsListing(visits[1..], table, q, now, limit, k + limit);
        CursorAtBreak(listing, k + limit);
        CutAt(listing, k, k + limit, Smaller(|listing|, Reach(k, |visits|, limit)));
      }
    }
  }

  lemma CursorAtBreak(listing: seq<AuditEvent>, k: nat)
    requires 0 < k <= |listing|
    ensures CursorAt(listing, k).Some?
  {
  }

  /** Conversely, a reader who gets the rest of the listing has passed only clean breaks. */
  lemma {:induction false} ListingNeedsCleanBreaks(visits: seq<Visit>, table: Table, q: Query, now: int, limit: nat,
      k: nat, m: nat)
    requires UniqueIds(table) && limit > 0 && Constant(visits, table, now)
    requires k <= m < |Listing(table, q, now)| && k % limit == 0 && m % limit == 0
    requires CleanBreak(Listing(table, q, now), k)
    requires Walk(visits, q, limit, CursorAt(Listing(table, q, now), k)).events == Listing(table, q, now)[k..]
    ensures CleanBreak(Listing(table, q, now), m)
  {
    hide Listing, List, Below, CursorOf, Walk, CursorAt, UniqueIds, Descending, Matches;
    var listing := Listing(table, q, now);
    if k < m {
      BreaksApart(k, m, limit);
      if visits == [] {
        WalkNoFurther(q, limit, CursorAt(listing, k));
      } else {
        PageAt(table, q, now, limit, k);
        CursorAtBreak(listing, k + limit);
        UnfoldWalk(visits, q, limit, CursorAt(listing, k));
        var rest := Walk(visits[1..], q, limit, CursorAt(listing, k + limit)).events;
        CancelPage(listing, k, limit, rest);
        WalkDescends(visits[1..], q, limit, CursorAt(listing, k + limit));
        MemberAt(rest, 0);
        NextBreak(k, limit);
        ListingNeedsCleanBreaks(visits[1..], table, q, now, limit, k + limit, m);
      }
    }
  }

  lemma CancelPage<T>(xs: seq<T>, k: nat, n: nat, rest: seq<T>)
    requires k + n <= |xs| && xs[k..k + n] + rest == xs[k..]
    ensures rest == xs[k + n..]
  {
    assert rest == (xs[k..k + n] + rest)[n..];
  }

  /** The pages of a table that does not change are its listing if and only if no page break falls between two
      events of which the later-listed one is not below the truncated time of the other. */
  lemma PagesAreListingExactly(visits: seq<Visit>, table: Table, q: Query, now: int, limit: nat)
    requires UniqueIds(table) && limit > 0 && Constant(visits, table, now) && visits != []
    requires Reach(0, |visits|, limit) >= |Listing(table, q, now)|
    ensures Walk(visits, q, limit, None) == Walked(Listing(table, q, now), true)
      <==> CleanBreaks(Listing(table, q, now), limit)
  {
    hide Listing, CleanBreak;
    var listing := Listing(table, q, now);
    assert listing[0..] == listing;
    if CleanBreaks(listing, limit) {
      WalkFollowsListing(visits, table, q, now, limit, 0);
    }
    if Walk(visits, q, limit, None) == Walked(listing, true) {
      forall m | 0 <= m < |listing| && m % limit == 0
        ensures CleanBreak(listing, m)
      {
        FirstBreakIsClean(listing);
        ListingNeedsCleanBreaks(visits, table, q, now, limit, 0, m);
      }
    }
  }

  lemma FirstBreakIsClean(listing: seq<AuditEvent>)
    requires listing != []
    ensures CleanBreak(listing, 0)
  {
  }

  /** Whole milliseconds make every break clean. */
  lemma WholeMillisecondsAreClean(table: Table, q: Query, now: int, limit: nat)
    requires UniqueIds(table) && limit > 0 && WholeMilliseconds(table)
    ensures CleanBreaks(Listing(table, q, now), limit)
  {
    hide Matches, Listing;
    var listing := Listing(table, q, now);
    ListingContents(table, q, now);
    forall k | 0 <= k < |listing| && k % limit == 0
      ensures CleanBreak(listing, k)
    {
      if k > 0 {
        assert listing[k - 1] in listing;
        assert Newer(listing[k - 1], listing[k]);
        BelowIsOlder(listing[k - 1], listing[k]);
      }
    }
  }

  const FIRST := AuditEvent(1_500, 1, None, "iam.policy.create", None, "success", Some("s"))
  const SECOND := AuditEvent(1_200, 2, None, "iam.policy.create", None, "success", Some("s"))
  const BY_SERVICE := Query(None, None, None, None, None, Some("s"), None)

  const BOTH := Visit([FIRST, SECOND], 0)

  lemma BothMatch()
    ensures Matches(FIRST, BY_SERVICE, 0) && Matches(SECOND, BY_SERVICE, 0)
  {
    assert "iam.policy.create"[..4] == "iam.";
  }

  lemma BothAreListed()
    ensures UniqueIds([FIRST, SECOND]) && Listing([FIRST, SECOND], BY_SERVICE, 0) == [FIRST, SECOND]
  {
    hide Matches, Listing;
    BothMatch();
    ListingContents([FIRST, SECOND], BY_SERVICE, 0);
    DescendingUnique(Listing([FIRST, SECOND], BY_SERVICE, 0), [FIRST, SECOND]);
  }

  lemma PagesOfBoth()
    ensures List([FIRST, SECOND], BY_SERVICE, 0, None, 1) == Page([FIRST], Some(Cursor(1, 1)))
    ensures List([FIRST, SECOND], BY_SERVICE, 0, Some(Cursor(1, 1)), 1) == Page([], None)
  {
    hide Listing;
    BothAreListed();
    WhereAll([FIRST, SECOND], (e: AuditEvent) => Below(e, None));
    WhereAll([FIRST, SECOND], (e: AuditEvent) => Below(e, Some(Cursor(1, 1))));
  }

  /** Two events of the same millisecond, at 1.5 ms and 1.2 ms: both are listed, but a reader with pages of one event
      is told after the second page that it has seen everything, and has seen only the first. */
  lemma SameMillisecondIsSkipped()
    ensures Listing([FIRST, SECOND], BY_SERVICE, 0) == [FIRST, SECOND]
    ensures Walk([BOTH, BOTH], BY_SERVICE, 1, None) == Walked([FIRST], true)
  {
    hide Listing, List, Walk;
    BothAreListed();
    PagesOfBoth();
    UnfoldWalk([BOTH, BOTH], BY_SERVICE, 1, None);
    assert [BOTH, BOTH][1..] == [BOTH];
    UnfoldWalk([BOTH], BY_SERVICE, 1, Some(Cursor(1, 1)));
  }

  // ----- newer events, export, purge -----

  /** Events that arrive are newer than everything that was there. */
  ghost predicate Grown(before: Table, after: Table) {
    && (forall e | e in before :: e in after)
    && (forall e, x | e in after && e !in before && x in before :: Newer(e, x))
  }

  ghost predicate AllGrown(before: Table, now: int, visits: seq<Visit>) {
    forall j | 0 <= j < |visits| ::
      visits[j].now == now && UniqueIds(visits[j].table) && Grown(before, visits[j].table)
  }

  lemma SamePageAfterGrowth(before: Table, after: Table, q: Query, now: int, limit: nat, last: AuditEvent)
    requires UniqueIds(before) && UniqueIds(after) && Grown(before, after) && last in before && limit > 0
    ensures List(after, q, now, Some(CursorOf(last)), limit) == List(before, q, now, Some(CursorOf(last)), limit)
  {
    hide Matches, Listing, Below;
    var p := (e: AuditEvent) => Below(e, Some(CursorOf(last)));
    var xs, ys := Listing(before, q, now), Listing(after, q, now);
    ListingContents(before, q, now);
    ListingContents(after, q, now);
    WhereDescends(xs, p);
    WhereDescends(ys, p);
    WhereContents(xs, p);
    WhereContents(ys, p);
    forall e
      ensures e in Where(xs, p) <==> e in Where(ys, p)
    {
      BelowIsOlder(last, e);
    }
    DescendingUnique(Where(xs, p), Where(ys, p));
  }

  lemma {:induction false} SameWalkAfterGrowth(visits: seq<Visit>, same: seq<Visit>, before: Table, q: Query, now: int,
      limit: nat, last: AuditEvent)
    requires UniqueIds(before) && AllGrown(before, now, visits) && last in before && limit > 0
    requires |same| == |visits| && Constant(same, before, now)
    ensures Walk(visits, q, limit, Some(CursorOf(last))) == Walk(same, q, limit, Some(CursorOf(last)))
  {
    hide List, Matches, CursorOf;
    if visits != [] {
      var page := List(before, q, now, Some(CursorOf(last)), limit);
      SamePageAfterGrowth(before, visits[0].table, q, now, limit, last);
      PageContents(before, q, now, Some(CursorOf(last)), limit);
      if page.nextCursor.Some? {
        assert page.events[limit - 1] in page.events;
        SameWalkAfterGrowth(visits[1..], same[1..], before, q, now, limit, page.events[limit - 1]);
      }
    }
  }

  /** Newer events that arrive after the first page leave the following pages as they would have been. */
  lemma GrowthIsInvisible(visits: seq<Visit>, same: seq<Visit>, before: Table, q: Query, now: int, limit: nat)
    requires UniqueIds(before) && AllGrown(before, now, visits) && limit > 0
    requires |same| == |visits| && Constant(same, before, now) && (visits != [] ==> visits[0].table == before)
    ensures Walk(visits, q, limit, None) == Walk(same, q, limit, None)
  {
    hide List, Matches, CursorOf;
    if visits != [] {
      var page := List(before, q, now, None, limit);
      PageContents(before, q, now, None, limit);
      if page.nextCursor.Some? {
        assert page.events[limit - 1] in page.events;
        SameWalkAfterGrowth(visits[1..], same[1..], before, q, now, limit, page.events[limit - 1]);
      }
    }
  }

  /** The export of a growing table: its result, as ExportIamAuditEvents computes it, is the first ten thousand
      events of the listing at its beginning, and it says so exactly when there are more. */
  lemma ExportIsFirstTenThousand(tables: seq<Table>, before: Table, q: Query, now: int)
    requires |tables| == EXPORT_SIZE / PAGE_MAX_SIZE && tables[0] == before
    requires UniqueIds(before) && AllGrown(before, now, At(tables, now))
    requires CleanBreaks(Listing(before, q, now), PAGE_MAX_SIZE)
    ensures var walked := Walk(At(tables, now), q, PAGE_MAX_SIZE, None); var listing := Listing(before, q, now);
      && walked.events == listing[..Smaller(EXPORT_SIZE, |listing|)]
      && (!walked.complete <==> |listing| > EXPORT_SIZE)
  {
    hide Listing, Walk, CleanBreaks;
    var same := seq(|tables|, i => Visit(before, now));
    GrowthIsInvisible(At(tables, now), same, before, q, now, PAGE_MAX_SIZE);
    WalkFollowsListing(same, before, q, now, PAGE_MAX_SIZE, 0);
  }

  function Purged(table: Table, now: int): Table {
    Where(table, (e: AuditEvent) => e.createdAt >= RetentionCutoff(now) * 1_000)
  }

  lemma {:induction false} WhereUnique(xs: seq<AuditEvent>, p: AuditEvent -> bool)
    requires UniqueIds(xs)
    ensures UniqueIds(Where(xs, p))
  {
    if xs != [] {
      WhereUnique(xs[1..], p);
      WhereContents(xs[1..], p);
      forall e | e in Where(xs[1..], p)
        ensures e.id != xs[0].id
      {
        assert e in xs[1..];
      }
    }
  }

  /** Purging never takes away what a listing at the same or a later time would show. */
  lemma PurgeIsInvisible(table: Table, q: Query, purgedAt: int, now: int)
    requires UniqueIds(table) && purgedAt <= now
    ensures Listing(Purged(table, purgedAt), q, now) == Listing(table, q, now)
  {
    hide Listing, StartsWith;
    WhereUnique(table, (e: AuditEvent) => e.createdAt >= RetentionCutoff(purgedAt) * 1_000);
    WhereContents(table, (e: AuditEvent) => e.createdAt >= RetentionCutoff(purgedAt) * 1_000);
    ListingContents(table, q, now);
    ListingContents(Purged(table, purgedAt), q, now);
    DescendingUnique(Listing(Purged(table, purgedAt), q, now), Listing(table, q, now));
  }
}
