/** Listing and exporting audit events page by page with a keyset cursor. The database keeps microseconds; the
    cursor is an ISO text and keeps milliseconds. */
module AuditPages {
  import opened Wrappers
  import opened Ordering

  const RETENTION_DAYS := 365
  const PAGE_MAX_SIZE := 100
  const EXPORT_SIZE := 10_000

  /** `createdAt` in microseconds; an id is a UUID read as a number. */
  datatype AuditEvent = AuditEvent(
    createdAt: int, id: nat, organizationId: Option<string>, action: string,
    actorUserId: Option<string>, outcome: string, service: Option<string>)

  /** Instants of the query are JavaScript dates, in milliseconds. */
  datatype Query = Query(
    action: Option<string>, actorUserId: Option<string>, from: Option<int>, organizationId: Option<string>,
    outcome: Option<string>, service: Option<string>, to: Option<int>)

  datatype Cursor = Cursor(createdAt: int, id: nat)

  datatype Page = Page(events: seq<AuditEvent>, nextCursor: Option<Cursor>)

  datatype AuditError = AuditEventInput | AuditEventAuthorization

  type Table = seq<AuditEvent>

  // ----- the query -----

  function RetentionCutoff(now: int): int {
    now - RETENTION_DAYS * 24 * 60 * 60 * 1_000
  }

  predicate StartsWith(s: string, prefix: string) {
    |s| >= |prefix| && s[..|prefix|] == prefix
  }

  predicate Matches(e: AuditEvent, q: Query, now: int) {
    && e.organizationId == q.organizationId
    && e.createdAt >= RetentionCutoff(now) * 1_000
    && (StartsWith(e.action, "iam.") || StartsWith(e.action, "service-grant."))
    && (q.action.Some? ==> e.action == q.action.value)
    && (q.actorUserId.Some? ==> e.actorUserId == q.actorUserId)
    && (q.outcome.Some? ==> e.outcome == q.outcome.value)
    && (q.service.Some? ==> e.service == q.service)
    && (q.from.Some? ==> e.createdAt >= q.from.value * 1_000)
    && (q.to.Some? ==> e.createdAt < q.to.value * 1_000)
  }

  /** `order by created_at desc, id desc` */
  predicate Newer(a: AuditEvent, b: AuditEvent) {
    a.createdAt > b.createdAt || (a.createdAt == b.createdAt && a.id > b.id)
  }

  predicate NotOlder(a: AuditEvent, b: AuditEvent) {
    a.createdAt > b.createdAt || (a.createdAt == b.createdAt && a.id >= b.id)
  }

  /** `toISOString` drops what is below a millisecond. */
  function CursorOf(e: AuditEvent): Cursor {
    Cursor(e.createdAt / 1_000, e.id)
  }

  predicate Below(e: AuditEvent, cursor: Option<Cursor>) {
    match cursor
    case None => true
    case Some(c) => e.createdAt < c.createdAt * 1_000 || (e.createdAt == c.createdAt * 1_000 && e.id < c.id)
  }

  function Where<T>(xs: seq<T>, p: T -> bool): seq<T> {
    if xs == [] then [] else (if p(xs[0]) then [xs[0]] else []) + Where(xs[1..], p)
  }

  /** All events that the query asks for, in its order. */
  function Listing(table: Table, q: Query, now: int): seq<AuditEvent> {
    Where(Sort(table, NotOlder), (e: AuditEvent) => Matches(e, q, now))
  }

  function After(events: seq<AuditEvent>, cursor: Option<Cursor>): seq<AuditEvent> {
    Where(events, (e: AuditEvent) => Below(e, cursor))
  }

  function Take<T>(xs: seq<T>, n: nat): (r: seq<T>)
    ensures |r| <= n
  {
    if |xs| <= n then xs else xs[..n]
  }

  /** One more row than the page is asked for tells whether there is another page. */
  function PageOf(rows: seq<AuditEvent>, limit: nat): Page
    requires limit > 0
  {
    var page := Take(rows, limit);
    Page(page, if |rows| > limit then Some(CursorOf(page[|page| - 1])) else None)
  }

  function List(table: Table, q: Query, now: int, cursor: Option<Cursor>, limit: nat): Page
    requires limit > 0
  {
    PageOf(Take(After(Listing(table, q, now), cursor), limit + 1), limit)
  }

  /** The bounds of a query; the formats of its texts are left to the caller. */
  predicate ValidInput(q: Query, limit: int) {
    && 1 <= limit <= PAGE_MAX_SIZE
    && (q.organizationId.Some? || q.service.Some?)
    && (q.from.Some? && q.to.Some? ==> q.from.value < q.to.value)
  }

  function ListIamAuditEvents(table: Table, q: Query, now: int, cursor: Option<Cursor>, limit: int, permitted: bool)
    : Result<Page, AuditError>
  {
    if !ValidInput(q, limit) then Err(AuditEventInput)
    else if !permitted then Err(AuditEventAuthorization)
    else Ok(List(table, q, now, cursor, limit))
  }

  // ----- what a page may show -----

  lemma {:induction false} WhereContents<T>(xs: seq<T>, p: T -> bool)
    ensures forall x :: x in Where(xs, p) <==> x in xs && p(x)
  {
    if xs != [] {
      WhereContents(xs[1..], p);
      assert xs == [xs[0]] + xs[1..];
    }
  }

  /** The event is one of the query's organization, or of none, is at most 365 days old, has an action of the audited
      kinds, and passes every filter. */
  predicate Wanted(e: AuditEvent, q: Query, now: int) {
    && e.organizationId == q.organizationId
    && now * 1_000 - e.createdAt <= 31_536_000_000_000
    && ("iam." <= e.action || "service-grant." <= e.action)
    && q.action in {None, Some(e.action)}
    && q.actorUserId in {None, e.actorUserId}
    && q.outcome in {None, Some(e.outcome)}
    && q.service in {None, e.service}
    && (q.from.Some? ==> q.from.value * 1_000 <= e.createdAt)
    && (q.to.Some? ==> e.createdAt < q.to.value * 1_000)
  }

  lemma MatchesWanted(e: AuditEvent, q: Query, now: int)
    ensures Matches(e, q, now) <==> Wanted(e, q, now)
  {
    assert "iam." <= e.action ==> e.action[..4] == "iam.";
    assert "service-grant." <= e.action ==> e.action[..14] == "service-grant.";
  }

  /** The listing has the wanted events of the table and no others. */
  lemma ListedExactly(table: Table, q: Query, now: int, e: AuditEvent)
    ensures e in Listing(table, q, now) <==> e in table && Wanted(e, q, now)
  {
    hide Wanted, Matches, Sort;
    MatchesWanted(e, q, now);
    SameMembers(Sort(table, NotOlder), table);
    WhereContents(Sort(table, NotOlder), (x: AuditEvent) => Matches(x, q, now));
  }

  lemma PageShowsWanted(table: Table, q: Query, now: int, cursor: Option<Cursor>, limit: nat, e: AuditEvent)
    requires limit > 0 && e in List(table, q, now, cursor, limit).events
    ensures e in table && Wanted(e, q, now)
  {
    hide Wanted, Listing, Below;
    var listing := Listing(table, q, now);
    WhereContents(listing, (x: AuditEvent) => Below(x, cursor));
    hide Where;
    assert e in After(listing, cursor);
    ListedExactly(table, q, now, e);
  }

  // ----- following the cursors -----

  datatype Walked = Walked(events: seq<AuditEvent>, complete: bool)

  /** The table and the clock at one request. */
  datatype Visit = Visit(table: Table, now: int)

  /** The pages of a reader that follows every cursor, with one visit for each request. */
  function Walk(visits: seq<Visit>, q: Query, limit: nat, cursor: Option<Cursor>): Walked
    requires limit > 0
  {
    if visits == [] then Walked([], false)
    else
      var page := List(visits[0].table, q, visits[0].now, cursor, limit);
      if page.nextCursor.None? then Walked(page.events, true)
      else
        var rest := Walk(visits[1..], q, limit, page.nextCursor);
        Walked(page.events + rest.events, rest.complete)
  }

  /** Requests that share one reading of the clock. */
  function At(tables: seq<Table>, now: int): (visits: seq<Visit>)
    ensures |visits| == |tables|
    ensures forall i | 0 <= i < |tables| :: visits[i] == Visit(tables[i], now)
  {
    seq(|tables|, i requires 0 <= i < |tables| => Visit(tables[i], now))
  }

  lemma {:induction false} WalkShowsWanted(tables: seq<Table>, q: Query, now: int, limit: nat, cursor: Option<Cursor>,
      e: AuditEvent)
    requires limit > 0 && e in Walk(At(tables, now), q, limit, cursor).events
    ensures Wanted(e, q, now) && exists j | 0 <= j < |tables| :: e in tables[j]
  {
    hide Wanted, List, At;
    if tables != [] {
      assert At(tables, now)[1..] == At(tables[1..], now);
      var page := List(tables[0], q, now, cursor, limit);
      if e in page.events {
        PageShowsWanted(tables[0], q, now, cursor, limit, e);
      } else {
        WalkShowsWanted(tables[1..], q, now, limit, page.nextCursor, e);
        var j :| 0 <= j < |tables[1..]| && e in tables[1..][j];
        assert e in tables[j + 1];
      }
    }
  }

  datatype Export = Export(events: seq<AuditEvent>, truncated: bool)

  /** The page of this number is asked for: none before it was the last. */
  predicate Asked(visits: seq<Visit>, q: Query, n: nat)
    requires n <= |visits|
  {
    !Walk(visits[..n], q, PAGE_MAX_SIZE, None).complete
  }

  /** `exportIamAuditEvents`: `tables` is the table at each of its requests, of which there are at most a hundred, and
      `permitted` what each of them is told about the reader; all use the clock that was read at the beginning. */
  method ExportIamAuditEvents(tables: seq<Table>, q: Query, permitted: seq<bool>, now: int)
    returns (result: Result<Export, AuditError>)
    requires |tables| == |permitted| == EXPORT_SIZE / PAGE_MAX_SIZE
    ensures
      if !ValidInput(q, PAGE_MAX_SIZE) then result == Err(AuditEventInput)
      else if exists n | 0 <= n < |tables| :: Asked(At(tables, now), q, n) && !permitted[n] then
        result == Err(AuditEventAuthorization)
      else var walked := Walk(At(tables, now), q, PAGE_MAX_SIZE, None);
        result == Ok(Export(walked.events, !walked.complete))
    ensures result.Ok? ==> forall e | e in result.value.events ::
      Wanted(e, q, now) && exists j | 0 <= j < |tables| :: e in tables[j]
  {
    hide List, Walk, At;
    ghost var visits := At(tables, now);
    var events: seq<AuditEvent> := [];
    var cursor: Option<Cursor> := None;
    var more := true;
    var i := 0;
    assert visits[0..] == visits;
    ghost var all := Walk(visits, q, PAGE_MAX_SIZE, None);
    while more
      invariant i == 0 ==> more
      invariant i > 0 ==> ValidInput(q, PAGE_MAX_SIZE)
      invariant i <= |tables| && |events| <= i * PAGE_MAX_SIZE
      invariant forall k | 0 <= k < i :: permitted[k]
      invariant more ==> |events| == i * PAGE_MAX_SIZE && i < |tables|
      invariant more ==> Remaining(visits, q, i, cursor, events, all)
      invariant !more ==> all == Walked(events, cursor.None?) && forall n | i <= n < |tables| :: !Asked(visits, q, n)
      decreases EXPORT_SIZE - |events|, more
    {
      FirstOfRemaining(visits, q, i, cursor, events, all);
      var page := ListIamAuditEvents(tables[i], q, now, cursor, PAGE_MAX_SIZE, permitted[i]);
      if page.Err? {
        return Err(page.error);
      }
      FullPage(tables[i], q, now, cursor, PAGE_MAX_SIZE);
      NextOfRemaining(visits, q, i, cursor, events, all);
      events := events + page.value.events;
      cursor := page.value.nextCursor;
      i := i + 1;
      more := cursor.Some? && |events| < EXPORT_SIZE;
      if cursor.Some? && !more {
        NothingRemains(visits, q, cursor, events, all);
      }
    }
    result := Ok(Export(events, cursor.Some?));
    hide Wanted;
    forall e | e in events
      ensures Wanted(e, q, now) && exists j | 0 <= j < |tables| :: e in tables[j]
    {
      WalkShowsWanted(tables, q, now, PAGE_MAX_SIZE, None, e);
    }
  }

  /** What following the cursor from this page on adds to the events makes the whole, for every number of pages. */
  ghost predicate Remaining(visits: seq<Visit>, q: Query, i: nat, cursor: Option<Cursor>, events: seq<AuditEvent>,
      all: Walked)
    requires i <= |visits|
  {
    && (var rest := Walk(visits[i..], q, PAGE_MAX_SIZE, cursor);
        all == Walked(events + rest.events, rest.complete))
    && forall n | i <= n <= |visits| ::
         Asked(visits, q, n) <==> !Walk(visits[i..n], q, PAGE_MAX_SIZE, cursor).complete
  }

  lemma FirstOfRemaining(visits: seq<Visit>, q: Query, i: nat, cursor: Option<Cursor>, events: seq<AuditEvent>,
      all: Walked)
    requires i <= |visits| && Remaining(visits, q, i, cursor, events, all)
    ensures Asked(visits, q, i)
  {
    hide Asked;
    assert visits[i..i] == [];
  }

  lemma NextOfRemaining(visits: seq<Visit>, q: Query, i: nat, cursor: Option<Cursor>, events: seq<AuditEvent>,
      all: Walked)
    requires i < |visits| && Remaining(visits, q, i, cursor, events, all)
    ensures var page := List(visits[i].table, q, visits[i].now, cursor, PAGE_MAX_SIZE);
      if page.nextCursor.Some? then Remaining(visits, q, i + 1, page.nextCursor, events + page.events, all)
      else all == Walked(events + page.events, true) && forall n | i < n <= |visits| :: !Asked(visits, q, n)
  {
    hide List, Walk, Asked;
    var page := List(visits[i].table, q, visits[i].now, cursor, PAGE_MAX_SIZE);
    forall n | i < n <= |visits|
      ensures visits[i..n] != [] && visits[i..n][0] == visits[i] && visits[i..n][1..] == visits[i + 1..n]
      ensures Walk(visits[i..n], q, PAGE_MAX_SIZE, cursor).complete
        <==> page.nextCursor.None? || Walk(visits[i + 1..n], q, PAGE_MAX_SIZE, page.nextCursor).complete
    {
      UnfoldWalk(visits[i..n], q, PAGE_MAX_SIZE, cursor);
    }
    UnfoldWalk(visits[i..], q, PAGE_MAX_SIZE, cursor);
    assert visits[i..][0] == visits[i] && visits[i..][1..] == visits[i + 1..];
    var rest := Walk(visits[i + 1..], q, PAGE_MAX_SIZE, page.nextCursor);
    assert events + (page.events + rest.events) == events + page.events + rest.events;
  }

  lemma NothingRemains(visits: seq<Visit>, q: Query, cursor: Option<Cursor>, events: seq<AuditEvent>, all: Walked)
    requires Remaining(visits, q, |visits|, cursor, events, all)
    ensures all == Walked(events, false)
  {
    assert visits[|visits|..] == [];
    WalkNoFurther(q, PAGE_MAX_SIZE, cursor);
    assert events + [] == events;
  }

  lemma FullPage(table: Table, q: Query, now: int, cursor: Option<Cursor>, limit: nat)
    requires limit > 0
    ensures var page := List(table, q, now, cursor, limit);
      |page.events| <= limit && (page.nextCursor.Some? ==> |page.events| == limit)
  {
  }

  lemma WalkNoFurther(q: Query, limit: nat, cursor: Option<Cursor>)
    requires limit > 0
    ensures Walk([], q, limit, cursor) == Walked([], false)
  {
  }

  lemma UnfoldWalk(visits: seq<Visit>, q: Query, limit: nat, cursor: Option<Cursor>)
    requires limit > 0 && visits != []
    ensures var page := List(visits[0].table, q, visits[0].now, cursor, limit);
      var rest := Walk(visits[1..], q, limit, page.nextCursor);
      Walk(visits, q, limit, cursor)
        == if page.nextCursor.None? then Walked(page.events, true) else Walked(page.events + rest.events, rest.complete)
  {
  }
}
