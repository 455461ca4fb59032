/** What the filters of an audit query do, alone and together, and what one organization can see of another. */
module AuditFilters {
  import opened Wrappers
  import opened Ordering
  import opened AuditPages
  import opened AuditWalks

  // ----- organizations -----

  /** The tables have the same events of the organization; they may differ in all others. */
  ghost predicate SameFor(organizationId: Option<string>, a: Table, b: Table) {
    && UniqueIds(a) && UniqueIds(b)
    && forall e: AuditEvent | e.organizationId == organizationId :: e in a <==> e in b
  }

  ghost predicate AllSameFor(organizationId: Option<string>, xs: seq<Visit>, ys: seq<Visit>) {
    && |xs| == |ys|
    && forall i | 0 <= i < |xs| :: xs[i].now == ys[i].now && SameFor(organizationId, xs[i].table, ys[i].table)
  }

  /** What other organizations do changes no listing of this one. */
  lemma OthersDoNotShow(a: Table, b: Table, q: Query, now: int)
    requires SameFor(q.organizationId, a, b)
    ensures Listing(a, q, now) == Listing(b, q, now)
  {
    hide Listing, Descending;
    ListingContents(a, q, now);
    ListingContents(b, q, now);
    forall e
      ensures e in Listing(a, q, now) <==> e in Listing(b, q, now)
    {
      ListedExactly(a, q, now, e);
      ListedExactly(b, q, now, e);
    }
    DescendingUnique(Listing(a, q, now), Listing(b, q, now));
  }

  /** Nor any page, for any cursor and any permission. */
  lemma PagesAreApart(a: Table, b: Table, q: Query, now: int, cursor: Option<Cursor>, limit: int, permitted: bool)
    requires SameFor(q.organizationId, a, b)
    ensures ListIamAuditEvents(a, q, now, cursor, limit, permitted)
      == ListIamAuditEvents(b, q, now, cursor, limit, permitted)
  {
    hide Listing;
    OthersDoNotShow(a, b, q, now);
  }

  /** Only a permitted reader gets a page, of one organization or one service, with no more than a hundred events; all
      of them are wanted and below the cursor, newest first. */
  lemma PageExactly(table: Table, q: Query, now: int, cursor: Option<Cursor>, limit: int, permitted: bool)
    requires UniqueIds(table)
    ensures var page := ListIamAuditEvents(table, q, now, cursor, limit, permitted);
      && (page == Err(AuditEventInput) <==>
            || limit < 1 || limit > 100
            || (q.organizationId == None && q.service == None)
            || (q.from.Some? && q.to.Some? && q.to.value <= q.from.value))
      && (page == Err(AuditEventAuthorization) ==> !permitted)
      && (page.Ok? ==>
            && permitted && |page.value.events| <= limit
            && (forall e | e in page.value.events :: e in table && Wanted(e, q, now))
            && (forall i, j | 0 <= i < j < |page.value.events| ::
                  page.value.events[i].createdAt >= page.value.events[j].createdAt))
  {
    hide List, Wanted, UniqueIds;
    if ValidInput(q, limit) {
      PageContents(table, q, now, cursor, limit);
      FullPage(table, q, now, cursor, limit);
      var page := List(table, q, now, cursor, limit);
      forall e | e in page.events
        ensures e in table && Wanted(e, q, now)
      {
        PageShowsWanted(table, q, now, cursor, limit, e);
      }
      assert forall i, j | 0 <= i < j < |page.events| :: Newer(page.events[i], page.events[j]);
    }
  }

  /** Nor what a reader sees who follows the cursors, nor how many pages there are; so exports are the same, too. */
  lemma {:induction false} WalksAreApart(xs: seq<Visit>, ys: seq<Visit>, q: Query, limit: nat, cursor: Option<Cursor>)
    requires AllSameFor(q.organizationId, xs, ys) && limit > 0
    ensures Walk(xs, q, limit, cursor) == Walk(ys, q, limit, cursor)
  {
    hide Listing, SameFor;
    if xs != [] {
      OthersDoNotShow(xs[0].table, ys[0].table, q, xs[0].now);
      var page := List(xs[0].table, q, xs[0].now, cursor, limit);
      assert page == List(ys[0].table, q, ys[0].now, cursor, limit);
      hide List;
      if page.nextCursor.Some? {
        WalksAreApart(xs[1..], ys[1..], q, limit, page.nextCursor);
      }
    }
  }

  // ----- filters -----

  lemma {:induction false} WhereTwice<T>(xs: seq<T>, p: T -> bool, q: T -> bool, both: T -> bool)
    requires forall x :: both(x) <==> p(x) && q(x)
    ensures Where(Where(xs, p), q) == Where(xs, both)
  {
    if xs != [] {
      WhereTwice(xs[1..], p, q, both);
      hide Where;
      WhereCons(xs, p);
      WhereCons(xs, both);
      var rest := Where(xs[1..], p);
      if p(xs[0]) {
        WhereCons([xs[0]] + rest, q);
        assert ([xs[0]] + rest)[1..] == rest;
      } else {
        assert [] + rest == rest && [] + Where(xs[1..], both) == Where(xs[1..], both);
      }
    }
  }

  /** A query that asks for one thing more lists what the other lists, restricted to it. */
  lemma Narrowed(table: Table, q: Query, narrow: Query, now: int, p: AuditEvent -> bool)
    requires forall e :: Matches(e, narrow, now) <==> Matches(e, q, now) && p(e)
    ensures Listing(table, narrow, now) == Where(Listing(table, q, now), p)
  {
    hide Sort, Matches;
    WhereTwice(Sort(table, NotOlder), (e: AuditEvent) => Matches(e, q, now), p,
      (e: AuditEvent) => Matches(e, narrow, now));
  }

  /** Every optional filter does exactly that, whatever the others are. */
  lemma FiltersNarrow(table: Table, q: Query, now: int, text: string)
    ensures Listing(table, q.(action := Some(text)), now)
      == Where(Listing(table, q.(action := None), now), (e: AuditEvent) => e.action == text)
    ensures Listing(table, q.(actorUserId := Some(text)), now)
      == Where(Listing(table, q.(actorUserId := None), now), (e: AuditEvent) => e.actorUserId == Some(text))
    ensures Listing(table, q.(outcome := Some(text)), now)
      == Where(Listing(table, q.(outcome := None), now), (e: AuditEvent) => e.outcome == text)
    ensures Listing(table, q.(service := Some(text)), now)
      == Where(Listing(table, q.(service := None), now), (e: AuditEvent) => e.service == Some(text))
  {
    hide Listing, Where, StartsWith, RetentionCutoff;
    Narrowed(table, q.(action := None), q.(action := Some(text)), now, (e: AuditEvent) => e.action == text);
    Narrowed(table, q.(actorUserId := None), q.(actorUserId := Some(text)), now,
      (e: AuditEvent) => e.actorUserId == Some(text));
    Narrowed(table, q.(outcome := None), q.(outcome := Some(text)), now, (e: AuditEvent) => e.outcome == text);
    Narrowed(table, q.(service := None), q.(service := Some(text)), now, (e: AuditEvent) => e.service == Some(text));
  }

  lemma TimesNarrow(table: Table, q: Query, now: int, time: int)
    ensures Listing(table, q.(from := Some(time)), now)
      == Where(Listing(table, q.(from := None), now), (e: AuditEvent) => e.createdAt >= time * 1_000)
    ensures Listing(table, q.(to := Some(time)), now)
      == Where(Listing(table, q.(to := None), now), (e: AuditEvent) => e.createdAt < time * 1_000)
  {
    hide Listing, Where, StartsWith, RetentionCutoff;
    Narrowed(table, q.(from := None), q.(from := Some(time)), now, (e: AuditEvent) => e.createdAt >= time * 1_000);
    Narrowed(table, q.(to := None), q.(to := Some(time)), now, (e: AuditEvent) => e.createdAt < time * 1_000);
  }

  /** What a reader who follows the cursors is shown: wanted events, each as of one of the requests, newest first. */
  lemma DeliveredIsWanted(visits: seq<Visit>, q: Query, limit: nat, cursor: Option<Cursor>)
    requires AllUnique(visits) && limit > 0
    ensures var events := Walk(visits, q, limit, cursor).events;
      && (forall e | e in events ::
            exists j | 0 <= j < |visits| :: e in visits[j].table && Wanted(e, q, visits[j].now))
      && (forall i, j | 0 <= i < j < |events| :: events[i].createdAt >= events[j].createdAt)
  {
    hide Walk, Matches, Wanted;
    WalkDescends(visits, q, limit, cursor);
    forall e | e in Walk(visits, q, limit, cursor).events
      ensures exists j | 0 <= j < |visits| :: e in visits[j].table && Wanted(e, q, visits[j].now)
    {
      var j :| 0 <= j < |visits| && Found(e, q, visits[j]);
      MatchesWanted(e, q, visits[j].now);
    }
    var events := Walk(visits, q, limit, cursor).events;
    assert forall i, j | 0 <= i < j < |events| :: Newer(events[i], events[j]);
  }
}
