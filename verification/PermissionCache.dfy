/** The generation cache in front of `getEffectivePolicies`: its Redis keys, its invalidation script and its `get`,
    whatever others do to Redis between the commands. */
module PermissionCache {
  import opened Wrappers
  import opened Text
  import opened Resolution

  const INVALIDATION_EVENT_TTL_SECONDS := 86_400

  datatype Scope = Scope(organizationId: string, service: string)

  function ScopeOf(subject: Subject): Scope {
    Scope(subject.organizationId, subject.service)
  }

  // ----- keys -----

  /** `scopeKey(scope)` and what follows it */
  function Scoped(scope: Scope, rest: string): string {
    EncodeUriComponent(scope.organizationId) + (":" + (EncodeUriComponent(scope.service) + rest))
  }

  function GenerationKey(scope: Scope): string {
    "ntauth:iam:generation:" + Scoped(scope, "")
  }

  function EventKey(scope: Scope, eventId: string): string {
    "ntauth:iam:invalidation:" + Scoped(scope, ":" + EncodeUriComponent(eventId))
  }

  function EntryKey(subject: Subject, generation: nat): string {
    "ntauth:iam:effective:"
    + Scoped(ScopeOf(subject), ":" + (EncodeUriComponent(subject.userId) + (":" + Decimal(generation))))
  }

  lemma ScopedReadBack(a: Scope, b: Scope, x: string, y: string)
    requires Scoped(a, x) == Scoped(b, y)
    requires (x == "" || x[0] == ':') && (y == "" || y[0] == ':')
    ensures a == b && x == y
  {
    hide EncodeUriComponent;
    var p, q := EncodeUriComponent(a.service) + x, EncodeUriComponent(b.service) + y;
    ComponentReadBack(a.organizationId, b.organizationId, ":" + p, ":" + q);
    assert (":" + p)[1..] == p && (":" + q)[1..] == q;
    ComponentReadBack(a.service, b.service, x, y);
  }

  lemma SamePrefix(prefix: string, x: string, y: string)
    requires prefix + x == prefix + y
    ensures x == y
  {
    assert (prefix + x)[|prefix|..] == x && (prefix + y)[|prefix|..] == y;
  }

  lemma GenerationKeyInjective(a: Scope, b: Scope)
    ensures GenerationKey(a) == GenerationKey(b) <==> a == b
  {
    hide Scoped;
    if GenerationKey(a) == GenerationKey(b) {
      SamePrefix("ntauth:iam:generation:", Scoped(a, ""), Scoped(b, ""));
      ScopedReadBack(a, b, "", "");
    }
  }

  lemma EventKeyInjective(a: Scope, b: Scope, d: string, e: string)
    ensures EventKey(a, d) == EventKey(b, e) <==> a == b && d == e
  {
    hide Scoped, EncodeUriComponent;
    if EventKey(a, d) == EventKey(b, e) {
      var x, y := ":" + EncodeUriComponent(d), ":" + EncodeUriComponent(e);
      SamePrefix("ntauth:iam:invalidation:", Scoped(a, x), Scoped(b, y));
      ScopedReadBack(a, b, x, y);
      assert x[1..] == EncodeUriComponent(d) && y[1..] == EncodeUriComponent(e);
      assert EncodeUriComponent(d) + "" == EncodeUriComponent(e) + "";
      ComponentReadBack(d, e, "", "");
    }
  }

  /** Different organizations, services, users or generations never share an entry. */
  lemma EntryKeyInjective(a: Subject, b: Subject, g: nat, h: nat)
    ensures EntryKey(a, g) == EntryKey(b, h) <==> a == b && g == h
  {
    hide Scoped, EncodeUriComponent, Decimal;
    if EntryKey(a, g) == EntryKey(b, h) {
      var p, q := ":" + Decimal(g), ":" + Decimal(h);
      var x, y := EncodeUriComponent(a.userId) + p, EncodeUriComponent(b.userId) + q;
      SamePrefix("ntauth:iam:effective:", Scoped(ScopeOf(a), ":" + x), Scoped(ScopeOf(b), ":" + y));
      ScopedReadBack(ScopeOf(a), ScopeOf(b), ":" + x, ":" + y);
      assert (":" + x)[1..] == x && (":" + y)[1..] == y;
      ComponentReadBack(a.userId, b.userId, p, q);
      assert p[1..] == Decimal(g) && q[1..] == Decimal(h);
      DecimalInjective(g, h);
    }
  }

  lemma KindsOfKeysDiffer(scope: Scope, other: Scope, subject: Subject, g: nat, eventId: string)
    ensures GenerationKey(scope) != EventKey(other, eventId)
    ensures GenerationKey(scope) != EntryKey(subject, g)
    ensures EventKey(other, eventId) != EntryKey(subject, g)
  {
    hide Scoped, Decimal, EncodeUriComponent;
    assert GenerationKey(scope)[11] == 'g' && EventKey(other, eventId)[11] == 'i' && EntryKey(subject, g)[11] == 'e';
  }

  // ----- Redis -----

  /** A cached answer carries the history that led to it: the database state it was read from, when it was read and
      when it was stored. `Foreign` is a text that this service did not write: JSON or not, but never a valid answer. */
  datatype Cell =
    | Marker(expiresAt: int)
    | Counter(n: nat)
    | Cached(value: Effective, readFrom: nat, readAt: int, storedAt: int, expiresAt: int)
    | Foreign(parses: bool, expiresAt: int)

  type Cells = map<string, Cell>

  /** Expired keys read as absent. */
  predicate Live(cells: Cells, key: string, now: int) {
    key in cells && (cells[key].Counter? || now < cells[key].expiresAt)
  }

  /** `GET generation ?? "0"` */
  function Generation(cells: Cells, scope: Scope): nat {
    var key := GenerationKey(scope);
    if key in cells && cells[key].Counter? then cells[key].n else 0
  }

  /** `INVALIDATE_SCRIPT`: SET NX EX on the event, then INCR. */
  function Invalidated(cells: Cells, scope: Scope, eventId: string, now: int): Cells {
    if Live(cells, EventKey(scope, eventId), now) then cells
    else
      var marked := cells[EventKey(scope, eventId) := Marker(now + INVALIDATION_EVENT_TTL_SECONDS)];
      marked[GenerationKey(scope) := Counter(Generation(marked, scope) + 1)]
  }

  /** `validCachedValue`; `policies` and `statements` are lists in every value that was stored as one. */
  predicate ValidCachedValue(value: Effective, subject: Subject) {
    && value.organizationId == subject.organizationId
    && value.service == subject.service
    && value.subjectUserId == subject.userId
    && IsDigestTag(value.etag)
  }

  /** `/^"[0-9a-f]{64}"$/` */
  predicate IsDigestTag(etag: string) {
    IsTag(etag) && |etag| == 66
  }

  datatype Server = Server(cells: Cells, now: int)

  /** What the environment contributes to one `get`: how its commands end, what others and time make of the server
      between its steps, and what the database answers, at the read and again after an exception. */
  datatype Visit = Visit(
    generationRead: Delivery, beforeEntry: Server -> Server,
    entryRead: Delivery, beforeDatabase: Server -> Server,
    read: Result<Effective, ResolutionError>, readFrom: nat, beforeStore: Server -> Server,
    store: Delivery, again: Result<Effective, ResolutionError>)

  /** One `get`, from its first command to its last: a step that throws leads to the second answer of the database. */
  ghost predicate Fetched(before: Server, after: Server, answer: Result<Effective, ResolutionError>, subject: Subject,
      visit: Visit, ttlSeconds: nat)
  {
    var generation := Generation(before.cells, ScopeOf(subject));
    var looking := visit.beforeEntry(before);
    var reading := visit.beforeDatabase(looking);
    var storing := visit.beforeStore(reading);
    var hit := Hit(looking.cells, subject, generation, looking.now);
    if !visit.generationRead.Succeeds? then answer == visit.again && after == before
    else if !visit.entryRead.Succeeds? || Unparsable(looking.cells, subject, generation, looking.now) then
      answer == visit.again && after == looking
    else if hit.Some? then answer == Ok(hit.value) && after == looking
    else if visit.read.Err? then answer == visit.again && after == reading
    else
      && answer == (if visit.store.Succeeds? then visit.read else visit.again)
      && after == if visit.store.Fails? then storing else storing.(cells :=
           Filled(storing.cells, subject, generation, visit.read.value, visit.readFrom, reading.now, storing.now,
             ttlSeconds))
  }

  /** The Redis server and its clock: each method but the last two runs as one indivisible command. */
  class Redis {
    var cells: Cells
    var now: int

    function Contents(): Server
      reads this
    {
      Server(cells, now)
    }

    constructor (now: int)
      ensures cells == map[] && this.now == now
    {
      cells := map[];
      this.now := now;
    }

    /** Returns the counter after the event. */
    method EvalInvalidate(scope: Scope, eventId: string) returns (generation: nat)
      modifies this`cells
      ensures cells == Invalidated(old(cells), scope, eventId, now)
      ensures generation == Generation(cells, scope)
    {
      hide GenerationKey, EventKey;
      KindsOfKeysDiffer(scope, scope, Subject("", "", ""), 0, eventId);
      var eventKey, generationKey := EventKey(scope, eventId), GenerationKey(scope);
      if !Live(cells, eventKey, now) {
        cells := cells[eventKey := Marker(now + INVALIDATION_EVENT_TTL_SECONDS)];
        generation := if generationKey in cells && cells[generationKey].Counter? then cells[generationKey].n + 1 else 1;
        cells := cells[generationKey := Counter(generation)];
      } else {
        generation := if generationKey in cells && cells[generationKey].Counter? then cells[generationKey].n else 0;
      }
    }

    method GetGeneration(scope: Scope) returns (generation: nat)
      ensures generation == Generation(cells, scope)
    {
      var key := GenerationKey(scope);
      generation := if key in cells && cells[key].Counter? then cells[key].n else 0;
    }

    /** What a reader with this generation finds; text that does not parse throws. */
    method GetEntry(subject: Subject, generation: nat) returns (found: Found)
      ensures found.Present? ==> Hit(cells, subject, generation, now) == Some(found.value)
      ensures found.Unreadable? <==> Unparsable(cells, subject, generation, now)
      ensures found.Absent? <==>
        Hit(cells, subject, generation, now).None? && !Unparsable(cells, subject, generation, now)
    {
      var key := EntryKey(subject, generation);
      if !Live(cells, key, now) {
        return Absent;
      }
      var cell := cells[key];
      if cell.Foreign? && !cell.parses {
        return Unreadable;
      }
      if !cell.Cached? || !ValidCachedValue(cell.value, subject) {
        return Absent;
      }
      found := Present(cell.value);
    }

    method SetEntry(subject: Subject, generation: nat, value: Effective, readFrom: nat, readAt: int, ttlSeconds: nat)
      modifies this`cells
      ensures cells == Filled(old(cells), subject, generation, value, readFrom, readAt, now, ttlSeconds)
    {
      cells := cells[EntryKey(subject, generation) := Cached(value, readFrom, readAt, now, now + ttlSeconds)];
    }

    /** Commands of others, and time. */
    method Meanwhile(others: Server -> Server)
      modifies this
      ensures Contents() == others(old(Contents()))
    {
      var s := others(Contents());
      cells, now := s.cells, s.now;
    }

    method Get(subject: Subject, visit: Visit, ttlSeconds: nat) returns (answer: Result<Effective, ResolutionError>)
      modifies this
      ensures Fetched(old(Contents()), Contents(), answer, subject, visit, ttlSeconds)
    {
      hide ValidCachedValue, EntryKey, GenerationKey;
      var generation := GetGeneration(ScopeOf(subject));
      if !visit.generationRead.Succeeds? {
        return visit.again;
      }
      Meanwhile(visit.beforeEntry);
      if !visit.entryRead.Succeeds? {
        return visit.again;
      }
      var cached := GetEntry(subject, generation);
      if cached.Present? {
        return Ok(cached.value);
      }
      if cached.Unreadable? {
        return visit.again;
      }
      Meanwhile(visit.beforeDatabase);
      if visit.read.Err? {
        return visit.again;
      }
      var readAt := now;
      Meanwhile(visit.beforeStore);
      if !visit.store.Fails? {
        SetEntry(subject, generation, visit.read.value, visit.readFrom, readAt, ttlSeconds);
      }
      answer := if visit.store.Succeeds? then visit.read else visit.again;
    }
  }

  datatype Found = Absent | Present(value: Effective) | Unreadable

  /** The live text of the entry is not JSON. */
  predicate Unparsable(cells: Cells, subject: Subject, generation: nat, now: int) {
    var key := EntryKey(subject, generation);
    Live(cells, key, now) && cells[key].Foreign? && !cells[key].parses
  }

  /** The entry that a reader with this generation accepts. */
  function Hit(cells: Cells, subject: Subject, generation: nat, now: int): Option<Effective> {
    var key := EntryKey(subject, generation);
    if Live(cells, key, now) && cells[key].Cached? && ValidCachedValue(cells[key].value, subject) then
      Some(cells[key].value)
    else None
  }

  function Filled(cells: Cells, subject: Subject, generation: nat, value: Effective, readFrom: nat, readAt: int,
      now: int, ttlSeconds: nat): Cells
  {
    cells[EntryKey(subject, generation) := Cached(value, readFrom, readAt, now, now + ttlSeconds)]
  }

  /** A stored answer is what the next `get` finds, until its time is over. */
  lemma StoredIsHit(cells: Cells, subject: Subject, value: Effective, readFrom: nat, readAt: int, storedAt: int,
      now: int, ttlSeconds: nat)
    requires ValidCachedValue(value, subject) && now < storedAt + ttlSeconds
    ensures var generation := Generation(cells, ScopeOf(subject));
      var after := Filled(cells, subject, generation, value, readFrom, readAt, storedAt, ttlSeconds);
      Generation(after, ScopeOf(subject)) == generation && Hit(after, subject, generation, now) == Some(value)
  {
    hide EntryKey, GenerationKey, ValidCachedValue;
    KindsOfKeysDiffer(ScopeOf(subject), ScopeOf(subject), subject, Generation(cells, ScopeOf(subject)), "");
  }

  predicate Succeeds(visit: Visit) {
    visit.generationRead.Succeeds? && visit.entryRead.Succeeds? && visit.store.Succeeds?
  }

  ghost predicate Undisturbed(visit: Visit) {
    && (forall s :: visit.beforeEntry(s) == s)
    && (forall s :: visit.beforeDatabase(s) == s)
    && (forall s :: visit.beforeStore(s) == s)
  }

  /** Two undisturbed `get`s in a row: what the first returns, the second returns from the cache, whatever the
      database has to say meanwhile. */
  lemma NextGetHits(before: Server, between: Server, after: Server, subject: Subject, first: Visit, second: Visit,
      one: Result<Effective, ResolutionError>, two: Result<Effective, ResolutionError>, ttlSeconds: nat)
    requires Fetched(before, between, one, subject, first, ttlSeconds) && Succeeds(first) && Undisturbed(first)
    requires Fetched(between, after, two, subject, second, ttlSeconds) && Succeeds(second) && Undisturbed(second)
    requires !Unparsable(before.cells, subject, Generation(before.cells, ScopeOf(subject)), before.now)
    requires ttlSeconds > 0
    requires first.read.Ok? && ValidCachedValue(first.read.value, subject)
    ensures one.Ok? && two == one && after == between
  {
    hide EntryKey, GenerationKey, ValidCachedValue, Generation, Live, Filled;
    StoredIsHit(before.cells, subject, first.read.value, first.readFrom, before.now, before.now, before.now,
      ttlSeconds);
  }

  // ----- what callers can rely on -----

  /** An accepted invalidation shuts out repetitions of its event for a day, and advances the generation by one. */
  lemma EventLastsADay(cells: Cells, scope: Scope, eventId: string, now: int, later: int)
    requires !Live(cells, EventKey(scope, eventId), now)
    ensures var after := Invalidated(cells, scope, eventId, now);
      && (Live(after, EventKey(scope, eventId), later) <==> later < now + 86_400)
      && Generation(after, scope) == Generation(cells, scope) + 1
  {
    hide GenerationKey, EventKey, EntryKey;
    KindsOfKeysDiffer(scope, scope, Subject("", "", ""), 0, eventId);
  }

  /** What the cache answers is about the subject that was asked for, and has a tag of this service. */
  predicate Concerns(value: Effective, subject: Subject) {
    && value.organizationId == subject.organizationId
    && value.service == subject.service
    && value.subjectUserId == subject.userId
    && |value.etag| == 66 && value.etag[0] == '"' && value.etag[65] == '"'
    && forall i | 0 < i < 65 :: '0' <= value.etag[i] <= '9' || 'a' <= value.etag[i] <= 'f'
  }

  /** A `get` answers with a live entry about the subject, or with what the database says. Whatever fails in Redis, it
      answers with the latter, and it writes nothing but the subject's own entry. */
  lemma GetAnswers(before: Server, after: Server, answer: Result<Effective, ResolutionError>, subject: Subject,
      visit: Visit, ttlSeconds: nat)
    requires Fetched(before, after, answer, subject, visit, ttlSeconds)
    ensures answer in {visit.read, visit.again} || (answer.Ok? && Concerns(answer.value, subject))
    ensures visit.read.Err? && !(answer.Ok? && Concerns(answer.value, subject)) ==> answer == visit.again
    ensures !visit.generationRead.Succeeds? || !visit.entryRead.Succeeds? ==> answer == visit.again
    ensures visit.store.Fails? && Undisturbed(visit) ==> after.cells == before.cells
    ensures Undisturbed(visit) ==> forall key | key != EntryKey(subject, Generation(before.cells, ScopeOf(subject))) ::
      (key in after.cells <==> key in before.cells) && (key in before.cells ==> after.cells[key] == before.cells[key])
  {
    hide EntryKey, Generation;
  }

  /** The entry that a reader accepts is live and concerns the subject. */
  lemma HitConcerns(cells: Cells, subject: Subject, generation: nat, now: int)
    ensures var key := EntryKey(subject, generation);
      Hit(cells, subject, generation, now).Some? <==>
        key in cells && cells[key].Cached? && now < cells[key].expiresAt && Concerns(cells[key].value, subject)
  {
    hide EntryKey;
  }
}
