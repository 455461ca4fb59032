/** The parts together: concurrent policy writers, the service with its Redis cache, and the caching client. */
module ServiceRuns {
  import opened Wrappers
  import opened Ordering
  import opened Resolution
  import opened PolicyClient
  import opened CacheRuns
  import PermissionCache
  import PolicyVersions
  import PolicyRuns
  import PolicyDocument
  import ClientRuns

  /** The policy tables of each database state are those of some moment of a run of the writers, in order. Members,
      groups, grants and attachments may change in any way. */
  ghost predicate StoresOfRun(hashing: PolicyVersions.Hashing, world: seq<Database>, writes: seq<PolicyRuns.State>,
      events: seq<PolicyRuns.Event>, moments: seq<nat>)
  {
    && PolicyRuns.IsRun(hashing, writes, events)
    && |moments| == |world|
    && (forall i | 0 <= i < |world| :: moments[i] < |writes| && world[i].store == writes[moments[i]].store)
    && (forall i, j | 0 <= i <= j < |world| :: moments[i] <= moments[j])
  }

  ghost predicate AllEnumerated(query: Query, world: seq<Database>) {
    forall i, subject | 0 <= i < |world| :: Enumerates(world[i], subject, query(world[i], subject))
  }

  /** The digest does not confuse any two fingerprints of this history. */
  ghost predicate NeverConfused(hashing: PolicyVersions.Hashing, query: Query, world: seq<Database>) {
    forall i, j, a, b | 0 <= i < |world| && 0 <= j < |world| ::
      ClientRuns.NoConfusion(hashing, query, world[i], a, world[j], b)
  }

  /** The assumptions on everything that is not part of the program: collation, query, digest. */
  ghost predicate Environment(hashing: PolicyVersions.Hashing, query: Query, world: seq<Database>) {
    && TotalOrder(hashing.le)
    && AllEnumerated(query, world)
    && NeverConfused(hashing, query, world)
    && forall text :: IsSha256(hashing.sha256(text))
  }

  /** Immutability of versions is not assumed: it is what concurrent writers keep. */
  lemma WritersKeepHistorySound(hashing: PolicyVersions.Hashing, query: Query, world: seq<Database>,
      writes: seq<PolicyRuns.State>, writeEvents: seq<PolicyRuns.Event>, moments: seq<nat>)
    requires StoresOfRun(hashing, world, writes, writeEvents, moments)
    requires Environment(hashing, query, world)
    ensures ClientRuns.SoundHistory(hashing, query, world)
  {
    hide PolicyVersions.Extends, PolicyRuns.IsRun, Enumerates, ClientRuns.NoConfusion, IsSha256;
    forall i, j | 0 <= i <= j < |world|
      ensures PolicyVersions.Extends(world[i].store, world[j].store)
    {
      PolicyRuns.VersionsNeverChange(hashing, writes, writeEvents, moments[i], moments[j]);
    }
  }

  /** For the service's own database: in every run of clients, over every history that concurrent writers can
      produce, a call of the caching client ends with what a client without a cache would return for the database
      state that the service answered from, or with "unavailable" after a network failure. */
  lemma CachingClientIsInvisible(hashing: PolicyVersions.Hashing, query: Query, world: seq<Database>,
      writes: seq<PolicyRuns.State>, writeEvents: seq<PolicyRuns.Event>, moments: seq<nat>,
      clients: seq<ClientRuns.State>, clientEvents: seq<ClientRuns.Event>, n: nat, call: ClientRuns.CallId)
    requires StoresOfRun(hashing, world, writes, writeEvents, moments)
    requires Environment(hashing, query, world)
    requires ClientRuns.IsRun(DirectAnswer(hashing, query), world, clients, clientEvents) && n < |clients|
    requires call in clients[n].calls && clients[n].calls[call].Done?
    ensures var p := clients[n].calls[call];
      match p.answeredBy
      case Some(served) =>
        served.from < |world|
        && p.result == ClientRuns.AlwaysFetching(DirectAnswer(hashing, query), world, p.claims, served)
      case None => p.result == Err(PolicyUnavailable)
  {
    hide StoresOfRun, ClientRuns.SoundHistory, ClientRuns.TagsDetermine, ClientRuns.AnswersAreValid, IsSha256,
      ClientRuns.IsRun, ClientRuns.AlwaysFetching, DirectAnswer, AllEnumerated, NeverConfused;
    WritersKeepHistorySound(hashing, query, world, writes, writeEvents, moments);
    ClientRuns.DatabaseTagsDetermine(hashing, query, world);
    ClientRuns.DatabaseAnswersAreValid(hashing, query, world);
    ClientRuns.CachingIsInvisible(DirectAnswer(hashing, query), world, clients, clientEvents, n, call);
  }

  /** The service has answered the call from a `get` of its own cache. */
  predicate ServedByGet(got: CacheRuns.Phase, subject: Subject, p: ClientRuns.Phase) {
    && got.Done? && got.call.subject == subject
    && p.Done? && p.claims == subject
    && p.answeredBy.Some? && p.answeredBy.value.active && p.answeredBy.value.from == got.readFrom
  }

  /** The client has ended with the validated answer of the `get`, and that is what the database answers in a state that
      is not older. */
  predicate FreshAnswer(hashing: PolicyVersions.Hashing, query: Query, world: seq<Database>, got: CacheRuns.Phase,
      p: ClientRuns.Phase, oldest: int)
    requires got.Done? && p.Done?
  {
    && oldest <= got.readFrom < |world|
    && got.answer == DirectAnswer(hashing, query)(world[got.readFrom], p.claims)
    && p.result == Validated(got.answer, p.claims)
  }

  /** The event is an invalidation of this scope that is not ignored. */
  predicate Accepted<D>(s: CacheRuns.State<D>, e: CacheRuns.Event<D>, scope: PermissionCache.Scope) {
    && e.Invalidate? && e.scope == scope
    && !PermissionCache.Live(s.cells, PermissionCache.EventKey(scope, e.eventId), s.now)
  }

  /** Both caches together: when the service answers a call by a `get` that begins after an accepted invalidation, the
      client ends with what the service's `get` returned, validated, and that is the answer of a database state with
      everything that was committed before the invalidation. */
  lemma FreshThroughBothCaches(hashing: PolicyVersions.Hashing, query: Query, world: seq<Database>,
      writes: seq<PolicyRuns.State>, writeEvents: seq<PolicyRuns.Event>, moments: seq<nat>,
      caches: seq<CacheRuns.State<Database>>, cacheEvents: seq<CacheRuns.Event<Database>>, ttlSeconds: nat,
      i: nat, j: nat, m: nat, r: CacheRuns.Reader, subject: Subject,
      clients: seq<ClientRuns.State>, clientEvents: seq<ClientRuns.Event>, n: nat, call: ClientRuns.CallId)
    requires StoresOfRun(hashing, world, writes, writeEvents, moments)
    requires Environment(hashing, query, world)
    requires CacheRuns.IsRun(DirectAnswer(hashing, query), caches, cacheEvents, ttlSeconds)
    requires |caches| == |cacheEvents| + 1 && i < j < m < |caches| && caches[m].history <= world
    requires Accepted(caches[i], cacheEvents[i], PermissionCache.ScopeOf(subject))
    requires cacheEvents[j] == CacheRuns.Event.Begin(r, subject) && r in caches[m].readers
    requires ClientRuns.IsRun(DirectAnswer(hashing, query), world, clients, clientEvents) && n < |clients|
    requires call in clients[n].calls && ServedByGet(caches[m].readers[r], subject, clients[n].calls[call])
    ensures FreshAnswer(hashing, query, world, caches[m].readers[r], clients[n].calls[call], |caches[i].history| - 1)
  {
    hide StoresOfRun, Environment, CacheRuns.IsRun, ClientRuns.IsRun, DirectAnswer, PermissionCache.EventKey,
      PermissionCache.Live, MatchesIfNoneMatch, ParsePolicies;
    CachingClientIsInvisible(hashing, query, world, writes, writeEvents, moments, clients, clientEvents, n, call);
    FreshAfterAcceptedInvalidation(DirectAnswer(hashing, query), caches, cacheEvents, ttlSeconds, i, j, m);
    if caches[m].readers[r].answer.Ok? {
      ClientRuns.WithoutHeader(caches[m].readers[r].answer.value.etag);
    }
  }

  /** What the client ends with, in terms of the tables: its policies are exactly those that the subject is entitled to
      in a state not older than the invalidation. So a grant that was revoked before the invalidation, and is not
      given again, leaves nothing. */
  lemma ClientHoldsEntitled(hashing: PolicyVersions.Hashing, query: Query, world: seq<Database>,
      got: CacheRuns.Phase, p: ClientRuns.Phase, subject: Subject, oldest: nat)
    requires Environment(hashing, query, world) && ServedByGet(got, subject, p)
    requires FreshAnswer(hashing, query, world, got, p, oldest)
    requires p.result.Ok?
    ensures HoldsEntitled(hashing, world[got.readFrom], subject, p.result.value)
    ensures (forall k | oldest <= k < |world| :: subject !in world[k].grants) ==>
      p.result.value.policies == [] && p.result.value.statements == []
  {
    hide HoldsEntitled, TotalOrder, NeverConfused, Enumerates, PolicyDocument.ValidDocument, IsSha256;
    var db := world[got.readFrom];
    var rows := query(db, subject);
    assert Enumerates(db, subject, rows);
    assert got.answer == Resolve(hashing, db, subject, rows);
    hide Environment, DirectAnswer, Resolve;
    ResolvesExactly(hashing, db, subject, rows);
  }

  /** What a client makes of an answer of the service when it asks without a tag. */
  function Validated(answer: Result<Effective, ResolutionError>, claims: Subject): Result<Effective, ClientError> {
    match answer
    case Ok(effective) => ParsePolicies(effective, claims, Some(effective.etag))
    case Err(EffectivePolicyAuthorization) => Err(InsufficientScope)
    case Err(EffectivePolicyNotFound) => Err(PolicyUnavailable)
  }
}
