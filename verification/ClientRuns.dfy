/** Whole runs of the client: any number of concurrent `authenticate` calls, changes in the database between them,
    answers from the network in any order, failures, invalidations. */
module ClientRuns {
  import opened Wrappers
  import opened Ordering
  import opened Resolution
  import opened PermissionCache
  import opened PolicyClient
  import opened CacheRuns
  import PolicyVersions

  type CallId = string

  /** The state of the database that the server answered from, and whether it found the token active. */
  datatype Served = Served(from: nat, active: bool)

  datatype Phase =
    | Requested(claims: Subject, captured: Option<CachedPolicies>)
    | Answered(claims: Subject, captured: Option<CachedPolicies>, response: Response, served: Served)
    | Reading(claims: Subject, body: Effective, etagHeader: Option<string>, served: Served)
    | Done(claims: Subject, result: Result<Effective, ClientError>, answeredBy: Option<Served>)

  /** `current` is the database state that is current now, in the sequence of all states of the run. */
  datatype State = State(current: nat, cache: Cache, calls: map<CallId, Phase>)

  datatype Event =
    | Commit
    | Prepare(call: CallId, claims: Subject)
    | Serve(call: CallId, served: Served)
    | Receive(call: CallId)
    | ReadBody(call: CallId)
    | NetworkFails(call: CallId)
    | Invalidate(scope: Option<Subject>)

  /** The endpoint, asked with an entity tag or without. */
  function Respond(answer: Result<Effective, ResolutionError>, active: bool, ifNoneMatch: Option<string>): Response {
    if !active then Unauthorized
    else
      match answer
      case Err(EffectivePolicyAuthorization) => Forbidden
      case Err(EffectivePolicyNotFound) => Other
      case Ok(effective) =>
        if MatchesIfNoneMatch(ifNoneMatch, effective.etag) then NotModified else Okay(effective, Some(effective.etag))
  }

  /** Inactive tokens are refused, subjects without membership forbidden, and a client that sends back a tag of this
      service is told "not modified" exactly when that tag is current; every other answer carries its own tag. */
  lemma EndpointExactly(answer: Result<Effective, ResolutionError>, active: bool, held: Option<string>)
    requires held.Some? ==> IsTag(held.value)
    requires answer.Ok? ==> IsTag(answer.value.etag)
    ensures var response := Respond(answer, active, held);
      && (response.Unauthorized? <==> !active)
      && (response.Forbidden? <==> active && answer == Err(EffectivePolicyAuthorization))
      && (response.NotModified? <==> active && answer.Ok? && held == Some(answer.value.etag))
      && (response.Okay? <==> active && answer.Ok? && held != Some(answer.value.etag))
      && (response.Okay? ==> response == Okay(answer.value, Some(answer.value.etag)))
  {
    hide IsTag, MatchesIfNoneMatch;
    if answer.Ok? {
      if held.Some? {
        OwnTagMatchesExactly(held.value, answer.value.etag);
      } else {
        WithoutHeader(answer.value.etag);
      }
    }
  }

  lemma WithoutHeader(etag: string)
    ensures !MatchesIfNoneMatch(None, etag)
  {
  }

  /** A client without a cache: it asks without a tag and validates what it gets. */
  function AlwaysFetching<D>(resolve: Resolver<D>, world: seq<D>, claims: Subject, served: Served)
    : Result<Effective, ClientError>
    requires served.from < |world|
  {
    match PolicyClient.Receive(Respond(resolve(world[served.from], claims), served.active, None), None)
    case Finished(result) => result
    case Body(body, etagHeader) => ParsePolicies(body, claims, etagHeader)
  }

  predicate Enabled<D>(world: seq<D>, s: State, e: Event) {
    match e
    case Commit => s.current + 1 < |world|
    case Prepare(call, _) => call !in s.calls
    case Serve(call, served) => call in s.calls && s.calls[call].Requested? && served.from <= s.current < |world|
    case Receive(call) => call in s.calls && s.calls[call].Answered?
    case ReadBody(call) => call in s.calls && s.calls[call].Reading?
    case NetworkFails(call) => call in s.calls && !s.calls[call].Done?
    case Invalidate(_) => true
  }

  function Step<D>(resolve: Resolver<D>, world: seq<D>, s: State, e: Event): State
    requires Enabled(world, s, e)
  {
    match e
    case Commit => s.(current := s.current + 1)
    case Prepare(call, claims) => s.(calls := s.calls[call := Requested(claims, EntryFor(s.cache, claims))])
    case Serve(call, served) =>
      var p := s.calls[call];
      var ifNoneMatch := if p.captured.Some? then Some(p.captured.value.etag) else None;
      var response := Respond(resolve(world[served.from], p.claims), served.active, ifNoneMatch);
      s.(calls := s.calls[call := Answered(p.claims, p.captured, response, served)])
    case Receive(call) =>
      var p := s.calls[call];
      var next :=
        match PolicyClient.Receive(p.response, p.captured)
        case Finished(result) => Phase.Done(p.claims, result, Some(p.served))
        case Body(body, etagHeader) => Reading(p.claims, body, etagHeader, p.served);
      s.(cache := AfterReceive(s.cache, p.claims, p.response), calls := s.calls[call := next])
    case ReadBody(call) =>
      var p := s.calls[call];
      var result := ParsePolicies(p.body, p.claims, p.etagHeader);
      s.(cache := AfterBody(s.cache, p.claims, result),
        calls := s.calls[call := Phase.Done(p.claims, result, Some(p.served))])
    case NetworkFails(call) =>
      s.(calls := s.calls[call := Phase.Done(s.calls[call].claims, Err(PolicyUnavailable), None)])
    case Invalidate(scope) =>
      s.(cache := if scope.Some? then s.cache - {CacheKey(scope.value)} else map[])
  }

  // ----- what the tags must mean -----

  /** Over the whole history an entity tag stands for one answer. */
  ghost predicate TagsDetermine<D>(resolve: Resolver<D>, world: seq<D>) {
    forall i, j, a, b | 0 <= i < |world| && 0 <= j < |world| ::
      SameTagSameAnswer(resolve(world[i], a), resolve(world[j], b))
  }

  predicate SameTagSameAnswer(x: Result<Effective, ResolutionError>, y: Result<Effective, ResolutionError>) {
    x.Ok? && y.Ok? && x.value.etag == y.value.etag ==> x == y
  }

  ghost predicate AnswersAreValid<D>(resolve: Resolver<D>, world: seq<D>) {
    forall i, subject | 0 <= i < |world| :: ValidAnswer(resolve(world[i], subject), subject)
  }

  predicate ValidAnswer(x: Result<Effective, ResolutionError>, subject: Subject) {
    x.Ok? ==> ValidCachedValue(x.value, subject)
  }

  // ----- the invariant -----

  predicate Fetched<D>(resolve: Resolver<D>, world: seq<D>, value: Effective, from: int, claims: Subject) {
    && 0 <= from < |world|
    && resolve(world[from], claims) == Ok(value)
    && ParsePolicies(value, claims, Some(value.etag)) == Ok(value)
  }

  ghost predicate GoodEntry<D>(resolve: Resolver<D>, world: seq<D>, c: CachedPolicies) {
    c.etag == c.value.etag && exists from, claims :: Fetched(resolve, world, c.value, from, claims)
  }

  ghost predicate GoodCapture<D>(resolve: Resolver<D>, world: seq<D>, captured: Option<CachedPolicies>) {
    captured.Some? ==> GoodEntry(resolve, world, captured.value)
  }

  ghost predicate GoodCall<D>(resolve: Resolver<D>, world: seq<D>, p: Phase) {
    match p
    case Requested(_, captured) => GoodCapture(resolve, world, captured)
    case Answered(claims, captured, response, served) =>
      && GoodCapture(resolve, world, captured)
      && served.from < |world|
      && response == Respond(resolve(world[served.from], claims), served.active,
           if captured.Some? then Some(captured.value.etag) else None)
    case Reading(claims, body, etagHeader, served) =>
      && served.from < |world| && served.active
      && resolve(world[served.from], claims) == Ok(body) && etagHeader == Some(body.etag)
    case Done(claims, result, served) =>
      match served
      case Some(s) => s.from < |world| && result == AlwaysFetching(resolve, world, claims, s)
      case None => result == Err(PolicyUnavailable)
  }

  ghost predicate Inv<D>(resolve: Resolver<D>, world: seq<D>, s: State) {
    && s.current < |world|
    && (forall key | key in s.cache :: GoodEntry(resolve, world, s.cache[key]))
    && (forall call | call in s.calls :: GoodCall(resolve, world, s.calls[call]))
  }

  /** "Not modified" means that the server would have sent what the client holds, and the client would accept it. */
  lemma NotModifiedMeansSame<D>(resolve: Resolver<D>, world: seq<D>, claims: Subject, captured: CachedPolicies,
      served: Served)
    requires TagsDetermine(resolve, world) && AnswersAreValid(resolve, world)
    requires GoodEntry(resolve, world, captured) && served.from < |world|
    requires Respond(resolve(world[served.from], claims), served.active, Some(captured.etag)) == NotModified
    ensures AlwaysFetching(resolve, world, claims, served) == Ok(captured.value)
  {
    hide MatchesIfNoneMatch, IsTag, ParsePolicies;
    var from, other :| Fetched(resolve, world, captured.value, from, other);
    var answer := resolve(world[served.from], claims);
    assert ValidAnswer(answer, claims) && ValidAnswer(resolve(world[from], other), other);
    OwnTagMatchesExactly(captured.etag, answer.value.etag);
    assert SameTagSameAnswer(answer, resolve(world[from], other));
    NoTagNoMatch(answer.value.etag);
  }

  lemma NoTagNoMatch(etag: string)
    ensures !MatchesIfNoneMatch(None, etag)
  {
  }

  lemma ReceiveIsGood<D>(resolve: Resolver<D>, world: seq<D>, p: Phase)
    requires TagsDetermine(resolve, world) && AnswersAreValid(resolve, world)
    requires p.Answered? && GoodCall(resolve, world, p)
    ensures match PolicyClient.Receive(p.response, p.captured)
      case Finished(result) => result == AlwaysFetching(resolve, world, p.claims, p.served)
      case Body(body, etagHeader) => GoodCall(resolve, world, Reading(p.claims, body, etagHeader, p.served))
  {
    hide MatchesIfNoneMatch, TagsDetermine, AnswersAreValid, GoodEntry, ParsePolicies;
    if p.response.NotModified? {
      if p.captured.Some? {
        NotModifiedMeansSame(resolve, world, p.claims, p.captured.value, p.served);
      } else {
        NoTagNoMatch(resolve(world[p.served.from], p.claims).value.etag);
      }
    }
  }

  lemma ReadBodyIsGood<D>(resolve: Resolver<D>, world: seq<D>, p: Phase)
    requires p.Reading? && GoodCall(resolve, world, p)
    ensures var result := ParsePolicies(p.body, p.claims, p.etagHeader);
      && result == AlwaysFetching(resolve, world, p.claims, p.served)
      && (result.Ok? ==> GoodEntry(resolve, world, CachedPolicies(result.value.etag, result.value)))
  {
    NoTagNoMatch(p.body.etag);
    ParsedIsBody(p.body, p.claims, p.etagHeader);
    hide MatchesIfNoneMatch, ParsePolicies;
    if ParsePolicies(p.body, p.claims, p.etagHeader).Ok? {
      assert Fetched(resolve, world, p.body, p.served.from, p.claims);
    }
  }

  lemma ParsedIsBody(body: Effective, claims: Subject, etagHeader: Option<string>)
    ensures var result := ParsePolicies(body, claims, etagHeader); result.Ok? ==> result.value == body
  {
    hide PolicyDocument.ValidDocument;
  }

  lemma StepKeepsInv<D>(resolve: Resolver<D>, world: seq<D>, s: State, e: Event)
    requires TagsDetermine(resolve, world) && AnswersAreValid(resolve, world)
    requires Inv(resolve, world, s) && Enabled(world, s, e)
    ensures Inv(resolve, world, Step(resolve, world, s, e))
  {
    hide MatchesIfNoneMatch, TagsDetermine, AnswersAreValid, GoodEntry, ParsePolicies, AlwaysFetching, Respond,
      CacheKey;
    var t := Step(resolve, world, s, e);
    if e.Receive? {
      ReceiveIsGood(resolve, world, s.calls[e.call]);
    } else if e.ReadBody? {
      ReadBodyIsGood(resolve, world, s.calls[e.call]);
    }
  }

  // ----- whole runs -----

  ghost predicate IsRun<D>(resolve: Resolver<D>, world: seq<D>, states: seq<State>, events: seq<Event>) {
    && |world| > 0 && |states| == |events| + 1
    && states[0] == State.State(0, map[], map[])
    && forall i | 0 <= i < |events| ::
         Enabled(world, states[i], events[i]) && states[i + 1] == Step(resolve, world, states[i], events[i])
  }

  lemma {:induction false} RunKeepsInv<D>(resolve: Resolver<D>, world: seq<D>, states: seq<State>, events: seq<Event>,
      i: nat)
    requires TagsDetermine(resolve, world) && AnswersAreValid(resolve, world)
    requires IsRun(resolve, world, states, events) && i < |states|
    ensures Inv(resolve, world, states[i])
  {
    hide TagsDetermine, AnswersAreValid;
    if i > 0 {
      hide Inv, Step, Enabled;
      RunKeepsInv(resolve, world, states, events, i - 1);
      StepKeepsInv(resolve, world, states[i - 1], events[i - 1]);
    }
  }

  /** The caching client refines the one that always fetches: whatever happens in between, a call ends with exactly
      what that client would return for the answer the server gave it, or reports the policies as unavailable
      because the network failed. */
  lemma CachingIsInvisible<D>(resolve: Resolver<D>, world: seq<D>, states: seq<State>, events: seq<Event>, i: nat,
      call: CallId)
    requires TagsDetermine(resolve, world) && AnswersAreValid(resolve, world)
    requires IsRun(resolve, world, states, events) && i < |states|
    requires call in states[i].calls && states[i].calls[call].Done?
    ensures var p := states[i].calls[call];
      match p.answeredBy
      case Some(served) => served.from < |world| && p.result == AlwaysFetching(resolve, world, p.claims, served)
      case None => p.result == Err(PolicyUnavailable)
  {
    hide TagsDetermine, AnswersAreValid, AlwaysFetching, IsRun, GoodEntry;
    RunKeepsInv(resolve, world, states, events, i);
    assert GoodCall(resolve, world, states[i].calls[call]);
  }

  // ----- the tags of the database's answers -----

  /** The histories that the policy store can have, with a digest that does not confuse any two fingerprints that
      occur in them. */
  ghost predicate SoundHistory(hashing: PolicyVersions.Hashing, query: Query, world: seq<Database>) {
    && TotalOrder(hashing.le)
    && (forall i, j | 0 <= i <= j < |world| :: PolicyVersions.Extends(world[i].store, world[j].store))
    && (forall i, subject | 0 <= i < |world| :: Enumerates(world[i], subject, query(world[i], subject)))
    && (forall i, j, a, b | 0 <= i < |world| && 0 <= j < |world| ::
      NoConfusion(hashing, query, world[i], a, world[j], b))
  }

  ghost predicate NoConfusion(hashing: PolicyVersions.Hashing, query: Query, db: Database, a: Subject, db': Database,
      b: Subject)
  {
    Resolve(hashing, db, a, query(db, a)).Ok? && Resolve(hashing, db', b, query(db', b)).Ok? ==>
      NoCollision(hashing, PrintFor(hashing, db, a, query(db, a)), PrintFor(hashing, db', b, query(db', b)))
  }

  /** Because versions are immutable, the tags of the service determine its answers. */
  lemma DatabaseTagsDetermine(hashing: PolicyVersions.Hashing, query: Query, world: seq<Database>)
    requires SoundHistory(hashing, query, world)
    ensures TagsDetermine(DirectAnswer(hashing, query), world)
  {
    var resolve := DirectAnswer(hashing, query);
    forall i, j, a, b | 0 <= i < |world| && 0 <= j < |world|
      ensures SameTagSameAnswer(resolve(world[i], a), resolve(world[j], b))
    {
      PairTagsDetermine(hashing, query, world, i, j, a, b);
    }
  }

  lemma PairTagsDetermine(hashing: PolicyVersions.Hashing, query: Query, world: seq<Database>, i: nat, j: nat,
      a: Subject, b: Subject)
    requires SoundHistory(hashing, query, world) && i < |world| && j < |world|
    ensures SameTagSameAnswer(DirectAnswer(hashing, query)(world[i], a), DirectAnswer(hashing, query)(world[j], b))
  {
    hide PolicyVersions.Extends, Enumerates, NoCollision, PrintFor, Resolve;
    var x, y := world[i], world[j];
    assert NoConfusion(hashing, query, x, a, y, b) && NoConfusion(hashing, query, y, b, x, a);
    assert DirectAnswer(hashing, query)(x, a) == Resolve(hashing, x, a, query(x, a));
    assert DirectAnswer(hashing, query)(y, b) == Resolve(hashing, y, b, query(y, b));
    assert Enumerates(x, a, query(x, a)) && Enumerates(y, b, query(y, b));
    if Resolve(hashing, x, a, query(x, a)).Ok? && Resolve(hashing, y, b, query(y, b)).Ok? {
      if i <= j {
        EqualTagsEqualAnswers(hashing, x, a, query(x, a), y, b, query(y, b));
      } else {
        EqualTagsEqualAnswers(hashing, y, b, query(y, b), x, a, query(x, a));
      }
    }
  }

  lemma DatabaseAnswersAreValid(hashing: PolicyVersions.Hashing, query: Query, world: seq<Database>)
    requires forall text :: IsSha256(hashing.sha256(text))
    ensures AnswersAreValid(DirectAnswer(hashing, query), world)
  {
    hide ValidCachedValue, DirectAnswer, IsSha256;
    forall i, subject | 0 <= i < |world|
      ensures ValidAnswer(DirectAnswer(hashing, query)(world[i], subject), subject)
    {
      if DirectAnswer(hashing, query)(world[i], subject).Ok? {
        StoredAnswersAreValid(hashing, query, world[i], subject);
      }
    }
  }
}
