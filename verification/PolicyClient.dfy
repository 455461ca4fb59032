/** The client that services embed: it keeps the last answer per subject with its entity tag, asks again with
    `If-None-Match`, and validates what it gets before using it. */
module PolicyClient {
  import opened Wrappers
  import opened Text
  import opened Json
  import opened PolicyDocument
  import opened Resolution
  import opened PermissionCache
  import Identifiers

  datatype ClientError = InvalidToken | InsufficientScope | PolicyUnavailable

  datatype CachedPolicies = CachedPolicies(etag: string, value: Effective)

  /** `response.status`, with the body and the `etag` header of a successful answer. */
  datatype Response = Okay(body: Effective, etagHeader: Option<string>) | NotModified | Unauthorized | Forbidden | Other

  // ----- validation of an answer -----

  /** `{ statements, version: POLICY_DOCUMENT_VERSION }` */
  function MergedDocument(statements: seq<Value>): Value {
    Obj([Entry("statements", Arr(statements)), Entry("version", Str(DOCUMENT_VERSION))])
  }

  function ForService(service: string): Context {
    Context(None, service, None)
  }

  /** `parsePolicies`; `claims` holds `sub`, `organization_id` and `service` of the access token. */
  function ParsePolicies(body: Effective, claims: Subject, etagHeader: Option<string>): Result<Effective, ClientError> {
    var etag := if etagHeader.Some? then etagHeader.value else body.etag;
    if !IsDigestTag(etag) || body.etag != etag
      || body.organizationId != claims.organizationId || body.service != claims.service
      || body.subjectUserId != claims.userId
    then Err(PolicyUnavailable)
    else if |body.statements| > 0 && !ValidDocument(MergedDocument(body.statements), ForService(claims.service)) then
      Err(PolicyUnavailable)
    else Ok(body)
  }

  // ----- the cache -----

  /** `cacheKey(claims)` */
  function CacheKey(claims: Subject): string {
    claims.userId + (":" + (claims.organizationId + (":" + claims.service)))
  }

  /** The organization is a UUID and the service is the client's own, so the key tells the subjects apart. */
  lemma CacheKeyInjective(a: Subject, b: Subject)
    requires |a.organizationId| == 36 && |b.organizationId| == 36 && a.service == b.service
    ensures CacheKey(a) == CacheKey(b) <==> a == b
  {
    var x, y := a.organizationId + (":" + a.service), b.organizationId + (":" + b.service);
    if CacheKey(a) == CacheKey(b) {
      var n := |a.userId|;
      assert |CacheKey(a)| == n + 1 + |x| && |CacheKey(b)| == |b.userId| + 1 + |y|;
      assert CacheKey(a)[..n] == a.userId && CacheKey(b)[..n] == b.userId;
      assert CacheKey(a)[n + 1..] == x && CacheKey(b)[n + 1..] == y;
      assert x[..36] == a.organizationId && y[..36] == b.organizationId;
    }
  }

  type Cache = map<string, CachedPolicies>

  function EntryFor(cache: Cache, claims: Subject): Option<CachedPolicies> {
    if CacheKey(claims) in cache then Some(cache[CacheKey(claims)]) else None
  }

  /** What the status decides at once, or the body that is still to be read. */
  datatype Received =
    | Finished(result: Result<Effective, ClientError>)
    | Body(body: Effective, etagHeader: Option<string>)

  function Receive(response: Response, captured: Option<CachedPolicies>): Received {
    match response
    case NotModified => Finished(if captured.Some? then Ok(captured.value.value) else Err(PolicyUnavailable))
    case Unauthorized => Finished(Err(InvalidToken))
    case Forbidden => Finished(Err(InsufficientScope))
    case Other => Finished(Err(PolicyUnavailable))
    case Okay(body, etagHeader) => Body(body, etagHeader)
  }

  function AfterReceive(cache: Cache, claims: Subject, response: Response): Cache {
    if response.Unauthorized? || response.Forbidden? then cache - {CacheKey(claims)} else cache
  }

  function AfterBody(cache: Cache, claims: Subject, result: Result<Effective, ClientError>): Cache {
    match result
    case Ok(value) => cache[CacheKey(claims) := CachedPolicies(value.etag, value)]
    case Err(_) => cache
  }

  /** `createNTAuthClient`: each method is what runs between two suspensions of `loadPolicies`. */
  class Client {
    var cache: Cache

    constructor ()
      ensures cache == map[]
    {
      cache := map[];
    }

    /** Until the request is sent: the entry that is kept for the answer. */
    method PrepareRequest(claims: Subject) returns (cached: Option<CachedPolicies>, ifNoneMatch: Option<string>)
      ensures cached == EntryFor(cache, claims)
      ensures ifNoneMatch == if cached.Some? then Some(cached.value.etag) else None
    {
      var key := CacheKey(claims);
      cached, ifNoneMatch := None, None;
      if key in cache {
        cached := Some(cache[key]);
        ifNoneMatch := Some(cache[key].etag);
      }
    }

    /** When the status has arrived. */
    method ReceiveStatus(claims: Subject, cached: Option<CachedPolicies>, response: Response)
      returns (received: Received)
      modifies this
      ensures received == Receive(response, cached)
      ensures cache == AfterReceive(old(cache), claims, response)
    {
      if response.NotModified? && cached.Some? {
        return Finished(Ok(cached.value.value));
      }
      if response.Unauthorized? {
        cache := cache - {CacheKey(claims)};
        return Finished(Err(InvalidToken));
      }
      if response.Forbidden? {
        cache := cache - {CacheKey(claims)};
        return Finished(Err(InsufficientScope));
      }
      if !response.Okay? {
        return Finished(Err(PolicyUnavailable));
      }
      received := Body(response.body, response.etagHeader);
    }

    /** When the body has arrived; None is a body that is not JSON, not an object, or has no list of statements. */
    method ReceiveBody(claims: Subject, body: Option<Effective>, etagHeader: Option<string>)
      returns (result: Result<Effective, ClientError>)
      modifies this
      ensures result == if body.Some? then ParsePolicies(body.value, claims, etagHeader) else Err(PolicyUnavailable)
      ensures cache == AfterBody(old(cache), claims, result)
    {
      hide ValidDocument;
      if body.None? {
        return Err(PolicyUnavailable);
      }
      result := ParsePolicies(body.value, claims, etagHeader);
      if result.Ok? {
        cache := cache[CacheKey(claims) := CachedPolicies(result.value.etag, result.value)];
      }
    }

    method Invalidate(scope: Option<Subject>)
      modifies this
      ensures cache == if scope.Some? then old(cache) - {CacheKey(scope.value)} else map[]
    {
      if scope.None? {
        cache := map[];
      } else {
        cache := cache - {CacheKey(scope.value)};
      }
    }
  }

  // ----- what the client makes of an answer -----

  /** A body is accepted, unchanged, exactly if it is about the subject of the token, carries a well-formed tag, which a
      header must confirm, and its statements are a valid document for the service. */
  lemma ParsedExactly(body: Effective, claims: Subject, etagHeader: Option<string>)
    ensures ParsePolicies(body, claims, etagHeader) in {Ok(body), Err(PolicyUnavailable)}
    ensures ParsePolicies(body, claims, etagHeader).Ok? <==>
      && body.organizationId == claims.organizationId
      && body.service == claims.service
      && body.subjectUserId == claims.userId
      && (etagHeader.Some? ==> etagHeader.value == body.etag)
      && |body.etag| == 66 && body.etag[0] == '"' && body.etag[65] == '"'
      && (forall i | 0 < i < 65 :: '0' <= body.etag[i] <= '9' || 'a' <= body.etag[i] <= 'f')
      && (body.statements == []
          || ValidDocument(Obj([Entry("statements", Arr(body.statements)), Entry("version", Str("2026-01-01"))]),
               Context(None, claims.service, None)))
  {
    hide ValidDocument;
  }

  /** Only "not modified" is answered from the cache, with the entry whose tag was sent. When the service refuses the
      token, the entry is forgotten; every other failure leaves the cache alone. No failure yields policies. */
  lemma StatusDecides(cache: Cache, claims: Subject, captured: Option<CachedPolicies>, response: Response)
    ensures var received, after := Receive(response, captured), AfterReceive(cache, claims, response);
      && (received.Body? <==> response.Okay?)
      && (received.Finished? && received.result.Ok? <==> response.NotModified? && captured.Some?)
      && (received.Finished? && received.result.Ok? ==> received.result.value == captured.value.value)
      && (received == Finished(Err(InvalidToken)) <==> response.Unauthorized?)
      && (received == Finished(Err(InsufficientScope)) <==> response.Forbidden?)
      && (if response.Unauthorized? || response.Forbidden?
          then after == map key | key in cache && key != CacheKey(claims) :: cache[key]
          else after == cache)
  {
  }

  /** An accepted body replaces the entry of its subject, with its tag, so that the next request sends this tag; a
      refused one changes nothing. */
  lemma BodyIsKept(cache: Cache, claims: Subject, result: Result<Effective, ClientError>, key: string)
    ensures var after := AfterBody(cache, claims, result);
      && (result.Ok? ==> EntryFor(after, claims) == Some(CachedPolicies(result.value.etag, result.value)))
      && (result.Err? || key != CacheKey(claims) ==>
            (key in after <==> key in cache) && (key in cache ==> after[key] == cache[key]))
  {
  }

  // ----- which answers the client accepts -----

  /** What a document says that was validated against a catalogue holds without one. */
  lemma ValidWithoutCatalogue(v: Value, context: Context)
    requires ValidStatement(v, context)
    ensures ValidStatement(v, ForService(context.expectedService))
  {
    hide ValidConditions, ValidSid, KnownKeys, AllDifferent;
    var plain := ForService(context.expectedService);
    ValidIdentifiersWithoutCatalogue(Get(v, "actions"), 50, Identifiers.Action, context);
    ValidIdentifiersWithoutCatalogue(Get(v, "resources"), 100, Identifiers.Resource, context);
  }

  lemma ValidIdentifiersWithoutCatalogue(v: Option<Value>, maximum: nat, kind: Identifiers.Kind, context: Context)
    requires ValidIdentifiers(v, maximum, kind, context)
    ensures ValidIdentifiers(v, maximum, kind, ForService(context.expectedService))
  {
    hide AllDifferent, Identifiers.IsPolicyIdentifier;
    forall i | 0 <= i < |v.value.items|
      ensures ValidIdentifier(v.value.items[i], kind, ForService(context.expectedService))
    {
      assert ValidIdentifier(v.value.items[i], kind, context);
    }
  }

  lemma MergedDocumentParts(statements: seq<Value>)
    ensures var v := MergedDocument(statements);
      KnownKeys(v, {"version", "statements"}) && Get(v, "version") == Some(Str(DOCUMENT_VERSION))
      && Get(v, "statements") == Some(Arr(statements))
  {
    var es := MergedDocument(statements).entries;
    assert es[1..] == [es[1]] && |es[0].key| == 10 && |es[1].key| == 7;
    assert Lookup([es[1]], "version") == Some(es[1].value);
    assert Lookup(es, "version") == Lookup(es[1..], "version");
  }

  /** The limits that hold for a document as a whole, now asked of the merge of all policies. */
  predicate WithinDocumentLimits(statements: seq<Value>) {
    && |statements| <= 100
    && UniqueSids(statements)
    && Utf8Length(Stringify(MergedDocument(statements))) <= 65_536
  }

  /** An answer about the right subject, made of statements that were validated for the service one policy at a
      time, is accepted exactly when their merge keeps the limits of a single document: the number of statements,
      no sid twice, and the size. Otherwise the client reports the policies as unavailable. */
  lemma AcceptedExactly(body: Effective, claims: Subject, contexts: seq<Context>)
    requires ValidCachedValue(body, claims)
    requires |contexts| == |body.statements|
    requires forall i | 0 <= i < |contexts| ::
      contexts[i].expectedService == claims.service && ValidStatement(body.statements[i], contexts[i])
    ensures ParsePolicies(body, claims, Some(body.etag))
      == if body.statements == [] || WithinDocumentLimits(body.statements) then Ok(body) else Err(PolicyUnavailable)
  {
    hide ValidStatement, UniqueSids, Stringify, Utf8Length;
    var context := ForService(claims.service);
    forall i | 0 <= i < |body.statements|
      ensures ValidStatement(body.statements[i], context)
    {
      ValidWithoutCatalogue(body.statements[i], contexts[i]);
    }
    MergedDocumentParts(body.statements);
    hide KnownKeys, Get, MergedDocument;
  }

  /** So a named statement that reaches the subject through two policies makes all its policies unavailable. */
  lemma SharedSidIsRefused(body: Effective, claims: Subject, i: nat, j: nat)
    requires i < j < |body.statements|
    requires Named(body.statements[i]) && Named(body.statements[j])
    requires Get(body.statements[i], "sid") == Get(body.statements[j], "sid")
    ensures ParsePolicies(body, claims, Some(body.etag)) == Err(PolicyUnavailable)
  {
    hide ValidStatement, Stringify, Utf8Length;
    MergedDocumentParts(body.statements);
    hide KnownKeys, MergedDocument;
  }
}
