# NTAuth: a verified model

NTAuth is a central identity, OAuth and IAM service. This project models the parts of it whose correctness is not
visible in any single function, in Dafny 4.11, and proves what they promise together. `dafny verify dfyconfig.toml`
checks everything.

The model follows the program's form. What the program computes by expressions and recursion is a function. What it
does step by step (loops, classes with fields, tables and caches that are updated) is a method or a class, and its
contract ties it to a function; the laws are lemmas about those functions. Where several processes share state, the
functions are the steps of a state machine and the theorems hold in every run of it.

| Modules | Subject |
|---|---|
| `Glob`, `Conditions` | the glob compiler, the regular expressions it emits and their matching, condition evaluation |
| `Identifiers`, `PolicyDocument`, `Validator`, `Evaluator` | identifiers and their matching, the document format and its validator, the deny-first decision |
| `Json`, `Text` | `canonicalJson`, `JSON.stringify`, `encodeURIComponent`, numerals |
| `PolicyVersions`, `PolicyRuns` | append-only policy versions, and concurrent writers under row locks |
| `EffectivePolicies`, `Resolution`, `ServiceIsolation` | merging attached policies, the entity tag, conditional requests, what a service receives |
| `PermissionCache`, `CacheRuns` | the Redis generation cache under any interleaving |
| `PolicyClient`, `ClientRuns` | the caching client that services embed, under any interleaving |
| `ServiceRuns` | writers, both caches and clients together |
| `JobQueue`, `Worker`, `QueueRuns` | jobs with leases, workers, crashes |
| `Base32`, `Base32Codec`, `Totp`, `Mfa`, `MfaRuns` | the secret codec on a 32-bit accumulator, one-time passwords, enrolments |
| `RateLimit` | the fixed-window counter and the lockout over time |
| `AuditPages`, `AuditFilters`, `AuditWalks` | filters and organizations, keyset pagination, export, purge |
| `TokenRevocation` | the pruned revocation list |
| `Wrappers`, `Ordering`, `Sequences`, `Arithmetic` | options and results, sorting, division by variables |

## What the proofs found

- `docs/iam/policy-documents.md` line 43 says that `StringLike` accepts `*` and `?`. The compiled expression has no
  `s` flag, so neither crosses a line terminator; `Glob.DocumentationHoldsOnOneLine` says on which texts the two readings
  agree, `Glob.StarStopsAtLineEnd` has one on which they do not.
- The audit cursor goes through `toISOString`. A page break between two events of one millisecond can skip events;
  `AuditWalks.PagesAreListingExactly` gives the exact condition and `AuditWalks.SameMillisecondIsSkipped` an example.
- A client validates the merged statements of all policies as one document. A named statement that reaches a subject
  through two policies makes all its policies unavailable (`PolicyClient.AcceptedExactly`, `PolicyClient.SharedSidIsRefused`).
- An invalidation whose event id was used for the scope within the last day does nothing, and the next `get` can return the
  old entry: `CacheRuns.UsedEventKeepsOldAnswer` has the run, `CacheRuns.InvalidationWorksExactly` the exact condition.
- `docs/iam/permission-cache.md` line 31 says that entries are bounded by the five seconds of their time to live. That bounds
  the time since an entry was stored, not the age of what it says: a reader that is slow between its read and its store
  can make a later `get` answer from a state that was superseded any time ago (`CacheRuns.SlowReaderServesOldState`).
  `CacheRuns.AgeIsBounded` has the bound that holds, `CacheRuns.AgeBoundIsReached` runs that reach it.
- A request that is under way in the very millisecond in which a revoked token expires can be accepted
  (`TokenRevocation.ExpiringRequestIsAccepted` has the run, `TokenRevocation.DecisionExactly` the condition); with a
  fractional `exp` there would be a gap (`TokenRevocation.NoGapExactly`).
- Bounds are sharper than they look: fewer than `2 * max` calls in any interval as long as a window, and with requests one
  at a time `2 * threshold - 2` recorded failures (for a threshold of two or more). Both are reached.

## Assumptions

- Strings are sequences of Unicode scalar values: no lone surrogates, which `jsonb` would refuse.
- `localeCompare` and the default sort are any total order, given as a parameter.
- HMAC, SHA-256 and AES-GCM are not computed. HMAC and SHA-256 are function parameters. SHA-256 is assumed not to confuse
  those fingerprints that occur in the history at hand (`Resolution.NoCollision`, `ClientRuns.NoConfusion`), not to be
  injective. An encrypted TOTP secret is represented by the secret.
- PostgreSQL gives row locks, unique indexes, atomic commits and repeatable-read snapshots; Redis runs scripts and commands
  one at a time and never evicts generation keys.
- Redis times, rate limits and lockouts use whole seconds; jobs, tokens and cursors use milliseconds; `created_at` of audit
  events uses microseconds. Floating-point division of the clock in `totpCounter` is exact division.
- Fields of model states that the program does not store (how often a job was handed out, the state an entry was read
  from, the accepted codes, the requests answered so far) record history for the theorems and never influence a step.

## Model

| member | source | states |
|---|---|---|
| Glob.EveryEscapeIsNeededAndLegal | packages/permissions/src/conditions.ts:43 | the characters that the compiler escapes are exactly the syntax characters of a pattern (ECMA-262 section 22.2.1), so under the `u` flag no escape is missing and none is an error |
| Glob.CompiledSourceParses | packages/permissions/src/conditions.ts:38-46 | for every glob the emitted source parses, by the pattern grammar, back to the intended expression: no character of the glob ever acts as syntax |
| Glob.WildcardPattern | packages/permissions/src/conditions.ts:38-46 | the loop that appends to `source` produces a text that parses to the intended expression |
| Glob.CompiledPatternMeansGlob | packages/permissions/src/conditions.ts:38-46 | the anchored expression matches a string exactly when the string splits into pieces that fit the glob: any run for `*`, one code point for `?`, both without line terminators, the character itself otherwise |
| Glob.DocumentationHoldsOnOneLine | packages/permissions/src/conditions.ts:38-46 | the documented meaning of the wildcards agrees with the code for all globs if and only if the string has no line terminator |
| Glob.StarStopsAtLineEnd | packages/permissions/src/conditions.ts:41 | a text of two lines that `*` is documented to accept and does not |
| Conditions.SomePatternMatches | packages/permissions/src/conditions.ts:84-86 | some expected pattern matches the value, in terms of globs |
| Conditions.EvaluateEntry | packages/permissions/src/conditions.ts:69-90 | one variable of one operator, with its error branches, holds exactly when the specification of an entry does |
| Conditions.EvaluatePolicyConditions | packages/permissions/src/conditions.ts:55-93 | the nested loops with early returns decide whether every entry of every operator holds; malformed conditions never hold |
| Conditions.ValuesComeFromNamespace | packages/permissions/src/conditions.ts:32-36 | for every key and context, `user.`, `organization.` and `service.` read that key of their own namespace, and nothing where it is absent |
| Conditions.OtherNamespacesDoNotMatter | packages/permissions/src/conditions.ts:55-93 | conditions on one namespace have the same answer in any two contexts that agree on it |
| Conditions.SingleConditionExactly | packages/permissions/src/conditions.ts:55-93 | one condition of any shape holds exactly if its variable is one of the nine declared and its value satisfies the operator: equal to a listed string, to none of them, matched by a listed glob, or the same boolean |
| Conditions.ConditionsCompose | packages/permissions/src/conditions.ts:60-92 | several operators hold exactly if each of them holds |
| Conditions.EntriesCompose | packages/permissions/src/conditions.ts:69-91 | several variables of an operator hold exactly if each of them holds |
| Conditions.EmptyOperatorsNeverHold | packages/permissions/src/conditions.ts:59-68 | an operator without variables or with no object never holds; absent conditions always do |
| Conditions.ValidatedConditionsAreConjunctions | packages/permissions/src/conditions.ts:55-93 | on validated conditions the result is the conjunction of the meanings of the entries; the malformed-input branches are never taken |
| Identifiers.MatchingIsSegmentMatching | packages/permissions/src/evaluator.ts:24-29 | for all strings: what matching on characters means for the segments between colons |
| Identifiers.WellFormedMatchingIsSegmentMatching | packages/permissions/src/evaluator.ts:24-29 | for well-formed patterns and concrete identifiers: equal segment lists, or the pattern without its final `*` is a proper prefix |
| Identifiers.MatchStaysInService | packages/permissions/src/iam.ts:92-109 | a pattern that is valid for a service matches only identifiers of that service |
| Identifiers.IdentifiersExactly | packages/permissions/src/iam.ts:92-109 | the identifiers are exactly the texts of at most 256 units made of a service name and segments of the kind, joined by colons, where only the last segment may be a wildcard instead |
| Identifiers.IdentifiersAreBuilt | packages/permissions/src/iam.ts:87-109 | conversely every such text is one and splits into the parts it was made of |
| Identifiers.ConcreteExactly | packages/permissions/src/evaluator.ts:20-22 | concrete identifiers are those without a wildcard |
| PolicyDocument.DocumentIssuesExact | packages/permissions/src/iam.ts:230-312 | the list of issues is empty exactly when the document satisfies a declarative format: limits, uniqueness, catalogue, condition typing |
| PolicyDocument.StatementIssuesExact | packages/permissions/src/iam.ts:265-307 | the same for one statement, given the sids seen before |
| PolicyDocument.ConditionsIssuesExact | packages/permissions/src/iam.ts:192-228 | the same for the conditions of a statement, with the count of keys |
| PolicyDocument.IdentifiersIssuesExact | packages/permissions/src/iam.ts:141-161 | the same for a list of actions or resources, with repeated entries |
| PolicyDocument.LookupExactly | packages/permissions/src/iam.ts:265-275 | a field is found exactly if it is an entry of the object |
| PolicyDocument.IdentifierCodes | packages/permissions/src/iam.ts:111-139 | an identifier has at most one issue, and each code has its own reason |
| PolicyDocument.ListCodes | packages/permissions/src/iam.ts:141-161 | the codes at the path of a list, and of its repetitions |
| PolicyDocument.KeyCodes | packages/permissions/src/iam.ts:163-228 | the codes of a condition key and of its value |
| PolicyDocument.OperatorCodes | packages/permissions/src/iam.ts:192-217 | the codes of an operator |
| PolicyDocument.SidCodes | packages/permissions/src/iam.ts:275-287 | the codes of a sid |
| Validator.IssueList.Add | packages/permissions/src/iam.ts:67-74 | appends one issue |
| Validator.RejectUnknownKeys | packages/permissions/src/iam.ts:76-85 | appends an issue for each key that is not allowed, in order |
| Validator.ValidateIdentifier | packages/permissions/src/iam.ts:111-139 | appends the first issue of an identifier: type, length, format, service, catalogue |
| Validator.ValidateStringArray | packages/permissions/src/iam.ts:141-161 | appends the issues of a list, with a set of the entries seen so far |
| Validator.ValidateConditionValue | packages/permissions/src/iam.ts:163-190 | appends the issues of a condition value |
| Validator.ValidateConditions | packages/permissions/src/iam.ts:192-228 | appends the issues of all operators and keys, and counts keys as the loop does |
| Validator.ValidateStatement | packages/permissions/src/iam.ts:265-307 | appends the issues of a statement and extends the set of sids |
| Validator.ValidatePolicyDocument | packages/permissions/src/iam.ts:230-312 | accepts exactly the documents of the declarative format and otherwise reports exactly the specified issues |
| Evaluator.StatementMatches | packages/permissions/src/evaluator.ts:31-43 | decides whether a statement is effective: a known effect, an action pattern, a resource pattern and all conditions |
| Evaluator.EvaluatePolicy | packages/permissions/src/evaluator.ts:45-89 | the loop that fills `allow` and `deny` yields a deny-by-default decision: allowed exactly for a concrete request with an effective Allow and no effective Deny, the reason agrees, each list names exactly the effective statements of its effect by sid or place, and is sorted |
| Evaluator.DecidesByDenial | packages/permissions/src/evaluator.ts:45-89 | the same of the specified decision, for all statements and requests |
| Evaluator.ExplanationsAreSorted | packages/permissions/src/evaluator.ts:66-67 | both lists come sorted |
| Evaluator.VerdictOfConcatenation | packages/permissions/src/evaluator.ts:59-89 | the decision on two lists is the join of their decisions under deny over allow over nothing |
| Evaluator.DecisionIgnoresOrder | packages/permissions/src/evaluator.ts:59-89 | permuting statements never changes the verdict, nor the explanation when the applying statements are named |
| Evaluator.ValidatedDocumentStaysInService | packages/permissions/src/evaluator.ts:31-89 | a document validated for a service decides nothing about actions or resources of another |
| Json.CanonicalForm | packages/db/src/iam-policies.ts:95-104 | two well-formed values print alike if and only if they are equal up to the order of object keys |
| Json.EqualTextSameValue | packages/db/src/iam-policies.ts:95-104 | under any arrangement of keys, equal texts come from values equal up to key order: nesting and quoting are unambiguous (RFC 8259 section 7) |
| Json.ReadBack | packages/db/src/iam-policies.ts:95-104 | a printed value can be read off the front of a longer text, which leaves the same rest |
| PolicyVersions.PolicyStore.CreateIamPolicy | packages/db/src/iam-policies.ts:203-260 | one transaction: name, permission, validation and uniqueness in this order, then policy and version 1 |
| PolicyVersions.PolicyStore.AppendVersion | packages/db/src/iam-policies.ts:272-301 | refuses an outdated expected version; otherwise adds the next version and advances the policy |
| PolicyVersions.PolicyStore.CreateIamPolicyVersion | packages/db/src/iam-policies.ts:303-337 | the whole transaction of a new version with its error cases |
| PolicyVersions.PolicyStore.RollbackIamPolicy | packages/db/src/iam-policies.ts:339-389 | the whole transaction of a rollback with its error cases |
| PolicyVersions.PolicyStore.SetIamPolicyStatus | packages/db/src/iam-policies.ts:391-429 | changes nothing but the status |
| PolicyVersions.CreatedExactly | packages/db/src/iam-policies.ts:203-260 | a policy is created exactly for a permitted writer with a name that is not blank, not too long and free in its organization and service, and a document valid against the active catalogue; then the policy is active under the trimmed name, and version 1 holds the document and the hash of its canonical text |
| PolicyVersions.VersionCreatedExactly | packages/db/src/iam-policies.ts:303-337 | a version is written exactly for a permitted writer who has seen the current version and brings a valid document; then it is the next one |
| PolicyVersions.RolledBackExactly | packages/db/src/iam-policies.ts:339-389 | a rollback succeeds exactly for a permitted writer who has seen the current version and names an existing one, whose document it writes again |
| PolicyVersions.StatusSetExactly | packages/db/src/iam-policies.ts:391-429 | the status changes exactly for a permitted writer, and nothing else does |
| Text.TrimExactly | packages/db/src/iam-policies.ts:208-228 | trimming takes away all white space at both ends and nothing else |
| Text.Utf16Counts | packages/db/src/iam-policies.ts:208 | the length of a text is that of its parts, and counts two for exactly the characters above the basic plane |
| PolicyVersions.CreatedKeepsInv | packages/db/src/iam-policies.ts:203-260 | creation keeps the invariant of the tables: contiguous versions, hashes of documents, copies of earlier sources, documents valid for the service, unique names |
| PolicyVersions.AppendedKeepsInv | packages/db/src/iam-policies.ts:272-301 | appending keeps it, succeeds only for the current version, and never meets a version that exists already |
| PolicyRuns.StepKeepsInv | packages/db/src/iam-policies.ts:262-301 | with locking, reading, inserting and committing as separate steps of many writers, every step keeps: who holds a lock has read the current row and will write what its request asks for |
| PolicyRuns.InterleavingsAreSerial | packages/db/src/iam-policies.ts:303-429 | in every run the committed tables and all answers are those of the answered requests carried out one after the other, and the table invariant holds |
| PolicyRuns.VersionsOfPolicy | packages/db/src/iam-policies.ts:272-301 | in every run the versions of a policy are exactly 1 up to its current one |
| PolicyRuns.VersionsNeverChange | packages/db/migrations/0015_chief_johnny_blaze.sql:39-48 | a committed version is the same in all later states, and so are the name, service and organization of a policy |
| PolicyRuns.OneWritePerExpectedVersion | packages/db/src/iam-policies.ts:282-283 | successful writes to a policy expect strictly increasing versions, so at most one succeeds for each |
| PolicyRuns.RollbackRestores | packages/db/src/iam-policies.ts:339-389 | a successful rollback has written a version with the document and hash of its strictly earlier target, and it is still there |
| EffectivePolicies.MergeEffectivePolicies | packages/db/src/effective-policies.ts:64-82 | the loop over a Map, the sort and the maps compute the specified merge |
| EffectivePolicies.MergeContents | packages/db/src/effective-policies.ts:64-82 | for any rows the result holds the last row of every policy, each policy once, ordered by name and id |
| EffectivePolicies.MergeIgnoresArrangement | packages/db/src/effective-policies.ts:64-82 | for rows of one snapshot neither their order nor their repetition matters |
| Resolution.GetEffectivePolicies | packages/db/src/effective-policies.ts:159-255 | only members get an answer, only about registered services; it is about the subject, without a grant it is empty, and with one it holds exactly the active policies of the organization and service with an attachment, not detached, to the user, the role or a group, each once, in order, with the statements of its current version |
| Resolution.ResolvesExactly | packages/db/src/effective-policies.ts:159-255 | the same of the specified answer, for all snapshots and arrangements of their rows |
| Resolution.TagDescribesSnapshot | packages/db/src/effective-policies.ts:56-62 | the tag is the quoted digest of a text that holds the grant, the groups, the organization, the role, the subject and every policy with its version and hash |
| Resolution.SnapshotDeterminesAnswer | packages/db/src/effective-policies.ts:189-255 | the answer and its tag depend on the snapshot only, not on how the query orders and repeats its rows |
| Resolution.EqualTagsEqualPrints | packages/db/src/effective-policies.ts:56-62 | equal tags come from equal fingerprints, read back from their JSON text |
| Resolution.EqualTagsEqualAnswers | packages/db/src/effective-policies.ts:229-251 | two answers, for any subjects and at any two times of one history, have equal tags if and only if they are equal, because versions are immutable |
| Resolution.ConditionHoldsExactly | apps/api/src/effective-policies.ts:28-35 | for a header that lists tags the decision is the weak comparison with one of them, spelled out, or `*` (RFC 9110 sections 8.8.3.2 and 13.1.2) |
| Resolution.OwnTagMatchesExactly | apps/api/src/effective-policies.ts:28-35 | a client that sends the tag it holds gets "not modified" exactly when that tag is current |
| ServiceIsolation.EffectiveStatementsStayInService | packages/db/src/effective-policies.ts:189-255 | no state of the policy store lets the statements a subject gets for a service decide about another service |
| ServiceIsolation.MergedVerdictIsJoin | packages/db/src/effective-policies.ts:80 | the verdict on the merged statements is the join of the verdicts on the policies |
| Text.ComponentReadBack | apps/api/src/iam-cache.ts:25-27 | an encoded component ends at the next colon, so it and what follows can be read back from a key |
| PermissionCache.EntryKeyInjective | apps/api/src/iam-cache.ts:25-31 | different organizations, services, users or generations never share an entry |
| PermissionCache.GenerationKeyInjective | apps/api/src/iam-cache.ts:25-31 | scopes never share a generation counter |
| PermissionCache.EventKeyInjective | apps/api/src/iam-cache.ts:58-73 | scopes and events never share an event key |
| PermissionCache.KindsOfKeysDiffer | apps/api/src/iam-cache.ts:58-107 | counters, events and entries never collide |
| PermissionCache.Redis.EvalInvalidate | apps/api/src/iam-cache.ts:13-19 | the script marks a new event for a day and advances the generation, and does nothing for a live event |
| PermissionCache.Redis.GetEntry | apps/api/src/iam-cache.ts:107-111 | finds a live entry that is valid for the subject, nothing, or text that does not parse, which throws |
| PermissionCache.Redis.SetEntry | apps/api/src/iam-cache.ts:113 | stores an entry for the time to live and touches nothing else |
| PermissionCache.Redis.Get | apps/api/src/iam-cache.ts:102-119 | the whole `get`, whatever others and time do to Redis between its steps, with commands that throw or whose answer is lost: a hit as of the lookup, a read that is stored under the generation of the start, or the direct answer |
| PermissionCache.NextGetHits | apps/api/src/iam-cache.ts:102-119 | of two undisturbed `get`s in a row the second returns what the first returned, whatever the database says by then |
| PermissionCache.GetAnswers | apps/api/src/iam-cache.ts:102-119 | a `get` answers with a live entry about the subject or with what the database says, with the latter whatever fails in Redis, and writes nothing but the entry of its subject |
| PermissionCache.HitConcerns | apps/api/src/iam-cache.ts:33-48 | an entry is accepted exactly if it is live, about this subject, and has a tag of 64 hexadecimal digits |
| PermissionCache.EventLastsADay | apps/api/src/iam-cache.ts:13-19 | an accepted event shuts out its repetitions for exactly 86400 seconds and advances the generation by one |
| CacheRuns.StepKeepsInv | apps/api/src/iam-cache.ts:102-119 | every step of every interleaving, lost answers included, keeps: what is stored or about to be stored under a generation was read from a state no older than the invalidation that began it |
| CacheRuns.HitIsGet | apps/api/src/iam-cache.ts:102-111 | a reader of a run that finds its entry does what the `get` of the program does among the other events of the run |
| CacheRuns.StoredIsGet | apps/api/src/iam-cache.ts:102-119 | the same for a reader that finds nothing, reads the database and stores, with or without an answer to its SET, so the theorems on runs hold for the program |
| CacheRuns.FreshAfterAcceptedInvalidation | apps/api/src/iam-cache.ts:58-119 | a `get` that begins after an accepted invalidation answers from a state with everything committed before it, however late other readers store |
| CacheRuns.AgeIsBounded | apps/api/src/iam-cache.ts:102-119 | an entry is served less than the time to live after it was stored, and a commit is missing from an answer only if it was made after the `get` began, or less than the time to live, plus the time from read to store of the reader who stored the entry, before the answer was served |
| CacheRuns.AgeBoundIsReached | apps/api/src/iam-cache.ts:102-119 | for every pause between read and store and every time to live, a run in which the missing commit is one second younger than the two together |
| CacheRuns.SlowReaderServesOldState | apps/api/src/iam-cache.ts:112-113 | for any pause, a run in which a `get` that begins at least that long after a commit answers from the state before it, although entries live only for the time to live |
| CacheRuns.InvalidationWorksExactly | apps/api/src/iam-cache.ts:13-19 | with a live entry, the next `get` after commit and announcement goes to the database if and only if the event id is not live for the scope; otherwise it returns the old entry |
| CacheRuns.UsedEventKeepsOldAnswer | apps/api/src/iam-cache.ts:13-19 | a run in which that happens: an event is used, an answer is stored, a change is committed and announced under the same event, and the next `get` answers from the state before the change |
| CacheRuns.StoredAnswersAreValid | apps/api/src/iam-cache.ts:33-48 | what the service stores always passes its own check when it is read back |
| PolicyClient.CacheKeyInjective | packages/elysia-auth/src/client.ts:116-118 | subjects of a client's service never share a cache entry |
| PolicyClient.Client.PrepareRequest | packages/elysia-auth/src/client.ts:143-150 | sends the tag of the entry it keeps for the answer |
| PolicyClient.Client.ReceiveStatus | packages/elysia-auth/src/client.ts:157-168 | 304 yields the kept value, 401 and 403 drop the entry, other failures leave the cache |
| PolicyClient.Client.ReceiveBody | packages/elysia-auth/src/client.ts:169-177 | a validated body is cached under its tag; another one, or one that is not a policy answer at all, is refused and leaves the cache |
| PolicyClient.Client.Invalidate | packages/elysia-auth/src/client.ts:203-206 | drops one entry or all |
| PolicyClient.ParsedExactly | packages/elysia-auth/src/client.ts:83-114 | a body is accepted, unchanged, exactly if it is about the organization, service and user of the token, has a well-formed tag that a header confirms, and its statements are a valid document for the service |
| PolicyClient.StatusDecides | packages/elysia-auth/src/client.ts:157-168 | only "not modified" is answered from the cache, with the entry whose tag was sent; a refused token loses its entry, all other failures leave the cache alone, and no failure yields policies |
| PolicyClient.BodyIsKept | packages/elysia-auth/src/client.ts:175-177 | an accepted body replaces the entry of its subject, so the next request sends its tag; nothing else changes |
| PolicyClient.AcceptedExactly | packages/elysia-auth/src/client.ts:83-114 | an answer made of policies that were validated one by one is accepted if and only if their merge keeps the limits of one document: count, distinct sids, size |
| PolicyClient.SharedSidIsRefused | packages/elysia-auth/src/client.ts:102-112 | a sid that reaches the subject twice makes the answer unusable |
| ClientRuns.StepKeepsInv | packages/elysia-auth/src/client.ts:143-178 | with requests, answers and bodies of concurrent calls in any order, every cached value is an accepted answer of some state |
| ClientRuns.CachingIsInvisible | packages/elysia-auth/src/client.ts:143-178 | for any service whose tags determine its answers, every call ends with exactly what a client without a cache would return for the answer the server gave it, or with "unavailable" after a network failure |
| ClientRuns.EndpointExactly | apps/api/src/effective-policies.ts:60-99 | inactive tokens are refused, strangers forbidden, and a held tag is answered "not modified" exactly when it is the current one |
| ClientRuns.DatabaseTagsDetermine | packages/db/src/effective-policies.ts:56-62 | in a history with immutable versions the service's tags determine its answers, as the client relies on |
| ClientRuns.DatabaseAnswersAreValid | packages/db/src/effective-policies.ts:159-255 | all answers of the service are about the subject that was asked for and carry a well-formed tag |
| ServiceRuns.WritersKeepHistorySound | packages/db/src/iam-policies.ts:203-429 | every history of databases whose policy tables come from a run of concurrent writers is one in which tags determine answers; immutability is not assumed |
| ServiceRuns.CachingClientIsInvisible | packages/elysia-auth/src/client.ts:143-178 | for the service's own database, in every run of concurrent writers and concurrent client calls, the caching client returns what one without a cache would return for the state the service answered from |
| ServiceRuns.FreshThroughBothCaches | apps/api/src/effective-policies.ts:77-90 | a call that the service answers by a `get` begun after an accepted invalidation ends with that `get`'s answer, validated, from a state with everything committed before the invalidation |
| ServiceRuns.ClientHoldsEntitled | apps/api/src/effective-policies.ts:77-90 | what the client then holds is exactly what the subject is entitled to, in terms of the tables, in a state not older than the invalidation; so a grant revoked before it, and not given again, leaves nothing |
| JobQueue.JobQueue.Enqueue | apps/worker/src/queue.ts:39-55 | a known deduplication key yields the existing job, otherwise one available row is added |
| JobQueue.JobQueue.Claim | apps/worker/src/queue.ts:66-105 | fails exhausted expired rows and leases an oldest eligible row that is not skipped, or none when there is none |
| JobQueue.JobQueue.CompleteJob | apps/worker/src/queue.ts:107-117 | completes the row if this worker still holds its lease, else changes nothing |
| JobQueue.JobQueue.RetryJob | apps/worker/src/queue.ts:119-131 | releases the row with a delay, or fails it on the last attempt, if the lease is still held |
| JobQueue.EnqueuedIsDue | apps/worker/src/queue.ts:39-55 | a new job is due at once, with five attempts unless it says otherwise |
| JobQueue.ClaimTakesDue | apps/worker/src/queue.ts:76-91 | the claimed job has attempts left and waits no longer for its delay, or its lease is as old as the timeout; no other such job became available earlier; and nothing is claimed only if there is none |
| JobQueue.ClaimedExactly | apps/worker/src/queue.ts:69-105 | a claim leases the chosen row, fails exhausted rows with an old lease, and leaves all others as they are |
| JobQueue.CompletedExactly | apps/worker/src/queue.ts:107-117 | only the holder of the lease completes, and an email payload is dropped |
| JobQueue.RetriedExactly | apps/worker/src/queue.ts:119-131 | only the holder gives back, after the delay, unless that was the last attempt |
| Worker.WorkerProcessor.RunOnce | apps/worker/src/worker.ts:41-62 | one pass, whatever others do to the table in between and whichever statement throws, before or after it took effect: claim, handler, completion, and the retry of the catch block |
| Worker.WorkerProcessor.Run | apps/worker/src/worker.ts:64-76 | the polling loop ends stopped, or running when a pass throws; as long as nobody enqueues, every processed job spends one of the attempts that are left, however others interfere |
| Worker.UndisturbedPass | apps/worker/src/worker.ts:41-62 | without interference and exceptions the claimed job ends completed, rescheduled or failed, without a lease |
| Worker.CompletedPassIsRun | apps/worker/src/worker.ts:46-51 | a pass that completes, with what others do meanwhile, is a run of the queue, so its theorems hold for the program |
| Worker.RetriedPassIsRun | apps/worker/src/worker.ts:52-59 | the same for a pass that ends in the catch block, with all ways in which completion and retry can throw |
| Worker.EmptyPassIsRun | apps/worker/src/worker.ts:42-43 | the same for a claim that finds nothing or whose answer is lost |
| QueueRuns.StepKeepsInvariant | apps/worker/src/queue.ts:66-131 | with many workers, crashes and lost answers every step keeps the row invariant: attempts within the maximum, available rows have attempts left, leases belong to their workers |
| QueueRuns.AttemptsAreBounded | apps/worker/src/worker.ts:41-62 | over all workers and crashes a job is handed out as often as its attempts say, and at most its maximum |
| QueueRuns.FinalRowsStay | apps/worker/src/queue.ts:66-131 | completed and failed rows never change |
| QueueRuns.StaleHoldersAreHarmless | apps/worker/src/queue.ts:107-131 | completing or retrying after the lease was taken over changes nothing |
| QueueRuns.LeasesAreExclusive | apps/worker/src/queue.ts:66-131 | in every run, as long as a lease is younger than the timeout and its worker has not given it up, nobody is handed the job and its row stays as it is |
| QueueRuns.BackoffDoubles | apps/worker/src/worker.ts:10-12 | a retry waits one second, twice as long each further time, and never more than five minutes |
| QueueRuns.EffectiveRetryDecidesByRow | apps/worker/src/queue.ts:119-131 | a retry that has an effect decides by attempts that are those of the row |
| QueueRuns.ClaimsAreBounded | apps/worker/src/queue.ts:66-105 | claims are paid from the sum of the attempts left, which nothing but enqueuing increases |
| QueueRuns.EmptyClaimMeansDrained | apps/worker/src/queue.ts:66-105 | a claim that finds nothing when all leases have expired and all delays have passed leaves only completed and failed rows |
| Base32.RoundTrip | packages/db/src/mfa.ts:27-58 | decoding undoes encoding for byte strings of every length, and the length is the number of bits over five, rounded up (RFC 4648 section 6) |
| Base32.ReencodesExactly | packages/db/src/mfa.ts:43-58 | encoding undoes decoding exactly on canonical texts: fewer than five bits left over, all zero |
| Base32Codec.Base32Encode | packages/db/src/mfa.ts:27-41 | the loop on an accumulator that overflows 32 bits computes the encoding of the bit stream |
| Base32Codec.Base32Decode | packages/db/src/mfa.ts:43-58 | the same for decoding, with padding, lower case and characters outside the alphabet |
| Base32Codec.LiveBitsShift | packages/db/src/mfa.ts:32 | shifting in new bits keeps the live bits although the high bits of the word are lost |
| Base32.StandardAlphabet | packages/db/src/mfa.ts:4 | the letters are those of RFC 4648 section 6 |
| Totp.CodeIsSixDigits | packages/db/src/mfa.ts:74-90 | every code has six digits and denotes the truncated digest modulo a million |
| Totp.TruncationFollowsStandard | packages/db/src/mfa.ts:83-88 | the shifts and masks yield the 31 bits that RFC 4226 section 5.3 names, within the digest |
| Totp.CounterBytesDenote | packages/db/src/mfa.ts:60-64 | the eight bytes fed to the digest denote the counter, most significant bit first (RFC 4226 section 5.1) |
| Totp.CodeFollowsStandard | packages/db/src/mfa.ts:74-90 | the code is the password of RFC 4226 section 5.3: of the only message of eight bytes whose bits denote the counter, six digits denoting 31 bits of its digest modulo a million |
| Totp.WindowOfTwo | packages/db/src/mfa.ts:70-72 | the window holds the current period of thirty seconds and the one before |
| Totp.StandardExample | packages/db/src/mfa.ts:82-90 | the example of RFC 4226 section 5.4 |
| Mfa.MatchesExactly | packages/db/src/mfa.ts:122-129 | finds the newest counter of the window with this code; the format test never turns a right code away |
| Mfa.ChallengeMetExactly | packages/db/src/mfa.ts:216-262 | a challenge is met if and only if the code is the standard's for a period of the window that is newer than the last one used |
| Mfa.EnrollmentVerifiedExactly | packages/db/src/mfa.ts:174-212 | an enrolment is verified if and only if it was not yet and the code is the standard's for a period of the window that is not before 1970 |
| Mfa.FitsExactly | packages/db/src/mfa.ts:122-129 | the codes that the program looks for are those that a device shows, by the standard, in the two periods |
| Mfa.MfaEnrollments.BeginMfaEnrollment | packages/db/src/mfa.ts:131-172 | replaces the enrolment by an unverified one without a used counter, if permitted |
| Mfa.MfaEnrollments.VerifyMfaEnrollment | packages/db/src/mfa.ts:174-214 | verifies an unverified enrolment once, by a code of the standard for a period of the window, and records its counter |
| Mfa.MfaEnrollments.EnforcePlatformAdminMfa | packages/db/src/mfa.ts:216-262 | all outcomes of a challenge; it is met only by a code of the standard for a period of the window newer than the last one used, which is recorded |
| Mfa.MfaEnrollments.FindCounter | packages/db/src/mfa.ts:122-129 | both codes are generated and searched in order |
| MfaRuns.AcceptedCountersIncrease | packages/db/src/mfa.ts:174-262 | within one enrolment accepted counters strictly increase, whatever the clock does |
| MfaRuns.AcceptedCodesAreGenuine | packages/db/src/mfa.ts:74-90 | an accepted code is the password of the standard for the drawn secret bytes and a counter of the current or previous thirty seconds |
| MfaRuns.NothingIsReplayed | packages/db/src/mfa.ts:174-262 | when no secret is drawn twice, no secret and counter are accepted twice (RFC 6238 section 5.2) |
| MfaRuns.AcceptanceRateIsBounded | packages/db/src/mfa.ts:122-129 | between two clock readings at most their difference in periods plus two codes are accepted, even if the clock jumps |
| RateLimit.RateLimitStore.Consume | apps/api/src/rate-limit.ts:46-57 | counts in the live window or opens one, and answers with the remaining calls and the time to its end |
| RateLimit.RateLimitStore.RecordFailure | apps/api/src/rate-limit.ts:62-70 | counts a failure of the live window or opens one; at the threshold it locks for the time of a lock and forgets the count, below it leaves the lock alone |
| RateLimit.RateLimitStore.LockRetryAfter | apps/api/src/rate-limit.ts:58-61 | positive exactly while locked, and then the time to the end of the lock |
| RateLimit.RequestRateLimiter.ReceiveLock | apps/api/src/rate-limit.ts:269-273 | what the answer about the lock, or its failure, means for the request, under any interleaving |
| RateLimit.RequestRateLimiter.ReceiveDecisions | apps/api/src/rate-limit.ts:275-289 | what the answers of the two counters, or their failure, mean for the request, under any interleaving |
| RateLimit.RequestRateLimiter.Check | apps/api/src/rate-limit.ts:249-290 | the whole check, whatever other requests do before each of its commands: a locked key is refused and charges nothing; otherwise both counters are charged and either can refuse; a command that throws makes the request unavailable, charged as far as commands were carried out |
| RateLimit.PassedExactly | apps/api/src/rate-limit.ts:249-290 | a check lets a request through if and only if no command throws, the key is not locked when it is looked up, and each counter, as it is charged, is within its maximum |
| RateLimit.PassedAreRemembered | apps/api/src/rate-limit.ts:249-290 | under any interleaving a request is remembered for `observe` exactly when it passed |
| RateLimit.UndisturbedCheck | apps/api/src/rate-limit.ts:249-290 | alone, a check that finds no lock charges both counters from where they stood, and no check touches a lockout |
| RateLimit.KeysAreSeparate | apps/api/src/rate-limit.ts:265-277 | addresses share a counter exactly with themselves, subjects likewise, and a lock is for one subject at one address; rules never share any, and no counter is a lock |
| RateLimit.RequestRateLimiter.Observe | apps/api/src/rate-limit.ts:292-310 | only requests that passed are observed: success clears the key, failure is recorded, a command that throws is ignored |
| RateLimit.FixedWindowExactly | apps/api/src/rate-limit.ts:3-9 | in each window exactly the first `max` calls are admitted, and no call moves its end |
| RateLimit.OpenersAreApart | apps/api/src/rate-limit.ts:3-9 | windows do not overlap: every call falls within the length of its window, and a later window opens only when the earlier one is over |
| RateLimit.RetryAfterIsExact | apps/api/src/rate-limit.ts:46-57 | a refused caller who comes back after the time it was told is admitted, and earlier it is not, if nobody else calls |
| RateLimit.RemainingIsExact | apps/api/src/rate-limit.ts:46-57 | an admitted caller is told exactly how many more calls of the window are admitted |
| RateLimit.FewerThanTwiceMaxInAnyInterval | apps/api/src/rate-limit.ts:3-9 | in any half-open interval as long as a window at most `2 * max - 1` calls are admitted |
| RateLimit.BoundIsReached | apps/api/src/rate-limit.ts:3-9 | that bound is reached for every maximum and every window of at least two seconds |
| RateLimit.FailuresAreBounded | apps/api/src/rate-limit.ts:10-19 | without success, failures recorded in any interval as long as the lock are bounded, for any number of requests in flight at once |
| RateLimit.FailureBoundIsReached | apps/api/src/rate-limit.ts:10-19 | that bound is reached for every threshold, every number of requests in flight and every lock of at least two seconds |
| RateLimit.ThresholdLocks | apps/api/src/rate-limit.ts:10-19 | over whole runs: after the failure that reaches the threshold no check lets a request through for the full period, unless one that was in flight beside it succeeds, which with requests one at a time cannot happen |
| RateLimit.BelowThresholdNothingLocks | apps/api/src/rate-limit.ts:10-19 | a failure leaves the lock alone exactly when it is below the threshold |
| RateLimit.LockHolds | apps/api/src/rate-limit.ts:269-273 | from any place of a run, a lock lasts until its time and lets no request through, when nothing in flight can lift it or nothing does |
| AuditPages.ExportIamAuditEvents | packages/db/src/audit-events.ts:249-296 | terminates, and returns what following the cursors yields over its pages, with the truncation flag, or the error of the first page it asks for and is refused; every exported event was in the table, is of the query's organization, at most 365 days old, of an audited kind, and passes every filter |
| AuditPages.ListedExactly | packages/db/src/audit-events.ts:193-227 | a listing has exactly the events of the table that are so |
| AuditFilters.PagesAreApart | packages/db/src/audit-events.ts:193-227 | two tables that agree on the events of the query's organization give the same page, for every cursor |
| AuditFilters.WalksAreApart | packages/db/src/audit-events.ts:193-296 | and the same walk, so the same export: organizations cannot see each other |
| AuditFilters.FiltersNarrow | packages/db/src/audit-events.ts:207-210 | the listing with an action, an actor, an outcome or a service is the one without it, restricted to the events with that value |
| AuditFilters.TimesNarrow | packages/db/src/audit-events.ts:211-212 | the same for the beginning and the end of the time range |
| AuditFilters.PageExactly | packages/db/src/audit-events.ts:159-247 | only a permitted reader gets a page, of one organization or service, with at most a hundred events, newest first; which queries are refused |
| AuditFilters.DeliveredIsWanted | packages/db/src/audit-events.ts:193-247 | all events of a walk are such events as of one of its requests, newest first, whatever the table and the clock do |
| AuditWalks.PageContents | packages/db/src/audit-events.ts:193-247 | what one page holds, and what its cursor leaves for the next |
| AuditWalks.WalkDescends | packages/db/src/audit-events.ts:193-247 | whatever is inserted or purged between requests, each with its own clock reading, the pages together are strictly descending, so without duplicates, and every event was there and matched at one of the requests |
| AuditWalks.NothingIsMissed | packages/db/src/audit-events.ts:193-247 | with whole milliseconds a reader who reaches the last page has seen every event that was there and matched at all requests, each with its own table and clock reading |
| AuditWalks.PagesAreListingExactly | packages/db/src/audit-events.ts:71-73 | the pages of a constant table are its listing if and only if every page break is clean: the next event is below the truncated cursor |
| AuditWalks.WholeMillisecondsAreClean | packages/db/src/audit-events.ts:71-73 | timestamps in whole milliseconds make every break clean |
| AuditWalks.SameMillisecondIsSkipped | packages/db/src/audit-events.ts:71-73 | a table and a query that lists two events of one millisecond, and a reader with pages of one event who is told that it has seen everything and has seen only the first |
| AuditWalks.GrowthIsInvisible | packages/db/src/audit-events.ts:193-247 | newer events that arrive after the first page leave the other pages as they would have been |
| AuditWalks.ExportIsFirstTenThousand | packages/db/src/audit-events.ts:255-295 | an export is the first ten thousand events of the listing at its beginning and reports truncation exactly when there are more |
| AuditWalks.PurgeIsInvisible | packages/db/src/audit-events.ts:298-306 | purging takes away nothing that a listing at that time or later would show |
| TokenRevocation.RevocationList.PersistAccessTokenRevocation | apps/api/src/auth/oauth-lifecycle.ts:193-223 | prunes expired rows, then inserts or updates the row of the token; the table stays what is left of all revocations there ever were, missing only those whose time had come |
| TokenRevocation.RevocationList.IsActive | apps/api/src/auth/oauth-lifecycle.ts:71-93 | for a caller the list never forgets: as of the last pruning or later, a token is active exactly with a session and unless it was ever revoked and its time has not come; an older lookup overlooks a revocation only when its time has come meanwhile |
| TokenRevocation.RevocationList.AuthenticateResourceAccessToken | apps/api/src/auth/oauth-lifecycle.ts:53-98 | a revoked token is accepted only if it expires after its verification and no later than the lookup or the last pruning; a token that was never revoked is accepted if it verifies and has a session |
| TokenRevocation.NoGapExactly | apps/api/src/auth/oauth-lifecycle.ts:211-216 | the row outlives every instant at which the token verifies if and only if `exp` is a whole number of seconds (RFC 7519 section 4.1.4) |
| TokenRevocation.RevokedTokensStayRevoked | apps/api/src/auth/oauth-lifecycle.ts:53-98 | a request that begins after the revocation is accepted only if the token expires while it is under way (RFC 7009 section 2) |
| TokenRevocation.DecisionExactly | apps/api/src/auth/oauth-lifecycle.ts:82-93 | exactly when a revoked token gets through the last step |
| TokenRevocation.ExpiringRequestIsAccepted | apps/api/src/auth/oauth-lifecycle.ts:53-98 | a run in which that happens: revoked and verified one millisecond before the expiry, looked up at the expiry, accepted |

## Left out

- HTTP routes, status mapping, CORS, web pages, the command line and release tooling: plumbing.
- Better Auth, jose, Drizzle, Redis and PostgreSQL internals: only their documented effect is modelled.
- Authorization queries (`canManage`, `canReadOrganizationAudit`, `canReadServiceAudit`) and the rows they write to the audit log: parameters `permitted`.
- Messages of validation issues, and the branch for inputs that JSON cannot serialize (cyclic values, big integers).
- Formats of query texts in the audit listing and of token claims: regular expressions without further consequences.
- The base64url and ISO text of cursors; a cursor is its two components, with the time cut to milliseconds.
- Redaction of audit metadata, metrics and logging.
- `invalidatePolicy` and `invalidateGroup`: they only determine for which scopes `invalidateScope` is called.
- Deleting organizations, users and policies with their dependent rows.
- Introspection of tokens and refresh-token rotation: the first repeats the lookup that is modelled, the second lives in a library.
- Service grants, invitations, password reset: single-use flags, simpler versions of the queue and the version history.
- Base32.Normalize: upper-cases ASCII letters only; `toUpperCase` also maps some other letters to the alphabet of base32.
- AuditPages.ValidInput: of the conditions on an audit query only the limit, the scope and the order of `from` and `to` are modelled.
- Text in Redis that another program wrote and that imitates a valid answer.
- Observers of the worker (`completed`, `retried`): they only measure.
- PolicyRuns.IsRun: writers of different policies that create the same name wait for each other in the database; here creation is one step.
