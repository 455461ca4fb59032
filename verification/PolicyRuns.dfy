/** Any number of writers at once: each transaction locks the row of its policy, reads, inserts and commits in
    separate steps, and may be rolled back at any point. */
module PolicyRuns {
  import opened Wrappers
  import opened Json
  import opened PolicyDocument
  import opened PolicyVersions

  type Writer = string

  datatype Request =
    | Create(input: NewPolicy)
    | Append(policyId: string, document: Value, expectedVersion: int, permitted: bool, catalogue: Option<Catalogue>)
    | Rollback(policyId: string, expectedVersion: int, targetVersion: int, permitted: bool)
    | SetStatus(policyId: string, status: Status, permitted: bool)

  /** The request as one indivisible operation. */
  function Apply(hashing: Hashing, store: Store, request: Request): Result<Store, PolicyError> {
    match request
    case Create(input) => Created(hashing, store, input)
    case Append(id, document, expected, permitted, catalogue) =>
      VersionCreated(hashing, store, id, document, expected, permitted, catalogue)
    case Rollback(id, expected, target, permitted) => RolledBack(hashing, store, id, expected, target, permitted)
    case SetStatus(id, status, permitted) => StatusSet(store, id, status, permitted)
  }

  /** The tables after the requests, one after the other; refused requests change nothing. */
  function Replay(hashing: Hashing, requests: seq<Request>): Store {
    if requests == [] then Store(map[], map[])
    else
      var n := |requests| - 1;
      var before := Replay(hashing, requests[..n]);
      match Apply(hashing, before, requests[n])
      case Ok(after) => after
      case Err(_) => before
  }

  /** The answer to the request at this place. */
  function Answer(hashing: Hashing, requests: seq<Request>, i: nat): Option<PolicyError>
    requires i < |requests|
  {
    match Apply(hashing, Replay(hashing, requests[..i]), requests[i])
    case Ok(_) => None
    case Err(e) => Some(e)
  }

  // ----- transactions step by step -----

  datatype Phase =
    | Idle
    | Locked(request: Request, policy: Policy)
    | Resolved(request: Request, policy: Policy, document: Value, source: Option<int>)
    | Inserted(request: Request, policy: Policy, version: Version)

  datatype Finished = Finished(request: Request, failure: Option<PolicyError>)

  /** The committed tables, who holds which row lock, what every writer is doing, and the requests that were
      answered, in the order of their commits and refusals. */
  datatype State = State(store: Store, locks: map<string, Writer>, writers: map<Writer, Phase>, log: seq<Finished>)

  datatype Event =
    | Join(writer: Writer)
    | Insert(writer: Writer)
    | CreatePolicy(writer: Writer, input: NewPolicy)
    | Lock(writer: Writer, request: Request)
    | Resolve(writer: Writer)
    | Commit(writer: Writer)
    | RollBack(writer: Writer)

  function Release(s: State, w: Writer): State
    requires w in s.writers && !s.writers[w].Idle? && !s.writers[w].request.Create?
  {
    s.(locks := s.locks - {s.writers[w].request.policyId}, writers := s.writers[w := Idle])
  }

  function Refuse(s: State, w: Writer, failure: PolicyError): State
    requires w in s.writers && !s.writers[w].Idle? && !s.writers[w].request.Create?
  {
    Release(s, w).(log := s.log + [Finished(s.writers[w].request, Some(failure))])
  }

  predicate InTransaction(s: State, w: Writer) {
    w in s.writers && !s.writers[w].Idle? && !s.writers[w].request.Create?
  }

  predicate Enabled(s: State, e: Event) {
    match e
    case Join(w) => w !in s.writers
    case CreatePolicy(w, _) => w in s.writers && s.writers[w].Idle?
    case Lock(w, request) => w in s.writers && s.writers[w].Idle? && !request.Create? && request.policyId !in s.locks
    case Resolve(w) => InTransaction(s, w) && s.writers[w].Locked? && !s.writers[w].request.SetStatus?
    case Insert(w) => InTransaction(s, w) && s.writers[w].Resolved? && !s.writers[w].request.SetStatus?
    case Commit(w) => InTransaction(s, w)
      && (s.writers[w].Inserted? || (s.writers[w].Locked? && s.writers[w].request.SetStatus?))
    case RollBack(w) => InTransaction(s, w)
  }

  /** The current row under its lock, or no row. */
  function AfterLock(s: State, w: Writer, request: Request): State
    requires w in s.writers && !request.Create?
  {
    if request.policyId !in s.store.policies then s.(log := s.log + [Finished(request, Some(IamPolicyNotFound))])
    else
      s.(locks := s.locks[request.policyId := w],
         writers := s.writers[w := Locked(request, s.store.policies[request.policyId])])
  }

  /** Permission, and the document that the new version is going to hold. */
  function AfterResolve(s: State, w: Writer): State
    requires InTransaction(s, w) && s.writers[w].Locked? && !s.writers[w].request.SetStatus?
  {
    var request, policy := s.writers[w].request, s.writers[w].policy;
    if !request.permitted then Refuse(s, w, IamPolicyAuthorization)
    else if request.Append? then
      match Validated(request.catalogue, policy.service, request.document)
      case Err(e) => Refuse(s, w, e)
      case Ok(document) => s.(writers := s.writers[w := Resolved(request, policy, document, None)])
    else
      var key := Key(request.policyId, request.targetVersion);
      if key !in s.store.versions then Refuse(s, w, IamPolicyNotFound)
      else
        s.(writers := s.writers[w :=
          Resolved(request, policy, s.store.versions[key].document, Some(request.targetVersion))])
  }

  /** The expected version is compared with the row that was read; the new version is not yet visible. */
  function AfterInsert(hashing: Hashing, s: State, w: Writer): State
    requires InTransaction(s, w) && s.writers[w].Resolved? && !s.writers[w].request.SetStatus?
  {
    var t := s.writers[w];
    var key := Key(t.request.policyId, t.policy.currentVersion + 1);
    if t.request.expectedVersion != t.policy.currentVersion then Refuse(s, w, IamPolicyConflict)
    else if key.version > MAX_INTEGER then Refuse(s, w, IntegerOutOfRange)
    else if key in s.store.versions then Refuse(s, w, PrimaryKeyViolation)
    else
      var version := Version(t.document, Hash(hashing, t.document), t.source);
      s.(writers := s.writers[w := Inserted(t.request, t.policy, version)])
  }

  /** The statements of the transaction reach the committed tables together. */
  function AfterCommit(s: State, w: Writer): State
    requires InTransaction(s, w) && (s.writers[w].Inserted? || s.writers[w].Locked?)
    requires s.writers[w].Locked? ==> s.writers[w].request.SetStatus?
  {
    var t := s.writers[w];
    var id := t.request.policyId;
    var policies := s.store.policies;
    if t.Locked? && !t.request.permitted then Refuse(s, w, IamPolicyAuthorization)
    else
      var store :=
        if t.Locked? then
          s.store.(policies :=
            if id in policies then policies[id := policies[id].(status := t.request.status)] else policies)
        else
          var next := t.policy.currentVersion + 1;
          Store(if id in policies then policies[id := policies[id].(currentVersion := next)] else policies,
                s.store.versions[Key(id, next) := t.version]);
      Release(s, w).(store := store, log := s.log + [Finished(t.request, None)])
  }

  function AfterCreate(hashing: Hashing, s: State, input: NewPolicy): State {
    match Created(hashing, s.store, input)
    case Ok(store) => s.(store := store, log := s.log + [Finished(Create(input), None)])
    case Err(e) => s.(log := s.log + [Finished(Create(input), Some(e))])
  }

  function Step(hashing: Hashing, s: State, e: Event): State
    requires Enabled(s, e)
  {
    match e
    case Join(w) => s.(writers := s.writers[w := Idle])
    case CreatePolicy(_, input) => AfterCreate(hashing, s, input)
    case Lock(w, request) => AfterLock(s, w, request)
    case Resolve(w) => AfterResolve(s, w)
    case Insert(w) => AfterInsert(hashing, s, w)
    case Commit(w) => AfterCommit(s, w)
    case RollBack(w) => Release(s, w)
  }

  // ----- the invariant -----

  /** The row that was read is still the current one. */
  predicate HoldsLock(s: State, w: Writer)
    requires w in s.writers
  {
    !s.writers[w].Idle? ==>
      && !s.writers[w].request.Create?
      && var id := s.writers[w].request.policyId;
      && id in s.locks && s.locks[id] == w
      && id in s.store.policies && s.store.policies[id] == s.writers[w].policy
  }

  /** What the request asks to be written is what the transaction is about to write. */
  predicate WillWrite(s: State, request: Request, policy: Policy, document: Value, source: Option<int>) {
    || (&& request.Append? && request.permitted && source == None
        && Validated(request.catalogue, policy.service, request.document) == Ok(document))
    || (&& request.Rollback? && request.permitted && source == Some(request.targetVersion)
        && Key(request.policyId, request.targetVersion) in s.store.versions
        && s.store.versions[Key(request.policyId, request.targetVersion)].document == document)
  }

  predicate OnTrack(hashing: Hashing, s: State, w: Writer)
    requires w in s.writers
  {
    match s.writers[w]
    case Idle => true
    case Locked(_, _) => true
    case Resolved(request, policy, document, source) => WillWrite(s, request, policy, document, source)
    case Inserted(request, policy, version) =>
      && WillWrite(s, request, policy, version.document, version.sourceVersion)
      && version.documentHash == Hash(hashing, version.document)
      && request.expectedVersion == policy.currentVersion
      && policy.currentVersion + 1 <= MAX_INTEGER
      && Key(request.policyId, policy.currentVersion + 1) !in s.store.versions
  }

  function Requests(log: seq<Finished>): (requests: seq<Request>)
    ensures |requests| == |log|
  {
    seq(|log|, i requires 0 <= i < |log| => log[i].request)
  }

  /** The committed tables and all answers are those of the requests carried out one after the other. */
  ghost predicate Serial(hashing: Hashing, s: State) {
    && s.store == Replay(hashing, Requests(s.log))
    && forall i | 0 <= i < |s.log| :: s.log[i].failure == Answer(hashing, Requests(s.log), i)
  }

  ghost predicate Inv(hashing: Hashing, s: State) {
    && (forall w | w in s.writers :: HoldsLock(s, w))
    && (forall w | w in s.writers :: OnTrack(hashing, s, w))
    && Serial(hashing, s)
  }

  // ----- every step keeps it -----

  lemma RequestsSnoc(log: seq<Finished>, entry: Finished)
    ensures Requests(log + [entry]) == Requests(log) + [entry.request]
  {
  }

  /** One more answer, given from the committed tables. */
  lemma AnswerKeepsSerial(hashing: Hashing, s: State, t: State, entry: Finished)
    requires Serial(hashing, s) && t.log == s.log + [entry]
    requires match Apply(hashing, s.store, entry.request)
      case Ok(after) => entry.failure == None && t.store == after
      case Err(e) => entry.failure == Some(e) && t.store == s.store
    ensures Serial(hashing, t)
  {
    hide Apply;
    var n := |s.log|;
    RequestsSnoc(s.log, entry);
    assert Requests(t.log)[..n] == Requests(s.log);
    forall i | 0 <= i < |t.log|
      ensures t.log[i].failure == Answer(hashing, Requests(t.log), i)
    {
      if i < n {
        assert Requests(t.log)[..i] == Requests(s.log)[..i];
        assert t.log[i] == s.log[i];
      }
    }
  }

  /** Nothing of the policy has changed. */
  ghost predicate SameFor(s: Store, t: Store, id: string) {
    && (id in s.policies ==> id in t.policies && t.policies[id] == s.policies[id])
    && (forall v :: Key(id, v) in t.versions <==> Key(id, v) in s.versions)
    && (forall v | Key(id, v) in s.versions :: t.versions[Key(id, v)] == s.versions[Key(id, v)])
  }

  lemma OtherWriterKeeps(hashing: Hashing, s: State, t: State, w: Writer)
    requires w in s.writers && w in t.writers && t.writers[w] == s.writers[w]
    requires HoldsLock(s, w) && OnTrack(hashing, s, w)
    requires !s.writers[w].Idle? && !s.writers[w].request.Create? ==>
      var id := s.writers[w].request.policyId;
      (id in s.locks ==> id in t.locks && t.locks[id] == s.locks[id]) && SameFor(s.store, t.store, id)
    ensures HoldsLock(t, w) && OnTrack(hashing, t, w)
  {
    hide Hash, Validated;
  }

  /** Only the policy whose lock the writer holds is touched, or a policy that nobody has locked yet. */
  ghost predicate TouchesOnly(s: State, t: State, w: Writer) {
    && t.writers.Keys == s.writers.Keys
    && (forall v | v in s.writers && v != w :: t.writers[v] == s.writers[v])
    && (forall v | v in s.writers && v != w && !s.writers[v].Idle? && !s.writers[v].request.Create? ::
          var id := s.writers[v].request.policyId;
          (id in s.locks && s.locks[id] == v ==> id in t.locks && t.locks[id] == v && SameFor(s.store, t.store, id)))
  }

  lemma OthersKeep(hashing: Hashing, s: State, t: State, w: Writer)
    requires Inv(hashing, s) && TouchesOnly(s, t, w)
    requires w in t.writers ==> HoldsLock(t, w) && OnTrack(hashing, t, w)
    requires Serial(hashing, t)
    ensures Inv(hashing, t)
  {
    hide Serial;
    forall v | v in t.writers
      ensures HoldsLock(t, v) && OnTrack(hashing, t, v)
    {
      if v != w {
        assert HoldsLock(s, v) && OnTrack(hashing, s, v);
        hide OnTrack, SameFor;
        OtherWriterKeeps(hashing, s, t, v);
      }
    }
  }

  lemma RefuseKeepsInv(hashing: Hashing, s: State, w: Writer, failure: PolicyError)
    requires Inv(hashing, s) && InTransaction(s, w)
    requires Apply(hashing, s.store, s.writers[w].request) == Err(failure)
    ensures Inv(hashing, Refuse(s, w, failure))
  {
    hide Apply, OnTrack;
    assert HoldsLock(s, w);
    var t := Refuse(s, w, failure);
    AnswerKeepsSerial(hashing, s, t, Finished(s.writers[w].request, Some(failure)));
    hide Serial;
    OthersKeepAfterRelease(s, t, w);
    IdleIsFine(hashing, t, w);
    OthersKeep(hashing, s, t, w);
  }

  lemma IdleIsFine(hashing: Hashing, t: State, w: Writer)
    requires w in t.writers && t.writers[w].Idle?
    ensures HoldsLock(t, w) && OnTrack(hashing, t, w)
  {
  }

  lemma OthersKeepAfterRelease(s: State, t: State, w: Writer)
    requires InTransaction(s, w) && HoldsLock(s, w)
    requires t.store == s.store && t.locks == Release(s, w).locks && t.writers == Release(s, w).writers
    ensures TouchesOnly(s, t, w)
  {
  }

  lemma LockKeepsInv(hashing: Hashing, s: State, w: Writer, request: Request)
    requires Inv(hashing, s) && Enabled(s, Lock(w, request))
    ensures Inv(hashing, AfterLock(s, w, request))
  {
    hide Serial;
    var t := AfterLock(s, w, request);
    if request.policyId !in s.store.policies {
      AnswerKeepsSerial(hashing, s, t, Finished(request, Some(IamPolicyNotFound)));
      IdleIsFine(hashing, t, w);
    } else {
      SameLogSameSerial(hashing, s, t);
    }
    hide Hash, Validated;
    OthersKeep(hashing, s, t, w);
  }

  lemma SameLogSameSerial(hashing: Hashing, s: State, t: State)
    requires Serial(hashing, s) && t.store == s.store && t.log == s.log
    ensures Serial(hashing, t)
  {
  }

  lemma ResolveKeepsInv(hashing: Hashing, s: State, w: Writer)
    requires Inv(hashing, s) && Enabled(s, Resolve(w))
    ensures Inv(hashing, AfterResolve(s, w))
  {
    hide Serial, Validated, Hash, Appended;
    assert HoldsLock(s, w);
    var t := AfterResolve(s, w);
    if t.writers[w].Resolved? {
      SameLogSameSerial(hashing, s, t);
      OthersKeep(hashing, s, t, w);
    } else {
      assert t.log[|s.log|].failure.Some?;
      RefuseKeepsInv(hashing, s, w, t.log[|s.log|].failure.value);
    }
  }

  /** What the request does when its transaction has come this far. */
  lemma ResolvedMeansAppend(hashing: Hashing, s: State, w: Writer)
    requires w in s.writers && HoldsLock(s, w)
    requires s.writers[w].Resolved? || s.writers[w].Inserted?
    requires OnTrack(hashing, s, w)
    ensures var t := s.writers[w];
      var document := if t.Resolved? then t.document else t.version.document;
      var source := if t.Resolved? then t.source else t.version.sourceVersion;
      !t.request.SetStatus?
      && Apply(hashing, s.store, t.request)
         == Appended(hashing, s.store, t.request.policyId, document, t.request.expectedVersion, source)
  {
    hide Validated, Hash, Appended;
  }

  lemma InsertKeepsInv(hashing: Hashing, s: State, w: Writer)
    requires Inv(hashing, s) && Enabled(s, Insert(w))
    ensures Inv(hashing, AfterInsert(hashing, s, w))
  {
    hide Serial, Validated, Hash, Apply;
    assert HoldsLock(s, w) && OnTrack(hashing, s, w);
    ResolvedMeansAppend(hashing, s, w);
    var t := AfterInsert(hashing, s, w);
    if t.writers[w].Inserted? {
      SameLogSameSerial(hashing, s, t);
      OthersKeep(hashing, s, t, w);
    } else {
      assert t.log[|s.log|].failure.Some?;
      RefuseKeepsInv(hashing, s, w, t.log[|s.log|].failure.value);
    }
  }

  lemma CommitKeepsInv(hashing: Hashing, s: State, w: Writer)
    requires Inv(hashing, s) && Enabled(s, Commit(w))
    ensures Inv(hashing, AfterCommit(s, w))
  {
    hide Serial, Validated;
    assert HoldsLock(s, w) && OnTrack(hashing, s, w);
    var x := s.writers[w];
    var t := AfterCommit(s, w);
    if x.Locked? && !x.request.permitted {
      RefuseKeepsInv(hashing, s, w, IamPolicyAuthorization);
    } else {
      if x.Inserted? {
        ResolvedMeansAppend(hashing, s, w);
      }
      CommittedAsApplied(hashing, s, w);
      hide Apply, OnTrack, Hash;
      AnswerKeepsSerial(hashing, s, t, Finished(x.request, None));
      CommitTouchesOnly(s, w);
      IdleIsFine(hashing, t, w);
      OthersKeep(hashing, s, t, w);
    }
  }

  lemma CommittedAsApplied(hashing: Hashing, s: State, w: Writer)
    requires Enabled(s, Commit(w)) && HoldsLock(s, w) && OnTrack(hashing, s, w)
    requires s.writers[w].Locked? ==> s.writers[w].request.permitted
    ensures Apply(hashing, s.store, s.writers[w].request) == Ok(AfterCommit(s, w).store)
  {
    hide Validated, Hash;
    if s.writers[w].Inserted? {
      ResolvedMeansAppend(hashing, s, w);
    }
  }

  lemma CommitTouchesOnly(s: State, w: Writer)
    requires Enabled(s, Commit(w)) && HoldsLock(s, w)
    requires s.writers[w].Locked? ==> s.writers[w].request.permitted
    ensures TouchesOnly(s, AfterCommit(s, w), w)
  {
  }

  lemma CreateKeepsInv(hashing: Hashing, s: State, w: Writer, input: NewPolicy)
    requires Inv(hashing, s) && w in s.writers && s.writers[w].Idle?
    ensures Inv(hashing, AfterCreate(hashing, s, input))
  {
    hide Serial, Hash, Validated;
    var t := AfterCreate(hashing, s, input);
    var outcome := Created(hashing, s.store, input);
    AnswerKeepsSerial(hashing, s, t, Finished(Create(input), if outcome.Ok? then None else Some(outcome.error)));
    CreatedTouches(hashing, s.store, input);
    hide Created;
    IdleIsFine(hashing, t, w);
    forall v | v in s.writers && v != w
      ensures HoldsLock(s, v)
    {
    }
    OthersKeep(hashing, s, t, w);
  }

  lemma CreatedTouches(hashing: Hashing, store: Store, input: NewPolicy)
    ensures var after := Created(hashing, store, input);
      after.Ok? ==> forall id | id in store.policies :: SameFor(store, after.value, id)
  {
    hide Hash, Validated;
  }

  lemma JoinKeepsInv(hashing: Hashing, s: State, w: Writer)
    requires Inv(hashing, s) && w !in s.writers
    ensures Inv(hashing, s.(writers := s.writers[w := Idle]))
  {
    hide Serial, Hash, Validated;
    var t := s.(writers := s.writers[w := Idle]);
    SameLogSameSerial(hashing, s, t);
    forall v | v in t.writers
      ensures HoldsLock(t, v) && OnTrack(hashing, t, v)
    {
      if v == w {
        IdleIsFine(hashing, t, v);
      } else {
        assert HoldsLock(s, v) && OnTrack(hashing, s, v);
        OtherWriterKeeps(hashing, s, t, v);
      }
    }
  }

  lemma RollBackKeepsInv(hashing: Hashing, s: State, w: Writer)
    requires Inv(hashing, s) && InTransaction(s, w)
    ensures Inv(hashing, Release(s, w))
  {
    var t := Release(s, w);
    assert HoldsLock(s, w);
    SameLogSameSerial(hashing, s, t);
    hide Serial;
    OthersKeepAfterRelease(s, t, w);
    IdleIsFine(hashing, t, w);
    OthersKeep(hashing, s, t, w);
  }

  lemma StepKeepsInv(hashing: Hashing, s: State, e: Event)
    requires Inv(hashing, s) && Enabled(s, e)
    ensures Inv(hashing, Step(hashing, s, e))
  {
    hide Inv, AfterCreate, AfterLock, AfterResolve, AfterInsert, AfterCommit, Release;
    match e
    case Join(w) => JoinKeepsInv(hashing, s, w);
    case CreatePolicy(w, input) => CreateKeepsInv(hashing, s, w, input);
    case Lock(w, request) => LockKeepsInv(hashing, s, w, request);
    case Resolve(w) => ResolveKeepsInv(hashing, s, w);
    case Insert(w) => InsertKeepsInv(hashing, s, w);
    case Commit(w) => CommitKeepsInv(hashing, s, w);
    case RollBack(w) => RollBackKeepsInv(hashing, s, w);
  }

  // ----- requests one after the other -----

  lemma ApplyKeepsInv(hashing: Hashing, store: Store, request: Request)
    requires PolicyVersions.Inv(hashing, store)
    ensures var after := Apply(hashing, store, request);
      && (after.Ok? ==> PolicyVersions.Inv(hashing, after.value) && Extends(store, after.value))
      && after != Err(PrimaryKeyViolation)
  {
    hide PolicyVersions.Inv, Extends, Appended, Validated, WasValid, GoodVersion;
    match request
    case Create(input) =>
      ValidatedOutcome(input.catalogue, input.service, input.document);
      if Created(hashing, store, input).Ok? {
        CreatedKeepsInv(hashing, store, input);
      }
    case Append(id, document, expected, permitted, catalogue) =>
      if id in store.policies && permitted {
        ValidatedOutcome(catalogue, store.policies[id].service, document);
        if Validated(catalogue, store.policies[id].service, document).Ok? {
          ValidatedWasValid(catalogue, store.policies[id].service, document);
          AppendedKeepsInv(hashing, store, id, document, expected, None);
        }
      }
    case Rollback(id, expected, target, permitted) =>
      if id in store.policies && permitted && Key(id, target) in store.versions {
        StoredWasValid(hashing, store, Key(id, target));
        AppendedKeepsInv(hashing, store, id, store.versions[Key(id, target)].document, expected, Some(target));
      }
    case SetStatus(id, status, permitted) =>
      if StatusSet(store, id, status, permitted).Ok? {
        StatusSetKeepsInv(hashing, store, id, status, permitted);
      }
  }

  lemma ValidatedOutcome(catalogue: Option<Catalogue>, service: string, document: Value)
    ensures var result := Validated(catalogue, service, document);
      (result.Ok? ==> result.value == document) && result != Err(PrimaryKeyViolation)
  {
    hide ValidDocument;
  }

  lemma StoredWasValid(hashing: Hashing, store: Store, key: Key)
    requires PolicyVersions.Inv(hashing, store) && key in store.versions
    ensures key.policyId in store.policies
    ensures WasValid(store.versions[key].document, store.policies[key.policyId].service)
  {
    hide WasValid, CopiesSource, Hash;
    assert GoodVersion(hashing, store, key);
  }

  lemma {:induction false} ReplayKeepsInv(hashing: Hashing, requests: seq<Request>)
    ensures PolicyVersions.Inv(hashing, Replay(hashing, requests))
  {
    if requests == [] {
      assert Replay(hashing, requests) == Store(map[], map[]);
    } else {
      hide Apply, PolicyVersions.Inv;
      var n := |requests| - 1;
      ReplayKeepsInv(hashing, requests[..n]);
      ApplyKeepsInv(hashing, Replay(hashing, requests[..n]), requests[n]);
    }
  }

  lemma {:induction false} ReplayExtends(hashing: Hashing, requests: seq<Request>, i: nat)
    requires i <= |requests|
    ensures Extends(Replay(hashing, requests[..i]), Replay(hashing, requests))
  {
    if i == |requests| {
      assert requests[..i] == requests;
    } else {
      hide Apply, PolicyVersions.Inv;
      var n := |requests| - 1;
      ReplayExtends(hashing, requests[..n], i);
      assert requests[..n][..i] == requests[..i];
      ReplayKeepsInv(hashing, requests[..n]);
      ApplyKeepsInv(hashing, Replay(hashing, requests[..n]), requests[n]);
    }
  }

  predicate Writes(request: Request, policyId: string) {
    (request.Append? || request.Rollback?) && request.policyId == policyId
  }

  lemma WriteMovesOn(hashing: Hashing, store: Store, request: Request)
    requires PolicyVersions.Inv(hashing, store)
    requires (request.Append? || request.Rollback?) && Apply(hashing, store, request).Ok?
    ensures var after, id := Apply(hashing, store, request).value, request.policyId;
      && id in store.policies && store.policies[id].currentVersion == request.expectedVersion
      && id in after.policies && after.policies[id].currentVersion == request.expectedVersion + 1
  {
    hide Validated, Hash, PolicyVersions.Inv;
  }

  lemma ReplayStep(hashing: Hashing, requests: seq<Request>, i: nat)
    requires i < |requests| && Answer(hashing, requests, i) == None
    ensures Apply(hashing, Replay(hashing, requests[..i]), requests[i]) == Ok(Replay(hashing, requests[..i + 1]))
  {
    hide Apply;
    assert requests[..i + 1][..i] == requests[..i];
  }

  /** Successful writes to a policy expect strictly increasing versions; so no two expect the same. */
  lemma ExpectedVersionsIncrease(hashing: Hashing, requests: seq<Request>, id: string, i: nat, j: nat)
    requires i < j < |requests| && Writes(requests[i], id) && Writes(requests[j], id)
    requires Answer(hashing, requests, i) == None && Answer(hashing, requests, j) == None
    ensures requests[i].expectedVersion < requests[j].expectedVersion
  {
    hide Apply, PolicyVersions.Inv, Replay, Answer;
    ReplayStep(hashing, requests, i);
    ReplayStep(hashing, requests, j);
    ReplayKeepsInv(hashing, requests[..i]);
    ReplayKeepsInv(hashing, requests[..j]);
    WriteMovesOn(hashing, Replay(hashing, requests[..i]), requests[i]);
    WriteMovesOn(hashing, Replay(hashing, requests[..j]), requests[j]);
    ReplayExtends(hashing, requests[..j], i + 1);
    assert requests[..j][..i + 1] == requests[..i + 1];
  }

  predicate Copies(versions: map<Key, Version>, policyId: string, target: int, copy: int) {
    && target < copy
    && Key(policyId, target) in versions && Key(policyId, copy) in versions
    && versions[Key(policyId, copy)] == versions[Key(policyId, target)].(sourceVersion := Some(target))
  }

  lemma RolledBackCopies(hashing: Hashing, store: Store, r: Request)
    requires PolicyVersions.Inv(hashing, store) && r.Rollback? && Apply(hashing, store, r).Ok?
    ensures Copies(Apply(hashing, store, r).value.versions, r.policyId, r.targetVersion, r.expectedVersion + 1)
  {
    hide WasValid, CopiesSource, Hash;
    assert GoodVersion(hashing, store, Key(r.policyId, r.targetVersion));
  }

  lemma CopiesStay(before: Store, after: Store, policyId: string, target: int, copy: int)
    requires Extends(before, after) && Copies(before.versions, policyId, target, copy)
    ensures Copies(after.versions, policyId, target, copy)
  {
  }

  lemma RollbackRestoresSerially(hashing: Hashing, requests: seq<Request>, i: nat)
    requires i < |requests| && requests[i].Rollback? && Answer(hashing, requests, i) == None
    ensures var r := requests[i];
      Copies(Replay(hashing, requests).versions, r.policyId, r.targetVersion, r.expectedVersion + 1)
  {
    hide *;
    ReplayStep(hashing, requests, i);
    var r := requests[i];
    var before, after := Replay(hashing, requests[..i]), Replay(hashing, requests[..i + 1]);
    ReplayKeepsInv(hashing, requests[..i]);
    RolledBackCopies(hashing, before, r);
    ReplayExtends(hashing, requests, i + 1);
    CopiesStay(after, Replay(hashing, requests), r.policyId, r.targetVersion, r.expectedVersion + 1);
  }

  // ----- whole runs of concurrent writers -----

  const EMPTY := State(Store(map[], map[]), map[], map[], [])

  ghost predicate IsRun(hashing: Hashing, states: seq<State>, events: seq<Event>) {
    && |states| == |events| + 1
    && states[0] == EMPTY
    && forall i | 0 <= i < |events| ::
      Enabled(states[i], events[i]) && states[i + 1] == Step(hashing, states[i], events[i])
  }

  lemma {:induction false} RunKeepsInv(hashing: Hashing, states: seq<State>, events: seq<Event>, i: nat)
    requires IsRun(hashing, states, events) && i < |states|
    ensures Inv(hashing, states[i])
  {
    if i == 0 {
      assert Requests([]) == [];
    } else {
      hide Inv, Step, Enabled;
      RunKeepsInv(hashing, states, events, i - 1);
      StepKeepsInv(hashing, states[i - 1], events[i - 1]);
    }
  }

  /** However writers interleave, the committed tables are those of the answered requests in the order of their
      answers, every answer is the one that request gets there, and the versions of every policy are exactly 1 up
      to its current one, with the hashes of their documents and rollbacks that copy earlier versions. */
  lemma InterleavingsAreSerial(hashing: Hashing, states: seq<State>, events: seq<Event>, i: nat)
    requires IsRun(hashing, states, events) && i < |states|
    ensures Serial(hashing, states[i])
    ensures PolicyVersions.Inv(hashing, states[i].store)
  {
    RunKeepsInv(hashing, states, events, i);
    ReplayKeepsInv(hashing, Requests(states[i].log));
  }

  lemma VersionsOfPolicy(hashing: Hashing, states: seq<State>, events: seq<Event>, i: nat, id: string, v: int)
    requires IsRun(hashing, states, events) && i < |states| && id in states[i].store.policies
    ensures Key(id, v) in states[i].store.versions <==> 1 <= v <= states[i].store.policies[id].currentVersion
  {
    InterleavingsAreSerial(hashing, states, events, i);
    var store := states[i].store;
    hide Serial, WasValid, CopiesSource, Hash;
    assert Contiguous(store, id);
    if Key(id, v) in store.versions {
      StoredWithinVersions(hashing, store, Key(id, v));
    }
  }

  lemma StepGrowsLog(hashing: Hashing, s: State, e: Event)
    requires Enabled(s, e)
    ensures s.log <= Step(hashing, s, e).log
  {
    hide Created, Validated, Hash;
  }

  lemma {:induction false} LogGrows(hashing: Hashing, states: seq<State>, events: seq<Event>, i: nat, j: nat)
    requires IsRun(hashing, states, events) && i <= j < |states|
    ensures states[i].log <= states[j].log
  {
    if i < j {
      hide Step, Enabled;
      LogGrows(hashing, states, events, i, j - 1);
      StepGrowsLog(hashing, states[j - 1], events[j - 1]);
    }
  }

  lemma AnswersOf(hashing: Hashing, s: State, i: nat)
    requires Serial(hashing, s) && i < |s.log|
    ensures s.store == Replay(hashing, Requests(s.log))
    ensures Requests(s.log)[i] == s.log[i].request
    ensures s.log[i].failure == Answer(hashing, Requests(s.log), i)
  {
    hide Replay, Answer;
  }

  /** A version that was once committed is never changed nor removed, and no policy changes its name,
      its service or its organization. */
  lemma VersionsNeverChange(hashing: Hashing, states: seq<State>, events: seq<Event>, i: nat, j: nat)
    requires IsRun(hashing, states, events) && i <= j < |states|
    ensures Extends(states[i].store, states[j].store)
  {
    InterleavingsAreSerial(hashing, states, events, i);
    InterleavingsAreSerial(hashing, states, events, j);
    LogGrows(hashing, states, events, i, j);
    hide PolicyVersions.Inv, Replay, Extends, IsRun;
    var n := |states[i].log|;
    assert Requests(states[j].log)[..n] == Requests(states[i].log);
    ReplayExtends(hashing, Requests(states[j].log), n);
  }

  /** Of all the writers that expect the same version of a policy at most one succeeds. */
  lemma OneWritePerExpectedVersion(hashing: Hashing, states: seq<State>, events: seq<Event>, n: nat, id: string,
      i: nat, j: nat)
    requires IsRun(hashing, states, events) && n < |states|
    requires i < j < |states[n].log|
    requires var log := states[n].log;
      && log[i].failure == None && log[j].failure == None
      && Writes(log[i].request, id) && Writes(log[j].request, id)
    ensures states[n].log[i].request.expectedVersion < states[n].log[j].request.expectedVersion
  {
    InterleavingsAreSerial(hashing, states, events, n);
    hide PolicyVersions.Inv, IsRun, Replay, Answer;
    ExpectedVersionsIncrease(hashing, Requests(states[n].log), id, i, j);
  }

  /** A successful rollback writes a version with the document and the hash of its strictly earlier target. */
  lemma RollbackRestores(hashing: Hashing, states: seq<State>, events: seq<Event>, n: nat, i: nat)
    requires IsRun(hashing, states, events) && n < |states| && i < |states[n].log|
    requires states[n].log[i].request.Rollback? && states[n].log[i].failure == None
    ensures var r := states[n].log[i].request;
      Copies(states[n].store.versions, r.policyId, r.targetVersion, r.expectedVersion + 1)
  {
    hide *;
    InterleavingsAreSerial(hashing, states, events, n);
    AnswersOf(hashing, states[n], i);
    RollbackRestoresSerially(hashing, Requests(states[n].log), i);
  }
}
