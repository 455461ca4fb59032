/** Policies and their append-only versions: the transactions that create a policy, append a version, roll
    back to an earlier one and change the status. */
module PolicyVersions {
  import opened Wrappers
  import opened Text
  import opened Json
  import opened PolicyDocument

  const MAX_INTEGER := 0x7FFF_FFFF

  datatype Status = Active | Inactive

  datatype Policy = Policy(organizationId: string, service: string, name: string, status: Status, currentVersion: int)

  datatype Version = Version(document: Value, documentHash: string, sourceVersion: Option<int>)

  datatype Key = Key(policyId: string, version: int)

  /** The tables `iam_policies` and `iam_policy_versions`. */
  datatype Store = Store(policies: map<string, Policy>, versions: map<Key, Version>)

  datatype PolicyError =
    | IamPolicyAuthorization
    | IamPolicyConflict
    | IamPolicyNotFound
    | PolicyValidation
    | PrimaryKeyViolation
    | IntegerOutOfRange

  /** SHA-256 as lower-case hexadecimal digits, and the order that `localeCompare` gives to keys. */
  datatype Hashing = Hashing(sha256: string -> string, le: (string, string) -> bool)

  /** `hashPolicyDocument` */
  function Hash(hashing: Hashing, document: Value): string {
    hashing.sha256(CanonicalJson(document, hashing.le))
  }

  // ----- what each transaction does to the tables -----

  /** The active catalogue entries of a service. */
  datatype Catalogue = Catalogue(actions: set<string>, resources: set<string>)

  function Against(catalogue: Catalogue, service: string): Context {
    Context(Some(catalogue.actions), service, Some(catalogue.resources))
  }

  /** `validatedDocument`; there is no catalogue when the service is not registered or not active. */
  function Validated(catalogue: Option<Catalogue>, service: string, document: Value): Result<Value, PolicyError> {
    if catalogue.None? then Err(IamPolicyNotFound)
    else if !ValidDocument(document, Against(catalogue.value, service)) then Err(PolicyValidation)
    else Ok(document)
  }

  predicate NameTaken(store: Store, organizationId: string, service: string, name: string) {
    exists id | id in store.policies :: SameScopedName(store.policies[id], organizationId, service, name)
  }

  predicate SameScopedName(policy: Policy, organizationId: string, service: string, name: string) {
    policy.organizationId == organizationId && policy.service == service && policy.name == name
  }

  /** `permitted` is what `canManage` answers; `id` is the random key of the new row. */
  datatype NewPolicy = NewPolicy(
    id: string, organizationId: string, service: string, name: string, document: Value,
    permitted: bool, catalogue: Option<Catalogue>)

  function Created(hashing: Hashing, store: Store, input: NewPolicy): Result<Store, PolicyError> {
    var name := Trim(input.name);
    if name == "" || Utf16Length(input.name) > 160 then Err(IamPolicyConflict)
    else if !input.permitted then Err(IamPolicyAuthorization)
    else
      var document := Validated(input.catalogue, input.service, input.document);
      if document.Err? then Err(document.error)
      else if input.id in store.policies || NameTaken(store, input.organizationId, input.service, name) then
        Err(IamPolicyConflict)
      else if Key(input.id, 1) in store.versions then Err(IamPolicyConflict)
      else
        var policy := Policy(input.organizationId, input.service, name, Active, 1);
        var version := Version(document.value, Hash(hashing, document.value), None);
        Ok(Store(store.policies[input.id := policy], store.versions[Key(input.id, 1) := version]))
  }

  function Appended(hashing: Hashing, store: Store, policyId: string, document: Value, expectedVersion: int,
      sourceVersion: Option<int>): Result<Store, PolicyError>
    requires policyId in store.policies
  {
    var policy := store.policies[policyId];
    var key := Key(policyId, policy.currentVersion + 1);
    if expectedVersion != policy.currentVersion then Err(IamPolicyConflict)
    else if policy.currentVersion + 1 > MAX_INTEGER then Err(IntegerOutOfRange)
    else if key in store.versions then Err(PrimaryKeyViolation)
    else
      Ok(Store(
        store.policies[policyId := policy.(currentVersion := policy.currentVersion + 1)],
        store.versions[key := Version(document, Hash(hashing, document), sourceVersion)]))
  }

  function VersionCreated(hashing: Hashing, store: Store, policyId: string, document: Value, expectedVersion: int,
      permitted: bool, catalogue: Option<Catalogue>): Result<Store, PolicyError>
  {
    if policyId !in store.policies then Err(IamPolicyNotFound)
    else if !permitted then Err(IamPolicyAuthorization)
    else
      var validated := Validated(catalogue, store.policies[policyId].service, document);
      if validated.Err? then Err(validated.error)
      else Appended(hashing, store, policyId, validated.value, expectedVersion, None)
  }

  function RolledBack(hashing: Hashing, store: Store, policyId: string, expectedVersion: int, targetVersion: int,
      permitted: bool): Result<Store, PolicyError>
  {
    if policyId !in store.policies then Err(IamPolicyNotFound)
    else if !permitted then Err(IamPolicyAuthorization)
    else if Key(policyId, targetVersion) !in store.versions then Err(IamPolicyNotFound)
    else
      var target := store.versions[Key(policyId, targetVersion)];
      Appended(hashing, store, policyId, target.document, expectedVersion, Some(targetVersion))
  }

  function StatusSet(store: Store, policyId: string, status: Status, permitted: bool): Result<Store, PolicyError> {
    if policyId !in store.policies then Err(IamPolicyNotFound)
    else if !permitted then Err(IamPolicyAuthorization)
    else Ok(store.(policies := store.policies[policyId := store.policies[policyId].(status := status)]))
  }

  // ----- the invariant of the tables -----

  /** The versions of a policy are exactly 1 up to its current one. */
  predicate Contiguous(store: Store, id: string)
    requires id in store.policies
  {
    && 1 <= store.policies[id].currentVersion <= MAX_INTEGER
    && (forall v | 1 <= v <= store.policies[id].currentVersion :: Key(id, v) in store.versions)
  }

  predicate WithinVersions(store: Store, key: Key) {
    key.policyId in store.policies && 1 <= key.version <= store.policies[key.policyId].currentVersion
  }

  /** The document is well-formed for the service, against the catalogue of the time it was written. */
  ghost predicate WasValid(document: Value, service: string) {
    exists context: Context :: context.expectedService == service && ValidDocument(document, context)
  }

  /** A version made by a rollback copies the document of an earlier version. */
  predicate CopiesSource(store: Store, key: Key)
    requires key in store.versions
  {
    var source := store.versions[key].sourceVersion;
    source.Some? ==>
      && 1 <= source.value < key.version
      && Key(key.policyId, source.value) in store.versions
      && store.versions[Key(key.policyId, source.value)].document == store.versions[key].document
  }

  ghost predicate GoodVersion(hashing: Hashing, store: Store, key: Key)
    requires key in store.versions
  {
    && WithinVersions(store, key)
    && CopiesSource(store, key)
    && store.versions[key].documentHash == Hash(hashing, store.versions[key].document)
    && WasValid(store.versions[key].document, store.policies[key.policyId].service)
  }

  ghost predicate UniqueNames(store: Store) {
    forall a, b | a in store.policies && b in store.policies && a != b ::
      !SameScopedName(store.policies[a], store.policies[b].organizationId, store.policies[b].service,
        store.policies[b].name)
  }

  ghost predicate Inv(hashing: Hashing, store: Store) {
    && (forall id | id in store.policies :: Contiguous(store, id))
    && (forall key | key in store.versions :: GoodVersion(hashing, store, key))
    && UniqueNames(store)
  }

  /** What later states of the tables keep: every version that was written, and the identity of every policy. */
  predicate Extends(before: Store, after: Store) {
    && (forall key | key in before.versions :: key in after.versions && after.versions[key] == before.versions[key])
    && (forall id | id in before.policies :: id in after.policies && Continues(before.policies[id], after.policies[id]))
  }

  predicate Continues(before: Policy, after: Policy) {
    && after.organizationId == before.organizationId && after.service == before.service && after.name == before.name
    && after.currentVersion >= before.currentVersion
  }

  lemma ValidatedWasValid(catalogue: Option<Catalogue>, service: string, document: Value)
    requires Validated(catalogue, service, document).Ok?
    ensures WasValid(document, service)
  {
    hide ValidDocument;
    assert Against(catalogue.value, service).expectedService == service;
  }

  lemma CreatedVersion(hashing: Hashing, store: Store, input: NewPolicy, key: Key)
    requires Created(hashing, store, input).Ok? && key in Created(hashing, store, input).value.versions
    requires key in store.versions ==> GoodVersion(hashing, store, key)
    ensures GoodVersion(hashing, Created(hashing, store, input).value, key)
  {
    hide ValidDocument, WasValid, Hash, Trim, Utf16Length;
    if key == Key(input.id, 1) {
      ValidatedWasValid(input.catalogue, input.service, input.document);
    }
  }

  lemma CreatedKeepsInv(hashing: Hashing, store: Store, input: NewPolicy)
    requires Inv(hashing, store) && Created(hashing, store, input).Ok?
    ensures Inv(hashing, Created(hashing, store, input).value)
    ensures Extends(store, Created(hashing, store, input).value)
  {
    hide ValidDocument, Hash, Trim, Utf16Length, GoodVersion;
    var after := Created(hashing, store, input).value;
    forall key | key in after.versions
      ensures GoodVersion(hashing, after, key)
    {
      CreatedVersion(hashing, store, input, key);
    }
    forall id | id in after.policies
      ensures Contiguous(after, id)
    {
      if id != input.id {
        assert Contiguous(store, id);
      }
    }
  }

  predicate GoodSource(store: Store, policyId: string, document: Value, sourceVersion: Option<int>) {
    sourceVersion.Some? ==>
      && Key(policyId, sourceVersion.value) in store.versions
      && store.versions[Key(policyId, sourceVersion.value)].document == document
  }

  lemma NextVersionIsFree(hashing: Hashing, store: Store, policyId: string)
    requires Inv(hashing, store) && policyId in store.policies
    ensures Key(policyId, store.policies[policyId].currentVersion + 1) !in store.versions
  {
    var next := Key(policyId, store.policies[policyId].currentVersion + 1);
    if next in store.versions {
      StoredWithinVersions(hashing, store, next);
    }
  }

  lemma StoredWithinVersions(hashing: Hashing, store: Store, key: Key)
    requires Inv(hashing, store) && key in store.versions
    ensures WithinVersions(store, key)
  {
    hide WasValid, CopiesSource, Hash;
    assert GoodVersion(hashing, store, key);
  }

  lemma AppendedVersion(hashing: Hashing, store: Store, policyId: string, document: Value, expectedVersion: int,
      sourceVersion: Option<int>, key: Key)
    requires Inv(hashing, store) && policyId in store.policies
    requires WasValid(document, store.policies[policyId].service)
    requires GoodSource(store, policyId, document, sourceVersion)
    requires var after := Appended(hashing, store, policyId, document, expectedVersion, sourceVersion);
      after.Ok? && key in after.value.versions
    ensures GoodVersion(hashing, Appended(hashing, store, policyId, document, expectedVersion, sourceVersion).value,
      key)
  {
    hide Hash, WasValid;
    if key in store.versions {
      assert GoodVersion(hashing, store, key);
    } else if sourceVersion.Some? {
      assert GoodVersion(hashing, store, Key(policyId, sourceVersion.value));
    }
  }

  lemma AppendedPolicies(hashing: Hashing, store: Store, policyId: string, document: Value, expectedVersion: int,
      sourceVersion: Option<int>)
    requires policyId in store.policies && UniqueNames(store)
    requires forall id | id in store.policies :: Contiguous(store, id)
    ensures var after := Appended(hashing, store, policyId, document, expectedVersion, sourceVersion);
      after.Ok? ==>
        && (forall id | id in after.value.policies :: Contiguous(after.value, id))
        && UniqueNames(after.value)
        && Extends(store, after.value)
  {
    hide Hash;
    var result := Appended(hashing, store, policyId, document, expectedVersion, sourceVersion);
    if result.Ok? {
      forall id | id in result.value.policies
        ensures Contiguous(result.value, id)
      {
        assert Contiguous(store, id);
      }
    }
  }

  lemma AppendedNumbers(hashing: Hashing, store: Store, policyId: string, document: Value, expectedVersion: int,
      sourceVersion: Option<int>)
    requires policyId in store.policies && Key(policyId, store.policies[policyId].currentVersion + 1) !in store.versions
    ensures var after := Appended(hashing, store, policyId, document, expectedVersion, sourceVersion);
      && (after.Ok? ==> store.policies[policyId].currentVersion == expectedVersion)
      && (after.Ok? ==> policyId in after.value.policies)
      && (after.Ok? ==> after.value.policies[policyId].currentVersion == expectedVersion + 1)
      && after != Err(PrimaryKeyViolation)
  {
    hide Hash;
  }

  lemma AppendedKeepsInv(hashing: Hashing, store: Store, policyId: string, document: Value, expectedVersion: int,
      sourceVersion: Option<int>)
    requires Inv(hashing, store) && policyId in store.policies
    requires WasValid(document, store.policies[policyId].service)
    requires GoodSource(store, policyId, document, sourceVersion)
    ensures var after := Appended(hashing, store, policyId, document, expectedVersion, sourceVersion);
      && (after.Ok? ==> Inv(hashing, after.value) && Extends(store, after.value))
      && (after.Ok? ==> store.policies[policyId].currentVersion == expectedVersion)
      && (after.Ok? ==> after.value.policies[policyId].currentVersion == expectedVersion + 1)
      && after != Err(PrimaryKeyViolation)
  {
    hide Hash, WasValid, GoodVersion, Contiguous, UniqueNames, Extends, GoodSource, Appended;
    NextVersionIsFree(hashing, store, policyId);
    AppendedPolicies(hashing, store, policyId, document, expectedVersion, sourceVersion);
    AppendedNumbers(hashing, store, policyId, document, expectedVersion, sourceVersion);
    var result := Appended(hashing, store, policyId, document, expectedVersion, sourceVersion);
    if result.Ok? {
      forall key | key in result.value.versions
        ensures GoodVersion(hashing, result.value, key)
      {
        AppendedVersion(hashing, store, policyId, document, expectedVersion, sourceVersion, key);
      }
    }
  }

  lemma StatusSetVersion(hashing: Hashing, store: Store, policyId: string, status: Status, permitted: bool, key: Key)
    requires StatusSet(store, policyId, status, permitted).Ok?
    requires key in store.versions && GoodVersion(hashing, store, key)
    ensures GoodVersion(hashing, StatusSet(store, policyId, status, permitted).value, key)
  {
    hide Hash, WasValid;
  }

  lemma StatusSetKeepsInv(hashing: Hashing, store: Store, policyId: string, status: Status, permitted: bool)
    requires Inv(hashing, store) && StatusSet(store, policyId, status, permitted).Ok?
    ensures Inv(hashing, StatusSet(store, policyId, status, permitted).value)
    ensures Extends(store, StatusSet(store, policyId, status, permitted).value)
  {
    hide GoodVersion;
    var after := StatusSet(store, policyId, status, permitted).value;
    forall key | key in after.versions
      ensures GoodVersion(hashing, after, key)
    {
      StatusSetVersion(hashing, store, policyId, status, permitted, key);
    }
    forall id | id in after.policies
      ensures Contiguous(after, id)
    {
      assert Contiguous(store, id);
    }
  }

  // ----- when each transaction succeeds, and what it then writes -----

  /** The document has the format, against the active catalogue of the service. */
  predicate ValidNow(document: Value, service: string, catalogue: Option<Catalogue>) {
    && catalogue.Some?
    && ValidDocument(document, Context(Some(catalogue.value.actions), service, Some(catalogue.value.resources)))
  }

  lemma ValidatedExactly(catalogue: Option<Catalogue>, service: string, document: Value)
    ensures Validated(catalogue, service, document) ==
      if ValidNow(document, service, catalogue) then Ok(document)
      else Err(if catalogue.None? then IamPolicyNotFound else PolicyValidation)
  {
    hide ValidDocument;
  }

  /** A policy is created exactly for a permitted writer, with a name that is not blank, not too long and free in its
      organization and service, and a document that is valid now: active, under the trimmed name, as version 1. */
  lemma CreatedExactly(hashing: Hashing, store: Store, input: NewPolicy)
    ensures Created(hashing, store, input).Ok? <==>
      && input.permitted
      && Trim(input.name) != "" && Utf16Length(input.name) <= 160
      && ValidNow(input.document, input.service, input.catalogue)
      && input.id !in store.policies && Key(input.id, 1) !in store.versions
      && forall id | id in store.policies ::
           store.policies[id].organizationId == input.organizationId && store.policies[id].service == input.service ==>
             store.policies[id].name != Trim(input.name)
    ensures Created(hashing, store, input).Ok? ==>
      && Created(hashing, store, input).value.policies ==
           store.policies[input.id := Policy(input.organizationId, input.service, Trim(input.name), Active, 1)]
      && Created(hashing, store, input).value.versions ==
           store.versions[Key(input.id, 1) :=
             Version(input.document, hashing.sha256(CanonicalJson(input.document, hashing.le)), None)]
  {
    hide ValidNow, Validated, Trim, Utf16Length, CanonicalJson;
    ValidatedExactly(input.catalogue, input.service, input.document);
  }

  /** The next version of a policy: the writer has seen the current one. */
  predicate NextWritten(hashing: Hashing, store: Store, after: Store, policyId: string, document: Value,
      source: Option<int>)
    requires policyId in store.policies
  {
    var next := store.policies[policyId].currentVersion + 1;
    && after.policies == store.policies[policyId := store.policies[policyId].(currentVersion := next)]
    && after.versions == store.versions[Key(policyId, next) :=
         Version(document, hashing.sha256(CanonicalJson(document, hashing.le)), source)]
  }

  predicate NextIsFree(store: Store, policyId: string, expectedVersion: int)
    requires policyId in store.policies
  {
    && expectedVersion == store.policies[policyId].currentVersion
    && expectedVersion < 0x7FFF_FFFF
    && Key(policyId, expectedVersion + 1) !in store.versions
  }

  lemma VersionCreatedExactly(hashing: Hashing, store: Store, policyId: string, document: Value, expectedVersion: int,
      permitted: bool, catalogue: Option<Catalogue>)
    ensures var after := VersionCreated(hashing, store, policyId, document, expectedVersion, permitted, catalogue);
      && (after.Ok? <==>
            && policyId in store.policies && permitted
            && ValidNow(document, store.policies[policyId].service, catalogue)
            && NextIsFree(store, policyId, expectedVersion))
      && (after.Ok? ==> NextWritten(hashing, store, after.value, policyId, document, None))
      && (after == Err(IamPolicyAuthorization) <==> policyId in store.policies && !permitted)
  {
    hide ValidNow, Validated, CanonicalJson;
    if policyId in store.policies {
      ValidatedExactly(catalogue, store.policies[policyId].service, document);
    }
  }

  /** A rollback writes the document of its target again. */
  lemma RolledBackExactly(hashing: Hashing, store: Store, policyId: string, expectedVersion: int, targetVersion: int,
      permitted: bool)
    ensures var after := RolledBack(hashing, store, policyId, expectedVersion, targetVersion, permitted);
      var target := Key(policyId, targetVersion);
      && (after.Ok? <==>
            && policyId in store.policies && permitted && target in store.versions
            && NextIsFree(store, policyId, expectedVersion))
      && (after.Ok? ==>
            NextWritten(hashing, store, after.value, policyId, store.versions[target].document, Some(targetVersion)))
      && (after == Err(IamPolicyAuthorization) <==> policyId in store.policies && !permitted)
  {
    hide CanonicalJson;
  }

  lemma StatusSetExactly(store: Store, policyId: string, status: Status, permitted: bool)
    ensures var after := StatusSet(store, policyId, status, permitted);
      && (after.Ok? <==> policyId in store.policies && permitted)
      && (after.Ok? ==>
            && policyId in after.value.policies
            && var policy := after.value.policies[policyId];
            && policy.status == status
            && after.value == store.(policies := store.policies[policyId := policy])
            && policy == store.policies[policyId].(status := policy.status))
      && (after == Err(IamPolicyAuthorization) <==> policyId in store.policies && !permitted)
  {
  }

  // ----- the tables as an object -----

  /** An error leaves the tables alone; otherwise the outcome is their new contents, and the row at the key is
      reported. */
  predicate Reports(result: Result<Version, PolicyError>, outcome: Result<Store, PolicyError>, before: Store,
      after: Store, key: Key)
  {
    match outcome
    case Err(e) => result == Err(e) && after == before
    case Ok(store) => after == store && key in store.versions && result == Ok(store.versions[key])
  }

  class PolicyStore {
    const hashing: Hashing
    var policies: map<string, Policy>
    var versions: map<Key, Version>

    constructor (hashing: Hashing)
      ensures this.hashing == hashing && Contents() == Store(map[], map[])
    {
      this.hashing := hashing;
      policies := map[];
      versions := map[];
    }

    function Contents(): Store
      reads this
    {
      Store(policies, versions)
    }

    method CreateIamPolicy(input: NewPolicy) returns (result: Result<Version, PolicyError>)
      modifies this
      ensures Reports(result, Created(hashing, old(Contents()), input), old(Contents()), Contents(), Key(input.id, 1))
    {
      hide ValidDocument, Hash, Trim, Utf16Length;
      if Trim(input.name) == "" || Utf16Length(input.name) > 160 {
        return Err(IamPolicyConflict);
      }
      if !input.permitted {
        return Err(IamPolicyAuthorization);
      }
      var document := Validated(input.catalogue, input.service, input.document);
      if document.Err? {
        return Err(document.error);
      }
      if input.id in policies || NameTaken(Contents(), input.organizationId, input.service, Trim(input.name))
        || Key(input.id, 1) in versions
      {
        return Err(IamPolicyConflict);
      }
      policies := policies[input.id := Policy(input.organizationId, input.service, Trim(input.name), Active, 1)];
      var version := Version(document.value, Hash(hashing, document.value), None);
      versions := versions[Key(input.id, 1) := version];
      result := Ok(version);
    }

    method AppendVersion(policyId: string, document: Value, expectedVersion: int, sourceVersion: Option<int>)
      returns (result: Result<Version, PolicyError>)
      requires policyId in policies
      modifies this
      ensures Reports(result, Appended(hashing, old(Contents()), policyId, document, expectedVersion, sourceVersion),
        old(Contents()), Contents(), Key(policyId, expectedVersion + 1))
    {
      hide Hash;
      var policy := policies[policyId];
      if expectedVersion != policy.currentVersion {
        return Err(IamPolicyConflict);
      }
      var versionNumber := policy.currentVersion + 1;
      if versionNumber > MAX_INTEGER {
        return Err(IntegerOutOfRange);
      }
      if Key(policyId, versionNumber) in versions {
        return Err(PrimaryKeyViolation);
      }
      var version := Version(document, Hash(hashing, document), sourceVersion);
      versions := versions[Key(policyId, versionNumber) := version];
      policies := policies[policyId := policy.(currentVersion := versionNumber)];
      result := Ok(version);
    }

    method CreateIamPolicyVersion(policyId: string, document: Value, expectedVersion: int, permitted: bool,
        catalogue: Option<Catalogue>) returns (result: Result<Version, PolicyError>)
      modifies this
      ensures Reports(result,
        VersionCreated(hashing, old(Contents()), policyId, document, expectedVersion, permitted, catalogue),
        old(Contents()), Contents(), Key(policyId, expectedVersion + 1))
    {
      hide ValidDocument, Hash;
      if policyId !in policies {
        return Err(IamPolicyNotFound);
      }
      if !permitted {
        return Err(IamPolicyAuthorization);
      }
      var validated := Validated(catalogue, policies[policyId].service, document);
      if validated.Err? {
        return Err(validated.error);
      }
      result := AppendVersion(policyId, validated.value, expectedVersion, None);
    }

    method RollbackIamPolicy(policyId: string, expectedVersion: int, targetVersion: int, permitted: bool)
      returns (result: Result<Version, PolicyError>)
      modifies this
      ensures Reports(result, RolledBack(hashing, old(Contents()), policyId, expectedVersion, targetVersion, permitted),
        old(Contents()), Contents(), Key(policyId, expectedVersion + 1))
    {
      if policyId !in policies {
        return Err(IamPolicyNotFound);
      }
      if !permitted {
        return Err(IamPolicyAuthorization);
      }
      if Key(policyId, targetVersion) !in versions {
        return Err(IamPolicyNotFound);
      }
      var target := versions[Key(policyId, targetVersion)];
      result := AppendVersion(policyId, target.document, expectedVersion, Some(targetVersion));
    }

    method SetIamPolicyStatus(policyId: string, status: Status, permitted: bool)
      returns (result: Result<Policy, PolicyError>)
      modifies this
      ensures match StatusSet(old(Contents()), policyId, status, permitted)
        case Err(e) => result == Err(e) && Contents() == old(Contents())
        case Ok(store) => Contents() == store && result == Ok(policies[policyId])
    {
      if policyId !in policies {
        return Err(IamPolicyNotFound);
      }
      if !permitted {
        return Err(IamPolicyAuthorization);
      }
      policies := policies[policyId := policies[policyId].(status := status)];
      result := Ok(policies[policyId]);
    }
  }
}
