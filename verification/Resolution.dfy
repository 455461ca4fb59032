/** `getEffectivePolicies` as a function of the database, its entity tag, and the answer to a conditional
    request (RFC 9110 sections 8.8.3 and 13.1.2). */
module Resolution {
  import opened Wrappers
  import opened Ordering
  import opened Text
  import opened Json
  import opened PolicyVersions
  import opened EffectivePolicies
  import PolicyDocument

  datatype Subject = Subject(organizationId: string, service: string, userId: string)

  datatype MemberKey = MemberKey(organizationId: string, userId: string)

  /** An active member of an active organization whose user is active. */
  datatype Member = Member(organizationSlug: string, role: string, subjectName: string)

  datatype Attachment = Attachment(policyId: string, principalType: string, principalId: string, detached: bool)

  /** One snapshot; `groups` lists the ids of a member's groups in ascending order. */
  datatype Database = Database(
    members: map<MemberKey, Member>,
    services: set<string>,
    grants: map<Subject, string>,
    groups: map<MemberKey, seq<string>>,
    attachments: set<Attachment>,
    store: Store)

  function GroupIds(db: Database, key: MemberKey): seq<string> {
    if key in db.groups then db.groups[key] else []
  }

  /** `attachmentFilter` and `detached_at is null` */
  predicate Reaches(a: Attachment, userId: string, role: string, groupIds: seq<string>) {
    && !a.detached
    && (|| (a.principalType == "user" && a.principalId == userId)
        || (a.principalType == "role" && a.principalId == role)
        || (a.principalType == "group" && a.principalId in groupIds))
  }

  predicate InScope(store: Store, subject: Subject, id: string) {
    && id in store.policies
    && store.policies[id].organizationId == subject.organizationId
    && store.policies[id].service == subject.service
    && store.policies[id].status == Active
    && Key(id, store.policies[id].currentVersion) in store.versions
  }

  predicate Selected(db: Database, subject: Subject, member: Member, id: string) {
    && InScope(db.store, subject, id)
    && exists a | a in db.attachments ::
         a.policyId == id
         && Reaches(a, subject.userId, member.role, GroupIds(db, MemberKey(subject.organizationId, subject.userId)))
  }

  /** The policy joined with its current version. */
  function RowOf(store: Store, id: string): Row
    requires id in store.policies && Key(id, store.policies[id].currentVersion) in store.versions
  {
    var policy := store.policies[id];
    var version := store.versions[Key(id, policy.currentVersion)];
    Row(version.document, version.documentHash, id, policy.name, policy.currentVersion)
  }

  ghost predicate IsSelectedRow(db: Database, subject: Subject, member: Member, row: Row) {
    Selected(db, subject, member, row.policyId) && row == RowOf(db.store, row.policyId)
  }

  /** The query returns the selected rows, in any order, a policy once for each of its attachments. */
  ghost predicate Enumerates(db: Database, subject: Subject, rows: seq<Row>) {
    var key := MemberKey(subject.organizationId, subject.userId);
    key in db.members ==> forall row :: row in rows <==> IsSelectedRow(db, subject, db.members[key], row)
  }

  // ----- fingerprint and entity tag -----

  datatype PolicyPrint = PolicyPrint(documentHash: string, id: string, version: int)

  datatype Fingerprint = Fingerprint(
    grantId: Option<string>, groupIds: seq<string>, organizationId: string, organizationSlug: string,
    policies: seq<PolicyPrint>, role: string, service: string, subjectName: string, subjectUserId: string)

  function Integer(n: int): string {
    if n < 0 then "-" + Decimal(-n) else Decimal(n)
  }

  function Strs(xs: seq<string>): seq<Value> {
    seq(|xs|, i requires 0 <= i < |xs| => Str(xs[i]))
  }

  function PrintJson(p: PolicyPrint): Value {
    Obj([Entry("documentHash", Str(p.documentHash)), Entry("id", Str(p.id)), Entry("version", Num(Integer(p.version)))])
  }

  function PrintsJson(ps: seq<PolicyPrint>): seq<Value> {
    seq(|ps|, i requires 0 <= i < |ps| => PrintJson(ps[i]))
  }

  function FingerprintJson(f: Fingerprint): Value {
    Obj([
      Entry("grantId", GrantJson(f.grantId)),
      Entry("groupIds", Arr(Strs(f.groupIds))),
      Entry("organizationId", Str(f.organizationId)),
      Entry("organizationSlug", Str(f.organizationSlug)),
      Entry("policies", Arr(PrintsJson(f.policies))),
      Entry("role", Str(f.role)),
      Entry("service", Str(f.service)),
      Entry("subjectName", Str(f.subjectName)),
      Entry("subjectUserId", Str(f.subjectUserId))
    ])
  }

  /** `calculateEffectivePolicyEtag` */
  function Etag(hashing: Hashing, f: Fingerprint): string {
    "\"" + hashing.sha256(Stringify(FingerprintJson(f))) + "\""
  }

  // ----- the answer -----

  datatype Effective = Effective(
    etag: string, organizationId: string, policies: seq<PolicyView>, service: string,
    statements: seq<Value>, subjectUserId: string)

  datatype ResolutionError = EffectivePolicyAuthorization | EffectivePolicyNotFound

  function Prints(views: seq<PolicyView>): (prints: seq<PolicyPrint>)
    ensures |prints| == |views|
  {
    seq(|views|, i requires 0 <= i < |views| => PolicyPrint(views[i].documentHash, views[i].id, views[i].version))
  }

  function PrintOf(db: Database, subject: Subject, member: Member, views: seq<PolicyView>): Fingerprint {
    var grantId := if subject in db.grants then Some(db.grants[subject]) else None;
    Fingerprint(grantId, GroupIds(db, MemberKey(subject.organizationId, subject.userId)), subject.organizationId,
      member.organizationSlug, Prints(views), member.role, subject.service, member.subjectName, subject.userId)
  }

  function Answer(hashing: Hashing, db: Database, subject: Subject, member: Member, merged: Merged): Effective {
    Effective(Etag(hashing, PrintOf(db, subject, member, merged.policies)), subject.organizationId, merged.policies,
      subject.service, merged.statements, subject.userId)
  }

  /** Without a grant the subject has no policies. */
  function Resolve(hashing: Hashing, db: Database, subject: Subject, rows: seq<Row>)
    : Result<Effective, ResolutionError>
  {
    var key := MemberKey(subject.organizationId, subject.userId);
    if key !in db.members then Err(EffectivePolicyAuthorization)
    else if subject.service !in db.services then Err(EffectivePolicyNotFound)
    else
      var merged := if subject in db.grants then Merge(rows, hashing.le) else Merged([], []);
      Ok(Answer(hashing, db, subject, db.members[key], merged))
  }

  /** The snapshot alone determines the answer, however the query happens to order and repeat its rows. */
  lemma SnapshotDeterminesAnswer(hashing: Hashing, db: Database, subject: Subject, rows: seq<Row>, others: seq<Row>)
    requires TotalOrder(hashing.le)
    requires Enumerates(db, subject, rows) && Enumerates(db, subject, others)
    ensures Resolve(hashing, db, subject, rows) == Resolve(hashing, db, subject, others)
  {
    hide Merge, Etag;
    if MemberKey(subject.organizationId, subject.userId) in db.members {
      hide IsSelectedRow;
      forall r, q | r in rows && q in rows && r.policyId == q.policyId
        ensures r == q
      {
        SelectedRowsAgree(db, subject, rows, r, q);
      }
      MergeIgnoresArrangement(rows, others, hashing.le);
    }
  }

  lemma SelectedRowsAgree(db: Database, subject: Subject, rows: seq<Row>, r: Row, q: Row)
    requires MemberKey(subject.organizationId, subject.userId) in db.members && Enumerates(db, subject, rows)
    requires r in rows && q in rows && r.policyId == q.policyId
    ensures r == q
  {
  }

  // ----- equal tags, equal answers -----

  lemma FieldSame(es: seq<Entry>, fs: seq<Entry>, k: nat)
    requires Same(Obj(es), Obj(fs)) && DistinctKeys(fs)
    requires k < |es| && |fs| == |es| && es[k].key == fs[k].key
    ensures Same(es[k].value, fs[k].value)
  {
    assert es[k] in es;
    assert HasCounterpart(es[k], fs);
  }

  lemma FieldsSame(es: seq<Entry>, fs: seq<Entry>)
    requires Same(Obj(es), Obj(fs)) && DistinctKeys(fs)
    requires |fs| == |es| && forall k | 0 <= k < |es| :: es[k].key == fs[k].key
    ensures forall k | 0 <= k < |es| :: Same(es[k].value, fs[k].value)
  {
    hide Same, DistinctKeys;
    forall k | 0 <= k < |es|
      ensures Same(es[k].value, fs[k].value)
    {
      FieldSame(es, fs, k);
    }
  }

  lemma StrsSame(xs: seq<string>, ys: seq<string>)
    requires Same(Arr(Strs(xs)), Arr(Strs(ys)))
    ensures xs == ys
  {
    forall i | 0 <= i < |xs|
      ensures |ys| == |xs| && xs[i] == ys[i]
    {
      assert Same(Strs(xs)[i], Strs(ys)[i]);
    }
  }

  lemma IntegerInjective(m: int, n: int)
    requires Integer(m) == Integer(n)
    ensures m == n
  {
    hide Decimal;
    assert forall k: nat :: Decimal(k)[0] in Decimal(k);
    if m < 0 && n < 0 {
      assert Integer(m)[1..] == Decimal(-m) && Integer(n)[1..] == Decimal(-n);
      DecimalInjective(-m, -n);
    } else if m >= 0 && n >= 0 {
      DecimalInjective(m, n);
    }
  }

  lemma PrintSame(p: PolicyPrint, q: PolicyPrint)
    requires Same(PrintJson(p), PrintJson(q))
    ensures p == q
  {
    var es, fs := PrintJson(p).entries, PrintJson(q).entries;
    FieldSame(es, fs, 0);
    FieldSame(es, fs, 1);
    FieldSame(es, fs, 2);
    IntegerInjective(p.version, q.version);
  }

  lemma PrintsSame(ps: seq<PolicyPrint>, qs: seq<PolicyPrint>)
    requires Same(Arr(PrintsJson(ps)), Arr(PrintsJson(qs)))
    ensures ps == qs
  {
    hide PrintJson;
    forall i | 0 <= i < |ps|
      ensures |qs| == |ps| && ps[i] == qs[i]
    {
      assert Same(PrintsJson(ps)[i], PrintsJson(qs)[i]);
      PrintSame(ps[i], qs[i]);
    }
  }

  lemma StrSame(a: string, b: string)
    requires Same(Str(a), Str(b))
    ensures a == b
  {
  }

  function GrantJson(grantId: Option<string>): Value {
    match grantId
    case Some(id) => Str(id)
    case None => Null
  }

  lemma GrantSame(a: Option<string>, b: Option<string>)
    requires Same(GrantJson(a), GrantJson(b))
    ensures a == b
  {
  }

  lemma FingerprintKeys(f: Fingerprint)
    ensures DistinctKeys(FingerprintJson(f).entries)
  {
  }

  lemma FieldsOfFingerprints(f: Fingerprint, g: Fingerprint)
    requires Same(FingerprintJson(f), FingerprintJson(g))
    ensures Same(GrantJson(f.grantId), GrantJson(g.grantId))
    ensures Same(Arr(Strs(f.groupIds)), Arr(Strs(g.groupIds)))
    ensures Same(Str(f.organizationId), Str(g.organizationId))
    ensures Same(Str(f.organizationSlug), Str(g.organizationSlug))
    ensures Same(Arr(PrintsJson(f.policies)), Arr(PrintsJson(g.policies)))
    ensures Same(Str(f.role), Str(g.role)) && Same(Str(f.service), Str(g.service))
    ensures Same(Str(f.subjectName), Str(g.subjectName)) && Same(Str(f.subjectUserId), Str(g.subjectUserId))
  {
    hide DistinctKeys, Same, Strs, PrintsJson, GrantJson;
    var es, fs := FingerprintJson(f).entries, FingerprintJson(g).entries;
    FingerprintKeys(g);
    FieldsSame(es, fs);
    assert Same(es[0].value, fs[0].value) && Same(es[1].value, fs[1].value) && Same(es[4].value, fs[4].value);
    assert Same(es[2].value, fs[2].value) && Same(es[3].value, fs[3].value) && Same(es[5].value, fs[5].value);
    assert Same(es[6].value, fs[6].value) && Same(es[7].value, fs[7].value) && Same(es[8].value, fs[8].value);
  }

  lemma FingerprintSame(f: Fingerprint, g: Fingerprint)
    requires Same(FingerprintJson(f), FingerprintJson(g))
    ensures f == g
  {
    hide DistinctKeys, Same, Strs, PrintsJson, GrantJson;
    FieldsOfFingerprints(f, g);
    hide FingerprintJson;
    GrantSame(f.grantId, g.grantId);
    StrSame(f.organizationId, g.organizationId);
    StrSame(f.organizationSlug, g.organizationSlug);
    StrSame(f.role, g.role);
    StrSame(f.service, g.service);
    StrSame(f.subjectName, g.subjectName);
    StrSame(f.subjectUserId, g.subjectUserId);
    StrsSame(f.groupIds, g.groupIds);
    PrintsSame(f.policies, g.policies);
  }

  lemma IntegerIsNumeral(n: int)
    ensures Numeral(Integer(n))
  {
    hide Decimal;
  }

  lemma PrintWellFormed(p: PolicyPrint)
    ensures WellFormed(PrintJson(p))
  {
    hide Integer, Numeral;
    IntegerIsNumeral(p.version);
    var es := PrintJson(p).entries;
    assert DistinctKeys(es);
    assert forall e | e in es :: e == es[0] || e == es[1] || e == es[2];
  }

  lemma PrintsWellFormed(ps: seq<PolicyPrint>)
    ensures WellFormed(Arr(PrintsJson(ps)))
  {
    hide PrintJson;
    forall i | 0 <= i < |ps|
      ensures WellFormed(PrintJson(ps[i]))
    {
      PrintWellFormed(ps[i]);
    }
  }

  lemma FingerprintWellFormed(f: Fingerprint)
    ensures WellFormed(FingerprintJson(f))
  {
    hide PrintsJson, DistinctKeys, Strs, GrantJson, WellFormed;
    FingerprintKeys(f);
    PrintsWellFormed(f.policies);
    StrsWellFormed(f.groupIds, f.grantId);
    StrWellFormed(f.organizationId);
    StrWellFormed(f.organizationSlug);
    StrWellFormed(f.role);
    StrWellFormed(f.service);
    StrWellFormed(f.subjectName);
    StrWellFormed(f.subjectUserId);
    ObjWellFormed(FingerprintJson(f).entries);
  }

  lemma StrWellFormed(s: string)
    ensures WellFormed(Str(s))
  {
  }

  lemma StrsWellFormed(xs: seq<string>, grantId: Option<string>)
    ensures WellFormed(Arr(Strs(xs))) && WellFormed(GrantJson(grantId))
  {
  }

  lemma ObjWellFormed(es: seq<Entry>)
    requires DistinctKeys(es) && forall k | 0 <= k < |es| :: WellFormed(es[k].value)
    ensures WellFormed(Obj(es))
  {
  }

  /** The digest does not confuse the two texts. */
  predicate NoCollision(hashing: Hashing, f: Fingerprint, g: Fingerprint) {
    var a, b := Stringify(FingerprintJson(f)), Stringify(FingerprintJson(g));
    hashing.sha256(a) == hashing.sha256(b) ==> a == b
  }

  lemma EqualTagsEqualPrints(hashing: Hashing, f: Fingerprint, g: Fingerprint)
    requires Etag(hashing, f) == Etag(hashing, g) && NoCollision(hashing, f, g)
    ensures f == g
  {
    var a, b := hashing.sha256(Stringify(FingerprintJson(f))), hashing.sha256(Stringify(FingerprintJson(g)));
    assert Etag(hashing, f)[1..|Etag(hashing, f)| - 1] == a;
    assert Etag(hashing, g)[1..|Etag(hashing, g)| - 1] == b;
    hide FingerprintJson;
    FingerprintWellFormed(f);
    FingerprintWellFormed(g);
    EqualTextSameValue(FingerprintJson(f), FingerprintJson(g), (x: string, y: string) => true);
    FingerprintSame(f, g);
  }

  /** What a client sees of a policy is what the tables say about one version of it. */
  predicate FromStore(store: Store, view: PolicyView) {
    var key := Key(view.id, view.version);
    && view.id in store.policies && key in store.versions
    && view.name == store.policies[view.id].name
    && view.documentHash == store.versions[key].documentHash
    && view.statements == Statements(store.versions[key].document)
  }

  lemma MergedFromStore(hashing: Hashing, db: Database, subject: Subject, rows: seq<Row>, i: nat)
    requires TotalOrder(hashing.le) && Enumerates(db, subject, rows)
    requires MemberKey(subject.organizationId, subject.userId) in db.members
    requires i < |Merge(rows, hashing.le).policies|
    ensures FromStore(db.store, Merge(rows, hashing.le).policies[i])
  {
    hide Sort, PutAll, Merge;
    MergeContents(rows, hashing.le);
    var sorted := Sort(PutAll(rows), ByNameThenId(hashing.le));
    assert IsLast(rows, sorted[i]);
    assert sorted[i] in rows;
    assert IsSelectedRow(db, subject, db.members[MemberKey(subject.organizationId, subject.userId)], sorted[i]);
  }

  lemma SameViews(before: Store, after: Store, xs: seq<PolicyView>, ys: seq<PolicyView>)
    requires Extends(before, after) && Prints(xs) == Prints(ys)
    requires forall i | 0 <= i < |xs| :: FromStore(before, xs[i])
    requires forall i | 0 <= i < |ys| :: FromStore(after, ys[i])
    ensures xs == ys
  {
    forall i | 0 <= i < |xs|
      ensures |ys| == |xs| && xs[i] == ys[i]
    {
      assert Prints(xs)[i] == Prints(ys)[i];
      assert FromStore(before, xs[i]) && FromStore(after, ys[i]);
    }
  }

  lemma ResolvedPolicies(hashing: Hashing, db: Database, subject: Subject, rows: seq<Row>)
    requires TotalOrder(hashing.le) && Enumerates(db, subject, rows)
    requires Resolve(hashing, db, subject, rows).Ok?
    ensures var answer := Resolve(hashing, db, subject, rows).value;
      && (forall i | 0 <= i < |answer.policies| :: FromStore(db.store, answer.policies[i]))
      && answer.statements == AllStatements(answer.policies)
  {
    hide FromStore, Sort, Etag;
    if subject in db.grants {
      forall i | 0 <= i < |Merge(rows, hashing.le).policies|
        ensures FromStore(db.store, Merge(rows, hashing.le).policies[i])
      {
        MergedFromStore(hashing, db, subject, rows, i);
      }
    }
  }

  ghost function PrintFor(hashing: Hashing, db: Database, subject: Subject, rows: seq<Row>): Fingerprint
    requires Resolve(hashing, db, subject, rows).Ok?
  {
    PrintOf(db, subject, db.members[MemberKey(subject.organizationId, subject.userId)],
      Resolve(hashing, db, subject, rows).value.policies)
  }

  /** The tag stands for the whole answer: two answers given at different times, between which policies,
      versions, attachments, groups and grants may have changed in any way that keeps versions immutable, are
      equal when their tags are. */
  lemma EqualTagsEqualAnswers(hashing: Hashing,
      db: Database, subject: Subject, rows: seq<Row>, db': Database, subject': Subject, rows': seq<Row>)
    requires TotalOrder(hashing.le) && Extends(db.store, db'.store)
    requires Enumerates(db, subject, rows) && Enumerates(db', subject', rows')
    requires Resolve(hashing, db, subject, rows).Ok? && Resolve(hashing, db', subject', rows').Ok?
    requires NoCollision(hashing, PrintFor(hashing, db, subject, rows), PrintFor(hashing, db', subject', rows'))
    ensures Resolve(hashing, db, subject, rows).value.etag == Resolve(hashing, db', subject', rows').value.etag
      <==> Resolve(hashing, db, subject, rows) == Resolve(hashing, db', subject', rows')
  {
    var a, b := Resolve(hashing, db, subject, rows).value, Resolve(hashing, db', subject', rows').value;
    if a.etag == b.etag {
      var f, g := PrintFor(hashing, db, subject, rows), PrintFor(hashing, db', subject', rows');
      assert a.etag == Etag(hashing, f) && b.etag == Etag(hashing, g);
      hide Etag, NoCollision, Merge, Extends, Enumerates, Prints, FromStore;
      EqualTagsEqualPrints(hashing, f, g);
      ResolvedPolicies(hashing, db, subject, rows);
      ResolvedPolicies(hashing, db', subject', rows');
      SameViews(db.store, db'.store, a.policies, b.policies);
    }
  }

  // ----- what a subject gets, in terms of the tables -----

  /** An attachment that is not detached gives the policy to the user, to the member's role or to one of the member's
      groups. */
  predicate Attached(db: Database, subject: Subject, id: string) {
    var key := MemberKey(subject.organizationId, subject.userId);
    && key in db.members
    && exists a | a in db.attachments ::
         && a.policyId == id && !a.detached
         && match a.principalType
            case "user" => a.principalId == subject.userId
            case "role" => a.principalId == db.members[key].role
            case "group" => key in db.groups && a.principalId in db.groups[key]
            case _ => false
  }

  /** With a grant, every active policy of the organization and the service that is attached, and no other. */
  predicate Entitled(db: Database, subject: Subject, id: string) {
    && subject in db.grants
    && id in db.store.policies
    && db.store.policies[id].status == Active
    && db.store.policies[id].organizationId == subject.organizationId
    && db.store.policies[id].service == subject.service
    && Key(id, db.store.policies[id].currentVersion) in db.store.versions
    && Attached(db, subject, id)
  }

  /** The policy under its name, with the hash and the statements of its current version. */
  predicate ShowsCurrent(store: Store, view: PolicyView) {
    && view.id in store.policies
    && view.name == store.policies[view.id].name
    && view.version == store.policies[view.id].currentVersion
    && Key(view.id, view.version) in store.versions
    && var version := store.versions[Key(view.id, view.version)];
    && view.documentHash == version.documentHash
    && (version.document.Obj? && PolicyDocument.Get(version.document, "statements").Some?
        && PolicyDocument.Get(version.document, "statements").value.Arr? ==>
          view.statements == PolicyDocument.Get(version.document, "statements").value.items)
  }

  ghost predicate Shown(views: seq<PolicyView>, id: string) {
    exists i | 0 <= i < |views| :: views[i].id == id
  }

  /** Every policy once, by name and then by id. */
  ghost predicate InOrder(views: seq<PolicyView>, le: (string, string) -> bool) {
    forall i, j | 0 <= i < j < |views| ::
      && views[i].id != views[j].id
      && if views[i].name == views[j].name then le(views[i].id, views[j].id) else le(views[i].name, views[j].name)
  }

  ghost predicate StatementsOf(views: seq<PolicyView>, statements: seq<Value>) {
    forall s :: s in statements <==> exists i | 0 <= i < |views| :: s in views[i].statements
  }

  /** The answer concerns the subject and holds exactly what the subject is entitled to. */
  ghost predicate HoldsEntitled(hashing: Hashing, db: Database, subject: Subject, answer: Effective) {
    && answer.organizationId == subject.organizationId
    && answer.service == subject.service
    && answer.subjectUserId == subject.userId
    && (forall id :: Shown(answer.policies, id) <==> Entitled(db, subject, id))
    && (forall i | 0 <= i < |answer.policies| :: ShowsCurrent(db.store, answer.policies[i]))
    && InOrder(answer.policies, hashing.le)
    && StatementsOf(answer.policies, answer.statements)
  }

  /** Only members get an answer, only about registered services, and without a grant it is empty. */
  ghost predicate GivesExactly(hashing: Hashing, db: Database, subject: Subject,
      result: Result<Effective, ResolutionError>)
  {
    match result
    case Err(EffectivePolicyAuthorization) => MemberKey(subject.organizationId, subject.userId) !in db.members
    case Err(EffectivePolicyNotFound) =>
      MemberKey(subject.organizationId, subject.userId) in db.members && subject.service !in db.services
    case Ok(answer) =>
      && MemberKey(subject.organizationId, subject.userId) in db.members && subject.service in db.services
      && HoldsEntitled(hashing, db, subject, answer)
      && (subject !in db.grants ==> answer.policies == [] && answer.statements == [])
  }

  lemma SelectedIsEntitled(db: Database, subject: Subject, id: string)
    requires MemberKey(subject.organizationId, subject.userId) in db.members && subject in db.grants
    ensures Selected(db, subject, db.members[MemberKey(subject.organizationId, subject.userId)], id)
      <==> Entitled(db, subject, id)
  {
    var key := MemberKey(subject.organizationId, subject.userId);
    var member := db.members[key];
    if Selected(db, subject, member, id) {
      var a :| a in db.attachments && a.policyId == id && Reaches(a, subject.userId, member.role, GroupIds(db, key));
    }
    if Attached(db, subject, id) {
      var a :| a in db.attachments && a.policyId == id && Reaches(a, subject.userId, member.role, GroupIds(db, key));
    }
  }

  lemma RowShowsCurrent(store: Store, id: string)
    requires id in store.policies && Key(id, store.policies[id].currentVersion) in store.versions
    ensures ShowsCurrent(store, View(RowOf(store, id)))
  {
  }

  /** The rows of the merge are those of the policies that the subject is entitled to. */
  lemma MergedAreEntitled(hashing: Hashing, db: Database, subject: Subject, rows: seq<Row>, sorted: seq<Row>)
    requires Enumerates(db, subject, rows) && subject in db.grants
    requires MemberKey(subject.organizationId, subject.userId) in db.members
    requires forall r :: r in sorted <==> IsLast(rows, r)
    ensures forall id :: Entitled(db, subject, id) <==> exists r | r in sorted :: r.policyId == id
    ensures forall r | r in sorted :: ShowsCurrent(db.store, View(r))
  {
    var member := db.members[MemberKey(subject.organizationId, subject.userId)];
    hide IsLast, Selected, Entitled, View, ShowsCurrent;
    forall r
      ensures r in sorted <==> IsSelectedRow(db, subject, member, r)
    {
      OneRowEach(db, subject, rows);
      MemberIsLast(rows, r);
    }
    forall id
      ensures Entitled(db, subject, id) <==> exists r | r in sorted :: r.policyId == id
    {
      SelectedIsEntitled(db, subject, id);
      if Selected(db, subject, member, id) {
        SelectedHasRow(db, subject, member, id);
        assert IsSelectedRow(db, subject, member, RowOf(db.store, id));
      }
    }
    forall r | r in sorted
      ensures ShowsCurrent(db.store, View(r))
    {
      SelectedHasRow(db, subject, member, r.policyId);
      RowShowsCurrent(db.store, r.policyId);
    }
  }

  lemma SelectedHasRow(db: Database, subject: Subject, member: Member, id: string)
    requires Selected(db, subject, member, id)
    ensures id in db.store.policies && Key(id, db.store.policies[id].currentVersion) in db.store.versions
    ensures RowOf(db.store, id).policyId == id
  {
  }

  lemma OneRowEach(db: Database, subject: Subject, rows: seq<Row>)
    requires Enumerates(db, subject, rows) && MemberKey(subject.organizationId, subject.userId) in db.members
    ensures forall r, q | r in rows && q in rows && r.policyId == q.policyId :: r == q
  {
    hide IsSelectedRow;
    forall r, q | r in rows && q in rows && r.policyId == q.policyId
      ensures r == q
    {
      SelectedRowsAgree(db, subject, rows, r, q);
    }
  }

  lemma ViewsInOrder(sorted: seq<Row>, le: (string, string) -> bool)
    requires SortedBy(sorted, ByNameThenId(le)) && DistinctIds(sorted)
    ensures InOrder(Views(sorted), le)
  {
    forall i, j | 0 <= i < j < |sorted|
      ensures ByNameThenId(le)(sorted[i], sorted[j])
    {
    }
  }

  lemma {:induction false} AllStatementsContents(views: seq<PolicyView>)
    ensures StatementsOf(views, AllStatements(views))
  {
    if views != [] {
      AllStatementsContents(views[1..]);
      forall s
        ensures s in AllStatements(views) <==> exists i | 0 <= i < |views| :: s in views[i].statements
      {
        if i :| 0 <= i < |views| && s in views[i].statements {
          assert i > 0 ==> s in views[1..][i - 1].statements;
        }
        if s in AllStatements(views[1..]) {
          var i :| 0 <= i < |views[1..]| && s in views[1..][i].statements;
          assert s in views[i + 1].statements;
        }
      }
    }
  }

  lemma MergeHoldsEntitled(hashing: Hashing, db: Database, subject: Subject, rows: seq<Row>)
    requires TotalOrder(hashing.le) && Enumerates(db, subject, rows) && subject in db.grants
    requires MemberKey(subject.organizationId, subject.userId) in db.members
    ensures var merged := Merge(rows, hashing.le);
      && (forall id :: Shown(merged.policies, id) <==> Entitled(db, subject, id))
      && (forall i | 0 <= i < |merged.policies| :: ShowsCurrent(db.store, merged.policies[i]))
      && InOrder(merged.policies, hashing.le)
  {
    hide Sort, PutAll, Entitled, ShowsCurrent, Enumerates, IsLast, InOrder;
    MergeContents(rows, hashing.le);
    var sorted := Sort(PutAll(rows), ByNameThenId(hashing.le));
    MergedAreEntitled(hashing, db, subject, rows, sorted);
    ViewsInOrder(sorted, hashing.le);
    hide TotalOrder, SortedBy, DistinctIds;
    forall id
      ensures Shown(Views(sorted), id) <==> Entitled(db, subject, id)
    {
      if r :| r in sorted && r.policyId == id {
        var i :| 0 <= i < |sorted| && sorted[i] == r;
        assert Views(sorted)[i].id == id;
      }
    }
  }

  lemma ResolvesExactly(hashing: Hashing, db: Database, subject: Subject, rows: seq<Row>)
    requires TotalOrder(hashing.le) && Enumerates(db, subject, rows)
    ensures GivesExactly(hashing, db, subject, Resolve(hashing, db, subject, rows))
  {
    hide Merge, Etag, ShowsCurrent, Attached, TotalOrder, Enumerates;
    var result := Resolve(hashing, db, subject, rows);
    if result.Ok? {
      ResolvedPolicies(hashing, db, subject, rows);
      AllStatementsContents(result.value.policies);
      hide FromStore;
      if subject in db.grants {
        MergeHoldsEntitled(hashing, db, subject, rows);
      }
    }
  }

  /** The tag is the quoted digest of a text that says everything about the snapshot which the answer rests on. */
  lemma TagDescribesSnapshot(hashing: Hashing, db: Database, subject: Subject, rows: seq<Row>) returns (v: Value)
    requires Resolve(hashing, db, subject, rows).Ok?
    ensures Resolve(hashing, db, subject, rows).value.etag == "\"" + hashing.sha256(Stringify(v)) + "\""
    ensures v.Obj? && |v.entries| == 9
    ensures var key := MemberKey(subject.organizationId, subject.userId);
      && key in db.members
      && v.entries[0] == Entry("grantId", if subject in db.grants then Str(db.grants[subject]) else Null)
      && v.entries[1] == Entry("groupIds", Arr(Strs(if key in db.groups then db.groups[key] else [])))
      && v.entries[2] == Entry("organizationId", Str(subject.organizationId))
      && v.entries[3] == Entry("organizationSlug", Str(db.members[key].organizationSlug))
      && v.entries[4].key == "policies"
      && v.entries[5] == Entry("role", Str(db.members[key].role))
      && v.entries[6] == Entry("service", Str(subject.service))
      && v.entries[7] == Entry("subjectName", Str(db.members[key].subjectName))
      && v.entries[8] == Entry("subjectUserId", Str(subject.userId))
    ensures var policies, shown := v.entries[4].value, Resolve(hashing, db, subject, rows).value.policies;
      policies.Arr? && |policies.items| == |shown| && forall i | 0 <= i < |shown| ::
        policies.items[i] == Obj([Entry("documentHash", Str(shown[i].documentHash)), Entry("id", Str(shown[i].id)),
          Entry("version", Num(Integer(shown[i].version)))])
  {
    hide Merge, Stringify, Integer;
    var key := MemberKey(subject.organizationId, subject.userId);
    v := FingerprintJson(PrintOf(db, subject, db.members[key], Resolve(hashing, db, subject, rows).value.policies));
  }

  /** The read-only transaction; `rows` is what its last query returns. */
  method GetEffectivePolicies(hashing: Hashing, db: Database, subject: Subject, rows: seq<Row>)
    returns (result: Result<Effective, ResolutionError>)
    ensures result == Resolve(hashing, db, subject, rows)
    ensures TotalOrder(hashing.le) && Enumerates(db, subject, rows) ==> GivesExactly(hashing, db, subject, result)
  {
    hide Merge, Etag, TotalOrder, Enumerates, GivesExactly;
    if TotalOrder(hashing.le) && Enumerates(db, subject, rows) {
      ResolvesExactly(hashing, db, subject, rows);
    }
    var key := MemberKey(subject.organizationId, subject.userId);
    if key !in db.members {
      return Err(EffectivePolicyAuthorization);
    }
    if subject.service !in db.services {
      return Err(EffectivePolicyNotFound);
    }
    if subject !in db.grants {
      return Ok(Answer(hashing, db, subject, db.members[key], Merged([], [])));
    }
    var merged := MergeEffectivePolicies(rows, hashing.le);
    result := Ok(Answer(hashing, db, subject, db.members[key], merged));
  }

  // ----- If-None-Match -----

  /** `header.split(",")` */
  function SplitCommas(s: string): (parts: seq<string>)
    ensures |parts| > 0
  {
    if s == "" then [""]
    else
      var rest := SplitCommas(s[1..]);
      if s[0] == ',' then [""] + rest else [[s[0]] + rest[0]] + rest[1..]
  }

  /** `value.replace(/^W\//, "")` */
  function WithoutWeakness(value: string): string {
    if |value| >= 2 && value[..2] == "W/" then value[2..] else value
  }

  predicate Accepts(candidate: string, etag: string) {
    candidate == "*" || WithoutWeakness(candidate) == WithoutWeakness(etag)
  }

  /** `matchesIfNoneMatch` */
  predicate MatchesIfNoneMatch(header: Option<string>, etag: string) {
    header.Some? && header.value != ""
    && var parts := SplitCommas(header.value);
       exists i | 0 <= i < |parts| :: Accepts(Trim(parts[i]), etag)
  }

  /** A member of the list that the header consists of: no comma, no space around it. */
  predicate ListMember(tag: string) {
    tag != "" && ',' !in tag && !Space(tag[0]) && !Space(tag[|tag| - 1])
  }

  /** The members with a comma and a space between them. */
  function Listed(tags: seq<string>): string {
    if tags == [] then ""
    else if |tags| == 1 then tags[0]
    else tags[0] + (", " + Listed(tags[1..]))
  }

  lemma {:induction false} SplitAtComma(head: string, tail: string)
    requires ',' !in head
    ensures SplitCommas(head) == [head]
    ensures SplitCommas(head + ("," + tail)) == [head] + SplitCommas(tail)
  {
    if head == "" {
      assert head + ("," + tail) == "," + tail;
      assert ("," + tail)[1..] == tail;
    } else {
      SplitAtComma(head[1..], tail);
      var s := head + ("," + tail);
      assert s[1..] == head[1..] + ("," + tail);
      assert head == [head[0]] + head[1..];
    }
  }

  /** The header is a list of its members: each stands, trimmed, for one of the parts. */
  lemma {:induction false} ListedParts(tags: seq<string>, lead: string)
    requires tags != [] && (lead == "" || lead == " ")
    requires forall i | 0 <= i < |tags| :: ListMember(tags[i])
    ensures var parts := SplitCommas(lead + Listed(tags));
      |parts| == |tags| && forall i | 0 <= i < |tags| :: Trim(parts[i]) == tags[i]
  {
    hide Trim, SplitCommas, ListMember;
    var first, rest := lead + tags[0], tags[1..];
    LeadHasNoComma(lead, tags[0]);
    TrimLead(lead, tags[0]);
    if |tags| == 1 {
      SplitAtComma(first, "");
    } else {
      ListedParts(rest, " ");
      ListedStep(tags, lead);
      SplitAtComma(first, " " + Listed(rest));
    }
  }

  lemma ListedNonEmpty(tags: seq<string>)
    requires tags != [] && ListMember(tags[0])
    ensures Listed(tags) != "" && "" + Listed(tags) == Listed(tags)
  {
  }

  lemma LeadHasNoComma(lead: string, tag: string)
    requires ListMember(tag) && (lead == "" || lead == " ")
    ensures ',' !in lead + tag
  {
  }

  lemma ListedStep(tags: seq<string>, lead: string)
    requires |tags| > 1
    ensures lead + Listed(tags) == (lead + tags[0]) + ("," + (" " + Listed(tags[1..])))
  {
    assert ", " + Listed(tags[1..]) == "," + (" " + Listed(tags[1..]));
  }

  lemma TrimLead(lead: string, tag: string)
    requires ListMember(tag) && (lead == "" || lead == " ")
    ensures Trim(lead + tag) == tag
  {
    assert (" " + tag)[1..] == tag && "" + tag == tag;
    assert TrimStart(tag) == tag && TrimEnd(tag) == tag;
    assert TrimStart(" " + tag) == TrimStart((" " + tag)[1..]);
  }

  /** The same tag, each with or without the mark of weakness. */
  ghost predicate WeaklyEqual(a: string, b: string) {
    || a == b
    || exists bare | !("W/" <= bare) :: a in {bare, "W/" + bare} && b in {bare, "W/" + bare}
  }

  lemma AcceptsExactly(candidate: string, etag: string)
    ensures Accepts(candidate, etag) <==> candidate == "*" || WeaklyEqual(candidate, etag)
  {
    var a, b := WithoutWeakness(candidate), WithoutWeakness(etag);
    StripsMark(candidate);
    StripsMark(etag);
    if a == b && !("W/" <= a) {
      assert candidate in {a, "W/" + a} && etag in {a, "W/" + a};
    }
    if exists bare | !("W/" <= bare) :: candidate in {bare, "W/" + bare} && etag in {bare, "W/" + bare} {
      var bare :| !("W/" <= bare) && candidate in {bare, "W/" + bare} && etag in {bare, "W/" + bare};
      MarkStripped(bare);
    }
  }

  lemma StripsMark(value: string)
    ensures value == WithoutWeakness(value) || value == "W/" + WithoutWeakness(value)
    ensures "W/" <= value <==> value == "W/" + WithoutWeakness(value)
  {
  }

  lemma MarkStripped(tag: string)
    requires !("W/" <= tag)
    ensures WithoutWeakness(tag) == tag && WithoutWeakness("W/" + tag) == tag
  {
    assert ("W/" + tag)[..2] == "W/" && ("W/" + tag)[2..] == tag;
  }

  lemma ListedConditionHolds(tags: seq<string>, etag: string)
    requires tags != [] && forall i | 0 <= i < |tags| :: ListMember(tags[i])
    ensures MatchesIfNoneMatch(Some(Listed(tags)), etag) <==> exists i | 0 <= i < |tags| :: Accepts(tags[i], etag)
  {
    hide Accepts, Trim, ListMember, SplitCommas, Listed;
    ListedParts(tags, "");
    ListedNonEmpty(tags);
    var parts := SplitCommas(Listed(tags));
    if exists i | 0 <= i < |tags| :: Accepts(tags[i], etag) {
      var i :| 0 <= i < |tags| && Accepts(tags[i], etag);
      assert Accepts(Trim(parts[i]), etag);
    }
  }

  /** For a list of tags the decision is the weak comparison of RFC 9110 section 8.8.3.2 with each of them, and a star
      matches every tag. */
  lemma ConditionHoldsExactly(tags: seq<string>, etag: string)
    requires tags != [] && forall i | 0 <= i < |tags| :: ListMember(tags[i])
    ensures MatchesIfNoneMatch(Some(Listed(tags)), etag)
      <==> exists i | 0 <= i < |tags| :: tags[i] == "*" || WeaklyEqual(tags[i], etag)
  {
    hide Accepts, ListMember, Listed, WeaklyEqual, MatchesIfNoneMatch;
    ListedConditionHolds(tags, etag);
    forall i | 0 <= i < |tags|
      ensures Accepts(tags[i], etag) <==> tags[i] == "*" || WeaklyEqual(tags[i], etag)
    {
      AcceptsExactly(tags[i], etag);
    }
  }

  /** The tags of this service are hexadecimal digits in quotes. */
  predicate IsTag(etag: string) {
    |etag| >= 2 && etag[0] == '"' && etag[|etag| - 1] == '"' && forall i | 0 < i < |etag| - 1 :: HexDigitChar(etag[i])
  }

  predicate HexDigitChar(c: char) {
    '0' <= c <= '9' || 'a' <= c <= 'f'
  }

  /** A client that sends back the tag it holds is told "not modified" exactly when it is the current one. */
  lemma OwnTagMatchesExactly(held: string, current: string)
    requires IsTag(held) && IsTag(current)
    ensures MatchesIfNoneMatch(Some(held), current) <==> held == current
  {
    assert ListMember(held) by {
      assert forall c | c in held :: c != ',';
    }
    ListedConditionHolds([held], current);
    hide MatchesIfNoneMatch;
    assert Listed([held]) == held;
    assert held[..2] != "W/" && current[..2] != "W/" by {
      assert held[..2][0] == held[0] && current[..2][0] == current[0];
    }
    if MatchesIfNoneMatch(Some(held), current) {
      var i :| 0 <= i < |[held]| && Accepts([held][i], current);
    }
    if held == current {
      assert Accepts([held][0], current);
    }
  }
}
