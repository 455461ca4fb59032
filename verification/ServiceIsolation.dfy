/** What the whole chain gives a service: the statements it receives for a subject decide about nothing outside the
    service, and their decision is that of the policies one by one. */
module ServiceIsolation {
  import opened Ordering
  import opened PolicyDocument
  import opened PolicyVersions
  import opened EffectivePolicies
  import opened Resolution
  import Evaluator
  import Identifiers
  import Json
  import PolicyClient

  predicate ValidFor(statements: seq<Json.Value>, service: string) {
    forall i | 0 <= i < |statements| :: ValidStatement(statements[i], PolicyClient.ForService(service))
  }

  /** The statements as the evaluator reads them. */
  function Typed(statements: seq<Json.Value>, service: string): (typed: seq<Evaluator.Statement>)
    requires ValidFor(statements, service)
    ensures |typed| == |statements|
  {
    seq(|statements|, i requires 0 <= i < |statements| =>
      Evaluator.ToStatement(statements[i], PolicyClient.ForService(service)))
  }

  lemma StoredStatementsAreValid(document: Json.Value, service: string)
    requires WasValid(document, service)
    ensures ValidFor(Statements(document), service)
  {
    hide ValidStatement;
    var context: Context :| context.expectedService == service && ValidDocument(document, context);
    var statements := Statements(document);
    forall i | 0 <= i < |statements|
      ensures ValidStatement(statements[i], PolicyClient.ForService(service))
    {
      assert ValidStatement(statements[i], context);
      PolicyClient.ValidWithoutCatalogue(statements[i], context);
    }
  }

  ghost predicate ViewsAreValid(views: seq<PolicyView>, service: string) {
    forall i | 0 <= i < |views| :: ValidFor(views[i].statements, service)
  }

  lemma {:induction false} AllStatementsAreValid(views: seq<PolicyView>, service: string)
    requires ViewsAreValid(views, service)
    ensures ValidFor(AllStatements(views), service)
  {
    hide ValidStatement;
    if views != [] {
      assert ViewsAreValid(views[1..], service);
      AllStatementsAreValid(views[1..], service);
      var xs, ys := views[0].statements, AllStatements(views[1..]);
      assert ValidFor(xs, service);
      forall i | 0 <= i < |xs + ys|
        ensures ValidStatement((xs + ys)[i], PolicyClient.ForService(service))
      {
        if i >= |xs| {
          assert (xs + ys)[i] == ys[i - |xs|];
        }
      }
    }
  }

  /** Every policy of the answer holds only statements that were validated for the subject's service. */
  lemma AnswerIsValid(hashing: Hashing, db: Database, subject: Subject, rows: seq<Row>)
    requires TotalOrder(hashing.le) && Inv(hashing, db.store) && Enumerates(db, subject, rows)
    requires Resolve(hashing, db, subject, rows).Ok?
    ensures ViewsAreValid(Resolve(hashing, db, subject, rows).value.policies, subject.service)
  {
    hide ValidFor, Merge, Sort, PutAll, IsLast, Inv, WasValid, Etag, Statements;
    if subject in db.grants {
      MergeContents(rows, hashing.le);
      var sorted := Sort(PutAll(rows), ByNameThenId(hashing.le));
      forall i | 0 <= i < |sorted|
        ensures ValidFor(Statements(sorted[i].document), subject.service)
      {
        assert IsLast(rows, sorted[i]);
        LastIsRow(rows, sorted[i]);
        SelectedIsValid(hashing, db, subject, rows, sorted[i]);
      }
    }
  }

  lemma LastIsRow(rows: seq<Row>, row: Row)
    requires IsLast(rows, row)
    ensures row in rows
  {
  }

  lemma SelectedIsValid(hashing: Hashing, db: Database, subject: Subject, rows: seq<Row>, row: Row)
    requires Inv(hashing, db.store) && Enumerates(db, subject, rows) && row in rows
    requires MemberKey(subject.organizationId, subject.userId) in db.members
    ensures ValidFor(Statements(row.document), subject.service)
  {
    hide WasValid, CopiesSource, Hash;
    assert IsSelectedRow(db, subject, db.members[MemberKey(subject.organizationId, subject.userId)], row);
    assert GoodVersion(hashing, db.store, Key(row.policyId, row.version));
    StoredStatementsAreValid(row.document, subject.service);
  }

  /** No state of the policy store lets the statements that a subject gets for a service allow or deny an action or
      a resource of another service. */
  lemma EffectiveStatementsStayInService(hashing: Hashing, db: Database, subject: Subject, rows: seq<Row>,
      request: Evaluator.Request)
    requires TotalOrder(hashing.le) && Inv(hashing, db.store) && Enumerates(db, subject, rows)
    requires Resolve(hashing, db, subject, rows).Ok? && subject.service != ""
    ensures var statements := Resolve(hashing, db, subject, rows).value.statements;
      && ValidFor(statements, subject.service)
      && (Evaluator.Verdict(Typed(statements, subject.service), request) != Evaluator.ImplicitDeny ==>
            Identifiers.Split(request.action)[0] == subject.service
            && Identifiers.Split(request.resource)[0] == subject.service)
  {
    hide ValidStatement, Resolve, Inv, Enumerates, Evaluator.Applies;
    AnswerIsValid(hashing, db, subject, rows);
    ResolvedPolicies(hashing, db, subject, rows);
    var answer := Resolve(hashing, db, subject, rows).value;
    AllStatementsAreValid(answer.policies, subject.service);
    var typed := Typed(answer.statements, subject.service);
    if Evaluator.Verdict(typed, request) != Evaluator.ImplicitDeny {
      var i := ApplyingStatement(typed, request);
      Evaluator.ValidatedStatementStaysInService(answer.statements[i], PolicyClient.ForService(subject.service),
        request);
    }
  }

  lemma ApplyingStatement(typed: seq<Evaluator.Statement>, request: Evaluator.Request) returns (i: nat)
    requires Evaluator.Verdict(typed, request) != Evaluator.ImplicitDeny
    ensures i < |typed| && Evaluator.Applies(typed[i], request)
  {
    hide Evaluator.Applies;
    var effect := if Evaluator.Some(typed, "Deny", request) then "Deny" else "Allow";
    i :| 0 <= i < |typed| && Evaluator.AppliesWith(typed[i], effect, request);
  }

  /** The verdicts of the policies, joined. */
  ghost function JoinedVerdicts(views: seq<PolicyView>, service: string, request: Evaluator.Request): Evaluator.Reason
    requires ViewsAreValid(views, service)
  {
    if views == [] then Evaluator.ImplicitDeny
    else
      Evaluator.Join(Evaluator.Verdict(Typed(views[0].statements, service), request),
        JoinedVerdicts(views[1..], service, request))
  }

  /** Merging policies neither adds nor hides a decision: the verdict on the merge is the join of the verdicts on the
      policies, so a denial in any of them wins and an allowance in any of them counts otherwise. */
  lemma {:induction false} MergedVerdictIsJoin(views: seq<PolicyView>, service: string, request: Evaluator.Request)
    requires ViewsAreValid(views, service) && ValidFor(AllStatements(views), service)
    ensures Evaluator.Verdict(Typed(AllStatements(views), service), request) == JoinedVerdicts(views, service, request)
  {
    hide ValidStatement, Evaluator.Verdict, Evaluator.ToStatement;
    if views == [] {
      NoVerdict(request);
    } else {
      assert ViewsAreValid(views[1..], service);
      AllStatementsAreValid(views[1..], service);
      MergedVerdictIsJoin(views[1..], service, request);
      var xs, ys := views[0].statements, AllStatements(views[1..]);
      assert Typed(xs + ys, service) == Typed(xs, service) + Typed(ys, service);
      Evaluator.VerdictOfConcatenation(Typed(xs, service), Typed(ys, service), request);
    }
  }

  lemma NoVerdict(request: Evaluator.Request)
    ensures Evaluator.Verdict([], request) == Evaluator.ImplicitDeny
  {
  }
}
