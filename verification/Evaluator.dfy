/** `evaluatePolicy`: deny first, then allow, else implicit deny, with sorted explanations. */
module Evaluator {
  import opened Wrappers
  import opened Ordering
  import opened Text
  import opened Identifiers
  import opened PolicyDocument
  import opened Conditions
  import Json

  datatype Statement = Statement(
    sid: Option<string>,
    effect: string,
    actions: seq<string>,
    resources: seq<string>,
    conditions: Option<seq<Json.Entry>>)

  datatype Reason = ExplicitAllow | ExplicitDeny | ImplicitDeny

  datatype Decision = Decision(
    allowed: bool,
    matchedAllowStatements: seq<string>,
    matchedDenyStatements: seq<string>,
    reason: Reason)

  datatype Request = Request(action: string, resource: string, context: PolicyContext)

  // ----- what a decision means -----

  ghost predicate SomeMatches(patterns: seq<string>, value: string) {
    exists i | 0 <= i < |patterns| :: MatchesPolicyIdentifier(patterns[i], value)
  }

  ghost predicate Applies(s: Statement, request: Request) {
    && s.effect in {"Allow", "Deny"}
    && SomeMatches(s.actions, request.action)
    && SomeMatches(s.resources, request.resource)
    && ConditionsHold(s.conditions, request.context)
  }

  ghost predicate AppliesWith(s: Statement, effect: string, request: Request) {
    s.effect == effect && Applies(s, request)
  }

  ghost predicate Some(statements: seq<Statement>, effect: string, request: Request) {
    exists i | 0 <= i < |statements| :: AppliesWith(statements[i], effect, request)
  }

  predicate ConcreteRequest(request: Request) {
    Concrete(request.action, Action) && Concrete(request.resource, Resource)
  }

  ghost function Verdict(statements: seq<Statement>, request: Request): Reason {
    if !ConcreteRequest(request) then ImplicitDeny
    else if Some(statements, "Deny", request) then ExplicitDeny
    else if Some(statements, "Allow", request) then ExplicitAllow
    else ImplicitDeny
  }

  function Identifier(s: Statement, index: nat): string {
    if s.sid.Some? then s.sid.value else "statement:" + Decimal(index)
  }

  /** Identifiers of the applying statements of one effect, in document order. */
  ghost function Matched(statements: seq<Statement>, effect: string, request: Request): seq<string> {
    if statements == [] then []
    else
      var n := |statements| - 1;
      Matched(statements[..n], effect, request)
      + if AppliesWith(statements[n], effect, request) then [Identifier(statements[n], n)] else []
  }

  /** The explanation lists every applying Deny, and every applying Allow unless nothing is decided. */
  ghost function Decide(statements: seq<Statement>, request: Request, le: (string, string) -> bool): Decision {
    var verdict := Verdict(statements, request);
    Decision(
      verdict == ExplicitAllow,
      if verdict == ImplicitDeny then [] else Sort(Matched(statements, "Allow", request), le),
      if verdict == ExplicitDeny then Sort(Matched(statements, "Deny", request), le) else [],
      verdict)
  }

  // ----- what the caller is told -----

  /** The statement applies to the request: its effect is known, a pattern of each kind matches, the conditions hold. */
  ghost predicate Effective(s: Statement, effect: string, request: Request) {
    && s.effect == effect && (effect == "Allow" || effect == "Deny")
    && (exists i | 0 <= i < |s.actions| :: MatchesPolicyIdentifier(s.actions[i], request.action))
    && (exists i | 0 <= i < |s.resources| :: MatchesPolicyIdentifier(s.resources[i], request.resource))
    && ConditionsHold(s.conditions, request.context)
  }

  /** The identifier by which an explanation refers to a statement: its sid, or its place in the document. */
  predicate Names(name: string, s: Statement, index: nat) {
    match s.sid
    case Some(sid) => name == sid
    case None => name == "statement:" + Decimal(index)
  }

  /** The request concerns one action and one resource, and the statements have an effective one of this effect. */
  ghost predicate Decided(statements: seq<Statement>, effect: string, request: Request) {
    && Concrete(request.action, Action) && Concrete(request.resource, Resource)
    && exists i | 0 <= i < |statements| :: Effective(statements[i], effect, request)
  }

  /** The list names the effective statements of this effect, and nothing else. */
  ghost predicate Explains(names: seq<string>, statements: seq<Statement>, effect: string, request: Request) {
    forall name :: name in names <==>
      && Concrete(request.action, Action) && Concrete(request.resource, Resource)
      && exists i: nat | i < |statements| :: Effective(statements[i], effect, request) && Names(name, statements[i], i)
  }

  /** Nothing is allowed without an effective Allow, nor with an effective Deny; the explanation is complete. */
  ghost predicate DenyByDefault(decision: Decision, statements: seq<Statement>, request: Request) {
    && (decision.allowed <==> Decided(statements, "Allow", request) && !Decided(statements, "Deny", request))
    && (decision.reason == ExplicitAllow <==> decision.allowed)
    && (decision.reason == ExplicitDeny <==> Decided(statements, "Deny", request))
    && Explains(decision.matchedDenyStatements, statements, "Deny", request)
    && Explains(decision.matchedAllowStatements, statements, "Allow", request)
  }

  lemma EffectiveApplies(s: Statement, effect: string, request: Request)
    ensures Effective(s, effect, request) <==> AppliesWith(s, effect, request)
  {
    hide ConditionsHold;
  }

  lemma {:induction false} MatchedNames(statements: seq<Statement>, effect: string, request: Request, name: string)
    ensures name in Matched(statements, effect, request) <==>
      exists i: nat | i < |statements| :: Effective(statements[i], effect, request) && Names(name, statements[i], i)
  {
    if statements != [] {
      var n := |statements| - 1;
      MatchedNames(statements[..n], effect, request, name);
      EffectiveApplies(statements[n], effect, request);
      hide Applies, Effective;
      if i: nat :| i < n && Effective(statements[..n][i], effect, request) && Names(name, statements[..n][i], i) {
        assert Effective(statements[i], effect, request) && Names(name, statements[i], i);
      }
      if i: nat :| i < n && Effective(statements[i], effect, request) && Names(name, statements[i], i) {
        assert statements[..n][i] == statements[i];
      }
    }
  }

  lemma SomeIsDecided(statements: seq<Statement>, effect: string, request: Request)
    ensures ConcreteRequest(request) ==> (Decided(statements, effect, request) <==> Some(statements, effect, request))
    ensures !ConcreteRequest(request) ==> !Decided(statements, effect, request)
  {
    hide Effective, Applies, Concrete;
    forall i | 0 <= i < |statements|
      ensures Effective(statements[i], effect, request) <==> AppliesWith(statements[i], effect, request)
    {
      EffectiveApplies(statements[i], effect, request);
    }
    hide AppliesWith;
  }

  lemma SortedExplains(statements: seq<Statement>, effect: string, request: Request, le: (string, string) -> bool)
    requires ConcreteRequest(request)
    ensures Explains(Sort(Matched(statements, effect, request), le), statements, effect, request)
  {
    hide Effective, Matched, Concrete, Names, Sort;
    SameMembers(Sort(Matched(statements, effect, request), le), Matched(statements, effect, request));
    forall name
      ensures name in Matched(statements, effect, request) <==>
        exists i: nat | i < |statements| :: Effective(statements[i], effect, request) && Names(name, statements[i], i)
    {
      MatchedNames(statements, effect, request, name);
    }
  }

  lemma NothingExplained(statements: seq<Statement>, effect: string, request: Request)
    requires !Decided(statements, effect, request)
    ensures Explains([], statements, effect, request)
  {
    hide Effective, Concrete, Names;
  }

  lemma DecidesByDenial(statements: seq<Statement>, request: Request, le: (string, string) -> bool)
    ensures DenyByDefault(Decide(statements, request, le), statements, request)
  {
    hide Matched, Sort, Explains, Decided, Some;
    SomeIsDecided(statements, "Allow", request);
    SomeIsDecided(statements, "Deny", request);
    if ConcreteRequest(request) {
      SortedExplains(statements, "Allow", request, le);
      SortedExplains(statements, "Deny", request, le);
    }
    if !Decided(statements, "Allow", request) {
      NothingExplained(statements, "Allow", request);
    }
    if !Decided(statements, "Deny", request) {
      NothingExplained(statements, "Deny", request);
    }
  }

  /** The lists are sorted as `sort` leaves them. */
  lemma ExplanationsAreSorted(statements: seq<Statement>, request: Request, le: (string, string) -> bool)
    requires TotalOrder(le)
    ensures SortedBy(Decide(statements, request, le).matchedAllowStatements, le)
    ensures SortedBy(Decide(statements, request, le).matchedDenyStatements, le)
  {
    hide Matched, Sort, Verdict;
    SortSorts(Matched(statements, "Allow", request), le);
    SortSorts(Matched(statements, "Deny", request), le);
  }

  // ----- the program -----

  method AnyMatches(patterns: seq<string>, value: string) returns (some: bool)
    ensures some <==> SomeMatches(patterns, value)
  {
    for i := 0 to |patterns|
      invariant forall k | 0 <= k < i :: !MatchesPolicyIdentifier(patterns[k], value)
    {
      if MatchesPolicyIdentifier(patterns[i], value) {
        return true;
      }
    }
    return false;
  }

  method StatementMatches(s: Statement, request: Request) returns (matches: bool)
    ensures matches <==> Applies(s, request)
    ensures matches <==> Effective(s, s.effect, request)
  {
    if s.effect != "Allow" && s.effect != "Deny" {
      return false;
    }
    var action := AnyMatches(s.actions, request.action);
    var resource := AnyMatches(s.resources, request.resource);
    var conditions := EvaluatePolicyConditions(s.conditions, request.context);
    return action && resource && conditions;
  }

  lemma {:induction false} MatchedIsEmpty(statements: seq<Statement>, effect: string, request: Request)
    ensures Matched(statements, effect, request) == [] <==> !Some(statements, effect, request)
  {
    if statements != [] {
      var n := |statements| - 1;
      MatchedIsEmpty(statements[..n], effect, request);
      assert forall i | 0 <= i < n :: statements[..n][i] == statements[i];
    }
  }

  lemma NothingMatched(request: Request)
    ensures Matched([], "Allow", request) == [] && Matched([], "Deny", request) == []
  {
  }

  lemma MatchedStep(statements: seq<Statement>, index: nat, effect: string, request: Request)
    requires index < |statements|
    ensures Matched(statements[..index + 1], effect, request) == Matched(statements[..index], effect, request)
      + if AppliesWith(statements[index], effect, request) then [Identifier(statements[index], index)] else []
  {
    hide Applies, Identifier;
    assert statements[..index + 1][..index] == statements[..index];
  }

  method EvaluatePolicy(statements: seq<Statement>, request: Request, le: (string, string) -> bool)
    returns (decision: Decision)
    ensures decision == Decide(statements, request, le)
    ensures DenyByDefault(decision, statements, request)
    ensures TotalOrder(le) ==>
      SortedBy(decision.matchedAllowStatements, le) && SortedBy(decision.matchedDenyStatements, le)
  {
    hide Applies, Concrete, Sort, Identifier, Matched, DenyByDefault, TotalOrder, SortedBy;
    DecidesByDenial(statements, request, le);
    if TotalOrder(le) {
      ExplanationsAreSorted(statements, request, le);
    }
    if !ConcreteRequest(request) {
      return Decision(false, [], [], ImplicitDeny);
    }
    var allow: seq<string>, deny: seq<string> := [], [];
    NothingMatched(request);
    for index := 0 to |statements|
      invariant allow == Matched(statements[..index], "Allow", request)
      invariant deny == Matched(statements[..index], "Deny", request)
    {
      var statement := statements[index];
      MatchedStep(statements, index, "Allow", request);
      MatchedStep(statements, index, "Deny", request);
      var matches := StatementMatches(statement, request);
      if matches {
        if statement.effect == "Deny" {
          deny := deny + [Identifier(statement, index)];
        } else {
          allow := allow + [Identifier(statement, index)];
        }
      }
    }
    assert statements[..|statements|] == statements;
    MatchedIsEmpty(statements, "Allow", request);
    MatchedIsEmpty(statements, "Deny", request);
    allow := Sort(allow, le);
    deny := Sort(deny, le);
    if |deny| > 0 {
      return Decision(false, allow, deny, ExplicitDeny);
    }
    if |allow| > 0 {
      return Decision(true, allow, [], ExplicitAllow);
    }
    return Decision(false, [], [], ImplicitDeny);
  }

  // ----- laws of decisions -----

  function Join(r: Reason, q: Reason): Reason {
    if r == ExplicitDeny || q == ExplicitDeny then ExplicitDeny
    else if r == ExplicitAllow || q == ExplicitAllow then ExplicitAllow
    else ImplicitDeny
  }

  lemma SomeOfConcatenation(xs: seq<Statement>, ys: seq<Statement>, effect: string, request: Request)
    ensures Some(xs + ys, effect, request) <==> Some(xs, effect, request) || Some(ys, effect, request)
  {
    if Some(xs + ys, effect, request) {
      var i :| 0 <= i < |xs + ys| && AppliesWith((xs + ys)[i], effect, request);
      assert (xs + ys)[i] == if i < |xs| then xs[i] else ys[i - |xs|];
    }
    if Some(xs, effect, request) {
      var i :| 0 <= i < |xs| && AppliesWith(xs[i], effect, request);
      assert (xs + ys)[i] == xs[i];
    }
    if Some(ys, effect, request) {
      var i :| 0 <= i < |ys| && AppliesWith(ys[i], effect, request);
      assert (xs + ys)[|xs| + i] == ys[i];
    }
  }

  /** The decision on two lists together is the join of the decisions: deny over allow over nothing. */
  lemma VerdictOfConcatenation(xs: seq<Statement>, ys: seq<Statement>, request: Request)
    ensures Verdict(xs + ys, request) == Join(Verdict(xs, request), Verdict(ys, request))
  {
    SomeOfConcatenation(xs, ys, "Deny", request);
    SomeOfConcatenation(xs, ys, "Allow", request);
  }

  lemma SomeOfPermutation(xs: seq<Statement>, ys: seq<Statement>, effect: string, request: Request)
    requires multiset(xs) == multiset(ys)
    ensures Some(xs, effect, request) ==> Some(ys, effect, request)
  {
    SameMembers(xs, ys);
    if Some(xs, effect, request) {
      var i :| 0 <= i < |xs| && AppliesWith(xs[i], effect, request);
      assert xs[i] in ys;
      var j :| 0 <= j < |ys| && ys[j] == xs[i];
    }
  }

  ghost predicate ApplyingAreNamed(statements: seq<Statement>, request: Request) {
    forall s | s in statements && Applies(s, request) :: s.sid.Some?
  }

  lemma {:induction false} MatchedOfConcatenation(xs: seq<Statement>, ys: seq<Statement>, effect: string,
      request: Request)
    requires ApplyingAreNamed(ys, request)
    ensures Matched(xs + ys, effect, request) == Matched(xs, effect, request) + Matched(ys, effect, request)
  {
    if ys == [] {
      assert xs + ys == xs;
    } else {
      var n := |ys| - 1;
      assert ys[n] in ys;
      MatchedOfConcatenation(xs, ys[..n], effect, request);
      assert (xs + ys)[..|xs| + n] == xs + ys[..n];
    }
  }

  lemma MatchedAround(before: seq<Statement>, x: Statement, after: seq<Statement>, effect: string, request: Request)
    requires ApplyingAreNamed([x] + after, request)
    ensures multiset(Matched(before + ([x] + after), effect, request))
         == multiset(Matched(before + after, effect, request)) + multiset(Matched([x], effect, request))
  {
    hide Applies, Matched;
    assert forall s | s in after :: s in [x] + after;
    assert x in [x] + after;
    MatchedOfConcatenation(before, [x] + after, effect, request);
    MatchedOfConcatenation([x], after, effect, request);
    MatchedOfConcatenation(before, after, effect, request);
  }

  lemma CutAround(xs: seq<Statement>, x: Statement) returns (before: seq<Statement>, after: seq<Statement>)
    requires x in xs
    ensures xs == before + ([x] + after)
  {
    var j :| 0 <= j < |xs| && xs[j] == x;
    before, after := xs[..j], xs[j + 1..];
  }

  /** One statement fewer on both sides. */
  lemma MatchedOfBoth(xs: seq<Statement>, x: Statement, before: seq<Statement>, after: seq<Statement>, effect: string,
      request: Request)
    requires ApplyingAreNamed([x] + after, request) && ApplyingAreNamed([x], request)
    requires multiset(Matched(xs, effect, request)) == multiset(Matched(before + after, effect, request))
    ensures multiset(Matched(xs + [x], effect, request)) == multiset(Matched(before + ([x] + after), effect, request))
  {
    hide Applies, Matched;
    assert [x] + [] == [x] && xs + [] == xs;
    MatchedAround(xs, x, [], effect, request);
    MatchedAround(before, x, after, effect, request);
  }

  lemma {:induction false} MatchedOfPermutation(xs: seq<Statement>, ys: seq<Statement>, effect: string,
      request: Request)
    requires multiset(xs) == multiset(ys)
    requires ApplyingAreNamed(xs, request)
    ensures multiset(Matched(xs, effect, request)) == multiset(Matched(ys, effect, request))
  {
    hide Applies, Matched;
    SameMembers(xs, ys);
    if xs == [] {
      assert |ys| == |multiset(ys)|;
    } else {
      var x, front := xs[|xs| - 1], xs[..|xs| - 1];
      assert xs == front + [x];
      var before, after := CutAround(ys, x);
      RemoveSame(front, x, before, after);
      assert forall s | s in front || s in [x] || s in [x] + after :: s in xs;
      MatchedOfPermutation(front, before + after, effect, request);
      MatchedOfBoth(front, x, before, after, effect, request);
    }
  }

  /** The order of statements never changes the decision, nor its explanation when the applying
      statements are named. */
  lemma DecisionIgnoresOrder(xs: seq<Statement>, ys: seq<Statement>, request: Request, le: (string, string) -> bool)
    requires multiset(xs) == multiset(ys) && TotalOrder(le)
    ensures Verdict(xs, request) == Verdict(ys, request)
    ensures ApplyingAreNamed(xs, request) ==> Decide(xs, request, le) == Decide(ys, request, le)
  {
    hide Applies, Matched, Concrete, Sort;
    SomeOfPermutation(xs, ys, "Deny", request);
    SomeOfPermutation(ys, xs, "Deny", request);
    SomeOfPermutation(xs, ys, "Allow", request);
    SomeOfPermutation(ys, xs, "Allow", request);
    if ApplyingAreNamed(xs, request) {
      MatchedOfPermutation(xs, ys, "Deny", request);
      MatchedOfPermutation(xs, ys, "Allow", request);
      SortIgnoresArrangement(Matched(xs, "Deny", request), Matched(ys, "Deny", request), le);
      SortIgnoresArrangement(Matched(xs, "Allow", request), Matched(ys, "Allow", request), le);
    }
  }

  // ----- statements of validated documents -----

  function Strings(xs: seq<Json.Value>): seq<string>
    requires forall i | 0 <= i < |xs| :: xs[i].Str?
  {
    seq(|xs|, i requires 0 <= i < |xs| => xs[i].s)
  }

  /** The typed view of a validated statement. */
  function ToStatement(v: Json.Value, context: Context): Statement
    requires ValidStatement(v, context)
  {
    Statement(
      if Get(v, "sid").Some? then Option.Some(Get(v, "sid").value.s) else None,
      Get(v, "effect").value.s,
      Strings(Get(v, "actions").value.items),
      Strings(Get(v, "resources").value.items),
      if Get(v, "conditions").Some? then Option.Some(Get(v, "conditions").value.entries) else None)
  }

  function ToStatements(v: Json.Value, context: Context): seq<Statement>
    requires ValidDocument(v, context)
  {
    var xs := Get(v, "statements").value.items;
    seq(|xs|, i requires 0 <= i < |xs| => ToStatement(xs[i], context))
  }

  lemma ValidatedStatementStaysInService(v: Json.Value, context: Context, request: Request)
    requires context.expectedService != "" && ValidStatement(v, context)
    requires Applies(ToStatement(v, context), request)
    ensures Split(request.action)[0] == context.expectedService
    ensures Split(request.resource)[0] == context.expectedService
  {
    var s := ToStatement(v, context);
    var i :| 0 <= i < |s.actions| && MatchesPolicyIdentifier(s.actions[i], request.action);
    var j :| 0 <= j < |s.resources| && MatchesPolicyIdentifier(s.resources[j], request.resource);
    assert ValidIdentifier(Get(v, "actions").value.items[i], Action, context);
    assert ValidIdentifier(Get(v, "resources").value.items[j], Resource, context);
    MatchStaysInService(s.actions[i], request.action, Action, context.expectedService);
    MatchStaysInService(s.resources[j], request.resource, Resource, context.expectedService);
  }

  /** A document validated for a service decides nothing about actions or resources of another one. */
  lemma ValidatedDocumentStaysInService(v: Json.Value, context: Context, request: Request)
    requires context.expectedService != "" && ValidDocument(v, context)
    requires Verdict(ToStatements(v, context), request) != ImplicitDeny
    ensures Split(request.action)[0] == context.expectedService
    ensures Split(request.resource)[0] == context.expectedService
  {
    hide ValidStatement, Applies;
    var statements := ToStatements(v, context);
    var effect := if Some(statements, "Deny", request) then "Deny" else "Allow";
    assert Some(statements, effect, request);
    var i :| 0 <= i < |statements| && AppliesWith(statements[i], effect, request);
    ValidatedStatementStaysInService(Get(v, "statements").value.items[i], context, request);
  }
}
