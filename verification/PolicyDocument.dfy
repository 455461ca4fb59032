/** The policy document format: a declarative description, the validator that walks a document and
    collects issues, and the proof that the validator is sound and complete. */
module PolicyDocument {
  import opened Wrappers
  import opened Text
  import opened Json
  import opened Identifiers

  const DOCUMENT_VERSION := "2026-01-01"
  const ACTIONS_PER_STATEMENT := 50
  const CONDITION_KEYS_PER_STATEMENT := 20
  const CONDITION_VALUES_PER_KEY := 20
  const DOCUMENT_BYTES := 64 * 1024
  const RESOURCES_PER_STATEMENT := 100
  const SID_LENGTH := 64
  const STATEMENTS := 100

  const DOCUMENT_KEYS := {"version", "statements"}
  const STATEMENT_KEYS := {"sid", "effect", "actions", "resources", "conditions"}
  const OPERATORS := {"StringEquals", "StringLike", "StringNotEquals", "Bool"}

  /** Catalogues and the expected service restrict identifiers when they are given. */
  datatype Context = Context(
    actions: Option<set<string>>,
    expectedService: string,
    resources: Option<set<string>>)

  datatype IssueCode = Catalogue | Duplicate | Format | Limit | Required | Scope | Type | Unknown

  datatype Issue = Issue(path: string, code: IssueCode)

  // ----- access to values -----

  function Lookup(es: seq<Entry>, key: string): Option<Value> {
    if es == [] then None
    else if es[0].key == key then Some(es[0].value)
    else Lookup(es[1..], key)
  }

  /** `object[key]`, where None is `undefined`. */
  function Get(v: Value, key: string): Option<Value>
    requires v.Obj?
  {
    Lookup(v.entries, key)
  }

  /** Of an object whose keys are distinct every entry is found under its key, and nothing else. */
  lemma {:induction false} LookupExactly(es: seq<Entry>, key: string, value: Value)
    requires DistinctKeys(es)
    ensures Lookup(es, key) == Some(value) <==> Entry(key, value) in es
  {
    if es != [] {
      assert es == [es[0]] + es[1..];
      LookupExactly(es[1..], key, value);
      assert forall i | 0 < i < |es| :: es[i] == es[1..][i - 1];
    }
  }

  /** Distinct arrays and objects are different members of a JavaScript `Set`. */
  predicate Primitive(v: Value) {
    !v.Arr? && !v.Obj?
  }

  predicate Repeated(xs: seq<Value>, i: nat)
    requires i < |xs|
  {
    Primitive(xs[i]) && xs[i] in xs[..i]
  }

  predicate Distinct(xs: seq<Value>) {
    forall i | 0 <= i < |xs| :: !Repeated(xs, i)
  }

  /** `typeof sid === "string"`, `/^[A-Za-z0-9_-]+$/`, and the limit */
  predicate SidPattern(v: Value) {
    && v.Str?
    && v.s != ""
    && (forall c | c in v.s :: Alphanumeric(c) || c in "_-")
    && Utf16Length(v.s) <= SID_LENGTH
  }

  predicate ConditionText(v: Value) {
    v.Str? && 1 <= Utf16Length(v.s) <= IDENTIFIER_LENGTH
  }

  datatype VariableType = StringVariable | BooleanVariable

  function VariableTypeOf(name: string): Option<VariableType> {
    if name == "user.email_verified" then Some(BooleanVariable)
    else if name in {"organization.id", "organization.role", "organization.slug", "service.environment",
                     "service.key", "user.email", "user.id", "user.name"} then Some(StringVariable)
    else None
  }

  // ----- the declarative format -----

  predicate ValidIdentifier(v: Value, kind: Kind, context: Context) {
    && v.Str?
    && IsPolicyIdentifier(v.s, kind, context.expectedService)
    && var catalogue := if kind == Action then context.actions else context.resources;
    (catalogue.Some? ==> v.s in catalogue.value)
  }

  /** No two strings, numbers, booleans or nulls are the same. */
  predicate AllDifferent(xs: seq<Value>) {
    forall i, j | 0 <= i < j < |xs| && Primitive(xs[i]) :: xs[i] != xs[j]
  }

  predicate ValidIdentifiers(v: Option<Value>, maximum: nat, kind: Kind, context: Context) {
    && v.Some? && v.value.Arr?
    && 1 <= |v.value.items| <= maximum
    && (forall i | 0 <= i < |v.value.items| :: ValidIdentifier(v.value.items[i], kind, context))
    && AllDifferent(v.value.items)
  }

  /** At most 64 letters, digits, underscores and dashes. */
  predicate ValidSid(v: Value) {
    && v.Str?
    && 1 <= Utf16Length(v.s) <= 64
    && forall c | c in v.s :: 'a' <= c <= 'z' || 'A' <= c <= 'Z' || '0' <= c <= '9' || c == '_' || c == '-'
  }

  function AsValues(v: Value): seq<Value> {
    if v.Arr? then v.items else [v]
  }

  predicate ValidConditionValue(operator: string, v: Value) {
    if operator == "Bool" then v.Bool?
    else
      && 1 <= |AsValues(v)| <= 20
      && (forall x | x in AsValues(v) :: x.Str? && 1 <= Utf16Length(x.s) <= 256)
      && AllDifferent(AsValues(v))
  }

  /** The variable is declared and has the type the operator works on. */
  predicate ValidVariable(operator: string, name: string) {
    if operator == "Bool" then name == "user.email_verified"
    else
      name in {"organization.id", "organization.role", "organization.slug", "service.environment", "service.key",
               "user.email", "user.id", "user.name"}
  }

  predicate ValidKey(operator: string, f: Entry) {
    ValidVariable(operator, f.key) && ValidConditionValue(operator, f.value)
  }

  predicate KnownOperator(name: string) {
    name == "StringEquals" || name == "StringLike" || name == "StringNotEquals" || name == "Bool"
  }

  predicate ValidOperator(e: Entry) {
    && KnownOperator(e.key)
    && e.value.Obj?
    && e.value.entries != []
    && forall i | 0 <= i < |e.value.entries| :: ValidKey(e.key, e.value.entries[i])
  }

  /** Number of condition keys under all operators. */
  function TotalKeys(es: seq<Entry>): nat {
    if es == [] then 0
    else TotalKeys(es[..|es| - 1]) + if es[|es| - 1].value.Obj? then |es[|es| - 1].value.entries| else 0
  }

  /** Number of condition keys under the operators that are understood. */
  function KeyCount(es: seq<Entry>): nat {
    if es == [] then 0
    else
      var n := |es| - 1;
      KeyCount(es[..n]) + if es[n].key in OPERATORS && es[n].value.Obj? then |es[n].value.entries| else 0
  }

  predicate ValidConditions(v: Value) {
    && v.Obj?
    && (forall i | 0 <= i < |v.entries| :: ValidOperator(v.entries[i]))
    && 1 <= TotalKeys(v.entries) <= 20
  }

  predicate KnownKeys(v: Value, allowed: set<string>)
    requires v.Obj?
  {
    forall i | 0 <= i < |v.entries| :: v.entries[i].key in allowed
  }

  predicate ValidStatement(v: Value, context: Context) {
    && v.Obj?
    && KnownKeys(v, {"sid", "effect", "actions", "resources", "conditions"})
    && Get(v, "effect") in {Some(Str("Allow")), Some(Str("Deny"))}
    && (Get(v, "sid").Some? ==> ValidSid(Get(v, "sid").value))
    && ValidIdentifiers(Get(v, "actions"), 50, Action, context)
    && ValidIdentifiers(Get(v, "resources"), 100, Resource, context)
    && (Get(v, "conditions").Some? ==> ValidConditions(Get(v, "conditions").value))
  }

  predicate Named(v: Value) {
    v.Obj? && Get(v, "sid").Some?
  }

  predicate UniqueSids(statements: seq<Value>) {
    forall i, j | 0 <= i < j < |statements| && Named(statements[i]) && Named(statements[j]) ::
      Get(statements[i], "sid") != Get(statements[j], "sid")
  }

  predicate ValidDocument(v: Value, context: Context) {
    && Utf8Length(Stringify(v)) <= 65_536
    && v.Obj?
    && KnownKeys(v, {"version", "statements"})
    && Get(v, "version") == Some(Str("2026-01-01"))
    && var statements := Get(v, "statements");
    && statements.Some? && statements.value.Arr?
    && 1 <= |statements.value.items| <= 100
    && (forall i | 0 <= i < |statements.value.items| :: ValidStatement(statements.value.items[i], context))
    && UniqueSids(statements.value.items)
  }

  // ----- the issues of each part, in the order they are reported -----

  function When(condition: bool, path: string, code: IssueCode): (r: seq<Issue>)
    ensures r == [] <==> !condition
  {
    if condition then [Issue(path, code)] else []
  }

  function At(path: string, index: nat): string {
    path + "[" + Decimal(index) + "]"
  }

  /** The issues of consecutive parts, one after the other. */
  function Flatten(parts: seq<seq<Issue>>): seq<Issue> {
    if parts == [] then []
    else
      var n := |parts| - 1;
      Flatten(parts[..n]) + parts[n]
  }

  function IdentifierIssues(v: Value, kind: Kind, path: string, context: Context): seq<Issue> {
    if !v.Str? then [Issue(path, Type)]
    else if !(1 <= Utf16Length(v.s) <= IDENTIFIER_LENGTH) then [Issue(path, Limit)]
    else if !IsPolicyIdentifier(v.s, kind, "") then [Issue(path, Format)]
    else if context.expectedService != "" && Split(v.s)[0] != context.expectedService then [Issue(path, Scope)]
    else
      var catalogue := if kind == Action then context.actions else context.resources;
      When(catalogue.Some? && v.s !in catalogue.value, path, Catalogue)
  }

  function ElementParts(xs: seq<Value>, kind: Kind, path: string, context: Context): seq<seq<Issue>> {
    seq(|xs|, i requires 0 <= i < |xs| =>
      IdentifierIssues(xs[i], kind, At(path, i), context) + When(Repeated(xs, i), At(path, i), Duplicate))
  }

  function IdentifiersIssues(v: Option<Value>, path: string, maximum: nat, kind: Kind, context: Context): seq<Issue> {
    if v.None? || !v.value.Arr? then [Issue(path, Type)]
    else
      var xs := v.value.items;
      When(|xs| == 0, path, Required) + When(|xs| > maximum, path, Limit)
      + Flatten(ElementParts(xs, kind, path, context))
  }

  function ConditionValueIssues(operator: string, v: Value, path: string): seq<Issue> {
    if operator == "Bool" then When(!v.Bool?, path, Type)
    else
      var values := AsValues(v);
      When(!(1 <= |values| <= CONDITION_VALUES_PER_KEY), path, Limit)
      + When(exists x | x in values :: !ConditionText(x), path, Type)
      + When(!Distinct(values), path, Duplicate)
  }

  function VariableIssues(operator: string, name: string, path: string): seq<Issue> {
    if VariableTypeOf(name).None? then [Issue(path, Format)]
    else
      var expected := if operator == "Bool" then BooleanVariable else StringVariable;
      When(VariableTypeOf(name).value != expected, path, Type)
  }

  function KeyParts(operator: string, es: seq<Entry>, path: string): seq<seq<Issue>> {
    seq(|es|, i requires 0 <= i < |es| =>
      VariableIssues(operator, es[i].key, path + "." + es[i].key)
      + ConditionValueIssues(operator, es[i].value, path + "." + es[i].key))
  }

  function OperatorIssues(e: Entry, path: string): seq<Issue> {
    if e.key !in OPERATORS then [Issue(path, Unknown)]
    else if !e.value.Obj? then [Issue(path, Type)]
    else When(e.value.entries == [], path, Required) + Flatten(KeyParts(e.key, e.value.entries, path))
  }

  function OperatorParts(es: seq<Entry>, path: string): seq<seq<Issue>> {
    seq(|es|, i requires 0 <= i < |es| => OperatorIssues(es[i], path + "." + es[i].key))
  }

  function ConditionsIssues(v: Value, path: string): seq<Issue> {
    if !v.Obj? then [Issue(path, Type)]
    else
      Flatten(OperatorParts(v.entries, path))
      + When(KeyCount(v.entries) == 0, path, Required)
      + When(KeyCount(v.entries) > CONDITION_KEYS_PER_STATEMENT, path, Limit)
  }

  function UnknownKeyParts(es: seq<Entry>, allowed: set<string>, path: string): seq<seq<Issue>> {
    seq(|es|, i requires 0 <= i < |es| => When(es[i].key !in allowed, path + "." + es[i].key, Unknown))
  }

  /** The well-formed sids of the given statements. */
  function Sids(statements: seq<Value>): set<string> {
    if statements == [] then {}
    else
      var n := |statements| - 1;
      var s := statements[n];
      Sids(statements[..n]) + if Named(s) && SidPattern(Get(s, "sid").value) then {Get(s, "sid").value.s} else {}
  }

  function SidIssues(v: Value, seen: set<string>, path: string): seq<Issue>
    requires v.Obj?
  {
    match Get(v, "sid")
    case None => []
    case Some(sid) =>
      if !SidPattern(sid) then [Issue(path, Format)] else When(sid.s in seen, path, Duplicate)
  }

  function StatementParts(v: Value, seen: set<string>, path: string, context: Context): seq<seq<Issue>>
    requires v.Obj?
  {
    [ Flatten(UnknownKeyParts(v.entries, STATEMENT_KEYS, path)),
      When(Get(v, "effect") !in {Some(Str("Allow")), Some(Str("Deny"))}, path + ".effect", Format),
      SidIssues(v, seen, path + ".sid"),
      IdentifiersIssues(Get(v, "actions"), path + ".actions", ACTIONS_PER_STATEMENT, Action, context),
      IdentifiersIssues(Get(v, "resources"), path + ".resources", RESOURCES_PER_STATEMENT, Resource, context),
      match Get(v, "conditions")
      case None => []
      case Some(conditions) => ConditionsIssues(conditions, path + ".conditions") ]
  }

  function StatementIssues(v: Value, seen: set<string>, path: string, context: Context): seq<Issue> {
    if !v.Obj? then [Issue(path, Type)] else Flatten(StatementParts(v, seen, path, context))
  }

  function StatementsParts(statements: seq<Value>, context: Context): seq<seq<Issue>> {
    seq(|statements|, i requires 0 <= i < |statements| =>
      StatementIssues(statements[i], Sids(statements[..i]), At("$.statements", i), context))
  }

  function StatementListIssues(v: Option<Value>, context: Context): seq<Issue> {
    match v
    case Some(Arr(statements)) =>
      When(|statements| == 0, "$.statements", Required)
      + When(|statements| > STATEMENTS, "$.statements", Limit)
      + Flatten(StatementsParts(statements, context))
    case _ => [Issue("$.statements", Type)]
  }

  function DocumentIssues(v: Value, context: Context): seq<Issue> {
    When(Utf8Length(Stringify(v)) > DOCUMENT_BYTES, "$", Limit)
    + if !v.Obj? then [Issue("$", Type)]
      else
        Flatten(UnknownKeyParts(v.entries, DOCUMENT_KEYS, "$"))
        + When(Get(v, "version") != Some(Str(DOCUMENT_VERSION)), "$.version", Format)
        + StatementListIssues(Get(v, "statements"), context)
  }

  // ----- no issue means the format holds, and conversely -----

  lemma {:induction false} FlattenEmpty(parts: seq<seq<Issue>>)
    ensures Flatten(parts) == [] <==> forall i | 0 <= i < |parts| :: parts[i] == []
  {
    if parts != [] {
      var n := |parts| - 1;
      FlattenEmpty(parts[..n]);
      NothingReported(Flatten(parts[..n]), parts[n]);
      assert forall i | 0 <= i < n :: parts[..n][i] == parts[i];
    }
  }

  lemma NothingReported(a: seq<Issue>, b: seq<Issue>)
    ensures a + b == [] <==> a == [] && b == []
  {
    assert |a + b| == |a| + |b|;
  }

  lemma IdentifierIssuesExact(v: Value, kind: Kind, path: string, context: Context)
    ensures IdentifierIssues(v, kind, path, context) == [] <==> ValidIdentifier(v, kind, context)
  {
  }

  lemma DistinctExactly(xs: seq<Value>)
    ensures Distinct(xs) <==> AllDifferent(xs)
  {
    if Distinct(xs) {
      forall i, j | 0 <= i < j < |xs| && Primitive(xs[i])
        ensures xs[i] != xs[j]
      {
        assert xs[..j][i] == xs[i] && !Repeated(xs, j);
      }
    }
  }

  lemma SidPatternExactly(v: Value)
    ensures SidPattern(v) <==> ValidSid(v)
  {
  }

  lemma {:induction false} KeyCountExactly(es: seq<Entry>)
    requires forall i | 0 <= i < |es| :: ValidOperator(es[i])
    ensures KeyCount(es) == TotalKeys(es)
  {
    if es != [] {
      var n := |es| - 1;
      assert ValidOperator(es[n]);
      KeyCountExactly(es[..n]);
    }
  }

  /** Which issue an identifier has: at most one, and each code for its own reason. */
  lemma IdentifierCodes(v: Value, kind: Kind, path: string, context: Context)
    ensures var issues := IdentifierIssues(v, kind, path, context);
      && |issues| <= 1
      && (issues == [Issue(path, Type)] <==> !v.Str?)
      && (issues == [Issue(path, Limit)] <==> v.Str? && !(1 <= Utf16Length(v.s) <= 256))
      && (issues == [Issue(path, Format)] <==>
            v.Str? && 1 <= Utf16Length(v.s) <= 256 && !IsPolicyIdentifier(v.s, kind, ""))
      && (issues == [Issue(path, Scope)] <==>
            && v.Str? && IsPolicyIdentifier(v.s, kind, "")
            && context.expectedService != "" && !IsPolicyIdentifier(v.s, kind, context.expectedService))
      && (issues == [Issue(path, Catalogue)] <==>
            && v.Str? && IsPolicyIdentifier(v.s, kind, context.expectedService)
            && match kind
               case Action => context.actions.Some? && v.s !in context.actions.value
               case Resource => context.resources.Some? && v.s !in context.resources.value)
  {
  }

  lemma ElementPartsExact(xs: seq<Value>, kind: Kind, path: string, context: Context)
    ensures Flatten(ElementParts(xs, kind, path, context)) == []
       <==> (forall i | 0 <= i < |xs| :: ValidIdentifier(xs[i], kind, context)) && AllDifferent(xs)
  {
    DistinctExactly(xs);
    var parts := ElementParts(xs, kind, path, context);
    FlattenEmpty(parts);
    forall i | 0 <= i < |xs|
      ensures parts[i] == [] <==> (ValidIdentifier(xs[i], kind, context) && !Repeated(xs, i))
    {
      IdentifierIssuesExact(xs[i], kind, At(path, i), context);
      NothingReported(IdentifierIssues(xs[i], kind, At(path, i), context),
                      When(Repeated(xs, i), At(path, i), Duplicate));
    }
  }

  lemma IdentifiersIssuesExact(v: Option<Value>, path: string, maximum: nat, kind: Kind, context: Context)
    ensures IdentifiersIssues(v, path, maximum, kind, context) == [] <==> ValidIdentifiers(v, maximum, kind, context)
  {
    if v.Some? && v.value.Arr? {
      ElementPartsExact(v.value.items, kind, path, context);
    }
  }

  lemma KeyPartExact(operator: string, f: Entry, path: string)
    ensures VariableIssues(operator, f.key, path) + ConditionValueIssues(operator, f.value, path) == []
       <==> ValidKey(operator, f)
  {
    DistinctExactly(AsValues(f.value));
    hide Distinct, AllDifferent;
    NothingReported(VariableIssues(operator, f.key, path), ConditionValueIssues(operator, f.value, path));
  }

  lemma OperatorsExactly(name: string)
    ensures KnownOperator(name) <==> name in OPERATORS
  {
  }

  lemma OperatorIssuesExact(e: Entry, path: string)
    ensures OperatorIssues(e, path) == [] <==> ValidOperator(e)
  {
    hide KnownOperator, ValidKey, VariableIssues, ConditionValueIssues, Flatten;
    OperatorsExactly(e.key);
    if e.value.Obj? {
      var es := e.value.entries;
      var parts := KeyParts(e.key, es, path);
      FlattenEmpty(parts);
      forall i | 0 <= i < |es|
        ensures parts[i] == [] <==> ValidKey(e.key, es[i])
      {
        KeyPartExact(e.key, es[i], path + "." + es[i].key);
      }
    }
  }

  lemma ConditionsIssuesExact(v: Value, path: string)
    ensures ConditionsIssues(v, path) == [] <==> ValidConditions(v)
  {
    if v.Obj? {
      var parts := OperatorParts(v.entries, path);
      FlattenEmpty(parts);
      forall i | 0 <= i < |v.entries|
        ensures parts[i] == [] <==> ValidOperator(v.entries[i])
      {
        OperatorIssuesExact(v.entries[i], path + "." + v.entries[i].key);
      }
      hide OperatorIssues, ValidOperator, KeyCount, TotalKeys;
      if forall i | 0 <= i < |v.entries| :: ValidOperator(v.entries[i]) {
        KeyCountExactly(v.entries);
      }
    }
  }

  lemma UnknownKeysExact(v: Value, allowed: set<string>, path: string)
    requires v.Obj?
    ensures Flatten(UnknownKeyParts(v.entries, allowed, path)) == [] <==> KnownKeys(v, allowed)
  {
    var parts := UnknownKeyParts(v.entries, allowed, path);
    FlattenEmpty(parts);
    assert forall i | 0 <= i < |v.entries| :: parts[i] == [] <==> v.entries[i].key in allowed;
  }

  lemma FlattenSix(a: seq<Issue>, b: seq<Issue>, c: seq<Issue>, d: seq<Issue>, e: seq<Issue>, f: seq<Issue>)
    ensures Flatten([a, b, c, d, e, f]) == []
       <==> a == [] && b == [] && c == [] && d == [] && e == [] && f == []
  {
    var parts := [a, b, c, d, e, f];
    FlattenEmpty(parts);
    assert a == parts[0] && b == parts[1] && c == parts[2] && d == parts[3] && e == parts[4] && f == parts[5];
  }

  lemma SidIssuesExact(v: Value, seen: set<string>, path: string)
    requires v.Obj?
    ensures SidIssues(v, seen, path) == []
       <==> (Named(v) ==> SidPattern(Get(v, "sid").value) && Get(v, "sid").value.s !in seen)
  {
  }

  lemma StatementIssuesExact(v: Value, seen: set<string>, path: string, context: Context)
    ensures StatementIssues(v, seen, path, context) == []
       <==> ValidStatement(v, context) && (Named(v) ==> Get(v, "sid").value.s !in seen)
  {
    if v.Obj? {
      var parts := StatementParts(v, seen, path, context);
      FlattenSix(parts[0], parts[1], parts[2], parts[3], parts[4], parts[5]);
      assert parts == [parts[0], parts[1], parts[2], parts[3], parts[4], parts[5]];
      UnknownKeysExact(v, STATEMENT_KEYS, path);
      SidIssuesExact(v, seen, path + ".sid");
      if Named(v) {
        SidPatternExactly(Get(v, "sid").value);
      }
      IdentifiersIssuesExact(Get(v, "actions"), path + ".actions", ACTIONS_PER_STATEMENT, Action, context);
      IdentifiersIssuesExact(Get(v, "resources"), path + ".resources", RESOURCES_PER_STATEMENT, Resource, context);
      if Get(v, "conditions").Some? {
        ConditionsIssuesExact(Get(v, "conditions").value, path + ".conditions");
      }
    }
  }

  lemma {:induction false} SidsAreCollected(statements: seq<Value>, s: string)
    ensures s in Sids(statements)
       <==> exists i | 0 <= i < |statements| :: Named(statements[i])
              && SidPattern(Get(statements[i], "sid").value) && Get(statements[i], "sid").value.s == s
  {
    if statements != [] {
      var n := |statements| - 1;
      SidsAreCollected(statements[..n], s);
      if s in Sids(statements[..n]) {
        var i :| 0 <= i < n && Named(statements[..n][i])
                 && SidPattern(Get(statements[..n][i], "sid").value) && Get(statements[..n][i], "sid").value.s == s;
        assert statements[i] == statements[..n][i];
      }
      if i :| 0 <= i < n && Named(statements[i])
              && SidPattern(Get(statements[i], "sid").value) && Get(statements[i], "sid").value.s == s {
        assert statements[i] == statements[..n][i];
      }
    }
  }

  lemma ValidStatementSid(v: Value, context: Context)
    requires ValidStatement(v, context)
    ensures Named(v) ==> SidPattern(Get(v, "sid").value)
  {
    if Named(v) {
      SidPatternExactly(Get(v, "sid").value);
    }
  }

  predicate FreshSid(statements: seq<Value>, i: nat)
    requires i < |statements|
  {
    Named(statements[i]) ==>
      forall j | 0 <= j < i && Named(statements[j]) :: Get(statements[j], "sid") != Get(statements[i], "sid")
  }

  /** The set of seen sids answers whether an earlier statement has the same sid. */
  lemma SeenMeansEarlier(statements: seq<Value>, i: nat)
    requires i < |statements|
    requires forall k | 0 <= k < i && Named(statements[k]) :: SidPattern(Get(statements[k], "sid").value)
    requires Named(statements[i]) ==> SidPattern(Get(statements[i], "sid").value)
    ensures FreshSid(statements, i)
       <==> (Named(statements[i]) ==> Get(statements[i], "sid").value.s !in Sids(statements[..i]))
  {
    if Named(statements[i]) {
      var s := Get(statements[i], "sid").value.s;
      SidsAreCollected(statements[..i], s);
      if s in Sids(statements[..i]) {
        var j :| 0 <= j < i && Named(statements[..i][j])
                 && SidPattern(Get(statements[..i][j], "sid").value) && Get(statements[..i][j], "sid").value.s == s;
        assert statements[j] == statements[..i][j];
      } else {
        forall j | 0 <= j < i && Named(statements[j])
          ensures Get(statements[j], "sid") != Get(statements[i], "sid")
        {
          assert statements[..i][j] == statements[j];
        }
      }
    }
  }

  lemma StatementPartExact(statements: seq<Value>, i: nat, context: Context)
    requires i < |statements| && forall k | 0 <= k < i :: ValidStatement(statements[k], context)
    ensures StatementIssues(statements[i], Sids(statements[..i]), At("$.statements", i), context) == []
       <==> ValidStatement(statements[i], context) && FreshSid(statements, i)
  {
    hide ValidStatement, StatementIssues, Sids, FreshSid;
    StatementIssuesExact(statements[i], Sids(statements[..i]), At("$.statements", i), context);
    if ValidStatement(statements[i], context) {
      forall k | 0 <= k <= i {
        ValidStatementSid(statements[k], context);
      }
      SeenMeansEarlier(statements, i);
    }
  }

  lemma {:induction false} StatementsPartsExact(statements: seq<Value>, n: nat, context: Context)
    requires n <= |statements|
    ensures Flatten(StatementsParts(statements, context)[..n]) == []
       <==> forall i | 0 <= i < n :: ValidStatement(statements[i], context) && FreshSid(statements, i)
  {
    hide ValidStatement, StatementIssues, Sids, FreshSid;
    var parts := StatementsParts(statements, context);
    if n > 0 {
      StatementsPartsExact(statements, n - 1, context);
      assert parts[..n][..n - 1] == parts[..n - 1];
      NothingReported(Flatten(parts[..n - 1]), parts[n - 1]);
      if forall i | 0 <= i < n - 1 :: ValidStatement(statements[i], context) {
        StatementPartExact(statements, n - 1, context);
      }
    }
  }

  lemma UniqueSidsStepwise(statements: seq<Value>)
    ensures UniqueSids(statements) <==> forall i | 0 <= i < |statements| :: FreshSid(statements, i)
  {
    if forall i | 0 <= i < |statements| :: FreshSid(statements, i) {
      forall i, j | 0 <= i < j < |statements| && Named(statements[i]) && Named(statements[j])
        ensures Get(statements[i], "sid") != Get(statements[j], "sid")
      {
        assert FreshSid(statements, j);
      }
    }
  }

  lemma StatementsExact(statements: seq<Value>, context: Context)
    ensures Flatten(StatementsParts(statements, context)) == []
       <==> (forall i | 0 <= i < |statements| :: ValidStatement(statements[i], context)) && UniqueSids(statements)
  {
    hide ValidStatement, StatementIssues, Sids, FreshSid, UniqueSids;
    var parts := StatementsParts(statements, context);
    StatementsPartsExact(statements, |statements|, context);
    assert parts[..|statements|] == parts;
    UniqueSidsStepwise(statements);
  }

  /** The validator reports nothing exactly on the documents of the declared format. */
  lemma DocumentIssuesExact(v: Value, context: Context)
    ensures DocumentIssues(v, context) == [] <==> ValidDocument(v, context)
  {
    hide Flatten, ValidStatement, UnknownKeyParts, StatementsParts, UniqueSids, KnownKeys;
    if v.Obj? {
      UnknownKeysExact(v, DOCUMENT_KEYS, "$");
      var statements := Get(v, "statements");
      if statements.Some? && statements.value.Arr? {
        StatementsExact(statements.value.items, context);
      }
    }
  }

  // ----- what the codes and paths mean -----

  lemma {:induction false} FlattenContents(parts: seq<seq<Issue>>, issue: Issue)
    ensures issue in Flatten(parts) <==> exists i | 0 <= i < |parts| :: issue in parts[i]
  {
    if parts != [] {
      var n := |parts| - 1;
      FlattenContents(parts[..n], issue);
      if i :| 0 <= i < n && issue in parts[i] {
        assert issue in parts[..n][i];
      }
      if i :| 0 <= i < n && issue in parts[..n][i] {
        assert issue in parts[i];
      }
    }
  }

  lemma DeeperPath(path: string, index: nat)
    ensures At(path, index) != path
  {
    assert |At(path, index)| > |path|;
  }

  /** At the path of a list itself: it is no list, it is empty, or it is too long. */
  lemma ListCodes(v: Option<Value>, path: string, maximum: nat, kind: Kind, context: Context)
    ensures var issues := IdentifiersIssues(v, path, maximum, kind, context);
      && (Issue(path, Type) in issues <==> v.None? || !v.value.Arr?)
      && (Issue(path, Required) in issues <==> v.Some? && v.value == Arr([]))
      && (Issue(path, Limit) in issues <==> v.Some? && v.value.Arr? && |v.value.items| > maximum)
      && (forall i | v.Some? && v.value.Arr? && 0 <= i < |v.value.items| && Repeated(v.value.items, i) ::
            Issue(At(path, i), Duplicate) in issues)
  {
    hide IdentifierIssues, Flatten, At, Repeated;
    if v.Some? && v.value.Arr? {
      var xs := v.value.items;
      var parts := ElementParts(xs, kind, path, context);
      forall code
        ensures Issue(path, code) !in Flatten(parts)
      {
        FlattenContents(parts, Issue(path, code));
        if i :| 0 <= i < |parts| && Issue(path, code) in parts[i] {
          DeeperPath(path, i);
          ElementPaths(xs[i], kind, At(path, i), context, Repeated(xs, i), Issue(path, code));
        }
      }
      forall i | 0 <= i < |xs| && Repeated(xs, i)
        ensures Issue(At(path, i), Duplicate) in Flatten(parts)
      {
        FlattenContents(parts, Issue(At(path, i), Duplicate));
        assert Issue(At(path, i), Duplicate) in parts[i];
      }
      hide ElementParts;
    }
  }

  lemma ElementPaths(v: Value, kind: Kind, path: string, context: Context, repeated: bool, issue: Issue)
    requires issue in IdentifierIssues(v, kind, path, context) + When(repeated, path, Duplicate)
    ensures issue.path == path
  {
    hide IsPolicyIdentifier, Utf16Length, Split;
  }

  /** A condition key that is not declared, one of the wrong type for its operator, and the three faults of a value. */
  lemma KeyCodes(operator: string, name: string, v: Value, path: string)
    ensures VariableIssues(operator, name, path) == [Issue(path, Format)]
      <==> !ValidVariable("Bool", name) && !ValidVariable("StringEquals", name)
    ensures VariableIssues(operator, name, path) == [Issue(path, Type)]
      <==> if operator == "Bool" then ValidVariable("StringEquals", name) else ValidVariable("Bool", name)
    ensures operator != "Bool" ==> var issues := ConditionValueIssues(operator, v, path);
      && (Issue(path, Limit) in issues <==> v == Arr([]) || (v.Arr? && |v.items| > 20))
      && (Issue(path, Type) in issues <==>
            exists x | x in AsValues(v) :: !x.Str? || !(1 <= Utf16Length(x.s) <= 256))
      && (Issue(path, Duplicate) in issues <==> !AllDifferent(AsValues(v)))
  {
    DistinctExactly(AsValues(v));
    hide Distinct, AllDifferent, Utf16Length;
  }

  /** An operator that is not known, one whose conditions are no object, and one without conditions. */
  lemma OperatorCodes(e: Entry, path: string)
    ensures OperatorIssues(e, path) == [Issue(path, Unknown)] <==> !KnownOperator(e.key)
    ensures OperatorIssues(e, path) == [Issue(path, Type)] <==> KnownOperator(e.key) && !e.value.Obj?
    ensures OperatorIssues(e, path) == [Issue(path, Required)] <==> KnownOperator(e.key) && e.value == Obj([])
  {
    hide KnownOperator, VariableIssues, ConditionValueIssues;
    OperatorsExactly(e.key);
    if KnownOperator(e.key) && e.value.Obj? && e.value.entries != [] {
      hide Flatten;
      var parts := KeyParts(e.key, e.value.entries, path);
      forall code: IssueCode
        ensures Flatten(parts) != [Issue(path, code)]
      {
        FlattenContents(parts, Issue(path, code));
        if i :| 0 <= i < |parts| && Issue(path, code) in parts[i] {
          KeyPaths(e.key, e.value.entries[i], path, Issue(path, code));
        }
        assert Issue(path, code) in [Issue(path, code)];
      }
      assert OperatorIssues(e, path) == Flatten(parts);
      assert Flatten(parts) != [Issue(path, Unknown)] && Flatten(parts) != [Issue(path, Required)];
    } else if KnownOperator(e.key) && e.value.Obj? {
      assert OperatorIssues(e, path)[0] == Issue(path, Required);
    }
  }

  lemma KeyPaths(operator: string, f: Entry, path: string, issue: Issue)
    requires issue in VariableIssues(operator, f.key, path + "." + f.key)
      + ConditionValueIssues(operator, f.value, path + "." + f.key)
    ensures issue.path == path + "." + f.key && |issue.path| > |path|
  {
    hide Distinct, ConditionText, VariableTypeOf;
  }

  /** A sid that is malformed, and one that an earlier statement has. */
  lemma SidCodes(v: Value, seen: set<string>, path: string)
    requires v.Obj?
    ensures SidIssues(v, seen, path) == [Issue(path, Format)] <==> Named(v) && !ValidSid(Get(v, "sid").value)
    ensures SidIssues(v, seen, path) == [Issue(path, Duplicate)]
      <==> Named(v) && ValidSid(Get(v, "sid").value) && Get(v, "sid").value.s in seen
  {
    hide ValidSid, SidPattern;
    if Named(v) {
      SidPatternExactly(Get(v, "sid").value);
    }
  }
}
