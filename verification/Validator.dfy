/** `validatePolicyDocument` as the program runs it: helpers push onto one shared list of issues. */
module Validator {
  import opened Wrappers
  import opened Text
  import opened Json
  import opened Identifiers
  import opened PolicyDocument
  import opened Sequences

  class IssueList {
    var items: seq<Issue>

    constructor ()
      ensures items == []
    {
      items := [];
    }

    /** `addIssue` */
    method Add(path: string, code: IssueCode)
      modifies this
      ensures items == old(items) + [Issue(path, code)]
    {
      items := items + [Issue(path, code)];
    }
  }

  /** Reporting the next part extends what is reported of a list of parts. */
  lemma FlattenStep(before: seq<Issue>, parts: seq<seq<Issue>>, i: nat)
    requires i < |parts|
    ensures before + Flatten(parts[..i]) + parts[i] == before + Flatten(parts[..i + 1])
  {
    assert parts[..i + 1][..i] == parts[..i];
  }

  lemma FlattenWhole(parts: seq<seq<Issue>>)
    ensures Flatten(parts[..|parts|]) == Flatten(parts)
  {
    assert parts[..|parts|] == parts;
  }

  method RejectUnknownKeys(es: seq<Entry>, allowed: set<string>, path: string, issues: IssueList)
    modifies issues
    ensures issues.items == old(issues.items) + Flatten(UnknownKeyParts(es, allowed, path))
  {
    ghost var parts := UnknownKeyParts(es, allowed, path);
    for i := 0 to |es|
      invariant issues.items == old(issues.items) + Flatten(parts[..i])
    {
      FlattenStep(old(issues.items), parts, i);
      if es[i].key !in allowed {
        issues.Add(path + "." + es[i].key, Unknown);
      }
    }
    FlattenWhole(parts);
  }

  method ValidateIdentifier(value: Value, kind: Kind, path: string, context: Context, issues: IssueList)
    modifies issues
    ensures issues.items == old(issues.items) + IdentifierIssues(value, kind, path, context)
  {
    if !value.Str? {
      issues.Add(path, Type);
      return;
    }
    if Utf16Length(value.s) == 0 || Utf16Length(value.s) > IDENTIFIER_LENGTH {
      issues.Add(path, Limit);
      return;
    }
    var service := Split(value.s)[0];
    if !IsPolicyIdentifier(value.s, kind, "") {
      issues.Add(path, Format);
      return;
    }
    if context.expectedService != "" && service != context.expectedService {
      issues.Add(path, Scope);
      return;
    }
    var catalogue := if kind == Action then context.actions else context.resources;
    if catalogue.Some? && value.s !in catalogue.value {
      issues.Add(path, Catalogue);
    }
  }

  /** The members a `Set` finds again: primitives by value. */
  ghost predicate Collects(seen: set<Value>, xs: seq<Value>, n: nat)
    requires n <= |xs|
  {
    forall v | Primitive(v) :: v in seen <==> v in xs[..n]
  }

  method ValidateElement(xs: seq<Value>, i: nat, seen: set<Value>, kind: Kind, path: string,
                         context: Context, issues: IssueList)
    requires i < |xs| && Collects(seen, xs, i)
    modifies issues
    ensures issues.items == old(issues.items) + ElementParts(xs, kind, path, context)[i]
  {
    ValidateIdentifier(xs[i], kind, At(path, i), context, issues);
    hide IdentifierIssues, Decimal;
    Regroup(old(issues.items), IdentifierIssues(xs[i], kind, At(path, i), context), [Issue(At(path, i), Duplicate)]);
    if Primitive(xs[i]) && xs[i] in seen {
      issues.Add(At(path, i), Duplicate);
    }
  }

  method ValidateStringArray(value: Option<Value>, path: string, maximum: nat, kind: Kind,
                             context: Context, issues: IssueList)
    modifies issues
    ensures issues.items == old(issues.items) + IdentifiersIssues(value, path, maximum, kind, context)
  {
    hide Flatten, ElementParts;
    if value.None? || !value.value.Arr? {
      issues.Add(path, Type);
      return;
    }
    var xs := value.value.items;
    if |xs| == 0 {
      issues.Add(path, Required);
    }
    if |xs| > maximum {
      issues.Add(path, Limit);
    }
    ghost var before := issues.items;
    ghost var counts := When(|xs| == 0, path, Required) + When(|xs| > maximum, path, Limit);
    assert before == old(issues.items) + counts;
    ValidateElements(xs, kind, path, context, issues);
    Regroup(old(issues.items), counts, Flatten(ElementParts(xs, kind, path, context)));
  }

  lemma CollectsStep(seen: set<Value>, xs: seq<Value>, i: nat)
    requires i < |xs| && Collects(seen, xs, i)
    ensures Collects(seen + {xs[i]}, xs, i + 1)
  {
    assert xs[..i + 1] == xs[..i] + [xs[i]];
  }

  method ValidateElements(xs: seq<Value>, kind: Kind, path: string, context: Context, issues: IssueList)
    modifies issues
    ensures issues.items == old(issues.items) + Flatten(ElementParts(xs, kind, path, context))
  {
    ghost var before := issues.items;
    ghost var parts := ElementParts(xs, kind, path, context);
    var seen: set<Value> := {};
    FlattenNothing(before, parts);
    assert |parts| == |xs| && Collects(seen, xs, 0);
    hide Flatten, ElementParts, Collects;
    for i := 0 to |xs|
      invariant issues.items == before + Flatten(parts[..i])
      invariant Collects(seen, xs, i)
    {
      FlattenStep(before, parts, i);
      ValidateElement(xs, i, seen, kind, path, context, issues);
      CollectsStep(seen, xs, i);
      seen := seen + {xs[i]};
    }
    FlattenWhole(parts);
  }

  method ValidateConditionValue(operator: string, value: Value, path: string, issues: IssueList)
    modifies issues
    ensures issues.items == old(issues.items) + ConditionValueIssues(operator, value, path)
  {
    if operator == "Bool" {
      if !value.Bool? {
        issues.Add(path, Type);
      }
      return;
    }
    var values := AsValues(value);
    if |values| == 0 || |values| > CONDITION_VALUES_PER_KEY {
      issues.Add(path, Limit);
    }
    if exists x | x in values :: !ConditionText(x) {
      issues.Add(path, Type);
    }
    if !Distinct(values) {
      issues.Add(path, Duplicate);
    }
  }

  method ValidateKey(operator: string, entry: Entry, path: string, issues: IssueList)
    modifies issues
    ensures issues.items == old(issues.items)
                            + (VariableIssues(operator, entry.key, path) +
                                ConditionValueIssues(operator, entry.value, path))
  {
    var declared := VariableTypeOf(entry.key);
    if declared.None? {
      issues.Add(path, Format);
    } else if (operator == "Bool" && declared.value != BooleanVariable)
           || (operator != "Bool" && declared.value != StringVariable) {
      issues.Add(path, Type);
    }
    assert issues.items == old(issues.items) + VariableIssues(operator, entry.key, path);
    ValidateConditionValue(operator, entry.value, path, issues);
    Regroup(old(issues.items), VariableIssues(operator, entry.key, path),
            ConditionValueIssues(operator, entry.value, path));
  }

  method ValidateKeys(operator: string, entries: seq<Entry>, path: string, issues: IssueList)
    modifies issues
    ensures issues.items == old(issues.items) + Flatten(KeyParts(operator, entries, path))
  {
    hide VariableIssues, ConditionValueIssues;
    ghost var before := issues.items;
    ghost var parts := KeyParts(operator, entries, path);
    assert Flatten(parts[..0]) == [];
    for i := 0 to |entries|
      invariant issues.items == before + Flatten(parts[..i])
    {
      FlattenStep(before, parts, i);
      ValidateKey(operator, entries[i], path + "." + entries[i].key, issues);
    }
    FlattenWhole(parts);
  }

  method ValidateOperator(e: Entry, path: string, issues: IssueList)
    modifies issues
    ensures issues.items == old(issues.items) + OperatorIssues(e, path)
  {
    hide Flatten, KeyParts;
    if e.key !in OPERATORS {
      issues.Add(path, Unknown);
      return;
    }
    if !e.value.Obj? {
      issues.Add(path, Type);
      return;
    }
    var entries := e.value.entries;
    if entries == [] {
      issues.Add(path, Required);
    }
    ValidateKeys(e.key, entries, path, issues);
    Regroup(old(issues.items), When(entries == [], path, Required), Flatten(KeyParts(e.key, entries, path)));
  }

  /** The loop over the operators; the result is the number of condition keys. */
  method ValidateOperators(entries: seq<Entry>, path: string, issues: IssueList) returns (conditionKeyCount: nat)
    modifies issues
    ensures issues.items == old(issues.items) + Flatten(OperatorParts(entries, path))
    ensures conditionKeyCount == KeyCount(entries)
  {
    hide OperatorIssues;
    conditionKeyCount := 0;
    ghost var before := issues.items;
    ghost var parts := OperatorParts(entries, path);
    assert Flatten(parts[..0]) == [];
    for i := 0 to |entries|
      invariant issues.items == before + Flatten(parts[..i])
      invariant conditionKeyCount == KeyCount(entries[..i])
    {
      FlattenStep(before, parts, i);
      var e := entries[i];
      assert entries[..i + 1][..i] == entries[..i];
      ValidateOperator(e, path + "." + e.key, issues);
      if e.key !in OPERATORS || !e.value.Obj? {
        continue;
      }
      conditionKeyCount := conditionKeyCount + |e.value.entries|;
    }
    FlattenWhole(parts);
    assert entries[..|entries|] == entries;
  }

  method ValidateConditions(value: Value, path: string, issues: IssueList)
    modifies issues
    ensures issues.items == old(issues.items) + ConditionsIssues(value, path)
  {
    hide Flatten, OperatorParts, KeyCount;
    if !value.Obj? {
      issues.Add(path, Type);
      return;
    }
    var conditionKeyCount := ValidateOperators(value.entries, path, issues);
    if conditionKeyCount == 0 {
      issues.Add(path, Required);
    }
    if conditionKeyCount > CONDITION_KEYS_PER_STATEMENT {
      issues.Add(path, Limit);
    }
  }

  /** The sid of a statement is checked against the set of sids seen so far. */
  method ValidateSid(statement: Value, seenSids: set<string>, path: string, issues: IssueList)
    returns (sids: set<string>)
    requires statement.Obj?
    modifies issues
    ensures issues.items == old(issues.items) + SidIssues(statement, seenSids, path)
    ensures sids == seenSids + Sids([statement])
  {
    assert [statement][..0] == [];
    sids := seenSids;
    var sid := Get(statement, "sid");
    if sid.Some? {
      if !SidPattern(sid.value) {
        issues.Add(path, Format);
      } else if sid.value.s in seenSids {
        issues.Add(path, Duplicate);
      } else {
        sids := seenSids + {sid.value.s};
      }
    }
  }

  lemma PartsOfStatement(v: Value, seen: set<string>, path: string, context: Context)
    requires v.Obj?
    ensures var parts := StatementParts(v, seen, path, context);
      && |parts| == 6
      && parts[0] == Flatten(UnknownKeyParts(v.entries, STATEMENT_KEYS, path))
      && parts[1] == When(Get(v, "effect") !in {Some(Str("Allow")), Some(Str("Deny"))}, path + ".effect", Format)
      && parts[2] == SidIssues(v, seen, path + ".sid")
      && parts[3] == IdentifiersIssues(Get(v, "actions"), path + ".actions", ACTIONS_PER_STATEMENT, Action, context)
      && parts[4] == IdentifiersIssues(Get(v, "resources"), path + ".resources", RESOURCES_PER_STATEMENT, Resource,
        context)
      && parts[5] == (if Get(v, "conditions").None? then []
                      else ConditionsIssues(Get(v, "conditions").value, path + ".conditions"))
  {
    hide Flatten, UnknownKeyParts, SidIssues, IdentifiersIssues, ConditionsIssues;
  }

  /** Unknown keys, the effect and the sid. */
  method ValidateHead(statement: Value, seenSids: set<string>, path: string, context: Context, issues: IssueList)
    returns (sids: set<string>)
    requires statement.Obj?
    modifies issues
    ensures issues.items == old(issues.items) + Flatten(StatementParts(statement, seenSids, path, context)[..3])
    ensures sids == seenSids + Sids([statement])
  {
    ghost var start := issues.items;
    ghost var parts := StatementParts(statement, seenSids, path, context);
    FlattenNothing(start, parts);
    PartsOfStatement(statement, seenSids, path, context);
    hide Flatten, UnknownKeyParts, SidIssues, IdentifiersIssues, ConditionsIssues, Sids, StatementParts, Get;
    RejectUnknownKeys(statement.entries, STATEMENT_KEYS, path, issues);
    FlattenStep(start, parts, 0);
    var effect := Get(statement, "effect");
    if effect != Some(Str("Allow")) && effect != Some(Str("Deny")) {
      issues.Add(path + ".effect", Format);
    }
    FlattenStep(start, parts, 1);
    assert issues.items == start + Flatten(parts[..2]);
    sids := ValidateSid(statement, seenSids, path + ".sid", issues);
    FlattenStep(start, parts, 2);
  }

  /** The fields of a statement, in the order in which they are examined. */
  method ValidateFields(statement: Value, seenSids: set<string>, path: string, context: Context, issues: IssueList)
    returns (sids: set<string>)
    requires statement.Obj?
    modifies issues
    ensures issues.items == old(issues.items) + Flatten(StatementParts(statement, seenSids, path, context))
    ensures sids == seenSids + Sids([statement])
  {
    ghost var start := issues.items;
    ghost var parts := StatementParts(statement, seenSids, path, context);
    PartsOfStatement(statement, seenSids, path, context);
    hide Flatten, UnknownKeyParts, SidIssues, IdentifiersIssues, ConditionsIssues, Sids, StatementParts, Get;
    sids := ValidateHead(statement, seenSids, path, context, issues);
    ValidateStringArray(Get(statement, "actions"), path + ".actions", ACTIONS_PER_STATEMENT, Action, context, issues);
    FlattenStep(start, parts, 3);
    ValidateStringArray(Get(statement, "resources"), path + ".resources", RESOURCES_PER_STATEMENT, Resource,
                        context, issues);
    FlattenStep(start, parts, 4);
    assert issues.items == start + Flatten(parts[..5]);
    var conditions := Get(statement, "conditions");
    if conditions.Some? {
      ValidateConditions(conditions.value, path + ".conditions", issues);
    }
    FlattenStep(start, parts, 5);
    FlattenWhole(parts);
  }

  /** One statement; the result is the set of sids seen so far with this one added. */
  method ValidateStatement(statement: Value, seenSids: set<string>, path: string, context: Context,
                           issues: IssueList)
    returns (sids: set<string>)
    modifies issues
    ensures issues.items == old(issues.items) + StatementIssues(statement, seenSids, path, context)
    ensures sids == seenSids + Sids([statement])
  {
    hide Flatten, StatementParts;
    if statement.Obj? {
      sids := ValidateFields(statement, seenSids, path, context, issues);
    } else {
      issues.Add(path, Type);
      sids := seenSids;
      assert [statement][..0] == [];
    }
  }

  lemma FlattenNothing(before: seq<Issue>, parts: seq<seq<Issue>>)
    ensures before + Flatten(parts[..0]) == before
  {
  }

  method ValidateStatements(xs: seq<Value>, context: Context, issues: IssueList)
    modifies issues
    ensures issues.items == old(issues.items) + Flatten(StatementsParts(xs, context))
  {
    hide StatementIssues;
    ghost var before := issues.items;
    ghost var parts := StatementsParts(xs, context);
    var seenSids: set<string> := {};
    FlattenNothing(before, parts);
    for i := 0 to |xs|
      invariant issues.items == before + Flatten(parts[..i])
      invariant seenSids == Sids(xs[..i])
    {
      FlattenStep(before, parts, i);
      assert xs[..i + 1][..i] == xs[..i] && [xs[i]][..0] == [];
      seenSids := ValidateStatement(xs[i], seenSids, At("$.statements", i), context, issues);
    }
    FlattenWhole(parts);
  }

  method ValidateStatementList(statements: Option<Value>, context: Context, issues: IssueList)
    modifies issues
    ensures issues.items == old(issues.items) + StatementListIssues(statements, context)
  {
    hide Flatten, StatementsParts;
    if statements.None? || !statements.value.Arr? {
      issues.Add("$.statements", Type);
      return;
    }
    var xs := statements.value.items;
    if |xs| == 0 {
      issues.Add("$.statements", Required);
    }
    if |xs| > STATEMENTS {
      issues.Add("$.statements", Limit);
    }
    ValidateStatements(xs, context, issues);
  }

  datatype ValidationResult = Accepted(value: Value) | Rejected(issues: seq<Issue>)

  method ValidatePolicyDocument(input: Value, context: Context) returns (result: ValidationResult)
    ensures result.Accepted? <==> ValidDocument(input, context)
    ensures result.Accepted? ==> result.value == input
    ensures result.Rejected? ==> result.issues == DocumentIssues(input, context)
  {
    hide ValidDocument, Flatten, UnknownKeyParts, StatementListIssues, Utf8Length, Stringify, Get;
    DocumentIssuesExact(input, context);
    var issues := new IssueList();
    if Utf8Length(Stringify(input)) > DOCUMENT_BYTES {
      issues.Add("$", Limit);
    }
    if !input.Obj? {
      issues.Add("$", Type);
      return Rejected(issues.items);
    }
    RejectUnknownKeys(input.entries, DOCUMENT_KEYS, "$", issues);
    if Get(input, "version") != Some(Str(DOCUMENT_VERSION)) {
      issues.Add("$.version", Format);
    }
    ValidateStatementList(Get(input, "statements"), context, issues);
    if issues.items != [] {
      result := Rejected(issues.items);
    } else {
      result := Accepted(input);
    }
  }
}
