/** `evaluatePolicyConditions`: what the conditions of a statement mean, and the loops that decide it. */
module Conditions {
  import opened Wrappers
  import opened Json
  import opened PolicyDocument
  import Glob

  type Values = map<string, Value>

  datatype PolicyContext = PolicyContext(organization: Values, service: Values, user: Values)

  function From(values: Values, key: string): Option<Value> {
    if key in values then Some(values[key]) else None
  }

  /** `contextValue`: the namespace stands before the dot, the key behind it. */
  function ContextValue(context: PolicyContext, variable: string): Option<Value> {
    if "organization." <= variable then From(context.organization, variable[13..])
    else if "service." <= variable then From(context.service, variable[8..])
    else if "user." <= variable then From(context.user, variable[5..])
    else None
  }

  // ----- what a condition means -----

  predicate Offers(expected: Value, s: string) {
    Str(s) in AsValues(expected)
  }

  ghost predicate OffersPattern(expected: Value, s: string) {
    exists p :: Offers(expected, p) && Glob.GlobMatches(p, s)
  }

  /** The meaning of one condition; a variable without a value never satisfies it. */
  ghost predicate Meaning(operator: string, variable: string, expected: Value, context: PolicyContext) {
    var actual := ContextValue(context, variable);
    if operator == "Bool" then actual == Some(expected) && expected.Bool?
    else
      && actual.Some? && actual.value.Str?
      && (operator == "StringEquals" ==> Offers(expected, actual.value.s))
      && (operator == "StringNotEquals" ==> !Offers(expected, actual.value.s))
      && (operator == "StringLike" ==> OffersPattern(expected, actual.value.s))
  }

  /** `expectedStrings` */
  predicate ExpectedStrings(expected: Value) {
    AsValues(expected) != [] && forall i | 0 <= i < |AsValues(expected)| :: AsValues(expected)[i].Str?
  }

  /** A condition entry of any shape: malformed entries are never satisfied. */
  ghost predicate EntryHolds(operator: string, f: Entry, context: PolicyContext) {
    && VariableTypeOf(f.key).Some?
    && (operator != "Bool" ==> ExpectedStrings(f.value))
    && Meaning(operator, f.key, f.value, context)
  }

  ghost predicate OperatorHolds(e: Entry, context: PolicyContext) {
    && e.key in OPERATORS
    && e.value.Obj? && e.value.entries != []
    && forall i | 0 <= i < |e.value.entries| :: EntryHolds(e.key, e.value.entries[i], context)
  }

  ghost predicate ConditionsHold(conditions: Option<seq<Entry>>, context: PolicyContext) {
    conditions.Some? ==> forall i | 0 <= i < |conditions.value| :: OperatorHolds(conditions.value[i], context)
  }

  // ----- the program -----

  method SomePatternMatches(expected: Value, actual: string) returns (some: bool)
    requires ExpectedStrings(expected)
    ensures some <==> OffersPattern(expected, actual)
  {
    var patterns := AsValues(expected);
    for i := 0 to |patterns|
      invariant forall k | 0 <= k < i :: !Glob.GlobMatches(patterns[k].s, actual)
    {
      var source := Glob.WildcardPattern(patterns[i].s);
      Glob.CompiledPatternMeansGlob(patterns[i].s, actual);
      if Glob.Test(Glob.Parse(source).value, actual) {
        assert patterns[i] == Str(patterns[i].s) && Offers(expected, patterns[i].s);
        return true;
      }
    }
    return false;
  }

  method EvaluateEntry(operator: string, entry: Entry, context: PolicyContext) returns (holds: bool)
    requires operator in OPERATORS
    ensures holds <==> EntryHolds(operator, entry, context)
  {
    if VariableTypeOf(entry.key).None? {
      return false;
    }
    var actual := ContextValue(context, entry.key);
    if actual.None? {
      return false;
    }
    if operator == "Bool" {
      return actual.value.Bool? && entry.value.Bool? && actual.value == entry.value;
    }
    if !actual.value.Str? {
      return false;
    }
    if !ExpectedStrings(entry.value) {
      return false;
    }
    if operator == "StringEquals" && !Offers(entry.value, actual.value.s) {
      return false;
    }
    if operator == "StringNotEquals" && Offers(entry.value, actual.value.s) {
      return false;
    }
    if operator == "StringLike" {
      var some := SomePatternMatches(entry.value, actual.value.s);
      if !some {
        return false;
      }
    }
    return true;
  }

  /** The answer for conditions of any shape, well formed or not. */
  method EvaluatePolicyConditions(conditions: Option<seq<Entry>>, context: PolicyContext) returns (holds: bool)
    ensures holds <==> ConditionsHold(conditions, context)
  {
    if conditions.None? || conditions.value == [] {
      return true;
    }
    for i := 0 to |conditions.value|
      invariant forall k | 0 <= k < i :: OperatorHolds(conditions.value[k], context)
    {
      var e := conditions.value[i];
      if e.key !in OPERATORS || !e.value.Obj? || e.value.entries == [] {
        assert !OperatorHolds(e, context);
        return false;
      }
      for j := 0 to |e.value.entries|
        invariant forall k | 0 <= k < j :: EntryHolds(e.key, e.value.entries[k], context)
      {
        var entryHolds := EvaluateEntry(e.key, e.value.entries[j], context);
        if !entryHolds {
          assert !OperatorHolds(e, context);
          return false;
        }
      }
      assert OperatorHolds(e, context);
    }
    return true;
  }

  // ----- what the values and the operators mean -----

  /** Every variable reads its own namespace. */
  lemma ValuesComeFromNamespace(context: PolicyContext, k: string)
    ensures ContextValue(context, "organization." + k)
      == if k in context.organization then Some(context.organization[k]) else None
    ensures ContextValue(context, "service." + k) == if k in context.service then Some(context.service[k]) else None
    ensures ContextValue(context, "user." + k) == if k in context.user then Some(context.user[k]) else None
  {
    var o, s, u := "organization." + k, "service." + k, "user." + k;
    assert o[0] == 'o' && s[0] == 's' && u[0] == 'u';
    assert o[13..] == k && s[8..] == k && u[5..] == k;
  }

  /** The variables that a condition may name, with the namespaces of the context. */
  const DECLARED := {
    "organization.id", "organization.role", "organization.slug", "service.environment", "service.key",
    "user.email", "user.email_verified", "user.id", "user.name"}

  /** A string, or a list of at least one string; `s` is one of them. */
  predicate Lists(expected: Value, s: string) {
    expected == Str(s)
    || (expected.Arr? && Str(s) in expected.items && forall i | 0 <= i < |expected.items| :: expected.items[i].Str?)
  }

  predicate ListsStrings(expected: Value) {
    expected.Str?
    || (expected.Arr? && expected.items != [] && forall i | 0 <= i < |expected.items| :: expected.items[i].Str?)
  }

  /** What each operator asks of the actual value. */
  ghost predicate Satisfies(operator: string, actual: Value, expected: Value) {
    match operator
    case "Bool" => actual.Bool? && actual == expected
    case "StringEquals" => actual.Str? && Lists(expected, actual.s)
    case "StringNotEquals" => actual.Str? && ListsStrings(expected) && !Lists(expected, actual.s)
    case "StringLike" =>
      actual.Str? && ListsStrings(expected) && exists p :: Lists(expected, p) && Glob.GlobMatches(p, actual.s)
    case _ => false
  }

  function Single(operator: string, variable: string, expected: Value): Option<seq<Entry>> {
    Some([Entry(operator, Obj([Entry(variable, expected)]))])
  }

  /** One condition of any shape holds exactly if its variable is declared and has a value that satisfies the operator.
      An unknown operator, an undeclared variable, a missing value or an expectation of the wrong type never holds. */
  lemma SingleConditionExactly(operator: string, variable: string, expected: Value, context: PolicyContext)
    ensures ConditionsHold(Single(operator, variable, expected), context) <==>
      && variable in DECLARED
      && ContextValue(context, variable).Some?
      && Satisfies(operator, ContextValue(context, variable).value, expected)
  {
    var e := Entry(operator, Obj([Entry(variable, expected)]));
    assert ConditionsHold(Some([e]), context) <==> OperatorHolds(e, context) by {
      assert [e][0] == e;
      hide OperatorHolds;
    }
    hide ContextValue;
    assert OperatorHolds(e, context) <==> operator in OPERATORS && EntryHolds(operator, e.value.entries[0], context);
    ListsOffers(expected);
    hide Lists, Offers, ListsStrings, ExpectedStrings;
  }

  /** An operator without variables, or with something else than an object, never holds; no operators at all always
      do. */
  lemma EmptyOperatorsNeverHold(operator: string, v: Value, context: PolicyContext)
    requires !v.Obj? || v.entries == []
    ensures !ConditionsHold(Some([Entry(operator, v)]), context)
    ensures ConditionsHold(None, context) && ConditionsHold(Some([]), context)
  {
    assert [Entry(operator, v)][0] == Entry(operator, v);
  }

  lemma ListsOffers(expected: Value)
    ensures ListsStrings(expected) <==> ExpectedStrings(expected)
    ensures forall s :: ExpectedStrings(expected) ==> (Lists(expected, s) <==> Offers(expected, s))
    ensures forall s :: Lists(expected, s) ==> ExpectedStrings(expected)
  {
    assert [expected][0] == expected;
    if expected.Arr? {
      assert AsValues(expected) == expected.items;
    } else {
      assert AsValues(expected) == [expected];
    }
  }

  /** Several operators, and several variables of one operator, must all hold. */
  lemma ConditionsCompose(xs: seq<Entry>, ys: seq<Entry>, context: PolicyContext)
    ensures ConditionsHold(Some(xs + ys), context)
      <==> ConditionsHold(Some(xs), context) && ConditionsHold(Some(ys), context)
  {
    hide OperatorHolds;
    assert forall i | 0 <= i < |xs| :: (xs + ys)[i] == xs[i];
    assert forall i | 0 <= i < |ys| :: (xs + ys)[|xs| + i] == ys[i];
  }

  lemma EntriesCompose(operator: string, es: seq<Entry>, fs: seq<Entry>, context: PolicyContext)
    requires es != [] && fs != []
    ensures ConditionsHold(Some([Entry(operator, Obj(es + fs))]), context)
      <==> ConditionsHold(Some([Entry(operator, Obj(es))]), context)
           && ConditionsHold(Some([Entry(operator, Obj(fs))]), context)
  {
    hide EntryHolds;
    var all, first, last := Entry(operator, Obj(es + fs)), Entry(operator, Obj(es)), Entry(operator, Obj(fs));
    assert forall i | 0 <= i < |es| :: (es + fs)[i] == es[i];
    assert forall i | 0 <= i < |fs| :: (es + fs)[|es| + i] == fs[i];
    assert OperatorHolds(all, context) <==> OperatorHolds(first, context) && OperatorHolds(last, context);
    hide OperatorHolds;
    assert [all][0] == all && [first][0] == first && [last][0] == last;
  }

  /** All variables are of the namespace. */
  predicate Within(conditions: seq<Entry>, namespace: string) {
    forall i, j | 0 <= i < |conditions| && conditions[i].value.Obj? && 0 <= j < |conditions[i].value.entries| ::
      namespace <= conditions[i].value.entries[j].key
  }

  predicate AgreeOn(namespace: string, a: PolicyContext, b: PolicyContext) {
    || (namespace == "organization." && a.organization == b.organization)
    || (namespace == "service." && a.service == b.service)
    || (namespace == "user." && a.user == b.user)
  }

  /** Conditions about one namespace cannot tell contexts apart that agree on it. */
  lemma OtherNamespacesDoNotMatter(conditions: seq<Entry>, namespace: string, a: PolicyContext, b: PolicyContext)
    requires Within(conditions, namespace) && AgreeOn(namespace, a, b)
    ensures ConditionsHold(Some(conditions), a) <==> ConditionsHold(Some(conditions), b)
  {
    forall i | 0 <= i < |conditions|
      ensures OperatorHolds(conditions[i], a) <==> OperatorHolds(conditions[i], b)
    {
      var e := conditions[i];
      if e.value.Obj? {
        forall j | 0 <= j < |e.value.entries|
          ensures EntryHolds(e.key, e.value.entries[j], a) <==> EntryHolds(e.key, e.value.entries[j], b)
        {
          SameValue(e.value.entries[j].key, namespace, a, b);
          hide ContextValue;
        }
        hide EntryHolds;
      }
    }
    hide OperatorHolds;
  }

  lemma SameValue(variable: string, namespace: string, a: PolicyContext, b: PolicyContext)
    requires namespace <= variable && AgreeOn(namespace, a, b)
    ensures ContextValue(a, variable) == ContextValue(b, variable)
  {
    var k := variable[|namespace|..];
    assert variable == namespace + k;
    ValuesComeFromNamespace(a, k);
    ValuesComeFromNamespace(b, k);
  }

  // ----- validated conditions -----

  lemma ValidEntryIsWellShaped(operator: string, f: Entry, context: PolicyContext)
    requires operator in OPERATORS && ValidKey(operator, f)
    ensures EntryHolds(operator, f, context) <==> Meaning(operator, f.key, f.value, context)
  {
    assert operator != "Bool" ==>
      forall i | 0 <= i < |AsValues(f.value)| :: AsValues(f.value)[i] in AsValues(f.value);
  }

  /** On validated conditions the malformed branches are never taken: the answer is the conjunction
      of the meanings of all entries. */
  lemma ValidatedConditionsAreConjunctions(v: Value, context: PolicyContext)
    requires ValidConditions(v)
    ensures ConditionsHold(Some(v.entries), context)
       <==> forall i, j | 0 <= i < |v.entries| && 0 <= j < |v.entries[i].value.entries| ::
              Meaning(v.entries[i].key, v.entries[i].value.entries[j].key, v.entries[i].value.entries[j].value, context)
  {
    hide Meaning, ValidKey, EntryHolds;
    forall i, j | 0 <= i < |v.entries| && 0 <= j < |v.entries[i].value.entries|
      ensures EntryHolds(v.entries[i].key, v.entries[i].value.entries[j], context)
        <==> Meaning(v.entries[i].key, v.entries[i].value.entries[j].key, v.entries[i].value.entries[j].value, context)
    {
      ValidEntryIsWellShaped(v.entries[i].key, v.entries[i].value.entries[j], context);
    }
    forall i | 0 <= i < |v.entries|
      ensures OperatorHolds(v.entries[i], context)
        <==> forall j | 0 <= j < |v.entries[i].value.entries| ::
               EntryHolds(v.entries[i].key, v.entries[i].value.entries[j], context)
    {
      assert ValidOperator(v.entries[i]);
    }
  }
}
