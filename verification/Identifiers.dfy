/** Colon-separated policy identifiers: their format and how a pattern matches one. */
module Identifiers {
  import opened Text
  import opened Sequences

  const IDENTIFIER_LENGTH := 256

  datatype Kind = Action | Resource

  predicate Lower(c: char) { 'a' <= c <= 'z' }
  predicate Numeric(c: char) { '0' <= c <= '9' }
  predicate Alphanumeric(c: char) { Lower(c) || 'A' <= c <= 'Z' || Numeric(c) }

  /** `/^[a-z][a-z0-9-]{0,62}$/` */
  predicate NamePattern(s: string) {
    1 <= |s| <= 63 && Lower(s[0]) && forall c | c in s[1..] :: Lower(c) || Numeric(c) || c == '-'
  }

  /** `/^[A-Za-z0-9][A-Za-z0-9._/-]{0,127}$/` */
  predicate ResourcePattern(s: string) {
    1 <= |s| <= 128 && Alphanumeric(s[0]) && forall c | c in s[1..] :: Alphanumeric(c) || c in "._/-"
  }

  predicate SegmentPattern(s: string, kind: Kind) {
    if kind == Action then NamePattern(s) else ResourcePattern(s)
  }

  /** `value.split(":")` */
  function Split(s: string): (parts: seq<string>)
    ensures |parts| > 0
  {
    if s == "" then [""]
    else
      var rest := Split(s[1..]);
      if s[0] == ':' then [""] + rest else [[s[0]] + rest[0]] + rest[1..]
  }

  /** `segments.indexOf(x)` */
  function IndexOf(xs: seq<string>, x: string): (i: int)
    ensures i == -1 ==> x !in xs
    ensures i != -1 ==> 0 <= i < |xs| && xs[i] == x && x !in xs[..i]
  {
    if xs == [] then -1
    else if xs[0] == x then 0
    else
      var i := IndexOf(xs[1..], x);
      if i == -1 then -1 else i + 1
  }

  /** `isPolicyIdentifier`; an empty expected service is no expectation. */
  predicate IsPolicyIdentifier(value: string, kind: Kind, expectedService: string) {
    && 0 < Utf16Length(value) <= IDENTIFIER_LENGTH
    && var parts := Split(value);
    && var service, segments := parts[0], parts[1..];
    && NamePattern(service)
    && (expectedService == "" || service == expectedService)
    && segments != []
    && (forall segment | segment in segments :: segment == "*" || SegmentPattern(segment, kind))
    && var wildcardIndex := IndexOf(segments, "*");
    && (wildcardIndex == -1 || wildcardIndex == |segments| - 1)
    && multiset(segments)["*"] <= 1
  }

  predicate EndsWith(s: string, suffix: string) {
    |suffix| <= |s| && s[|s| - |suffix|..] == suffix
  }

  /** `concreteIdentifier`: no wildcard anywhere. */
  predicate Concrete(value: string, kind: Kind) {
    '*' !in value && IsPolicyIdentifier(value, kind, "")
  }

  /** `matchesPolicyIdentifier`, on the text of the identifiers. */
  predicate MatchesPolicyIdentifier(pattern: string, value: string) {
    pattern == value
    || (EndsWith(pattern, ":*")
        && var prefix := pattern[..|pattern| - 1];
        prefix <= value && |value| > |prefix|)
  }

  /** What a pattern means: the same segments, or `*` for one or more last segments. */
  predicate SegmentsMatch(pattern: seq<string>, value: seq<string>) {
    pattern == value
    || (pattern != [] && pattern[|pattern| - 1] == "*" && pattern[..|pattern| - 1] < value)
  }

  // ----- segments and text -----

  function Join(parts: seq<string>): string
    requires parts != []
  {
    if |parts| == 1 then parts[0] else parts[0] + ":" + Join(parts[1..])
  }

  /** The segments, each closed by a separator. */
  function Closed(parts: seq<string>): string {
    if parts == [] then "" else parts[0] + (":" + Closed(parts[1..]))
  }

  lemma {:induction false} JoinSplit(s: string)
    ensures Join(Split(s)) == s
    ensures forall p | p in Split(s) :: ':' !in p
  {
    if s != "" {
      JoinSplit(s[1..]);
      var rest := Split(s[1..]);
      if s[0] == ':' {
        assert Split(s)[1..] == rest;
        assert s == [s[0]] + s[1..];
      } else {
        var joined := [[s[0]] + rest[0]] + rest[1..];
        assert Split(s) == joined;
        assert rest == [rest[0]] + rest[1..];
        assert joined[1..] == rest[1..];
        assert s == [s[0]] + s[1..];
      }
    }
  }

  lemma SplitInjective(a: string, b: string)
    ensures a == b <==> Split(a) == Split(b)
  {
    JoinSplit(a);
    JoinSplit(b);
  }

  lemma {:induction false} SplitAtSegment(p: string, s: string)
    requires ':' !in p
    ensures (p + ":") <= s <==> |Split(s)| > 1 && Split(s)[0] == p
    ensures (p + ":") <= s ==> Split(s)[1..] == Split(s[|p| + 1..])
  {
    if p == "" {
      if s != "" {
        assert p + ":" == ":";
        assert s[0] == ':' ==> Split(s) == [""] + Split(s[1..]);
      }
    } else if s != "" {
      SplitAtSegment(p[1..], s[1..]);
      assert p == [p[0]] + p[1..];
      var rest := Split(s[1..]);
      assert p[0] != ':';
      assert (p + ":") <= s <==> s[0] == p[0] && (p[1..] + ":") <= s[1..];
      if (p + ":") <= s {
        assert s[1..][|p[1..]| + 1..] == s[|p| + 1..];
      }
    }
  }

  /** A text starts with closed segments exactly when it has those segments and one more. */
  lemma {:induction false} PrefixIsSegmentPrefix(parts: seq<string>, s: string)
    requires forall p | p in parts :: ':' !in p
    ensures Closed(parts) <= s <==> parts < Split(s)
  {
    if parts != [] {
      var p := parts[0];
      SplitAtSegment(p, s);
      ClosedCons(parts);
      hide Split, Closed;
      if (p + ":") <= s {
        var rest := s[|p| + 1..];
        PrefixIsSegmentPrefix(parts[1..], rest);
        assert s == (p + ":") + rest;
        StripPrefix(p + ":", Closed(parts[1..]), rest);
        StripPrefix([p], parts[1..], Split(rest));
      } else {
        PrefixOfPrefix(p + ":", Closed(parts[1..]), s);
      }
    }
  }

  lemma ClosedCons(parts: seq<string>)
    requires parts != []
    ensures Closed(parts) == (parts[0] + ":") + Closed(parts[1..]) && parts == [parts[0]] + parts[1..]
  {
    assert Closed(parts) == parts[0] + (":" + Closed(parts[1..]));
    hide Closed;
    Regroup(parts[0], ":", Closed(parts[1..]));
  }

  lemma StripPrefix<T>(a: seq<T>, b: seq<T>, c: seq<T>)
    ensures a + b <= a + c <==> b <= c
    ensures a + b < a + c <==> b < c
  {
    assert (a + b)[|a|..] == b && (a + c)[|a|..] == c;
    if a + b <= a + c {
      assert b == c[..|b|];
    }
  }

  lemma PrefixOfPrefix<T>(a: seq<T>, b: seq<T>, s: seq<T>)
    ensures a + b <= s ==> a <= s
  {
    if a + b <= s {
      assert s[..|a|] == (a + b)[..|a|] == a;
    }
  }

  lemma {:induction false} JoinEnd(parts: seq<string>)
    requires parts != []
    ensures Join(parts) == Closed(parts[..|parts| - 1]) + parts[|parts| - 1]
  {
    if |parts| > 1 {
      JoinEnd(parts[1..]);
      assert parts[1..][..|parts| - 2] == parts[..|parts| - 1][1..];
    }
  }

  lemma {:induction false} ClosedEndsWithColon(parts: seq<string>)
    ensures parts == [] <==> Closed(parts) == ""
    ensures parts != [] ==> Closed(parts)[|Closed(parts)| - 1] == ':'
  {
    if parts != [] {
      ClosedEndsWithColon(parts[1..]);
      assert Closed(parts) == (parts[0] + ":") + Closed(parts[1..]);
    }
  }

  lemma SuffixOfLastPart(head: string, last: string)
    requires head == "" || head[|head| - 1] == ':'
    requires ':' !in last
    ensures EndsWith(head + last, ":*") <==> head != "" && last == "*"
  {
    var s := head + last;
    if |last| >= 2 {
      assert s[|s| - 2] == last[|last| - 2];
    } else if |last| == 1 {
      assert s[|s| - 1] == last[0];
      assert head != "" ==> s[|s| - 2] == head[|head| - 1];
    } else {
      assert s == head;
    }
    assert |s| >= 2 ==> s[|s| - 2..] == [s[|s| - 2], s[|s| - 1]];
  }

  /** The wildcard suffix is a last segment `*` behind at least one other segment. */
  lemma WildcardSuffix(pattern: string)
    ensures var ps := Split(pattern); var n := |ps| - 1;
      && pattern == Closed(ps[..n]) + ps[n]
      && (EndsWith(pattern, ":*") <==> n > 0 && ps[n] == "*")
  {
    var ps := Split(pattern);
    var n := |ps| - 1;
    JoinSplit(pattern);
    JoinEnd(ps);
    ClosedEndsWithColon(ps[..n]);
    SuffixOfLastPart(Closed(ps[..n]), ps[n]);
  }

  lemma {:induction false} SplitClosed(parts: seq<string>)
    requires forall p | p in parts :: ':' !in p
    ensures Split(Closed(parts)) == parts + [""]
  {
    if parts != [] {
      var p, s := parts[0], Closed(parts);
      assert s == (p + ":") + Closed(parts[1..]);
      SplitAtSegment(p, s);
      SplitClosed(parts[1..]);
      assert s[|p| + 1..] == Closed(parts[1..]);
      assert Split(s) == [p] + Split(s)[1..];
    }
  }

  /** Text matching is segment matching, for every pattern and value, except that a pattern `*` alone
      is no wildcard and that the wildcard does not stand for a single empty last segment. */
  lemma MatchingIsSegmentMatching(pattern: string, value: string)
    ensures var ps, vs := Split(pattern), Split(value);
      MatchesPolicyIdentifier(pattern, value)
      <==> SegmentsMatch(ps, vs) && (ps == vs || (|ps| > 1 && (|vs| > |ps| || vs[|vs| - 1] != "")))
  {
    var ps, vs := Split(pattern), Split(value);
    var n := |ps| - 1;
    SplitInjective(pattern, value);
    WildcardSuffix(pattern);
    if EndsWith(pattern, ":*") {
      var prefix := Closed(ps[..n]);
      assert pattern[..|pattern| - 1] == prefix;
      JoinSplit(pattern);
      PrefixIsSegmentPrefix(ps[..n], value);
      SplitClosed(ps[..n]);
      SplitInjective(prefix, value);
      assert vs == ps[..n] + [""] <==> ps[..n] < vs && |vs| == |ps| && vs[n] == "";
    }
  }

  /** For a well-formed pattern and a concrete identifier there is no exception left. */
  lemma WellFormedMatchingIsSegmentMatching(pattern: string, value: string, kind: Kind)
    requires IsPolicyIdentifier(pattern, kind, "") && Concrete(value, kind)
    ensures MatchesPolicyIdentifier(pattern, value) <==> SegmentsMatch(Split(pattern), Split(value))
  {
    MatchingIsSegmentMatching(pattern, value);
    var vs := Split(value);
    assert vs[|vs| - 1] in vs[1..];
  }

  /** A match never crosses services. */
  lemma MatchStaysInService(pattern: string, value: string, kind: Kind, service: string)
    requires service != "" && IsPolicyIdentifier(pattern, kind, service)
    requires MatchesPolicyIdentifier(pattern, value)
    ensures Split(value)[0] == service
  {
    MatchingIsSegmentMatching(pattern, value);
    var ps, vs := Split(pattern), Split(value);
    if ps != vs {
      assert ps[..|ps| - 1][0] == vs[0];
    }
  }

  // ----- the identifiers there are -----

  lemma {:induction false} SplitJoin(parts: seq<string>)
    requires parts != [] && forall p | p in parts :: ':' !in p
    ensures Split(Join(parts)) == parts
  {
    var n := |parts| - 1;
    if n == 0 {
      OnePart(parts[0]);
    } else {
      SplitJoin(parts[1..]);
      var s := Join(parts);
      assert s == (parts[0] + ":") + Join(parts[1..]);
      SplitAtSegment(parts[0], s);
      assert s[|parts[0]| + 1..] == Join(parts[1..]);
      assert parts == [parts[0]] + parts[1..];
      assert Split(s) == [Split(s)[0]] + Split(s)[1..];
    }
  }

  lemma {:induction false} OnePart(s: string)
    requires ':' !in s
    ensures Split(s) == [s]
  {
    if s != "" {
      OnePart(s[1..]);
      assert s == [s[0]] + s[1..];
    }
  }

  predicate LowerOrDigit(c: char) {
    'a' <= c <= 'z' || '0' <= c <= '9'
  }

  /** A name: a lower-case letter, then at most 62 lower-case letters, digits and dashes. */
  predicate IsName(s: string) {
    1 <= |s| <= 63 && 'a' <= s[0] <= 'z' && forall i | 0 < i < |s| :: LowerOrDigit(s[i]) || s[i] == '-'
  }

  /** A part of a resource: a letter or digit, then at most 127 letters, digits, dots, underscores, slashes and
      dashes. */
  predicate IsResourcePart(s: string) {
    && 1 <= |s| <= 128
    && (LowerOrDigit(s[0]) || 'A' <= s[0] <= 'Z')
    && forall i | 0 < i < |s| :: LowerOrDigit(s[i]) || 'A' <= s[i] <= 'Z' || s[i] in {'.', '_', '/', '-'}
  }

  lemma PatternsExactly(s: string)
    ensures NamePattern(s) <==> IsName(s)
    ensures ResourcePattern(s) <==> IsResourcePart(s)
    ensures IsName(s) || IsResourcePart(s) ==> s != "*" && ':' !in s
  {
    if 1 <= |s| {
      InTail(s);
      if IsName(s) || IsResourcePart(s) {
        assert forall i | 0 <= i < |s| :: s[i] != '*' && s[i] != ':';
      }
    }
  }

  lemma InTail(s: string)
    requires s != ""
    ensures forall c | c in s[1..] :: exists i | 0 < i < |s| :: s[i] == c
    ensures forall i | 0 < i < |s| :: s[i] in s[1..]
  {
    forall c | c in s[1..]
      ensures exists i | 0 < i < |s| :: s[i] == c
    {
      var k :| 0 <= k < |s[1..]| && s[1..][k] == c;
      assert s[k + 1] == c;
    }
    forall i | 0 < i < |s|
      ensures s[i] in s[1..]
    {
      assert s[1..][i - 1] == s[i];
    }
  }

  /** The segments behind the service: parts of the kind, of which only the last may be a wildcard instead. */
  predicate GoodSegments(segments: seq<string>, kind: Kind) {
    && segments != []
    && forall i | 0 <= i < |segments| ::
         || (if kind == Action then IsName(segments[i]) else IsResourcePart(segments[i]))
         || (i == |segments| - 1 && segments[i] == "*")
  }

  lemma NoWildcard(segments: seq<string>)
    ensures multiset(segments)["*"] == 0 <==> "*" !in segments
  {
  }

  lemma WildcardOnlyLast(segments: seq<string>)
    requires segments != []
    ensures (IndexOf(segments, "*") == -1 || IndexOf(segments, "*") == |segments| - 1)
      <==> forall i | 0 <= i < |segments| - 1 :: segments[i] != "*"
    ensures (forall i | 0 <= i < |segments| - 1 :: segments[i] != "*") ==> multiset(segments)["*"] <= 1
  {
    var n := |segments| - 1;
    assert segments == segments[..n] + [segments[n]];
    if forall i | 0 <= i < n :: segments[i] != "*" {
      NoWildcard(segments[..n]);
      assert multiset(segments) == multiset(segments[..n]) + multiset([segments[n]]);
    }
    var i := IndexOf(segments, "*");
    if i == n {
      assert forall k | 0 <= k < n :: segments[k] == segments[..n][k];
    }
  }

  /** The identifiers are exactly the texts of at most 256 units that are made of a service name, which is the expected
      one if there is an expectation, and good segments, with colons in between. */
  lemma IdentifiersExactly(value: string, kind: Kind, expectedService: string)
    ensures var parts := Split(value);
      IsPolicyIdentifier(value, kind, expectedService) <==>
        && 1 <= Utf16Length(value) <= 256
        && value == Join(parts)
        && IsName(parts[0]) && (expectedService == "" || parts[0] == expectedService)
        && GoodSegments(parts[1..], kind)
  {
    hide NamePattern, ResourcePattern, Utf16Length, IsName, IsResourcePart, Join, Split;
    JoinSplit(value);
    var parts := Split(value);
    var segments := parts[1..];
    PatternsExactly(parts[0]);
    forall i | 0 <= i < |segments|
      ensures segments[i] in segments
      ensures SegmentPattern(segments[i], kind)
        <==> if kind == Action then IsName(segments[i]) else IsResourcePart(segments[i])
      ensures SegmentPattern(segments[i], kind) ==> segments[i] != "*"
    {
      PatternsExactly(segments[i]);
    }
    hide SegmentPattern;
    if segments != [] {
      WildcardOnlyLast(segments);
    }
    hide IndexOf;
  }

  /** A concrete identifier is one without a wildcard, which could only stand alone in the last segment. */
  lemma ConcreteExactly(value: string, kind: Kind)
    ensures var parts := Split(value);
      Concrete(value, kind) <==>
        && 1 <= Utf16Length(value) <= 256
        && value == Join(parts) && |parts| > 1 && IsName(parts[0])
        && forall i | 0 < i < |parts| :: if kind == Action then IsName(parts[i]) else IsResourcePart(parts[i])
  {
    hide Utf16Length, Join, IsPolicyIdentifier, Split;
    IdentifiersExactly(value, kind, "");
    var parts := Split(value);
    assert forall i | 0 < i < |parts| :: parts[i] == parts[1..][i - 1];
    if GoodSegments(parts[1..], kind) && IsName(parts[0]) {
      StarsOfParts(value, parts, kind);
    }
    hide IsName, IsResourcePart;
  }

  lemma StarsOfParts(value: string, parts: seq<string>, kind: Kind)
    requires parts == Split(value) && IsName(parts[0]) && GoodSegments(parts[1..], kind)
    ensures '*' in value <==> parts[|parts| - 1] == "*"
  {
    hide Split, IsName, IsResourcePart;
    JoinSplit(value);
    StarInJoin(parts);
    forall i | 0 <= i < |parts| {
      NoStarInside(parts[i]);
    }
    assert forall i | 0 < i < |parts| :: parts[i] == parts[1..][i - 1];
  }

  lemma NoStarInside(s: string)
    ensures IsName(s) || IsResourcePart(s) ==> '*' !in s
  {
  }

  lemma {:induction false} StarInJoin(parts: seq<string>)
    requires parts != []
    ensures '*' in Join(parts) <==> exists i | 0 <= i < |parts| :: '*' in parts[i]
  {
    if |parts| > 1 {
      StarInJoin(parts[1..]);
      assert forall i | 0 < i < |parts| :: parts[i] == parts[1..][i - 1];
      var first, rest := parts[0], Join(parts[1..]);
      assert Join(parts) == first + ":" + rest;
      if i :| 0 <= i < |parts[1..]| && '*' in parts[1..][i] {
        assert '*' in parts[i + 1];
      }
    }
  }

  /** Conversely every such text is one, and reads back as its parts. */
  lemma IdentifiersAreBuilt(service: string, segments: seq<string>, kind: Kind)
    requires IsName(service) && GoodSegments(segments, kind)
    requires Utf16Length(Join([service] + segments)) <= 256
    ensures Split(Join([service] + segments)) == [service] + segments
    ensures IsPolicyIdentifier(Join([service] + segments), kind, service)
  {
    hide Utf16Length, IsName, IsResourcePart, Join, Split, IsPolicyIdentifier;
    PatternsExactly(service);
    forall i | 0 <= i < |segments|
      ensures ':' !in segments[i]
    {
      PatternsExactly(segments[i]);
    }
    SplitJoin([service] + segments);
    var value := Join([service] + segments);
    IdentifiersExactly(value, kind, service);
    assert ([service] + segments)[1..] == segments;
    NotEmpty(value);
  }

  lemma NotEmpty(value: string)
    ensures |Split(value)| > 1 ==> Utf16Length(value) >= 1
  {
  }
}
