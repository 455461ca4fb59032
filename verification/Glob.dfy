/** `wildcardPattern`: a glob is compiled to the source text of a regular expression, which the
    engine then parses (ECMA-262 section 22.2.1) and runs (section 22.2.2). */
module Glob {
  import opened Wrappers

  // ----- the glob language, independently of any regular expression -----

  predicate LineTerminator(c: char) {
    c == '\n' || c == '\r' || c == '\U{2028}' || c == '\U{2029}'
  }

  predicate OneLine(s: string) {
    forall c | c in s :: !LineTerminator(c)
  }

  /** What one glob character may stand for. */
  predicate Fits(g: char, piece: string) {
    if g == '*' then OneLine(piece)
    else if g == '?' then |piece| == 1 && OneLine(piece)
    else piece == [g]
  }

  function Concat(pieces: seq<string>): string {
    if pieces == [] then "" else pieces[0] + Concat(pieces[1..])
  }

  ghost predicate Splits(glob: string, pieces: seq<string>, s: string) {
    && |pieces| == |glob|
    && Concat(pieces) == s
    && forall k | 0 <= k < |glob| :: Fits(glob[k], pieces[k])
  }

  /** The string can be cut into one fitting piece per glob character. */
  ghost predicate GlobMatches(glob: string, s: string) {
    exists pieces :: Splits(glob, pieces, s)
  }

  // ----- the compiler -----

  /** The characters that `/[\\^$.*+?()[\]{}|]/` selects for escaping. */
  predicate Escaped(c: char) {
    c in "\\^$.*+?()[]{}|"
  }

  function Emit(c: char): string {
    if c == '*' then ".*"
    else if c == '?' then "."
    else if Escaped(c) then ['\\', c]
    else [c]
  }

  function EmitAll(glob: string): string {
    if glob == "" then "" else Emit(glob[0]) + EmitAll(glob[1..])
  }

  // ----- regular expressions: the pattern grammar -----

  datatype Atom = Literal(c: char) | Dot

  /** `max == None` is an unbounded quantifier; `lazy` is the `?` suffix. */
  datatype Term =
    | AssertStart
    | AssertEnd
    | Once(atom: Atom)
    | Repeat(atom: Atom, min: nat, max: Option<nat>, lazy: bool)

  /** SyntaxCharacter of ECMA-262 section 22.2.1. */
  predicate SyntaxCharacter(c: char) {
    c in {'^', '$', '\\', '.', '*', '+', '?', '(', ')', '[', ']', '{', '}', '|'}
  }

  /** Atom in Unicode mode. Groups, classes and class escapes are outside the fragment and give None. */
  function ParseAtom(source: string): (r: Option<(Atom, string)>)
    requires source != ""
    ensures r.Some? ==> |r.value.1| < |source|
  {
    if source[0] == '.' then Some((Dot, source[1..]))
    else if source[0] == '\\' then
      if |source| > 1 && (SyntaxCharacter(source[1]) || source[1] == '/')
      then Some((Literal(source[1]), source[2..])) else None
    else if SyntaxCharacter(source[0]) then None
    else Some((Literal(source[0]), source[1..]))
  }

  /** The optional quantifier behind an atom. Braced quantifiers are outside the fragment. */
  function ParseQuantifier(atom: Atom, source: string): (r: Option<(Term, string)>)
    ensures r.Some? ==> |r.value.1| <= |source|
  {
    if source == "" || source[0] !in "*+?{" then Some((Once(atom), source))
    else if source[0] == '{' then None
    else
      var lazy := |source| > 1 && source[1] == '?';
      var rest := if lazy then source[2..] else source[1..];
      Some((match source[0]
            case '*' => Repeat(atom, 0, None, lazy)
            case '+' => Repeat(atom, 1, None, lazy)
            case _ => Repeat(atom, 0, Some(1), lazy), rest))
  }

  function ParseTerm(source: string): (r: Option<(Term, string)>)
    requires source != ""
    ensures r.Some? ==> |r.value.1| < |source|
  {
    if source[0] == '^' then Some((AssertStart, source[1..]))
    else if source[0] == '$' then Some((AssertEnd, source[1..]))
    else match ParseAtom(source)
      case None => None
      case Some((atom, rest)) => ParseQuantifier(atom, rest)
  }

  /** `new RegExp(source, "u")`; None is a SyntaxError or a form outside the fragment. */
  function Parse(source: string): Option<seq<Term>>
    decreases |source|
  {
    if source == "" then Some([])
    else match ParseTerm(source)
      case None => None
      case Some((term, rest)) =>
        match Parse(rest)
        case None => None
        case Some(terms) => Some([term] + terms)
  }

  // ----- regular expressions: the backtracking matcher -----

  predicate AtomMatches(atom: Atom, c: char) {
    match atom
    case Literal(d) => c == d
    case Dot => !LineTerminator(c)
  }

  predicate MatchesAt(atom: Atom, s: string, i: nat) {
    i < |s| && AtomMatches(atom, s[i])
  }

  function OneLess(max: Option<nat>): Option<nat>
    requires max != Some(0)
  {
    if max == None then None else Some(max.value - 1)
  }

  /** Whether the terms match `s` from index `i` on, without the `m` and `s` flags. */
  predicate Match(terms: seq<Term>, s: string, i: nat)
    requires i <= |s|
    decreases |terms|, |s| - i
  {
    if terms == [] then true
    else match terms[0]
      case AssertStart => i == 0 && Match(terms[1..], s, i)
      case AssertEnd => i == |s| && Match(terms[1..], s, i)
      case Once(atom) => MatchesAt(atom, s, i) && Match(terms[1..], s, i + 1)
      case Repeat(atom, min, max, lazy) =>
        if max == Some(0) then Match(terms[1..], s, i)
        else
          var again := [Repeat(atom, if min > 0 then min - 1 else 0, OneLess(max), lazy)] + terms[1..];
          if min > 0 then MatchesAt(atom, s, i) && Match(again, s, i + 1)
          else if lazy then Match(terms[1..], s, i) || (MatchesAt(atom, s, i) && Match(again, s, i + 1))
          else (MatchesAt(atom, s, i) && Match(again, s, i + 1)) || Match(terms[1..], s, i)
  }

  /** `regExp.test(s)`: the engine tries every start index. */
  predicate Test(terms: seq<Term>, s: string) {
    exists i | 0 <= i <= |s| :: Match(terms, s, i)
  }

  // ----- the source text means the intended terms -----

  function GlobTerm(c: char): Term {
    if c == '*' then Repeat(Dot, 0, None, false)
    else if c == '?' then Once(Dot)
    else Once(Literal(c))
  }

  function GlobTerms(glob: string): seq<Term> {
    if glob == "" then [] else [GlobTerm(glob[0])] + GlobTerms(glob[1..])
  }

  /** The anchored regular expression that a glob stands for. */
  function Intended(glob: string): seq<Term> {
    [AssertStart] + (GlobTerms(glob) + [AssertEnd])
  }

  lemma EveryEscapeIsNeededAndLegal(c: char)
    ensures Escaped(c) <==> SyntaxCharacter(c)
  {
  }

  lemma EmittedTailHasNoQuantifier(glob: string)
    ensures EmitAll(glob) + "$" != "" && (EmitAll(glob) + "$")[0] !in "*+?{"
  {
    if glob != "" {
      assert (EmitAll(glob) + "$")[0] == Emit(glob[0])[0];
      EveryEscapeIsNeededAndLegal(glob[0]);
    }
  }

  lemma EmittedTermParses(c: char, rest: string)
    requires rest != "" && rest[0] !in "*+?{"
    ensures ParseTerm(Emit(c) + rest) == Some((GlobTerm(c), rest))
  {
    EveryEscapeIsNeededAndLegal(c);
    var source := Emit(c) + rest;
    assert source[|Emit(c)|..] == rest;
    if c == '*' {
      assert source[1..][1..] == rest;
      assert source[1..] == "*" + rest;
    }
  }

  lemma {:induction false} EmittedBodyParses(glob: string)
    ensures Parse(EmitAll(glob) + "$") == Some(GlobTerms(glob) + [AssertEnd])
  {
    if glob == "" {
      assert EmitAll(glob) + "$" == "$";
      assert "$"[1..] == "";
      assert [AssertEnd] + [] == [AssertEnd] == GlobTerms(glob) + [AssertEnd];
    } else {
      var rest := EmitAll(glob[1..]) + "$";
      EmittedTailHasNoQuantifier(glob[1..]);
      EmittedTermParses(glob[0], rest);
      EmittedBodyParses(glob[1..]);
      assert EmitAll(glob) + "$" == Emit(glob[0]) + rest;
      assert GlobTerms(glob) + [AssertEnd] == [GlobTerm(glob[0])] + (GlobTerms(glob[1..]) + [AssertEnd]);
    }
  }

  lemma CompiledSourceParses(glob: string)
    ensures Parse("^" + EmitAll(glob) + "$") == Some(Intended(glob))
  {
    EmittedBodyParses(glob);
    var source := "^" + EmitAll(glob) + "$";
    assert source[1..] == EmitAll(glob) + "$";
  }

  lemma {:induction false} EmitAllAppend(glob: string, c: char)
    ensures EmitAll(glob + [c]) == EmitAll(glob) + Emit(c)
  {
    if glob == "" {
      assert "" + [c] == [c];
    } else {
      EmitAllAppend(glob[1..], c);
      assert (glob + [c])[1..] == glob[1..] + [c];
    }
  }

  lemma EmitNothing()
    ensures "^" == "^" + EmitAll("")
  {
  }

  /** The loop of `wildcardPattern`; the result is the text handed to `RegExp`. */
  method WildcardPattern(pattern: string) returns (source: string)
    ensures Parse(source) == Some(Intended(pattern))
  {
    hide EmitAll, Parse, Intended;
    source := "^";
    EmitNothing();
    for i := 0 to |pattern|
      invariant source == "^" + EmitAll(pattern[..i])
    {
      var character := pattern[i];
      EmitAllAppend(pattern[..i], character);
      assert pattern[..i + 1] == pattern[..i] + [character];
      if character == '*' {
        source := source + ".*";
      } else if character == '?' {
        source := source + ".";
      } else if Escaped(character) {
        source := source + ['\\', character];
      } else {
        source := source + [character];
      }
    }
    assert pattern[..|pattern|] == pattern;
    CompiledSourceParses(pattern);
    source := source + "$";
  }

  // ----- the intended terms mean the glob -----

  lemma {:induction false} MatchGivesPieces(glob: string, s: string, i: nat) returns (pieces: seq<string>)
    requires i <= |s| && Match(GlobTerms(glob) + [AssertEnd], s, i)
    ensures Splits(glob, pieces, s[i..])
    decreases |glob|, |s| - i
  {
    var terms := GlobTerms(glob) + [AssertEnd];
    if glob == "" {
      pieces := [];
    } else {
      assert terms[1..] == GlobTerms(glob[1..]) + [AssertEnd];
      if glob[0] == '*' {
        if Match(terms[1..], s, i) {
          var rest := MatchGivesPieces(glob[1..], s, i);
          pieces := [""] + rest;
        } else {
          assert [Repeat(Dot, 0, None, false)] + terms[1..] == terms;
          var rest := MatchGivesPieces(glob, s, i + 1);
          pieces := [[s[i]] + rest[0]] + rest[1..];
          assert s[i..] == [s[i]] + s[i + 1..];
        }
      } else {
        var rest := MatchGivesPieces(glob[1..], s, i + 1);
        pieces := [[s[i]]] + rest;
        assert s[i..] == [s[i]] + s[i + 1..];
      }
    }
  }

  lemma {:induction false} PiecesGiveMatch(glob: string, pieces: seq<string>, s: string, i: nat)
    requires i <= |s| && Splits(glob, pieces, s[i..])
    ensures Match(GlobTerms(glob) + [AssertEnd], s, i)
    decreases |glob|, |s| - i
  {
    var terms := GlobTerms(glob) + [AssertEnd];
    if glob != "" {
      assert terms[1..] == GlobTerms(glob[1..]) + [AssertEnd];
      var n := |pieces[0]|;
      assert s[i..][n..] == s[i + n..] == Concat(pieces[1..]);
      if n == 0 || glob[0] != '*' {
        if n == 1 {
          assert s[i] == s[i..][0] == pieces[0][0];
        }
        PiecesGiveMatch(glob[1..], pieces[1..], s, i + n);
      } else {
        assert s[i] == s[i..][0] == pieces[0][0];
        assert s[i..][1..] == s[i + 1..];
        PiecesGiveMatch(glob, [pieces[0][1..]] + pieces[1..], s, i + 1);
        assert [Repeat(Dot, 0, None, false)] + terms[1..] == terms;
      }
    }
  }

  /** Compiling, parsing and running a glob accepts exactly the strings of the glob. */
  lemma CompiledPatternMeansGlob(glob: string, s: string)
    ensures Test(Intended(glob), s) <==> GlobMatches(glob, s)
  {
    var body := GlobTerms(glob) + [AssertEnd];
    assert Intended(glob)[1..] == body;
    assert s[0..] == s;
    if Test(Intended(glob), s) {
      var pieces := MatchGivesPieces(glob, s, 0);
    }
    if GlobMatches(glob, s) {
      var pieces :| Splits(glob, pieces, s);
      PiecesGiveMatch(glob, pieces, s, 0);
      assert Match(Intended(glob), s, 0);
    }
  }

  // ----- where the code departs from its documentation -----

  /** The documented meaning: wildcards stand for any characters of the whole string. */
  predicate DocumentedFits(g: char, piece: string) {
    if g == '*' then true else if g == '?' then |piece| == 1 else piece == [g]
  }

  ghost predicate DocumentedSplits(glob: string, pieces: seq<string>, s: string) {
    && |pieces| == |glob|
    && Concat(pieces) == s
    && forall k | 0 <= k < |glob| :: DocumentedFits(glob[k], pieces[k])
  }

  ghost predicate DocumentedMatches(glob: string, s: string) {
    exists pieces :: DocumentedSplits(glob, pieces, s)
  }

  lemma {:induction false} PiecesAreParts(pieces: seq<string>)
    ensures forall k, c | 0 <= k < |pieces| && c in pieces[k] :: c in Concat(pieces)
  {
    if pieces != [] {
      PiecesAreParts(pieces[1..]);
      forall k, c | 0 <= k < |pieces| && c in pieces[k]
        ensures c in Concat(pieces)
      {
        if k > 0 {
          assert c in pieces[1..][k - 1];
        }
      }
    }
  }

  lemma StarMeansOneLine(s: string)
    ensures GlobMatches("*", s) ==> OneLine(s)
  {
    if GlobMatches("*", s) {
      var pieces :| Splits("*", pieces, s);
      assert Fits('*', pieces[0]);
      assert Concat(pieces) == pieces[0] + Concat(pieces[1..]) == pieces[0];
    }
  }

  /** For a given string, all globs behave as documented exactly when it has no line terminator. */
  lemma DocumentationHoldsOnOneLine(s: string)
    ensures (forall glob :: DocumentedMatches(glob, s) <==> GlobMatches(glob, s)) <==> OneLine(s)
  {
    if OneLine(s) {
      forall glob
        ensures DocumentedMatches(glob, s) <==> GlobMatches(glob, s)
      {
        if DocumentedMatches(glob, s) {
          var pieces :| DocumentedSplits(glob, pieces, s);
          PiecesAreParts(pieces);
          assert Splits(glob, pieces, s);
        }
        if GlobMatches(glob, s) {
          var pieces :| Splits(glob, pieces, s);
          assert DocumentedSplits(glob, pieces, s);
        }
      }
    } else {
      assert Concat([s]) == s + Concat([]) == s;
      assert DocumentedSplits("*", [s], s);
      StarMeansOneLine(s);
    }
  }

  /** A text on which they differ: two lines, and the glob that is documented to accept everything. */
  lemma StarStopsAtLineEnd()
    ensures DocumentedMatches("*", "a\nb") && !GlobMatches("*", "a\nb")
  {
    assert Concat(["a\nb"]) == "a\nb" + Concat([]) == "a\nb";
    assert DocumentedSplits("*", ["a\nb"], "a\nb");
    assert !OneLine("a\nb") by {
      assert "a\nb"[1] == '\n' && '\n' in "a\nb";
    }
    StarMeansOneLine("a\nb");
  }
}
