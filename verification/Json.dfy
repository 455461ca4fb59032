/** JSON values, their canonical text (`canonicalJson`) and `JSON.stringify`. */
module Json {
  import opened Ordering
  import opened Sequences

  datatype Entry = Entry(key: string, value: Value)

  /** A number is kept as the numeral `JSON.stringify` prints for it. */
  datatype Value =
    | Null
    | Bool(b: bool)
    | Num(numeral: string)
    | Str(s: string)
    | Arr(items: seq<Value>)
    | Obj(entries: seq<Entry>)

  predicate Numeral(s: string) {
    s != "" && forall c | c in s :: '0' <= c <= '9' || c in "+-.eE"
  }

  ghost predicate DistinctKeys(es: seq<Entry>) {
    forall i, j | 0 <= i < j < |es| :: es[i].key != es[j].key
  }

  /** What every value of a JavaScript program satisfies: an object has each key once. */
  ghost predicate WellFormed(v: Value) {
    match v
    case Num(numeral) => Numeral(numeral)
    case Arr(items) => forall x | x in items :: WellFormed(x)
    case Obj(entries) => DistinctKeys(entries) && forall e | e in entries :: WellFormed(e.value)
    case _ => true
  }

  ghost function KeySet(es: seq<Entry>): set<string> {
    set e | e in es :: e.key
  }

  ghost predicate HasCounterpart(e: Entry, fs: seq<Entry>)
    decreases e
  {
    exists f | f in fs :: e.key == f.key && Same(e.value, f.value)
  }

  /** Equal up to the order of object keys. */
  ghost predicate Same(v: Value, w: Value)
    decreases v
  {
    match (v, w)
    case (Arr(xs), Arr(ys)) =>
      |xs| == |ys| && forall i | 0 <= i < |xs| :: Same(xs[i], ys[i])
    case (Obj(es), Obj(fs)) =>
      |es| == |fs| && KeySet(es) == KeySet(fs) && forall e | e in es :: HasCounterpart(e, fs)
    case (_, _) => v == w
  }

  // ----- printing -----

  function HexDigit(n: nat): char
    requires n < 16
  {
    "0123456789abcdef"[n]
  }

  /** QuoteJSONString of ECMA-262 for one character (RFC 8259 section 7). */
  function EscapeChar(c: char): (r: string)
    ensures |r| > 0
  {
    if c == '"' then "\\\""
    else if c == '\\' then "\\\\"
    else if c == '\U{8}' then "\\b"
    else if c == '\t' then "\\t"
    else if c == '\n' then "\\n"
    else if c == '\U{c}' then "\\f"
    else if c == '\r' then "\\r"
    else if c < ' ' then "\\u00" + [HexDigit(c as int / 16), HexDigit(c as int % 16)]
    else [c]
  }

  function Escape(s: string): string {
    if s == "" then "" else EscapeChar(s[0]) + Escape(s[1..])
  }

  function Quote(s: string): string {
    "\"" + Escape(s) + "\""
  }

  function ByKey(le: (string, string) -> bool): (Entry, Entry) -> bool {
    (e: Entry, f: Entry) => le(e.key, f.key)
  }

  lemma ArrangedEntriesAreParts(v: Value, le: (string, string) -> bool)
    requires v.Obj?
    ensures forall i | 0 <= i < |v.entries| :: Arranged(v.entries, le)[i].value < v
  {
    forall i | 0 <= i < |v.entries|
      ensures Arranged(v.entries, le)[i].value < v
    {
      var e := Arranged(v.entries, le)[i];
      assert e in v.entries;
      var j :| 0 <= j < |v.entries| && v.entries[j] == e;
      assert v.entries[j] < v;
    }
  }

  function Arranged(es: seq<Entry>, le: (string, string) -> bool): (r: seq<Entry>)
    ensures |r| == |es|
    ensures forall e :: e in r <==> e in es
  {
    SameMembers(Sort(es, ByKey(le)), es);
    Sort(es, ByKey(le))
  }

  function PrintPair(key: string, text: string): string {
    Quote(key) + ":" + text
  }

  /** Text of a value whose object entries are first arranged by `le` on their keys. */
  function Print(v: Value, le: (string, string) -> bool): string
    decreases v
  {
    match v
    case Null => "null"
    case Bool(b) => if b then "true" else "false"
    case Num(numeral) => numeral
    case Str(s) => Quote(s)
    case Arr(items) => "[" + PrintItems(items, v, le) + "]"
    case Obj(entries) =>
      ArrangedEntriesAreParts(v, le);
      "{" + PrintEntries(Arranged(entries, le), v, le) + "}"
  }

  /** The items of `parent`, or a tail of them, joined with commas. */
  function PrintItems(xs: seq<Value>, ghost parent: Value, le: (string, string) -> bool): string
    requires forall i | 0 <= i < |xs| :: xs[i] < parent
    decreases parent, |xs|
  {
    if xs == [] then ""
    else if |xs| == 1 then Print(xs[0], le)
    else Print(xs[0], le) + "," + PrintItems(xs[1..], parent, le)
  }

  function PrintEntries(es: seq<Entry>, ghost parent: Value, le: (string, string) -> bool): string
    requires forall i | 0 <= i < |es| :: es[i].value < parent
    decreases parent, |es|
  {
    if es == [] then ""
    else
      var first := PrintPair(es[0].key, Print(es[0].value, le));
      if |es| == 1 then first else first + "," + PrintEntries(es[1..], parent, le)
  }

  /** `canonicalJson(value)`, where `le` is the collation of `localeCompare`. */
  function CanonicalJson(v: Value, le: (string, string) -> bool): string {
    Print(v, le)
  }

  /** `JSON.stringify(value)`: entries keep their order. */
  function Stringify(v: Value): string {
    Print(v, (a: string, b: string) => true)
  }

  // ----- the text can be read back -----

  /** What may follow a printed value: nothing, a separator or a closing bracket. */
  predicate Delimited(x: string) {
    x == "" || x[0] in ",]}"
  }

  function HexValue(c: char): int {
    if '0' <= c <= '9' then c as int - '0' as int else c as int - 'a' as int + 10
  }

  /** Reads one (possibly escaped) character, as a code point, off the front of a text. */
  function Unescape(t: string): (int, string)
    requires t != "" && (t[0] == '\\' ==> |t| > 1 && (t[1] == 'u' ==> |t| >= 6))
  {
    if t[0] != '\\' then (t[0] as int, t[1..])
    else if t[1] == 'u' then (16 * HexValue(t[4]) + HexValue(t[5]), t[6..])
    else
      (match t[1]
       case 'b' => 8
       case 't' => 9
       case 'n' => 10
       case 'f' => 12
       case 'r' => 13
       case c => c as int, t[2..])
  }

  lemma UnescapeUndoesEscape(c: char, x: string)
    ensures var t := EscapeChar(c) + x;
      && (t[0] == '\\' ==> |t| > 1 && (t[1] == 'u' ==> |t| >= 6))
      && Unescape(t) == (c as int, x)
  {
    var e := EscapeChar(c);
    var t := e + x;
    assert t[|e|..] == x;
    assert forall i | 0 <= i < |e| :: t[i] == e[i];
    if c < ' ' && |e| == 6 {
      assert e[4] == HexDigit(c as int / 16) && e[5] == HexDigit(c as int % 16);
      assert HexValue(e[4]) == c as int / 16 && HexValue(e[5]) == c as int % 16;
    }
  }

  lemma EscapeCharReadBack(c: char, d: char, x: string, y: string)
    requires EscapeChar(c) + x == EscapeChar(d) + y
    ensures c == d && x == y
  {
    UnescapeUndoesEscape(c, x);
    UnescapeUndoesEscape(d, y);
  }

  lemma EscapeTail(s: string, x: string)
    requires s != ""
    ensures Escape(s) + x == EscapeChar(s[0]) + (Escape(s[1..]) + x)
  {
  }

  lemma {:induction false} EscapeReadBack(a: string, b: string, x: string, y: string)
    requires Escape(a) + ("\"" + x) == Escape(b) + ("\"" + y)
    ensures a == b && x == y
  {
    hide EscapeChar;
    if a != "" && b != "" {
      hide Escape;
      EscapeTail(a, "\"" + x);
      EscapeTail(b, "\"" + y);
      EscapeCharReadBack(a[0], b[0], Escape(a[1..]) + ("\"" + x), Escape(b[1..]) + ("\"" + y));
      EscapeReadBack(a[1..], b[1..], x, y);
      assert a == [a[0]] + a[1..] && b == [b[0]] + b[1..];
    } else {
      EscapeHead(a, "\"" + x);
      EscapeHead(b, "\"" + y);
      assert "" + ("\"" + x) == "\"" + x && "" + ("\"" + y) == "\"" + y;
      assert x == ("\"" + x)[1..] && y == ("\"" + y)[1..];
    }
  }

  lemma EscapeHead(s: string, x: string)
    ensures s != "" ==> Escape(s) + x != "" && (Escape(s) + x)[0] != '"'
  {
    if s != "" {
      assert (Escape(s) + x)[0] == EscapeChar(s[0])[0];
    }
  }

  lemma QuoteTail(a: string, x: string)
    ensures Quote(a) + x == "\"" + (Escape(a) + ("\"" + x))
  {
  }

  lemma QuoteReadBack(a: string, b: string, x: string, y: string)
    requires Quote(a) + x == Quote(b) + y
    ensures a == b && x == y
  {
    QuoteTail(a, x);
    QuoteTail(b, y);
    assert ("\"" + (Escape(a) + ("\"" + x)))[1..] == Escape(a) + ("\"" + x);
    assert ("\"" + (Escape(b) + ("\"" + y)))[1..] == Escape(b) + ("\"" + y);
    EscapeReadBack(a, b, x, y);
  }

  /** The kind of a value shows in the first character of its text. */
  function Lead(v: Value): string {
    match v
    case Null => "n"
    case Bool(b) => if b then "t" else "f"
    case Num(_) => "0123456789+-.eE"
    case Str(_) => "\""
    case Arr(_) => "["
    case Obj(_) => "{"
  }

  lemma PrintLead(v: Value, le: (string, string) -> bool)
    requires WellFormed(v)
    ensures Print(v, le) != "" && Print(v, le)[0] in Lead(v) && Print(v, le)[0] != ']'
  {
    if v.Num? {
      assert v.numeral[0] in v.numeral;
    }
  }

  lemma LongerNumeralReachesFollower(a: string, b: string, x: string, y: string)
    requires a + x == b + y
    ensures |a| < |b| ==> x != "" && x[0] in b
  {
    if |a| < |b| {
      assert (a + x)[|a|] == b[|a|];
    }
  }

  lemma NumeralReadBack(a: string, b: string, x: string, y: string)
    requires Numeral(a) && Numeral(b) && Delimited(x) && Delimited(y)
    requires a + x == b + y
    ensures a == b && x == y
  {
    LongerNumeralReachesFollower(a, b, x, y);
    LongerNumeralReachesFollower(b, a, y, x);
    assert a == (a + x)[..|a|] && b == (b + y)[..|b|];
    assert x == (a + x)[|a|..] && y == (b + y)[|b|..];
  }

  lemma ConsReadBack(c: string, d: string, x: string, y: string)
    requires |c| == |d| == 1 && c + x == d + y
    ensures c == d && x == y
  {
    assert c[0] == (c + x)[0] && d[0] == (d + y)[0];
    assert x == (c + x)[1..] && y == (d + y)[1..];
  }

  lemma RegroupFour(a: string, b: string, c: string, d: string)
    ensures a + b + c + d == a + (b + (c + d))
    ensures a + b + c == a + (b + c)
  {
  }

  ghost predicate Parts(xs: seq<Value>, v: Value) {
    forall i | 0 <= i < |xs| :: xs[i] < v && WellFormed(xs[i])
  }

  /** What stands behind the first of several items: the other items, the bracket, the follower. */
  function ItemsRest(xs: seq<Value>, ghost v: Value, le: (string, string) -> bool, x: string): string
    requires xs != [] && forall i | 0 <= i < |xs| :: xs[i] < v
  {
    if |xs| == 1 then "]" + x else "," + (PrintItems(xs[1..], v, le) + ("]" + x))
  }

  lemma ItemsFirst(xs: seq<Value>, v: Value, le: (string, string) -> bool, x: string)
    requires Parts(xs, v)
    ensures var t := PrintItems(xs, v, le) + ("]" + x);
      && t != "" && (t[0] == ']' <==> xs == [])
      && (xs == [] ==> t == "]" + x)
      && (xs != [] ==> t == Print(xs[0], le) + ItemsRest(xs, v, le, x) && Delimited(ItemsRest(xs, v, le, x)))
  {
    if xs == [] {
      RegroupFour("", "]", x, "");
    } else {
      hide Print, Lead;
      PrintLead(xs[0], le);
      var first := Print(xs[0], le);
      if |xs| > 1 {
        RegroupFour(first, ",", PrintItems(xs[1..], v, le), "]" + x);
      }
    }
  }

  lemma ItemsRestReadBack(xs: seq<Value>, ys: seq<Value>, v: Value, w: Value,
                          le: (string, string) -> bool, x: string, y: string)
    requires xs != [] && ys != [] && Parts(xs, v) && Parts(ys, w)
    requires ItemsRest(xs, v, le, x) == ItemsRest(ys, w, le, y)
    ensures |xs| == 1 <==> |ys| == 1
    ensures |xs| == 1 ==> x == y
    ensures |xs| > 1 ==> PrintItems(xs[1..], v, le) + ("]" + x) == PrintItems(ys[1..], w, le) + ("]" + y)
  {
    var a := if |xs| == 1 then x else PrintItems(xs[1..], v, le) + ("]" + x);
    var b := if |ys| == 1 then y else PrintItems(ys[1..], w, le) + ("]" + y);
    ConsReadBack(if |xs| == 1 then "]" else ",", if |ys| == 1 then "]" else ",", a, b);
  }

  lemma {:induction false} ItemsReadBack(xs: seq<Value>, ys: seq<Value>, v: Value, w: Value,
                                         le: (string, string) -> bool, x: string, y: string)
    requires Parts(xs, v) && Parts(ys, w)
    requires PrintItems(xs, v, le) + ("]" + x) == PrintItems(ys, w, le) + ("]" + y)
    ensures |xs| == |ys| && x == y
    ensures forall i | 0 <= i < |xs| :: Same(xs[i], ys[i])
    decreases v, |xs|
  {
    ItemsFirst(xs, v, le, x);
    ItemsFirst(ys, w, le, y);
    if xs == [] {
      ConsReadBack("]", "]", x, y);
    } else {
      ReadBack(xs[0], ys[0], le, ItemsRest(xs, v, le, x), ItemsRest(ys, w, le, y));
      ItemsRestReadBack(xs, ys, v, w, le, x, y);
      if |xs| > 1 {
        ItemsReadBack(xs[1..], ys[1..], v, w, le, x, y);
      }
    }
  }

  ghost predicate EntryParts(es: seq<Entry>, v: Value) {
    forall i | 0 <= i < |es| :: es[i].value < v && WellFormed(es[i].value)
  }

  function EntriesRest(es: seq<Entry>, ghost v: Value, le: (string, string) -> bool, x: string): string
    requires es != [] && forall i | 0 <= i < |es| :: es[i].value < v
  {
    if |es| == 1 then "}" + x else "," + (PrintEntries(es[1..], v, le) + ("}" + x))
  }

  lemma EntriesFirst(es: seq<Entry>, v: Value, le: (string, string) -> bool, x: string)
    requires EntryParts(es, v)
    ensures var t := PrintEntries(es, v, le) + ("}" + x);
      && t != "" && (t[0] == '}' <==> es == [])
      && (es == [] ==> t == "}" + x)
      && (es != [] ==>
            && t == Quote(es[0].key) + (":" + (Print(es[0].value, le) + EntriesRest(es, v, le, x)))
            && Delimited(EntriesRest(es, v, le, x)))
  {
    if es != [] {
      var key, text := Quote(es[0].key), Print(es[0].value, le);
      if |es| == 1 {
        RegroupFour(key, ":", text, "}" + x);
      } else {
        var rest := PrintEntries(es[1..], v, le);
        RegroupFour(key + ":" + text, ",", rest, "}" + x);
        RegroupFour(key, ":", text, "," + (rest + ("}" + x)));
      }
    }
  }

  lemma EntriesRestReadBack(es: seq<Entry>, fs: seq<Entry>, v: Value, w: Value,
                            le: (string, string) -> bool, x: string, y: string)
    requires es != [] && fs != [] && EntryParts(es, v) && EntryParts(fs, w)
    requires EntriesRest(es, v, le, x) == EntriesRest(fs, w, le, y)
    ensures |es| == 1 <==> |fs| == 1
    ensures |es| == 1 ==> x == y
    ensures |es| > 1 ==> PrintEntries(es[1..], v, le) + ("}" + x) == PrintEntries(fs[1..], w, le) + ("}" + y)
  {
    var a := if |es| == 1 then x else PrintEntries(es[1..], v, le) + ("}" + x);
    var b := if |fs| == 1 then y else PrintEntries(fs[1..], w, le) + ("}" + y);
    ConsReadBack(if |es| == 1 then "}" else ",", if |fs| == 1 then "}" else ",", a, b);
  }

  lemma PairReadBack(key: string, other: string, m: string, n: string)
    requires Quote(key) + (":" + m) == Quote(other) + (":" + n)
    ensures key == other && m == n
  {
    QuoteReadBack(key, other, ":" + m, ":" + n);
    ConsReadBack(":", ":", m, n);
  }

  /** Entry by entry the same keys and values. */
  ghost predicate Paired(es: seq<Entry>, fs: seq<Entry>) {
    |es| == |fs| && forall i | 0 <= i < |es| :: es[i].key == fs[i].key && Same(es[i].value, fs[i].value)
  }

  lemma PairedCons(es: seq<Entry>, fs: seq<Entry>)
    requires es != [] && fs != [] && es[0].key == fs[0].key && Same(es[0].value, fs[0].value)
    requires |es| > 1 || |fs| > 1 ==> Paired(es[1..], fs[1..])
    ensures Paired(es, fs)
  {
    hide Same;
    assert |es| > 1 ==> forall i | 0 < i < |es| :: es[i] == es[1..][i - 1] && fs[i] == fs[1..][i - 1];
  }

  lemma {:induction false} EntriesReadBack(es: seq<Entry>, fs: seq<Entry>, v: Value, w: Value,
                                           le: (string, string) -> bool, x: string, y: string)
    requires EntryParts(es, v) && EntryParts(fs, w)
    requires PrintEntries(es, v, le) + ("}" + x) == PrintEntries(fs, w, le) + ("}" + y)
    ensures Paired(es, fs) && x == y
    decreases v, |es|
  {
    hide Quote, Print, PrintEntries, EntriesRest, Delimited, Same;
    EntriesFirst(es, v, le, x);
    EntriesFirst(fs, w, le, y);
    if es == [] {
      ConsReadBack("}", "}", x, y);
    } else {
      hide Paired;
      var p, q := EntriesRest(es, v, le, x), EntriesRest(fs, w, le, y);
      PairReadBack(es[0].key, fs[0].key, Print(es[0].value, le) + p, Print(fs[0].value, le) + q);
      ReadBack(es[0].value, fs[0].value, le, p, q);
      EntriesRestReadBack(es, fs, v, w, le, x, y);
      if |es| > 1 {
        EntriesReadBack(es[1..], fs[1..], v, w, le, x, y);
      }
      PairedCons(es, fs);
    }
  }

  lemma ArrangedParts(v: Value, le: (string, string) -> bool)
    requires v.Obj? && WellFormed(v)
    ensures EntryParts(Arranged(v.entries, le), v)
  {
    ArrangedEntriesAreParts(v, le);
    forall i | 0 <= i < |v.entries|
      ensures WellFormed(Arranged(v.entries, le)[i].value)
    {
      assert Arranged(v.entries, le)[i] in v.entries;
    }
  }

  /** The bracketed text of an array or object behind its opening bracket. */
  lemma BracketTail(v: Value, le: (string, string) -> bool, x: string)
    requires (v.Arr? || v.Obj?) && WellFormed(v)
    ensures v.Arr? ==> Print(v, le) + x == "[" + (PrintItems(v.items, v, le) + ("]" + x))
    ensures v.Obj? ==> EntryParts(Arranged(v.entries, le), v)
    ensures v.Obj? ==> Print(v, le) + x == "{" + (PrintEntries(Arranged(v.entries, le), v, le) + ("}" + x))
  {
    if v.Obj? {
      ArrangedParts(v, le);
      RegroupFour("{", PrintEntries(Arranged(v.entries, le), v, le), "}", x);
    } else {
      RegroupFour("[", PrintItems(v.items, v, le), "]", x);
    }
  }

  lemma LeadTellsKind(v: Value, w: Value, c: char)
    requires c in Lead(v) && c in Lead(w)
    ensures (v.Arr? <==> w.Arr?) && (v.Obj? <==> w.Obj?) && (v.Str? <==> w.Str?) && (v.Num? <==> w.Num?)
    ensures v.Null? || v.Bool? ==> v == w
  {
  }

  lemma SameKind(v: Value, w: Value, le: (string, string) -> bool, x: string, y: string)
    requires WellFormed(v) && WellFormed(w) && Print(v, le) + x == Print(w, le) + y
    ensures (v.Arr? <==> w.Arr?) && (v.Obj? <==> w.Obj?) && (v.Str? <==> w.Str?) && (v.Num? <==> w.Num?)
    ensures v.Null? || v.Bool? ==> v == w
  {
    PrintLead(v, le);
    PrintLead(w, le);
    assert (Print(v, le) + x)[0] == Print(v, le)[0];
    assert (Print(w, le) + y)[0] == Print(w, le)[0];
    LeadTellsKind(v, w, Print(v, le)[0]);
  }

  lemma SameTextSameRest(t: string, x: string, y: string)
    requires t + x == t + y
    ensures x == y
  {
    assert x == (t + x)[|t|..] && y == (t + y)[|t|..];
  }

  lemma {:induction false} ArraysReadBack(v: Value, w: Value, le: (string, string) -> bool, x: string, y: string)
    requires v.Arr? && w.Arr? && WellFormed(v) && WellFormed(w)
    requires Print(v, le) + x == Print(w, le) + y
    ensures Same(v, w) && x == y
    decreases v, |v.items| + 1
  {
    BracketTail(v, le, x);
    BracketTail(w, le, y);
    ConsReadBack("[", "[", PrintItems(v.items, v, le) + ("]" + x), PrintItems(w.items, w, le) + ("]" + y));
    ItemsReadBack(v.items, w.items, v, w, le, x, y);
  }

  lemma {:induction false} ObjectsReadBack(v: Value, w: Value, le: (string, string) -> bool, x: string, y: string)
    requires v.Obj? && w.Obj? && WellFormed(v) && WellFormed(w)
    requires Print(v, le) + x == Print(w, le) + y
    ensures Same(v, w) && x == y
    decreases v, |v.entries| + 1
  {
    BracketTail(v, le, x);
    BracketTail(w, le, y);
    var es, fs := Arranged(v.entries, le), Arranged(w.entries, le);
    ConsReadBack("{", "{", PrintEntries(es, v, le) + ("}" + x), PrintEntries(fs, w, le) + ("}" + y));
    EntriesReadBack(es, fs, v, w, le, x, y);
    PairedEntriesAreSame(v, w, es, fs);
  }

  /** Texts that agree up to what follows them come from the same value and have the same rest. */
  lemma {:induction false} ReadBack(v: Value, w: Value, le: (string, string) -> bool, x: string, y: string)
    requires WellFormed(v) && WellFormed(w)
    requires Delimited(x) && Delimited(y)
    requires Print(v, le) + x == Print(w, le) + y
    ensures Same(v, w) && x == y
    decreases v
  {
    SameKind(v, w, le, x, y);
    if v.Arr? {
      ArraysReadBack(v, w, le, x, y);
    } else if v.Obj? {
      ObjectsReadBack(v, w, le, x, y);
    } else if v.Str? {
      QuoteReadBack(v.s, w.s, x, y);
    } else if v.Num? {
      NumeralReadBack(v.numeral, w.numeral, x, y);
    } else {
      SameTextSameRest(Print(v, le), x, y);
    }
  }

  lemma PairedEntriesAreSame(v: Value, w: Value, es: seq<Entry>, fs: seq<Entry>)
    requires v.Obj? && w.Obj? && |v.entries| == |w.entries|
    requires forall e :: e in es <==> e in v.entries
    requires forall f :: f in fs <==> f in w.entries
    requires Paired(es, fs)
    ensures Same(v, w)
  {
    forall e | e in v.entries
      ensures HasCounterpart(e, w.entries) && e.key in KeySet(w.entries)
    {
      assert e in es;
      var i :| 0 <= i < |es| && es[i] == e;
      assert fs[i] in fs;
    }
    forall f | f in w.entries
      ensures f.key in KeySet(v.entries)
    {
      assert f in fs;
      var i :| 0 <= i < |fs| && fs[i] == f;
      assert es[i] in es;
    }
  }

  // ----- equal up to key order gives the same text -----

  lemma DistinctAsMultiset(es: seq<Entry>, fs: seq<Entry>)
    requires multiset(es) == multiset(fs) && DistinctKeys(es)
    ensures DistinctKeys(fs)
  {
    forall i, j | 0 <= i < j < |fs|
      ensures fs[i].key != fs[j].key
    {
      if fs[i].key == fs[j].key {
        SameMembers(es, fs);
        assert fs[i] in es && fs[j] in es;
        var a :| 0 <= a < |es| && es[a] == fs[i];
        var b :| 0 <= b < |es| && es[b] == fs[j];
        assert a == b && fs[i] == fs[j];
        TwoPlaces(fs, i, j);
        OnePlace(es, a);
        assert false;
      }
    }
  }

  lemma {:induction false} OnePlace(es: seq<Entry>, a: nat)
    requires a < |es| && DistinctKeys(es)
    ensures multiset(es)[es[a]] == 1
  {
    assert es == es[..a] + [es[a]] + es[a + 1..];
    assert es[a] !in es[..a] && es[a] !in es[a + 1..];
    assert es[a] !in multiset(es[..a]) && es[a] !in multiset(es[a + 1..]);
  }

  lemma KeySetTail(es: seq<Entry>)
    requires es != [] && DistinctKeys(es)
    ensures KeySet(es[1..]) == KeySet(es) - {es[0].key}
  {
    assert es == [es[0]] + es[1..];
    forall e | e in es[1..]
      ensures e.key != es[0].key
    {
      var i :| 0 <= i < |es[1..]| && es[1..][i] == e;
      assert es[i + 1] == e;
    }
  }

  lemma FirstKeyIsLeast(es: seq<Entry>, k: string, le: (string, string) -> bool)
    requires TotalOrder(le) && SortedBy(es, ByKey(le)) && k in KeySet(es)
    ensures le(es[0].key, k)
  {
    var e :| e in es && e.key == k;
    var i :| 0 <= i < |es| && es[i] == e;
    assert i > 0 ==> ByKey(le)(es[0], es[i]);
  }

  /** Distinct keys in the order of `le` leave no choice of arrangement. */
  lemma {:induction false} SortedKeysUnique(es: seq<Entry>, fs: seq<Entry>, le: (string, string) -> bool)
    requires TotalOrder(le)
    requires SortedBy(es, ByKey(le)) && SortedBy(fs, ByKey(le)) && DistinctKeys(es) && DistinctKeys(fs)
    requires KeySet(es) == KeySet(fs)
    ensures |es| == |fs| && forall i | 0 <= i < |es| :: es[i].key == fs[i].key
  {
    if es != [] || fs != [] {
      assert es != [] ==> es[0] in es && es[0].key in KeySet(fs);
      assert fs != [] ==> fs[0] in fs && fs[0].key in KeySet(es);
      assert es != [] && fs != [];
      FirstKeyIsLeast(es, fs[0].key, le);
      FirstKeyIsLeast(fs, es[0].key, le);
      KeySetTail(es);
      KeySetTail(fs);
      SortedKeysUnique(es[1..], fs[1..], le);
    }
  }

  lemma ByKeyOrders(le: (string, string) -> bool)
    requires TotalOrder(le)
    ensures Transitive(ByKey(le)) && Strong(ByKey(le))
  {
    assert forall e, f :: ByKey(le)(e, f) == le(e.key, f.key);
  }

  lemma ArrangedIsSorted(es: seq<Entry>, le: (string, string) -> bool)
    requires DistinctKeys(es) && TotalOrder(le)
    ensures SortedBy(Arranged(es, le), ByKey(le)) && DistinctKeys(Arranged(es, le))
  {
    ByKeyOrders(le);
    SortSorts(es, ByKey(le));
    DistinctAsMultiset(es, Arranged(es, le));
  }

  lemma Counterparts(v: Value, w: Value, es: seq<Entry>, fs: seq<Entry>)
    requires v.Obj? && w.Obj? && Same(v, w)
    requires forall e :: e in es <==> e in v.entries
    requires forall f :: f in fs <==> f in w.entries
    ensures forall e | e in es :: HasCounterpart(e, fs)
    ensures KeySet(es) == KeySet(fs)
  {
    assert KeySet(es) == KeySet(v.entries) && KeySet(fs) == KeySet(w.entries);
    forall e | e in es
      ensures HasCounterpart(e, fs)
    {
      assert HasCounterpart(e, w.entries);
      var f :| f in w.entries && e.key == f.key && Same(e.value, f.value);
      assert f in fs;
    }
  }

  lemma PairUp(es: seq<Entry>, fs: seq<Entry>, le: (string, string) -> bool)
    requires TotalOrder(le)
    requires SortedBy(es, ByKey(le)) && SortedBy(fs, ByKey(le)) && DistinctKeys(es) && DistinctKeys(fs)
    requires KeySet(es) == KeySet(fs) && forall e | e in es :: HasCounterpart(e, fs)
    ensures |es| == |fs|
    ensures forall i | 0 <= i < |es| :: es[i].key == fs[i].key && Same(es[i].value, fs[i].value)
  {
    SortedKeysUnique(es, fs, le);
    forall i | 0 <= i < |es|
      ensures Same(es[i].value, fs[i].value)
    {
      assert HasCounterpart(es[i], fs);
      var f :| f in fs && es[i].key == f.key && Same(es[i].value, f.value);
      var j :| 0 <= j < |fs| && fs[j] == f;
      assert j == i;
    }
  }

  lemma {:induction false} SameItemsPrintAlike(xs: seq<Value>, ys: seq<Value>, v: Value, w: Value,
                                               le: (string, string) -> bool)
    requires TotalOrder(le) && Parts(xs, v) && Parts(ys, w)
    requires |xs| == |ys| && forall i | 0 <= i < |xs| :: Same(xs[i], ys[i])
    ensures PrintItems(xs, v, le) == PrintItems(ys, w, le)
    decreases v, |xs|
  {
    if xs != [] {
      SamePrintsAlike(xs[0], ys[0], le);
      SameItemsPrintAlike(xs[1..], ys[1..], v, w, le);
    }
  }

  lemma {:induction false} SameEntriesPrintAlike(es: seq<Entry>, fs: seq<Entry>, v: Value, w: Value,
                                                 le: (string, string) -> bool)
    requires TotalOrder(le) && EntryParts(es, v) && EntryParts(fs, w)
    requires |es| == |fs|
    requires forall i | 0 <= i < |es| :: es[i].key == fs[i].key && Same(es[i].value, fs[i].value)
    ensures PrintEntries(es, v, le) == PrintEntries(fs, w, le)
    decreases v, |es|
  {
    if es != [] {
      SamePrintsAlike(es[0].value, fs[0].value, le);
      SameEntriesPrintAlike(es[1..], fs[1..], v, w, le);
    }
  }

  lemma {:induction false} SamePrintsAlike(v: Value, w: Value, le: (string, string) -> bool)
    requires TotalOrder(le) && WellFormed(v) && WellFormed(w) && Same(v, w)
    ensures Print(v, le) == Print(w, le)
    decreases v
  {
    match (v, w) {
      case (Arr(xs), Arr(ys)) =>
        SameItemsPrintAlike(xs, ys, v, w, le);
      case (Obj(es), Obj(fs)) =>
        ArrangedIsSorted(es, le);
        ArrangedIsSorted(fs, le);
        Counterparts(v, w, Arranged(es, le), Arranged(fs, le));
        PairUp(Arranged(es, le), Arranged(fs, le), le);
        ArrangedParts(v, le);
        ArrangedParts(w, le);
        SameEntriesPrintAlike(Arranged(es, le), Arranged(fs, le), v, w, le);
      case (_, _) =>
    }
  }

  // ----- main results -----

  /** Equal texts come from values that are equal up to key order, under any collation. */
  lemma EqualTextSameValue(v: Value, w: Value, le: (string, string) -> bool)
    requires WellFormed(v) && WellFormed(w) && Print(v, le) == Print(w, le)
    ensures Same(v, w)
  {
    assert Print(v, le) + "" == Print(w, le) + "";
    ReadBack(v, w, le, "", "");
  }

  /** `canonicalJson` is a canonical form: two values print alike exactly when they are equal up
      to the order of object keys. */
  lemma CanonicalForm(v: Value, w: Value, le: (string, string) -> bool)
    requires TotalOrder(le) && WellFormed(v) && WellFormed(w)
    ensures CanonicalJson(v, le) == CanonicalJson(w, le) <==> Same(v, w)
  {
    if CanonicalJson(v, le) == CanonicalJson(w, le) {
      EqualTextSameValue(v, w, le);
    }
    if Same(v, w) {
      SamePrintsAlike(v, w, le);
    }
  }
}
