/** Text encodings that the code relies on: decimal numerals, UTF-8, UTF-16 length,
    the percent-encoding of URI components. Strings are sequences of Unicode scalar values. */
module Text {

  function Digit(n: nat): char
    requires n < 10
  {
    "0123456789"[n]
  }

  /** `String(n)` for a natural number. */
  function Decimal(n: nat): (r: string)
    ensures |r| > 0
    ensures forall c | c in r :: '0' <= c <= '9'
    ensures n < 10 <==> |r| == 1
  {
    if n < 10 then [Digit(n)] else Decimal(n / 10) + [Digit(n % 10)]
  }

  lemma {:induction false} DecimalInjective(m: nat, n: nat)
    requires Decimal(m) == Decimal(n)
    ensures m == n
  {
    if m >= 10 && n >= 10 {
      var a, b := Decimal(m), Decimal(n);
      assert a[..|a| - 1] == Decimal(m / 10) && b[..|b| - 1] == Decimal(n / 10);
      assert a[|a| - 1] == Digit(m % 10) && b[|b| - 1] == Digit(n % 10);
      DecimalInjective(m / 10, n / 10);
    }
  }

  /** `value.length` counts UTF-16 code units. */
  function Utf16Length(s: string): nat {
    if s == "" then 0 else (if s[0] as int >= 0x10000 then 2 else 1) + Utf16Length(s[1..])
  }

  /** Characters above the basic plane are two units, all others one. */
  lemma {:induction false} Utf16Counts(s: string, t: string)
    ensures Utf16Length(s + t) == Utf16Length(s) + Utf16Length(t)
    ensures |s| <= Utf16Length(s) <= 2 * |s|
    ensures Utf16Length(s) == |s| <==> forall i | 0 <= i < |s| :: s[i] < '\U{10000}'
    ensures Utf16Length(s) == 2 * |s| <==> forall i | 0 <= i < |s| :: s[i] >= '\U{10000}'
  {
    if s == "" {
      assert s + t == t;
    } else {
      Utf16Counts(s[1..], t);
      assert (s + t)[1..] == s[1..] + t;
      assert forall i | 0 < i < |s| :: s[i] == s[1..][i - 1];
    }
  }

  type Byte = b: int | 0 <= b < 256

  function Utf8Char(c: char): (bytes: seq<Byte>)
    ensures 1 <= |bytes| <= 4
  {
    var n := c as int;
    if n < 0x80 then [n]
    else if n < 0x800 then [0xC0 + n / 0x40, 0x80 + n % 0x40]
    else if n < 0x10000 then [0xE0 + n / 0x1000, 0x80 + n / 0x40 % 0x40, 0x80 + n % 0x40]
    else [0xF0 + n / 0x40000, 0x80 + n / 0x1000 % 0x40, 0x80 + n / 0x40 % 0x40, 0x80 + n % 0x40]
  }

  /** `new TextEncoder().encode(s).byteLength` */
  function Utf8Length(s: string): nat {
    if s == "" then 0 else |Utf8Char(s[0])| + Utf8Length(s[1..])
  }

  /** White space and line terminators, as `trim` removes them. */
  predicate Space(c: char) {
    || '\U{9}' <= c <= '\U{D}' || c == ' ' || c == '\U{A0}' || c == '\U{1680}' || '\U{2000}' <= c <= '\U{200A}'
    || c == '\U{2028}' || c == '\U{2029}' || c == '\U{202F}' || c == '\U{205F}' || c == '\U{3000}' || c == '\U{FEFF}'
  }

  function TrimStart(s: string): string {
    if s != "" && Space(s[0]) then TrimStart(s[1..]) else s
  }

  function TrimEnd(s: string): string {
    if s != "" && Space(s[|s| - 1]) then TrimEnd(s[..|s| - 1]) else s
  }

  /** `s.trim()` */
  function Trim(s: string): string {
    TrimEnd(TrimStart(s))
  }

  lemma {:induction false} TrimStartExactly(s: string) returns (lead: string)
    ensures s == lead + TrimStart(s) && forall c | c in lead :: Space(c)
    ensures TrimStart(s) != "" ==> !Space(TrimStart(s)[0])
  {
    lead := "";
    if s != "" && Space(s[0]) {
      var rest := TrimStartExactly(s[1..]);
      lead := [s[0]] + rest;
      assert s == [s[0]] + s[1..];
    } else {
      assert "" + s == s;
    }
  }

  lemma {:induction false} TrimEndExactly(s: string) returns (tail: string)
    ensures s == TrimEnd(s) + tail && forall c | c in tail :: Space(c)
    ensures TrimEnd(s) != "" ==> !Space(TrimEnd(s)[|TrimEnd(s)| - 1]) && TrimEnd(s)[0] == s[0]
  {
    tail := "";
    if s != "" && Space(s[|s| - 1]) {
      var rest := TrimEndExactly(s[..|s| - 1]);
      tail := rest + [s[|s| - 1]];
      assert s == s[..|s| - 1] + [s[|s| - 1]];
    }
  }

  /** Trimming takes away white space at both ends, all of it, and nothing else. */
  lemma TrimExactly(s: string) returns (lead: string, tail: string)
    ensures s == lead + (Trim(s) + tail)
    ensures forall c | c in lead + tail :: Space(c)
    ensures Trim(s) != "" ==> !Space(Trim(s)[0]) && !Space(Trim(s)[|Trim(s)| - 1])
  {
    hide TrimStart, TrimEnd, Space;
    lead := TrimStartExactly(s);
    tail := TrimEndExactly(TrimStart(s));
  }

  predicate Unreserved(c: char) {
    'A' <= c <= 'Z' || 'a' <= c <= 'z' || '0' <= c <= '9' || c in "-_.!~*'()"
  }

  /** `encodeURIComponent` writes upper-case digits. */
  function UpperHexDigit(n: nat): char
    requires n < 16
  {
    if n < 10 then ('0' as int + n) as char else ('A' as int + n - 10) as char
  }

  function Escape(b: Byte): string {
    ['%', UpperHexDigit(b / 16), UpperHexDigit(b % 16)]
  }

  function PercentEncode(bytes: seq<Byte>): string {
    if bytes == [] then "" else Escape(bytes[0]) + PercentEncode(bytes[1..])
  }

  function EncodeChar(c: char): string {
    if Unreserved(c) then [c] else PercentEncode(Utf8Char(c))
  }

  /** `encodeURIComponent(s)` */
  function EncodeUriComponent(s: string): string {
    if s == "" then "" else EncodeChar(s[0]) + EncodeUriComponent(s[1..])
  }

  /** The lead byte gives the length; the bytes give the code point back. */
  function Utf8Value(bytes: seq<int>): int
    requires 1 <= |bytes| <= 4
  {
    match |bytes|
    case 1 => bytes[0]
    case 2 => (bytes[0] - 0xC0) * 0x40 + bytes[1] - 0x80
    case 3 => (bytes[0] - 0xE0) * 0x1000 + (bytes[1] - 0x80) * 0x40 + bytes[2] - 0x80
    case _ => (bytes[0] - 0xF0) * 0x40000 + (bytes[1] - 0x80) * 0x1000 + (bytes[2] - 0x80) * 0x40 + bytes[3] - 0x80
  }

  lemma Utf8RoundTrip(c: char)
    ensures Utf8Value(Utf8Char(c)) == c as int
  {
    var n := c as int;
    assert n / 0x1000 == n / 0x40 / 0x40;
    assert n / 0x40000 == n / 0x1000 / 0x40;
  }

  lemma {:induction false} Utf8PrefixFree(c: char, d: char)
    requires Utf8Char(c) <= Utf8Char(d) || Utf8Char(d) <= Utf8Char(c)
    ensures c == d
  {
    var a, b := Utf8Char(c), Utf8Char(d);
    assert a[0] == b[0];
    assert |a| == |b| && a == b;
    Utf8RoundTrip(c);
    Utf8RoundTrip(d);
  }

  lemma {:induction false} PercentEncodeShape(bytes: seq<Byte>)
    ensures |PercentEncode(bytes)| == 3 * |bytes|
    ensures forall c | c in PercentEncode(bytes) :: c != ':'
  {
    if bytes != [] {
      PercentEncodeShape(bytes[1..]);
      assert PercentEncode(bytes) == Escape(bytes[0]) + PercentEncode(bytes[1..]);
    }
  }

  lemma EscapeReadBack(b: Byte, c: Byte, x: string, y: string)
    requires Escape(b) + x == Escape(c) + y
    ensures b == c && x == y
  {
    var p, q := Escape(b) + x, Escape(c) + y;
    assert p[1] == q[1] && p[2] == q[2];
    assert b / 16 == c / 16 && b % 16 == c % 16;
    assert p[3..] == x && q[3..] == y;
  }

  lemma PercentEncodeHead(bytes: seq<Byte>, x: string)
    requires bytes != []
    ensures PercentEncode(bytes) + x == Escape(bytes[0]) + (PercentEncode(bytes[1..]) + x)
  {
  }

  /** Equal text after percent-encoded bytes: one byte sequence is a prefix of the other. */
  lemma {:induction false} PercentEncodePrefix(a: seq<Byte>, b: seq<Byte>, x: string, y: string)
    requires PercentEncode(a) + x == PercentEncode(b) + y
    ensures a <= b || b <= a
  {
    if a != [] && b != [] {
      hide Escape, PercentEncode;
      PercentEncodeHead(a, x);
      PercentEncodeHead(b, y);
      EscapeReadBack(a[0], b[0], PercentEncode(a[1..]) + x, PercentEncode(b[1..]) + y);
      PercentEncodePrefix(a[1..], b[1..], x, y);
      assert a == [a[0]] + a[1..] && b == [b[0]] + b[1..];
    }
  }

  lemma EncodeCharPrefixFree(c: char, d: char, x: string, y: string)
    requires EncodeChar(c) + x == EncodeChar(d) + y
    ensures c == d && x == y
  {
    var p, q := EncodeChar(c) + x, EncodeChar(d) + y;
    PercentEncodeShape(Utf8Char(c));
    PercentEncodeShape(Utf8Char(d));
    assert p[0] == EncodeChar(c)[0] && q[0] == EncodeChar(d)[0];
    if !Unreserved(c) && !Unreserved(d) {
      PercentEncodePrefix(Utf8Char(c), Utf8Char(d), x, y);
      Utf8PrefixFree(c, d);
    }
    assert c == d;
    assert p[|EncodeChar(c)|..] == x && q[|EncodeChar(d)|..] == y;
  }

  lemma NonEmptyComponentStartsWithoutColon(s: string, t: string)
    requires s != ""
    ensures var z := EncodeUriComponent(s) + t; z != "" && z[0] != ':'
  {
    PercentEncodeShape(Utf8Char(s[0]));
    assert EncodeUriComponent(s)[0] == EncodeChar(s[0])[0];
  }

  lemma EncodeHeadAndTail(s: string, x: string)
    requires s != ""
    ensures EncodeUriComponent(s) + x == EncodeChar(s[0]) + (EncodeUriComponent(s[1..]) + x)
  {
  }

  /** A component ends where the next separator stands, so it can be read back. */
  lemma {:induction false} ComponentReadBack(a: string, b: string, x: string, y: string)
    requires EncodeUriComponent(a) + x == EncodeUriComponent(b) + y
    requires x == "" || x[0] == ':'
    requires y == "" || y[0] == ':'
    ensures a == b && x == y
  {
    if a == "" {
      assert "" + x == x;
      if b != "" {
        NonEmptyComponentStartsWithoutColon(b, y);
      } else {
        assert "" + y == y;
      }
    } else if b == "" {
      assert "" + y == y;
      NonEmptyComponentStartsWithoutColon(a, x);
    } else {
      var p, q := EncodeUriComponent(a[1..]) + x, EncodeUriComponent(b[1..]) + y;
      EncodeHeadAndTail(a, x);
      EncodeHeadAndTail(b, y);
      EncodeCharPrefixFree(a[0], b[0], p, q);
      ComponentReadBack(a[1..], b[1..], x, y);
      assert a == [a[0]] + a[1..] && b == [b[0]] + b[1..];
    }
  }
}
