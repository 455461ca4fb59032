/** The base32 codec of the TOTP secrets (RFC 4648 section 6, without padding characters). The reference
    is the bit stream; the program is a loop over a 32-bit accumulator that loses its high bits. */
module Base32 {
  import opened Wrappers
  import opened Text
  import opened Arithmetic
  import opened Sequences

  const ALPHABET := "ABCDEFGHIJKLMNOPQRSTUVWXYZ234567"

  type Bits = seq<bool>

  // ----- numbers and bits, most significant bit first -----

  function ToBits(n: nat, width: nat): (bits: Bits)
    ensures |bits| == width
  {
    if width == 0 then [] else ToBits(n / 2, width - 1) + [n % 2 == 1]
  }

  function FromBits(bits: Bits): (n: nat)
    ensures n < Pow2(|bits|)
  {
    if bits == [] then 0
    else 2 * FromBits(bits[..|bits| - 1]) + if bits[|bits| - 1] then 1 else 0
  }

  lemma {:induction false} FromToBits(n: nat, width: nat)
    requires n < Pow2(width)
    ensures FromBits(ToBits(n, width)) == n
  {
    if width > 0 {
      FromToBits(n / 2, width - 1);
      assert ToBits(n, width)[..width - 1] == ToBits(n / 2, width - 1);
    }
  }

  lemma {:induction false} ToFromBits(bits: Bits)
    ensures ToBits(FromBits(bits), |bits|) == bits
  {
    if bits != [] {
      ToFromBits(bits[..|bits| - 1]);
      assert bits == bits[..|bits| - 1] + [bits[|bits| - 1]];
    }
  }

  lemma FromBitsSnoc(bits: Bits, b: bool)
    ensures FromBits(bits + [b]) == 2 * FromBits(bits) + if b then 1 else 0
  {
    assert (bits + [b])[..|bits|] == bits;
  }

  lemma Distribute(f: nat, p: nat, g: nat, bit: nat)
    ensures 2 * (f * p + g) + bit == f * (2 * p) + (2 * g + bit)
  {
  }

  lemma {:induction false} FromBitsAppend(a: Bits, b: Bits)
    ensures FromBits(a + b) == FromBits(a) * Pow2(|b|) + FromBits(b)
  {
    if b == [] {
      assert a + b == a;
    } else {
      var n := |b| - 1;
      assert Pow2(|b|) == 2 * Pow2(n);
      hide FromBits, Pow2;
      FromBitsAppend(a, b[..n]);
      FromBitsSnoc(a + b[..n], b[n]);
      FromBitsSnoc(b[..n], b[n]);
      assert a + b == (a + b[..n]) + [b[n]] && b == b[..n] + [b[n]];
      Distribute(FromBits(a), Pow2(n), FromBits(b[..n]), if b[n] then 1 else 0);
    }
  }

  // ----- the reference -----

  function BytesToBits(bytes: seq<Byte>): Bits {
    if bytes == [] then [] else BytesToBits(bytes[..|bytes| - 1]) + ToBits(bytes[|bytes| - 1], 8)
  }

  type Digit = d: int | 0 <= d < 32

  function DigitsToBits(digits: seq<Digit>): Bits {
    if digits == [] then [] else DigitsToBits(digits[..|digits| - 1]) + ToBits(digits[|digits| - 1], 5)
  }

  function Zeros(n: nat): Bits {
    seq(n, i => false)
  }

  lemma FromBitsRange(bits: Bits)
    ensures |bits| == 5 ==> FromBits(bits) < 32
    ensures |bits| == 8 ==> FromBits(bits) < 256
  {
    assert Pow2(5) == 32 && Pow2(8) == 256;
  }

  /** Groups of five bits, the last one filled up with zeros. */
  function GroupFive(bits: Bits): seq<Digit> {
    if bits == [] then []
    else if |bits| < 5 then
      var group := bits + Zeros(5 - |bits|);
      FromBitsRange(group);
      [FromBits(group)]
    else
      FromBitsRange(bits[..5]);
      [FromBits(bits[..5])] + GroupFive(bits[5..])
  }

  /** Whole groups of eight bits; what is left over is dropped. */
  function GroupEight(bits: Bits): seq<Byte> {
    if |bits| < 8 then []
    else
      FromBitsRange(bits[..8]);
      [FromBits(bits[..8])] + GroupEight(bits[8..])
  }

  function Letters(digits: seq<Digit>): (text: string)
    ensures |text| == |digits|
  {
    seq(|digits|, i requires 0 <= i < |digits| => ALPHABET[digits[i]])
  }

  function Encode(bytes: seq<Byte>): string {
    Letters(GroupFive(BytesToBits(bytes)))
  }

  /** `BASE32.indexOf(character)` */
  function IndexOf(c: char): int {
    if 'A' <= c <= 'Z' then c as int - 'A' as int
    else if '2' <= c <= '7' then c as int - '2' as int + 26
    else -1
  }

  predicate InAlphabet(text: string) {
    forall i | 0 <= i < |text| :: IndexOf(text[i]) >= 0
  }

  function Digits(text: string): (digits: seq<Digit>)
    requires InAlphabet(text)
    ensures |digits| == |text|
  {
    seq(|text|, i requires 0 <= i < |text| => IndexOf(text[i]))
  }

  /** `value.replaceAll("=", "").toUpperCase()`, with upper-casing of ASCII letters. */
  function Normalize(value: string): string {
    if value == "" then ""
    else
      var c := value[0];
      (if c == '=' then "" else if 'a' <= c <= 'z' then [(c as int - 32) as char] else [c]) + Normalize(value[1..])
  }

  datatype DecodeError = CharacterOutsideAlphabet

  function Decode(value: string): Result<seq<Byte>, DecodeError> {
    var text := Normalize(value);
    if InAlphabet(text) then Ok(GroupEight(DigitsToBits(Digits(text)))) else Err(CharacterOutsideAlphabet)
  }

  // ----- round trips -----

  lemma {:induction false} BitLengths(bytes: seq<Byte>, digits: seq<Digit>)
    ensures |BytesToBits(bytes)| == 8 * |bytes|
    ensures |DigitsToBits(digits)| == 5 * |digits|
    decreases |bytes| + |digits|
  {
    if bytes != [] {
      BitLengths(bytes[..|bytes| - 1], digits);
    } else if digits != [] {
      BitLengths(bytes, digits[..|digits| - 1]);
    }
  }

  lemma BytesToBitsSnoc(a: seq<Byte>, x: Byte)
    ensures BytesToBits(a + [x]) == BytesToBits(a) + ToBits(x, 8)
  {
    hide ToBits;
    assert (a + [x])[..|a|] == a;
  }

  lemma BytesToBitsEmpty(a: seq<Byte>)
    ensures BytesToBits([]) == [] && BytesToBits(a + []) == BytesToBits(a) + []
  {
    assert a + [] == a;
  }

  lemma {:induction false} BytesToBitsAppend(a: seq<Byte>, b: seq<Byte>)
    ensures BytesToBits(a + b) == BytesToBits(a) + BytesToBits(b)
  {
    hide ToBits, BytesToBits;
    if b == [] {
      BytesToBitsEmpty(a);
    } else {
      var n := |b| - 1;
      var init, last := b[..n], b[n];
      BytesToBitsAppend(a, init);
      assert b == init + [last] && a + b == (a + init) + [last];
      BytesToBitsSnoc(a + init, last);
      BytesToBitsSnoc(init, last);
      Regroup(BytesToBits(a), BytesToBits(init), ToBits(last, 8));
    }
  }

  lemma DigitsToBitsSnoc(a: seq<Digit>, x: Digit)
    ensures DigitsToBits(a + [x]) == DigitsToBits(a) + ToBits(x, 5)
  {
    hide ToBits;
    assert (a + [x])[..|a|] == a;
  }

  lemma DigitsToBitsEmpty(a: seq<Digit>)
    ensures DigitsToBits([]) == [] && DigitsToBits(a + []) == DigitsToBits(a) + []
  {
    assert a + [] == a;
  }

  lemma {:induction false} DigitsToBitsAppend(a: seq<Digit>, b: seq<Digit>)
    ensures DigitsToBits(a + b) == DigitsToBits(a) + DigitsToBits(b)
  {
    hide ToBits, DigitsToBits;
    if b == [] {
      DigitsToBitsEmpty(a);
    } else {
      var n := |b| - 1;
      var init, last := b[..n], b[n];
      DigitsToBitsAppend(a, init);
      assert b == init + [last] && a + b == (a + init) + [last];
      DigitsToBitsSnoc(a + init, last);
      DigitsToBitsSnoc(init, last);
      Regroup(DigitsToBits(a), DigitsToBits(init), ToBits(last, 5));
    }
  }

  function Fill(bits: Bits): nat {
    (5 - |bits| % 5) % 5
  }

  lemma OneDigit(d: Digit)
    ensures DigitsToBits([d]) == ToBits(d, 5)
  {
    assert DigitsToBits([d]) == DigitsToBits([]) + ToBits(d, 5);
  }

  lemma ShortGroupKeepsBits(bits: Bits)
    requires 0 < |bits| < 5
    ensures DigitsToBits(GroupFive(bits)) == bits + Zeros(5 - |bits|)
    ensures |GroupFive(bits)| == 1
  {
    hide FromBits, ToBits, DigitsToBits;
    var group := bits + Zeros(5 - |bits|);
    FromBitsRange(group);
    assert GroupFive(bits) == [FromBits(group)];
    OneDigit(FromBits(group));
    ToFromBits(group);
  }

  lemma LongGroupKeepsBits(bits: Bits)
    requires |bits| >= 5
    ensures DigitsToBits(GroupFive(bits)) == bits[..5] + DigitsToBits(GroupFive(bits[5..]))
    ensures |GroupFive(bits)| == 1 + |GroupFive(bits[5..])|
  {
    hide FromBits, ToBits, DigitsToBits;
    FromBitsRange(bits[..5]);
    DigitsToBitsAppend([FromBits(bits[..5])], GroupFive(bits[5..]));
    OneDigit(FromBits(bits[..5]));
    ToFromBits(bits[..5]);
  }

  lemma FillOfTail(bits: Bits)
    requires |bits| >= 5
    ensures Fill(bits[5..]) == Fill(bits)
    ensures (|bits| + 4) / 5 == 1 + (|bits[5..]| + 4) / 5
  {
  }

  lemma FewBitsKept(bits: Bits)
    requires |bits| < 5
    ensures DigitsToBits(GroupFive(bits)) == bits + Zeros(Fill(bits))
    ensures |GroupFive(bits)| == (|bits| + 4) / 5
  {
    if bits == [] {
      assert GroupFive(bits) == [] && Zeros(0) == [];
    } else {
      ShortGroupKeepsBits(bits);
      hide GroupFive, DigitsToBits;
      assert (|bits| + 4) / 5 == 1;
    }
  }

  /** The digits carry the bits and nothing but zeros behind them. */
  lemma {:induction false} GroupFiveKeepsBits(bits: Bits)
    ensures DigitsToBits(GroupFive(bits)) == bits + Zeros(Fill(bits))
    ensures |GroupFive(bits)| == (|bits| + 4) / 5
  {
    hide GroupFive, DigitsToBits, Fill, Zeros;
    if |bits| < 5 {
      FewBitsKept(bits);
    } else {
      FillOfTail(bits);
      LongGroupKeepsBits(bits);
      GroupFiveKeepsBits(bits[5..]);
      assert bits == bits[..5] + bits[5..];
      Regroup(bits[..5], bits[5..], Zeros(Fill(bits)));
    }
  }

  /** Cutting the bits of bytes into groups of eight gives the bytes back, whatever short rest follows. */
  lemma {:induction false} GroupEightOfBytes(bytes: seq<Byte>, rest: Bits)
    requires |rest| < 8
    ensures GroupEight(BytesToBits(bytes) + rest) == bytes
  {
    if bytes == [] {
      assert BytesToBits(bytes) + rest == rest;
    } else {
      hide GroupEight, BytesToBits, ToBits;
      var head, tail := [bytes[0]], bytes[1..];
      assert bytes == head + tail;
      BytesToBitsAppend(head, tail);
      BitsOfByte(bytes[0]);
      Regroup(ToBits(bytes[0], 8), BytesToBits(tail), rest);
      GroupEightTakes(bytes[0], BytesToBits(tail) + rest);
      GroupEightOfBytes(tail, rest);
    }
  }

  lemma BitsOfByte(b: Byte)
    ensures BytesToBits([b]) == ToBits(b, 8)
  {
    hide ToBits;
    assert BytesToBits([b]) == BytesToBits([]) + ToBits(b, 8);
  }

  lemma GroupEightTakes(b: Byte, rest: Bits)
    ensures GroupEight(ToBits(b, 8) + rest) == [b] + GroupEight(rest)
  {
    var bits := ToBits(b, 8) + rest;
    assert bits[..8] == ToBits(b, 8) && bits[8..] == rest;
    assert Pow2(8) == 256;
    FromToBits(b, 8);
    hide FromBits, ToBits;
  }

  lemma LettersReadBack(digits: seq<Digit>)
    ensures InAlphabet(Letters(digits)) && Digits(Letters(digits)) == digits
  {
    forall i | 0 <= i < |digits|
      ensures IndexOf(ALPHABET[digits[i]]) == digits[i]
    {
      LetterReadBack(digits[i]);
    }
  }

  lemma LetterReadBack(d: Digit)
    ensures IndexOf(ALPHABET[d]) == d
  {
    assert ALPHABET[..26] == "ABCDEFGHIJKLMNOPQRSTUVWXYZ";
  }

  lemma {:induction false} AlphabetIsNormal(text: string)
    requires InAlphabet(text)
    ensures Normalize(text) == text
  {
    if text != "" {
      assert forall i | 0 <= i < |text[1..]| :: text[1..][i] == text[i + 1];
      AlphabetIsNormal(text[1..]);
      assert IndexOf(text[0]) >= 0;
    }
  }

  /** Decoding undoes encoding for byte strings of every length. */
  lemma RoundTrip(bytes: seq<Byte>)
    ensures Decode(Encode(bytes)) == Ok(bytes)
    ensures |Encode(bytes)| == (8 * |bytes| + 4) / 5
  {
    var bits := BytesToBits(bytes);
    var digits := GroupFive(bits);
    BitLengths(bytes, []);
    GroupFiveKeepsBits(bits);
    LettersReadBack(digits);
    AlphabetIsNormal(Letters(digits));
    GroupEightOfBytes(bytes, Zeros(Fill(bits)));
  }

  lemma ByteOfBits(head: Bits)
    requires |head| == 8
    ensures FromBits(head) < 256 && BytesToBits([FromBits(head)]) == head
  {
    FromBitsRange(head);
    ToFromBits(head);
    hide FromBits, ToBits;
    assert BytesToBits([FromBits(head)]) == BytesToBits([]) + ToBits(FromBits(head), 8);
  }

  lemma {:induction false} GroupEightKeepsBits(bits: Bits)
    ensures BytesToBits(GroupEight(bits)) == bits[..|bits| - |bits| % 8]
  {
    if |bits| >= 8 {
      hide FromBits, ToBits;
      var head, tail := bits[..8], bits[8..];
      ByteOfBits(head);
      assert GroupEight(bits) == [FromBits(head)] + GroupEight(tail);
      hide GroupEight, BytesToBits;
      GroupEightKeepsBits(tail);
      BytesToBitsAppend([FromBits(head)], GroupEight(tail));
      CutOneByte(bits);
    }
  }

  lemma CutOneByte(bits: Bits)
    requires |bits| >= 8
    ensures var tail := bits[8..]; bits[..|bits| - |bits| % 8] == bits[..8] + tail[..|tail| - |tail| % 8]
  {
    var tail, n := bits[8..], |bits| - |bits| % 8;
    assert |tail| - |tail| % 8 == n - 8;
    assert bits[..n] == bits[..8] + tail[..n - 8];
  }

  lemma LastDigit(a: seq<Digit>)
    requires a != []
    ensures var n := |a| - 1; var bits := DigitsToBits(a);
      |bits| == 5 * n + 5 && bits[..5 * n] == DigitsToBits(a[..n]) && bits[5 * n..] == ToBits(a[n], 5)
  {
    BitLengths([], a[..|a| - 1]);
  }

  lemma {:induction false} DigitsToBitsInjective(a: seq<Digit>, b: seq<Digit>)
    requires DigitsToBits(a) == DigitsToBits(b)
    ensures a == b
  {
    BitLengths([], a);
    BitLengths([], b);
    hide DigitsToBits, ToBits, FromBits;
    if a != [] {
      var n := |a| - 1;
      LastDigit(a);
      LastDigit(b);
      DigitsToBitsInjective(a[..n], b[..n]);
      SameDigit(a[n], b[n]);
      assert a == a[..n] + [a[n]] && b == b[..n] + [b[n]];
    }
  }

  lemma SameDigit(x: Digit, y: Digit)
    requires ToBits(x, 5) == ToBits(y, 5)
    ensures x == y
  {
    hide ToBits, FromBits;
    assert Pow2(5) == 32;
    FromToBits(x, 5);
    FromToBits(y, 5);
  }

  /** Which texts are the encoding of something: fewer than five bits are left over, and they are zero. */
  predicate Canonical(text: string)
    requires InAlphabet(text)
  {
    var bits := DigitsToBits(Digits(text));
    var rest := |bits| % 8;
    rest < 5 && forall i | |bits| - rest <= i < |bits| :: !bits[i]
  }

  lemma KeptBitsDetermineRest(bits: Bits)
    requires |bits| % 5 == 0
    ensures var rest := |bits| % 8; var kept := bits[..|bits| - rest];
      kept + Zeros(Fill(kept)) == bits <==> rest < 5 && forall i | |bits| - rest <= i < |bits| :: !bits[i]
  {
    var rest := |bits| % 8;
    var kept := bits[..|bits| - rest];
    FillOfKept(|bits|);
    assert bits == kept + bits[|bits| - rest..];
    if kept + Zeros(Fill(kept)) == bits {
      assert bits[|bits| - rest..] == Zeros(Fill(kept));
      assert forall i | |kept| <= i < |bits| :: bits[i] == bits[|bits| - rest..][i - |kept|];
    }
    if rest < 5 && forall i | |bits| - rest <= i < |bits| :: !bits[i] {
      assert bits[|bits| - rest..] == Zeros(rest);
    }
  }

  lemma FillOfKept(n: nat)
    requires n % 5 == 0
    ensures n % 8 < 5 ==> (5 - (n - n % 8) % 5) % 5 == n % 8
  {
    MultipleLess(n / 5, n % 8);
  }

  lemma MultipleLess(a: int, r: int)
    ensures 0 < r < 5 ==> (5 * a - r) % 5 == 5 - r
    ensures r == 0 ==> (5 * a - r) % 5 == 0
  {
    if 0 < r < 5 {
      assert 5 * a - r == 5 * (a - 1) + (5 - r);
    }
  }

  /** Encoding undoes decoding exactly on canonical texts; the decoder also accepts other spellings. */
  lemma ReencodesExactly(text: string)
    requires InAlphabet(text)
    ensures Decode(text).Ok? && (Encode(Decode(text).value) == text <==> Canonical(text))
  {
    hide FromBits, ToBits, GroupEight, GroupFive, DigitsToBits, BytesToBits, Letters, Digits, Fill, Normalize;
    AlphabetIsNormal(text);
    var digits := Digits(text);
    var bits := DigitsToBits(digits);
    var bytes := GroupEight(bits);
    var kept := bits[..|bits| - |bits| % 8];
    GroupEightKeepsBits(bits);
    BitLengths(bytes, digits);
    GroupFiveKeepsBits(kept);
    if DigitsToBits(GroupFive(kept)) == bits {
      DigitsToBitsInjective(GroupFive(kept), digits);
    }
    LettersInjective(GroupFive(kept), text);
    KeptBitsDetermineRest(bits);
  }

  lemma LettersInjective(digits: seq<Digit>, text: string)
    requires InAlphabet(text)
    ensures Letters(digits) == text <==> digits == Digits(text)
  {
    LettersReadBack(digits);
    if digits == Digits(text) {
      forall i | 0 <= i < |text|
        ensures ALPHABET[IndexOf(text[i])] == text[i]
      {
        LetterOfIndex(text[i]);
      }
    }
  }

  lemma LetterOfIndex(c: char)
    requires IndexOf(c) >= 0
    ensures ALPHABET[IndexOf(c)] == c
  {
  }

  /** The alphabet of RFC 4648 section 6. */
  lemma StandardAlphabet(d: Digit)
    ensures ALPHABET[d] == if d < 26 then ('A' as int + d) as char else ('2' as int + d - 26) as char
  {
  }
}
