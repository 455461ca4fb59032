/** The loops of `base32Encode` and `base32Decode` on a 32-bit accumulator. */
module Base32Codec {
  import opened Wrappers
  import opened Text
  import opened Base32
  import opened Arithmetic

  const WORD := 0x1_0000_0000

  /** The bit pattern of a JavaScript int32. */
  type Word = w: int | 0 <= w < WORD

  // ----- JavaScript operators on bit patterns -----

  /** `x << k` */
  function Shl(x: Word, k: nat): Word {
    (x * Pow2(k)) % WORD
  }

  /** `x >>> k` */
  function Ushr(x: Word, k: nat): int {
    x / Pow2(k)
  }

  /** `(x << k) | low` where `low` fits into the bits that the shift cleared. */
  function ShlOr(x: Word, k: nat, low: nat): (r: Word)
    requires k <= 8 && low < Pow2(k)
  {
    ShlLeavesRoom(x, k);
    Shl(x, k) + low
  }

  lemma Pow2Word()
    ensures Pow2(32) == WORD
  {
    assert Pow2(8) == 256;
    Pow2Add(8, 8);
    Pow2Add(16, 16);
  }

  /** How often 2^(bits + k) divides the word. */
  lemma WordSplits(bits: nat, k: nat) returns (rest: nat)
    requires bits + k <= 32
    ensures (Pow2(bits) * Pow2(k)) * rest == WORD
  {
    rest := Pow2(32 - bits - k);
    Pow2Word();
    Pow2Add(bits, k);
    Pow2Add(bits + k, 32 - bits - k);
  }

  /** The live bits are shifted intact although the accumulator overflows. */
  lemma LiveBitsShift(x: Word, k: nat, low: nat, bits: nat)
    requires bits + k <= 32 && low < Pow2(k)
    ensures (Shl(x, k) + low) % Pow2(bits + k) == (x % Pow2(bits)) * Pow2(k) + low
  {
    var rest := WordSplits(bits, k);
    Pow2Add(bits, k);
    ShiftedResidue(x, Pow2(bits), Pow2(k), rest, WORD, low);
  }

  lemma ShlLeavesRoom(x: Word, k: nat)
    requires k <= 8
    ensures Shl(x, k) + Pow2(k) <= WORD
  {
    var rest := WordSplits(0, k);
    LiveBitsShift(x, k, 0, 0);
    Regroups(Pow2(k), rest, 1);
    RoomAbove(Shl(x, k), rest, Pow2(k));
  }

  /** Reading the topmost of the live bits. */
  lemma LiveBitsSplit(x: Word, take: nat, rest: nat, high: nat, low: nat)
    requires x % Pow2(take + rest) == high * Pow2(rest) + low
    requires high < Pow2(take) && low < Pow2(rest)
    ensures Ushr(x, rest) % Pow2(take) == high
    ensures x % Pow2(rest) == low
  {
    Pow2Add(take, rest);
    UpperResidue(x, Pow2(take), Pow2(rest), high, low);
  }

  // ----- what the loops keep -----

  /** The last bits of the accumulator are the pending bits. */
  ghost predicate Live(x: Word, bits: nat, pending: Bits) {
    |pending| == bits && x % Pow2(bits) == FromBits(pending)
  }

  lemma PushLive(x: Word, bits: nat, pending: Bits, k: nat, low: nat)
    requires Live(x, bits, pending) && bits <= 7 && k <= 8 && low < Pow2(k)
    ensures Live(ShlOr(x, k, low), bits + k, pending + ToBits(low, k))
  {
    hide FromBits, ToBits, Pow2, Shl;
    LiveBitsShift(x, k, low, bits);
    FromBitsAppend(pending, ToBits(low, k));
    FromToBits(low, k);
  }

  lemma PopLive(x: Word, bits: nat, pending: Bits, take: nat)
    requires Live(x, bits, pending) && take <= bits
    ensures Ushr(x, bits - take) % Pow2(take) == FromBits(pending[..take])
    ensures Live(x, bits - take, pending[take..])
  {
    hide FromBits, Pow2, Ushr;
    assert pending == pending[..take] + pending[take..];
    FromBitsAppend(pending[..take], pending[take..]);
    LiveBitsSplit(x, take, bits - take, FromBits(pending[..take]), FromBits(pending[take..]));
  }

  lemma FromZeros(n: nat)
    ensures FromBits(Zeros(n)) == 0
  {
    if n > 0 {
      FromZeros(n - 1);
      assert Zeros(n)[..n - 1] == Zeros(n - 1);
    }
  }

  lemma GroupFiveTakes(d: Digit, rest: Bits)
    ensures GroupFive(ToBits(d, 5) + rest) == [d] + GroupFive(rest)
  {
    var bits := ToBits(d, 5) + rest;
    assert bits[..5] == ToBits(d, 5) && bits[5..] == rest;
    assert Pow2(5) == 32;
    FromToBits(d, 5);
    hide FromBits, ToBits;
  }

  lemma {:induction false} GroupFiveOfDigits(digits: seq<Digit>, rest: Bits)
    requires |rest| < 5
    ensures GroupFive(DigitsToBits(digits) + rest) == digits + GroupFive(rest)
  {
    if digits == [] {
      assert DigitsToBits(digits) + rest == rest;
    } else {
      var d, tail := digits[0], digits[1..];
      assert digits == [d] + tail;
      DigitsToBitsAppend([d], tail);
      OneDigit(d);
      hide GroupFive, DigitsToBits, ToBits;
      assert DigitsToBits(digits) + rest == ToBits(d, 5) + (DigitsToBits(tail) + rest);
      GroupFiveTakes(d, DigitsToBits(tail) + rest);
      GroupFiveOfDigits(tail, rest);
      assert digits + GroupFive(rest) == [d] + (tail + GroupFive(rest));
    }
  }

  /** The digit above the other live bits is the first that is pending. */
  lemma NextDigit(value: Word, bits: nat, digits: seq<Digit>, pending: Bits)
    requires bits >= 5 && Live(value, bits, pending)
    ensures var digit := Ushr(value, bits - 5) % 32;
      && Live(value, bits - 5, pending[5..])
      && DigitsToBits(digits + [digit]) + pending[5..] == DigitsToBits(digits) + pending
  {
    hide FromBits, ToBits, Ushr;
    assert Pow2(5) == 32;
    PopLive(value, bits, pending, 5);
    var digit := Ushr(value, bits - 5) % 32;
    ToFromBits(pending[..5]);
    DigitsToBitsAppend(digits, [digit]);
    OneDigit(digit);
    assert pending == pending[..5] + pending[5..];
  }

  method Base32Encode(bytes: seq<Byte>) returns (output: string)
    ensures output == Encode(bytes)
  {
    hide FromBits, ToBits, GroupFive, ShlOr, Ushr;
    var bits: nat, value: Word := 0, 0;
    output := "";
    ghost var digits: seq<Digit>, pending: Bits := [], [];
    assert Live(value, bits, pending) by {
      FromZeros(0);
    }
    for i := 0 to |bytes|
      invariant bits < 5 && Live(value, bits, pending)
      invariant BytesToBits(bytes[..i]) == DigitsToBits(digits) + pending
      invariant output == Letters(digits)
    {
      var byte: nat := bytes[i];
      assert Pow2(8) == 256;
      PushLive(value, bits, pending, 8, byte);
      pending := pending + ToBits(byte, 8);
      value := ShlOr(value, 8, byte);
      bits := bits + 8;
      assert bytes[..i + 1][..i] == bytes[..i];
      while bits >= 5
        invariant Live(value, bits, pending)
        invariant BytesToBits(bytes[..i + 1]) == DigitsToBits(digits) + pending
        invariant output == Letters(digits)
      {
        NextDigit(value, bits, digits, pending);
        var digit := Ushr(value, bits - 5) % 32;
        output := output + [ALPHABET[digit]];
        digits, pending := digits + [digit], pending[5..];
        bits := bits - 5;
      }
    }
    assert bytes[..|bytes|] == bytes;
    GroupFiveOfDigits(digits, pending);
    if bits > 0 {
      ShortGroup(value, bits, pending);
      var digit := Shl(value, 5 - bits) % 32;
      output := output + [ALPHABET[digit]];
    } else {
      EmptyGroup(pending);
      assert digits + [] == digits;
    }
  }

  lemma EmptyGroup(pending: Bits)
    requires |pending| == 0
    ensures GroupFive(pending) == []
  {
  }

  lemma ShortGroup(value: Word, bits: nat, pending: Bits)
    requires 0 < bits < 5 && Live(value, bits, pending)
    ensures GroupFive(pending) == [Shl(value, 5 - bits) % 32]
  {
    var k := 5 - bits;
    LiveBitsShift(value, k, 0, bits);
    FromBitsAppend(pending, Zeros(k));
    FromZeros(k);
    assert Pow2(5) == 32;
    FromBitsRange(pending + Zeros(k));
  }

  /** One more character of the text. */
  lemma ReadDigit(text: string, i: nat)
    requires i < |text| && InAlphabet(text[..i]) && IndexOf(text[i]) >= 0
    ensures InAlphabet(text[..i + 1])
    ensures DigitsToBits(Digits(text[..i + 1])) == DigitsToBits(Digits(text[..i])) + ToBits(IndexOf(text[i]), 5)
  {
    hide ToBits, DigitsToBits;
    assert InAlphabet(text[..i + 1]);
    assert Digits(text[..i + 1]) == Digits(text[..i]) + [IndexOf(text[i])];
    DigitsToBitsAppend(Digits(text[..i]), [IndexOf(text[i])]);
    OneDigit(IndexOf(text[i]));
  }

  /** One more byte of the output. */
  lemma WriteByte(output: seq<Byte>, pending: Bits, byte: Byte)
    requires |pending| >= 8 && byte == FromBits(pending[..8])
    ensures BytesToBits(output) + pending == BytesToBits(output + [byte]) + pending[8..]
  {
    hide ToBits, FromBits, BytesToBits;
    ToFromBits(pending[..8]);
    BytesToBitsAppend(output, [byte]);
    BitsOfByte(byte);
    assert pending == pending[..8] + pending[8..];
    assert BytesToBits(output) + pending == (BytesToBits(output) + pending[..8]) + pending[8..];
  }

  method Base32Decode(value: string) returns (result: Result<seq<Byte>, DecodeError>)
    ensures result == Decode(value)
  {
    hide FromBits, ToBits, ShlOr, Ushr, GroupEight, Normalize, Digits, DigitsToBits, BytesToBits, Live, IndexOf;
    var text := Normalize(value);
    var bits: nat, buffer: Word := 0, 0;
    var output: seq<Byte> := [];
    ghost var pending: Bits := [];
    StartsEmpty();
    for i := 0 to |text|
      invariant InAlphabet(text[..i])
      invariant bits < 8 && |pending| == bits && Live(buffer, bits, pending)
      invariant DigitsToBits(Digits(text[..i])) == BytesToBits(output) + pending
    {
      var index := IndexOf(text[i]);
      if index < 0 {
        return Err(CharacterOutsideAlphabet);
      }
      assert Pow2(8) == 256;
      IndexIsDigit(text[i]);
      PushLive(buffer, bits, pending, 5, index);
      ReadDigit(text, i);
      assert (BytesToBits(output) + pending) + ToBits(index, 5) == BytesToBits(output) + (pending + ToBits(index, 5));
      pending := pending + ToBits(index, 5);
      buffer := ShlOr(buffer, 5, index);
      bits := bits + 5;
      if bits >= 8 {
        PopLive(buffer, bits, pending, 8);
        var byte := Ushr(buffer, bits - 8) % 256;
        WriteByte(output, pending, byte);
        output, pending := output + [byte], pending[8..];
        bits := bits - 8;
      }
    }
    assert text[..|text|] == text;
    GroupEightOfBytes(output, pending);
    result := Ok(output);
  }

  lemma StartsEmpty()
    ensures Live(0, 0, []) && DigitsToBits([]) == [] && BytesToBits([]) == []
    ensures Digits("") == []
  {
  }

  lemma IndexIsDigit(c: char)
    ensures IndexOf(c) < 32
  {
  }
}
