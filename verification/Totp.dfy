/** Time-based one-time passwords (RFC 4226, RFC 6238): the counter, the truncation of the digest, and the code. */
module Totp {
  import opened Text
  import opened Base32
  import opened Arithmetic
  import opened Base32Codec

  const PERIOD_MS := 30_000

  /** `Math.floor(now.getTime() / 1_000 / PERIOD_SECONDS)`, with `now` in milliseconds. */
  function Counter(now: int): int {
    now / PERIOD_MS
  }

  // ----- codes -----

  type Digest = d: seq<Byte> | |d| == 20 witness seq(20, i => 0)

  type Hmac = (seq<Byte>, seq<Byte>) -> Digest

  /** `counterBytes`: the 64-bit two's complement, most significant byte first. */
  function CounterBytes(counter: int): seq<Byte> {
    BigEndian(counter % 0x1_0000_0000_0000_0000, 8)
  }

  function BigEndian(n: nat, width: nat): (bytes: seq<Byte>)
    ensures |bytes| == width
  {
    if width == 0 then [] else BigEndian(n / 256, width - 1) + [n % 256]
  }

  function Offset(digest: Digest): (offset: nat)
    ensures offset + 4 <= |digest|
  {
    digest[|digest| - 1] % 16
  }

  /** `(d & 127) << 24 | d' << 16 | d'' << 8 | d'''`; the four parts share no bit. */
  function Truncate(digest: Digest): int {
    var offset := Offset(digest);
    Shl(digest[offset] % 128, 24) + Shl(digest[offset + 1], 16) + Shl(digest[offset + 2], 8) + digest[offset + 3]
  }

  function PadStart(text: string, width: nat): string
    decreases width - |text|
  {
    if |text| >= width then text else PadStart("0" + text, width)
  }

  function Code(digest: Digest): string {
    PadStart(Decimal(Truncate(digest) % 1_000_000), 6)
  }

  predicate IsDigit(c: char) {
    '0' <= c <= '9'
  }

  predicate Numeral(text: string) {
    forall i | 0 <= i < |text| :: IsDigit(text[i])
  }

  /** `/^\d{6}$/` */
  predicate SixDigits(code: string) {
    |code| == 6 && Numeral(code)
  }

  function DigitValue(c: char): (d: nat)
    requires IsDigit(c)
  {
    c as int - '0' as int
  }

  /** The number that a string of decimal digits denotes. */
  function Denotes(text: string): nat
    requires Numeral(text)
  {
    if text == "" then 0
    else
      assert IsDigit(text[|text| - 1]) && Numeral(text[..|text| - 1]);
      10 * Denotes(text[..|text| - 1]) + DigitValue(text[|text| - 1])
  }

  lemma {:induction false} DecimalDenotes(n: nat)
    ensures Numeral(Decimal(n)) && Denotes(Decimal(n)) == n
  {
    var text := Decimal(n);
    assert forall i | 0 <= i < |text| :: text[i] in text;
    DigitDenotes(n % 10);
    hide Text.Digit, DigitValue;
    if n >= 10 {
      DecimalDenotes(n / 10);
      assert text[..|text| - 1] == Decimal(n / 10);
    } else {
      assert text[..|text| - 1] == "";
    }
  }

  lemma DigitDenotes(d: nat)
    requires d < 10
    ensures IsDigit(Text.Digit(d)) && DigitValue(Text.Digit(d)) == d
  {
  }

  lemma {:induction false} LeadingZero(text: string)
    requires Numeral(text)
    ensures Numeral("0" + text) && Denotes("0" + text) == Denotes(text)
  {
    if text == "" {
      assert ("0" + text)[..|"0" + text| - 1] == "";
    } else {
      LeadingZero(text[..|text| - 1]);
      assert ("0" + text)[..|"0" + text| - 1] == "0" + text[..|text| - 1];
    }
  }

  lemma {:induction false} PadKeepsNumber(text: string, width: nat)
    requires Numeral(text)
    ensures var padded := PadStart(text, width);
      && |padded| == (if |text| >= width then |text| else width)
      && Numeral(padded) && Denotes(padded) == Denotes(text)
    decreases width - |text|
  {
    if |text| < width {
      LeadingZero(text);
      PadKeepsNumber("0" + text, width);
    }
  }

  lemma {:induction false} DecimalLength(n: nat, width: nat)
    requires n < Pow10(width) && width > 0
    ensures |Decimal(n)| <= width
  {
    if n >= 10 {
      DecimalLength(n / 10, width - 1);
    }
  }

  function Pow10(n: nat): nat {
    if n == 0 then 1 else 10 * Pow10(n - 1)
  }

  /** A code is always six digits long and denotes the truncated digest modulo a million. */
  lemma CodeIsSixDigits(digest: Digest)
    ensures SixDigits(Code(digest))
    ensures Denotes(Code(digest)) == Truncate(digest) % 1_000_000
  {
    var n := Truncate(digest) % 1_000_000;
    assert Pow10(6) == 1_000_000;
    hide Truncate, PadStart, Decimal, Denotes, Pow10, Numeral;
    DecimalLength(n, 6);
    DecimalDenotes(n);
    PadKeepsNumber(Decimal(n), 6);
  }

  // ----- truncation against the bit string of the standard -----

  lemma {:induction false} LowBits(n: nat, width: nat)
    ensures FromBits(ToBits(n, width)) == n % Pow2(width)
  {
    if width > 0 {
      LowBits(n / 2, width - 1);
      assert ToBits(n, width)[..width - 1] == ToBits(n / 2, width - 1);
      var p := Pow2(width - 1);
      var q, r := (n / 2) / p, (n / 2) % p;
      Euclid(n / 2, p);
      Regroups(q, 2, p);
      assert n == q * (2 * p) + (2 * r + n % 2);
      IsUnique(n, 2 * p, q, 2 * r + n % 2);
    }
  }

  lemma {:induction false} DropHighBit(n: nat, width: nat)
    ensures ToBits(n, width + 1)[1..] == ToBits(n, width)
  {
    if width > 0 {
      DropHighBit(n / 2, width - 1);
      assert ToBits(n, width + 1)[1..] == ToBits(n / 2, width)[1..] + [n % 2 == 1];
    }
  }

  lemma FourBytes(b: seq<Byte>)
    requires |b| == 4
    ensures BytesToBits(b) == ((ToBits(b[0], 8) + ToBits(b[1], 8)) + ToBits(b[2], 8)) + ToBits(b[3], 8)
  {
    hide ToBits;
    assert b[..3][..2][..1] == [b[0]] && [b[0]][..0] == [];
    assert b[..3][..2] == [b[0], b[1]] && b[..3] == [b[0], b[1], b[2]];
    BytesToBitsSnoc([], b[0]);
    BytesToBitsSnoc([b[0]], b[1]);
    BytesToBitsSnoc([b[0], b[1]], b[2]);
    BytesToBitsSnoc([b[0], b[1], b[2]], b[3]);
    assert [] + [b[0]] == [b[0]] && [b[0]] + [b[1]] == [b[0], b[1]];
    assert [b[0], b[1]] + [b[2]] == [b[0], b[1], b[2]] && [b[0], b[1], b[2]] + [b[3]] == b;
  }

  lemma DropOne(a: Bits, b: Bits, c: Bits, d: Bits)
    requires |a| > 0
    ensures (((a + b) + c) + d)[1..] == ((a[1..] + b) + c) + d
  {
  }

  /** The result is the string of 31 bits that RFC 4226 section 5.3 names: the four bytes at the offset
      without their first bit. No byte outside the digest is read. */
  lemma TruncationFollowsStandard(digest: Digest)
    ensures var offset := Offset(digest);
      Truncate(digest) == FromBits(BytesToBits(digest[offset..offset + 4])[1..])
    ensures 0 <= Truncate(digest) < 0x8000_0000
  {
    var b := digest[Offset(digest)..Offset(digest) + 4];
    ShiftsOfBytes(b[0] % 128, b[1], b[2]);
    FourBytes(b);
    ThirtyOneBits(b[0], b[1], b[2], b[3]);
  }

  lemma ShiftsOfBytes(a: nat, b: Byte, c: Byte)
    requires a < 128
    ensures Shl(a, 24) == a * 0x100_0000 && Shl(b, 16) == b * 0x1_0000 && Shl(c, 8) == c * 0x100
  {
    assert Pow2(8) == 256;
    Pow2Add(8, 8);
    Pow2Add(8, 16);
  }

  lemma ThirtyOneBits(b0: Byte, b1: Byte, b2: Byte, b3: Byte)
    ensures FromBits((((ToBits(b0, 8) + ToBits(b1, 8)) + ToBits(b2, 8)) + ToBits(b3, 8))[1..])
      == (b0 % 128) * 0x100_0000 + b1 * 0x1_0000 + b2 * 0x100 + b3
  {
    assert Pow2(7) == 128 && Pow2(8) == 256;
    DropHighBit(b0, 7);
    LowBits(b0, 7);
    FromToBits(b1, 8);
    FromToBits(b2, 8);
    FromToBits(b3, 8);
    hide ToBits, FromBits, Pow2;
    DropOne(ToBits(b0, 8), ToBits(b1, 8), ToBits(b2, 8), ToBits(b3, 8));
    FromBitsAppend(ToBits(b0, 7), ToBits(b1, 8));
    FromBitsAppend(ToBits(b0, 7) + ToBits(b1, 8), ToBits(b2, 8));
    FromBitsAppend((ToBits(b0, 7) + ToBits(b1, 8)) + ToBits(b2, 8), ToBits(b3, 8));
  }

  // ----- the message of the standard -----

  lemma {:induction false} BigEndianDenotes(n: nat, width: nat)
    ensures FromBits(BytesToBits(BigEndian(n, width))) == n % Pow2(8 * width)
  {
    if width > 0 {
      var front, last := BigEndian(n / 256, width - 1), n % 256;
      BigEndianDenotes(n / 256, width - 1);
      hide FromBits, BytesToBits, ToBits, Pow2;
      OneMoreByte(front, last);
      Widened(n, width);
    }
  }

  lemma OneMoreByte(front: seq<Byte>, last: Byte)
    ensures FromBits(BytesToBits(front + [last])) == FromBits(BytesToBits(front)) * 256 + last
  {
    assert Pow2(8) == 256;
    hide BytesToBits, ToBits, FromBits;
    BytesToBitsSnoc(front, last);
    FromToBits(last, 8);
    FromBitsAppend(BytesToBits(front), ToBits(last, 8));
  }

  lemma Widened(n: nat, width: nat)
    requires width > 0
    ensures n % Pow2(8 * width) == ((n / 256) % Pow2(8 * (width - 1))) * 256 + n % 256
  {
    assert Pow2(8) == 256;
    hide Pow2;
    var p := Pow2(8 * (width - 1));
    Pow2Add(8 * (width - 1), 8);
    var q, r := (n / 256) / p, (n / 256) % p;
    Euclid(n / 256, p);
    Regroups(q, 256, p);
    Distributes(q * p, -r, 256);
    IsUnique(n, p * 256, q, r * 256 + n % 256);
  }

  const TWO_TO_THE_64 := 0x1_0000_0000_0000_0000

  /** The bytes that are fed to the digest denote the counter, most significant bit first (RFC 4226 section 5.1). */
  lemma CounterBytesDenote(counter: int)
    ensures |CounterBytes(counter)| == 8
    ensures FromBits(BytesToBits(CounterBytes(counter))) == counter % TWO_TO_THE_64
  {
    hide BigEndian, FromBits, BytesToBits, Pow2;
    BigEndianDenotes(counter % TWO_TO_THE_64, 8);
    SixtyFourBits();
  }

  lemma SixtyFourBits()
    ensures Pow2(64) == TWO_TO_THE_64
  {
    assert Pow2(8) == 256;
    hide Pow2;
    Pow2Add(8, 8);
    assert Pow2(16) == 0x1_0000;
    Pow2Add(16, 16);
    assert Pow2(32) == 0x1_0000_0000;
    Pow2Add(32, 32);
  }

  lemma {:induction false} BytesToBitsInjective(a: seq<Byte>, b: seq<Byte>)
    requires |a| == |b| && BytesToBits(a) == BytesToBits(b)
    ensures a == b
  {
    if a != [] {
      var n := |a| - 1;
      BitLengths(a[..n], []);
      BitLengths(b[..n], []);
      var x, y := BytesToBits(a[..n]), BytesToBits(b[..n]);
      assert BytesToBits(a) == x + ToBits(a[n], 8) && BytesToBits(b) == y + ToBits(b[n], 8);
      assert (x + ToBits(a[n], 8))[..|x|] == x && (y + ToBits(b[n], 8))[..|y|] == y;
      assert (x + ToBits(a[n], 8))[|x|..] == ToBits(a[n], 8) && (y + ToBits(b[n], 8))[|y|..] == ToBits(b[n], 8);
      BytesToBitsInjective(a[..n], b[..n]);
      assert Pow2(8) == 256;
      FromToBits(a[n], 8);
      FromToBits(b[n], 8);
      assert a == a[..n] + [a[n]] && b == b[..n] + [b[n]];
    }
  }

  /** No other message of eight bytes denotes the same number. */
  lemma OneMessage(a: seq<Byte>, b: seq<Byte>)
    requires |a| == |b| == 8 && FromBits(BytesToBits(a)) == FromBits(BytesToBits(b))
    ensures a == b
  {
    BitLengths(a, []);
    BitLengths(b, []);
    ToFromBits(BytesToBits(a));
    ToFromBits(BytesToBits(b));
    BytesToBitsInjective(a, b);
  }

  lemma {:induction false} DenotesInjective(a: string, b: string)
    requires |a| == |b| && Numeral(a) && Numeral(b) && Denotes(a) == Denotes(b)
    ensures a == b
  {
    if a != "" {
      var n := |a| - 1;
      assert IsDigit(a[n]) && IsDigit(b[n]);
      var x, y := DigitValue(a[n]), DigitValue(b[n]);
      assert Denotes(a) == 10 * Denotes(a[..n]) + x && Denotes(b) == 10 * Denotes(b[..n]) + y;
      assert x < 10 && y < 10;
      hide Denotes;
      DenotesInjective(a[..n], b[..n]);
      assert a == a[..n] + [a[n]] && b == b[..n] + [b[n]];
    }
  }

  /** The one-time password of RFC 4226 section 5.3 for the key and the counter: six digits that denote, modulo a
      million, the 31 bits which the last half byte of the digest points to. */
  ghost predicate ShowsCode(hmac: Hmac, key: seq<Byte>, counter: int, code: string) {
    exists message: seq<Byte> | |message| == 8 ::
      && FromBits(BytesToBits(message)) == counter % TWO_TO_THE_64
      && ShowsDigest(hmac(key, message), code)
  }

  predicate ShowsDigest(digest: Digest, code: string) {
    var offset := digest[19] % 16;
    SixDigits(code) && Denotes(code) == FromBits(BytesToBits(digest[offset..offset + 4])[1..]) % 1_000_000
  }

  lemma CodeShowsDigest(digest: Digest, code: string)
    ensures ShowsDigest(digest, code) <==> code == Code(digest)
  {
    CodeIsSixDigits(digest);
    TruncationFollowsStandard(digest);
    hide Truncate, Denotes, FromBits, BytesToBits, Code, Numeral;
    if ShowsDigest(digest, code) {
      DenotesInjective(code, Code(digest));
    }
  }

  /** The program computes that password. */
  lemma CodeFollowsStandard(hmac: Hmac, key: seq<Byte>, counter: int, code: string)
    ensures ShowsCode(hmac, key, counter, code) <==> code == Code(hmac(key, CounterBytes(counter)))
  {
    CounterBytesDenote(counter);
    var message := CounterBytes(counter);
    CodeShowsDigest(hmac(key, message), code);
    hide CounterBytes, FromBits, BytesToBits, Code, ShowsDigest;
    if ShowsCode(hmac, key, counter, code) {
      var other: seq<Byte> :| |other| == 8 && FromBits(BytesToBits(other)) == counter % TWO_TO_THE_64
        && ShowsDigest(hmac(key, other), code);
      OneMessage(message, other);
    }
  }

  /** The counter numbers the periods of thirty seconds since 1970; a window of two holds the current one and the one
      before (RFC 6238 section 5.2). */
  lemma WindowOfTwo(now: int, c: int)
    ensures Counter(now) - 1 <= c <= Counter(now) <==> c * 30_000 <= now < (c + 2) * 30_000
  {
  }

  /** The example of RFC 4226 section 5.4: the bytes 50 ef 7f 19 at the offset ten. */
  lemma StandardExample(digest: Digest)
    requires digest[19] == 0x5a
    requires digest[10] == 0x50 && digest[11] == 0xef && digest[12] == 0x7f && digest[13] == 0x19
    ensures Code(digest) == "872921"
  {
    assert Truncate(digest) == 1_357_872_921 by {
      ShiftsOfBytes(0x50, 0xef, 0x7f);
      hide Shl;
    }
    hide Truncate, PadStart, Decimal;
    DecimalOfExample();
    PadKeepsSix("872921");
  }

  lemma PadKeepsSix(text: string)
    requires |text| == 6
    ensures PadStart(text, 6) == text
  {
  }

  lemma DecimalOfExample()
    ensures Decimal(872_921) == "872921"
  {
    assert Decimal(872) == "872";
    assert Decimal(8_729) == "872" + "9";
    assert Decimal(87_292) == "8729" + "2";
    assert Decimal(872_921) == "87292" + "1";
  }
}
