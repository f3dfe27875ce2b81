/** Base58 encoding and decoding of byte strings.

    A Go string is represented by the sequence of runes that ranging over it yields. */
module Base58 {
  import opened Wrappers
  import opened Bytes
  import opened Numerals

  datatype Error =
    | InvalidInput
    | UnsupportedEncoding
    | InvalidBase58Char
    | UnsupportedKeyType
    | InvalidKeyLength
    | LibraryError

  /** The digits, the capitals without I and O, and the small letters without l. */
  const ALPHABET: string := "123456789" + "ABCDEFGH" + "JKLMN" + "PQRSTUVWXYZ" + "abcdefghijk" + "mnopqrstuvwxyz"

  // ---- The alphabet ----

  /** First position of the byte `c` in `alphabet`, or -1. */
  function FirstIndex(alphabet: string, c: int): (r: int)
    ensures -1 <= r < |alphabet|
    ensures r >= 0 ==> alphabet[r] as int == c && forall k :: 0 <= k < r ==> alphabet[k] as int != c
    ensures r < 0 ==> forall k :: 0 <= k < |alphabet| ==> alphabet[k] as int != c
  {
    if |alphabet| == 0 then -1
    else if alphabet[0] as int == c then 0
    else
      var r := FirstIndex(alphabet[1..], c);
      if r < 0 then -1 else r + 1
  }

  method IndexOf(alphabet: string, c: int) returns (r: int)
    ensures r == FirstIndex(alphabet, c)
  {
    for i := 0 to |alphabet|
      invariant forall k :: 0 <= k < i ==> alphabet[k] as int != c
    {
      if alphabet[i] as int == c {
        return i;
      }
    }
    return -1;
  }

  /** The digit a rune stands for: only its low byte is looked up. */
  function CharDigit(c: char): int {
    FirstIndex(ALPHABET, c as int % 256)
  }

  function AlphabetChar(d: nat): char
    requires d < 58
  {
    if d < 9 then '1' + d as char
    else if d < 17 then 'A' + (d - 9) as char
    else if d < 22 then 'J' + (d - 17) as char
    else if d < 33 then 'P' + (d - 22) as char
    else if d < 44 then 'a' + (d - 33) as char
    else 'm' + (d - 44) as char
  }

  lemma AlphabetAt(d: nat)
    requires d < 58
    ensures |ALPHABET| == 58 && ALPHABET[d] == AlphabetChar(d)
  {
  }

  /** The alphabet is ASCII and has no repetitions, so looking up its characters inverts it. */
  lemma AlphabetRoundTrip(d: nat)
    requires d < 58
    ensures |ALPHABET| == 58 && ALPHABET[d] as int < 128 && CharDigit(ALPHABET[d]) == d
    ensures ALPHABET[d] == '1' <==> d == 0
  {
    AlphabetAt(d);
    var r := CharDigit(ALPHABET[d]);
    AlphabetAt(r);
  }

  /** The letters and digits without 0, I, O and l. */
  predicate IsBase58Char(c: char) {
    ('1' <= c <= '9' || 'A' <= c <= 'Z' || 'a' <= c <= 'z') && c != 'I' && c != 'O' && c != 'l'
  }

  lemma CharsAreOrdered(d: nat, e: nat)
    requires d < e < 58
    ensures AlphabetChar(d) < AlphabetChar(e) && IsBase58Char(AlphabetChar(d)) && IsBase58Char(AlphabetChar(e))
  {
  }

  lemma CharHasDigit(c: char) returns (d: nat)
    requires IsBase58Char(c)
    ensures d < 58 && AlphabetChar(d) == c
  {
    d := if c <= '9' then c as int - '1' as int
         else if c <= 'H' then c as int - 'A' as int + 9
         else if c <= 'N' then c as int - 'J' as int + 17
         else if c <= 'Z' then c as int - 'P' as int + 22
         else if c <= 'k' then c as int - 'a' as int + 33
         else c as int - 'm' as int + 44;
  }

  /** The alphabet is exactly those characters, in the order of ASCII. */
  lemma AlphabetIsOrdered(d: nat, e: nat, c: char)
    requires d < e < 58
    ensures ALPHABET[d] < ALPHABET[e] && IsBase58Char(ALPHABET[d]) && IsBase58Char(ALPHABET[e])
    ensures IsBase58Char(c) ==> c in ALPHABET
  {
    AlphabetAt(d);
    AlphabetAt(e);
    CharsAreOrdered(d, e);
    if IsBase58Char(c) {
      var f := CharHasDigit(c);
      AlphabetAt(f);
    }
  }

  // ---- Specification ----

  predicate InAlphabet(s: string) {
    forall i :: 0 <= i < |s| ==> s[i] in ALPHABET
  }

  predicate IsAscii(s: string) {
    forall i :: 0 <= i < |s| ==> s[i] as int < 128
  }

  predicate Decodable(s: string) {
    forall i :: 0 <= i < |s| ==> CharDigit(s[i]) >= 0
  }

  function DigitsOf(s: string): (digits: seq<nat>)
    requires Decodable(s)
    ensures |digits| == |s| && forall i :: 0 <= i < |s| ==> digits[i] == CharDigit(s[i])
  {
    seq(|s|, i requires 0 <= i < |s| => CharDigit(s[i]))
  }

  function CharsOf(digits: seq<nat>): (s: string)
    requires AreDigits(58, digits)
    ensures |s| == |digits| && forall i :: 0 <= i < |s| ==> s[i] == ALPHABET[digits[i]]
  {
    seq(|digits|, i requires 0 <= i < |digits| => ALPHABET[digits[i]])
  }

  function LeadingOnes(s: string): (k: nat)
    ensures k <= |s| && (forall i :: 0 <= i < k ==> s[i] == '1')
    ensures k < |s| ==> s[k] != '1'
  {
    if |s| == 0 || s[0] != '1' then 0 else 1 + LeadingOnes(s[1..])
  }

  function Ones(k: nat): string {
    seq(k, i => '1')
  }

  /** Bytes of a nonnegative number, most significant first and without leading zeros. */
  function BytesOf(n: nat): seq<Byte> {
    Digits(256, n)
  }

  function Encoding(data: seq<Byte>): string {
    Ones(LeadingZeros(data)) + CharsOf(Digits(58, Value(256, data)))
  }

  function Decoding(s: string): Result<seq<Byte>, Error> {
    if Decodable(s) then Ok(Zeros(LeadingOnes(s)) + BytesOf(Value(58, DigitsOf(s))))
    else Err(InvalidBase58Char)
  }

  // ---- The two directions ----

  lemma OnesAreZeros(k: nat, digits: seq<nat>)
    requires AreDigits(58, digits)
    ensures AreDigits(58, Zeros(k) + digits) && CharsOf(Zeros(k) + digits) == Ones(k) + CharsOf(digits)
  {
    AlphabetRoundTrip(0);
  }

  lemma CharsDecode(digits: seq<nat>)
    requires AreDigits(58, digits)
    ensures Decodable(CharsOf(digits)) && DigitsOf(CharsOf(digits)) == digits
    ensures InAlphabet(CharsOf(digits)) && LeadingOnes(CharsOf(digits)) == LeadingZeros(digits)
  {
    var s := CharsOf(digits);
    forall i | 0 <= i < |s|
      ensures CharDigit(s[i]) == digits[i] && (s[i] == '1' <==> digits[i] == 0)
    {
      AlphabetRoundTrip(digits[i]);
    }
  }

  /** The encoding, read as a numeral of base 58: the data's leading zeros and its value. */
  lemma EncodingIsNumeral(data: seq<Byte>)
    ensures var k, digits := LeadingZeros(data), Digits(58, Value(256, data));
            && AreDigits(58, Zeros(k) + digits) && Encoding(data) == CharsOf(Zeros(k) + digits)
            && LeadingZeros(Zeros(k) + digits) == k && Value(58, Zeros(k) + digits) == Value(256, data)
  {
    var k, n := LeadingZeros(data), Value(256, data);
    var digits := Digits(58, n);
    OnesAreZeros(k, digits);
    LeadingZerosOfPadded(k, digits);
    ValueOfPadded(58, k, digits);
    ValueOfDigits(58, n);
  }

  /** Decoding the encoding of any byte string returns it. */
  lemma DecodeAfterEncode(data: seq<Byte>)
    ensures Decoding(Encoding(data)) == Ok(data)
    ensures InAlphabet(Encoding(data))
  {
    EncodingIsNumeral(data);
    CharsDecode(Zeros(LeadingZeros(data)) + Digits(58, Value(256, data)));
    PaddedDigits(256, data);
  }

  /** A string over the alphabet is the digits it decodes to. */
  lemma AlphabetStringIsChars(s: string)
    requires InAlphabet(s)
    ensures Decodable(s) && AreDigits(58, DigitsOf(s)) && CharsOf(DigitsOf(s)) == s
  {
    forall i | 0 <= i < |s|
      ensures 0 <= CharDigit(s[i]) < 58 && ALPHABET[CharDigit(s[i])] == s[i]
    {
      var d: nat :| d < |ALPHABET| && ALPHABET[d] == s[i];
      AlphabetRoundTrip(d);
    }
  }

  /** Encoding the decoding of a string over the alphabet returns that string. */
  lemma EncodeAfterDecode(s: string)
    requires InAlphabet(s)
    ensures Decoding(s).Ok? && Encoding(Decoding(s).value) == s
  {
    AlphabetStringIsChars(s);
    var digits := DigitsOf(s);
    CharsDecode(digits);
    var k, n := LeadingZeros(digits), Value(58, digits);
    var data := Decoding(s).value;
    LeadingZerosOfPadded(k, BytesOf(n));
    ValueOfPadded(256, k, BytesOf(n));
    ValueOfDigits(256, n);
    PaddedDigits(58, digits);
    OnesAreZeros(k, Digits(58, n));
    assert LeadingZeros(data) == k && Value(256, data) == n;
  }

  /** Exactly the strings over the alphabet survive a decode and encode. A rune outside it whose low
      byte lies in it is accepted too, but is not canonical. */
  lemma CanonicalIffInAlphabet(s: string)
    ensures (Decoding(s).Ok? && Encoding(Decoding(s).value) == s) <==> InAlphabet(s)
  {
    if InAlphabet(s) {
      EncodeAfterDecode(s);
    } else if Decoding(s).Ok? {
      DecodeAfterEncode(Decoding(s).value);
    }
  }

  /** Encoding and decoding are inverse bijections between byte strings and alphabet strings. */
  lemma Bijection(data: seq<Byte>, s: string)
    requires InAlphabet(s)
    ensures Encoding(data) == s <==> Decoding(s) == Ok(data)
  {
    DecodeAfterEncode(data);
    EncodeAfterDecode(s);
  }

  /** What an encoding means: the one string over the alphabet with a '1' for each leading zero byte, that is,
      as a numeral of base 58, the number of the bytes. */
  lemma EncodingMeans(data: seq<Byte>, s: string)
    ensures Encoding(data) == s <==>
              && InAlphabet(s) && Decodable(s) && LeadingOnes(s) == LeadingZeros(data)
              && PowerSum(58, DigitsOf(s)) == PowerSum(256, data)
  {
    ValueIsPowerSum(256, data);
    DecodeAfterEncode(data);
    if Encoding(data) == s {
      EncodingIsNumeral(data);
      CharsDecode(Zeros(LeadingZeros(data)) + Digits(58, Value(256, data)));
      ValueIsPowerSum(58, DigitsOf(s));
    }
    if InAlphabet(s) && LeadingOnes(s) == LeadingZeros(data) {
      AlphabetStringIsChars(s);
      ValueIsPowerSum(58, DigitsOf(s));
      if Value(58, DigitsOf(s)) == Value(256, data) {
        PaddedDigits(256, data);
        EncodeAfterDecode(s);
      }
    }
  }

  /** What a decoding means, for every string: a zero byte for each leading '1', and the number. */
  lemma DecodingMeans(s: string, data: seq<Byte>)
    ensures Decoding(s) == Ok(data) <==>
              && Decodable(s) && LeadingZeros(data) == LeadingOnes(s)
              && PowerSum(256, data) == PowerSum(58, DigitsOf(s))
    ensures !Decodable(s) ==> Decoding(s) == Err(InvalidBase58Char)
  {
    ValueIsPowerSum(256, data);
    if Decodable(s) {
      var k, n := LeadingOnes(s), Value(58, DigitsOf(s));
      ValueIsPowerSum(58, DigitsOf(s));
      PaddedDigits(256, data);
      LeadingZerosOfPadded(k, BytesOf(n));
      ValueOfPadded(256, k, BytesOf(n));
      ValueOfDigits(256, n);
    }
  }

  lemma FirstIndexFinds(alphabet: string, c: int)
    requires 0 <= c < 256
    ensures FirstIndex(alphabet, c) >= 0 <==> c as char in alphabet
  {
  }

  predicate LowByteInAlphabet(c: char) {
    (c as int % 256) as char in ALPHABET
  }

  /** Every string: decoding succeeds exactly when the low byte of each rune is an alphabet character. */
  lemma AcceptedIffLowBytes(s: string)
    ensures Decoding(s).Ok? <==> forall i :: 0 <= i < |s| ==> LowByteInAlphabet(s[i])
  {
    forall i | 0 <= i < |s|
      ensures CharDigit(s[i]) >= 0 <==> LowByteInAlphabet(s[i])
    {
      FirstIndexFinds(ALPHABET, s[i] as int % 256);
    }
  }

  /** On ASCII input decoding fails exactly when a character is outside the alphabet. */
  lemma AsciiRejection(s: string)
    requires IsAscii(s)
    ensures Decoding(s).Ok? <==> InAlphabet(s)
  {
    AcceptedIffLowBytes(s);
    forall i | 0 <= i < |s|
      ensures LowByteInAlphabet(s[i]) <==> s[i] in ALPHABET
    {
      LowByteOfAscii(ALPHABET, s[i]);
    }
  }

  lemma LowByteOfAscii(alphabet: string, c: char)
    requires c as int < 128
    ensures (c as int % 256) as char in alphabet <==> c in alphabet
  {
    assert (c as int % 256) as char == c;
  }

  /** U+0131 has the low byte of '1': it is accepted as the digit 0 but is not a leading one. */
  lemma WideRuneIsAccepted()
    ensures Decoding("\U{0131}") == Ok([]) && Encoding([]) == ""
  {
    AlphabetRoundTrip(0);
    assert CharDigit('\U{0131}') == 0;
    var s := "\U{0131}";
    assert DigitsOf(s) == Zeros(1) + [];
    ValueOfPadded(58, 1, []);
    assert LeadingOnes(s) == 0;
    assert Encoding([]) == Ones(0) + CharsOf(Digits(58, Value(256, [])));
  }

  // ---- Length ----

  /** From 256^8 <= 58^11 and its first seven instances. */
  lemma {:induction false} BytePowers(m: nat)
    ensures Pow(256, m) <= Pow(58, (11 * m + 7) / 8)
  {
    if m >= 8 {
      var rest := (11 * (m - 8) + 7) / 8;
      assert (11 * m + 7) / 8 == 11 + rest;
      BytePowers(m - 8);
      PowAdds(256, 8, m - 8);
      PowAdds(58, 11, rest);
      SmallPowers();
      ProductMonotone(Pow(256, 8), Pow(58, 11), Pow(256, m - 8), Pow(58, rest));
    } else {
      SmallPowers();
    }
  }

  lemma ProductMonotone(a: nat, b: nat, x: nat, y: nat)
    requires a <= b && x <= y
    ensures a * x <= b * y
  {
    TimesMonotone(x, a, b);
    TimesMonotone(b, x, y);
  }

  lemma SmallPowers()
    ensures Pow(256, 0) <= Pow(58, 0) && Pow(256, 1) <= Pow(58, 2) && Pow(256, 2) <= Pow(58, 3)
    ensures Pow(256, 3) <= Pow(58, 5) && Pow(256, 4) <= Pow(58, 6) && Pow(256, 5) <= Pow(58, 7)
    ensures Pow(256, 6) <= Pow(58, 9) && Pow(256, 7) <= Pow(58, 10) && Pow(256, 8) <= Pow(58, 11)
  {
  }

  /** For k leading zero bytes and m further bytes: at most k + ceil(11 * m / 8) characters. */
  lemma LengthBound(data: seq<Byte>)
    ensures var k := LeadingZeros(data);
            var m := |data| - k;
            k <= |Encoding(data)| <= k + (11 * m + 7) / 8
  {
    var k := LeadingZeros(data);
    var rest := data[k..];
    assert data == Zeros(k) + rest;
    ValueOfPadded(256, k, rest);
    ValueBound(256, rest);
    BytePowers(|rest|);
    DigitCount(58, Value(256, data), (11 * |rest| + 7) / 8);
  }

  // ---- The loops ----

  function Reversed(s: string): (r: string)
    ensures |r| == |s| && forall i :: 0 <= i < |s| ==> r[i] == s[|s| - 1 - i]
  {
    seq(|s|, i requires 0 <= i < |s| => s[|s| - 1 - i])
  }

  method ReverseInPlace(a: array<char>)
    modifies a
    ensures a[..] == Reversed(old(a[..]))
  {
    var i, j := 0, a.Length - 1;
    while i < j
      invariant 0 <= i && i + j == a.Length - 1 && i <= j + 1
      invariant forall k :: 0 <= k < i || j < k < a.Length ==> a[k] == old(a[a.Length - 1 - k])
      invariant forall k :: i <= k <= j ==> a[k] == old(a[k])
    {
      a[i], a[j] := a[j], a[i];
      i, j := i + 1, j - 1;
    }
  }

  /** The digit loop moves the last digit of the number to the end of the reversed output. */
  lemma NextChar(num: nat, encoded: string)
    requires num > 0
    ensures CharsOf(Digits(58, num)) + Reversed(encoded)
            == CharsOf(Digits(58, num / 58)) + Reversed(encoded + [ALPHABET[num % 58]])
  {
    QuotientIsSmaller(num, 58);
    LastChar(Digits(58, num / 58), num % 58);
    ReversedGrows(encoded, ALPHABET[num % 58]);
  }

  lemma LastChar(digits: seq<nat>, d: nat)
    requires AreDigits(58, digits) && d < 58
    ensures CharsOf(digits + [d]) == CharsOf(digits) + [ALPHABET[d]]
  {
  }

  lemma ReversedGrows(s: string, c: char)
    ensures Reversed(s + [c]) == [c] + Reversed(s)
  {
  }

  method Base58Encode(data: seq<Byte>) returns (s: string)
    ensures s == Encoding(data)
  {
    if |data| == 0 {
      return "";
    }
    var leadingZeros := 0;
    while leadingZeros < |data| && data[leadingZeros] == 0
      invariant leadingZeros <= LeadingZeros(data)
    {
      leadingZeros := leadingZeros + 1;
    }

    var num := Value(256, data);
    var encoded: string := [];
    while num > 0
      invariant CharsOf(Digits(58, Value(256, data))) == CharsOf(Digits(58, num)) + Reversed(encoded)
      decreases num
    {
      NextChar(num, encoded);
      QuotientIsSmaller(num, 58);
      var mod := num % 58;
      num := num / 58;
      encoded := encoded + [ALPHABET[mod]];
    }

    ghost var digits := encoded;
    for i := 0 to leadingZeros
      invariant encoded == digits + Ones(i)
    {
      encoded := encoded + ['1'];
    }

    var bytes := new char[|encoded|](i requires 0 <= i < |encoded| => encoded[i]);
    assert bytes[..] == encoded;
    ReverseInPlace(bytes);
    s := bytes[..];
    assert s == Ones(leadingZeros) + Reversed(digits);
  }

  lemma EmptyDecoding()
    ensures Decoding("") == Ok([])
  {
    assert DigitsOf("") == [];
    assert Zeros(0) + BytesOf(0) == [];
  }

  lemma NextDigit(encoded: string, i: nat)
    requires i < |encoded| && Decodable(encoded[..i]) && CharDigit(encoded[i]) >= 0
    ensures Decodable(encoded[..i + 1])
    ensures Value(58, DigitsOf(encoded[..i + 1])) == Value(58, DigitsOf(encoded[..i])) * 58 + CharDigit(encoded[i])
  {
    assert DigitsOf(encoded[..i + 1])[..i] == DigitsOf(encoded[..i]);
  }

  method Base58Decode(encoded: string) returns (r: Result<seq<Byte>, Error>)
    ensures r == Decoding(encoded)
  {
    if |encoded| == 0 {
      EmptyDecoding();
      return Ok([]);
    }
    var leadingZeros := 0;
    while leadingZeros < |encoded| && encoded[leadingZeros] == '1'
      invariant leadingZeros <= LeadingOnes(encoded)
    {
      leadingZeros := leadingZeros + 1;
    }

    var result := 0;
    for i := 0 to |encoded|
      invariant Decodable(encoded[..i]) && result == Value(58, DigitsOf(encoded[..i]))
    {
      var idx := IndexOf(ALPHABET, encoded[i] as int % 256);
      assert idx == CharDigit(encoded[i]);
      if idx < 0 {
        return Err(InvalidBase58Char);
      }
      NextDigit(encoded, i);
      result := result * 58;
      result := result + idx;
    }
    assert encoded[..|encoded|] == encoded;
    r := Ok(Zeros(leadingZeros) + BytesOf(result));
  }
}
