/** Multibase strings and the Ed25519 keys they carry. */
module Multibase {
  import opened Wrappers
  import opened Bytes
  import opened Base58

  datatype Scheme = Base58btc | HexLower | HexUpper | Base64URL | Base64Std | Base64StdNoPad

  datatype DecodeResult = DecodeResult(data: seq<Byte>, scheme: Scheme)

  /** The hexadecimal and base64 decoders of the standard library, by scheme. */
  type Library = (Scheme, string) -> Result<seq<Byte>, Error>

  function FromLibrary(lib: Library, scheme: Scheme, payload: string): Result<DecodeResult, Error> {
    match lib(scheme, payload)
    case Ok(data) => Ok(DecodeResult(data, scheme))
    case Err(_) => Err(InvalidInput)
  }

  /** The first character selects the scheme of the rest. */
  function Decode(lib: Library, encoded: string): Result<DecodeResult, Error> {
    if |encoded| == 0 then Err(InvalidInput)
    else
      var prefix, payload := encoded[0], encoded[1..];
      match prefix
      case 'z' =>
        (match Decoding(payload)
         case Ok(data) => Ok(DecodeResult(data, Base58btc))
         case Err(e) => Err(e))
      case 'f' => FromLibrary(lib, HexLower, payload)
      case 'F' => FromLibrary(lib, HexUpper, payload)
      case 'u' => FromLibrary(lib, Base64URL, payload)
      case 'm' => FromLibrary(lib, Base64Std, payload)
      case 'M' => FromLibrary(lib, Base64StdNoPad, payload)
      case _ => Err(UnsupportedEncoding)
  }

  function ExtractEd25519PubKey(data: seq<Byte>): Result<seq<Byte>, Error> {
    if |data| < 2 || data[0] != 0xed || data[1] != 0x01 then Err(UnsupportedKeyType)
    else if |data[2..]| != 32 then Err(InvalidKeyLength)
    else Ok(data[2..])
  }

  function DecodeEd25519PubKey(lib: Library, encoded: string): Result<seq<Byte>, Error> {
    match Decode(lib, encoded)
    case Err(e) => Err(e)
    case Ok(result) => ExtractEd25519PubKey(result.data)
  }

  /** The multicodec form of a public key. */
  function Multicodec(key: seq<Byte>): seq<Byte> {
    [0xed, 0x01] + key
  }

  function KeyString(key: seq<Byte>): string {
    "z" + Encoding(Multicodec(key))
  }

  /** The character that announces a scheme. */
  function Prefix(scheme: Scheme): char {
    match scheme
    case Base58btc => 'z'
    case HexLower => 'f'
    case HexUpper => 'F'
    case Base64URL => 'u'
    case Base64Std => 'm'
    case Base64StdNoPad => 'M'
  }

  /** What each scheme's decoder makes of a payload. */
  function Payload(lib: Library, scheme: Scheme, payload: string): Result<seq<Byte>, Error> {
    if scheme == Base58btc then Decoding(payload)
    else
      match lib(scheme, payload)
      case Ok(data) => Ok(data)
      case Err(_) => Err(InvalidInput)
  }

  /** A string decodes in a scheme exactly when it is that scheme's prefix and a payload its decoder accepts;
      a string without a known prefix is unsupported, and an empty one invalid. */
  lemma SchemeIff(lib: Library, s: string, scheme: Scheme, data: seq<Byte>)
    ensures Decode(lib, s) == Ok(DecodeResult(data, scheme))
            <==> |s| > 0 && s[0] == Prefix(scheme) && Payload(lib, scheme, s[1..]) == Ok(data)
    ensures |s| > 0 && s[0] == Prefix(scheme) && Payload(lib, scheme, s[1..]).Err? ==>
              Decode(lib, s) == Err(Payload(lib, scheme, s[1..]).error)
    ensures s == "" ==> Decode(lib, s) == Err(InvalidInput)
    ensures |s| > 0 && s[0] !in "zfFumM" ==> Decode(lib, s) == Err(UnsupportedEncoding)
  {
  }

  /** A string yields a key exactly when it decodes, in any scheme, to the prefixed key; otherwise the error is
      that of the decoding, or names what is wrong with the bytes: their type, or their length. */
  lemma KeyIff(lib: Library, s: string, key: seq<Byte>)
    ensures DecodeEd25519PubKey(lib, s) == Ok(key)
            <==> Decode(lib, s).Ok? && |key| == 32 && Decode(lib, s).value.data == [0xed, 0x01] + key
    ensures Decode(lib, s).Err? ==> DecodeEd25519PubKey(lib, s) == Err(Decode(lib, s).error)
    ensures Decode(lib, s).Ok? ==>
              var data := Decode(lib, s).value.data;
              && (DecodeEd25519PubKey(lib, s) == Err(UnsupportedKeyType) <==> !([0xed, 0x01] <= data))
              && (DecodeEd25519PubKey(lib, s) == Err(InvalidKeyLength) <==> [0xed, 0x01] <= data && |data| != 34)
  {
    if Decode(lib, s).Ok? {
      ExtractionInvertsPrefix(Decode(lib, s).value.data, key);
    }
  }

  /** Extraction is the inverse of the two-byte prefix, on keys of 32 bytes and on nothing else. */
  lemma ExtractionInvertsPrefix(data: seq<Byte>, key: seq<Byte>)
    ensures ExtractEd25519PubKey(data) == Ok(key) <==> |key| == 32 && data == Multicodec(key)
  {
    if |data| >= 2 && data[0] == 0xed && data[1] == 0x01 {
      assert data == Multicodec(data[2..]);
    }
  }

  /** Key strings are canonical: every 32-byte key has exactly one ASCII string starting with 'z'. */
  lemma KeyStringsAreCanonical(lib: Library, key: seq<Byte>, s: string)
    requires |key| == 32 && IsAscii(s) && |s| > 0 && s[0] == 'z'
    ensures DecodeEd25519PubKey(lib, s) == Ok(key) <==> s == KeyString(key)
  {
    var payload := s[1..];
    assert s == "z" + payload;
    AsciiRejection(payload);
    if Decoding(payload).Ok? {
      ExtractionInvertsPrefix(Decoding(payload).value, key);
      Bijection(Multicodec(key), payload);
    }
    DecodeAfterEncode(Multicodec(key));
    ExtractionInvertsPrefix(Multicodec(key), key);
  }

  /** A key string decodes to its key, is ASCII, and has at most 48 characters. */
  lemma KeyStringRoundTrip(lib: Library, key: seq<Byte>)
    requires |key| == 32
    ensures DecodeEd25519PubKey(lib, KeyString(key)) == Ok(key)
    ensures IsAscii(KeyString(key)) && |KeyString(key)| <= 48
  {
    var data := Multicodec(key);
    DecodeAfterEncode(data);
    ExtractionInvertsPrefix(data, key);
    assert KeyString(key)[1..] == Encoding(data);
    LengthBound(data);
    AlphabetStringIsAscii(Encoding(data));
  }

  lemma AlphabetStringIsAscii(s: string)
    requires InAlphabet(s)
    ensures IsAscii(s)
  {
    forall i | 0 <= i < |s|
      ensures s[i] as int < 128
    {
      var d: nat :| d < |ALPHABET| && ALPHABET[d] == s[i];
      AlphabetRoundTrip(d);
    }
  }

  /** No two keys share a canonical string. */
  lemma KeyStringsAreInjective(key: seq<Byte>, other: seq<Byte>)
    requires KeyString(key) == KeyString(other)
    ensures key == other
  {
    DecodeAfterEncode(Multicodec(key));
    DecodeAfterEncode(Multicodec(other));
    assert Encoding(Multicodec(key)) == KeyString(key)[1..];
    assert Encoding(Multicodec(other)) == KeyString(other)[1..];
    assert key == Multicodec(key)[2..] && other == Multicodec(other)[2..];
  }
}
