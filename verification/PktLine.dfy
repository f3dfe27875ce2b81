/** Git pkt-line frames: the encoder, the slice decoder and their inverse laws. */
module PktLine {
  import opened Wrappers
  import opened Bytes
  import Numerals

  const MAX_PKT_LEN: nat := 65520

  datatype PacketType = Data | Flush | Delimiter | ResponseEnd

  datatype Packet = Packet(kind: PacketType, payload: seq<Byte>, consumed: nat)

  datatype Error =
    | PacketTooLarge
    | Incomplete
    | InvalidLength
    | InvalidCharacter
    | EmptyPacket
    | EOF
    | UnexpectedEOF
    | IOFailure

  // ---- Length headers ----

  /** The lower-case hexadecimal digit. */
  function HexDigit(d: nat): Byte
    requires d < 16
  {
    if d < 10 then '0' as int + d else 'a' as int + d - 10
  }

  function HexValue(b: Byte): (d: Option<nat>)
    ensures d.Some? ==> d.value < 16
  {
    if '0' as int <= b <= '9' as int then Some(b - '0' as int)
    else if 'a' as int <= b <= 'f' as int then Some(b - 'a' as int + 10)
    else if 'A' as int <= b <= 'F' as int then Some(b - 'A' as int + 10)
    else None
  }

  /** `%04x` of a number of at most four hexadecimal digits. */
  function Hex4(n: nat): seq<Byte>
    requires n < 65536
  {
    [HexDigit(n / 4096), HexDigit(n / 256 % 16), HexDigit(n / 16 % 16), HexDigit(n % 16)]
  }

  /** An unsigned 16-bit number in base 16: four digits of either case, nothing else. */
  function ParseHex4(s: seq<Byte>): (n: Option<nat>)
    requires |s| == 4
    ensures n.Some? ==> n.value < 65536
  {
    match (HexValue(s[0]), HexValue(s[1]), HexValue(s[2]), HexValue(s[3]))
    case (Some(a), Some(b), Some(c), Some(d)) => Some(4096 * a + 256 * b + 16 * c + d)
    case _ => None
  }

  lemma HexDigitRoundTrip(d: nat)
    requires d < 16
    ensures HexValue(HexDigit(d)) == Some(d)
  {
  }

  lemma HexPlaces(n: nat)
    requires n < 65536
    ensures 4096 * (n / 4096) + 256 * (n / 256 % 16) + 16 * (n / 16 % 16) + n % 16 == n
    ensures n / 4096 < 16
  {
    assert n / 16 / 16 == n / 256 && n / 256 / 16 == n / 4096;
  }

  lemma HexRoundTrip(n: nat)
    requires n < 65536
    ensures ParseHex4(Hex4(n)) == Some(n)
  {
    HexPlaces(n);
    HexDigitRoundTrip(n / 4096);
    HexDigitRoundTrip(n / 256 % 16);
    HexDigitRoundTrip(n / 16 % 16);
    HexDigitRoundTrip(n % 16);
  }

  function Lower(b: Byte): Byte {
    if 'A' as int <= b <= 'F' as int then b + 32 else b
  }

  lemma HexValueOfLower(b: Byte)
    requires HexValue(b).Some?
    ensures HexDigit(HexValue(b).value) == Lower(b)
  {
  }

  lemma PlacesOf(a: nat, b: nat, c: nat, d: nat)
    requires a < 16 && b < 16 && c < 16 && d < 16
    ensures var n := 4096 * a + 256 * b + 16 * c + d;
            n / 4096 == a && n / 256 % 16 == b && n / 16 % 16 == c && n % 16 == d
  {
    var n := 4096 * a + 256 * b + 16 * c + d;
    assert n / 256 == 16 * a + b && n / 16 == 256 * a + 16 * b + c;
  }

  /** The digits of either case, in order; no other byte is one. */
  lemma HexDigits(b: Byte, d: nat)
    requires d < 16
    ensures HexValue(b) == Some(d) <==>
              b == "0123456789abcdef"[d] as int || b == "0123456789ABCDEF"[d] as int
    ensures HexDigit(d) == "0123456789abcdef"[d] as int
  {
  }

  /** A header is the numeral of its number in base 16, most significant digit first. */
  lemma HeaderIsNumeral(a: nat, b: nat, c: nat, d: nat)
    requires a < 16 && b < 16 && c < 16 && d < 16
    ensures var n, hex := Numerals.Value(16, [a, b, c, d]), "0123456789abcdef";
            n < 65536 && Hex4(n) == [hex[a] as int, hex[b] as int, hex[c] as int, hex[d] as int]
  {
    Numerals.ValueOfLast(16, [], a);
    Numerals.ValueOfLast(16, [a], b);
    Numerals.ValueOfLast(16, [a, b], c);
    Numerals.ValueOfLast(16, [a, b, c], d);
    assert [] + [a] == [a] && [a] + [b] == [a, b] && [a, b] + [c] == [a, b, c] && [a, b, c] + [d] == [a, b, c, d];
    PlacesOf(a, b, c, d);
    HexDigits(0, a);
    HexDigits(0, b);
    HexDigits(0, c);
    HexDigits(0, d);
  }

  /** A header that parses is the printed number, up to the case of its letters. */
  lemma ParsedHeader(s: seq<Byte>)
    requires |s| == 4 && ParseHex4(s).Some?
    ensures Hex4(ParseHex4(s).value) == [Lower(s[0]), Lower(s[1]), Lower(s[2]), Lower(s[3])]
  {
    PlacesOf(HexValue(s[0]).value, HexValue(s[1]).value, HexValue(s[2]).value, HexValue(s[3]).value);
    HexValueOfLower(s[0]);
    HexValueOfLower(s[1]);
    HexValueOfLower(s[2]);
    HexValueOfLower(s[3]);
  }

  // ---- Encoding ----

  /** The wire form of a payload. */
  function Line(data: seq<Byte>): seq<Byte>
    requires |data| + 4 <= MAX_PKT_LEN
  {
    Hex4(|data| + 4) + data
  }

  method Encode(data: seq<Byte>) returns (r: Result<array<Byte>, Error>)
    ensures |data| == 0 <==> r == Err(EmptyPacket)
    ensures |data| > 65516 <==> r == Err(PacketTooLarge)
    ensures 0 < |data| <= 65516 <==> r.Ok?
    ensures r.Ok? ==> fresh(r.value) && r.value[..] == Line(data)
  {
    if |data| == 0 {
      return Err(EmptyPacket);
    }
    var total := |data| + 4;
    if total > MAX_PKT_LEN {
      return Err(PacketTooLarge);
    }
    var out := new Byte[total];
    var header := Hex4(total);
    forall i | 0 <= i < 4 {
      out[i] := header[i];
    }
    forall i | 0 <= i < |data| {
      out[i + 4] := data[i];
    }
    assert out[..4] == header && out[4..] == data;
    assert out[..] == out[..4] + out[4..];
    r := Ok(out);
  }

  /** A sink that may stop accepting bytes in the middle of a write. */
  class Sink {
    var written: seq<Byte>

    /** Writes what is accepted; fails when that is not everything. */
    method Write(p: seq<Byte>, accepted: nat) returns (ok: bool)
      modifies this
      ensures ok <==> |p| <= accepted
      ensures written == old(written) + if ok then p else p[..accepted]
    {
      ok := |p| <= accepted;
      written := written + if ok then p else p[..accepted];
    }
  }

  /** `accepted` is how many bytes the sink takes in each of the two writes. Empty data is framed too,
      as a header that no reader accepts. */
  method EncodeLine(w: Sink, data: seq<Byte>, accepted: (nat, nat)) returns (r: Result<(), Error>)
    modifies w
    ensures |data| > 65516 ==> r == Err(PacketTooLarge) && w.written == old(w.written)
    ensures |data| <= 65516 ==>
              && r == (if 4 <= accepted.0 && |data| <= accepted.1 then Ok(()) else Err(IOFailure))
              && w.written == old(w.written) + (if accepted.0 < 4 then Line(data)[..accepted.0]
                                                else if accepted.1 < |data| then Line(data)[..4 + accepted.1]
                                                else Line(data))
  {
    var total := |data| + 4;
    if total > MAX_PKT_LEN {
      return Err(PacketTooLarge);
    }
    if total == 0 {
      return Err(EmptyPacket);
    }
    var prefix := Hex4(total);
    var ok := w.Write(prefix, accepted.0);
    if !ok {
      assert Line(data)[..accepted.0] == prefix[..accepted.0];
      return Err(IOFailure);
    }
    ok := w.Write(data, accepted.1);
    if !ok {
      assert Line(data)[..4 + accepted.1] == prefix + data[..accepted.1];
      return Err(IOFailure);
    }
    assert w.written == old(w.written) + Line(data);
    r := Ok(());
  }

  method EncodeFlush(w: Sink, accepted: nat) returns (r: Result<(), Error>)
    modifies w
    ensures r.Ok? <==> 4 <= accepted
    ensures w.written == old(w.written) + if r.Ok? then Hex4(0) else Hex4(0)[..accepted]
  {
    var ok := w.Write(Hex4(0), accepted);
    r := if ok then Ok(()) else Err(IOFailure);
  }

  // ---- Decoding ----

  function Decode(data: seq<Byte>): Result<Packet, Error> {
    if |data| < 4 then Err(Incomplete)
    else
      match ParseHex4(data[..4])
      case None => Err(InvalidCharacter)
      case Some(n) =>
        if n == 0 then Ok(Packet(Flush, [], 4))
        else if n == 1 then Ok(Packet(Delimiter, [], 4))
        else if n == 2 then Ok(Packet(ResponseEnd, [], 4))
        else if n == 3 then Err(InvalidLength)
        else if n == 4 then Err(EmptyPacket)
        else if |data| < n then Err(Incomplete)
        else Ok(Packet(Data, data[4..n], n))
  }

  lemma HeaderOf(data: seq<Byte>, n: nat, rest: seq<Byte>)
    requires n < 65536 && data == Hex4(n) + rest
    ensures |data| >= 4 && ParseHex4(data[..4]) == Some(n) && data[4..] == rest
  {
    HexRoundTrip(n);
    assert data[..4] == Hex4(n);
  }

  /** A framed payload decodes to itself, whatever follows it, exactly when it is not empty. */
  lemma LineRoundTrip(data: seq<Byte>, tail: seq<Byte>)
    requires |data| + 4 <= MAX_PKT_LEN
    ensures Decode(Line(data) + tail) == Ok(Packet(Data, data, |data| + 4)) <==> |data| > 0
    ensures |data| == 0 ==> Decode(Line(data) + tail) == Err(EmptyPacket)
  {
    var wire := Line(data) + tail;
    HeaderOf(wire, |data| + 4, data + tail);
    assert wire[4..|data| + 4] == data;
  }

  /** Exactly which inputs are rejected, and why. */
  lemma DecodeFails(data: seq<Byte>)
    ensures Decode(data) == Err(Incomplete) <==>
              || |data| < 4
              || (ParseHex4(data[..4]).Some? && ParseHex4(data[..4]).value > 4 && |data| < ParseHex4(data[..4]).value)
    ensures Decode(data) == Err(InvalidCharacter) <==> |data| >= 4 && exists i :: 0 <= i < 4 && HexValue(data[i]).None?
    ensures Decode(data) == Err(InvalidLength) <==> |data| >= 4 && ParseHex4(data[..4]) == Some(3)
    ensures Decode(data) == Err(EmptyPacket) <==> |data| >= 4 && ParseHex4(data[..4]) == Some(4)
  {
  }

  /** The headers below ten have one form each. */
  lemma SmallHeader(s: seq<Byte>, n: nat)
    requires |s| == 4 && n < 10
    ensures ParseHex4(s) == Some(n) <==> s == ['0' as int, '0' as int, '0' as int, '0' as int + n]
  {
    HexRoundTrip(n);
    if ParseHex4(s).Some? {
      ParsedHeader(s);
    }
  }

  /** What a decoded packet says about the input: the header is its length in hexadecimal of either
      case, and the payload is the rest of those bytes. */
  lemma DecodedFrame(data: seq<Byte>)
    requires Decode(data).Ok?
    ensures var p := Decode(data).value;
            && 4 <= p.consumed <= |data|
            && (p.kind == Data <==> p.consumed > 4) && p.payload == data[4..p.consumed]
            && [Lower(data[0]), Lower(data[1]), Lower(data[2]), Lower(data[3])]
               == Hex4(match p.kind
                       case Data => |p.payload| + 4
                       case Flush => 0
                       case Delimiter => 1
                       case ResponseEnd => 2)
  {
    ParsedHeader(data[..4]);
  }
}
