/** The stream iterator: one shared buffer filled from a reader that may split bytes anywhere. */
module PktStream {
  import opened Wrappers
  import opened Bytes
  import opened PktLine

  /** How much one call of Read delivers at most, and whether the call that exhausts the input reports
      its end together with the last bytes. */
  datatype Chunk = Chunk(size: nat, eager: bool)

  /** A buffer after `input` was copied into it at position `lo`. */
  function Filled(buf: seq<Byte>, lo: nat, input: seq<Byte>): (after: seq<Byte>)
    requires lo + |input| <= |buf|
    ensures |after| == |buf|
  {
    buf[..lo] + input + buf[lo + |input|..]
  }

  lemma FilledTwice(buf: seq<Byte>, lo: nat, first: seq<Byte>, second: seq<Byte>)
    requires lo + |first| + |second| <= |buf|
    ensures Filled(Filled(buf, lo, first), lo + |first|, second) == Filled(buf, lo, first + second)
  {
  }

  /** An input that ends with `ending`, the end of the file or a failure. Once the scripted chunks are
      used up, a read delivers all it is asked for. */
  class Reader {
    var rest: seq<Byte>
    var chunks: seq<Chunk>
    const ending: Error

    constructor (rest: seq<Byte>, chunks: seq<Chunk>, ending: Error)
      ensures this.rest == rest && this.chunks == chunks && this.ending == ending
    {
      this.rest, this.chunks, this.ending := rest, chunks, ending;
    }

    method Read(buf: array<Byte>, lo: nat, hi: nat) returns (n: nat, err: Option<Error>)
      requires lo < hi <= buf.Length
      modifies this, buf
      ensures n <= hi - lo && n <= |old(rest)| && rest == old(rest)[n..]
      ensures buf[..] == Filled(old(buf[..]), lo, old(rest)[..n])
      ensures err.Some? ==> err == Some(ending) && rest == []
      ensures err.None? ==> n > 0 || |chunks| < |old(chunks)|
      ensures |chunks| <= |old(chunks)|
    {
      var limit, eager := hi - lo, false;
      if |chunks| > 0 {
        eager := chunks[0].eager;
        if chunks[0].size < limit {
          limit := chunks[0].size;
        }
        chunks := chunks[1..];
      }
      n := if |rest| < limit then |rest| else limit;
      ghost var before := buf[..];
      forall i | 0 <= i < n {
        buf[lo + i] := rest[i];
      }
      assert buf[..] == Filled(before, lo, rest[..n]);
      var delivered := rest[..n];
      rest := rest[n..];
      err := if rest == [] && (n == 0 || eager) then Some(ending) else None;
    }

    /** Reads until the range is full or the input ends. */
    method ReadFull(buf: array<Byte>, lo: nat, hi: nat) returns (n: nat, err: Option<Error>)
      requires lo < hi <= buf.Length
      modifies this, buf
      ensures n == if |old(rest)| < hi - lo then |old(rest)| else hi - lo
      ensures rest == old(rest)[n..]
      ensures buf[..] == Filled(old(buf[..]), lo, old(rest)[..n])
      ensures err == if n == hi - lo then None
                     else if n > 0 && ending == EOF then Some(UnexpectedEOF)
                     else Some(ending)
    {
      n, err := 0, None;
      while n < hi - lo && err.None?
        invariant n <= hi - lo && n <= |old(rest)| && rest == old(rest)[n..]
        invariant buf[..] == Filled(old(buf[..]), lo, old(rest)[..n])
        invariant err.Some? ==> err == Some(ending) && rest == []
        decreases hi - lo - n, |chunks|, err.None?
      {
        var nn;
        ghost var sofar := n;
        nn, err := Read(buf, lo + n, hi);
        n := n + nn;
        assert old(rest)[..n] == old(rest)[..sofar] + old(rest)[sofar..][..nn];
        FilledTwice(old(buf[..]), lo, old(rest)[..sofar], old(rest)[sofar..][..nn]);
      }
      if n >= hi - lo {
        err := None;
      } else if n > 0 && err == Some(EOF) {
        err := Some(UnexpectedEOF);
      }
    }
  }

  // ---- One packet ----

  /** `Panic` is the out-of-range slice of the buffer. */
  datatype Reading<+P> = Got(packet: P) | End | Fail(error: Error) | Panic

  /** A packet whose payload is the part [lo, hi) of the iterator's buffer. */
  datatype View = View(kind: PacketType, lo: nat, hi: nat, consumed: nat)

  function Truncated(ending: Error): Error {
    if ending == EOF then UnexpectedEOF else ending
  }

  /** The next packet of an input and how many bytes it takes. A data packet reports the four bytes of
      its header as consumed. */
  function NextStep(rest: seq<Byte>, ending: Error): (r: (Reading<Packet>, nat))
    ensures r.1 <= |rest|
    ensures r.0.Got? ==> r.1 >= 4
  {
    if |rest| == 0 then (if ending == EOF then End else Fail(ending), 0)
    else if |rest| < 4 then (Fail(Truncated(ending)), |rest|)
    else
      match ParseHex4(rest[..4])
      case None => (Fail(InvalidLength), 4)
      case Some(n) =>
        if n == 0 then (Got(Packet(Flush, [], 4)), 4)
        else if n == 1 then (Got(Packet(Delimiter, [], 4)), 4)
        else if n == 2 then (Got(Packet(ResponseEnd, [], 4)), 4)
        else if n == 3 then (Fail(InvalidLength), 4)
        else if n == 4 then (Fail(EmptyPacket), 4)
        else if n > MAX_PKT_LEN then (Panic, 4)
        else if |rest| < n then (Fail(if |rest| == 4 then ending else Truncated(ending)), |rest|)
        else (Got(Packet(Data, rest[4..n], 4)), n)
  }

  /** A reading by view shows a reading by value, given the contents of the buffer. */
  predicate Shows(r: Reading<View>, res: Reading<Packet>, buf: seq<Byte>) {
    match res
    case Got(p) =>
      && r.Got? && r.packet.lo <= r.packet.hi <= |buf|
      && p == Packet(r.packet.kind, buf[r.packet.lo..r.packet.hi], r.packet.consumed)
    case End => r == End
    case Fail(e) => r == Fail(e)
    case Panic => r == Panic
  }

  class PktLineStream {
    const reader: Reader
    const buf: array<Byte>

    ghost predicate Valid() {
      buf.Length == MAX_PKT_LEN
    }

    constructor (reader: Reader)
      ensures Valid() && this.reader == reader && fresh(buf)
    {
      this.reader := reader;
      this.buf := new Byte[MAX_PKT_LEN](_ => 0);
    }

    /** The result, the bytes left and the whole buffer depend on the input alone, not on how the reader
        splits it. */
    method Next() returns (r: Reading<View>)
      requires Valid()
      modifies reader, buf
      ensures var (res, taken) := NextStep(old(reader.rest), reader.ending);
              && taken <= MAX_PKT_LEN
              && reader.rest == old(reader.rest)[taken..]
              && buf[..] == Filled(old(buf[..]), 0, old(reader.rest)[..taken])
              && Shows(r, res, buf[..])
    {
      ghost var input, start := reader.rest, buf[..];
      var rawPktLen, err := reader.ReadFull(buf, 0, 4);
      if err == Some(EOF) && rawPktLen == 0 {
        return End;
      }
      if err.Some? {
        return Fail(err.value);
      }
      assert buf[..4] == input[..4];
      var parsed := ParseHex4(buf[..4]);
      if parsed.None? {
        return Fail(InvalidLength);
      }
      var pktDataLen := parsed.value;
      match pktDataLen {
        case 0 => return Got(View(Flush, 0, 0, 4));
        case 1 => return Got(View(Delimiter, 0, 0, 4));
        case 2 => return Got(View(ResponseEnd, 0, 0, 4));
        case 3 => return Fail(InvalidLength);
        case 4 => return Fail(EmptyPacket);
        case _ =>
      }
      if pktDataLen > buf.Length {
        return Panic;
      }
      var n;
      n, err := reader.ReadFull(buf, 4, pktDataLen);
      assert input[..4] + input[4..][..n] == input[..4 + n];
      FilledTwice(start, 0, input[..4], input[4..][..n]);
      if err.Some? {
        return Fail(err.value);
      }
      r := Got(View(Data, 4, pktDataLen, rawPktLen));
    }
  }
}
