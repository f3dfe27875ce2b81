/** Whole streams: the iterator against lists of frames and against the slice decoder. */
module PktRuns {
  import opened Wrappers
  import opened Bytes
  import opened PktLine
  import opened PktStream

  /** What a consumer sees of a packet. */
  datatype Item = Item(kind: PacketType, payload: seq<Byte>)

  /** Repeated Next: the items up to the first result that is not a packet, and that result. */
  function ReadAll(rest: seq<Byte>, ending: Error): (seq<Item>, Reading<Packet>)
    decreases |rest|
  {
    var (res, taken) := NextStep(rest, ending);
    match res
    case Got(p) =>
      var (items, last) := ReadAll(rest[taken..], ending);
      ([Item(p.kind, p.payload)] + items, last)
    case _ => ([], res)
  }

  /** Repeated Decode, advancing by what it consumed, while bytes remain. */
  function DecodeAll(data: seq<Byte>): (seq<Item>, Result<(), Error>)
    decreases |data|
  {
    if |data| == 0 then ([], Ok(()))
    else
      match Decode(data)
      case Err(e) => ([], Err(e))
      case Ok(p) =>
        DecodedFrame(data);
        var (items, last) := DecodeAll(data[p.consumed..]);
        ([Item(p.kind, p.payload)] + items, last)
  }

  lemma ReadAllNext(rest: seq<Byte>, ending: Error)
    requires NextStep(rest, ending).0.Got?
    ensures var (res, taken) := NextStep(rest, ending);
            && ReadAll(rest, ending).0
               == [Item(res.packet.kind, res.packet.payload)] + ReadAll(rest[taken..], ending).0
            && ReadAll(rest, ending).1 == ReadAll(rest[taken..], ending).1
            && |rest[taken..]| < |rest|
  {
  }

  lemma ReadAllStops(rest: seq<Byte>, ending: Error)
    requires !NextStep(rest, ending).0.Got?
    ensures ReadAll(rest, ending) == ([], NextStep(rest, ending).0)
  {
  }

  /** The loop of a consumer, which copies each payload out of the shared buffer before it asks for the
      next packet: it sees what the input determines, however the reader splits it. */
  method Drain(it: PktLineStream) returns (items: seq<Item>, last: Reading<View>)
    requires it.Valid()
    modifies it.reader, it.buf
    ensures var (all, end) := ReadAll(old(it.reader.rest), it.reader.ending);
            && items == all && !last.Got?
            && (last == End <==> end == End) && (last == Panic <==> end == Panic)
            && (last.Fail? ==> end == Fail(last.error))
  {
    items := [];
    ghost var rest, all := it.reader.rest, ReadAll(it.reader.rest, it.reader.ending);
    last := it.Next();
    while last.Got?
      invariant all.0 == items + ReadAll(rest, it.reader.ending).0
      invariant all.1 == ReadAll(rest, it.reader.ending).1
      invariant it.reader.rest == rest[NextStep(rest, it.reader.ending).1..]
      invariant Shows(last, NextStep(rest, it.reader.ending).0, it.buf[..])
      decreases |rest|
    {
      var view := last.packet;
      ReadAllNext(rest, it.reader.ending);
      items := items + [Item(view.kind, it.buf[view.lo..view.hi])];
      rest := it.reader.rest;
      last := it.Next();
    }
    ReadAllStops(rest, it.reader.ending);
  }

  // ---- Frames ----

  /** The frames of the protocol, and their wire form. */
  datatype Frame = DataFrame(payload: seq<Byte>) | FlushFrame | DelimiterFrame | ResponseEndFrame {
    predicate Valid() {
      DataFrame? ==> 0 < |payload| <= MAX_PKT_LEN - 4
    }

    function Wire(): seq<Byte>
      requires Valid()
    {
      match this
      case DataFrame(payload) => Line(payload)
      case FlushFrame => Hex4(0)
      case DelimiterFrame => Hex4(1)
      case ResponseEndFrame => Hex4(2)
    }

    function ToItem(): Item {
      match this
      case DataFrame(payload) => Item(Data, payload)
      case FlushFrame => Item(Flush, [])
      case DelimiterFrame => Item(Delimiter, [])
      case ResponseEndFrame => Item(ResponseEnd, [])
    }
  }

  predicate AllValid(frames: seq<Frame>) {
    forall f :: f in frames ==> f.Valid()
  }

  function Wires(frames: seq<Frame>): seq<Byte>
    requires AllValid(frames)
  {
    if |frames| == 0 then [] else frames[0].Wire() + Wires(frames[1..])
  }

  function Items(frames: seq<Frame>): seq<Item> {
    if |frames| == 0 then [] else [frames[0].ToItem()] + Items(frames[1..])
  }

  lemma NextOfFrame(f: Frame, tail: seq<Byte>, ending: Error)
    requires f.Valid()
    ensures var (res, taken) := NextStep(f.Wire() + tail, ending);
            && res.Got? && Item(res.packet.kind, res.packet.payload) == f.ToItem()
            && taken == |f.Wire()| && (f.Wire() + tail)[taken..] == tail
  {
    var input := f.Wire() + tail;
    match f {
      case DataFrame(payload) =>
        HeaderOf(input, |payload| + 4, payload + tail);
        assert input[4..|payload| + 4] == payload;
      case FlushFrame => HeaderOf(input, 0, tail);
      case DelimiterFrame => HeaderOf(input, 1, tail);
      case ResponseEndFrame => HeaderOf(input, 2, tail);
    }
  }

  /** Stream round trip: the iterator returns exactly the frames that were written, then a clean end. */
  lemma {:induction false} StreamRoundTrip(frames: seq<Frame>)
    requires AllValid(frames)
    ensures ReadAll(Wires(frames), EOF) == (Items(frames), End)
  {
    if |frames| > 0 {
      NextOfFrame(frames[0], Wires(frames[1..]), EOF);
      StreamRoundTrip(frames[1..]);
    }
  }

  /** The fixed frames on the wire. */
  lemma FixedWires()
    ensures FlushFrame.Wire() == ['0' as int, '0' as int, '0' as int, '0' as int]
    ensures DelimiterFrame.Wire() == ['0' as int, '0' as int, '0' as int, '1' as int]
    ensures ResponseEndFrame.Wire() == ['0' as int, '0' as int, '0' as int, '2' as int]
  {
  }

  /** Exactly when a reading is the clean end. */
  lemma EndIff(rest: seq<Byte>, ending: Error)
    ensures NextStep(rest, ending).0 == End <==> rest == [] && ending == EOF
  {
  }

  lemma ReadFrame(f: Frame, rest: seq<Byte>, ending: Error)
    requires f.Valid()
    ensures ReadAll(f.Wire() + rest, ending).0 == [f.ToItem()] + ReadAll(rest, ending).0
    ensures ReadAll(f.Wire() + rest, ending).1 == ReadAll(rest, ending).1
  {
    NextOfFrame(f, rest, ending);
    ReadAllNext(f.Wire() + rest, ending);
  }

  lemma FirstWire(frames: seq<Frame>, rest: seq<Byte>)
    requires |frames| > 0 && AllValid(frames)
    ensures Wires(frames) + rest == frames[0].Wire() + (Wires(frames[1..]) + rest)
  {
  }

  lemma FirstItem(frames: seq<Frame>, rest: seq<Item>)
    requires |frames| > 0
    ensures Items(frames) + rest == [frames[0].ToItem()] + (Items(frames[1..]) + rest)
  {
  }

  /** Frames in front of any input: they are read first, then that input. */
  lemma {:induction false} ReadFrames(frames: seq<Frame>, rest: seq<Byte>, ending: Error)
    requires AllValid(frames)
    ensures ReadAll(Wires(frames) + rest, ending).0 == Items(frames) + ReadAll(rest, ending).0
    ensures ReadAll(Wires(frames) + rest, ending).1 == ReadAll(rest, ending).1
  {
    if |frames| > 0 {
      var tail := Wires(frames[1..]) + rest;
      FirstWire(frames, rest);
      ReadFrames(frames[1..], rest, ending);
      ReadFrame(frames[0], tail, ending);
      FirstItem(frames, ReadAll(rest, ending).0);
    } else {
      assert Wires(frames) + rest == rest;
    }
  }

  lemma ReadToEnd(frames: seq<Frame>, rest: seq<Byte>, ending: Error)
    requires AllValid(frames) && !NextStep(rest, ending).0.Got?
    ensures ReadAll(Wires(frames) + rest, ending) == (Items(frames), NextStep(rest, ending).0)
  {
    ReadFrames(frames, rest, ending);
    ReadAllStops(rest, ending);
    assert Items(frames) + [] == Items(frames);
  }

  /** For every way the reader may end: a reader that fails between two frames is not a clean end. */
  lemma StreamEnds(frames: seq<Frame>, ending: Error)
    requires AllValid(frames)
    ensures ReadAll(Wires(frames), ending) == (Items(frames), if ending == EOF then End else Fail(ending))
  {
    EndIff([], ending);
    ReadToEnd(frames, [], ending);
    assert Wires(frames) + [] == Wires(frames);
  }

  /** An input cut inside a frame ends with the failure of the reader, never cleanly: a premature end of the
      file is an unexpected one, except right behind a length header, where it is reported as the end of the
      file. */
  lemma CutStream(frames: seq<Frame>, f: Frame, cut: nat, ending: Error)
    requires AllValid(frames) && f.Valid() && 0 < cut < |f.Wire()|
    ensures ReadAll(Wires(frames) + f.Wire()[..cut], ending)
            == (Items(frames), Fail(if ending == EOF && cut != 4 then UnexpectedEOF else ending))
  {
    CutFrame(f, cut, ending);
    ReadToEnd(frames, f.Wire()[..cut], ending);
  }

  lemma CutFrame(f: Frame, cut: nat, ending: Error)
    requires f.Valid() && 0 < cut < |f.Wire()|
    ensures NextStep(f.Wire()[..cut], ending).0
            == Fail(if ending == EOF && cut != 4 then UnexpectedEOF else ending)
  {
    if cut >= 4 {
      HeaderOf(f.Wire(), |f.payload| + 4, f.payload);
      assert f.Wire()[..cut][..4] == f.Wire()[..4];
    }
  }

  lemma {:induction false} ItemsAreInjective(frames: seq<Frame>, others: seq<Frame>)
    requires Items(frames) == Items(others)
    ensures frames == others
  {
    if |frames| > 0 && |others| > 0 {
      assert Items(frames)[0] == Items(others)[0];
      assert Items(frames)[1..] == Items(frames[1..]) && Items(others)[1..] == Items(others[1..]);
      ItemsAreInjective(frames[1..], others[1..]);
      assert frames == [frames[0]] + frames[1..] && others == [others[0]] + others[1..];
    }
  }

  /** The concatenated wire form determines the list of frames. */
  lemma UniqueFraming(frames: seq<Frame>, others: seq<Frame>)
    requires AllValid(frames) && AllValid(others) && Wires(frames) == Wires(others)
    ensures frames == others
  {
    StreamRoundTrip(frames);
    StreamRoundTrip(others);
    ItemsAreInjective(frames, others);
  }

  // ---- The iterator against the decoder ----

  /** The length header at the front exceeds the iterator's buffer. */
  predicate Oversize(rest: seq<Byte>) {
    |rest| >= 4 && ParseHex4(rest[..4]).Some? && ParseHex4(rest[..4]).value > MAX_PKT_LEN
  }

  /** The same failure under the iterator's and the decoder's names: a short read depends on whether it
      delivered any byte, a bad digit has different names. */
  predicate SameFailure(streamed: Error, decoder: Error) {
    match decoder
    case Incomplete => streamed == UnexpectedEOF || streamed == EOF
    case InvalidCharacter => streamed == InvalidLength
    case _ => streamed == decoder
  }

  /** One Next against one Decode on nonempty input. */
  lemma NextMatchesDecode(rest: seq<Byte>)
    requires |rest| > 0
    ensures var (res, taken) := NextStep(rest, EOF);
            && (res == Panic <==> Oversize(rest))
            && (!Oversize(rest) ==>
                (match Decode(rest)
                 case Ok(p) => res == Got(Packet(p.kind, p.payload, 4)) && taken == p.consumed
                 case Err(e) => res.Fail? && SameFailure(res.error, e)))
  {
  }

  /** One Next, for every way the reader may end, against one Decode: exactly which answer it gives, and how much
      it takes for a packet. */
  lemma NextAnswers(rest: seq<Byte>, ending: Error)
    requires |rest| > 0 && !Oversize(rest)
    ensures var (res, taken) := NextStep(rest, ending);
            match Decode(rest)
            case Ok(p) => res == Got(Packet(p.kind, p.payload, 4)) && taken == p.consumed
            case Err(Incomplete) => res == Fail(if ending == EOF && |rest| != 4 then UnexpectedEOF else ending)
            case Err(EmptyPacket) => res == Fail(EmptyPacket)
            case Err(_) => res == Fail(InvalidLength)
  {
  }

  /** The frame of empty data, whatever follows it, is an error to both. */
  lemma EmptyLineIsRejected(tail: seq<Byte>, ending: Error)
    ensures Decode(Line([]) + tail) == Err(EmptyPacket)
    ensures NextStep(Line([]) + tail, ending).0 == Fail(EmptyPacket)
  {
    LineRoundTrip([], tail);
    HeaderOf(Line([]) + tail, 4, tail);
  }

  /** The length header "fff1" with as many bytes as it announces: the decoder returns a packet, the
      iterator slices outside its buffer. */
  lemma OversizeBreaksIterator(data: seq<Byte>)
    requires |data| == 65521 && data[..4] == [102, 102, 102, 49]
    ensures NextStep(data, EOF).0 == Panic && MeetsOversize(data)
    ensures Decode(data) == Ok(Packet(Data, data[4..], 65521))
  {
    var header := data[..4];
    assert HexValue(header[0]) == Some(15) && HexValue(header[3]) == Some(1);
    assert ParseHex4(header) == Some(65521);
    assert data[4..65521] == data[4..];
  }

  /** Some header met while decoding exceeds the iterator's buffer. */
  predicate MeetsOversize(data: seq<Byte>)
    decreases |data|
  {
    |data| > 0 && (Oversize(data) ||
      (Decode(data).Ok? && (DecodedFrame(data); MeetsOversize(data[Decode(data).value.consumed..]))))
  }

  predicate SameEnd(streamed: Reading<Packet>, decoder: Result<(), Error>) {
    match decoder
    case Ok(_) => streamed == End
    case Err(e) => streamed.Fail? && SameFailure(streamed.error, e)
  }

  /** The iterator refines the slice decoder: without an oversize header both give the same items and
      end alike, cleanly exactly when nothing remains; an oversize header, and nothing else, makes the
      iterator slice outside its buffer, after the decoder's items up to there. */
  lemma {:induction false} IteratorRefinesDecoder(data: seq<Byte>)
    ensures var (items, last) := ReadAll(data, EOF);
            var (decoded, end) := DecodeAll(data);
            && (last == Panic <==> MeetsOversize(data))
            && (!MeetsOversize(data) ==> items == decoded && SameEnd(last, end))
            && items <= decoded && 4 * |items| <= |data|
    decreases |data|
  {
    if |data| > 0 {
      NextMatchesDecode(data);
      if !Oversize(data) && Decode(data).Ok? {
        DecodedFrame(data);
        IteratorRefinesDecoder(data[Decode(data).value.consumed..]);
      }
    }
  }

  // ---- The shared buffer ----

  /** The payload of a frame read into the buffer is intact after the next frame exactly when the two
      frames agree where they overlap behind the header. */
  lemma PayloadLifetime(buf: seq<Byte>, frame: seq<Byte>, next: seq<Byte>)
    requires 4 <= |frame| <= |buf| && |next| <= |buf|
    ensures Filled(buf, 0, frame)[4..|frame|] == frame[4..]
    ensures var common := if |next| < 4 then 4 else if |next| < |frame| then |next| else |frame|;
            Filled(Filled(buf, 0, frame), 0, next)[4..|frame|] == frame[4..]
            <==> forall i :: 4 <= i < common ==> next[i] == frame[i]
  {
    var after := Filled(Filled(buf, 0, frame), 0, next);
    var common := if |next| < 4 then 4 else if |next| < |frame| then |next| else |frame|;
    assert forall i :: 0 <= i < |buf| ==>
      after[i] == if i < |next| then next[i] else if i < |frame| then frame[i] else buf[i];
    if after[4..|frame|] == frame[4..] {
      forall i | 4 <= i < common
        ensures next[i] == frame[i]
      {
        assert after[4..|frame|][i - 4] == frame[4..][i - 4];
      }
    }
    if forall i :: 4 <= i < common ==> next[i] == frame[i] {
      assert forall i :: 4 <= i < |frame| ==> after[i] == frame[i];
    }
  }
}
