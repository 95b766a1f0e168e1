/** Length-prefixed frames, written to and taken from a byte buffer. */
module Codec {
  import opened Basics

  const LENGTH_LIMIT := 0x1_0000_0000

  /** What a serializer has written, possibly before it failed. */
  datatype Output = Output(bytes: seq<byte>, complete: bool)

  /** The frame limit together with the payload encoding, which measures a message before it writes it. */
  datatype Codec<!M> = Codec(
    maxFrameLen: nat, measure: M -> Option<nat>, write: M -> Output, deserialize: seq<byte> -> Option<M>)

  class Buffer {
    var bytes: seq<byte>

    constructor ()
      ensures bytes == []
    {
      bytes := [];
    }

    method Put(more: seq<byte>)
      modifies this
      ensures bytes == old(bytes) + more
    {
      bytes := bytes + more;
    }

    method Advance(n: nat)
      requires n <= |bytes|
      modifies this
      ensures bytes == old(bytes)[n..]
    {
      bytes := bytes[n..];
    }
  }

  // ---------------------------------------------------------------------
  // Frames
  // ---------------------------------------------------------------------

  /** Big-endian bytes of a 32-bit number. */
  function ToBytes(n: nat): (r: seq<byte>)
    requires n < LENGTH_LIMIT
    ensures |r| == 4
  {
    var upper := n / 256;
    var top := upper / 256;
    [top / 256, top % 256, upper % 256, n % 256]
  }

  function FromBytes(b: seq<byte>): (r: nat)
    requires |b| == 4
    ensures r < LENGTH_LIMIT
  {
    var top := b[0] as int * 256 + b[1];
    var upper := top * 256 + b[2];
    upper * 256 + b[3]
  }

  lemma LengthRoundTrip(n: nat)
    requires n < LENGTH_LIMIT
    ensures FromBytes(ToBytes(n)) == n
  {
  }

  lemma BytesRoundTrip(b: seq<byte>)
    requires |b| == 4
    ensures ToBytes(FromBytes(b)) == b
  {
    var top := b[0] as int * 256 + b[1];
    var upper := top * 256 + b[2];
    assert FromBytes(b) / 256 == upper && upper / 256 == top && top / 256 == b[0];
  }

  /** The most significant byte comes first. */
  lemma BigEndian(n: nat, b: seq<byte>)
    requires n < LENGTH_LIMIT && |b| == 4
    ensures FromBytes(b) == b[0] as int * 0x100_0000 + b[1] as int * 0x1_0000 + b[2] as int * 0x100 + b[3] as int
    ensures ToBytes(n) == b <==> n == b[0] as int * 0x100_0000 + b[1] as int * 0x1_0000 + b[2] as int * 0x100 + b[3] as int
  {
    LengthRoundTrip(n);
    BytesRoundTrip(b);
  }

  function Frame(payload: seq<byte>): (r: seq<byte>)
    requires |payload| < LENGTH_LIMIT
    ensures |r| == 4 + |payload|
  {
    ToBytes(|payload|) + payload
  }

  lemma FrameInjective(p: seq<byte>, q: seq<byte>, bytes: seq<byte>)
    requires |p| < LENGTH_LIMIT && |q| < LENGTH_LIMIT && Frame(p) <= bytes && Frame(q) <= bytes
    ensures p == q
  {
    assert ToBytes(|p|) == bytes[..4] == ToBytes(|q|);
    LengthRoundTrip(|p|);
    LengthRoundTrip(|q|);
    assert p == bytes[4..4 + |p|] && q == bytes[4..4 + |q|];
  }

  // ---------------------------------------------------------------------
  // Encoding
  // ---------------------------------------------------------------------

  datatype Encoded = Written | MeasuringFailed | WritingFailed | MessageTooLarge(len: nat, max: nat) | Panic

  /** The message passes the checks on its measured length. */
  ghost predicate Measured<M>(c: Codec<M>, item: M)
  {
    c.measure(item).Some? && c.measure(item).value <= c.maxFrameLen && c.measure(item).value < LENGTH_LIMIT
  }

  /** The measured length followed by what is written. */
  ghost function Prefixed<M>(c: Codec<M>, item: M): (r: seq<byte>)
    requires Measured(c, item)
  {
    ToBytes(c.measure(item).value) + c.write(item).bytes
  }

  ghost predicate Fits<M>(c: Codec<M>, item: M)
  {
    Measured(c, item) && c.write(item).complete
  }

  /**
   * Append a frame. A limit above 32 bits lets a length through which the prefix cannot hold, and a message
   * which fails while it is written leaves its prefix and what was written of it behind.
   */
  method Encode<M>(c: Codec<M>, item: M, dst: Buffer) returns (r: Encoded)
    modifies dst
    ensures r.MeasuringFailed? <==> c.measure(item).None?
    ensures r.MessageTooLarge? <==> c.measure(item).Some? && c.measure(item).value > c.maxFrameLen
    ensures r.MessageTooLarge? ==> r == MessageTooLarge(c.measure(item).value, c.maxFrameLen)
    ensures r.Panic? <==> c.measure(item).Some? && LENGTH_LIMIT <= c.measure(item).value <= c.maxFrameLen
    ensures r.Written? <==> Fits(c, item)
    ensures r.WritingFailed? <==> Measured(c, item) && !c.write(item).complete
    ensures dst.bytes == if Measured(c, item) then old(dst.bytes) + Prefixed(c, item) else old(dst.bytes)
  {
    var frameLen := c.measure(item);
    if frameLen.None? {
      return MeasuringFailed;
    }
    if frameLen.value > c.maxFrameLen {
      return MessageTooLarge(frameLen.value, c.maxFrameLen);
    }
    if frameLen.value >= LENGTH_LIMIT {
      return Panic;
    }
    dst.Put(ToBytes(frameLen.value));
    var output := c.write(item);
    dst.Put(output.bytes);
    r := if output.complete then Written else WritingFailed;
  }

  ghost predicate AllFit<M>(c: Codec<M>, items: seq<M>)
  {
    forall i :: 0 <= i < |items| ==> Fits(c, items[i])
  }

  ghost function EncodeAll<M>(c: Codec<M>, items: seq<M>): (r: seq<byte>)
    requires AllFit(c, items)
  {
    if items == [] then [] else Prefixed(c, items[0]) + EncodeAll(c, items[1..])
  }

  // ---------------------------------------------------------------------
  // Decoding
  // ---------------------------------------------------------------------

  datatype Decoded<M> = Item(item: M) | Incomplete | DecodingFailed | FrameTooLarge(len: nat, max: nat)

  /** What a buffer begins with. */
  function First<M>(c: Codec<M>, bytes: seq<byte>): (r: Decoded<M>)
  {
    if |bytes| < 4 then Incomplete
    else
      var frameLen := FromBytes(bytes[..4]);
      if frameLen > c.maxFrameLen then FrameTooLarge(frameLen, c.maxFrameLen)
      else if |bytes| < 4 + frameLen then Incomplete
      else
        match c.deserialize(bytes[4..4 + frameLen])
        case None => DecodingFailed
        case Some(m) => Item(m)
  }

  /** The length of the frame at the front, if there is an item in it. */
  function FirstLength<M>(c: Codec<M>, bytes: seq<byte>): (r: nat)
    ensures First(c, bytes).Item? ==> 4 <= r <= |bytes|
  {
    if First(c, bytes).Item? then 4 + FromBytes(bytes[..4]) else 0
  }

  /** Take one item from the front; anything else than an item consumes nothing. */
  method Decode<M>(c: Codec<M>, src: Buffer) returns (r: Decoded<M>)
    modifies src
    ensures r == First(c, old(src.bytes)) && src.bytes == old(src.bytes)[FirstLength(c, old(src.bytes))..]
    ensures !r.Item? ==> src.bytes == old(src.bytes)
  {
    if |src.bytes| < 4 {
      return Incomplete;
    }
    var frameLen := FromBytes(src.bytes[..4]);
    if frameLen > c.maxFrameLen {
      return FrameTooLarge(frameLen, c.maxFrameLen);
    }
    if |src.bytes| < 4 + frameLen {
      return Incomplete;
    }
    var item := c.deserialize(src.bytes[4..4 + frameLen]);
    if item.None? {
      return DecodingFailed;
    }
    src.Advance(4 + frameLen);
    r := Item(item.value);
  }

  ghost predicate Allowed<M>(c: Codec<M>, payload: seq<byte>)
  {
    |payload| <= c.maxFrameLen && |payload| < LENGTH_LIMIT
  }

  /** The front of the buffer as frames: a whole one with or without an item, one which can still be completed, or none. */
  lemma FirstMeaning<M>(c: Codec<M>, bytes: seq<byte>)
    ensures First(c, bytes).Item? ==> exists p ::
      Allowed(c, p) && bytes == Frame(p) + bytes[FirstLength(c, bytes)..] && c.deserialize(p) == Some(First(c, bytes).item)
    ensures First(c, bytes).DecodingFailed? <==> exists p :: Allowed(c, p) && Frame(p) <= bytes && c.deserialize(p).None?
    ensures First(c, bytes).Incomplete? <==> |bytes| < 4 || exists p :: Allowed(c, p) && bytes < Frame(p)
    ensures First(c, bytes).FrameTooLarge? <==> |bytes| >= 4 && FromBytes(bytes[..4]) > c.maxFrameLen
  {
    if |bytes| >= 4 && FromBytes(bytes[..4]) <= c.maxFrameLen {
      BytesRoundTrip(bytes[..4]);
      var n := FromBytes(bytes[..4]);
      if |bytes| >= 4 + n {
        var p := bytes[4..4 + n];
        assert bytes == Frame(p) + bytes[4 + n..];
        forall q | Allowed(c, q) && Frame(q) <= bytes ensures q == p {
          FrameInjective(p, q, bytes);
        }
      }
    }
    IncompleteMeaning(c, bytes);
  }

  lemma IncompleteMeaning<M>(c: Codec<M>, bytes: seq<byte>)
    ensures First(c, bytes).Incomplete? <==> |bytes| < 4 || exists p :: Allowed(c, p) && bytes < Frame(p)
  {
    if |bytes| >= 4 {
      var n := FromBytes(bytes[..4]);
      BytesRoundTrip(bytes[..4]);
      if First(c, bytes).Incomplete? {
        var p: seq<byte> := bytes[4..] + seq(n - |bytes| + 4, _ => 0);
        assert bytes == bytes[..4] + bytes[4..];
        assert Allowed(c, p) && bytes < Frame(p);
      }
      forall p | Allowed(c, p) && bytes < Frame(p) ensures First(c, bytes).Incomplete? {
        LengthRoundTrip(|p|);
        assert bytes[..4] == Frame(p)[..4] == ToBytes(|p|);
      }
    }
  }

  // ---------------------------------------------------------------------
  // Streams
  // ---------------------------------------------------------------------

  /** All items of a byte stream, the bytes which are left and whether decoding has ended with an error. */
  datatype Parsed<M> = Parsed(items: seq<M>, rest: seq<byte>, failed: bool)

  function Parse<M>(c: Codec<M>, bytes: seq<byte>): (r: Parsed<M>)
    decreases |bytes|
  {
    match First(c, bytes)
    case Item(m) =>
      var tail := Parse(c, bytes[FirstLength(c, bytes)..]);
      Parsed([m] + tail.items, tail.rest, tail.failed)
    case Incomplete => Parsed([], bytes, false)
    case _ => Parsed([], bytes, true)
  }

  /** More bytes do not change what was decided already. */
  lemma FirstStable<M>(c: Codec<M>, a: seq<byte>, b: seq<byte>)
    requires !First(c, a).Incomplete?
    ensures First(c, a + b) == First(c, a) && FirstLength(c, a + b) == FirstLength(c, a)
  {
    assert (a + b)[..4] == a[..4];
    var n := FromBytes(a[..4]);
    if n <= c.maxFrameLen {
      assert (a + b)[4..4 + n] == a[4..4 + n];
    }
  }

  /** Continue with more bytes from where parsing has stopped. */
  ghost function Resume<M>(c: Codec<M>, p: Parsed<M>, more: seq<byte>): (r: Parsed<M>)
  {
    if p.failed then Parsed(p.items, p.rest + more, true)
    else var q := Parse(c, p.rest + more); Parsed(p.items + q.items, q.rest, q.failed)
  }

  ghost function Prepend<M>(m: M, p: Parsed<M>): (r: Parsed<M>)
  {
    Parsed([m] + p.items, p.rest, p.failed)
  }

  lemma ResumePrepend<M>(c: Codec<M>, m: M, p: Parsed<M>, more: seq<byte>)
    ensures Resume(c, Prepend(m, p), more) == Prepend(m, Resume(c, p, more))
  {
    if !p.failed {
      var q := Parse(c, p.rest + more);
      assert [m] + (p.items + q.items) == ([m] + p.items) + q.items;
    }
  }

  /** Parsing in two goes is parsing at once. */
  lemma {:induction false} ParseConcat<M>(c: Codec<M>, a: seq<byte>, b: seq<byte>)
    ensures Parse(c, a + b) == Resume(c, Parse(c, a), b)
    decreases |a|
  {
    if !First(c, a).Incomplete? {
      FirstStable(c, a, b);
    }
    if First(c, a).Item? {
      var n := FirstLength(c, a);
      assert (a + b)[n..] == a[n..] + b;
      ParseConcat(c, a[n..], b);
      ResumePrepend(c, First(c, a).item, Parse(c, a[n..]), b);
    } else if First(c, a).Incomplete? {
      assert [] + Parse(c, a + b).items == Parse(c, a + b).items;
    }
  }

  /** After `items` were taken from `all`, the items of the remaining bytes are still to come. */
  ghost predicate Taken<M>(c: Codec<M>, all: seq<byte>, items: seq<M>, bytes: seq<byte>)
  {
    var p := Parse(c, bytes);
    Parse(c, all) == Parsed(items + p.items, p.rest, p.failed)
  }

  lemma TakenAll<M>(c: Codec<M>, all: seq<byte>)
    ensures Taken(c, all, [], all)
  {
    assert [] + Parse(c, all).items == Parse(c, all).items;
  }

  lemma TakenNext<M>(c: Codec<M>, all: seq<byte>, items: seq<M>, bytes: seq<byte>)
    requires Taken(c, all, items, bytes) && First(c, bytes).Item?
    ensures Taken(c, all, items + [First(c, bytes).item], bytes[FirstLength(c, bytes)..])
  {
    var m, tail := First(c, bytes).item, Parse(c, bytes[FirstLength(c, bytes)..]);
    assert Parse(c, bytes) == Prepend(m, tail);
    assert items + ([m] + tail.items) == items + [m] + tail.items;
  }

  lemma TakenEnd<M>(c: Codec<M>, all: seq<byte>, items: seq<M>, bytes: seq<byte>)
    requires Taken(c, all, items, bytes) && !First(c, bytes).Item?
    ensures Parse(c, all) == Parsed(items, bytes, !First(c, bytes).Incomplete?)
  {
    assert items + [] == items;
  }

  /** Decode after every read until the next frame is incomplete; an error ends the stream. */
  class FramedRead<M> {
    const codec: Codec<M>
    const buffer: Buffer
    var failed: bool

    constructor (codec: Codec<M>)
      ensures this.codec == codec && fresh(buffer) && buffer.bytes == [] && !failed
    {
      this.codec := codec;
      this.buffer := new Buffer();
      this.failed := false;
    }

    method Read(chunk: seq<byte>) returns (items: seq<M>)
      modifies this, buffer
      ensures old(failed) ==> items == [] && failed && buffer.bytes == old(buffer.bytes)
      ensures !old(failed) ==> Parsed(items, buffer.bytes, failed) == Parse(codec, old(buffer.bytes) + chunk)
    {
      items := [];
      if failed {
        return;
      }
      buffer.Put(chunk);
      ghost var all := buffer.bytes;
      TakenAll(codec, all);
      while true
        invariant !failed && Taken(codec, all, items, buffer.bytes)
        decreases |buffer.bytes|
      {
        ghost var bytes := buffer.bytes;
        var r := Decode(codec, buffer);
        if !r.Item? {
          TakenEnd(codec, all, items, bytes);
          failed := !r.Incomplete?;
          return;
        }
        TakenNext(codec, all, items, bytes);
        items := items + [r.item];
      }
    }
  }

  ghost function Joined(chunks: seq<seq<byte>>): (r: seq<byte>)
  {
    if chunks == [] then [] else Joined(chunks[..|chunks| - 1]) + chunks[|chunks| - 1]
  }

  /** However a byte stream is cut into chunks, valid or not, reading it gives the items of the whole. */
  method ReadAll<M>(c: Codec<M>, chunks: seq<seq<byte>>) returns (items: seq<M>, rest: seq<byte>, failed: bool)
    ensures items == Parse(c, Joined(chunks)).items && failed == Parse(c, Joined(chunks)).failed
    ensures !failed ==> rest == Parse(c, Joined(chunks)).rest
  {
    var reader := new FramedRead(c);
    items := [];
    for i := 0 to |chunks|
      invariant reader.codec == c && fresh(reader) && fresh(reader.buffer)
      invariant ReadSoFar(c, Joined(chunks[..i]), items, reader.buffer.bytes, reader.failed)
    {
      ghost var before := Parsed(items, reader.buffer.bytes, reader.failed);
      var more := reader.Read(chunks[i]);
      items := items + more;
      assert chunks[..i + 1][..i] == chunks[..i];
      ReadStep(c, Joined(chunks[..i]), before, chunks[i], items, reader.buffer.bytes, reader.failed);
    }
    assert chunks[..|chunks|] == chunks;
    rest, failed := reader.buffer.bytes, reader.failed;
  }

  ghost predicate ReadSoFar<M>(c: Codec<M>, bytes: seq<byte>, items: seq<M>, rest: seq<byte>, failed: bool)
  {
    var p := Parse(c, bytes);
    items == p.items && failed == p.failed && (!failed ==> rest == p.rest)
  }

  lemma ReadStep<M>(
    c: Codec<M>, bytes: seq<byte>, before: Parsed<M>, chunk: seq<byte>, items: seq<M>, rest: seq<byte>, failed: bool)
    requires ReadSoFar(c, bytes, before.items, before.rest, before.failed)
    requires if before.failed then items == before.items + [] && failed
             else items == before.items + Parse(c, before.rest + chunk).items &&
                  rest == Parse(c, before.rest + chunk).rest && failed == Parse(c, before.rest + chunk).failed
    ensures ReadSoFar(c, bytes + chunk, items, rest, failed)
  {
    ParseConcat(c, bytes, chunk);
    assert before.items + [] == before.items;
  }

  // ---------------------------------------------------------------------
  // Round trip
  // ---------------------------------------------------------------------

  /** The message is written completely and with its measured length, and can be read again. */
  ghost predicate RoundTrip<M>(c: Codec<M>, m: M)
  {
    Fits(c, m) && |c.write(m).bytes| == c.measure(m).value && c.deserialize(c.write(m).bytes) == Some(m)
  }

  ghost predicate RoundTrips<M>(c: Codec<M>, items: seq<M>)
  {
    forall i :: 0 <= i < |items| ==> RoundTrip(c, items[i])
  }

  lemma FrameFirst<M>(c: Codec<M>, m: M, rest: seq<byte>)
    requires RoundTrip(c, m)
    ensures First(c, Prefixed(c, m) + rest) == Item(m)
    ensures FirstLength(c, Prefixed(c, m) + rest) == |Prefixed(c, m)|
  {
    var p := c.write(m).bytes;
    var bytes := Prefixed(c, m) + rest;
    LengthRoundTrip(|p|);
    assert bytes[..4] == ToBytes(|p|);
    assert bytes[4..4 + |p|] == p;
  }

  /** Encoded messages are parsed as themselves without anything left. */
  lemma {:induction false} EncodedParse<M>(c: Codec<M>, items: seq<M>)
    requires RoundTrips(c, items)
    ensures AllFit(c, items) && Parse(c, EncodeAll(c, items)) == Parsed(items, [], false)
  {
    if items != [] {
      assert RoundTrip(c, items[0]);
      var f := Prefixed(c, items[0]);
      FrameFirst(c, items[0], EncodeAll(c, items[1..]));
      assert (f + EncodeAll(c, items[1..]))[|f|..] == EncodeAll(c, items[1..]);
      EncodedParse(c, items[1..]);
      assert [items[0]] + items[1..] == items;
    }
  }

  /** Of a stream which has not arrived completely, the messages so far are decoded and none is in error. */
  lemma EncodedPrefix<M>(c: Codec<M>, items: seq<M>, k: nat)
    requires RoundTrips(c, items) && AllFit(c, items) && k <= |EncodeAll(c, items)|
    ensures Parse(c, EncodeAll(c, items)[..k]).items <= items && !Parse(c, EncodeAll(c, items)[..k]).failed
  {
    var bytes := EncodeAll(c, items);
    EncodedParse(c, items);
    assert bytes == bytes[..k] + bytes[k..];
    ParsePrefix(c, bytes[..k], bytes[k..]);
  }

  lemma ParsePrefix<M>(c: Codec<M>, a: seq<byte>, b: seq<byte>)
    ensures Parse(c, a).items <= Parse(c, a + b).items
    ensures Parse(c, a).failed ==> Parse(c, a + b).failed
  {
    ParseConcat(c, a, b);
  }

  /** Write messages into a buffer until one is refused. */
  method WriteAll<M>(c: Codec<M>, items: seq<M>, dst: Buffer) returns (r: Encoded)
    modifies dst
    ensures r.Written? <==> AllFit(c, items)
    ensures r.Written? ==> dst.bytes == old(dst.bytes) + EncodeAll(c, items)
    decreases |items|
  {
    if items == [] {
      assert dst.bytes == old(dst.bytes) + EncodeAll(c, items);
      return Written;
    }
    r := Encode(c, items[0], dst);
    if r != Written {
      return;
    }
    ghost var first := Prefixed(c, items[0]);
    r := WriteAll(c, items[1..], dst);
    if r.Written? {
      assert forall i :: 0 < i < |items| ==> items[i] == items[1..][i - 1];
      assert AllFit(c, items);
      assert old(dst.bytes) + (first + EncodeAll(c, items[1..])) == old(dst.bytes) + first + EncodeAll(c, items[1..]);
    }
  }

  /** Messages survive being framed, cut up in any way and read again. */
  method ReceiveAll<M>(c: Codec<M>, ghost items: seq<M>, chunks: seq<seq<byte>>)
    returns (received: seq<M>, rest: seq<byte>, failed: bool)
    requires RoundTrips(c, items) && AllFit(c, items) && Joined(chunks) == EncodeAll(c, items)
    ensures received == items && rest == [] && !failed
  {
    received, rest, failed := ReadAll(c, chunks);
    EncodedParse(c, items);
  }
}
