/** AMQP 0-9-1 framing (section 4.2.3 of the AMQP 0-9-1 specification) as read by
    internal/amqp/parser.go and the stream loop of internal/capture/sniffer.go.

    The first part describes parsing as a function of the bytes of the stream; the
    second part is the parser itself, reading from a source that hands out its
    bytes in arbitrary chunks. */
module Frames {
  import opened Wrappers
  import opened Bytes

  const MAX_FRAME_SIZE: nat := 1024 * 1024
  const FRAME_END_BYTE: byte := 0xCE

  const FRAME_METHOD: byte := 1
  const FRAME_HEADER: byte := 2
  const FRAME_BODY: byte := 3
  const FRAME_HEARTBEAT: byte := 8

  datatype Frame = Frame(typ: byte, channel: uint16, size: uint32, payload: seq<byte>)

  datatype Error =
    | EndOfStream              // nothing left: io.EOF
    | TruncatedHeader          // fewer than 7 bytes left: io.ErrUnexpectedEOF
    | Oversized(size: uint32)
    | TruncatedPayload
    | MissingEnd
    | BadEnd(found: byte)

  /** A parsed frame or an error, and the bytes not consumed. */
  datatype Parse = Parsed(frame: Frame, rest: seq<byte>) | Failed(error: Error, rest: seq<byte>)

  predicate ValidFrame(f: Frame) {
    f.size == |f.payload| <= MAX_FRAME_SIZE
  }

  /** The wire format. */
  function Encode(f: Frame): (b: seq<byte>)
    ensures |b| == 8 + |f.payload|
  {
    [f.typ] + Put16(f.channel) + Put32(f.size) + f.payload + [FRAME_END_BYTE]
  }

  function EncodeAll(fs: seq<Frame>): seq<byte> {
    if fs == [] then [] else Encode(fs[0]) + EncodeAll(fs[1..])
  }

  /** What NextFrame makes of a stream whose remaining bytes are `b`. */
  function ParseOne(b: seq<byte>): (r: Parse)
    ensures |r.rest| <= |b| && r.rest == b[|b| - |r.rest|..]
    ensures r.Parsed? ==> |r.rest| + 8 <= |b|
  {
    if b == [] then Failed(EndOfStream, [])
    else if |b| < 7 then Failed(TruncatedHeader, [])
    else
      var size := U32(b, 3);
      if size > MAX_FRAME_SIZE then Failed(Oversized(size), b[7..])
      else if |b| < 7 + size then Failed(TruncatedPayload, [])
      else if |b| == 7 + size then Failed(MissingEnd, [])
      else if b[7 + size] != FRAME_END_BYTE then Failed(BadEnd(b[7 + size]), b[8 + size..])
      else Parsed(Frame(b[0], U16(b, 1), size, b[7..7 + size]), b[8 + size..])
  }

  /** The size a frame header announces. */
  function SizeOnWire(b: seq<byte>): nat
    requires |b| >= 7
  {
    FourBytes(b[3], b[4], b[5], b[6])
  }

  /** The bytes start with a frame of at most a mebibyte, closed by its end byte: section
      4.2.3 of the AMQP 0-9-1 specification, byte for byte. */
  predicate StartsWithFrame(b: seq<byte>) {
    |b| >= 7 && SizeOnWire(b) <= 1_048_576 && |b| >= 8 + SizeOnWire(b) && b[7 + SizeOnWire(b)] == 0xCE
  }

  /** The frame and the bytes behind it, read off the bytes. */
  function FrameOnWire(b: seq<byte>): (Frame, seq<byte>)
    requires StartsWithFrame(b)
  {
    (Frame(b[0], TwoBytes(b[1], b[2]), SizeOnWire(b), b[7..7 + SizeOnWire(b)]), b[8 + SizeOnWire(b)..])
  }

  /** Main result, for any bytes: when a frame is parsed, and which; and the error
      otherwise. */
  lemma ParsedOnWire(b: seq<byte>)
    ensures var r := ParseOne(b);
            && (r.Parsed? <==> StartsWithFrame(b))
            && (r.Parsed? ==> (r.frame, r.rest) == FrameOnWire(b))
            && (|b| == 0 ==> r == Failed(EndOfStream, []))
            && (0 < |b| < 7 ==> r == Failed(TruncatedHeader, []))
            && (r.Failed? && |b| >= 7 ==>
                  var size := SizeOnWire(b);
                  if size > 1_048_576 then r == Failed(Oversized(size), b[7..])
                  else if |b| < 7 + size then r == Failed(TruncatedPayload, [])
                  else if |b| == 7 + size then r == Failed(MissingEnd, [])
                  else b[7 + size] != 0xCE && r == Failed(BadEnd(b[7 + size]), b[8 + size..]))
  {
    BigEndian(b, 1);
    BigEndian(b, 3);
    hide U16, U32;
  }

  lemma HeaderAlone(b: seq<byte>)
    requires |b| >= 7
    ensures U16(b[..7], 1) == U16(b, 1) && U32(b[..7], 3) == U32(b, 3)
  {
  }

  lemma ParsedIff(b: seq<byte>)
    ensures ParseOne(b).Parsed? <==> StartsWithFrame(b)
    ensures StartsWithFrame(b) ==> (ParseOne(b).frame, ParseOne(b).rest) == FrameOnWire(b)
  {
    hide ParseOne, StartsWithFrame, FrameOnWire;
    ParsedOnWire(b);
  }

  /** Main result, from the wire: the bytes of a frame of any type, channel and payload,
      with any bytes behind them. */
  lemma FrameFromBytes(typ: byte, channel: uint16, payload: seq<byte>, rest: seq<byte>)
    requires |payload| <= 1_048_576
    ensures var n := |payload|;
            var header: seq<byte> := [typ, channel / 256, channel % 256, 0, n / 65_536, n / 256 % 256, n % 256];
            ParseOne(header + payload + [0xCE] + rest) == Parsed(Frame(typ, channel, n, payload), rest)
  {
    var n := |payload|;
    var header: seq<byte> := [typ, channel / 256, channel % 256, 0, n / 65_536, n / 256 % 256, n % 256];
    var b := header + payload + [0xCE] + rest;
    assert b[..7] == header && forall i :: 0 <= i < 7 ==> b[i] == header[i];
    assert SizeOnWire(b) == n by {
      assert n / 65_536 * 65_536 + n / 256 % 256 * 256 + n % 256 == n;
    }
    assert b[7..7 + n] == payload && b[7 + n] == 0xCE && b[8 + n..] == rest;
    hide ParseOne;
    ParsedOnWire(b);
  }

  /** The frames of a stream up to its first error, and that error. */
  datatype Stream = Stream(frames: seq<Frame>, error: Error)

  function ParseAll(b: seq<byte>): Stream
    decreases |b|
  {
    match ParseOne(b)
    case Failed(error, _) => Stream([], error)
    case Parsed(f, rest) =>
      var tail := ParseAll(rest);
      Stream([f] + tail.frames, tail.error)
  }

  lemma ParseAllStep(b: seq<byte>)
    ensures match ParseOne(b)
            case Failed(_, _) => ParseAll(b).frames == []
            case Parsed(f, rest) => ParseAll(b).frames == [f] + ParseAll(rest).frames
  {
    hide ParseOne;
  }

  // ------------------------------------------------------- the codec

  /** Parsing undoes encoding, whatever follows. */
  lemma ParseEncoded(f: Frame, rest: seq<byte>)
    requires ValidFrame(f)
    ensures ParseOne(Encode(f) + rest) == Parsed(f, rest)
  {
    var b := Encode(f) + rest;
    var n := |f.payload|;
    assert b == [f.typ] + Put16(f.channel) + (Put32(f.size) + f.payload + [FRAME_END_BYTE] + rest);
    ReadInside([f.typ], Put16(f.channel), Put32(f.size) + f.payload + [FRAME_END_BYTE] + rest);
    assert b == [f.typ] + Put16(f.channel) + Put32(f.size) + (f.payload + [FRAME_END_BYTE] + rest);
    ReadInside([f.typ] + Put16(f.channel), Put32(f.size), f.payload + [FRAME_END_BYTE] + rest);
    assert b[7..7 + n] == f.payload && b[7 + n] == FRAME_END_BYTE && b[8 + n..] == rest;
  }

  /** Encoding undoes parsing: a frame returned is a valid one, and exactly its
      encoding was consumed. */
  lemma EncodeParsed(b: seq<byte>)
    requires ParseOne(b).Parsed?
    ensures var r := ParseOne(b); ValidFrame(r.frame) && b == Encode(r.frame) + r.rest
  {
    var r := ParseOne(b);
    var n := r.frame.size;
    Put16Back(b, 1);
    Put32Back(b, 3);
    assert b == b[..1] + b[1..3] + b[3..7] + b[7..7 + n] + b[7 + n..8 + n] + b[8 + n..];
    assert b[..1] == [r.frame.typ] && b[7 + n..8 + n] == [FRAME_END_BYTE];
  }

  lemma ParseAllEncoded(f: Frame, rest: seq<byte>)
    requires ValidFrame(f)
    ensures ParseAll(Encode(f) + rest) == Stream([f] + ParseAll(rest).frames, ParseAll(rest).error)
  {
    hide Encode, ParseOne;
    ParseEncoded(f, rest);
  }

  /** Main result: the frames of a concatenation are the frames written into it,
      followed by whatever comes after them. */
  lemma {:induction false} ParseConcatenation(fs: seq<Frame>, rest: seq<byte>)
    requires forall i :: 0 <= i < |fs| ==> ValidFrame(fs[i])
    ensures ParseAll(EncodeAll(fs) + rest) == Stream(fs + ParseAll(rest).frames, ParseAll(rest).error)
  {
    hide Encode, ParseAll;
    if fs == [] {
      assert EncodeAll(fs) + rest == rest;
    } else {
      var tail := EncodeAll(fs[1..]) + rest;
      assert EncodeAll(fs) + rest == Encode(fs[0]) + tail;
      ParseAllEncoded(fs[0], tail);
      ParseConcatenation(fs[1..], rest);
      assert [fs[0]] + (fs[1..] + ParseAll(rest).frames) == fs + ParseAll(rest).frames;
    }
  }

  /** Main result: a stream of whole frames ends cleanly with exactly those. */
  lemma ParseEncodedStream(fs: seq<Frame>)
    requires forall i :: 0 <= i < |fs| ==> ValidFrame(fs[i])
    ensures ParseAll(EncodeAll(fs)) == Stream(fs, EndOfStream)
  {
    hide Encode;
    ParseConcatenation(fs, []);
    assert EncodeAll(fs) + [] == EncodeAll(fs);
    assert fs + [] == fs;
  }

  /** Main result, the other direction: any stream is the encoding of its frames
      followed by bytes that hold no further frame. */
  lemma {:induction false} StreamIsItsFrames(b: seq<byte>) returns (tail: seq<byte>)
    ensures b == EncodeAll(ParseAll(b).frames) + tail
    ensures ParseOne(tail).Failed? && ParseOne(tail).error == ParseAll(b).error
    ensures forall i :: 0 <= i < |ParseAll(b).frames| ==> ValidFrame(ParseAll(b).frames[i])
    decreases |b|
  {
    hide Encode, ParseOne;
    if ParseOne(b).Failed? {
      tail := b;
      assert [] + tail == b;
    } else {
      var r := ParseOne(b);
      EncodeParsed(b);
      tail := StreamIsItsFrames(r.rest);
      var fs := ParseAll(b).frames;
      assert fs[1..] == ParseAll(r.rest).frames;
      assert Encode(fs[0]) + (EncodeAll(fs[1..]) + tail) == EncodeAll(fs) + tail;
    }
  }

  /** Two frame sequences with the same bytes are the same. */
  lemma EncodingIsInjective(fs: seq<Frame>, gs: seq<Frame>)
    requires forall i :: 0 <= i < |fs| ==> ValidFrame(fs[i])
    requires forall i :: 0 <= i < |gs| ==> ValidFrame(gs[i])
    requires EncodeAll(fs) == EncodeAll(gs)
    ensures fs == gs
  {
    hide Encode, ParseOne;
    ParseEncodedStream(fs);
    ParseEncodedStream(gs);
  }

  lemma {:induction false} EncodedLength(fs: seq<Frame>)
    ensures |EncodeAll(fs)| >= 8 * |fs|
  {
    if fs == [] {
    } else {
      EncodedLength(fs[1..]);
    }
  }

  /** Main result: the loop stops after at most one frame per eight bytes, however
      malformed the stream is. */
  lemma LoopIsBounded(b: seq<byte>)
    ensures 8 * |ParseAll(b).frames| <= |b|
  {
    var tail := StreamIsItsFrames(b);
    EncodedLength(ParseAll(b).frames);
  }

  lemma Associative<T>(a: seq<T>, b: seq<T>, c: seq<T>)
    ensures a + (b + c) == a + b + c
  {
  }

  lemma EncodeAllHead(f: Frame, fs: seq<Frame>)
    ensures EncodeAll([f] + fs) == Encode(f) + EncodeAll(fs)
  {
    assert ([f] + fs)[1..] == fs;
  }

  lemma {:induction false} EncodeAllConcat(fs: seq<Frame>, gs: seq<Frame>)
    ensures EncodeAll(fs + gs) == EncodeAll(fs) + EncodeAll(gs)
  {
    hide Encode;
    if fs == [] {
      assert fs + gs == gs && EncodeAll(fs) == [];
    } else {
      hide EncodeAll;
      var first, rest := fs[0], fs[1..];
      EncodeAllConcat(rest, gs);
      assert fs == [first] + rest;
      EncodeAllHead(first, rest);
      assert fs + gs == [first] + (rest + gs);
      EncodeAllHead(first, rest + gs);
      Associative(Encode(first), EncodeAll(rest), EncodeAll(gs));
    }
  }

  /** Main result: a capture cut off anywhere yields a prefix of the frames of the
      whole stream, and loses none that arrived completely. */
  lemma TruncationIsSafe(b: seq<byte>, cut: nat)
    requires cut <= |b|
    ensures ParseAll(b[..cut]).frames <= ParseAll(b).frames
    ensures forall k :: 0 <= k <= |ParseAll(b).frames| && |EncodeAll(ParseAll(b).frames[..k])| <= cut ==>
              k <= |ParseAll(b[..cut]).frames|
  {
    hide Encode, EncodeAll, ParseOne, ParseAll;
    // what the prefix yields, the whole stream yields
    var part := ParseAll(b[..cut]).frames;
    var tail := StreamIsItsFrames(b[..cut]);
    assert b == EncodeAll(part) + (tail + b[cut..]);
    ParseConcatenation(part, tail + b[cut..]);
    // what fits into the prefix, the prefix yields
    var all := ParseAll(b).frames;
    var end := StreamIsItsFrames(b);
    forall k | 0 <= k <= |all| && |EncodeAll(all[..k])| <= cut
      ensures k <= |part|
    {
      EncodeAllConcat(all[..k], all[k..]);
      assert all[..k] + all[k..] == all;
      var rest := b[|EncodeAll(all[..k])|..cut];
      assert b[..cut] == EncodeAll(all[..k]) + rest;
      ParseConcatenation(all[..k], rest);
    }
  }

  // ------------------------------------------------------- the protocol header

  /** 'A', 'M', 'Q', 'P' */
  const AMQP: seq<byte> := [0x41, 0x4D, 0x51, 0x50]

  predicate StartsWithAmqp(b: seq<byte>) {
    |b| >= 4 && b[..4] == AMQP
  }

  /** What amqpStream.run makes of a stream: a client's protocol header is skipped,
      any other first eight bytes are pushed back. */
  function RunFrames(b: seq<byte>): seq<Frame> {
    if |b| < 8 then []
    else if StartsWithAmqp(b) then ParseAll(b[8..]).frames
    else ParseAll(b).frames
  }

  /** Main result, byte by byte: which streams are read behind a header of eight bytes. */
  lemma SniffedOnWire(b: seq<byte>)
    ensures RunFrames(b) ==
            if |b| < 8 then []
            else if b[0] == 0x41 && b[1] == 0x4D && b[2] == 0x51 && b[3] == 0x50 then ParseAll(b[8..]).frames
            else ParseAll(b).frames
  {
    hide ParseAll;
    if |b| >= 8 {
      assert b[..4] == [b[0], b[1], b[2], b[3]];
    }
  }

  /** Main result: sniffing loses nothing.  A stream that does not start with AMQP
      yields the frames of the raw stream, short streams included. */
  lemma ServerStreamsAreUntouched(b: seq<byte>)
    requires !StartsWithAmqp(b)
    ensures RunFrames(b) == ParseAll(b).frames
  {
    LoopIsBounded(b);
  }

  /** Main result: a protocol header followed by frames yields those frames. */
  lemma ClientStreamsLoseOnlyTheHeader(header: seq<byte>, fs: seq<Frame>)
    requires |header| == 8 && StartsWithAmqp(header)
    requires forall i :: 0 <= i < |fs| ==> ValidFrame(fs[i])
    ensures RunFrames(header + EncodeAll(fs)) == fs
  {
    hide Encode, EncodeAll, ParseOne, ParseAll;
    var b := header + EncodeAll(fs);
    assert b[..4] == header[..4] && b[8..] == EncodeAll(fs);
    ParseEncodedStream(fs);
  }

  /** Where the frames of a stream start. */
  function FirstFrame(b: seq<byte>): nat {
    if StartsWithAmqp(b) then 8 else 0
  }

  /** Main result: the same through the sniffing, for client and server streams.  A
      stream cut anywhere, inside its first eight bytes too, yields a prefix of the
      frames of the whole, and each frame that arrived completely. */
  lemma TruncatedStreamIsSafe(b: seq<byte>, cut: nat)
    requires cut <= |b|
    ensures RunFrames(b[..cut]) <= RunFrames(b)
    ensures forall k :: 0 <= k <= |RunFrames(b)| && FirstFrame(b) + |EncodeAll(RunFrames(b)[..k])| <= cut ==>
              k <= |RunFrames(b[..cut])|
  {
    hide EncodeAll, ParseAll;
    var all := RunFrames(b);
    if cut < 8 {
      forall k | 0 <= k <= |all| && FirstFrame(b) + |EncodeAll(all[..k])| <= cut
        ensures k == 0
      {
        EncodedLength(all[..k]);
      }
    } else {
      assert b[..cut][..4] == b[..4];
      if StartsWithAmqp(b) {
        assert b[..cut][8..] == b[8..][..cut - 8];
        TruncationIsSafe(b[8..], cut - 8);
      } else {
        TruncationIsSafe(b, cut);
      }
    }
  }

  /** Main result: the sniffing is needed and never wrong.  Read as a frame header,
      AMQP announces a payload over the limit, so the raw loop decodes nothing at
      all from a client stream; and no stream of AMQP frames starts like one. */
  lemma RawLoopDecodesNothingFromClients(b: seq<byte>)
    requires StartsWithAmqp(b)
    ensures ParseAll(b).frames == []
  {
    assert b[3] == b[..4][3] == 0x50;
    if |b| >= 7 {
      assert U32(b, 3) >= 0x5000_0000;
    }
  }

  lemma FramesAreNoClientStream(f: Frame, rest: seq<byte>)
    requires ValidFrame(f)
    ensures !StartsWithAmqp(Encode(f) + rest)
    ensures f.typ in {FRAME_METHOD, FRAME_HEADER, FRAME_BODY, FRAME_HEARTBEAT} ==> (Encode(f) + rest)[0] != AMQP[0]
  {
    if StartsWithAmqp(Encode(f) + rest) {
      RawLoopDecodesNothingFromClients(Encode(f) + rest);
      ParseEncoded(f, rest);
      assert false;
    }
  }

  // ------------------------------------------------------- reading in chunks

  function Flatten(chunks: seq<seq<byte>>): seq<byte> {
    if chunks == [] then [] else chunks[0] + Flatten(chunks[1..])
  }

  /** The buffer size of io.Copy. */
  const COPY_BUFFER: nat := 32 * 1024

  /** An io.Reader over reassembled TCP data: each read returns bytes of one chunk
      only, possibly none, and end of stream when no chunk is left. */
  class Reader {
    var chunks: seq<seq<byte>>

    ghost function Remaining(): seq<byte>
      reads this
    {
      Flatten(chunks)
    }

    constructor (chunks: seq<seq<byte>>)
      ensures this.chunks == chunks
    {
      this.chunks := chunks;
    }

    /** Read up to `n` bytes. */
    method Read(n: nat) returns (data: seq<byte>, eof: bool)
      requires n > 0
      modifies this
      ensures |data| <= n
      ensures old(Remaining()) == data + Remaining()
      ensures eof <==> old(chunks) == []
      ensures eof ==> data == [] && Remaining() == []
      ensures |data| > 0 || eof || |chunks| < |old(chunks)|
      ensures |chunks| <= |old(chunks)|
    {
      if chunks == [] {
        return [], true;
      }
      var first := chunks[0];
      var k := Min(n, |first|);
      data, eof := first[..k], false;
      ghost var after := chunks[1..];
      if k < |first| {
        chunks := [first[k..]] + chunks[1..];
        assert chunks[1..] == after;
      } else {
        chunks := chunks[1..];
      }
      assert first + Flatten(after) == first[..k] + (first[k..] + Flatten(after));
    }

    /** io.ReadFull: `n` bytes, or all there is. */
    method ReadFull(n: nat) returns (data: seq<byte>)
      modifies this
      ensures var b := old(Remaining());
              var k := Min(n, |b|);
              data == b[..k] && Remaining() == b[k..]
    {
      data := [];
      var eof := false;
      ghost var b := Remaining();
      while |data| < n && !eof
        invariant |data| <= n
        invariant b == data + Remaining()
        invariant eof ==> Remaining() == []
        decreases n - |data|, |chunks|, !eof
      {
        ghost var before := data;
        var more;
        more, eof := Read(n - |data|);
        data := data + more;
        assert before + (more + Remaining()) == data + Remaining();
      }
    }

    /** io.Copy into io.Discard: reads on until the end of the stream. */
    method Drain()
      modifies this
      ensures Remaining() == []
    {
      var eof := false;
      while !eof
        invariant eof ==> Remaining() == []
        decreases |Remaining()|, |chunks|, !eof
      {
        var data;
        data, eof := Read(COPY_BUFFER);
      }
    }

    /** io.MultiReader over the given bytes and this reader. */
    method PushBack(data: seq<byte>)
      modifies this
      ensures Remaining() == data + old(Remaining())
    {
      chunks := [data] + chunks;
      assert chunks[1..] == old(chunks);
    }
  }

  datatype Result = Ok(frame: Frame) | Err(error: Error)

  class Parser {
    const reader: Reader

    constructor (reader: Reader)
      ensures this.reader == reader
    {
      this.reader := reader;
    }

    /** Main result: the outcome and the bytes consumed depend on the bytes of the
        stream alone, however they are cut into chunks. */
    method NextFrame() returns (r: Result)
      modifies reader
      ensures var b := old(reader.Remaining());
              (r.Ok? <==> StartsWithFrame(b)) && (r.Ok? ==> (r.frame, reader.Remaining()) == FrameOnWire(b))
      ensures match ParseOne(old(reader.Remaining()))
              case Parsed(f, rest) => r == Ok(f) && reader.Remaining() == rest
              case Failed(e, rest) => r == Err(e) && reader.Remaining() == rest
    {
      hide StartsWithFrame, FrameOnWire, U16, U32;
      ghost var b := reader.Remaining();
      ParsedIff(b);
      var header := reader.ReadFull(7);
      if |header| == 0 {
        return Err(EndOfStream);
      }
      if |header| < 7 {
        return Err(TruncatedHeader);
      }
      HeaderAlone(b);
      var typ, channel, size := header[0], U16(header, 1), U32(header, 3);
      if size > MAX_FRAME_SIZE {
        return Err(Oversized(size));
      }
      var payload := reader.ReadFull(size);
      if |payload| < size {
        return Err(TruncatedPayload);
      }
      var endByte := reader.ReadFull(1);
      if |endByte| < 1 {
        return Err(MissingEnd);
      }
      assert endByte[0] == b[7 + size] && payload == b[7..7 + size] && reader.Remaining() == b[8 + size..];
      if endByte[0] != FRAME_END_BYTE {
        return Err(BadEnd(endByte[0]));
      }
      return Ok(Frame(typ, channel, size, payload));
    }
  }
}
