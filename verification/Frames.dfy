/** The stream framing: an 8-byte header (opcode, three arguments, big-endian length) and a payload. */
module Frames {
  import opened Bytes
  import opened Incremental

  const FRAME_HEADER_SIZE: nat := 8

  datatype ProtocolError = ProtocolError
  datatype Frame = Frame(opcode: byte, arg1: byte, arg2: byte, arg3: byte, payload: bytes)

  /** A frame on the wire. */
  function FrameBytes(f: Frame): bytes {
    [f.opcode, f.arg1, f.arg2, f.arg3] + Be32(|f.payload|) + f.payload
  }

  /** Where everything stands in it: the length in the fifth to eighth byte, of which the
      fifth counts 2^24. */
  lemma FrameLayout(f: Frame)
    requires |f.payload| < TWO32
    ensures var s := FrameBytes(f);
            && |s| == 8 + |f.payload|
            && s[0] == f.opcode && s[1] == f.arg1 && s[2] == f.arg2 && s[3] == f.arg3 && s[8..] == f.payload
            && var a: int, b: int, c: int, d: int := s[4], s[5], s[6], s[7];
               16777216 * a + 65536 * b + 256 * c + d == |f.payload|
  {
    Be32Digits(|f.payload|);
    hide Be32;
    var s, w := FrameBytes(f), Be32(|f.payload|);
    assert s[4] == w[0] && s[5] == w[1] && s[6] == w[2] && s[7] == w[3];
  }

  /** A typed-array store: out of range it does nothing. */
  method Store(target: array<byte>, at: nat, value: int)
    modifies target
    ensures forall i :: 0 <= i < target.Length ==> target[i] == if i == at then LowByte(value) else old(target[i])
  {
    if at < target.Length {
      target[at] := LowByte(value);
    }
  }

  method WriteUint32BE(target: array<byte>, offset: nat, value: int)
    modifies target
    ensures forall i :: 0 <= i < target.Length ==>
      target[i] == if offset <= i < offset + 4 then Be32(value)[i - offset] else old(target[i])
  {
    var u := ToUint32(value);
    Store(target, offset, u / 256 / 256 / 256);
    Store(target, offset + 1, u / 256 / 256);
    Store(target, offset + 2, u / 256);
    Store(target, offset + 3, u);
  }

  function ReadUint32BE(source: bytes, offset: nat): Result<nat, ProtocolError> {
    if |source| < offset + 4 then Err(ProtocolError) else Ok(FromBe32(source, offset))
  }

  method EncodeFrame(opcode: int, arg1: int, arg2: int, arg3: int, payload: bytes)
    returns (r: Result<bytes, ProtocolError>)
    ensures r == if |payload| >= TWO32 then Err(ProtocolError)
                 else Ok(FrameBytes(Frame(LowByte(opcode), LowByte(arg1), LowByte(arg2), LowByte(arg3), payload)))
  {
    if |payload| > 0xffff_ffff {
      return Err(ProtocolError);
    }
    var out := new byte[FRAME_HEADER_SIZE + |payload|];
    out[0], out[1], out[2], out[3] := LowByte(opcode), LowByte(arg1), LowByte(arg2), LowByte(arg3);
    WriteUint32BE(out, 4, |payload|);
    forall i | 0 <= i < |payload| {
      out[FRAME_HEADER_SIZE + i] := payload[i];
    }
    var f := Frame(LowByte(opcode), LowByte(arg1), LowByte(arg2), LowByte(arg3), payload);
    assert out[..] == FrameBytes(f);
    return Ok(out[..]);
  }

  /** The declared length is read as a signed word, and a negative one counts as zero. */
  function ReadPayloadLength(header: bytes): Result<nat, ProtocolError> {
    if |header| < FRAME_HEADER_SIZE then Err(ProtocolError)
    else
      var length := ToInt32(FromBe32(header, 4));
      Ok(if length < 0 then 0 else length)
  }

  /** The length read packs back into the bytes it came from, unless the sign
      bit was set; then it is zero. */
  lemma PayloadLengthRead(header: bytes)
    requires |header| >= FRAME_HEADER_SIZE
    ensures header[4] < 128 ==> Be32(ReadPayloadLength(header).value) == header[4..8]
    ensures header[4] >= 128 ==> ReadPayloadLength(header).value == 0
  {
    Be32Inverse(header, 4);
  }

  function DecodeFrame(buffer: bytes): Decoded<Frame> {
    if |buffer| < FRAME_HEADER_SIZE then Incomplete
    else
      var total := FRAME_HEADER_SIZE + ReadPayloadLength(buffer).value;
      if |buffer| < total then Incomplete
      else
        Complete(Frame(buffer[0], buffer[1], buffer[2], buffer[3], buffer[FRAME_HEADER_SIZE..total]), total)
  }

  function ParseFrames(s: bytes): Parsed<Frame> {
    ParseAll(DecodeFrame, s)
  }

  /** A decode is settled by the bytes it consumes: appending more never changes it. */
  lemma DecodeFrameIsFraming()
    ensures Framing(DecodeFrame, FRAME_HEADER_SIZE)
  {
    forall s, t | DecodeFrame(s).Complete?
      ensures DecodeFrame(s + t) == DecodeFrame(s)
    {
      assert FromBe32(s + t, 4) == FromBe32(s, 4);
      var total := DecodeFrame(s).size;
      assert (s + t)[FRAME_HEADER_SIZE..total] == s[FRAME_HEADER_SIZE..total];
    }
  }

  lemma ParseFramesAppend(s: bytes, t: bytes)
    ensures var first := ParseFrames(s);
            var second := ParseFrames(first.rest + t);
            ParseFrames(s + t) == Parsed(first.items + second.items, second.rest)
  {
    DecodeFrameIsFraming();
    ParseAppend(DecodeFrame, FRAME_HEADER_SIZE, s, t);
  }

  /** Encode then decode returns the frame, whatever follows it, exactly when
      the length does not reach the sign bit. */
  lemma FrameRoundTrip(f: Frame, rest: bytes)
    requires |f.payload| < TWO32
    ensures DecodeFrame(FrameBytes(f) + rest) == Complete(f, FRAME_HEADER_SIZE + |f.payload|)
            <==> |f.payload| < TWO31
    ensures |f.payload| >= TWO31 ==>
              DecodeFrame(FrameBytes(f) + rest) == Complete(f.(payload := []), FRAME_HEADER_SIZE)
  {
    var s := FrameBytes(f) + rest;
    assert s[4..8] == Be32(|f.payload|);
    assert s[4] == Be32(|f.payload|)[0] && s[5] == Be32(|f.payload|)[1];
    assert s[6] == Be32(|f.payload|)[2] && s[7] == Be32(|f.payload|)[3];
    Be32RoundTrip(|f.payload|);
    assert FromBe32(s, 4) == |f.payload|;
    if |f.payload| < TWO31 {
      assert s[FRAME_HEADER_SIZE..FRAME_HEADER_SIZE + |f.payload|] == f.payload;
    } else {
      assert s[FRAME_HEADER_SIZE..FRAME_HEADER_SIZE] == [];
    }
  }

  /** A short frame's bytes are one whole frame at the front of any stream. */
  lemma ParseFrameBytes(f: Frame, rest: bytes)
    requires |f.payload| < TWO31
    ensures ParseFrames(FrameBytes(f) + rest)
         == Parsed([f] + ParseFrames(rest).items, ParseFrames(rest).rest)
  {
    DecodeFrameIsFraming();
    FrameRoundTrip(f, []);
    assert FrameBytes(f) + [] == FrameBytes(f);
    ParseWhole(DecodeFrame, FRAME_HEADER_SIZE, FrameBytes(f), rest);
  }

  function FramesBytes(frames: seq<Frame>): bytes {
    if frames == [] then [] else FrameBytes(frames[0]) + FramesBytes(frames[1..])
  }

  /** Some header met while parsing `s` has the sign bit of its length set. */
  predicate HasNegativeHeader(s: bytes)
    decreases |s|
  {
    match DecodeFrame(s)
    case Incomplete => false
    case Complete(_, size) => s[4] >= 128 || HasNegativeHeader(s[size..])
  }

  lemma DecodedBytes(s: bytes)
    requires DecodeFrame(s).Complete?
    ensures FrameBytes(DecodeFrame(s).item) == s[..DecodeFrame(s).size] <==> s[4] < 128
    ensures |FrameBytes(DecodeFrame(s).item)| == DecodeFrame(s).size
    ensures s[4] >= 128 ==> DecodeFrame(s).size == FRAME_HEADER_SIZE && DecodeFrame(s).item.payload == []
  {
    var f, size := DecodeFrame(s).item, DecodeFrame(s).size;
    assert |f.payload| == size - FRAME_HEADER_SIZE;
    PayloadLengthRead(s);
    var out := FrameBytes(f);
    assert out[4..8] == Be32(|f.payload|);
    if s[4] < 128 {
      assert out == s[..4] + s[4..8] + s[8..size];
      assert out == s[..size];
    } else {
      assert out[4] == 0 && s[..size][4] == s[4];
    }
  }

  /** Encoding every decoded frame again and appending the pending tail gives
      back the input exactly when no header was read as negative. */
  lemma {:induction false} ReencodeIsIdentity(s: bytes)
    ensures FramesBytes(ParseFrames(s).items) + ParseFrames(s).rest == s <==> !HasNegativeHeader(s)
    ensures |FramesBytes(ParseFrames(s).items) + ParseFrames(s).rest| == |s|
    decreases |s|
  {
    if DecodeFrame(s).Complete? {
      var f, size := DecodeFrame(s).item, DecodeFrame(s).size;
      var tail := ParseFrames(s[size..]);
      DecodedBytes(s);
      ReencodeIsIdentity(s[size..]);
      ReencodeCons(f, tail.items, tail.rest);
      assert ParseFrames(s) == Parsed([f] + tail.items, tail.rest);
      hide DecodeFrame, FrameBytes, ParseFrames;
      var front, back := FrameBytes(f), FramesBytes(tail.items) + tail.rest;
      SplitEquality(front, back, s);
    }
  }

  lemma ReencodeCons(f: Frame, later: seq<Frame>, rest: bytes)
    ensures FramesBytes([f] + later) + rest == FrameBytes(f) + (FramesBytes(later) + rest)
  {
    hide FrameBytes;
    assert ([f] + later)[1..] == later;
  }

  lemma SplitEquality(a: bytes, b: bytes, s: bytes)
    requires |a| <= |s|
    ensures a + b == s <==> a == s[..|a|] && b == s[|a|..]
  {
    assert s == s[..|a|] + s[|a|..];
    assert (a + b)[..|a|] == a && (a + b)[|a|..] == b;
  }

  /** One turn of the decoder's loop. */
  lemma FrameTurn(s: bytes)
    ensures DecodeFrame(s).Incomplete? ==> ParseFrames(s) == Parsed([], s)
    ensures DecodeFrame(s).Complete? ==>
      && FRAME_HEADER_SIZE <= DecodeFrame(s).size <= |s|
      && var tail := ParseFrames(s[DecodeFrame(s).size..]);
         ParseFrames(s) == Parsed([DecodeFrame(s).item] + tail.items, tail.rest)
  {
    hide DecodeFrame;
    DecodeFrameIsFraming();
    ParseTurn(DecodeFrame, FRAME_HEADER_SIZE, s);
  }

  class FrameDecoder {
    var buffer: bytes

    constructor ()
      ensures buffer == []
    {
      buffer := [];
    }

    method Push(chunk: bytes) returns (frames: seq<Frame>)
      modifies this
      ensures Parsed(frames, buffer) == ParseFrames(old(buffer) + chunk)
      ensures DecodeFrame(buffer).Incomplete?
    {
      if |chunk| > 0 {
        buffer := buffer + chunk;
      }
      assert old(buffer) + chunk == buffer;
      frames := [];
      ghost var whole := ParseFrames(buffer);
      while true
        invariant whole == Parsed(frames + ParseFrames(buffer).items, ParseFrames(buffer).rest)
        decreases |buffer|
      {
        hide DecodeFrame, ParseFrames;
        FrameTurn(buffer);
        var decoded := DecodeFrame(buffer);
        if decoded.Incomplete? {
          break;
        }
        var later := ParseFrames(buffer[decoded.size..]).items;
        assert frames + ([decoded.item] + later) == (frames + [decoded.item]) + later;
        frames := frames + [decoded.item];
        buffer := buffer[decoded.size..];
      }
    }
  }

  /** The decoder is one-shot parsing: for every way of cutting a stream into
      chunks the frames are those of the whole stream, the buffer kept is its
      unparsed tail, and every frame used up at least a header. */
  lemma DecoderRefinesParsing(buffer: bytes, chunks: seq<bytes>)
    requires DecodeFrame(buffer).Incomplete?
    ensures var whole := buffer + Flatten(chunks);
            var r := Feed(DecodeFrame, buffer, chunks);
            && r == ParseFrames(whole)
            && DecodeFrame(r.rest).Incomplete?
            && |r.rest| <= |whole| && r.rest == whole[|whole| - |r.rest|..]
            && FRAME_HEADER_SIZE * |r.items| + |r.rest| <= |whole|
  {
    hide DecodeFrame;
    DecodeFrameIsFraming();
    FeedIsParseAll(DecodeFrame, FRAME_HEADER_SIZE, buffer, chunks);
    FrameRest(buffer + Flatten(chunks));
  }

  /** What parsing leaves over, and how much each frame used up. */
  lemma FrameRest(s: bytes)
    ensures var r := ParseFrames(s);
            && DecodeFrame(r.rest).Incomplete?
            && |r.rest| <= |s| && r.rest == s[|s| - |r.rest|..]
            && FRAME_HEADER_SIZE * |r.items| + |r.rest| <= |s|
  {
    hide DecodeFrame;
    DecodeFrameIsFraming();
    RestIsUnparsedTail(DecodeFrame, FRAME_HEADER_SIZE, s);
  }
}
