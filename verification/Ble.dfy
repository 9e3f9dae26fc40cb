/** BLE framing: ten-byte commands, and data frames that carry their own offset. */
module Ble {
  import opened Bytes

  const MAX_UINT24: nat := 0xff_ffff
  const MAX_UINT16: nat := 0xffff
  const COMMAND_FRAME_SIZE: nat := 10
  const DATA_FRAME_HEADER_SIZE: nat := 5

  const JOB_PARAMS: byte := 0
  const ANNOUNCE_LENGTH: byte := 2
  const DATA_BLOCK: byte := 3
  const FINALIZE: byte := 4

  datatype ProtocolError = ProtocolError

  function Be24(x: int): bytes {
    var u := ToUint32(x);
    [u / 256 / 256 % 256, u / 256 % 256, u % 256]
  }

  function Be16(x: int): bytes {
    var u := ToUint32(x);
    [u / 256 % 256, u % 256]
  }

  function ArgumentBytes(opcode: byte, argument: int): bytes {
    if opcode == JOB_PARAMS then [LowByte(argument), 0, 0, 0] else Be32(argument)
  }

  function CommandBytes(totalLength: int, opcode: byte, argument: int): bytes {
    Be24(totalLength) + [0, 0, opcode] + ArgumentBytes(opcode, argument)
  }

  predicate Fits24(x: int) {
    0 <= x <= MAX_UINT24
  }

  /** The argument goes into the last four bytes, only the first of them for JOB_PARAMS. */
  method PutArgument(out: array<byte>, opcode: byte, argument: int)
    requires out.Length == COMMAND_FRAME_SIZE && forall i :: 6 <= i < 10 ==> out[i] == 0
    modifies out
    ensures out[..6] == old(out[..6]) && out[6..] == ArgumentBytes(opcode, argument)
  {
    hide ArgumentBytes, ToUint32, LowByte;
    ArgumentOf(opcode, argument);
    if opcode == JOB_PARAMS {
      out[6] := LowByte(argument);
    } else {
      var a := ToUint32(argument);
      out[6], out[7], out[8], out[9] := LowByte(a / 256 / 256 / 256), LowByte(a / 256 / 256), LowByte(a / 256), LowByte(a);
    }
    assert out[6..] == [out[6], out[7], out[8], out[9]];
  }

  method EncodeBleCommand(totalLength: int, opcode: byte, argument: int) returns (r: Result<bytes, ProtocolError>)
    ensures r == if Fits24(totalLength) then Ok(CommandBytes(totalLength, opcode, argument)) else Err(ProtocolError)
  {
    hide Be24, ArgumentBytes, ToUint32, LowByte;
    if totalLength < 0 || totalLength > MAX_UINT24 {
      return Err(ProtocolError);
    }
    LengthOf(totalLength);
    var t := ToUint32(totalLength);
    var out := new byte[COMMAND_FRAME_SIZE](_ => 0);
    out[0], out[1], out[2] := LowByte(t / 256 / 256), LowByte(t / 256), LowByte(t);
    out[3], out[4], out[5] := 0, 0, opcode;
    assert out[..6] == Be24(totalLength) + [0, 0, opcode];
    PutArgument(out, opcode, argument);
    assert out[..] == out[..6] + out[6..];
    return Ok(out[..]);
  }

  lemma LengthOf(x: int)
    ensures var t := ToUint32(x); Be24(x) == [LowByte(t / 256 / 256), LowByte(t / 256), LowByte(t)]
  {
    hide ToUint32;
  }

  lemma ArgumentOf(opcode: byte, argument: int)
    ensures opcode == JOB_PARAMS ==> ArgumentBytes(opcode, argument) == [LowByte(argument), 0, 0, 0]
    ensures opcode != JOB_PARAMS ==>
      var a := ToUint32(argument);
      ArgumentBytes(opcode, argument) == [LowByte(a / 256 / 256 / 256), LowByte(a / 256 / 256), LowByte(a / 256), LowByte(a)]
  {
    var a := ToUint32(argument);
    hide ToUint32;
    assert a / 256 / 256 / 256 < 256;
  }

  predicate FitsDataFrame(offset: int, size: nat) {
    0 <= offset <= MAX_UINT24 && 0 < size <= MAX_UINT16
  }

  function DataBytes(offset: int, payload: bytes): bytes {
    Be24(offset) + Be16(|payload|) + payload
  }

  method EncodeBleData(offset: int, payload: bytes) returns (r: Result<bytes, ProtocolError>)
    ensures r == if FitsDataFrame(offset, |payload|) then Ok(DataBytes(offset, payload)) else Err(ProtocolError)
  {
    if offset < 0 || offset > MAX_UINT24 || |payload| == 0 || |payload| > MAX_UINT16 {
      return Err(ProtocolError);
    }
    var out := new byte[DATA_FRAME_HEADER_SIZE + |payload|];
    out[0], out[1], out[2] := offset / 256 / 256 % 256, offset / 256 % 256, offset % 256;
    out[3], out[4] := |payload| / 256 % 256, |payload| % 256;
    forall i | 0 <= i < |payload| {
      out[DATA_FRAME_HEADER_SIZE + i] := payload[i];
    }
    assert out[..] == DataBytes(offset, payload);
    return Ok(out[..]);
  }

  datatype BleFrame = Command(totalLength: nat, opcode: byte, argument: nat) | Data(offset: nat, payload: bytes)

  function Number(a: int, b: int, c: int): int {
    (a * 256 + b) * 256 + c
  }

  /** A zero chunk length marks a command; anything else is data. */
  function DecodeBleFrame(frame: bytes): Result<BleFrame, ProtocolError> {
    if |frame| < DATA_FRAME_HEADER_SIZE then Err(ProtocolError)
    else
      var first := Number(frame[0], frame[1], frame[2]);
      var chunkLength := Number(0, frame[3], frame[4]);
      if chunkLength == 0 then
        if |frame| < COMMAND_FRAME_SIZE then Err(ProtocolError)
        else Ok(Command(first, frame[5], if frame[5] == JOB_PARAMS then frame[6] else FromBe32(frame, 6)))
      else
        var end := DATA_FRAME_HEADER_SIZE + chunkLength;
        if |frame| < end then Err(ProtocolError) else Ok(Data(first, frame[DATA_FRAME_HEADER_SIZE..end]))
  }

  lemma Be24RoundTrip(x: int)
    requires Fits24(x)
    ensures Number(Be24(x)[0], Be24(x)[1], Be24(x)[2]) == x
  {
  }

  lemma Be16RoundTrip(x: int)
    requires 0 <= x <= MAX_UINT16
    ensures Number(0, Be16(x)[0], Be16(x)[1]) == x
  {
  }

  /** A command decodes as itself: its argument to one byte for JOB_PARAMS, else modulo 2^32. */
  lemma CommandRoundTrip(totalLength: int, opcode: byte, argument: int, rest: bytes)
    requires Fits24(totalLength)
    ensures DecodeBleFrame(CommandBytes(totalLength, opcode, argument) + rest)
         == Ok(Command(totalLength, opcode, if opcode == JOB_PARAMS then LowByte(argument) else ToUint32(argument)))
  {
    var f := CommandBytes(totalLength, opcode, argument) + rest;
    Be24RoundTrip(totalLength);
    Be32RoundTrip(argument);
    hide Be24, Be32;
    assert f[0] == Be24(totalLength)[0] && f[1] == Be24(totalLength)[1] && f[2] == Be24(totalLength)[2];
    assert f[3] == 0 && f[4] == 0 && f[5] == opcode;
    if opcode != JOB_PARAMS {
      var a := Be32(argument);
      assert f[6] == a[0] && f[7] == a[1] && f[8] == a[2] && f[9] == a[3];
    }
  }

  /** A data frame that encodes at all decodes as data, to the same offset and bytes: never as a command. */
  lemma DataRoundTrip(offset: int, payload: bytes, rest: bytes)
    requires FitsDataFrame(offset, |payload|)
    ensures DecodeBleFrame(DataBytes(offset, payload) + rest) == Ok(Data(offset, payload))
  {
    var f := DataBytes(offset, payload) + rest;
    Be24RoundTrip(offset);
    Be16RoundTrip(|payload|);
    hide Be24, Be16;
    assert f[0] == Be24(offset)[0] && f[1] == Be24(offset)[1] && f[2] == Be24(offset)[2];
    assert f[3] == Be16(|payload|)[0] && f[4] == Be16(|payload|)[1];
    assert f[DATA_FRAME_HEADER_SIZE..DATA_FRAME_HEADER_SIZE + |payload|] == payload;
  }

  /** Which lengths, offsets and sizes have an encoding. */
  lemma WhatFits(x: int, size: nat)
    ensures Fits24(x) <==> 0 <= x < 0x100_0000
    ensures FitsDataFrame(x, size) <==> 0 <= x < 0x100_0000 && 1 <= size < 0x1_0000
  {
  }

  /** Where everything stands in a command: the length in the first three bytes, of which
      the first counts 2^16, two zeros, the opcode, and the argument. */
  lemma CommandLayout(totalLength: int, opcode: byte, argument: int)
    requires Fits24(totalLength)
    ensures var s := CommandBytes(totalLength, opcode, argument);
            && |s| == 10 && s[3] == 0 && s[4] == 0 && s[5] == opcode
            && s[6..] == (if opcode == 0 then [LowByte(argument), 0, 0, 0] else Be32(argument))
            && var a: int, b: int, c: int := s[0], s[1], s[2];
               65536 * a + 256 * b + c == totalLength
  {
    Be24RoundTrip(totalLength);
    hide Be24, Be32;
  }

  /** And in a data frame: the offset, then the length in two bytes, and the payload. */
  lemma DataLayout(offset: int, payload: bytes)
    requires FitsDataFrame(offset, |payload|)
    ensures var s := DataBytes(offset, payload);
            && |s| == 5 + |payload| && s[5..] == payload
            && var a: int, b: int, c: int, d: int, e: int := s[0], s[1], s[2], s[3], s[4];
               65536 * a + 256 * b + c == offset && 256 * d + e == |payload|
  {
    Be24RoundTrip(offset);
    Be16RoundTrip(|payload|);
    hide Be24, Be16;
  }

  lemma Be24Inverse(a: byte, b: byte, c: byte)
    ensures Fits24(Number(a, b, c)) && Be24(Number(a, b, c)) == [a, b, c]
  {
  }

  lemma Be16Inverse(a: byte, b: byte)
    ensures Be16(Number(0, a, b)) == [a, b]
  {
  }

  /** Whatever decodes as data is the encoding of what it decodes to. */
  lemma DataReencodes(frame: bytes)
    requires DecodeBleFrame(frame).Ok? && DecodeBleFrame(frame).value.Data?
    ensures var d := DecodeBleFrame(frame).value;
            && FitsDataFrame(d.offset, |d.payload|)
            && DataBytes(d.offset, d.payload) == frame[..DATA_FRAME_HEADER_SIZE + |d.payload|]
  {
    Be24Inverse(frame[0], frame[1], frame[2]);
    Be16Inverse(frame[3], frame[4]);
    SizeInRange(frame[3], frame[4]);
    hide Be24, Be16, Number;
    var d := DecodeBleFrame(frame).value;
    assert |d.payload| == Number(0, frame[3], frame[4]);
    var end := DATA_FRAME_HEADER_SIZE + |d.payload|;
    assert d.payload == frame[DATA_FRAME_HEADER_SIZE..end];
    assert frame[..end] == [frame[0], frame[1], frame[2]] + [frame[3], frame[4]] + frame[DATA_FRAME_HEADER_SIZE..end];
  }

  lemma SizeInRange(a: byte, b: byte)
    ensures 0 <= Number(0, a, b) <= MAX_UINT16
  {
  }

  /** Whatever decodes as a command is the encoding of what it decodes to exactly
      when the bytes no field covers are zero: the fourth and fifth always are,
      the last three count only for JOB_PARAMS. */
  lemma CommandReencodes(frame: bytes)
    requires DecodeBleFrame(frame).Ok? && DecodeBleFrame(frame).value.Command?
    ensures var c := DecodeBleFrame(frame).value;
            && Fits24(c.totalLength)
            && (CommandBytes(c.totalLength, c.opcode, c.argument) == frame[..COMMAND_FRAME_SIZE]
                <==> (c.opcode == JOB_PARAMS ==> frame[7..10] == [0, 0, 0]))
  {
    var c := DecodeBleFrame(frame).value;
    Be24Inverse(frame[0], frame[1], frame[2]);
    Be32Inverse(frame, 6);
    hide Be24, Be32, FromBe32;
    assert frame[3] == 0 && frame[4] == 0;
    assert frame[..COMMAND_FRAME_SIZE] == [frame[0], frame[1], frame[2]] + [0, 0, frame[5]] + frame[6..10];
    var out := CommandBytes(c.totalLength, c.opcode, c.argument);
    assert out[6..10] == ArgumentBytes(c.opcode, c.argument);
    assert frame[..COMMAND_FRAME_SIZE][6..10] == frame[6..10] && frame[6..10] == [frame[6]] + frame[7..10];
    if c.opcode == JOB_PARAMS {
      assert ArgumentBytes(c.opcode, c.argument) == [frame[6]] + [0, 0, 0];
      assert ArgumentBytes(c.opcode, c.argument)[1..] == [0, 0, 0] && frame[6..10][1..] == frame[7..10];
    }
  }

  // ----- Splitting a payload ---------------------------------------------------------

  datatype Chunk = Chunk(offset: nat, frame: bytes)

  /** What the generator yields, and whether it then throws. */
  datatype Yield = Yield(chunks: seq<Chunk>, failed: bool)

  function Piece(payload: bytes, chunkSize: nat, offset: nat): bytes
    requires offset < |payload|
  {
    payload[offset..Min(offset + chunkSize, |payload|)]
  }

  function SplitFrom(payload: bytes, chunkSize: nat, offset: nat): Yield
    requires chunkSize > 0
    decreases |payload| - offset
  {
    if offset >= |payload| then Yield([], false)
    else
      var piece := Piece(payload, chunkSize, offset);
      if !FitsDataFrame(offset, |piece|) then Yield([], true)
      else
        var later := SplitFrom(payload, chunkSize, offset + chunkSize);
        Yield([Chunk(offset, DataBytes(offset, piece))] + later.chunks, later.failed)
  }

  method BleDataFrames(payload: bytes, chunkSize: int) returns (r: Yield)
    ensures r == if chunkSize <= 0 then Yield([], true) else SplitFrom(payload, chunkSize, 0)
  {
    if chunkSize <= 0 {
      return Yield([], true);
    }
    var chunks: seq<Chunk>, offset: nat := [], 0;
    while offset < |payload|
      invariant SplitFrom(payload, chunkSize, 0)
             == Yield(chunks + SplitFrom(payload, chunkSize, offset).chunks, SplitFrom(payload, chunkSize, offset).failed)
      decreases |payload| - offset
    {
      var end := Min(offset + chunkSize, |payload|);
      var r := EncodeBleData(offset, payload[offset..end]);
      if r.Err? {
        return Yield(chunks, true);
      }
      var later := SplitFrom(payload, chunkSize, offset + chunkSize).chunks;
      assert chunks + ([Chunk(offset, r.value)] + later) == (chunks + [Chunk(offset, r.value)]) + later;
      chunks := chunks + [Chunk(offset, r.value)];
      offset := offset + chunkSize;
    }
    return Yield(chunks, false);
  }

  /** Every frame that would go out from `offset` on fits its fields. */
  predicate SplitFits(n: nat, chunkSize: nat, offset: nat)
    requires chunkSize > 0
  {
    offset >= n ||
    (Min(chunkSize, n - offset) <= MAX_UINT16 && offset + (n - 1 - offset) / chunkSize * chunkSize <= MAX_UINT24)
  }

  lemma FitsStep(n: nat, chunkSize: nat, offset: nat)
    requires chunkSize > 0 && offset < n
    ensures SplitFits(n, chunkSize, offset) <==>
      FitsDataFrame(offset, Min(chunkSize, n - offset)) && SplitFits(n, chunkSize, offset + chunkSize)
  {
    var m := n - 1 - offset;
    var q := m / chunkSize;
    DivMod(m, chunkSize);
    assert 0 <= q * chunkSize by { Scale(0, q, chunkSize); }
    if offset + chunkSize < n {
      LessOne(m, chunkSize);
      Distribute(q - 1, chunkSize);
    } else {
      assert q == 0 by { SmallQuotient(m, chunkSize); }
      assert q * chunkSize == 0;
    }
  }

  lemma LessOne(m: nat, d: nat)
    requires d > 0 && m >= d
    ensures (m - d) / d == m / d - 1
  {
    var q := m / d;
    DivMod(m, d);
    Distribute(q - 1, d);
    DivMod(m - d, d);
    var p := (m - d) / d;
    if p < q - 1 { Scale(p + 1, q - 1, d); }
    if p > q - 1 { Scale(q, p, d); }
  }

  lemma SmallQuotient(m: nat, d: nat)
    requires m < d
    ensures m / d == 0
  {
    DivMod(m, d);
    if m / d > 0 { Scale(1, m / d, d); }
  }

  /** The split completes exactly when its largest chunk fits 16 bits and its last
      offset fits 24; otherwise the generator throws. */
  lemma {:induction false} SplitCompletesIffFits(payload: bytes, chunkSize: nat, offset: nat)
    requires chunkSize > 0
    ensures !SplitFrom(payload, chunkSize, offset).failed <==> SplitFits(|payload|, chunkSize, offset)
    decreases |payload| - offset
  {
    if offset < |payload| {
      hide SplitFits, DataBytes, FitsDataFrame;
      FitsStep(|payload|, chunkSize, offset);
      SplitCompletesIffFits(payload, chunkSize, offset + chunkSize);
    }
  }

  /** In particular for every chunk size of 1..65535 and payload of at most 2^24 bytes. */
  lemma OrdinarySplitsComplete(payload: bytes, chunkSize: nat)
    requires 1 <= chunkSize <= MAX_UINT16 && |payload| <= MAX_UINT24 + 1
    ensures !SplitFrom(payload, chunkSize, 0).failed
  {
    SplitCompletesIffFits(payload, chunkSize, 0);
    if |payload| > 0 {
      DivMod(|payload| - 1, chunkSize);
    }
  }

  /** The i-th frame carries the i-th piece: offset `i * chunkSize`, bytes from
      there to the next offset or the end, and it decodes to exactly that. */
  predicate Carries(payload: bytes, chunkSize: nat, c: Chunk) {
    && c.offset < |payload|
    && FitsDataFrame(c.offset, |Piece(payload, chunkSize, c.offset)|)
    && c.frame == DataBytes(c.offset, Piece(payload, chunkSize, c.offset))
  }

  lemma SplitTurn(payload: bytes, chunkSize: nat, offset: nat)
    requires chunkSize > 0 && offset < |payload| && !SplitFrom(payload, chunkSize, offset).failed
    ensures var later := SplitFrom(payload, chunkSize, offset + chunkSize);
            var chunks := SplitFrom(payload, chunkSize, offset).chunks;
            && !later.failed && chunks != [] && chunks == [chunks[0]] + later.chunks
            && Carries(payload, chunkSize, chunks[0]) && chunks[0].offset == offset
  {
    hide DataBytes, FitsDataFrame, Piece;
  }

  lemma {:induction false} SplitPieces(payload: bytes, chunkSize: nat, offset: nat)
    requires chunkSize > 0 && !SplitFrom(payload, chunkSize, offset).failed
    ensures var chunks := SplitFrom(payload, chunkSize, offset).chunks;
            && (forall i :: 0 <= i < |chunks| ==> Carries(payload, chunkSize, chunks[i]))
            && (forall i :: 0 <= i < |chunks| ==> chunks[i].offset == offset + i * chunkSize)
            && offset + |chunks| * chunkSize >= |payload|
    decreases |payload| - offset
  {
    if offset < |payload| {
      hide SplitFrom, Carries;
      SplitTurn(payload, chunkSize, offset);
      var later := SplitFrom(payload, chunkSize, offset + chunkSize).chunks;
      var chunks := SplitFrom(payload, chunkSize, offset).chunks;
      SplitPieces(payload, chunkSize, offset + chunkSize);
      forall i | 0 <= i < |chunks|
        ensures Carries(payload, chunkSize, chunks[i]) && chunks[i].offset == offset + i * chunkSize
      {
        if i > 0 {
          assert chunks[i] == later[i - 1];
          Distribute(i - 1, chunkSize);
        }
      }
      Distribute(|later|, chunkSize);
    }
  }

  // ----- Reassembly --------------------------------------------------------------------

  /** A receiver puts the bytes of a data frame where the frame says. */
  function Receive(buffer: bytes, frame: bytes): (r: bytes)
    ensures |r| == |buffer|
  {
    match DecodeBleFrame(frame)
    case Ok(Data(offset, data)) =>
      if offset + |data| <= |buffer| then Spliced(buffer, offset, data) else buffer
    case _ => buffer
  }

  function ReceiveAll(buffer: bytes, frames: seq<bytes>): (r: bytes)
    ensures |r| == |buffer|
    decreases |frames|
  {
    if frames == [] then buffer else ReceiveAll(Receive(buffer, frames[0]), frames[1..])
  }

  ghost predicate FramesOfSplit(payload: bytes, chunkSize: nat, frames: seq<bytes>) {
    forall i :: 0 <= i < |frames| ==> exists c: Chunk :: c.frame == frames[i] && Carries(payload, chunkSize, c)
  }

  lemma ReceivePiece(payload: bytes, chunkSize: nat, buffer: bytes, c: Chunk, k: nat)
    requires chunkSize > 0 && |buffer| == |payload| && k < |payload| && Carries(payload, chunkSize, c)
    ensures var r := Receive(buffer, c.frame);
            && (buffer[k] == payload[k] ==> r[k] == payload[k])
            && (c.offset <= k < c.offset + chunkSize ==> r[k] == payload[k])
  {
    hide DecodeBleFrame, DataBytes, FitsDataFrame;
    var piece := Piece(payload, chunkSize, c.offset);
    DataRoundTrip(c.offset, piece, []);
    assert c.frame + [] == c.frame;
    assert Receive(buffer, c.frame) == Spliced(buffer, c.offset, piece);
    hide Receive;
    SplicedAt(buffer, c.offset, piece, k);
  }

  function Spliced(buffer: bytes, offset: nat, data: bytes): bytes
    requires offset + |data| <= |buffer|
  {
    buffer[..offset] + data + buffer[offset + |data|..]
  }

  lemma SplicedAt(buffer: bytes, offset: nat, data: bytes, k: nat)
    requires offset + |data| <= |buffer| && k < |buffer|
    ensures Spliced(buffer, offset, data)[k] == if offset <= k < offset + |data| then data[k - offset] else buffer[k]
  {
  }

  /** A byte once right stays right; a byte covered by some frame still to come will be right. */
  lemma {:induction false} ReceiveAllFixes(payload: bytes, chunkSize: nat, buffer: bytes, frames: seq<bytes>, k: nat)
    requires chunkSize > 0 && |buffer| == |payload| && k < |payload|
    requires FramesOfSplit(payload, chunkSize, frames)
    requires buffer[k] == payload[k] ||
      exists c: Chunk :: c.frame in frames && Carries(payload, chunkSize, c) && c.offset <= k < c.offset + chunkSize
    ensures ReceiveAll(buffer, frames)[k] == payload[k]
    decreases |frames|
  {
    hide Receive, Carries, FramesOfSplit;
    if frames != [] {
      var c := FirstOfSplit(payload, chunkSize, frames);
      ReceivePiece(payload, chunkSize, buffer, c, k);
      if buffer[k] != payload[k] {
        var d: Chunk :| d.frame in frames && Carries(payload, chunkSize, d) && d.offset <= k < d.offset + chunkSize;
        if d.frame == frames[0] {
          ReceivePiece(payload, chunkSize, buffer, d, k);
        } else {
          assert d.frame in frames[1..];
        }
      }
      ReceiveAllFixes(payload, chunkSize, Receive(buffer, frames[0]), frames[1..], k);
    }
  }

  lemma FirstOfSplit(payload: bytes, chunkSize: nat, frames: seq<bytes>) returns (c: Chunk)
    requires FramesOfSplit(payload, chunkSize, frames) && frames != []
    ensures c.frame == frames[0] && Carries(payload, chunkSize, c)
    ensures FramesOfSplit(payload, chunkSize, frames[1..])
  {
    var i: nat := 0;
    assert exists d: Chunk :: d.frame == frames[i] && Carries(payload, chunkSize, d);
    hide Carries;
    c :| c.frame == frames[0] && Carries(payload, chunkSize, c);
    assert forall i :: 0 <= i < |frames[1..]| ==> frames[1..][i] == frames[i + 1];
  }

  function FramesOf(chunks: seq<Chunk>): (r: seq<bytes>)
    ensures |r| == |chunks|
    ensures forall i :: 0 <= i < |r| ==> r[i] == chunks[i].frame
  {
    seq(|chunks|, i requires 0 <= i < |chunks| => chunks[i].frame)
  }

  /** Some frame of a completed split covers byte `k`. */
  lemma Covered(payload: bytes, chunkSize: nat, k: nat) returns (i: nat)
    requires chunkSize > 0 && !SplitFrom(payload, chunkSize, 0).failed && k < |payload|
    ensures var chunks := SplitFrom(payload, chunkSize, 0).chunks;
            i < |chunks| && chunks[i].offset <= k < chunks[i].offset + chunkSize
  {
    hide SplitFrom;
    SplitPieces(payload, chunkSize, 0);
    var count := |SplitFrom(payload, chunkSize, 0).chunks|;
    i := k / chunkSize;
    DivMod(k, chunkSize);
    Distribute(i, chunkSize);
    if i >= count {
      Scale(count, i, chunkSize);
    }
  }

  /** Delivered in any order, and however often each is repeated, the frames of a
      completed split rebuild the payload in a buffer of its size, whatever was in it. */
  lemma AnyOrderRebuilds(payload: bytes, chunkSize: nat, buffer: bytes, arrived: seq<bytes>)
    requires chunkSize > 0 && !SplitFrom(payload, chunkSize, 0).failed && |buffer| == |payload|
    requires var frames := FramesOf(SplitFrom(payload, chunkSize, 0).chunks);
             (forall f :: f in arrived ==> f in frames) && (forall f :: f in frames ==> f in arrived)
    ensures ReceiveAll(buffer, arrived) == payload
  {
    hide SplitFrom, Carries, ReceiveAll;
    var chunks := SplitFrom(payload, chunkSize, 0).chunks;
    var frames := FramesOf(chunks);
    SplitPieces(payload, chunkSize, 0);
    forall i | 0 <= i < |arrived|
      ensures exists c: Chunk :: c.frame == arrived[i] && Carries(payload, chunkSize, c)
    {
      assert arrived[i] in frames;
      var j :| 0 <= j < |frames| && frames[j] == arrived[i];
      assert chunks[j].frame == arrived[i] && Carries(payload, chunkSize, chunks[j]);
    }
    forall k | 0 <= k < |payload|
      ensures ReceiveAll(buffer, arrived)[k] == payload[k]
    {
      var i := Covered(payload, chunkSize, k);
      assert frames[i] in frames && chunks[i].frame in arrived && Carries(payload, chunkSize, chunks[i]);
      ReceiveAllFixes(payload, chunkSize, buffer, arrived, k);
    }
  }

  /** So every permutation of the frames rebuilds it. */
  lemma AnyPermutationRebuilds(payload: bytes, chunkSize: nat, buffer: bytes, arrived: seq<bytes>)
    requires 1 <= chunkSize <= MAX_UINT16 && |payload| <= MAX_UINT24 + 1 && |buffer| == |payload|
    requires multiset(arrived) == multiset(FramesOf(SplitFrom(payload, chunkSize, 0).chunks))
    ensures ReceiveAll(buffer, arrived) == payload
  {
    hide SplitFrom, ReceiveAll;
    var frames := FramesOf(SplitFrom(payload, chunkSize, 0).chunks);
    forall f
      ensures f in arrived <==> f in frames
    {
      assert f in arrived <==> f in multiset(arrived);
      assert f in frames <==> f in multiset(frames);
    }
    OrdinarySplitsComplete(payload, chunkSize);
    AnyOrderRebuilds(payload, chunkSize, buffer, arrived);
  }

  // ----- Command sequences -------------------------------------------------------------

  datatype Selector = PhotoStart | LengthOnly | FirmwareBlock | FirmwareFinalize

  /** The commands a selector stands for, the announcement always last. */
  function SequenceFor(selector: Selector, payloadLength: int, argument: int, copies: int): seq<bytes> {
    var announce := [CommandBytes(payloadLength, ANNOUNCE_LENGTH, argument)];
    match selector
    case PhotoStart => [CommandBytes(payloadLength, JOB_PARAMS, copies)] + announce
    case LengthOnly => announce
    case FirmwareBlock => [CommandBytes(payloadLength, DATA_BLOCK, 0)] + announce
    case FirmwareFinalize => [CommandBytes(0, FINALIZE, argument)] + announce
  }

  method BleCommandSequence(selector: Selector, payloadLength: int, argument: int, copies: int)
    returns (r: Result<seq<bytes>, ProtocolError>)
    ensures r == if Fits24(payloadLength) then Ok(SequenceFor(selector, payloadLength, argument, copies))
                 else Err(ProtocolError)
  {
    hide CommandBytes;
    var frames: seq<bytes> := [];
    match selector {
      case PhotoStart =>
        var first :- EncodeBleCommand(payloadLength, JOB_PARAMS, copies);
        frames := frames + [first];
      case LengthOnly =>
      case FirmwareBlock =>
        var first :- EncodeBleCommand(payloadLength, DATA_BLOCK, 0);
        frames := frames + [first];
      case FirmwareFinalize =>
        // A zero length always fits.
        var first := EncodeBleCommand(0, FINALIZE, argument);
        frames := frames + [first.value];
    }
    var last :- EncodeBleCommand(payloadLength, ANNOUNCE_LENGTH, argument);
    frames := frames + [last];
    assert frames == SequenceFor(selector, payloadLength, argument, copies);
    return Ok(frames);
  }

  /** What each sequence says when decoded: the job parameters with the copies (0), a
      firmware block (3), or the end of a firmware transfer, whose length is zero (4);
      and last, whatever the selector, the announcement of the length (2). */
  lemma SequenceAnnounces(selector: Selector, payloadLength: int, argument: int, copies: int)
    requires Fits24(payloadLength)
    ensures var frames := SequenceFor(selector, payloadLength, argument, copies);
            && |frames| == (if selector.LengthOnly? then 1 else 2)
            && DecodeBleFrame(frames[|frames| - 1]) == Ok(Command(payloadLength, 2, ToUint32(argument)))
            && match selector
               case PhotoStart => DecodeBleFrame(frames[0]) == Ok(Command(payloadLength, 0, LowByte(copies)))
               case LengthOnly => true
               case FirmwareBlock => DecodeBleFrame(frames[0]) == Ok(Command(payloadLength, 3, 0))
               case FirmwareFinalize => DecodeBleFrame(frames[0]) == Ok(Command(0, 4, ToUint32(argument)))
  {
    hide CommandBytes, DecodeBleFrame;
    forall totalLength, opcode: byte, argument | Fits24(totalLength)
      ensures DecodeBleFrame(CommandBytes(totalLength, opcode, argument))
           == Ok(Command(totalLength, opcode, if opcode == JOB_PARAMS then LowByte(argument) else ToUint32(argument)))
    {
      CommandRoundTrip(totalLength, opcode, argument, []);
      assert CommandBytes(totalLength, opcode, argument) + [] == CommandBytes(totalLength, opcode, argument);
    }
  }

  /** The two limits disagree: the payloads that can be split into frames although
      their length cannot be announced are those longer than the 24-bit maximum
      whose last frame still starts within it. */
  lemma SplittableButNotAnnounceable(payload: bytes, chunkSize: nat)
    requires 1 <= chunkSize <= MAX_UINT16
    ensures !SplitFrom(payload, chunkSize, 0).failed && !Fits24(|payload|)
            <==> |payload| > MAX_UINT24 && (|payload| - 1) / chunkSize * chunkSize <= MAX_UINT24
  {
    SplitCompletesIffFits(payload, chunkSize, 0);
  }
}
