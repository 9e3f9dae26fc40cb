/** The ADB message codec: six little-endian words and a payload. */
module AdbMessages {
  import opened Bytes
  import opened Incremental

  const ADB_HEADER_SIZE: nat := 24
  const CNXN := 0x4e58_4e43
  const AUTH := 0x4854_5541
  const OPEN := 0x4e45_504f
  const OKAY := 0x5941_4b4f
  const WRTE := 0x4554_5257
  const CLSE := 0x4553_4c43
  const ADB_VERSION := 0x0100_0000
  const ADB_LEGACY_MAX_PAYLOAD: nat := 4096

  datatype AdbMessage = AdbMessage(command: int, arg0: int, arg1: int, payload: bytes)
  datatype Header = Header(command: nat, arg0: nat, arg1: nat, length: nat, sum: nat, magic: nat)
  datatype ProtocolError = ProtocolError

  /** The plain sum of the payload. */
  function ByteSum(s: bytes): nat {
    if s == [] then 0 else ByteSum(s[..|s| - 1]) + s[|s| - 1]
  }

  method Checksum(payload: bytes) returns (sum: nat)
    ensures sum == ToUint32(ByteSum(payload))
  {
    sum := 0;
    for i := 0 to |payload|
      invariant sum == ToUint32(ByteSum(payload[..i]))
    {
      assert payload[..i + 1][..i] == payload[..i];
      sum := ToUint32(sum + payload[i]);
    }
    assert payload[..|payload|] == payload;
  }

  lemma {:induction false} ByteSumAppend(a: bytes, b: bytes)
    ensures ByteSum(a + b) == ByteSum(a) + ByteSum(b)
    decreases |b|
  {
    if b == [] {
      assert a + b == a;
    } else {
      ByteSumAppend(a, b[..|b| - 1]);
      assert (a + b)[..|a + b| - 1] == a + b[..|b| - 1];
    }
  }

  lemma {:induction false} ByteSumBound(s: bytes)
    ensures ByteSum(s) <= 255 * |s|
    ensures (forall i :: 0 <= i < |s| ==> s[i] == 255) ==> ByteSum(s) == 255 * |s|
  {
    if s != [] {
      ByteSumBound(s[..|s| - 1]);
    }
  }

  /** The checksum of a byte is the byte, and of none zero. */
  lemma ChecksumOfOne(b: byte)
    ensures ToUint32(ByteSum([b])) == b && ByteSum([]) == 0
  {
    assert [b][..0] == [];
  }

  /** The checksum is additive modulo 2^32 over any way of cutting the payload. */
  lemma ChecksumIsAdditive(a: bytes, b: bytes)
    ensures ToUint32(ByteSum(a + b)) == ToUint32(ToUint32(ByteSum(a)) + ToUint32(ByteSum(b)))
  {
    ByteSumAppend(a, b);
  }

  /** It is the plain sum for every payload of at most 16843009 bytes, and not for
      every longer one: 16843009 is the last safe length. */
  lemma ChecksumIsPlainSum(s: bytes)
    ensures |s| <= 16843009 ==> ToUint32(ByteSum(s)) == ByteSum(s)
    ensures |s| > 16843009 && (forall i :: 0 <= i < |s| ==> s[i] == 255) ==> ToUint32(ByteSum(s)) != ByteSum(s)
  {
    ByteSumBound(s);
  }

  /** `(command ^ 0xffffffff) >>> 0` */
  function Magic(command: int): nat {
    TWO32 - 1 - ToUint32(command)
  }

  predicate IsValidMagic(command: int, magic: int) {
    Magic(command) == ToUint32(magic)
  }

  /** A magic is valid if it has the bits the command has not. */
  lemma ValidIsComplement(command: int, magic: int)
    ensures IsValidMagic(command, magic) <==> ToUint32(command) + ToUint32(magic) == 0xffff_ffff
  {
  }

  /** The command words are the ASCII codes of their names, in the order of the wire. */
  lemma CommandsSpellTheirNames()
    ensures Le32(CNXN) == [0x43, 0x4e, 0x58, 0x4e] && Le32(AUTH) == [0x41, 0x55, 0x54, 0x48]
    ensures Le32(OPEN) == [0x4f, 0x50, 0x45, 0x4e] && Le32(OKAY) == [0x4f, 0x4b, 0x41, 0x59]
    ensures Le32(WRTE) == [0x57, 0x52, 0x54, 0x45] && Le32(CLSE) == [0x43, 0x4c, 0x53, 0x45]
  {
  }

  function HeaderBytes(m: AdbMessage): (r: bytes)
    ensures |r| == ADB_HEADER_SIZE
  {
    Le32(m.command) + Le32(m.arg0) + Le32(m.arg1) + Le32(|m.payload|) + Le32(ByteSum(m.payload)) + Le32(Magic(m.command))
  }

  function MessageBytes(m: AdbMessage): bytes {
    HeaderBytes(m) + m.payload
  }

  /** `DataView.setUint32(at, value, true)` */
  method SetUint32LE(view: array<byte>, at: nat, value: int)
    requires at + 4 <= view.Length
    modifies view
    ensures forall i :: 0 <= i < view.Length ==>
      view[i] == if at <= i < at + 4 then Le32(value)[i - at] else old(view[i])
  {
    var w := Le32(value);
    view[at], view[at + 1], view[at + 2], view[at + 3] := w[0], w[1], w[2], w[3];
  }

  /** The six words go into the front of `out`; the rest of it is untouched. */
  method PutHeader(out: array<byte>, m: AdbMessage)
    requires out.Length >= ADB_HEADER_SIZE
    modifies out
    ensures out[..ADB_HEADER_SIZE] == HeaderBytes(m)
    ensures out[ADB_HEADER_SIZE..] == old(out[ADB_HEADER_SIZE..])
  {
    SetUint32LE(out, 0, m.command);
    SetUint32LE(out, 4, m.arg0);
    SetUint32LE(out, 8, m.arg1);
    assert out[..12] == Le32(m.command) + Le32(m.arg0) + Le32(m.arg1);
    ghost var front := out[..12];
    SetUint32LE(out, 12, |m.payload|);
    var sum := Checksum(m.payload);
    SetUint32LE(out, 16, sum);
    SetUint32LE(out, 20, Magic(m.command));
    assert Le32(sum) == Le32(ByteSum(m.payload));
    assert out[..ADB_HEADER_SIZE] == front + Le32(|m.payload|) + Le32(sum) + Le32(Magic(m.command));
  }

  method EncodeAdbMessage(m: AdbMessage) returns (r: bytes)
    ensures r == MessageBytes(m)
  {
    var out := new byte[ADB_HEADER_SIZE + |m.payload|];
    PutHeader(out, m);
    forall i | 0 <= i < |m.payload| {
      out[ADB_HEADER_SIZE + i] := m.payload[i];
    }
    assert out[..] == out[..ADB_HEADER_SIZE] + m.payload;
    r := out[..];
  }

  method EncodeAdbHeader(m: AdbMessage) returns (r: bytes)
    ensures r == HeaderBytes(m)
    ensures r + m.payload == MessageBytes(m)
  {
    var out := new byte[ADB_HEADER_SIZE];
    PutHeader(out, m);
    assert out[..] == out[..ADB_HEADER_SIZE];
    r := out[..];
  }

  function DecodeAdbHeader(header: bytes): Result<Header, ProtocolError> {
    if |header| < ADB_HEADER_SIZE then Err(ProtocolError)
    else
      Ok(Header(FromLe32(header, 0), FromLe32(header, 4), FromLe32(header, 8),
                FromLe32(header, 12), FromLe32(header, 16), FromLe32(header, 20)))
  }

  /** A complete message at the front of the buffer; its length word is unsigned. */
  function DecodeAdb(buffer: bytes): Decoded<AdbMessage> {
    if |buffer| < ADB_HEADER_SIZE then Incomplete
    else
      var header := DecodeAdbHeader(buffer).value;
      var total := ADB_HEADER_SIZE + header.length;
      if |buffer| < total then Incomplete
      else Complete(AdbMessage(header.command, header.arg0, header.arg1, buffer[ADB_HEADER_SIZE..total]), total)
  }

  function ParseAdb(s: bytes): Parsed<AdbMessage> {
    ParseAll(DecodeAdb, s)
  }

  /** What survives the wire: the words modulo 2^32. */
  function Wired(m: AdbMessage): AdbMessage {
    AdbMessage(ToUint32(m.command), ToUint32(m.arg0), ToUint32(m.arg1), m.payload)
  }

  /** Every word of an encoded header reads back, modulo 2^32, and the magic, the valid
      one, is the complement of the command. */
  lemma HeaderRoundTrip(m: AdbMessage, rest: bytes)
    ensures DecodeAdbHeader(HeaderBytes(m) + rest)
         == Ok(Header(ToUint32(m.command), ToUint32(m.arg0), ToUint32(m.arg1),
                      ToUint32(|m.payload|), ToUint32(ByteSum(m.payload)), Magic(m.command)))
    ensures var header := DecodeAdbHeader(HeaderBytes(m) + rest).value;
            IsValidMagic(m.command, header.magic) && header.command + header.magic == 0xffff_ffff
  {
    var h := HeaderBytes(m) + rest;
    WordAt(h, 0, m.command);
    WordAt(h, 4, m.arg0);
    WordAt(h, 8, m.arg1);
    WordAt(h, 12, |m.payload|);
    WordAt(h, 16, ByteSum(m.payload));
    WordAt(h, 20, Magic(m.command));
  }

  lemma WordAt(h: bytes, at: nat, x: int)
    requires at + 4 <= |h| && h[at..at + 4] == Le32(x)
    ensures FromLe32(h, at) == ToUint32(x)
  {
    var w := h[at..at + 4];
    assert h[at] == w[0] && h[at + 1] == w[1] && h[at + 2] == w[2] && h[at + 3] == w[3];
    assert h[at] == Le32(x)[0] && h[at + 1] == Le32(x)[1] && h[at + 2] == Le32(x)[2] && h[at + 3] == Le32(x)[3];
    Le32RoundTrip(x);
  }

  /** Encode then decode returns the message, its words modulo 2^32, whatever
      follows, exactly when the payload length fits its word. */
  lemma AdbRoundTrip(m: AdbMessage, rest: bytes)
    ensures DecodeAdb(MessageBytes(m) + rest) == Complete(Wired(m), ADB_HEADER_SIZE + |m.payload|)
            <==> |m.payload| < TWO32
  {
    hide HeaderBytes, DecodeAdbHeader, ByteSum, Magic, ToUint32;
    var s := MessageBytes(m) + rest;
    assert s == HeaderBytes(m) + (m.payload + rest);
    HeaderRoundTrip(m, m.payload + rest);
    if |m.payload| < TWO32 {
      assert s[ADB_HEADER_SIZE..ADB_HEADER_SIZE + |m.payload|] == m.payload;
    }
  }

  /** The decoder drops the checksum and the magic it reads: encoding a decoded
      message again gives back the bytes exactly when both were the right ones. */
  lemma ReencodesIffChecksOut(s: bytes)
    requires DecodeAdb(s).Complete?
    ensures var m, h := DecodeAdb(s).item, DecodeAdbHeader(s).value;
            MessageBytes(m) == s[..DecodeAdb(s).size] <==> h.sum == ToUint32(ByteSum(m.payload)) && IsValidMagic(m.command, h.magic)
  {
    hide DecodeAdb, DecodeAdbHeader, MessageBytes, ByteSum, Le32, FromLe32, Magic, ToUint32;
    DecodedFields(s);
    var m, size := DecodeAdb(s).item, DecodeAdb(s).size;
    SameWord(s, 16, ByteSum(m.payload));
    SameWord(s, 20, Magic(m.command));
    assert s[..size] == s[..16] + s[16..20] + s[20..24] + s[24..size];
    FourParts(s[..16], Le32(ByteSum(m.payload)), Le32(Magic(m.command)), m.payload, s[16..20], s[20..24]);
  }

  /** A decoded message's encoding begins with the words read. */
  lemma DecodedFields(s: bytes)
    requires DecodeAdb(s).Complete?
    ensures var m, h, size := DecodeAdb(s).item, DecodeAdbHeader(s).value, DecodeAdb(s).size;
            && DecodeAdbHeader(s).Ok? && ADB_HEADER_SIZE <= size <= |s|
            && h.sum == FromLe32(s, 16) && h.magic == FromLe32(s, 20)
            && m.payload == s[ADB_HEADER_SIZE..size] && ToUint32(Magic(m.command)) == Magic(m.command)
            && MessageBytes(m) == s[..16] + Le32(ByteSum(m.payload)) + Le32(Magic(m.command)) + m.payload
  {
    Le32Inverse(s, 0);
    Le32Inverse(s, 4);
    Le32Inverse(s, 8);
    Le32Inverse(s, 12);
    hide ByteSum, Le32, FromLe32, Magic;
    assert s[..16] == s[0..4] + s[4..8] + s[8..12] + s[12..16];
  }

  lemma SameWord(s: bytes, at: nat, x: int)
    requires at + 4 <= |s|
    ensures Le32(x) == s[at..at + 4] <==> FromLe32(s, at) == ToUint32(x)
  {
    Le32Inverse(s, at);
    assert Le32(ToUint32(x)) == Le32(x);
    hide Le32, FromLe32, ToUint32;
    if Le32(x) == s[at..at + 4] {
      WordAt(s, at, x);
    }
  }

  lemma FourParts(front: bytes, b: bytes, c: bytes, back: bytes, b': bytes, c': bytes)
    requires |b| == |b'| && |c| == |c'|
    ensures front + b + c + back == front + b' + c' + back <==> b == b' && c == c'
  {
    var whole, other := front + b + c + back, front + b' + c' + back;
    var i, j := |front|, |front| + |b|;
    assert whole[i..j] == b && other[i..j] == b';
    assert whole[j..j + |c|] == c && other[j..j + |c|] == c';
  }

  lemma DecodeAdbIsFraming()
    ensures Framing(DecodeAdb, ADB_HEADER_SIZE)
  {
    forall s, t | DecodeAdb(s).Complete?
      ensures DecodeAdb(s + t) == DecodeAdb(s)
    {
      SameWords(s, t);
      var total := DecodeAdb(s).size;
      assert (s + t)[ADB_HEADER_SIZE..total] == s[ADB_HEADER_SIZE..total];
    }
  }

  lemma SameWords(s: bytes, t: bytes)
    requires |s| >= ADB_HEADER_SIZE
    ensures DecodeAdbHeader(s + t) == DecodeAdbHeader(s)
  {
  }

  lemma AdbRest(s: bytes)
    ensures var r := ParseAdb(s);
            && DecodeAdb(r.rest).Incomplete?
            && |r.rest| <= |s| && r.rest == s[|s| - |r.rest|..]
            && ADB_HEADER_SIZE * |r.items| + |r.rest| <= |s|
  {
    DecodeAdbIsFraming();
    RestIsUnparsedTail(DecodeAdb, ADB_HEADER_SIZE, s);
  }

  function MessagesBytes(ms: seq<AdbMessage>): bytes {
    if ms == [] then [] else MessageBytes(ms[0]) + MessagesBytes(ms[1..])
  }

  lemma {:induction false} MessagesBytesAppend(a: seq<AdbMessage>, b: seq<AdbMessage>)
    ensures MessagesBytes(a + b) == MessagesBytes(a) + MessagesBytes(b)
    decreases |a|
  {
    hide MessageBytes;
    if a == [] {
      assert a + b == b;
    } else {
      MessagesBytesAppend(a[1..], b);
      assert (a + b)[0] == a[0] && (a + b)[1..] == a[1..] + b;
    }
  }

  predicate Sendable(ms: seq<AdbMessage>) {
    forall i :: 0 <= i < |ms| ==> |ms[i].payload| < TWO32
  }

  function WiredAll(ms: seq<AdbMessage>): (r: seq<AdbMessage>)
    ensures |r| == |ms|
    ensures forall i :: 0 <= i < |r| ==> r[i] == Wired(ms[i])
  {
    seq(|ms|, i requires 0 <= i < |ms| => Wired(ms[i]))
  }

  /** A sequence of messages, put on the wire and parsed, comes back whole and in order, with nothing pending. */
  lemma {:induction false} MessagesRoundTrip(ms: seq<AdbMessage>)
    requires Sendable(ms)
    ensures ParseAdb(MessagesBytes(ms)) == Parsed(WiredAll(ms), [])
  {
    if ms == [] {
      RestIncomplete(DecodeAdb, []);
    } else {
      var one, later := MessageBytes(ms[0]), MessagesBytes(ms[1..]);
      MessagesRoundTrip(ms[1..]);
      OneMessage(ms[0], later);
      assert [Wired(ms[0])] + WiredAll(ms[1..]) == WiredAll(ms);
    }
  }

  lemma OneMessage(m: AdbMessage, rest: bytes)
    requires |m.payload| < TWO32
    ensures ParseAdb(MessageBytes(m) + rest) == Parsed([Wired(m)] + ParseAdb(rest).items, ParseAdb(rest).rest)
  {
    hide MessageBytes, DecodeAdb, Wired;
    DecodeAdbIsFraming();
    AdbRoundTrip(m, []);
    assert MessageBytes(m) + [] == MessageBytes(m);
    assert |MessageBytes(m)| == ADB_HEADER_SIZE + |m.payload| by { MessageSize(m); }
    ParseWhole(DecodeAdb, ADB_HEADER_SIZE, MessageBytes(m), rest);
  }

  lemma MessageSize(m: AdbMessage)
    ensures |MessageBytes(m)| == ADB_HEADER_SIZE + |m.payload|
  {
  }

  /** One turn of the decoder's loop. */
  lemma AdbTurn(s: bytes)
    ensures DecodeAdb(s).Incomplete? ==> ParseAdb(s) == Parsed([], s)
    ensures DecodeAdb(s).Complete? ==>
      && ADB_HEADER_SIZE <= DecodeAdb(s).size <= |s|
      && var tail := ParseAdb(s[DecodeAdb(s).size..]);
         ParseAdb(s) == Parsed([DecodeAdb(s).item] + tail.items, tail.rest)
  {
    hide DecodeAdb;
    DecodeAdbIsFraming();
    ParseTurn(DecodeAdb, ADB_HEADER_SIZE, s);
  }

  class AdbMessageDecoder {
    var buffer: bytes

    constructor ()
      ensures buffer == []
    {
      buffer := [];
    }

    method Push(chunk: bytes) returns (messages: seq<AdbMessage>)
      modifies this
      ensures Parsed(messages, buffer) == ParseAdb(old(buffer) + chunk)
      ensures DecodeAdb(buffer).Incomplete?
    {
      if |chunk| > 0 {
        buffer := buffer + chunk;
      }
      assert old(buffer) + chunk == buffer;
      messages := [];
      ghost var whole := ParseAdb(buffer);
      while true
        invariant whole == Parsed(messages + ParseAdb(buffer).items, ParseAdb(buffer).rest)
        decreases |buffer|
      {
        AdbTurn(buffer);
        if |buffer| < ADB_HEADER_SIZE {
          break;
        }
        hide ParseAdb;
        var header := DecodeAdbHeader(buffer).value;
        var total := ADB_HEADER_SIZE + header.length;
        if |buffer| < total {
          break;
        }
        var m := AdbMessage(header.command, header.arg0, header.arg1, buffer[ADB_HEADER_SIZE..total]);
        assert DecodeAdb(buffer) == Complete(m, total);
        var later := ParseAdb(buffer[total..]).items;
        assert messages + ([m] + later) == (messages + [m]) + later;
        messages := messages + [m];
        buffer := buffer[total..];
      }
    }
  }

  /** However a stream is cut into chunks, the decoder returns the messages of the
      whole stream and keeps its unparsed tail. */
  lemma AdbDecoderRefinesParsing(buffer: bytes, chunks: seq<bytes>)
    requires DecodeAdb(buffer).Incomplete?
    ensures Feed(DecodeAdb, buffer, chunks) == ParseAdb(buffer + Flatten(chunks))
    ensures DecodeAdb(ParseAdb(buffer + Flatten(chunks)).rest).Incomplete?
  {
    hide DecodeAdb;
    DecodeAdbIsFraming();
    FeedIsParseAll(DecodeAdb, ADB_HEADER_SIZE, buffer, chunks);
    AdbRest(buffer + Flatten(chunks));
  }
}
