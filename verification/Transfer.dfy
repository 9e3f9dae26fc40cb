/**
 * The pull transfer as a whole: host session, printer and the two byte streams
 * between them, stepped in any order and delivered in any chunks.
 */
module Transfer {
  import opened Bytes
  import opened Incremental
  import opened Frames
  import opened Status
  import opened Session
  import opened SessionRuns

  /** What the printer has: undecoded bytes, the length the job start announced,
      the offsets it has asked for and not yet been answered, and the image bytes
      stored so far. */
  datatype Printer = Printer(
    buffer: bytes, announced: Option<nat>, awaited: seq<nat>, memory: map<nat, byte>, dataFrames: nat)

  datatype System = System(host: State, hostBuffer: bytes, toHost: bytes, toPrinter: bytes, printer: Printer)

  /** The printer may speak or ask at any moment; either side may receive any
      number of the bytes on their way to it. */
  datatype Move = Notify(frame: Frame) | Ask(offset: nat, arg2: byte) | HostReceives(count: nat) | PrinterReceives(count: nat)

  const QUIET := Printer([], None, [], map[], 0)

  function Start(): System {
    System(INITIAL, [], [], StartBytes(), QUIET)
  }

  /** Traffic that neither asks for data nor ends the job: heartbeats, acknowledgement
      requests, media information, readiness, idle and file-browser frames. */
  predicate Chatter(f: Frame) {
    if Special(f.opcode) then f.opcode != JOB_COMPLETE && f.opcode != SESSION_END
    else !IsFault(f) && f.arg1 != REQUEST_DATA && f.arg1 != FINISHED
  }

  function RequestFrame(offset: nat, arg2: byte): Frame {
    Frame(PRINT_STATE, REQUEST_DATA, arg2, 0, Be32(offset))
  }

  function SentBy(a: Action): bytes {
    if a.Send? then a.data else []
  }

  /** The bytes a session writes while it is fed `frames`. */
  function Answers(cfg: Config, st: State, frames: seq<Frame>): bytes
    decreases |frames|
  {
    if frames == [] then []
    else
      var e := Handle(cfg, st, frames[0]);
      SentBy(e.action) + Answers(cfg, e.state, frames[1..])
  }

  predicate Covers(offset: nat, data: bytes, k: nat) {
    offset <= k < offset + |data|
  }

  function Stored(memory: map<nat, byte>, offset: nat, data: bytes): map<nat, byte> {
    memory + map k: nat | offset <= k < offset + |data| && Covers(offset, data, k) :: data[k - offset]
  }

  /** The printer takes one frame from the host. */
  function Take(p: Printer, f: Frame): Printer {
    if f.opcode in {PRINT_START, PRINT_START_LEGACY} && |f.payload| >= 4 then
      p.(announced := Some(FromBe32(f.payload, 0)))
    else if f.opcode in {DATA, DATA_LEGACY} && p.awaited != [] then
      p.(memory := Stored(p.memory, p.awaited[0], f.payload), awaited := p.awaited[1..], dataFrames := p.dataFrames + 1)
    else p
  }

  function TakeAll(p: Printer, frames: seq<Frame>): Printer
    decreases |frames|
  {
    if frames == [] then p else TakeAll(Take(p, frames[0]), frames[1..])
  }

  function HostStep(cfg: Config, s: System, count: nat): System
    requires count <= |s.toHost|
  {
    var r := ParseFrames(s.hostBuffer + s.toHost[..count]);
    s.(host := Final(cfg, s.host, r.items), hostBuffer := r.rest, toHost := s.toHost[count..],
       toPrinter := s.toPrinter + Answers(cfg, s.host, r.items))
  }

  function PrinterStep(s: System, count: nat): System
    requires count <= |s.toPrinter|
  {
    var r := ParseFrames(s.printer.buffer + s.toPrinter[..count]);
    s.(toPrinter := s.toPrinter[count..], printer := TakeAll(s.printer.(buffer := r.rest), r.items))
  }

  function AskStep(s: System, offset: nat, arg2: byte): System
    requires s.printer.announced.Some?
  {
    var awaited := if offset < s.printer.announced.value then s.printer.awaited + [offset] else s.printer.awaited;
    s.(toHost := s.toHost + FrameBytes(RequestFrame(offset, arg2)), printer := s.printer.(awaited := awaited))
  }

  /** A move the rules do not allow changes nothing. */
  function Step(cfg: Config, s: System, m: Move): System
  {
    match m
    case Notify(f) =>
      if Chatter(f) && |f.payload| < TWO31 then s.(toHost := s.toHost + FrameBytes(f)) else s
    case Ask(offset, arg2) =>
      if s.printer.announced.Some? && offset < TWO32 then AskStep(s, offset, arg2) else s
    case HostReceives(count) => if count <= |s.toHost| then HostStep(cfg, s, count) else s
    case PrinterReceives(count) => if count <= |s.toPrinter| then PrinterStep(s, count) else s
  }

  function After(cfg: Config, s: System, moves: seq<Move>): System
    decreases |moves|
  {
    if moves == [] then s else After(cfg, Step(cfg, s, moves[0]), moves[1..])
  }

  // ----- What the host will answer ---------------------------------------------------

  /** Frames the printer of this system sends: their answers do not depend on the session's state. */
  predicate Conforming(f: Frame) {
    |f.payload| < TWO31 && (Chatter(f) || (IsRequest(f) && |f.payload| >= 4))
  }

  predicate AllConforming(frames: seq<Frame>) {
    forall f :: f in frames ==> Conforming(f)
  }

  function Reply(cfg: Config, f: Frame): bytes
  {
    SentBy(Handle(cfg, INITIAL, f).action)
  }

  function Replies(cfg: Config, frames: seq<Frame>): bytes
    decreases |frames|
  {
    if frames == [] then [] else Reply(cfg, frames[0]) + Replies(cfg, frames[1..])
  }

  lemma {:induction false} AnswersAreReplies(cfg: Config, st: State, frames: seq<Frame>)
    requires 0 < |cfg.image| < TWO31 && AllConforming(frames)
    ensures Answers(cfg, st, frames) == Replies(cfg, frames)
    decreases |frames|
  {
    if frames != [] {
      assert Conforming(frames[0]);
      assert Handle(cfg, st, frames[0]).action == Handle(cfg, INITIAL, frames[0]).action;
      hide Conforming, Handle;
      AnswersAreReplies(cfg, Handle(cfg, st, frames[0]).state, frames[1..]);
    }
  }

  lemma {:induction false} RepliesAppend(cfg: Config, a: seq<Frame>, b: seq<Frame>)
    ensures Replies(cfg, a + b) == Replies(cfg, a) + Replies(cfg, b)
    decreases |a|
  {
    hide Reply;
    if a == [] {
      assert a + b == b;
    } else {
      RepliesAppend(cfg, a[1..], b);
      assert (a + b)[0] == a[0] && (a + b)[1..] == a[1..] + b;
    }
  }

  /** Payloads of the data frames among `frames`, in order. */
  function DataPayloads(frames: seq<Frame>): seq<bytes>
    decreases |frames|
  {
    if frames == [] then []
    else (if frames[0].opcode in {DATA, DATA_LEGACY} then [frames[0].payload] else []) + DataPayloads(frames[1..])
  }

  lemma {:induction false} DataPayloadsAppend(a: seq<Frame>, b: seq<Frame>)
    ensures DataPayloads(a + b) == DataPayloads(a) + DataPayloads(b)
    decreases |a|
  {
    if a == [] {
      assert a + b == b;
    } else {
      DataPayloadsAppend(a[1..], b);
      assert (a + b)[0] == a[0] && (a + b)[1..] == a[1..] + b;
      var here := if a[0].opcode in {DATA, DATA_LEGACY} then [a[0].payload] else [];
      assert DataPayloads(a + b) == here + DataPayloads((a + b)[1..]) && DataPayloads(a) == here + DataPayloads(a[1..]);
    }
  }

  predicate Inside(cfg: Config, offsets: seq<nat>) {
    forall i :: 0 <= i < |offsets| ==> offsets[i] < |cfg.image|
  }

  /** The slices that answer requests for `offsets`. */
  function SlicesAt(cfg: Config, offsets: seq<nat>): seq<bytes>
    requires Inside(cfg, offsets)
    decreases |offsets|
  {
    if offsets == [] then []
    else
      [Slice(cfg, offsets[0])] + SlicesAt(cfg, offsets[1..])
  }

  lemma {:induction false} SlicesAtAppend(cfg: Config, offsets: seq<nat>, o: nat)
    requires Inside(cfg, offsets) && o < |cfg.image|
    ensures Inside(cfg, offsets + [o])
    ensures SlicesAt(cfg, offsets + [o]) == SlicesAt(cfg, offsets) + [Slice(cfg, o)]
    decreases |offsets|
  {
    hide Slice;
    if offsets != [] {
      SlicesAtAppend(cfg, offsets[1..], o);
      assert (offsets + [o])[0] == offsets[0] && (offsets + [o])[1..] == offsets[1..] + [o];
    } else {
      assert offsets + [o] == [o] && [o][1..] == [];
    }
  }

  predicate AnnouncesLength(cfg: Config, f: Frame) {
    f.opcode in {PRINT_START, PRINT_START_LEGACY} ==> |f.payload| >= 4 && FromBe32(f.payload, 0) == |cfg.image|
  }

  /** A reply is no frame or one; it carries image data exactly when it answers
      a request inside the image, and then it is the slice asked for. */
  lemma ReplyParses(cfg: Config, f: Frame)
    requires 0 < |cfg.image| < TWO31 && Conforming(f)
    ensures var r := ParseFrames(Reply(cfg, f));
            && r.rest == [] && |r.items| <= 1
            && (forall g :: g in r.items ==> AnnouncesLength(cfg, g))
            && DataPayloads(r.items) == (
                 if IsRequest(f) && FromBe32(f.payload, 0) < |cfg.image| then [Slice(cfg, FromBe32(f.payload, 0))] else [])
  {
    var a := Handle(cfg, INITIAL, f).action;
    if a.Send? {
      SendIsOneFrame(cfg, INITIAL, f);
      var g := DecodeFrame(a.data).item;
      if !Special(f.opcode) && f.arg1 == READY {
        WholeFrame(JobStart(cfg));
        StartAnnounces(cfg);
      }
      assert ParseFrames(a.data).items == [g];
      assert DataPayloads([g]) == if g.opcode in {DATA, DATA_LEGACY} then [g.payload] else [];
    } else {
      RestIncomplete(DecodeFrame, []);
    }
  }

  // ----- The invariant ----------------------------------------------------------------

  /** The frames the host will see if the printer says no more. */
  function Heard(s: System): Parsed<Frame> {
    ParseFrames(s.hostBuffer + s.toHost)
  }

  /** Everything the printer will read if it says no more: what it holds, what
      is on its way, and the answers to what is on its way to the host. */
  function Future(cfg: Config, s: System): bytes
  {
    s.printer.buffer + s.toPrinter + Replies(cfg, Heard(s).items)
  }

  predicate AllAnnounce(cfg: Config, frames: seq<Frame>) {
    forall f :: f in frames ==> AnnouncesLength(cfg, f)
  }

  /** What has been stored is the image, and the length announced is its length. */
  predicate Faithful(cfg: Config, p: Printer) {
    && (forall k :: k in p.memory ==> k < |cfg.image| && p.memory[k] == cfg.image[k])
    && (p.announced.Some? ==> p.announced.value == |cfg.image|)
  }

  /** `coming` are the frames the printer is still to receive: the data among
      them answers, in order, exactly the offsets it is waiting for. */
  predicate Owed(cfg: Config, p: Printer, coming: seq<Frame>) {
    && Faithful(cfg, p)
    && Inside(cfg, p.awaited)
    && DataPayloads(coming) == SlicesAt(cfg, p.awaited)
    && AllAnnounce(cfg, coming)
  }

  predicate Inv(cfg: Config, s: System)
  {
    && DecodeFrame(s.hostBuffer).Incomplete?
    && DecodeFrame(s.printer.buffer).Incomplete?
    && Heard(s).rest == [] && AllConforming(Heard(s).items)
    && ParseFrames(Future(cfg, s)).rest == []
    && Owed(cfg, s.printer, ParseFrames(Future(cfg, s)).items)
  }

  lemma StoreKeepsFaith(cfg: Config, p: Printer, offset: nat)
    requires Faithful(cfg, p) && offset < |cfg.image|
    ensures Faithful(cfg, p.(memory := Stored(p.memory, offset, Slice(cfg, offset))))
  {
  }

  lemma {:induction false} TakeAllKeeps(cfg: Config, p: Printer, now: seq<Frame>, later: seq<Frame>)
    requires Owed(cfg, p, now + later)
    ensures Owed(cfg, TakeAll(p, now), later)
    ensures TakeAll(p, now).dataFrames + |TakeAll(p, now).awaited| == p.dataFrames + |p.awaited|
    ensures TakeAll(p, now).buffer == p.buffer
    ensures p.announced.Some? ==> TakeAll(p, now).announced.Some?
    decreases |now|
  {
    if now == [] {
      assert now + later == later;
    } else {
      var f, rest := now[0], now[1..] + later;
      assert now + later == [f] + rest;
      TakeKeeps(cfg, p, f, rest);
      hide Take, Owed;
      TakeAllKeeps(cfg, Take(p, f), now[1..], later);
    }
  }

  lemma TakeKeeps(cfg: Config, p: Printer, f: Frame, rest: seq<Frame>)
    requires Owed(cfg, p, [f] + rest)
    ensures Owed(cfg, Take(p, f), rest)
    ensures Take(p, f).dataFrames + |Take(p, f).awaited| == p.dataFrames + |p.awaited|
    ensures Take(p, f).buffer == p.buffer
    ensures p.announced.Some? ==> Take(p, f).announced.Some?
  {
    hide Slice, Stored, FromBe32;
    assert f in [f] + rest;
    assert forall g :: g in rest ==> g in [f] + rest;
    assert ([f] + rest)[1..] == rest;
    if f.opcode in {DATA, DATA_LEGACY} {
      assert DataPayloads([f] + rest) == [f.payload] + DataPayloads(rest);
      assert p.awaited != [];
      assert f.payload == SlicesAt(cfg, p.awaited)[0] == Slice(cfg, p.awaited[0]);
      assert DataPayloads(rest) == SlicesAt(cfg, p.awaited)[1..] == SlicesAt(cfg, p.awaited[1..]);
      StoreKeepsFaith(cfg, p, p.awaited[0]);
    }
  }

  lemma StartInv(cfg: Config)
    requires 0 < |cfg.image| < TWO31
    ensures Inv(cfg, Start())
  {
    var f := Frame(SESSION_START, 1, SESSION_PROTOCOL_REVISION, 0, []);
    var none: bytes := [];
    WholeFrame(f);
    RestIncomplete(DecodeFrame, none);
    assert DecodeFrame(none).Incomplete?;
    assert StartBytes() == FrameBytes(f);
    hide DecodeFrame, FrameBytes, StartBytes, Owed, ParseFrames, Conforming, Replies;
    assert none + none == none;
    assert Heard(Start()) == ParseFrames(none) == Parsed([], none);
    assert Future(cfg, Start()) == FrameBytes(f) by {
      NoReplies(cfg);
      assert none + StartBytes() + none == StartBytes();
    }
    StartOwes(cfg, f);
  }

  lemma NoReplies(cfg: Config)
    ensures Replies(cfg, []) == []
  {
  }

  lemma StartOwes(cfg: Config, f: Frame)
    requires f.opcode == SESSION_START
    ensures Owed(cfg, QUIET, [f])
  {
    assert [f][1..] == [];
  }

  /** One more conforming frame on its way to the host adds its reply to the future, and nothing else. */
  lemma SpeakExtends(cfg: Config, s: System, f: Frame, s': System)
    requires 0 < |cfg.image| < TWO31 && Inv(cfg, s) && Conforming(f)
    requires s'.hostBuffer == s.hostBuffer && s'.toHost == s.toHost + FrameBytes(f)
    requires s'.toPrinter == s.toPrinter && s'.printer.buffer == s.printer.buffer
    ensures Heard(s') == Parsed(Heard(s).items + [f], [])
    ensures ParseFrames(Future(cfg, s')).rest == []
    ensures ParseFrames(Future(cfg, s')).items == ParseFrames(Future(cfg, s)).items + ParseFrames(Reply(cfg, f)).items
  {
    hide DecodeFrame, ParseFrames, FrameBytes, Reply, Owed, Chatter, IsRequest;
    assert s'.hostBuffer + s'.toHost == (s.hostBuffer + s.toHost) + FrameBytes(f);
    ParseFramesAppend(s.hostBuffer + s.toHost, FrameBytes(f));
    assert [] + FrameBytes(f) == FrameBytes(f);
    WholeFrame(f);
    RepliesAppend(cfg, Heard(s).items, [f]);
    assert Replies(cfg, [f]) == Reply(cfg, f) by { assert [f][1..] == []; assert Reply(cfg, f) + [] == Reply(cfg, f); }
    assert Future(cfg, s') == Future(cfg, s) + Reply(cfg, f);
    ParseFramesAppend(Future(cfg, s), Reply(cfg, f));
    assert [] + Reply(cfg, f) == Reply(cfg, f);
    ReplyParses(cfg, f);
  }

  lemma NotifyKeeps(cfg: Config, s: System, f: Frame)
    requires 0 < |cfg.image| < TWO31 && Inv(cfg, s) && Chatter(f) && |f.payload| < TWO31
    ensures Inv(cfg, Step(cfg, s, Notify(f)))
  {
    SpeakExtends(cfg, s, f, Step(cfg, s, Notify(f)));
    ReplyParses(cfg, f);
    hide DecodeFrame, ParseFrames, FrameBytes, Reply, Owed, DataPayloads;
    OwedGrows(cfg, s.printer, ParseFrames(Future(cfg, s)).items, ParseFrames(Reply(cfg, f)).items, |cfg.image|);
  }

  lemma RequestConforms(offset: nat, arg2: byte)
    requires offset < TWO32
    ensures Conforming(RequestFrame(offset, arg2)) && IsRequest(RequestFrame(offset, arg2))
    ensures |RequestFrame(offset, arg2).payload| >= 4 && FromBe32(RequestFrame(offset, arg2).payload, 0) == offset
  {
    Be32RoundTrip(offset);
  }

  lemma OwedGrows(cfg: Config, p: Printer, coming: seq<Frame>, added: seq<Frame>, offset: nat)
    requires Owed(cfg, p, coming) && AllAnnounce(cfg, added)
    requires DataPayloads(added) == if offset < |cfg.image| then [Slice(cfg, offset)] else []
    ensures Owed(cfg, if offset < |cfg.image| then p.(awaited := p.awaited + [offset]) else p, coming + added)
  {
    hide Slice, AnnouncesLength;
    DataPayloadsAppend(coming, added);
    if offset < |cfg.image| {
      SlicesAtAppend(cfg, p.awaited, offset);
    }
  }

  lemma AskKeeps(cfg: Config, s: System, offset: nat, arg2: byte)
    requires 0 < |cfg.image| < TWO31 && Inv(cfg, s)
    requires s.printer.announced.Some? && offset < TWO32
    ensures Inv(cfg, AskStep(s, offset, arg2))
  {
    var s', f := AskStep(s, offset, arg2), RequestFrame(offset, arg2);
    assert s.printer.announced.value == |cfg.image|;
    RequestConforms(offset, arg2);
    hide DecodeFrame, ParseFrames, FrameBytes, Reply, Slice, Conforming, RequestFrame, Replies, Owed, DataPayloads;
    SpeakExtends(cfg, s, f, s');
    ReplyParses(cfg, f);
    OwedGrows(cfg, s.printer, ParseFrames(Future(cfg, s)).items, ParseFrames(Reply(cfg, f)).items, offset);
  }

  /** The host taking delivery changes nothing about the future. */
  lemma HostKeeps(cfg: Config, s: System, count: nat)
    requires 0 < |cfg.image| < TWO31 && Inv(cfg, s) && count <= |s.toHost|
    ensures Inv(cfg, HostStep(cfg, s, count))
    ensures Future(cfg, HostStep(cfg, s, count)) == Future(cfg, s)
  {
    var s' := HostStep(cfg, s, count);
    var r := ParseFrames(s.hostBuffer + s.toHost[..count]);
    assert Heard(s) == Parsed(r.items + Heard(s').items, Heard(s').rest) && DecodeFrame(s'.hostBuffer).Incomplete? by {
      HearSplit(s, count);
    }
    hide DecodeFrame, ParseFrames, Conforming, Owed, Replies, Answers, Final, Heard;
    assert AllConforming(r.items) && AllConforming(Heard(s').items) by {
      assert forall f :: f in r.items || f in Heard(s').items ==> f in Heard(s).items;
    }
    AnswersAreReplies(cfg, s.host, r.items);
    RepliesAppend(cfg, r.items, Heard(s').items);
    Regroup(s.printer.buffer, s.toPrinter, Replies(cfg, r.items), Replies(cfg, Heard(s').items));
  }

  lemma HearSplit(s: System, count: nat)
    requires count <= |s.toHost|
    ensures var r := ParseFrames(s.hostBuffer + s.toHost[..count]);
            var later := ParseFrames(r.rest + s.toHost[count..]);
            && Heard(s) == Parsed(r.items + later.items, later.rest)
            && DecodeFrame(r.rest).Incomplete?
  {
    hide DecodeFrame, ParseFrames;
    Resplit(s.hostBuffer, s.toHost, count);
    ParseFramesAppend(s.hostBuffer + s.toHost[..count], s.toHost[count..]);
    FrameRest(s.hostBuffer + s.toHost[..count]);
  }

  lemma PrinterKeeps(cfg: Config, s: System, count: nat)
    requires 0 < |cfg.image| < TWO31 && Inv(cfg, s) && count <= |s.toPrinter|
    ensures Inv(cfg, PrinterStep(s, count))
    ensures PrinterStep(s, count).printer.dataFrames + |PrinterStep(s, count).printer.awaited|
         == s.printer.dataFrames + |s.printer.awaited|
    ensures s.printer.announced.Some? ==> PrinterStep(s, count).printer.announced.Some?
  {
    var r := ParseFrames(s.printer.buffer + s.toPrinter[..count]);
    var rest := r.rest + s.toPrinter[count..] + Replies(cfg, Heard(s).items);
    hide DecodeFrame, ParseFrames, AllConforming, Owed, Replies, TakeAll;
    FutureSplit(cfg, s, count);
    var p := s.printer.(buffer := r.rest);
    OwedIgnoresBuffer(cfg, s.printer, r.rest, ParseFrames(Future(cfg, s)).items);
    TakeAllKeeps(cfg, p, r.items, ParseFrames(rest).items);
    assert Future(cfg, PrinterStep(s, count)) == rest;
  }

  lemma FutureSplit(cfg: Config, s: System, count: nat)
    requires count <= |s.toPrinter|
    ensures var r := ParseFrames(s.printer.buffer + s.toPrinter[..count]);
            var later := ParseFrames(r.rest + s.toPrinter[count..] + Replies(cfg, Heard(s).items));
            && ParseFrames(Future(cfg, s)) == Parsed(r.items + later.items, later.rest)
            && DecodeFrame(r.rest).Incomplete?
  {
    hide DecodeFrame, ParseFrames, Replies, Heard;
    var front, replies := s.printer.buffer + s.toPrinter[..count], Replies(cfg, Heard(s).items);
    Resplit(s.printer.buffer, s.toPrinter, count);
    assert Future(cfg, s) == front + (s.toPrinter[count..] + replies);
    ParseFramesAppend(front, s.toPrinter[count..] + replies);
    assert ParseFrames(front).rest + (s.toPrinter[count..] + replies) == ParseFrames(front).rest + s.toPrinter[count..] + replies;
    FrameRest(front);
  }

  lemma OwedIgnoresBuffer(cfg: Config, p: Printer, buffer: bytes, coming: seq<Frame>)
    ensures Owed(cfg, p, coming) <==> Owed(cfg, p.(buffer := buffer), coming)
  {
  }

  lemma StepKeeps(cfg: Config, s: System, m: Move)
    requires 0 < |cfg.image| < TWO31 && Inv(cfg, s)
    ensures Inv(cfg, Step(cfg, s, m))
  {
    hide Inv, HostStep, PrinterStep, AskStep, Chatter;
    match m
    case Notify(f) => if Chatter(f) && |f.payload| < TWO31 { NotifyKeeps(cfg, s, f); }
    case Ask(offset, arg2) =>
      if s.printer.announced.Some? && offset < TWO32 { AskKeeps(cfg, s, offset, arg2); }
    case HostReceives(count) => if count <= |s.toHost| { HostKeeps(cfg, s, count); }
    case PrinterReceives(count) => if count <= |s.toPrinter| { PrinterKeeps(cfg, s, count); }
  }

  lemma {:induction false} InvAlways(cfg: Config, s: System, moves: seq<Move>)
    requires 0 < |cfg.image| < TWO31 && Inv(cfg, s)
    ensures Inv(cfg, After(cfg, s, moves))
    decreases |moves|
  {
    if moves != [] {
      StepKeeps(cfg, s, moves[0]);
      hide Inv, Step;
      InvAlways(cfg, Step(cfg, s, moves[0]), moves[1..]);
    }
  }

  /** Safety of the transfer: in every run, whatever the printer asks for and
      however often, whatever else it says, and however both streams are chunked,
      the bytes it has stored are the image's and the length announced is the image's. */
  lemma TransferIsFaithful(cfg: Config, moves: seq<Move>)
    requires 0 < |cfg.image| < TWO31
    ensures Faithful(cfg, After(cfg, Start(), moves).printer)
  {
    StartInv(cfg);
    InvAlways(cfg, Start(), moves);
  }
}
