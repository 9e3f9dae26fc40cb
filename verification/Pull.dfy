/** A printer that always asks for its next missing byte: how long it takes, and that it always finishes. */
module Pull {
  import opened Bytes
  import opened Incremental
  import opened Frames
  import opened Status
  import opened Session
  import opened SessionRuns
  import opened Transfer

  /** The bytes stored are exactly those below `p`. */
  ghost predicate Holds(memory: map<nat, byte>, p: nat) {
    forall k: nat :: k in memory <==> k < p
  }

  /** How far `d` data frames reach. */
  function Extent(cfg: Config, d: nat): nat {
    Scale(0, d, CapOf(cfg));
    Min(d * CapOf(cfg), |cfg.image|)
  }

  /** The discipline: one question at a time, and always for the next missing byte. */
  ghost predicate Allowed(s: System, m: Move) {
    m.Ask? ==> s.printer.awaited == [] && Holds(s.printer.memory, m.offset)
  }

  ghost predicate Pulling(cfg: Config, s: System, moves: seq<Move>)
    decreases |moves|
  {
    moves == [] || (Allowed(s, moves[0]) && Pulling(cfg, Step(cfg, s, moves[0]), moves[1..]))
  }

  ghost predicate PullInv(cfg: Config, p: Printer) {
    && Holds(p.memory, Extent(cfg, p.dataFrames))
    && (p.awaited == [] || (p.awaited == [Extent(cfg, p.dataFrames)] && Extent(cfg, p.dataFrames) < |cfg.image|))
    && (p.dataFrames > 0 ==> (p.dataFrames - 1) * CapOf(cfg) < |cfg.image|)
  }

  lemma ExtentStep(cfg: Config, d: nat)
    requires Extent(cfg, d) < |cfg.image|
    ensures Extent(cfg, d) == d * CapOf(cfg) < |cfg.image|
    ensures Extent(cfg, d + 1) == SliceEnd(cfg, Extent(cfg, d))
  {
    Scale(0, d, CapOf(cfg));
    Scale(0, d + 1, CapOf(cfg));
    Distribute(d, CapOf(cfg));
    SliceEndIsCapped(cfg, Extent(cfg, d));
  }

  lemma StoreExtends(memory: map<nat, byte>, p: nat, data: bytes)
    requires Holds(memory, p)
    ensures Holds(Stored(memory, p, data), p + |data|)
  {
    forall k: nat
      ensures k in Stored(memory, p, data) <==> k < p + |data|
    {
      assert Covers(p, data, k) <==> p <= k < p + |data|;
    }
  }

  lemma TakePulls(cfg: Config, p: Printer, f: Frame, rest: seq<Frame>)
    requires Owed(cfg, p, [f] + rest) && PullInv(cfg, p)
    ensures PullInv(cfg, Take(p, f))
  {
    assert f in [f] + rest;
    assert ([f] + rest)[1..] == rest;
    if f.opcode in {DATA, DATA_LEGACY} {
      assert DataPayloads([f] + rest) == [f.payload] + DataPayloads(rest);
      var e := Extent(cfg, p.dataFrames);
      assert p.awaited == [e];
      assert f.payload == SlicesAt(cfg, p.awaited)[0] == Slice(cfg, e);
      ExtentStep(cfg, p.dataFrames);
      StoreExtends(p.memory, e, f.payload);
    }
  }

  lemma {:induction false} TakeAllPulls(cfg: Config, p: Printer, now: seq<Frame>, later: seq<Frame>)
    requires Owed(cfg, p, now + later) && PullInv(cfg, p)
    ensures PullInv(cfg, TakeAll(p, now))
    decreases |now|
  {
    if now != [] {
      var f, rest := now[0], now[1..] + later;
      assert now + later == [f] + rest;
      hide Take, Owed, PullInv;
      TakeKeeps(cfg, p, f, rest);
      TakePulls(cfg, p, f, rest);
      TakeAllPulls(cfg, Take(p, f), now[1..], later);
    }
  }

  lemma PrinterPulls(cfg: Config, s: System, count: nat)
    requires 0 < |cfg.image| < TWO31 && Inv(cfg, s) && PullInv(cfg, s.printer) && count <= |s.toPrinter|
    ensures PullInv(cfg, PrinterStep(s, count).printer)
  {
    var r := ParseFrames(s.printer.buffer + s.toPrinter[..count]);
    var rest := r.rest + s.toPrinter[count..] + Replies(cfg, Heard(s).items);
    hide DecodeFrame, ParseFrames, Owed, Replies, TakeAll, Extent, Holds;
    FutureSplit(cfg, s, count);
    OwedIgnoresBuffer(cfg, s.printer, r.rest, ParseFrames(Future(cfg, s)).items);
    TakeAllPulls(cfg, s.printer.(buffer := r.rest), r.items, ParseFrames(rest).items);
  }

  lemma AskPulls(cfg: Config, s: System, offset: nat, arg2: byte)
    requires PullInv(cfg, s.printer) && Faithful(cfg, s.printer) && s.printer.announced.Some?
    requires Allowed(s, Ask(offset, arg2))
    ensures PullInv(cfg, AskStep(s, offset, arg2).printer)
    ensures offset == Extent(cfg, s.printer.dataFrames)
  {
    SameExtent(s.printer.memory, offset, Extent(cfg, s.printer.dataFrames));
  }

  lemma SameExtent(memory: map<nat, byte>, p: nat, q: nat)
    requires Holds(memory, p) && Holds(memory, q)
    ensures p == q
  {
    var k := if p < q then p else q;
    assert k in memory <==> k < p;
    assert k in memory <==> k < q;
  }

  lemma StepPulls(cfg: Config, s: System, m: Move)
    requires 0 < |cfg.image| < TWO31 && Inv(cfg, s) && PullInv(cfg, s.printer) && Allowed(s, m)
    ensures PullInv(cfg, Step(cfg, s, m).printer)
  {
    assert Faithful(cfg, s.printer);
    hide Inv, PullInv, HostStep, PrinterStep, AskStep, Chatter, Allowed, FrameBytes, Faithful, Step;
    match m
    case Notify(f) => QuietStep(cfg, s, m);
    case HostReceives(count) => QuietStep(cfg, s, m);
    case Ask(offset, arg2) =>
      AskIsAskStep(cfg, s, offset, arg2);
      if s.printer.announced.Some? && offset < TWO32 { AskPulls(cfg, s, offset, arg2); }
    case PrinterReceives(count) =>
      PrinterIsPrinterStep(cfg, s, count);
      if count <= |s.toPrinter| { PrinterPulls(cfg, s, count); }
  }

  lemma QuietStep(cfg: Config, s: System, m: Move)
    requires m.Notify? || m.HostReceives?
    ensures Step(cfg, s, m).printer == s.printer
  {
    hide Chatter, FrameBytes, ParseFrames, Final, Answers;
  }

  lemma AskIsAskStep(cfg: Config, s: System, offset: nat, arg2: byte)
    ensures Step(cfg, s, Ask(offset, arg2)) == if s.printer.announced.Some? && offset < TWO32 then AskStep(s, offset, arg2) else s
  {
    hide AskStep;
  }

  lemma PrinterIsPrinterStep(cfg: Config, s: System, count: nat)
    ensures Step(cfg, s, PrinterReceives(count)) == if count <= |s.toPrinter| then PrinterStep(s, count) else s
  {
    hide PrinterStep;
  }

  lemma {:induction false} PullInvAlways(cfg: Config, s: System, moves: seq<Move>)
    requires 0 < |cfg.image| < TWO31 && Inv(cfg, s) && PullInv(cfg, s.printer) && Pulling(cfg, s, moves)
    ensures Inv(cfg, After(cfg, s, moves)) && PullInv(cfg, After(cfg, s, moves).printer)
    decreases |moves|
  {
    if moves != [] {
      hide Inv, PullInv, Step, Allowed;
      Transfer.StepKeeps(cfg, s, moves[0]);
      StepPulls(cfg, s, moves[0]);
      PullInvAlways(cfg, Step(cfg, s, moves[0]), moves[1..]);
    }
  }

  lemma StartPulls(cfg: Config)
    ensures PullInv(cfg, QUIET)
  {
  }

  ghost predicate HasWholeImage(cfg: Config, p: Printer) {
    && p.announced == Some(|cfg.image|)
    && Holds(p.memory, |cfg.image|)
    && forall k: nat :: k < |cfg.image| ==> p.memory[k] == cfg.image[k]
  }

  /** In every run of such a printer the number of data frames never exceeds
      `CeilDiv(n, cap)`, and the image is complete exactly when it reaches it. */
  lemma PullTakesExactlyCeil(cfg: Config, moves: seq<Move>)
    requires 0 < |cfg.image| < TWO31 && CapOf(cfg) > 0 && Pulling(cfg, Start(), moves)
    ensures var p := After(cfg, Start(), moves).printer;
            && p.dataFrames <= CeilDiv(|cfg.image|, CapOf(cfg))
            && (Holds(p.memory, |cfg.image|) <==> p.dataFrames == CeilDiv(|cfg.image|, CapOf(cfg)))
  {
    hide Inv, After, Pulling;
    StartInv(cfg);
    StartPulls(cfg);
    PullInvAlways(cfg, Start(), moves);
    ExactlyCeil(cfg, After(cfg, Start(), moves).printer);
  }

  lemma ExactlyCeil(cfg: Config, p: Printer)
    requires CapOf(cfg) > 0 && PullInv(cfg, p)
    ensures p.dataFrames <= CeilDiv(|cfg.image|, CapOf(cfg))
    ensures Holds(p.memory, |cfg.image|) <==> p.dataFrames == CeilDiv(|cfg.image|, CapOf(cfg))
  {
    var n, d, cap := |cfg.image|, p.dataFrames, CapOf(cfg);
    CeilDivIsLeast(n, cap, d);
    if d > 0 {
      CeilDivIsLeast(n, cap, d - 1);
    }
    if Holds(p.memory, n) {
      SameExtent(p.memory, n, Extent(cfg, d));
    }
  }

  // ----- It can always finish -------------------------------------------------------

  /** Nothing is under way: both streams are empty and no question is open. */
  predicate Quiescent(s: System) {
    s.hostBuffer == [] && s.toHost == [] && s.toPrinter == [] && s.printer.buffer == [] && s.printer.awaited == []
  }

  function Drained(cfg: Config, s: System): System {
    var s1 := HostStep(cfg, s, |s.toHost|);
    PrinterStep(s1, |s1.toPrinter|)
  }

  function DrainMoves(cfg: Config, s: System): seq<Move> {
    [HostReceives(|s.toHost|), PrinterReceives(|HostStep(cfg, s, |s.toHost|).toPrinter|)]
  }

  lemma DrainMovesDrain(cfg: Config, s: System)
    ensures Pulling(cfg, s, DrainMoves(cfg, s)) && After(cfg, s, DrainMoves(cfg, s)) == Drained(cfg, s)
  {
    hide HostStep, PrinterStep;
    var m := DrainMoves(cfg, s);
    var s1 := HostStep(cfg, s, |s.toHost|);
    assert m[1..] == [PrinterReceives(|s1.toPrinter|)] && m[1..][1..] == [];
    assert Step(cfg, s, m[0]) == s1 && Step(cfg, s1, m[1]) == Drained(cfg, s);
    assert After(cfg, s1, m[1..]) == Drained(cfg, s);
    assert Pulling(cfg, s1, m[1..]);
  }

  /** Delivering everything under way answers every open question. */
  lemma DrainSettles(cfg: Config, s: System)
    requires 0 < |cfg.image| < TWO31 && Inv(cfg, s) && PullInv(cfg, s.printer)
    ensures var s2 := Drained(cfg, s);
            && Inv(cfg, s2) && PullInv(cfg, s2.printer) && Quiescent(s2)
            && s2.printer.dataFrames == s.printer.dataFrames + |s.printer.awaited|
            && (s.printer.announced.Some? ==> s2.printer.announced.Some?)
  {
    var s1 := HostStep(cfg, s, |s.toHost|);
    var s2 := PrinterStep(s1, |s1.toPrinter|);
    assert s2.toHost == s1.toHost == [] && s2.hostBuffer == s1.hostBuffer && s2.toPrinter == [];
    hide Inv, PullInv, HostStep, PrinterStep;
    HostKeeps(cfg, s, |s.toHost|);
    PrinterKeeps(cfg, s1, |s1.toPrinter|);
    assert s1.printer == s.printer by { HostLeavesPrinter(cfg, s, |s.toHost|); }
    PrinterPulls(cfg, s1, |s1.toPrinter|);
    EmptyIsQuiescent(cfg, s2);
  }

  lemma HostLeavesPrinter(cfg: Config, s: System, count: nat)
    requires count <= |s.toHost|
    ensures HostStep(cfg, s, count).printer == s.printer
  {
  }

  lemma EmptyIsQuiescent(cfg: Config, s: System)
    requires Inv(cfg, s) && s.toHost == [] && s.toPrinter == []
    ensures Quiescent(s)
  {
    assert s.hostBuffer + s.toHost == s.hostBuffer;
    RestIncomplete(DecodeFrame, s.hostBuffer);
    hide DecodeFrame;
    assert Heard(s) == Parsed([], s.hostBuffer);
    assert Future(cfg, s) == s.printer.buffer;
    RestIncomplete(DecodeFrame, s.printer.buffer);
    assert ParseFrames(Future(cfg, s)) == Parsed([], s.printer.buffer);
    assert DataPayloads([]) == [];
    assert SlicesAt(cfg, s.printer.awaited) == [];
  }

  const READY_FRAME := Frame(PRINT_STATE, READY, 0, 0, [])

  /** The printer reporting itself ready brings the job start, and with it the length. */
  lemma ReadyAnnounces(cfg: Config, s: System)
    requires 0 < |cfg.image| < TWO31 && Quiescent(s)
    ensures Drained(cfg, Step(cfg, s, Notify(READY_FRAME))).printer.announced.Some?
  {
    var s' := Step(cfg, s, Notify(READY_FRAME));
    var sent := FrameBytes(READY_FRAME);
    assert s'.hostBuffer + s'.toHost[..|s'.toHost|] == sent;
    WholeFrame(READY_FRAME);
    StartAnnounces(cfg);
    WholeFrame(JobStart(cfg));
    hide ParseFrames, FrameBytes, JobStart;
    var s1 := HostStep(cfg, s', |s'.toHost|);
    assert Answers(cfg, s'.host, [READY_FRAME]) == FrameBytes(JobStart(cfg)) by {
      assert [READY_FRAME][1..] == [];
      assert Handle(cfg, s'.host, READY_FRAME).action == Send(FrameBytes(JobStart(cfg)), false);
    }
    assert s1.printer.buffer + s1.toPrinter[..|s1.toPrinter|] == FrameBytes(JobStart(cfg));
    StartIsTaken(cfg, s1.printer);
  }

  lemma StartIsTaken(cfg: Config, p: Printer)
    requires |cfg.image| < TWO32
    ensures TakeAll(p.(buffer := []), [JobStart(cfg)]).announced.Some?
  {
    assert [JobStart(cfg)][1..] == [];
  }

  lemma {:induction false} RunsJoin(cfg: Config, s: System, a: seq<Move>, b: seq<Move>)
    requires Pulling(cfg, s, a) && Pulling(cfg, After(cfg, s, a), b)
    ensures Pulling(cfg, s, a + b) && After(cfg, s, a + b) == After(cfg, After(cfg, s, a), b)
    decreases |a|
  {
    hide Step, Allowed;
    if a == [] {
      assert a + b == b;
    } else {
      RunsJoin(cfg, Step(cfg, s, a[0]), a[1..], b);
      assert (a + b)[0] == a[0] && (a + b)[1..] == a[1..] + b;
    }
  }

  /** One move, then delivery of everything it set under way. */
  lemma MoveAndDrain(cfg: Config, s: System, m: Move) returns (moves: seq<Move>)
    requires Allowed(s, m)
    ensures Pulling(cfg, s, moves) && After(cfg, s, moves) == Drained(cfg, Step(cfg, s, m))
  {
    hide Step, Drained, DrainMoves, Allowed;
    var s' := Step(cfg, s, m);
    DrainMovesDrain(cfg, s');
    assert [m][1..] == [];
    assert After(cfg, s, [m]) == s' by { assert After(cfg, s', []) == s'; }
    assert Pulling(cfg, s, [m]) by { assert Pulling(cfg, s', []); }
    RunsJoin(cfg, s, [m], DrainMoves(cfg, s'));
    moves := [m] + DrainMoves(cfg, s');
  }

  lemma {:induction false} Finish(cfg: Config, s: System) returns (moves: seq<Move>)
    requires 0 < |cfg.image| < TWO31 && CapOf(cfg) > 0
    requires Inv(cfg, s) && PullInv(cfg, s.printer) && Quiescent(s) && s.printer.announced.Some?
    ensures Pulling(cfg, s, moves) && HasWholeImage(cfg, After(cfg, s, moves).printer)
    decreases CeilDiv(|cfg.image|, CapOf(cfg)) - s.printer.dataFrames
  {
    ExactlyCeil(cfg, s.printer);
    var e := Extent(cfg, s.printer.dataFrames);
    if e == |cfg.image| {
      moves := [];
    } else {
      hide CeilDiv, Drained, Inv, HostStep, PrinterStep;
      assert Step(cfg, s, Ask(e, 0)) == AskStep(s, e, 0);
      var s' := AskStep(s, e, 0);
      NextAsk(cfg, s);
      var first := MoveAndDrain(cfg, s, Ask(e, 0));
      DrainSettles(cfg, s');
      ExactlyCeil(cfg, Drained(cfg, s').printer);
      var later := Finish(cfg, Drained(cfg, s'));
      RunsJoin(cfg, s, first, later);
      moves := first + later;
    }
  }

  lemma NextAsk(cfg: Config, s: System)
    requires 0 < |cfg.image| < TWO31
    requires Inv(cfg, s) && PullInv(cfg, s.printer) && Quiescent(s) && s.printer.announced.Some?
    requires Extent(cfg, s.printer.dataFrames) < |cfg.image|
    ensures var e := Extent(cfg, s.printer.dataFrames);
            && Allowed(s, Ask(e, 0))
            && Inv(cfg, AskStep(s, e, 0)) && PullInv(cfg, AskStep(s, e, 0).printer)
            && AskStep(s, e, 0).printer.awaited == [e]
  {
    var e := Extent(cfg, s.printer.dataFrames);
    assert Faithful(cfg, s.printer);
    hide Inv;
    AskKeeps(cfg, s, e, 0);
    AskPulls(cfg, s, e, 0);
  }

  /** No run of a pulling printer is ever stuck: from wherever it has got to, it
      can go on to a printer that holds the whole image and nothing else, knows
      its length, and has received exactly `CeilDiv(n, cap)` data frames. */
  lemma PullCanAlwaysFinish(cfg: Config, moves: seq<Move>) returns (more: seq<Move>)
    requires 0 < |cfg.image| < TWO31 && CapOf(cfg) > 0 && Pulling(cfg, Start(), moves)
    ensures Pulling(cfg, Start(), moves + more)
    ensures var p := After(cfg, Start(), moves + more).printer;
            HasWholeImage(cfg, p) && p.dataFrames == CeilDiv(|cfg.image|, CapOf(cfg))
  {
    hide Inv, PullInv, Pulling, After, Drained, DrainMoves, Step, HasWholeImage, CeilDiv;
    var s := After(cfg, Start(), moves);
    StartInv(cfg);
    StartPulls(cfg);
    PullInvAlways(cfg, Start(), moves);
    DrainMovesDrain(cfg, s);
    DrainSettles(cfg, s);
    var s1 := Drained(cfg, s);
    var ready := Notify(READY_FRAME);
    var announce := MoveAndDrain(cfg, s1, ready);
    ReadyAnnounces(cfg, s1);
    Transfer.StepKeeps(cfg, s1, ready);
    StepPulls(cfg, s1, ready);
    DrainSettles(cfg, Step(cfg, s1, ready));
    var finish := Finish(cfg, Drained(cfg, Step(cfg, s1, ready)));
    RunsJoin(cfg, s1, announce, finish);
    RunsJoin(cfg, s, DrainMoves(cfg, s), announce + finish);
    RunsJoin(cfg, Start(), moves, DrainMoves(cfg, s) + (announce + finish));
    more := DrainMoves(cfg, s) + (announce + finish);
    PullTakesExactlyCeil(cfg, moves + more);
    WholeImageIsHeld(cfg, After(cfg, Start(), moves + more).printer);
  }

  lemma WholeImageIsHeld(cfg: Config, p: Printer)
    requires HasWholeImage(cfg, p)
    ensures Holds(p.memory, |cfg.image|)
  {
  }
}
