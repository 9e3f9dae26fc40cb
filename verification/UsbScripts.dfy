/** What becomes of the read loop, told from the script of transfers alone. */
module UsbScripts {
  import opened Bytes
  import opened Incremental
  import opened AdbMessages
  import opened UsbReader
  import opened UsbRuns

  // ----- Where in a message a script stands -------------------------------------------------

  /** The length a message declares in the fourth word of its header, least significant byte first. */
  function Declared(p: bytes): nat
    requires |p| >= 24
  {
    var b0: int, b1: int, b2: int, b3: int := p[12], p[13], p[14], p[15];
    b0 + 256 * b1 + 65536 * b2 + 16777216 * b3
  }

  /** How many more bytes of a message are asked for when `p` of it has been read: the
      rest of the header first, then the rest of the payload. */
  function Asked(p: bytes): int {
    if |p| < 24 then 24 - |p| else 24 + Declared(p) - |p|
  }

  /** The bytes of the message under way once one more transfer has ended: a whole
      message is handed on, an idle endpoint leaves alone what is begun but lets go of a
      header whose payload has not begun, and a stall drops what there is. */
  function Further(p: bytes, outcome: Outcome): bytes {
    match outcome
    case Data(data) =>
      if data == [] then AfterIdle(p)
      else if |p + data| >= 24 && Asked(p + data) == 0 then []
      else p + data
    case Idle => AfterIdle(p)
    case Stall(_) => []
    case _ => p
  }

  function AfterIdle(p: bytes): bytes {
    if |p| == 24 then [] else p
  }

  /** The bytes of the message under way after a script. */
  function Begun(ts: seq<Transfer>): bytes {
    if ts == [] then [] else Further(Begun(ts[..|ts| - 1]), ts[|ts| - 1].outcome)
  }

  /** The transfer brings the last bytes of a header. */
  predicate EndsHeader(p: bytes, outcome: Outcome) {
    outcome.Data? && |p| < 24 == |p| + |outcome.data|
  }

  /** The stalls since the last header was complete. */
  function StallsSince(ts: seq<Transfer>): nat {
    if ts == [] then 0
    else
      var front, outcome := ts[..|ts| - 1], ts[|ts| - 1].outcome;
      if EndsHeader(Begun(front), outcome) then 0 else StallsSince(front) + (if outcome.Stall? then 1 else 0)
  }

  /** All bytes the endpoint gave. */
  function Given(ts: seq<Transfer>): bytes {
    if ts == [] then []
    else
      var outcome := ts[|ts| - 1].outcome;
      Given(ts[..|ts| - 1]) + (if outcome.Data? then outcome.data else [])
  }

  // ----- What ends the loop -------------------------------------------------------------------

  /** Why this transfer, after `past`, ends the loop, if it does. Short reads, empty
      reads and idle reports never do. */
  function Verdict(limit: int, past: seq<Transfer>, t: Transfer): Option<Why> {
    var p := Begun(past);
    var closed := if t.closing then Some(Closed) else None;
    match t.outcome
    case Data(data) =>
      if |data| > Asked(p) then Some(if t.closing then Closed else Failed)
      else if EndsHeader(p, t.outcome) && Declared(p + data) > 1048576 then Some(OutOfRange)
      else closed
    case Idle => closed
    case Stall(cleared) =>
      if t.closing then closed
      else if StallsSince(past) >= limit then Some(StallBudgetSpent)
      else if !cleared then Some(HaltNotCleared)
      else None
    case Disconnect => Some(if t.closing then Closed else Disconnected)
    case Failure => Some(if t.closing then Closed else Failed)
  }

  /** Why the first transfer that ends the loop does. */
  function End(limit: int, ts: seq<Transfer>): Option<Why> {
    if ts == [] then None
    else
      var before := End(limit, ts[..|ts| - 1]);
      if before.None? then Verdict(limit, ts[..|ts| - 1], ts[|ts| - 1]) else before
  }

  /** The transfer neither closes the transport nor loses the device, returns no more
      than was asked for, completes no header that declares more than 1048576 bytes,
      and, if it is a stall, is cleared and within the budget. */
  predicate Harmless(limit: int, past: seq<Transfer>, t: Transfer) {
    && !t.closing
    && match t.outcome
       case Data(data) =>
         |data| <= Asked(Begun(past)) && (EndsHeader(Begun(past), t.outcome) ==> Declared(Begun(past) + data) <= 1048576)
       case Idle => true
       case Stall(cleared) => cleared && StallsSince(past) < limit
       case _ => false
  }

  predicate AllHarmless(limit: int, ts: seq<Transfer>) {
    forall n :: 0 <= n < |ts| ==> Harmless(limit, ts[..n], ts[n])
  }

  // ----- The loop does as told -------------------------------------------------------------------

  lemma DeclaredIsTheLengthWord(p: bytes)
    requires |p| >= ADB_HEADER_SIZE
    ensures Declared(p) == FromLe32(p, 12)
  {
  }

  /** A running loop stands where the script put it. */
  predicate Standing(limit: int, r: Reader, ts: seq<Transfer>) {
    && Running(r) && ShapeInv(limit, r)
    && InFlight(r) == Begun(ts) && r.taken == Given(ts) && r.stalls == StallsSince(ts)
  }

  predicate AsTold(limit: int, r: Reader, ts: seq<Transfer>) {
    match End(limit, ts)
    case None => Standing(limit, r, ts)
    case Some(why) => r.stopped == Some(why)
  }

  /** What is asked for, in the loop's terms. */
  lemma AskedIsNeeded(limit: int, r: Reader)
    requires Running(r) && ShapeInv(limit, r)
    ensures var p := InFlight(r);
            && Asked(p) == Need(r.phase) - |r.got| && Asked(p) > 0
            && (r.phase.ReadingHeader? <==> |p| < 24)
            && (|p| == 24 <==> r.phase.ReadingPayload? && r.got == [])
  {
    if r.phase.ReadingPayload? {
      DeclaredIsTheLengthWord(InFlight(r));
      assert FromLe32(InFlight(r), 12) == FromLe32(r.phase.header, 12);
    }
  }

  lemma {:induction false} UsbSnoc(limit: int, r: Reader, ts: seq<Transfer>, t: Transfer)
    ensures UsbReader.After(limit, r, ts + [t]) == UsbReader.Step(limit, UsbReader.After(limit, r, ts), t)
    decreases |ts|
  {
    hide UsbReader.Step;
    if ts == [] {
      var k := UsbReader.Step(limit, r, t);
      assert ([] + [t])[1..] == [] && UsbReader.After(limit, k, []) == k;
    } else {
      assert (ts + [t])[0] == ts[0] && (ts + [t])[1..] == ts[1..] + [t];
      UsbSnoc(limit, UsbReader.Step(limit, r, ts[0]), ts[1..], t);
    }
  }

  /** One transfer: the loop stops for the reason told, or what is in flight, taken and counted moves as told. */
  predicate MovesAsTold(limit: int, r: Reader, ts: seq<Transfer>, t: Transfer) {
    var k := UsbReader.Step(limit, r, t);
    match Verdict(limit, ts, t)
    case Some(why) => k.stopped == Some(why)
    case None =>
      && Running(k) && InFlight(k) == Further(Begun(ts), t.outcome)
      && k.taken == r.taken + (if t.outcome.Data? then t.outcome.data else [])
      && k.stalls == (if EndsHeader(Begun(ts), t.outcome) then 0 else r.stalls + (if t.outcome.Stall? then 1 else 0))
  }

  lemma NothingMoves(limit: int, r: Reader, ts: seq<Transfer>, t: Transfer)
    requires Standing(limit, r, ts) && (t.outcome.Idle? || t.outcome == Data([]))
    ensures MovesAsTold(limit, r, ts, t)
  {
    hide FromLe32, Begun, StallsSince, Given, Declared;
    AskedIsNeeded(limit, r);
  }

  lemma TroubleMoves(limit: int, r: Reader, ts: seq<Transfer>, t: Transfer)
    requires Standing(limit, r, ts) && !t.outcome.Data? && !t.outcome.Idle?
    ensures MovesAsTold(limit, r, ts, t)
  {
    hide FromLe32, Begun, StallsSince, Given, Declared;
  }

  lemma DataMoves(limit: int, r: Reader, ts: seq<Transfer>, t: Transfer)
    requires Standing(limit, r, ts) && t.outcome.Data? && t.outcome.data != []
    ensures MovesAsTold(limit, r, ts, t)
  {
    hide FromLe32, Begun, StallsSince, Given, Declared;
    var data := t.outcome.data;
    AskedIsNeeded(limit, r);
    if |data| <= Asked(Begun(ts)) {
      match r.phase
      case ReadingHeader =>
        if |r.got + data| == 24 {
          DeclaredIsTheLengthWord(r.got + data);
        }
      case ReadingPayload(header, length) =>
        PayloadAsked(header, r.got + data, length);
        assert (header + r.got) + data == header + (r.got + data);
    }
  }

  lemma PayloadAsked(header: bytes, payload: bytes, length: nat)
    requires |header| == 24 && length == FromLe32(header, 12)
    ensures Asked(header + payload) == length - |payload|
  {
    DeclaredIsTheLengthWord(header + payload);
    assert FromLe32(header + payload, 12) == FromLe32(header, 12);
  }

  lemma TransferAsTold(limit: int, r: Reader, ts: seq<Transfer>, t: Transfer)
    requires AsTold(limit, r, ts)
    ensures AsTold(limit, UsbReader.Step(limit, r, t), ts + [t])
  {
    assert (ts + [t])[..|ts|] == ts;
    hide Verdict, Further, EndsHeader;
    if End(limit, ts).None? {
      hide UsbReader.Step;
      StepShape(limit, r, t);
      match t.outcome
      case Data(data) => if data == [] { NothingMoves(limit, r, ts, t); } else { DataMoves(limit, r, ts, t); }
      case Idle => NothingMoves(limit, r, ts, t);
      case _ => TroubleMoves(limit, r, ts, t);
    }
  }

  lemma {:induction false} RunAsTold(limit: int, ts: seq<Transfer>)
    ensures AsTold(limit, UsbReader.After(limit, START, ts), ts)
  {
    hide AsTold, UsbReader.Step;
    if ts == [] {
      assert AsTold(limit, START, []) by { StartAsTold(limit); }
      assert UsbReader.After(limit, START, []) == START;
    } else {
      var front, t := ts[..|ts| - 1], ts[|ts| - 1];
      assert ts == front + [t];
      RunAsTold(limit, front);
      UsbSnoc(limit, START, front, t);
      TransferAsTold(limit, UsbReader.After(limit, START, front), front, t);
    }
  }

  lemma StartAsTold(limit: int)
    ensures AsTold(limit, START, [])
  {
  }

  // ----- The results ------------------------------------------------------------------------------

  /** For every script of transfers the loop stops at the first one that ends it, for
      the reason that has, and is running if there is none; then what it has in flight,
      has taken and has counted is what the script says. */
  lemma StopsAsTold(limit: int, ts: seq<Transfer>)
    ensures var r := UsbReader.After(limit, START, ts);
            && r.stopped == End(limit, ts)
            && (Running(r) ==> InFlight(r) == Begun(ts) && r.taken == Given(ts) && r.stalls == StallsSince(ts))
  {
    hide UsbReader.After, End, ShapeInv, InFlight;
    RunAsTold(limit, ts);
  }

  lemma {:induction false} NoEndIffHarmless(limit: int, ts: seq<Transfer>)
    ensures End(limit, ts).None? <==> AllHarmless(limit, ts)
  {
    hide Harmless, Verdict;
    if ts != [] {
      var front := ts[..|ts| - 1];
      NoEndIffHarmless(limit, front);
      HarmlessHasNoVerdict(limit, front, ts[|ts| - 1]);
      assert forall n :: 0 <= n < |front| ==> front[..n] == ts[..n] && front[n] == ts[n];
    }
  }

  lemma HarmlessHasNoVerdict(limit: int, past: seq<Transfer>, t: Transfer)
    ensures Verdict(limit, past, t).None? <==> Harmless(limit, past, t)
  {
    hide Begun, StallsSince, Asked, Declared;
  }

  /** The loop survives a script if and only if every transfer of it is harmless: short
      and empty reads, idle reports and cleared stalls within the budget do not end it. */
  lemma SurvivesIffHarmless(limit: int, ts: seq<Transfer>)
    ensures Running(UsbReader.After(limit, START, ts)) <==> AllHarmless(limit, ts)
  {
    hide UsbReader.After, End, AllHarmless;
    StopsAsTold(limit, ts);
    NoEndIffHarmless(limit, ts);
  }

  // ----- Conservation, on the script ----------------------------------------------------------------

  /** No stall of the script finds part of a message read. */
  predicate NoStallMidMessage(ts: seq<Transfer>) {
    forall n :: 0 <= n < |ts| && ts[n].outcome.Stall? ==> Begun(ts[..n]) == []
  }

  /** The endpoint never has nothing to give between a header and its payload. */
  predicate NoIdleBeforePayload(ts: seq<Transfer>) {
    forall n :: 0 <= n < |ts| && (ts[n].outcome.Idle? || ts[n].outcome == Data([])) ==> |Begun(ts[..n])| != 24
  }

  lemma {:induction false} StallsSnoc(limit: int, r: Reader, ts: seq<Transfer>, t: Transfer)
    ensures StallsOnlyBetweenMessages(limit, r, ts + [t])
            <==> StallsOnlyBetweenMessages(limit, r, ts) && !StallsMidMessage(UsbReader.After(limit, r, ts), t)
    ensures NeverIdlesBeforePayload(limit, r, ts + [t])
            <==> NeverIdlesBeforePayload(limit, r, ts) && !IdlesBeforePayload(UsbReader.After(limit, r, ts), t)
    decreases |ts|
  {
    hide UsbReader.Step, StallsMidMessage, IdlesBeforePayload;
    if ts == [] {
      assert (ts + [t])[1..] == [];
    } else {
      assert (ts + [t])[0] == ts[0] && (ts + [t])[1..] == ts[1..] + [t];
      StallsSnoc(limit, UsbReader.Step(limit, r, ts[0]), ts[1..], t);
    }
  }

  lemma {:induction false} OnTheScript(limit: int, ts: seq<Transfer>)
    requires AllHarmless(limit, ts)
    ensures StallsOnlyBetweenMessages(limit, START, ts) <==> NoStallMidMessage(ts)
    ensures NeverIdlesBeforePayload(limit, START, ts) <==> NoIdleBeforePayload(ts)
  {
    hide Harmless, UsbReader.After, StallsMidMessage, IdlesBeforePayload;
    if ts != [] {
      var front, t := ts[..|ts| - 1], ts[|ts| - 1];
      assert ts == front + [t];
      assert forall n :: 0 <= n < |front| ==> front[..n] == ts[..n] && front[n] == ts[n];
      OnTheScript(limit, front);
      StallsSnoc(limit, START, front, t);
      StandsAt(limit, front, t);
    }
  }

  lemma StandsAt(limit: int, ts: seq<Transfer>, t: Transfer)
    requires AllHarmless(limit, ts)
    ensures var r := UsbReader.After(limit, START, ts);
            && (StallsMidMessage(r, t) <==> t.outcome.Stall? && Begun(ts) != [])
            && (IdlesBeforePayload(r, t) <==> (t.outcome.Idle? || t.outcome == Data([])) && |Begun(ts)| == 24)
  {
    hide UsbReader.After, AllHarmless, Begun;
    var r := UsbReader.After(limit, START, ts);
    SurvivesIffHarmless(limit, ts);
    StopsAsTold(limit, ts);
    assert ShapeInv(limit, r) by { RunShape(limit, START, ts); }
    AskedIsNeeded(limit, r);
  }

  /** Of every script the loop survives: the chunks delivered and the message under way
      are the bytes the endpoint gave if and only if no stall struck in the middle of a
      message; and every chunk is one whole message if and only if the endpoint never
      idled between a header and its payload. */
  lemma ScriptIsConserved(limit: int, ts: seq<Transfer>)
    requires AllHarmless(limit, ts)
    ensures var r := UsbReader.After(limit, START, ts);
            && (Flatten(r.delivered) + Begun(ts) == Given(ts) <==> NoStallMidMessage(ts))
            && (AllWhole(r.delivered) <==> NoIdleBeforePayload(ts))
  {
    hide UsbReader.After, AllHarmless, Begun, Given, NoStallMidMessage, NoIdleBeforePayload, StallsOnlyBetweenMessages,
         NeverIdlesBeforePayload, WholeMessage, Flatten;
    SurvivesIffHarmless(limit, ts);
    StopsAsTold(limit, ts);
    OnTheScript(limit, ts);
    BytesConserved(limit, ts);
    ChunksAreWholeMessages(limit, START, ts);
  }

  /** So when no message is under way, the decoder has returned the messages in the
      bytes the endpoint gave. */
  lemma ScriptReachesTheDecoder(limit: int, ts: seq<Transfer>)
    requires AllHarmless(limit, ts) && NoStallMidMessage(ts) && Begun(ts) == []
    ensures Feed(DecodeAdb, [], UsbReader.After(limit, START, ts).delivered) == ParseAdb(Given(ts))
  {
    hide UsbReader.After, AllHarmless, Begun, Given, NoStallMidMessage, StallsOnlyBetweenMessages, DecodeAdb, NoIdleBeforePayload,
         NeverIdlesBeforePayload;
    SurvivesIffHarmless(limit, ts);
    StopsAsTold(limit, ts);
    OnTheScript(limit, ts);
    DecoderSeesTheBytes(limit, ts);
  }
}
