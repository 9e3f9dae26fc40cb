/** What the read loop keeps over every script of transfer outcomes. */
module UsbRuns {
  import opened Bytes
  import opened Incremental
  import opened AdbMessages
  import opened UsbReader

  /** Bytes of the message being read that have been taken and not yet delivered. */
  function InFlight(r: Reader): bytes {
    match r.phase
    case ReadingHeader => r.got
    case ReadingPayload(header, _) => header + r.got
  }

  predicate Running(r: Reader) {
    r.stopped.None?
  }

  predicate ShapeInv(limit: int, r: Reader) {
    Running(r) ==>
      && r.reading
      && |r.got| < Need(r.phase)
      && (r.stalls > 0 ==> r.stalls <= limit)
      && (r.phase.ReadingPayload? ==>
            |r.phase.header| == ADB_HEADER_SIZE && r.phase.length == FromLe32(r.phase.header, 12) <= MAX_REASONABLE_PAYLOAD)
  }

  lemma StepShape(limit: int, r: Reader, t: Transfer)
    requires ShapeInv(limit, r)
    ensures ShapeInv(limit, Step(limit, r, t))
    ensures Running(Step(limit, r, t)) ==> Running(r) && !t.closing
  {
    hide FromLe32;
  }

  lemma {:induction false} RunShape(limit: int, r: Reader, ts: seq<Transfer>)
    requires ShapeInv(limit, r)
    ensures ShapeInv(limit, After(limit, r, ts))
    ensures Running(After(limit, r, ts)) ==> Running(r)
    decreases |ts|
  {
    if ts != [] {
      hide ShapeInv, Step;
      StepShape(limit, r, ts[0]);
      RunShape(limit, Step(limit, r, ts[0]), ts[1..]);
    }
  }

  // ----- Conservation of bytes ----------------------------------------------------------

  /** Every byte taken has been delivered or is in flight, in order. */
  predicate Intact(r: Reader) {
    r.taken == Flatten(r.delivered) + InFlight(r)
  }

  /** Bytes taken, less those delivered or in flight. */
  function Lost(r: Reader): int {
    |r.taken| - |Flatten(r.delivered)| - |InFlight(r)|
  }

  /** The transfer is a stall that finds part of a message already taken. */
  predicate StallsMidMessage(r: Reader, t: Transfer) {
    t.outcome.Stall? && InFlight(r) != []
  }

  lemma DeliverFlat(delivered: seq<bytes>, chunk: bytes)
    ensures Flatten(delivered + [chunk]) == Flatten(delivered) + chunk
  {
    FlattenAppend(delivered, [chunk]);
    FlattenOne(chunk);
  }

  /** While the loop goes on, a step keeps the bytes intact unless it is a stall
      in the middle of a message, which loses what had been taken of it. */
  lemma StepConserves(limit: int, r: Reader, t: Transfer)
    requires ShapeInv(limit, r) && Running(Step(limit, r, t))
    ensures var k := Step(limit, r, t);
            && Lost(k) == Lost(r) + (if t.outcome.Stall? then |InFlight(r)| else 0)
            && (!StallsMidMessage(r, t) && Intact(r) ==> Intact(k))
  {
    StepShape(limit, r, t);
    hide FromLe32, Flatten;
    match t.outcome
    case Stall(cleared) =>
    case Data(data) =>
      if data == [] {
        NothingConserves(r);
      } else {
        DataConserves(limit, r, data);
      }
    case Idle => NothingConserves(r);
    case _ =>
  }

  lemma NothingConserves(r: Reader)
    requires Running(r) && Running(NothingArrived(r))
    ensures Lost(NothingArrived(r)) == Lost(r) && (Intact(r) ==> Intact(NothingArrived(r)))
  {
    hide Flatten;
    if r.phase.ReadingPayload? {
      DeliverFlat(r.delivered, r.phase.header);
      assert r.phase.header + [] == r.phase.header;
    }
  }

  lemma DataConserves(limit: int, r: Reader, data: bytes)
    requires ShapeInv(limit, r) && Running(r) && Running(DataArrived(limit, r, data))
    ensures Lost(DataArrived(limit, r, data)) == Lost(r) && (Intact(r) ==> Intact(DataArrived(limit, r, data)))
  {
    hide Flatten, FromLe32;
    var got := r.got + data;
    match r.phase
    case ReadingHeader =>
      DeliverFlat(r.delivered, got);
      assert got + [] == got;
    case ReadingPayload(header, _) =>
      DeliverFlat(r.delivered, header + got);
      assert (header + r.got) + data == header + got;
  }

  /** No stall of the run finds part of a message already taken. */
  predicate StallsOnlyBetweenMessages(limit: int, r: Reader, ts: seq<Transfer>)
    decreases |ts|
  {
    ts == [] || (!StallsMidMessage(r, ts[0]) && StallsOnlyBetweenMessages(limit, Step(limit, r, ts[0]), ts[1..]))
  }

  lemma {:induction false} RunConserves(limit: int, r: Reader, ts: seq<Transfer>)
    requires ShapeInv(limit, r) && Running(After(limit, r, ts)) && Lost(r) >= 0
    ensures Lost(After(limit, r, ts)) >= Lost(r)
    ensures Lost(After(limit, r, ts)) == Lost(r) <==> StallsOnlyBetweenMessages(limit, r, ts)
    ensures Intact(r) && StallsOnlyBetweenMessages(limit, r, ts) ==> Intact(After(limit, r, ts))
    decreases |ts|
  {
    if ts != [] {
      var k := Step(limit, r, ts[0]);
      hide Step, ShapeInv, Intact, Lost, InFlight;
      StepShape(limit, r, ts[0]);
      RunShape(limit, k, ts[1..]);
      StepConserves(limit, r, ts[0]);
      RunConserves(limit, k, ts[1..]);
    }
  }

  /** For every script of short reads, empty reads, idle reports and stalls that
      leaves the loop running, the chunks delivered so far followed by what is in
      flight are the bytes taken from the endpoint, exactly when no stall struck
      in the middle of a message. */
  lemma BytesConserved(limit: int, ts: seq<Transfer>)
    requires Running(After(limit, START, ts))
    ensures Intact(After(limit, START, ts)) <==> StallsOnlyBetweenMessages(limit, START, ts)
  {
    hide After, StallsOnlyBetweenMessages;
    RunConserves(limit, START, ts);
  }

  /** So at each loop head a decoder fed the delivered chunks has returned exactly
      the messages in the bytes taken, however idle reports cut them up. */
  lemma DecoderSeesTheBytes(limit: int, ts: seq<Transfer>)
    requires var r := After(limit, START, ts); Running(r) && InFlight(r) == []
    requires StallsOnlyBetweenMessages(limit, START, ts)
    ensures var r := After(limit, START, ts);
            Feed(DecodeAdb, [], r.delivered) == ParseAdb(r.taken)
  {
    var r := After(limit, START, ts);
    assert r.taken == Flatten(r.delivered) by { BytesConserved(limit, ts); }
    assert [] + Flatten(r.delivered) == Flatten(r.delivered);
    hide After, StallsOnlyBetweenMessages;
    AdbDecoderRefinesParsing([], r.delivered);
  }

  // ----- Whole messages --------------------------------------------------------------

  predicate WholeMessage(chunk: bytes) {
    DecodeAdb(chunk).Complete? && DecodeAdb(chunk).size == |chunk|
  }

  predicate AllWhole(chunks: seq<bytes>) {
    forall i :: 0 <= i < |chunks| ==> WholeMessage(chunks[i])
  }

  /** The endpoint has nothing to give between a header and its declared payload. */
  predicate IdlesBeforePayload(r: Reader, t: Transfer) {
    r.phase.ReadingPayload? && r.got == [] && (t.outcome.Idle? || t.outcome == Data([]))
  }

  lemma HeaderIsWhole(header: bytes)
    requires |header| == ADB_HEADER_SIZE
    ensures WholeMessage(header) <==> FromLe32(header, 12) == 0
  {
  }

  lemma HeaderAndPayloadAreWhole(header: bytes, payload: bytes)
    requires |header| == ADB_HEADER_SIZE && FromLe32(header, 12) == |payload|
    ensures WholeMessage(header + payload)
  {
    assert FromLe32(header + payload, 12) == FromLe32(header, 12);
  }

  lemma StepDeliversWhole(limit: int, r: Reader, t: Transfer)
    requires ShapeInv(limit, r) && Running(Step(limit, r, t))
    ensures AllWhole(Step(limit, r, t).delivered) <==> AllWhole(r.delivered) && !IdlesBeforePayload(r, t)
  {
    StepShape(limit, r, t);
    hide WholeMessage, FromLe32;
    var k := Step(limit, r, t);
    match r.phase
    case ReadingHeader =>
      if t.outcome.Data? && |r.got| + |t.outcome.data| == ADB_HEADER_SIZE {
        HeaderIsWhole(r.got + t.outcome.data);
        WholeSnoc(r.delivered, r.got + t.outcome.data);
      }
    case ReadingPayload(header, length) =>
      HeaderIsWhole(header);
      WholeSnoc(r.delivered, header);
      if t.outcome.Data? && |r.got| + |t.outcome.data| == length {
        HeaderAndPayloadAreWhole(header, r.got + t.outcome.data);
        WholeSnoc(r.delivered, header + (r.got + t.outcome.data));
      }
  }

  lemma WholeSnoc(chunks: seq<bytes>, chunk: bytes)
    ensures AllWhole(chunks + [chunk]) <==> AllWhole(chunks) && WholeMessage(chunk)
  {
    hide WholeMessage;
    assert (chunks + [chunk])[|chunks|] == chunk;
    assert forall i :: 0 <= i < |chunks| ==> (chunks + [chunk])[i] == chunks[i];
  }

  predicate NeverIdlesBeforePayload(limit: int, r: Reader, ts: seq<Transfer>)
    decreases |ts|
  {
    ts == [] || (!IdlesBeforePayload(r, ts[0]) && NeverIdlesBeforePayload(limit, Step(limit, r, ts[0]), ts[1..]))
  }

  /** While the loop goes on, every chunk delivered is exactly one whole message
      if and only if the endpoint never idled between a header and its payload. */
  lemma {:induction false} ChunksAreWholeMessages(limit: int, r: Reader, ts: seq<Transfer>)
    requires ShapeInv(limit, r) && Running(After(limit, r, ts))
    ensures AllWhole(After(limit, r, ts).delivered) <==> AllWhole(r.delivered) && NeverIdlesBeforePayload(limit, r, ts)
    decreases |ts|
  {
    if ts != [] {
      var k := Step(limit, r, ts[0]);
      hide Step, ShapeInv, AllWhole, IdlesBeforePayload;
      StepShape(limit, r, ts[0]);
      RunShape(limit, k, ts[1..]);
      StepDeliversWhole(limit, r, ts[0]);
      ChunksAreWholeMessages(limit, k, ts[1..]);
    }
  }

  /** Chunks that are whole messages leave a decoder with nothing pending, one message for each. */
  lemma {:induction false} WholeChunksLeaveNothingPending(chunks: seq<bytes>)
    requires AllWhole(chunks)
    ensures Feed(DecodeAdb, [], chunks).rest == [] && |Feed(DecodeAdb, [], chunks).items| == |chunks|
    decreases |chunks|
  {
    if chunks != [] {
      var one := chunks[0];
      assert WholeMessage(one);
      assert forall i :: 0 <= i < |chunks[1..]| ==> chunks[1..][i] == chunks[i + 1];
      WholeChunksLeaveNothingPending(chunks[1..]);
      assert ParseAdb(one) == Parsed([DecodeAdb(one).item], []) by {
        RestIncomplete(DecodeAdb, []);
        assert one[|one|..] == [];
      }
      hide DecodeAdb;
      assert [] + one == one;
    }
  }

  // ----- The stall budget ----------------------------------------------------------------

  predicate CompletesHeader(r: Reader, t: Transfer) {
    Running(r) && r.phase.ReadingHeader? && t.outcome.Data? && t.outcome.data != []
      && |r.got| + |t.outcome.data| == ADB_HEADER_SIZE
  }

  predicate NoHeaderRead(limit: int, r: Reader, ts: seq<Transfer>)
    decreases |ts|
  {
    ts == [] || (!CompletesHeader(r, ts[0]) && NoHeaderRead(limit, Step(limit, r, ts[0]), ts[1..]))
  }

  function Stalls(ts: seq<Transfer>): nat {
    if ts == [] then 0 else (if ts[0].outcome.Stall? then 1 else 0) + Stalls(ts[1..])
  }

  lemma StepStalls(limit: int, r: Reader, t: Transfer)
    requires ShapeInv(limit, r) && Running(r)
    ensures var k := Step(limit, r, t);
            && (Running(k) && !CompletesHeader(r, t) ==> k.stalls == r.stalls + (if t.outcome.Stall? then 1 else 0))
            && k.stalls <= r.stalls + 1
            && (CompletesHeader(r, t) ==> k.stalls == 0)
            && (t.outcome.Stall? && !t.closing ==> (Running(k) <==> r.stalls < limit && t.outcome.cleared))
            && (t.outcome.Stall? && !t.closing && r.stalls >= limit ==> k.stopped == Some(StallBudgetSpent))
  {
    hide FromLe32;
  }

  lemma {:induction false} StallsAreCounted(limit: int, r: Reader, ts: seq<Transfer>)
    requires ShapeInv(limit, r) && Running(After(limit, r, ts)) && NoHeaderRead(limit, r, ts)
    ensures After(limit, r, ts).stalls == r.stalls + Stalls(ts)
    decreases |ts|
  {
    if ts != [] {
      var k := Step(limit, r, ts[0]);
      hide Step, ShapeInv, CompletesHeader;
      StepShape(limit, r, ts[0]);
      RunShape(limit, r, ts);
      RunShape(limit, k, ts[1..]);
      StepStalls(limit, r, ts[0]);
      StallsAreCounted(limit, k, ts[1..]);
    }
  }

  /** Between two headers read, idle reports not counting as success, the loop
      recovers from at most `limit` stalls; the next one ends it, and the counter
      never passes the limit by more than one. */
  lemma StallBudget(limit: int, r: Reader, ts: seq<Transfer>, cleared: bool)
    requires ShapeInv(limit, r) && Running(After(limit, r, ts)) && NoHeaderRead(limit, r, ts)
    ensures r.stalls + Stalls(ts) > 0 ==> r.stalls + Stalls(ts) <= limit
    ensures var k := Step(limit, After(limit, r, ts), Transfer(Stall(cleared), false));
            && (r.stalls + Stalls(ts) >= limit ==> k.stopped == Some(StallBudgetSpent))
            && (r.stalls + Stalls(ts) < limit ==> (Running(k) <==> cleared))
            && (limit >= 0 ==> k.stalls <= limit + 1)
  {
    RunShape(limit, r, ts);
    StallsAreCounted(limit, r, ts);
    var m := After(limit, r, ts);
    StepStalls(limit, m, Transfer(Stall(cleared), false));
    assert r.stalls + Stalls(ts) > 0 ==> m.stalls <= limit;
  }
}
