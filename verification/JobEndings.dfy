/** When a job ends and how, told from its events and the frames in the bytes it
    received, without the job. */
module JobEndings {
  import opened Bytes
  import opened Incremental
  import opened Frames
  import opened Session
  import opened SessionRuns
  import opened Answers
  import opened Jobs
  import opened JobWrites

  // ----- Frames that end a script ---------------------------------------------------------------

  /** How this frame ends the script, if it does. */
  function EndingBy(cfg: Config, f: Frame, cursor: nat): Ending {
    if Over(f) then ByDone
    else if Faults(f) then ByThrow(ByPrinter(PrinterFault(f.arg1, f.arg3)))
    else if TooLong(cfg, f, cursor) then ByThrow(ByCodec)
    else if Finishes(f) then ByEndJob
    else Open
  }

  /** How the first frame that ends it does. */
  function FirstEnding(cfg: Config, frames: seq<Frame>): Ending {
    if frames == [] then Open
    else
      var front := frames[..|frames| - 1];
      var before := FirstEnding(cfg, front);
      if before.Open? then EndingBy(cfg, frames[|frames| - 1], CursorAfterAll(cfg, 0, front)) else before
  }

  /** A script ends at the first frame that is an end of job or session, a fault, or
      FINISHED, and in the way of that frame. */
  lemma {:induction false} ScriptEndsAtFirst(cfg: Config, frames: seq<Frame>)
    ensures ScriptOf(cfg, INITIAL, frames).ending == FirstEnding(cfg, frames)
  {
    hide Handle, Over, Finishes, Faults, TooLong, Answered, CursorAfterAll;
    if frames != [] {
      var front, f := frames[..|frames| - 1], frames[|frames| - 1];
      assert frames == front + [f];
      ScriptEndsAtFirst(cfg, front);
      ScriptSnoc(cfg, INITIAL, front, f);
      StateFollowsTheFrames(cfg, front);
      ActionOfEveryFrame(cfg, Final(cfg, INITIAL, front), f);
      EndsAreApart(cfg, f, CursorAfterAll(cfg, 0, front));
    }
  }

  lemma EndsAreApart(cfg: Config, f: Frame, cursor: nat)
    ensures Answered(cfg, f, cursor) ==> !Over(f) && !Faults(f) && !TooLong(cfg, f, cursor)
    ensures Finishes(f) ==> Answered(cfg, f, cursor)
    ensures Over(f) || Faults(f) ==> !TooLong(cfg, f, cursor)
    ensures Over(f) ==> !Faults(f)
  {
    hide CapOf;
  }

  // ----- What a job has written and what has become of it -----------------------------------------

  /** The frames in the bytes received so far. */
  function FramesIn(buffer: bytes, events: seq<Event>): seq<Frame> {
    ParseFrames(buffer + Inbound(events)).items
  }

  /** One entry for each buffer a job has written while it runs: the session start,
      then one for each frame that has an answer; whether it is an END_JOB. */
  function EndJobs(cfg: Config, frames: seq<Frame>): seq<bool> {
    if frames == [] then [false]
    else
      var front, f := frames[..|frames| - 1], frames[|frames| - 1];
      EndJobs(cfg, front) + (if Answered(cfg, f, CursorAfterAll(cfg, 0, front)) then [Finishes(f)] else [])
  }

  /** The write with this index has been made, and landed or failed since. */
  predicate Completed(cfg: Config, buffer: bytes, events: seq<Event>, i: nat) {
    events != [] &&
    var front, e := events[..|events| - 1], events[|events| - 1];
    || Completed(cfg, buffer, front, i)
    || ((e == Lands(i) || e == Fails(i)) && i < |EndJobs(cfg, FramesIn(buffer, front))|)
  }

  predicate UnderWay(cfg: Config, buffer: bytes, events: seq<Event>, i: nat) {
    i < |EndJobs(cfg, FramesIn(buffer, events))| && !Completed(cfg, buffer, events, i)
  }

  // ----- What ends it ----------------------------------------------------------------------------

  function StopBy(cfg: Config, f: Frame, cursor: nat): Option<Settlement> {
    if Over(f) then Some(ResolvedByDone)
    else if Faults(f) then Some(Rejected(SessionFailed(ByPrinter(PrinterFault(f.arg1, f.arg3)))))
    else if TooLong(cfg, f, cursor) then Some(Rejected(SessionFailed(ByCodec)))
    else None
  }

  /** How the first frame that ends a job ends it. FINISHED does not: its answer must land. */
  function FirstStop(cfg: Config, frames: seq<Frame>): Option<Settlement> {
    if frames == [] then None
    else
      var front := frames[..|frames| - 1];
      var before := FirstStop(cfg, front);
      if before.None? then StopBy(cfg, frames[|frames| - 1], CursorAfterAll(cfg, 0, front)) else before
  }

  /** How event `e`, after `past`, ends a job that is still running, if it does. */
  function Verdict(cfg: Config, buffer: bytes, past: seq<Event>, e: Event): Option<Settlement> {
    match e
    case Expires => Some(Rejected(TimedOut))
    case Closes => Some(Rejected(TransportClosed))
    case Fails(i) => if UnderWay(cfg, buffer, past, i) then Some(Rejected(WriteFailed)) else None
    case Lands(i) =>
      if UnderWay(cfg, buffer, past, i) && EndJobs(cfg, FramesIn(buffer, past))[i] then Some(ResolvedByWrite(i)) else None
    case Arrives(_) => FirstStop(cfg, FramesIn(buffer, past + [e]))
  }

  /** How the first event that ends the job ends it. */
  function Outcome(cfg: Config, buffer: bytes, events: seq<Event>): Option<Settlement> {
    if events == [] then None
    else
      var front := events[..|events| - 1];
      var before := Outcome(cfg, buffer, front);
      if before.None? then Verdict(cfg, buffer, front, events[|events| - 1]) else before
  }

  // ----- The job does as told -----------------------------------------------------------------------

  /** A running job stands where the frames put it. */
  predicate Standing(cfg: Config, j: Job, frames: seq<Frame>) {
    && SettlementInv(j) && !j.settled && FirstStop(cfg, frames).None?
    && j.session == Final(cfg, INITIAL, frames)
    && |j.writes| == |EndJobs(cfg, frames)|
    && forall i :: 0 <= i < |j.writes| ==> j.writes[i].final == EndJobs(cfg, frames)[i]
  }

  predicate Stopped(j: Job, how: Settlement) {
    SettlementInv(j) && j.settled && j.settlements == [how]
  }

  /** The writes of `j` are the first of those of `k`, the others are under way. */
  predicate MoreWrites(j: Job, k: Job) {
    && |j.writes| <= |k.writes| && j.writes <= k.writes
    && forall i :: |j.writes| <= i < |k.writes| ==> k.writes[i].fate.Pending?
  }

  lemma FrameStands(cfg: Config, j: Job, frames: seq<Frame>, f: Frame)
    requires Standing(cfg, j, frames)
    ensures var k, stop := OnFrame(cfg, j, f), FirstStop(cfg, frames + [f]);
            if stop.None? then Standing(cfg, k, frames + [f]) && MoreWrites(j, k) else Stopped(k, stop.value)
  {
    hide Handle, Over, Finishes, Faults, TooLong, Answered, CursorAfterAll, FinalWritesEndTheJob;
    assert j.listening;
    assert (frames + [f])[..|frames|] == frames;
    OnFrameSettles(cfg, j, f);
    FinalSnoc(cfg, INITIAL, frames, f);
    StateFollowsTheFrames(cfg, frames);
    ActionOfEveryFrame(cfg, j.session, f);
    EndsAreApart(cfg, f, CursorAfterAll(cfg, 0, frames));
  }

  lemma {:induction false} StopIsKept(cfg: Config, frames: seq<Frame>, now: seq<Frame>)
    requires FirstStop(cfg, frames).Some?
    ensures FirstStop(cfg, frames + now) == FirstStop(cfg, frames)
    decreases |now|
  {
    if now == [] {
      assert frames + now == frames;
    } else {
      StopIsKept(cfg, frames, now[..|now| - 1]);
      assert (frames + now)[..|frames + now| - 1] == frames + now[..|now| - 1];
    }
  }

  lemma {:induction false} FramesStand(cfg: Config, j: Job, frames: seq<Frame>, now: seq<Frame>)
    requires Standing(cfg, j, frames)
    ensures var k, stop := OnFrames(cfg, j, now), FirstStop(cfg, frames + now);
            if stop.None? then Standing(cfg, k, frames + now) && MoreWrites(j, k) else Stopped(k, stop.value)
    decreases |now|
  {
    hide OnFrame, FirstStop, FinalWritesEndTheJob, EndJobs;
    if now == [] {
      assert frames + now == frames;
    } else {
      var k := OnFrame(cfg, j, now[0]);
      assert j.listening;
      FrameStands(cfg, j, frames, now[0]);
      assert (frames + [now[0]]) + now[1..] == frames + now;
      if FirstStop(cfg, frames + [now[0]]).None? {
        FramesStand(cfg, k, frames + [now[0]], now[1..]);
      } else {
        StopIsKept(cfg, frames + [now[0]], now[1..]);
        DeafToFrames(cfg, k, now[1..]);
      }
    }
  }

  lemma {:induction false} EndJobsGrow(cfg: Config, frames: seq<Frame>, now: seq<Frame>)
    ensures |EndJobs(cfg, frames)| <= |EndJobs(cfg, frames + now)|
    decreases |now|
  {
    hide Answered, Finishes;
    if now == [] {
      assert frames + now == frames;
    } else {
      EndJobsGrow(cfg, frames, now[..|now| - 1]);
      assert (frames + now)[..|frames + now| - 1] == frames + now[..|now| - 1];
    }
  }

  lemma {:induction false} InboundSnoc(events: seq<Event>, e: Event)
    ensures Inbound(events + [e]) == Inbound(events) + BytesOf(e)
    decreases |events|
  {
    if events == [] {
      assert ([] + [e])[1..] == [];
      assert Inbound([]) == [] && BytesOf(e) + [] == [] + BytesOf(e);
    } else {
      assert (events + [e])[0] == events[0] && (events + [e])[1..] == events[1..] + [e];
      InboundSnoc(events[1..], e);
    }
  }

  /** One more event adds the frames its bytes complete. */
  lemma FramesInSnoc(buffer: bytes, events: seq<Event>, e: Event)
    ensures var seen := buffer + Inbound(events);
            && (!e.Arrives? ==> buffer + Inbound(events + [e]) == seen && FramesIn(buffer, events + [e]) == FramesIn(buffer, events))
            && (e.Arrives? ==>
                 && buffer + Inbound(events + [e]) == seen + e.chunk
                 && FramesIn(buffer, events + [e]) == FramesIn(buffer, events) + ParseFrames(ParseFrames(seen).rest + e.chunk).items
                 && ParseFrames(seen + e.chunk).rest == ParseFrames(ParseFrames(seen).rest + e.chunk).rest)
  {
    hide ParseFrames, Inbound;
    InboundSnoc(events, e);
    var seen := buffer + Inbound(events);
    assert buffer + (Inbound(events) + BytesOf(e)) == seen + BytesOf(e);
    assert !e.Arrives? ==> seen + BytesOf(e) == seen;
    if e.Arrives? {
      ParseFramesAppend(seen, e.chunk);
    }
  }

  /** Only writes made can have completed. */
  lemma {:induction false} CompletedWereMade(cfg: Config, buffer: bytes, events: seq<Event>, i: nat)
    requires Completed(cfg, buffer, events, i)
    ensures i < |EndJobs(cfg, FramesIn(buffer, events))|
  {
    hide FramesIn, EndJobs, ParseFrames;
    var front, e := events[..|events| - 1], events[|events| - 1];
    assert events == front + [e];
    if Completed(cfg, buffer, front, i) {
      CompletedWereMade(cfg, buffer, front, i);
    }
    FramesInSnoc(buffer, front, e);
    if e.Arrives? {
      EndJobsGrow(cfg, FramesIn(buffer, front), ParseFrames(ParseFrames(buffer + Inbound(front)).rest + e.chunk).items);
    }
  }

  /** The fates of the writes are those the events gave them. */
  ghost predicate FatesKnown(cfg: Config, buffer: bytes, events: seq<Event>, j: Job) {
    forall i: nat :: i < |j.writes| ==> (j.writes[i].fate.Pending? <==> !Completed(cfg, buffer, events, i))
  }

  ghost predicate AsTold(cfg: Config, buffer: bytes, events: seq<Event>, j: Job) {
    && j.buffer == ParseFrames(buffer + Inbound(events)).rest
    && match Outcome(cfg, buffer, events)
       case None => Standing(cfg, j, FramesIn(buffer, events)) && FatesKnown(cfg, buffer, events, j)
       case Some(how) => Stopped(j, how)
  }

  lemma {:induction false} JobSnoc(cfg: Config, j: Job, events: seq<Event>, e: Event)
    ensures After(cfg, j, events + [e]) == Step(cfg, After(cfg, j, events), e)
    decreases |events|
  {
    hide Step;
    if events == [] {
      var k := Step(cfg, j, e);
      assert ([] + [e])[1..] == [] && After(cfg, k, []) == k;
    } else {
      assert (events + [e])[0] == events[0] && (events + [e])[1..] == events[1..] + [e];
      JobSnoc(cfg, Step(cfg, j, events[0]), events[1..], e);
    }
  }

  lemma ArrivalAsTold(cfg: Config, buffer: bytes, events: seq<Event>, j: Job, chunk: bytes)
    requires AsTold(cfg, buffer, events, j) && Outcome(cfg, buffer, events).None?
    ensures AsTold(cfg, buffer, events + [Arrives(chunk)], Step(cfg, j, Arrives(chunk)))
  {
    hide ParseFrames, FirstStop, EndJobs, SettlementInv, OnFrames, Inbound, FramesIn;
    var e := Arrives(chunk);
    var r := ParseFrames(j.buffer + chunk);
    assert (events + [e])[..|events|] == events;
    FramesInSnoc(buffer, events, e);
    BufferIsIrrelevant(j, r.rest);
    var i := j.(buffer := r.rest);
    FramesStand(cfg, i, FramesIn(buffer, events), r.items);
    FramesKeepBuffer(cfg, i, r.items);
    var k := OnFrames(cfg, i, r.items);
    if Outcome(cfg, buffer, events + [e]).None? {
      NewWritesPend(cfg, buffer, events, e, j, k);
    }
  }

  lemma NewWritesPend(cfg: Config, buffer: bytes, events: seq<Event>, e: Event, j: Job, k: Job)
    requires e.Arrives? && FatesKnown(cfg, buffer, events, j) && MoreWrites(j, k)
    requires |j.writes| == |EndJobs(cfg, FramesIn(buffer, events))|
    ensures FatesKnown(cfg, buffer, events + [e], k)
  {
    hide FramesIn, EndJobs;
    assert (events + [e])[..|events|] == events;
    forall i: nat | i < |k.writes|
      ensures k.writes[i].fate.Pending? <==> !Completed(cfg, buffer, events + [e], i)
    {
      if Completed(cfg, buffer, events, i) {
        CompletedWereMade(cfg, buffer, events, i);
      }
    }
  }

  lemma PendingIsUnderWay(cfg: Config, buffer: bytes, events: seq<Event>, j: Job, i: nat)
    requires FatesKnown(cfg, buffer, events, j) && |j.writes| == |EndJobs(cfg, FramesIn(buffer, events))|
    ensures IsPending(j, i) <==> UnderWay(cfg, buffer, events, i)
  {
    hide FramesIn, EndJobs, Completed;
  }

  lemma CompletedSnoc(cfg: Config, buffer: bytes, events: seq<Event>, e: Event, i: nat)
    ensures Completed(cfg, buffer, events + [e], i) <==>
              || Completed(cfg, buffer, events, i)
              || ((e == Lands(i) || e == Fails(i)) && i < |EndJobs(cfg, FramesIn(buffer, events))|)
  {
    hide FramesIn, EndJobs;
    assert (events + [e])[..|events|] == events;
  }

  lemma OutcomeSnoc(cfg: Config, buffer: bytes, events: seq<Event>, e: Event)
    ensures Outcome(cfg, buffer, events + [e])
         == if Outcome(cfg, buffer, events).None? then Verdict(cfg, buffer, events, e) else Outcome(cfg, buffer, events)
  {
    hide Verdict;
    assert (events + [e])[..|events|] == events;
  }

  lemma OtherAsTold(cfg: Config, buffer: bytes, events: seq<Event>, j: Job, e: Event)
    requires AsTold(cfg, buffer, events, j) && Outcome(cfg, buffer, events).None? && !e.Arrives?
    ensures AsTold(cfg, buffer, events + [e], Step(cfg, j, e))
  {
    hide ParseFrames, FirstStop, EndJobs, Inbound, FramesIn, Completed, Outcome, FinalWritesEndTheJob;
    FramesInSnoc(buffer, events, e);
    OutcomeSnoc(cfg, buffer, events, e);
    StepSettles(cfg, j, e);
    if e.Lands? || e.Fails? {
      PendingIsUnderWay(cfg, buffer, events, j, e.index);
      FatesMove(cfg, buffer, events, j, e);
    }
  }

  lemma FatesMove(cfg: Config, buffer: bytes, events: seq<Event>, j: Job, e: Event)
    requires FatesKnown(cfg, buffer, events, j) && |j.writes| == |EndJobs(cfg, FramesIn(buffer, events))|
    requires e.Lands? || e.Fails?
    ensures FatesKnown(cfg, buffer, events + [e], Step(cfg, j, e))
  {
    hide FramesIn, EndJobs, Completed;
    var k := Step(cfg, j, e);
    forall i: nat | i < |k.writes|
      ensures k.writes[i].fate.Pending? <==> !Completed(cfg, buffer, events + [e], i)
    {
      CompletedSnoc(cfg, buffer, events, e, i);
    }
  }

  lemma EventAsTold(cfg: Config, buffer: bytes, events: seq<Event>, j: Job, e: Event)
    requires AsTold(cfg, buffer, events, j)
    ensures AsTold(cfg, buffer, events + [e], Step(cfg, j, e))
  {
    hide AsTold, Verdict;
    if Outcome(cfg, buffer, events).Some? {
      StoppedAsTold(cfg, buffer, events, j, e);
    } else if e.Arrives? {
      ArrivalAsTold(cfg, buffer, events, j, e.chunk);
    } else {
      OtherAsTold(cfg, buffer, events, j, e);
    }
  }

  lemma StoppedAsTold(cfg: Config, buffer: bytes, events: seq<Event>, j: Job, e: Event)
    requires AsTold(cfg, buffer, events, j) && Outcome(cfg, buffer, events).Some?
    ensures AsTold(cfg, buffer, events + [e], Step(cfg, j, e))
  {
    hide ParseFrames, SettlementInv, Inbound, FramesIn, Outcome, OnFrames, Standing, FatesKnown, Step;
    FramesInSnoc(buffer, events, e);
    OutcomeSnoc(cfg, buffer, events, e);
    StepSettles(cfg, j, e);
    SettledStep(cfg, j, e);
    if e.Arrives? {
      var r := ParseFrames(j.buffer + e.chunk);
      ArrivalIsOnData(cfg, j, e.chunk);
      FramesKeepBuffer(cfg, j.(buffer := r.rest), r.items);
    }
  }

  lemma SettledStep(cfg: Config, j: Job, e: Event)
    requires SettlementInv(j) && j.settled
    ensures Step(cfg, j, e).settled && Step(cfg, j, e).settlements == j.settlements
    ensures !e.Arrives? ==> Step(cfg, j, e).buffer == j.buffer
  {
    hide Step;
    SettledStaysSettled(cfg, j, [e]);
    JobSnoc(cfg, j, [], e);
    assert [] + [e] == [e] && After(cfg, j, []) == j;
    hide After;
    if !e.Arrives? { SameBuffer(cfg, j, e); }
  }

  lemma SameBuffer(cfg: Config, j: Job, e: Event)
    requires !e.Arrives?
    ensures Step(cfg, j, e).buffer == j.buffer
  {
  }

  lemma {:induction false} RunAsTold(cfg: Config, buffer: bytes, events: seq<Event>)
    requires DecodeFrame(buffer).Incomplete?
    ensures AsTold(cfg, buffer, events, After(cfg, Begin(buffer), events))
  {
    hide AsTold, Step, DecodeFrame, Begin;
    if events == [] {
      BeginAsTold(cfg, buffer);
      assert After(cfg, Begin(buffer), []) == Begin(buffer);
    } else {
      var front, e := events[..|events| - 1], events[|events| - 1];
      assert events == front + [e];
      RunAsTold(cfg, buffer, front);
      JobSnoc(cfg, Begin(buffer), front, e);
      EventAsTold(cfg, buffer, front, After(cfg, Begin(buffer), front), e);
    }
  }

  lemma BeginAsTold(cfg: Config, buffer: bytes)
    requires DecodeFrame(buffer).Incomplete?
    ensures AsTold(cfg, buffer, [], Begin(buffer))
  {
    BeginTracks(cfg, buffer);
    assert buffer + Inbound([]) == buffer;
    hide ParseFrames, StartBytes, EndJobBytes;
  }

  // ----- The results ---------------------------------------------------------------------------------

  /** Every job settles when it should. In every interleaving of chunks, completed and
      failed writes, the timer and closing, the job is running exactly as long as no
      event so far ended it, and otherwise it has the one settlement of the first event
      that did: the timer, the transport closing, the failure of a write then under way,
      the landing of an END_JOB then under way, or bytes that complete a frame which
      ends the job or session or reports a fault. */
  lemma SettlesAsTold(cfg: Config, buffer: bytes, events: seq<Event>)
    requires DecodeFrame(buffer).Incomplete?
    ensures After(cfg, Begin(buffer), events).settlements
         == match Outcome(cfg, buffer, events) case None => [] case Some(how) => [how]
  {
    hide After, Begin, Outcome, FirstStop, FinalWritesEndTheJob, FatesKnown, DecodeFrame, ParseFrames;
    RunAsTold(cfg, buffer, events);
  }

  /** So it is running if and only if none of its events ended it. */
  lemma {:induction false} RunsOnIffNoneEnds(cfg: Config, buffer: bytes, events: seq<Event>)
    ensures Outcome(cfg, buffer, events).None?
            <==> forall n :: 0 <= n < |events| ==> Verdict(cfg, buffer, events[..n], events[n]).None?
  {
    hide Verdict;
    if events != [] {
      var front := events[..|events| - 1];
      RunsOnIffNoneEnds(cfg, buffer, front);
      assert forall n :: 0 <= n < |front| ==> front[..n] == events[..n] && front[n] == events[n];
    }
  }

  /** In particular the timer and the transport closing leave no job running. */
  lemma DisturbancesSettle(cfg: Config, buffer: bytes, events: seq<Event>)
    requires DecodeFrame(buffer).Incomplete?
    requires Expires in events || Closes in events
    ensures After(cfg, Begin(buffer), events).settlements != []
  {
    hide After, Begin, Outcome, DecodeFrame;
    SettlesAsTold(cfg, buffer, events);
    RunsOnIffNoneEnds(cfg, buffer, events);
    var n :| 0 <= n < |events| && events[n] in {Expires, Closes};
    assert Verdict(cfg, buffer, events[..n], events[n]).Some?;
  }
}
