/** Which frames the session answers, and what the printer reads in each answer. */
module Answers {
  import opened Bytes
  import opened Incremental
  import opened Frames
  import opened Status
  import opened Session
  import opened SessionRuns

  // ----- What a frame asks for, by its header alone --------------------------------------------

  /** Neither a heartbeat (0x64), nor the end of a job (0x13) or session (0x14), nor
      one of the opcodes left alone (0x40, 0x41 and the file browser's 0x51, 0x53, 0x54). */
  predicate ToPrintState(f: Frame) {
    f.opcode !in {0x64, 0x13, 0x14, 0x40, 0x41, 0x51, 0x53, 0x54}
  }

  /** The third argument is a fault where the first is 0, and where that is 1 if it is 10. */
  predicate Faults(f: Frame) {
    ToPrintState(f) && ((f.arg1 == 0 && f.arg3 != 0) || (f.arg1 == 1 && f.arg3 == 10))
  }

  predicate Finishes(f: Frame) {
    ToPrintState(f) && f.arg1 == 6
  }

  predicate Over(f: Frame) {
    f.opcode == 0x13 || f.opcode == 0x14
  }

  /** Asks for image data. */
  predicate Requests(f: Frame) {
    ToPrintState(f) && f.arg1 == 0 && f.arg3 == 0
  }

  /** The offset asked for: the first four bytes of the payload, most significant
      first, or the end of the last slice if there are fewer. */
  function AskedOffset(f: Frame, cursor: nat): nat {
    if |f.payload| >= 4
    then 16777216 * f.payload[0] + 65536 * f.payload[1] + 256 * f.payload[2] + f.payload[3]
    else cursor
  }

  /** Where the slice asked for ends. */
  function AskedEnd(cfg: Config, f: Frame, cursor: nat): nat {
    Min(AskedOffset(f, cursor) + CapOf(cfg), |cfg.image|)
  }

  predicate RequestsImage(cfg: Config, f: Frame, cursor: nat) {
    Requests(f) && AskedOffset(f, cursor) < |cfg.image|
  }

  /** A slice whose length no frame can declare. */
  predicate TooLong(cfg: Config, f: Frame, cursor: nat) {
    RequestsImage(cfg, f, cursor) && AskedEnd(cfg, f, cursor) - AskedOffset(f, cursor) >= TWO32
  }

  /** Has an answer: a heartbeat, READY (1), NEEDS_ACK (5), FINISHED (6), or a request inside the image. */
  predicate Answered(cfg: Config, f: Frame, cursor: nat) {
    || f.opcode == 0x64
    || (ToPrintState(f) && !Faults(f) && f.arg1 in {1, 5, 6})
    || (RequestsImage(cfg, f, cursor) && !TooLong(cfg, f, cursor))
  }

  lemma OffsetIsAsked(f: Frame, cursor: nat)
    ensures WantedOffset(f, cursor) == AskedOffset(f, cursor)
  {
  }

  lemma RequestIsARequest(f: Frame)
    ensures Requests(f) <==> IsRequest(f)
    ensures ToPrintState(f) <==> !Special(f.opcode)
    ensures Faults(f) <==> !Special(f.opcode) && IsFault(f)
  {
  }

  lemma EndIsAsked(cfg: Config, f: Frame, cursor: nat)
    requires RequestsImage(cfg, f, cursor)
    ensures SliceEnd(cfg, WantedOffset(f, cursor)) == AskedEnd(cfg, f, cursor)
    ensures AskedOffset(f, cursor) <= AskedEnd(cfg, f, cursor) <= |cfg.image|
  {
    OffsetIsAsked(f, cursor);
    SliceEndIsCapped(cfg, WantedOffset(f, cursor));
  }

  // ----- Every frame, in every state ----------------------------------------------------------

  /** What the session does about a frame, for every frame and state: it is done for
      an end of job or session, throws for a fault, answers a heartbeat, READY (1),
      NEEDS_ACK (5), FINISHED (6) and a request inside the image, the answer to
      FINISHED alone being the last, and waits for the rest. */
  lemma ActionOfEveryFrame(cfg: Config, st: State, f: Frame)
    ensures var a := Handle(cfg, st, f).action;
            && (a.Done? <==> Over(f))
            && (a.Throw? <==> Faults(f) || TooLong(cfg, f, st.bytesSent))
            && (Faults(f) ==> a == Throw(ByPrinter(PrinterFault(f.arg1, f.arg3))))
            && (TooLong(cfg, f, st.bytesSent) ==> a == Throw(ByCodec))
            && (a.Send? <==> Answered(cfg, f, st.bytesSent))
            && (a.Send? && a.final <==> Finishes(f))
  {
    hide FrameBytes, ParseStatus, Percent, DataFrame, JobStart, CapOf, SliceEnd;
    RequestIsARequest(f);
    OffsetIsAsked(f, st.bytesSent);
    if RequestsImage(cfg, f, st.bytesSent) {
      EndIsAsked(cfg, f, st.bytesSent);
    }
  }

  /** The state it leaves: the cursor moves to the end of the slice asked for, offset
      named or not, and for nothing else; `finished` is set by an end and by FINISHED;
      a fault is recorded. */
  lemma StateAfterEveryFrame(cfg: Config, st: State, f: Frame)
    ensures var k := Handle(cfg, st, f).state;
            && k.bytesSent == (if RequestsImage(cfg, f, st.bytesSent) then AskedEnd(cfg, f, st.bytesSent) else st.bytesSent)
            && k.finished == (st.finished || Over(f) || Finishes(f))
            && k.failure == (if Faults(f) then Some(PrinterFault(f.arg1, f.arg3)) else st.failure)
  {
    hide FrameBytes, ParseStatus, Percent, DataFrame, JobStart, CapOf, SliceEnd;
    RequestIsARequest(f);
    OffsetIsAsked(f, st.bytesSent);
    if RequestsImage(cfg, f, st.bytesSent) {
      EndIsAsked(cfg, f, st.bytesSent);
    }
  }

  /** The callbacks: a status for each frame that reaches the print state machine, and
      one report of progress for each request inside the image, naming the end of its
      slice, with the percentage rounded half up. */
  lemma CallbacksOfEveryFrame(cfg: Config, st: State, f: Frame)
    ensures var e := Handle(cfg, st, f);
            && e.status == (if ToPrintState(f) then Some(ParseStatus(f)) else None)
            && (e.progress.Some? <==> RequestsImage(cfg, f, st.bytesSent))
            && (e.progress.Some? ==>
                 var p, n := e.progress.value, |cfg.image|;
                 && p.bytesSent == AskedEnd(cfg, f, st.bytesSent) && p.totalBytes == n
                 && p.percent * (2 * n) <= 200 * p.bytesSent + n < (p.percent + 1) * (2 * n))
  {
    hide FrameBytes, ParseStatus, Percent, DataFrame, JobStart, CapOf, SliceEnd;
    RequestIsARequest(f);
    OffsetIsAsked(f, st.bytesSent);
    if RequestsImage(cfg, f, st.bytesSent) {
      EndIsAsked(cfg, f, st.bytesSent);
      PercentRounds(AskedEnd(cfg, f, st.bytesSent), |cfg.image|);
    }
  }

  lemma PercentRounds(part: nat, whole: nat)
    requires whole > 0
    ensures Percent(part, whole) * (2 * whole) <= 200 * part + whole < (Percent(part, whole) + 1) * (2 * whole)
  {
    DivMod(200 * part + whole, 2 * whole);
  }

  // ----- What the printer reads ----------------------------------------------------------------

  /** The data answer the printer decodes: the opcode of the pair in use, the first two
      arguments of the request, and the image from the offset asked for to the end of
      the slice. */
  predicate AnswersRequest(cfg: Config, f: Frame, cursor: nat, g: Frame)
    requires RequestsImage(cfg, f, cursor)
  {
    EndIsAsked(cfg, f, cursor);
    && g.opcode == (if cfg.protocolLevel > 100 then 0x12 else 0x09)
    && g.arg1 == f.arg1 && g.arg2 == f.arg2 && g.arg3 == 0
    && g.payload == cfg.image[AskedOffset(f, cursor)..AskedEnd(cfg, f, cursor)]
  }

  /** What each answer says to the printer that decodes it, for every frame that has
      one: heartbeats are echoed, an acknowledgement returns the fourth header byte,
      readiness gets the announcement of the job, a request its slice, and END_JOB
      answers FINISHED. */
  lemma AnswersMatchQuestions(cfg: Config, st: State, f: Frame)
    requires 0 < |cfg.image| < TWO31
    ensures var a := Handle(cfg, st, f).action;
            && (f.opcode == 0x64 ==> a.Send? && ParseFrames(a.data) == Parsed([Frame(0x64, 1, 0, 0, [])], []))
            && (ToPrintState(f) && f.arg1 == 1 && f.arg3 != 10 ==>
                 a.Send? && exists g :: ParseFrames(a.data) == Parsed([g], []) && Announces(cfg, g))
            && (RequestsImage(cfg, f, st.bytesSent) ==>
                 a.Send? && exists g :: ParseFrames(a.data) == Parsed([g], []) && AnswersRequest(cfg, f, st.bytesSent, g))
            && (ToPrintState(f) && f.arg1 == 5 ==> a.Send? && ParseFrames(a.data) == Parsed([Frame(0x07, f.arg3, 0, 0, [])], []))
            && (Finishes(f) ==> a == Send(EndJobBytes(), true) && ParseFrames(a.data) == Parsed([Frame(0x01, 0, 0, 0, [])], []))
  {
    hide FrameBytes, ParseFrames, ParseStatus, Percent, DataFrame, JobStart, AnswersRequest, Announces, CapOf;
    RequestIsARequest(f);
    OffsetIsAsked(f, st.bytesSent);
    WholeFrame(Frame(0x64, 1, 0, 0, []));
    WholeFrame(Frame(0x07, f.arg3, 0, 0, []));
    WholeFrame(Frame(0x01, 0, 0, 0, []));
    StartIsRead(cfg);
    if RequestsImage(cfg, f, st.bytesSent) {
      SliceIsRead(cfg, f, st.bytesSent);
    }
  }

  lemma StartIsRead(cfg: Config)
    requires |cfg.image| < TWO31
    ensures ParseFrames(FrameBytes(JobStart(cfg))) == Parsed([JobStart(cfg)], []) && Announces(cfg, JobStart(cfg))
  {
    StartAnnounces(cfg);
    WholeFrame(JobStart(cfg));
  }

  lemma SliceIsRead(cfg: Config, f: Frame, cursor: nat)
    requires |cfg.image| < TWO31 && RequestsImage(cfg, f, cursor)
    ensures var offset := WantedOffset(f, cursor);
            && offset < |cfg.image| && SliceEnd(cfg, offset) - offset < TWO32
            && var g := DataFrame(cfg, f, offset);
               ParseFrames(FrameBytes(g)) == Parsed([g], []) && AnswersRequest(cfg, f, cursor, g)
  {
    OffsetIsAsked(f, cursor);
    EndIsAsked(cfg, f, cursor);
    WholeFrame(DataFrame(cfg, f, WantedOffset(f, cursor)));
  }

  /** The frames without a payload, byte for byte: the session start that opens every
      job, the echo of a heartbeat, and the end of a job. */
  lemma ControlFramesSpelt()
    ensures StartBytes() == [0x02, 1, 37, 0, 0, 0, 0, 0]
    ensures HeartbeatBytes() == [0x64, 1, 0, 0, 0, 0, 0, 0]
    ensures EndJobBytes() == [0x01, 0, 0, 0, 0, 0, 0, 0]
  {
    assert Be32(0) == [0, 0, 0, 0];
  }

  // ----- Over runs ----------------------------------------------------------------------------

  /** The session has finished exactly when a frame ended the job or session, or said FINISHED. */
  lemma {:induction false} FinishedIffToldSo(cfg: Config, st: State, frames: seq<Frame>)
    ensures Final(cfg, st, frames).finished <==> st.finished || exists f :: f in frames && (Over(f) || Finishes(f))
    decreases |frames|
  {
    hide Handle, Over, Finishes;
    if frames != [] {
      StateAfterEveryFrame(cfg, st, frames[0]);
      FinishedIffToldSo(cfg, Handle(cfg, st, frames[0]).state, frames[1..]);
      assert forall f :: f in frames <==> f == frames[0] || f in frames[1..];
    }
  }

  /** The failure recorded is the last fault among the frames. */
  function LastFault(frames: seq<Frame>): Option<Failure> {
    if frames == [] then None
    else
      var f := frames[|frames| - 1];
      if Faults(f) then Some(PrinterFault(f.arg1, f.arg3)) else LastFault(frames[..|frames| - 1])
  }

  /** The end of the last slice sent, from the requests alone. */
  function CursorAfterAll(cfg: Config, cursor: nat, frames: seq<Frame>): nat {
    if frames == [] then cursor
    else
      var before := CursorAfterAll(cfg, cursor, frames[..|frames| - 1]);
      var f := frames[|frames| - 1];
      if RequestsImage(cfg, f, before) then AskedEnd(cfg, f, before) else before
  }

  /** The state a session is in after any frames, offsets named or not. */
  lemma {:induction false} StateFollowsTheFrames(cfg: Config, frames: seq<Frame>)
    ensures var k := Final(cfg, INITIAL, frames);
            && k.bytesSent == CursorAfterAll(cfg, 0, frames)
            && (k.finished <==> exists f :: f in frames && (Over(f) || Finishes(f)))
            && k.failure == LastFault(frames)
  {
    FinishedIffToldSo(cfg, INITIAL, frames);
    hide Handle, Over, Finishes, Faults, RequestsImage, AskedEnd;
    if frames != [] {
      var front, f := frames[..|frames| - 1], frames[|frames| - 1];
      assert frames == front + [f];
      StateFollowsTheFrames(cfg, front);
      FinalSnoc(cfg, INITIAL, front, f);
      StateAfterEveryFrame(cfg, Final(cfg, INITIAL, front), f);
    }
  }

  /** The job start and the data frames of a run use one pair of opcodes, the modern
      one for a peer above level 100 and the legacy one for the rest. */
  lemma {:induction false} OnePairOfOpcodes(cfg: Config, st: State, frames: seq<Frame>)
    requires 0 < |cfg.image| < TWO31
    ensures forall e, g :: e in Effects(cfg, st, frames) && e.action.Send? && ParseFrames(e.action.data) == Parsed([g], []) ==>
              if cfg.protocolLevel > 100 then g.opcode !in {0x05, 0x09} else g.opcode !in {0x10, 0x12}
    decreases |frames|
  {
    hide Handle, ParseFrames;
    if frames != [] {
      PairOfOneAnswer(cfg, st, frames[0]);
      OnePairOfOpcodes(cfg, Handle(cfg, st, frames[0]).state, frames[1..]);
    }
  }

  lemma PairOfOneAnswer(cfg: Config, st: State, f: Frame)
    requires 0 < |cfg.image| < TWO31
    ensures var a := Handle(cfg, st, f).action;
            forall g :: a.Send? && ParseFrames(a.data) == Parsed([g], []) ==>
              if cfg.protocolLevel > 100 then g.opcode !in {0x05, 0x09} else g.opcode !in {0x10, 0x12}
  {
    hide ParseFrames, RequestsImage, CapOf;
    ActionOfEveryFrame(cfg, st, f);
    AnswersMatchQuestions(cfg, st, f);
    hide Handle;
  }
}
