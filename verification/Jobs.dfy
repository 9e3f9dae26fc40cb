/** One print job over a stream transport: frames, write completions, the timer
    and the transport closing, in whatever order they happen. */
module Jobs {
  import opened Bytes
  import opened Incremental
  import opened Frames
  import opened Status
  import opened Session
  import opened SessionRuns

  datatype Reason = TimedOut | TransportClosed | WriteFailed | SessionFailed(error: Thrown)
  /** How the job's promise was settled, and what brought it about. */
  datatype Settlement = ResolvedByDone | ResolvedByWrite(index: nat) | Rejected(reason: Reason)

  datatype Fate = Pending | Landed | Failed
  datatype Write = Write(data: bytes, final: bool, fate: Fate)

  /** `listening`, `watching` and `timer` say whether the frame listener, the
      close listener and the timer are still in place; `settlements` records
      every call of resolve or reject. */
  datatype Job = Job(
    session: State, buffer: bytes, listening: bool, watching: bool, timer: bool,
    settled: bool, settlements: seq<Settlement>, writes: seq<Write>)

  datatype Event = Arrives(chunk: bytes) | Lands(index: nat) | Fails(index: nat) | Expires | Closes

  function Begin(buffer: bytes): Job {
    Job(INITIAL, buffer, true, true, true, false, [], [Write(StartBytes(), false, Pending)])
  }

  function Finish(j: Job, how: Settlement): Job {
    if j.settled then j
    else j.(settled := true, timer := false, listening := false, watching := false, settlements := j.settlements + [how])
  }

  function OnFrame(cfg: Config, j: Job, f: Frame): Job {
    var e := Handle(cfg, j.session, f);
    var next := j.(session := e.state);
    match e.action
    case Throw(error) => Finish(next, Rejected(SessionFailed(error)))
    case Done => Finish(next, ResolvedByDone)
    case Send(data, final) => next.(writes := next.writes + [Write(data, final, Pending)])
    case Wait => next
  }

  function OnFrames(cfg: Config, j: Job, frames: seq<Frame>): Job
    decreases |frames|
  {
    if frames == [] then j
    else OnFrames(cfg, if j.listening then OnFrame(cfg, j, frames[0]) else j, frames[1..])
  }

  function OnData(cfg: Config, j: Job, chunk: bytes): Job {
    var r := ParseFrames(j.buffer + chunk);
    OnFrames(cfg, j.(buffer := r.rest), r.items)
  }

  predicate IsPending(j: Job, i: nat) {
    i < |j.writes| && j.writes[i].fate.Pending?
  }

  function WithFate(j: Job, i: nat, fate: Fate): Job
    requires i < |j.writes|
  {
    j.(writes := j.writes[i := j.writes[i].(fate := fate)])
  }

  /** Events whose source is gone, and completions of writes not under way, change nothing. */
  function Step(cfg: Config, j: Job, e: Event): Job {
    match e
    case Arrives(chunk) => OnData(cfg, j, chunk)
    case Lands(i) =>
      if !IsPending(j, i) then j
      else if j.writes[i].final then Finish(WithFate(j, i, Landed), ResolvedByWrite(i))
      else WithFate(j, i, Landed)
    case Fails(i) => if !IsPending(j, i) then j else Finish(WithFate(j, i, Failed), Rejected(WriteFailed))
    case Expires => if j.timer then Finish(j, Rejected(TimedOut)) else j
    case Closes => if j.watching then Finish(j, Rejected(TransportClosed)) else j
  }

  function After(cfg: Config, j: Job, events: seq<Event>): Job
    decreases |events|
  {
    if events == [] then j else After(cfg, Step(cfg, j, events[0]), events[1..])
  }

  class PrintJob {
    const session: PrintSession
    const decoder: FrameDecoder
    var listening: bool
    var watching: bool
    var timer: bool
    var settled: bool
    var settlements: seq<Settlement>
    var writes: seq<Write>

    ghost predicate Valid()
      reads this, session
    {
      session.Valid()
    }

    ghost function View(): Job
      reads this, session, decoder
    {
      Job(session.View(), decoder.buffer, listening, watching, timer, settled, settlements, writes)
    }

    /** `decoder` belongs to the printer object and may hold bytes from before the job. */
    constructor (session: PrintSession, decoder: FrameDecoder)
      requires session.Valid() && session.View() == INITIAL
      ensures Valid() && this.session == session && this.decoder == decoder
      ensures View() == Begin(decoder.buffer)
    {
      this.session, this.decoder := session, decoder;
      listening, watching, timer := true, true, true;
      settled, settlements := false, [];
      var data := session.Start();
      writes := [Write(data, false, Pending)];
    }

    /** `finish`: only the first call counts. */
    method Settle(how: Settlement)
      modifies this
      ensures View() == Finish(old(View()), how)
    {
      if settled {
        return;
      }
      settled := true;
      timer := false;
      listening := false;
      watching := false;
      settlements := settlements + [how];
    }

    method HandleFrame(f: Frame)
      requires Valid()
      modifies this, session
      ensures Valid() && View() == OnFrame(session.config, old(View()), f)
    {
      var action, _, _ := session.HandleFrame(f);
      match action
      case Throw(error) => Settle(Rejected(SessionFailed(error)));
      case Done => Settle(ResolvedByDone);
      case Send(data, final) => writes := writes + [Write(data, final, Pending)];
      case Wait =>
    }

    method HandleData(chunk: bytes)
      requires Valid()
      modifies this, session, decoder
      ensures Valid() && View() == OnData(session.config, old(View()), chunk)
    {
      var frames := decoder.Push(chunk);
      assert View() == old(View()).(buffer := decoder.buffer);
      ghost var first := View();
      for i := 0 to |frames|
        invariant Valid()
        invariant OnFrames(session.config, first, frames) == OnFrames(session.config, View(), frames[i..])
      {
        ghost var before := View();
        assert frames[i..][1..] == frames[i + 1..];
        if listening {
          HandleFrame(frames[i]);
        }
      }
    }

    method WriteLanded(i: nat)
      requires Valid() && i < |writes| && writes[i].fate.Pending?
      modifies this
      ensures Valid() && View() == Step(session.config, old(View()), Lands(i))
    {
      writes := writes[i := writes[i].(fate := Landed)];
      if writes[i].final {
        Settle(ResolvedByWrite(i));
      }
    }

    method WriteBroke(i: nat)
      requires Valid() && i < |writes| && writes[i].fate.Pending?
      modifies this
      ensures Valid() && View() == Step(session.config, old(View()), Fails(i))
    {
      writes := writes[i := writes[i].(fate := Failed)];
      Settle(Rejected(WriteFailed));
    }

    method TimerFired()
      requires Valid() && timer
      modifies this
      ensures Valid() && View() == Step(session.config, old(View()), Expires)
    {
      Settle(Rejected(TimedOut));
    }

    method TransportWentAway()
      requires Valid() && watching
      modifies this
      ensures Valid() && View() == Step(session.config, old(View()), Closes)
    {
      Settle(Rejected(TransportClosed));
    }
  }

  // ----- Settlement --------------------------------------------------------------------

  predicate FinalWritesEndTheJob(j: Job) {
    forall i :: 0 <= i < |j.writes| ==>
      && (j.writes[i].final <==> j.writes[i].data == EndJobBytes())
      && (j.writes[i].final ==> j.session.finished)
  }

  predicate SettlementInv(j: Job) {
    && FinalWritesEndTheJob(j)
    && (j.settled <==> !j.listening) && (j.settled <==> !j.watching) && (j.settled <==> !j.timer)
    && |j.settlements| == (if j.settled then 1 else 0)
    && (j.settled && j.settlements[0].ResolvedByDone? ==> j.session.finished)
    && (j.settled && j.settlements[0].ResolvedByWrite? ==>
          var i := j.settlements[0].index;
          i < |j.writes| && j.writes[i].final && j.writes[i].fate.Landed?)
  }

  lemma OnFrameSettles(cfg: Config, j: Job, f: Frame)
    requires SettlementInv(j) && j.listening
    ensures SettlementInv(OnFrame(cfg, j, f))
  {
    KeepsFinished(cfg, j.session, f);
    FinalSend(cfg, j.session, f);
    hide Handle, EndJobBytes;
  }

  lemma KeepsFinished(cfg: Config, st: State, f: Frame)
    ensures st.finished ==> Handle(cfg, st, f).state.finished
    ensures Handle(cfg, st, f).action.Done? ==> Handle(cfg, st, f).state.finished
  {
  }

  /** A send is final exactly when it is an END_JOB, and then the session is finished. */
  lemma FinalSend(cfg: Config, st: State, f: Frame)
    ensures var e := Handle(cfg, st, f);
            e.action.Send? ==>
              (e.action.final <==> e.action.data == EndJobBytes()) && (e.action.final ==> e.state.finished)
  {
    var e := Handle(cfg, st, f);
    if e.action.Send? {
      FirstByte(Frame(END_JOB, 0, 0, 0, []));
      if f.opcode == HEARTBEAT {
        FirstByte(Frame(HEARTBEAT, 1, 0, 0, []));
      } else if f.arg1 == READY {
        FirstByte(JobStart(cfg));
      } else if f.arg1 == REQUEST_DATA {
        FirstByte(DataFrame(cfg, f, WantedOffset(f, st.bytesSent)));
      } else if f.arg1 == NEEDS_ACK {
        FirstByte(Frame(ACK, f.arg3, 0, 0, []));
      }
      hide FrameBytes;
    }
  }

  lemma FirstByte(f: Frame)
    ensures FrameBytes(f) != [] && FrameBytes(f)[0] == f.opcode
  {
  }

  lemma {:induction false} OnFramesSettles(cfg: Config, j: Job, frames: seq<Frame>)
    requires SettlementInv(j)
    ensures SettlementInv(OnFrames(cfg, j, frames))
    decreases |frames|
  {
    if frames != [] {
      if j.listening {
        OnFrameSettles(cfg, j, frames[0]);
      }
      hide SettlementInv, OnFrame;
      OnFramesSettles(cfg, if j.listening then OnFrame(cfg, j, frames[0]) else j, frames[1..]);
    }
  }

  lemma StepSettles(cfg: Config, j: Job, e: Event)
    requires SettlementInv(j)
    ensures SettlementInv(Step(cfg, j, e))
  {
    if e.Arrives? {
      hide SettlementInv, OnFrames;
      var r := ParseFrames(j.buffer + e.chunk);
      BufferIsIrrelevant(j, r.rest);
      OnFramesSettles(cfg, j.(buffer := r.rest), r.items);
    }
  }

  lemma BufferIsIrrelevant(j: Job, buffer: bytes)
    ensures SettlementInv(j) <==> SettlementInv(j.(buffer := buffer))
  {
  }

  lemma {:induction false} SettlementInvAlways(cfg: Config, j: Job, events: seq<Event>)
    requires SettlementInv(j)
    ensures SettlementInv(After(cfg, j, events))
    decreases |events|
  {
    if events != [] {
      hide SettlementInv, Step;
      StepSettles(cfg, j, events[0]);
      SettlementInvAlways(cfg, Step(cfg, j, events[0]), events[1..]);
    }
  }

  lemma BeginSettlement(buffer: bytes)
    ensures SettlementInv(Begin(buffer))
  {
    FirstByte(Frame(SESSION_START, 1, SESSION_PROTOCOL_REVISION, 0, []));
    FirstByte(Frame(END_JOB, 0, 0, 0, []));
    hide FrameBytes;
  }

  /** In every interleaving of frames, write completions, write failures, the
      timer and closing: the job settles at most once; when it has settled, and
      only then, its listeners and timer are gone; and it resolves only with the
      session finished, by a done frame or by an END_JOB write that landed. */
  lemma SettlesAtMostOnce(cfg: Config, buffer: bytes, events: seq<Event>)
    ensures var j := After(cfg, Begin(buffer), events);
            && |j.settlements| <= 1
            && (j.settlements == [] <==> j.listening && j.watching && j.timer)
            && (j.settlements != [] <==> !j.listening && !j.watching && !j.timer)
            && forall how :: how in j.settlements && !how.Rejected? ==>
                 && j.session.finished
                 && (how.ResolvedByWrite? ==>
                      how.index < |j.writes| && j.writes[how.index].fate.Landed? && j.writes[how.index].data == EndJobBytes())
  {
    hide EndJobBytes, After, Begin;
    BeginSettlement(buffer);
    SettlementInvAlways(cfg, Begin(buffer), events);
  }

  /** While the job is running, a completed write settles it exactly when it was an END_JOB. */
  lemma OnlyEndJobLandingResolves(cfg: Config, j: Job, i: nat)
    requires SettlementInv(j) && !j.settled && IsPending(j, i)
    ensures var k := Step(cfg, j, Lands(i));
            && (k.settled <==> j.writes[i].data == EndJobBytes())
            && (k.settled ==> k.settlements == [ResolvedByWrite(i)])
  {
    hide EndJobBytes;
  }

  function Datas(writes: seq<Write>): (r: seq<bytes>)
    ensures |r| == |writes|
    ensures forall i :: 0 <= i < |r| ==> r[i] == writes[i].data
  {
    seq(|writes|, i requires 0 <= i < |writes| => writes[i].data)
  }

  /** A settled job writes nothing more and its outcome stands, whatever happens next. */
  lemma {:induction false} SettledStaysSettled(cfg: Config, j: Job, events: seq<Event>)
    requires SettlementInv(j) && j.settled
    ensures var k := After(cfg, j, events);
            k.settled && k.settlements == j.settlements && Datas(k.writes) == Datas(j.writes) && k.session == j.session
    decreases |events|
  {
    if events != [] {
      var k := Step(cfg, j, events[0]);
      StepSettles(cfg, j, events[0]);
      if events[0].Arrives? {
        var r := ParseFrames(j.buffer + events[0].chunk);
        DeafToFrames(cfg, j.(buffer := r.rest), r.items);
      }
      hide Step, OnFrames;
      SettledStaysSettled(cfg, k, events[1..]);
    }
  }

  lemma {:induction false} DeafToFrames(cfg: Config, j: Job, frames: seq<Frame>)
    requires !j.listening
    ensures OnFrames(cfg, j, frames) == j
    decreases |frames|
  {
    if frames != [] {
      DeafToFrames(cfg, j, frames[1..]);
    }
  }
}
