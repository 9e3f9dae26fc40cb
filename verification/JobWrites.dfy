/** What a whole job writes, as a function of the bytes it received. */
module JobWrites {
  import opened Bytes
  import opened Incremental
  import opened Frames
  import opened Session
  import opened SessionRuns
  import opened Jobs

  /** What ends the predictable part of a job: nothing yet, a done frame, a
      thrown error, or the END_JOB that answers FINISHED. */
  datatype Ending = Open | ByDone | ByThrow(error: Thrown) | ByEndJob
  datatype Script = Script(sends: seq<bytes>, ending: Ending)

  /** The buffers a session sends for `frames`, up to the first frame that ends the job. */
  function ScriptOf(cfg: Config, st: State, frames: seq<Frame>): Script
    decreases |frames|
  {
    if frames == [] then Script([], Open)
    else
      var e := Handle(cfg, st, frames[0]);
      var first := Extended(Script([], Open), e.action);
      if first.ending.Open? then
        var later := ScriptOf(cfg, e.state, frames[1..]);
        Script(first.sends + later.sends, later.ending)
      else first
  }

  function Extended(sc: Script, a: Action): Script {
    match a
    case Wait => sc
    case Done => sc.(ending := ByDone)
    case Throw(error) => sc.(ending := ByThrow(error))
    case Send(data, final) => Script(sc.sends + [data], if final then ByEndJob else sc.ending)
  }

  lemma {:induction false} ScriptSnoc(cfg: Config, st: State, frames: seq<Frame>, f: Frame)
    ensures var sc := ScriptOf(cfg, st, frames);
            ScriptOf(cfg, st, frames + [f])
              == if sc.ending.Open? then Extended(sc, Handle(cfg, Final(cfg, st, frames), f).action) else sc
    decreases |frames|
  {
    hide Handle;
    if frames == [] {
      assert (frames + [f])[1..] == [];
      assert ScriptOf(cfg, Handle(cfg, st, f).state, []) == Script([], Open);
    } else {
      assert (frames + [f])[0] == frames[0] && (frames + [f])[1..] == frames[1..] + [f];
      ScriptSnoc(cfg, Handle(cfg, st, frames[0]).state, frames[1..], f);
    }
  }

  lemma {:induction false} FinishedScriptEndsWithEndJob(cfg: Config, st: State, frames: seq<Frame>)
    requires ScriptOf(cfg, st, frames).ending.ByEndJob?
    ensures var sends := ScriptOf(cfg, st, frames).sends;
            sends != [] && sends[|sends| - 1] == EndJobBytes()
    decreases |frames|
  {
    var e := Handle(cfg, st, frames[0]);
    FinalSend(cfg, st, frames[0]);
    hide Handle;
    if Extended(Script([], Open), e.action).ending.Open? {
      FinishedScriptEndsWithEndJob(cfg, e.state, frames[1..]);
    }
  }

  function Expected(sc: Script): seq<bytes> {
    [StartBytes()] + sc.sends
  }

  /** The job is where the frames seen so far put it. */
  predicate Tracks(cfg: Config, j: Job, frames: seq<Frame>) {
    var sc := ScriptOf(cfg, INITIAL, frames);
    && SettlementInv(j)
    && match sc.ending
       case Open =>
         && Datas(j.writes) == Expected(sc) && !j.settled
         && j.session == Final(cfg, INITIAL, frames)
         && (forall i :: 0 <= i < |j.writes| ==> !j.writes[i].final)
       case ByDone => Datas(j.writes) == Expected(sc) && j.settlements == [ResolvedByDone]
       case ByThrow(error) => Datas(j.writes) == Expected(sc) && j.settlements == [Rejected(SessionFailed(error))]
       case ByEndJob => Expected(sc) <= Datas(j.writes)
  }

  /** As `Tracks`, or cut short by the timer, the transport or a failed write. */
  predicate TracksOrStopped(cfg: Config, j: Job, frames: seq<Frame>) {
    || Tracks(cfg, j, frames)
    || (SettlementInv(j) && j.settled && Datas(j.writes) <= Expected(ScriptOf(cfg, INITIAL, frames)))
  }

  lemma FrameTracks(cfg: Config, j: Job, frames: seq<Frame>, f: Frame)
    requires Tracks(cfg, j, frames)
    ensures Tracks(cfg, if j.listening then OnFrame(cfg, j, f) else j, frames + [f])
  {
    hide Handle, Final, ScriptOf, StartBytes, EndJobBytes, Datas;
    ScriptSnoc(cfg, INITIAL, frames, f);
    FinalSnoc(cfg, INITIAL, frames, f);
    if j.listening {
      OnFrameSettles(cfg, j, f);
      OnFrameDatas(cfg, j, f);
    }
  }

  lemma OnFrameDatas(cfg: Config, j: Job, f: Frame)
    ensures var a := Handle(cfg, j.session, f).action;
            Datas(OnFrame(cfg, j, f).writes) == Datas(j.writes) + (if a.Send? then [a.data] else [])
  {
    hide Handle;
  }

  lemma FrameTracksOrStopped(cfg: Config, j: Job, frames: seq<Frame>, f: Frame)
    requires TracksOrStopped(cfg, j, frames)
    ensures TracksOrStopped(cfg, if j.listening then OnFrame(cfg, j, f) else j, frames + [f])
  {
    if Tracks(cfg, j, frames) {
      FrameTracks(cfg, j, frames, f);
    } else {
      ScriptSnoc(cfg, INITIAL, frames, f);
      hide Handle, Final, ScriptOf, StartBytes, Tracks;
    }
  }

  lemma {:induction false} FramesTrack(cfg: Config, j: Job, frames: seq<Frame>, now: seq<Frame>)
    requires TracksOrStopped(cfg, j, frames)
    ensures TracksOrStopped(cfg, OnFrames(cfg, j, now), frames + now)
    ensures Tracks(cfg, j, frames) ==> Tracks(cfg, OnFrames(cfg, j, now), frames + now)
    decreases |now|
  {
    if now == [] {
      assert frames + now == frames;
    } else {
      var k := if j.listening then OnFrame(cfg, j, now[0]) else j;
      FrameTracksOrStopped(cfg, j, frames, now[0]);
      if Tracks(cfg, j, frames) {
        FrameTracks(cfg, j, frames, now[0]);
      }
      hide Tracks, TracksOrStopped, OnFrame;
      FramesTrack(cfg, k, frames + [now[0]], now[1..]);
      assert (frames + [now[0]]) + now[1..] == frames + now;
    }
  }

  /** Only bytes arriving and writes completing: no timeout, close or write failure. */
  predicate Undisturbed(events: seq<Event>) {
    forall i :: 0 <= i < |events| ==> events[i].Arrives? || events[i].Lands?
  }

  function BytesOf(e: Event): bytes {
    if e.Arrives? then e.chunk else []
  }

  /** The bytes that reach the job. */
  function Inbound(events: seq<Event>): bytes
    decreases |events|
  {
    if events == [] then [] else BytesOf(events[0]) + Inbound(events[1..])
  }

  lemma BufferDoesNotMatter(cfg: Config, j: Job, buffer: bytes, frames: seq<Frame>)
    ensures Tracks(cfg, j, frames) <==> Tracks(cfg, j.(buffer := buffer), frames)
    ensures TracksOrStopped(cfg, j, frames) <==> TracksOrStopped(cfg, j.(buffer := buffer), frames)
  {
    hide ScriptOf;
  }

  lemma DataTracks(cfg: Config, j: Job, seen: bytes, chunk: bytes)
    requires j.buffer == ParseFrames(seen).rest && TracksOrStopped(cfg, j, ParseFrames(seen).items)
    ensures var k := OnData(cfg, j, chunk);
            var frames := ParseFrames(seen + chunk).items;
            && k.buffer == ParseFrames(seen + chunk).rest
            && TracksOrStopped(cfg, k, frames)
            && (Tracks(cfg, j, ParseFrames(seen).items) ==> Tracks(cfg, k, frames))
  {
    hide ParseFrames, Tracks, TracksOrStopped;
    ParseFramesAppend(seen, chunk);
    var r := ParseFrames(j.buffer + chunk);
    BufferDoesNotMatter(cfg, j, r.rest, ParseFrames(seen).items);
    FramesTrack(cfg, j.(buffer := r.rest), ParseFrames(seen).items, r.items);
    FramesKeepBuffer(cfg, j.(buffer := r.rest), r.items);
  }

  lemma {:induction false} FramesKeepBuffer(cfg: Config, j: Job, frames: seq<Frame>)
    ensures OnFrames(cfg, j, frames).buffer == j.buffer
    decreases |frames|
  {
    if frames != [] {
      hide Handle;
      FramesKeepBuffer(cfg, if j.listening then OnFrame(cfg, j, frames[0]) else j, frames[1..]);
    }
  }

  lemma OtherEventTracks(cfg: Config, j: Job, frames: seq<Frame>, e: Event)
    requires !e.Arrives? && TracksOrStopped(cfg, j, frames)
    ensures Step(cfg, j, e).buffer == j.buffer
    ensures TracksOrStopped(cfg, Step(cfg, j, e), frames)
    ensures e.Lands? && Tracks(cfg, j, frames) ==> Tracks(cfg, Step(cfg, j, e), frames)
  {
    hide ScriptOf, Final, StartBytes, EndJobBytes;
    StepSettles(cfg, j, e);
    assert Datas(Step(cfg, j, e).writes) == Datas(j.writes);
  }

  lemma {:induction false} RunTracks(cfg: Config, j: Job, seen: bytes, events: seq<Event>)
    requires j.buffer == ParseFrames(seen).rest && TracksOrStopped(cfg, j, ParseFrames(seen).items)
    ensures TracksOrStopped(cfg, After(cfg, j, events), ParseFrames(seen + Inbound(events)).items)
    ensures Tracks(cfg, j, ParseFrames(seen).items) && Undisturbed(events) ==>
              Tracks(cfg, After(cfg, j, events), ParseFrames(seen + Inbound(events)).items)
    decreases |events|
  {
    hide ParseFrames, Tracks, TracksOrStopped, Step, OnData, Inbound, Undisturbed;
    FirstEvent(seen, events);
    if events != [] {
      var e := events[0];
      var now := seen + BytesOf(e);
      var k := Step(cfg, j, e);
      if e.Arrives? {
        ArrivalIsOnData(cfg, j, e.chunk);
        DataTracks(cfg, j, seen, e.chunk);
      } else {
        assert now == seen;
        OtherEventTracks(cfg, j, ParseFrames(seen).items, e);
      }
      RunTracks(cfg, k, now, events[1..]);
    }
  }

  lemma FirstEvent(seen: bytes, events: seq<Event>)
    ensures events == [] ==> seen + Inbound(events) == seen
    ensures events != [] ==> seen + Inbound(events) == (seen + BytesOf(events[0])) + Inbound(events[1..])
    ensures events != [] && Undisturbed(events) ==> (events[0].Arrives? || events[0].Lands?) && Undisturbed(events[1..])
  {
    if events != [] {
      hide BytesOf;
      var now, later := BytesOf(events[0]), Inbound(events[1..]);
      assert Inbound(events) == now + later;
      UndisturbedTail(events);
      hide Inbound, Undisturbed;
      assert seen + (now + later) == (seen + now) + later;
    }
  }

  lemma UndisturbedTail(events: seq<Event>)
    requires events != []
    ensures Undisturbed(events) ==> (events[0].Arrives? || events[0].Lands?) && Undisturbed(events[1..])
  {
  }

  lemma ArrivalIsOnData(cfg: Config, j: Job, chunk: bytes)
    ensures Step(cfg, j, Arrives(chunk)) == OnData(cfg, j, chunk)
  {
  }

  lemma BeginTracks(cfg: Config, buffer: bytes)
    requires DecodeFrame(buffer).Incomplete?
    ensures ParseFrames(buffer) == Parsed([], buffer) && Tracks(cfg, Begin(buffer), [])
  {
    RestIncomplete(DecodeFrame, buffer);
    BeginSettlement(buffer);
    assert Datas(Begin(buffer).writes) == [StartBytes()];
  }

  /** Whole-job chunking invariance. With no timeout, close or write failure, and
      write completions anywhere, the buffers a job writes and how it settles are
      a function of the concatenated inbound bytes: exactly the scripted buffers
      up to a done or fault frame, and at least the scripted buffers, END_JOB
      last, up to FINISHED. */
  lemma JobFollowsTheBytes(cfg: Config, buffer: bytes, events: seq<Event>)
    requires DecodeFrame(buffer).Incomplete?
    requires Undisturbed(events)
    ensures var j := After(cfg, Begin(buffer), events);
            var sc := ScriptOf(cfg, INITIAL, ParseFrames(buffer + Inbound(events)).items);
            && Expected(sc) <= Datas(j.writes)
            && (!sc.ending.ByEndJob? ==> Datas(j.writes) == Expected(sc))
            && (sc.ending.Open? ==> !j.settled)
            && (sc.ending.ByDone? ==> j.settlements == [ResolvedByDone])
            && (sc.ending.ByThrow? ==> j.settlements == [Rejected(SessionFailed(sc.ending.error))])
  {
    BeginTracks(cfg, buffer);
    hide ParseFrames, ScriptOf, Begin, After;
    RunTracks(cfg, Begin(buffer), buffer, events);
  }

  /** Two transports that cut the same bytes differently make the job write the same. */
  lemma ChunkingDoesNotShow(cfg: Config, buffer: bytes, events1: seq<Event>, events2: seq<Event>)
    requires DecodeFrame(buffer).Incomplete?
    requires Undisturbed(events1)
    requires Undisturbed(events2)
    requires Inbound(events1) == Inbound(events2)
    ensures var sc := ScriptOf(cfg, INITIAL, ParseFrames(buffer + Inbound(events1)).items);
            var w1, w2 := Datas(After(cfg, Begin(buffer), events1).writes), Datas(After(cfg, Begin(buffer), events2).writes);
            && (!sc.ending.ByEndJob? ==> w1 == w2)
            && |Expected(sc)| <= |w1| && |Expected(sc)| <= |w2|
            && w1[..|Expected(sc)|] == w2[..|Expected(sc)|]
  {
    hide ParseFrames, ScriptOf, Begin, After, Expected;
    JobFollowsTheBytes(cfg, buffer, events1);
    JobFollowsTheBytes(cfg, buffer, events2);
  }

  /** Under every interleaving, timeouts, closes and write failures included, a
      job never writes anything out of script: its buffers and the scripted ones
      are always one a prefix of the other, and they pass the script only after FINISHED. */
  lemma JobNeverLeavesTheScript(cfg: Config, buffer: bytes, events: seq<Event>)
    requires DecodeFrame(buffer).Incomplete?
    ensures var w := Datas(After(cfg, Begin(buffer), events).writes);
            var sc := ScriptOf(cfg, INITIAL, ParseFrames(buffer + Inbound(events)).items);
            w <= Expected(sc) || (sc.ending.ByEndJob? && Expected(sc) <= w)
  {
    BeginTracks(cfg, buffer);
    hide ParseFrames, ScriptOf, Begin, After;
    RunTracks(cfg, Begin(buffer), buffer, events);
  }

  // ----- What the printer makes of it ---------------------------------------------------

  /** The buffer is one frame, whole. */
  predicate OneFrame(data: bytes) {
    DecodeFrame(data).Complete? && DecodeFrame(data).size == |data|
  }

  predicate AllFrames(datas: seq<bytes>) {
    forall i :: 0 <= i < |datas| ==> OneFrame(datas[i])
  }

  /** Each buffer decoded by itself. */
  function DecodedEach(datas: seq<bytes>): (frames: seq<Frame>)
    requires AllFrames(datas)
    ensures |frames| == |datas|
    ensures forall i :: 0 <= i < |datas| ==> OneFrame(datas[i]) && frames[i] == DecodeFrame(datas[i]).item
  {
    seq(|datas|, i requires 0 <= i < |datas| => DecodeFrame(datas[i]).item)
  }

  lemma {:induction false} ParsesToEach(datas: seq<bytes>)
    requires AllFrames(datas)
    ensures ParseFrames(Flatten(datas)) == Parsed(DecodedEach(datas), [])
    decreases |datas|
  {
    if datas == [] {
      RestIncomplete(DecodeFrame, []);
    } else {
      assert OneFrame(datas[0]);
      FramesTail(datas);
      hide DecodeFrame, AllFrames;
      DecodeFrameIsFraming();
      ParseWhole(DecodeFrame, FRAME_HEADER_SIZE, datas[0], Flatten(datas[1..]));
      ParsesToEach(datas[1..]);
    }
  }

  lemma FramesTail(datas: seq<bytes>)
    requires AllFrames(datas) && datas != []
    ensures AllFrames(datas[1..]) && OneFrame(datas[0])
    ensures DecodedEach(datas) == [DecodeFrame(datas[0]).item] + DecodedEach(datas[1..])
  {
    hide OneFrame;
    forall i | 0 <= i < |datas[1..]|
      ensures OneFrame(datas[1..][i])
    {
      assert datas[1..][i] == datas[i + 1];
    }
  }

  lemma OnFrameWritesFrames(cfg: Config, j: Job, f: Frame)
    requires 0 < |cfg.image| < TWO31 && AllFrames(Datas(j.writes))
    ensures AllFrames(Datas(OnFrame(cfg, j, f).writes))
  {
    hide Handle, OneFrame, Datas, OnFrame;
    var a := Handle(cfg, j.session, f).action;
    OnFrameDatas(cfg, j, f);
    if a.Send? {
      SendIsOneFrame(cfg, j.session, f);
      assert OneFrame(a.data) by { WholeIsOne(a.data); }
      OneMoreFrame(Datas(j.writes), a.data);
    }
  }

  lemma WholeIsOne(data: bytes)
    requires DecodeFrame(data).Complete? && DecodeFrame(data).size == |data|
    ensures OneFrame(data)
  {
  }

  lemma OneMoreFrame(datas: seq<bytes>, data: bytes)
    requires AllFrames(datas) && OneFrame(data)
    ensures AllFrames(datas + [data])
  {
    hide OneFrame;
  }

  lemma {:induction false} OnFramesWriteFrames(cfg: Config, j: Job, frames: seq<Frame>)
    requires 0 < |cfg.image| < TWO31 && AllFrames(Datas(j.writes))
    ensures AllFrames(Datas(OnFrames(cfg, j, frames).writes))
    decreases |frames|
  {
    hide OnFrame, AllFrames;
    if frames != [] {
      OnFrameWritesFrames(cfg, j, frames[0]);
      OnFramesWriteFrames(cfg, if j.listening then OnFrame(cfg, j, frames[0]) else j, frames[1..]);
    }
  }

  lemma StepWritesFrames(cfg: Config, j: Job, e: Event)
    requires 0 < |cfg.image| < TWO31 && AllFrames(Datas(j.writes))
    ensures AllFrames(Datas(Step(cfg, j, e).writes))
  {
    if e.Arrives? {
      hide AllFrames, OnFrames;
      var r := ParseFrames(j.buffer + e.chunk);
      OnFramesWriteFrames(cfg, j.(buffer := r.rest), r.items);
    } else {
      hide AllFrames;
      SameDatas(cfg, j, e);
    }
  }

  lemma SameDatas(cfg: Config, j: Job, e: Event)
    requires !e.Arrives?
    ensures Datas(Step(cfg, j, e).writes) == Datas(j.writes)
  {
  }

  lemma {:induction false} RunWritesFrames(cfg: Config, j: Job, events: seq<Event>)
    requires 0 < |cfg.image| < TWO31 && AllFrames(Datas(j.writes))
    ensures AllFrames(Datas(After(cfg, j, events).writes))
    decreases |events|
  {
    hide Step, AllFrames;
    if events != [] {
      StepWritesFrames(cfg, j, events[0]);
      RunWritesFrames(cfg, Step(cfg, j, events[0]), events[1..]);
    }
  }

  /** In every run each buffer a job writes is one whole frame, so a printer that
      parses their concatenation gets one frame for each write, in order, with
      nothing pending. */
  lemma PrinterGetsOneFramePerWrite(cfg: Config, buffer: bytes, events: seq<Event>)
    requires 0 < |cfg.image| < TWO31
    ensures var datas := Datas(After(cfg, Begin(buffer), events).writes);
            AllFrames(datas) && ParseFrames(Flatten(datas)) == Parsed(DecodedEach(datas), [])
  {
    assert AllFrames(Datas(Begin(buffer).writes)) by {
      WholeFrame(Frame(SESSION_START, 1, SESSION_PROTOCOL_REVISION, 0, []));
    }
    hide AllFrames, After, ParseFrames;
    RunWritesFrames(cfg, Begin(buffer), events);
    ParsesToEach(Datas(After(cfg, Begin(buffer), events).writes));
  }
}
