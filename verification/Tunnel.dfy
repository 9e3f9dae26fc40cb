/** The print stream through the ADB tunnel, end to end in both directions,
    whatever else the link carries. */
module Tunnel {
  import opened Bytes
  import opened Incremental
  import Frames
  import opened AdbMessages
  import opened AdbHosts
  import opened AdbLinks
  import opened AdbOrder
  import opened AdbPlaces
  import opened AdbDiscipline
  import opened AdbDriver
  import AdbWrites
  import AdbStreams
  import Session
  import Jobs
  import JobWrites
  import UsbReader
  import UsbScripts

  // ----- Ids on the wire -----------------------------------------------------------------

  /** Every write is to a stream whose id was issued, and so is every WRTE sent. */
  predicate IssuedInv(h: Host) {
    && (forall w :: 0 <= w < |h.writes| ==> AdbStreams.Issued(h, h.writes[w].stream.localId))
    && (forall i :: 0 <= i < |h.sent| && h.sent[i].command == WRTE ==> AdbStreams.Issued(h, h.sent[i].arg0))
  }

  lemma LoopHeadKeepsIssued(h: Host, w: nat)
    requires IssuedInv(h) && w < |h.writes|
    ensures IssuedInv(LoopHead(h, w))
  {
    var wr, k := h.writes[w], LoopHead(h, w);
    assert AdbStreams.Issued(h, wr.stream.localId);
  }

  lemma HeadKeepsIssued(h: Host, i: Input)
    requires IssuedInv(h) && AdbStreams.TableInv(h) && (Begins(h, i) || Advances(h, i))
    ensures IssuedInv(HeadState(h, i))
  {
    if i.Landed? {
      assert AdbStreams.Issued(h, h.writes[HeadWrite(h, i)].stream.localId);
    }
  }

  lemma PlainKeepsIssued(h: Host, k: Host)
    requires IssuedInv(h) && Plain(h, k) && h.nextLocalId <= k.nextLocalId
    ensures IssuedInv(k)
  {
    hide AdbWrites.Waits;
  }

  lemma StepKeepsIssued(h: Host, i: Input)
    requires IssuedInv(h) && AdbStreams.Kept(h, 1)
    ensures IssuedInv(Step(h, i))
  {
    hide IssuedInv, Plain, Step, LoopHead, HeadState, HeadWrite, AdbStreams.AckLaw, AdbStreams.LifeInv;
    AdbStreams.StepKeeps(h, i, 1);
    if Begins(h, i) || Advances(h, i) {
      StepIsHead(h, i);
      HeadKeepsIssued(h, i);
      LoopHeadKeepsIssued(HeadState(h, i), HeadWrite(h, i));
    } else {
      OtherStepsArePlain(h, i);
      PlainKeepsIssued(h, Step(h, i));
    }
  }

  lemma {:induction false} RunKeepsIssued(h: Host, inputs: seq<Input>)
    requires IssuedInv(h) && AdbStreams.Kept(h, 1)
    ensures IssuedInv(After(h, inputs))
    decreases |inputs|
  {
    hide IssuedInv, Step, AdbStreams.Kept, AdbStreams.Later;
    if inputs != [] {
      StepKeepsIssued(h, inputs[0]);
      AdbStreams.StepKeeps(h, inputs[0], 1);
      RunKeepsIssued(Step(h, inputs[0]), inputs[1..]);
    }
  }

  predicate WordWrites(ms: seq<AdbMessage>) {
    forall i :: 0 <= i < |ms| ==> IsWord(ms[i].command) && (ms[i].command == WRTE ==> IsWord(ms[i].arg0))
  }

  lemma {:induction false} WireKeepsBodies(ms: seq<AdbMessage>, id: int)
    requires WordWrites(ms)
    ensures BodiesFrom(WiredAll(ms), id) == BodiesFrom(ms, id)
  {
    if ms != [] {
      var front := ms[..|ms| - 1];
      assert WordWrites(front);
      WireKeepsBodies(front, id);
      assert WiredAll(ms)[..|ms| - 1] == WiredAll(front);
    }
  }

  lemma WordsOnTheWire(h: Host)
    requires SentFits(h.sent) && IssuedInv(h) && h.nextLocalId <= TWO32
    ensures WordWrites(h.sent)
  {
  }

  lemma RunIsWordly(limit: nat, inputs: seq<Input>)
    requires IsWord(limit) && AllPlausible(inputs) && After(NewHost(limit), inputs).nextLocalId <= TWO32
    ensures SentFits(After(NewHost(limit), inputs).sent) && WordWrites(After(NewHost(limit), inputs).sent)
  {
    hide After, IssuedInv, SentFits, AllPlausible, AdbStreams.Kept, WordWrites;
    AdbStreams.NewHostKept(limit, 1);
    NewHostEncodable(limit);
    AlwaysEncodable(NewHost(limit), inputs);
    assert IssuedInv(NewHost(limit)) by { NewHostIssued(limit); }
    RunKeepsIssued(NewHost(limit), inputs);
    WordsOnTheWire(After(NewHost(limit), inputs));
  }

  lemma NewHostIssued(limit: nat)
    ensures IssuedInv(NewHost(limit))
  {
  }

  // ----- Host to printer -------------------------------------------------------------

  /** What the far end, fed the link output in these chunks, passes to the frame
      decoder of stream `id`. */
  function FarEnd(chunks: seq<bytes>, id: int): seq<bytes> {
    BodiesFrom(Feed(DecodeAdb, [], chunks).items, id)
  }

  /** Nothing is sent while a payload is due and none is due at the end; and the writes to
      the stream are over, each begun when those before it needed no further slice, each
      under a limit that held. These are the exact conditions of `WholeIffPatient` and
      `InOrderIffTurns`. */
  ghost predicate Orderly(limit: nat, inputs: seq<Input>, id: int) {
    var h := After(NewHost(limit), inputs);
    && Patient(NewHost(limit), inputs) && (forall k: nat :: !BodyDue(h, k))
    && AllOver(h, id) && TakesTurns(NewHost(limit), inputs, id) && LimitsHeld(h, id)
  }

  /** A caller that awaits its writes has an orderly run, if no limit moves meanwhile. */
  lemma CarefulIsOrderly(limit: nat, inputs: seq<Input>, id: int)
    requires limit > 0 && Careful(NewHost(limit), inputs, id)
    requires var h := After(NewHost(limit), inputs); AllOver(h, id) && forall k: nat :: !BodyDue(h, k)
    ensures Orderly(limit, inputs, id)
  {
    hide After, Patient, BodyDue, AllOver, TakesTurns, LimitsHeld, Awaits, LimitSteady, Carried, AdbPlaces.Due;
    AwaitingCarriesInOrder(limit, inputs, id);
  }

  /** A stream's bytes cross the link whatever shares it. Over every orderly run of a
      host, other streams opening, writing and closing, messages arriving and link
      writes completing at any point, the far end that decodes the link output in any
      chunks and feeds the bodies of the WRTEs from stream `id` to a frame decoder
      parses exactly the payloads written to that stream, in the order the writes began. */
  lemma StreamCrossesTheTunnel(limit: nat, inputs: seq<Input>, id: int, chunks: seq<bytes>)
    requires IsWord(limit) && limit > 0 && AllPlausible(inputs) && Orderly(limit, inputs, id)
    requires After(NewHost(limit), inputs).nextLocalId <= TWO32
    requires Flatten(chunks) == LinkBytes(After(NewHost(limit), inputs))
    ensures var h := After(NewHost(limit), inputs);
            && Feed(DecodeAdb, [], chunks).rest == []
            && Feed(Frames.DecodeFrame, [], FarEnd(chunks, id))
               == Frames.ParseFrames(Flatten(PayloadsTo(h.writes, id, |h.writes|)))
  {
    hide After, DecodeAdb, InOrder, Patient, LinkBytes, SentFits, BodyDue, BodiesFrom, Frames.DecodeFrame, Frames.ParseFrames,
         PayloadsTo, AllOver, Serial, TakesTurns, LimitsHeld, Flatten, WordWrites, AllPlausible;
    var h := After(NewHost(limit), inputs);
    WholeIffPatient(limit, inputs);
    RunIsWordly(limit, inputs);
    WholeLinkDecodes(h, chunks);
    WireKeepsBodies(h.sent, id);
    SerialIffTurns(limit, inputs, id);
    SerialCarriesPayloads(limit, inputs, id);
    BodiesReachFrameDecoder(BodiesFrom(h.sent, id));
  }

  /** A frame decoder fed message bodies parses their concatenation. */
  lemma BodiesReachFrameDecoder(bodies: seq<bytes>)
    ensures Feed(Frames.DecodeFrame, [], bodies) == Frames.ParseFrames(Flatten(bodies))
  {
    assert Frames.DecodeFrame([]).Incomplete?;
    hide Frames.DecodeFrame, Frames.ParseFrames;
    assert [] + Flatten(bodies) == Flatten(bodies);
    Frames.DecoderRefinesParsing([], bodies);
  }

  lemma {:induction false} FramesParse(frames: seq<Frames.Frame>)
    requires forall f :: f in frames ==> |f.payload| < TWO31
    ensures Frames.ParseFrames(Frames.FramesBytes(frames)) == Parsed(frames, [])
  {
    if frames == [] {
      RestIncomplete(Frames.DecodeFrame, []);
    } else {
      hide Frames.FrameBytes, Frames.ParseFrames;
      FramesParse(frames[1..]);
      Frames.ParseFrameBytes(frames[0], Frames.FramesBytes(frames[1..]));
      assert [frames[0]] + frames[1..] == frames;
    }
  }

  /** So frames written to the print stream come out at the printer as they went
      in, in order, with nothing pending in either decoder. */
  lemma FramesCrossTheTunnel(limit: nat, inputs: seq<Input>, id: int, frames: seq<Frames.Frame>, chunks: seq<bytes>)
    requires IsWord(limit) && limit > 0 && AllPlausible(inputs) && Orderly(limit, inputs, id)
    requires After(NewHost(limit), inputs).nextLocalId <= TWO32
    requires var h := After(NewHost(limit), inputs);
             Flatten(PayloadsTo(h.writes, id, |h.writes|)) == Frames.FramesBytes(frames)
    requires forall f :: f in frames ==> |f.payload| < TWO31
    requires Flatten(chunks) == LinkBytes(After(NewHost(limit), inputs))
    ensures Feed(DecodeAdb, [], chunks).rest == []
    ensures Feed(Frames.DecodeFrame, [], FarEnd(chunks, id)) == Parsed(frames, [])
  {
    hide After, DecodeAdb, LinkBytes, FarEnd, Orderly, PayloadsTo, Frames.DecodeFrame, Frames.ParseFrames, Flatten, Frames.FramesBytes;
    StreamCrossesTheTunnel(limit, inputs, id, chunks);
    FramesParse(frames);
  }

  /** A whole print job through the tunnel: if what the owner writes to the stream
      is what a job writes, over whatever events the job saw, and the run is orderly,
      the printer decodes one frame for each buffer of the job, in order. A job does
      not itself keep its writes apart: see `Overlaps.OneChunkTwoWrites`. */
  lemma JobCrossesTheTunnel(
    cfg: Session.Config, buffer: bytes, events: seq<Jobs.Event>, limit: nat, inputs: seq<Input>, id: int, chunks: seq<bytes>)
    requires 0 < |cfg.image| < TWO31
    requires IsWord(limit) && limit > 0 && AllPlausible(inputs) && Orderly(limit, inputs, id)
    requires After(NewHost(limit), inputs).nextLocalId <= TWO32
    requires var h := After(NewHost(limit), inputs);
             PayloadsTo(h.writes, id, |h.writes|) == Jobs.Datas(Jobs.After(cfg, Jobs.Begin(buffer), events).writes)
    requires Flatten(chunks) == LinkBytes(After(NewHost(limit), inputs))
    ensures var datas := Jobs.Datas(Jobs.After(cfg, Jobs.Begin(buffer), events).writes);
            && Feed(DecodeAdb, [], chunks).rest == [] && JobWrites.AllFrames(datas)
            && Feed(Frames.DecodeFrame, [], FarEnd(chunks, id)) == Parsed(JobWrites.DecodedEach(datas), [])
  {
    hide After, Jobs.After, DecodeAdb, LinkBytes, FarEnd, Orderly, PayloadsTo, JobWrites.AllFrames;
    hide Frames.DecodeFrame, Frames.ParseFrames, Flatten;
    StreamCrossesTheTunnel(limit, inputs, id, chunks);
    JobWrites.PrinterGetsOneFramePerWrite(cfg, buffer, events);
  }

  /** And every job can cross so: whatever events it saw, there is an orderly run that
      writes its buffers, after which the printer decodes one frame for each, whatever
      the chunks. */
  lemma JobCanCross(cfg: Session.Config, buffer: bytes, events: seq<Jobs.Event>, limit: nat, name: bytes)
    returns (inputs: seq<Input>)
    requires 0 < |cfg.image| < TWO31 && IsWord(limit) && limit > 0
    ensures AllPlausible(inputs) && Orderly(limit, inputs, 1)
    ensures var h := After(NewHost(limit), inputs);
            var datas := Jobs.Datas(Jobs.After(cfg, Jobs.Begin(buffer), events).writes);
            && PayloadsTo(h.writes, 1, |h.writes|) == datas && JobWrites.AllFrames(datas)
            && forall chunks: seq<bytes> | Flatten(chunks) == LinkBytes(h) ::
                 && Feed(DecodeAdb, [], chunks).rest == []
                 && Feed(Frames.DecodeFrame, [], FarEnd(chunks, 1)) == Parsed(JobWrites.DecodedEach(datas), [])
  {
    hide After, Jobs.After, DecodeAdb, LinkBytes, FarEnd, Orderly, Careful, PayloadsTo, JobWrites.AllFrames, BodyDue, AllOver;
    hide Frames.DecodeFrame, Frames.ParseFrames, Flatten, JobWrites.DecodedEach, Jobs.Datas;
    var datas := Jobs.Datas(Jobs.After(cfg, Jobs.Begin(buffer), events).writes);
    inputs := SomeRunIsCareful(limit, name, datas);
    CarefulIsOrderly(limit, inputs, 1);
    JobWrites.PrinterGetsOneFramePerWrite(cfg, buffer, events);
    forall chunks: seq<bytes> | Flatten(chunks) == LinkBytes(After(NewHost(limit), inputs))
      ensures Feed(DecodeAdb, [], chunks).rest == []
      ensures Feed(Frames.DecodeFrame, [], FarEnd(chunks, 1)) == Parsed(JobWrites.DecodedEach(datas), [])
    {
      JobCrossesTheTunnel(cfg, buffer, events, limit, inputs, 1, chunks);
    }
  }

  // ----- Printer to host -------------------------------------------------------------

  /** The payloads of the WRTEs among `ms` addressed to stream `id`, in order, up to
      the message that closes it. */
  function BodiesTo(ms: seq<AdbMessage>, id: int): seq<bytes>
    decreases |ms|
  {
    if ms == [] || (ms[0].command == CLSE && ms[0].arg1 == id) then []
    else (if ms[0].command == WRTE && ms[0].arg1 == id then [ms[0].payload] else []) + BodiesTo(ms[1..], id)
  }

  /** The payloads of the `data` events for stream `id`, in order. */
  function DataFor(events: seq<HostEvent>, id: int): seq<bytes> {
    if events == [] then []
    else
      var e := events[|events| - 1];
      DataFor(events[..|events| - 1], id) + (if e.DataIn? && e.stream.localId == id then [e.data] else [])
  }

  lemma DataForSnoc(events: seq<HostEvent>, e: HostEvent, id: int)
    ensures DataFor(events + [e], id)
         == DataFor(events, id) + (if e.DataIn? && e.stream.localId == id then [e.data] else [])
  {
    assert (events + [e])[..|events|] == events;
  }

  /** What one message adds: its body, if it is a WRTE to the stream and that is in the table. */
  lemma MessageToData(h: Host, m: AdbMessage, id: int)
    requires AdbStreams.TableInv(h) && AdbStreams.Issued(h, id)
    ensures AdbStreams.TableInv(OnMessage(h, m)) && AdbStreams.Issued(OnMessage(h, m), id)
    ensures id in OnMessage(h, m).streams <==> id in h.streams && !(m.command == CLSE && m.arg1 == id)
    ensures DataFor(OnMessage(h, m).events, id)
         == DataFor(h.events, id) + (if m.command == WRTE && m.arg1 == id && id in h.streams then [m.payload] else [])
  {
    hide DataFor;
    var named := if m.arg1 in h.streams then h.streams[m.arg1] else Stream(0, 0, [], false);
    if m.command == CNXN {
      DataForSnoc(h.events, Connected(m.payload), id);
    } else if m.command == AUTH {
      DataForSnoc(h.events, AuthRequired, id);
    } else if m.command == OKAY {
      DataForSnoc(h.events, StreamUp(named.(remoteId := m.arg0, open := true)), id);
    } else if m.command == WRTE {
      DataForSnoc(h.events, DataIn(named, m.payload), id);
    } else if m.command == CLSE {
      DataForSnoc(h.events, StreamDown(named), id);
    }
  }

  /** The messages that arrive in a run, in order. */
  function InboundOf(inputs: seq<Input>): seq<AdbMessage>
    decreases |inputs|
  {
    if inputs == [] then [] else (if inputs[0].Inbound? then [inputs[0].message] else []) + InboundOf(inputs[1..])
  }

  /** No call of `close` under way has the stream on its list. */
  predicate Unlisted(h: Host, id: int) {
    forall k :: k in h.flights && h.flights[k].follow.NextClose? ==> id !in h.flights[k].follow.ids
  }

  /** The owner closes neither the stream nor everything. */
  predicate LeftOpen(h: Host, inputs: seq<Input>, id: int) {
    Unlisted(h, id) && forall i :: 0 <= i < |inputs| ==> inputs[i] != Close && inputs[i] != CloseStream(id)
  }

  lemma MessageKeepsUnlisted(h: Host, m: AdbMessage, id: int)
    requires Unlisted(h, id)
    ensures Unlisted(OnMessage(h, m), id)
  {
  }

  lemma {:induction false} CloseNextToData(h: Host, c: nat, ids: seq<int>, id: int)
    requires c < |h.closes|
    ensures var k := CloseNext(h, c, ids);
            && k.events == h.events && (id in k.streams ==> id in h.streams)
            && (id !in ids && Unlisted(h, id) ==> Unlisted(k, id) && (id in h.streams ==> id in k.streams))
    decreases |ids|
  {
    if ids != [] && ids[0] !in h.streams {
      CloseNextToData(h, c, ids[1..], id);
    }
  }

  /** Neither a call nor a landing makes `data` events; and unless it closes the stream, it stays. */
  predicate NoData(h: Host, k: Host, id: int, spared: bool) {
    && DataFor(k.events, id) == DataFor(h.events, id) && (id in k.streams ==> id in h.streams)
    && (spared && Unlisted(h, id) ==> Unlisted(k, id) && (id in h.streams ==> id in k.streams))
  }

  lemma LandingToData(h: Host, n: nat, id: int)
    ensures NoData(h, OnLanded(h, n), id, true)
  {
    hide DataFor, CloseNext;
    if n in h.flights && h.flights[n].body == [] {
      var j := h.(flights := h.flights - {n});
      match h.flights[n].follow
      case Nothing =>
      case Announce(s) => DataForSnoc(h.events, StreamUp(s), id);
      case NextSlice(w) =>
      case NextClose(c, ids) => if c < |h.closes| { CloseNextToData(j, c, ids, id); }
    }
  }

  lemma CallToData(h: Host, i: Input, id: int)
    requires AdbStreams.Issued(h, id) && !i.Inbound? && !i.Landed?
    ensures NoData(h, Step(h, i), id, i != Close && i != CloseStream(id))
  {
    hide DataFor, CloseNext, Ids;
    if i == Close {
      CloseNextToData(h.(closes := h.closes + [false]), |h.closes|, Ids(h.streams, h.nextLocalId), id);
    }
  }

  /** Over a run in which calls and landings come between the messages in any way, the
      `data` events of a stream in the table carry the bodies sent to it, in order;
      all of them, up to the message that closes it, if the owner does not close it. */
  lemma {:induction false} RunToData(h: Host, inputs: seq<Input>, id: int)
    requires AdbStreams.Kept(h, id) && AdbStreams.Issued(h, id)
    ensures var got := DataFor(After(h, inputs).events, id);
            var all := DataFor(h.events, id) + (if id in h.streams then BodiesTo(InboundOf(inputs), id) else []);
            DataFor(h.events, id) <= got <= all && (LeftOpen(h, inputs, id) ==> got == all)
    decreases |inputs|
  {
    hide Step, OnMessage, DataFor, AdbStreams.AckLaw, AdbStreams.LifeInv, AdbStreams.Silence, BodiesTo, Unlisted, AdbStreams.UpsOf;
    if inputs == [] {
      BodiesToTurn([], id);
    } else {
      var i, later := inputs[0], inputs[1..];
      var j := Step(h, i);
      AdbStreams.StepKeeps(h, i, id);
      RunToData(j, later, id);
      assert LeftOpen(h, inputs, id) ==> i != Close && i != CloseStream(id) && (Unlisted(j, id) ==> LeftOpen(j, later, id));
      if i.Inbound? {
        assert InboundOf(inputs) == [i.message] + InboundOf(later);
        InboundToData(h, i.message, InboundOf(later), id);
      } else {
        assert InboundOf(inputs) == InboundOf(later);
        OwnToData(h, i, id);
      }
    }
  }

  lemma OwnToData(h: Host, i: Input, id: int)
    requires AdbStreams.Issued(h, id) && !i.Inbound?
    ensures NoData(h, Step(h, i), id, i != Close && i != CloseStream(id))
  {
    hide NoData, OnLanded;
    if i.Landed? {
      LandingToData(h, i.k, id);
    } else {
      CallToData(h, i, id);
    }
  }

  lemma InboundToData(h: Host, m: AdbMessage, later: seq<AdbMessage>, id: int)
    requires AdbStreams.TableInv(h) && AdbStreams.Issued(h, id)
    ensures var j := Step(h, Inbound(m));
            && (Unlisted(h, id) ==> Unlisted(j, id))
            && DataFor(h.events, id) <= DataFor(j.events, id)
            && DataFor(j.events, id) + (if id in j.streams then BodiesTo(later, id) else [])
               == DataFor(h.events, id) + (if id in h.streams then BodiesTo([m] + later, id) else [])
  {
    hide OnMessage, DataFor, BodiesTo, Unlisted;
    MessageToData(h, m, id);
    if Unlisted(h, id) { MessageKeepsUnlisted(h, m, id); }
    var ms := [m] + later;
    assert ms[1..] == later;
    BodiesToTurn(ms, id);
    var before, rest := DataFor(h.events, id), BodiesTo(later, id);
    assert before + ([m.payload] + rest) == before + [m.payload] + rest;
  }

  lemma BodiesToTurn(ms: seq<AdbMessage>, id: int)
    ensures ms == [] ==> BodiesTo(ms, id) == []
    ensures ms != [] && ms[0].command == CLSE && ms[0].arg1 == id ==> BodiesTo(ms, id) == []
    ensures ms != [] && !(ms[0].command == CLSE && ms[0].arg1 == id) ==>
      BodiesTo(ms, id) == (if ms[0].command == WRTE && ms[0].arg1 == id then [ms[0].payload] else []) + BodiesTo(ms[1..], id)
  {
  }

  /** Bytes the printer sends on a stream reach the frame decoder intact. For every
      script of harmless transfers (short and empty reads, idle reports and stalls that
      are cleared within the budget among them) with no stall in the middle of a message
      and none under way at the end, and every run of the host in which the messages that
      arrive are those its link decoder returns for the delivered chunks: the `data`
      events of a stream in the table carry the bodies sent to it in order, never more
      than those up to the printer's CLSE, and all of those if the owner does not close
      it. A frame decoder fed them parses their concatenation. Other streams, calls and
      landings may come in between. */
  lemma StreamCrossesBack(
    stalls: int, ts: seq<UsbReader.Transfer>, limit: nat, before: seq<Input>, inputs: seq<Input>, id: int)
    requires UsbScripts.AllHarmless(stalls, ts) && UsbScripts.NoStallMidMessage(ts) && UsbScripts.Begun(ts) == []
    requires InboundOf(inputs) == Feed(DecodeAdb, [], UsbReader.After(stalls, UsbReader.START, ts).delivered).items
    requires id in After(NewHost(limit), before).streams
    ensures var h := After(NewHost(limit), before);
            var bodies := BodiesTo(ParseAdb(UsbScripts.Given(ts)).items, id);
            var got := DataFor(After(h, inputs).events, id);
            && DataFor(h.events, id) <= got <= DataFor(h.events, id) + bodies
            && (LeftOpen(h, inputs, id) ==> got == DataFor(h.events, id) + bodies)
            && Feed(Frames.DecodeFrame, [], bodies) == Frames.ParseFrames(Flatten(bodies))
  {
    hide UsbReader.After, UsbScripts.AllHarmless, UsbScripts.NoStallMidMessage, UsbScripts.Begun, UsbScripts.Given, DecodeAdb,
         Frames.DecodeFrame, Frames.ParseFrames, BodiesTo, DataFor, After, LeftOpen, AdbStreams.AckLaw, AdbStreams.LifeInv,
         AdbStreams.Later;
    UsbScripts.ScriptReachesTheDecoder(stalls, ts);
    AdbStreams.NewHostKept(limit, 1);
    AdbStreams.RunKeeps(NewHost(limit), before, 1);
    var h := After(NewHost(limit), before);
    assert AdbStreams.Issued(h, id);
    AdbStreams.NewHostKept(limit, id);
    AdbStreams.RunKeeps(NewHost(limit), before, id);
    RunToData(h, inputs, id);
    BodiesReachFrameDecoder(BodiesTo(InboundOf(inputs), id));
  }
}
