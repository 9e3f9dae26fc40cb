/** What a host does besides carrying streams: the state of its connection, the events
    about it, and its own CNXNs and OPENs, each told from the inputs of a run alone. */
module AdbControls {
  import opened Bytes
  import opened AdbMessages
  import opened AdbHosts
  import opened AdbStreams
  import opened AdbClosing
  import opened AdbRecords

  // ----- From the inputs ------------------------------------------------------------------------

  /** The payload limit: that of the last CNXN with a positive one. */
  function LimitAfter(limit: nat, inputs: seq<Input>): nat {
    if inputs == [] then limit
    else
      var i := inputs[|inputs| - 1];
      if i.Inbound? && i.message.command == CNXN && i.message.arg1 > 0 then i.message.arg1
      else LimitAfter(limit, inputs[..|inputs| - 1])
  }

  /** The payload of the last CNXN. */
  function LastBanner(inputs: seq<Input>): Option<bytes> {
    if inputs == [] then None
    else
      var i := inputs[|inputs| - 1];
      if i.Inbound? && i.message.command == CNXN then Some(i.message.payload) else LastBanner(inputs[..|inputs| - 1])
  }

  /** A `connect` event for each CNXN, with its banner, and an `auth` event for each AUTH. */
  function ControlEvents(inputs: seq<Input>): seq<HostEvent> {
    if inputs == [] then []
    else
      var i := inputs[|inputs| - 1];
      ControlEvents(inputs[..|inputs| - 1])
      + (if i.Inbound? && i.message.command == CNXN then [Connected(i.message.payload)]
         else if i.Inbound? && i.message.command == AUTH then [AuthRequired]
         else [])
  }

  /** A CNXN for each call of `connect`: version 1.0, a limit of 4096, and the name given;
      an OPEN for each call of `open`: the next id, and the destination ended by a NUL. */
  function Requested(inputs: seq<Input>): seq<AdbMessage> {
    if inputs == [] then []
    else
      var front, i := inputs[..|inputs| - 1], inputs[|inputs| - 1];
      Requested(front)
      + (match i
         case Connect(name) => [AdbMessage(0x4e58_4e43, 0x0100_0000, 4096, name)]
         case Open(destination) => [AdbMessage(0x4e45_504f, 1 + Opens(front), 0, destination + [0])]
         case _ => [])
  }

  // ----- Of the host ------------------------------------------------------------------------------

  function ControlsIn(events: seq<HostEvent>): seq<HostEvent> {
    if events == [] then []
    else
      var e := events[|events| - 1];
      ControlsIn(events[..|events| - 1]) + (if e.Connected? || e.AuthRequired? then [e] else [])
  }

  function RequestsIn(sent: seq<AdbMessage>): seq<AdbMessage> {
    if sent == [] then []
    else
      var m := sent[|sent| - 1];
      RequestsIn(sent[..|sent| - 1]) + (if m.command == CNXN || m.command == OPEN then [m] else [])
  }

  lemma ControlsSnoc(events: seq<HostEvent>, e: HostEvent)
    ensures ControlsIn(events + [e]) == ControlsIn(events) + (if e.Connected? || e.AuthRequired? then [e] else [])
  {
    assert (events + [e])[..|events|] == events;
  }

  lemma RequestsSnoc(sent: seq<AdbMessage>, m: AdbMessage)
    ensures RequestsIn(sent + [m]) == RequestsIn(sent) + (if m.command == CNXN || m.command == OPEN then [m] else [])
  {
    assert (sent + [m])[..|sent|] == sent;
  }

  /** Nothing of the connection moved. */
  predicate Untouched(h: Host, k: Host) {
    && k.maxPayload == h.maxPayload && k.connected == h.connected && k.banner == h.banner
    && ControlsIn(k.events) == ControlsIn(h.events) && RequestsIn(k.sent) == RequestsIn(h.sent)
  }

  lemma SendUntouched(h: Host, j: Host, m: AdbMessage, follow: Follow)
    requires Untouched(h, j) && m.command in {WRTE, OKAY, CLSE}
    ensures Untouched(h, Send(j, m, follow))
  {
    hide ControlsIn, RequestsIn;
    RequestsSnoc(j.sent, m);
  }

  lemma EmitUntouched(h: Host, j: Host, e: HostEvent)
    requires Untouched(h, j) && (e.StreamUp? || e.DataIn? || e.StreamDown?)
    ensures Untouched(h, Emitted(j, e))
  {
    hide ControlsIn, RequestsIn;
    ControlsSnoc(j.events, e);
  }

  lemma LoopHeadUntouched(h: Host, j: Host, w: nat)
    requires Untouched(h, j) && w < |j.writes|
    ensures Untouched(h, LoopHead(j, w))
  {
    hide ControlsIn, RequestsIn;
    var wr := j.writes[w];
    if wr.offset < |wr.payload| {
      var end := Min(wr.offset + j.maxPayload, |wr.payload|);
      var m := AdbMessage(WRTE, wr.stream.localId, wr.stream.remoteId, wr.payload[wr.offset..end]);
      SendUntouched(h, j.(slices := j.slices + [Slice(w, wr.offset, end)]), m, NextSlice(w));
    }
  }

  lemma CloseStreamUntouched(h: Host, j: Host, id: int, follow: Follow)
    requires Untouched(h, j)
    ensures Untouched(h, OnCloseStream(j, id, follow))
  {
    hide ControlsIn, RequestsIn;
    if id in j.streams {
      var s := j.streams[id];
      SendUntouched(h, j.(streams := j.streams - {id}), AdbMessage(CLSE, s.localId, s.remoteId, []), follow);
    }
  }

  lemma {:induction false} CloseNextUntouched(h: Host, j: Host, c: nat, ids: seq<int>)
    requires Untouched(h, j) && c < |j.closes|
    ensures Untouched(h, CloseNext(j, c, ids))
    decreases |ids|
  {
    hide ControlsIn, RequestsIn;
    if ids != [] {
      if ids[0] in j.streams {
        CloseStreamUntouched(h, j, ids[0], NextClose(c, ids[1..]));
      } else {
        CloseNextUntouched(h, j, c, ids[1..]);
      }
    }
  }

  lemma LandedUntouched(h: Host, n: nat)
    ensures Untouched(h, OnLanded(h, n))
  {
    hide ControlsIn, RequestsIn, LoopHead, CloseNext;
    if n in h.flights && h.flights[n].body == [] {
      var j := h.(flights := h.flights - {n});
      match h.flights[n].follow
      case Nothing =>
      case Announce(s) => EmitUntouched(h, j, StreamUp(s));
      case NextSlice(w) =>
        if w < |h.writes| {
          var wr := j.writes[w];
          var next := wr.(offset := wr.offset + j.maxPayload, limits := wr.limits + [j.maxPayload]);
          LoopHeadUntouched(h, j.(writes := j.writes[w := next]), w);
        }
      case NextClose(c, ids) => if c < |h.closes| { CloseNextUntouched(h, j, c, ids); }
    }
  }

  lemma StreamMessageUntouched(h: Host, m: AdbMessage)
    requires m.command != CNXN && m.command != AUTH
    ensures Untouched(h, OnMessage(h, m))
  {
    hide ControlsIn, RequestsIn;
    if m.command == OPEN {
      var id := h.nextLocalId;
      var s := Stream(id, m.arg0, m.payload, true);
      SendUntouched(h, h.(nextLocalId := id + 1, streams := h.streams[id := s]), AdbMessage(OKAY, id, m.arg0, []), Announce(s));
    } else if m.arg1 in h.streams {
      var s := h.streams[m.arg1];
      if m.command == OKAY {
        var up := s.(remoteId := m.arg0, open := true);
        EmitUntouched(h, h.(streams := h.streams[m.arg1 := up]), StreamUp(up));
      } else if m.command == WRTE {
        EmitUntouched(h, h, DataIn(s, m.payload));
        SendUntouched(h, Emitted(h, DataIn(s, m.payload)), AdbMessage(OKAY, s.localId, s.remoteId, []), Nothing);
      } else if m.command == CLSE {
        EmitUntouched(h, h.(streams := h.streams - {s.localId}), StreamDown(s));
      }
    }
  }

  predicate Controls(i: Input) {
    i.Connect? || i.Open? || (i.Inbound? && (i.message.command == CNXN || i.message.command == AUTH))
  }

  lemma OthersUntouched(h: Host, i: Input)
    requires !Controls(i)
    ensures Untouched(h, Step(h, i))
  {
    hide ControlsIn, RequestsIn, LoopHead, CloseNext, OnMessage, OnLanded, Ids;
    match i
    case Inbound(m) => StreamMessageUntouched(h, m);
    case Landed(n) => LandedUntouched(h, n);
    case Write(id, payload) =>
      if id in h.streams && h.streams[id].open {
        LoopHeadUntouched(h, h.(writes := h.writes + [Writing(h.streams[id], payload, 0, [h.maxPayload])]), |h.writes|);
      }
    case CloseStream(id) => CloseStreamUntouched(h, h, id, Nothing);
    case Close => CloseNextUntouched(h, h.(closes := h.closes + [false]), |h.closes|, Ids(h.streams, h.nextLocalId));
  }

  /** The connection as the inputs make it. */
  predicate AsControlled(limit: nat, h: Host, inputs: seq<Input>) {
    && h.maxPayload == LimitAfter(limit, inputs)
    && (h.connected <==> LastBanner(inputs).Some?)
    && h.banner == (if LastBanner(inputs).Some? then LastBanner(inputs).value else [])
    && ControlsIn(h.events) == ControlEvents(inputs)
    && RequestsIn(h.sent) == Requested(inputs)
  }

  lemma StepControls(limit: nat, h: Host, inputs: seq<Input>, i: Input)
    requires AsControlled(limit, h, inputs) && h.nextLocalId == 1 + Opens(inputs)
    ensures AsControlled(limit, Step(h, i), inputs + [i])
  {
    hide ControlsIn, RequestsIn, Opens;
    assert (inputs + [i])[..|inputs|] == inputs;
    match i
    case Connect(name) => RequestsSnoc(h.sent, AdbMessage(CNXN, ADB_VERSION, ADB_LEGACY_MAX_PAYLOAD, name));
    case Open(destination) => RequestsSnoc(h.sent, AdbMessage(OPEN, h.nextLocalId, 0, destination + [0]));
    case Inbound(m) =>
      if Controls(i) {
        ControlsSnoc(h.events, if m.command == CNXN then Connected(m.payload) else AuthRequired);
      } else {
        OthersUntouched(h, i);
        hide Step;
      }
    case _ =>
      OthersUntouched(h, i);
      hide Step;
  }

  /** Over every run: the payload limit is that of the last CNXN with a positive one; the
      host is connected once one has come, under the last banner; its `connect` and `auth`
      events are one for each CNXN and AUTH; and the CNXNs and OPENs it sends are one for
      each call, in order, as `Requested` spells them. */
  lemma {:induction false} ConnectionFollowsTheInputs(limit: nat, inputs: seq<Input>)
    ensures AsControlled(limit, After(NewHost(limit), inputs), inputs)
  {
    hide AsControlled, Step;
    if inputs == [] {
      assert AsControlled(limit, NewHost(limit), []) by { StartControlled(limit); }
      assert After(NewHost(limit), []) == NewHost(limit);
    } else {
      var front, i := inputs[..|inputs| - 1], inputs[|inputs| - 1];
      assert inputs == front + [i];
      ConnectionFollowsTheInputs(limit, front);
      AfterSnoc(NewHost(limit), front, i);
      RunIssues(NewHost(limit), front);
      StepControls(limit, After(NewHost(limit), front), front, i);
    }
  }

  lemma StartControlled(limit: nat)
    ensures AsControlled(limit, NewHost(limit), [])
  {
  }

  // ----- Who ends a stream -----------------------------------------------------------------------

  /** The device's CLSE for the stream. */
  predicate ClseFor(i: Input, id: int) {
    i.Inbound? && i.message.command == CLSE && i.message.arg1 == id
  }

  lemma MessageEnds(h: Host, m: AdbMessage, id: int)
    requires TableInv(h) && Issued(h, id)
    ensures DownsOf(OnMessage(h, m).events, id)
         == DownsOf(h.events, id) + (if ClseFor(Inbound(m), id) && id in h.streams then 1 else 0)
  {
    hide UpsOf, DownsOf, EventsOf, DataCount;
    EventSnoc(h.events, Connected(m.payload), id);
    EventSnoc(h.events, AuthRequired, id);
    if m.arg1 in h.streams {
      var s := h.streams[m.arg1];
      EventSnoc(h.events, StreamUp(s.(remoteId := m.arg0, open := true)), id);
      EventSnoc(h.events, DataIn(s, m.payload), id);
      EventSnoc(h.events, StreamDown(s), id);
    }
  }

  lemma {:induction false} CloseNextEmitsNothing(h: Host, c: nat, ids: seq<int>)
    requires c < |h.closes|
    ensures CloseNext(h, c, ids).events == h.events
    decreases |ids|
  {
    if ids != [] && ids[0] !in h.streams {
      CloseNextEmitsNothing(h, c, ids[1..]);
    }
  }

  lemma OwnStepEnds(h: Host, i: Input, id: int)
    requires !i.Inbound?
    ensures DownsOf(Step(h, i).events, id) == DownsOf(h.events, id)
  {
    hide UpsOf, DownsOf, EventsOf, DataCount, CloseNext, Ids;
    match i
    case Landed(n) =>
      if n in h.flights && h.flights[n].body == [] {
        var j := h.(flights := h.flights - {n});
        var f := h.flights[n].follow;
        if f.Announce? { EventSnoc(h.events, StreamUp(f.stream), id); }
        if f.NextClose? && f.close < |h.closes| { CloseNextEmitsNothing(j, f.close, f.ids); }
      }
    case Close => CloseNextEmitsNothing(h.(closes := h.closes + [false]), |h.closes|, Ids(h.streams, h.nextLocalId));
    case _ =>
  }

  /** Over every run a step ends a stream by a `streamClose` event if and only if it is
      the device's CLSE for it and the stream is in the table; if it leaves the table in
      any other way, by a CLSE sent. */
  lemma WhoEndsAStream(limit: nat, inputs: seq<Input>, i: Input, id: int)
    requires id in After(NewHost(limit), inputs).streams
    ensures var h, k := After(NewHost(limit), inputs), After(NewHost(limit), inputs + [i]);
            && DownsOf(h.events, id) == 0 && ClosesOf(h.sent, id) == 0
            && (DownsOf(k.events, id) == 1 <==> ClseFor(i, id))
            && (ClosesOf(k.sent, id) == 1 <==> id !in k.streams && !ClseFor(i, id))
  {
    hide After, AckLaw, UpsOf, DownsOf, ClosesOf, Later, Step;
    var h := After(NewHost(limit), inputs);
    Stands(limit, inputs, id);
    StepKeeps(h, i, id);
    AfterSnoc(NewHost(limit), inputs, i);
    StaysIssued(h, Step(h, i), id);
    if i.Inbound? {
      MessageEnds(h, i.message, id);
      MessageRemoves(h, i.message, id);
    } else {
      OwnStepEnds(h, i, id);
    }
  }

  lemma Stands(limit: nat, inputs: seq<Input>, id: int)
    requires id in After(NewHost(limit), inputs).streams
    ensures var h := After(NewHost(limit), inputs); Kept(h, id) && Issued(h, id) && h.streams[id].localId == id
  {
    hide After, AckLaw, LifeInv, Later;
    NewHostKept(limit, 1);
    RunKeeps(NewHost(limit), inputs, 1);
    assert Issued(After(NewHost(limit), inputs), id);
    NewHostKept(limit, id);
    RunKeeps(NewHost(limit), inputs, id);
  }

  /** Over every run `closeStream` takes a tabled stream out and sends one CLSE, from its
      id to the remote id the inputs gave it, and for any other id it does nothing. */
  lemma CloseStreamSaysGoodbye(limit: nat, inputs: seq<Input>, id: int)
    ensures var h, k := After(NewHost(limit), inputs), After(NewHost(limit), inputs + [CloseStream(id)]);
            if id in h.streams then
              && RecordOf(inputs, id).Some? && k.streams == h.streams - {id}
              && k.sent == h.sent + [AdbMessage(CLSE, id, RecordOf(inputs, id).value.remoteId, [])]
            else k == h
  {
    hide After, AckLaw, LifeInv, RecordOf, EventFits;
    var h := After(NewHost(limit), inputs);
    AfterSnoc(NewHost(limit), inputs, CloseStream(id));
    RecordsFollowTheInputs(limit, inputs);
    if id in h.streams {
      Stands(limit, inputs, id);
    }
  }

  lemma MessageRemoves(h: Host, m: AdbMessage, id: int)
    requires TableInv(h) && id in h.streams
    ensures Step(h, Inbound(m)) == OnMessage(h, m)
    ensures ClseFor(Inbound(m), id) <==> id !in OnMessage(h, m).streams
  {
  }

  lemma StaysIssued(h: Host, k: Host, id: int)
    requires Issued(h, id) && Later(h, k, id)
    ensures Issued(k, id)
  {
    hide Silence;
  }

  // ----- Which streams are active ------------------------------------------------------------------

  lemma {:induction false} OpensOf(streams: map<int, Stream>, ids: seq<int>)
    requires Ascending(ids) && forall id :: id in ids && id in streams ==> streams[id].localId == id
    ensures var active := OpenStreams(streams, ids);
            && (forall s :: s in active <==> s.localId in ids && s.localId in streams && streams[s.localId] == s && s.open)
            && (forall i, j :: 0 <= i < j < |active| ==> active[i].localId < active[j].localId)
  {
    if ids != [] {
      var front := ids[..|ids| - 1];
      OpensOf(streams, front);
      var active := OpenStreams(streams, front);
      forall i | 0 <= i < |active|
        ensures active[i].localId < ids[|ids| - 1]
      {
        assert active[i] in active && active[i].localId in front;
      }
      assert forall id :: id in ids <==> id in front || id == ids[|ids| - 1];
    }
  }

  /** Over every run the active streams are the records of the table that are open, each
      once, in the order their ids were issued. */
  lemma ActiveAreTheOpen(limit: nat, inputs: seq<Input>)
    ensures var h := After(NewHost(limit), inputs);
            var active := OpenStreams(h.streams, Ids(h.streams, h.nextLocalId));
            && (forall s :: s in active <==> s.localId in h.streams && h.streams[s.localId] == s && s.open)
            && (forall i, j :: 0 <= i < j < |active| ==> active[i].localId < active[j].localId)
  {
    hide After, Ids, AckLaw, LifeInv, Later, OpenStreams, Ascending;
    NewHostKept(limit, 1);
    RunKeeps(NewHost(limit), inputs, 1);
    var h := After(NewHost(limit), inputs);
    IdsAreTheKeys(h.streams, h.nextLocalId);
    OpensOf(h.streams, Ids(h.streams, h.nextLocalId));
  }
}
