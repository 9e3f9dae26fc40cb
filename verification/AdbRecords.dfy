/** The record of every stream, told from the inputs of a run alone: who it talks to,
    and that everything sent and reported for it says so. */
module AdbRecords {
  import opened Bytes
  import opened AdbMessages
  import opened AdbHosts
  import opened AdbStreams
  import opened AdbClosing

  // ----- The record, from the inputs ---------------------------------------------------------

  /** The message is the device's answer to this host's OPEN of the stream. */
  predicate OkayFor(i: Input, id: int) {
    i.Inbound? && i.message.command == OKAY && i.message.arg1 == id
  }

  /** The record of stream `id`. The `id`-th call of `open` or OPEN received creates it:
      the first without a remote id, the second open, with the sender's id as its remote
      id. The first OKAY that names it gives the former its sender's id. */
  function RecordOf(inputs: seq<Input>, id: int): Option<Stream> {
    if inputs == [] then None
    else
      var front, i := inputs[..|inputs| - 1], inputs[|inputs| - 1];
      var r := RecordOf(front, id);
      if r.None? then
        if id != 1 + Opens(front) then None
        else if i.Open? then Some(Stream(id, 0, i.destination, false))
        else if i.Inbound? && i.message.command == OPEN then Some(Stream(id, i.message.arg0, i.message.payload, true))
        else None
      else if !r.value.open && OkayFor(i, id) then Some(r.value.(remoteId := i.message.arg0, open := true))
      else r
  }

  predicate Opened(inputs: seq<Input>, id: int) {
    RecordOf(inputs, id).Some? && RecordOf(inputs, id).value.open
  }

  lemma {:induction false} OpensSnoc(inputs: seq<Input>, i: Input)
    ensures Opens(inputs + [i]) == Opens(inputs) + Opens([i])
    decreases |inputs|
  {
    if inputs == [] {
      assert inputs + [i] == [i];
    } else {
      assert (inputs + [i])[0] == inputs[0] && (inputs + [i])[1..] == inputs[1..] + [i];
      OpensSnoc(inputs[1..], i);
    }
  }

  lemma RecordSnoc(inputs: seq<Input>, i: Input, id: int)
    ensures (inputs + [i])[..|inputs|] == inputs && (inputs + [i])[|inputs|] == i
    ensures RecordOf(inputs, id).Some? ==>
      RecordOf(inputs + [i], id) == if !Opened(inputs, id) && OkayFor(i, id)
                                    then Some(RecordOf(inputs, id).value.(remoteId := i.message.arg0, open := true))
                                    else RecordOf(inputs, id)
    ensures RecordOf(inputs, id).None? ==>
      RecordOf(inputs + [i], id) ==
        if id != 1 + Opens(inputs) then None
        else if i.Open? then Some(Stream(id, 0, i.destination, false))
        else if i.Inbound? && i.message.command == OPEN then Some(Stream(id, i.message.arg0, i.message.payload, true))
        else None
  {
    assert (inputs + [i])[..|inputs|] == inputs;
  }

  lemma {:induction false} RecordIffIssued(inputs: seq<Input>, id: int)
    ensures RecordOf(inputs, id).Some? <==> 1 <= id <= Opens(inputs)
    ensures RecordOf(inputs, id).Some? ==> RecordOf(inputs, id).value.localId == id
  {
    if inputs != [] {
      var front, i := inputs[..|inputs| - 1], inputs[|inputs| - 1];
      assert inputs == front + [i];
      RecordIffIssued(front, id);
      OpensSnoc(front, i);
      assert [i][1..] == [];
      RecordSnoc(front, i, id);
    }
  }

  /** Once open, a record is as it will be. */
  lemma {:induction false} OpenedStays(before: seq<Input>, after: seq<Input>, id: int)
    requires Opened(before, id)
    ensures RecordOf(before + after, id) == RecordOf(before, id)
    decreases |after|
  {
    if after == [] {
      assert before + after == before;
    } else {
      var front, i := after[..|after| - 1], after[|after| - 1];
      OpenedStays(before, front, id);
      RecordSnoc(before + front, i, id);
      assert before + after == (before + front) + [i];
    }
  }

  // ----- The host keeps to it ------------------------------------------------------------------

  predicate Fits(inputs: seq<Input>, s: Stream) {
    RecordOf(inputs, s.localId) == Some(s)
  }

  /** The record as it is, or as it was before it was open. */
  predicate Known(inputs: seq<Input>, s: Stream) {
    var r := RecordOf(inputs, s.localId);
    r.Some? && if s.open then r.value == s else s.remoteId == 0 && r.value.destination == s.destination
  }

  predicate EventFits(inputs: seq<Input>, e: HostEvent) {
    match e
    case StreamUp(s) => s.open && Fits(inputs, s)
    case DataIn(s, _) => Known(inputs, s)
    case StreamDown(s) => Known(inputs, s)
    case _ => true
  }

  predicate FollowFits(inputs: seq<Input>, f: Follow) {
    f.Announce? ==> f.stream.open && Fits(inputs, f.stream)
  }

  predicate TableFits(h: Host, inputs: seq<Input>) {
    forall id :: id in h.streams ==> h.streams[id].localId == id && Fits(inputs, h.streams[id])
                                     && (h.streams[id].open || h.streams[id].remoteId == 0)
  }

  /** Everything the host has written down or will say of a stream but its table. */
  ghost predicate PaperFits(h: Host, inputs: seq<Input>) {
    && (forall w :: 0 <= w < |h.writes| ==> h.writes[w].stream.open && Fits(inputs, h.writes[w].stream))
    && (forall k :: k in h.flights ==> FollowFits(inputs, h.flights[k].follow))
    && (forall n :: 0 <= n < |h.events| ==> EventFits(inputs, h.events[n]))
  }

  ghost predicate RecordsKept(h: Host, inputs: seq<Input>) {
    TableFits(h, inputs) && PaperFits(h, inputs)
  }

  /** A WRTE, OKAY or CLSE names the stream's own id and its remote id, 0 if it has none. */
  predicate Addressed(inputs: seq<Input>, m: AdbMessage) {
    m.command in {WRTE, OKAY, CLSE} ==>
      RecordOf(inputs, m.arg0).Some? && m.arg1 == RecordOf(inputs, m.arg0).value.remoteId
  }

  /** What `k` sent and `h` had not is addressed so. */
  predicate NewAddressed(h: Host, k: Host, inputs: seq<Input>) {
    |h.sent| <= |k.sent| && h.sent == k.sent[..|h.sent|]
    && forall n :: |h.sent| <= n < |k.sent| ==> Addressed(inputs, k.sent[n])
  }

  lemma FitsSnoc(inputs: seq<Input>, i: Input, s: Stream)
    ensures Fits(inputs, s) && (s.open || !OkayFor(i, s.localId)) ==> Fits(inputs + [i], s)
    ensures Known(inputs, s) ==> Known(inputs + [i], s)
    ensures Fits(inputs, s) && !s.open && s.remoteId == 0 ==> Known(inputs + [i], s)
  {
    RecordSnoc(inputs, i, s.localId);
  }

  lemma PaperSnoc(h: Host, inputs: seq<Input>, i: Input)
    requires PaperFits(h, inputs)
    ensures PaperFits(h, inputs + [i])
  {
    hide Fits, Known, RecordOf;
    forall w | 0 <= w < |h.writes|
      ensures Fits(inputs + [i], h.writes[w].stream)
    {
      FitsSnoc(inputs, i, h.writes[w].stream);
    }
    forall k | k in h.flights
      ensures FollowFits(inputs + [i], h.flights[k].follow)
    {
      if h.flights[k].follow.Announce? { FitsSnoc(inputs, i, h.flights[k].follow.stream); }
    }
    forall n | 0 <= n < |h.events|
      ensures EventFits(inputs + [i], h.events[n])
    {
      assert EventFits(inputs, h.events[n]);
      match h.events[n]
      case StreamUp(s) => FitsSnoc(inputs, i, s);
      case DataIn(s, _) => FitsSnoc(inputs, i, s);
      case StreamDown(s) => FitsSnoc(inputs, i, s);
      case _ =>
    }
  }

  lemma TableSnoc(h: Host, inputs: seq<Input>, i: Input)
    requires TableFits(h, inputs)
    requires forall id :: id in h.streams && OkayFor(i, id) ==> h.streams[id].open
    ensures TableFits(h, inputs + [i])
  {
    hide Fits, Known, RecordOf;
    forall id | id in h.streams
      ensures Fits(inputs + [i], h.streams[id])
    {
      FitsSnoc(inputs, i, h.streams[id]);
    }
  }

  // Below, `inputs` are those up to and including the step.

  lemma SendFits(h: Host, j: Host, m: AdbMessage, follow: Follow, inputs: seq<Input>)
    requires RecordsKept(j, inputs) && NewAddressed(h, j, inputs)
    requires Addressed(inputs, m) && FollowFits(inputs, follow)
    ensures RecordsKept(Send(j, m, follow), inputs) && NewAddressed(h, Send(j, m, follow), inputs)
  {
    hide Fits, FollowFits, EventFits, Addressed;
  }

  lemma EmitFits(h: Host, j: Host, e: HostEvent, inputs: seq<Input>)
    requires RecordsKept(j, inputs) && NewAddressed(h, j, inputs) && EventFits(inputs, e)
    ensures RecordsKept(Emitted(j, e), inputs) && NewAddressed(h, Emitted(j, e), inputs)
  {
    hide Fits, FollowFits, EventFits, Addressed;
  }

  lemma LoopHeadFits(h: Host, j: Host, w: nat, inputs: seq<Input>)
    requires RecordsKept(j, inputs) && NewAddressed(h, j, inputs) && w < |j.writes|
    ensures RecordsKept(LoopHead(j, w), inputs) && NewAddressed(h, LoopHead(j, w), inputs)
  {
    hide FollowFits, EventFits, RecordOf;
    var wr := j.writes[w];
    assert FollowFits(inputs, NextSlice(w)) by { NothingToFit(inputs, NextSlice(w)); }
    if wr.offset < |wr.payload| {
      var end := Min(wr.offset + j.maxPayload, |wr.payload|);
      var m := AdbMessage(WRTE, wr.stream.localId, wr.stream.remoteId, wr.payload[wr.offset..end]);
      assert Fits(inputs, wr.stream);
      SendFits(h, j.(slices := j.slices + [Slice(w, wr.offset, end)]), m, NextSlice(w), inputs);
    }
  }

  lemma NothingToFit(inputs: seq<Input>, f: Follow)
    requires !f.Announce?
    ensures FollowFits(inputs, f)
  {
  }

  lemma CloseStreamFits(h: Host, j: Host, id: int, follow: Follow, inputs: seq<Input>)
    requires RecordsKept(j, inputs) && NewAddressed(h, j, inputs) && FollowFits(inputs, follow)
    ensures RecordsKept(OnCloseStream(j, id, follow), inputs) && NewAddressed(h, OnCloseStream(j, id, follow), inputs)
  {
    hide FollowFits, EventFits, RecordOf;
    if id in j.streams {
      var s := j.streams[id];
      assert Fits(inputs, s);
      SendFits(h, j.(streams := j.streams - {id}), AdbMessage(CLSE, s.localId, s.remoteId, []), follow, inputs);
    }
  }

  lemma {:induction false} CloseNextFits(h: Host, j: Host, c: nat, ids: seq<int>, inputs: seq<Input>)
    requires RecordsKept(j, inputs) && NewAddressed(h, j, inputs) && c < |j.closes|
    ensures RecordsKept(CloseNext(j, c, ids), inputs) && NewAddressed(h, CloseNext(j, c, ids), inputs)
    decreases |ids|
  {
    hide FollowFits, EventFits, RecordOf, Fits, Addressed;
    if ids != [] {
      if ids[0] in j.streams {
        NothingToFit(inputs, NextClose(c, ids[1..]));
        CloseStreamFits(h, j, ids[0], NextClose(c, ids[1..]), inputs);
      } else {
        CloseNextFits(h, j, c, ids[1..], inputs);
      }
    }
  }

  lemma LandedFits(h: Host, n: nat, inputs: seq<Input>)
    requires RecordsKept(h, inputs)
    ensures RecordsKept(OnLanded(h, n), inputs) && NewAddressed(h, OnLanded(h, n), inputs)
  {
    hide RecordOf, Fits, Addressed, LoopHead, CloseNext, TableFits, Known;
    if n in h.flights && h.flights[n].body == [] {
      var j := h.(flights := h.flights - {n});
      assert RecordsKept(j, inputs) by { SameTable(h, j, inputs); }
      assert FollowFits(inputs, h.flights[n].follow);
      match h.flights[n].follow
      case Nothing =>
      case Announce(s) => EmitFits(h, j, StreamUp(s), inputs);
      case NextSlice(w) =>
        if w < |h.writes| {
          var wr := j.writes[w];
          var next := wr.(offset := wr.offset + j.maxPayload, limits := wr.limits + [j.maxPayload]);
          var k := j.(writes := j.writes[w := next]);
          SameTable(h, k, inputs);
          LoopHeadFits(h, k, w, inputs);
        }
      case NextClose(c, ids) => if c < |h.closes| { CloseNextFits(h, j, c, ids, inputs); }
    } else {
      SameTable(h, OnLanded(h, n), inputs);
    }
  }

  lemma SameTable(h: Host, j: Host, inputs: seq<Input>)
    requires j.streams == h.streams && TableFits(h, inputs)
    ensures TableFits(j, inputs)
  {
    hide Fits;
  }

  /** A call. */
  lemma CallFits(h: Host, i: Input, inputs: seq<Input>)
    requires RecordsKept(h, inputs) && !i.Inbound? && !i.Landed?
    requires i.Open? ==> Fits(inputs, Stream(h.nextLocalId, 0, i.destination, false))
    ensures RecordsKept(Step(h, i), inputs) && NewAddressed(h, Step(h, i), inputs)
  {
    hide RecordOf, Fits, Addressed, LoopHead, CloseNext, EventFits, FollowFits, Ids;
    NothingToFit(inputs, Nothing);
    match i
    case Connect(name) =>
      var m := AdbMessage(CNXN, ADB_VERSION, ADB_LEGACY_MAX_PAYLOAD, name);
      OtherCommand(inputs, m);
      SendFits(h, h, m, Nothing, inputs);
    case Open(destination) =>
      var id := h.nextLocalId;
      var m := AdbMessage(OPEN, id, 0, destination + [0]);
      OtherCommand(inputs, m);
      SendFits(h, h.(nextLocalId := id + 1, streams := h.streams[id := Stream(id, 0, destination, false)]), m, Nothing, inputs);
    case Write(id, payload) =>
      if id in h.streams && h.streams[id].open {
        LoopHeadFits(h, h.(writes := h.writes + [Writing(h.streams[id], payload, 0, [h.maxPayload])]), |h.writes|, inputs);
      }
    case CloseStream(id) => CloseStreamFits(h, h, id, Nothing, inputs);
    case Close => CloseNextFits(h, h.(closes := h.closes + [false]), |h.closes|, Ids(h.streams, h.nextLocalId), inputs);
  }

  lemma OtherCommand(inputs: seq<Input>, m: AdbMessage)
    requires m.command == CNXN || m.command == OPEN
    ensures Addressed(inputs, m)
  {
  }

  /** A message, but for an OKAY that opens a stream. */
  lemma MessageFits(h: Host, m: AdbMessage, inputs: seq<Input>)
    requires RecordsKept(h, inputs)
    requires m.command == OKAY && m.arg1 in h.streams ==> h.streams[m.arg1].open
    requires m.command == OPEN ==> Fits(inputs, Stream(h.nextLocalId, m.arg0, m.payload, true))
    ensures RecordsKept(OnMessage(h, m), inputs) && NewAddressed(h, OnMessage(h, m), inputs)
  {
    hide RecordOf, FollowFits, PaperFits;
    if m.command == CNXN {
      var j := h.(connected := true, banner := m.payload, maxPayload := if m.arg1 > 0 then m.arg1 else h.maxPayload);
      SamePaper(h, j, inputs);
      EmitFits(h, j, Connected(m.payload), inputs);
    } else if m.command == AUTH {
      EmitFits(h, h, AuthRequired, inputs);
    } else if m.command == OPEN {
      var id := h.nextLocalId;
      var s := Stream(id, m.arg0, m.payload, true);
      var j := h.(nextLocalId := id + 1, streams := h.streams[id := s]);
      SamePaper(h, j, inputs);
      AnnounceFits(inputs, s);
      SendFits(h, j, AdbMessage(OKAY, id, m.arg0, []), Announce(s), inputs);
    } else if m.arg1 in h.streams {
      var s := h.streams[m.arg1];
      if m.command == WRTE {
        EmitFits(h, h, DataIn(s, m.payload), inputs);
        NothingToFit(inputs, Nothing);
        SendFits(h, Emitted(h, DataIn(s, m.payload)), AdbMessage(OKAY, s.localId, s.remoteId, []), Nothing, inputs);
      } else if m.command == CLSE {
        var j := h.(streams := h.streams - {s.localId});
        SamePaper(h, j, inputs);
        EmitFits(h, j, StreamDown(s), inputs);
      }
    }
  }

  lemma AnnounceFits(inputs: seq<Input>, s: Stream)
    requires s.open && Fits(inputs, s)
    ensures FollowFits(inputs, Announce(s))
  {
  }

  lemma SamePaper(h: Host, j: Host, inputs: seq<Input>)
    requires PaperFits(h, inputs) && j.writes == h.writes && j.flights == h.flights && j.events == h.events
    ensures PaperFits(j, inputs)
  {
    hide Fits, FollowFits, EventFits;
  }

  /** The OKAY that opens a stream. */
  lemma OpeningFits(h: Host, m: AdbMessage, inputs: seq<Input>)
    requires RecordsKept(h, inputs) && m.command == OKAY && m.arg1 in h.streams && !h.streams[m.arg1].open
    ensures var after := inputs + [Inbound(m)];
            RecordsKept(OnMessage(h, m), after) && NewAddressed(h, OnMessage(h, m), after)
  {
    hide PaperFits;
    var i := Inbound(m);
    var id := m.arg1;
    var up := h.streams[id].(remoteId := m.arg0, open := true);
    var j := h.(streams := h.streams[id := up]);
    PaperSnoc(h, inputs, i);
    SamePaper(h, j, inputs + [i]);
    RecordSnoc(inputs, i, id);
    assert TableFits(h.(streams := h.streams - {id}), inputs + [i]) by { TableSnoc(h.(streams := h.streams - {id}), inputs, i); }
    assert TableFits(j, inputs + [i]) by { WithOne(h, id, up, inputs + [i]); }
    EmitFits(h, j, StreamUp(up), inputs + [i]);
  }

  lemma WithOne(h: Host, id: int, s: Stream, inputs: seq<Input>)
    requires TableFits(h.(streams := h.streams - {id}), inputs) && s.localId == id && s.open && Fits(inputs, s)
    ensures TableFits(h.(streams := h.streams[id := s]), inputs)
  {
    hide Fits;
    var k := h.(streams := h.streams - {id});
    forall d | d in h.streams && d != id
      ensures h.streams[d].localId == d && Fits(inputs, h.streams[d]) && (h.streams[d].open || h.streams[d].remoteId == 0)
    {
      assert d in k.streams;
    }
  }

  lemma StepFits(h: Host, inputs: seq<Input>, i: Input)
    requires RecordsKept(h, inputs) && h.nextLocalId == 1 + Opens(inputs)
    ensures RecordsKept(Step(h, i), inputs + [i]) && NewAddressed(h, Step(h, i), inputs + [i])
  {
    hide RecordOf, PaperFits, OnMessage, OnLanded, OnWrite, OnCloseStream, OnClose, OnOpen, OnConnect, NewAddressed;
    if i.Inbound? && i.message.command == OKAY && i.message.arg1 in h.streams && !h.streams[i.message.arg1].open {
      OpeningFits(h, i.message, inputs);
    } else {
      PaperSnoc(h, inputs, i);
      TableSnoc(h, inputs, i);
      RecordSnoc(inputs, i, h.nextLocalId);
      RecordIffIssued(inputs, h.nextLocalId);
      match i
      case Inbound(m) => MessageFits(h, m, inputs + [i]);
      case Landed(n) => LandedFits(h, n, inputs + [i]);
      case _ => CallFits(h, i, inputs + [i]);
    }
  }

  lemma {:induction false} RunFits(limit: nat, inputs: seq<Input>)
    ensures RecordsKept(After(NewHost(limit), inputs), inputs)
    ensures After(NewHost(limit), inputs).nextLocalId == 1 + Opens(inputs)
  {
    hide RecordsKept, Step;
    RunIssues(NewHost(limit), inputs);
    if inputs == [] {
      assert RecordsKept(NewHost(limit), []) by { StartFits(limit); }
    } else {
      var front, i := inputs[..|inputs| - 1], inputs[|inputs| - 1];
      assert inputs == front + [i];
      RunFits(limit, front);
      AfterSnoc(NewHost(limit), front, i);
      StepFits(After(NewHost(limit), front), front, i);
    }
  }

  lemma StartFits(limit: nat)
    ensures RecordsKept(NewHost(limit), [])
  {
  }

  // ----- The results -----------------------------------------------------------------------------

  /** Over every run the record of a stream in the table is the one the inputs give it:
      an open stream's remote id is the sender of the OPEN that created it, or of the
      first OKAY that named it; one that is not open has none. Every event about a stream
      carries its record. */
  lemma RecordsFollowTheInputs(limit: nat, inputs: seq<Input>)
    ensures var h := After(NewHost(limit), inputs);
            && (forall id :: id in h.streams ==> RecordOf(inputs, id) == Some(h.streams[id]))
            && (forall id :: id in h.streams && !h.streams[id].open ==> h.streams[id].remoteId == 0)
            && (forall w :: 0 <= w < |h.writes| ==> RecordOf(inputs, h.writes[w].stream.localId) == Some(h.writes[w].stream))
            && (forall n :: 0 <= n < |h.events| ==> EventFits(inputs, h.events[n]))
  {
    hide After, RecordOf, EventFits;
    RunFits(limit, inputs);
  }

  /** Whatever a step of a run sends for a stream goes to the remote id it then has:
      each WRTE, OKAY and CLSE names the stream's own id and that. */
  lemma SendsAreAddressed(limit: nat, inputs: seq<Input>, i: Input)
    ensures var h, k := After(NewHost(limit), inputs), After(NewHost(limit), inputs + [i]);
            && |h.sent| <= |k.sent|
            && forall n :: |h.sent| <= n < |k.sent| ==> Addressed(inputs + [i], k.sent[n])
  {
    hide After, Step, RecordsKept, Addressed;
    RunFits(limit, inputs);
    AfterSnoc(NewHost(limit), inputs, i);
    StepFits(After(NewHost(limit), inputs), inputs, i);
  }

  /** So once it is open, everything sent for it in the rest of the run does. */
  lemma {:induction false} OpenStreamsAreAddressed(limit: nat, before: seq<Input>, after: seq<Input>, id: int)
    requires Opened(before, id)
    ensures var h, k := After(NewHost(limit), before), After(NewHost(limit), before + after);
            && |h.sent| <= |k.sent|
            && forall n :: |h.sent| <= n < |k.sent| && k.sent[n].command in {WRTE, OKAY, CLSE} && k.sent[n].arg0 == id ==>
                 k.sent[n].arg1 == RecordOf(before, id).value.remoteId
    decreases |after|
  {
    hide After, Step, RecordsKept, RecordOf;
    if after == [] {
      assert before + after == before;
    } else {
      var front, i := after[..|after| - 1], after[|after| - 1];
      OpenStreamsAreAddressed(limit, before, front, id);
      assert before + after == (before + front) + [i];
      OpenedStays(before, after, id);
      RunFits(limit, before + front);
      AfterSnoc(NewHost(limit), before + front, i);
      StepFits(After(NewHost(limit), before + front), before + front, i);
    }
  }

  /** The first OKAY for a stream this host opened, if it is still in the table, opens
      it: its `stream` event is emitted at once, with the sender of that OKAY as remote
      id, and is the only one it ever has. */
  lemma FirstOkayAnnounces(limit: nat, before: seq<Input>, m: AdbMessage, after: seq<Input>)
    requires m.command == OKAY && m.arg1 in After(NewHost(limit), before).streams && !Opened(before, m.arg1)
    ensures var h := After(NewHost(limit), before);
            var k := After(NewHost(limit), before + ([Inbound(m)] + after));
            && RecordOf(before, m.arg1).Some? && h.nextLocalId > m.arg1
            && var up := Stream(m.arg1, m.arg0, RecordOf(before, m.arg1).value.destination, true);
               && After(NewHost(limit), before + [Inbound(m)]).events == h.events + [StreamUp(up)]
               && RecordOf(before + [Inbound(m)], m.arg1) == Some(up)
               && UpsOf(h.events, m.arg1) == 0 && UpsOf(k.events, m.arg1) == 1
  {
    hide After, RecordOf, UpsOf, Later, LifeInv, EventFits;
    var i := Inbound(m);
    var id := m.arg1;
    var h := After(NewHost(limit), before);
    RunFits(limit, before);
    RecordSnoc(before, i, id);
    RecordIffIssued(before, id);
    AfterSnoc(NewHost(limit), before, i);
    AnnouncedOnce(limit, before, i, after, id);
  }

  lemma AnnouncedOnce(limit: nat, before: seq<Input>, i: Input, after: seq<Input>, id: int)
    requires var h := After(NewHost(limit), before); id in h.streams && !h.streams[id].open && OkayFor(i, id)
    ensures var h := After(NewHost(limit), before);
            UpsOf(h.events, id) == 0 && UpsOf(After(NewHost(limit), before + ([i] + after)).events, id) == 1
  {
    hide After, UpsOf, AckLaw, DownsOf, ClosesOf, Silence;
    var h := After(NewHost(limit), before);
    NewHostKept(limit, 1);
    RunKeeps(NewHost(limit), before, 1);
    NewHostKept(limit, id);
    RunKeeps(NewHost(limit), before, id);
    EventSnoc(h.events, StreamUp(h.streams[id].(remoteId := i.message.arg0, open := true)), id);
    var j := Step(h, i);
    StepKeeps(h, i, id);
    RunKeeps(j, after, id);
    AfterJoin(NewHost(limit), before, [i] + after);
    AfterOne(h, i, after);
  }

  lemma AfterOne(h: Host, i: Input, after: seq<Input>)
    ensures After(h, [i] + after) == After(Step(h, i), after)
  {
    hide Step;
    assert ([i] + after)[1..] == after;
  }
}
