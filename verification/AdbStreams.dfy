/** The stream table over every run: ids, acknowledgements, and the life of each stream. */
module AdbStreams {
  import opened Bytes
  import opened AdbMessages
  import opened AdbHosts

  predicate Issued(h: Host, id: int) {
    1 <= id < h.nextLocalId
  }

  /** Every entry sits under its own id, every id in use has been issued, and
      what is awaited has been sent. */
  predicate TableInv(h: Host) {
    && h.nextLocalId >= 1
    && (forall id :: id in h.streams ==> Issued(h, id) && h.streams[id].localId == id)
    && (forall k :: k in h.flights ==> k < |h.sent|)
  }

  /** Message `k` is the OKAY that accepts stream `id`, and has not landed: the
      `stream` event is still to come. */
  predicate AcceptedBy(h: Host, k: nat, id: int) {
    k in h.flights && h.flights[k].follow.Announce? && h.flights[k].follow.stream.localId == id
  }

  // ----- Counting what was emitted and sent -----------------------------------------

  function EventId(e: HostEvent): int {
    match e
    case StreamUp(s) => s.localId
    case DataIn(s, _) => s.localId
    case StreamDown(s) => s.localId
    case Connected(_) => 0
    case AuthRequired => 0
  }

  function UpsOf(events: seq<HostEvent>, id: int): nat {
    if events == [] then 0
    else UpsOf(events[..|events| - 1], id)
         + (if events[|events| - 1].StreamUp? && EventId(events[|events| - 1]) == id then 1 else 0)
  }

  function DownsOf(events: seq<HostEvent>, id: int): nat {
    if events == [] then 0
    else DownsOf(events[..|events| - 1], id)
         + (if events[|events| - 1].StreamDown? && EventId(events[|events| - 1]) == id then 1 else 0)
  }

  function EventsOf(events: seq<HostEvent>, id: int): nat {
    if events == [] then 0
    else EventsOf(events[..|events| - 1], id) + (if EventId(events[|events| - 1]) == id then 1 else 0)
  }

  function DataCount(events: seq<HostEvent>): nat {
    if events == [] then 0
    else DataCount(events[..|events| - 1]) + (if events[|events| - 1].DataIn? then 1 else 0)
  }

  function Count(sent: seq<AdbMessage>, command: int): nat {
    if sent == [] then 0
    else Count(sent[..|sent| - 1], command) + (if sent[|sent| - 1].command == command then 1 else 0)
  }

  /** Messages other than WRTE sent on behalf of stream `id`. */
  function SentOf(sent: seq<AdbMessage>, id: int): nat {
    if sent == [] then 0
    else
      var m := sent[|sent| - 1];
      SentOf(sent[..|sent| - 1], id) + (if m.command != CNXN && m.command != WRTE && m.arg0 == id then 1 else 0)
  }

  /** CLSEs sent for stream `id`. */
  function ClosesOf(sent: seq<AdbMessage>, id: int): nat {
    if sent == [] then 0
    else
      var m := sent[|sent| - 1];
      ClosesOf(sent[..|sent| - 1], id) + (if m.command == CLSE && m.arg0 == id then 1 else 0)
  }

  lemma EventSnoc(events: seq<HostEvent>, e: HostEvent, id: int)
    ensures UpsOf(events + [e], id) == UpsOf(events, id) + (if e.StreamUp? && EventId(e) == id then 1 else 0)
    ensures DownsOf(events + [e], id) == DownsOf(events, id) + (if e.StreamDown? && EventId(e) == id then 1 else 0)
    ensures EventsOf(events + [e], id) == EventsOf(events, id) + (if EventId(e) == id then 1 else 0)
    ensures DataCount(events + [e]) == DataCount(events) + (if e.DataIn? then 1 else 0)
  {
    assert (events + [e])[..|events|] == events;
  }

  lemma SentSnoc(sent: seq<AdbMessage>, m: AdbMessage, id: int)
    ensures Count(sent + [m], OKAY) == Count(sent, OKAY) + (if m.command == OKAY then 1 else 0)
    ensures Count(sent + [m], OPEN) == Count(sent, OPEN) + (if m.command == OPEN then 1 else 0)
    ensures SentOf(sent + [m], id)
         == SentOf(sent, id) + (if m.command != CNXN && m.command != WRTE && m.arg0 == id then 1 else 0)
    ensures ClosesOf(sent + [m], id) == ClosesOf(sent, id) + (if m.command == CLSE && m.arg0 == id then 1 else 0)
  {
    assert (sent + [m])[..|sent|] == sent;
  }

  // ----- Properties kept by every step ----------------------------------------------

  /** OKAYs sent are one for each payload delivered and one for each stream the
      device opened: the ids issued, less the OPENs this host sent. */
  predicate AckLaw(h: Host) {
    Count(h.sent, OKAY) + Count(h.sent, OPEN) == DataCount(h.events) + (h.nextLocalId - 1)
  }

  predicate Gone(h: Host, id: int) {
    Issued(h, id) && id !in h.streams
  }

  /** At most one `stream` event per id, none while its accept is outstanding, by
      one message, or while it is not open; and a stream ends exactly once, by a
      CLSE sent or by a `streamClose` event, when it leaves the table. */
  ghost predicate LifeInv(h: Host, id: int) {
    && UpsOf(h.events, id) <= 1
    && ClosesOf(h.sent, id) + DownsOf(h.events, id) == (if Gone(h, id) then 1 else 0)
    && (!Issued(h, id) ==> UpsOf(h.events, id) == 0)
    && (id in h.streams && !h.streams[id].open ==> UpsOf(h.events, id) == 0)
    && (forall k: nat :: AcceptedBy(h, k, id) ==>
          && UpsOf(h.events, id) == 0 && Issued(h, id) && h.flights[k].body == []
          && (id in h.streams ==> h.streams[id].open))
    && (forall j: nat, k: nat :: AcceptedBy(h, j, id) && AcceptedBy(h, k, id) ==> j == k)
  }

  ghost predicate Kept(h: Host, id: int) {
    TableInv(h) && AckLaw(h) && LifeInv(h, id)
  }

  /** How the table treats stream `id`, from one state to a later one. */
  predicate TableLater(h: Host, k: Host, id: int) {
    && h.nextLocalId <= k.nextLocalId
    && UpsOf(h.events, id) <= UpsOf(k.events, id)
    // An open record never changes while it is in the table ...
    && (id in h.streams && h.streams[id].open && id in k.streams ==> k.streams[id] == h.streams[id])
    // ... and an issued id that has left the table never comes back.
    && (Gone(h, id) ==> Gone(k, id))
  }

  ghost predicate Dead(h: Host, id: int) {
    Gone(h, id) && forall k: nat :: !AcceptedBy(h, k, id)
  }

  /** A departed stream has no more `data` or `streamClose` events, no write to it
      begins and nothing but slices of earlier writes is sent for it; and with no
      accept outstanding it has no events at all. */
  ghost predicate Silence(h: Host, k: Host, id: int) {
    && |h.writes| <= |k.writes|
    && (forall w :: 0 <= w < |h.writes| ==> k.writes[w].stream == h.writes[w].stream)
    && (Gone(h, id) ==>
          && EventsOf(k.events, id) - UpsOf(k.events, id) == EventsOf(h.events, id) - UpsOf(h.events, id)
          && SentOf(k.sent, id) == SentOf(h.sent, id)
          && forall w :: |h.writes| <= w < |k.writes| ==> k.writes[w].stream.localId != id)
    && (Dead(h, id) ==> Dead(k, id) && EventsOf(k.events, id) == EventsOf(h.events, id))
  }

  ghost predicate Later(h: Host, k: Host, id: int) {
    TableLater(h, k, id) && Silence(h, k, id)
  }

  lemma AcceptKeeps(h: Host, m: AdbMessage, id: int)
    requires Kept(h, id) && m.command == OPEN
    ensures Kept(OnMessage(h, m), id) && Later(h, OnMessage(h, m), id)
  {
    hide UpsOf, DownsOf, EventsOf, SentOf, ClosesOf, Count, DataCount;
    var k := OnMessage(h, m);
    SentSnoc(h.sent, AdbMessage(OKAY, h.nextLocalId, m.arg0, []), id);
    assert forall n: nat, v :: AcceptedBy(k, n, v) && n != |h.sent| ==> AcceptedBy(h, n, v);
  }

  lemma OkayKeeps(h: Host, m: AdbMessage, id: int)
    requires Kept(h, id) && m.command == OKAY
    ensures Kept(OnMessage(h, m), id) && Later(h, OnMessage(h, m), id)
  {
    hide UpsOf, DownsOf, EventsOf, SentOf, ClosesOf, Count, DataCount;
    if m.arg1 in h.streams {
      EventSnoc(h.events, StreamUp(h.streams[m.arg1].(remoteId := m.arg0, open := true)), id);
    }
    assert forall n: nat, v :: AcceptedBy(OnMessage(h, m), n, v) <==> AcceptedBy(h, n, v);
  }

  lemma DataKeeps(h: Host, m: AdbMessage, id: int)
    requires Kept(h, id) && m.command == WRTE
    ensures Kept(OnMessage(h, m), id) && Later(h, OnMessage(h, m), id)
  {
    hide UpsOf, DownsOf, EventsOf, SentOf, ClosesOf, Count, DataCount;
    var k := OnMessage(h, m);
    if m.arg1 in h.streams {
      var s := h.streams[m.arg1];
      EventSnoc(h.events, DataIn(s, m.payload), id);
      SentSnoc(h.sent, AdbMessage(OKAY, s.localId, s.remoteId, []), id);
    }
    assert forall n: nat, v :: AcceptedBy(k, n, v) ==> AcceptedBy(h, n, v);
  }

  lemma CloseKeeps(h: Host, m: AdbMessage, id: int)
    requires Kept(h, id) && m.command == CLSE
    ensures Kept(OnMessage(h, m), id) && Later(h, OnMessage(h, m), id)
  {
    hide UpsOf, DownsOf, EventsOf, SentOf, ClosesOf, Count, DataCount;
    if m.arg1 in h.streams {
      EventSnoc(h.events, StreamDown(h.streams[m.arg1]), id);
    }
    assert forall n: nat, v :: AcceptedBy(OnMessage(h, m), n, v) <==> AcceptedBy(h, n, v);
  }

  lemma OtherMessageKeeps(h: Host, m: AdbMessage, id: int)
    requires Kept(h, id) && id != 0 && m.command !in {OPEN, OKAY, WRTE, CLSE}
    ensures Kept(OnMessage(h, m), id) && Later(h, OnMessage(h, m), id)
  {
    hide UpsOf, DownsOf, EventsOf, SentOf, ClosesOf, Count, DataCount;
    if m.command == CNXN {
      EventSnoc(h.events, Connected(m.payload), id);
    } else if m.command == AUTH {
      EventSnoc(h.events, AuthRequired, id);
    }
    assert forall n: nat, v :: AcceptedBy(OnMessage(h, m), n, v) <==> AcceptedBy(h, n, v);
  }

  lemma MessageKeeps(h: Host, m: AdbMessage, id: int)
    requires Kept(h, id) && id != 0
    ensures Kept(OnMessage(h, m), id) && Later(h, OnMessage(h, m), id)
  {
    hide Kept, Later, OnMessage;
    if m.command == OPEN {
      AcceptKeeps(h, m, id);
    } else if m.command == OKAY {
      OkayKeeps(h, m, id);
    } else if m.command == WRTE {
      DataKeeps(h, m, id);
    } else if m.command == CLSE {
      CloseKeeps(h, m, id);
    } else {
      OtherMessageKeeps(h, m, id);
    }
  }

  lemma LaterTransitive(h: Host, k: Host, l: Host, id: int)
    requires Kept(h, id) && Later(h, k, id) && Later(k, l, id)
    ensures Later(h, l, id)
  {
    hide EventsOf, SentOf, UpsOf, Dead, AckLaw, LifeInv;
    assert id in h.streams ==> Issued(h, id);
    assert forall w :: 0 <= w < |h.writes| ==> l.writes[w].stream == k.writes[w].stream == h.writes[w].stream;
    if Gone(h, id) {
      forall w | |h.writes| <= w < |l.writes|
        ensures l.writes[w].stream.localId != id
      {
        if w < |k.writes| { assert l.writes[w].stream == k.writes[w].stream; }
      }
    }
  }

  lemma LaterReflexive(h: Host, id: int)
    ensures Later(h, h, id)
  {
    hide EventsOf, SentOf, UpsOf, Dead;
  }

  /** Sending a message that is neither OKAY, OPEN nor CLSE, on behalf of no stream or as a slice. */
  lemma SendKeeps(h: Host, j: Host, m: AdbMessage, follow: Follow, id: int)
    requires Kept(h, id) && !follow.Announce?
    requires m.command == CNXN || m.command == WRTE
    requires j.sent == h.sent && j.events == h.events && j.streams == h.streams && j.nextLocalId == h.nextLocalId
    requires j.flights == h.flights
    requires |h.writes| <= |j.writes| && (forall w :: 0 <= w < |h.writes| ==> j.writes[w].stream == h.writes[w].stream)
    requires forall w :: |h.writes| <= w < |j.writes| ==> j.writes[w].stream.localId in h.streams
    ensures Kept(Send(j, m, follow), id) && Later(h, Send(j, m, follow), id)
  {
    hide UpsOf, DownsOf, EventsOf, SentOf, ClosesOf, Count, DataCount;
    SentSnoc(h.sent, m, id);
    assert forall n: nat, v :: AcceptedBy(Send(j, m, follow), n, v) ==> AcceptedBy(h, n, v);
  }

  /** Nothing sent or emitted, the table untouched. */
  lemma StillKeeps(h: Host, j: Host, id: int)
    requires Kept(h, id)
    requires j.sent == h.sent && j.events == h.events && j.streams == h.streams && j.nextLocalId == h.nextLocalId
    requires forall n :: n in j.flights ==> n in h.flights && j.flights[n].follow == h.flights[n].follow
    requires forall n :: n in j.flights && h.flights[n].body == [] ==> j.flights[n].body == []
    requires |h.writes| <= |j.writes| && (forall w :: 0 <= w < |h.writes| ==> j.writes[w].stream == h.writes[w].stream)
    requires forall w :: |h.writes| <= w < |j.writes| ==> j.writes[w].stream.localId in h.streams
    ensures Kept(j, id) && Later(h, j, id)
  {
    hide UpsOf, DownsOf, EventsOf, SentOf, ClosesOf, Count, DataCount;
    assert forall n: nat, v :: AcceptedBy(j, n, v) ==> AcceptedBy(h, n, v);
  }

  lemma LoopHeadKeeps(h: Host, j: Host, w: nat, id: int)
    requires Kept(h, id) && w < |j.writes|
    requires j.sent == h.sent && j.events == h.events && j.streams == h.streams && j.nextLocalId == h.nextLocalId
    requires j.flights == h.flights
    requires |h.writes| <= |j.writes| && (forall v :: 0 <= v < |h.writes| ==> j.writes[v].stream == h.writes[v].stream)
    requires forall v :: |h.writes| <= v < |j.writes| ==> j.writes[v].stream.localId in h.streams
    ensures Kept(LoopHead(j, w), id) && Later(h, LoopHead(j, w), id)
  {
    hide Kept, Later, Send;
    var wr := j.writes[w];
    if wr.offset < |wr.payload| {
      var end := Min(wr.offset + j.maxPayload, |wr.payload|);
      SendKeeps(h, j.(slices := j.slices + [Slice(w, wr.offset, end)]),
                AdbMessage(WRTE, wr.stream.localId, wr.stream.remoteId, wr.payload[wr.offset..end]), NextSlice(w), id);
    } else {
      StillKeeps(h, j, id);
    }
  }

  lemma OpenKeeps(h: Host, destination: bytes, id: int)
    requires Kept(h, id)
    ensures Kept(OnOpen(h, destination), id) && Later(h, OnOpen(h, destination), id)
  {
    hide UpsOf, DownsOf, EventsOf, SentOf, ClosesOf, Count, DataCount;
    SentSnoc(h.sent, AdbMessage(OPEN, h.nextLocalId, 0, destination + [0]), id);
    assert forall n: nat, v :: AcceptedBy(OnOpen(h, destination), n, v) ==> AcceptedBy(h, n, v);
  }

  lemma CloseStreamKeeps(h: Host, which: int, follow: Follow, id: int)
    requires Kept(h, id) && !follow.Announce?
    ensures Kept(OnCloseStream(h, which, follow), id) && Later(h, OnCloseStream(h, which, follow), id)
  {
    hide UpsOf, DownsOf, EventsOf, SentOf, ClosesOf, Count, DataCount;
    var k := OnCloseStream(h, which, follow);
    if which in h.streams {
      SentSnoc(h.sent, AdbMessage(CLSE, h.streams[which].localId, h.streams[which].remoteId, []), id);
    }
    assert forall n: nat, v :: AcceptedBy(k, n, v) ==> AcceptedBy(h, n, v);
  }

  lemma {:induction false} CloseNextKeeps(h: Host, c: nat, ids: seq<int>, id: int)
    requires Kept(h, id) && c < |h.closes|
    ensures Kept(CloseNext(h, c, ids), id) && Later(h, CloseNext(h, c, ids), id)
    decreases |ids|
  {
    hide Kept, Later, OnCloseStream;
    if ids == [] {
      StillKeeps(h, h.(closes := h.closes[c := true]), id);
    } else if ids[0] in h.streams {
      CloseStreamKeeps(h, ids[0], NextClose(c, ids[1..]), id);
    } else {
      CloseNextKeeps(h, c, ids[1..], id);
    }
  }

  lemma AnnounceKeeps(h: Host, k: nat, id: int)
    requires Kept(h, id) && k in h.flights && h.flights[k].body == [] && h.flights[k].follow.Announce?
    ensures Kept(OnLanded(h, k), id) && Later(h, OnLanded(h, k), id)
  {
    hide UpsOf, DownsOf, EventsOf, SentOf, ClosesOf, Count, DataCount;
    var j := OnLanded(h, k);
    var s := h.flights[k].follow.stream;
    EventSnoc(h.events, StreamUp(s), id);
    assert s.localId == id ==> AcceptedBy(h, k, id);
    assert forall n: nat, v :: AcceptedBy(j, n, v) <==> AcceptedBy(h, n, v) && n != k;
  }

  lemma LandedKeeps(h: Host, k: nat, id: int)
    requires Kept(h, id)
    ensures Kept(OnLanded(h, k), id) && Later(h, OnLanded(h, k), id)
  {
    hide Kept, Later, LoopHead, CloseNext;
    if k !in h.flights || h.flights[k].body != [] {
      StillKeeps(h, OnLanded(h, k), id);
    } else {
      var j := h.(flights := h.flights - {k});
      StillKeeps(h, j, id);
      match h.flights[k].follow
      case Nothing =>
      case Announce(_) => AnnounceKeeps(h, k, id);
      case NextSlice(w) =>
        if w < |j.writes| {
          var wr := j.writes[w];
          var next := wr.(offset := wr.offset + j.maxPayload, limits := wr.limits + [j.maxPayload]);
          LoopHeadKeeps(j, j.(writes := j.writes[w := next]), w, id);
          LaterTransitive(h, j, OnLanded(h, k), id);
        }
      case NextClose(c, ids) =>
        if c < |j.closes| {
          CloseNextKeeps(j, c, ids, id);
          LaterTransitive(h, j, OnLanded(h, k), id);
        }
    }
  }

  lemma WriteKeeps(h: Host, which: int, payload: bytes, id: int)
    requires Kept(h, id)
    ensures Kept(OnWrite(h, which, payload), id) && Later(h, OnWrite(h, which, payload), id)
  {
    assert TableInv(h);
    hide Kept, Later, LoopHead;
    if which in h.streams && h.streams[which].open {
      LoopHeadKeeps(h, h.(writes := h.writes + [Writing(h.streams[which], payload, 0, [h.maxPayload])]), |h.writes|, id);
    } else {
      LaterReflexive(h, id);
    }
  }

  lemma StepKeeps(h: Host, i: Input, id: int)
    requires Kept(h, id) && id != 0
    ensures Kept(Step(h, i), id) && Later(h, Step(h, i), id)
  {
    hide Kept, Later, OnMessage, OnLanded, OnOpen, OnWrite, OnCloseStream, CloseNext, Send;
    match i
    case Inbound(m) => MessageKeeps(h, m, id);
    case Landed(k) => LandedKeeps(h, k, id);
    case Connect(name) => SendKeeps(h, h, AdbMessage(CNXN, ADB_VERSION, ADB_LEGACY_MAX_PAYLOAD, name), Nothing, id);
    case Open(destination) => OpenKeeps(h, destination, id);
    case Write(which, payload) => WriteKeeps(h, which, payload, id);
    case CloseStream(which) => CloseStreamKeeps(h, which, Nothing, id);
    case Close =>
      var j := h.(closes := h.closes + [false]);
      StillKeeps(h, j, id);
      CloseNextKeeps(j, |h.closes|, Ids(h.streams, h.nextLocalId), id);
      LaterTransitive(h, j, OnClose(h), id);
  }

  lemma NewHostKept(limit: nat, id: int)
    ensures Kept(NewHost(limit), id)
  {
  }

  lemma {:induction false} RunKeeps(h: Host, inputs: seq<Input>, id: int)
    requires Kept(h, id) && id != 0
    ensures Kept(After(h, inputs), id) && Later(h, After(h, inputs), id)
    decreases |inputs|
  {
    hide Kept, Later, Step;
    if inputs == [] {
      LaterReflexive(h, id);
    } else {
      var k := Step(h, inputs[0]);
      StepKeeps(h, inputs[0], id);
      RunKeeps(k, inputs[1..], id);
      LaterTransitive(h, k, After(h, inputs), id);
    }
  }

  // ----- The results ------------------------------------------------------------------

  /** Conservation over every run: each key is its entry's id, every id in use lies
      in [1, nextLocalId), and the OKAYs written are exactly the payloads delivered
      plus the streams accepted. */
  lemma TableAndAcksConserved(limit: nat, inputs: seq<Input>)
    ensures TableInv(After(NewHost(limit), inputs)) && AckLaw(After(NewHost(limit), inputs))
  {
    NewHostKept(limit, 1);
    RunKeeps(NewHost(limit), inputs, 1);
  }

  /** Per stream, over every run: at most one `stream` event, and one end for each
      stream issued that is no longer in the table, a CLSE sent or a `streamClose`
      event, and none before. */
  lemma OneEventOfEach(limit: nat, inputs: seq<Input>, id: int)
    requires id != 0
    ensures var h := After(NewHost(limit), inputs);
            && UpsOf(h.events, id) <= 1
            && ClosesOf(h.sent, id) + DownsOf(h.events, id) == (if Gone(h, id) then 1 else 0)
            && (!Issued(h, id) ==> UpsOf(h.events, id) == 0)
  {
    NewHostKept(limit, id);
    RunKeeps(NewHost(limit), inputs, id);
  }

  /** Once an id has left the table it is never used again, its stream has no
      more `data` or `streamClose` events, no write to it begins, and nothing is
      sent for it but slices of writes begun before; unless the `stream` event of
      an accept is still under way, nothing more is emitted for it at all. */
  lemma DepartedStreamsStaySilent(limit: nat, before: seq<Input>, after: seq<Input>, id: int)
    requires Gone(After(NewHost(limit), before), id)
    ensures var h := After(NewHost(limit), before);
            var k := After(h, after);
            && id !in k.streams
            && EventsOf(k.events, id) - UpsOf(k.events, id) == EventsOf(h.events, id) - UpsOf(h.events, id)
            && SentOf(k.sent, id) == SentOf(h.sent, id)
            && |h.writes| <= |k.writes|
            && (forall w :: |h.writes| <= w < |k.writes| ==> k.writes[w].stream.localId != id)
            && (Dead(h, id) ==> EventsOf(k.events, id) == EventsOf(h.events, id))
  {
    hide EventsOf, SentOf, UpsOf, Kept, Dead, After;
    NewHostKept(limit, id);
    RunKeeps(NewHost(limit), before, id);
    RunKeeps(After(NewHost(limit), before), after, id);
  }

  /** A stream's record, its remote id included, is fixed from the moment it is
      open: for a host-opened stream that is its first OKAY. */
  lemma OpenRecordIsFixed(limit: nat, before: seq<Input>, after: seq<Input>, id: int)
    requires var h := After(NewHost(limit), before); id in h.streams && h.streams[id].open
    ensures var h := After(NewHost(limit), before);
            id in After(h, after).streams ==> After(h, after).streams[id] == h.streams[id]
  {
    hide After, UpsOf, LifeInv, AckLaw, Silence;
    var h := After(NewHost(limit), before);
    TableAndAcksConserved(limit, before);
    assert id != 0;
    NewHostKept(limit, id);
    RunKeeps(NewHost(limit), before, id);
    RunKeeps(h, after, id);
  }

  // ----- A stream announced after it has gone ------------------------------------------------

  /** What is awaited stays awaited until it lands. */
  lemma FlightStays(h: Host, i: Input, k: nat)
    requires TableInv(h) && k in h.flights && i != Landed(k)
    ensures k in Step(h, i).flights && Step(h, i).flights[k] == h.flights[k]
  {
    hide CloseNext, OnMessage, OnLanded;
    match i
    case Inbound(m) => MessageFlight(h, m, k);
    case Landed(n) => LandedFlight(h, n, k);
    case Close => CloseNextFlight(h.(closes := h.closes + [false]), |h.closes|, Ids(h.streams, h.nextLocalId), k);
    case _ =>
  }

  lemma MessageFlight(h: Host, m: AdbMessage, k: nat)
    requires k in h.flights && k < |h.sent|
    ensures k in OnMessage(h, m).flights && OnMessage(h, m).flights[k] == h.flights[k]
  {
  }

  lemma LandedFlight(h: Host, n: nat, k: nat)
    requires k in h.flights && k < |h.sent| && n != k
    ensures k in OnLanded(h, n).flights && OnLanded(h, n).flights[k] == h.flights[k]
  {
    hide CloseNext;
    if n in h.flights && h.flights[n].body == [] && h.flights[n].follow.NextClose? && h.flights[n].follow.close < |h.closes| {
      CloseNextFlight(h.(flights := h.flights - {n}), h.flights[n].follow.close, h.flights[n].follow.ids, k);
    }
  }

  lemma {:induction false} CloseNextFlight(h: Host, c: nat, ids: seq<int>, k: nat)
    requires c < |h.closes| && k in h.flights && k < |h.sent|
    ensures k in CloseNext(h, c, ids).flights && CloseNext(h, c, ids).flights[k] == h.flights[k]
    decreases |ids|
  {
    if ids != [] && ids[0] !in h.streams {
      CloseNextFlight(h, c, ids[1..], k);
    }
  }

  lemma AcceptLands(h: Host, k: nat, id: int)
    requires Kept(h, id) && AcceptedBy(h, k, id)
    ensures UpsOf(Step(h, Landed(k)).events, id) == 1
  {
    hide UpsOf;
    EventSnoc(h.events, StreamUp(h.flights[k].follow.stream), id);
  }

  /** An outstanding accept announces its stream when it lands, and not before. */
  lemma {:induction false} AcceptAnnounces(h: Host, k: nat, inputs: seq<Input>, id: int)
    requires Kept(h, id) && id != 0 && AcceptedBy(h, k, id)
    ensures UpsOf(h.events, id) == 0
    ensures UpsOf(After(h, inputs).events, id) == if Landed(k) in inputs then 1 else 0
    decreases |inputs|
  {
    hide UpsOf, Step, TableInv, AckLaw, Silence;
    if inputs != [] {
      var j := Step(h, inputs[0]);
      StepKeeps(h, inputs[0], id);
      if inputs[0] == Landed(k) {
        AcceptLands(h, k, id);
        RunKeeps(j, inputs[1..], id);
      } else {
        FlightStays(h, inputs[0], k);
        AcceptAnnounces(j, k, inputs[1..], id);
        assert Landed(k) in inputs <==> Landed(k) in inputs[1..];
      }
    }
  }

  /** A departed stream is announced late if and only if its accept was still
      outstanding when it left and its OKAY lands afterwards. */
  lemma LateStreamEvent(limit: nat, before: seq<Input>, after: seq<Input>, id: int)
    requires Gone(After(NewHost(limit), before), id)
    ensures var h := After(NewHost(limit), before);
            UpsOf(After(h, after).events, id) > UpsOf(h.events, id)
            <==> exists k: nat :: AcceptedBy(h, k, id) && Landed(k) in after
  {
    hide UpsOf, EventsOf, After, Kept;
    var h := After(NewHost(limit), before);
    NewHostKept(limit, id);
    RunKeeps(NewHost(limit), before, id);
    if k: nat :| AcceptedBy(h, k, id) {
      AcceptAnnounces(h, k, after, id);
      OneAccept(h, k, id);
    } else {
      RunKeeps(h, after, id);
      assert Dead(h, id);
    }
  }

  lemma OneAccept(h: Host, k: nat, id: int)
    requires Kept(h, id) && AcceptedBy(h, k, id)
    ensures forall j: nat :: AcceptedBy(h, j, id) ==> j == k
  {
  }

  lemma LateStreamEventHappens(name: bytes)
    ensures var s := Stream(1, 7, name, true);
            After(NewHost(4096), [Inbound(AdbMessage(OPEN, 7, 0, name)), Inbound(AdbMessage(CLSE, 7, 1, [])), Landed(0)]).events
              == [StreamDown(s), StreamUp(s)]
  {
    var s := Stream(1, 7, name, true);
    var i1, i2, i3 := Inbound(AdbMessage(OPEN, 7, 0, name)), Inbound(AdbMessage(CLSE, 7, 1, [])), Landed(0);
    var h1 := Step(NewHost(4096), i1);
    var h2 := Step(h1, i2);
    assert h1.streams[1] == s && h1.flights[0] == Flight([], Announce(s));
    assert h2.events == [StreamDown(s)] && h2.flights == h1.flights;
    assert Step(h2, i3).events == [StreamDown(s), StreamUp(s)];
    AfterSnoc(NewHost(4096), [], i1);
    AfterSnoc(NewHost(4096), [i1], i2);
    AfterSnoc(NewHost(4096), [i1, i2], i3);
    assert [] + [i1] == [i1] && [i1] + [i2] == [i1, i2] && [i1, i2] + [i3] == [i1, i2, i3];
  }
}
