/** The ADB host: a table of streams multiplexed over one link.
 *
 *  Sending is asynchronous. A send puts the header on the link at once and waits
 *  for that link write to complete before it writes the payload; whatever the
 *  caller does next waits for the last of them. Anything else may happen in
 *  between, so each of these waits is a point of its own in the model: `flights`
 *  are the messages whose latest link write has not completed, and `Landed` is
 *  its completion.
 */
module AdbHosts {
  import opened Bytes
  import opened Incremental
  import opened AdbMessages

  datatype Stream = Stream(localId: int, remoteId: int, destination: bytes, open: bool)

  datatype HostEvent =
    | StreamUp(stream: Stream)
    | DataIn(stream: Stream, data: bytes)
    | StreamDown(stream: Stream)
    | Connected(name: bytes)
    | AuthRequired

  /** A link write: the header of the message sent as number `message`, or its payload. */
  datatype Piece = Head(message: nat) | Body(message: nat)

  /** What the caller of a send does once the message is out. */
  datatype Follow =
    | Nothing
    | Announce(stream: Stream)
    | NextSlice(write: nat)
    | NextClose(close: nat, ids: seq<int>)

  /** `body` is the payload still to be written, empty if there is none. */
  datatype Flight = Flight(body: bytes, follow: Follow)

  /** A call of `write`: its loop variable, and the payload limit as it stood
      each time the loop read it. */
  datatype Writing = Writing(stream: Stream, payload: bytes, offset: nat, limits: seq<nat>)

  /** The part `lo..hi` of the payload of write number `write`. */
  datatype Slice = Slice(write: nat, lo: nat, hi: nat)

  /** `sent` are the logical messages in the order of their headers, `link` the
      link writes, `slices` the parts of payloads sent as WRTE, in order, and
      `closes` says of each call of `close` whether it has run to its end. */
  datatype Host = Host(
    streams: map<int, Stream>, nextLocalId: int, connected: bool, banner: bytes, maxPayload: nat,
    events: seq<HostEvent>, sent: seq<AdbMessage>, link: seq<Piece>, flights: map<nat, Flight>,
    writes: seq<Writing>, slices: seq<Slice>, closes: seq<bool>)

  function NewHost(maxPayload: nat): Host {
    Host(map[], 1, false, [], maxPayload, [], [], [], map[], [], [], [])
  }

  function Send(h: Host, m: AdbMessage, follow: Follow): Host {
    var k := |h.sent|;
    h.(sent := h.sent + [m], link := h.link + [Head(k)], flights := h.flights[k := Flight(m.payload, follow)])
  }

  function Emitted(h: Host, e: HostEvent): Host {
    h.(events := h.events + [e])
  }

  /** One inbound message: the specification of `dispatch`, and of `acceptStream` up to its wait. */
  function OnMessage(h: Host, m: AdbMessage): Host {
    if m.command == CNXN then
      Emitted(h.(connected := true, banner := m.payload, maxPayload := if m.arg1 > 0 then m.arg1 else h.maxPayload),
              Connected(m.payload))
    else if m.command == AUTH then Emitted(h, AuthRequired)
    else if m.command == OPEN then
      var id := h.nextLocalId;
      var s := Stream(id, m.arg0, m.payload, true);
      Send(h.(nextLocalId := id + 1, streams := h.streams[id := s]), AdbMessage(OKAY, id, m.arg0, []), Announce(s))
    else if m.arg1 !in h.streams then h
    else
      var s := h.streams[m.arg1];
      if m.command == OKAY then
        if s.open then h
        else
          var up := s.(remoteId := m.arg0, open := true);
          Emitted(h.(streams := h.streams[m.arg1 := up]), StreamUp(up))
      else if m.command == WRTE then
        Send(Emitted(h, DataIn(s, m.payload)), AdbMessage(OKAY, s.localId, s.remoteId, []), Nothing)
      else if m.command == CLSE then
        Emitted(h.(streams := h.streams - {s.localId}), StreamDown(s))
      else h
  }

  function OnMessages(h: Host, ms: seq<AdbMessage>): Host
    decreases |ms|
  {
    if ms == [] then h else OnMessages(OnMessage(h, ms[0]), ms[1..])
  }

  function OnConnect(h: Host, name: bytes): Host {
    Send(h, AdbMessage(CNXN, ADB_VERSION, ADB_LEGACY_MAX_PAYLOAD, name), Nothing)
  }

  function OnOpen(h: Host, destination: bytes): Host {
    var id := h.nextLocalId;
    Send(h.(nextLocalId := id + 1, streams := h.streams[id := Stream(id, 0, destination, false)]),
         AdbMessage(OPEN, id, 0, destination + [0]), Nothing)
  }

  /** The head of the slicing loop of write `w`: send the next slice, or end. */
  function LoopHead(h: Host, w: nat): Host
    requires w < |h.writes|
  {
    var wr := h.writes[w];
    if wr.offset >= |wr.payload| then h
    else
      var end := Min(wr.offset + h.maxPayload, |wr.payload|);
      Send(h.(slices := h.slices + [Slice(w, wr.offset, end)]),
           AdbMessage(WRTE, wr.stream.localId, wr.stream.remoteId, wr.payload[wr.offset..end]), NextSlice(w))
  }

  function OnWrite(h: Host, id: int, payload: bytes): Host {
    if id in h.streams && h.streams[id].open then
      LoopHead(h.(writes := h.writes + [Writing(h.streams[id], payload, 0, [h.maxPayload])]), |h.writes|)
    else h
  }

  /** A slice is out: the loop advances by the limit as it now stands. */
  function Advance(h: Host, w: nat): Host
    requires w < |h.writes|
  {
    var wr := h.writes[w];
    var next := wr.(offset := wr.offset + h.maxPayload, limits := wr.limits + [h.maxPayload]);
    LoopHead(h.(writes := h.writes[w := next]), w)
  }

  function OnCloseStream(h: Host, id: int, follow: Follow): Host {
    if id !in h.streams then h
    else
      var s := h.streams[id];
      Send(h.(streams := h.streams - {id}), AdbMessage(CLSE, s.localId, s.remoteId, []), follow)
  }

  /** The loop of call `c` of `close`: say goodbye to the next stream still in the table, or end. */
  function CloseNext(h: Host, c: nat, ids: seq<int>): Host
    requires c < |h.closes|
    decreases |ids|
  {
    if ids == [] then h.(closes := h.closes[c := true])
    else if ids[0] in h.streams then OnCloseStream(h, ids[0], NextClose(c, ids[1..]))
    else CloseNext(h, c, ids[1..])
  }

  /** The table's keys below `hi`, in the order they were added, which is ascending. */
  function Ids(streams: map<int, Stream>, hi: int): seq<int>
    decreases hi
  {
    if hi <= 1 then [] else Ids(streams, hi - 1) + (if hi - 1 in streams then [hi - 1] else [])
  }

  function OnClose(h: Host): Host {
    CloseNext(h.(closes := h.closes + [false]), |h.closes|, Ids(h.streams, h.nextLocalId))
  }

  function Resume(h: Host, follow: Follow): Host {
    match follow
    case Nothing => h
    case Announce(s) => Emitted(h, StreamUp(s))
    case NextSlice(w) => if w < |h.writes| then Advance(h, w) else h
    case NextClose(c, ids) => if c < |h.closes| then CloseNext(h, c, ids) else h
  }

  /** The latest link write of message `k` completed: its payload goes out, or,
      with nothing left to write, its sender resumes. */
  function OnLanded(h: Host, k: nat): Host {
    if k !in h.flights then h
    else
      var f := h.flights[k];
      if f.body != [] then h.(link := h.link + [Body(k)], flights := h.flights[k := f.(body := [])])
      else Resume(h.(flights := h.flights - {k}), f.follow)
  }

  // ----- Runs -----------------------------------------------------------------------

  /** Everything that can happen to a host: a message arrives, a link write
      completes, or its owner makes a call. */
  datatype Input =
    | Inbound(message: AdbMessage)
    | Landed(k: nat)
    | Connect(name: bytes)
    | Open(destination: bytes)
    | Write(id: int, payload: bytes)
    | CloseStream(id: int)
    | Close

  function Step(h: Host, i: Input): Host {
    match i
    case Inbound(m) => OnMessage(h, m)
    case Landed(k) => OnLanded(h, k)
    case Connect(name) => OnConnect(h, name)
    case Open(destination) => OnOpen(h, destination)
    case Write(id, payload) => OnWrite(h, id, payload)
    case CloseStream(id) => OnCloseStream(h, id, Nothing)
    case Close => OnClose(h)
  }

  function After(h: Host, inputs: seq<Input>): Host
    decreases |inputs|
  {
    if inputs == [] then h else After(Step(h, inputs[0]), inputs[1..])
  }

  lemma {:induction false} AfterSnoc(h: Host, inputs: seq<Input>, i: Input)
    ensures After(h, inputs + [i]) == Step(After(h, inputs), i)
    decreases |inputs|
  {
    hide Step;
    if inputs == [] {
      assert (inputs + [i])[1..] == [];
    } else {
      assert (inputs + [i])[0] == inputs[0] && (inputs + [i])[1..] == inputs[1..] + [i];
      AfterSnoc(Step(h, inputs[0]), inputs[1..], i);
    }
  }

  lemma {:induction false} AfterJoin(h: Host, a: seq<Input>, b: seq<Input>)
    ensures After(h, a + b) == After(After(h, a), b)
    decreases |a|
  {
    hide Step;
    if a == [] {
      assert a + b == b;
    } else {
      AfterJoin(Step(h, a[0]), a[1..], b);
      assert (a + b)[0] == a[0] && (a + b)[1..] == a[1..] + b;
    }
  }

  // ----- The object -------------------------------------------------------------------

  /** The bytes of a link write. */
  function PieceBytes(sent: seq<AdbMessage>, p: Piece): bytes {
    if p.message >= |sent| then []
    else match p
      case Head(k) => HeaderBytes(sent[k])
      case Body(k) => sent[k].payload
  }

  function LinkBuffers(sent: seq<AdbMessage>, link: seq<Piece>): (r: seq<bytes>)
    ensures |r| == |link|
    ensures forall i :: 0 <= i < |link| ==> r[i] == PieceBytes(sent, link[i])
  {
    seq(|link|, i requires 0 <= i < |link| => PieceBytes(sent, link[i]))
  }

  /** Link writes are of messages sent, and the payloads due are theirs. */
  predicate LinkKnown(h: Host) {
    && (forall i :: 0 <= i < |h.link| ==> h.link[i].message < |h.sent|)
    && (forall k :: k in h.flights ==> k < |h.sent| && (h.flights[k].body == [] || h.flights[k].body == h.sent[k].payload))
  }

  lemma SendBuffers(h: Host, m: AdbMessage, follow: Follow)
    requires LinkKnown(h)
    ensures var k := Send(h, m, follow);
            LinkKnown(k) && LinkBuffers(k.sent, k.link) == LinkBuffers(h.sent, h.link) + [HeaderBytes(m)]
  {
  }

  lemma BodyBuffers(h: Host, k: nat)
    requires LinkKnown(h) && k in h.flights && h.flights[k].body != []
    ensures LinkKnown(OnLanded(h, k))
    ensures LinkBuffers(h.sent, h.link + [Body(k)]) == LinkBuffers(h.sent, h.link) + [h.flights[k].body]
  {
  }

  class AdbHost {
    var streams: map<int, Stream>
    var nextLocalId: int
    var connected: bool
    var banner: bytes
    var maxPayload: nat
    var events: seq<HostEvent>
    const decoder: AdbMessageDecoder
    /** The buffers handed to the link, in order. */
    var link: seq<bytes>
    var flights: map<nat, Flight>
    var messages: nat
    var writes: seq<Writing>
    var closes: seq<bool>
    ghost var sent: seq<AdbMessage>
    ghost var pieces: seq<Piece>
    ghost var slices: seq<Slice>

    ghost predicate Valid()
      reads this
    {
      messages == |sent| && LinkKnown(View()) && link == LinkBuffers(sent, pieces)
    }

    ghost function View(): Host
      reads this
    {
      Host(streams, nextLocalId, connected, banner, maxPayload, events, sent, pieces, flights, writes, slices, closes)
    }

    constructor (limit: Option<nat>)
      ensures Valid() && fresh(decoder) && decoder.buffer == []
      ensures View() == NewHost(if limit.Some? then limit.value else ADB_LEGACY_MAX_PAYLOAD)
    {
      streams, nextLocalId, connected, banner := map[], 1, false, [];
      maxPayload := if limit.Some? then limit.value else ADB_LEGACY_MAX_PAYLOAD;
      events, link, flights, messages, writes, closes := [], [], map[], 0, [], [];
      sent, pieces, slices := [], [], [];
      decoder := new AdbMessageDecoder();
    }

    /** Up to the first wait; `OnceLanded` goes on from there. */
    method Transmit(command: int, arg0: int, arg1: int, payload: bytes, follow: Follow)
      requires Valid()
      modifies this`link, this`flights, this`messages, this`sent, this`pieces
      ensures Valid() && View() == Send(old(View()), AdbMessage(command, arg0, arg1, payload), follow)
    {
      hide LinkKnown, LinkBuffers, HeaderBytes;
      ghost var m := AdbMessage(command, arg0, arg1, payload);
      SendBuffers(View(), m, follow);
      var header := EncodeAdbHeader(AdbMessage(command, arg0, arg1, payload));
      link := link + [header];
      flights := flights[messages := Flight(payload, follow)];
      pieces := pieces + [Head(messages)];
      messages := messages + 1;
      sent := sent + [m];
    }

    method ConnectLink(name: bytes)
      requires Valid()
      modifies this`link, this`flights, this`messages, this`sent, this`pieces
      ensures Valid() && View() == OnConnect(old(View()), name)
    {
      hide LinkKnown, LinkBuffers, HeaderBytes;
      var m := AdbMessage(CNXN, ADB_VERSION, ADB_LEGACY_MAX_PAYLOAD, name);
      SendBuffers(View(), m, Nothing);
      var message := EncodeAdbMessage(m);
      assert message[..ADB_HEADER_SIZE] == HeaderBytes(m) && message[ADB_HEADER_SIZE..] == name;
      link := link + [message[..ADB_HEADER_SIZE]];
      flights := flights[messages := Flight(message[ADB_HEADER_SIZE..], Nothing)];
      pieces := pieces + [Head(messages)];
      messages := messages + 1;
      sent := sent + [m];
    }

    method OpenStream(destination: bytes) returns (localId: int)
      requires Valid()
      modifies this
      ensures Valid() && View() == OnOpen(old(View()), destination) && localId == old(nextLocalId)
    {
      localId := nextLocalId;
      nextLocalId := nextLocalId + 1;
      streams := streams[localId := Stream(localId, 0, destination, false)];
      Transmit(OPEN, localId, 0, destination + [0], Nothing);
    }

    method AcceptStream(m: AdbMessage)
      requires Valid() && m.command == OPEN
      modifies this
      ensures Valid() && View() == OnMessage(old(View()), m)
    {
      var localId := nextLocalId;
      nextLocalId := nextLocalId + 1;
      var s := Stream(localId, m.arg0, m.payload, true);
      streams := streams[localId := s];
      Transmit(OKAY, localId, m.arg0, [], Announce(s));
    }

    method Dispatch(m: AdbMessage)
      requires Valid()
      modifies this
      ensures Valid() && View() == OnMessage(old(View()), m)
    {
      hide LinkKnown, LinkBuffers;
      if m.command == CNXN {
        connected := true;
        banner := m.payload;
        if m.arg1 > 0 {
          maxPayload := m.arg1;
        }
        events := events + [Connected(banner)];
        SameLink(old(View()), View());
      } else if m.command == AUTH {
        events := events + [AuthRequired];
        SameLink(old(View()), View());
      } else if m.command == OPEN {
        AcceptStream(m);
      } else if m.arg1 in streams {
        var s := streams[m.arg1];
        if m.command == OKAY {
          if !s.open {
            var up := s.(remoteId := m.arg0, open := true);
            streams := streams[m.arg1 := up];
            events := events + [StreamUp(up)];
            SameLink(old(View()), View());
          }
        } else if m.command == WRTE {
          events := events + [DataIn(s, m.payload)];
          SameLink(old(View()), View());
          Transmit(OKAY, s.localId, s.remoteId, [], Nothing);
        } else if m.command == CLSE {
          streams := streams - {s.localId};
          events := events + [StreamDown(s)];
          SameLink(old(View()), View());
        }
      }
    }

    method DispatchAll(ms: seq<AdbMessage>)
      requires Valid()
      modifies this
      ensures Valid() && View() == OnMessages(old(View()), ms)
    {
      hide LinkKnown, LinkBuffers, OnMessage;
      for i := 0 to |ms|
        invariant Valid() && OnMessages(old(View()), ms) == OnMessages(View(), ms[i..])
      {
        assert ms[i..][1..] == ms[i + 1..];
        Dispatch(ms[i]);
      }
    }

    /** The link's data listener. */
    method OnChunk(chunk: bytes)
      requires Valid()
      modifies this, decoder
      ensures Valid()
      ensures var r := ParseAdb(old(decoder.buffer) + chunk);
              View() == OnMessages(old(View()), r.items) && decoder.buffer == r.rest
    {
      var messages := decoder.Push(chunk);
      DispatchAll(messages);
    }

    /** `write` up to its first wait. */
    method WriteStream(id: int, payload: bytes) returns (ok: bool)
      requires Valid()
      modifies this
      ensures Valid() && View() == OnWrite(old(View()), id, payload)
      ensures ok <==> id in old(streams) && old(streams[id]).open
    {
      if id !in streams || !streams[id].open {
        return false;
      }
      writes := writes + [Writing(streams[id], payload, 0, [maxPayload])];
      SliceOff(|writes| - 1);
      return true;
    }

    /** The loop condition and the body of the loop up to its wait. */
    method SliceOff(w: nat)
      requires Valid() && w < |writes|
      modifies this
      ensures Valid() && View() == LoopHead(old(View()), w)
    {
      hide LinkBuffers;
      var wr := writes[w];
      if wr.offset < |wr.payload| {
        var end := Min(wr.offset + maxPayload, |wr.payload|);
        slices := slices + [Slice(w, wr.offset, end)];
        Transmit(WRTE, wr.stream.localId, wr.stream.remoteId, wr.payload[wr.offset..end], NextSlice(w));
      }
    }

    method CloseOne(id: int, follow: Follow)
      requires Valid()
      modifies this
      ensures Valid() && View() == OnCloseStream(old(View()), id, follow)
    {
      if id in streams {
        var s := streams[id];
        streams := streams - {id};
        Transmit(CLSE, s.localId, s.remoteId, [], follow);
      }
    }

    method Keys() returns (ids: seq<int>)
      ensures ids == Ids(streams, nextLocalId)
    {
      ids := [];
      var id := 1;
      while id < nextLocalId
        invariant ids == Ids(streams, id) && (id <= nextLocalId || id == 1)
      {
        if id in streams {
          ids := ids + [id];
        }
        id := id + 1;
      }
    }

    /** `close` up to its first wait. */
    method CloseLink()
      requires Valid()
      modifies this
      ensures Valid() && View() == OnClose(old(View()))
    {
      var ids := Keys();
      closes := closes + [false];
      CloseFrom(|closes| - 1, ids);
    }

    /** The rest of the loop of `close`, up to its next wait. */
    method CloseFrom(c: nat, ids: seq<int>)
      requires Valid() && c < |closes|
      modifies this
      ensures Valid() && View() == CloseNext(old(View()), c, ids)
    {
      var i := 0;
      while i < |ids| && ids[i] !in streams
        invariant i <= |ids| && CloseNext(View(), c, ids) == CloseNext(View(), c, ids[i..])
      {
        assert ids[i..][1..] == ids[i + 1..];
        i := i + 1;
      }
      if i < |ids| {
        assert ids[i..][1..] == ids[i + 1..];
        CloseOne(ids[i], NextClose(c, ids[i + 1..]));
      } else {
        closes := closes[c := true];
      }
    }

    /** The latest link write of message `k` completed. */
    method OnceLanded(k: nat)
      requires Valid()
      modifies this
      ensures Valid() && View() == OnLanded(old(View()), k)
    {
      if k in flights {
        var f := flights[k];
        if f.body != [] {
          BodyBuffers(View(), k);
          link := link + [f.body];
          flights := flights[k := f.(body := [])];
          pieces := pieces + [Body(k)];
        } else {
          flights := flights - {k};
          Continue(f.follow);
        }
      }
    }

    /** What waited for a message goes on. */
    method Continue(follow: Follow)
      requires Valid()
      modifies this
      ensures Valid() && View() == Resume(old(View()), follow)
    {
      hide LinkBuffers;
      match follow
      case Nothing =>
      case Announce(s) =>
        events := events + [StreamUp(s)];
      case NextSlice(w) =>
        if w < |writes| {
          var wr := writes[w];
          writes := writes[w := wr.(offset := wr.offset + maxPayload, limits := wr.limits + [maxPayload])];
          SliceOff(w);
        }
      case NextClose(c, ids) =>
        if c < |closes| {
          CloseFrom(c, ids);
        }
    }

    /** The open streams, oldest first. */
    method ActiveStreams() returns (active: seq<Stream>)
      ensures active == OpenStreams(streams, Ids(streams, nextLocalId))
    {
      var ids := Keys();
      active := [];
      for i := 0 to |ids|
        invariant active == OpenStreams(streams, ids[..i])
      {
        assert ids[..i + 1][..i] == ids[..i];
        if ids[i] in streams && streams[ids[i]].open {
          active := active + [streams[ids[i]]];
        }
      }
      assert ids[..|ids|] == ids;
    }
  }

  lemma SameLink(h: Host, k: Host)
    requires k.sent == h.sent && k.link == h.link && k.flights == h.flights
    ensures LinkKnown(h) <==> LinkKnown(k)
  {
  }

  function OpenStreams(streams: map<int, Stream>, ids: seq<int>): seq<Stream> {
    if ids == [] then []
    else
      var id := ids[|ids| - 1];
      OpenStreams(streams, ids[..|ids| - 1]) + (if id in streams && streams[id].open then [streams[id]] else [])
  }
}
