/** What a stream carries when several writes to it are under way at once. */
module AdbOrder {
  import opened Bytes
  import opened AdbMessages
  import opened AdbHosts
  import opened AdbWrites
  import AdbLinks

  // ----- Steps that go on with a write, and steps that do not -----------------------------

  predicate Begins(h: Host, i: Input) {
    i.Write? && i.id in h.streams && h.streams[i.id].open
  }

  predicate Advances(h: Host, i: Input) {
    && i.Landed? && i.k in h.flights && h.flights[i.k].body == []
    && h.flights[i.k].follow.NextSlice? && h.flights[i.k].follow.write < |h.writes|
  }

  /** Such a step takes one write to its loop head: this write, in this state. */
  function HeadWrite(h: Host, i: Input): nat
    requires Begins(h, i) || Advances(h, i)
  {
    if i.Write? then |h.writes| else h.flights[i.k].follow.write
  }

  function HeadState(h: Host, i: Input): Host
    requires Begins(h, i) || Advances(h, i)
  {
    if i.Write? then Begun(h, i.id, i.payload) else Advanced(h, i.k, HeadWrite(h, i))
  }

  lemma StepIsHead(h: Host, i: Input)
    requires Begins(h, i) || Advances(h, i)
    ensures HeadWrite(h, i) < |HeadState(h, i).writes|
    ensures Step(h, i) == LoopHead(HeadState(h, i), HeadWrite(h, i))
  {
    hide LoopHead;
  }

  /** The writes are as they were, and no WRTE was sent. */
  ghost predicate Plain(h: Host, k: Host) {
    && WritesSame(h, k)
    && (k.sent == h.sent || exists m: AdbMessage :: m.command != WRTE && k.sent == h.sent + [m])
    && (h.maxPayload > 0 ==> k.maxPayload > 0)
  }

  lemma SendIsPlain(h: Host, j: Host, m: AdbMessage, follow: Follow)
    requires j.writes == h.writes && j.slices == h.slices && j.sent == h.sent && j.flights.Keys <= h.flights.Keys
    requires forall n :: n in j.flights ==> j.flights[n] == h.flights[n]
    requires j.maxPayload == h.maxPayload && m.command != WRTE && !follow.NextSlice?
    ensures Plain(h, Send(j, m, follow))
  {
  }

  lemma {:induction false} CloseNextIsPlain(h: Host, j: Host, c: nat, ids: seq<int>)
    requires j.writes == h.writes && j.slices == h.slices && j.sent == h.sent && j.flights.Keys <= h.flights.Keys
    requires forall n :: n in j.flights ==> j.flights[n] == h.flights[n]
    requires j.maxPayload == h.maxPayload && c < |j.closes|
    ensures Plain(h, CloseNext(j, c, ids))
    decreases |ids|
  {
    if ids != [] && ids[0] in j.streams {
      var s := j.streams[ids[0]];
      SendIsPlain(h, j.(streams := j.streams - {ids[0]}), AdbMessage(CLSE, s.localId, s.remoteId, []), NextClose(c, ids[1..]));
    } else if ids != [] {
      CloseNextIsPlain(h, j, c, ids[1..]);
    }
  }

  lemma MessageIsPlain(h: Host, m: AdbMessage)
    ensures Plain(h, OnMessage(h, m))
  {
    if m.command == OPEN {
      var id := h.nextLocalId;
      var s := Stream(id, m.arg0, m.payload, true);
      SendIsPlain(h, h.(nextLocalId := id + 1, streams := h.streams[id := s]), AdbMessage(OKAY, id, m.arg0, []), Announce(s));
    } else if m.command == WRTE && m.arg1 in h.streams {
      var s := h.streams[m.arg1];
      SendIsPlain(h, Emitted(h, DataIn(s, m.payload)), AdbMessage(OKAY, s.localId, s.remoteId, []), Nothing);
    }
  }

  lemma OtherStepsArePlain(h: Host, i: Input)
    requires !Begins(h, i) && !Advances(h, i)
    ensures Plain(h, Step(h, i))
  {
    hide Plain, OnMessage, CloseNext;
    match i
    case Inbound(m) => MessageIsPlain(h, m);
    case Landed(k) => LandingIsPlain(h, k);
    case Connect(name) => SendIsPlain(h, h, AdbMessage(CNXN, ADB_VERSION, ADB_LEGACY_MAX_PAYLOAD, name), Nothing);
    case Open(destination) =>
      var id := h.nextLocalId;
      SendIsPlain(h, h.(nextLocalId := id + 1, streams := h.streams[id := Stream(id, 0, destination, false)]),
                  AdbMessage(OPEN, id, 0, destination + [0]), Nothing);
    case Write(_, _) => SameIsPlain(h, h);
    case CloseStream(id) =>
      if id in h.streams {
        var s := h.streams[id];
        SendIsPlain(h, h.(streams := h.streams - {id}), AdbMessage(CLSE, s.localId, s.remoteId, []), Nothing);
      } else {
        SameIsPlain(h, h);
      }
    case Close =>
      CloseNextIsPlain(h, h.(closes := h.closes + [false]), |h.closes|, Ids(h.streams, h.nextLocalId));
  }

  lemma SameIsPlain(h: Host, k: Host)
    requires k.writes == h.writes && k.slices == h.slices && k.sent == h.sent && k.maxPayload == h.maxPayload
    requires k.flights.Keys <= h.flights.Keys && forall n :: n in k.flights ==> k.flights[n].follow == h.flights[n].follow
    ensures Plain(h, k)
  {
  }

  lemma LandingIsPlain(h: Host, k: nat)
    requires !Advances(h, Landed(k))
    ensures Plain(h, OnLanded(h, k))
  {
    hide Plain, CloseNext, LoopHead;
    if k in h.flights && h.flights[k].body == [] {
      var j := h.(flights := h.flights - {k});
      match h.flights[k].follow
      case NextClose(c, ids) =>
        if c < |j.closes| { CloseNextIsPlain(h, j, c, ids); } else { SameIsPlain(h, j); }
      case _ => SameIsPlain(h, OnLanded(h, k));
    } else {
      SameIsPlain(h, OnLanded(h, k));
    }
  }

  // ----- The writes' own invariant ------------------------------------------------------

  lemma KnownFlights(h: Host)
    requires LinkKnown(h)
    ensures FlightsKnown(h)
  {
  }

  lemma HeadIsReady(h: Host, i: Input)
    requires LinkKnown(h) && WritesInv(h) && (Begins(h, i) || Advances(h, i))
    ensures HeadWrite(h, i) < |HeadState(h, i).writes|
    ensures OthersInv(HeadState(h, i), HeadWrite(h, i)) && AtHead(HeadState(h, i), HeadWrite(h, i))
  {
    hide WritesInv, OthersInv, AtHead, LinkKnown, FlightsKnown;
    KnownFlights(h);
    if i.Write? {
      BegunIsReady(h, i.id, i.payload);
      BegunIsAtHead(h, i.id, i.payload);
    } else {
      var w := HeadWrite(h, i);
      assert Waits(h, i.k, w);
      AdvancedIsReady(h, i.k, w);
      AdvancedIsAtHead(h, i.k, w);
    }
  }

  lemma StepKeepsWrites(h: Host, i: Input)
    requires LinkKnown(h) && WritesInv(h)
    ensures WritesInv(Step(h, i))
  {
    hide WritesInv, LinkKnown, Step, OthersInv, AtHead, LoopHead, HeadState, HeadWrite;
    if Begins(h, i) || Advances(h, i) {
      HeadIsReady(h, i);
      StepIsHead(h, i);
      LoopHeadKeepsWrites(HeadState(h, i), HeadWrite(h, i));
    } else {
      OtherStepsArePlain(h, i);
      SameKeepsWrites(h, Step(h, i));
    }
  }

  // ----- What is sent is what was cut ---------------------------------------------------------

  /** The payloads of the WRTEs among `ms` that come from stream `id`, in order. */
  function BodiesFrom(ms: seq<AdbMessage>, id: int): seq<bytes> {
    if ms == [] then []
    else
      var m := ms[|ms| - 1];
      BodiesFrom(ms[..|ms| - 1], id) + (if m.command == WRTE && m.arg0 == id then [m.payload] else [])
  }

  lemma BodiesSnoc(ms: seq<AdbMessage>, m: AdbMessage, id: int)
    ensures BodiesFrom(ms + [m], id) == BodiesFrom(ms, id) + (if m.command == WRTE && m.arg0 == id then [m.payload] else [])
  {
    assert (ms + [m])[..|ms|] == ms;
  }

  /** The slice is of a write to stream `id`. */
  predicate On(writes: seq<Writing>, s: Slice, id: int) {
    && s.write < |writes| && writes[s.write].stream.localId == id
    && s.lo <= s.hi <= |writes[s.write].payload|
  }

  function SliceBodies(writes: seq<Writing>, slices: seq<Slice>, id: int): seq<bytes> {
    if slices == [] then []
    else
      var s := slices[|slices| - 1];
      SliceBodies(writes, slices[..|slices| - 1], id)
        + (if On(writes, s, id) then [writes[s.write].payload[s.lo..s.hi]] else [])
  }

  lemma SliceBodiesSnoc(writes: seq<Writing>, slices: seq<Slice>, s: Slice, id: int)
    ensures SliceBodies(writes, slices + [s], id)
         == SliceBodies(writes, slices, id) + (if On(writes, s, id) then [writes[s.write].payload[s.lo..s.hi]] else [])
  {
    assert (slices + [s])[..|slices|] == slices;
  }

  /** The writes in `b` are those in `a`, further on, and perhaps more. */
  predicate GoOn(a: seq<Writing>, b: seq<Writing>) {
    && |a| <= |b|
    && forall w :: 0 <= w < |a| ==> b[w].stream == a[w].stream && b[w].payload == a[w].payload
  }

  predicate AllFit(writes: seq<Writing>, slices: seq<Slice>) {
    forall i :: 0 <= i < |slices| ==> slices[i].write < |writes|
  }

  lemma {:induction false} SliceBodiesStay(a: seq<Writing>, b: seq<Writing>, slices: seq<Slice>, id: int)
    requires GoOn(a, b) && AllFit(a, slices)
    ensures SliceBodies(b, slices, id) == SliceBodies(a, slices, id)
  {
    if slices != [] {
      var front, s := slices[..|slices| - 1], slices[|slices| - 1];
      assert AllFit(a, front);
      SliceBodiesStay(a, b, front, id);
      assert On(a, s, id) <==> On(b, s, id);
    }
  }

  predicate BodiesInv(h: Host, id: int) {
    BodiesFrom(h.sent, id) == SliceBodies(h.writes, h.slices, id)
  }

  lemma HeadGoesOn(h: Host, i: Input)
    requires Begins(h, i) || Advances(h, i)
    ensures var j := HeadState(h, i);
            GoOn(h.writes, j.writes) && j.slices == h.slices && j.sent == h.sent && j.maxPayload == h.maxPayload
  {
  }

  lemma LoopHeadKeepsBodies(h: Host, w: nat, id: int)
    requires w < |h.writes| && BodiesInv(h, id)
    ensures BodiesInv(LoopHead(h, w), id)
  {
    hide BodiesFrom, SliceBodies;
    var wr := h.writes[w];
    if wr.offset < |wr.payload| {
      var end := Min(wr.offset + h.maxPayload, |wr.payload|);
      BodiesSnoc(h.sent, AdbMessage(WRTE, wr.stream.localId, wr.stream.remoteId, wr.payload[wr.offset..end]), id);
      SliceBodiesSnoc(h.writes, h.slices, Slice(w, wr.offset, end), id);
    }
  }

  lemma StepKeepsBodies(h: Host, i: Input, id: int)
    requires WritesInv(h) && BodiesInv(h, id)
    ensures BodiesInv(Step(h, i), id)
  {
    assert AllFit(h.writes, h.slices) by { SlicesFit(h); }
    hide WritesInv, Step, LoopHead, HeadState, HeadWrite, BodiesFrom, SliceBodies, WritesSame, On;
    if Begins(h, i) || Advances(h, i) {
      StepIsHead(h, i);
      HeadGoesOn(h, i);
      SliceBodiesStay(h.writes, HeadState(h, i).writes, h.slices, id);
      LoopHeadKeepsBodies(HeadState(h, i), HeadWrite(h, i), id);
    } else {
      var k := Step(h, i);
      OtherStepsArePlain(h, i);
      assert k.writes == h.writes && k.slices == h.slices by { SameWrites(h, k); }
      if k.sent != h.sent {
        var m: AdbMessage :| m.command != WRTE && k.sent == h.sent + [m];
        BodiesSnoc(h.sent, m, id);
      }
    }
  }

  lemma SameWrites(h: Host, k: Host)
    requires WritesSame(h, k)
    ensures k.writes == h.writes && k.slices == h.slices
  {
  }

  lemma SlicesFit(h: Host)
    requires WritesInv(h)
    ensures AllFit(h.writes, h.slices)
    ensures forall i :: 0 <= i < |h.slices| ==> On(h.writes, h.slices[i], h.writes[h.slices[i].write].stream.localId)
  {
    forall i | 0 <= i < |h.slices|
      ensures h.slices[i].write < |h.writes|
      ensures On(h.writes, h.slices[i], h.writes[h.slices[i].write].stream.localId)
    {
      assert SliceFits(h, h.slices[i]);
    }
  }

  // ----- Writes start in the order they were begun -----------------------------------------

  predicate HasSlice(slices: seq<Slice>, n: nat, w: nat) {
    exists a :: 0 <= a < n && a < |slices| && slices[a].write == w
  }

  /** Before a slice of one write there is a slice of every earlier write that has any. */
  predicate FirstsInv(h: Host) {
    forall i, w :: 0 <= i < |h.slices| && 0 <= w < h.slices[i].write && w < |h.writes| && h.writes[w].payload != [] ==>
      HasSlice(h.slices, i, w)
  }

  lemma {:induction false} SlicesOfFound(slices: seq<Slice>, w: nat)
    requires SlicesOf(slices, w) != []
    ensures HasSlice(slices, |slices|, w)
  {
    if slices != [] {
      var front, s := slices[..|slices| - 1], slices[|slices| - 1];
      if s.write != w {
        SlicesOfFound(front, w);
        var a :| 0 <= a < |front| && front[a].write == w;
        assert slices[a].write == w;
      } else {
        assert slices[|slices| - 1].write == w;
      }
    }
  }

  lemma RecordedHasSlice(h: Host, w: nat)
    requires w < |h.writes| && Recorded(h.writes[w], SlicesOf(h.slices, w)) && h.writes[w].payload != []
    ensures HasSlice(h.slices, |h.slices|, w)
  {
    var wr := h.writes[w];
    assert Reach(wr.limits, 0) == 0;
    assert |Cuts(wr.limits, |wr.payload|)| > 0;
    SlicesOfFound(h.slices, w);
  }

  lemma LoopHeadKeepsFirsts(h: Host, w: nat)
    requires w < |h.writes| && OthersInv(h, w) && FirstsInv(h)
    ensures FirstsInv(LoopHead(h, w))
  {
    var k, wr := LoopHead(h, w), h.writes[w];
    hide Recorded, SlicesOf;
    if wr.offset < |wr.payload| {
      forall i, v | 0 <= i < |k.slices| && 0 <= v < k.slices[i].write && v < |k.writes| && k.writes[v].payload != []
        ensures HasSlice(k.slices, i, v)
      {
        if i < |h.slices| {
          assert HasSlice(h.slices, i, v);
          var a :| 0 <= a < i && a < |h.slices| && h.slices[a].write == v;
          assert k.slices[a].write == v;
        } else {
          RecordedHasSlice(h, v);
          var a :| 0 <= a < |h.slices| && h.slices[a].write == v;
          assert k.slices[a].write == v;
        }
      }
    }
  }

  lemma HeadKeepsFirsts(h: Host, i: Input)
    requires FirstsInv(h) && AllFit(h.writes, h.slices) && (Begins(h, i) || Advances(h, i))
    ensures FirstsInv(HeadState(h, i))
  {
    hide HasSlice, HeadState, HeadWrite;
    HeadGoesOn(h, i);
  }

  lemma StepKeepsFirsts(h: Host, i: Input)
    requires LinkKnown(h) && WritesInv(h) && FirstsInv(h)
    ensures FirstsInv(Step(h, i))
  {
    SlicesFit(h);
    hide WritesInv, LinkKnown, Step, LoopHead, HeadState, HeadWrite, OthersInv, AtHead, On;
    if Begins(h, i) || Advances(h, i) {
      HeadIsReady(h, i);
      StepIsHead(h, i);
      HeadKeepsFirsts(h, i);
      LoopHeadKeepsFirsts(HeadState(h, i), HeadWrite(h, i));
    } else {
      OtherStepsArePlain(h, i);
    }
  }

  // ----- Limits stay positive ---------------------------------------------------------------

  predicate AllPositive(limits: seq<nat>) {
    forall i :: 0 <= i < |limits| ==> limits[i] > 0
  }

  predicate PositiveInv(h: Host) {
    h.maxPayload > 0 && forall w :: 0 <= w < |h.writes| ==> AllPositive(h.writes[w].limits)
  }

  /** A payload limit that starts positive stays positive, and so every write reads only such limits. */
  lemma StepKeepsPositive(h: Host, i: Input)
    requires PositiveInv(h)
    ensures PositiveInv(Step(h, i))
  {
    hide Step, AllPositive;
    if Begins(h, i) || Advances(h, i) {
      StepIsHead(h, i);
      HeadKeepsPositive(h, i);
    } else {
      OtherStepsArePlain(h, i);
    }
  }

  lemma HeadKeepsPositive(h: Host, i: Input)
    requires PositiveInv(h) && (Begins(h, i) || Advances(h, i))
    ensures PositiveInv(HeadState(h, i))
  {
    if i.Landed? {
      assert AllPositive(h.writes[HeadWrite(h, i)].limits);
    }
  }

  // ----- Over runs --------------------------------------------------------------------------

  ghost predicate OrderInv(h: Host, id: int) {
    AdbLinks.LinkInv(h) && WritesInv(h) && BodiesInv(h, id) && FirstsInv(h)
  }

  lemma LinkInvKnows(h: Host)
    requires AdbLinks.LinkInv(h)
    ensures LinkKnown(h)
  {
  }

  lemma StepKeepsOrder(h: Host, i: Input, id: int)
    requires OrderInv(h, id)
    ensures OrderInv(Step(h, i), id)
  {
    hide AdbLinks.LinkInv, WritesInv, BodiesInv, FirstsInv, Step, LinkKnown;
    LinkInvKnows(h);
    AdbLinks.StepKeepsLink(h, i);
    StepKeepsWrites(h, i);
    StepKeepsBodies(h, i, id);
    StepKeepsFirsts(h, i);
  }

  lemma {:induction false} RunKeepsOrder(h: Host, inputs: seq<Input>, id: int)
    requires OrderInv(h, id)
    ensures OrderInv(After(h, inputs), id)
    ensures PositiveInv(h) ==> PositiveInv(After(h, inputs))
    decreases |inputs|
  {
    hide OrderInv, Step, PositiveInv;
    if inputs != [] {
      StepKeepsOrder(h, inputs[0], id);
      if PositiveInv(h) { StepKeepsPositive(h, inputs[0]); }
      RunKeepsOrder(Step(h, inputs[0]), inputs[1..], id);
    }
  }

  lemma NewHostOrder(limit: nat, id: int)
    ensures OrderInv(NewHost(limit), id) && (limit > 0 ==> PositiveInv(NewHost(limit)))
  {
    AdbLinks.NewHostLink(limit);
  }

  /** Over every run, each write has sent exactly the ranges its loop cut, and the
      WRTEs sent for a stream carry the slices of the writes to it, in order. */
  lemma WritesAreRecorded(limit: nat, inputs: seq<Input>, id: int)
    ensures var h := After(NewHost(limit), inputs);
            && WritesInv(h) && BodiesInv(h, id) && FirstsInv(h) && (limit > 0 ==> PositiveInv(h))
  {
    NewHostOrder(limit, id);
    hide PositiveInv;
    RunKeepsOrder(NewHost(limit), inputs, id);
  }
}
