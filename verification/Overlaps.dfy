/** Writes that overlap: what a print job does to the link when it answers two
    frames of one chunk, and what the printer then reads. */
module Overlaps {
  import opened Bytes
  import opened Incremental
  import opened Frames
  import opened Session
  import opened SessionRuns
  import Jobs
  import opened AdbMessages
  import opened AdbHosts
  import opened AdbWrites
  import opened AdbLinks
  import opened AdbOrder
  import opened AdbPlaces
  import AdbDiscipline

  // ----- The job does not wait -----------------------------------------------------------

  /** A data request and a heartbeat that arrive in one chunk are both answered
      at once: the job calls `write` for the heartbeat before its `write` of the
      data frame can have completed. */
  lemma OneChunkTwoWrites(cfg: Config, request: Frame)
    requires 0 < |cfg.image| < TWO31 && IsRequest(request) && |request.payload| < TWO31
    requires WantedOffset(request, 0) < |cfg.image|
    ensures var chunk := FrameBytes(request) + HeartbeatBytes();
            var j := Jobs.OnData(cfg, Jobs.Begin([]), chunk);
            && Jobs.Datas(j.writes) == [StartBytes(), FrameBytes(DataFrame(cfg, request, WantedOffset(request, 0))), HeartbeatBytes()]
            && forall i :: 0 <= i < |j.writes| ==> j.writes[i].fate.Pending?
  {
    hide ParseFrames, FrameBytes, Jobs.OnFrames, StartBytes, IsRequest, WantedOffset, DataFrame, Jobs.Datas;
    var beat := Frame(HEARTBEAT, 1, 0, 0, []);
    var j0 := Jobs.Begin([]);
    assert FrameBytes(beat) == HeartbeatBytes();
    hide HeartbeatBytes;
    TwoFramesParse(request, beat);
    BothAnswered(cfg, j0, request, beat);
    OneChunk(cfg, FrameBytes(request) + FrameBytes(beat), [request, beat]);
    var data := FrameBytes(DataFrame(cfg, request, WantedOffset(request, 0)));
    ThreeWrites(Jobs.OnFrames(cfg, j0, [request, beat]).writes, data, HeartbeatBytes());
  }

  lemma OneChunk(cfg: Config, chunk: bytes, frames: seq<Frame>)
    requires ParseFrames(chunk) == Parsed(frames, [])
    ensures Jobs.OnData(cfg, Jobs.Begin([]), chunk) == Jobs.OnFrames(cfg, Jobs.Begin([]), frames)
  {
    hide ParseFrames, Jobs.OnFrames;
    assert [] + chunk == chunk;
  }

  lemma ThreeWrites(writes: seq<Jobs.Write>, data: bytes, beat: bytes)
    requires writes == [Jobs.Write(StartBytes(), false, Jobs.Pending)]
      + [Jobs.Write(data, false, Jobs.Pending), Jobs.Write(beat, false, Jobs.Pending)]
    ensures Jobs.Datas(writes) == [StartBytes(), data, beat]
    ensures forall i :: 0 <= i < |writes| ==> writes[i].fate.Pending?
  {
    hide StartBytes;
  }

  lemma TwoFramesParse(f: Frame, g: Frame)
    requires |f.payload| < TWO31 && |g.payload| < TWO31
    ensures ParseFrames(FrameBytes(f) + FrameBytes(g)) == Parsed([f, g], [])
  {
    hide FrameBytes, ParseFrames;
    ParseFrameBytes(f, FrameBytes(g));
    WholeFrame(g);
    assert [f] + [g] == [f, g];
  }

  lemma BothAnswered(cfg: Config, j: Jobs.Job, request: Frame, beat: Frame)
    requires 0 < |cfg.image| < TWO31 && IsRequest(request) && WantedOffset(request, j.session.bytesSent) < |cfg.image|
    requires j.listening && beat == Frame(HEARTBEAT, 1, 0, 0, [])
    ensures Jobs.OnFrames(cfg, j, [request, beat]).writes == j.writes +
      [Jobs.Write(FrameBytes(DataFrame(cfg, request, WantedOffset(request, j.session.bytesSent))), false, Jobs.Pending),
       Jobs.Write(HeartbeatBytes(), false, Jobs.Pending)]
    ensures Jobs.OnFrames(cfg, j, [request, beat]).buffer == j.buffer
  {
    hide FrameBytes, HeartbeatBytes;
    var one := Jobs.OnFrame(cfg, j, request);
    var two := Jobs.OnFrame(cfg, one, beat);
    assert one.listening && one.buffer == j.buffer && two.buffer == j.buffer;
    assert two.writes == one.writes + [Jobs.Write(HeartbeatBytes(), false, Jobs.Pending)];
    hide Jobs.OnFrame;
    assert [request, beat][1..] == [beat] && [beat][1..] == [];
    assert Jobs.OnFrames(cfg, two, []) == two;
    assert Jobs.OnFrames(cfg, one, [beat]) == two;
  }

  // ----- What that does to the link ---------------------------------------------------------

  lemma WriteSends(h: Host, id: int, payload: bytes)
    requires id in h.streams && h.streams[id].open && payload != []
    ensures var k := OnWrite(h, id, payload);
            && |k.sent| == |h.sent| + 1 && k.streams == h.streams && k.maxPayload == h.maxPayload
            && (h.maxPayload > 0 ==> BodyDue(k, |h.sent|))
  {
  }

  /** Two writes, to whatever streams, with no link write completing between them:
      the header of the second lands where the payload of the first should be,
      and from then on the link is never whole again. */
  lemma OverlappingWritesBreakTheLink(h: Host, id1: int, p1: bytes, id2: int, p2: bytes, after: seq<Input>)
    requires LinkInv(h) && h.maxPayload > 0 && p1 != [] && p2 != []
    requires id1 in h.streams && h.streams[id1].open && id2 in h.streams && h.streams[id2].open
    ensures var k := After(h, [Write(id1, p1), Write(id2, p2)] + after);
            !Unbroken(k.sent, k.link) && k.link != InOrder(k.sent, |k.sent|)
  {
    hide LinkInv, Unbroken, InOrder, OnWrite, Patient;
    var run := [Write(id1, p1), Write(id2, p2)] + after;
    WriteSends(h, id1, p1);
    var j := Step(h, run[0]);
    WriteSends(j, id2, p2);
    assert BodyDue(j, |h.sent|);
    assert Sends(j, run[1]);
    assert run[1..][0] == run[1];
    hide Step;
    RunKeepsLink(h, run);
    SendsWhileDue(j, run[1..], |h.sent|);
    ImpatientTail(h, run);
    var k := After(h, run);
    InOrderIsWhole(k.sent, |k.sent|);
  }

  lemma SendsWhileDue(h: Host, inputs: seq<Input>, k: nat)
    requires inputs != [] && Sends(h, inputs[0]) && BodyDue(h, k)
    ensures !Patient(h, inputs)
  {
  }

  lemma ImpatientTail(h: Host, inputs: seq<Input>)
    requires inputs != [] && !Patient(Step(h, inputs[0]), inputs[1..])
    ensures !Patient(h, inputs)
  {
  }


  // ----- And, with the link whole, to the stream ---------------------------------------------

  /** The first write's payload goes out, then a second write begins and is over
      before the first resumes. */
  function Schedule(id: int, p: bytes, q: bytes, k: nat): seq<Input> {
    [Write(id, p), Landed(k), Write(id, q), Landed(k + 1), Landed(k + 1), Landed(k), Landed(k + 2)]
  }

  function WrteOf(s: Stream, body: bytes): AdbMessage {
    AdbMessage(WRTE, s.localId, s.remoteId, body)
  }

  lemma AfterTwo(h: Host, i: Input, j: Input)
    ensures After(h, [i, j]) == Step(Step(h, i), j)
  {
    hide Step;
    assert [i, j][1..] == [j] && [j][1..] == [];
    var k := Step(Step(h, i), j);
    assert After(k, []) == k;
    assert After(Step(h, i), [j]) == k;
  }

  /** A write, and its payload put on the link. */
  lemma FirstSlice(h: Host, id: int, p: bytes)
    requires id in h.streams && h.streams[id].open && h.maxPayload > 0 && p != []
    ensures var L := h.maxPayload;
            var k := |h.sent|;
            var j := After(h, [Write(id, p), Landed(k)]);
            && j.sent == h.sent + [WrteOf(h.streams[id], p[..Min(L, |p|)])]
            && j.slices == h.slices + [Slice(|h.writes|, 0, Min(L, |p|))]
            && j.writes == h.writes + [Writing(h.streams[id], p, 0, [L])]
            && j.flights == h.flights[k := Flight([], NextSlice(|h.writes|))]
            && j.streams == h.streams && j.maxPayload == L
            && j.link == h.link + [Head(k), Body(k)]
  {
    hide OnLanded, OnWrite;
    Begin(h, id, p);
    BodyGoes(OnWrite(h, id, p), |h.sent|);
    AfterTwo(h, Write(id, p), Landed(|h.sent|));
    assert h.link + [Head(|h.sent|)] + [Body(|h.sent|)] == h.link + [Head(|h.sent|), Body(|h.sent|)];
  }

  lemma Begin(h: Host, id: int, p: bytes)
    requires id in h.streams && h.streams[id].open && h.maxPayload > 0 && p != []
    ensures var L := h.maxPayload;
            var first := p[..Min(L, |p|)];
            OnWrite(h, id, p) == h.(
              sent := h.sent + [WrteOf(h.streams[id], first)], link := h.link + [Head(|h.sent|)],
              flights := h.flights[|h.sent| := Flight(first, NextSlice(|h.writes|))],
              writes := h.writes + [Writing(h.streams[id], p, 0, [L])],
              slices := h.slices + [Slice(|h.writes|, 0, Min(L, |p|))])
            && first != []
  {
    assert p[0..Min(h.maxPayload, |p|)] == p[..Min(h.maxPayload, |p|)];
  }

  lemma BodyGoes(h: Host, k: nat)
    requires k in h.flights && h.flights[k].body != []
    ensures OnLanded(h, k) == h.(link := h.link + [Body(k)], flights := h.flights[k := h.flights[k].(body := [])])
  {
  }

  /** A write whose one slice was all of it ends when that has landed. */
  lemma WriteEnds(h: Host, k: nat, w: nat)
    requires k in h.flights && h.flights[k] == Flight([], NextSlice(w)) && w < |h.writes|
    requires h.writes[w].offset + h.maxPayload >= |h.writes[w].payload|
    ensures var j := Step(h, Landed(k));
            && j.sent == h.sent && j.slices == h.slices && j.link == h.link && j.flights == h.flights - {k}
            && GoOn(h.writes, j.writes) && |j.writes| == |h.writes| && j.maxPayload == h.maxPayload
            && forall v :: 0 <= v < |h.writes| && v != w ==> j.writes[v] == h.writes[v]
  {
  }

  /** A write that has more to send goes on when its slice has landed. */
  lemma WriteGoesOn(h: Host, k: nat, w: nat)
    requires k in h.flights && h.flights[k] == Flight([], NextSlice(w)) && w < |h.writes| && h.maxPayload > 0
    requires var wr := h.writes[w]; wr.offset + h.maxPayload < |wr.payload| <= wr.offset + 2 * h.maxPayload
    ensures var wr := h.writes[w];
            var at := wr.offset + h.maxPayload;
            var n := |h.sent|;
            var j := After(h, [Landed(k), Landed(n)]);
            && j.sent == h.sent + [WrteOf(wr.stream, wr.payload[at..])]
            && j.slices == h.slices + [Slice(w, at, |wr.payload|)]
            && j.link == h.link + [Head(n), Body(n)]
            && j.writes == h.writes[w := wr.(offset := at, limits := wr.limits + [h.maxPayload])]
  {
    var wr := h.writes[w];
    var at := wr.offset + h.maxPayload;
    var j1 := Step(h, Landed(k));
    assert wr.payload[at..|wr.payload|] == wr.payload[at..];
    assert j1.flights[|h.sent|] == Flight(wr.payload[at..], NextSlice(w));
    assert j1.link == h.link + [Head(|h.sent|)];
    var j2 := Step(j1, Landed(|h.sent|));
    assert j2.link == h.link + [Head(|h.sent|), Body(|h.sent|)];
    hide Step;
    AfterTwo(h, Landed(k), Landed(|h.sent|));
  }

  /** Although every message stands whole on the link, a write of two slices and
      a write of one that begins between them put the second between the two. */
  lemma SlicesInterleave(h: Host, id: int, p: bytes, q: bytes)
    requires LinkKnown(h) && id in h.streams && h.streams[id].open
    requires 0 < h.maxPayload < |p| <= 2 * h.maxPayload && 0 < |q| <= h.maxPayload
    ensures var L, k, w, s := h.maxPayload, |h.sent|, |h.writes|, h.streams[id];
            var j := After(h, Schedule(id, p, q, k));
            && j.sent == h.sent + [WrteOf(s, p[..L]), WrteOf(s, q), WrteOf(s, p[L..])]
            && j.slices == h.slices + [Slice(w, 0, L), Slice(w + 1, 0, |q|), Slice(w, L, |p|)]
            && j.link == h.link + [Head(k), Body(k), Head(k + 1), Body(k + 1), Head(k + 2), Body(k + 2)]
            && !Serial(j.writes, j.slices, s.localId)
  {
    hide Serial, LinkKnown, Step, Schedule, After, GoOn;
    var L, k, w, s := h.maxPayload, |h.sent|, |h.writes|, h.streams[id];
    var h2 := BothBegun(h, id, p, q);
    WriteEnds(h2, k + 1, w + 1);
    var h3 := Step(h2, Landed(k + 1));
    assert h3.writes[w] == h2.writes[w];
    WriteGoesOn(h3, k, w);
    ThirdLeg(h2, k);
    ScheduleRuns(h, id, p, q, k);
    var j := After(h3, [Landed(k), Landed(k + 2)]);
    assert j.writes[w + 1].stream == s && j.writes[w + 1].payload == q by { assert GoOn(h2.writes, h3.writes); WentOn(h2, h3, w + 1); }
    NotSerial(j, |h.slices|, w, L, s.localId);
  }

  lemma WentOn(h: Host, j: Host, w: nat)
    requires GoOn(h.writes, j.writes) && w < |h.writes|
    ensures w < |j.writes| && j.writes[w].stream == h.writes[w].stream && j.writes[w].payload == h.writes[w].payload
  {
  }

  /** The state in which both writes have their first slice out and wait. */
  lemma BothBegun(h: Host, id: int, p: bytes, q: bytes) returns (j: Host)
    requires LinkKnown(h) && id in h.streams && h.streams[id].open
    requires 0 < h.maxPayload < |p| && 0 < |q| <= h.maxPayload
    ensures var L, k, w, s := h.maxPayload, |h.sent|, |h.writes|, h.streams[id];
            && j == After(After(h, [Write(id, p), Landed(k)]), [Write(id, q), Landed(k + 1)])
            && j.sent == h.sent + [WrteOf(s, p[..L]), WrteOf(s, q)]
            && j.slices == h.slices + [Slice(w, 0, L), Slice(w + 1, 0, |q|)]
            && j.link == h.link + [Head(k), Body(k), Head(k + 1), Body(k + 1)]
            && j.writes == h.writes + [Writing(s, p, 0, [L]), Writing(s, q, 0, [L])]
            && k in j.flights && j.flights[k] == Flight([], NextSlice(w))
            && k + 1 in j.flights && j.flights[k + 1] == Flight([], NextSlice(w + 1))
            && j.maxPayload == L
  {
    hide After, LinkKnown;
    var k := |h.sent|;
    FirstSlice(h, id, p);
    var h1 := After(h, [Write(id, p), Landed(k)]);
    FirstSlice(h1, id, q);
    assert q[..Min(h.maxPayload, |q|)] == q;
    j := After(h1, [Write(id, q), Landed(k + 1)]);
  }

  lemma ThirdLeg(h: Host, k: nat)
    ensures After(h, [Landed(k + 1), Landed(k), Landed(k + 2)]) == After(Step(h, Landed(k + 1)), [Landed(k), Landed(k + 2)])
  {
    hide Step;
    assert [Landed(k + 1), Landed(k), Landed(k + 2)][1..] == [Landed(k), Landed(k + 2)];
  }

  lemma ScheduleRuns(h: Host, id: int, p: bytes, q: bytes, k: nat)
    ensures After(h, Schedule(id, p, q, k))
         == After(After(After(h, [Write(id, p), Landed(k)]), [Write(id, q), Landed(k + 1)]), [Landed(k + 1), Landed(k), Landed(k + 2)])
  {
    hide After;
    var a, b, c := [Write(id, p), Landed(k)], [Write(id, q), Landed(k + 1)], [Landed(k + 1), Landed(k), Landed(k + 2)];
    assert Schedule(id, p, q, k) == a + (b + c);
    AfterJoin(h, a, b + c);
    AfterJoin(After(h, a), b, c);
  }

  lemma NotSerial(h: Host, n: nat, w: nat, cut: nat, id: int)
    requires n + 3 == |h.slices| && w + 2 == |h.writes|
    requires h.writes[w].stream.localId == id && h.writes[w + 1].stream.localId == id && cut <= |h.writes[w].payload|
    requires h.slices[n] == Slice(w, 0, cut) && h.slices[n + 1] == Slice(w + 1, 0, |h.writes[w + 1].payload|)
    requires h.slices[n + 2] == Slice(w, cut, |h.writes[w].payload|)
    ensures !Serial(h.writes, h.slices, id)
  {
    assert On(h.writes, h.slices[n], id) && On(h.writes, h.slices[n + 1], id) && On(h.writes, h.slices[n + 2], id);
  }

  // ----- A limit raised in the middle of a write --------------------------------------------

  /** A write begins, its first slice goes out, `m` arrives, and the slice lands. */
  function RaiseSchedule(id: int, p: bytes, k: nat, m: AdbMessage): seq<Input> {
    [Write(id, p), Landed(k)] + [Inbound(m), Landed(k)]
  }

  /** The loop advances by the limit of the CNXN, not by what it has sent. */
  lemma StepsOver(h: Host, k: nat, w: nat, m: AdbMessage)
    requires k in h.flights && h.flights[k] == Flight([], NextSlice(w)) && w < |h.writes|
    requires m.command == CNXN && m.arg1 > 0
    ensures var wr, r := h.writes[w], m.arg1;
            var at := wr.offset + r;
            var n := |wr.payload|;
            var j := After(h, [Inbound(m), Landed(k)]);
            && |j.writes| == |h.writes| && j.writes[w] == wr.(offset := at, limits := wr.limits + [r])
            && j.slices == h.slices + (if at < n then [Slice(w, at, Min(at + r, n))] else [])
            && j.sent == h.sent + (if at < n then [WrteOf(wr.stream, wr.payload[at..Min(at + r, n)])] else [])
  {
    var j1 := Step(h, Inbound(m));
    assert j1.flights == h.flights && j1.writes == h.writes && j1.maxPayload == m.arg1;
    var j2 := Step(j1, Landed(k));
    assert j2.writes[w].offset == h.writes[w].offset + m.arg1;
    hide Step;
    AfterTwo(h, Inbound(m), Landed(k));
  }

  /** A CNXN that raises the limit to `m.arg1` while the first slice of a write is
      under way: the next slice begins at the new limit, and there is none if the
      payload ends before it. */
  lemma RaiseDuringWrite(h: Host, id: int, p: bytes, m: AdbMessage)
    requires id in h.streams && h.streams[id].open && 0 < h.maxPayload < |p|
    requires m.command == CNXN && m.arg1 > h.maxPayload
    ensures var L, r, w, s := h.maxPayload, m.arg1, |h.writes|, h.streams[id];
            var j := After(h, RaiseSchedule(id, p, |h.sent|, m));
            && |j.writes| == w + 1 && j.writes[w] == Writing(s, p, r, [L, r])
            && j.slices == h.slices + [Slice(w, 0, L)] + (if r < |p| then [Slice(w, r, Min(2 * r, |p|))] else [])
            && j.sent == h.sent + [WrteOf(s, p[..L])] + (if r < |p| then [WrteOf(s, p[r..Min(2 * r, |p|)])] else [])
  {
    hide After;
    var k := |h.sent|;
    FirstSlice(h, id, p);
    var j := After(h, [Write(id, p), Landed(k)]);
    StepsOver(j, k, |h.writes|, m);
    AfterJoin(h, [Write(id, p), Landed(k)], [Inbound(m), Landed(k)]);
  }

  /** Whatever ran before and whatever runs afterwards, no byte of the write between
      the old limit and the new one is ever sent. */
  lemma CnxnSkipsBytes(limit: nat, before: seq<Input>, id: int, p: bytes, m: AdbMessage, after: seq<Input>)
    requires var h := After(NewHost(limit), before);
             id in h.streams && h.streams[id].open && 0 < h.maxPayload < |p| && m.arg1 > h.maxPayload
    requires m.command == CNXN
    ensures var h := After(NewHost(limit), before);
            var k := After(NewHost(limit), before + (RaiseSchedule(id, p, |h.sent|, m) + after));
            && |h.writes| < |k.writes| && k.writes[|h.writes|].payload == p
            && forall r :: r in SlicesOf(k.slices, |h.writes|) ==> r.hi <= h.maxPayload || r.lo >= m.arg1
  {
    hide After, RaiseSchedule, Cuts, Cutting, Reach, SlicesOf, SliceFits, WaitInv, BodiesInv, FirstsInv, PositiveInv;
    var h := After(NewHost(limit), before);
    var raise := RaiseSchedule(id, p, |h.sent|, m);
    RaiseDuringWrite(h, id, p, m);
    var j := After(h, raise);
    AfterJoin(NewHost(limit), before, raise + after);
    AfterJoin(h, raise, after);
    AdbDiscipline.RunGrows(j, after);
    WritesAreRecorded(limit, before + (raise + after), id);
    var k := After(NewHost(limit), before + (raise + after));
    var w := |h.writes|;
    assert AdbDiscipline.Further(j.writes[w], k.writes[w]);
    var limits := k.writes[w].limits;
    assert j.writes[w].limits <= limits && limits[0] == h.maxPayload && limits[1] == m.arg1;
    assert Recorded(k.writes[w], SlicesOf(k.slices, w));
    RaisedLimitSkipsBytes(limits, |p|);
  }

  /** Such a run, from the start: the device opens a stream and raises the limit past
      the payload. The write is over, and its first slice is all that was sent of it. */
  lemma CnxnEndsAWriteEarly(limit: nat, raised: nat, name: bytes, banner: bytes, p: bytes)
    requires 0 < limit < |p| <= raised < TWO32
    ensures var cnxn := AdbMessage(CNXN, ADB_VERSION, raised, banner);
            var run := [Inbound(AdbMessage(OPEN, 7, 0, name))] + RaiseSchedule(1, p, 1, cnxn);
            var k := After(NewHost(limit), run);
            && AllPlausible(run) && k.writes == [Writing(Stream(1, 7, name, true), p, raised, [limit, raised])]
            && AllOver(k, 1) && k.sent == [AdbMessage(OKAY, 1, 7, []), AdbMessage(WRTE, 1, 7, p[..limit])]
  {
    var cnxn := AdbMessage(CNXN, ADB_VERSION, raised, banner);
    var open := Inbound(AdbMessage(OPEN, 7, 0, name));
    var h := Step(NewHost(limit), open);
    assert h.streams[1] == Stream(1, 7, name, true) && h.writes == [];
    assert h.sent == [AdbMessage(OKAY, 1, 7, [])];
    hide Step;
    OnceAfter(NewHost(limit), open);
    hide After;
    RaiseDuringWrite(h, 1, p, cnxn);
    AfterJoin(NewHost(limit), [open], RaiseSchedule(1, p, 1, cnxn));
  }

  lemma OnceAfter(h: Host, i: Input)
    ensures After(h, [i]) == Step(h, i)
  {
    hide Step;
    var none: seq<Input> := [];
    assert [i][1..] == none;
    assert After(Step(h, i), none) == Step(h, i);
  }

  // ----- A cut link that decodes all the same ---------------------------------------------------

  /** Two writes at once, then the payload of each goes out. */
  function TwoAtOnce(id: int, p: bytes, q: bytes, k: nat): seq<Input> {
    [Write(id, p), Write(id, q), Landed(k), Landed(k + 1)]
  }

  lemma WriteOfOneSlice(h: Host, id: int, p: bytes)
    requires id in h.streams && h.streams[id].open && 0 < |p| <= h.maxPayload
    ensures var j := OnWrite(h, id, p);
            && j.sent == h.sent + [WrteOf(h.streams[id], p)] && j.link == h.link + [Head(|h.sent|)]
            && j.flights == h.flights[|h.sent| := Flight(p, NextSlice(|h.writes|))]
            && j.streams == h.streams && j.maxPayload == h.maxPayload && |j.writes| == |h.writes| + 1
  {
    assert p[..Min(h.maxPayload, |p|)] == p;
    hide OnWrite;
    Begin(h, id, p);
  }

  lemma BodyLands(h: Host, k: nat)
    requires k in h.flights && h.flights[k].body != []
    ensures var j := OnLanded(h, k);
            j.sent == h.sent && j.link == h.link + [Body(k)] && forall n :: n in h.flights && n != k ==> n in j.flights && j.flights[n] == h.flights[n]
  {
    hide OnLanded;
    BodyGoes(h, k);
  }

  lemma BothHeadersFirst(h: Host, id: int, p: bytes, q: bytes)
    requires id in h.streams && h.streams[id].open && 0 < |p| <= h.maxPayload && 0 < |q| <= h.maxPayload
    ensures var k, s := |h.sent|, h.streams[id];
            var j := After(h, TwoAtOnce(id, p, q, k));
            && j.sent == h.sent + [WrteOf(s, p), WrteOf(s, q)]
            && j.link == h.link + [Head(k), Head(k + 1), Body(k), Body(k + 1)]
  {
    hide OnLanded, OnWrite, WrteOf;
    var k := |h.sent|;
    WriteOfOneSlice(h, id, p);
    var h1 := OnWrite(h, id, p);
    WriteOfOneSlice(h1, id, q);
    var h2 := OnWrite(h1, id, q);
    BodyLands(h2, k);
    BodyLands(OnLanded(h2, k), k + 1);
    FourSteps(h, id, p, q, k);
  }

  lemma FourSteps(h: Host, id: int, p: bytes, q: bytes, k: nat)
    ensures After(h, TwoAtOnce(id, p, q, k)) == OnLanded(OnLanded(OnWrite(OnWrite(h, id, p), id, q), k), k + 1)
  {
    hide After, OnWrite, OnLanded;
    var a, b := [Write(id, p), Write(id, q)], [Landed(k), Landed(k + 1)];
    AfterTwo(h, Write(id, p), Write(id, q));
    AfterTwo(After(h, a), Landed(k), Landed(k + 1));
    AfterJoin(h, a, b);
    assert TwoAtOnce(id, p, q, k) == a + b;
  }

  /** If the payload of the first is, byte for byte, the header of the second, the far
      end cannot tell: it decodes the messages sent although none of the two stands
      whole on the link. So `LinkDecodesIffPatient` needs its proviso. */
  lemma CutLinkCanDecode(h: Host, id: int, q: bytes, chunks: seq<bytes>)
    requires LinkInv(h) && h.link == InOrder(h.sent, |h.sent|) && SentFits(h.sent)
    requires id in h.streams && h.streams[id].open && h.maxPayload >= ADB_HEADER_SIZE
    requires 0 < |q| <= h.maxPayload && |q| < TWO32
    requires var p := HeaderBytes(WrteOf(h.streams[id], q));
             Flatten(chunks) == LinkBytes(After(h, TwoAtOnce(id, p, q, |h.sent|)))
    ensures var p := HeaderBytes(WrteOf(h.streams[id], q));
            var run := TwoAtOnce(id, p, q, |h.sent|);
            var j := After(h, run);
            && Feed(DecodeAdb, [], chunks) == Parsed(WiredAll(j.sent), [])
            && j.link != InOrder(j.sent, |j.sent|) && !Patient(h, run)
  {
    var p := HeaderBytes(WrteOf(h.streams[id], q));
    hide After, HeaderBytes, DecodeAdb, InOrder, LinkInv, Unbroken, MessagesBytes, LinkBytes, Patient, TwoAtOnce, WiredAll, SentFits;
    CutLinkBytes(h, id, q);
    BytesDecode(After(h, TwoAtOnce(id, p, q, |h.sent|)).sent, chunks);
    AtOnceIsImpatient(h, id, p, q);
  }

  lemma CutLinkBytes(h: Host, id: int, q: bytes)
    requires LinkInv(h) && h.link == InOrder(h.sent, |h.sent|) && SentFits(h.sent)
    requires id in h.streams && h.streams[id].open && h.maxPayload >= ADB_HEADER_SIZE
    requires 0 < |q| <= h.maxPayload && |q| < TWO32
    ensures var p := HeaderBytes(WrteOf(h.streams[id], q));
            var j := After(h, TwoAtOnce(id, p, q, |h.sent|));
            LinkBytes(j) == MessagesBytes(j.sent) && SentFits(j.sent)
  {
    var p := HeaderBytes(WrteOf(h.streams[id], q));
    hide After, HeaderBytes, InOrder, LinkInv, MessagesBytes, LinkBytes, TwoAtOnce, LinkKnown;
    LinkInvKnows(h);
    BothHeadersFirst(h, id, p, q);
    TwoHeadersBytes(h, WrteOf(h.streams[id], p), WrteOf(h.streams[id], q), After(h, TwoAtOnce(id, p, q, |h.sent|)));
  }

  lemma AtOnceIsImpatient(h: Host, id: int, p: bytes, q: bytes)
    requires LinkInv(h) && id in h.streams && h.streams[id].open && h.maxPayload > 0 && p != [] && q != []
    ensures var run := TwoAtOnce(id, p, q, |h.sent|);
            var j := After(h, run);
            j.link != InOrder(j.sent, |j.sent|) && !Patient(h, run)
  {
    hide After, InOrder, LinkInv, Unbroken, Patient, OnWrite;
    var run := TwoAtOnce(id, p, q, |h.sent|);
    assert run == [Write(id, p), Write(id, q)] + [Landed(|h.sent|), Landed(|h.sent| + 1)];
    OverlappingWritesBreakTheLink(h, id, p, id, q, [Landed(|h.sent|), Landed(|h.sent| + 1)]);
    WriteSends(h, id, p);
    var j := Step(h, run[0]);
    WriteSends(j, id, q);
    SendsWhileDue(j, run[1..], |h.sent|);
    ImpatientTail(h, run);
  }

  /** Header, header, payload, payload is header, payload, header, payload if the
      first payload is the second header. */
  lemma TwoHeadersBytes(h: Host, m: AdbMessage, n: AdbMessage, j: Host)
    requires LinkKnown(h) && h.link == InOrder(h.sent, |h.sent|)
    requires m.payload == HeaderBytes(n) && n.payload != []
    requires j.sent == h.sent + [m, n]
    requires var k := |h.sent|; j.link == h.link + [Head(k), Head(k + 1), Body(k), Body(k + 1)]
    ensures LinkBytes(j) == MessagesBytes(j.sent)
  {
    hide HeaderBytes, InOrder, MessagesBytes;
    var k := |h.sent|;
    BuffersJoin(j.sent, h.link, [Head(k), Head(k + 1), Body(k), Body(k + 1)]);
    assert LinkBuffers(j.sent, h.link) == LinkBuffers(h.sent, h.link);
    assert LinkBuffers(j.sent, [Head(k), Head(k + 1), Body(k), Body(k + 1)])
        == [HeaderBytes(m), HeaderBytes(n), m.payload, n.payload];
    InOrderBytes(h.sent, k);
    assert h.sent[..k] == h.sent;
    hide LinkBuffers, Flatten;
    FourBytes(HeaderBytes(m), HeaderBytes(n), m.payload, n.payload);
    MessagesBytesAppend(h.sent, [m, n]);
    TwoMessagesBytes(m, n);
  }

  lemma FourBytes(a: bytes, b: bytes, c: bytes, d: bytes)
    ensures Flatten([a, b, c, d]) == (a + b) + (c + d)
  {
    hide Flatten;
    assert [a, b, c, d] == [a] + [b] + ([c] + [d]);
    FlattenAppend([a] + [b], [c] + [d]);
    FlattenAppend([a], [b]);
    FlattenAppend([c], [d]);
    FlattenOne(a);
    FlattenOne(b);
    FlattenOne(c);
    FlattenOne(d);
  }

  lemma TwoMessagesBytes(m: AdbMessage, n: AdbMessage)
    ensures MessagesBytes([m, n]) == (HeaderBytes(m) + m.payload) + (HeaderBytes(n) + n.payload)
  {
    hide HeaderBytes, MessagesBytes;
    MessagesBytesAppend([m], [n]);
    OneMessageBytes(m);
    OneMessageBytes(n);
    assert [m] + [n] == [m, n];
  }

  // ----- What the printer reads ------------------------------------------------------------

  /** A data frame cut anywhere behind its header, with another frame's bytes in the
      gap: the printer takes those for part of its payload. */
  lemma GapIsReadAsPayload(f: Frame, cut: nat, other: bytes, rest: bytes)
    requires |f.payload| < TWO31 && FRAME_HEADER_SIZE <= cut <= |FrameBytes(f)|
    ensures var gapped := FrameBytes(f)[..cut] + other + FrameBytes(f)[cut..] + rest;
            var read := ParseFrames(gapped);
            && DecodeFrame(gapped) == Complete(f.(payload := WithGap(f, cut, other)), |FrameBytes(f)|)
            && read.items != [] && read.items[0] == f.(payload := WithGap(f, cut, other))
  {
    var g := f.(payload := WithGap(f, cut, other));
    var tail := Spliced(f, cut, other)[|f.payload|..] + rest;
    GapMoves(f, cut, other, rest);
    hide FrameBytes, WithGap, Spliced;
    FrameRoundTrip(g, tail);
    ParseFrameBytes(g, tail);
  }

  function Spliced(f: Frame, cut: nat, other: bytes): (r: bytes)
    requires FRAME_HEADER_SIZE <= cut <= FRAME_HEADER_SIZE + |f.payload|
    ensures |r| == |f.payload| + |other|
  {
    var c := cut - FRAME_HEADER_SIZE;
    f.payload[..c] + other + f.payload[c..]
  }

  /** The payload of `f` as the printer reads it when `other` stands at `cut` of its bytes. */
  function WithGap(f: Frame, cut: nat, other: bytes): (r: bytes)
    requires FRAME_HEADER_SIZE <= cut <= FRAME_HEADER_SIZE + |f.payload|
    ensures |r| == |f.payload|
  {
    Spliced(f, cut, other)[..|f.payload|]
  }

  /** Cutting the bytes of `f` is cutting its payload. */
  lemma GapMoves(f: Frame, cut: nat, other: bytes, rest: bytes)
    requires |f.payload| < TWO31 && FRAME_HEADER_SIZE <= cut <= |FrameBytes(f)|
    ensures var d := FrameBytes(f);
            d[..cut] + other + d[cut..] + rest
            == FrameBytes(f.(payload := WithGap(f, cut, other))) + (Spliced(f, cut, other)[|f.payload|..] + rest)
  {
    var d, g := FrameBytes(f), f.(payload := WithGap(f, cut, other));
    var header := d[..FRAME_HEADER_SIZE];
    assert d == header + f.payload && FrameBytes(g) == header + g.payload;
    hide FrameBytes;
    var all := Spliced(f, cut, other);
    assert d[..cut] + other + d[cut..] == header + all;
    assert g.payload + all[|f.payload|..] == all;
    hide Spliced, WithGap;
    Regroup(header, g.payload, all[|f.payload|..], rest);
  }

  lemma Regroup(a: bytes, b: bytes, c: bytes, d: bytes)
    ensures (a + b) + (c + d) == a + (b + c) + d
  {
  }

  /** So it is with a heartbeat answered between the two slices of a data frame, at
      any payload limit of at least a frame header: behind the frames sent before,
      the printer reads the data frame with the heartbeat among its image bytes. */
  lemma HeartbeatInsideData(h: Host, id: int, f: Frame)
    requires LinkKnown(h) && id in h.streams && h.streams[id].open && h.maxPayload >= FRAME_HEADER_SIZE
    requires h.maxPayload < |FrameBytes(f)| <= 2 * h.maxPayload && |f.payload| < TWO31
    requires ParseFrames(Flatten(BodiesFrom(h.sent, h.streams[id].localId))).rest == []
    ensures var s := h.streams[id];
            var j := After(h, Schedule(id, FrameBytes(f), HeartbeatBytes(), |h.sent|));
            var before := ParseFrames(Flatten(BodiesFrom(h.sent, s.localId))).items;
            var read := ParseFrames(Flatten(BodiesFrom(j.sent, s.localId))).items;
            && |read| > |before| && before <= read
            && read[|before|] == f.(payload := WithGap(f, h.maxPayload, HeartbeatBytes()))
  {
    var d, q, s, cut := FrameBytes(f), HeartbeatBytes(), h.streams[id], h.maxPayload;
    assert |q| == FRAME_HEADER_SIZE && |d| == FRAME_HEADER_SIZE + |f.payload|;
    hide FrameBytes, HeartbeatBytes, After, Schedule, ParseFrames, BodiesFrom, Flatten, WithGap, DecodeFrame;
    SlicesInterleave(h, id, d, q);
    GapIsReadAsPayload(f, cut, q, []);
    ThreeBodies(h.sent, s, d[..cut], q, d[cut..]);
    ParseFramesAppend(Flatten(BodiesFrom(h.sent, s.localId)), d[..cut] + q + d[cut..] + []);
    NothingBefore(d[..cut] + q + d[cut..] + []);
  }

  lemma NothingBefore(b: bytes)
    ensures [] + b == b
  {
  }

  lemma ThreeBodies(sent: seq<AdbMessage>, s: Stream, a: bytes, b: bytes, c: bytes)
    ensures Flatten(BodiesFrom(sent + [WrteOf(s, a), WrteOf(s, b), WrteOf(s, c)], s.localId))
         == Flatten(BodiesFrom(sent, s.localId)) + (a + b + c + [])
  {
    hide BodiesFrom, Flatten;
    var m1, m2, m3 := WrteOf(s, a), WrteOf(s, b), WrteOf(s, c);
    var earlier := BodiesFrom(sent, s.localId);
    BodiesSnoc(sent, m1, s.localId);
    BodiesSnoc(sent + [m1], m2, s.localId);
    BodiesSnoc(sent + [m1] + [m2], m3, s.localId);
    assert sent + [m1, m2, m3] == sent + [m1] + [m2] + [m3];
    FlattenOne(a);
    FlattenOne(b);
    FlattenOne(c);
    FlattenAppend(earlier, [a]);
    FlattenAppend(earlier + [a], [b]);
    FlattenAppend(earlier + [a] + [b], [c]);
    var e := Flatten(earlier);
    assert e + a + b + c == e + (a + b + c + []);
  }
}
