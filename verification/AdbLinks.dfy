/** The order of link writes, and when the far end can make sense of it. */
module AdbLinks {
  import opened Bytes
  import opened Incremental
  import opened AdbMessages
  import opened AdbHosts

  /** The link writes of message `k` by itself. */
  function PiecesOf(sent: seq<AdbMessage>, k: nat): seq<Piece>
    requires k < |sent|
  {
    if sent[k].payload == [] then [Head(k)] else [Head(k), Body(k)]
  }

  /** Each of the first `n` messages whole, one after the other. */
  function InOrder(sent: seq<AdbMessage>, n: nat): seq<Piece>
    requires n <= |sent|
  {
    if n == 0 then [] else InOrder(sent, n - 1) + PiecesOf(sent, n - 1)
  }

  /** The payload of message `k` is due and not yet written. */
  predicate BodyDue(h: Host, k: nat) {
    k in h.flights && h.flights[k].body != []
  }

  /** Between a header and its payload there is no other link write. */
  predicate Unbroken(sent: seq<AdbMessage>, link: seq<Piece>) {
    forall i :: 0 <= i < |link| - 1 ==> Continues(sent, link[i], link[i + 1])
  }

  predicate Continues(sent: seq<AdbMessage>, p: Piece, next: Piece) {
    p.Head? && p.message < |sent| && sent[p.message].payload != [] ==> next == Body(p.message)
  }

  /** No link write lands between a header and its payload, and no payload is missing. */
  predicate Contiguous(h: Host) {
    && Unbroken(h.sent, h.link)
    && (h.link != [] ==> Complete(h.sent, h.link[|h.link| - 1]))
  }

  /** The message of this link write ends with it. */
  predicate Complete(sent: seq<AdbMessage>, p: Piece) {
    p.Head? && p.message < |sent| ==> sent[p.message].payload == []
  }

  /** The link up to the point where it was broken: the header of message `k + 1`
      stands where the payload of message `k` should. */
  predicate BrokenAt(h: Host, k: nat) {
    && k + 1 < |h.sent| && h.sent[k].payload != []
    && InOrder(h.sent, k) + [Head(k), Head(k + 1)] <= h.link
  }

  /** The last message is whole on the link but for its payload, which is due. */
  predicate Midway(h: Host) {
    && h.sent != [] && BodyDue(h, |h.sent| - 1)
    && h.link == InOrder(h.sent, |h.sent| - 1) + [Head(|h.sent| - 1)]
  }

  /** Payloads due belong to messages whose payload is not on the link, and the
      link is whole, or whole but for its last payload, or broken for good. */
  ghost predicate LinkInv(h: Host) {
    && LinkKnown(h)
    && (forall k: nat :: BodyDue(h, k) ==> Body(k) !in h.link)
    && if Unbroken(h.sent, h.link) then h.link == InOrder(h.sent, |h.sent|) || Midway(h)
       else exists k: nat :: BrokenAt(h, k)
  }

  lemma {:induction false} InOrderGrows(sent: seq<AdbMessage>, m: AdbMessage, n: nat)
    requires n <= |sent|
    ensures InOrder(sent + [m], n) == InOrder(sent, n)
  {
    if n > 0 {
      InOrderGrows(sent, m, n - 1);
      assert (sent + [m])[n - 1] == sent[n - 1];
    }
  }

  /** Messages standing whole: none is cut, and every payload is there. */
  lemma InOrderIsWhole(sent: seq<AdbMessage>, n: nat)
    requires n <= |sent|
    ensures Unbroken(sent, InOrder(sent, n))
    ensures InOrder(sent, n) != [] ==> Complete(sent, InOrder(sent, n)[|InOrder(sent, n)| - 1])
    ensures forall k :: 0 <= k < n && sent[k].payload != [] ==> Body(k) in InOrder(sent, n)
  {
    hide InOrder, Unbroken;
    InOrderUnbroken(sent, n);
    InOrderBodies(sent, n);
  }

  lemma {:induction false} InOrderUnbroken(sent: seq<AdbMessage>, n: nat)
    requires n <= |sent|
    ensures Unbroken(sent, InOrder(sent, n))
    ensures InOrder(sent, n) != [] ==> Complete(sent, InOrder(sent, n)[|InOrder(sent, n)| - 1])
  {
    if n > 0 {
      InOrderUnbroken(sent, n - 1);
      var front, back := InOrder(sent, n - 1), PiecesOf(sent, n - 1);
      InOrderTurn(sent, n);
      hide InOrder;
      PiecesAreWhole(sent, n - 1);
      UnbrokenJoin(sent, front, back);
      hide Unbroken, PiecesOf;
      assert (front + back)[|front + back| - 1] == back[|back| - 1];
    }
  }

  lemma PiecesAreWhole(sent: seq<AdbMessage>, k: nat)
    requires k < |sent|
    ensures PiecesOf(sent, k) != [] && Unbroken(sent, PiecesOf(sent, k))
    ensures Complete(sent, PiecesOf(sent, k)[|PiecesOf(sent, k)| - 1])
  {
  }

  lemma {:induction false} InOrderBodies(sent: seq<AdbMessage>, n: nat)
    requires n <= |sent|
    ensures forall k :: 0 <= k < n && sent[k].payload != [] ==> Body(k) in InOrder(sent, n)
  {
    if n > 0 {
      InOrderBodies(sent, n - 1);
      InOrderTurn(sent, n);
      hide InOrder;
      var front, back := InOrder(sent, n - 1), PiecesOf(sent, n - 1);
      if sent[n - 1].payload != [] { assert back[1] == Body(n - 1); }
    }
  }

  lemma InOrderTurn(sent: seq<AdbMessage>, n: nat)
    requires 0 < n <= |sent|
    ensures InOrder(sent, n) == InOrder(sent, n - 1) + PiecesOf(sent, n - 1)
  {
  }

  lemma UnbrokenJoin(sent: seq<AdbMessage>, a: seq<Piece>, b: seq<Piece>)
    ensures Unbroken(sent, a + b) <==>
      Unbroken(sent, a) && Unbroken(sent, b) && (a != [] && b != [] ==> Continues(sent, a[|a| - 1], b[0]))
  {
    hide Continues;
    var s := a + b;
    if Unbroken(sent, s) {
      forall i | 0 <= i < |a| - 1
        ensures Continues(sent, a[i], a[i + 1])
      {
        assert s[i] == a[i] && s[i + 1] == a[i + 1];
      }
      forall i | 0 <= i < |b| - 1
        ensures Continues(sent, b[i], b[i + 1])
      {
        assert s[|a| + i] == b[i] && s[|a| + i + 1] == b[i + 1];
      }
      if a != [] && b != [] {
        assert s[|a| - 1] == a[|a| - 1] && s[|a| - 1 + 1] == b[0];
      }
    }
  }

  /** Message numbers on the link are below the count, so later messages do not change what is there. */
  lemma UnbrokenGrows(sent: seq<AdbMessage>, m: AdbMessage, link: seq<Piece>)
    requires forall i :: 0 <= i < |link| ==> link[i].message < |sent|
    ensures Unbroken(sent + [m], link) <==> Unbroken(sent, link)
    ensures link != [] ==> (Complete(sent + [m], link[|link| - 1]) <==> Complete(sent, link[|link| - 1]))
  {
    forall i | 0 <= i < |link| - 1
      ensures Continues(sent + [m], link[i], link[i + 1]) <==> Continues(sent, link[i], link[i + 1])
    {
    }
  }

  lemma WrittenIsNotDue(h: Host, k: nat)
    requires LinkKnown(h) && (BodyDue(h, k) ==> Body(k) !in h.link)
    requires k < |h.sent| && h.sent[k].payload != [] ==> Body(k) in h.link
    ensures !BodyDue(h, k)
  {
  }

  /** A link that is unbroken is whole exactly when no payload is due. */
  lemma WholeIffNothingDue(h: Host)
    requires LinkInv(h) && Unbroken(h.sent, h.link)
    ensures Contiguous(h) <==> h.link == InOrder(h.sent, |h.sent|)
    ensures Contiguous(h) <==> forall k: nat :: !BodyDue(h, k)
  {
    hide Unbroken, InOrder;
    var n := |h.sent|;
    InOrderIsWhole(h.sent, n);
    if h.link == InOrder(h.sent, n) {
      forall k: nat
        ensures !BodyDue(h, k)
      {
        WrittenIsNotDue(h, k);
      }
    } else {
      assert h.link[|h.link| - 1] == Head(n - 1) && BodyDue(h, n - 1);
      assert !Complete(h.sent, h.link[|h.link| - 1]);
    }
  }

  lemma LinkIsBounded(h: Host)
    requires LinkKnown(h)
    ensures forall i :: 0 <= i < |h.link| ==> h.link[i].message < |h.sent|
  {
  }

  /** A header written while a payload is due breaks the link there. */
  lemma SendBreaks(h: Host, m: AdbMessage, follow: Follow)
    requires LinkInv(h) && Unbroken(h.sent, h.link) && !Contiguous(h)
    ensures var k := Send(h, m, follow);
            !Unbroken(k.sent, k.link) && BrokenAt(k, |h.sent| - 1)
  {
    hide LinkInv, Unbroken, Contiguous, InOrder;
    OnlyMidway(h);
    SendMidway(h, m, follow);
  }

  lemma OnlyMidway(h: Host)
    requires LinkInv(h) && Unbroken(h.sent, h.link) && !Contiguous(h)
    ensures Midway(h) && LinkKnown(h)
  {
    WholeIffNothingDue(h);
    hide InOrder, Unbroken, Contiguous;
  }

  lemma SendMidway(h: Host, m: AdbMessage, follow: Follow)
    requires Midway(h) && LinkKnown(h)
    ensures var k := Send(h, m, follow);
            !Unbroken(k.sent, k.link) && BrokenAt(k, |h.sent| - 1)
  {
    var n := |h.sent|;
    var k := Send(h, m, follow);
    InOrderGrows(h.sent, m, n - 1);
    hide InOrder;
    assert k.link[|h.link| - 1] == Head(n - 1) && k.link[|h.link|] == Head(n);
    assert !Continues(k.sent, k.link[|h.link| - 1], k.link[|h.link| - 1 + 1]);
    assert InOrder(k.sent, n - 1) + [Head(n - 1), Head(n - 1 + 1)] == k.link;
  }

  /** A header written to a whole link leaves it whole, but for its own payload. */
  lemma SendContinues(h: Host, m: AdbMessage, follow: Follow)
    requires LinkInv(h) && Contiguous(h)
    ensures var k := Send(h, m, follow);
            && Unbroken(k.sent, k.link)
            && (k.link == InOrder(k.sent, |k.sent|) || Midway(k))
  {
    var n := |h.sent|;
    var k := Send(h, m, follow);
    WholeIffNothingDue(h);
    InOrderGrows(h.sent, m, n);
    InOrderTurn(k.sent, n + 1);
    LinkIsBounded(h);
    UnbrokenGrows(h.sent, m, h.link);
    UnbrokenJoin(k.sent, h.link, [Head(n)]);
    hide InOrder;
    assert Unbroken(k.sent, [Head(n)]);
    assert k.sent[n] == m;
    if h.link != [] {
      assert Complete(k.sent, h.link[|h.link| - 1]);
    }
  }

  lemma SendKeepsLink(h: Host, m: AdbMessage, follow: Follow)
    requires LinkInv(h)
    ensures LinkInv(Send(h, m, follow))
    ensures Unbroken(h.sent, h.link) && (forall k: nat :: !BodyDue(h, k))
            <==> Unbroken(Send(h, m, follow).sent, Send(h, m, follow).link)
  {
    var k := Send(h, m, follow);
    SendBuffers(h, m, follow);
    SendKeepsDues(h, m, follow);
    if Unbroken(h.sent, h.link) {
      WholeIffNothingDue(h);
      if Contiguous(h) {
        SendContinues(h, m, follow);
      } else {
        SendBreaks(h, m, follow);
      }
    } else {
      LinkIsBounded(h);
      UnbrokenGrows(h.sent, m, h.link);
      UnbrokenJoin(k.sent, h.link, [Head(|h.sent|)]);
      var at: nat :| BrokenAt(h, at);
      BreakStays(h, k, m, at);
    }
  }

  lemma SendKeepsDues(h: Host, m: AdbMessage, follow: Follow)
    requires LinkKnown(h) && (forall k: nat :: BodyDue(h, k) ==> Body(k) !in h.link)
    ensures forall k: nat :: BodyDue(Send(h, m, follow), k) ==> Body(k) !in Send(h, m, follow).link
  {
    var n := |h.sent|;
    assert Body(n) !in h.link;
    forall k: nat | BodyDue(Send(h, m, follow), k)
      ensures Body(k) !in Send(h, m, follow).link
    {
      if k != n { assert BodyDue(h, k); }
    }
  }

  lemma BreakStays(h: Host, k: Host, m: AdbMessage, at: nat)
    requires BrokenAt(h, at) && k.sent == h.sent + [m] && h.link <= k.link
    ensures BrokenAt(k, at)
  {
    InOrderGrows(h.sent, m, at);
  }

  lemma BodyKeepsLink(h: Host, k: nat)
    requires LinkInv(h) && BodyDue(h, k)
    ensures LinkInv(OnLanded(h, k))
    ensures Unbroken(OnLanded(h, k).sent, OnLanded(h, k).link) <==> Unbroken(h.sent, h.link)
  {
    hide InOrder, PiecesOf, Unbroken, LinkKnown;
    var j := OnLanded(h, k);
    assert LinkKnown(j) by { BodyBuffers(h, k); }
    assert j.link == h.link + [Body(k)] && j.sent == h.sent;
    BodySettles(h, k);
    BodyJoins(h.sent, h.link, k);
    if Unbroken(h.sent, h.link) {
      OnlyLastIsDue(h, k);
      LastBody(h);
    } else {
      var at: nat :| BrokenAt(h, at);
      assert BrokenAt(j, at);
    }
  }

  lemma BodyJoins(sent: seq<AdbMessage>, link: seq<Piece>, k: nat)
    ensures Unbroken(sent, link + [Body(k)])
            <==> Unbroken(sent, link) && (link != [] ==> Continues(sent, link[|link| - 1], Body(k)))
  {
    UnbrokenJoin(sent, link, [Body(k)]);
    assert Unbroken(sent, [Body(k)]);
  }

  lemma BodySettles(h: Host, k: nat)
    requires LinkInv(h) && BodyDue(h, k)
    ensures forall n: nat :: BodyDue(OnLanded(h, k), n) ==> Body(n) !in OnLanded(h, k).link
  {
    var j := OnLanded(h, k);
    hide LinkKnown, Unbroken;
    forall n: nat | BodyDue(j, n)
      ensures Body(n) !in j.link
    {
      assert BodyDue(h, n) && n != k;
    }
  }

  lemma LastBody(h: Host)
    requires Midway(h) && LinkKnown(h)
    ensures h.link + [Body(|h.sent| - 1)] == InOrder(h.sent, |h.sent|)
    ensures Continues(h.sent, h.link[|h.link| - 1], Body(|h.sent| - 1))
  {
    InOrderTurn(h.sent, |h.sent|);
    hide InOrder;
  }

  lemma EarlierIsNotDue(h: Host, k: nat)
    requires LinkInv(h) && Midway(h) && k < |h.sent| - 1
    ensures !BodyDue(h, k)
  {
    hide InOrder, Unbroken, Midway;
    InOrderBodies(h.sent, |h.sent| - 1);
    MidwayHas(h);
    WrittenIsNotDue(h, k);
  }

  lemma MidwayHas(h: Host)
    requires Midway(h)
    ensures forall p :: p in InOrder(h.sent, |h.sent| - 1) ==> p in h.link
  {
    hide InOrder;
  }

  lemma OnlyLastIsDue(h: Host, k: nat)
    requires LinkInv(h) && Unbroken(h.sent, h.link) && BodyDue(h, k)
    ensures Midway(h) && k == |h.sent| - 1
  {
    hide InOrder, Unbroken;
    var n := |h.sent|;
    WholeIffNothingDue(h);
    assert Midway(h);
    if k < n - 1 {
      EarlierIsNotDue(h, k);
    }
  }

  /** Nothing was sent, and no payload was written or became due. */
  predicate Quiet(h: Host, k: Host) {
    && k.sent == h.sent && k.link == h.link
    && (forall n :: n in k.flights ==> n in h.flights && k.flights[n] == h.flights[n])
    && (forall n :: n in h.flights && n !in k.flights ==> h.flights[n].body == [])
  }

  lemma QuietKeepsLink(h: Host, k: Host)
    requires LinkInv(h) && Quiet(h, k)
    ensures LinkInv(k)
    ensures Unbroken(k.sent, k.link) <==> Unbroken(h.sent, h.link)
    ensures forall n: nat :: BodyDue(k, n) <==> BodyDue(h, n)
  {
    hide Unbroken, InOrder;
    if !Unbroken(h.sent, h.link) {
      var at: nat :| BrokenAt(h, at);
      assert BrokenAt(k, at);
    }
  }

  /** Whether this input makes the host send, and so write a header. */
  predicate Sends(h: Host, i: Input) {
    |Step(h, i).sent| > |h.sent|
  }

  /** What a step does to the link: nothing, or it sends one message from a state that looks the same. */
  ghost predicate OneSend(h: Host, k: Host) {
    Quiet(h, k) || exists j: Host, m: AdbMessage, follow: Follow :: Quiet(h, j) && k == Send(j, m, follow)
  }

  lemma SendsOne(h: Host, j: Host, m: AdbMessage, follow: Follow)
    requires Quiet(h, j)
    ensures OneSend(h, Send(j, m, follow)) && |Send(j, m, follow).sent| > |h.sent|
  {
  }

  lemma LoopHeadSends(h: Host, j: Host, w: nat)
    requires Quiet(h, j) && w < |j.writes|
    ensures OneSend(h, LoopHead(j, w))
  {
    hide OneSend, Quiet;
    var wr := j.writes[w];
    if wr.offset < |wr.payload| {
      var end := Min(wr.offset + j.maxPayload, |wr.payload|);
      var j1 := j.(slices := j.slices + [Slice(w, wr.offset, end)]);
      assert Quiet(h, j1) by { QuietElsewhere(h, j, j1); }
      SendsOne(h, j1, AdbMessage(WRTE, wr.stream.localId, wr.stream.remoteId, wr.payload[wr.offset..end]), NextSlice(w));
    } else {
      assert OneSend(h, j) by { QuietIsOneSend(h, j); }
    }
  }

  lemma QuietElsewhere(h: Host, j: Host, k: Host)
    requires Quiet(h, j) && k.sent == j.sent && k.link == j.link && k.flights == j.flights
    ensures Quiet(h, k)
  {
  }

  lemma QuietIsOneSend(h: Host, j: Host)
    requires Quiet(h, j)
    ensures OneSend(h, j)
  {
  }

  lemma CloseSends(h: Host, j: Host, id: int, follow: Follow)
    requires Quiet(h, j)
    ensures OneSend(h, OnCloseStream(j, id, follow))
  {
    hide OneSend, Quiet;
    if id in j.streams {
      var j1 := j.(streams := j.streams - {id});
      QuietElsewhere(h, j, j1);
      SendsOne(h, j1, AdbMessage(CLSE, j.streams[id].localId, j.streams[id].remoteId, []), follow);
    } else {
      QuietIsOneSend(h, j);
    }
  }

  lemma {:induction false} CloseNextSends(h: Host, j: Host, c: nat, ids: seq<int>)
    requires Quiet(h, j) && c < |j.closes|
    ensures OneSend(h, CloseNext(j, c, ids))
    decreases |ids|
  {
    hide OneSend, Quiet;
    if ids == [] {
      QuietElsewhere(h, j, j.(closes := j.closes[c := true]));
      QuietIsOneSend(h, j.(closes := j.closes[c := true]));
    } else if ids[0] in j.streams {
      CloseSends(h, j, ids[0], NextClose(c, ids[1..]));
    } else {
      CloseNextSends(h, j, c, ids[1..]);
    }
  }

  lemma MessageSends(h: Host, m: AdbMessage)
    ensures OneSend(h, OnMessage(h, m))
  {
    assert Quiet(h, h);
    hide OneSend, Quiet;
    if m.command == OPEN {
      var id := h.nextLocalId;
      var s := Stream(id, m.arg0, m.payload, true);
      var j := h.(nextLocalId := id + 1, streams := h.streams[id := s]);
      QuietElsewhere(h, h, j);
      SendsOne(h, j, AdbMessage(OKAY, id, m.arg0, []), Announce(s));
    } else if m.command == WRTE && m.arg1 in h.streams {
      var s := h.streams[m.arg1];
      var j := Emitted(h, DataIn(s, m.payload));
      QuietElsewhere(h, h, j);
      SendsOne(h, j, AdbMessage(OKAY, s.localId, s.remoteId, []), Nothing);
    } else {
      QuietElsewhere(h, h, OnMessage(h, m));
      QuietIsOneSend(h, OnMessage(h, m));
    }
  }

  lemma ResumeSends(h: Host, j: Host, follow: Follow)
    requires Quiet(h, j)
    ensures OneSend(h, Resume(j, follow))
  {
    hide OneSend, Quiet;
    match follow
    case Nothing => QuietIsOneSend(h, j);
    case Announce(s) =>
      QuietElsewhere(h, j, Resume(j, follow));
      QuietIsOneSend(h, Resume(j, follow));
    case NextSlice(w) =>
      if w < |j.writes| {
        var wr := j.writes[w];
        var next := wr.(offset := wr.offset + j.maxPayload, limits := wr.limits + [j.maxPayload]);
        QuietElsewhere(h, j, j.(writes := j.writes[w := next]));
        LoopHeadSends(h, j.(writes := j.writes[w := next]), w);
      } else {
        QuietIsOneSend(h, j);
      }
    case NextClose(c, ids) =>
      if c < |j.closes| {
        CloseNextSends(h, j, c, ids);
      } else {
        QuietIsOneSend(h, j);
      }
  }

  predicate WritesBody(h: Host, i: Input) {
    i.Landed? && BodyDue(h, i.k)
  }

  lemma StepSends(h: Host, i: Input)
    requires !WritesBody(h, i)
    ensures OneSend(h, Step(h, i))
  {
    assert Quiet(h, h);
    hide OneSend, Quiet, OnMessage, CloseNext, LoopHead, Resume;
    match i
    case Inbound(m) => MessageSends(h, m);
    case Landed(k) =>
      if k in h.flights {
        var j := h.(flights := h.flights - {k});
        assert Quiet(h, j) by { LandingIsQuiet(h, k); }
        ResumeSends(h, j, h.flights[k].follow);
      } else {
        QuietIsOneSend(h, h);
      }
    case Connect(name) => SendsOne(h, h, AdbMessage(CNXN, ADB_VERSION, ADB_LEGACY_MAX_PAYLOAD, name), Nothing);
    case Open(destination) =>
      var id := h.nextLocalId;
      var j := h.(nextLocalId := id + 1, streams := h.streams[id := Stream(id, 0, destination, false)]);
      QuietElsewhere(h, h, j);
      SendsOne(h, j, AdbMessage(OPEN, id, 0, destination + [0]), Nothing);
    case Write(id, payload) =>
      if id in h.streams && h.streams[id].open {
        var j := h.(writes := h.writes + [Writing(h.streams[id], payload, 0, [h.maxPayload])]);
        QuietElsewhere(h, h, j);
        LoopHeadSends(h, j, |h.writes|);
      } else {
        QuietIsOneSend(h, h);
      }
    case CloseStream(id) => CloseSends(h, h, id, Nothing);
    case Close =>
      var j := h.(closes := h.closes + [false]);
      QuietElsewhere(h, h, j);
      CloseNextSends(h, j, |h.closes|, Ids(h.streams, h.nextLocalId));
  }

  lemma LandingIsQuiet(h: Host, k: nat)
    requires k in h.flights && h.flights[k].body == []
    ensures Quiet(h, h.(flights := h.flights - {k}))
  {
  }

  /** A step breaks an unbroken link exactly when it sends while a payload is due. */
  lemma StepKeepsLink(h: Host, i: Input)
    requires LinkInv(h)
    ensures LinkInv(Step(h, i))
    ensures Unbroken(Step(h, i).sent, Step(h, i).link)
            <==> Unbroken(h.sent, h.link) && !(Sends(h, i) && exists k: nat :: BodyDue(h, k))
  {
    hide LinkInv, Unbroken;
    var k := Step(h, i);
    if WritesBody(h, i) {
      BodyKeepsLink(h, i.k);
      assert k == OnLanded(h, i.k) && !Sends(h, i);
    } else {
      StepSends(h, i);
      hide Step;
      if Quiet(h, k) {
        QuietKeepsLink(h, k);
      } else {
        var j: Host, m: AdbMessage, follow: Follow :| Quiet(h, j) && k == Send(j, m, follow);
        QuietKeepsLink(h, j);
        SendKeepsLink(j, m, follow);
      }
    }
  }

  lemma NewHostLink(limit: nat)
    ensures LinkInv(NewHost(limit)) && Unbroken(NewHost(limit).sent, NewHost(limit).link)
  {
  }

  /** No send of the run puts a header on the link while a payload is due. */
  ghost predicate Patient(h: Host, inputs: seq<Input>)
    decreases |inputs|
  {
    inputs == [] ||
    (!(Sends(h, inputs[0]) && exists k: nat :: BodyDue(h, k)) && Patient(Step(h, inputs[0]), inputs[1..]))
  }

  lemma {:induction false} RunKeepsLink(h: Host, inputs: seq<Input>)
    requires LinkInv(h)
    ensures LinkInv(After(h, inputs))
    ensures Unbroken(After(h, inputs).sent, After(h, inputs).link)
            <==> Unbroken(h.sent, h.link) && Patient(h, inputs)
    decreases |inputs|
  {
    hide LinkInv, Unbroken, Step, Sends;
    if inputs != [] {
      StepKeepsLink(h, inputs[0]);
      RunKeepsLink(Step(h, inputs[0]), inputs[1..]);
    }
  }

  /** Over every run, each message stands whole on the link, in the order sent, if
      and only if nothing was sent while a payload was due and none is due at the end. */
  lemma WholeIffPatient(limit: nat, inputs: seq<Input>)
    ensures var h := After(NewHost(limit), inputs);
            h.link == InOrder(h.sent, |h.sent|) <==> Patient(NewHost(limit), inputs) && forall k: nat :: !BodyDue(h, k)
  {
    hide After, LinkInv, InOrder, Unbroken, Patient;
    var h := After(NewHost(limit), inputs);
    NewHostLink(limit);
    RunKeepsLink(NewHost(limit), inputs);
    InOrderIsWhole(h.sent, |h.sent|);
    if Unbroken(h.sent, h.link) {
      WholeIffNothingDue(h);
    }
  }

  // ----- What the far end decodes --------------------------------------------------------

  /** The bytes written to the link. */
  function LinkBytes(h: Host): bytes {
    Flatten(LinkBuffers(h.sent, h.link))
  }

  lemma BuffersJoin(sent: seq<AdbMessage>, a: seq<Piece>, b: seq<Piece>)
    ensures LinkBuffers(sent, a + b) == LinkBuffers(sent, a) + LinkBuffers(sent, b)
    ensures Flatten(LinkBuffers(sent, a + b)) == Flatten(LinkBuffers(sent, a)) + Flatten(LinkBuffers(sent, b))
  {
    hide PieceBytes;
    FlattenAppend(LinkBuffers(sent, a), LinkBuffers(sent, b));
  }

  lemma PiecesBytes(sent: seq<AdbMessage>, k: nat)
    requires k < |sent|
    ensures Flatten(LinkBuffers(sent, PiecesOf(sent, k))) == MessageBytes(sent[k])
  {
    hide HeaderBytes;
    HeadBytes(sent, k);
    if sent[k].payload != [] {
      FlattenOne(sent[k].payload);
      BuffersJoin(sent, [Head(k)], [Body(k)]);
      assert [Head(k)] + [Body(k)] == [Head(k), Body(k)];
      assert LinkBuffers(sent, [Body(k)]) == [sent[k].payload];
    } else {
      assert HeaderBytes(sent[k]) + [] == HeaderBytes(sent[k]);
    }
  }

  lemma HeadBytes(sent: seq<AdbMessage>, k: nat)
    requires k < |sent|
    ensures Flatten(LinkBuffers(sent, [Head(k)])) == HeaderBytes(sent[k])
  {
    hide HeaderBytes;
    FlattenOne(HeaderBytes(sent[k]));
    assert LinkBuffers(sent, [Head(k)]) == [HeaderBytes(sent[k])];
  }

  lemma {:induction false} InOrderBytes(sent: seq<AdbMessage>, n: nat)
    requires n <= |sent|
    ensures Flatten(LinkBuffers(sent, InOrder(sent, n))) == MessagesBytes(sent[..n])
  {
    hide MessageBytes, PiecesOf, MessagesBytes, LinkBuffers, Flatten, InOrder;
    if n == 0 {
      NoBytes(sent);
    } else {
      InOrderBytes(sent, n - 1);
      InOrderTurn(sent, n);
      BuffersJoin(sent, InOrder(sent, n - 1), PiecesOf(sent, n - 1));
      PiecesBytes(sent, n - 1);
      assert sent[..n] == sent[..n - 1] + [sent[n - 1]];
      MessagesBytesAppend(sent[..n - 1], [sent[n - 1]]);
      OneMessageBytes(sent[n - 1]);
    }
  }

  lemma NoBytes(sent: seq<AdbMessage>)
    ensures Flatten(LinkBuffers(sent, InOrder(sent, 0))) == MessagesBytes(sent[..0])
  {
    assert LinkBuffers(sent, InOrder(sent, 0)) == [];
  }

  lemma OneMessageBytes(m: AdbMessage)
    ensures MessagesBytes([m]) == MessageBytes(m)
  {
    hide MessageBytes;
    assert [m][1..] == [];
    assert MessagesBytes([]) == [];
    assert MessageBytes(m) + [] == MessageBytes(m);
  }

  predicate IsWord(x: int) {
    0 <= x < TWO32
  }

  /** Arrivals come from a decoder, and the texts sent fit one message. */
  predicate Plausible(i: Input) {
    match i
    case Inbound(m) => IsWord(m.arg1)
    case Connect(name) => |name| < TWO32
    case Open(destination) => |destination| + 1 < TWO32
    case _ => true
  }

  predicate AllPlausible(inputs: seq<Input>) {
    forall k :: 0 <= k < |inputs| ==> Plausible(inputs[k])
  }

  predicate SentFits(sent: seq<AdbMessage>) {
    forall i :: 0 <= i < |sent| ==> |sent[i].payload| < TWO32 && IsWord(sent[i].command)
  }

  predicate Encodable(h: Host) {
    IsWord(h.maxPayload) && SentFits(h.sent)
  }

  lemma SendKeepsEncodable(h: Host, m: AdbMessage, follow: Follow)
    requires Encodable(h) && |m.payload| < TWO32 && IsWord(m.command)
    ensures Encodable(Send(h, m, follow))
  {
  }

  lemma LoopHeadKeepsEncodable(h: Host, w: nat)
    requires Encodable(h) && w < |h.writes|
    ensures Encodable(LoopHead(h, w))
  {
  }

  lemma {:induction false} CloseNextKeepsEncodable(h: Host, c: nat, ids: seq<int>)
    requires Encodable(h) && c < |h.closes|
    ensures Encodable(CloseNext(h, c, ids))
    decreases |ids|
  {
    if ids != [] && ids[0] !in h.streams {
      CloseNextKeepsEncodable(h, c, ids[1..]);
    }
  }

  lemma StepKeepsEncodable(h: Host, i: Input)
    requires Encodable(h) && Plausible(i)
    ensures Encodable(Step(h, i))
  {
    hide LoopHead, CloseNext, SentFits;
    match i
    case Inbound(m) => MessageKeepsEncodable(h, m);
    case Landed(k) =>
      if k in h.flights && h.flights[k].body == [] {
        ResumeKeepsEncodable(h.(flights := h.flights - {k}), h.flights[k].follow);
      }
    case Connect(name) => SendKeepsEncodable(h, AdbMessage(CNXN, ADB_VERSION, ADB_LEGACY_MAX_PAYLOAD, name), Nothing);
    case Open(destination) => SendKeepsEncodable(h, AdbMessage(OPEN, h.nextLocalId, 0, destination + [0]), Nothing);
    case Write(id, payload) =>
      if id in h.streams && h.streams[id].open {
        LoopHeadKeepsEncodable(
          h.(writes := h.writes + [Writing(h.streams[id], payload, 0, [h.maxPayload])]), |h.writes|);
      }
    case CloseStream(id) =>
      if id in h.streams {
        SendKeepsEncodable(h, AdbMessage(CLSE, h.streams[id].localId, h.streams[id].remoteId, []), Nothing);
      }
    case Close =>
      CloseNextKeepsEncodable(h.(closes := h.closes + [false]), |h.closes|, Ids(h.streams, h.nextLocalId));
  }

  lemma MessageKeepsEncodable(h: Host, m: AdbMessage)
    requires Encodable(h) && IsWord(m.arg1)
    ensures Encodable(OnMessage(h, m))
  {
  }

  lemma ResumeKeepsEncodable(h: Host, follow: Follow)
    requires Encodable(h)
    ensures Encodable(Resume(h, follow))
  {
    hide LoopHead, CloseNext, SentFits;
    match follow
    case Nothing =>
    case Announce(_) =>
    case NextSlice(w) =>
      if w < |h.writes| {
        var wr := h.writes[w];
        var next := wr.(offset := wr.offset + h.maxPayload, limits := wr.limits + [h.maxPayload]);
        LoopHeadKeepsEncodable(h.(writes := h.writes[w := next]), w);
      }
    case NextClose(c, ids) => if c < |h.closes| { CloseNextKeepsEncodable(h, c, ids); }
  }

  lemma {:induction false} AlwaysEncodable(h: Host, inputs: seq<Input>)
    requires Encodable(h) && AllPlausible(inputs)
    ensures Encodable(After(h, inputs))
    decreases |inputs|
  {
    if inputs != [] {
      hide Step, Encodable;
      assert Plausible(inputs[0]);
      hide Plausible;
      StepKeepsEncodable(h, inputs[0]);
      assert AllPlausible(inputs[1..]) by { PlausibleTail(inputs); }
      AlwaysEncodable(Step(h, inputs[0]), inputs[1..]);
    }
  }

  lemma PlausibleTail(inputs: seq<Input>)
    requires AllPlausible(inputs) && inputs != []
    ensures AllPlausible(inputs[1..])
  {
    hide Plausible;
  }

  lemma BytesDecode(sent: seq<AdbMessage>, chunks: seq<bytes>)
    requires SentFits(sent) && Flatten(chunks) == MessagesBytes(sent)
    ensures Feed(DecodeAdb, [], chunks) == Parsed(WiredAll(sent), [])
  {
    hide DecodeAdb, MessagesBytes;
    MessagesRoundTrip(sent);
    assert [] + Flatten(chunks) == Flatten(chunks);
    EmptyIsIncomplete();
    AdbDecoderRefinesParsing([], chunks);
  }

  /** A link on which every message stands whole decodes, in any chunks, to
      exactly the logical messages in order, with nothing pending. */
  lemma WholeLinkDecodes(h: Host, chunks: seq<bytes>)
    requires SentFits(h.sent) && h.link == InOrder(h.sent, |h.sent|)
    requires Flatten(chunks) == LinkBytes(h)
    ensures Feed(DecodeAdb, [], chunks) == Parsed(WiredAll(h.sent), [])
  {
    hide DecodeAdb, InOrder, LinkBuffers, MessagesBytes;
    InOrderBytes(h.sent, |h.sent|);
    assert h.sent[..|h.sent|] == h.sent;
    BytesDecode(h.sent, chunks);
  }

  lemma EmptyIsIncomplete()
    ensures DecodeAdb([]).Incomplete?
  {
  }

  /** `a` and `b` are the same as far as both go. */
  predicate Agree(a: bytes, b: bytes) {
    forall i :: 0 <= i < |a| && i < |b| ==> a[i] == b[i]
  }

  /** No payload sent starts like the header of the message sent after it. */
  predicate NoMasquerade(sent: seq<AdbMessage>) {
    forall k :: 0 <= k < |sent| - 1 && sent[k].payload != [] ==> !Agree(sent[k].payload, HeaderBytes(sent[k + 1]))
  }

  /** Messages whole, then a header, then bytes that are not its payload: the
      decoder does not return the messages sent. */
  lemma CutMessageIsMisread(sent: seq<AdbMessage>, k: nat, t: bytes)
    requires k < |sent| && SentFits(sent) && !(sent[k].payload <= t)
    ensures ParseAdb(MessagesBytes(sent[..k]) + (HeaderBytes(sent[k]) + t)) != Parsed(WiredAll(sent), [])
  {
    var front, tail := MessagesBytes(sent[..k]), HeaderBytes(sent[k]) + t;
    MessagesRoundTrip(sent[..k]);
    ParseFollows(front, WiredAll(sent[..k]), tail);
    HeaderThenOther(sent[k], t);
    hide DecodeAdb, HeaderBytes, MessagesBytes, SentFits;
    var r := ParseAdb(tail);
    var all := WiredAll(sent[..k]) + r.items;
    assert r.items != [] ==> all[k] == r.items[0];
    assert WiredAll(sent)[k].payload == sent[k].payload;
  }

  /** Parsing goes on where whole messages end. */
  lemma ParseFollows(front: bytes, items: seq<AdbMessage>, tail: bytes)
    requires ParseAdb(front) == Parsed(items, [])
    ensures ParseAdb(front + tail) == Parsed(items + ParseAdb(tail).items, ParseAdb(tail).rest)
  {
    hide DecodeAdb;
    DecodeAdbIsFraming();
    ParseAppend(DecodeAdb, ADB_HEADER_SIZE, front, tail);
    assert [] + tail == tail;
  }

  lemma HeaderThenOther(m: AdbMessage, t: bytes)
    requires |m.payload| < TWO32 && !(m.payload <= t)
    ensures var r := ParseAdb(HeaderBytes(m) + t); r.items != [] ==> r.items[0].payload != m.payload
  {
    var s := HeaderBytes(m) + t;
    HeaderRoundTrip(m, t);
    hide HeaderBytes, DecodeAdbHeader;
    if DecodeAdb(s).Complete? {
      assert DecodeAdb(s).item.payload == s[ADB_HEADER_SIZE..ADB_HEADER_SIZE + |m.payload|] == t[..|m.payload|];
    }
  }

  /** Over every run, provided no payload starts like the header of the next
      message, a decoder fed the link output in any chunks yields exactly the
      logical messages, in order and with nothing pending, if and only if nothing
      was sent while a payload was due and none is due at the end. */
  lemma LinkDecodesIffPatient(limit: nat, inputs: seq<Input>, chunks: seq<bytes>)
    requires IsWord(limit) && AllPlausible(inputs)
    requires NoMasquerade(After(NewHost(limit), inputs).sent)
    requires Flatten(chunks) == LinkBytes(After(NewHost(limit), inputs))
    ensures var h := After(NewHost(limit), inputs);
            Feed(DecodeAdb, [], chunks) == Parsed(WiredAll(h.sent), [])
            <==> Patient(NewHost(limit), inputs) && forall k: nat :: !BodyDue(h, k)
  {
    hide After, DecodeAdb, InOrder, Patient, NoMasquerade, LinkBytes, SentFits, BodyDue, Unbroken;
    var h := After(NewHost(limit), inputs);
    NewHostLink(limit);
    RunKeepsLink(NewHost(limit), inputs);
    NewHostEncodable(limit);
    AlwaysEncodable(NewHost(limit), inputs);
    WholeIffPatient(limit, inputs);
    if h.link == InOrder(h.sent, |h.sent|) {
      WholeLinkDecodes(h, chunks);
    } else {
      EmptyIsIncomplete();
      AdbDecoderRefinesParsing([], chunks);
      assert [] + Flatten(chunks) == Flatten(chunks);
      CutLinkIsMisread(h);
    }
  }

  lemma NewHostEncodable(limit: nat)
    requires IsWord(limit)
    ensures Encodable(NewHost(limit))
  {
  }

  lemma CutLinkIsMisread(h: Host)
    requires LinkInv(h) && SentFits(h.sent) && NoMasquerade(h.sent) && h.link != InOrder(h.sent, |h.sent|)
    ensures ParseAdb(LinkBytes(h)) != Parsed(WiredAll(h.sent), [])
  {
    hide InOrder, SentFits, NoMasquerade, Unbroken, LinkKnown, HeaderBytes, LinkBuffers;
    if Unbroken(h.sent, h.link) {
      var n := |h.sent| - 1;
      InOrderBytes(h.sent, n);
      HeadBytes(h.sent, n);
      BuffersJoin(h.sent, InOrder(h.sent, n), [Head(n)]);
      assert HeaderBytes(h.sent[n]) + [] == HeaderBytes(h.sent[n]);
      assert h.sent[n].payload != [] by { DueIsNotEmpty(h, n); }
      CutMessageIsMisread(h.sent, n, []);
    } else {
      var k: nat :| BrokenAt(h, k);
      BrokenBytes(h, k);
    }
  }

  lemma DueIsNotEmpty(h: Host, k: nat)
    requires LinkKnown(h) && BodyDue(h, k)
    ensures k < |h.sent| && h.sent[k].payload != []
  {
  }

  lemma BrokenBytes(h: Host, k: nat)
    requires BrokenAt(h, k) && SentFits(h.sent) && NoMasquerade(h.sent)
    ensures ParseAdb(LinkBytes(h)) != Parsed(WiredAll(h.sent), [])
  {
    hide InOrder, SentFits, HeaderBytes, ParseAdb, BrokenAt, NoMasquerade, LinkBytes, MessagesBytes;
    var rest := BytesAroundBreak(h, k);
    var one, two := HeaderBytes(h.sent[k]), HeaderBytes(h.sent[k + 1]);
    Disguise(h.sent, k);
    NotThePayload(h.sent[k].payload, two, rest);
    CutMessageIsMisread(h.sent, k, two + rest);
  }

  lemma Disguise(sent: seq<AdbMessage>, k: nat)
    requires NoMasquerade(sent) && k + 1 < |sent| && sent[k].payload != []
    ensures !Agree(sent[k].payload, HeaderBytes(sent[k + 1]))
  {
    hide HeaderBytes, Agree;
  }

  lemma BytesAroundBreak(h: Host, k: nat) returns (rest: bytes)
    requires BrokenAt(h, k)
    ensures k + 1 < |h.sent| && h.sent[k].payload != []
    ensures LinkBytes(h) == MessagesBytes(h.sent[..k]) + (HeaderBytes(h.sent[k]) + (HeaderBytes(h.sent[k + 1]) + rest))
  {
    hide InOrder, HeaderBytes, LinkBuffers, Flatten, MessagesBytes;
    var before := InOrder(h.sent, k);
    var later := h.link[|before| + 2..];
    SplitAtBreak(before, h.link, Head(k), Head(k + 1));
    InOrderBytes(h.sent, k);
    HeadBytes(h.sent, k);
    HeadBytes(h.sent, k + 1);
    BuffersJoin(h.sent, before, [Head(k)] + ([Head(k + 1)] + later));
    BuffersJoin(h.sent, [Head(k)], [Head(k + 1)] + later);
    BuffersJoin(h.sent, [Head(k + 1)], later);
    rest := Flatten(LinkBuffers(h.sent, later));
  }

  lemma SplitAtBreak(before: seq<Piece>, link: seq<Piece>, p: Piece, q: Piece)
    requires before + [p, q] <= link
    ensures link == before + ([p] + ([q] + link[|before| + 2..]))
  {
    var front := before + [p, q];
    assert link == front + link[|front|..];
  }

  lemma NotThePayload(payload: bytes, header: bytes, rest: bytes)
    requires !Agree(payload, header)
    ensures !(payload <= header + rest)
  {
    var i :| 0 <= i < |payload| && i < |header| && payload[i] != header[i];
    assert (header + rest)[i] == header[i];
  }
}
