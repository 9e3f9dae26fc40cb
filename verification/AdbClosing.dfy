/** Closing the host: what `close` says goodbye to, and what it leaves, whatever happens meanwhile. */
module AdbClosing {
  import opened Bytes
  import opened AdbMessages
  import opened AdbHosts
  import opened AdbStreams

  /** Message `k` is one that call `c` of `close` waits for. */
  predicate CloserOf(h: Host, k: nat, c: nat) {
    k in h.flights && h.flights[k].follow.NextClose? && h.flights[k].follow.close == c
  }

  /** Streams older than `n0` still in the table are all on the list. */
  predicate OnlyListed(h: Host, n0: int, ids: seq<int>) {
    forall id :: id in h.streams && id < n0 ==> id in ids
  }

  /** Call `c` of `close` is at work on its list, one message at a time, or has
      ended with no stream older than `n0` left. */
  ghost predicate ClosingInv(h: Host, c: nat, n0: int) {
    && c < |h.closes| && n0 <= h.nextLocalId
    && (forall j: nat, k: nat :: CloserOf(h, j, c) && CloserOf(h, k, c) ==> j == k)
    && (forall k: nat :: CloserOf(h, k, c) ==> k < |h.sent| && h.flights[k].body == [] && OnlyListed(h, n0, h.flights[k].follow.ids))
    && (h.closes[c] ==> OnlyListed(h, n0, []) && forall k: nat :: !CloserOf(h, k, c))
    && (!h.closes[c] ==> exists k: nat :: CloserOf(h, k, c))
  }

  /** As `ClosingInv` just before the loop of call `c` goes on with `ids`: it waits for nothing. */
  ghost predicate ReadyToClose(h: Host, c: nat, n0: int, ids: seq<int>) {
    && c < |h.closes| && n0 <= h.nextLocalId && !h.closes[c]
    && (forall k: nat :: !CloserOf(h, k, c)) && OnlyListed(h, n0, ids)
  }

  /** The step did not touch call `c`, and brought back no stream older than `n0`. */
  ghost predicate Unmoved(h: Host, k: Host, c: nat, n0: int) {
    && |h.closes| <= |k.closes| && (c < |h.closes| ==> k.closes[c] == h.closes[c])
    && h.nextLocalId <= k.nextLocalId && |h.sent| <= |k.sent|
    && (forall id :: id in k.streams && id < n0 ==> id in h.streams)
    && (forall n: nat :: CloserOf(k, n, c) <==> CloserOf(h, n, c))
    && (forall n: nat :: CloserOf(h, n, c) && h.flights[n].body == [] ==> k.flights[n] == h.flights[n])
  }

  lemma UnmovedKeeps(h: Host, k: Host, c: nat, n0: int)
    requires ClosingInv(h, c, n0) && Unmoved(h, k, c, n0)
    ensures ClosingInv(k, c, n0)
  {
  }

  lemma {:induction false} CloseNextKeeps(h: Host, c: nat, ids: seq<int>, n0: int)
    requires ReadyToClose(h, c, n0, ids)
    ensures ClosingInv(CloseNext(h, c, ids), c, n0)
    decreases |ids|
  {
    if ids == [] {
      assert OnlyListed(CloseNext(h, c, ids), n0, []);
      assert forall n: nat :: CloserOf(CloseNext(h, c, ids), n, c) <==> CloserOf(h, n, c);
    } else if ids[0] in h.streams {
      ClosesOne(h, c, ids, n0);
    } else {
      CloseNextKeeps(h, c, ids[1..], n0);
    }
  }

  lemma ClosesOne(h: Host, c: nat, ids: seq<int>, n0: int)
    requires ReadyToClose(h, c, n0, ids) && ids != [] && ids[0] in h.streams
    ensures ClosingInv(OnCloseStream(h, ids[0], NextClose(c, ids[1..])), c, n0)
  {
    var k := OnCloseStream(h, ids[0], NextClose(c, ids[1..]));
    assert forall n: nat :: CloserOf(k, n, c) <==> n == |h.sent| by {
      assert forall n: nat :: n != |h.sent| && CloserOf(k, n, c) ==> CloserOf(h, n, c);
      assert CloserOf(k, |h.sent|, c);
    }
    var n: nat := |h.sent|;
    assert CloserOf(k, n, c);
    assert OnlyListed(k, n0, ids[1..]);
  }

  /** Another call's loop, or any send that is not this call's. */
  lemma SendUnmoved(h: Host, j: Host, m: AdbMessage, follow: Follow, c: nat, n0: int)
    requires (forall n: nat :: CloserOf(h, n, c) ==> n < |h.sent|) && Unmoved(h, j, c, n0) && j.sent == h.sent
    requires !(follow.NextClose? && follow.close == c)
    ensures Unmoved(h, Send(j, m, follow), c, n0)
  {
    var k := Send(j, m, follow);
    assert forall n: nat :: CloserOf(k, n, c) ==> n != |h.sent| && CloserOf(j, n, c);
  }

  lemma {:induction false} OtherCloseUnmoved(h: Host, j: Host, d: nat, ids: seq<int>, c: nat, n0: int)
    requires (forall n: nat :: CloserOf(h, n, c) ==> n < |h.sent|) && Unmoved(h, j, c, n0) && j.sent == h.sent
    requires d < |j.closes| && d != c && c < |h.closes|
    ensures Unmoved(h, CloseNext(j, d, ids), c, n0)
    decreases |ids|
  {
    if ids == [] {
      assert forall n: nat :: CloserOf(CloseNext(j, d, ids), n, c) <==> CloserOf(j, n, c);
    } else if ids[0] in j.streams {
      var s := j.streams[ids[0]];
      var j1 := j.(streams := j.streams - {ids[0]});
      assert forall n: nat :: CloserOf(j1, n, c) <==> CloserOf(j, n, c);
      hide Unmoved, Send;
      assert Unmoved(h, j1, c, n0) by { FewerUnmoved(h, j, j1, c, n0); }
      SendUnmoved(h, j1, AdbMessage(CLSE, s.localId, s.remoteId, []), NextClose(d, ids[1..]), c, n0);
    } else {
      OtherCloseUnmoved(h, j, d, ids[1..], c, n0);
    }
  }

  /** Fewer streams, the rest untouched. */
  lemma FewerUnmoved(h: Host, j: Host, k: Host, c: nat, n0: int)
    requires Unmoved(h, j, c, n0)
    requires k.closes == j.closes && k.nextLocalId == j.nextLocalId && k.sent == j.sent && k.flights == j.flights
    requires forall id :: id in k.streams && id < n0 ==> id in j.streams
    ensures Unmoved(h, k, c, n0)
  {
    assert forall n: nat :: CloserOf(k, n, c) <==> CloserOf(j, n, c);
  }

  lemma SelfUnmoved(h: Host, c: nat, n0: int)
    ensures Unmoved(h, h, c, n0)
  {
  }

  lemma MessageUnmoved(h: Host, m: AdbMessage, c: nat, n0: int)
    requires TableInv(h) && n0 <= h.nextLocalId && c < |h.closes|
    ensures Unmoved(h, OnMessage(h, m), c, n0)
  {
    assert forall n: nat :: CloserOf(h, n, c) ==> n < |h.sent|;
    SelfUnmoved(h, c, n0);
    hide Unmoved, Send, CloserOf, TableInv;
    if m.command == OPEN {
      var id := h.nextLocalId;
      var s := Stream(id, m.arg0, m.payload, true);
      var j := h.(nextLocalId := id + 1, streams := h.streams[id := s]);
      IssueUnmoved(h, s, c, n0);
      SendUnmoved(h, j, AdbMessage(OKAY, id, m.arg0, []), Announce(s), c, n0);
    } else if m.command == WRTE && m.arg1 in h.streams {
      var s := h.streams[m.arg1];
      var j := Emitted(h, DataIn(s, m.payload));
      FewerUnmoved(h, h, j, c, n0);
      SendUnmoved(h, j, AdbMessage(OKAY, s.localId, s.remoteId, []), Nothing, c, n0);
    } else {
      FewerUnmoved(h, h, OnMessage(h, m), c, n0);
    }
  }

  /** A stream under a fresh id. */
  lemma IssueUnmoved(h: Host, s: Stream, c: nat, n0: int)
    requires n0 <= h.nextLocalId
    ensures Unmoved(h, h.(nextLocalId := h.nextLocalId + 1, streams := h.streams[h.nextLocalId := s]), c, n0)
  {
    var k := h.(nextLocalId := h.nextLocalId + 1, streams := h.streams[h.nextLocalId := s]);
    assert forall n: nat :: CloserOf(k, n, c) <==> CloserOf(h, n, c);
  }

  lemma LandedKeeps(h: Host, k: nat, c: nat, n0: int)
    requires TableInv(h) && ClosingInv(h, c, n0)
    ensures ClosingInv(OnLanded(h, k), c, n0)
  {
    hide CloseNext, LoopHead;
    if CloserOf(h, k, c) {
      var ids := h.flights[k].follow.ids;
      var j := h.(flights := h.flights - {k});
      assert ReadyToClose(j, c, n0, ids) by { LastCloserLands(h, k, c, n0); }
      hide ClosingInv, ReadyToClose;
      CloseNextKeeps(j, c, ids, n0);
    } else {
      OtherLandedUnmoved(h, k, c, n0);
      UnmovedKeeps(h, OnLanded(h, k), c, n0);
    }
  }

  lemma LastCloserLands(h: Host, k: nat, c: nat, n0: int)
    requires ClosingInv(h, c, n0) && CloserOf(h, k, c)
    ensures ReadyToClose(h.(flights := h.flights - {k}), c, n0, h.flights[k].follow.ids)
  {
    var j := h.(flights := h.flights - {k});
    assert forall n: nat :: CloserOf(j, n, c) ==> CloserOf(h, n, c) && n != k;
    assert !h.closes[c];
    assert OnlyListed(j, n0, h.flights[k].follow.ids);
  }

  lemma OtherLandedUnmoved(h: Host, k: nat, c: nat, n0: int)
    requires TableInv(h) && ClosingInv(h, c, n0) && !CloserOf(h, k, c)
    ensures Unmoved(h, OnLanded(h, k), c, n0)
  {
    hide CloseNext, LoopHead, ClosingInv, Send;
    ClosersSent(h, c, n0);
    SelfUnmoved(h, c, n0);
    if k in h.flights {
      var f := h.flights[k];
      if f.body != [] {
        assert forall n: nat :: CloserOf(OnLanded(h, k), n, c) <==> CloserOf(h, n, c);
      } else {
        var j := h.(flights := h.flights - {k});
        assert forall n: nat :: CloserOf(j, n, c) <==> CloserOf(h, n, c);
        assert Unmoved(h, j, c, n0);
        ResumeUnmoved(h, j, f.follow, c, n0);
      }
    }
  }

  lemma ClosersSent(h: Host, c: nat, n0: int)
    requires ClosingInv(h, c, n0)
    ensures c < |h.closes| && n0 <= h.nextLocalId && forall n: nat :: CloserOf(h, n, c) ==> n < |h.sent|
  {
  }

  lemma ResumeUnmoved(h: Host, j: Host, follow: Follow, c: nat, n0: int)
    requires (forall n: nat :: CloserOf(h, n, c) ==> n < |h.sent|) && Unmoved(h, j, c, n0) && j.sent == h.sent
    requires c < |h.closes| && !(follow.NextClose? && follow.close == c)
    ensures Unmoved(h, Resume(j, follow), c, n0)
  {
    hide Unmoved, LoopHead, CloseNext, Send;
    match follow
    case Nothing =>
    case Announce(s) => FewerUnmoved(h, j, Emitted(j, StreamUp(s)), c, n0);
    case NextSlice(w) =>
      if w < |j.writes| {
        var wr := j.writes[w];
        var next := wr.(offset := wr.offset + j.maxPayload, limits := wr.limits + [j.maxPayload]);
        var j1 := j.(writes := j.writes[w := next]);
        FewerUnmoved(h, j, j1, c, n0);
        LoopHeadUnmoved(h, j1, w, c, n0);
      }
    case NextClose(d, ids) =>
      if d < |j.closes| { OtherCloseUnmoved(h, j, d, ids, c, n0); }
  }

  lemma LoopHeadUnmoved(h: Host, j: Host, w: nat, c: nat, n0: int)
    requires (forall n: nat :: CloserOf(h, n, c) ==> n < |h.sent|) && Unmoved(h, j, c, n0) && j.sent == h.sent
    requires w < |j.writes|
    ensures Unmoved(h, LoopHead(j, w), c, n0)
  {
    hide Unmoved, Send;
    var wr := j.writes[w];
    if wr.offset < |wr.payload| {
      var end := Min(wr.offset + j.maxPayload, |wr.payload|);
      var j1 := j.(slices := j.slices + [Slice(w, wr.offset, end)]);
      FewerUnmoved(h, j, j1, c, n0);
      SendUnmoved(h, j1, AdbMessage(WRTE, wr.stream.localId, wr.stream.remoteId, wr.payload[wr.offset..end]), NextSlice(w), c, n0);
    }
  }

  lemma StepKeepsClosing(h: Host, i: Input, c: nat, n0: int)
    requires TableInv(h) && ClosingInv(h, c, n0)
    ensures ClosingInv(Step(h, i), c, n0)
  {
    hide ClosingInv, Unmoved, OnMessage, OnLanded, LoopHead, CloseNext, Send;
    ClosersSent(h, c, n0);
    SelfUnmoved(h, c, n0);
    match i
    case Inbound(m) => MessageUnmoved(h, m, c, n0); UnmovedKeeps(h, Step(h, i), c, n0);
    case Landed(k) => LandedKeeps(h, k, c, n0);
    case Connect(name) =>
      SendUnmoved(h, h, AdbMessage(CNXN, ADB_VERSION, ADB_LEGACY_MAX_PAYLOAD, name), Nothing, c, n0);
      UnmovedKeeps(h, Step(h, i), c, n0);
    case Open(destination) =>
      OpenUnmoved(h, destination, c, n0);
      UnmovedKeeps(h, Step(h, i), c, n0);
    case Write(id, payload) =>
      if id in h.streams && h.streams[id].open {
        var j := h.(writes := h.writes + [Writing(h.streams[id], payload, 0, [h.maxPayload])]);
        FewerUnmoved(h, h, j, c, n0);
        LoopHeadUnmoved(h, j, |h.writes|, c, n0);
        UnmovedKeeps(h, Step(h, i), c, n0);
      }
    case CloseStream(id) =>
      if id in h.streams {
        var s := h.streams[id];
        var j := h.(streams := h.streams - {id});
        FewerUnmoved(h, h, j, c, n0);
        SendUnmoved(h, j, AdbMessage(CLSE, s.localId, s.remoteId, []), Nothing, c, n0);
        UnmovedKeeps(h, Step(h, i), c, n0);
      }
    case Close =>
      var j := h.(closes := h.closes + [false]);
      assert Unmoved(h, j, c, n0) by { NewCloseUnmoved(h, c, n0); }
      OtherCloseUnmoved(h, j, |h.closes|, Ids(h.streams, h.nextLocalId), c, n0);
      UnmovedKeeps(h, Step(h, i), c, n0);
  }

  lemma NewCloseUnmoved(h: Host, c: nat, n0: int)
    requires c < |h.closes|
    ensures Unmoved(h, h.(closes := h.closes + [false]), c, n0)
  {
    assert forall n: nat :: CloserOf(h.(closes := h.closes + [false]), n, c) <==> CloserOf(h, n, c);
  }

  lemma OpenUnmoved(h: Host, destination: bytes, c: nat, n0: int)
    requires n0 <= h.nextLocalId && forall n: nat :: CloserOf(h, n, c) ==> n < |h.sent|
    ensures Unmoved(h, OnOpen(h, destination), c, n0)
  {
    var k := OnOpen(h, destination);
    assert forall n: nat :: CloserOf(k, n, c) ==> n != |h.sent| && CloserOf(h, n, c);
  }

  lemma {:induction false} RunKeepsClosing(h: Host, inputs: seq<Input>, c: nat, n0: int)
    requires Kept(h, 1) && ClosingInv(h, c, n0)
    ensures ClosingInv(After(h, inputs), c, n0)
    decreases |inputs|
  {
    hide Step, ClosingInv, TableInv, AckLaw, LifeInv, Later;
    if inputs != [] {
      StepKeepsClosing(h, inputs[0], c, n0);
      StepKeeps(h, inputs[0], 1);
      RunKeepsClosing(Step(h, inputs[0]), inputs[1..], c, n0);
    }
  }

  predicate Ascending(ids: seq<int>) {
    forall i, j :: 0 <= i < j < |ids| ==> ids[i] < ids[j]
  }

  lemma {:induction false} IdsAreTheKeys(streams: map<int, Stream>, hi: int)
    ensures Ascending(Ids(streams, hi))
    ensures forall id :: id in Ids(streams, hi) <==> 1 <= id < hi && id in streams
    decreases hi
  {
    if hi > 1 {
      IdsAreTheKeys(streams, hi - 1);
      var front := Ids(streams, hi - 1);
      assert forall i :: 0 <= i < |front| ==> front[i] in front;
    }
  }

  lemma CloseBegins(h: Host)
    requires TableInv(h) && forall n: nat :: !CloserOf(h, n, |h.closes|)
    ensures ClosingInv(OnClose(h), |h.closes|, h.nextLocalId)
  {
    var j := h.(closes := h.closes + [false]);
    var ids := Ids(h.streams, h.nextLocalId);
    IdsAreTheKeys(h.streams, h.nextLocalId);
    hide Ids, CloseNext, Ascending;
    assert forall n: nat :: CloserOf(j, n, |h.closes|) <==> CloserOf(h, n, |h.closes|);
    assert OnlyListed(j, h.nextLocalId, ids) by {
      forall id | id in j.streams && id < h.nextLocalId
        ensures id in ids
      {
        assert Issued(h, id);
      }
    }
    CloseNextKeeps(j, |h.closes|, ids, h.nextLocalId);
  }

  // ----- No call of `close` is waited for before it is made -----------------------------

  predicate ClosersKnown(h: Host) {
    forall k :: k in h.flights && h.flights[k].follow.NextClose? ==> h.flights[k].follow.close < |h.closes|
  }

  lemma {:induction false} CloseNextKnows(h: Host, c: nat, ids: seq<int>)
    requires ClosersKnown(h) && c < |h.closes|
    ensures ClosersKnown(CloseNext(h, c, ids))
    decreases |ids|
  {
    if ids != [] && ids[0] !in h.streams {
      CloseNextKnows(h, c, ids[1..]);
    }
  }

  lemma LandedKnows(h: Host, k: nat)
    requires ClosersKnown(h)
    ensures ClosersKnown(OnLanded(h, k))
  {
    hide CloseNext;
    if k in h.flights && h.flights[k].body == [] && h.flights[k].follow.NextClose? && h.flights[k].follow.close < |h.closes| {
      var j := h.(flights := h.flights - {k});
      assert ClosersKnown(j);
      CloseNextKnows(j, h.flights[k].follow.close, h.flights[k].follow.ids);
    }
  }

  lemma MessageKnows(h: Host, m: AdbMessage)
    requires ClosersKnown(h)
    ensures ClosersKnown(OnMessage(h, m))
  {
  }

  lemma StepKnows(h: Host, i: Input)
    requires ClosersKnown(h)
    ensures ClosersKnown(Step(h, i))
  {
    hide CloseNext, OnMessage, OnLanded;
    match i
    case Inbound(m) => MessageKnows(h, m);
    case Landed(k) => LandedKnows(h, k);
    case Close => CloseNextKnows(h.(closes := h.closes + [false]), |h.closes|, Ids(h.streams, h.nextLocalId));
    case _ =>
  }

  lemma {:induction false} RunKnows(h: Host, inputs: seq<Input>)
    requires ClosersKnown(h)
    ensures ClosersKnown(After(h, inputs))
    decreases |inputs|
  {
    hide Step, ClosersKnown;
    if inputs != [] {
      StepKnows(h, inputs[0]);
      RunKnows(Step(h, inputs[0]), inputs[1..]);
    }
  }

  // ----- The results ------------------------------------------------------------------------

  /** Streams opened in a run, by the device or by the owner. */
  function Opens(inputs: seq<Input>): nat
    decreases |inputs|
  {
    if inputs == [] then 0
    else (if inputs[0].Open? || (inputs[0].Inbound? && inputs[0].message.command == OPEN) then 1 else 0) + Opens(inputs[1..])
  }

  lemma {:induction false} CloseNextIssuesNone(h: Host, c: nat, ids: seq<int>)
    requires c < |h.closes|
    ensures CloseNext(h, c, ids).nextLocalId == h.nextLocalId
    decreases |ids|
  {
    if ids != [] && ids[0] !in h.streams {
      CloseNextIssuesNone(h, c, ids[1..]);
    }
  }

  lemma StepIssues(h: Host, i: Input)
    ensures Step(h, i).nextLocalId == h.nextLocalId + Opens([i])
  {
    assert [i][1..] == [];
    hide CloseNext;
    match i
    case Landed(k) =>
      if k in h.flights && h.flights[k].body == [] && h.flights[k].follow.NextClose? && h.flights[k].follow.close < |h.closes| {
        CloseNextIssuesNone(h.(flights := h.flights - {k}), h.flights[k].follow.close, h.flights[k].follow.ids);
      }
    case Close => CloseNextIssuesNone(h.(closes := h.closes + [false]), |h.closes|, Ids(h.streams, h.nextLocalId));
    case _ =>
  }

  /** One id is issued for each stream opened, and none otherwise. */
  lemma {:induction false} RunIssues(h: Host, inputs: seq<Input>)
    ensures After(h, inputs).nextLocalId == h.nextLocalId + Opens(inputs)
    decreases |inputs|
  {
    hide Step;
    if inputs != [] {
      StepIssues(h, inputs[0]);
      RunIssues(Step(h, inputs[0]), inputs[1..]);
      assert [inputs[0]][1..] == [];
      assert Opens(inputs) == Opens([inputs[0]]) + Opens(inputs[1..]);
    }
  }

  /** Call `c` of `close` has run to its end. */
  predicate Closed(h: Host, c: nat) {
    c < |h.closes| && h.closes[c]
  }

  /** The stream has ended, once: by a CLSE sent or by a `streamClose` event. */
  predicate EndedOnce(h: Host, id: int) {
    ClosesOf(h.sent, id) + DownsOf(h.events, id) == 1
  }

  predicate NotEnded(h: Host, id: int) {
    ClosesOf(h.sent, id) == 0 && DownsOf(h.events, id) == 0
  }

  /** Whatever happens while it waits, once a call of `close` has run to its end every
      stream it found in the table has ended, once. Only streams opened since can be
      there: with none opened the table is empty, and in general it is empty if and
      only if each of those has ended. */
  lemma CloseLeavesOnlyNewcomers(limit: nat, before: seq<Input>, after: seq<Input>)
    requires var h := After(NewHost(limit), before); Closed(After(OnClose(h), after), |h.closes|)
    ensures var h := After(NewHost(limit), before);
            var k := After(OnClose(h), after);
            && (forall id :: id in h.streams ==> NotEnded(h, id) && EndedOnce(k, id))
            && (forall id :: id in k.streams ==> h.nextLocalId <= id < h.nextLocalId + Opens(after))
            && (Opens(after) == 0 ==> k.streams == map[])
            && (k.streams == map[] <==> forall id :: h.nextLocalId <= id < h.nextLocalId + Opens(after) ==> EndedOnce(k, id))
  {
    hide After, Opens, Closed, Ids, EndedOnce, NotEnded;
    var h := After(NewHost(limit), before);
    var k := After(OnClose(h), after);
    RunIssues(OnClose(h), after);
    CloseNextIssuesNone(h.(closes := h.closes + [false]), |h.closes|, Ids(h.streams, h.nextLocalId));
    assert k.nextLocalId == h.nextLocalId + Opens(after);
    TableAndAcksConserved(limit, before);
    AfterClose(limit, before, after);
    forall id | id in h.streams
      ensures NotEnded(h, id) && EndedOnce(k, id)
    {
      EndsAcrossClose(limit, before, after, id);
    }
    forall id | h.nextLocalId <= id < k.nextLocalId
      ensures EndedOnce(k, id) <==> id !in k.streams
    {
      EndsAcrossClose(limit, before, after, id);
    }
    OnlyNew(k, h.nextLocalId);
  }

  /** What the run up to and after the call keeps. */
  lemma AfterClose(limit: nat, before: seq<Input>, after: seq<Input>)
    requires var h := After(NewHost(limit), before); Closed(After(OnClose(h), after), |h.closes|)
    ensures var h := After(NewHost(limit), before);
            var k := After(OnClose(h), after);
            TableInv(k) && forall id :: id in k.streams ==> id >= h.nextLocalId
  {
    hide After, ClosingInv, AckLaw, LifeInv, Later, TableInv, Ids;
    var h := After(NewHost(limit), before);
    RunsUpToClose(limit, before);
    RunKeeps(OnClose(h), after, 1);
    RunKeepsClosing(OnClose(h), after, |h.closes|, h.nextLocalId);
    NoneOld(After(OnClose(h), after), |h.closes|, h.nextLocalId);
  }

  lemma EndsAcrossClose(limit: nat, before: seq<Input>, after: seq<Input>, id: int)
    requires id != 0
    ensures var h := After(NewHost(limit), before);
            var k := After(OnClose(h), after);
            && (id in h.streams ==> NotEnded(h, id))
            && (Issued(k, id) ==> (EndedOnce(k, id) <==> id !in k.streams))
  {
    hide After, ClosesOf, DownsOf, UpsOf, Ids, CloseNext;
    var h := After(NewHost(limit), before);
    OneEventOfEach(limit, before, id);
    OneEventOfEach(limit, before + ([Close] + after), id);
    AfterJoin(NewHost(limit), before, [Close] + after);
    AfterJoin(h, [Close], after);
    assert After(h, [Close]) == OnClose(h) by { CloseAlone(h); }
  }

  lemma CloseAlone(h: Host)
    ensures After(h, [Close]) == OnClose(h)
  {
    var k := Step(h, Close);
    hide CloseNext, Ids;
    assert [Close][1..] == [];
    assert After(k, []) == k;
  }

  /** A `close` that ends with a stream left: one the device opened while it waited. */
  lemma CloseLeavesAStream(name: bytes)
    ensures var h := After(NewHost(4096), [Inbound(AdbMessage(OPEN, 7, 0, name)), Close, Inbound(AdbMessage(OPEN, 8, 0, name)), Landed(1)]);
            Closed(h, 0) && h.streams == map[2 := Stream(2, 8, name, true)]
  {
    var i1, i2, i3, i4 := Inbound(AdbMessage(OPEN, 7, 0, name)), Close, Inbound(AdbMessage(OPEN, 8, 0, name)), Landed(1);
    var h1 := Step(NewHost(4096), i1);
    assert h1.streams == map[1 := Stream(1, 7, name, true)] && h1.nextLocalId == 2 && |h1.sent| == 1;
    var h2 := OneStreamCloses(h1, Stream(1, 7, name, true));
    var h3 := Step(h2, i3);
    assert h3.streams == map[2 := Stream(2, 8, name, true)];
    assert h3.flights[1] == Flight([], NextClose(0, []));
    var h4 := Step(h3, i4);
    assert h4.closes == [true] && h4.streams == h3.streams;
    hide Step;
    FourInputs(NewHost(4096), i1, i2, i3, i4);
  }

  lemma FourInputs(h: Host, i1: Input, i2: Input, i3: Input, i4: Input)
    ensures After(h, [i1, i2, i3, i4]) == Step(Step(Step(Step(h, i1), i2), i3), i4)
  {
    hide Step;
    AfterSnoc(h, [], i1);
    AfterSnoc(h, [i1], i2);
    AfterSnoc(h, [i1, i2], i3);
    AfterSnoc(h, [i1, i2, i3], i4);
    assert [] + [i1] == [i1] && [i1] + [i2] == [i1, i2] && [i1, i2] + [i3] == [i1, i2, i3];
    assert [i1, i2, i3] + [i4] == [i1, i2, i3, i4];
  }

  lemma OneStreamCloses(h: Host, s: Stream) returns (k: Host)
    requires h.streams == map[1 := s] && h.nextLocalId == 2 && h.closes == [] && |h.sent| == 1
    ensures k == Step(h, Close) && k.streams == map[] && k.nextLocalId == 2 && |k.sent| == 2 && k.closes == [false]
    ensures 1 in k.flights && k.flights[1] == Flight([], NextClose(0, []))
  {
    k := Step(h, Close);
    assert Ids(h.streams, 1) == [];
    assert Ids(h.streams, 2) == [1];
    assert [1][1..] == [];
    assert h.streams - {1} == map[];
  }

  lemma RunsUpToClose(limit: nat, before: seq<Input>)
    ensures var h := After(NewHost(limit), before);
            Kept(OnClose(h), 1) && ClosingInv(OnClose(h), |h.closes|, h.nextLocalId)
  {
    hide After, ClosingInv, Kept, ClosersKnown, Later, CloseNext, Ids;
    var h := After(NewHost(limit), before);
    TableAndAcksConserved(limit, before);
    NewHostKept(limit, 1);
    RunKeeps(NewHost(limit), before, 1);
    StepKeeps(h, Close, 1);
    assert Step(h, Close) == OnClose(h);
    NewHostKnows(limit);
    RunKnows(NewHost(limit), before);
    NoneYet(h);
    CloseBegins(h);
  }

  lemma NewHostKnows(limit: nat)
    ensures ClosersKnown(NewHost(limit))
  {
  }

  lemma NoneYet(h: Host)
    requires ClosersKnown(h)
    ensures forall n: nat :: !CloserOf(h, n, |h.closes|)
  {
  }

  lemma NoneOld(k: Host, c: nat, n0: int)
    requires ClosingInv(k, c, n0) && Closed(k, c)
    ensures forall v :: v in k.streams ==> v >= n0
  {
    assert OnlyListed(k, n0, []);
  }

  lemma OnlyNew(k: Host, n0: int)
    requires TableInv(k) && forall v :: v in k.streams ==> v >= n0
    ensures forall v :: v in k.streams ==> n0 <= v < k.nextLocalId
    ensures k.streams == map[] <==> forall v :: n0 <= v < k.nextLocalId ==> v !in k.streams
  {
    assert forall v :: v in k.streams ==> Issued(k, v);
    if forall v :: n0 <= v < k.nextLocalId ==> v !in k.streams {
      assert k.streams.Keys == {};
    }
  }

  // ----- Undisturbed -------------------------------------------------------------------------

  function Farewells(streams: map<int, Stream>, ids: seq<int>): seq<AdbMessage>
    requires forall i :: 0 <= i < |ids| ==> ids[i] in streams
    decreases |ids|
  {
    if ids == [] then []
    else [AdbMessage(CLSE, streams[ids[0]].localId, streams[ids[0]].remoteId, [])] + Farewells(streams, ids[1..])
  }

  lemma {:induction false} FarewellsAgree(a: map<int, Stream>, b: map<int, Stream>, ids: seq<int>)
    requires forall i :: 0 <= i < |ids| ==> ids[i] in a && ids[i] in b && a[ids[i]] == b[ids[i]]
    ensures Farewells(a, ids) == Farewells(b, ids)
    decreases |ids|
  {
    if ids != [] {
      FarewellsAgree(a, b, ids[1..]);
    }
  }

  /** Messages `from`, `from + 1`, ... land, `n` of them. */
  function Landings(from: nat, n: nat): seq<Input>
    decreases n
  {
    if n == 0 then [] else [Landed(from)] + Landings(from + 1, n - 1)
  }

  lemma KeysLeft(streams: map<int, Stream>, ids: seq<int>)
    requires ids != []
    ensures (streams.Keys - {ids[0]}) - (set id | id in ids[1..]) == streams.Keys - (set id | id in ids)
  {
    assert forall id :: id in ids <==> id == ids[0] || id in ids[1..];
  }

  lemma {:induction false} CloseRuns(h: Host, c: nat, ids: seq<int>)
    requires c < |h.closes| && Ascending(ids)
    requires forall i :: 0 <= i < |ids| ==> ids[i] in h.streams
    ensures var k := After(CloseNext(h, c, ids), Landings(|h.sent|, |ids|));
            && k.sent == h.sent + Farewells(h.streams, ids) && k.events == h.events
            && k.streams.Keys == h.streams.Keys - (set id | id in ids)
            && c < |k.closes| && k.closes[c]
    decreases |ids|
  {
    hide CloseNext, Step, After;
    if ids == [] {
      NothingToClose(h, c);
      assert h.streams.Keys - (set id | id in ids) == h.streams.Keys;
    } else {
      var first := h.streams[ids[0]];
      var m := AdbMessage(CLSE, first.localId, first.remoteId, []);
      var j1 := OneLands(h, c, ids);
      assert forall i :: 0 <= i < |ids[1..]| ==> ids[1..][i] in j1.streams;
      CloseRuns(j1, c, ids[1..]);
      FarewellsAgree(h.streams, j1.streams, ids[1..]);
      assert Farewells(h.streams, ids) == [m] + Farewells(h.streams, ids[1..]);
      KeysLeft(h.streams, ids);
      hide Farewells;
      assert (h.sent + [m]) + Farewells(h.streams, ids[1..]) == h.sent + ([m] + Farewells(h.streams, ids[1..]));
    }
  }

  lemma NothingToClose(h: Host, c: nat)
    requires c < |h.closes|
    ensures var k := After(CloseNext(h, c, []), Landings(|h.sent|, 0));
            k.sent == h.sent && k.events == h.events && k.streams == h.streams && c < |k.closes| && k.closes[c]
    ensures h.sent + Farewells(h.streams, []) == h.sent
  {
  }

  /** The first goodbye, and its landing. */
  lemma OneLands(h: Host, c: nat, ids: seq<int>) returns (j: Host)
    requires c < |h.closes| && ids != [] && ids[0] in h.streams
    ensures j.sent == h.sent + [AdbMessage(CLSE, h.streams[ids[0]].localId, h.streams[ids[0]].remoteId, [])]
    ensures j.streams == h.streams - {ids[0]} && j.events == h.events && j.closes == h.closes
    ensures After(CloseNext(h, c, ids), Landings(|h.sent|, |ids|))
         == After(CloseNext(j, c, ids[1..]), Landings(|j.sent|, |ids[1..]|))
  {
    var k := OnCloseStream(h, ids[0], NextClose(c, ids[1..]));
    j := k.(flights := k.flights - {|h.sent|});
    assert CloseNext(h, c, ids) == k;
    hide CloseNext;
    assert Step(k, Landed(|h.sent|)) == CloseNext(j, c, ids[1..]);
    hide Step;
    var landings := Landings(|h.sent|, |ids|);
    assert landings[0] == Landed(|h.sent|) && landings[1..] == Landings(|h.sent| + 1, |ids| - 1);
  }

  /** With nothing else happening while it waits, `close` says goodbye once to every
      stream in the table, oldest first, leaves the table empty, and emits nothing. */
  lemma CloseEmptiesTheTable(h: Host)
    requires TableInv(h)
    ensures var ids := Ids(h.streams, h.nextLocalId);
            var k := After(OnClose(h), Landings(|h.sent|, |ids|));
            && k.streams == map[] && k.events == h.events && |h.closes| < |k.closes| && k.closes[|h.closes|]
            && Ascending(ids) && (forall id :: id in ids <==> id in h.streams)
            && (forall i :: 0 <= i < |ids| ==> ids[i] in h.streams)
            && k.sent == h.sent + Farewells(h.streams, ids)
  {
    var ids := Ids(h.streams, h.nextLocalId);
    IdsAreTheKeys(h.streams, h.nextLocalId);
    hide Ids, CloseNext, After;
    assert forall i :: 0 <= i < |ids| ==> ids[i] in ids;
    CloseRuns(h.(closes := h.closes + [false]), |h.closes|, ids);
    forall id
      ensures id in ids <==> id in h.streams
    {
      assert id in ids <==> 1 <= id < h.nextLocalId && id in h.streams;
    }
    assert (set id | id in ids) == h.streams.Keys;
    assert After(OnClose(h), Landings(|h.sent|, |ids|)).streams.Keys == {};
  }
}
