/** A caller that awaits everything: it can write any payloads to a stream, and
    its run meets every condition under which they cross the link in order. */
module AdbDriver {
  import opened Bytes
  import opened AdbMessages
  import opened AdbHosts
  import opened AdbWrites
  import opened AdbLinks
  import opened AdbOrder
  import opened AdbPlaces
  import opened AdbDiscipline

  /** Nothing is sent while a payload is due, no write to the stream begins before
      the last is over, and no limit moves during one. */
  ghost predicate Careful(h: Host, inputs: seq<Input>, id: int) {
    Patient(h, inputs) && Awaits(h, inputs, id) && LimitSteady(h, inputs, id)
  }

  /** Nothing but writes and landings. */
  predicate OnlyWrites(inputs: seq<Input>) {
    forall i :: 0 <= i < |inputs| ==> inputs[i].Landed? || inputs[i].Write?
  }

  lemma {:induction false} CarefulJoin(h: Host, a: seq<Input>, b: seq<Input>, id: int)
    requires Careful(h, a, id) && Careful(After(h, a), b, id)
    ensures Careful(h, a + b, id) && After(h, a + b) == After(After(h, a), b)
    decreases |a|
  {
    hide Step, Sends, BodyDue, BeginsOn, MovesLimit;
    if a == [] {
      assert a + b == b;
    } else {
      CarefulJoin(Step(h, a[0]), a[1..], b, id);
      assert (a + b)[0] == a[0] && (a + b)[1..] == a[1..] + b;
    }
  }

  /** A landing by itself is careful, unless it makes the host send while a payload is due. */
  lemma LandingIsCareful(h: Host, k: nat, id: int)
    requires !(Sends(h, Landed(k)) && exists n: nat :: BodyDue(h, n))
    ensures Careful(h, [Landed(k)], id) && After(h, [Landed(k)]) == Step(h, Landed(k))
  {
    hide Step, Sends, BodyDue;
    OneInput(h, Landed(k), id);
  }

  lemma OneInput(h: Host, i: Input, id: int)
    requires !(Sends(h, i) && exists n: nat :: BodyDue(h, n))
    requires !MovesLimit(h, i) && (BeginsOn(h, i, id) ==> AllOver(h, id))
    ensures Careful(h, [i], id) && After(h, [i]) == Step(h, i)
  {
    hide Step, Sends, BodyDue, MovesLimit, BeginsOn;
    var j, none: seq<Input> := Step(h, i), [];
    assert [i][1..] == none;
    assert Patient(j, none) && Awaits(j, none, id) && LimitSteady(j, none, id) && After(j, none) == j;
  }

  /** Only write `w` is under way: its latest message waits with its payload due. */
  ghost predicate Pumping(h: Host, w: nat) {
    && h.maxPayload > 0 && h.sent != [] && w < |h.writes| && h.writes[w].offset < |h.writes[w].payload|
    && exists body: bytes :: body != [] && h.flights == map[|h.sent| - 1 := Flight(body, NextSlice(w))]
  }

  /** `k` is `h` with write `w` further on. */
  predicate OnlyWrote(h: Host, k: Host, w: nat) {
    && k.streams == h.streams && k.nextLocalId == h.nextLocalId && k.maxPayload == h.maxPayload
    && GoOn(h.writes, k.writes) && |k.writes| == |h.writes|
    && forall v :: 0 <= v < |h.writes| && v != w ==> k.writes[v] == h.writes[v]
  }

  /** The payload due goes out, and lands: the write is over, or pumping again. */
  lemma PumpOnce(h: Host, w: nat, id: int) returns (inputs: seq<Input>)
    requires Pumping(h, w)
    ensures OnlyWrites(inputs)
    ensures var k := After(h, inputs);
            && Careful(h, inputs, id) && OnlyWrote(h, k, w)
            && k.writes[w].offset > h.writes[w].offset
            && (if k.writes[w].offset >= |k.writes[w].payload| then k.flights == map[] else Pumping(k, w))
  {
    var n: nat := |h.sent| - 1;
    var body: bytes :| body != [] && h.flights == map[n := Flight(body, NextSlice(w))];
    var j := BodyOut(h, n, w, body);
    LandingIsCareful(h, n, id);
    var k := SliceLanded(j, n, w);
    assert forall m: nat :: !BodyDue(j, m);
    LandingIsCareful(j, n, id);
    CarefulJoin(h, [Landed(n)], [Landed(n)], id);
    inputs := [Landed(n)] + [Landed(n)];
  }

  lemma BodyOut(h: Host, n: nat, w: nat, body: bytes) returns (j: Host)
    requires body != [] && h.flights == map[n := Flight(body, NextSlice(w))]
    ensures j == Step(h, Landed(n)) && !Sends(h, Landed(n))
    ensures j.flights == map[n := Flight([], NextSlice(w))]
    ensures j.sent == h.sent && j.writes == h.writes && j.streams == h.streams && j.nextLocalId == h.nextLocalId
    ensures j.maxPayload == h.maxPayload
  {
    j := Step(h, Landed(n));
  }

  lemma SliceLanded(h: Host, n: nat, w: nat) returns (k: Host)
    requires h.flights == map[n := Flight([], NextSlice(w))] && h.maxPayload > 0 && w < |h.writes|
    requires h.writes[w].offset < |h.writes[w].payload|
    ensures k == Step(h, Landed(n)) && OnlyWrote(h, k, w) && k.writes[w].offset > h.writes[w].offset
    ensures if k.writes[w].offset >= |k.writes[w].payload| then k.flights == map[] else Pumping(k, w)
  {
    k := Step(h, Landed(n));
    var wr := h.writes[w];
    var at := wr.offset + h.maxPayload;
    assert h.flights - {n} == map[];
    if at < |wr.payload| {
      var body := wr.payload[at..Min(at + h.maxPayload, |wr.payload|)];
      assert body != [];
      assert k.flights == map[|k.sent| - 1 := Flight(body, NextSlice(w))];
    }
  }

  lemma OnlyWroteTransitive(h: Host, j: Host, k: Host, w: nat)
    requires OnlyWrote(h, j, w) && OnlyWrote(j, k, w)
    ensures OnlyWrote(h, k, w)
  {
  }

  lemma {:induction false} Pump(h: Host, w: nat, id: int) returns (inputs: seq<Input>)
    requires Pumping(h, w)
    ensures OnlyWrites(inputs)
    ensures var k := After(h, inputs);
            && Careful(h, inputs, id) && OnlyWrote(h, k, w)
            && k.writes[w].offset >= |k.writes[w].payload| && k.flights == map[]
    decreases |h.writes[w].payload| - h.writes[w].offset
  {
    hide Careful, After;
    inputs := PumpOnce(h, w, id);
    var k := After(h, inputs);
    if k.writes[w].offset < |k.writes[w].payload| {
      var more := Pump(k, w, id);
      CarefulJoin(h, inputs, more, id);
      OnlyWroteTransitive(h, k, After(k, more), w);
      inputs := inputs + more;
    }
  }

  /** Nothing is under way, and the stream is open. */
  predicate Idle(h: Host, id: int) {
    && h.flights == map[] && h.maxPayload > 0 && AllOver(h, id)
    && id in h.streams && h.streams[id].open && h.streams[id].localId == id
  }

  /** One payload, from call to end. */
  lemma WriteOut(h: Host, id: int, payload: bytes) returns (inputs: seq<Input>)
    requires Idle(h, id)
    ensures OnlyWrites(inputs)
    ensures var k := After(h, inputs);
            && Careful(h, inputs, id) && Idle(k, id) && k.nextLocalId == h.nextLocalId
            && |k.writes| == |h.writes| + 1 && GoOn(h.writes, k.writes)
            && k.writes[|h.writes|].stream.localId == id && k.writes[|h.writes|].payload == payload
  {
    var j := WriteBegins(h, id, payload);
    inputs := [Write(id, payload)];
    if payload != [] {
      var more := Pump(j, |h.writes|, id);
      CarefulJoin(h, inputs, more, id);
      hide Careful, After, Pumping;
      StillIdle(h, j, After(j, more), id);
      inputs := inputs + more;
    }
  }

  lemma StillIdle(h: Host, j: Host, k: Host, id: int)
    requires AllOver(h, id) && OnlyWrote(j, k, |h.writes|) && k.flights == map[] && j.maxPayload > 0
    requires id in j.streams && j.streams[id].open && j.streams[id].localId == id
    requires |j.writes| == |h.writes| + 1 && forall v :: 0 <= v < |h.writes| ==> j.writes[v] == h.writes[v]
    requires k.writes[|h.writes|].offset >= |k.writes[|h.writes|].payload|
    ensures Idle(k, id) && GoOn(h.writes, k.writes)
  {
  }

  lemma WriteBegins(h: Host, id: int, payload: bytes) returns (j: Host)
    requires Idle(h, id)
    ensures j == After(h, [Write(id, payload)]) && Careful(h, [Write(id, payload)], id)
    ensures |j.writes| == |h.writes| + 1 && (forall v :: 0 <= v < |h.writes| ==> j.writes[v] == h.writes[v])
    ensures j.writes[|h.writes|].stream == h.streams[id] && j.writes[|h.writes|].payload == payload
    ensures j.streams == h.streams && j.nextLocalId == h.nextLocalId && j.maxPayload == h.maxPayload
    ensures payload == [] ==> Idle(j, id)
    ensures payload != [] ==> Pumping(j, |h.writes|)
  {
    j := Step(h, Write(id, payload));
    if payload != [] {
      var body := payload[0..Min(h.maxPayload, |payload|)];
      assert body != [] && j.flights == map[|j.sent| - 1 := Flight(body, NextSlice(|h.writes|))];
    }
    WriteIsCareful(h, id, payload);
  }

  lemma WriteIsCareful(h: Host, id: int, payload: bytes)
    requires Idle(h, id)
    ensures Careful(h, [Write(id, payload)], id)
    ensures After(h, [Write(id, payload)]) == Step(h, Write(id, payload))
  {
    assert forall n: nat :: !BodyDue(h, n);
    hide Step, Sends, BodyDue;
    OneInput(h, Write(id, payload), id);
  }

  lemma {:induction false} PayloadsStay(a: seq<Writing>, b: seq<Writing>, id: int, n: nat)
    requires GoOn(a, b) && n <= |a|
    ensures PayloadsTo(a, id, n) == PayloadsTo(b, id, n)
  {
    if n > 0 {
      PayloadsStay(a, b, id, n - 1);
    }
  }

  lemma {:induction false} WriteAllOut(h: Host, id: int, payloads: seq<bytes>) returns (inputs: seq<Input>)
    requires Idle(h, id)
    ensures OnlyWrites(inputs)
    ensures var k := After(h, inputs);
            && Careful(h, inputs, id) && Idle(k, id) && k.nextLocalId == h.nextLocalId && GoOn(h.writes, k.writes)
            && PayloadsTo(k.writes, id, |k.writes|) == PayloadsTo(h.writes, id, |h.writes|) + payloads
    decreases |payloads|
  {
    if payloads == [] {
      inputs := [];
    } else {
      hide Careful, After, Idle, GoOn, PayloadsTo, OnlyWrites;
      var first := WriteOut(h, id, payloads[0]);
      var j := After(h, first);
      var more := WriteAllOut(j, id, payloads[1..]);
      CarefulJoin(h, first, more, id);
      inputs := first + more;
      BothOnlyWrites(first, more);
      var k := After(j, more);
      GoOnTransitive(h.writes, j.writes, k.writes);
      OneMorePayload(h.writes, j.writes, id);
      var before := PayloadsTo(h.writes, id, |h.writes|);
      assert (before + [payloads[0]]) + payloads[1..] == before + payloads;
    }
  }

  lemma BothOnlyWrites(a: seq<Input>, b: seq<Input>)
    requires OnlyWrites(a) && OnlyWrites(b)
    ensures OnlyWrites(a + b)
  {
  }

  lemma GoOnTransitive(a: seq<Writing>, b: seq<Writing>, c: seq<Writing>)
    requires GoOn(a, b) && GoOn(b, c)
    ensures GoOn(a, c)
  {
  }

  lemma OneMorePayload(a: seq<Writing>, b: seq<Writing>, id: int)
    requires GoOn(a, b) && |b| == |a| + 1 && b[|a|].stream.localId == id
    ensures PayloadsTo(b, id, |b|) == PayloadsTo(a, id, |a|) + [b[|a|].payload]
  {
    PayloadsStay(a, b, id, |a|);
  }

  /** The device opens a stream, and the OKAY lands. */
  lemma Opening(limit: nat, remoteId: nat, name: bytes) returns (inputs: seq<Input>)
    requires limit > 0 && IsWord(remoteId)
    ensures AllPlausible(inputs) && Careful(NewHost(limit), inputs, 1)
    ensures var h := After(NewHost(limit), inputs);
            Idle(h, 1) && h.nextLocalId == 2 && h.writes == []
  {
    var open := Inbound(AdbMessage(OPEN, remoteId, 0, name));
    var h0 := NewHost(limit);
    var h1 := Step(h0, open);
    assert h1.flights == map[0 := Flight([], Announce(Stream(1, remoteId, name, true)))];
    var h2 := Step(h1, Landed(0));
    assert h2.flights == map[] && 1 in h2.streams && h2.streams[1].open && h2.nextLocalId == 2 && h2.writes == [];
    assert (forall n: nat :: !BodyDue(h0, n)) && (forall n: nat :: !BodyDue(h1, n));
    hide Step, BodyDue, Sends;
    OneInput(h0, open, 1);
    OneInput(h1, Landed(0), 1);
    CarefulJoin(h0, [open], [Landed(0)], 1);
    inputs := [open] + [Landed(0)];
  }

  /** For any payloads there is a run that writes them to a stream, in order, and
      meets every condition for their crossing: the device opens the stream, and
      the caller awaits each write. */
  lemma SomeRunIsCareful(limit: nat, name: bytes, payloads: seq<bytes>) returns (inputs: seq<Input>)
    requires limit > 0
    ensures AllPlausible(inputs) && Careful(NewHost(limit), inputs, 1)
    ensures var h := After(NewHost(limit), inputs);
            && h.nextLocalId == 2 && AllOver(h, 1) && (forall n: nat :: !BodyDue(h, n))
            && PayloadsTo(h.writes, 1, |h.writes|) == payloads
  {
    hide Careful, After;
    var first := Opening(limit, 1, name);
    var h := After(NewHost(limit), first);
    var more := WriteAllOut(h, 1, payloads);
    CarefulJoin(NewHost(limit), first, more, 1);
    inputs := first + more;
    BothPlausible(first, more);
    assert [] + payloads == payloads;
  }

  lemma BothPlausible(a: seq<Input>, b: seq<Input>)
    requires AllPlausible(a) && OnlyWrites(b)
    ensures AllPlausible(a + b)
  {
  }
}
