/** Acknowledgements: which are owed, and that exactly those are sent. */
module AdbAcks {
  import opened Bytes
  import opened AdbMessages
  import opened AdbHosts
  import opened AdbStreams

  /** The OKAYs among `sent`, in order. */
  function Okays(sent: seq<AdbMessage>): seq<AdbMessage> {
    if sent == [] then []
    else Okays(sent[..|sent| - 1]) + (if sent[|sent| - 1].command == OKAY then [sent[|sent| - 1]] else [])
  }

  lemma OkaysSnoc(sent: seq<AdbMessage>, m: AdbMessage)
    ensures Okays(sent + [m]) == Okays(sent) + (if m.command == OKAY then [m] else [])
  {
    assert (sent + [m])[..|sent|] == sent;
  }

  /** What one input is owed: an OPEN, an OKAY for a fresh id; a WRTE to a stream in
      the table, an OKAY from the id it named to the stream's other end. */
  function OkaysDue(h: Host, i: Input): seq<AdbMessage> {
    if !i.Inbound? then []
    else
      var m := i.message;
      if m.command == OPEN then [AdbMessage(OKAY, h.nextLocalId, m.arg0, [])]
      else if m.command == WRTE && m.arg1 in h.streams then [AdbMessage(OKAY, m.arg1, h.streams[m.arg1].remoteId, [])]
      else []
  }

  /** What is owed over a run. */
  function OkaysDueOver(h: Host, inputs: seq<Input>): seq<AdbMessage>
    decreases |inputs|
  {
    if inputs == [] then [] else OkaysDue(h, inputs[0]) + OkaysDueOver(Step(h, inputs[0]), inputs[1..])
  }

  lemma MessageAcks(h: Host, m: AdbMessage)
    requires TableInv(h)
    ensures Okays(OnMessage(h, m).sent) == Okays(h.sent) + OkaysDue(h, Inbound(m))
  {
    hide Okays;
    if OkaysDue(h, Inbound(m)) != [] {
      OkaysSnoc(h.sent, OkaysDue(h, Inbound(m))[0]);
    }
  }

  lemma LoopHeadAcks(h: Host, w: nat)
    requires w < |h.writes|
    ensures Okays(LoopHead(h, w).sent) == Okays(h.sent)
  {
    hide Okays;
    var wr := h.writes[w];
    if wr.offset < |wr.payload| {
      var end := Min(wr.offset + h.maxPayload, |wr.payload|);
      OkaysSnoc(h.sent, AdbMessage(WRTE, wr.stream.localId, wr.stream.remoteId, wr.payload[wr.offset..end]));
    }
  }

  lemma CloseStreamAcks(h: Host, id: int, follow: Follow)
    ensures Okays(OnCloseStream(h, id, follow).sent) == Okays(h.sent)
  {
    hide Okays;
    if id in h.streams {
      OkaysSnoc(h.sent, AdbMessage(CLSE, h.streams[id].localId, h.streams[id].remoteId, []));
    }
  }

  lemma {:induction false} CloseNextAcks(h: Host, c: nat, ids: seq<int>)
    requires c < |h.closes|
    ensures Okays(CloseNext(h, c, ids).sent) == Okays(h.sent)
    decreases |ids|
  {
    hide Okays, OnCloseStream;
    if ids != [] {
      if ids[0] in h.streams {
        CloseStreamAcks(h, ids[0], NextClose(c, ids[1..]));
      } else {
        CloseNextAcks(h, c, ids[1..]);
      }
    }
  }

  lemma LandedAcks(h: Host, k: nat)
    ensures Okays(OnLanded(h, k).sent) == Okays(h.sent)
  {
    hide Okays, LoopHead, CloseNext;
    if k in h.flights && h.flights[k].body == [] {
      var j := h.(flights := h.flights - {k});
      match h.flights[k].follow
      case NextSlice(w) =>
        if w < |j.writes| {
          var wr := j.writes[w];
          var next := wr.(offset := wr.offset + j.maxPayload, limits := wr.limits + [j.maxPayload]);
          LoopHeadAcks(j.(writes := j.writes[w := next]), w);
        }
      case NextClose(c, ids) =>
        if c < |j.closes| { CloseNextAcks(j, c, ids); }
      case _ =>
    }
  }

  lemma StepAcks(h: Host, i: Input)
    requires TableInv(h)
    ensures Okays(Step(h, i).sent) == Okays(h.sent) + OkaysDue(h, i)
  {
    hide Okays, OnMessage, OnLanded, CloseNext, LoopHead, OnCloseStream;
    match i
    case Inbound(m) => MessageAcks(h, m);
    case Landed(k) => LandedAcks(h, k);
    case Connect(name) => OkaysSnoc(h.sent, AdbMessage(CNXN, ADB_VERSION, ADB_LEGACY_MAX_PAYLOAD, name));
    case Open(destination) => OkaysSnoc(h.sent, AdbMessage(OPEN, h.nextLocalId, 0, destination + [0]));
    case Write(id, payload) =>
      if id in h.streams && h.streams[id].open {
        LoopHeadAcks(h.(writes := h.writes + [Writing(h.streams[id], payload, 0, [h.maxPayload])]), |h.writes|);
      }
    case CloseStream(id) => CloseStreamAcks(h, id, Nothing);
    case Close => CloseNextAcks(h.(closes := h.closes + [false]), |h.closes|, Ids(h.streams, h.nextLocalId));
  }

  lemma {:induction false} RunAcks(h: Host, inputs: seq<Input>)
    requires Kept(h, 1)
    ensures Okays(After(h, inputs).sent) == Okays(h.sent) + OkaysDueOver(h, inputs)
    decreases |inputs|
  {
    hide Okays, Step, OkaysDue, TableInv, AckLaw, LifeInv, Later;
    if inputs == [] {
      assert After(h, inputs) == h && OkaysDueOver(h, inputs) == [];
    } else {
      var k := Step(h, inputs[0]);
      StepAcks(h, inputs[0]);
      StepKeeps(h, inputs[0], 1);
      RunAcks(k, inputs[1..]);
      assert After(h, inputs) == After(k, inputs[1..]);
      assert OkaysDueOver(h, inputs) == OkaysDue(h, inputs[0]) + OkaysDueOver(k, inputs[1..]);
    }
  }

  /** Over every run the OKAYs sent are exactly those owed, one for each OPEN and
      for each WRTE to a stream then in the table, in the order of arrival and
      rightly addressed. */
  lemma OkaysAreWhatIsOwed(limit: nat, inputs: seq<Input>)
    ensures Okays(After(NewHost(limit), inputs).sent) == OkaysDueOver(NewHost(limit), inputs)
  {
    hide Okays, After, OkaysDueOver, Kept;
    NewHostKept(limit, 1);
    RunAcks(NewHost(limit), inputs);
    NothingSent(limit);
  }

  lemma NothingSent(limit: nat)
    ensures Okays(NewHost(limit).sent) == []
  {
  }
}
