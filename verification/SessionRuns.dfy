/** What the session keeps over every sequence of inbound frames. */
module SessionRuns {
  import opened Bytes
  import opened Incremental
  import opened Frames
  import opened Status
  import opened Session

  /** The effects of feeding `frames` to a session in state `st`. */
  function Effects(cfg: Config, st: State, frames: seq<Frame>): (r: seq<Effect>)
    ensures |r| == |frames|
    decreases |frames|
  {
    if frames == [] then []
    else
      var e := Handle(cfg, st, frames[0]);
      [e] + Effects(cfg, e.state, frames[1..])
  }

  function Final(cfg: Config, st: State, frames: seq<Frame>): State
    decreases |frames|
  {
    if frames == [] then st else Final(cfg, Handle(cfg, st, frames[0]).state, frames[1..])
  }

  lemma {:induction false} FinalSnoc(cfg: Config, st: State, frames: seq<Frame>, f: Frame)
    ensures Final(cfg, st, frames + [f]) == Handle(cfg, Final(cfg, st, frames), f).state
    decreases |frames|
  {
    hide Handle;
    if frames == [] {
      assert (frames + [f])[1..] == [];
    } else {
      assert (frames + [f])[0] == frames[0] && (frames + [f])[1..] == frames[1..] + [f];
      FinalSnoc(cfg, Handle(cfg, st, frames[0]).state, frames[1..], f);
    }
  }

  /** The frame asks for image data. */
  predicate IsRequest(f: Frame) {
    !Special(f.opcode) && !IsFault(f) && f.arg1 == REQUEST_DATA
  }

  /** `maxChunkSize` as a number: a slice of the whole image stands in for infinity. */
  function CapOf(cfg: Config): nat {
    if cfg.chunkCap.None? then |cfg.image| else cfg.chunkCap.value
  }

  lemma SliceEndIsCapped(cfg: Config, offset: nat)
    requires offset <= |cfg.image|
    ensures SliceEnd(cfg, offset) == Min(offset + CapOf(cfg), |cfg.image|)
  {
  }

  /** The percentage stays in 0..100, and reads 100 exactly from 99.5% on. */
  lemma PercentRange(part: nat, whole: nat)
    requires whole > 0 && part <= whole
    ensures 0 <= Percent(part, whole) <= 100
    ensures Percent(part, whole) == 100 <==> 200 * part >= 199 * whole
  {
    var d, q := 2 * whole, Percent(part, whole);
    DivMod(200 * part + whole, d);
    assert q * d <= 200 * part + whole < (q + 1) * d;
    if q >= 101 { Scale(101, q, d); }
    if q >= 100 { Scale(100, q, d); } else { Scale(q + 1, 100, d); }
    if q < 0 { Scale(q + 1, 0, d); }
  }

  predicate ProgressInRange(cfg: Config, e: Effect)
  {
    e.progress.Some? ==>
      var p := e.progress.value;
      && p.bytesSent == e.state.bytesSent <= |cfg.image| == p.totalBytes
      && 0 <= p.percent <= 100
      && (p.bytesSent == |cfg.image| ==> p.percent == 100)
  }

  lemma StepKeeps(cfg: Config, st: State, f: Frame)
    requires st.bytesSent <= |cfg.image|
    ensures var e := Handle(cfg, st, f);
            && e.state.bytesSent <= |cfg.image|
            && (st.finished ==> e.state.finished)
            && (st.failure.Some? ==> e.state.failure.Some?)
            && ProgressInRange(cfg, e)
  {
    var e := Handle(cfg, st, f);
    if e.progress.Some? {
      PercentRange(e.state.bytesSent, |cfg.image|);
    }
  }

  /** Over every run: the cursor stays inside the image, neither `finished` nor
      the recorded failure is ever withdrawn, and every progress report is in range. */
  lemma {:induction false} RunKeeps(cfg: Config, st: State, frames: seq<Frame>)
    requires st.bytesSent <= |cfg.image|
    ensures Final(cfg, st, frames).bytesSent <= |cfg.image|
    ensures st.finished ==> Final(cfg, st, frames).finished
    ensures st.failure.Some? ==> Final(cfg, st, frames).failure.Some?
    ensures forall e :: e in Effects(cfg, st, frames) ==>
      e.state.bytesSent <= |cfg.image| && ProgressInRange(cfg, e)
    decreases |frames|
  {
    if frames != [] {
      StepKeeps(cfg, st, frames[0]);
      RunKeeps(cfg, Handle(cfg, st, frames[0]).state, frames[1..]);
    }
  }

  /** A frame makes the session throw a printer error exactly when it reaches the
      print state machine with a fault; the status then reported is an error, and
      an error status that does not throw carries a code the machine does not know. */
  lemma ThrowsExactlyOnFault(cfg: Config, st: State, f: Frame)
    ensures var e := Handle(cfg, st, f);
            && (e.action.Throw? && e.action.error.ByPrinter? <==> !Special(f.opcode) && IsFault(f))
            && (e.action.Throw? && e.action.error.ByPrinter? <==>
                  e.status.Some? && e.status.value.kind.Faulty? && e.status.value.code <= 6)
            && (|cfg.image| < TWO32 ==> !(e.action.Throw? && e.action.error.ByCodec?))
  {
  }

  /** Every buffer the session asks to be written is exactly one frame. */
  lemma SendIsOneFrame(cfg: Config, st: State, f: Frame)
    requires 0 < |cfg.image| < TWO31
    requires Handle(cfg, st, f).action.Send?
    ensures var data := Handle(cfg, st, f).action.data;
            && DecodeFrame(data).Complete? && DecodeFrame(data).size == |data|
            && data == FrameBytes(DecodeFrame(data).item)
            && ParseFrames(data) == Parsed([DecodeFrame(data).item], [])
            && |DecodeFrame(data).item.payload| < TWO31
            && (DecodeFrame(data).item.opcode in {DATA, DATA_LEGACY} <==> IsRequest(f))
            && (IsRequest(f) ==> DecodeFrame(data).item == DataFrame(cfg, f, WantedOffset(f, st.bytesSent)))
  {
    var data := Handle(cfg, st, f).action.data;
    var g :=
      if f.opcode == HEARTBEAT then Frame(HEARTBEAT, 1, 0, 0, [])
      else if f.arg1 == READY then JobStart(cfg)
      else if f.arg1 == REQUEST_DATA then DataFrame(cfg, f, WantedOffset(f, st.bytesSent))
      else if f.arg1 == NEEDS_ACK then Frame(ACK, f.arg3, 0, 0, [])
      else Frame(END_JOB, 0, 0, 0, []);
    assert data == FrameBytes(g);
    WholeFrame(g);
  }

  lemma WholeFrame(g: Frame)
    requires |g.payload| < TWO31
    ensures DecodeFrame(FrameBytes(g)) == Complete(g, |FrameBytes(g)|)
    ensures ParseFrames(FrameBytes(g)) == Parsed([g], [])
  {
    assert FrameBytes(g) + [] == FrameBytes(g);
    FrameRoundTrip(g, []);
    ParseFrameBytes(g, []);
    RestIncomplete(DecodeFrame, []);
  }

  /** A job start as the printer reads it: the opcode of the pair in use, the image
      length, and the job id, in the arguments and in the payload, or the copies. */
  predicate Announces(cfg: Config, g: Frame) {
    && g.arg3 == 0
    && if cfg.protocolLevel > 100 then
         && g.opcode == 0x10 && |g.payload| == 8
         && FromBe32(g.payload, 0) == |cfg.image|
         && FromBe32(g.payload, 4) == ToUint32(cfg.jobId)
         && (g.arg1 as int) * 256 + g.arg2 == cfg.jobId % 0x1_0000
       else
         && g.opcode == 0x05 && |g.payload| == 12 && g.arg2 == 0
         && FromBe32(g.payload, 0) == |cfg.image| && g.payload[4..] == [0, 0, 0, 0, 0, 0, 0, 0]
         && g.arg1 == cfg.copies % 256
  }

  lemma StartAnnounces(cfg: Config)
    requires |cfg.image| < TWO32
    ensures Announces(cfg, JobStart(cfg))
  {
    hide Be32, FromBe32;
    var g := JobStart(cfg);
    assert g.payload[0..4] == Be32(|cfg.image|);
    WordIn(g.payload, 0, |cfg.image|);
    if Modern(cfg) {
      assert g.payload[4..8] == Be32(cfg.jobId);
      WordIn(g.payload, 4, cfg.jobId);
      IdSplits(cfg.jobId);
    }
  }

  lemma IdSplits(id: int)
    ensures (LowByte(ToUint32(id) / 256) as int) * 256 + LowByte(id) == id % 0x1_0000
  {
    var q, u := id / TWO32, ToUint32(id);
    var v, w := u / 0x1_0000, u % 0x1_0000;
    var h, l := w / 256, w % 256;
    Digit(id, 0x1_0000, q * 0x1_0000 + v, w);
    Digit(id, 256, q * 0x100_0000 + v * 256 + h, l);
    Digit(u, 256, 256 * v + h, l);
    Digit(u / 256, 256, v, h);
    hide ToUint32, LowByte;
    assert LowByte(u / 256) == h && LowByte(id) == l by { LowByteIs(u / 256); LowByteIs(id); }
  }

  lemma LowByteIs(x: int)
    ensures LowByte(x) == x % 256
  {
  }

  lemma Digit(x: int, d: int, q: int, r: int)
    requires 0 < d && x == d * q + r && 0 <= r < d
    ensures x / d == q && x % d == r
  {
    var k := x / d - q;
    assert x == d * (x / d) + x % d;
    assert d * k == d * (x / d) - d * q;
    if k >= 1 { Scale(1, k, d); }
    if k <= -1 { Scale(k, -1, d); }
    assert k * d == d * k;
  }

  lemma WordIn(s: bytes, at: nat, x: int)
    requires at + 4 <= |s| && s[at..at + 4] == Be32(x)
    ensures FromBe32(s, at) == ToUint32(x)
  {
    var w := s[at..at + 4];
    assert s[at] == w[0] && s[at + 1] == w[1] && s[at + 2] == w[2] && s[at + 3] == w[3];
    Be32RoundTrip(x);
  }

  /** The image bytes in an answer, if it is a data frame. */
  function DataPayload(a: Action): bytes {
    if a.Send? && DecodeFrame(a.data).Complete? && DecodeFrame(a.data).item.opcode in {DATA, DATA_LEGACY}
    then DecodeFrame(a.data).item.payload
    else []
  }

  function DataSent(effects: seq<Effect>): bytes {
    if effects == [] then [] else DataPayload(effects[0].action) + DataSent(effects[1..])
  }

  function RequestCount(frames: seq<Frame>): nat {
    if frames == [] then 0 else (if IsRequest(frames[0]) then 1 else 0) + RequestCount(frames[1..])
  }

  lemma StepServes(cfg: Config, st: State, f: Frame)
    requires 0 < |cfg.image| < TWO31 && st.bytesSent <= |cfg.image|
    requires IsRequest(f) ==> |f.payload| < 4
    ensures var e := Handle(cfg, st, f);
            && e.state.bytesSent == (if IsRequest(f) then Min(st.bytesSent + CapOf(cfg), |cfg.image|) else st.bytesSent)
            && DataPayload(e.action) == cfg.image[st.bytesSent..e.state.bytesSent]
  {
    var e := Handle(cfg, st, f);
    if e.action.Send? {
      SendIsOneFrame(cfg, st, f);
    }
  }

  predicate NoOffsetsNamed(frames: seq<Frame>) {
    forall f :: f in frames && IsRequest(f) ==> |f.payload| < 4
  }

  lemma NoOffsetsTail(frames: seq<Frame>)
    requires NoOffsetsNamed(frames) && frames != []
    ensures NoOffsetsNamed(frames[1..]) && (IsRequest(frames[0]) ==> |frames[0].payload| < 4)
  {
    hide IsRequest;
  }

  lemma {:induction false} CursorAfter(cfg: Config, st: State, frames: seq<Frame>)
    requires 0 < |cfg.image| < TWO31 && st.bytesSent <= |cfg.image| && NoOffsetsNamed(frames)
    ensures st.bytesSent <= Final(cfg, st, frames).bytesSent
            == Min(st.bytesSent + RequestCount(frames) * CapOf(cfg), |cfg.image|)
    decreases |frames|
  {
    hide Handle, IsRequest, CapOf, NoOffsetsNamed;
    if frames != [] {
      var f := frames[0];
      var next := Handle(cfg, st, f).state;
      NoOffsetsTail(frames);
      StepServes(cfg, st, f);
      CursorAfter(cfg, next, frames[1..]);
      if IsRequest(f) {
        Advance(st.bytesSent, |cfg.image|, CapOf(cfg), RequestCount(frames[1..]));
      }
    } else {
      assert 0 * CapOf(cfg) == 0;
    }
  }

  lemma {:induction false} DataSentIsSlice(cfg: Config, st: State, frames: seq<Frame>)
    requires 0 < |cfg.image| < TWO31 && st.bytesSent <= |cfg.image| && NoOffsetsNamed(frames)
    requires st.bytesSent <= Final(cfg, st, frames).bytesSent <= |cfg.image|
    ensures DataSent(Effects(cfg, st, frames)) == cfg.image[st.bytesSent..Final(cfg, st, frames).bytesSent]
    decreases |frames|
  {
    hide Handle, DataPayload;
    if frames != [] {
      var f, later := frames[0], frames[1..];
      var e := Handle(cfg, st, f);
      StepServes(cfg, st, f);
      CursorAfter(cfg, e.state, later);
      DataSentIsSlice(cfg, e.state, later);
      assert Effects(cfg, st, frames)[0] == e && Effects(cfg, st, frames)[1..] == Effects(cfg, e.state, later);
    }
  }

  /** Requests that name no offset, however other traffic is interleaved, are
      served consecutive slices that concatenate to the image, until it is used up. */
  lemma OffsetlessRequestsStreamTheImage(cfg: Config, st: State, frames: seq<Frame>)
    requires 0 < |cfg.image| < TWO31 && st.bytesSent <= |cfg.image| && NoOffsetsNamed(frames)
    ensures var sent := Min(st.bytesSent + RequestCount(frames) * CapOf(cfg), |cfg.image|);
            && st.bytesSent <= sent == Final(cfg, st, frames).bytesSent
            && DataSent(Effects(cfg, st, frames)) == cfg.image[st.bytesSent..sent]
  {
    CursorAfter(cfg, st, frames);
    DataSentIsSlice(cfg, st, frames);
  }

  /** One slice of at most `cap`, then `k` more, is `k + 1` slices. */
  lemma Advance(from: nat, n: nat, cap: nat, k: nat)
    requires from <= n
    ensures var next := Min(from + cap, n);
            && from <= next <= n
            && next <= Min(next + k * cap, n)
            && Min(next + k * cap, n) == Min(from + (k + 1) * cap, n)
  {
    Distribute(k, cap);
    Scale(0, k, cap);
  }

  /** Once the image is used up, and only then, an offset-less request is left waiting. */
  lemma OffsetlessRequestWaitsAtTheEnd(cfg: Config, st: State, f: Frame)
    requires 0 < |cfg.image| < TWO31 && st.bytesSent <= |cfg.image|
    requires IsRequest(f) && |f.payload| < 4
    ensures Handle(cfg, st, f).action.Wait? <==> st.bytesSent == |cfg.image|
  {
  }

  /** From a fresh session, `CeilDiv(n, cap)` offset-less requests are the fewest that fetch the whole image. */
  lemma OffsetlessRequestsNeeded(cfg: Config, frames: seq<Frame>)
    requires 0 < |cfg.image| < TWO31 && CapOf(cfg) > 0
    requires NoOffsetsNamed(frames)
    ensures DataSent(Effects(cfg, INITIAL, frames)) == cfg.image
            <==> RequestCount(frames) >= CeilDiv(|cfg.image|, CapOf(cfg))
  {
    hide Handle, Effects, Final, DataSent, RequestCount, CeilDiv, NoOffsetsNamed, CapOf, Min;
    OffsetlessRequestsStreamTheImage(cfg, INITIAL, frames);
    PrefixIsWhole(DataSent(Effects(cfg, INITIAL, frames)), cfg.image, RequestCount(frames), CapOf(cfg));
  }

  lemma PrefixIsWhole(data: bytes, image: bytes, k: nat, cap: nat)
    requires cap > 0 && 0 <= Min(k * cap, |image|) && data == image[..Min(k * cap, |image|)]
    ensures data == image <==> k >= CeilDiv(|image|, cap)
  {
    CeilDivIsLeast(|image|, cap, k);
  }
}
