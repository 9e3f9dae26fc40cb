/** How to call `write` so that a stream carries its writes in order: what the
    caller can look at before each call, and what follows for the run. */
module AdbDiscipline {
  import opened Bytes
  import opened AdbMessages
  import opened AdbHosts
  import opened AdbWrites
  import opened AdbOrder
  import opened AdbPlaces
  import AdbLinks

  // ----- Runs only add ---------------------------------------------------------------------

  /** `k` has all the writes and slices of `h`, each write further on or as it was. */
  predicate Grows(h: Host, k: Host) {
    && h.slices <= k.slices && |h.writes| <= |k.writes|
    && forall w :: 0 <= w < |h.writes| ==> Further(h.writes[w], k.writes[w])
  }

  predicate Further(a: Writing, b: Writing) {
    a.stream == b.stream && a.payload == b.payload && a.limits <= b.limits
  }

  lemma LoopHeadGrows(h: Host, j: Host, w: nat)
    requires Grows(h, j) && w < |j.writes|
    ensures Grows(h, LoopHead(j, w))
  {
    hide Further;
  }

  lemma StepGrows(h: Host, i: Input)
    ensures Grows(h, Step(h, i))
  {
    hide Step, LoopHead;
    if Begins(h, i) || Advances(h, i) {
      StepIsHead(h, i);
      LoopHeadGrows(h, HeadState(h, i), HeadWrite(h, i));
    } else {
      OtherStepsArePlain(h, i);
    }
  }

  lemma GrowsTransitive(h: Host, j: Host, k: Host)
    requires Grows(h, j) && Grows(j, k)
    ensures Grows(h, k)
  {
    forall w | 0 <= w < |h.writes|
      ensures Further(h.writes[w], k.writes[w])
    {
      assert Further(h.writes[w], j.writes[w]) && Further(j.writes[w], k.writes[w]);
    }
  }

  lemma {:induction false} RunGrows(h: Host, inputs: seq<Input>)
    ensures Grows(h, After(h, inputs))
    decreases |inputs|
  {
    hide Step;
    if inputs != [] {
      var j := Step(h, inputs[0]);
      StepGrows(h, inputs[0]);
      RunGrows(j, inputs[1..]);
      GrowsTransitive(h, j, After(h, inputs));
    }
  }

  // ----- When no slice of a write is still to come ------------------------------------------

  /** In `k`, write `v` has sent no slice since `h`. */
  predicate SentAll(h: Host, k: Host, v: nat) {
    forall i :: |h.slices| <= i < |k.slices| ==> k.slices[i].write != v
  }

  lemma {:induction false} SlicesOfAppend(a: seq<Slice>, b: seq<Slice>, w: nat)
    ensures SlicesOf(a + b, w) == SlicesOf(a, w) + SlicesOf(b, w)
    decreases |b|
  {
    if b == [] {
      assert a + b == a;
    } else {
      SlicesOfAppend(a, b[..|b| - 1], w);
      assert (a + b)[..|a + b| - 1] == a + b[..|b| - 1];
    }
  }

  lemma NoneIffNoSlices(slices: seq<Slice>, v: nat)
    ensures SlicesOf(slices, v) == [] <==> forall i :: 0 <= i < |slices| ==> slices[i].write != v
  {
    if forall i :: 0 <= i < |slices| ==> slices[i].write != v {
      NoSlicesOf(slices, v);
    } else {
      var i :| 0 <= i < |slices| && slices[i].write == v;
      SliceIsCut(slices, i);
    }
  }

  lemma SentAllIffSameCount(h: Host, k: Host, v: nat)
    requires h.slices <= k.slices
    ensures SentAll(h, k, v) <==> |SlicesOf(h.slices, v)| == |SlicesOf(k.slices, v)|
  {
    hide SlicesOf;
    var later := k.slices[|h.slices|..];
    assert k.slices == h.slices + later;
    SlicesOfAppend(h.slices, later, v);
    NoneIffNoSlices(later, v);
    forall i | |h.slices| <= i < |k.slices|
      ensures k.slices[i] == later[i - |h.slices|]
    {
    }
    assert forall i :: 0 <= i < |later| ==> later[i] == k.slices[|h.slices| + i];
  }

  lemma {:induction false} ReachInPrefix(a: seq<nat>, b: seq<nat>, i: nat)
    requires a <= b && i < |a|
    ensures Reach(a, i) == Reach(b, i)
  {
    if i > 0 {
      ReachInPrefix(a, b, i - 1);
    }
  }

  /** A write whose loop has ended sends no more. */
  lemma OverHasSentAll(h: Host, k: Host, v: nat)
    requires WritesInv(h) && WritesInv(k) && Grows(h, k) && v < |h.writes| && h.writes[v].offset >= |h.writes[v].payload|
    ensures SentAll(h, k, v)
  {
    hide SlicesOf, Cuts, Reach, WaitInv;
    var a, b := h.writes[v], k.writes[v];
    assert Further(a, b);
    assert Recorded(a, SlicesOf(h.slices, v)) && Recorded(b, SlicesOf(k.slices, v));
    ReachInPrefix(a.limits, b.limits, |a.limits| - 1);
    assert a.limits == b.limits;
    SentAllIffSameCount(h, k, v);
  }

  /** At the limit it last read, write `v` needs no further slice. */
  predicate LastSliceOut(wr: Writing) {
    wr.limits != [] && wr.offset + wr.limits[|wr.limits| - 1] >= |wr.payload|
  }

  /** How many slices a finished write at a limit that held had sent when it had
      read some of its limits, and whether it had then sent the last. */
  lemma HeldProgress(a: seq<nat>, b: seq<nat>, n: nat)
    requires a != [] && a <= b && Finished(b, n) && n > 0 && LimitHeld(b, n)
    ensures Cutting(a, n)
    ensures Reach(a, |a| - 1) + a[|a| - 1] >= n <==> CutCount(a, n) == CutCount(b, n)
  {
    var d, q, l := b[0], |b| - 1, |a|;
    HeldCuts(b, n);
    CeilDivIsLeast(n, d, q);
    hide CeilDiv, Finished, LimitHeld;
    ReachInPrefixes(a, b);
    PrefixCuts(a, b, n);
    if l <= q {
      assert Cuts(b, n)[l - 1] == Range((l - 1) * d, Min((l - 1) * d + d, n));
      assert Cuts(b, n)[l - 1] == Cut(b, n, l - 1);
      LimitOfSlice(b, n, l - 1);
      Distribute(l - 1, d);
      CeilDivIsLeast(n, d, l);
    }
  }

  lemma ReachInPrefixes(a: seq<nat>, b: seq<nat>)
    requires a <= b
    ensures forall i :: 0 <= i < |a| ==> Reach(a, i) == Reach(b, i)
  {
    forall i | 0 <= i < |a|
      ensures Reach(a, i) == Reach(b, i)
    {
      ReachInPrefix(a, b, i);
    }
  }

  lemma PrefixCuts(a: seq<nat>, b: seq<nat>, n: nat)
    requires a != [] && a <= b && Finished(b, n)
    ensures Cutting(a, n) && CutCount(b, n) == |b| - 1
    ensures CutCount(a, n) == if |a| == |b| then |b| - 1 else |a|
  {
    ReachInPrefixes(a, b);
    hide Reach;
    if |a| < |b| { assert Reach(b, |a| - 1) < n; }
  }

  /** At a limit that held, every slice was cut with the first limit. */
  lemma LimitOfSlice(b: seq<nat>, n: nat, i: nat)
    requires Finished(b, n) && n > 0 && LimitHeld(b, n) && i < |b| - 1
    ensures b[i] == b[0]
  {
    hide CeilDiv, Finished;
    HeldCuts(b, n);
    assert CutCount(b, n) == |b| - 1 by { PrefixCuts(b, b, n); }
  }

  /** Of a write that in the end is over, its limit held, all slices are out
      exactly when at the limit it last read it needs no further one. */
  lemma SentAllIffLastSliceOut(h: Host, k: Host, v: nat)
    requires WritesInv(h) && WritesInv(k) && Grows(h, k) && v < |h.writes|
    requires k.writes[v].offset >= |k.writes[v].payload|
    requires k.writes[v].limits != [] && LimitHeld(k.writes[v].limits, |k.writes[v].payload|)
    ensures SentAll(h, k, v) <==> LastSliceOut(h.writes[v])
  {
    hide SlicesOf, WaitInv, LimitHeld;
    var a, b := h.writes[v], k.writes[v];
    assert Further(a, b);
    assert Recorded(a, SlicesOf(h.slices, v)) && Recorded(b, SlicesOf(k.slices, v));
    SentAllIffSameCount(h, k, v);
    if a.payload == [] {
      OneLimit(a.limits);
      OneLimit(b.limits);
    } else {
      HeldProgress(a.limits, b.limits, |a.payload|);
    }
  }

  // ----- Sorted is kept by, and only by, parted writes -----------------------------------

  /** Two writes to the stream, in the order they began, the later not empty. */
  predicate Pair(h: Host, v: int, w: int, id: int) {
    && 0 <= v < w < |h.writes| && h.writes[w].payload != []
    && h.writes[v].stream.localId == id && h.writes[w].stream.localId == id
  }

  /** Of two writes to the stream begun by `h`, the later not empty, the earlier has sent all. */
  ghost predicate Settled(h: Host, k: Host, id: int) {
    forall v, w :: Pair(h, v, w, id) ==> SentAll(h, k, v)
  }

  predicate BeginsOn(h: Host, i: Input, id: int) {
    Begins(h, i) && h.streams[i.id].localId == id && i.payload != []
  }

  /** Whenever a write to the stream begins, not empty, those before it have sent all
      the slices they will have sent by `k`. */
  ghost predicate Parted(h: Host, inputs: seq<Input>, k: Host, id: int)
    decreases |inputs|
  {
    inputs == [] || (
      && (BeginsOn(h, inputs[0], id) ==>
            forall v :: 0 <= v < |h.writes| && h.writes[v].stream.localId == id ==> SentAll(h, k, v))
      && Parted(Step(h, inputs[0]), inputs[1..], k, id))
  }

  ghost predicate PartsHere(h: Host, i: Input, k: Host, id: int) {
    BeginsOn(h, i, id) ==>
      forall v :: 0 <= v < |h.writes| && h.writes[v].stream.localId == id ==> SentAll(h, k, v)
  }

  /** Whether a slice is on the stream does not depend on how far its write has got. */
  lemma OnStays(h: Host, j: Host, s: Slice, id: int)
    requires GoOn(h.writes, j.writes) && s.write < |h.writes|
    ensures On(h.writes, s, id) <==> On(j.writes, s, id)
  {
  }

  lemma SortedStays(h: Host, j: Host, id: int)
    requires GoOn(h.writes, j.writes) && AllFit(h.writes, h.slices)
    ensures Sorted(h.writes, h.slices, id) <==> Sorted(j.writes, h.slices, id)
  {
    hide On, GoOn;
    forall i | 0 <= i < |h.slices|
      ensures On(h.writes, h.slices[i], id) <==> On(j.writes, h.slices[i], id)
    {
      OnStays(h, j, h.slices[i], id);
    }
  }

  predicate NoneAbove(writes: seq<Writing>, slices: seq<Slice>, w: nat, id: int) {
    forall i :: 0 <= i < |slices| && On(writes, slices[i], id) ==> slices[i].write <= w
  }

  lemma SortedSnoc(writes: seq<Writing>, slices: seq<Slice>, s: Slice, id: int)
    ensures Sorted(writes, slices + [s], id)
            <==> Sorted(writes, slices, id) && (On(writes, s, id) ==> NoneAbove(writes, slices, s.write, id))
  {
    hide On;
    var all := slices + [s];
    if Sorted(writes, all, id) {
      forall i, j | 0 <= i < j < |slices| && On(writes, slices[i], id) && On(writes, slices[j], id)
        ensures slices[i].write <= slices[j].write
      {
        assert all[i] == slices[i] && all[j] == slices[j];
      }
      if On(writes, s, id) {
        forall i | 0 <= i < |slices| && On(writes, slices[i], id)
          ensures slices[i].write <= s.write
        {
          assert all[i] == slices[i] && all[|slices|] == s;
        }
      }
    }
  }

  lemma SettledLater(h: Host, j: Host, k: Host, id: int)
    requires Settled(h, k, id) && |j.writes| == |h.writes| && GoOn(h.writes, j.writes) && |h.slices| <= |j.slices|
    ensures Settled(j, k, id)
  {
    hide SentAll;
    forall v, w | Pair(j, v, w, id)
      ensures SentAll(j, k, v)
    {
      assert Pair(h, v, w, id);
      FewerLater(h, j, k, v);
    }
  }

  lemma FewerLater(h: Host, j: Host, k: Host, v: nat)
    requires SentAll(h, k, v) && |h.slices| <= |j.slices|
    ensures SentAll(j, k, v)
  {
  }

  lemma OneMore(h: Host, j: Host, k: Host, s: Slice, v: nat)
    requires j.slices == h.slices + [s] && j.slices <= k.slices
    ensures SentAll(h, k, v) <==> SentAll(j, k, v) && s.write != v
  {
    assert k.slices[|h.slices|] == j.slices[|h.slices|] == s;
  }

  /** A slice of write `w` goes out while later writes are settled: none of those has a slice yet. */
  lemma SettledSorts(h: Host, j: Host, k: Host, s: Slice, id: int)
    requires WritesInv(h) && Settled(h, k, id) && s.write < |h.writes| && On(h.writes, s, id)
    requires j.slices == h.slices + [s] && j.slices <= k.slices
    ensures NoneAbove(h.writes, h.slices, s.write, id)
  {
    hide Recorded, WaitInv;
    OneMore(h, j, k, s, s.write);
    forall i | 0 <= i < |h.slices| && On(h.writes, h.slices[i], id)
      ensures h.slices[i].write <= s.write
    {
      assert SliceFits(h, h.slices[i]);
      assert !Pair(h, s.write, h.slices[i].write, id);
    }
  }

  /** And the other way: if it goes out in order, every earlier pair was settled before. */
  lemma SortedSettles(h: Host, j: Host, k: Host, s: Slice, id: int)
    requires WritesInv(h) && s.write < |h.writes| && On(h.writes, s, h.writes[s.write].stream.localId)
    requires j.slices == h.slices + [s] && j.slices <= k.slices && |j.writes| == |h.writes| && GoOn(h.writes, j.writes)
    requires Settled(j, k, id) && (On(h.writes, s, id) ==> NoneAbove(h.writes, h.slices, s.write, id))
    ensures Settled(h, k, id)
  {
    hide SentAll, WaitInv, Recorded, NoneAbove;
    forall v, w | Pair(h, v, w, id)
      ensures SentAll(h, k, v)
    {
      assert Pair(j, v, w, id);
      OneMore(h, j, k, s, v);
      PairIsNotAbove(h, s, v, w, id);
    }
  }

  lemma PairIsNotAbove(h: Host, s: Slice, v: nat, w: nat, id: int)
    requires WritesInv(h) && Pair(h, v, w, id) && s.write < |h.writes|
    requires On(h.writes, s, h.writes[s.write].stream.localId)
    requires On(h.writes, s, id) ==> NoneAbove(h.writes, h.slices, s.write, id)
    ensures s.write != v
  {
    hide WaitInv, SlicesOf;
    assert Recorded(h.writes[w], SlicesOf(h.slices, w));
    RecordedHasSlice(h, w);
    hide Recorded;
    var a :| 0 <= a < |h.slices| && h.slices[a].write == w;
    assert SliceFits(h, h.slices[a]);
    assert On(h.writes, h.slices[a], id);
  }

  /** What a step of a write sends. */
  lemma HeadSlice(h: Host, i: Input)
    requires LinkKnown(h) && WritesInv(h) && (Begins(h, i) || Advances(h, i))
    ensures var w, j := HeadWrite(h, i), Step(h, i);
            && GoOn(h.writes, j.writes) && w < |j.writes|
            && (Advances(h, i) ==> |j.writes| == |h.writes|)
            && (Begins(h, i) ==> |j.writes| == |h.writes| + 1 && w == |h.writes|)
            && (Begins(h, i) ==> j.writes[w].stream == h.streams[i.id] && j.writes[w].payload == i.payload)
            && (j.slices == h.slices ||
                  (|j.slices| == |h.slices| + 1 && j.slices == h.slices + [j.slices[|h.slices|]] && j.slices[|h.slices|].write == w))
            && (Begins(h, i) && i.payload != [] ==> |j.slices| > |h.slices|)
            && (|j.slices| > |h.slices| ==> j.writes[w].payload != [])
  {
    hide LinkKnown, WritesInv;
    StepIsHead(h, i);
  }

  lemma AdvanceParts(h: Host, i: Input, k: Host, id: int)
    requires LinkKnown(h) && WritesInv(h) && Advances(h, i) && WritesInv(Step(h, i)) && Grows(Step(h, i), k)
    ensures Sorted(Step(h, i).writes, Step(h, i).slices, id) && Settled(Step(h, i), k, id)
            <==> Sorted(h.writes, h.slices, id) && Settled(h, k, id)
  {
    var j := Step(h, i);
    HeadSlice(h, i);
    SlicesFit(h);
    SlicesFit(j);
    hide Step, WritesInv, LinkKnown, On, Sorted, Settled, NoneAbove;
    SortedStays(h, j, id);
    if |j.slices| > |h.slices| {
      var s := j.slices[|h.slices|];
      OnStays(h, j, s, id);
      OnStays(h, j, s, h.writes[s.write].stream.localId);
      SortedSnoc(h.writes, h.slices, s, id);
      SortedStaysMore(h, j, s, id);
      if Sorted(h.writes, h.slices, id) && Settled(h, k, id) {
        SettledLater(h, j, k, id);
        if On(h.writes, s, id) { SettledSorts(h, j, k, s, id); }
      }
      if Sorted(j.writes, j.slices, id) && Settled(j, k, id) {
        SortedSettles(h, j, k, s, id);
      }
    } else {
      SameSettled(h, j, k, id);
    }
  }

  lemma SortedStaysMore(h: Host, j: Host, s: Slice, id: int)
    requires GoOn(h.writes, j.writes) && AllFit(h.writes, h.slices) && s.write < |h.writes| && j.slices == h.slices + [s]
    ensures Sorted(h.writes, h.slices + [s], id) <==> Sorted(j.writes, j.slices, id)
  {
    var h1 := h.(slices := h.slices + [s]);
    assert AllFit(h1.writes, h1.slices);
    hide Sorted;
    SortedStays(h1, j, id);
  }

  lemma SameSettled(h: Host, j: Host, k: Host, id: int)
    requires j.slices == h.slices && |j.writes| == |h.writes| && GoOn(h.writes, j.writes)
    ensures Settled(j, k, id) <==> Settled(h, k, id)
  {
    hide SentAll;
    assert forall v: nat :: SentAll(j, k, v) <==> SentAll(h, k, v) by { SameSentAll(h, j, k); }
    assert forall v, w :: Pair(j, v, w, id) <==> Pair(h, v, w, id);
  }

  lemma SameSentAll(h: Host, j: Host, k: Host)
    requires j.slices == h.slices
    ensures forall v: nat :: SentAll(j, k, v) <==> SentAll(h, k, v)
  {
  }

  /** An empty write, or one to another stream, makes no new pair. */
  lemma BeginSame(h: Host, i: Input, k: Host, id: int)
    requires LinkKnown(h) && WritesInv(h) && Begins(h, i) && !BeginsOn(h, i, id) && Grows(Step(h, i), k)
    ensures Settled(Step(h, i), k, id) <==> Settled(h, k, id)
  {
    var j := Step(h, i);
    HeadSlice(h, i);
    assert j.slices <= k.slices;
    hide Step, WritesInv, LinkKnown, SentAll, Grows;
    assert forall v, w :: Pair(j, v, w, id) <==> Pair(h, v, w, id);
    forall v, w | Pair(h, v, w, id)
      ensures SentAll(h, k, v) <==> SentAll(j, k, v)
    {
      if |j.slices| > |h.slices| {
        OneMore(h, j, k, j.slices[|h.slices|], v);
      } else {
        SameSentAll(h, j, k);
      }
    }
  }

  /** A write that begins on the stream pairs with all before it. */
  lemma BeginPairs(h: Host, i: Input, k: Host, id: int)
    requires LinkKnown(h) && WritesInv(h) && BeginsOn(h, i, id) && Grows(Step(h, i), k)
    ensures Settled(Step(h, i), k, id) <==> Settled(h, k, id) && PartsHere(h, i, k, id)
  {
    var j := Step(h, i);
    HeadSlice(h, i);
    var s := j.slices[|h.slices|];
    assert j.slices <= k.slices;
    hide Step, WritesInv, LinkKnown, SentAll, Grows;
    forall v: nat | v < |h.writes|
      ensures SentAll(h, k, v) <==> SentAll(j, k, v)
    {
      OneMore(h, j, k, s, v);
    }
    assert forall v, w :: Pair(h, v, w, id) ==> Pair(j, v, w, id);
    assert forall v, w :: Pair(j, v, w, id) && w < |h.writes| ==> Pair(h, v, w, id);
    if Settled(j, k, id) {
      forall v | 0 <= v < |h.writes| && h.writes[v].stream.localId == id
        ensures SentAll(h, k, v)
      {
        assert Pair(j, v, |h.writes|, id);
      }
    }
  }

  lemma BeginSorts(h: Host, i: Input, id: int)
    requires LinkKnown(h) && WritesInv(h) && Begins(h, i) && WritesInv(Step(h, i))
    ensures Sorted(Step(h, i).writes, Step(h, i).slices, id) <==> Sorted(h.writes, h.slices, id)
  {
    var j := Step(h, i);
    HeadSlice(h, i);
    SlicesFit(h);
    hide Step, WritesInv, LinkKnown, Sorted, On;
    SortedStays(h, j, id);
    if |j.slices| > |h.slices| {
      SortedSnoc(j.writes, h.slices, j.slices[|h.slices|], id);
    }
  }

  lemma StepParts(h: Host, i: Input, k: Host, id: int)
    requires LinkKnown(h) && WritesInv(h) && WritesInv(Step(h, i)) && Grows(Step(h, i), k)
    ensures Sorted(Step(h, i).writes, Step(h, i).slices, id) && Settled(Step(h, i), k, id)
            <==> Sorted(h.writes, h.slices, id) && Settled(h, k, id) && PartsHere(h, i, k, id)
  {
    hide Step, WritesInv, LinkKnown, Sorted, Settled, Grows;
    if Advances(h, i) {
      AdvanceParts(h, i, k, id);
    } else if BeginsOn(h, i, id) {
      BeginPairs(h, i, k, id);
      BeginSorts(h, i, id);
    } else if Begins(h, i) {
      BeginSame(h, i, k, id);
      BeginSorts(h, i, id);
    } else {
      OtherStepsArePlain(h, i);
      SameSettledPlain(h, Step(h, i), k, id);
    }
  }

  lemma SameSettledPlain(h: Host, j: Host, k: Host, id: int)
    requires Plain(h, j)
    ensures j.writes == h.writes && j.slices == h.slices
    ensures Settled(j, k, id) <==> Settled(h, k, id)
  {
    SameSettled(h, j, k, id);
  }

  lemma {:induction false} RunParts(h: Host, inputs: seq<Input>, id: int)
    requires OrderInv(h, id)
    ensures var k := After(h, inputs);
            Sorted(k.writes, k.slices, id)
            <==> Sorted(h.writes, h.slices, id) && Settled(h, k, id) && Parted(h, inputs, k, id)
    decreases |inputs|
  {
    hide OrderInv, Step, Sorted, Settled, LinkKnown, WritesInv;
    var k := After(h, inputs);
    if inputs == [] {
      assert Settled(h, h, id) by { SettledNow(h, id); }
    } else {
      var j := Step(h, inputs[0]);
      StepKeepsOrder(h, inputs[0], id);
      OrderKnows(h, id);
      OrderKnows(j, id);
      RunGrows(j, inputs[1..]);
      RunParts(j, inputs[1..], id);
      StepParts(h, inputs[0], k, id);
    }
  }

  lemma SettledNow(h: Host, id: int)
    ensures Settled(h, h, id)
  {
  }

  lemma OrderKnows(h: Host, id: int)
    requires OrderInv(h, id)
    ensures LinkKnown(h) && WritesInv(h) && FirstsInv(h)
  {
    hide WritesInv, FirstsInv, BodiesInv;
    LinkInvKnows(h);
  }

  // ----- Disciplines --------------------------------------------------------------------------

  /** Whenever a write to the stream begins, not empty, every write to it before has
      the last slice it needs out, at the limit it last read. */
  predicate TakesTurns(h: Host, inputs: seq<Input>, id: int)
    decreases |inputs|
  {
    inputs == [] || (
      && (BeginsOn(h, inputs[0], id) ==>
            forall v :: 0 <= v < |h.writes| && h.writes[v].stream.localId == id ==> LastSliceOut(h.writes[v]))
      && TakesTurns(Step(h, inputs[0]), inputs[1..], id))
  }

  /** Whenever a write to the stream begins, not empty, every write to it before is over: its caller has awaited it. */
  predicate Awaits(h: Host, inputs: seq<Input>, id: int)
    decreases |inputs|
  {
    inputs == [] || (
      && (BeginsOn(h, inputs[0], id) ==>
            forall v :: 0 <= v < |h.writes| && h.writes[v].stream.localId == id ==> h.writes[v].offset >= |h.writes[v].payload|)
      && Awaits(Step(h, inputs[0]), inputs[1..], id))
  }

  lemma {:induction false} AwaitsParts(h: Host, inputs: seq<Input>, id: int)
    requires OrderInv(h, id) && Awaits(h, inputs, id)
    ensures Parted(h, inputs, After(h, inputs), id)
    decreases |inputs|
  {
    hide OrderInv, Step, LinkKnown, WritesInv, SentAll, Grows;
    if inputs != [] {
      var j, k := Step(h, inputs[0]), After(h, inputs);
      StepKeepsOrder(h, inputs[0], id);
      RunKeepsOrder(h, inputs, id);
      OrderKnows(h, id);
      OrderKnows(k, id);
      RunGrows(h, inputs);
      AwaitsParts(j, inputs[1..], id);
      if BeginsOn(h, inputs[0], id) {
        forall v | 0 <= v < |h.writes| && h.writes[v].stream.localId == id
          ensures SentAll(h, k, v)
        {
          OverHasSentAll(h, k, v);
        }
      }
    }
  }

  lemma {:induction false} PartedIffTurns(h: Host, inputs: seq<Input>, id: int)
    requires OrderInv(h, id) && AllOver(After(h, inputs), id) && LimitsHeld(After(h, inputs), id)
    ensures Parted(h, inputs, After(h, inputs), id) <==> TakesTurns(h, inputs, id)
    decreases |inputs|
  {
    hide OrderInv, Step, LinkKnown, WritesInv, SentAll, LastSliceOut, LimitHeld;
    if inputs != [] {
      var j, k := Step(h, inputs[0]), After(h, inputs);
      StepKeepsOrder(h, inputs[0], id);
      RunKeepsOrder(h, inputs, id);
      OrderKnows(h, id);
      OrderKnows(k, id);
      RunGrows(h, inputs);
      PartedIffTurns(j, inputs[1..], id);
      forall v | 0 <= v < |h.writes| && h.writes[v].stream.localId == id
        ensures SentAll(h, k, v) <==> LastSliceOut(h.writes[v])
      {
        assert Further(h.writes[v], k.writes[v]);
        SentAllIffLastSliceOut(h, k, v);
      }
    }
  }

  lemma SerialIffParted(limit: nat, inputs: seq<Input>, id: int)
    ensures var k := After(NewHost(limit), inputs);
            Serial(k.writes, k.slices, id) <==> Parted(NewHost(limit), inputs, k, id)
  {
    hide After, OrderInv, Serial, Parted, LinkKnown, WritesInv, FirstsInv;
    var h, k := NewHost(limit), After(NewHost(limit), inputs);
    NewHostOrder(limit, id);
    RunKeepsOrder(h, inputs, id);
    OrderKnows(k, id);
    SerialIsSorted(k, id);
    hide Sorted, Settled;
    RunParts(h, inputs, id);
    NothingToSettle(limit, k, id);
  }

  lemma NothingToSettle(limit: nat, k: Host, id: int)
    ensures var h := NewHost(limit); Sorted(h.writes, h.slices, id) && Settled(h, k, id)
  {
  }

  /** A caller that awaits each write to a stream before the next keeps them apart,
      whatever arrives and whatever else is written meanwhile. */
  lemma AwaitingIsSerial(limit: nat, inputs: seq<Input>, id: int)
    requires Awaits(NewHost(limit), inputs, id)
    ensures var k := After(NewHost(limit), inputs); Serial(k.writes, k.slices, id)
  {
    hide After, OrderInv, Serial, Parted, Awaits;
    NewHostOrder(limit, id);
    AwaitsParts(NewHost(limit), inputs, id);
    SerialIffParted(limit, inputs, id);
  }

  /** Exactly: of a run after which the writes to the stream are over, their limits
      held, no slice of one fell between two slices of another if and only if no
      write to it began, not empty, while one before it still needed a slice. */
  lemma SerialIffTurns(limit: nat, inputs: seq<Input>, id: int)
    requires AllOver(After(NewHost(limit), inputs), id) && LimitsHeld(After(NewHost(limit), inputs), id)
    ensures var k := After(NewHost(limit), inputs);
            Serial(k.writes, k.slices, id) <==> TakesTurns(NewHost(limit), inputs, id)
  {
    hide After, OrderInv, Serial, Parted, TakesTurns, AllOver, LimitsHeld;
    NewHostOrder(limit, id);
    PartedIffTurns(NewHost(limit), inputs, id);
    SerialIffParted(limit, inputs, id);
  }

  /** So over every run after which the writes to a stream are over, it carries their
      payloads once each, in the order they began, if and only if each began when
      those before it needed no further slice and each had its limit held. */
  lemma InOrderIffTurns(limit: nat, inputs: seq<Input>, id: int)
    requires limit > 0 && AllOver(After(NewHost(limit), inputs), id)
    ensures var h := After(NewHost(limit), inputs);
            Carried(h.writes, h.slices, id) == AdbPlaces.Due(h.writes, id, |h.writes|)
            <==> TakesTurns(NewHost(limit), inputs, id) && LimitsHeld(h, id)
  {
    hide After, Carried, AdbPlaces.Due, Serial, TakesTurns, LimitsHeld, AllOver;
    InOrderIffSerial(limit, inputs, id);
    if LimitsHeld(After(NewHost(limit), inputs), id) {
      SerialIffTurns(limit, inputs, id);
    }
  }

  // ----- When limits hold ---------------------------------------------------------------------

  /** This message moves the payload limit. */
  predicate MovesLimit(h: Host, i: Input) {
    i.Inbound? && i.message.command == CNXN && i.message.arg1 > 0 && i.message.arg1 != h.maxPayload
  }

  /** No message moves the payload limit while a write to the stream is under way. */
  predicate LimitSteady(h: Host, inputs: seq<Input>, id: int)
    decreases |inputs|
  {
    inputs == [] || (
      && (MovesLimit(h, inputs[0]) ==>
            forall v :: 0 <= v < |h.writes| && h.writes[v].stream.localId == id ==> h.writes[v].offset >= |h.writes[v].payload|)
      && LimitSteady(Step(h, inputs[0]), inputs[1..], id))
  }

  predicate AllSame(limits: seq<nat>, d: nat) {
    limits != [] && forall i :: 0 <= i < |limits| ==> limits[i] == d
  }

  /** A write to the stream has read one limit only, the present one if it is not over. */
  predicate OneLimitRead(h: Host, wr: Writing) {
    && wr.limits != [] && AllSame(wr.limits, wr.limits[0])
    && (wr.offset < |wr.payload| ==> wr.limits[0] == h.maxPayload)
  }

  predicate SteadyInv(h: Host, id: int) {
    forall w :: 0 <= w < |h.writes| && h.writes[w].stream.localId == id ==> OneLimitRead(h, h.writes[w])
  }

  lemma {:induction false} CloseNextLimit(h: Host, c: nat, ids: seq<int>)
    requires c < |h.closes|
    ensures CloseNext(h, c, ids).maxPayload == h.maxPayload
    decreases |ids|
  {
    if ids != [] && ids[0] !in h.streams {
      CloseNextLimit(h, c, ids[1..]);
    }
  }

  lemma LimitStays(h: Host, i: Input)
    requires !MovesLimit(h, i)
    ensures Step(h, i).maxPayload == h.maxPayload
  {
    hide CloseNext;
    match i
    case Landed(k) =>
      if k in h.flights && h.flights[k].body == [] && h.flights[k].follow.NextClose? && h.flights[k].follow.close < |h.closes| {
        CloseNextLimit(h.(flights := h.flights - {k}), h.flights[k].follow.close, h.flights[k].follow.ids);
      }
    case Close => CloseNextLimit(h.(closes := h.closes + [false]), |h.closes|, Ids(h.streams, h.nextLocalId));
    case _ =>
  }

  lemma HeadKeepsSteady(h: Host, i: Input, id: int)
    requires WritesInv(h) && SteadyInv(h, id) && (Begins(h, i) || Advances(h, i))
    ensures SteadyInv(HeadState(h, i), id)
  {
    var j := HeadState(h, i);
    if i.Landed? {
      var w := HeadWrite(h, i);
      assert Waits(h, i.k, w);
      hide Recorded;
      forall v | 0 <= v < |j.writes| && j.writes[v].stream.localId == id
        ensures OneLimitRead(j, j.writes[v])
      {
        assert OneLimitRead(h, h.writes[v]);
      }
    } else {
      forall v | 0 <= v < |j.writes| && j.writes[v].stream.localId == id
        ensures OneLimitRead(j, j.writes[v])
      {
        if v < |h.writes| { assert OneLimitRead(h, h.writes[v]); }
      }
    }
  }

  lemma LoopHeadSame(h: Host, w: nat)
    requires w < |h.writes|
    ensures LoopHead(h, w).writes == h.writes && LoopHead(h, w).maxPayload == h.maxPayload
  {
  }

  lemma StepKeepsSteady(h: Host, i: Input, id: int)
    requires WritesInv(h) && SteadyInv(h, id)
    requires MovesLimit(h, i) ==>
      forall v :: 0 <= v < |h.writes| && h.writes[v].stream.localId == id ==> h.writes[v].offset >= |h.writes[v].payload|
    ensures SteadyInv(Step(h, i), id)
  {
    hide Step, WritesInv, LoopHead, HeadState, HeadWrite;
    if Begins(h, i) || Advances(h, i) {
      StepIsHead(h, i);
      HeadKeepsSteady(h, i, id);
      LoopHeadSame(HeadState(h, i), HeadWrite(h, i));
    } else {
      OtherStepsArePlain(h, i);
      var j := Step(h, i);
      if !MovesLimit(h, i) { LimitStays(h, i); }
      forall v | 0 <= v < |j.writes| && j.writes[v].stream.localId == id
        ensures OneLimitRead(j, j.writes[v])
      {
        assert OneLimitRead(h, h.writes[v]);
      }
    }
  }

  lemma {:induction false} RunKeepsSteady(h: Host, inputs: seq<Input>, id: int)
    requires OrderInv(h, id) && SteadyInv(h, id) && LimitSteady(h, inputs, id)
    ensures SteadyInv(After(h, inputs), id)
    decreases |inputs|
  {
    hide OrderInv, Step, WritesInv, LinkKnown, SteadyInv, MovesLimit;
    if inputs != [] {
      OrderKnows(h, id);
      StepKeepsOrder(h, inputs[0], id);
      StepKeepsSteady(h, inputs[0], id);
      RunKeepsSteady(Step(h, inputs[0]), inputs[1..], id);
    }
  }

  lemma OneLimitHeld(limits: seq<nat>, n: nat)
    requires Finished(limits, n) && AllPositive(limits) && AllSame(limits, limits[0])
    ensures LimitHeld(limits, n)
  {
    if n > 0 {
      var d, q := limits[0], |limits| - 1;
      assert Reach(limits, 0) == 0;
      ConstantReach(limits, q);
      ConstantReach(limits, q - 1);
      assert Reach(limits, q - 1) < n;
      CeilDivOf(n, d, q);
      hide Reach, CeilDiv;
      Distribute(q - 1, d);
    }
  }

  /** If none does, every write to the stream that is over had its limit held. */
  lemma SteadyLimitsHold(limit: nat, inputs: seq<Input>, id: int)
    requires limit > 0 && LimitSteady(NewHost(limit), inputs, id) && AllOver(After(NewHost(limit), inputs), id)
    ensures LimitsHeld(After(NewHost(limit), inputs), id)
  {
    hide After, LimitSteady, OrderInv, LimitHeld, WritesInv, BodiesInv, FirstsInv;
    var h := After(NewHost(limit), inputs);
    NewHostOrder(limit, id);
    RunKeepsSteady(NewHost(limit), inputs, id);
    WritesAreRecorded(limit, inputs, id);
    forall w | 0 <= w < |h.writes| && h.writes[w].stream.localId == id
      ensures h.writes[w].limits != [] && LimitHeld(h.writes[w].limits, |h.writes[w].payload|)
    {
      OverIsFinished(h, w);
      assert OneLimitRead(h, h.writes[w]) && AllPositive(h.writes[w].limits);
      OneLimitHeld(h.writes[w].limits, |h.writes[w].payload|);
    }
  }

  /** Awaiting each write, under a limit that stays put meanwhile, is enough: the
      stream carries the payloads, once each and in order. */
  lemma AwaitingCarriesInOrder(limit: nat, inputs: seq<Input>, id: int)
    requires limit > 0 && AllOver(After(NewHost(limit), inputs), id)
    requires Awaits(NewHost(limit), inputs, id) && LimitSteady(NewHost(limit), inputs, id)
    ensures var h := After(NewHost(limit), inputs);
            && TakesTurns(NewHost(limit), inputs, id) && LimitsHeld(h, id)
            && Carried(h.writes, h.slices, id) == AdbPlaces.Due(h.writes, id, |h.writes|)
  {
    hide After, Carried, AdbPlaces.Due, Serial, TakesTurns, LimitsHeld, AllOver, Awaits, LimitSteady;
    SteadyLimitsHold(limit, inputs, id);
    AwaitingIsSerial(limit, inputs, id);
    SerialIffTurns(limit, inputs, id);
    InOrderIffTurns(limit, inputs, id);
  }
}
