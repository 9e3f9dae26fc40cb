/** Splitting a write into slices, each cut by the payload limit of the moment. */
module AdbWrites {
  import opened Bytes
  import opened AdbMessages
  import opened AdbHosts

  datatype Range = Range(lo: nat, hi: nat)

  // ----- One write ------------------------------------------------------------------------

  /** The loop variable when limit number `i` is read: the sum of the limits read to advance it. */
  function Reach(limits: seq<nat>, i: nat): nat
    requires i < |limits|
  {
    if i == 0 then 0 else Reach(limits, i - 1) + limits[i]
  }

  /** The part of an `n`-byte payload cut with limit number `i`. */
  function Cut(limits: seq<nat>, n: nat, i: nat): Range
    requires i < |limits|
  {
    Range(Reach(limits, i), Min(Reach(limits, i) + limits[i], n))
  }

  /** The loop went on after each limit read, but perhaps the last. */
  predicate Cutting(limits: seq<nat>, n: nat) {
    limits != [] && forall i :: 0 <= i < |limits| - 1 ==> Reach(limits, i) < n
  }

  /** The loop ended at the last limit read. */
  predicate Finished(limits: seq<nat>, n: nat) {
    Cutting(limits, n) && Reach(limits, |limits| - 1) >= n
  }

  function CutCount(limits: seq<nat>, n: nat): nat
    requires limits != []
  {
    if Reach(limits, |limits| - 1) < n then |limits| else |limits| - 1
  }

  /** The parts a write has sent. */
  function Cuts(limits: seq<nat>, n: nat): (r: seq<Range>)
    requires limits != []
    ensures |r| == CutCount(limits, n)
    ensures forall i :: 0 <= i < |r| ==> r[i] == Cut(limits, n, i)
  {
    seq(CutCount(limits, n), i requires 0 <= i < CutCount(limits, n) => Cut(limits, n, i))
  }

  /** The ranges cover `0..n` in order, without gap or overlap. */
  predicate Tiles(ranges: seq<Range>, n: nat) {
    if ranges == [] then n == 0
    else
      && ranges[0].lo == 0 && ranges[|ranges| - 1].hi == n
      && (forall i :: 0 <= i < |ranges| ==> ranges[i].lo <= ranges[i].hi)
      && (forall i :: 0 <= i < |ranges| - 1 ==> ranges[i].hi == ranges[i + 1].lo)
  }

  /** With `m` slices needed at the limit the write began with: the limit was the
      same when each of the first `m - 1` of them was out, and when the last was
      out it reached at least as far as the payload. */
  predicate LimitHeld(limits: seq<nat>, n: nat)
    requires limits != []
  {
    n == 0 || (
      && limits[0] > 0
      && var m := CeilDiv(n, limits[0]);
      && m < |limits|
      && (forall i :: 1 <= i < m ==> limits[i] == limits[0])
      && limits[m] >= n - (m - 1) * limits[0])
  }

  lemma {:induction false} ConstantReach(limits: seq<nat>, i: nat)
    requires i < |limits| && forall j :: 1 <= j <= i ==> limits[j] == limits[0]
    ensures Reach(limits, i) == i * limits[0]
  {
    if i > 0 {
      ConstantReach(limits, i - 1);
      Distribute(i - 1, limits[0]);
    }
  }

  /** A finished write that tiles has read the same limit up to its last slice. */
  lemma {:induction false} TilesHoldLimit(limits: seq<nat>, n: nat, i: nat)
    requires Finished(limits, n) && Tiles(Cuts(limits, n), n) && i < |limits| - 1
    ensures forall j :: 0 <= j <= i ==> limits[j] == limits[0]
  {
    if i > 0 {
      TilesHoldLimit(limits, n, i - 1);
      var cuts := Cuts(limits, n);
      assert cuts[i - 1].hi == cuts[i - 1 + 1].lo;
      assert cuts[i - 1] == Cut(limits, n, i - 1) && cuts[i] == Cut(limits, n, i);
      assert Reach(limits, i) < n;
    }
  }

  lemma CeilDivOf(n: nat, d: nat, q: nat)
    requires d > 0 && q > 0 && (q - 1) * d < n <= q * d
    ensures CeilDiv(n, d) == q
  {
    CeilDivIsLeast(n, d, q);
    CeilDivIsLeast(n, d, q - 1);
  }

  lemma TilesMeanLimitHeld(limits: seq<nat>, n: nat)
    requires Finished(limits, n) && n > 0 && Tiles(Cuts(limits, n), n)
    ensures LimitHeld(limits, n)
  {
    hide Tiles, CeilDiv;
    var q, d := |limits| - 1, limits[0];
    assert q > 0;
    TilesHoldLimit(limits, n, q - 1);
    ConstantReach(limits, q - 1);
    assert Cut(limits, n, q - 1).hi == n by { LastCut(limits, n); }
    Distribute(q - 1, d);
    assert d == 0 ==> (q - 1) * d == 0;
    CeilDivOf(n, d, q);
    assert Reach(limits, q) == Reach(limits, q - 1) + limits[q];
  }

  lemma LastCut(limits: seq<nat>, n: nat)
    requires Finished(limits, n) && n > 0 && Tiles(Cuts(limits, n), n)
    ensures |limits| >= 2 && Cut(limits, n, |limits| - 2).hi == n
  {
  }

  /** At a limit that held, slice `i` is the `i`-th of even slices, and there are `CeilDiv(n, d)` of them. */
  lemma HeldCuts(limits: seq<nat>, n: nat)
    requires Finished(limits, n) && n > 0 && LimitHeld(limits, n)
    ensures var d := limits[0]; var cuts := Cuts(limits, n);
            && |cuts| == CeilDiv(n, d) > 0 && d > 0
            && forall i :: 0 <= i < |cuts| ==> 0 <= i * d < n && cuts[i] == Range(i * d, Min(i * d + d, n))
  {
    var d := limits[0];
    var m := CeilDiv(n, d);
    CeilDivIsLeast(n, d, m);
    CeilDivIsLeast(n, d, 0);
    CeilDivIsLeast(n, d, m - 1);
    hide CeilDiv, Cutting;
    ConstantReach(limits, m - 1);
    assert Reach(limits, m) >= n;
    assert m == |limits| - 1 by { EndsAt(limits, n, m); }
    forall i | 0 <= i < m
      ensures 0 <= i * d < n && Cut(limits, n, i) == Range(i * d, Min(i * d + d, n))
    {
      ConstantReach(limits, i);
      Scale(0, i, d);
      Scale(i, m - 1, d);
    }
  }

  lemma EndsAt(limits: seq<nat>, n: nat, m: nat)
    requires Finished(limits, n) && 0 < m < |limits| && Reach(limits, m - 1) < n <= Reach(limits, m)
    ensures m == |limits| - 1
  {
  }

  lemma LimitHeldMeansTiles(limits: seq<nat>, n: nat)
    requires Finished(limits, n) && n > 0 && LimitHeld(limits, n)
    ensures Tiles(Cuts(limits, n), n)
  {
    HeldCuts(limits, n);
    var d, q := limits[0], |Cuts(limits, n)|;
    CeilDivIsLeast(n, d, q);
    hide Finished, LimitHeld, Cuts, Tiles, CeilDiv;
    EvenTiles(Cuts(limits, n), n, d);
  }

  lemma EvenTiles(cuts: seq<Range>, n: nat, d: nat)
    requires d > 0 && cuts != [] && |cuts| * d >= n
    requires forall i :: 0 <= i < |cuts| ==> 0 <= i * d < n && cuts[i] == Range(i * d, Min(i * d + d, n))
    ensures Tiles(cuts, n)
  {
    var q := |cuts|;
    Distribute(q - 1, d);
    assert cuts[0] == Range(0 * d, Min(0 * d + d, n));
    assert cuts[q - 1] == Range((q - 1) * d, Min((q - 1) * d + d, n));
    forall i | 0 <= i < q - 1
      ensures cuts[i].hi == cuts[i + 1].lo
    {
      Distribute(i, d);
      assert cuts[i + 1] == Range((i + 1) * d, Min((i + 1) * d + d, n));
    }
  }

  /** A finished write has sent its payload exactly once, in order, if and only if
      the payload limit held: it was the same after each send but the last, and
      after the last it still reached the end. */
  lemma TilesIffLimitHeld(limits: seq<nat>, n: nat)
    requires Finished(limits, n)
    ensures Tiles(Cuts(limits, n), n) <==> LimitHeld(limits, n)
  {
    hide Tiles, LimitHeld;
    if n == 0 {
      NothingToCut(limits);
    } else if Tiles(Cuts(limits, n), n) {
      TilesMeanLimitHeld(limits, n);
    } else if LimitHeld(limits, n) {
      LimitHeldMeansTiles(limits, n);
    }
  }

  /** Nothing to send: the loop ends at the first limit it reads. */
  lemma OneLimit(limits: seq<nat>)
    requires Cutting(limits, 0)
    ensures |limits| == 1
  {
    var start := Reach(limits, 0);
  }

  lemma NothingToCut(limits: seq<nat>)
    requires Finished(limits, 0)
    ensures Tiles(Cuts(limits, 0), 0) && LimitHeld(limits, 0)
  {
    OneLimit(limits);
  }

  /** Then there are `CeilDiv(n, d)` slices, none empty and none larger than the limit. */
  lemma HeldSlices(limits: seq<nat>, n: nat)
    requires Finished(limits, n) && LimitHeld(limits, n)
    ensures n > 0 ==> |Cuts(limits, n)| == CeilDiv(n, limits[0])
    ensures n == 0 ==> Cuts(limits, n) == []
    ensures forall r :: r in Cuts(limits, n) ==> r.lo < r.hi <= n && r.hi - r.lo <= limits[0]
  {
    if n == 0 {
      NothingToCut(limits);
      OneLimit(limits);
    } else {
      hide Finished, LimitHeld, CutCount, Cut;
      HeldCuts(limits, n);
    }
  }

  /** A write whose limit rises after the first slice sends nothing between the two limits. */
  lemma RaisedLimitSkipsBytes(limits: seq<nat>, n: nat)
    requires Cutting(limits, n) && |limits| >= 2 && limits[0] < limits[1]
    ensures forall r :: r in Cuts(limits, n) ==> r.hi <= limits[0] || r.lo >= limits[1]
  {
    var cuts := Cuts(limits, n);
    forall i | 0 <= i < |cuts|
      ensures cuts[i].hi <= limits[0] || cuts[i].lo >= limits[1]
    {
      if i > 0 {
        ReachGrows(limits, 1, i);
        assert Reach(limits, 1) == Reach(limits, 0) + limits[1];
      }
    }
  }

  lemma {:induction false} ReachGrows(limits: seq<nat>, i: nat, j: nat)
    requires i <= j < |limits|
    ensures Reach(limits, i) <= Reach(limits, j)
  {
    if i < j {
      ReachGrows(limits, i, j - 1);
    }
  }

  /** With a limit of zero a write goes on sending empty slices and never ends. */
  lemma {:induction false} ZeroLimitNeverEnds(limits: seq<nat>, n: nat)
    requires Cutting(limits, n) && n > 0 && forall i :: 0 <= i < |limits| ==> limits[i] == 0
    ensures !Finished(limits, n) && |Cuts(limits, n)| == |limits|
    ensures forall r :: r in Cuts(limits, n) ==> r == Range(0, 0)
  {
    forall i | 0 <= i < |limits|
      ensures Reach(limits, i) == 0
    {
      ConstantReach(limits, i);
    }
  }

  lemma {:induction false} ReachOfPrefix(limits: seq<nat>, more: nat, i: nat)
    requires i < |limits|
    ensures Reach(limits + [more], i) == Reach(limits, i)
  {
    if i > 0 {
      ReachOfPrefix(limits, more, i - 1);
    }
  }

  lemma ReachOfPrefixes(limits: seq<nat>, more: nat)
    ensures forall i :: 0 <= i < |limits| ==> Reach(limits + [more], i) == Reach(limits, i)
  {
    forall i | 0 <= i < |limits|
      ensures Reach(limits + [more], i) == Reach(limits, i)
    {
      ReachOfPrefix(limits, more, i);
    }
  }

  /** One more limit read by a loop that has not ended: all cuts so far stay. */
  lemma CutsGrow(limits: seq<nat>, n: nat, more: nat)
    requires Cutting(limits, n) && Reach(limits, |limits| - 1) < n
    ensures Cutting(limits + [more], n)
    ensures Reach(limits + [more], |limits|) == Reach(limits, |limits| - 1) + more
    ensures Cuts(limits + [more], n)
         == Cuts(limits, n) + (if Reach(limits + [more], |limits|) < n then [Cut(limits + [more], n, |limits|)] else [])
  {
    hide Cut, CutCount, Reach;
    CountGrows(limits, n, more);
    hide Cutting;
    var before, all := Cuts(limits, n), Cuts(limits + [more], n);
    assert |before| == |limits|;
    forall i | 0 <= i < |before|
      ensures all[i] == before[i]
    {
      SameCut(limits, n, more, i);
    }
    Extends(before, all);
  }

  lemma Extends(a: seq<Range>, b: seq<Range>)
    requires |a| <= |b| <= |a| + 1 && forall i :: 0 <= i < |a| ==> b[i] == a[i]
    ensures b == a + if |b| > |a| then [b[|a|]] else []
  {
  }

  lemma SameCut(limits: seq<nat>, n: nat, more: nat, i: nat)
    requires i < |limits|
    ensures Cut(limits + [more], n, i) == Cut(limits, n, i)
  {
    ReachOfPrefix(limits, more, i);
    hide Reach;
  }

  lemma CountGrows(limits: seq<nat>, n: nat, more: nat)
    requires Cutting(limits, n) && Reach(limits, |limits| - 1) < n
    ensures Cutting(limits + [more], n) && CutCount(limits, n) == |limits|
    ensures Reach(limits + [more], |limits|) == Reach(limits, |limits| - 1) + more
    ensures CutCount(limits + [more], n)
         == |limits| + (if Reach(limits + [more], |limits|) < n then 1 else 0)
  {
    ReachOfPrefixes(limits, more);
    assert Reach(limits + [more], |limits|) == Reach(limits + [more], |limits| - 1) + more;
    hide Reach;
  }

  lemma FirstCut(limit: nat, n: nat)
    ensures Cutting([limit], n) && Reach([limit], 0) == 0
    ensures Cuts([limit], n) == if n > 0 then [Cut([limit], n, 0)] else []
  {
  }

  // ----- All writes of a host -----------------------------------------------------------

  /** The ranges of write `w` among `slices`, in order. */
  function SlicesOf(slices: seq<Slice>, w: nat): seq<Range> {
    if slices == [] then []
    else
      var s := slices[|slices| - 1];
      SlicesOf(slices[..|slices| - 1], w) + (if s.write == w then [Range(s.lo, s.hi)] else [])
  }

  lemma SlicesOfSnoc(slices: seq<Slice>, s: Slice, w: nat)
    ensures SlicesOf(slices + [s], w) == SlicesOf(slices, w) + (if s.write == w then [Range(s.lo, s.hi)] else [])
  {
    assert (slices + [s])[..|slices|] == slices;
  }

  lemma {:induction false} NoSlicesOf(slices: seq<Slice>, w: nat)
    requires forall i :: 0 <= i < |slices| ==> slices[i].write != w
    ensures SlicesOf(slices, w) == []
  {
    if slices != [] {
      NoSlicesOf(slices[..|slices| - 1], w);
    }
  }

  /** What the record of a write says: where its loop stands, and what it has sent. */
  predicate Recorded(wr: Writing, sent: seq<Range>) {
    && Cutting(wr.limits, |wr.payload|)
    && wr.offset == Reach(wr.limits, |wr.limits| - 1)
    && sent == Cuts(wr.limits, |wr.payload|)
  }

  predicate Waits(h: Host, k: nat, w: nat) {
    k in h.flights && h.flights[k].follow == NextSlice(w)
  }

  /** A write waits for at most one of its slices, and only while its loop has not ended. */
  ghost predicate WaitInv(h: Host) {
    && (forall k: nat, w: nat :: Waits(h, k, w) ==> w < |h.writes| && h.writes[w].offset < |h.writes[w].payload|)
    && (forall j: nat, k: nat, w: nat :: Waits(h, j, w) && Waits(h, k, w) ==> j == k)
  }

  predicate SliceFits(h: Host, s: Slice) {
    s.write < |h.writes| && s.lo <= s.hi <= |h.writes[s.write].payload| && s.lo < |h.writes[s.write].payload|
  }

  ghost predicate WritesInv(h: Host) {
    && WaitInv(h)
    && (forall i :: 0 <= i < |h.slices| ==> SliceFits(h, h.slices[i]))
    && (forall w :: 0 <= w < |h.writes| ==> Recorded(h.writes[w], SlicesOf(h.slices, w)))
  }

  /** The step left every write as it was: none went on, none began. */
  ghost predicate WritesSame(h: Host, k: Host) {
    && k.writes == h.writes && k.slices == h.slices
    && forall n: nat, w: nat :: Waits(k, n, w) ==> Waits(h, n, w)
  }

  lemma SameKeepsWrites(h: Host, k: Host)
    requires WritesInv(h) && WritesSame(h, k)
    ensures WritesInv(k)
  {
    hide Recorded;
    forall i | 0 <= i < |k.slices|
      ensures SliceFits(k, k.slices[i])
    {
      assert SliceFits(h, h.slices[i]);
    }
  }

  /** Write `w` stands at its loop head: it has read the limit and sent nothing with it yet. */
  ghost predicate AtHead(h: Host, w: nat)
    requires w < |h.writes|
  {
    var wr := h.writes[w];
    && Cutting(wr.limits, |wr.payload|)
    && wr.offset == Reach(wr.limits, |wr.limits| - 1)
    && wr.limits[|wr.limits| - 1] == h.maxPayload
    && Cuts(wr.limits, |wr.payload|) == SlicesOf(h.slices, w) +
         (if wr.offset < |wr.payload| then [Cut(wr.limits, |wr.payload|, |wr.limits| - 1)] else [])
  }

  /** All else is in order. */
  ghost predicate OthersInv(h: Host, w: nat) {
    && WaitInv(h)
    && (forall n: nat, v: nat :: Waits(h, n, v) ==> v != w && n < |h.sent|)
    && (forall i :: 0 <= i < |h.slices| ==> SliceFits(h, h.slices[i]))
    && (forall v :: 0 <= v < |h.writes| && v != w ==> Recorded(h.writes[v], SlicesOf(h.slices, v)))
  }

  lemma LoopHeadKeepsWaits(h: Host, w: nat)
    requires w < |h.writes| && OthersInv(h, w)
    ensures WaitInv(LoopHead(h, w))
    ensures forall i :: 0 <= i < |LoopHead(h, w).slices| ==> SliceFits(LoopHead(h, w), LoopHead(h, w).slices[i])
  {
    hide Recorded, SlicesOf;
    var k, wr := LoopHead(h, w), h.writes[w];
    forall n: nat, v: nat | Waits(k, n, v)
      ensures if n == |h.sent| && wr.offset < |wr.payload| then v == w else Waits(h, n, v)
    {
    }
    forall i | 0 <= i < |k.slices|
      ensures SliceFits(k, k.slices[i])
    {
      if i < |h.slices| { assert SliceFits(h, h.slices[i]); }
    }
  }

  lemma LoopHeadKeepsRecords(h: Host, w: nat)
    requires w < |h.writes| && OthersInv(h, w) && AtHead(h, w)
    ensures forall v :: 0 <= v < |h.writes| ==> Recorded(h.writes[v], SlicesOf(LoopHead(h, w).slices, v))
  {
    forall v | 0 <= v < |h.writes|
      ensures Recorded(h.writes[v], SlicesOf(LoopHead(h, w).slices, v))
    {
      if v != w { assert Recorded(h.writes[v], SlicesOf(h.slices, v)); }
      LoopHeadKeepsRecord(h, w, v);
    }
  }

  lemma LoopHeadKeepsRecord(h: Host, w: nat, v: nat)
    requires w < |h.writes| && v < |h.writes| && AtHead(h, w)
    requires v != w ==> Recorded(h.writes[v], SlicesOf(h.slices, v))
    ensures Recorded(h.writes[v], SlicesOf(LoopHead(h, w).slices, v))
  {
    hide Cuts, Reach, Cutting, SlicesOf;
    var wr := h.writes[w];
    if wr.offset < |wr.payload| {
      var s := Slice(w, wr.offset, Min(wr.offset + h.maxPayload, |wr.payload|));
      assert LoopHead(h, w).slices == h.slices + [s];
      SlicesOfSnoc(h.slices, s, v);
      assert Cut(wr.limits, |wr.payload|, |wr.limits| - 1) == Range(s.lo, s.hi);
    } else {
      assert LoopHead(h, w) == h;
      assert SlicesOf(h.slices, w) + [] == SlicesOf(h.slices, w);
    }
    hide LoopHead, Cut;
  }

  lemma LoopHeadKeepsWrites(h: Host, w: nat)
    requires w < |h.writes| && OthersInv(h, w) && AtHead(h, w)
    ensures WritesInv(LoopHead(h, w))
  {
    hide OthersInv, AtHead, WaitInv, Recorded, SlicesOf;
    LoopHeadKeepsWaits(h, w);
    LoopHeadKeepsRecords(h, w);
  }

  predicate FlightsKnown(h: Host) {
    forall k :: k in h.flights ==> k < |h.sent|
  }

  function Begun(h: Host, id: int, payload: bytes): Host
    requires id in h.streams
  {
    h.(writes := h.writes + [Writing(h.streams[id], payload, 0, [h.maxPayload])])
  }

  lemma BegunIsReady(h: Host, id: int, payload: bytes)
    requires WritesInv(h) && FlightsKnown(h) && id in h.streams
    ensures OthersInv(Begun(h, id, payload), |h.writes|)
  {
    hide Recorded, SlicesOf;
    var k, w := Begun(h, id, payload), |h.writes|;
    forall i | 0 <= i < |k.slices|
      ensures SliceFits(k, k.slices[i])
    {
      assert SliceFits(h, h.slices[i]);
    }
    forall n: nat, v: nat | Waits(k, n, v)
      ensures Waits(h, n, v) && v != w && n < |k.sent|
    {
      assert Waits(h, n, v);
    }
  }

  lemma BegunIsAtHead(h: Host, id: int, payload: bytes)
    requires WritesInv(h) && id in h.streams
    ensures AtHead(Begun(h, id, payload), |h.writes|)
  {
    FirstCut(h.maxPayload, |payload|);
    forall i | 0 <= i < |h.slices|
      ensures h.slices[i].write != |h.writes|
    {
      assert SliceFits(h, h.slices[i]);
    }
    NoSlicesOf(h.slices, |h.writes|);
    hide Cuts, Cut;
  }

  function Advanced(h: Host, n: nat, w: nat): Host
    requires w < |h.writes|
  {
    var wr := h.writes[w];
    h.(flights := h.flights - {n},
       writes := h.writes[w := wr.(offset := wr.offset + h.maxPayload, limits := wr.limits + [h.maxPayload])])
  }

  lemma AdvancedIsReady(h: Host, n: nat, w: nat)
    requires WritesInv(h) && FlightsKnown(h) && Waits(h, n, w)
    ensures w < |h.writes| && OthersInv(Advanced(h, n, w), w)
  {
    hide Recorded, SlicesOf;
    var k := Advanced(h, n, w);
    forall i | 0 <= i < |k.slices|
      ensures SliceFits(k, k.slices[i])
    {
      assert SliceFits(h, h.slices[i]);
    }
    forall m: nat, v: nat | Waits(k, m, v)
      ensures Waits(h, m, v) && v != w && m < |k.sent|
    {
      assert Waits(h, m, v);
    }
  }

  lemma AdvancedIsAtHead(h: Host, n: nat, w: nat)
    requires WritesInv(h) && Waits(h, n, w)
    ensures w < |h.writes| && AtHead(Advanced(h, n, w), w)
  {
    hide SlicesOf;
    var wr := h.writes[w];
    assert Recorded(wr, SlicesOf(h.slices, w));
    CutsGrow(wr.limits, |wr.payload|, h.maxPayload);
    hide Cuts, Reach, Cutting, Cut;
  }
}
