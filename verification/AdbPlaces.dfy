/** Which bytes of which write a stream carries, and when it carries its writes in order. */
module AdbPlaces {
  import opened Bytes
  import opened AdbMessages
  import opened AdbHosts
  import opened AdbWrites
  import opened AdbOrder

  /** Byte number `at` of the payload of write number `write`. */
  datatype Place = Place(write: nat, at: nat)

  function Span(w: nat, lo: nat, hi: nat): (r: seq<Place>)
    requires lo <= hi
    ensures |r| == hi - lo
    ensures forall i :: 0 <= i < |r| ==> r[i] == Place(w, lo + i)
  {
    seq(hi - lo, i requires 0 <= i < hi - lo => Place(w, lo + i))
  }

  /** What stream `id` carries: the places of the slices of writes to it, in the order sent. */
  function Carried(writes: seq<Writing>, slices: seq<Slice>, id: int): seq<Place> {
    if slices == [] then []
    else
      var s := slices[|slices| - 1];
      Carried(writes, slices[..|slices| - 1], id) + (if On(writes, s, id) then Span(s.write, s.lo, s.hi) else [])
  }

  /** What it should carry: the payloads of the first `n` writes, those to `id`, one after the other. */
  function Due(writes: seq<Writing>, id: int, n: nat): seq<Place>
    requires n <= |writes|
  {
    if n == 0 then []
    else Due(writes, id, n - 1) + (if writes[n - 1].stream.localId == id then Span(n - 1, 0, |writes[n - 1].payload|) else [])
  }

  /** No slice of one write to the stream falls between two slices of another. */
  predicate Serial(writes: seq<Writing>, slices: seq<Slice>, id: int) {
    forall i, j, k ::
      (0 <= i < j < k < |slices|
       && On(writes, slices[i], id) && On(writes, slices[j], id) && On(writes, slices[k], id)
       && slices[i].write == slices[k].write) ==> slices[j].write == slices[i].write
  }

  predicate Sorted(writes: seq<Writing>, slices: seq<Slice>, id: int) {
    forall i, j :: 0 <= i < j < |slices| && On(writes, slices[i], id) && On(writes, slices[j], id) ==>
      slices[i].write <= slices[j].write
  }

  /** A slice of a later write before one of an earlier: as the earlier write began
      first, it has a slice before both. */
  lemma OutOfOrderIsOverlap(h: Host, id: int, i: nat, j: nat)
    requires WritesInv(h) && FirstsInv(h)
    requires i < j < |h.slices| && On(h.writes, h.slices[i], id) && On(h.writes, h.slices[j], id)
    requires h.slices[j].write < h.slices[i].write
    ensures !Serial(h.writes, h.slices, id)
  {
    hide Recorded, WaitInv, SlicesOf;
    var s := h.slices;
    assert SliceFits(h, s[j]);
    assert HasSlice(s, i, s[j].write);
    var a :| 0 <= a < i && a < |s| && s[a].write == s[j].write;
    assert SliceFits(h, s[a]);
    assert On(h.writes, s[a], id);
  }

  /** As writes start in the order they were begun, serial means sorted. */
  lemma SerialIsSorted(h: Host, id: int)
    requires WritesInv(h) && FirstsInv(h)
    ensures Serial(h.writes, h.slices, id) <==> Sorted(h.writes, h.slices, id)
  {
    hide WritesInv, FirstsInv;
    if !Sorted(h.writes, h.slices, id) {
      var i, j :| 0 <= i < j < |h.slices| && On(h.writes, h.slices[i], id) && On(h.writes, h.slices[j], id)
        && h.slices[j].write < h.slices[i].write;
      OutOfOrderIsOverlap(h, id, i, j);
    }
  }

  // ----- Sorted slices that tile carry what is due ---------------------------------------

  function RangePlaces(w: nat, ranges: seq<Range>): seq<Place> {
    if ranges == [] then []
    else
      var r := ranges[|ranges| - 1];
      RangePlaces(w, ranges[..|ranges| - 1]) + (if r.lo <= r.hi then Span(w, r.lo, r.hi) else [])
  }

  lemma RangePlacesSnoc(w: nat, ranges: seq<Range>, r: Range)
    ensures RangePlaces(w, ranges + [r]) == RangePlaces(w, ranges) + (if r.lo <= r.hi then Span(w, r.lo, r.hi) else [])
  {
    assert (ranges + [r])[..|ranges|] == ranges;
  }

  lemma SpanJoin(w: nat, lo: nat, mid: nat, hi: nat)
    requires lo <= mid <= hi
    ensures Span(w, lo, mid) + Span(w, mid, hi) == Span(w, lo, hi)
  {
  }

  lemma {:induction false} TilesCarry(w: nat, ranges: seq<Range>, n: nat)
    requires Tiles(ranges, n)
    ensures RangePlaces(w, ranges) == Span(w, 0, n)
  {
    if ranges != [] {
      var front, r := ranges[..|ranges| - 1], ranges[|ranges| - 1];
      if front != [] {
        assert Tiles(front, r.lo) by {
          assert front[|front| - 1] == ranges[|front| - 1];
          assert ranges[|front| - 1].hi == ranges[|front| - 1 + 1].lo;
        }
      }
      TilesCarry(w, front, r.lo);
      SpanJoin(w, 0, r.lo, r.hi);
    }
  }

  predicate AllForward(ranges: seq<Range>) {
    forall i :: 0 <= i < |ranges| ==> ranges[i].lo < ranges[i].hi
  }

  lemma {:induction false} CarryingTiles(w: nat, ranges: seq<Range>, n: nat)
    requires AllForward(ranges) && RangePlaces(w, ranges) == Span(w, 0, n)
    ensures Tiles(ranges, n)
  {
    if ranges != [] {
      var front, r := ranges[..|ranges| - 1], ranges[|ranges| - 1];
      var c := |RangePlaces(w, front)|;
      SplitSpan(w, RangePlaces(w, front), r, n);
      CarryingTiles(w, front, c);
      hide RangePlaces;
      if front != [] {
        assert front[|front| - 1] == ranges[|front| - 1];
        forall i | 0 <= i < |ranges| - 1
          ensures ranges[i].hi == ranges[i + 1].lo
        {
          if i < |front| - 1 { assert front[i].hi == front[i + 1].lo; }
        }
      }
    }
  }

  lemma SplitSpan(w: nat, front: seq<Place>, r: Range, n: nat)
    requires r.lo < r.hi && front + Span(w, r.lo, r.hi) == Span(w, 0, n)
    ensures |front| == r.lo && r.hi == n && front == Span(w, 0, r.lo)
  {
    var all := front + Span(w, r.lo, r.hi);
    assert |all| == n;
    assert all[|front|] == Span(w, r.lo, r.hi)[0] == Place(w, r.lo);
    assert all[|front|] == Place(w, 0 + |front|);
    assert front == all[..|front|];
  }

  /** As `Carried`, of writes below `bound` only. */
  function CarriedBelow(writes: seq<Writing>, slices: seq<Slice>, id: int, bound: nat): seq<Place> {
    if slices == [] then []
    else
      var s := slices[|slices| - 1];
      CarriedBelow(writes, slices[..|slices| - 1], id, bound)
        + (if On(writes, s, id) && s.write < bound then Span(s.write, s.lo, s.hi) else [])
  }

  lemma {:induction false} BelowNone(writes: seq<Writing>, slices: seq<Slice>, id: int)
    ensures CarriedBelow(writes, slices, id, 0) == []
  {
    if slices != [] {
      BelowNone(writes, slices[..|slices| - 1], id);
    }
  }

  lemma {:induction false} BelowAll(writes: seq<Writing>, slices: seq<Slice>, id: int)
    ensures CarriedBelow(writes, slices, id, |writes|) == Carried(writes, slices, id)
  {
    if slices != [] {
      BelowAll(writes, slices[..|slices| - 1], id);
    }
  }

  /** Every slice is of a write, and within its payload. */
  predicate AllOn(writes: seq<Writing>, slices: seq<Slice>) {
    forall i :: 0 <= i < |slices| ==>
      slices[i].write < |writes| && On(writes, slices[i], writes[slices[i].write].stream.localId)
  }

  /** The places of write `w`, if it is to stream `id`. */
  function Own(writes: seq<Writing>, slices: seq<Slice>, id: int, w: nat): seq<Place>
    requires w < |writes|
  {
    if writes[w].stream.localId == id then RangePlaces(w, SlicesOf(slices, w)) else []
  }

  /** Sorted slices of the writes up to `w` are those below `w`, then those of `w`. */
  lemma {:induction false} BelowGrows(writes: seq<Writing>, slices: seq<Slice>, id: int, w: nat)
    requires w < |writes| && AllOn(writes, slices) && Sorted(writes, slices, id)
    ensures CarriedBelow(writes, slices, id, w + 1) == CarriedBelow(writes, slices, id, w) + Own(writes, slices, id, w)
  {
    hide On, AllOn, Sorted, CarriedBelow;
    if slices == [] {
      NothingBelow(writes, id, w);
    } else {
      var front, s := slices[..|slices| - 1], slices[|slices| - 1];
      FrontIsSorted(writes, slices, id);
      BelowGrows(writes, front, id, w);
      BelowTurn(writes, slices, id, w);
      BelowTurn(writes, slices, id, w + 1);
      LastOn(writes, slices, id);
      OwnGrows(writes, slices, id, w);
      hide Own, Span;
      var before, own := CarriedBelow(writes, front, id, w), Own(writes, front, id, w);
      if !On(writes, s, id) {
        assert before + [] == before && own + [] == own;
      } else if s.write < w {
        NoneOf(writes, slices, id, w);
        NothingOwn(writes, front, id, w);
        NothingBetween(before, Span(s.write, s.lo, s.hi));
      } else if s.write == w {
        Reassociate(before, own, Span(s.write, s.lo, s.hi));
      } else {
        assert before + [] == before && own + [] == own;
      }
    }
  }

  lemma NothingBetween(before: seq<Place>, here: seq<Place>)
    ensures (before + []) + here == (before + here) + [] == (before + here) + ([] + [])
  {
  }

  lemma Reassociate(a: seq<Place>, b: seq<Place>, c: seq<Place>)
    ensures (a + b) + c == (a + []) + (b + c)
  {
  }

  lemma NothingBelow(writes: seq<Writing>, id: int, w: nat)
    requires w < |writes|
    ensures CarriedBelow(writes, [], id, w) == CarriedBelow(writes, [], id, w + 1) == Own(writes, [], id, w) == []
  {
  }

  lemma BelowTurn(writes: seq<Writing>, slices: seq<Slice>, id: int, bound: nat)
    requires slices != []
    ensures var s := slices[|slices| - 1];
            CarriedBelow(writes, slices, id, bound) == CarriedBelow(writes, slices[..|slices| - 1], id, bound)
              + (if On(writes, s, id) && s.write < bound then Span(s.write, s.lo, s.hi) else [])
  {
  }

  lemma LastOn(writes: seq<Writing>, slices: seq<Slice>, id: int)
    requires slices != [] && AllOn(writes, slices)
    ensures var s := slices[|slices| - 1];
            s.write < |writes| && s.lo <= s.hi && (On(writes, s, id) <==> writes[s.write].stream.localId == id)
  {
    var s := slices[|slices| - 1];
    assert On(writes, s, writes[s.write].stream.localId);
  }

  lemma OwnGrows(writes: seq<Writing>, slices: seq<Slice>, id: int, w: nat)
    requires w < |writes| && slices != []
    ensures var front, s := slices[..|slices| - 1], slices[|slices| - 1];
            Own(writes, slices, id, w) == Own(writes, front, id, w)
              + (if s.write == w && writes[w].stream.localId == id && s.lo <= s.hi then Span(w, s.lo, s.hi) else [])
  {
    var front, s := slices[..|slices| - 1], slices[|slices| - 1];
    if s.write == w {
      RangePlacesSnoc(w, SlicesOf(front, w), Range(s.lo, s.hi));
    } else {
      assert SlicesOf(slices, w) == SlicesOf(front, w);
    }
  }

  lemma NothingOwn(writes: seq<Writing>, slices: seq<Slice>, id: int, w: nat)
    requires w < |writes| && (writes[w].stream.localId == id ==> SlicesOf(slices, w) == [])
    ensures Own(writes, slices, id, w) == []
  {
  }

  lemma OnFits(writes: seq<Writing>, s: Slice, id: int)
    requires s.write < |writes| && On(writes, s, writes[s.write].stream.localId)
    ensures s.lo <= s.hi && (On(writes, s, id) <==> writes[s.write].stream.localId == id)
  {
  }

  lemma FrontIsSorted(writes: seq<Writing>, slices: seq<Slice>, id: int)
    requires slices != [] && AllOn(writes, slices) && Sorted(writes, slices, id)
    ensures AllOn(writes, slices[..|slices| - 1]) && Sorted(writes, slices[..|slices| - 1], id)
  {
  }

  lemma OneOf(writes: seq<Writing>, slices: seq<Slice>, id: int, i: nat)
    requires AllOn(writes, slices) && i < |slices|
    ensures slices[i].write < |writes|
    ensures On(writes, slices[i], id) <==> writes[slices[i].write].stream.localId == id
  {
    assert On(writes, slices[i], writes[slices[i].write].stream.localId);
  }

  /** If the last slice, on the stream, is of a write below `w`, none on the stream is of `w`. */
  lemma NoneOf(writes: seq<Writing>, slices: seq<Slice>, id: int, w: nat)
    requires slices != [] && AllOn(writes, slices) && Sorted(writes, slices, id) && w < |writes|
    requires On(writes, slices[|slices| - 1], id) && slices[|slices| - 1].write < w
    ensures writes[w].stream.localId == id ==> SlicesOf(slices[..|slices| - 1], w) == []
  {
    hide On;
    var front, s := slices[..|slices| - 1], slices[|slices| - 1];
    if writes[w].stream.localId == id {
      forall i | 0 <= i < |front|
        ensures front[i].write != w
      {
        assert slices[i] == front[i];
        OneOf(writes, slices, id, i);
      }
      NoSlicesOf(front, w);
    }
  }

  predicate TilesBelow(h: Host, id: int, bound: nat) {
    forall w :: 0 <= w < |h.writes| && w < bound && h.writes[w].stream.localId == id ==>
      Tiles(SlicesOf(h.slices, w), |h.writes[w].payload|)
  }

  lemma {:induction false} SortedTilesCarryDue(h: Host, id: int, bound: nat)
    requires bound <= |h.writes| && AllOn(h.writes, h.slices) && Sorted(h.writes, h.slices, id) && TilesBelow(h, id, bound)
    ensures CarriedBelow(h.writes, h.slices, id, bound) == Due(h.writes, id, bound)
    decreases bound
  {
    hide Tiles, On, AllOn, Sorted, SlicesOf, CarriedBelow;
    if bound == 0 {
      BelowNone(h.writes, h.slices, id);
    } else {
      SortedTilesCarryDue(h, id, bound - 1);
      BelowGrows(h.writes, h.slices, id, bound - 1);
      if h.writes[bound - 1].stream.localId == id {
        TilesCarry(bound - 1, SlicesOf(h.slices, bound - 1), |h.writes[bound - 1].payload|);
      }
    }
  }

  // ----- A stream that carries what is due is sorted and tiles ------------------------------

  /** The places of write `w`. */
  function Only(places: seq<Place>, w: nat): seq<Place> {
    if places == [] then []
    else
      var p := places[|places| - 1];
      Only(places[..|places| - 1], w) + (if p.write == w then [p] else [])
  }

  lemma {:induction false} OnlyAppend(a: seq<Place>, b: seq<Place>, w: nat)
    ensures Only(a + b, w) == Only(a, w) + Only(b, w)
    decreases |b|
  {
    if b == [] {
      assert a + b == a;
    } else {
      OnlyAppend(a, b[..|b| - 1], w);
      assert (a + b)[..|a + b| - 1] == a + b[..|b| - 1];
    }
  }

  lemma {:induction false} OnlyOwn(places: seq<Place>, v: nat, w: nat)
    requires forall i :: 0 <= i < |places| ==> places[i].write == v
    ensures Only(places, w) == if v == w then places else []
  {
    if places != [] {
      OnlyOwn(places[..|places| - 1], v, w);
    }
  }

  lemma {:induction false} OnlyCarried(writes: seq<Writing>, slices: seq<Slice>, id: int, w: nat)
    requires w < |writes| && writes[w].stream.localId == id && AllOn(writes, slices)
    ensures Only(Carried(writes, slices, id), w) == RangePlaces(w, SlicesOf(slices, w))
  {
    hide On, Only;
    if slices != [] {
      var front, s := slices[..|slices| - 1], slices[|slices| - 1];
      assert AllOn(writes, front);
      OnlyCarried(writes, front, id, w);
      assert On(writes, s, writes[s.write].stream.localId);
      OnFits(writes, s, id);
      if s.write == w {
        RangePlacesSnoc(w, SlicesOf(front, w), Range(s.lo, s.hi));
      } else {
        assert SlicesOf(slices, w) == SlicesOf(front, w);
      }
      var here := if On(writes, s, id) then Span(s.write, s.lo, s.hi) else [];
      OnlyAppend(Carried(writes, front, id), here, w);
      OnlyOwn(here, s.write, w);
    } else {
      OnlyOwn([], w, w);
    }
  }

  lemma {:induction false} OnlyDue(writes: seq<Writing>, id: int, n: nat, w: nat)
    requires n <= |writes| && w < |writes| && writes[w].stream.localId == id
    ensures Only(Due(writes, id, n), w) == if w < n then Span(w, 0, |writes[w].payload|) else []
  {
    hide Only;
    if n == 0 {
      OnlyOwn([], w, w);
    } else {
      OnlyDue(writes, id, n - 1, w);
      var here := if writes[n - 1].stream.localId == id then Span(n - 1, 0, |writes[n - 1].payload|) else [];
      OnlyAppend(Due(writes, id, n - 1), here, w);
      OnlyOwn(here, n - 1, w);
    }
  }

  predicate PlacesSorted(places: seq<Place>) {
    forall x, y :: 0 <= x < y < |places| ==> places[x].write <= places[y].write
  }

  lemma {:induction false} DueIsSorted(writes: seq<Writing>, id: int, n: nat)
    requires n <= |writes|
    ensures PlacesSorted(Due(writes, id, n))
    ensures forall x :: 0 <= x < |Due(writes, id, n)| ==> Due(writes, id, n)[x].write < n
  {
    if n > 0 {
      DueIsSorted(writes, id, n - 1);
    }
  }

  lemma CarriedSnoc(writes: seq<Writing>, slices: seq<Slice>, id: int)
    requires slices != []
    ensures Carried(writes, slices, id) == Carried(writes, slices[..|slices| - 1], id)
      + (if On(writes, slices[|slices| - 1], id)
         then Span(slices[|slices| - 1].write, slices[|slices| - 1].lo, slices[|slices| - 1].hi) else [])
  {
  }

  /** Where slice `i` begins in what the stream carries. */
  lemma {:induction false} CarriedAt(writes: seq<Writing>, slices: seq<Slice>, id: int, i: nat)
    requires i < |slices| && On(writes, slices[i], id) && slices[i].lo < slices[i].hi
    ensures var x := |Carried(writes, slices[..i], id)|;
            x < |Carried(writes, slices, id)| && Carried(writes, slices, id)[x].write == slices[i].write
    ensures |Carried(writes, slices[..i], id)| < |Carried(writes, slices[..i + 1], id)|
    decreases |slices|
  {
    hide Carried, On;
    var front := slices[..|slices| - 1];
    CarriedSnoc(writes, slices, id);
    if i < |front| {
      assert front[i] == slices[i] && front[..i] == slices[..i] && front[..i + 1] == slices[..i + 1];
      CarriedAt(writes, front, id, i);
    } else {
      assert slices[..i] == front && slices[..i + 1] == slices;
    }
  }

  lemma {:induction false} CarriedGrows(writes: seq<Writing>, slices: seq<Slice>, id: int, i: nat, j: nat)
    requires i <= j <= |slices|
    ensures |Carried(writes, slices[..i], id)| <= |Carried(writes, slices[..j], id)|
    decreases j
  {
    if i < j {
      CarriedGrows(writes, slices, id, i, j - 1);
      assert slices[..j][..|slices[..j]| - 1] == slices[..j - 1];
    }
  }

  predicate AllSpan(slices: seq<Slice>) {
    forall i :: 0 <= i < |slices| ==> slices[i].lo < slices[i].hi
  }

  lemma SortedPlacesSortSlices(writes: seq<Writing>, slices: seq<Slice>, id: int)
    requires AllSpan(slices) && PlacesSorted(Carried(writes, slices, id))
    ensures Sorted(writes, slices, id)
  {
    hide Carried, On;
    forall i, j | 0 <= i < j < |slices| && On(writes, slices[i], id) && On(writes, slices[j], id)
      ensures slices[i].write <= slices[j].write
    {
      CarriedAt(writes, slices, id, i);
      CarriedAt(writes, slices, id, j);
      CarriedGrows(writes, slices, id, i + 1, j);
    }
  }

  // ----- The theorem --------------------------------------------------------------------

  predicate AllOver(h: Host, id: int) {
    forall w :: 0 <= w < |h.writes| && h.writes[w].stream.localId == id ==> h.writes[w].offset >= |h.writes[w].payload|
  }

  predicate LimitsHeld(h: Host, id: int) {
    forall w :: 0 <= w < |h.writes| && h.writes[w].stream.localId == id ==>
      h.writes[w].limits != [] && LimitHeld(h.writes[w].limits, |h.writes[w].payload|)
  }

  lemma OverIsFinished(h: Host, w: nat)
    requires WritesInv(h) && w < |h.writes| && h.writes[w].offset >= |h.writes[w].payload|
    ensures Finished(h.writes[w].limits, |h.writes[w].payload|)
    ensures SlicesOf(h.slices, w) == Cuts(h.writes[w].limits, |h.writes[w].payload|)
  {
    hide SlicesOf, Cuts, Reach;
    assert Recorded(h.writes[w], SlicesOf(h.slices, w));
  }

  lemma CutsAreForward(limits: seq<nat>, n: nat)
    requires Cutting(limits, n) && AllPositive(limits)
    ensures AllForward(Cuts(limits, n))
  {
    var cuts := Cuts(limits, n);
    forall i | 0 <= i < |cuts|
      ensures cuts[i].lo < cuts[i].hi
    {
      assert cuts[i] == Cut(limits, n, i) && Reach(limits, i) < n;
    }
  }

  /** Every slice sent is one of the cuts of its write. */
  lemma {:induction false} SliceIsCut(slices: seq<Slice>, i: nat)
    requires i < |slices|
    ensures Range(slices[i].lo, slices[i].hi) in SlicesOf(slices, slices[i].write)
    decreases |slices|
  {
    if i < |slices| - 1 {
      assert slices[..|slices| - 1][i] == slices[i];
      SliceIsCut(slices[..|slices| - 1], i);
    }
  }

  lemma SlicesSpan(h: Host)
    requires WritesInv(h) && PositiveInv(h)
    ensures AllSpan(h.slices)
  {
    hide SlicesOf, Cuts, Reach;
    forall i | 0 <= i < |h.slices|
      ensures h.slices[i].lo < h.slices[i].hi
    {
      var w := h.slices[i].write;
      assert SliceFits(h, h.slices[i]);
      assert Recorded(h.writes[w], SlicesOf(h.slices, w));
      assert AllPositive(h.writes[w].limits);
      CutsAreForward(h.writes[w].limits, |h.writes[w].payload|);
      SliceIsCut(h.slices, i);
      var r := Range(h.slices[i].lo, h.slices[i].hi);
      var cuts := Cuts(h.writes[w].limits, |h.writes[w].payload|);
      var x :| 0 <= x < |cuts| && cuts[x] == r;
    }
  }

  lemma TilesIffHeld(h: Host, id: int)
    requires WritesInv(h) && AllOver(h, id)
    ensures TilesBelow(h, id, |h.writes|) <==> LimitsHeld(h, id)
  {
    hide WritesInv, SlicesOf, Tiles, LimitHeld;
    forall w | 0 <= w < |h.writes| && h.writes[w].stream.localId == id
      ensures h.writes[w].limits != []
      ensures Tiles(SlicesOf(h.slices, w), |h.writes[w].payload|) <==> LimitHeld(h.writes[w].limits, |h.writes[w].payload|)
    {
      OverIsFinished(h, w);
      TilesIffLimitHeld(h.writes[w].limits, |h.writes[w].payload|);
    }
  }

  lemma CarriesDueMeansTiles(h: Host, id: int)
    requires WritesInv(h) && PositiveInv(h) && AllOver(h, id) && AllOn(h.writes, h.slices)
    requires Carried(h.writes, h.slices, id) == Due(h.writes, id, |h.writes|)
    ensures TilesBelow(h, id, |h.writes|)
  {
    hide WritesInv, SlicesOf, Carried, Due, Only, Tiles, Cuts, Reach, AllOn;
    forall w | 0 <= w < |h.writes| && h.writes[w].stream.localId == id
      ensures Tiles(SlicesOf(h.slices, w), |h.writes[w].payload|)
    {
      OnlyCarried(h.writes, h.slices, id, w);
      OnlyDue(h.writes, id, |h.writes|, w);
      OverIsFinished(h, w);
      assert AllPositive(h.writes[w].limits);
      CutsAreForward(h.writes[w].limits, |h.writes[w].payload|);
      CarryingTiles(w, SlicesOf(h.slices, w), |h.writes[w].payload|);
    }
  }

  lemma InOrderIffSorted(h: Host, id: int)
    requires WritesInv(h) && PositiveInv(h) && AllOver(h, id)
    ensures Carried(h.writes, h.slices, id) == Due(h.writes, id, |h.writes|)
            <==> Sorted(h.writes, h.slices, id) && TilesBelow(h, id, |h.writes|)
  {
    SlicesFit(h);
    hide WritesInv, Carried, Due, Sorted, TilesBelow, On, PositiveInv, SlicesOf;
    assert AllOn(h.writes, h.slices);
    if Carried(h.writes, h.slices, id) == Due(h.writes, id, |h.writes|) {
      CarriesDueMeansTiles(h, id);
      SlicesSpan(h);
      DueIsSorted(h.writes, id, |h.writes|);
      SortedPlacesSortSlices(h.writes, h.slices, id);
    }
    if Sorted(h.writes, h.slices, id) && TilesBelow(h, id, |h.writes|) {
      SortedTilesCarryDue(h, id, |h.writes|);
      BelowAll(h.writes, h.slices, id);
    }
  }

  /** Over every run after which the writes to stream `id` are over, the stream
      carries their payloads in the order the writes began, each exactly once, if
      and only if no slice of one write fell between two slices of another and the
      payload limit held during each. */
  lemma InOrderIffSerial(limit: nat, inputs: seq<Input>, id: int)
    requires limit > 0 && AllOver(After(NewHost(limit), inputs), id)
    ensures var h := After(NewHost(limit), inputs);
            Carried(h.writes, h.slices, id) == Due(h.writes, id, |h.writes|)
            <==> Serial(h.writes, h.slices, id) && LimitsHeld(h, id)
  {
    hide After, WritesInv, FirstsInv, BodiesInv, PositiveInv, Carried, Due, Serial, Sorted, TilesBelow, LimitsHeld;
    var h := After(NewHost(limit), inputs);
    WritesAreRecorded(limit, inputs, id);
    InOrderIffSorted(h, id);
    SerialIsSorted(h, id);
    TilesIffHeld(h, id);
  }

  lemma {:induction false} ReachAtLeast(limits: seq<nat>, i: nat)
    requires i < |limits| && AllPositive(limits)
    ensures Reach(limits, i) >= i
  {
    if i > 0 {
      ReachAtLeast(limits, i - 1);
    }
  }

  /** Each write of a run sends at most one slice a byte, so it ends. One that has
      ended has sent its payload exactly once if and only if the payload limit
      held, and then in `CeilDiv(n, d)` slices, none empty and none larger than the
      limit `d` it began with. */
  lemma WriteSplitsPayload(limit: nat, inputs: seq<Input>, w: nat)
    requires limit > 0 && w < |After(NewHost(limit), inputs).writes|
    ensures var h := After(NewHost(limit), inputs);
            var wr, parts := h.writes[w], SlicesOf(h.slices, w);
            var n := |wr.payload|;
            && |parts| <= n && wr.limits != [] && wr.limits[0] > 0
            && (wr.offset >= n ==>
                  && (Tiles(parts, n) <==> LimitHeld(wr.limits, n))
                  && (LimitHeld(wr.limits, n) ==> |parts| == CeilDiv(n, wr.limits[0]))
                  && (LimitHeld(wr.limits, n) ==>
                        forall r :: r in parts ==> r.lo < r.hi <= n && r.hi - r.lo <= wr.limits[0]))
  {
    hide After, SlicesOf, Tiles, LimitHeld, Cuts, CeilDiv, BodiesInv, FirstsInv;
    var h := After(NewHost(limit), inputs);
    WritesAreRecorded(limit, inputs, 0);
    var wr := h.writes[w];
    var n := |wr.payload|;
    assert Recorded(wr, SlicesOf(h.slices, w));
    assert AllPositive(wr.limits);
    FewCuts(wr.limits, n);
    if wr.offset >= n {
      OverIsFinished(h, w);
      TilesIffLimitHeld(wr.limits, n);
      if LimitHeld(wr.limits, n) {
        HeldSlices(wr.limits, n);
        assert CeilDiv(0, wr.limits[0]) == 0 by { NoSteps(wr.limits[0]); }
      }
    }
  }

  lemma NoSteps(d: nat)
    requires d > 0
    ensures CeilDiv(0, d) == 0
  {
    CeilDivIsLeast(0, d, 0);
  }

  lemma FewCuts(limits: seq<nat>, n: nat)
    requires Cutting(limits, n) && AllPositive(limits)
    ensures |Cuts(limits, n)| <= n
  {
    var last := |Cuts(limits, n)| - 1;
    if last >= 0 {
      ReachAtLeast(limits, last);
    }
  }

  // ----- And its bytes --------------------------------------------------------------------

  function ByteAt(writes: seq<Writing>, p: Place): byte {
    if p.write < |writes| && p.at < |writes[p.write].payload| then writes[p.write].payload[p.at] else 0
  }

  function BytesAt(writes: seq<Writing>, places: seq<Place>): (r: bytes)
    ensures |r| == |places|
    ensures forall i :: 0 <= i < |r| ==> r[i] == ByteAt(writes, places[i])
  {
    seq(|places|, i requires 0 <= i < |places| => ByteAt(writes, places[i]))
  }

  /** The payloads of the writes to stream `id` among the first `n`, in the order they began. */
  function PayloadsTo(writes: seq<Writing>, id: int, n: nat): seq<bytes>
    requires n <= |writes|
  {
    if n == 0 then []
    else PayloadsTo(writes, id, n - 1) + (if writes[n - 1].stream.localId == id then [writes[n - 1].payload] else [])
  }

  lemma BytesOfSpan(writes: seq<Writing>, w: nat, lo: nat, hi: nat)
    requires w < |writes| && lo <= hi <= |writes[w].payload|
    ensures BytesAt(writes, Span(w, lo, hi)) == writes[w].payload[lo..hi]
  {
  }

  lemma BytesJoin(writes: seq<Writing>, a: seq<Place>, b: seq<Place>)
    ensures BytesAt(writes, a + b) == BytesAt(writes, a) + BytesAt(writes, b)
  {
    hide ByteAt;
  }

  lemma {:induction false} CarriedBytes(writes: seq<Writing>, slices: seq<Slice>, id: int)
    ensures Flatten(SliceBodies(writes, slices, id)) == BytesAt(writes, Carried(writes, slices, id))
  {
    hide BytesAt, Flatten;
    if slices == [] {
      NoBytes(writes);
    } else {
      var front, s := slices[..|slices| - 1], slices[|slices| - 1];
      CarriedBytes(writes, front, id);
      if On(writes, s, id) {
        var piece := writes[s.write].payload[s.lo..s.hi];
        FlattenAppend(SliceBodies(writes, front, id), [piece]);
        FlattenOne(piece);
        BytesJoin(writes, Carried(writes, front, id), Span(s.write, s.lo, s.hi));
        BytesOfSpan(writes, s.write, s.lo, s.hi);
      } else {
        assert SliceBodies(writes, slices, id) == SliceBodies(writes, front, id);
        assert Carried(writes, slices, id) == Carried(writes, front, id);
      }
    }
  }

  lemma NoBytes(writes: seq<Writing>)
    ensures BytesAt(writes, []) == [] && Flatten<byte>([]) == []
  {
  }

  lemma {:induction false} DueBytes(writes: seq<Writing>, id: int, n: nat)
    requires n <= |writes|
    ensures BytesAt(writes, Due(writes, id, n)) == Flatten(PayloadsTo(writes, id, n))
  {
    hide BytesAt, Flatten;
    if n == 0 {
      NoBytes(writes);
    } else {
      DueBytes(writes, id, n - 1);
      if writes[n - 1].stream.localId == id {
        var payload := writes[n - 1].payload;
        FlattenAppend(PayloadsTo(writes, id, n - 1), [payload]);
        FlattenOne(payload);
        BytesJoin(writes, Due(writes, id, n - 1), Span(n - 1, 0, |payload|));
        BytesOfSpan(writes, n - 1, 0, |payload|);
        assert payload[0..|payload|] == payload;
      } else {
        assert Due(writes, id, n) == Due(writes, id, n - 1);
        assert PayloadsTo(writes, id, n) == PayloadsTo(writes, id, n - 1);
      }
    }
  }

  /** Then the bodies of the WRTEs sent for it concatenate to the payloads written to it. */
  lemma SerialCarriesPayloads(limit: nat, inputs: seq<Input>, id: int)
    requires limit > 0 && AllOver(After(NewHost(limit), inputs), id)
    requires var h := After(NewHost(limit), inputs); Serial(h.writes, h.slices, id) && LimitsHeld(h, id)
    ensures var h := After(NewHost(limit), inputs);
            Flatten(BodiesFrom(h.sent, id)) == Flatten(PayloadsTo(h.writes, id, |h.writes|))
  {
    hide After, WritesInv, FirstsInv, PositiveInv, Carried, Due, Serial, LimitsHeld, SliceBodies, BodiesFrom, BytesAt, Flatten;
    var h := After(NewHost(limit), inputs);
    WritesAreRecorded(limit, inputs, id);
    InOrderIffSerial(limit, inputs, id);
    CarriedBytes(h.writes, h.slices, id);
    DueBytes(h.writes, id, |h.writes|);
  }
}
