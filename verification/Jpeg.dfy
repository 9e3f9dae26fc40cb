/** The marker walk that reads a JPEG's geometry without decoding it. */
module Jpeg {
  import opened Bytes

  datatype Size = Size(width: nat, height: nat)

  predicate IsJpeg(data: bytes) {
    |data| >= 2 && data[0] == 0xff && data[1] == 0xd8
  }

  /** Start-of-frame markers: C0 to CF without DHT, JPG and DAC (T.81, table B.1). */
  predicate IsSof(marker: byte) {
    0xc0 <= marker <= 0xcf && marker != 0xc4 && marker != 0xc8 && marker != 0xcc
  }

  lemma SofMarkers(marker: byte)
    ensures IsSof(marker) <==>
      marker in {0xc0, 0xc1, 0xc2, 0xc3, 0xc5, 0xc6, 0xc7, 0xc9, 0xca, 0xcb, 0xcd, 0xce, 0xcf}
  {
  }

  /** `(high << 8) | low` */
  function Word16(high: int, low: int): int {
    high * 256 + low
  }

  function SizeAt(data: bytes, offset: nat): Size
    requires offset + 9 < |data|
  {
    Size(Word16(data[offset + 7], data[offset + 8]), Word16(data[offset + 5], data[offset + 6]))
  }

  function LengthAt(data: bytes, offset: nat): nat
    requires offset + 9 < |data|
  {
    Word16(data[offset + 2], data[offset + 3])
  }

  /** The walk from `offset` on. */
  function Walk(data: bytes, offset: nat): Option<Size>
    decreases |data| - offset
  {
    if offset + 9 >= |data| then None
    else if data[offset] != 0xff then Walk(data, offset + 1)
    else if IsSof(data[offset + 1]) then Some(SizeAt(data, offset))
    else if LengthAt(data, offset) == 0 then None
    else Walk(data, offset + 2 + LengthAt(data, offset))
  }

  method ReadJpegSize(data: bytes) returns (r: Option<Size>)
    ensures r == if IsJpeg(data) then Walk(data, 2) else None
  {
    if !IsJpeg(data) {
      return None;
    }
    var offset: nat := 2;
    while offset + 9 < |data|
      invariant Walk(data, 2) == Walk(data, offset)
      decreases |data| - offset
    {
      if data[offset] != 0xff {
        offset := offset + 1;
        continue;
      }
      var marker := data[offset + 1];
      if marker >= 0xc0 && marker <= 0xcf && marker != 0xc4 && marker != 0xc8 && marker != 0xcc {
        var height := Word16(data[offset + 5], data[offset + 6]);
        var width := Word16(data[offset + 7], data[offset + 8]);
        return Some(Size(width, height));
      }
      var segmentLength := Word16(data[offset + 2], data[offset + 3]);
      if segmentLength <= 0 {
        return None;
      }
      offset := offset + 2 + segmentLength;
    }
    return None;
  }

  // ----- The files it reads -------------------------------------------------------------

  function Be16(x: nat): bytes
    requires x < 0x1_0000
  {
    [x / 256, x % 256]
  }

  /** What may stand between SOI and the frame header: stray bytes that are not
      0xff, marker segments with their length field (T.81, section B.1.1.4), and,
      since the walk accepts it, a segment whose length field says one, of which
      the walk takes the field's second byte for a stray. */
  datatype Item = Stray(value: byte) | Segment(marker: byte, body: bytes) | Runt(marker: byte)

  predicate ValidItem(i: Item) {
    match i
    case Stray(value) => value != 0xff
    case Segment(marker, body) => !IsSof(marker) && |body| + 2 < 0x1_0000
    case Runt(marker) => !IsSof(marker)
  }

  predicate AllValid(items: seq<Item>) {
    forall i :: 0 <= i < |items| ==> ValidItem(items[i])
  }

  function ItemBytes(i: Item): bytes
    requires ValidItem(i)
  {
    match i
    case Stray(value) => [value]
    case Segment(marker, body) => [0xff, marker] + Be16(|body| + 2) + body
    case Runt(marker) => [0xff, marker, 0, 1]
  }

  function ItemsBytes(items: seq<Item>): bytes
    requires AllValid(items)
    decreases |items|
  {
    if items == [] then [] else ItemBytes(items[0]) + ItemsBytes(items[1..])
  }

  const SOI: bytes := [0xff, 0xd8]

  /** A frame header (T.81, section B.2.2): marker, length, precision, Y, X, and
      the component count with its parameters. */
  function FrameHeader(marker: byte, length: nat, precision: byte, size: Size, components: bytes): bytes
    requires length < 0x1_0000 && size.width < 0x1_0000 && size.height < 0x1_0000
  {
    [0xff, marker] + Be16(length) + [precision] + Be16(size.height) + Be16(size.width) + components
  }

  lemma Be16RoundTrip(x: nat)
    requires x < 0x1_0000
    ensures Word16(Be16(x)[0], Be16(x)[1]) == x
  {
  }

  lemma HeaderShape(marker: byte, length: nat, precision: byte, size: Size, components: bytes)
    requires length < 0x1_0000 && size.width < 0x1_0000 && size.height < 0x1_0000
    ensures var header := FrameHeader(marker, length, precision, size, components);
      |header| == 9 + |components| && header[0] == 0xff && header[1] == marker && header[2] == length / 256
  {
  }

  lemma WalkSkips(data: bytes, offset: nat, i: Item, rest: bytes)
    requires ValidItem(i) && offset <= |data| && data[offset..] == ItemBytes(i) + rest && |rest| > 9
    ensures Walk(data, offset) == Walk(data, offset + |ItemBytes(i)|)
  {
    var tail := data[offset..];
    assert data[offset] == tail[0];
    match i
    case Stray(value) =>
    case Segment(marker, body) =>
      assert data[offset + 1] == tail[1] && data[offset + 2] == tail[2] && data[offset + 3] == tail[3];
      Be16RoundTrip(|body| + 2);
      assert LengthAt(data, offset) == |body| + 2;
    case Runt(marker) =>
      assert data[offset + 1] == tail[1] && data[offset + 2] == tail[2] && data[offset + 3] == tail[3];
      assert Walk(data, offset) == Walk(data, offset + 3) == Walk(data, offset + 4);
  }

  lemma DropFront(data: bytes, offset: nat, a: bytes, b: bytes, c: bytes)
    requires offset <= |data| && data[offset..] == (a + b) + c
    ensures offset + |a| <= |data| && data[offset..] == a + (b + c) && data[offset + |a|..] == b + c
  {
    assert data[offset + |a|..] == data[offset..][|a|..];
  }

  lemma {:induction false} WalkCrosses(data: bytes, offset: nat, items: seq<Item>, tail: bytes)
    requires AllValid(items) && offset <= |data| && data[offset..] == ItemsBytes(items) + tail && |tail| > 9
    ensures offset + |ItemsBytes(items)| <= |data| && data[offset + |ItemsBytes(items)|..] == tail
    ensures Walk(data, offset) == Walk(data, offset + |ItemsBytes(items)|)
    decreases |items|
  {
    hide Walk, ItemBytes, ValidItem;
    if items != [] {
      var one, later := ItemBytes(items[0]), ItemsBytes(items[1..]);
      hide ItemsBytes;
      DropFront(data, offset, one, later, tail);
      WalkSkips(data, offset, items[0], later + tail);
      WalkCrosses(data, offset + |one|, items[1..], tail);
    }
  }

  lemma WalkReadsHeader(data: bytes, offset: nat, marker: byte, length: nat, precision: byte, size: Size, components: bytes)
    requires length < 0x1_0000 && size.width < 0x1_0000 && size.height < 0x1_0000 && |components| >= 1
    requires IsSof(marker) && offset <= |data|
    requires data[offset..] == FrameHeader(marker, length, precision, size, components)
    ensures Walk(data, offset) == Some(size)
  {
    var tail := data[offset..];
    assert data[offset] == tail[0] && data[offset + 1] == tail[1];
    assert data[offset + 5] == tail[5] && data[offset + 6] == tail[6];
    assert data[offset + 7] == tail[7] && data[offset + 8] == tail[8];
    Be16RoundTrip(size.width);
    Be16RoundTrip(size.height);
  }

  /** The walk takes `data` apart as SOI, items, and a frame header for `size`
      with at least one byte after its X field. */
  ghost predicate Describes(data: bytes, size: Size) {
    exists items: seq<Item>, marker: byte, length: nat, precision: byte, components: bytes ::
      Layout(data, items, marker, length, precision, size, components)
  }

  predicate Layout(
    data: bytes, items: seq<Item>, marker: byte, length: nat, precision: byte, size: Size, components: bytes)
  {
    && AllValid(items) && IsSof(marker) && |components| >= 1
    && length < 0x1_0000 && size.width < 0x1_0000 && size.height < 0x1_0000
    && data == SOI + (ItemsBytes(items) + FrameHeader(marker, length, precision, size, components))
  }

  /** Every such file reads as the Y and X of its frame header, whatever its
      segments contain, 0xff bytes included. */
  lemma ReadsEveryLayout(
    data: bytes, items: seq<Item>, marker: byte, length: nat, precision: byte, size: Size, components: bytes)
    requires Layout(data, items, marker, length, precision, size, components)
    ensures IsJpeg(data) && Walk(data, 2) == Some(size)
  {
    hide Walk, FrameHeader, ItemsBytes, AllValid, IsSof, IsJpeg;
    HeaderShape(marker, length, precision, size, components);
    var header := FrameHeader(marker, length, precision, size, components);
    AfterSoi(ItemsBytes(items) + header);
    WalkCrosses(data, 2, items, header);
    WalkReadsHeader(data, 2 + |ItemsBytes(items)|, marker, length, precision, size, components);
  }

  lemma AfterSoi(rest: bytes)
    ensures IsJpeg(SOI + rest) && (SOI + rest)[2..] == rest
  {
  }

  /** Item `i` stands at `offset`, and the walk steps over it. */
  predicate StepsOver(data: bytes, offset: nat, i: Item) {
    && ValidItem(i) && offset + |ItemBytes(i)| <= |data|
    && data[offset..offset + |ItemBytes(i)|] == ItemBytes(i)
    && Walk(data, offset) == Walk(data, offset + |ItemBytes(i)|)
  }

  /** The item the walk steps over at `offset`. */
  lemma StepItem(data: bytes, offset: nat) returns (i: Item)
    requires Walk(data, offset).Some? && !(data[offset] == 0xff && IsSof(data[offset + 1]))
    ensures StepsOver(data, offset, i)
  {
    assert offset + 9 < |data|;
    hide StepsOver;
    if data[offset] != 0xff {
      i := Stray(data[offset]);
      StepStray(data, offset);
    } else if LengthAt(data, offset) == 1 {
      i := Runt(data[offset + 1]);
      StepRunt(data, offset);
    } else {
      i := Segment(data[offset + 1], SegmentBody(data, offset));
      StepSegment(data, offset);
    }
  }

  lemma StepStray(data: bytes, offset: nat)
    requires offset + 9 < |data| && data[offset] != 0xff
    ensures StepsOver(data, offset, Stray(data[offset]))
  {
  }

  lemma StepRunt(data: bytes, offset: nat)
    requires Walk(data, offset).Some? && offset + 9 < |data|
    requires data[offset] == 0xff && !IsSof(data[offset + 1]) && LengthAt(data, offset) == 1
    ensures StepsOver(data, offset, Runt(data[offset + 1]))
  {
    assert Walk(data, offset) == Walk(data, offset + 3);
    assert Walk(data, offset + 3) == Walk(data, offset + 4);
    hide Walk;
    assert data[offset..offset + 4] == [data[offset], data[offset + 1], data[offset + 2], data[offset + 3]];
  }

  function SegmentBody(data: bytes, offset: nat): bytes
    requires offset + 9 < |data|
  {
    var end := offset + 2 + LengthAt(data, offset);
    if offset + 4 <= end <= |data| then data[offset + 4..end] else []
  }

  lemma StepSegment(data: bytes, offset: nat)
    requires Walk(data, offset).Some? && offset + 9 < |data|
    requires data[offset] == 0xff && !IsSof(data[offset + 1]) && LengthAt(data, offset) != 1
    ensures StepsOver(data, offset, Segment(data[offset + 1], SegmentBody(data, offset)))
  {
    SegmentIsStepped(data, offset);
    hide Walk;
    SegmentBytes(data, offset);
  }

  lemma SegmentIsStepped(data: bytes, offset: nat)
    requires Walk(data, offset).Some? && offset + 9 < |data|
    requires data[offset] == 0xff && !IsSof(data[offset + 1]) && LengthAt(data, offset) != 1
    ensures var end := offset + 2 + LengthAt(data, offset);
            offset + 4 <= end && end <= |data| && Walk(data, offset) == Walk(data, end)
  {
  }

  lemma SegmentBytes(data: bytes, offset: nat)
    requires offset + 9 < |data| && data[offset] == 0xff
    requires offset + 4 <= offset + 2 + LengthAt(data, offset) <= |data|
    ensures var body := SegmentBody(data, offset);
            && |body| + 2 == LengthAt(data, offset) < 0x1_0000
            && data[offset..offset + 2 + LengthAt(data, offset)] == [0xff, data[offset + 1]] + Be16(|body| + 2) + body
  {
    var end := offset + 2 + LengthAt(data, offset);
    var body := SegmentBody(data, offset);
    assert Be16(LengthAt(data, offset)) == [data[offset + 2], data[offset + 3]];
    assert |body| + 2 == LengthAt(data, offset);
    hide Be16, LengthAt;
    assert data[offset..end] == data[offset..offset + 4] + data[offset + 4..end];
    assert data[offset..offset + 4] == [data[offset], data[offset + 1]] + [data[offset + 2], data[offset + 3]];
  }

  lemma WalkStops(data: bytes, offset: nat)
    requires Walk(data, offset).Some?
    ensures offset + 9 < |data|
    ensures data[offset] == 0xff && IsSof(data[offset + 1]) ==> Walk(data, offset) == Some(SizeAt(data, offset))
  {
  }

  lemma ItemsCons(i: Item, later: seq<Item>)
    requires ValidItem(i) && AllValid(later)
    ensures AllValid([i] + later) && ItemsBytes([i] + later) == ItemBytes(i) + ItemsBytes(later)
    ensures |ItemBytes(i)| > 0
  {
    assert ([i] + later)[1..] == later;
  }

  lemma {:induction false} Decompose(data: bytes, offset: nat) returns (items: seq<Item>, at: nat)
    requires Walk(data, offset).Some?
    ensures AllValid(items) && at == offset + |ItemsBytes(items)| && at + 9 < |data|
    ensures data[offset..at] == ItemsBytes(items)
    ensures data[at] == 0xff && IsSof(data[at + 1]) && Walk(data, offset) == Some(SizeAt(data, at))
    decreases |data| - offset
  {
    hide Walk, ItemBytes, ValidItem, IsSof, SizeAt;
    WalkStops(data, offset);
    if data[offset] == 0xff && IsSof(data[offset + 1]) {
      items, at := [], offset;
    } else {
      var i := StepItem(data, offset);
      assert StepsOver(data, offset, i);
      ItemsCons(i, []);
      var next := offset + |ItemBytes(i)|;
      var later;
      later, at := Decompose(data, next);
      ItemsCons(i, later);
      items := [i] + later;
      hide ItemsBytes;
      assert data[offset..at] == data[offset..next] + data[next..at];
    }
  }

  lemma HeaderAt(data: bytes, at: nat)
    requires at + 9 < |data| && data[at] == 0xff
    ensures data[at..] == FrameHeader(data[at + 1], LengthAt(data, at), data[at + 4], SizeAt(data, at), data[at + 9..])
    ensures LengthAt(data, at) < 0x1_0000
    ensures SizeAt(data, at).width < 0x1_0000 && SizeAt(data, at).height < 0x1_0000
  {
    var s := SizeAt(data, at);
    assert Be16(s.height) == [data[at + 5], data[at + 6]];
    assert Be16(s.width) == [data[at + 7], data[at + 8]];
    assert Be16(LengthAt(data, at)) == [data[at + 2], data[at + 3]];
  }

  lemma Rejoin(data: bytes, at: nat)
    requires IsJpeg(data) && 2 <= at <= |data|
    ensures data == SOI + (data[2..at] + data[at..])
  {
  }

  lemma FindsTheLayout(data: bytes, size: Size)
    requires IsJpeg(data) && Walk(data, 2) == Some(size)
    ensures Describes(data, size)
  {
    hide Walk, FrameHeader, ItemsBytes, AllValid, IsSof, IsJpeg, SizeAt, LengthAt;
    var items, at := Decompose(data, 2);
    HeaderAt(data, at);
    Rejoin(data, at);
    assert Layout(data, items, data[at + 1], LengthAt(data, at), data[at + 4], size, data[at + 9..]);
  }

  /** The reader answers `size` for exactly the files that are laid out so. */
  lemma ReadsExactlyTheLayouts(data: bytes, size: Size)
    ensures IsJpeg(data) && Walk(data, 2) == Some(size) <==> Describes(data, size)
  {
    hide Walk, IsJpeg, Layout;
    if IsJpeg(data) && Walk(data, 2) == Some(size) {
      FindsTheLayout(data, size);
    }
    if Describes(data, size) {
      var items: seq<Item>, marker: byte, length: nat, precision: byte, components: bytes :|
        Layout(data, items, marker, length, precision, size, components);
      ReadsEveryLayout(data, items, marker, length, precision, size, components);
    }
  }

  /** T.81 (section B.1.1.2) lets any marker be preceded by 0xff fill bytes. The
      walk does not know them: one before the frame header makes it read the marker
      and the first length byte as a segment length, and go on that far behind. */
  lemma FillByteMisleads(
    items: seq<Item>, marker: byte, length: nat, precision: byte, size: Size, components: bytes, rest: bytes)
    requires AllValid(items) && IsSof(marker) && |components| >= 1
    requires length < 0x1_0000 && size.width < 0x1_0000 && size.height < 0x1_0000
    ensures var at := 2 + |ItemsBytes(items)|;
            var tail := [0xff] + FrameHeader(marker, length, precision, size, components) + rest;
            var data := SOI + (ItemsBytes(items) + tail);
            && at <= |data| && data[at..] == tail
            && Walk(data, 2) == Walk(data, at + 2 + Word16(marker, length / 256))
  {
    hide Walk, FrameHeader, ItemsBytes, AllValid, IsJpeg;
    HeaderShape(marker, length, precision, size, components);
    var tail := [0xff] + FrameHeader(marker, length, precision, size, components) + rest;
    var data := SOI + (ItemsBytes(items) + tail);
    AfterSoi(ItemsBytes(items) + tail);
    WalkCrosses(data, 2, items, tail);
    FillJumps(data, 2 + |ItemsBytes(items)|, tail);
  }

  /** The walk standing at a fill byte before a frame header. */
  lemma FillJumps(data: bytes, at: nat, tail: bytes)
    requires at <= |data| && data[at..] == tail && |tail| > 9
    requires tail[0] == 0xff && tail[1] == 0xff && tail[2] >= 0xc0
    ensures Walk(data, at) == Walk(data, at + 2 + Word16(tail[2], tail[3]))
  {
    assert data[at] == tail[0] && data[at + 1] == tail[1] && data[at + 2] == tail[2] && data[at + 3] == tail[3];
  }

  lemma WalkPastEnd(data: bytes, offset: nat)
    requires offset + 9 >= |data|
    ensures Walk(data, offset) == None
  {
  }

  /** In a file with no more than 0xc000 bytes from the frame header on it then
      finds no geometry at all. */
  lemma FillByteHidesFrame(
    items: seq<Item>, marker: byte, length: nat, precision: byte, size: Size, components: bytes)
    requires AllValid(items) && IsSof(marker) && |components| >= 1
    requires length < 0x1_0000 && size.width < 0x1_0000 && size.height < 0x1_0000
    requires |FrameHeader(marker, length, precision, size, components)| <= 0xc000
    ensures Walk(SOI + (ItemsBytes(items) + ([0xff] + FrameHeader(marker, length, precision, size, components))), 2) == None
  {
    hide Walk, FrameHeader, ItemsBytes, AllValid, IsJpeg;
    var header := FrameHeader(marker, length, precision, size, components);
    FillByteMisleads(items, marker, length, precision, size, components, []);
    assert [0xff] + header + [] == [0xff] + header;
    var data := SOI + (ItemsBytes(items) + ([0xff] + header));
    WalkPastEnd(data, 2 + |ItemsBytes(items)| + 2 + Word16(marker, length / 256));
  }

  /** In a longer one it reads whatever stands where it lands: if that looks like a
      frame header, its size, however the real one differs. Here `filler` reaches
      from the real header to there. */
  lemma FillByteReadsOtherSize(
    items: seq<Item>, marker: byte, length: nat, precision: byte, size: Size, components: bytes,
    filler: bytes, marker2: byte, length2: nat, size2: Size, components2: bytes)
    requires AllValid(items) && IsSof(marker) && |components| >= 1 && IsSof(marker2) && |components2| >= 1
    requires length < 0x1_0000 && size.width < 0x1_0000 && size.height < 0x1_0000
    requires length2 < 0x1_0000 && size2.width < 0x1_0000 && size2.height < 0x1_0000
    requires 10 + |components| + |filler| == 2 + Word16(marker, length / 256)
    ensures var tail := [0xff] + FrameHeader(marker, length, precision, size, components)
              + (filler + FrameHeader(marker2, length2, precision, size2, components2));
            Walk(SOI + (ItemsBytes(items) + tail), 2) == Some(size2)
  {
    hide Walk, FrameHeader, ItemsBytes, AllValid, IsJpeg;
    var header, other := FrameHeader(marker, length, precision, size, components), FrameHeader(marker2, length2, precision, size2, components2);
    HeaderShape(marker, length, precision, size, components);
    FillByteMisleads(items, marker, length, precision, size, components, filler + other);
    var tail := [0xff] + header + (filler + other);
    var data := SOI + (ItemsBytes(items) + tail);
    var at := 2 + |ItemsBytes(items)|;
    assert tail == ([0xff] + header + filler) + other;
    LandsAt(data, at, [0xff] + header + filler, other);
    WalkReadsHeader(data, at + 2 + Word16(marker, length / 256), marker2, length2, precision, size2, components2);
  }

  lemma LandsAt(data: bytes, at: nat, front: bytes, back: bytes)
    requires at <= |data| && data[at..] == front + back
    ensures at + |front| <= |data| && data[at + |front|..] == back
  {
    assert data[at + |front|..] == data[at..][|front|..];
  }
}
