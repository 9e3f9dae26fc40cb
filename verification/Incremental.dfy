/**
 * Incremental decoding of a length-prefixed byte stream.
 *
 * Both wire formats are read the same way: bytes accumulate in a buffer, and a
 * one-message decoder is applied to the front of it until it reports that the
 * message is not complete. `ParseAll` is that loop on a whole byte string and
 * `Feed` is the decoder object fed a list of chunks.
 */
module Incremental {
  import opened Bytes

  datatype Decoded<+T> = Incomplete | Complete(item: T, size: nat)
  datatype Parsed<+T> = Parsed(items: seq<T>, rest: bytes)

  function ParseAll<T>(decode: bytes -> Decoded<T>, s: bytes): (r: Parsed<T>)
    decreases |s|
  {
    match decode(s)
    case Incomplete => Parsed([], s)
    case Complete(item, size) =>
      if 0 < size <= |s| then
        var tail := ParseAll(decode, s[size..]);
        Parsed([item] + tail.items, tail.rest)
      else
        Parsed([], s)
  }

  /** One decoder fed `chunks` in turn: everything it returned, and its final buffer. */
  function Feed<T>(decode: bytes -> Decoded<T>, buffer: bytes, chunks: seq<bytes>): Parsed<T>
    decreases |chunks|
  {
    if chunks == [] then Parsed([], buffer)
    else
      var first := ParseAll(decode, buffer + chunks[0]);
      var later := Feed(decode, first.rest, chunks[1..]);
      Parsed(first.items + later.items, later.rest)
  }

  /** A decoder that consumes at least `header` bytes, never more than it was
      given, and whose verdict on a complete message does not depend on what follows. */
  ghost predicate Framing<T(!new)>(decode: bytes -> Decoded<T>, header: nat) {
    && (forall s :: decode(s).Complete? ==> header <= decode(s).size <= |s|)
    && (forall s, t :: decode(s).Complete? ==> decode(s + t) == decode(s))
  }

  /** One turn of the loop. */
  lemma ParseTurn<T(!new)>(decode: bytes -> Decoded<T>, header: nat, s: bytes)
    requires Framing(decode, header) && header > 0
    ensures decode(s).Incomplete? ==> ParseAll(decode, s) == Parsed([], s)
    ensures decode(s).Complete? ==>
      && header <= decode(s).size <= |s|
      && var tail := ParseAll(decode, s[decode(s).size..]);
         ParseAll(decode, s) == Parsed([decode(s).item] + tail.items, tail.rest)
  {
  }

  /** What is left over is an unparsed tail of the input, and does not itself decode. */
  lemma {:induction false} RestIsUnparsedTail<T(!new)>(decode: bytes -> Decoded<T>, header: nat, s: bytes)
    requires Framing(decode, header) && header > 0
    ensures decode(ParseAll(decode, s).rest).Incomplete?
    ensures |ParseAll(decode, s).rest| <= |s|
    ensures ParseAll(decode, s).rest == s[|s| - |ParseAll(decode, s).rest|..]
    ensures header * |ParseAll(decode, s).items| + |ParseAll(decode, s).rest| <= |s|
    decreases |s|
  {
    hide ParseAll;
    ParseTurn(decode, header, s);
    if decode(s).Complete? {
      var size := decode(s).size;
      var tail := ParseAll(decode, s[size..]);
      RestIsUnparsedTail(decode, header, s[size..]);
      hide Framing;
      TailOfTail(s, size, tail.rest);
      OneMore(header, |tail.items|);
    } else {
      assert header * 0 == 0;
    }
  }

  lemma TailOfTail(s: bytes, size: nat, rest: bytes)
    requires size <= |s| && |rest| <= |s[size..]| && rest == s[size..][|s[size..]| - |rest|..]
    ensures rest == s[|s| - |rest|..]
  {
  }

  lemma OneMore(header: nat, n: nat)
    ensures header * (1 + n) == header + header * n
  {
  }

  lemma RestIncomplete<T>(decode: bytes -> Decoded<T>, s: bytes)
    requires decode(s).Incomplete?
    ensures ParseAll(decode, s) == Parsed([], s)
  {
  }

  /** Parsing in two instalments is parsing at once. */
  lemma {:induction false} ParseAppend<T(!new)>(decode: bytes -> Decoded<T>, header: nat, s: bytes, t: bytes)
    requires Framing(decode, header) && header > 0
    ensures var first := ParseAll(decode, s);
            var second := ParseAll(decode, first.rest + t);
            ParseAll(decode, s + t) == Parsed(first.items + second.items, second.rest)
    decreases |s|
  {
    hide ParseAll;
    ParseTurn(decode, header, s);
    if decode(s).Complete? {
      var item, size := decode(s).item, decode(s).size;
      assert decode(s + t) == decode(s);
      ParseTurn(decode, header, s + t);
      ParseAppend(decode, header, s[size..], t);
      hide Framing;
      assert (s + t)[size..] == s[size..] + t;
      var first := ParseAll(decode, s[size..]);
      var second := ParseAll(decode, first.rest + t);
      assert [item] + (first.items + second.items) == ([item] + first.items) + second.items;
    } else {
      assert [] + ParseAll(decode, s + t).items == ParseAll(decode, s + t).items;
    }
  }

  /** Chunking invariance: however the bytes were cut up, the messages returned
      and the buffer kept are those of the whole byte string. */
  lemma {:induction false} FeedIsParseAll<T(!new)>(decode: bytes -> Decoded<T>, header: nat, buffer: bytes, chunks: seq<bytes>)
    requires Framing(decode, header) && header > 0
    requires decode(buffer).Incomplete?
    ensures Feed(decode, buffer, chunks) == ParseAll(decode, buffer + Flatten(chunks))
    decreases |chunks|
  {
    hide ParseAll, Framing;
    if chunks == [] {
      assert buffer + Flatten(chunks) == buffer;
      RestIncomplete(decode, buffer);
    } else {
      var front, back := buffer + chunks[0], Flatten(chunks[1..]);
      var first := ParseAll(decode, front);
      RestIsUnparsedTail(decode, header, front);
      FeedIsParseAll(decode, header, first.rest, chunks[1..]);
      assert buffer + Flatten(chunks) == front + back;
      ParseAppend(decode, header, front, back);
    }
  }

  /** A byte string made only of whole messages, followed by anything. */
  lemma ParseWhole<T(!new)>(decode: bytes -> Decoded<T>, header: nat, one: bytes, t: bytes)
    requires Framing(decode, header) && header > 0
    requires decode(one).Complete? && decode(one).size == |one|
    ensures ParseAll(decode, one + t)
         == Parsed([decode(one).item] + ParseAll(decode, t).items, ParseAll(decode, t).rest)
  {
    assert decode(one + t) == decode(one);
    assert (one + t)[|one|..] == t;
  }
}
