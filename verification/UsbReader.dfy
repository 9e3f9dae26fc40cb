/** The bulk-IN read loop: header, then declared payload, over an endpoint that may
    return short or empty reads, report itself idle, stall, fail or vanish. */
module UsbReader {
  import opened Bytes
  import opened AdbMessages

  const MAX_REASONABLE_PAYLOAD := 1024 * 1024

  /** How one transfer ends. An empty read is `Data([])`; `cleared` says whether
      clearing the halt after a stall succeeds. */
  datatype Outcome = Data(data: bytes) | Idle | Stall(cleared: bool) | Disconnect | Failure

  /** `closing`: the transport is closed while the transfer is under way. */
  datatype Transfer = Transfer(outcome: Outcome, closing: bool)

  datatype Why = Closed | Disconnected | OutOfRange | StallBudgetSpent | HaltNotCleared | Failed
  datatype Phase = ReadingHeader | ReadingPayload(header: bytes, length: nat)

  /** The loop between transfers: what is being read, the bytes of it so far, the
      stalls since the last header, the chunks delivered, and all bytes taken. */
  datatype Reader = Reader(
    phase: Phase, got: bytes, stalls: nat, reading: bool, delivered: seq<bytes>, taken: bytes, stopped: Option<Why>)

  const START := Reader(ReadingHeader, [], 0, true, [], [], None)

  function Need(p: Phase): nat {
    if p.ReadingHeader? then ADB_HEADER_SIZE else p.length
  }

  function Stop(r: Reader, why: Why): Reader {
    r.(phase := ReadingHeader, got := [], stopped := Some(why))
  }

  function LoopHead(r: Reader): Reader {
    if r.reading then r.(phase := ReadingHeader, got := []) else Stop(r, Closed)
  }

  function Deliver(r: Reader, chunk: bytes): Reader {
    r.(delivered := r.delivered + [chunk])
  }

  /** `readExactly` returned null: an idle endpoint at a header, a bare header at a payload. */
  function NullRead(r: Reader): Reader {
    match r.phase
    case ReadingHeader => LoopHead(r)
    case ReadingPayload(header, _) => LoopHead(Deliver(r, header))
  }

  function HeaderRead(r: Reader, header: bytes): Reader
    requires |header| == ADB_HEADER_SIZE
  {
    var length := FromLe32(header, 12);
    var ready := r.(stalls := 0, got := []);
    if length == 0 then LoopHead(Deliver(ready, header))
    else if length > MAX_REASONABLE_PAYLOAD then Stop(ready, OutOfRange)
    else
      var next := ready.(phase := ReadingPayload(header, length));
      if next.reading then next else NullRead(next)
  }

  /** `readExactly` returned all it was asked for. */
  function FullRead(r: Reader, out: bytes): Reader
    requires |out| == Need(r.phase)
  {
    match r.phase
    case ReadingHeader => HeaderRead(r, out)
    case ReadingPayload(header, _) => LoopHead(Deliver(r, header + out))
  }

  /** A transfer raised an error. */
  function Raised(limit: int, r: Reader, error: Outcome): Reader {
    if !r.reading then Stop(r, Closed)
    else match error
      case Disconnect => Stop(r, Disconnected)
      case Stall(cleared) =>
        var counted := r.(stalls := r.stalls + 1);
        if counted.stalls > limit then Stop(counted, StallBudgetSpent)
        else if !cleared then Stop(counted, HaltNotCleared)
        else LoopHead(counted)
      case _ => Stop(r, Failed)
  }

  /** Nothing arrived: only a read that has begun waits on. */
  function NothingArrived(r: Reader): Reader {
    if r.got == [] || !r.reading then NullRead(r) else r
  }

  function DataArrived(limit: int, r: Reader, data: bytes): Reader {
    var taken := r.(taken := r.taken + data);
    if |r.got| + |data| > Need(r.phase) then Raised(limit, taken, Failure)
    else
      var filled := taken.(got := r.got + data);
      if |filled.got| == Need(r.phase) then FullRead(filled, filled.got)
      else if filled.reading then filled
      else NullRead(filled)
  }

  /** One transfer: the specification the two loops are proved against. */
  function Step(limit: int, r: Reader, t: Transfer): Reader {
    if r.stopped.Some? then r
    else
      var now := r.(reading := r.reading && !t.closing);
      match t.outcome
      case Data(data) => if data == [] then NothingArrived(now) else DataArrived(limit, now, data)
      case Idle => NothingArrived(now)
      case error => Raised(limit, now, error)
  }

  function After(limit: int, r: Reader, ts: seq<Transfer>): Reader
    decreases |ts|
  {
    if ts == [] then r else After(limit, Step(limit, r, ts[0]), ts[1..])
  }

  lemma NullReadDrops(r: Reader)
    ensures NullRead(r) == NullRead(r.(got := []))
  {
  }

  lemma RaisedDrops(limit: int, r: Reader, error: Outcome)
    ensures Raised(limit, r, error) == Raised(limit, r.(got := []), error)
  {
  }

  lemma RaisedForgetsPhase(limit: int, r: Reader, error: Outcome)
    requires r.stopped.None?
    ensures Raised(limit, r, error) == Raised(limit, r.(phase := ReadingHeader, got := []), error)
  {
  }

  lemma {:induction false} StoppedStaysStopped(limit: int, r: Reader, ts: seq<Transfer>)
    requires r.stopped.Some?
    ensures After(limit, r, ts) == r
    decreases |ts|
  {
    if ts != [] {
      StoppedStaysStopped(limit, r, ts[1..]);
    }
  }

  datatype ReadResult = Got(out: bytes) | Nothing | Threw(error: Outcome) | Waiting(partial: bytes)

  class UsbLoop {
    const limit: int
    /** The outcomes the endpoint still has to give. */
    var script: seq<Transfer>
    var reading: bool
    var delivered: seq<bytes>
    var stopped: Option<Why>
    ghost var taken: bytes

    constructor (limit: int, script: seq<Transfer>)
      ensures this.limit == limit && this.script == script && stopped.None?
      ensures reading && delivered == [] && taken == []
    {
      this.limit, this.script := limit, script;
      reading, delivered, stopped, taken := true, [], None, [];
    }

    ghost function At(phase: Phase, got: bytes, stalls: nat): Reader
      reads this
    {
      Reader(phase, got, stalls, reading, delivered, taken, stopped)
    }

    /** Reads `length` bytes unless the endpoint is idle before the first of them. */
    method ReadExactly(length: nat, ghost phase: Phase, ghost stalls: nat) returns (r: ReadResult)
      requires length > 0 && Need(phase) == length && stopped.None?
      modifies this`script, this`reading, this`taken
      ensures !old(reading) ==> r.Nothing? && !reading && script == old(script) && taken == old(taken)
      ensures r.Got? ==> |r.out| == length
      ensures r.Waiting? ==> script == [] && old(reading)
      ensures old(reading) && !r.Waiting? ==> |script| < |old(script)|
      ensures old(reading) ==>
        After(limit, old(At(phase, [], stalls)), old(script)) ==
          match r
          case Got(out) => After(limit, FullRead(At(phase, out, stalls), out), script)
          case Nothing => After(limit, NullRead(At(phase, [], stalls)), script)
          case Threw(error) => After(limit, Raised(limit, At(phase, [], stalls), error), script)
          case Waiting(partial) => At(phase, partial, stalls)
    {
      var out: bytes := [];
      while |out| < length && reading
        invariant |out| <= length
        invariant |script| <= |old(script)|
        invariant out != [] || reading != old(reading) ==> |script| < |old(script)| && old(reading)
        invariant !old(reading) ==> !reading && script == old(script) && taken == old(taken) && out == []
        invariant old(reading) ==>
          After(limit, old(At(phase, [], stalls)), old(script)) ==
            (if |out| == length then After(limit, FullRead(At(phase, out, stalls), out), script)
             else if reading then After(limit, At(phase, out, stalls), script)
             else After(limit, NullRead(At(phase, [], stalls)), script))
        decreases |script|
      {
        if script == [] {
          return Waiting(out);
        }
        ghost var before := At(phase, out, stalls);
        var t := script[0];
        script := script[1..];
        reading := reading && !t.closing;
        NullReadDrops(before.(reading := reading));
        match t.outcome
        case Data(data) =>
          if data == [] {
            if |out| == 0 {
              return Nothing;
            }
          } else {
            taken := taken + data;
            if |out| + |data| > length {
              RaisedDrops(limit, At(phase, out, stalls), Failure);
              return Threw(Failure);
            }
            out := out + data;
            NullReadDrops(At(phase, out, stalls));
          }
        case Idle =>
          if |out| == 0 {
            return Nothing;
          }
        case error =>
          RaisedDrops(limit, At(phase, out, stalls), error);
          return Threw(error);
      }
      if |out| == length {
        return Got(out);
      }
      return Nothing;
    }

    /** The loop's `catch`: whether to go on, and the stalls now counted. */
    method Recover(error: Outcome, stalls: nat) returns (go: bool, counted: nat)
      requires stopped.None?
      modifies this`stopped
      ensures if go then reading && stopped.None? else stopped.Some?
      ensures Raised(limit, old(At(ReadingHeader, [], stalls)), error) == At(ReadingHeader, [], counted)
    {
      go, counted := false, stalls;
      if !reading {
        stopped := Some(Closed);
        return;
      }
      match error
      case Disconnect => stopped := Some(Disconnected);
      case Stall(cleared) =>
        counted := stalls + 1;
        if counted > limit {
          stopped := Some(StallBudgetSpent);
        } else if !cleared {
          stopped := Some(HaltNotCleared);
        } else {
          go := true;
        }
      case _ => stopped := Some(Failed);
    }

    /** Runs until it stops or the endpoint has no more outcomes to give; `end`
        is where it then stands. */
    method ReadLoop() returns (ghost end: Reader)
      requires reading && stopped.None?
      modifies this
      ensures end == After(limit, old(At(ReadingHeader, [], 0)), old(script))
      ensures end.delivered == delivered && end.stopped == stopped && end.reading == reading && end.taken == taken
    {
      var stalls: nat := 0;
      ghost var goal := After(limit, At(ReadingHeader, [], 0), script);
      while reading
        invariant stopped.None?
        invariant goal == After(limit, LoopHead(At(ReadingHeader, [], stalls)), script)
        decreases |script|
      {
        var go: bool;
        go, stalls, end := Turn(stalls, goal);
        if !go {
          return;
        }
      }
      stopped := Some(Closed);
      end := At(ReadingHeader, [], stalls);
      StoppedStaysStopped(limit, end, script);
    }

    /** One turn of the loop. */
    method Turn(stalls: nat, ghost goal: Reader) returns (go: bool, counted: nat, ghost end: Reader)
      requires reading && stopped.None?
      requires goal == After(limit, At(ReadingHeader, [], stalls), script)
      modifies this
      ensures go ==> stopped.None? && |script| < |old(script)|
      ensures go ==> goal == After(limit, LoopHead(At(ReadingHeader, [], counted)), script)
      ensures !go ==> goal == end && end.delivered == delivered && end.stopped == stopped && end.reading == reading && end.taken == taken
    {
      counted := stalls;
      end := START;
      var h := ReadExactly(ADB_HEADER_SIZE, ReadingHeader, stalls);
      match h
      case Waiting(partial) =>
        go, end := false, At(ReadingHeader, partial, stalls);
      case Nothing =>
        go := true;
      case Threw(error) =>
        go, counted := Recover(error, stalls);
        end := At(ReadingHeader, [], counted);
        if !go {
          StoppedStaysStopped(limit, end, script);
        }
      case Got(header) =>
        go, counted, end := AfterHeader(header, stalls, goal);
    }

    method AfterHeader(header: bytes, ghost stalls: nat, ghost goal: Reader) returns (go: bool, counted: nat, ghost end: Reader)
      requires stopped.None? && |header| == ADB_HEADER_SIZE
      requires goal == After(limit, HeaderRead(At(ReadingHeader, header, stalls), header), script)
      modifies this
      ensures go ==> stopped.None? && |script| <= |old(script)|
      ensures go ==> goal == After(limit, LoopHead(At(ReadingHeader, [], counted)), script)
      ensures !go ==> goal == end && end.delivered == delivered && end.stopped == stopped && end.reading == reading && end.taken == taken
    {
      counted := 0;
      end := START;
      var length := FromLe32(header, 12);
      if length == 0 {
        delivered := delivered + [header];
        go := true;
      } else if length > MAX_REASONABLE_PAYLOAD {
        stopped := Some(OutOfRange);
        go, end := false, At(ReadingHeader, [], 0);
        StoppedStaysStopped(limit, end, script);
      } else {
        ghost var phase := ReadingPayload(header, length);
        var p := ReadExactly(length, phase, 0);
        match p
        case Waiting(partial) =>
          go, end := false, At(phase, partial, 0);
        case Threw(error) =>
          RaisedForgetsPhase(limit, At(phase, [], 0), error);
          go, counted := Recover(error, 0);
          end := At(ReadingHeader, [], counted);
          if !go {
            StoppedStaysStopped(limit, end, script);
          }
        case Nothing =>
          delivered := delivered + [header];
          go := true;
        case Got(payload) =>
          delivered := delivered + [header + payload];
          go := true;
      }
    }
  }
}
