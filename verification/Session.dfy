/** Fault semantics of printer frames. */
module Status {
  import opened Bytes
  import opened Frames

  datatype StatusKind = Okay | Progressing | JobState | Faulty | Disconnected | Unknown

  datatype PrinterStatus = PrinterStatus(
    kind: StatusKind, code: byte, state: byte, detail: byte,
    pageIndex: Option<byte>, totalCopies: Option<byte>, mediaType: Option<byte>)

  predicate IsFault(f: Frame) {
    match f.arg1
    case 0 => f.arg3 != 0
    case 1 => f.arg3 == 10
    case _ => false
  }

  function PayloadByte(f: Frame, at: nat): Option<byte> {
    if |f.payload| > at then Some(f.payload[at]) else None
  }

  function ParseStatus(f: Frame): (r: PrinterStatus)
    ensures r.kind.Faulty? <==> IsFault(f) || f.arg1 > 6
  {
    var kind :=
      if IsFault(f) then Faulty
      else match f.arg1
           case 0 => Okay
           case 1 => JobState
           case 2 => Progressing
           case 3 => Disconnected
           case 4 => Unknown
           case 5 => Unknown
           case 6 => Unknown
           case _ => Faulty;
    PrinterStatus(kind, f.arg1, f.arg2, f.arg3, PayloadByte(f, 2), PayloadByte(f, 3), PayloadByte(f, 6))
  }

  /** Which frames are faults, and what a status says of a frame: the kind for each first
      argument, the three arguments as they are, and the third, fourth and seventh byte of
      the payload where there is one. */
  lemma StatusOfEveryFrame(f: Frame)
    ensures IsFault(f) <==> (f.arg1 == 0 && f.arg3 != 0) || (f.arg1 == 1 && f.arg3 == 10)
    ensures var r := ParseStatus(f);
            && (r.kind.Okay? <==> f.arg1 == 0 && f.arg3 == 0)
            && (r.kind.JobState? <==> f.arg1 == 1 && f.arg3 != 10)
            && (r.kind.Progressing? <==> f.arg1 == 2)
            && (r.kind.Disconnected? <==> f.arg1 == 3)
            && (r.kind.Unknown? <==> f.arg1 in {4, 5, 6})
            && r.code == f.arg1 && r.state == f.arg2 && r.detail == f.arg3
            && r.pageIndex == (if |f.payload| >= 3 then Some(f.payload[2]) else None)
            && r.totalCopies == (if |f.payload| >= 4 then Some(f.payload[3]) else None)
            && r.mediaType == (if |f.payload| >= 7 then Some(f.payload[6]) else None)
  {
  }
}

/** The print state machine: the printer asks, the session answers. */
module Session {
  import opened Bytes
  import opened Incremental
  import opened Frames
  import opened Status

  // Commands, host to printer.
  const END_JOB: byte := 0x01
  const SESSION_START: byte := 0x02
  const PRINT_START_LEGACY: byte := 0x05
  const ACK: byte := 0x07
  const DATA_LEGACY: byte := 0x09
  const PRINT_START: byte := 0x10
  const DATA: byte := 0x12
  const FILE_LIST: byte := 0x51
  const FILE_READ: byte := 0x53
  const FILE_READ_NEXT: byte := 0x54

  // Notifications, printer to host.
  const PRINT_STATE: byte := 0x00
  const JOB_COMPLETE: byte := 0x13
  const SESSION_END: byte := 0x14
  const IDLE_A: byte := 0x40
  const IDLE_B: byte := 0x41
  const HEARTBEAT: byte := 0x64

  // The second header byte of a print-state frame.
  const REQUEST_DATA: byte := 0
  const READY: byte := 1
  const NEEDS_ACK: byte := 5
  const FINISHED: byte := 6

  const SESSION_PROTOCOL_REVISION: byte := 37
  const MODERN_PROTOCOL_LEVEL := 100

  /** `chunkCap` is `maxChunkSize`; None is its default, infinity. */
  datatype Config = Config(image: bytes, copies: int, jobId: int, protocolLevel: int, chunkCap: Option<nat>)

  datatype Failure = PrinterFault(code: byte, detail: byte)
  datatype State = State(bytesSent: nat, finished: bool, failure: Option<Failure>)
  const INITIAL := State(0, false, None)

  datatype Thrown = ByPrinter(fault: Failure) | ByCodec
  datatype Action = Send(data: bytes, final: bool) | Done | Wait | Throw(error: Thrown)
  datatype Progress = Progress(bytesSent: nat, totalBytes: nat, percent: int)

  /** Everything one inbound frame brings about: the next state, the action
      returned (or exception raised), and the callbacks made on the way. */
  datatype Effect = Effect(state: State, action: Action, status: Option<PrinterStatus>, progress: Option<Progress>)

  predicate Modern(cfg: Config) {
    cfg.protocolLevel > MODERN_PROTOCOL_LEVEL
  }

  /** Opcodes answered before the print state machine is consulted. */
  predicate Special(opcode: byte) {
    opcode in {HEARTBEAT, JOB_COMPLETE, SESSION_END, IDLE_A, IDLE_B, FILE_LIST, FILE_READ, FILE_READ_NEXT}
  }

  /** `Math.round(part / whole * 100)`, on exact rationals. */
  function Percent(part: nat, whole: nat): int
    requires whole > 0
  {
    (200 * part + whole) / (2 * whole)
  }

  function StartBytes(): bytes {
    FrameBytes(Frame(SESSION_START, 1, SESSION_PROTOCOL_REVISION, 0, []))
  }

  function EndJobBytes(): bytes {
    FrameBytes(Frame(END_JOB, 0, 0, 0, []))
  }

  function HeartbeatBytes(): bytes {
    FrameBytes(Frame(HEARTBEAT, 1, 0, 0, []))
  }

  function JobStart(cfg: Config): Frame {
    if Modern(cfg) then
      Frame(PRINT_START, LowByte(ToUint32(cfg.jobId) / 256), LowByte(cfg.jobId), 0,
            Be32(|cfg.image|) + Be32(cfg.jobId))
    else
      Frame(PRINT_START_LEGACY, LowByte(cfg.copies), 0, 0, Be32(|cfg.image|) + [0, 0, 0, 0, 0, 0, 0, 0])
  }

  /** Where a slice beginning at `offset` stops. */
  function SliceEnd(cfg: Config, offset: nat): (end: nat)
    requires offset <= |cfg.image|
    ensures offset <= end <= |cfg.image|
  {
    if cfg.chunkCap.None? then |cfg.image| else Min(offset + cfg.chunkCap.value, |cfg.image|)
  }

  function Slice(cfg: Config, offset: nat): bytes
    requires offset <= |cfg.image|
  {
    cfg.image[offset..SliceEnd(cfg, offset)]
  }

  function DataFrame(cfg: Config, f: Frame, offset: nat): Frame
    requires offset <= |cfg.image|
  {
    Frame(if Modern(cfg) then DATA else DATA_LEGACY, f.arg1, f.arg2, 0, Slice(cfg, offset))
  }

  /** The offset a data request names, or the cursor when it names none. */
  function WantedOffset(f: Frame, cursor: nat): nat {
    if |f.payload| >= 4 then FromBe32(f.payload, 0) else cursor
  }

  function DataResponse(cfg: Config, st: State, f: Frame): Effect
  {
    var offset := WantedOffset(f, st.bytesSent);
    if offset >= |cfg.image| then Effect(st, Wait, Some(ParseStatus(f)), None)
    else
      var end := SliceEnd(cfg, offset);
      var action := if end - offset >= TWO32 then Throw(ByCodec) else Send(FrameBytes(DataFrame(cfg, f, offset)), false);
      Effect(st.(bytesSent := end), action, Some(ParseStatus(f)),
             Some(Progress(end, |cfg.image|, Percent(end, |cfg.image|))))
  }

  /** The specification of `PrintSession.HandleFrame`. */
  function Handle(cfg: Config, st: State, f: Frame): Effect
  {
    if f.opcode == HEARTBEAT then Effect(st, Send(HeartbeatBytes(), false), None, None)
    else if f.opcode == JOB_COMPLETE || f.opcode == SESSION_END then Effect(st.(finished := true), Done, None, None)
    else if Special(f.opcode) then Effect(st, Wait, None, None)
    else
      var status := Some(ParseStatus(f));
      if IsFault(f) then
        var fault := PrinterFault(f.arg1, f.arg3);
        Effect(st.(failure := Some(fault)), Throw(ByPrinter(fault)), status, None)
      else if f.arg1 == READY then Effect(st, Send(FrameBytes(JobStart(cfg)), false), status, None)
      else if f.arg1 == REQUEST_DATA then DataResponse(cfg, st, f)
      else if f.arg1 == NEEDS_ACK then Effect(st, Send(FrameBytes(Frame(ACK, f.arg3, 0, 0, [])), false), status, None)
      else if f.arg1 == FINISHED then Effect(st.(finished := true), Send(EndJobBytes(), true), status, None)
      else Effect(st, Wait, status, None)
  }

  class PrintSession {
    const config: Config
    var bytesSent: nat
    var finished: bool
    var failure: Option<Failure>

    ghost predicate Valid()
      reads this
    {
      |config.image| > 0
    }

    function View(): State
      reads this
    {
      State(bytesSent, finished, failure)
    }

    constructor (config: Config)
      requires |config.image| > 0
      ensures Valid() && this.config == config && View() == INITIAL
    {
      this.config := config;
      bytesSent, finished, failure := 0, false, None;
    }

    /** The constructor call as the caller sees it: an empty image is refused. */
    static method Create(config: Config) returns (r: Result<PrintSession, ProtocolError>)
      ensures r.Err? <==> |config.image| == 0
      ensures r.Ok? ==> fresh(r.value) && r.value.Valid() && r.value.config == config && r.value.View() == INITIAL
    {
      if |config.image| == 0 {
        return Err(ProtocolError);
      }
      var s := new PrintSession(config);
      return Ok(s);
    }

    method Start() returns (data: bytes)
      ensures data == StartBytes()
    {
      var r := EncodeFrame(SESSION_START, 1, SESSION_PROTOCOL_REVISION, 0, []);
      return r.value;
    }

    method HandleFrame(f: Frame) returns (action: Action, status: Option<PrinterStatus>, progress: Option<Progress>)
      requires Valid()
      modifies this
      ensures Valid()
      ensures Effect(View(), action, status, progress) == Handle(config, old(View()), f)
    {
      status, progress := None, None;
      if f.opcode == HEARTBEAT {
        var r := EncodeFrame(HEARTBEAT, 1, 0, 0, []);
        action := Send(r.value, false);
      } else if f.opcode == JOB_COMPLETE || f.opcode == SESSION_END {
        finished := true;
        action := Done;
      } else if f.opcode in {IDLE_A, IDLE_B, FILE_LIST, FILE_READ, FILE_READ_NEXT} {
        action := Wait;
      } else {
        action, status, progress := HandlePrintState(f);
      }
    }

    method HandlePrintState(f: Frame)
      returns (action: Action, status: Option<PrinterStatus>, progress: Option<Progress>)
      requires Valid() && !Special(f.opcode)
      modifies this
      ensures Effect(View(), action, status, progress) == Handle(config, old(View()), f)
    {
      status, progress := Some(ParseStatus(f)), None;
      if IsFault(f) {
        var fault := PrinterFault(status.value.code, status.value.detail);
        failure := Some(fault);
        return Throw(ByPrinter(fault)), status, None;
      }
      if f.arg1 == READY {
        var data := BuildJobStart();
        action := Send(data, false);
      } else if f.arg1 == REQUEST_DATA {
        action, progress := BuildDataResponse(f);
      } else if f.arg1 == NEEDS_ACK {
        var r := EncodeFrame(ACK, f.arg3, 0, 0, []);
        action := Send(r.value, false);
      } else if f.arg1 == FINISHED {
        finished := true;
        var r := EncodeFrame(END_JOB, 0, 0, 0, []);
        action := Send(r.value, true);
      } else {
        action := Wait;
      }
    }

    method BuildJobStart() returns (data: bytes)
      ensures data == FrameBytes(JobStart(config))
    {
      var payload := new byte[12](_ => 0);
      WriteUint32BE(payload, 0, |config.image|);
      if Modern(config) {
        WriteUint32BE(payload, 4, config.jobId);
        assert payload[..8] == Be32(|config.image|) + Be32(config.jobId);
        var r := EncodeFrame(PRINT_START, ToUint32(config.jobId) / 256, config.jobId, 0, payload[..8]);
        return r.value;
      }
      assert payload[..] == Be32(|config.image|) + [0, 0, 0, 0, 0, 0, 0, 0];
      var r := EncodeFrame(PRINT_START_LEGACY, config.copies, 0, 0, payload[..]);
      return r.value;
    }

    method BuildDataResponse(f: Frame) returns (action: Action, progress: Option<Progress>)
      requires Valid()
      modifies this`bytesSent
      ensures Effect(View(), action, Some(ParseStatus(f)), progress) == DataResponse(config, old(View()), f)
    {
      var n := |config.image|;
      var offset := bytesSent;
      if |f.payload| >= 4 {
        offset := ReadUint32BE(f.payload, 0).value;
      }
      assert offset == WantedOffset(f, old(bytesSent));
      if offset >= n {
        return Wait, None;
      }
      var end := n;
      if config.chunkCap.Some? {
        end := Min(offset + config.chunkCap.value, n);
      }
      assert end == SliceEnd(config, offset);
      bytesSent := end;
      progress := Some(Progress(end, n, Percent(end, n)));
      action := SendSlice(f, offset, end);
    }

    method SendSlice(f: Frame, offset: nat, end: nat) returns (action: Action)
      requires offset <= |config.image| && end == SliceEnd(config, offset)
      ensures action == if end - offset >= TWO32 then Throw(ByCodec)
                        else Send(FrameBytes(DataFrame(config, f, offset)), false)
    {
      var opcode := if Modern(config) then DATA else DATA_LEGACY;
      var r := EncodeFrame(opcode, f.arg1, f.arg2, 0, config.image[offset..end]);
      action := if r.Err? then Throw(ByCodec) else Send(r.value, false);
    }
  }
}
