/** Requests dispatched to the loader, the maps, the status queue and the program. */
module Dispatch {
  import opened Bytes
  import opened Frames
  import opened ImageFormat
  import opened LoaderAgreement
  import opened LoaderModel
  import opened MapAccess
  import opened MapLayouts
  import opened NorFlash
  import LoaderRuns
  import BpfLoaderObject

  const CMD_RESET: byte := 0x01
  const CMD_LOAD_BPF: byte := 0x02
  const CMD_START_BPF: byte := 0x03
  const CMD_READ_BPF_MAP: byte := 0x04
  const CMD_WRITE_BPF_MAP: byte := 0x05
  const CMD_READ_STATUS: byte := 0x06
  const CMD_QUERY_BPF_CRC: byte := 0x07

  /** A single-entry queue: its bytes, of which the first `len` are still unread. */
  datatype Status = Status(newest: PayloadBuffer, len: byte)

  type StatusEntry = s: Status | s.len <= MAX_PAYLOAD witness READY

  const READY_TEXT: seq<byte> := [0x72, 0x65, 0x61, 0x64, 0x79]

  const READY := Status([0x72, 0x65, 0x61, 0x64, 0x79, 0, 0, 0, 0, 0, 0, 0, 0, 0, 0, 0], 5)

  function Unread(s: StatusEntry): seq<byte> { s.newest[..s.len] }

  class StatusQueue {
    var entry: StatusEntry

    constructor ()
      ensures entry == READY
    {
      entry := READY;
    }

    method Pop() returns (bytes: seq<byte>)
      modifies this
      ensures bytes == Unread(old(entry)) && entry == old(entry).(len := 0)
    {
      bytes := entry.newest[..entry.len];
      entry := entry.(len := 0);
    }
  }

  /** What a packet comes to; a response holds its frame. */
  datatype Outcome = Response(frame: seq<byte>) | Nothing | Reset

  /** A program run: its result and what it leaves in the map backing store. */
  type Execute = (ProgramMetadata, seq<byte>) -> (Result<nat>, seq<byte>)

  datatype World = World(loader: Loader, backing: seq<byte>, status: StatusEntry)

  datatype Dispatched = Dispatched(world: World, outcome: Outcome, called: Option<ProgramMetadata>)

  function Respond(status: byte, sequence: byte, payload: seq<byte>): Outcome
    requires |payload| <= MAX_PAYLOAD
  {
    Response(Encoded(status, sequence, 0, payload))
  }

  function Answer(w: World, status: byte, request: Request): Dispatched {
    Dispatched(w, Respond(status, request.sequence, []), None)
  }

  function StatusOf<T>(r: Result<T>): byte { if r.Ok? then STATUS_OK else r.status }

  /** The commands that need no loader, and the answers of a part without one. */
  function DispatchPlain(w: World, request: Request): Dispatched {
    if request.flags != 0 then Answer(w, STATUS_BAD_FLAGS, request)
    else if request.command == CMD_RESET then
      if request.payloadLen == 0 then Dispatched(w, Reset, None) else Answer(w, STATUS_BAD_LENGTH, request)
    else if request.command == CMD_READ_STATUS then
      if request.payloadLen == 0 then
        Dispatched(w.(status := w.status.(len := 0)), Respond(STATUS_OK, request.sequence, Unread(w.status)), None)
      else Answer(w, STATUS_BAD_LENGTH, request)
    else if CMD_LOAD_BPF <= request.command <= CMD_WRITE_BPF_MAP then
      Answer(w, if request.payloadLen == 0 then STATUS_NOT_IMPLEMENTED else STATUS_BAD_LENGTH, request)
    else Answer(w, STATUS_BAD_COMMAND, request)
  }

  function StartStatus(l: Loader, result: Result<nat>): byte {
    match result
    case Ok(0) => if MarkRunning(l).1.Ok? then STATUS_OK else STATUS_BAD_STATE
    case Ok(_) => STATUS_BAD_COMMAND
    case Err(status) => status
  }

  function DispatchStart(w: World, request: Request, execute: Execute): Dispatched {
    var metadata := ExecutionMetadata(w.loader);
    if metadata.Err? then Answer(w, metadata.status, request)
    else
      var (result, backing) := execute(metadata.value, w.backing);
      var loader := if result == Ok(0) then MarkRunning(w.loader).0 else w.loader;
      Dispatched(World(loader, backing, w.status),
                 Respond(StartStatus(w.loader, result), request.sequence, []), Some(metadata.value))
  }

  function DispatchRequest(w: World, request: Request, execute: Execute): Dispatched
    requires request.payloadLen <= MAX_PAYLOAD
  {
    if request.flags != 0 then Answer(w, STATUS_BAD_FLAGS, request)
    else if request.command == CMD_LOAD_BPF then
      var (loader, verdict) := AcceptLoad(w.loader, Payload(request));
      Answer(w.(loader := loader), StatusOf(verdict), request)
    else if request.command == CMD_READ_BPF_MAP then
      match ReadCommand(w.loader, Payload(request), w.backing)
      case Ok(bytes) => Dispatched(w, Respond(STATUS_OK, request.sequence, bytes), None)
      case Err(status) => Answer(w, status, request)
    else if request.command == CMD_WRITE_BPF_MAP then
      var (r, backing) := WriteCommand(w.loader, Payload(request), w.backing);
      Answer(w.(backing := backing), StatusOf(r), request)
    else if request.command == CMD_START_BPF then
      if request.payloadLen != 0 then Answer(w, STATUS_BAD_LENGTH, request)
      else DispatchStart(w, request, execute)
    else if request.command == CMD_QUERY_BPF_CRC then
      if request.payloadLen != 0 then Answer(w, STATUS_BAD_LENGTH, request)
      else
        match Query(w.loader)
        case Ok(crc) => Dispatched(w, Respond(STATUS_OK, request.sequence, U32Bytes(crc)), None)
        case Err(status) => Answer(w, status, request)
    else DispatchPlain(w, request)
  }

  /** A whole capture: what is not a valid run of frames leaves everything alone. */
  function DispatchPacket(w: World, packet: seq<byte>, truncated: bool, execute: Execute): Dispatched {
    var request := Parsed(packet, truncated);
    if request.None? then Dispatched(w, Nothing, None)
    else
      ParsedWellFormed(packet, truncated);
      DispatchRequest(w, request.value, execute)
  }

  // ---- The dispatcher as the firmware holds it ----

  /** The program executor handed to the dispatcher, with a record of its calls. */
  class Executor {
    const run: Execute
    ghost var calls: seq<ProgramMetadata>

    ghost predicate Valid() { forall m, backing :: |run(m, backing).1| == |backing| }

    constructor (run: Execute)
      ensures this.run == run && calls == []
    {
      this.run := run;
      calls := [];
    }

    method Call(metadata: ProgramMetadata, backing: array<byte>) returns (result: Result<nat>)
      requires Valid()
      modifies this, backing
      ensures calls == old(calls) + [metadata]
      ensures (result, backing[..]) == run(metadata, old(backing[..]))
    {
      calls := calls + [metadata];
      var ran := run(metadata, backing[..]);
      forall i | 0 <= i < backing.Length {
        backing[i] := ran.1[i];
      }
      assert backing[..] == ran.1;
      result := ran.0;
    }
  }

  datatype PacketOutcome = Sent(length: nat) | NoResponse | ResetRequested

  class Dispatcher {
    const status: StatusQueue
    const loader: BpfLoaderObject.BpfLoader
    const backing: array<byte>
    const output: array<byte>

    ghost predicate Valid() { output.Length == MAX_FRAME && backing != output }

    ghost function Model(): World
      reads loader, backing, status
    {
      World(loader.Model(), backing[..], status.entry)
    }

    /** What the host sees: the leading bytes of the output buffer. */
    ghost function Seen(outcome: PacketOutcome): Outcome
      reads output
    {
      match outcome
      case Sent(length) => Response(if length <= output.Length then output[..length] else [])
      case NoResponse => Nothing
      case ResetRequested => Reset
    }

    constructor (backing: array<byte>, output: array<byte>)
      requires output.Length == MAX_FRAME && backing != output
      ensures Valid() && fresh(status) && fresh(loader) && this.backing == backing && this.output == output
      ensures Model() == World(NEW_LOADER, backing[..], READY)
    {
      status := new StatusQueue();
      loader := new BpfLoaderObject.BpfLoader();
      this.backing := backing;
      this.output := output;
    }

    method Send(code: byte, sequence: byte, payload: seq<byte>) returns (outcome: PacketOutcome)
      requires Valid() && |payload| <= MAX_PAYLOAD
      modifies output
      ensures Seen(outcome) == Respond(code, sequence, payload)
    {
      var length := EncodeResponse(code, sequence, 0, payload, output);
      outcome := Sent(length.value);
      assert output[..length.value] == Encoded(code, sequence, 0, payload);
    }

    method Plain(request: Request) returns (outcome: PacketOutcome)
      requires Valid()
      modifies status, output
      ensures var d := DispatchPlain(old(Model()), request);
        Model() == d.world && Seen(outcome) == d.outcome
    {
      var code;
      if request.flags != 0 {
        code := STATUS_BAD_FLAGS;
      } else if request.command == CMD_RESET {
        if request.payloadLen == 0 {
          return ResetRequested;
        }
        code := STATUS_BAD_LENGTH;
      } else if request.command == CMD_READ_STATUS {
        if request.payloadLen == 0 {
          var text := status.Pop();
          outcome := Send(STATUS_OK, request.sequence, text);
          return;
        }
        code := STATUS_BAD_LENGTH;
      } else if CMD_LOAD_BPF <= request.command <= CMD_WRITE_BPF_MAP {
        code := if request.payloadLen == 0 then STATUS_NOT_IMPLEMENTED else STATUS_BAD_LENGTH;
      } else {
        code := STATUS_BAD_COMMAND;
      }
      outcome := Send(code, request.sequence, []);
    }

    method Start(request: Request, executor: Executor) returns (outcome: PacketOutcome)
      requires Valid() && executor.Valid()
      modifies loader, backing, output, executor
      ensures var d := DispatchStart(old(Model()), request, executor.run);
        && Model() == d.world && Seen(outcome) == d.outcome
        && executor.calls == old(executor.calls) + if d.called.Some? then [d.called.value] else []
    {
      var metadata := loader.StartMetadata();
      if metadata.Err? {
        outcome := Send(metadata.status, request.sequence, []);
        return;
      }
      var result := executor.Call(metadata.value, backing);
      var code;
      match result {
        case Ok(value) =>
          if value == 0 {
            var marked := loader.SetRunning();
            code := if marked.Ok? then STATUS_OK else STATUS_BAD_STATE;
          } else {
            code := STATUS_BAD_COMMAND;
          }
        case Err(error) =>
          code := error;
      }
      outcome := Send(code, request.sequence, []);
    }

    method Handle(request: Request, executor: Executor) returns (outcome: PacketOutcome)
      requires Valid() && executor.Valid() && request.payloadLen <= MAX_PAYLOAD
      modifies status, loader, backing, output, executor
      ensures var d := DispatchRequest(old(Model()), request, executor.run);
        && Model() == d.world && Seen(outcome) == d.outcome
        && executor.calls == old(executor.calls) + if d.called.Some? then [d.called.value] else []
    {
      hide AcceptLoad, ReadMap, WriteMap, Query, MarkRunning, CommittedMetadata, Locate, Encoded;
      if request.flags != 0 {
        outcome := Send(STATUS_BAD_FLAGS, request.sequence, []);
      } else if request.command == CMD_LOAD_BPF {
        var verdict := loader.AcceptsLoad(request.payload[..request.payloadLen]);
        outcome := Send(if verdict.Ok? then STATUS_OK else verdict.status, request.sequence, []);
      } else if request.command == CMD_READ_BPF_MAP {
        if request.payloadLen != 4 {
          outcome := Send(STATUS_BAD_LENGTH, request.sequence, []);
          return;
        }
        var p := request.payload;
        var page := ReadMapBytes(loader, p[0], U16(p[1], p[2]), p[3], backing);
        match page {
          case Ok(bytes) => outcome := Send(STATUS_OK, request.sequence, bytes);
          case Err(error) => outcome := Send(error, request.sequence, []);
        }
      } else if request.command == CMD_WRITE_BPF_MAP {
        if request.payloadLen < 3 {
          outcome := Send(STATUS_BAD_LENGTH, request.sequence, []);
          return;
        }
        var location := Locate(U16(request.payload[0], request.payload[1]));
        if location.None? {
          outcome := Send(STATUS_BAD_LENGTH, request.sequence, []);
          return;
        }
        var replacement := request.payload[2..request.payloadLen];
        assert replacement == Payload(request)[2..];
        var written := WriteMapInPlace(loader, location.value.0, location.value.1, replacement, backing);
        outcome := Send(if written.Ok? then STATUS_OK else written.status, request.sequence, []);
      } else if request.command == CMD_START_BPF {
        if request.payloadLen != 0 {
          outcome := Send(STATUS_BAD_LENGTH, request.sequence, []);
        } else {
          outcome := Start(request, executor);
        }
      } else if request.command == CMD_QUERY_BPF_CRC {
        if request.payloadLen != 0 {
          outcome := Send(STATUS_BAD_LENGTH, request.sequence, []);
          return;
        }
        var crc := loader.QueryCrc();
        match crc {
          case Ok(value) => outcome := Send(STATUS_OK, request.sequence, U32Bytes(value));
          case Err(error) => outcome := Send(error, request.sequence, []);
        }
      } else {
        outcome := Plain(request);
      }
    }

    method HandlePacket(packet: seq<byte>, truncated: bool, executor: Executor) returns (outcome: PacketOutcome)
      requires Valid() && executor.Valid()
      modifies status, loader, backing, output, executor
      ensures var d := DispatchPacket(old(Model()), packet, truncated, executor.run);
        && Model() == d.world && Seen(outcome) == d.outcome
        && executor.calls == old(executor.calls) + if d.called.Some? then [d.called.value] else []
    {
      hide DispatchRequest, ParseFrom;
      var request := ParsePacket(packet, truncated);
      if request.None? {
        return NoResponse;
      }
      ParsedWellFormed(packet, truncated);
      outcome := Handle(request.value, executor);
    }
  }

  // ---- What every dispatch keeps ----

  predicate IsCommand(request: Request, command: byte) {
    request.flags == 0 && request.command == command && request.payloadLen == 0
  }

  /** Every response is one frame of at most 21 bytes that its receiver parses back, carrying the
      request's sequence number and no flags. */
  lemma ResponsesParse(w: World, request: Request, execute: Execute)
    requires request.payloadLen <= MAX_PAYLOAD
    ensures var d := DispatchRequest(w, request, execute);
      d.outcome.Response? ==>
        && |d.outcome.frame| <= MAX_FRAME && ValidFrame(d.outcome.frame)
        && Parsed(d.outcome.frame, false).Some?
        && var seen := Parsed(d.outcome.frame, false).value;
           seen.sequence == request.sequence && seen.flags == 0 && seen.command == d.outcome.frame[1]
  {
    hide AcceptLoad, ReadCommand, WriteCommand, Query, MarkRunning, ExecutionMetadata, ParseFrom;
    var d := DispatchRequest(w, request, execute);
    if d.outcome.Response? {
      ResponseEncoded(w, request, execute);
      var status, payload :| |payload| <= MAX_PAYLOAD && d.outcome == Respond(status, request.sequence, payload);
      EncodedParses(status, request.sequence, 0, payload);
    }
  }

  lemma ResponseEncoded(w: World, request: Request, execute: Execute)
    requires request.payloadLen <= MAX_PAYLOAD
    ensures var d := DispatchRequest(w, request, execute);
      d.outcome.Response? ==>
        exists status, payload :: |payload| <= MAX_PAYLOAD && d.outcome == Respond(status, request.sequence, payload)
  {
    hide AcceptLoad, ReadMap, WriteCommand, Query, MarkRunning, ExecutionMetadata, Encoded, Payload;
    var none: seq<byte> := [];
    assert |none| <= MAX_PAYLOAD;
  }

  /** A response other than OK, to anything but Start, changed nothing; a refused Start can only have
      left map contents behind, and a reset request, the one command without a response, changes nothing. */
  lemma RefusalsChangeNothing(w: World, request: Request, execute: Execute)
    requires request.payloadLen <= MAX_PAYLOAD
    ensures var d := DispatchRequest(w, request, execute);
      && (d.outcome.Response? ==> |d.outcome.frame| >= HEADER_LEN)
      && (d.outcome.Response? && d.outcome.frame[1] != STATUS_OK ==>
            d.world == w.(backing := d.world.backing) && (request.command != CMD_START_BPF ==> d.world == w))
      && (d.outcome == Reset <==> IsCommand(request, CMD_RESET))
      && (!d.outcome.Response? ==> d.outcome == Reset && d.world == w)
  {
    hide Query, ReadMap, Payload, U32Bytes, Locate;
  }

  /** A part without a loader, in numbers: it answers status and reset and has no other command. */
  lemma PlainRaw(w: World, request: Request)
    ensures var d := DispatchPlain(w, request);
      && d.called == None
      && if request.flags != 0 then d == Dispatched(w, Respond(0x03, request.sequence, []), None)
         else if (request.command == 1 || request.command == 6) && request.payloadLen != 0
         then d == Dispatched(w, Respond(0x02, request.sequence, []), None)
         else if request.command == 1 then d == Dispatched(w, Reset, None)
         else if request.command == 6 then
           d == Dispatched(w.(status := w.status.(len := 0)), Respond(0x00, request.sequence, Unread(w.status)), None)
         else if 2 <= request.command <= 5 then
           d == Dispatched(w, Respond(if request.payloadLen == 0 then 0x04 else 0x02, request.sequence, []), None)
         else d == Dispatched(w, Respond(0x01, request.sequence, []), None)
  {}

  /** The program is called exactly for a well-formed Start with an image committed and no load
      parked, with that image's metadata; it is marked running exactly if it then returns zero. */
  lemma StartsExactly(w: World, request: Request, execute: Execute)
    requires request.payloadLen <= MAX_PAYLOAD
    ensures var d := DispatchRequest(w, request, execute);
      && (d.called.Some? <==> IsCommand(request, CMD_START_BPF) && w.loader.pending.None? && w.loader.state.Committed?)
      && (d.called.Some? ==>
            && d.called.value == CommittedMetadata(w.loader)
            && d.world.backing == execute(d.called.value, w.backing).1
            && (d.world.loader.state.Running? <==> execute(d.called.value, w.backing).0 == Ok(0)))
      && (d.called.None? ==> d.world.loader.state == w.loader.state)
  {
    hide Query, ReadMap, WriteCommand, Payload, U32Bytes, Encoded, CommittedMetadata, DecodeLoad;
  }

  /** What a dispatch does to the loader is what the corresponding loader event does. */
  function EventOf(w: World, request: Request, execute: Execute): Option<LoaderRuns.Event>
    requires request.payloadLen <= MAX_PAYLOAD
  {
    if request.flags != 0 then None
    else if request.command == CMD_LOAD_BPF then Some(LoaderRuns.Request(Payload(request)))
    else if request.command == CMD_START_BPF && request.payloadLen == 0 then
      Some(LoaderRuns.Start(execute(CommittedMetadata(w.loader), w.backing).0))
    else None
  }

  lemma DispatchIsLoaderStep(w: World, d: Device, request: Request, execute: Execute)
    requires request.payloadLen <= MAX_PAYLOAD
    ensures var event := EventOf(w, request, execute);
      DispatchRequest(w, request, execute).world.loader
      == match event
         case None => w.loader
         case Some(e) => LoaderRuns.Step(LoaderRuns.Node(w.loader, d, []), e).loader
  {
    hide Query, ReadMap, WriteCommand, Payload, U32Bytes, Encoded, CommittedMetadata, DecodeLoad;
  }

  /** So loader and flash still agree after every dispatch, and a program that runs is the one the
      flash holds. */
  lemma DispatchAgrees(w: World, d: Device, request: Request, execute: Execute)
    requires request.payloadLen <= MAX_PAYLOAD && Agrees(w.loader, d)
    ensures var r := DispatchRequest(w, request, execute);
      && Agrees(r.world.loader, d)
      && (r.called.Some? ==>
            && Stored(d.bytes).Some?
            && var image := Stored(d.bytes).value;
               && r.called.value == CommittedMetadata(w.loader)
               && w.loader.bytecodeLen == image.declared.bytecodeLen
               && Exposes(w.loader, Descriptors(image)))
  {
    hide DispatchRequest, LoaderRuns.Reachable, Stored, InTransfer;
    DispatchIsLoaderStep(w, d, request, execute);
    StartsExactly(w, request, execute);
    var event := EventOf(w, request, execute);
    if event.Some? {
      match event.value
      case Request(payload) => AcceptAgrees(w.loader, d, payload);
      case Start(result) =>
        if LoaderRuns.Starts(w.loader, result) {
          MarkRunningAgrees(w.loader, d);
        }
    }
    AgreementExposes(w.loader, d);
  }

  // ---- The status queue over a whole run ----

  /** One dispatch of a run; the loader and maps it finds may be anything. */
  datatype Call = Call(request: Request, loader: Loader, backing: seq<byte>, execute: Execute)

  function Dispatch1(call: Call, status: StatusEntry): Dispatched
    requires call.request.payloadLen <= MAX_PAYLOAD
  {
    DispatchRequest(World(call.loader, call.backing, status), call.request, call.execute)
  }

  function StatusAfter(calls: seq<Call>): StatusEntry
    requires forall i :: 0 <= i < |calls| ==> calls[i].request.payloadLen <= MAX_PAYLOAD
  {
    if calls == [] then READY
    else Dispatch1(calls[|calls| - 1], StatusAfter(calls[..|calls| - 1])).world.status
  }

  predicate ReadBefore(calls: seq<Call>, k: nat)
    requires k <= |calls|
  {
    exists i :: 0 <= i < k && IsCommand(calls[i].request, CMD_READ_STATUS)
  }

  lemma StatusStep(call: Call, status: StatusEntry)
    requires call.request.payloadLen <= MAX_PAYLOAD
    ensures Dispatch1(call, status).world.status
         == if IsCommand(call.request, CMD_READ_STATUS) then status.(len := 0) else status
  {
    hide Query, ReadMap, WriteCommand, Payload, U32Bytes, Encoded, AcceptLoad;
  }

  lemma {:induction false} StatusSpent(calls: seq<Call>)
    requires forall i :: 0 <= i < |calls| ==> calls[i].request.payloadLen <= MAX_PAYLOAD
    ensures StatusAfter(calls) == if ReadBefore(calls, |calls|) then READY.(len := 0) else READY
  {
    hide Dispatch1;
    if calls != [] {
      var last := |calls| - 1;
      StatusSpent(calls[..last]);
      StatusStep(calls[last], StatusAfter(calls[..last]));
      assert forall i :: 0 <= i < last ==> calls[..last][i] == calls[i];
    }
  }

  /** Over any run only the first valid Read Status answers "ready"; every later one is empty. */
  lemma ReadyOnce(calls: seq<Call>, k: nat)
    requires k < |calls| && IsCommand(calls[k].request, CMD_READ_STATUS)
    requires forall i :: 0 <= i < |calls| ==> calls[i].request.payloadLen <= MAX_PAYLOAD
    ensures Dispatch1(calls[k], StatusAfter(calls[..k])).outcome
         == Respond(STATUS_OK, calls[k].request.sequence, if ReadBefore(calls, k) then [] else READY_TEXT)
  {
    hide Encoded;
    StatusSpent(calls[..k]);
    assert forall i :: 0 <= i < k ==> calls[..k][i] == calls[i];
    assert READY.newest[..5] == READY_TEXT;
  }
}
