/** Uploads through the whole machine: frames on the bus, between retries, queries and program runs. */
module HostUploads {
  import opened Bytes
  import opened Dispatch
  import opened Executions
  import opened Frames
  import opened ImageFormat
  import opened LoaderAgreement
  import opened LoaderModel
  import opened MapAccess
  import opened NorFlash
  import opened Runtime
  import opened Uploads
  import opened MapLayouts
  import Crc32
  import LoaderRuns

  /** The load operation whose frame this packet was answered OK for. */
  function Acknowledged(m: Machine, event: Event): Option<LoadOp> {
    if !event.Packet? || Parsed(event.packet, event.truncated).None? then None
    else
      var request := Parsed(event.packet, event.truncated).value;
      var (m', outcome) := PacketStep(m, event.packet, event.truncated, event.program);
      if request.command == CMD_LOAD_BPF && outcome == Respond(STATUS_OK, request.sequence, []) then m'.loader.pending
      else None
  }

  /** All operations acknowledged during a run, in order. */
  function Acks(m: Machine, events: seq<Event>): seq<LoadOp> {
    if events == [] then []
    else
      var before, last := events[..|events| - 1], events[|events| - 1];
      var ack := Acknowledged(Run(m, before), last);
      Acks(m, before) + if ack.Some? then [ack.value] else []
  }

  /** The power stays on, flash operations work, and nobody resets the part or starts a program for
      good; any other packets, captures, retries, delays, timer runs, program results and refused
      Starts may occur. */
  predicate Calm(m: Machine, event: Event) {
    match event
    case Main(faults, _, _) => faults == []
    case Packet(packet, truncated, program) =>
      && (program.result != Ok(0) || Started(m, packet, truncated, program).None?)
      && (Parsed(packet, truncated).Some? ==> Parsed(packet, truncated).value.command != CMD_RESET)
    case Tick(_) => true
    case PowerCycle(_) => false
  }

  predicate CalmRun(m: Machine, events: seq<Event>) {
    events == [] || (CalmRun(m, events[..|events| - 1]) && Calm(Run(m, events[..|events| - 1]), events[|events| - 1]))
  }

  function DataOps(offset: nat, pieces: seq<seq<byte>>): seq<LoadOp>
    requires offset + |Concat(pieces)| < 0x1_0000
    decreases |pieces|
  {
    if pieces == [] then [] else [Data(offset, pieces[0])] + DataOps(offset + |pieces[0]|, pieces[1..])
  }

  function UploadOps(declared: Declared, pieces: seq<seq<byte>>): seq<LoadOp>
    requires |Concat(pieces)| < 0x1_0000
  {
    [Begin(declared.bytecodeLen, declared.mapCount, declared.crc)] + DataOps(0, pieces) + [Finalize]
  }

  // ---- The machine performs exactly what it acknowledged ----

  function Faultless(d: Device): Device { LoaderRuns.WithFaults(d, []) }

  function PerformAll(s: (Loader, Device), ops: seq<LoadOp>): (Loader, Device) {
    if ops == [] then s
    else
      var (l, d) := PerformAll(s, ops[..|ops| - 1]);
      Perform(l, d, ops[|ops| - 1])
  }

  /** Everything acknowledged has been performed, except an operation still parked. */
  ghost predicate Performed(m0: Machine, acks: seq<LoadOp>, m: Machine) {
    var start := (m0.loader, Faultless(m0.device));
    if m.loader.pending.None? then PerformAll(start, acks) == (m.loader, Faultless(m.device))
    else
      && acks != [] && acks[|acks| - 1] == m.loader.pending.value
      && PerformAll(start, acks[..|acks| - 1]) == (m.loader.(pending := None), Faultless(m.device))
  }

  /** The machine is sound, on, and no reset is waiting. */
  ghost predicate Steady(m: Machine) { Safe(m) && !m.resetPending }

  lemma PerformLeavesFaults(l: Loader, d: Device, op: LoadOp)
    requires Agrees(l, d) && l.pending == Some(op)
    ensures Perform(l.(pending := None), Faultless(d), op).1.faults == []
    ensures Perform(l.(pending := None), Faultless(d), op).0.pending == None
  {
    hide Programmed, Blanked, ErasedEnd, LengthOf, Header, Crc32.Update, Crc32.Finish, Agrees, Scan;
    LoaderRuns.FaultsIrrelevant(l, d, []);
    match op
    case Finalize => ScanFaultless(Faultless(d), DATA + l.bytecodeLen, l.mapCount);
    case _ =>
  }

  lemma {:induction false} ScanFromFaultless(d: Device, base: nat, count: nat, index: nat, total: u32,
                                             table: LayoutTable)
    requires index <= count <= MAX_MAPS && d.faults == []
    ensures ScanFrom(d, base, count, index, total, table).0.faults == []
    decreases count - index
  {
    hide Decode, NextTotal, Narrowed;
    if index < count {
      var (d', raw) := ReadCells(d, base + DESCRIPTOR_SIZE * index, DESCRIPTOR_SIZE);
      if raw.Some? {
        var next := NextTotal(total, Decode(raw.value));
        if next.Some? {
          ScanFromFaultless(d', base, count, index + 1, next.value, table[index := Narrowed(total, Decode(raw.value))]);
        }
      }
    }
  }

  lemma ScanFaultless(d: Device, base: nat, count: nat)
    requires count <= MAX_MAPS && d.faults == []
    ensures Scan(d, base, count).0.faults == []
  {
    ScanFromFaultless(d, base, count, 0, 0, NO_LAYOUTS);
  }

  lemma PerformMore(s: (Loader, Device), ops: seq<LoadOp>, op: LoadOp)
    ensures PerformAll(s, ops + [op]) == Perform(PerformAll(s, ops).0, PerformAll(s, ops).1, op)
  {
    assert (ops + [op])[..|ops|] == ops;
  }

  lemma StatusSeen(status: byte, other: byte, sequence: byte)
    requires Respond(status, sequence, []) == Respond(other, sequence, [])
    ensures status == other
  {
    assert Respond(status, sequence, []).frame[1] == status && Respond(other, sequence, []).frame[1] == other;
  }

  /** The operation a dispatch parked, spelled by the request that was answered OK. */
  ghost predicate Parks(l: Loader, request: Request, op: LoadOp, l': Loader) {
    && request.payloadLen <= MAX_PAYLOAD
    && l.pending.None? && l' == l.(pending := Some(op))
    && Admissible(l, op) && Payload(request) == LoadRequest(op)
  }

  lemma DispatchParks(w: World, request: Request, execute: Execute)
    requires request.payloadLen <= MAX_PAYLOAD
    requires DispatchRequest(w, request, execute).called.None?
             || execute(CommittedMetadata(w.loader), w.backing).0 != Ok(0)
    ensures var r := DispatchRequest(w, request, execute);
      if request.command == CMD_LOAD_BPF && r.outcome == Respond(STATUS_OK, request.sequence, [])
      then r.world.loader.pending.Some? && Parks(w.loader, request, r.world.loader.pending.value, r.world.loader)
      else r.world.loader == w.loader
  {
    hide Query, ReadCommand, WriteCommand, Payload, CommittedMetadata, Respond, AcceptLoad, Admissible, LoadRequest;
    var r := DispatchRequest(w, request, execute);
    if request.command == CMD_LOAD_BPF {
      if request.flags != 0 {
        if r.outcome == Respond(STATUS_OK, request.sequence, []) {
          StatusSeen(STATUS_BAD_FLAGS, STATUS_OK, request.sequence);
        }
      } else {
        AcceptedSpelled(w.loader, Payload(request));
        var verdict := AcceptLoad(w.loader, Payload(request)).1;
        if r.outcome == Respond(STATUS_OK, request.sequence, []) {
          StatusSeen(StatusOf(verdict), STATUS_OK, request.sequence);
        }
      }
    }
  }

  /** A packet parks the operation it acknowledges and otherwise leaves the loader alone. */
  lemma PacketParks(m: Machine, event: Event)
    requires Steady(m) && event.Packet? && Calm(m, event)
    ensures var m' := Step(m, event);
      && m'.device == m.device && !m'.resetPending
      && match Acknowledged(m, event)
         case None => m'.loader == m.loader
         case Some(op) => Parks(m.loader, Parsed(event.packet, event.truncated).value, op, m'.loader)
  {
    hide ParseFrom, DispatchRequest, CommittedMetadata, Effects, Safe, Respond, Parks, ExecutionMetadata;
    var request := Parsed(event.packet, event.truncated);
    if request.Some? {
      ParsedWellFormed(event.packet, event.truncated);
      if m.active {
        BusyPacket(m, event.packet, event.truncated, event.program);
        if request.value.command == CMD_LOAD_BPF && Acknowledged(m, event).Some? {
          StatusSeen(STATUS_BUSY, STATUS_OK, request.value.sequence);
        }
      } else {
        var w := World(m.loader, m.env.backing, m.status);
        DispatchParks(w, request.value, StartProgram(m, event.program));
        RefusalsChangeNothing(w, request.value, StartProgram(m, event.program));
      }
    }
  }

  lemma AcceptedSpelled(l: Loader, payload: seq<byte>)
    ensures var (l', verdict) := AcceptLoad(l, payload);
      && (verdict.Err? ==> l' == l && verdict.status != STATUS_OK)
      && (verdict.Ok? ==>
            && l.pending.None? && l'.pending.Some?
            && l' == l.(pending := l'.pending)
            && Admissible(l, l'.pending.value)
            && payload == LoadRequest(l'.pending.value))
  {
    hide LoadRequest, U16, U32, Fits;
    var l' := AcceptLoad(l, payload).0;
    if AcceptLoad(l, payload).1.Ok? {
      AcceptExact(l, payload, l'.pending.value);
    }
  }

  lemma TurnPerformed(m0: Machine, acks: seq<LoadOp>, m: Machine)
    requires Steady(m) && Performed(m0, acks, m) && m.pc.Performing?
    ensures Performed(m0, acks, MainStep(m, [], false, None))
  {
    hide Perform, Safe;
    assert Agrees(m.loader, m.device) by { SafeAgrees(m); }
    if m.loader.pending.Some? {
      var op := m.loader.pending.value;
      var done := acks[..|acks| - 1];
      assert acks == done + [op];
      PerformMore((m0.loader, Faultless(m0.device)), done, op);
      PerformLeavesFaults(m.loader, m.device, op);
    }
  }

  lemma SafeAgrees(m: Machine)
    requires Safe(m)
    ensures Agrees(m.loader, m.device)
  {}

  lemma StepPerformed(m0: Machine, acks: seq<LoadOp>, m: Machine, event: Event)
    requires Steady(m) && Performed(m0, acks, m) && Calm(m, event)
    ensures var ack := Acknowledged(m, event);
      Performed(m0, acks + if ack.Some? then [ack.value] else [], Step(m, event))
    ensures Steady(Step(m, event))
  {
    hide Safe, PerformAll, PacketStep, ExecutePending, Effect, Acknowledged;
    StepSafe(m, event);
    assert acks + [] == acks;
    match event
    case Packet(_, _, _) =>
      PacketParks(m, event);
      var ack := Acknowledged(m, event);
      if ack.Some? {
        assert (acks + [ack.value])[..|acks|] == acks;
      }
    case Main(faults, busIdle, call) =>
      assert Acknowledged(m, event) == None by { Unacknowledged(m, event); }
      if m.pc.Performing? {
        TurnPerformed(m0, acks, m);
      }
    case Tick(_) =>
      assert Acknowledged(m, event) == None by { Unacknowledged(m, event); }
  }

  lemma Unacknowledged(m: Machine, event: Event)
    requires !event.Packet?
    ensures Acknowledged(m, event) == None
  {}

  /** Along any calm run, loader and flash are where performing the acknowledged operations one after
      the other, and nothing else, would have brought them. */
  lemma {:induction false} RunPerforms(m0: Machine, events: seq<Event>)
    requires Steady(m0) && m0.loader.pending.None?
    requires CalmRun(m0, events)
    ensures Steady(Run(m0, events))
    ensures Performed(m0, Acks(m0, events), Run(m0, events))
  {
    hide Steady, Step, Calm, Acknowledged;
    if events == [] {
    } else {
      var before := events[..|events| - 1];
      RunPerforms(m0, before);
      StepPerformed(m0, Acks(m0, before), Run(m0, before), events[|events| - 1]);
    }
  }

  // ---- An upload, as exchanges and as operations ----

  lemma {:induction false} PerformConcat(s: (Loader, Device), ops: seq<LoadOp>, more: seq<LoadOp>)
    ensures PerformAll(s, ops + more) == PerformAll(PerformAll(s, ops), more)
  {
    hide Perform;
    if more == [] {
      assert ops + more == ops;
    } else {
      var all, head := ops + more, more[..|more| - 1];
      assert all[..|all| - 1] == ops + head;
      PerformConcat(s, ops, head);
    }
  }

  lemma PerformOne(l: Loader, d: Device, op: LoadOp)
    ensures PerformAll((l, d), [op]) == Perform(l, d, op)
  {
    hide Perform;
    var ops: seq<LoadOp> := [op];
    assert ops[..0] == [];
  }

  /** Two faultless states with the same cells and the same history. */
  ghost predicate At(n: LoaderRuns.Node, s: (Loader, Device)) { s == (n.loader, Faultless(n.device)) }

  lemma ExchangeAt(n: LoaderRuns.Node, payload: seq<byte>, op: LoadOp)
    requires Quiet(n) && DecodeLoad(n.loader, payload) == Ok(op) && Admissible(n.loader, op)
    ensures At(Exchange(n, payload), PerformAll((n.loader, Faultless(n.device)), [op]))
  {
    hide Exchange, Perform, Agrees, DecodeLoad;
    ExchangePerforms(n, payload, op);
    PerformOne(n.loader, Faultless(n.device), op);
    assert n.loader.(pending := Some(op)).(pending := None) == n.loader;
    ParkedAgrees(n.loader, n.device, op);
    PerformLeavesFaults(n.loader.(pending := Some(op)), n.device, op);
  }

  lemma ParkedAgrees(l: Loader, d: Device, op: LoadOp)
    requires Agrees(l, d) && Admissible(l, op)
    ensures Agrees(l.(pending := Some(op)), d)
  {}

  lemma {:induction false} PiecesAt(n: LoaderRuns.Node, was: seq<byte>, declared: Declared, data: seq<byte>,
                                    pieces: seq<seq<byte>>)
    requires |was| == FLASH_SIZE && Midway(n, was, declared, data)
    requires forall piece :: piece in pieces ==> Sendable(piece)
    requires |data| + |Concat(pieces)| <= LengthOf(declared) < 0x1_0000
    ensures At(SendPieces(n, |data|, pieces), PerformAll((n.loader, Faultless(n.device)), DataOps(|data|, pieces)))
    decreases |pieces|
  {
    hide Agrees, LengthOf, Exchange, DataRequest, Sendable, Perform, Received, Partial;
    var start := (n.loader, Faultless(n.device));
    if pieces != [] {
      var op, rest := Data(|data|, pieces[0]), DataOps(|data| + |pieces[0]|, pieces[1..]);
      DataExchange(n, was, declared, data, pieces[0]);
      PieceAdmissible(n, was, declared, data, pieces[0]);
      DataDecoded(n.loader, pieces[0]);
      ExchangeAt(n, DataRequest(|data|, pieces[0]), op);
      PiecesAt(Exchange(n, DataRequest(|data|, pieces[0])), was, declared, data + pieces[0], pieces[1..]);
      PerformConcat(start, [op], rest);
    }
  }

  lemma PieceAdmissible(n: LoaderRuns.Node, was: seq<byte>, declared: Declared, data: seq<byte>, piece: seq<byte>)
    requires |was| == FLASH_SIZE && Midway(n, was, declared, data)
    requires Sendable(piece) && |data| + |piece| <= LengthOf(declared) < 0x1_0000
    ensures n.loader.nextOffset == |data| && Admissible(n.loader, Data(|data|, piece))
    ensures n.loader.nextOffset + |piece| <= n.loader.imageLen
  {
    hide IsHeader, Crc32.Update, Even, Partial, ErasedEnd, Sized;
    ReceivedFits(n.loader, n.device);
  }

  lemma ImageAt(n: LoaderRuns.Node, declared: Declared, pieces: seq<seq<byte>>)
    requires Quiet(n) && Sized(declared)
    requires forall piece :: piece in pieces ==> Sendable(piece)
    requires |Concat(pieces)| == LengthOf(declared) < 0x1_0000
    ensures At(SendImage(n, declared, pieces), PerformAll((n.loader, Faultless(n.device)), UploadOps(declared, pieces)))
  {
    hide InTransfer, Describes, LengthOf, Sized, Exchange, BeginRequest, Sendable, Perform, Received, Partial,
         PerformAll, DataOps;
    var start, begin := (n.loader, Faultless(n.device)), Begin(declared.bytecodeLen, declared.mapCount, declared.crc);
    BeginExchange(n, declared);
    BeginDecoded(n.loader, declared);
    ExchangeAt(n, BeginRequest(declared), begin);
    var begun := Exchange(n, BeginRequest(declared));
    PiecesAt(begun, n.device.bytes, declared, [], pieces);
    PiecesSent(begun, n.device.bytes, declared, [], pieces);
    var sent := SendPieces(begun, 0, pieces);
    assert [] + Concat(pieces) == Concat(pieces);
    WholeAdmissible(sent, n.device.bytes, declared, Concat(pieces));
    ExchangeAt(sent, FINALIZE_REQUEST, Finalize);
    PerformConcat(start, [begin], DataOps(0, pieces));
    PerformConcat(start, [begin] + DataOps(0, pieces), [Finalize]);
  }

  lemma WholeAdmissible(n: LoaderRuns.Node, was: seq<byte>, declared: Declared, data: seq<byte>)
    requires |was| == FLASH_SIZE && Midway(n, was, declared, data) && |data| == LengthOf(declared)
    ensures Admissible(n.loader, Finalize) && DecodeLoad(n.loader, FINALIZE_REQUEST) == Ok(Finalize)
  {
    hide IsHeader, Crc32.Update, Even, Partial, ErasedEnd, Sized;
    ReceivedFits(n.loader, n.device);
  }

  /**
   Interleaved upload. Start the machine anywhere it is sound, powered and not loading. Whatever else
   happens in a calm run - retries answered BUSY, refused loads, queries, map traffic, broken captures,
   delays, timer runs, Starts that fail - if the frames acknowledged are those of an image, in order,
   and the last has been performed, then the machine has exactly the verdict, the flash cells and the
   metadata that the bare upload gives.
   */
  lemma InterleavedUpload(m: Machine, events: seq<Event>, declared: Declared, pieces: seq<seq<byte>>)
    requires Steady(m) && m.loader.pending.None? && !m.loader.state.Running? && m.device.powered
    requires CalmRun(m, events)
    requires Sized(declared) && |Concat(pieces)| == LengthOf(declared) < 0x1_0000
    requires forall piece :: piece in pieces ==> Sendable(piece)
    requires Acks(m, events) == UploadOps(declared, pieces) && Run(m, events).loader.pending.None?
    ensures var m', image := Run(m, events), Image(declared, Concat(pieces));
      && ValidDevice(m.device)
      && m'.loader.state == Verdict(image)
      && (m'.loader.state.Committed? <==> Vetted(image))
      && (Vetted(image) ==> Installed(LoaderRuns.Node(m'.loader, m'.device, []), m.device.bytes, image))
  {
    hide LengthOf, Sized, Sendable, Perform, PerformAll, UploadOps, SendImage, Verdict, Vetted, Uploads.Complete,
         Stored, Safe;
    hide Run, Acks, CalmRun, InTransfer, Describes;
    SafeAgrees(m);
    RunPerforms(m, events);
    SafeAgrees(Run(m, events));
    var n := LoaderRuns.Node(m.loader, m.device, []);
    ImageAt(n, declared, pieces);
    UploadEnds(n, declared, pieces);
  }

  // ---- A retried frame gets through ----

  function LoadFrame(sequence: byte, op: LoadOp): seq<byte>
    requires |LoadRequest(op)| <= MAX_PAYLOAD
  {
    Encoded(CMD_LOAD_BPF, sequence, 0, LoadRequest(op))
  }

  /** With nothing executing or parked, the frame of an admissible operation is acknowledged. */
  lemma FrameAcknowledged(m: Machine, sequence: byte, op: LoadOp, program: Program)
    requires Steady(m) && !m.active && m.loader.pending.None? && Admissible(m.loader, op)
    ensures |LoadRequest(op)| <= MAX_PAYLOAD
    ensures Acknowledged(m, Packet(LoadFrame(sequence, op), false, program)) == Some(op)
  {
    hide Safe, DecodeLoad, Respond, Effects, ParseFrom, LoadRequest, Encoded, Fits;
    RequestFits(m.loader, op);
    var payload := LoadRequest(op);
    EncodedParses(CMD_LOAD_BPF, sequence, 0, payload);
    var request := Request(CMD_LOAD_BPF, sequence, 0, Padded(payload), |payload|);
    assert Payload(request) == payload;
    AdmissibleDecoded(m.loader, op);
  }

  lemma RequestFits(l: Loader, op: LoadOp)
    requires Admissible(l, op)
    ensures |LoadRequest(op)| <= MAX_PAYLOAD
  {
    hide Fits;
  }

  /** Main-loop steps until a parked operation is performed and a claim released. */
  function Wait(pc: Pc): nat {
    match pc
    case Performing => 1
    case Check => 2
    case Top => 3
    case Release => 4
    case Exec(_) => 5
    case Launch(_, _, _) => 6
    case Fetch(_, _) => 7
    case CheckGeneration(_, _) => 8
    case Claim(_, _) => 9
    case Take => 10
    case Polling => 11
    case Restore(_, _) => 12
  }

  predicate Accepting(m: Machine) { !m.active && m.loader.pending.None? }

  /** A busy machine comes strictly closer to accepting loads with every main-loop step on an idle bus,
      except while a program goes on, and only a busy bus moves it away. */
  lemma AcceptingSoon(m: Machine, event: Event)
    requires Steady(m) && Calm(m, event) && !Accepting(m)
    ensures var m' := Step(m, event);
      && ((event.Main? ==> event.busIdle) ==> Accepting(m') || Wait(m'.pc) <= Wait(m.pc))
      && (event.Main? && event.busIdle && (m.pc.Exec? ==> event.call.None?) ==>
            Accepting(m') || Wait(m'.pc) < Wait(m.pc))
  {
    hide Agrees, HonestRuns, EventFits, PacketStep, Perform, Effect;
    match event
    case Packet(_, _, _) => PacketStays(m, event);
    case Main(faults, _, _) =>
      if m.pc.Performing? && m.loader.pending.Some? {
        SafeAgrees(m);
        TurnClears(m.loader, m.device);
      }
    case Tick(_) =>
  }

  lemma TurnClears(l: Loader, d: Device)
    requires Agrees(l, d) && l.pending.Some?
    ensures ExecutePending(l, LoaderRuns.WithFaults(d, [])).0.pending == None
  {
    hide ExecutePending, Agrees;
    LoaderRuns.FaultsIrrelevant(l, d, []);
    TurnAgrees(l, LoaderRuns.WithFaults(d, []));
  }

  // ---- An upload that goes through ----

  lemma {:induction false} CalmConcat(m: Machine, a: seq<Event>, b: seq<Event>)
    requires CalmRun(m, a) && CalmRun(Run(m, a), b)
    ensures CalmRun(m, a + b)
    ensures Acks(m, a + b) == Acks(m, a) + Acks(Run(m, a), b)
  {
    hide Step, Calm, Acknowledged;
    if b == [] {
      assert a + b == a;
    } else {
      var head := b[..|b| - 1];
      assert (a + b)[..|a + b| - 1] == a + head;
      CalmConcat(m, a, head);
      RunConcat(m, a, head);
      var ack := Acknowledged(Run(m, a + head), b[|b| - 1]);
      var last := if ack.Some? then [ack.value] else [];
      assert Acks(m, a) + (Acks(Run(m, a), head) + last) == Acks(m, a) + Acks(Run(m, a), head) + last;
    }
  }

  lemma OneEvent(m: Machine, event: Event)
    ensures Run(m, [event]) == Step(m, event)
    ensures CalmRun(m, [event]) <==> Calm(m, event)
    ensures Acks(m, [event]) == if Acknowledged(m, event).Some? then [Acknowledged(m, event).value] else []
  {
    hide Step, Calm, Acknowledged;
    var events: seq<Event> := [event];
    assert events[..0] == [];
  }

  lemma StepSteady(m: Machine, event: Event)
    requires Steady(m) && Calm(m, event)
    ensures Steady(Step(m, event))
  {
    hide Safe, PacketStep, ExecutePending, Effect;
    StepSafe(m, event);
    if event.Packet? {
      PacketParks(m, event);
    }
  }

  /** The main loop, left to itself on an idle bus, comes to accept loads within twelve steps. */
  lemma {:induction false} Settles(m: Machine) returns (events: seq<Event>)
    requires Steady(m)
    ensures CalmRun(m, events) && Acks(m, events) == [] && |events| <= Wait(m.pc)
    ensures Steady(Run(m, events)) && Accepting(Run(m, events))
    decreases if Accepting(m) then 0 else Wait(m.pc)
  {
    hide Steady, Step, Acknowledged;
    if Accepting(m) {
      events := [];
    } else {
      var step := Main([], true, None);
      AcceptingSoon(m, step);
      StepSteady(m, step);
      Unacknowledged(m, step);
      OneEvent(m, step);
      var rest: seq<Event> := [];
      if !Accepting(Step(m, step)) {
        rest := Settles(Step(m, step));
      }
      CalmConcat(m, [step], rest);
      RunConcat(m, [step], rest);
      events := [step] + rest;
    }
  }

  /** Each operation is admissible once those before it have been performed. */
  ghost predicate AllAdmissible(s: (Loader, Device), ops: seq<LoadOp>)
    decreases |ops|
  {
    ops == [] || (Admissible(s.0, ops[0]) && AllAdmissible(Perform(s.0, s.1, ops[0]), ops[1..]))
  }

  /** Sending the frame of each operation and letting the main loop settle is a calm run that
      acknowledges exactly those operations. */
  lemma {:induction false} Sending(m: Machine, ops: seq<LoadOp>, sequence: byte) returns (events: seq<Event>)
    requires Steady(m) && Accepting(m) && AllAdmissible((m.loader, Faultless(m.device)), ops)
    ensures CalmRun(m, events) && Acks(m, events) == ops
    ensures Steady(Run(m, events)) && Accepting(Run(m, events))
    decreases |ops|
  {
    hide Steady, Step, Acknowledged, Perform, Admissible, Calm, LoadFrame;
    if ops == [] {
      events := [];
    } else {
      var op := ops[0];
      FrameAcknowledged(m, sequence, op, Program([], Ok(1)));
      var frame := Packet(LoadFrame(sequence, op), false, Program([], Ok(1)));
      FrameCalm(m, sequence, op);
      OneEvent(m, frame);
      StepSteady(m, frame);
      var settle := Settles(Step(m, frame));
      var first := [frame] + settle;
      CalmConcat(m, [frame], settle);
      RunConcat(m, [frame], settle);
      RunPerforms(m, first);
      PerformOne(m.loader, Faultless(m.device), op);
      var rest := Sending(Run(m, first), ops[1..], sequence);
      CalmConcat(m, first, rest);
      RunConcat(m, first, rest);
      events := first + rest;
      assert ops == [op] + ops[1..];
    }
  }

  lemma FrameCalm(m: Machine, sequence: byte, op: LoadOp)
    requires |LoadRequest(op)| <= MAX_PAYLOAD
    ensures Calm(m, Packet(LoadFrame(sequence, op), false, Program([], Ok(1))))
  {
    hide ParseFrom, LoadRequest, Encoded;
    EncodedParses(CMD_LOAD_BPF, sequence, 0, LoadRequest(op));
  }

  lemma {:induction false} PiecesAdmissible(n: LoaderRuns.Node, was: seq<byte>, declared: Declared, data: seq<byte>,
                                            pieces: seq<seq<byte>>)
    requires |was| == FLASH_SIZE && Midway(n, was, declared, data)
    requires forall piece :: piece in pieces ==> Sendable(piece)
    requires |data| + |Concat(pieces)| == LengthOf(declared) < 0x1_0000
    ensures AllAdmissible((n.loader, Faultless(n.device)), DataOps(|data|, pieces) + [Finalize])
    decreases |pieces|
  {
    hide Midway, LengthOf, Exchange, DataRequest, Sendable, Perform, Admissible, DecodeLoad;
    if pieces == [] {
      assert DataOps(|data|, pieces) + [Finalize] == [Finalize];
      WholeAdmissible(n, was, declared, data);
      LastAdmissible((n.loader, Faultless(n.device)), Finalize);
    } else {
      var op, rest := Data(|data|, pieces[0]), DataOps(|data| + |pieces[0]|, pieces[1..]);
      MidwayQuiet(n, was, declared, data);
      DataExchange(n, was, declared, data, pieces[0]);
      PieceAdmissible(n, was, declared, data, pieces[0]);
      PieceDecoded(n, was, declared, data, pieces[0]);
      ExchangeAt(n, DataRequest(|data|, pieces[0]), op);
      PerformOne(n.loader, Faultless(n.device), op);
      PiecesAdmissible(Exchange(n, DataRequest(|data|, pieces[0])), was, declared, data + pieces[0], pieces[1..]);
      assert (DataOps(|data|, pieces) + [Finalize])[1..] == rest + [Finalize];
    }
  }

  lemma LastAdmissible(s: (Loader, Device), op: LoadOp)
    requires Admissible(s.0, op)
    ensures AllAdmissible(s, [op])
  {
    hide Perform, Admissible;
    var ops: seq<LoadOp> := [op];
    assert ops[1..] == [];
  }

  lemma MidwayQuiet(n: LoaderRuns.Node, was: seq<byte>, declared: Declared, data: seq<byte>)
    requires |was| == FLASH_SIZE && Midway(n, was, declared, data)
    ensures Quiet(n)
  {}

  lemma PieceDecoded(n: LoaderRuns.Node, was: seq<byte>, declared: Declared, data: seq<byte>, piece: seq<byte>)
    requires |was| == FLASH_SIZE && Midway(n, was, declared, data)
    requires Sendable(piece) && |data| + |piece| <= LengthOf(declared) < 0x1_0000
    ensures DecodeLoad(n.loader, DataRequest(|data|, piece)) == Ok(Data(|data|, piece))
  {
    hide DecodeLoad, DataRequest, Agrees, Partial, LengthOf;
    PieceAdmissible(n, was, declared, data, piece);
    DataDecoded(n.loader, piece);
  }

  lemma ImageAdmissible(n: LoaderRuns.Node, declared: Declared, pieces: seq<seq<byte>>)
    requires Quiet(n) && Sized(declared)
    requires forall piece :: piece in pieces ==> Sendable(piece)
    requires |Concat(pieces)| == LengthOf(declared) < 0x1_0000
    ensures AllAdmissible((n.loader, Faultless(n.device)), UploadOps(declared, pieces))
  {
    hide InTransfer, Describes, LengthOf, Exchange, BeginRequest, Sendable, Perform, Received, Partial, DataOps;
    var begin := Begin(declared.bytecodeLen, declared.mapCount, declared.crc);
    BeginExchange(n, declared);
    BeginDecoded(n.loader, declared);
    ExchangeAt(n, BeginRequest(declared), begin);
    PerformOne(n.loader, Faultless(n.device), begin);
    PiecesAdmissible(Exchange(n, BeginRequest(declared)), n.device.bytes, declared, [], pieces);
    assert UploadOps(declared, pieces)[1..] == DataOps(0, pieces) + [Finalize];
  }

  /**
   An upload goes through: from any sound, powered machine that is not loading, wherever its main loop
   stands, there is a run that sends the image's frames one by one and lets the loop settle after each,
   and it ends in the image's verdict with exactly the cells and metadata of the bare upload.
   */
  lemma UploadGoesThrough(m: Machine, declared: Declared, pieces: seq<seq<byte>>, sequence: byte)
    returns (events: seq<Event>)
    requires Steady(m) && m.loader.pending.None? && !m.loader.state.Running? && m.device.powered
    requires Sized(declared) && |Concat(pieces)| == LengthOf(declared) < 0x1_0000
    requires forall piece :: piece in pieces ==> Sendable(piece)
    ensures CalmRun(m, events) && Acks(m, events) == UploadOps(declared, pieces)
    ensures var m', image := Run(m, events), Image(declared, Concat(pieces));
      && ValidDevice(m.device)
      && m'.loader.state == Verdict(image)
      && (Vetted(image) ==> Installed(LoaderRuns.Node(m'.loader, m'.device, []), m.device.bytes, image))
  {
    hide LengthOf, Sized, Sendable, Perform, UploadOps, Verdict, Vetted, Installed, Safe, Run, Acks, CalmRun;
    hide InTransfer, Describes, AllAdmissible;
    SafeAgrees(m);
    var settle := Settles(m);
    RunPerforms(m, settle);
    var ready := Run(m, settle);
    ImageAdmissible(LoaderRuns.Node(m.loader, m.device, []), declared, pieces);
    var send := Sending(ready, UploadOps(declared, pieces), sequence);
    CalmConcat(m, settle, send);
    RunConcat(m, settle, send);
    events := settle + send;
    assert [] + UploadOps(declared, pieces) == UploadOps(declared, pieces);
    InterleavedUpload(m, events, declared, pieces);
  }
}
