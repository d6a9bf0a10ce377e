/** The protocol as the bus sees it: frames in literal bytes, sent to the whole machine. */
module BusView {
  import opened Bytes
  import opened Dispatch
  import opened EventFates
  import opened Executions
  import opened Frames
  import opened HostUploads
  import opened HostView
  import opened ImageFormat
  import opened ImageStore
  import opened LoaderAgreement
  import opened LoaderModel
  import opened MapAccess
  import opened MapLayouts
  import opened NorFlash
  import opened Runtime
  import opened Timer
  import opened Uploads
  import Crc32
  import LoaderRuns

  /** A request without flags. */
  function Ask(command: byte, sequence: byte, payload: seq<byte>): seq<byte>
    requires |payload| <= 16
  {
    [0xa5, command, |payload|, sequence, 0] + payload
  }

  /** A response, which never has flags. */
  function Reply(status: byte, sequence: byte, payload: seq<byte>): Outcome
    requires |payload| <= 16
  {
    Response([0xa5, status, |payload|, sequence, 0] + payload)
  }

  lemma ReplyResponds(status: byte, sequence: byte, payload: seq<byte>)
    requires |payload| <= 16
    ensures Respond(status, sequence, payload) == Reply(status, sequence, payload)
  {}

  lemma Asked(command: byte, sequence: byte, payload: seq<byte>)
    requires |payload| <= 16
    ensures var request := Request(command, sequence, 0, Padded(payload), |payload|);
      && Parsed(Ask(command, sequence, payload), false) == Some(request)
      && WellFormed(request) && Payload(request) == payload
  {
    EncodedParses(command, sequence, 0, payload);
    ParsedWellFormed(Ask(command, sequence, payload), false);
    PaddedPayload(Request(command, sequence, 0, Padded(payload), |payload|), payload);
  }

  function Host(m: Machine): World { World(m.loader, m.env.backing, m.status) }

  function Handled(m: Machine, command: byte, sequence: byte, payload: seq<byte>, program: Program): Dispatched
    requires |payload| <= 16
  {
    DispatchRequest(Host(m), Request(command, sequence, 0, Padded(payload), |payload|), StartProgram(m, program))
  }

  /** An idle machine's interrupt does what the dispatcher does, to all of the machine. */
  lemma IdleHandles(m: Machine, command: byte, sequence: byte, payload: seq<byte>, program: Program)
    requires !m.active && |payload| <= 16
    ensures var d := Handled(m, command, sequence, payload, program);
      var (m', outcome) := PacketStep(m, Ask(command, sequence, payload), false, program);
      && outcome == d.outcome
      && m'.loader == d.world.loader && m'.status == d.world.status && m'.env.backing == d.world.backing
      && m'.resetPending == (m.resetPending || d.outcome == Reset)
      && (d.called.None? ==> m'.env == m.env.(backing := d.world.backing))
      && (d.called.Some? ==> m'.env == Effects(m.env, d.called.value, program.calls).(backing := d.world.backing))
      && m' == m.(loader := m'.loader, status := m'.status, env := m'.env, resetPending := m'.resetPending)
  {
    hide DispatchRequest, ParseFrom, Effects, Padded;
    Asked(command, sequence, payload);
  }

  // ---- Reset, status and query ----

  /** A reset is noted whatever the machine is doing, and answered by nothing. */
  lemma ResetOnBus(m: Machine, sequence: byte, program: Program)
    ensures PacketStep(m, [0xa5, 0x01, 0, sequence, 0], false, program) == (m.(resetPending := true), Reset)
  {
    hide ParseFrom, Padded, StartProgram;
    Asked(0x01, sequence, []);
    SameEnvironment(m.env);
    assert Ask(0x01, sequence, []) == [0xa5, 0x01, 0, sequence, 0];
  }

  /** Nothing but a valid reset request raises the reset. */
  lemma ResetRaised(m: Machine, packet: seq<byte>, truncated: bool, program: Program)
    ensures PacketStep(m, packet, truncated, program).0.resetPending
       <==> m.resetPending || (Parsed(packet, truncated).Some?
                               && var r := Parsed(packet, truncated).value;
                                  r.command == 0x01 && r.flags == 0 && r.payloadLen == 0)
  {
    hide ParseFrom, DispatchRequest, Effects, Respond;
    if Parsed(packet, truncated).Some? {
      ParsedWellFormed(packet, truncated);
      RefusalsChangeNothing(Host(m), Parsed(packet, truncated).value, StartProgram(m, program));
    }
  }

  /** A status request is answered with what is unread, which then is read. */
  lemma StatusOnBus(m: Machine, sequence: byte, program: Program)
    requires !m.active
    ensures PacketStep(m, [0xa5, 0x06, 0, sequence, 0], false, program)
         == (m.(status := m.status.(len := 0)), Reply(0x00, sequence, Unread(m.status)))
  {
    hide ParseFrom, Padded, StartProgram, Encoded;
    IdleHandles(m, 0x06, sequence, [], program);
    SameEnvironment(m.env);
    assert Ask(0x06, sequence, []) == [0xa5, 0x06, 0, sequence, 0];
    ReplyResponds(0x00, sequence, Unread(m.status));
  }

  /** The CRC query: 5 while a load is parked, the checksum of the image that is ready or running, the
      status of a failure, and 9 otherwise; it changes nothing. */
  lemma QueryOnBus(m: Machine, sequence: byte, program: Program)
    requires Safe(m) && !m.active
    ensures var session := Abstract(m.loader, m.device).session;
      PacketStep(m, [0xa5, 0x07, 0, sequence, 0], false, program)
      == (m, if m.loader.pending.Some? then Reply(0x05, sequence, [])
             else
               match session
               case Ready(image) => CrcReply(sequence, Crc32.Checksum(image.payload))
               case Active(image) => CrcReply(sequence, Crc32.Checksum(image.payload))
               case Broken(status) => Reply(status, sequence, [])
               case _ => Reply(0x09, sequence, []))
  {
    hide ParseFrom, Padded, StartProgram, Encoded, Agrees, Abstract, DispatchRequest, Crc32.Checksum;
    IdleHandles(m, 0x07, sequence, [], program);
    SafeAgrees(m);
    var request := Request(0x07, sequence, 0, Padded([]), 0);
    QueryAnswered(Host(m), m.device, request, StartProgram(m, program));
    StartsExactly(Host(m), request, StartProgram(m, program));
    SameEnvironment(m.env);
    assert Ask(0x07, sequence, []) == [0xa5, 0x07, 0, sequence, 0];
    var answer := QueryAnswer(Abstract(m.loader, m.device).session, m.loader.pending.Some?);
    if answer.Ok? {
      WordBytes(0, answer.value);
      ReplyResponds(0x00, sequence, U32Bytes(answer.value));
    } else {
      ReplyResponds(answer.status, sequence, []);
    }
  }

  function CrcReply(sequence: byte, crc: u32): Outcome {
    Reply(0x00, sequence, [crc % 0x100, crc / 0x100 % 0x100, crc / 0x100 / 0x100 % 0x100, crc / 0x100 / 0x100 / 0x100])
  }

  // ---- Start ----

  function Obstacle(session: Session): byte {
    match session
    case Active(_) => 0x06
    case Broken(status) => status
    case _ => 0x09
  }

  function ResultCode(result: Result<nat>): byte {
    match result
    case Ok(value) => if value == 0 then 0x00 else 0x01
    case Err(status) => status
  }

  /** Start runs the program of an image that is ready and answers 0, 1 or the program's own error;
      the image is marked running exactly on 0. Otherwise it says what stands in the way: 5 a parked
      load, 6 a running program, 9 no image, or the status of a failure. */
  lemma StartOnBus(m: Machine, sequence: byte, program: Program)
    requires Safe(m) && !m.active
    ensures var session := Abstract(m.loader, m.device).session;
      var (m', outcome) := PacketStep(m, [0xa5, 0x03, 0, sequence, 0], false, program);
      if m.loader.pending.None? && session.Ready? then
        && m' == m.(loader := m'.loader, env := Effects(m.env, CommittedMetadata(m.loader), program.calls))
        && Agrees(m'.loader, m.device)
        && Abstract(m'.loader, m.device).session == (if program.result == Ok(0) then Active(session.image) else session)
        && outcome == Reply(ResultCode(program.result), sequence, [])
      else
        && m' == m
        && outcome == Reply(if m.loader.pending.Some? then 0x05 else Obstacle(session), sequence, [])
  {
    hide ParseFrom, Padded, Encoded, Agrees, Abstract, DispatchRequest, CommittedMetadata, Effects;
    IdleHandles(m, 0x03, sequence, [], program);
    SafeAgrees(m);
    var request := Request(0x03, sequence, 0, Padded([]), 0);
    StartAnswered(Host(m), m.device, request, StartProgram(m, program));
    SameEnvironment(m.env);
    SameEnvironment(Effects(m.env, CommittedMetadata(m.loader), program.calls));
    assert Ask(0x03, sequence, []) == [0xa5, 0x03, 0, sequence, 0];
    var refusal := StartRefusal(Abstract(m.loader, m.device).session, m.loader.pending.Some?);
    if refusal.Some? {
      ReplyResponds(refusal.value, sequence, []);
    } else {
      ReplyResponds(ResultStatus(program.result), sequence, []);
    }
  }

  // ---- Loads ----

  /** A load is answered 5 while one is parked, 6 while a program is marked running, and otherwise by
      its bytes and the transfer's position alone; exactly an accepted one is parked. */
  lemma LoadOnBus(m: Machine, sequence: byte, payload: seq<byte>, program: Program)
    requires !m.active && |payload| <= 16
    ensures var verdict := if m.loader.pending.Some? then 0x05 else if m.loader.state.Running? then 0x06
                           else RawVerdict(m.loader, payload);
      PacketStep(m, [0xa5, 0x02, |payload|, sequence, 0] + payload, false, program)
      == (if verdict == 0x00 then m.(loader := m.loader.(pending := Some(RawOp(payload)))) else m,
          Reply(verdict, sequence, []))
  {
    hide ParseFrom, Padded, Encoded, AcceptLoad, RawVerdict, RawOp, Effects, ExecutionMetadata;
    Asked(0x02, sequence, payload);
    IdleHandles(m, 0x02, sequence, payload, program);
    AcceptRaw(m.loader, payload);
    SameEnvironment(m.env);
    assert Ask(0x02, sequence, payload) == [0xa5, 0x02, |payload|, sequence, 0] + payload;
    var verdict := if m.loader.pending.Some? then 0x05 else if m.loader.state.Running? then 0x06
                   else RawVerdict(m.loader, payload);
    ReplyResponds(verdict, sequence, []);
  }

  // ---- Maps ----

  /** A map read of `length` bytes at a two-byte offset: 2 for a length outside 1 to 16 or a range past
      the map's end, 9 without an image, 1 for a map it does not have, and otherwise the bytes. */
  lemma ReadOnBus(m: Machine, sequence: byte, id: byte, offset: u16, length: byte, program: Program)
    requires Safe(m) && !m.active
    ensures var maps := MapsOf(Abstract(m.loader, m.device).session);
      PacketStep(m, [0xa5, 0x04, 4, sequence, 0, id, offset % 0x100, offset / 0x100, length], false, program)
      == (m, if length < 1 || length > 16 then Reply(0x02, sequence, [])
             else if maps.None? then Reply(0x09, sequence, [])
             else if id >= |maps.value| then Reply(0x01, sequence, [])
             else if offset + length > Size(maps.value[id]) then Reply(0x02, sequence, [])
             else Reply(0x00, sequence, MapBytes(maps.value, id, m.env.backing)[offset..offset + length]))
  {
    hide ParseFrom, Padded, StartProgram, Encoded, Agrees, Abstract, DispatchRequest, MapsOf, MapBytes, Size,
         Acceptable;
    var payload := ReadRequest(id, offset, length);
    WordBytes(offset, 0);
    assert payload == [id, offset % 0x100, offset / 0x100, length];
    Asked(0x04, sequence, payload);
    IdleHandles(m, 0x04, sequence, payload, program);
    SafeAgrees(m);
    var request := Request(0x04, sequence, 0, Padded(payload), 4);
    ReadAnswered(Host(m), m.device, request, id, offset, length, StartProgram(m, program));
    StartsExactly(Host(m), request, StartProgram(m, program));
    SameEnvironment(m.env);
    assert Ask(0x04, sequence, payload)
        == [0xa5, 0x04, 4, sequence, 0, id, offset % 0x100, offset / 0x100, length];
    var answer := ReadAnswer(MapsOf(Abstract(m.loader, m.device).session), id, offset, length, m.env.backing);
    if answer.Ok? {
      ReplyResponds(0x00, sequence, answer.value);
    } else {
      ReplyResponds(answer.status, sequence, []);
    }
  }

  function WriteFrame(sequence: byte, id: nat, offset: nat, page: seq<byte>): seq<byte>
    requires id < 8 && offset < 1024 && |page| <= 14
  {
    var word: u16 := offset + 1024 * id;
    [0xa5, 0x05, 2 + |page|, sequence, 0, word % 0x100, word / 0x100] + page
  }

  /** These bytes of that map are replaced and no other map is touched. */
  ghost predicate Replaced(ds: seq<Descriptor>, id: nat, offset: nat, page: seq<byte>, backing: seq<byte>,
                           backing': seq<byte>)
    requires Acceptable(ds) && id < |ds| && |backing| == |backing'| == MAX_MAP_BYTES
    requires offset + |page| <= Size(ds[id])
  {
    && MapBytes(ds, id, backing') == Splice(MapBytes(ds, id, backing), offset, page)
    && forall j :: 0 <= j < |ds| && j != id ==> MapBytes(ds, j, backing') == MapBytes(ds, j, backing)
  }

  /** A map write of 1 to 14 bytes at the location word `offset + 1024 * id`: it replaces those bytes of
      that map and no others, or answers 9, 1 or 2 and changes nothing. */
  lemma WriteOnBus(m: Machine, sequence: byte, id: nat, offset: nat, page: seq<byte>, program: Program)
    requires Safe(m) && !m.active && id < 8 && offset < 1024 && 1 <= |page| <= 14
    ensures var maps := MapsOf(Abstract(m.loader, m.device).session);
      var (m', outcome) := PacketStep(m, WriteFrame(sequence, id, offset, page), false, program);
      && m' == m.(env := m.env.(backing := m'.env.backing)) && |m'.env.backing| == 1024
      && if maps.None? then m' == m && outcome == Reply(0x09, sequence, [])
         else if id >= |maps.value| then m' == m && outcome == Reply(0x01, sequence, [])
         else if offset + |page| > Size(maps.value[id]) then m' == m && outcome == Reply(0x02, sequence, [])
         else
           && outcome == Reply(0x00, sequence, [])
           && |m.env.backing| == 1024
           && Replaced(maps.value, id, offset, page, m.env.backing, m'.env.backing)
  {
    hide ParseFrom, Padded, StartProgram, Encoded, Agrees, Abstract, DispatchRequest, MapsOf, MapBytes, Size,
         Acceptable;
    hide Splice;
    var word, payload := PackLocation(id, offset), WriteRequest(id, offset, page);
    WordBytes(word, 0);
    assert payload == [word % 0x100, word / 0x100] + page;
    Asked(0x05, sequence, payload);
    IdleHandles(m, 0x05, sequence, payload, program);
    SafeAgrees(m);
    var request := Request(0x05, sequence, 0, Padded(payload), |payload|);
    WriteAnswered(Host(m), m.device, request, id, offset, page, StartProgram(m, program));
    StartsExactly(Host(m), request, StartProgram(m, program));
    SameEnvironment(m.env);
    assert Ask(0x05, sequence, payload) == WriteFrame(sequence, id, offset, page);
    ReplyResponds(WriteAnswer(MapsOf(Abstract(m.loader, m.device).session), id, offset, |page|), sequence, []);
  }

  // ---- What is refused for its form, or because a program runs ----

  /** Whatever is asked of an idle machine with flags is answered 3; an unknown command is answered 1;
      a payload where none may be, or of an impossible length, is answered 2. Nothing changes. */
  lemma IllFormedOnBus(m: Machine, command: byte, sequence: byte, flags: byte, payload: seq<byte>, program: Program)
    requires !m.active && |payload| <= 16
    ensures var refusal := if flags != 0 then 0x03
                           else if command == 0 || command > 7 then 0x01
                           else if (command == 1 || command == 3 || command >= 6) && payload != [] then 0x02
                           else if command == 4 && |payload| != 4 then 0x02
                           else if command == 5 && (|payload| < 3 || payload[1] >= 0x20) then 0x02
                           else 0x00;
      refusal != 0x00 ==>
        PacketStep(m, [0xa5, command, |payload|, sequence, flags] + payload, false, program)
        == (m, Reply(refusal, sequence, []))
  {
    hide ParseFrom, Padded, Encoded, DispatchRequest, SpellsWrite, Effects;
    EncodedParses(command, sequence, flags, payload);
    var frame := [0xa5, command, |payload|, sequence, flags] + payload;
    assert frame == Encoded(command, sequence, flags, payload) by { EncodedBytes(command, sequence, flags, payload); }
    var request := Request(command, sequence, flags, Padded(payload), |payload|);
    PaddedPayload(request, payload);
    if |payload| < 3 || payload[1] >= 0x20 {
      NotSpelled(payload);
    }
    if FormRefusal(request).Some? {
      IllFormedAnswered(Host(m), request, StartProgram(m, program));
      SameEnvironment(m.env);
      ReplyResponds(FormRefusal(request).value, sequence, []);
    }
  }

  lemma EncodedBytes(status: byte, sequence: byte, flags: byte, payload: seq<byte>)
    requires |payload| <= 16
    ensures Encoded(status, sequence, flags, payload) == [0xa5, status, |payload|, sequence, flags] + payload
  {}

  lemma NotSpelled(payload: seq<byte>)
    requires |payload| < 3 || payload[1] >= 0x20
    ensures !SpellsWrite(payload)
  {
    hide U16Bytes;
    forall id: nat, offset: nat, page: seq<byte> | id < 8 && offset < 0x400 && page != []
      ensures payload != WriteRequest(id, offset, page)
    {
      WordBytes(PackLocation(id, offset), 0);
      var spelled := WriteRequest(id, offset, page);
      assert |spelled| >= 3 && spelled[1] == PackLocation(id, offset) / 0x100 < 0x20;
    }
  }

  /** While a program runs in the main loop every valid request but reset is answered 5. */
  lemma BusyOnBus(m: Machine, command: byte, sequence: byte, flags: byte, payload: seq<byte>, program: Program)
    requires m.active && |payload| <= 16 && command != 0x01
    ensures PacketStep(m, [0xa5, command, |payload|, sequence, flags] + payload, false, program)
         == (m, Reply(0x05, sequence, []))
  {
    hide ParseFrom, Padded, Encoded;
    EncodedParses(command, sequence, flags, payload);
    EncodedBytes(command, sequence, flags, payload);
    BusyPacket(m, [0xa5, command, |payload|, sequence, flags] + payload, false, program);
    ReplyResponds(0x05, sequence, []);
  }

  /** A capture of several frames counts as its last one; anything else is not answered at all. */
  lemma CaptureOnBus(m: Machine, packet: seq<byte>, truncated: bool, frames: seq<seq<byte>>, program: Program)
    ensures Framed(packet, frames) ==>
              PacketStep(m, packet, false, program) == PacketStep(m, frames[|frames| - 1], false, program)
    ensures truncated || (forall f :: !Framed(packet, f)) ==>
              PacketStep(m, packet, truncated, program) == (m, Nothing)
  {
    hide ParseFrom, DispatchRequest, Effects;
    if Framed(packet, frames) {
      var last: seq<seq<byte>> := [frames[|frames| - 1]];
      assert last[1..] == [] && Concat(last) == frames[|frames| - 1];
      FramesParsed(frames, None);
      FramesParsed(last, None);
    }
    if Parsed(packet, truncated).Some? {
      ParsePacketExact(packet, truncated, Parsed(packet, truncated).value);
    }
  }

  // ---- Boots and resets ----

  const READY_BYTES: seq<byte> := [0x72, 0x65, 0x61, 0x64, 0x79]

  /** After every boot the maps are zero, "ready" is unread, no timer runs, nothing is parked, claimed or
      about to reset, and the history is empty. */
  lemma BootFresh(d: Device, faults: seq<Fault>)
    requires ValidDevice(d)
    ensures var m := Boot(d, faults);
      && m.env.backing == seq(1024, _ => 0)
      && Unread(m.status) == READY_BYTES
      && m.env.timer.pending == None && m.env.timer.ready == None && m.env.acts == [] && m.runs == []
      && m.pc.Top? && !m.active && m.helpers == None && !m.resetPending
      && m.loader.pending == None && m.device.bytes == d.bytes && Safe(m)
  {
    hide ValidateCommitted, Agrees, HonestRuns;
    BootSafe(d, faults);
    BootAgrees(LoaderRuns.PoweredUp(d, faults));
    assert READY.newest[..5] == READY_BYTES;
  }

  /** Main-loop steps until the loop looks at the reset. */
  function UntilReset(pc: Pc): nat {
    match pc
    case Top => 0
    case Release => 1
    case Restore(_, _) => 1
    case Exec(_) => 2
    case Launch(_, _, _) => 3
    case Fetch(_, _) => 4
    case CheckGeneration(_, _) => 5
    case Claim(_, _) => 6
    case Take => 7
    case Polling => 8
    case Performing => 9
    case Check => 10
  }

  /** A noted reset boots the part at the top of the loop, is never forgotten before that, and comes
      strictly nearer with every main-loop step unless a program goes on. */
  lemma ResetComes(m: Machine, event: Event)
    requires Safe(m) && m.resetPending && !event.PowerCycle?
    ensures var m' := Step(m, event);
      if m.pc.Top? && event.Main? then m' == Boot(m.device, event.faults)
      else
        && m'.resetPending && UntilReset(m'.pc) <= UntilReset(m.pc)
        && (event.Main? && (m.pc.Exec? ==> event.call.None?) ==> UntilReset(m'.pc) < UntilReset(m.pc))
  {
    hide Agrees, HonestRuns, PacketStep, Boot, Effect, ExecutePending, EventExecutionMetadata;
    if event.Packet? {
      PacketStays(m, event);
      ResetRaised(m, event.packet, event.truncated, event.program);
    }
  }

  // ---- The status over a run ----

  predicate Boots(m: Machine, event: Event) { event.PowerCycle? || (event.Main? && m.pc.Top? && m.resetPending) }

  /** A valid Read Status that the machine answers. */
  predicate ReadsStatus(m: Machine, event: Event) {
    && event.Packet? && !m.active
    && Parsed(event.packet, event.truncated).Some?
    && var r := Parsed(event.packet, event.truncated).value;
       r.command == 0x06 && r.flags == 0 && r.payloadLen == 0
  }

  /** No status has been read since the last boot. */
  predicate Unasked(m: Machine, events: seq<Event>) {
    if events == [] then true
    else
      var before, last := events[..|events| - 1], events[|events| - 1];
      Boots(Run(m, before), last) || (Unasked(m, before) && !ReadsStatus(Run(m, before), last))
  }

  lemma StatusStepped(m: Machine, event: Event)
    requires Safe(m)
    ensures Step(m, event).status
         == if Boots(m, event) then READY
            else if ReadsStatus(m, event) then m.status.(len := 0)
            else m.status
  {
    hide Agrees, HonestRuns, DispatchRequest, ParseFrom, ExecutePending, Effect, Effects, ValidateCommitted;
    if event.Packet? && Parsed(event.packet, event.truncated).Some? {
      ParsedWellFormed(event.packet, event.truncated);
      if m.active {
        BusyPacket(m, event.packet, event.truncated, event.program);
      } else {
        StatusStep(Call(Parsed(event.packet, event.truncated).value, m.loader, m.env.backing,
                        StartProgram(m, event.program)), m.status);
      }
    }
  }

  /** Over any run the first valid Read Status since a boot finds "ready", every later one nothing; with
      `StatusOnBus` this is what the host sees. */
  lemma {:induction false} StatusOverRun(bytes: seq<byte>, faults: seq<Fault>, events: seq<Event>)
    requires |bytes| == FLASH_SIZE
    ensures Unread(Run(PowerOn(bytes, faults), events).status)
         == if Unasked(PowerOn(bytes, faults), events) then READY_BYTES else []
    ensures Run(PowerOn(bytes, faults), events).status.newest == READY.newest
  {
    hide Step, Boots, ReadsStatus, Safe, ValidateCommitted;
    if events == [] {
      BootFresh(Device(bytes, [], false, []), faults);
    } else {
      var before := events[..|events| - 1];
      StatusOverRun(bytes, faults, before);
      RunSafe(bytes, faults, before);
      StatusStepped(Run(PowerOn(bytes, faults), before), events[|events| - 1]);
      assert READY.newest[..5] == READY_BYTES;
    }
  }

  // ---- A busy bus holds a parked load back ----

  /** As long as the bus is busy whenever the main loop looks, a parked load is not performed: neither
      the flash nor the loader changes, whatever is asked meanwhile. */
  lemma {:induction false} BusyBusHolds(m: Machine, events: seq<Event>)
    requires Steady(m) && m.loader.pending.Some? && !m.pc.Performing?
    requires forall i :: 0 <= i < |events| ==> NoReset(events[i]) && (events[i].Main? ==> !events[i].busIdle)
    ensures var m' := Run(m, events);
      && Steady(m') && m'.loader == m.loader && m'.device == m.device && !m'.pc.Performing?
  {
    hide Safe, Step, NoReset;
    if events != [] {
      var before, last := events[..|events| - 1], events[|events| - 1];
      BusyBusHolds(m, before);
      StepSafe(Run(m, before), last);
      BusyStep(Run(m, before), last);
    }
  }

  lemma BusyStep(m: Machine, event: Event)
    requires Steady(m) && m.loader.pending.Some? && !m.pc.Performing?
    requires NoReset(event) && (event.Main? ==> !event.busIdle)
    ensures var m' := Step(m, event);
      m'.loader == m.loader && m'.device == m.device && !m'.pc.Performing? && !m'.resetPending
  {
    hide Agrees, HonestRuns, ParseFrom, Effect, Effects, DispatchRequest;
    if event.Packet? {
      PacketStays(m, event);
      ResetExactly(m, event);
      if Parsed(event.packet, event.truncated).Some? {
        ParsedWellFormed(event.packet, event.truncated);
        ParkedRefuses(Host(m), Parsed(event.packet, event.truncated).value, StartProgram(m, event.program));
      }
    }
  }

  lemma ParkedRefuses(w: World, request: Request, execute: Execute)
    requires request.payloadLen <= MAX_PAYLOAD && w.loader.pending.Some?
    ensures DispatchRequest(w, request, execute).world.loader == w.loader
  {
    hide ReadCommand, WriteCommand, Query, Payload, Encoded;
  }
}
