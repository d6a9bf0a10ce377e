/**
 The main loop and the I2C interrupt as a transition system. The interrupt runs to completion
 between any two critical sections of the main loop; a Start runs its program inside the
 interrupt, a timer event runs its program in the main loop, where it can be interrupted.
 */
module Runtime {
  import opened Bytes
  import opened Dispatch
  import opened Frames
  import opened ImageFormat
  import opened LoaderAgreement
  import opened LoaderModel
  import opened MapAccess
  import opened MapLayouts
  import opened NorFlash
  import opened Timer
  import LoaderRuns

  // ---- Programs ----

  /** What a program can do: write inside one of its maps, schedule or cancel the timer, take time. */
  datatype ProgramCall =
    | Store(id: nat, offset: nat, bytes: seq<byte>)
    | ScheduleCall(delay: u64, cookie: u64)
    | CancelCall
    | Elapse(time: nat)

  datatype Program = Program(calls: seq<ProgramCall>, result: Result<nat>)

  /** The maps, the timer, the clock and the timer's history since boot. */
  datatype Env = Env(backing: seq<byte>, timer: Clockwork, now: nat, acts: seq<Act>)

  predicate InMap(metadata: ProgramMetadata, id: nat, offset: nat, length: nat, size: nat) {
    && id < metadata.mapCount && id < |metadata.maps|
    && offset + length <= metadata.maps[id].backingLen
    && metadata.maps[id].backingOffset + offset + length <= size
  }

  function Effect(env: Env, metadata: ProgramMetadata, call: ProgramCall): Env {
    match call
    case Store(id, offset, bytes) =>
      if InMap(metadata, id, offset, |bytes|, |env.backing|)
      then env.(backing := Splice(env.backing, metadata.maps[id].backingOffset + offset, bytes)) else env
    case ScheduleCall(delay, cookie) =>
      var (timer, code) := Schedule(env.timer, env.now, delay, cookie);
      env.(timer := timer, acts := if code == 0 then env.acts + [Scheduled(env.now + delay, cookie)] else env.acts)
    case CancelCall => env.(timer := Cancel(env.timer), acts := env.acts + [Cancelled])
    case Elapse(time) => env.(now := env.now + time)
  }

  function Effects(env: Env, metadata: ProgramMetadata, calls: seq<ProgramCall>): Env {
    if calls == [] then env
    else Effect(Effects(env, metadata, calls[..|calls| - 1]), metadata, calls[|calls| - 1])
  }

  /** What each call does, in numbers. */
  lemma EffectRaw(env: Env, metadata: ProgramMetadata, delay: u64, cookie: u64, time: nat)
    ensures Effect(env, metadata, CancelCall) == env.(timer := Cancel(env.timer), acts := env.acts + [Cancelled])
    ensures Effect(env, metadata, Elapse(time)) == env.(now := env.now + time)
    ensures Effect(env, metadata, ScheduleCall(delay, cookie))
         == if delay > 4294967295 then env
            else env.(timer := Schedule(env.timer, env.now, delay, cookie).0,
                      acts := env.acts + [Scheduled(env.now + delay, cookie)])
  {}

  /** Calls take effect one after the other. */
  lemma {:induction false} EffectsInOrder(env: Env, metadata: ProgramMetadata, calls: seq<ProgramCall>,
                                          more: seq<ProgramCall>)
    ensures Effects(env, metadata, calls + more) == Effects(Effects(env, metadata, calls), metadata, more)
  {
    hide Effect;
    if more == [] {
      assert calls + more == calls;
    } else {
      assert (calls + more)[..|calls + more| - 1] == calls + more[..|more| - 1];
      EffectsInOrder(env, metadata, calls, more[..|more| - 1]);
    }
  }

  // ---- The machine ----

  /** Where the main loop stands. A taken event carries the number of bumps that made it. */
  datatype Pc =
    | Top | Check | Performing | Polling | Take
    | Claim(event: TimerEvent, serial: nat)
    | Restore(event: TimerEvent, serial: nat)
    | CheckGeneration(event: TimerEvent, serial: nat)
    | Fetch(event: TimerEvent, serial: nat)
    | Launch(event: TimerEvent, serial: nat, metadata: ProgramMetadata)
    | Exec(metadata: ProgramMetadata)
    | Release

  /** One timer execution: which schedule it serves, with which cookie, when it began, and how many
      bumps there had been by then. */
  datatype TimerRun = TimerRun(serial: nat, cookie: u64, at: nat, bumps: nat)

  datatype Machine = Machine(
    pc: Pc,
    loader: Loader,
    device: Device,
    status: StatusEntry,
    env: Env,
    active: bool,
    helpers: Option<ProgramMetadata>,
    resetPending: bool,
    runs: seq<TimerRun>)

  datatype Event =
    | Main(faults: seq<Fault>, busIdle: bool, call: Option<ProgramCall>)
    | Packet(packet: seq<byte>, truncated: bool, program: Program)
    | Tick(time: nat)
    | PowerCycle(faults: seq<Fault>)

  function Cleared(): seq<byte> { seq(MAX_MAP_BYTES, _ => 0) }

  function Boot(d: Device, faults: seq<Fault>): Machine {
    var (loader, device) := ValidateCommitted(NEW_LOADER, LoaderRuns.PoweredUp(d, faults));
    Machine(Top, loader, device, READY, Env(Cleared(), STOPPED, 0, []), false, None, false, [])
  }

  /** The main loop's next step; `call` is what a running program does next, if it goes on. */
  function MainStep(m: Machine, faults: seq<Fault>, busIdle: bool, call: Option<ProgramCall>): Machine {
    match m.pc
    case Top => if m.resetPending then Boot(m.device, faults) else m.(pc := Check)
    case Check => if m.loader.pending.Some? && !busIdle then m.(pc := Top) else m.(pc := Performing)
    case Performing =>
      if m.loader.pending.None? then m.(pc := Polling)
      else
        var (loader, device) := ExecutePending(m.loader, LoaderRuns.WithFaults(m.device, faults));
        m.(pc := Polling, loader := loader, device := device)
    case Polling => m.(pc := Take, env := m.env.(timer := Poll(m.env.timer, m.env.now)))
    case Take =>
      if m.env.timer.ready.None? then m.(pc := Top)
      else
        m.(pc := Claim(m.env.timer.ready.value, |m.env.acts|),
           env := m.env.(timer := m.env.timer.(ready := None)))
    case Claim(event, serial) =>
      if m.active then m.(pc := Restore(event, serial))
      else m.(pc := CheckGeneration(event, serial), active := true)
    case Restore(event, _) => m.(pc := Top, env := m.env.(timer := Restored(m.env.timer, event)))
    case CheckGeneration(event, serial) =>
      if m.env.timer.generation == event.generation then m.(pc := Fetch(event, serial)) else m.(pc := Release)
    case Fetch(event, serial) =>
      var metadata := EventExecutionMetadata(m.loader);
      if metadata.Err? then m.(pc := Release) else m.(pc := Launch(event, serial, metadata.value))
    case Launch(event, serial, metadata) =>
      m.(pc := Exec(metadata), helpers := Some(metadata),
         runs := m.runs + [TimerRun(serial, event.cookie, m.env.now, |m.env.acts|)])
    case Exec(metadata) =>
      if call.None? then m.(pc := Release, helpers := None)
      else m.(env := Effect(m.env, metadata, call.value))
    case Release => m.(pc := Top, active := false)
  }

  /** The executor the interrupt hands to the dispatcher. It claims, runs and releases at once. */
  function StartProgram(m: Machine, program: Program): Execute {
    (metadata, backing) =>
      if m.active then (Err(STATUS_BUSY), backing)
      else (program.result, Effects(m.env.(backing := backing), metadata, program.calls).backing)
  }

  function Dispatching(m: Machine, packet: seq<byte>, truncated: bool, program: Program): Dispatched {
    DispatchPacket(World(m.loader, m.env.backing, m.status), packet, truncated, StartProgram(m, program))
  }

  function PacketStep(m: Machine, packet: seq<byte>, truncated: bool, program: Program): (Machine, Outcome) {
    var request := Parsed(packet, truncated);
    if request.None? then (m, Nothing)
    else if m.active && request.value.command != CMD_RESET then
      (m, Respond(STATUS_BUSY, request.value.sequence, []))
    else
      var d := Dispatching(m, packet, truncated, program);
      var env := if d.called.Some? && !m.active then Effects(m.env, d.called.value, program.calls) else m.env;
      (m.(loader := d.world.loader, status := d.world.status, env := env.(backing := d.world.backing),
          resetPending := m.resetPending || d.outcome == Reset),
       d.outcome)
  }

  function Step(m: Machine, event: Event): Machine {
    match event
    case Main(faults, busIdle, call) => MainStep(m, faults, busIdle, call)
    case Packet(packet, truncated, program) => PacketStep(m, packet, truncated, program).0
    case Tick(time) => m.(env := m.env.(now := m.env.now + time))
    case PowerCycle(faults) => Boot(m.device, faults)
  }

  function Run(m: Machine, events: seq<Event>): Machine {
    if events == [] then m else Step(Run(m, events[..|events| - 1]), events[|events| - 1])
  }

  function PowerOn(bytes: seq<byte>, faults: seq<Fault>): Machine { Boot(Device(bytes, [], false, []), faults) }

  // ---- What holds in every reachable state ----

  predicate Claimed(pc: Pc) {
    pc.CheckGeneration? || pc.Fetch? || pc.Launch? || pc.Exec? || pc.Release?
  }

  predicate Waiting(env: Env) { env.timer.pending.Some? || env.timer.ready.Some? }

  /** A taken event comes from that schedule, is due, and nothing waits that is not newer. */
  ghost predicate Stems(env: Env, event: TimerEvent, serial: nat) {
    && 1 <= serial <= |env.acts|
    && env.acts[serial - 1].Scheduled?
    && env.acts[serial - 1].cookie == event.cookie
    && env.acts[serial - 1].deadline <= env.now
    && event.generation == GenerationAfter(serial)
    && (Waiting(env) ==> serial < |env.acts|)
  }

  /** Each run serves a schedule no other run serves, with its cookie, not before its deadline, and
      not after a later schedule or cancel short of a whole cycle of generations. */
  ghost predicate Honest(run: TimerRun, env: Env) {
    && 1 <= run.serial <= run.bumps <= |env.acts|
    && env.acts[run.serial - 1].Scheduled?
    && env.acts[run.serial - 1].cookie == run.cookie
    && env.acts[run.serial - 1].deadline <= run.at <= env.now
    && (run.bumps - run.serial) % CYCLE == 0
    && (Waiting(env) ==> run.serial < |env.acts|)
  }

  ghost predicate HonestRuns(runs: seq<TimerRun>, env: Env) {
    && (forall i :: 0 <= i < |runs| ==> Honest(runs[i], env))
    && (forall i, j :: 0 <= i < j < |runs| ==> runs[i].serial < runs[j].serial)
  }

  ghost predicate EventFits(m: Machine) {
    match m.pc
    case Claim(event, serial) => Stems(m.env, event, serial) && Newest(m.runs, serial)
    case CheckGeneration(event, serial) => Stems(m.env, event, serial) && Newest(m.runs, serial)
    case Fetch(event, serial) =>
      Stems(m.env, event, serial) && Newest(m.runs, serial) && m.env.timer.generation == event.generation
    case Launch(event, serial, metadata) =>
      && Stems(m.env, event, serial) && Newest(m.runs, serial) && m.env.timer.generation == event.generation
      && EventExecutionMetadata(m.loader) == Ok(metadata)
    case Exec(metadata) => EventExecutionMetadata(m.loader) == Ok(metadata)
    case _ => true
  }

  ghost predicate Newest(runs: seq<TimerRun>, serial: nat) {
    forall i :: 0 <= i < |runs| ==> runs[i].serial < serial
  }

  /** The claim flag, the helpers' target and the place in the main loop tell the same story. */
  ghost predicate Exclusive(m: Machine) {
    && (m.active <==> Claimed(m.pc))
    && m.helpers == (if m.pc.Exec? then Some(m.pc.metadata) else None)
    && !m.pc.Restore?
  }

  ghost predicate Safe(m: Machine) {
    && Agrees(m.loader, m.device)
    && |m.env.backing| == MAX_MAP_BYTES
    && Follows(m.env.timer, m.env.acts, m.env.now)
    && Exclusive(m)
    && EventFits(m)
    && HonestRuns(m.runs, m.env)
  }

  // ---- The environment only grows ----

  ghost predicate Grew(env: Env, env': Env) {
    && |env'.backing| == |env.backing|
    && |env.acts| <= |env'.acts| && env.acts == env'.acts[..|env.acts|]
    && env.now <= env'.now
    && Follows(env'.timer, env'.acts, env'.now)
    && (Waiting(env') ==> Waiting(env) || |env.acts| < |env'.acts|)
  }

  lemma EffectGrows(env: Env, metadata: ProgramMetadata, call: ProgramCall)
    requires Follows(env.timer, env.acts, env.now)
    ensures Grew(env, Effect(env, metadata, call))
  {
    hide GenerationAfter;
    match call
    case ScheduleCall(delay, cookie) => ScheduleFollows(env.timer, env.acts, env.now, delay, cookie);
    case CancelCall => CancelFollows(env.timer, env.acts, env.now);
    case _ =>
  }

  lemma {:induction false} EffectsGrow(env: Env, metadata: ProgramMetadata, calls: seq<ProgramCall>)
    requires Follows(env.timer, env.acts, env.now)
    ensures Grew(env, Effects(env, metadata, calls))
  {
    hide Follows, Effect;
    if calls != [] {
      var before := Effects(env, metadata, calls[..|calls| - 1]);
      EffectsGrow(env, metadata, calls[..|calls| - 1]);
      EffectGrows(before, metadata, calls[|calls| - 1]);
      assert env.acts == before.acts[..|env.acts|];
    }
  }

  lemma StemsGrown(env: Env, env': Env, event: TimerEvent, serial: nat)
    requires Stems(env, event, serial) && Grew(env, env')
    ensures Stems(env', event, serial)
  {
    hide GenerationAfter, Follows;
    assert env'.acts[serial - 1] == env.acts[serial - 1];
  }

  lemma RunsGrown(env: Env, env': Env, runs: seq<TimerRun>)
    requires HonestRuns(runs, env) && Grew(env, env')
    ensures HonestRuns(runs, env')
  {
    hide Follows;
    forall i | 0 <= i < |runs|
      ensures Honest(runs[i], env')
    {
      assert Honest(runs[i], env);
      assert env'.acts[runs[i].serial - 1] == env.acts[runs[i].serial - 1];
    }
  }

  // ---- Boot ----

  lemma BootSafe(d: Device, faults: seq<Fault>)
    requires ValidDevice(d)
    ensures Safe(Boot(d, faults))
  {
    hide ValidateCommitted, InTransfer, Describes;
    BootAgrees(LoaderRuns.PoweredUp(d, faults));
  }

  // ---- The interrupt ----

  /** While a program runs in the main loop, a packet changes nothing but a pending reset, and every
      command except reset is answered BUSY. */
  lemma BusyPacket(m: Machine, packet: seq<byte>, truncated: bool, program: Program)
    requires m.active
    ensures var (m', outcome) := PacketStep(m, packet, truncated, program);
      && m' == m.(resetPending := m'.resetPending)
      && (Parsed(packet, truncated).Some? && Parsed(packet, truncated).value.command != CMD_RESET ==>
            m' == m && outcome == Respond(STATUS_BUSY, Parsed(packet, truncated).value.sequence, []))
  {
    hide ParseFrom, Encoded, Payload, ReadMap, AcceptLoad, WriteCommand;
    if Parsed(packet, truncated).Some? {
      ParsedWellFormed(packet, truncated);
    }
  }

  lemma PacketSafe(m: Machine, packet: seq<byte>, truncated: bool, program: Program)
    requires Safe(m)
    ensures Safe(PacketStep(m, packet, truncated, program).0)
  {
    hide Agrees, Follows, EventExecutionMetadata, DispatchRequest, ParseFrom, Stems, HonestRuns, GenerationAfter;
    if m.active {
      BusyPacket(m, packet, truncated, program);
    } else if Parsed(packet, truncated).Some? {
      IdlePacket(m, packet, truncated, program);
      var m' := PacketStep(m, packet, truncated, program).0;
      RunsGrown(m.env, m'.env, m.runs);
      if m.pc.Claim? {
        StemsGrown(m.env, m'.env, m.pc.event, m.pc.serial);
      }
      assert Follows(m'.env.timer, m'.env.acts, m'.env.now);
    }
  }

  lemma IdlePacket(m: Machine, packet: seq<byte>, truncated: bool, program: Program)
    requires Safe(m) && !m.active && Parsed(packet, truncated).Some?
    ensures var m' := PacketStep(m, packet, truncated, program).0;
      && Agrees(m'.loader, m.device)
      && Grew(m.env, m'.env)
      && m' == m.(loader := m'.loader, status := m'.status, env := m'.env, resetPending := m'.resetPending)
  {
    hide Agrees, Follows, EventExecutionMetadata, ParseFrom, DispatchRequest, HonestRuns, Stems, GenerationAfter;
    ParsedWellFormed(packet, truncated);
    var w, request, execute := World(m.loader, m.env.backing, m.status), Parsed(packet, truncated).value,
                               StartProgram(m, program);
    DispatchAgrees(w, m.device, request, execute);
    StartsExactly(w, request, execute);
    BackingKept(w, request, execute);
    var d := DispatchRequest(w, request, execute);
    if d.called.Some? {
      EffectsGrow(m.env, d.called.value, program.calls);
    }
  }

  lemma BackingKept(w: World, request: Request, execute: Execute)
    requires request.payloadLen <= MAX_PAYLOAD
    ensures var d := DispatchRequest(w, request, execute);
      d.called.None? ==> |d.world.backing| == |w.backing|
  {
    hide AcceptLoad, ReadCommand, WriteCommand, Query, Encoded, Payload, ExecutionMetadata, MarkRunning;
  }

  // ---- The main loop ----

  lemma PerformSafe(m: Machine, faults: seq<Fault>)
    requires Safe(m) && m.pc.Performing?
    ensures Safe(MainStep(m, faults, false, None))
  {
    hide Follows, Stems, HonestRuns, InTransfer, Describes, ExecutePending, Stored, GenerationAfter;
    LoaderRuns.FaultsIrrelevant(m.loader, m.device, faults);
    if m.loader.pending.Some? {
      TurnAgrees(m.loader, LoaderRuns.WithFaults(m.device, faults));
    }
  }

  lemma PollSafe(m: Machine)
    requires Safe(m) && m.pc.Polling?
    ensures Safe(MainStep(m, [], false, None))
  {
    hide Agrees, GenerationAfter, HonestRuns;
    PollFollows(m.env.timer, m.env.acts, m.env.now);
    RunsGrown(m.env, m.env.(timer := Poll(m.env.timer, m.env.now)), m.runs);
  }

  lemma TakeSafe(m: Machine)
    requires Safe(m) && m.pc.Take?
    ensures Safe(MainStep(m, [], false, None))
  {
    hide Agrees, GenerationAfter;
    var env' := m.env.(timer := m.env.timer.(ready := None));
    RunsGrown(m.env, env', m.runs);
    assert forall i :: 0 <= i < |m.runs| ==> Honest(m.runs[i], m.env);
  }

  lemma LaunchSafe(m: Machine)
    requires Safe(m) && m.pc.Launch?
    ensures Safe(MainStep(m, [], false, None))
  {
    hide Agrees, GenerationAfter, EventExecutionMetadata;
    SameGeneration(m.pc.serial, |m.env.acts|);
    var run := TimerRun(m.pc.serial, m.pc.event.cookie, m.env.now, |m.env.acts|);
    assert Honest(run, m.env);
  }

  lemma ExecSafe(m: Machine, call: Option<ProgramCall>)
    requires Safe(m) && m.pc.Exec?
    ensures Safe(MainStep(m, [], false, call))
  {
    hide Agrees, Follows, HonestRuns, EventExecutionMetadata, Effect;
    if call.Some? {
      EffectGrows(m.env, m.pc.metadata, call.value);
      RunsGrown(m.env, Effect(m.env, m.pc.metadata, call.value), m.runs);
    }
  }

  lemma MainSafe(m: Machine, faults: seq<Fault>, busIdle: bool, call: Option<ProgramCall>)
    requires Safe(m)
    ensures Safe(MainStep(m, faults, busIdle, call))
  {
    hide Agrees, Follows, HonestRuns, Stems, GenerationAfter, Boot, ExecutePending, Effect, Poll;
    match m.pc
    case Top =>
      if m.resetPending {
        assert ValidDevice(m.device) by { AgreesValid(m); }
        BootSafe(m.device, faults);
      }
    case Performing => PerformSafe(m, faults);
    case Polling => PollSafe(m);
    case Take => TakeSafe(m);
    case Launch(_, _, _) => LaunchSafe(m);
    case Exec(_) => ExecSafe(m, call);
    case _ =>
  }

  lemma AgreesValid(m: Machine)
    requires Safe(m)
    ensures ValidDevice(m.device)
  {}

  lemma TickSafe(m: Machine, time: nat)
    requires Safe(m)
    ensures Safe(Step(m, Tick(time)))
  {
    hide Agrees, GenerationAfter, EventExecutionMetadata;
    var env' := m.env.(now := m.env.now + time);
    RunsGrown(m.env, env', m.runs);
  }

  lemma StepSafe(m: Machine, event: Event)
    requires Safe(m)
    ensures Safe(Step(m, event))
  {
    hide Safe, MainStep, PacketStep, Boot;
    match event
    case Main(faults, busIdle, call) => MainSafe(m, faults, busIdle, call);
    case Packet(packet, truncated, program) => PacketSafe(m, packet, truncated, program);
    case Tick(time) => TickSafe(m, time);
    case PowerCycle(faults) =>
      AgreesValid(m);
      BootSafe(m.device, faults);
  }

  /** Every state of every interleaving is safe. */
  lemma {:induction false} RunSafe(bytes: seq<byte>, faults: seq<Fault>, events: seq<Event>)
    requires |bytes| == FLASH_SIZE
    ensures Safe(Run(PowerOn(bytes, faults), events))
  {
    hide Safe, Step, Boot;
    if events == [] {
      BootSafe(Device(bytes, [], false, []), faults);
    } else {
      RunSafe(bytes, faults, events[..|events| - 1]);
      StepSafe(Run(PowerOn(bytes, faults), events[..|events| - 1]), events[|events| - 1]);
    }
  }
}
