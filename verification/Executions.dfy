/** Program executions under every interleaving of the main loop and the interrupt. */
module Executions {
  import opened Bytes
  import opened Dispatch
  import opened Frames
  import opened ImageFormat
  import opened LoaderAgreement
  import opened LoaderModel
  import opened MapAccess
  import opened MapElements
  import opened MapLayouts
  import opened NorFlash
  import opened Runtime
  import opened Timer
  import LoaderRuns
  import WriteDiscipline

  /** The flash holds a vetted image and the metadata describes it; no load is parked. */
  ghost predicate Runnable(l: Loader, d: Device, metadata: ProgramMetadata) {
    && l.pending.None?
    && Loaded(l)
    && metadata == CommittedMetadata(l)
    && ValidDevice(d)
    && Stored(d.bytes).Some?
    && var image := Stored(d.bytes).value;
       metadata.bytecodeLen == image.declared.bytecodeLen && Exposes(l, Descriptors(image))
  }

  lemma AgreementRuns(l: Loader, d: Device)
    requires Agrees(l, d) && EventExecutionMetadata(l).Ok?
    ensures Runnable(l, d, EventExecutionMetadata(l).value)
  {
    hide InTransfer, Stored;
    AgreementExposes(l, d);
  }

  /** Whenever a timer event's program executes, it holds the claim, the helpers serve its maps and
      no others, and it is the image the flash holds. */
  lemma TimerExecution(bytes: seq<byte>, faults: seq<Fault>, events: seq<Event>)
    requires |bytes| == FLASH_SIZE
    ensures var m := Run(PowerOn(bytes, faults), events);
      m.pc.Exec? ==> m.active && m.helpers == Some(m.pc.metadata) && Runnable(m.loader, m.device, m.pc.metadata)
  {
    hide Agrees, Run, HonestRuns, Follows, PowerOn, EventExecutionMetadata;
    RunSafe(bytes, faults, events);
    var m := Run(PowerOn(bytes, faults), events);
    if m.pc.Exec? {
      AgreementRuns(m.loader, m.device);
    }
  }

  /** The program a packet makes the interrupt execute, if any. */
  function Started(m: Machine, packet: seq<byte>, truncated: bool, program: Program): Option<ProgramMetadata> {
    var request := Parsed(packet, truncated);
    if request.None? || (m.active && request.value.command != CMD_RESET) then None
    else Dispatching(m, packet, truncated, program).called
  }

  /** Whenever a Start executes a program inside the interrupt, nothing else executes, its claim
      succeeds, an image is committed and it is the image the flash holds. It executes exactly for
      a well-formed Start that meets these conditions. */
  lemma StartExecution(bytes: seq<byte>, faults: seq<Fault>, events: seq<Event>,
                       packet: seq<byte>, truncated: bool, program: Program)
    requires |bytes| == FLASH_SIZE
    ensures var m := Run(PowerOn(bytes, faults), events);
      var started := Started(m, packet, truncated, program);
      && (started.Some? <==> Parsed(packet, truncated).Some?
                             && IsCommand(Parsed(packet, truncated).value, CMD_START_BPF)
                             && !m.active && m.loader.pending.None? && m.loader.state.Committed?)
      && (started.Some? ==>
            && m.helpers == None && !m.pc.Exec?
            && Runnable(m.loader, m.device, started.value)
            && var m' := Step(m, Packet(packet, truncated, program));
               && m'.device == m.device
               && m'.env == Effects(m.env, started.value, program.calls)
               && (m'.loader.state.Running? <==> program.result == Ok(0)))
  {
    hide Agrees, Run, HonestRuns, Follows, PowerOn, ParseFrom, DispatchRequest, EventFits, Effects;
    RunSafe(bytes, faults, events);
    var m := Run(PowerOn(bytes, faults), events);
    var request := Parsed(packet, truncated);
    if request.Some? {
      ParsedWellFormed(packet, truncated);
      StartsExactly(World(m.loader, m.env.backing, m.status), request.value, StartProgram(m, program));
      if Started(m, packet, truncated, program).Some? {
        SameEnvironment(m.env);
        AgreementRuns(m.loader, m.device);
      }
    }
  }

  lemma SameEnvironment(env: Env)
    ensures env.(backing := env.backing) == env
  {}

  /** While a claim is held nothing but a power cycle changes loader, flash or status: no load is
      performed, no other program runs, and packets leave maps and timer alone too. */
  lemma ActiveUndisturbed(bytes: seq<byte>, faults: seq<Fault>, events: seq<Event>, event: Event)
    requires |bytes| == FLASH_SIZE && !event.PowerCycle?
    ensures var m := Run(PowerOn(bytes, faults), events);
      var m' := Step(m, event);
      m.active ==>
        && m'.loader == m.loader && m'.device == m.device && m'.status == m.status
        && (event.Packet? ==> m' == m.(resetPending := m'.resetPending))
  {
    hide Agrees, Run, HonestRuns, Follows, PowerOn, EventFits, PacketStep;
    RunSafe(bytes, faults, events);
    var m := Run(PowerOn(bytes, faults), events);
    if m.active && event.Packet? {
      BusyPacket(m, event.packet, event.truncated, event.program);
    }
  }

  lemma PacketStays(m: Machine, event: Event)
    requires event.Packet?
    ensures Step(m, event).pc == m.pc && Step(m, event).active == m.active
  {
    hide Dispatching, Effects;
  }

  lemma {:induction false} RunConcat(m: Machine, a: seq<Event>, b: seq<Event>)
    ensures Run(m, a + b) == Run(Run(m, a), b)
  {
    hide Step;
    if b == [] {
      assert a + b == a;
    } else {
      assert (a + b)[..|a + b| - 1] == a + b[..|b| - 1];
      RunConcat(m, a, b[..|b| - 1]);
    }
  }

  // ---- What a program can change ----

  /** A program's write takes effect exactly inside one of its image's maps, and changes no other map. */
  lemma StoreConfined(env: Env, l: Loader, ds: seq<Descriptor>, id: nat, offset: nat, bytes: seq<byte>)
    requires Exposes(l, ds) && |env.backing| == MAX_MAP_BYTES
    ensures var env' := Effect(env, CommittedMetadata(l), Store(id, offset, bytes));
      && env' == env.(backing := env'.backing) && |env'.backing| == MAX_MAP_BYTES
      && if id < |ds| && offset + |bytes| <= Size(ds[id])
         then
           && MapBytes(ds, id, env'.backing) == Splice(MapBytes(ds, id, env.backing), offset, bytes)
           && forall j :: 0 <= j < |ds| && j != id ==> MapBytes(ds, j, env'.backing) == MapBytes(ds, j, env.backing)
         else env' == env
  {
    hide Size, Total, MapBytes;
    MetadataLists(l, ds);
    if id < |ds| {
      TotalOfPrefix(ds, id);
      if offset + |bytes| <= Size(ds[id]) {
        MapWritten(ds, id, offset, bytes, env.backing);
      }
    }
  }

  /** An update through the helper is such a write, at index times value size. */
  lemma HelperUpdateStores(env: Env, l: Loader, ds: seq<Descriptor>, id: nat, key: Pointed, value: Pointed)
    requires Exposes(l, ds) && |env.backing| == MAX_MAP_BYTES && id < |ds|
    requires Readable(key, 4) && KeyOf(key.value) < ds[id].maxEntries && Readable(value, ds[id].valueSize)
    ensures MapsInside(CommittedMetadata(l), MAX_MAP_BYTES)
    ensures HelperUpdate(Some(CommittedMetadata(l)), Total(ds[..id]), key, value, 0, env.backing)
         == (true, Effect(env, CommittedMetadata(l), Store(id, KeyOf(key.value) * ds[id].valueSize,
                                                           value.value[..ds[id].valueSize])).backing)
  {
    hide Size, Total, MapBytes, U32, HelperUpdate, Entries;
    MetadataLists(l, ds);
    HelperUpdateExact(l, ds, id, key, value, 0, env.backing);
    UpdateExact(ds, id, KeyOf(key.value), value.value[..ds[id].valueSize], env.backing);
    TotalOfPrefix(ds, id);
  }

  // ---- Every claim is released ----

  function Distance(pc: Pc): nat {
    match pc
    case CheckGeneration(_, _) => 5
    case Fetch(_, _) => 4
    case Launch(_, _, _) => 3
    case Exec(_) => 2
    case Release => 1
    case _ => 0
  }

  /** A held claim comes strictly closer to its release with every main-loop step, except while the
      program itself goes on; nothing moves it further away, and at distance zero it is released. */
  lemma ClaimReleased(bytes: seq<byte>, faults: seq<Fault>, events: seq<Event>, event: Event)
    requires |bytes| == FLASH_SIZE
    ensures var m := Run(PowerOn(bytes, faults), events);
      && (m.active <==> Distance(m.pc) > 0)
      && (m.active ==>
            && Distance(Step(m, event).pc) <= Distance(m.pc)
            && (event.Main? && (m.pc.Exec? ==> event.call.None?) ==> Distance(Step(m, event).pc) < Distance(m.pc)))
  {
    hide Agrees, Run, HonestRuns, Follows, PowerOn, EventFits, PacketStep, ValidateCommitted;
    RunSafe(bytes, faults, events);
    var m := Run(PowerOn(bytes, faults), events);
    if m.active && event.Packet? {
      BusyPacket(m, event.packet, event.truncated, event.program);
    }
  }

  // ---- Timer events ----

  /**
   Timer staleness and "at most once". Over any run since boot each timer execution serves a
   different schedule, in order, with that schedule's cookie and not before its deadline; and if
   fewer than 2^32 - 1 schedules and cancels came after that schedule, there were none.
   */
  lemma TimerRunsHonest(bytes: seq<byte>, faults: seq<Fault>, events: seq<Event>)
    requires |bytes| == FLASH_SIZE
    ensures var m := Run(PowerOn(bytes, faults), events);
      && (forall i, j :: 0 <= i < j < |m.runs| ==> m.runs[i].serial < m.runs[j].serial)
      && forall i :: 0 <= i < |m.runs| ==>
           var run := m.runs[i];
           && 1 <= run.serial <= run.bumps <= |m.env.acts|
           && m.env.acts[run.serial - 1].Scheduled?
           && m.env.acts[run.serial - 1].cookie == run.cookie
           && m.env.acts[run.serial - 1].deadline <= run.at
           && (run.bumps - run.serial < CYCLE ==> run.bumps == run.serial)
  {
    hide Agrees, Run, Follows, PowerOn, EventFits, Exclusive;
    RunSafe(bytes, faults, events);
    var m := Run(PowerOn(bytes, faults), events);
    forall i | 0 <= i < |m.runs|
      ensures m.runs[i].bumps - m.runs[i].serial < CYCLE ==> m.runs[i].bumps == m.runs[i].serial
    {
      assert Honest(m.runs[i], m.env);
    }
  }

  /** The generation counts the schedules and cancels since boot, and what waits carries it. */
  lemma GenerationsCurrent(bytes: seq<byte>, faults: seq<Fault>, events: seq<Event>)
    requires |bytes| == FLASH_SIZE
    ensures var m := Run(PowerOn(bytes, faults), events);
      var t := m.env.timer;
      && t.generation == GenerationAfter(|m.env.acts|)
      && (m.env.acts != [] ==> t.generation != 0)
      && (t.pending.Some? ==> t.pending.value.generation == t.generation)
      && (t.ready.Some? ==> t.ready.value.generation == t.generation)
  {
    hide Agrees, Run, PowerOn, EventFits, Exclusive, HonestRuns;
    RunSafe(bytes, faults, events);
  }

  /** A claimed event goes on exactly if a whole number of generation cycles passed since its
      schedule; with fewer than 2^32 - 1 bumps, exactly if none followed. */
  lemma EventChecked(bytes: seq<byte>, faults: seq<Fault>, events: seq<Event>, faults': seq<Fault>, idle: bool)
    requires |bytes| == FLASH_SIZE
    ensures var m := Run(PowerOn(bytes, faults), events);
      m.pc.CheckGeneration? ==>
        && 1 <= m.pc.serial <= |m.env.acts|
        && (Step(m, Main(faults', idle, None)).pc.Fetch? <==> (|m.env.acts| - m.pc.serial) % CYCLE == 0)
  {
    hide Agrees, Run, PowerOn, Exclusive, HonestRuns, GenerationAfter;
    RunSafe(bytes, faults, events);
    var m := Run(PowerOn(bytes, faults), events);
    if m.pc.CheckGeneration? {
      SameGeneration(m.pc.serial, |m.env.acts|);
    }
  }

  function Cancels(count: nat): seq<ProgramCall> { seq(count, _ => CancelCall) }

  lemma {:induction false} CancelsCount(env: Env, metadata: ProgramMetadata, count: nat)
    ensures |Effects(env, metadata, Cancels(count)).acts| == |env.acts| + count
  {
    if count > 0 {
      assert Cancels(count)[..count - 1] == Cancels(count - 1);
      CancelsCount(env, metadata, count - 1);
    }
  }

  /** Inputs that show that the bound is needed: a taken event waits for its claim while a Start runs a
      program that cancels 2^32 - 1 times, and then the cancelled event goes on all the same. */
  lemma StaleEventRuns(m: Machine, sequence: byte)
    requires Safe(m) && m.pc.Claim? && m.pc.serial == |m.env.acts|
    requires m.loader.pending.None? && m.loader.state.Committed?
    ensures var start := Packet(Encoded(CMD_START_BPF, sequence, 0, []), false, Program(Cancels(CYCLE), Ok(1)));
      var m' := Step(m, start);
      && |m'.env.acts| == |m.env.acts| + CYCLE && m'.pc == m.pc
      && Undisturbed(m', 2).pc == Fetch(m.pc.event, m.pc.serial)
  {
    hide Agrees, HonestRuns, GenerationAfter, Cancels, Effects, Encoded, ParseFrom, CommittedMetadata;
    EncodedParses(CMD_START_BPF, sequence, 0, []);
    var program := Program(Cancels(CYCLE), Ok(1));
    var w := World(m.loader, m.env.backing, m.status);
    var request := Request(CMD_START_BPF, sequence, 0, Padded([]), 0);
    var metadata := CommittedMetadata(m.loader);
    StartsExactly(w, request, StartProgram(m, program));
    CancelsCount(m.env, metadata, CYCLE);
    EffectsGrow(m.env, metadata, program.calls);
    SameEnvironment(m.env);
    SameGeneration(m.pc.serial, m.pc.serial + CYCLE);
    var m' := PacketStep(m, Encoded(CMD_START_BPF, sequence, 0, []), false, program).0;
    assert m'.env == Effects(m.env, metadata, program.calls);
    assert Undisturbed(m', 0) == m';
    assert Undisturbed(m', 1) == m'.(pc := CheckGeneration(m.pc.event, m.pc.serial), active := true);
  }

  /** The main loop alone: working flash, an idle bus, programs that return at once. */
  function Undisturbed(m: Machine, steps: nat): Machine {
    if steps == 0 then m else MainStep(Undisturbed(m, steps - 1), [], true, None)
  }

  function Turns(steps: nat): seq<Event> { seq(steps, _ => Main([], true, None)) }

  lemma {:induction false} TurnsRun(m: Machine, steps: nat)
    ensures Run(m, Turns(steps)) == Undisturbed(m, steps)
  {
    hide MainStep;
    if steps > 0 {
      assert Turns(steps)[..steps - 1] == Turns(steps - 1);
      TurnsRun(m, steps - 1);
    }
  }

  lemma {:induction false} UndisturbedMore(m: Machine, a: nat, b: nat)
    ensures Undisturbed(m, a + b) == Undisturbed(Undisturbed(m, a), b)
  {
    hide MainStep;
    if b > 0 {
      UndisturbedMore(m, a, b - 1);
    }
  }

  lemma DueTimerTaken(m: Machine)
    requires m.pc.Polling?
    requires Follows(m.env.timer, m.env.acts, m.env.now)
    requires m.env.timer.pending.Some? && m.env.timer.pending.value.deadline <= m.env.now
    ensures Undisturbed(m, 2)
         == m.(pc := Claim(TimerEvent(m.env.timer.generation, m.env.timer.pending.value.cookie), |m.env.acts|),
               env := m.env.(timer := Clockwork(m.env.timer.generation, None, None)))
  {
    hide GenerationAfter;
    assert Undisturbed(m, 1) == m.(pc := Take, env := m.env.(timer := Poll(m.env.timer, m.env.now)));
  }

  lemma ClaimedEventRuns(m: Machine)
    requires m.pc.Claim? && !m.active && m.env.timer.generation == m.pc.event.generation
    requires m.loader.pending.None? && Loaded(m.loader)
    ensures Undisturbed(m, 4)
         == m.(pc := Exec(CommittedMetadata(m.loader)), active := true, helpers := Some(CommittedMetadata(m.loader)),
               runs := m.runs + [TimerRun(m.pc.serial, m.pc.event.cookie, m.env.now, |m.env.acts|)])
  {
    hide CommittedMetadata;
    assert Undisturbed(m, 1) == m.(pc := CheckGeneration(m.pc.event, m.pc.serial), active := true);
    assert Undisturbed(m, 2) == m.(pc := Fetch(m.pc.event, m.pc.serial), active := true);
    assert Undisturbed(m, 3) == m.(pc := Launch(m.pc.event, m.pc.serial, CommittedMetadata(m.loader)), active := true);
  }

  lemma IdleTurnPassed(m: Machine)
    requires m.pc.Top? && !m.resetPending && m.loader.pending.None?
    ensures Undisturbed(m, 3) == m.(pc := Polling)
  {
    assert Undisturbed(m, 1) == m.(pc := Check);
    assert Undisturbed(m, 2) == m.(pc := Performing);
  }

  /** A due timer is not lost: with a program loaded and no load or reset pending, the main loop
      executes that program for exactly this schedule after nine steps. */
  lemma DueTimerRuns(m: Machine)
    requires Safe(m) && m.pc.Top? && !m.resetPending && m.loader.pending.None? && Loaded(m.loader)
    requires m.env.timer.pending.Some? && m.env.timer.pending.value.deadline <= m.env.now
    ensures var m' := Undisturbed(m, 9);
      && m'.pc == Exec(CommittedMetadata(m.loader)) && m'.active
      && m'.runs == m.runs + [TimerRun(|m.env.acts|, m.env.timer.pending.value.cookie, m.env.now, |m.env.acts|)]
      && m'.loader == m.loader && m'.device == m.device
  {
    hide Agrees, HonestRuns, Follows, CommittedMetadata, Undisturbed, EventFits;
    IdleTurnPassed(m);
    UndisturbedMore(m, 3, 2);
    DueTimerTaken(Undisturbed(m, 3));
    UndisturbedMore(m, 5, 4);
    ClaimedEventRuns(Undisturbed(m, 5));
  }

  // ---- The loader inside the machine ----

  /** Each step of the machine is at most one step of the loader. */
  lemma StepProjects(m: Machine, event: Event, history: seq<LoaderRuns.Action>)
    returns (step: Option<LoaderRuns.Event>)
    requires Safe(m)
    ensures var m' := Step(m, event);
      var n := LoaderRuns.Node(m.loader, m.device, history);
      match step
      case None => m'.loader == m.loader && m'.device == m.device
      case Some(e) => m'.loader == LoaderRuns.Step(n, e).loader && m'.device == LoaderRuns.Step(n, e).device
  {
    hide Safe, ValidateCommitted, ExecutePending, AcceptLoad, ParseFrom, DispatchRequest, Effect, Effects;
    step := None;
    match event
    case PowerCycle(faults) => step := Some(LoaderRuns.Reboot(faults));
    case Main(faults, _, _) =>
      if m.pc.Top? && m.resetPending {
        step := Some(LoaderRuns.Reboot(faults));
      } else if m.pc.Performing? && m.loader.pending.Some? {
        step := Some(LoaderRuns.Turn(faults));
      }
    case Tick(_) =>
    case Packet(packet, truncated, program) =>
      var request := Parsed(packet, truncated);
      if request.Some? && !(m.active && request.value.command != CMD_RESET) {
        ParsedWellFormed(packet, truncated);
        var w := World(m.loader, m.env.backing, m.status);
        step := EventOf(w, request.value, StartProgram(m, program));
        DispatchIsLoaderStep(w, m.device, request.value, StartProgram(m, program));
      }
  }

  /** So the machine's loader and flash are those of a run of the loader alone, and everything proved
      of loader runs, crash safety included, holds inside the machine. */
  lemma {:induction false} RunProjects(bytes: seq<byte>, faults: seq<Fault>, events: seq<Event>)
    returns (steps: seq<LoaderRuns.Event>)
    requires |bytes| == FLASH_SIZE
    ensures var m := Run(PowerOn(bytes, faults), events);
      var n := LoaderRuns.Run(LoaderRuns.PowerOn(bytes, faults), steps);
      n.loader == m.loader && n.device == m.device
  {
    hide Step, LoaderRuns.Step, ValidateCommitted, Safe;
    if events == [] {
      steps := [];
      PowerOnProjects(bytes, faults);
    } else {
      var before := events[..|events| - 1];
      var earlier := RunProjects(bytes, faults, before);
      RunSafe(bytes, faults, before);
      var n := LoaderRuns.Run(LoaderRuns.PowerOn(bytes, faults), earlier);
      var step := StepProjects(Run(PowerOn(bytes, faults), before), events[|events| - 1], n.history);
      if step.Some? {
        steps := earlier + [step.value];
        assert steps[..|steps| - 1] == earlier;
      } else {
        steps := earlier;
      }
    }
  }

  lemma PowerOnProjects(bytes: seq<byte>, faults: seq<Fault>)
    ensures PowerOn(bytes, faults).loader == LoaderRuns.PowerOn(bytes, faults).loader
    ensures PowerOn(bytes, faults).device == LoaderRuns.PowerOn(bytes, faults).device
  {
    hide ValidateCommitted;
  }

  /** Crash safety of the whole machine: stop it anywhere and boot. What comes up is no image, the
      image the flash held at first with the flash never changed, or one completely sent before a
      Finalize that left the flash as it is, in a history that explains loader and flash. */
  lemma MachineCrashSafety(bytes: seq<byte>, faults: seq<Fault>, events: seq<Event>, bootFaults: seq<Fault>)
    returns (history: seq<LoaderRuns.Action>)
    requires |bytes| == FLASH_SIZE
    ensures var d := Run(PowerOn(bytes, faults), events).device;
      var booted := Boot(d, bootFaults);
      && booted.device.bytes == d.bytes && ValidDevice(d)
      && match booted.loader.state
         case Committed(crc) =>
           && Describes(booted.loader, booted.device, crc)
           && Vetted(Stored(d.bytes).value)
           && (d.bytes == bytes || LoaderRuns.LeftByFinalize(bytes, history, d.bytes, Stored(d.bytes).value))
         case _ => NoMaps(booted.loader)
    ensures var m := Run(PowerOn(bytes, faults), events);
      LoaderRuns.Sequential(LoaderRuns.Node(m.loader, m.device, history), bytes)
    ensures forall op :: op in Run(PowerOn(bytes, faults), events).device.log ==> WriteDiscipline.InSlot(op)
  {
    hide Step, LoaderRuns.Step, ValidateCommitted, Safe, Run, LoaderRuns.Run, PowerOn, LoaderRuns.PowerOn, Stored;
    var steps := RunProjects(bytes, faults, events);
    history := LoaderRuns.Run(LoaderRuns.PowerOn(bytes, faults), steps).history;
    LoaderRuns.CrashSafety(bytes, faults, steps, bootFaults);
    LoaderRuns.RefinesSequential(bytes, faults, steps);
    WriteDiscipline.RunStaysInSlot(bytes, faults, steps);
  }
}
