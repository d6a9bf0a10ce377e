/** What becomes of a timer event once the main loop has taken it. */
module EventFates {
  import opened Bytes
  import opened Dispatch
  import opened Executions
  import opened Frames
  import opened HostUploads
  import opened ImageFormat
  import opened LoaderAgreement
  import opened LoaderModel
  import opened MapAccess
  import opened NorFlash
  import opened Runtime
  import opened Timer
  import opened Uploads
  import LoaderRuns

  // ---- Exactly when an event executes ----

  function MainSteps(events: seq<Event>): nat {
    if events == [] then 0
    else MainSteps(events[..|events| - 1]) + if events[|events| - 1].Main? then 1 else 0
  }

  predicate NoPowerCycle(events: seq<Event>) { forall i :: 0 <= i < |events| ==> !events[i].PowerCycle? }

  /** A claimed event is current, and the loader is ready for it. */
  predicate Goes(m: Machine)
    requires m.pc.CheckGeneration? && m.pc.serial <= |m.env.acts|
  {
    (|m.env.acts| - m.pc.serial) % CYCLE == 0 && m.loader.pending.None? && Loaded(m.loader)
  }

  /** Everything the event's fate depends on is as it was. */
  predicate Same(m: Machine, m': Machine) {
    && m'.loader == m.loader && m'.env.timer == m.env.timer && m'.env.acts == m.env.acts
    && m.env.now <= m'.env.now
  }

  /** Where the machine is after so many steps of its main loop. */
  predicate Phase(m: Machine, steps: nat, m': Machine)
    requires m.pc.CheckGeneration?
  {
    var (event, serial) := (m.pc.event, m.pc.serial);
    var current := m.env.timer.generation == event.generation;
    var metadata := EventExecutionMetadata(m.loader);
    match steps
    case 0 => m'.pc == m.pc && Same(m, m') && m'.runs == m.runs
    case 1 => if current then m'.pc == Fetch(event, serial) && Same(m, m') && m'.runs == m.runs else m'.pc.Release?
    case 2 =>
      if current && metadata.Ok?
      then m'.pc == Launch(event, serial, metadata.value) && Same(m, m') && m'.runs == m.runs
      else m'.pc.Release? || m'.pc.Top?
    case 3 =>
      if current && metadata.Ok?
      then
        && m'.pc == Exec(metadata.value) && |m'.runs| == |m.runs| + 1 && m'.runs[..|m.runs|] == m.runs
        && m'.runs[|m.runs|].serial == serial && m'.runs[|m.runs|].cookie == event.cookie
      else m'.pc.Top? || m'.pc.Check?
    case _ => true
  }

  lemma StepPhase(m: Machine, steps: nat, m': Machine, event: Event)
    requires m.pc.CheckGeneration? && Exclusive(m') && Phase(m, steps, m')
    requires !event.PowerCycle?
    ensures Phase(m, if event.Main? then steps + 1 else steps, Step(m', event))
  {
    hide PacketStep, EventExecutionMetadata, Boot;
    match event
    case Packet(_, _, _) =>
      PacketStays(m', event);
      if m'.active {
        BusyPacket(m', event.packet, event.truncated, event.program);
      }
    case Main(_, _, _) => BootTop(m', event.faults);
    case Tick(_) =>
  }

  lemma BootTop(m: Machine, faults: seq<Fault>)
    ensures Boot(m.device, faults).pc.Top?
  {
    hide ValidateCommitted;
  }

  lemma {:induction false} EventPhase(m: Machine, later: seq<Event>)
    requires Safe(m) && m.pc.CheckGeneration? && NoPowerCycle(later)
    ensures Safe(Run(m, later)) && Phase(m, MainSteps(later), Run(m, later))
  {
    hide Safe, Step, Phase;
    if later == [] {
      PhaseStarts(m);
    } else {
      var before := later[..|later| - 1];
      EventPhase(m, before);
      StepSafe(Run(m, before), later[|later| - 1]);
      SafeExclusive(Run(m, before));
      StepPhase(m, MainSteps(before), Run(m, before), later[|later| - 1]);
    }
  }

  lemma PhaseStarts(m: Machine)
    requires m.pc.CheckGeneration?
    ensures Phase(m, 0, m)
  {}

  lemma SafeExclusive(m: Machine)
    requires Safe(m)
    ensures Exclusive(m)
  {}

  lemma GoesExactly(m: Machine)
    requires Safe(m) && m.pc.CheckGeneration?
    ensures 1 <= m.pc.serial <= |m.env.acts|
    ensures Goes(m) <==> m.env.timer.generation == m.pc.event.generation && EventExecutionMetadata(m.loader).Ok?
  {
    hide Agrees, HonestRuns, GenerationAfter, CommittedMetadata;
    SameGeneration(m.pc.serial, |m.env.acts|);
  }

  /**
   The fate of a claimed event. Whatever packets and delays come between them, after three steps of
   the main loop its program executes exactly if a whole number of generation cycles passed since its
   schedule, no load is parked and an image is loaded; then exactly one execution, of this schedule
   with its cookie, is added. A load parked meanwhile does not matter: none can be.
   */
  lemma EventFate(bytes: seq<byte>, faults: seq<Fault>, events: seq<Event>, later: seq<Event>)
    requires |bytes| == FLASH_SIZE && NoPowerCycle(later) && MainSteps(later) == 3
    ensures var m := Run(PowerOn(bytes, faults), events);
      var m' := Run(m, later);
      m.pc.CheckGeneration? ==>
        && 1 <= m.pc.serial <= |m.env.acts|
        && (m'.pc.Exec? <==> Goes(m))
        && (Goes(m) ==>
              && |m'.runs| == |m.runs| + 1 && m'.runs[..|m.runs|] == m.runs
              && m'.runs[|m.runs|].serial == m.pc.serial && m'.runs[|m.runs|].cookie == m.pc.event.cookie)
  {
    hide Safe, Run, PowerOn, EventExecutionMetadata, Goes;
    RunSafe(bytes, faults, events);
    var m := Run(PowerOn(bytes, faults), events);
    if m.pc.CheckGeneration? {
      GoesExactly(m);
      EventPhase(m, later);
    }
  }

  // ---- An event that does not execute is gone ----

  /** No reset is waiting or coming, so the history keeps its count. */
  predicate NoReset(event: Event) {
    && !event.PowerCycle?
    && (event.Packet? && Parsed(event.packet, event.truncated).Some? ==>
          Parsed(event.packet, event.truncated).value.command != CMD_RESET)
  }

  /** The schedule with this number has not run and nothing that waits or was taken stems from it. */
  ghost predicate Past(m: Machine, serial: nat) {
    && serial <= |m.env.acts| && (Waiting(m.env) ==> serial < |m.env.acts|)
    && (forall i :: 0 <= i < |m.runs| ==> m.runs[i].serial != serial)
    && (m.pc.Claim? || m.pc.CheckGeneration? || m.pc.Fetch? || m.pc.Launch? ==> m.pc.serial > serial)
  }

  /** It is past, or claimed and about to be found stale or the loader not ready. */
  ghost predicate Doomed(m: Machine, serial: nat) {
    || Past(m, serial)
    || (m.pc.CheckGeneration? && m.pc.serial == serial && !(m.env.timer.generation == m.pc.event.generation
                                                           && EventExecutionMetadata(m.loader).Ok?))
    || (m.pc.Fetch? && m.pc.serial == serial && EventExecutionMetadata(m.loader).Err?)
  }

  lemma PacketPast(m: Machine, event: Event, serial: nat)
    requires Steady(m) && event.Packet? && NoReset(event) && Past(m, serial)
    ensures Past(Step(m, event), serial) && !Step(m, event).resetPending
  {
    hide Agrees, Follows, EventFits, HonestRuns, DispatchRequest, ParseFrom;
    PacketStays(m, event);
    if m.active {
      BusyPacket(m, event.packet, event.truncated, event.program);
    } else if Parsed(event.packet, event.truncated).Some? {
      IdlePacket(m, event.packet, event.truncated, event.program);
      ResetExactly(m, event);
    }
  }

  lemma ResetExactly(m: Machine, event: Event)
    requires event.Packet? && NoReset(event) && !m.resetPending
    ensures !Step(m, event).resetPending
  {
    hide DispatchRequest, ParseFrom, Effects;
    if Parsed(event.packet, event.truncated).Some? {
      ParsedWellFormed(event.packet, event.truncated);
      RefusalsChangeNothing(World(m.loader, m.env.backing, m.status), Parsed(event.packet, event.truncated).value,
                            StartProgram(m, event.program));
    }
  }

  lemma StepDoomed(m: Machine, event: Event, serial: nat)
    requires Steady(m) && NoReset(event) && Doomed(m, serial)
    ensures Doomed(Step(m, event), serial) && !Step(m, event).resetPending
  {
    hide Agrees, HonestRuns, PacketStep, EventExecutionMetadata, GenerationAfter, ExecutePending, Honest, ParseFrom;
    assert Newest(m.runs, serial) || Past(m, serial);
    match event
    case Packet(_, _, _) =>
      if Past(m, serial) {
        PacketPast(m, event, serial);
      } else {
        BusyPacket(m, event.packet, event.truncated, event.program);
        ResetExactly(m, event);
      }
    case Main(_, _, call) =>
      if m.pc.Exec? && call.Some? {
        EffectGrows(m.env, m.pc.metadata, call.value);
      }
    case Tick(_) =>
    case PowerCycle(_) =>
  }

  lemma {:induction false} RunDoomed(m: Machine, later: seq<Event>, serial: nat)
    requires Steady(m) && Doomed(m, serial)
    requires forall i :: 0 <= i < |later| ==> NoReset(later[i])
    ensures Steady(Run(m, later)) && Doomed(Run(m, later), serial)
  {
    hide Safe, Step, Doomed, NoReset;
    if later != [] {
      var before, last := later[..|later| - 1], later[|later| - 1];
      RunDoomed(m, before, serial);
      StepSafe(Run(m, before), last);
      StepDoomed(Run(m, before), last, serial);
    }
  }

  /** A claimed event that does not execute then never does: until the next reset no execution, before
      or after, serves its schedule. */
  lemma EventGone(bytes: seq<byte>, faults: seq<Fault>, events: seq<Event>, later: seq<Event>)
    requires |bytes| == FLASH_SIZE
    requires forall i :: 0 <= i < |later| ==> NoReset(later[i])
    ensures var m := Run(PowerOn(bytes, faults), events);
      var m' := Run(m, later);
      m.pc.CheckGeneration? && !m.resetPending ==>
        && 1 <= m.pc.serial <= |m.env.acts|
        && (!Goes(m) ==> forall i :: 0 <= i < |m'.runs| ==> m'.runs[i].serial != m.pc.serial)
  {
    hide Run, PowerOn, EventExecutionMetadata, Goes, Agrees, Follows, HonestRuns, NoReset;
    RunSafe(bytes, faults, events);
    var m := Run(PowerOn(bytes, faults), events);
    if m.pc.CheckGeneration? && !m.resetPending {
      GoesExactly(m);
      if !Goes(m) {
        RunDoomed(m, later, m.pc.serial);
        DoomedUnserved(Run(m, later), m.pc.serial);
      }
    }
  }

  lemma DoomedUnserved(m: Machine, serial: nat)
    requires Safe(m) && Doomed(m, serial)
    ensures forall i :: 0 <= i < |m.runs| ==> m.runs[i].serial != serial
  {
    hide Agrees, HonestRuns, Follows, EventExecutionMetadata;
  }

  // ---- Reaching a claim, a dropped event and a stale one ----

  function StartFrame(sequence: byte, calls: seq<ProgramCall>): Event {
    Packet(Encoded(CMD_START_BPF, sequence, 0, []), false, Program(calls, Ok(1)))
  }

  /** A program that fails leaves everything alone but what it did to maps and timer. */
  lemma StartRuns(m: Machine, sequence: byte, calls: seq<ProgramCall>)
    requires !m.active && m.loader.pending.None? && m.loader.state.Committed?
    requires |m.env.backing| == |Effects(m.env, CommittedMetadata(m.loader), calls).backing|
    ensures Step(m, StartFrame(sequence, calls)) == m.(env := Effects(m.env, CommittedMetadata(m.loader), calls))
  {
    hide Effects, Encoded, ParseFrom, CommittedMetadata;
    EncodedParses(CMD_START_BPF, sequence, 0, []);
    var request := Request(CMD_START_BPF, sequence, 0, Padded([]), 0);
    StartsExactly(World(m.loader, m.env.backing, m.status), request, StartProgram(m, Program(calls, Ok(1))));
    SameEnvironment(m.env);
  }

  lemma OneCall(env: Env, metadata: ProgramMetadata, call: ProgramCall)
    ensures Effects(env, metadata, [call]) == Effect(env, metadata, call)
  {
    hide Effect;
    var calls: seq<ProgramCall> := [call];
    assert calls[..0] == [];
  }

  /** From any idle machine with a committed image, a Start that schedules the timer for now brings the
      main loop, five steps later, to the claim of exactly that event. */
  lemma ClaimReached(m: Machine, sequence: byte, cookie: u64)
    requires Safe(m) && m.pc.Top? && !m.resetPending
    requires m.loader.pending.None? && m.loader.state.Committed?
    ensures var start := StartFrame(sequence, [ScheduleCall(0, cookie)]);
      var m' := Run(m, [start] + Turns(5));
      && Safe(m') && m'.pc.Claim? && m'.pc.event.cookie == cookie && m'.pc.serial == |m'.env.acts|
      && m'.env.acts == m.env.acts + [Scheduled(m.env.now, cookie)]
      && m'.loader == m.loader && !m'.resetPending && m'.runs == m.runs
  {
    hide Agrees, HonestRuns, CommittedMetadata, Encoded, ParseFrom, GenerationAfter, PacketStep, Effects, Turns, Run;
    var calls: seq<ProgramCall> := [ScheduleCall(0, cookie)];
    var start := StartFrame(sequence, calls);
    var metadata := CommittedMetadata(m.loader);
    OneCall(m.env, metadata, ScheduleCall(0, cookie));
    StartRuns(m, sequence, calls);
    StepSafe(m, start);
    var started := Step(m, start);
    IdleTurnPassed(started);
    UndisturbedMore(started, 3, 2);
    DueTimerTaken(Undisturbed(started, 3));
    OneEvent(m, start);
    RunConcat(m, [start], Turns(5));
    TurnsRun(started, 5);
    TurnsSafe(started, 5);
  }

  lemma {:induction false} TurnsSafe(m: Machine, steps: nat)
    requires Safe(m)
    ensures Safe(Undisturbed(m, steps))
  {
    hide Safe, MainStep;
    if steps > 0 {
      TurnsSafe(m, steps - 1);
      MainSafe(Undisturbed(m, steps - 1), [], true, None);
    }
  }

  lemma PowerOnIdle(bytes: seq<byte>)
    requires |bytes| == FLASH_SIZE && Stored(bytes).Some?
    ensures var m := PowerOn(bytes, []);
      && Safe(m) && m.pc.Top? && !m.resetPending && m.runs == [] && m.env.acts == [] && m.env.now == 0
      && m.loader.pending.None? && m.loader.state.Committed?
  {
    hide ValidateCommitted, InTransfer, Describes, Stored;
    BootSafe(Device(bytes, [], false, []), []);
    BootAgrees(LoaderRuns.PoweredUp(Device(bytes, [], false, []), []));
  }

  lemma LoadDispatched(w: World, request: Request, op: LoadOp, execute: Execute)
    requires request.payloadLen <= MAX_PAYLOAD && request.flags == 0 && request.command == CMD_LOAD_BPF
    requires w.loader.pending.None? && Admissible(w.loader, op) && Payload(request) == LoadRequest(op)
    ensures DispatchRequest(w, request, execute)
         == Answer(w.(loader := w.loader.(pending := Some(op))), STATUS_OK, request)
  {
    hide DecodeLoad, Respond, LoadRequest, Fits, Payload;
    AdmissibleDecoded(w.loader, op);
  }

  lemma PaddedPayload(request: Request, payload: seq<byte>)
    requires |payload| <= MAX_PAYLOAD && request.payload == Padded(payload) && request.payloadLen == |payload|
    ensures Payload(request) == payload
  {}

  /** The frame of an admissible operation parks it and does nothing else. */
  lemma FrameParks(m: Machine, sequence: byte, op: LoadOp)
    requires !m.active && m.loader.pending.None? && Admissible(m.loader, op)
    ensures |LoadRequest(op)| <= MAX_PAYLOAD
    ensures Step(m, Packet(LoadFrame(sequence, op), false, Program([], Ok(1))))
         == m.(loader := m.loader.(pending := Some(op)))
  {
    hide DispatchRequest, Effects, ParseFrom, LoadRequest, Encoded, Admissible, Padded;
    RequestFits(m.loader, op);
    var payload := LoadRequest(op);
    EncodedParses(CMD_LOAD_BPF, sequence, 0, payload);
    var request := Request(CMD_LOAD_BPF, sequence, 0, Padded(payload), |payload|);
    PaddedPayload(request, payload);
    LoadDispatched(World(m.loader, m.env.backing, m.status), request, op, StartProgram(m, Program([], Ok(1))));
    SameEnvironment(m.env);
  }

  lemma ClaimDropped(m: Machine)
    requires m.pc.Claim? && !m.active && m.loader.pending.Some? && m.env.timer.generation == m.pc.event.generation
    ensures Undisturbed(m, 4) == m.(pc := Top)
  {
    assert Undisturbed(m, 1) == m.(pc := CheckGeneration(m.pc.event, m.pc.serial), active := true);
    assert Undisturbed(m, 2) == m.(pc := Fetch(m.pc.event, m.pc.serial), active := true);
    assert Undisturbed(m, 3) == m.(pc := Release, active := true);
  }

  /**
   A current event is lost. Switch on a part that holds an image, let a Start schedule the timer for
   now, and when the main loop has taken the event let a Begin arrive: four steps later the loop is back
   at its top, nothing has run and nothing waits, though nothing was cancelled, replaced or reset.
   */
  lemma CurrentEventLost(bytes: seq<byte>, sequence: byte, cookie: u64)
    requires |bytes| == FLASH_SIZE && Stored(bytes).Some?
    ensures |LoadRequest(Begin(8, 0, 0))| <= MAX_PAYLOAD
    ensures var start := StartFrame(sequence, [ScheduleCall(0, cookie)]);
      var load := Packet(LoadFrame(sequence, Begin(8, 0, 0)), false, Program([], Ok(1)));
      var m := Run(PowerOn(bytes, []), [start] + Turns(5));
      var m' := Run(PowerOn(bytes, []), [start] + Turns(5) + ([load] + Turns(4)));
      && m.pc.Claim? && m.pc.event.cookie == cookie
      && m'.pc.Top? && m'.runs == [] && m'.env.acts == [Scheduled(0, cookie)] && !Waiting(m'.env)
  {
    hide Agrees, HonestRuns, Encoded, ParseFrom, GenerationAfter, Turns, Run, PowerOn, PacketStep, LoadRequest,
         LoadFrame;
    PowerOnIdle(bytes);
    ClaimReached(PowerOn(bytes, []), sequence, cookie);
    var begin, start := Begin(8, 0, 0), StartFrame(sequence, [ScheduleCall(0, cookie)]);
    var m := Run(PowerOn(bytes, []), [start] + Turns(5));
    FrameParks(m, sequence, begin);
    var load := Packet(LoadFrame(sequence, begin), false, Program([], Ok(1)));
    ClaimDropped(Step(m, load));
    TurnsRun(Step(m, load), 4);
    OneEvent(m, load);
    RunConcat(m, [load], Turns(4));
    RunConcat(PowerOn(bytes, []), [start] + Turns(5), [load] + Turns(4));
  }

  /** A stale event is reached as well: at the same claim a Start that cancels 2^32 - 1 times leaves
      the cancelled event going on. */
  lemma StaleEventReached(bytes: seq<byte>, sequence: byte, cookie: u64)
    requires |bytes| == FLASH_SIZE && Stored(bytes).Some?
    ensures var start := StartFrame(sequence, [ScheduleCall(0, cookie)]);
      var cancels := StartFrame(sequence, Cancels(CYCLE));
      var m := Run(PowerOn(bytes, []), [start] + Turns(5) + ([cancels] + Turns(2)));
      m.pc.Fetch? && m.pc.serial == 1 && m.pc.event.cookie == cookie && |m.env.acts| == 1 + CYCLE
  {
    hide Agrees, HonestRuns, Encoded, ParseFrom, GenerationAfter, Turns, Run, PowerOn, Step, Cancels, Undisturbed,
         Follows, EventFits;
    PowerOnIdle(bytes);
    ClaimReached(PowerOn(bytes, []), sequence, cookie);
    var start, cancels := StartFrame(sequence, [ScheduleCall(0, cookie)]), StartFrame(sequence, Cancels(CYCLE));
    var m := Run(PowerOn(bytes, []), [start] + Turns(5));
    StaleEventRuns(m, sequence);
    var m1 := Step(m, cancels);
    StepSafe(m, cancels);
    SafeExclusive(m1);
    TurnsRun(m1, 2);
    TurnsActs(m1);
    OneEvent(m, cancels);
    RunConcat(m, [cancels], Turns(2));
    RunConcat(PowerOn(bytes, []), [start] + Turns(5), [cancels] + Turns(2));
  }

  lemma TurnsActs(m: Machine)
    requires m.pc.Claim? && !m.active
    ensures Undisturbed(m, 2).env == m.env
  {
    assert Undisturbed(m, 1) == m.(pc := CheckGeneration(m.pc.event, m.pc.serial), active := true);
  }
}
