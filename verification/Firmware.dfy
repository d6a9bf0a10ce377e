/** One turn of the firmware's main loop on its objects, and the machine steps it amounts to. */
module Firmware {
  import opened Bytes
  import opened Executions
  import opened LoaderModel
  import opened NorFlash
  import opened Runtime
  import opened Timer
  import BpfLoaderObject
  import LoaderRuns

  /** Where a turn leaves loader, flash, timer and claim, and the program it is about to run. */
  datatype Turned = Turned(loader: Loader, device: Device, timer: Clockwork, active: bool,
                           running: Option<ProgramMetadata>)

  /** A taken event claims execution; it is put back if that fails, and dropped if it is stale or the
      loader is not ready. */
  function ClaimEvent(l: Loader, t: Clockwork, active: bool, event: TimerEvent)
    : (Clockwork, bool, Option<ProgramMetadata>)
  {
    if active then (Restored(t, event), true, None)
    else if t.generation != event.generation then (t, false, None)
    else
      match EventExecutionMetadata(l)
      case Err(_) => (t, false, None)
      case Ok(metadata) => (t, true, Some(metadata))
  }

  function Turn(l: Loader, d: Device, t: Clockwork, active: bool, now: nat): Turned {
    var (l', d') := ExecutePending(l, d);
    var polled := Poll(t, now);
    if polled.ready.None? then Turned(l', d', polled, active, None)
    else
      var (t', active', running) := ClaimEvent(l', polled.(ready := None), active, polled.ready.value);
      Turned(l', d', t', active', running)
  }

  /** How one pass over the loop body ends before the loop sleeps: for a reset, for a busy bus, or after
      a turn, perhaps with a program about to run. */
  datatype Pass = ResetDue | BusBusy | Passed(running: Option<ProgramMetadata>)

  function PassOf(t: Turned, resetPending: bool, busIdle: bool, now: nat): (Pass, Turned) {
    if resetPending then (ResetDue, t)
    else if t.loader.pending.Some? && !busIdle then (BusBusy, t)
    else
      var turned := Turn(t.loader, t.device, t.timer, t.active, now);
      (Passed(turned.running), turned)
  }

  class MainLoop {
    const loader: BpfLoaderObject.BpfLoader
    const flash: Flash
    const timer: TimerState
    var active: bool

    ghost predicate Valid() reads this, flash { flash.Valid() }

    constructor (flash: Flash)
      requires flash.Valid()
      ensures Valid() && fresh(loader) && fresh(timer) && this.flash == flash
      ensures !active && loader.Model() == NEW_LOADER && timer.Model() == STOPPED
    {
      loader := new BpfLoaderObject.BpfLoader();
      timer := new TimerState();
      this.flash := flash;
      active := false;
    }

    ghost function Held(running: Option<ProgramMetadata>): Turned
      reads this, loader, timer, flash, flash.cells
    {
      Turned(loader.Model(), flash.Model(), timer.Model(), active, running)
    }

    method TryClaim() returns (claimed: bool)
      modifies this`active
      ensures active && claimed == !old(active)
    {
      claimed := !active;
      active := true;
    }

    method ReleaseClaim()
      modifies this`active
      ensures !active
    {
      active := false;
    }

    method BeginEvent(event: TimerEvent) returns (running: Option<ProgramMetadata>)
      modifies this`active, timer
      ensures (timer.Model(), active, running)
           == ClaimEvent(loader.Model(), old(timer.Model()), old(active), event)
    {
      var claimed := TryClaim();
      if !claimed {
        timer.RestoreReady(event);
        return None;
      }
      if timer.generation != event.generation {
        ReleaseClaim();
        return None;
      }
      var metadata := loader.EventMetadata();
      match metadata {
        case Err(_) =>
          ReleaseClaim();
          return None;
        case Ok(value) =>
          return Some(value);
      }
    }

    method TurnOnce(now: nat) returns (running: Option<ProgramMetadata>)
      requires Valid()
      modifies this`active, loader, timer, flash, flash.cells
      ensures Valid()
      ensures Held(running) == Turn(old(loader.Model()), old(flash.Model()), old(timer.Model()), old(active), now)
    {
      hide ExecutePending, EventExecutionMetadata;
      loader.ExecutePending(flash);
      timer.PollTimer(now);
      var event := timer.TakeReady();
      if event.None? {
        return None;
      }
      running := BeginEvent(event.value);
    }

    method LoopOnce(resetPending: bool, busIdle: bool, now: nat) returns (pass: Pass)
      requires Valid()
      modifies this`active, loader, timer, flash, flash.cells
      ensures Valid()
      ensures var held := Turned(old(loader.Model()), old(flash.Model()), old(timer.Model()), old(active), None);
        (pass, Held(if pass.Passed? then pass.running else None)) == PassOf(held, resetPending, busIdle, now)
    {
      hide ExecutePending, Turn;
      if resetPending {
        return ResetDue;
      }
      if loader.pending.Some? && !busIdle {
        return BusBusy;
      }
      var running := TurnOnce(now);
      return Passed(running);
    }
  }

  /** The machine's state that the objects hold. */
  ghost predicate Holds(m: Machine, t: Turned) {
    && m.loader == t.loader && m.device == t.device && m.env.timer == t.timer && m.active == t.active
    && match t.running
       case None => m.pc.Top?
       case Some(metadata) => m.pc.Launch? && m.pc.metadata == metadata
  }

  /** A turn nothing interrupts is a few steps of the machine: the one that performs the parked
      operation, then polling, taking and claiming, up to the top of the loop or to the launch. */
  lemma TurnIsSteps(m: Machine) returns (steps: nat)
    requires m.pc.Performing? && Exclusive(m)
    ensures Holds(Undisturbed(MainStep(m, m.device.faults, true, None), steps),
                  Turn(m.loader, m.device, m.env.timer, m.active, m.env.now))
  {
    hide CommittedMetadata, Perform;
    var first := MainStep(m, m.device.faults, true, None);
    assert LoaderRuns.WithFaults(m.device, m.device.faults) == m.device;
    var turn := Turn(m.loader, m.device, m.env.timer, m.active, m.env.now);
    var polled := Poll(m.env.timer, m.env.now);
    assert first == m.(pc := Polling, loader := turn.loader, device := turn.device);
    assert Undisturbed(first, 0) == first;
    assert Undisturbed(first, 1) == first.(pc := Take, env := m.env.(timer := polled));
    if polled.ready.None? {
      steps := 2;
    } else {
      var claim := Undisturbed(first, 2);
      steps := ClaimSteps(claim);
      UndisturbedMore(first, 2, steps);
      steps := 2 + steps;
    }
  }

  lemma ClaimSteps(m: Machine) returns (steps: nat)
    requires m.pc.Claim? && !m.active
    ensures var (t, active, running) := ClaimEvent(m.loader, m.env.timer, m.active, m.pc.event);
      Holds(Undisturbed(m, steps), Turned(m.loader, m.device, t, active, running))
  {
    hide CommittedMetadata;
    assert Undisturbed(m, 0) == m;
    assert Undisturbed(m, 1) == m.(pc := CheckGeneration(m.pc.event, m.pc.serial), active := true);
    if m.env.timer.generation != m.pc.event.generation {
      assert Undisturbed(m, 2) == m.(pc := Release, active := true);
      steps := 3;
    } else {
      assert Undisturbed(m, 2) == m.(pc := Fetch(m.pc.event, m.pc.serial), active := true);
      if EventExecutionMetadata(m.loader).Err? {
        assert Undisturbed(m, 3) == m.(pc := Release, active := true);
        steps := 4;
      } else {
        steps := 3;
      }
    }
  }

  /** A whole pass from the top of the loop: a pending reset boots the part, a busy bus sends a parked
      load round again untouched, and anything else is the turn above. */
  lemma PassIsSteps(m: Machine, busIdle: bool) returns (steps: nat)
    requires m.pc.Top? && Exclusive(m)
    ensures var held := Turned(m.loader, m.device, m.env.timer, m.active, None);
      var (pass, turned) := PassOf(held, m.resetPending, busIdle, m.env.now);
      match pass
      case ResetDue => turned == held && MainStep(m, m.device.faults, busIdle, None) == Boot(m.device, m.device.faults)
      case BusBusy => turned == held && MainStep(MainStep(m, [], busIdle, None), [], busIdle, None) == m
      case Passed(_) =>
        var performing := MainStep(MainStep(m, [], busIdle, None), [], busIdle, None);
        performing.pc.Performing?
        && Holds(Undisturbed(MainStep(performing, m.device.faults, true, None), steps), turned)
  {
    hide Boot, ExecutePending, Turn, Undisturbed, Holds;
    steps := 0;
    if !m.resetPending && (m.loader.pending.None? || busIdle) {
      var performing := m.(pc := Performing);
      assert MainStep(MainStep(m, [], busIdle, None), [], busIdle, None) == performing;
      steps := TurnIsSteps(performing);
    }
  }
}
