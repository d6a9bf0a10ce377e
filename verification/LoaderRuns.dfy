/**
 Whole runs of the loader: requests arriving in the callback, main-loop turns with arbitrary flash
 faults and power cuts, Start commands and reboots, in any order.
 */
module LoaderRuns {
  import opened Bytes
  import opened ImageFormat
  import opened ImageStore
  import opened LoaderAgreement
  import opened LoaderModel
  import opened MapLayouts
  import opened NorFlash
  import Crc32

  datatype Event =
    | Request(payload: seq<byte>)
    | Turn(faults: seq<Fault>)
    | Start(result: Result<nat>)
    | Reboot(faults: seq<Fault>)

  /** What actually happened to loader and flash, with requests, retries and idle turns left out. */
  datatype Action = Performed(op: LoadOp, faults: seq<Fault>) | Started | Rebooted(faults: seq<Fault>)

  datatype Node = Node(loader: Loader, device: Device, history: seq<Action>)

  function WithFaults(d: Device, faults: seq<Fault>): Device { d.(faults := faults) }

  function PoweredUp(d: Device, faults: seq<Fault>): Device { d.(faults := faults, powered := true) }

  /** Start runs the program only if the metadata check passes, and marks it running on result zero. */
  function Starts(l: Loader, result: Result<nat>): bool { ExecutionMetadata(l).Ok? && result == Ok(0) }

  function Step(n: Node, event: Event): Node {
    match event
    case Request(payload) => n.(loader := AcceptLoad(n.loader, payload).0)
    case Turn(faults) =>
      if n.loader.pending.None? then n
      else
        var (l, d) := ExecutePending(n.loader, WithFaults(n.device, faults));
        Node(l, d, n.history + [Performed(n.loader.pending.value, faults)])
    case Start(result) =>
      if Starts(n.loader, result) then n.(loader := MarkRunning(n.loader).0, history := n.history + [Started]) else n
    case Reboot(faults) =>
      var (l, d) := ValidateCommitted(NEW_LOADER, PoweredUp(n.device, faults));
      Node(l, d, n.history + [Rebooted(faults)])
  }

  function Run(n: Node, events: seq<Event>): Node {
    if events == [] then n else Step(Run(n, events[..|events| - 1]), events[|events| - 1])
  }

  function PowerOn(bytes: seq<byte>, faults: seq<Fault>): Node {
    Step(Node(NEW_LOADER, Device(bytes, [], false, []), []), Reboot(faults))
  }

  // ---- What the host sent, judged from the performed operations alone ----

  datatype Upload = Upload(declared: Declared, data: seq<byte>)

  function Sent(history: seq<Action>): Option<Upload> {
    if history == [] then None
    else
      var before := Sent(history[..|history| - 1]);
      match history[|history| - 1]
      case Performed(Begin(length, maps, crc), _) => Some(Upload(Declared(length, maps, crc), []))
      case Performed(Data(_, bytes), _) =>
        if before.None? then None else Some(before.value.(data := before.value.data + bytes))
      case _ => before
  }

  ghost predicate FinalizedAt(history: seq<Action>, k: nat, image: Image) {
    && k < |history| && history[k].Performed? && history[k].op.Finalize?
    && Sent(history[..k]) == Some(Upload(image.declared, image.payload))
    && forall j :: k < j < |history| && history[j].Performed? ==> history[j].op.Begin?
  }

  /** At some Finalize of this run the host had sent exactly this image since its last Begin, and
      no data and no other Finalize has been performed since. */
  ghost predicate CompletelySent(history: seq<Action>, image: Image) {
    exists k: nat :: FinalizedAt(history, k, image)
  }

  // ---- Every reachable state ----

  ghost predicate Provenance(n: Node, bytes0: seq<byte>)
    requires ValidDevice(n.device)
  {
    n.device.bytes == bytes0
    || Stored(n.device.bytes) == None
    || CompletelySent(n.history, Stored(n.device.bytes).value)
  }

  ghost predicate Reachable(n: Node, bytes0: seq<byte>) {
    && Agrees(n.loader, n.device)
    && Provenance(n, bytes0)
    && (n.loader.state.Receiving? ==>
          Sent(n.history) == Some(Upload(DeclaredBy(n.loader), Received(n.loader, n.device))))
  }

  lemma SentExtended(history: seq<Action>, action: Action, image: Image)
    requires CompletelySent(history, image) && (action.Performed? ==> action.op.Begin?)
    ensures CompletelySent(history + [action], image)
  {
    var k: nat :| FinalizedAt(history, k, image);
    assert (history + [action])[..k] == history[..k];
    assert FinalizedAt(history + [action], k, image);
  }

  lemma TurnReachable(n: Node, faults: seq<Fault>, bytes0: seq<byte>)
    requires Reachable(n, bytes0) && n.loader.pending.Some?
    ensures Reachable(Step(n, Turn(faults)), bytes0)
  {
    hide InTransfer, Describes, OpStep, Admissible, ExecutePending, Stored;
    var n' := Step(n, Turn(faults));
    var op := n.loader.pending.value;
    TurnReceives(n, faults);
    assert n'.history[..|n.history|] == n.history;
    if Stored(n'.device.bytes) != None && !op.Begin? {
      assert FinalizedAt(n'.history, |n.history|, Stored(n'.device.bytes).value);
    } else if Stored(n'.device.bytes) != None && n.device.bytes != bytes0 {
      SentExtended(n.history, Performed(op, faults), Stored(n.device.bytes).value);
    }
  }

  /** The step-by-step facts behind `Reachable`, read off the image store. */
  lemma TurnReceives(n: Node, faults: seq<Fault>)
    requires Agrees(n.loader, n.device) && n.loader.pending.Some?
    requires n.loader.state.Receiving? ==>
               Sent(n.history) == Some(Upload(DeclaredBy(n.loader), Received(n.loader, n.device)))
    ensures var n' := Step(n, Turn(faults));
      var op := n.loader.pending.value;
      && n'.history == n.history + [Performed(op, faults)]
      && Agrees(n'.loader, n'.device)
      && (n'.loader.state.Receiving? ==>
            Sent(n'.history) == Some(Upload(DeclaredBy(n'.loader), Received(n'.loader, n'.device))))
      && (Stored(n'.device.bytes) != None && op.Begin? ==> n'.device.bytes == n.device.bytes)
      && (Stored(n'.device.bytes) != None && !op.Begin? ==>
            && op.Finalize?
            && Sent(n.history) == Some(Upload(Stored(n'.device.bytes).value.declared,
                                              Stored(n'.device.bytes).value.payload)))
  {
    hide InTransfer, Describes, Stored, ExecutePending, Admissible, Received, Vetted, Crc32.Checksum, Sent;
    var d := WithFaults(n.device, faults);
    FaultsIrrelevant(n.loader, n.device, faults);
    TurnAgrees(n.loader, d);
    var n' := Step(n, Turn(faults));
    SentBy(n.history, Performed(n.loader.pending.value, faults));
  }

  lemma SentBy(history: seq<Action>, action: Action)
    ensures Sent(history + [action]) ==
            match action
            case Performed(Begin(length, maps, crc), _) => Some(Upload(Declared(length, maps, crc), []))
            case Performed(Data(_, bytes), _) =>
              if Sent(history).None? then None
              else Some(Sent(history).value.(data := Sent(history).value.data + bytes))
            case _ => Sent(history)
  {
    assert (history + [action])[..|history|] == history;
  }

  lemma FaultsIrrelevant(l: Loader, d: Device, faults: seq<Fault>)
    requires Agrees(l, d)
    ensures Agrees(l, WithFaults(d, faults))
    ensures Abstract(l, WithFaults(d, faults)) == Abstract(l, d)
  {}

  lemma StepReachable(n: Node, event: Event, bytes0: seq<byte>)
    requires Reachable(n, bytes0)
    ensures Reachable(Step(n, event), bytes0)
  {
    hide InTransfer, Describes, Stored, ExecutePending, AcceptLoad, ValidateCommitted;
    var n' := Step(n, event);
    match event
    case Request(payload) =>
      AcceptAgrees(n.loader, n.device, payload);
    case Turn(faults) =>
      if n.loader.pending.Some? {
        TurnReachable(n, faults, bytes0);
      }
    case Start(result) =>
      if Starts(n.loader, result) {
        MarkRunningAgrees(n.loader, n.device);
        if Stored(n.device.bytes) != None && n.device.bytes != bytes0 {
          SentExtended(n.history, Started, Stored(n.device.bytes).value);
        }
      }
    case Reboot(faults) =>
      BootAgrees(PoweredUp(n.device, faults));
      if Stored(n.device.bytes) != None && n.device.bytes != bytes0 {
        SentExtended(n.history, Rebooted(faults), Stored(n.device.bytes).value);
      }
  }

  lemma PowerOnReachable(bytes: seq<byte>, faults: seq<Fault>)
    requires |bytes| == FLASH_SIZE
    ensures Reachable(PowerOn(bytes, faults), bytes)
  {
    BootAgrees(PoweredUp(Device(bytes, [], false, []), faults));
  }

  /** RAM and flash agree in every state of every run. */
  lemma {:induction false} RunReachable(bytes: seq<byte>, faults: seq<Fault>, events: seq<Event>)
    requires |bytes| == FLASH_SIZE
    ensures Reachable(Run(PowerOn(bytes, faults), events), bytes)
  {
    if events == [] {
      PowerOnReachable(bytes, faults);
    } else {
      RunReachable(bytes, faults, events[..|events| - 1]);
      StepReachable(Run(PowerOn(bytes, faults), events[..|events| - 1]), events[|events| - 1], bytes);
    }
  }

  /** A reboot with good reads brings a committed or running image back with the same CRC, bytecode
      length, map count and layouts, and leaves the flash alone. */
  lemma RebootRoundTrip(bytes: seq<byte>, faults: seq<Fault>, events: seq<Event>)
    requires |bytes| == FLASH_SIZE
    ensures var n := Run(PowerOn(bytes, faults), events);
      var n' := Step(n, Reboot([]));
      n.loader.state.Committed? || n.loader.state.Running? ==>
        && n'.loader.state == Committed(n.loader.state.crc)
        && CommittedMetadata(n'.loader) == CommittedMetadata(n.loader)
        && n'.loader.layouts == n.loader.layouts
        && n'.device.bytes == n.device.bytes
  {
    hide InTransfer, ValidateCommitted, Run, Stored;
    RunReachable(bytes, faults, events);
    BootAgrees(PoweredUp(Run(PowerOn(bytes, faults), events).device, []));
  }

  // ---- The callback and the main loop refine a sequential loader ----

  function SeqStep(s: (Loader, Device), action: Action): (Loader, Device) {
    match action
    case Performed(op, faults) => Perform(s.0, WithFaults(s.1, faults), op)
    case Started => (MarkRunning(s.0).0, s.1)
    case Rebooted(faults) => ValidateCommitted(NEW_LOADER, PoweredUp(s.1, faults))
  }

  function SeqRun(s: (Loader, Device), actions: seq<Action>): (Loader, Device) {
    if actions == [] then s else SeqStep(SeqRun(s, actions[..|actions| - 1]), actions[|actions| - 1])
  }

  function Unparked(l: Loader): Loader { l.(pending := None) }

  function Origin(bytes: seq<byte>): (Loader, Device) { (NEW_LOADER, Device(bytes, [], false, [])) }

  /** The k-th action was allowed where the sequential loader stood before it. */
  ghost predicate AllowedAt(bytes: seq<byte>, history: seq<Action>, k: nat)
    requires k < |history|
  {
    var l := SeqRun(Origin(bytes), history[..k]).0;
    match history[k]
    case Performed(op, _) => Admissible(l, op)
    case Started => l.state.Committed?
    case Rebooted(_) => true
  }

  ghost predicate Sequential(n: Node, bytes: seq<byte>) {
    && SeqRun(Origin(bytes), n.history) == (Unparked(n.loader), n.device)
    && forall k: nat :: k < |n.history| ==> AllowedAt(bytes, n.history, k)
  }

  lemma ExtendSequential(n: Node, bytes: seq<byte>, action: Action, n': Node)
    requires Sequential(n, bytes) && n'.history == n.history + [action]
    requires SeqStep((Unparked(n.loader), n.device), action) == (Unparked(n'.loader), n'.device)
    requires match action
             case Performed(op, _) => Admissible(Unparked(n.loader), op)
             case Started => n.loader.state.Committed?
             case Rebooted(_) => true
    ensures Sequential(n', bytes)
  {
    hide SeqStep, Admissible;
    var k := |n.history|;
    assert n'.history[..k] == n.history;
    forall i: nat | i < |n'.history|
      ensures AllowedAt(bytes, n'.history, i)
    {
      if i < k {
        assert n'.history[..i] == n.history[..i];
        assert AllowedAt(bytes, n.history, i);
      }
    }
  }

  lemma StepSequential(n: Node, event: Event, bytes: seq<byte>)
    requires Sequential(n, bytes) && Agrees(n.loader, n.device)
    ensures Sequential(Step(n, event), bytes)
  {
    hide InTransfer, Describes, Sequential, ValidateCommitted;
    var n' := Step(n, event);
    match event
    case Request(payload) =>
      AcceptAgrees(n.loader, n.device, payload);
      SameSequential(n, n', bytes);
    case Turn(faults) =>
      if n.loader.pending.Some? {
        FaultsIrrelevant(n.loader, n.device, faults);
        TurnAgrees(n.loader, WithFaults(n.device, faults));
        ExtendSequential(n, bytes, Performed(n.loader.pending.value, faults), n');
      }
    case Start(result) =>
      if Starts(n.loader, result) {
        ExtendSequential(n, bytes, Started, n');
      }
    case Reboot(faults) =>
      BootAgrees(PoweredUp(n.device, faults));
      ExtendSequential(n, bytes, Rebooted(faults), n');
  }

  lemma SameSequential(n: Node, n': Node, bytes: seq<byte>)
    requires Sequential(n, bytes)
    requires n'.history == n.history && n'.device == n.device && Unparked(n'.loader) == Unparked(n.loader)
    ensures Sequential(n', bytes)
  {}

  /**
   Refinement. However requests, rejections, BUSY answers, idle turns and Start attempts interleave,
   flash and loader end up where a loader without a callback would be after the performed actions
   alone; and each of them was still allowed when it was performed.
   */
  lemma {:induction false} RefinesSequential(bytes: seq<byte>, faults: seq<Fault>, events: seq<Event>)
    requires |bytes| == FLASH_SIZE
    ensures Sequential(Run(PowerOn(bytes, faults), events), bytes)
  {
    if events == [] {
      var off := Node(NEW_LOADER, Device(bytes, [], false, []), []);
      BootAgrees(PoweredUp(off.device, faults));
      ExtendSequential(off, bytes, Rebooted(faults), PowerOn(bytes, faults));
    } else {
      var before := events[..|events| - 1];
      RefinesSequential(bytes, faults, before);
      RunReachable(bytes, faults, before);
      StepSequential(Run(PowerOn(bytes, faults), before), events[|events| - 1], bytes);
    }
  }

  // ---- Crash safety ----

  /** The flash as the first `k` performed actions left it. */
  function FlashAfter(bytes: seq<byte>, history: seq<Action>, k: nat): seq<byte>
    requires k <= |history|
  {
    SeqRun(Origin(bytes), history[..k]).1.bytes
  }

  ghost predicate LeftAt(bytes: seq<byte>, history: seq<Action>, cells: seq<byte>, image: Image, k: nat) {
    FinalizedAt(history, k, image) && FlashAfter(bytes, history, k + 1) == cells
  }

  /** A Finalize to which the host had sent exactly this image left the flash as it is now. */
  ghost predicate LeftByFinalize(bytes: seq<byte>, history: seq<Action>, cells: seq<byte>, image: Image) {
    exists k: nat :: LeftAt(bytes, history, cells, image, k)
  }

  lemma LeftExtended(bytes: seq<byte>, history: seq<Action>, cells: seq<byte>, image: Image, action: Action)
    requires LeftByFinalize(bytes, history, cells, image) && (action.Performed? ==> action.op.Begin?)
    ensures LeftByFinalize(bytes, history + [action], cells, image)
  {
    hide Sent, SeqRun;
    var k: nat :| LeftAt(bytes, history, cells, image, k);
    assert (history + [action])[..k] == history[..k] && (history + [action])[..k + 1] == history[..k + 1];
    assert LeftAt(bytes, history + [action], cells, image, k);
  }

  ghost predicate Untouched(n: Node, bytes: seq<byte>) {
    && ValidDevice(n.device)
    && (Stored(n.device.bytes).Some? && n.device.bytes != bytes ==>
          LeftByFinalize(bytes, n.history, n.device.bytes, Stored(n.device.bytes).value))
  }

  lemma TurnUntouched(n: Node, faults: seq<Fault>, bytes: seq<byte>)
    requires Untouched(n, bytes) && Reachable(n, bytes) && n.loader.pending.Some?
    requires Sequential(Step(n, Turn(faults)), bytes)
    ensures Untouched(Step(n, Turn(faults)), bytes)
  {
    hide InTransfer, Describes, Admissible, ExecutePending, Stored, Sent, SeqStep, LeftByFinalize, Provenance;
    var n' := Step(n, Turn(faults));
    var op := n.loader.pending.value;
    TurnReceives(n, faults);
    if Stored(n'.device.bytes).Some? {
      var image := Stored(n'.device.bytes).value;
      if op.Begin? {
        if n.device.bytes != bytes {
          LeftExtended(bytes, n.history, n.device.bytes, image, Performed(op, faults));
        }
      } else {
        FinalizeLeaves(bytes, n, n', faults, image);
      }
    }
  }

  lemma FinalizeLeaves(bytes: seq<byte>, n: Node, n': Node, faults: seq<Fault>, image: Image)
    requires n'.history == n.history + [Performed(Finalize, faults)]
    requires Sent(n.history) == Some(Upload(image.declared, image.payload))
    requires SeqRun(Origin(bytes), n'.history).1 == n'.device
    ensures LeftByFinalize(bytes, n'.history, n'.device.bytes, image)
  {
    hide Sent, SeqRun;
    var k := |n.history|;
    assert n'.history[..k] == n.history && n'.history[..k + 1] == n'.history;
    assert FinalizedAt(n'.history, k, image);
    assert LeftAt(bytes, n'.history, n'.device.bytes, image, k);
  }

  lemma StepUntouched(n: Node, event: Event, bytes: seq<byte>)
    requires Untouched(n, bytes) && Reachable(n, bytes) && Sequential(Step(n, event), bytes)
    ensures Untouched(Step(n, event), bytes)
  {
    hide InTransfer, Describes, Stored, ExecutePending, AcceptLoad, ValidateCommitted, Sequential, LeftByFinalize,
         Provenance;
    match event
    case Request(payload) =>
    case Turn(faults) =>
      if n.loader.pending.Some? {
        TurnUntouched(n, faults, bytes);
      }
    case Start(result) =>
      if Starts(n.loader, result) && Stored(n.device.bytes).Some? && n.device.bytes != bytes {
        LeftExtended(bytes, n.history, n.device.bytes, Stored(n.device.bytes).value, Started);
      }
    case Reboot(faults) =>
      BootAgrees(PoweredUp(n.device, faults));
      if Stored(n.device.bytes).Some? && n.device.bytes != bytes {
        LeftExtended(bytes, n.history, n.device.bytes, Stored(n.device.bytes).value, Rebooted(faults));
      }
  }

  /** An image in the flash is the original one in a flash nothing changed, or its Finalize was the
      last thing that changed the flash. */
  lemma {:induction false} RunUntouched(bytes: seq<byte>, faults: seq<Fault>, events: seq<Event>)
    requires |bytes| == FLASH_SIZE
    ensures Untouched(Run(PowerOn(bytes, faults), events), bytes)
  {
    hide Untouched, Step, Sequential, Reachable;
    if events == [] {
      PowerOnUntouched(bytes, faults);
    } else {
      var before := events[..|events| - 1];
      RunUntouched(bytes, faults, before);
      RunReachable(bytes, faults, before);
      RefinesSequential(bytes, faults, events);
      StepUntouched(Run(PowerOn(bytes, faults), before), events[|events| - 1], bytes);
    }
  }

  lemma PowerOnUntouched(bytes: seq<byte>, faults: seq<Fault>)
    requires |bytes| == FLASH_SIZE
    ensures Untouched(PowerOn(bytes, faults), bytes)
  {
    hide ValidateCommitted, InTransfer, Describes, Stored;
    BootAgrees(PoweredUp(Device(bytes, [], false, []), faults));
  }

  /**
   Crash safety. Take any run from any flash contents, with any faults, torn writes and power cuts,
   and reboot at its end. Then either no image is available and no map is exposed; or the flash was
   never changed and its image is back; or the image was sent completely before a Finalize that left
   the flash exactly as it is now. Whatever is made available has a matching CRC and acceptable maps, and the RAM
   describes it. With every read good, it is available exactly if it is stored.
   */
  lemma CrashSafety(bytes: seq<byte>, faults: seq<Fault>, events: seq<Event>, bootFaults: seq<Fault>)
    requires |bytes| == FLASH_SIZE
    ensures var n := Run(PowerOn(bytes, faults), events);
      var (l, d) := ValidateCommitted(NEW_LOADER, PoweredUp(n.device, bootFaults));
      && ValidDevice(d) && d.bytes == n.device.bytes
      && match l.state
         case Committed(crc) =>
           && Describes(l, d, crc)
           && Vetted(Stored(d.bytes).value)
           && (d.bytes == bytes || LeftByFinalize(bytes, n.history, d.bytes, Stored(d.bytes).value))
         case _ => NoMaps(l) && (l.state == Empty || l.state == Failed(STATUS_FLASH_ERROR))
    ensures var n := Run(PowerOn(bytes, faults), events);
      var (l, d) := ValidateCommitted(NEW_LOADER, PoweredUp(n.device, []));
      l.state.Committed? <==> Stored(n.device.bytes).Some?
  {
    hide InTransfer, ValidateCommitted, Run, Stored, LeftByFinalize, Vetted;
    RunUntouched(bytes, faults, events);
    var n := Run(PowerOn(bytes, faults), events);
    BootAgrees(PoweredUp(n.device, bootFaults));
    BootAgrees(PoweredUp(n.device, []));
  }
}
