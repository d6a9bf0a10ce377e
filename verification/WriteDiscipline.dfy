/** How the loader uses the flash bus, over whole runs. */
module WriteDiscipline {
  import opened Bytes
  import opened ImageFormat
  import opened LoaderAgreement
  import opened LoaderModel
  import opened LoaderRuns
  import opened MapLayouts
  import opened NorFlash
  import Crc32

  /** Where a load attempt stands, judged from the bus history alone. */
  datatype Track =
    | Closed
    | Prepared(limit: nat)
    | Open(next: nat, limit: nat)
    | Violated

  predicate AllErased(found: seq<byte>) { forall b :: b in found ==> b == 0xff }

  function Advance(ok: bool, t: Track): Track { if ok then t else Closed }

  /**
   The allowed uses. One erase opens an attempt, and only the unmarked header may follow it, for an
   image that needs exactly the pages erased; data follows in ascending order without gaps and inside
   those pages; the marker comes last. A failure ends the attempt. Every write is halfword aligned
   and lands on erased cells only.
   */
  function Follow(t: Track, op: BusOp): Track {
    match op
    case Erased(from, to, ok) =>
      if t.Violated? || t.Prepared? || from != SLOT || (to != SLOT + PAGE && to != SLOT + SLOT_SIZE) then Violated
      else Advance(ok, Prepared(to))
    case Wrote(offset, data, found, ok) =>
      if |found| != |data| || offset % 2 != 0 || |data| % 2 != 0 || !AllErased(found) then Violated
      else
        match t
        case Prepared(limit) =>
          if offset == SLOT && |data| == HEADER_SIZE && data[12] == 0xff && data[13] == 0xff
             && limit == ErasedEnd(ImageLen(U16(data[6], data[7]), data[5]))
          then Advance(ok, Open(DATA, limit))
          else Violated
        case Open(next, limit) =>
          if offset == next && next + |data| <= limit then Advance(ok, Open(next + |data|, limit))
          else if offset == MARKER && data == [0, 0] then Closed
          else Violated
        case _ => Violated
  }

  function Tracked(log: seq<BusOp>): Track {
    if log == [] then Closed else Follow(Tracked(log[..|log| - 1]), log[|log| - 1])
  }

  lemma TrackedMore(log: seq<BusOp>, op: BusOp)
    ensures Tracked(log + [op]) == Follow(Tracked(log), op)
  {
    assert (log + [op])[..|log|] == log;
  }

  /** Nothing forbidden has happened, and no erase is waiting for its header. */
  predicate Settled(t: Track) { !t.Violated? && !t.Prepared? }

  ghost predicate Logged(l: Loader, d: Device) {
    && Settled(Tracked(d.log))
    && (l.state.Receiving? ==> Tracked(d.log) == Open(DATA + l.nextOffset, ErasedEnd(l.imageLen)))
  }

  /** Over erased cells the bus sees one aligned write that finds only 0xff. */
  lemma WriteLogged(d: Device, offset: nat, data: seq<byte>)
    requires ValidDevice(d) && offset % 2 == 0 && |data| % 2 == 0
    requires Blank(d.bytes, offset, offset + |data|)
    ensures var (d', written) := WriteCells(d, offset, data);
      if d.powered then
        exists found :: |found| == |data| && AllErased(found) && d'.log == d.log + [Wrote(offset, data, found, written)]
      else !written && d'.log == d.log
  {
    if d.powered {
      var found := d.bytes[offset..offset + |data|];
      assert WriteCells(d, offset, data).0.log
          == d.log + [Wrote(offset, data, found, WriteCells(d, offset, data).1)];
    }
  }

  lemma OneOrTwoPages(imageLen: nat)
    requires imageLen + HEADER_SIZE <= SLOT_SIZE
    ensures ErasedEnd(imageLen) == SLOT + PAGE || ErasedEnd(imageLen) == SLOT + SLOT_SIZE
  {}

  lemma EraseLogged(d: Device, imageLen: nat)
    requires ValidDevice(d) && imageLen + HEADER_SIZE <= SLOT_SIZE && Settled(Tracked(d.log))
    ensures var (d', erased) := EraseCells(d, SLOT, ErasedEnd(imageLen));
      if erased then d'.powered && Tracked(d'.log) == Prepared(ErasedEnd(imageLen)) else Settled(Tracked(d'.log))
  {
    hide ErasedEnd, Blanked, Tracked;
    OneOrTwoPages(imageLen);
    var (d', erased) := EraseCells(d, SLOT, ErasedEnd(imageLen));
    TrackedMore(d.log, Erased(SLOT, ErasedEnd(imageLen), erased));
  }

  lemma HeaderLogged(d: Device, declared: Declared)
    requires ValidDevice(d) && d.powered && Blank(d.bytes, SLOT, DATA)
    requires Tracked(d.log) == Prepared(ErasedEnd(LengthOf(declared)))
    ensures var (d', written) := WriteCells(d, SLOT, Header(declared, 0xff));
      && Settled(Tracked(d'.log))
      && (written ==> Tracked(d'.log) == Open(DATA, ErasedEnd(LengthOf(declared))))
  {
    hide Programmed, ErasedEnd;
    var header := Header(declared, 0xff);
    WriteLogged(d, SLOT, header);
    var (d', written) := WriteCells(d, SLOT, header);
    var found :| |found| == |header| && AllErased(found) && d'.log == d.log + [Wrote(SLOT, header, found, written)];
    TrackedMore(d.log, Wrote(SLOT, header, found, written));
  }

  lemma BeginLogged(l: Loader, d: Device, declared: Declared)
    requires ValidDevice(d) && Settled(Tracked(d.log)) && Sized(declared)
    ensures var (l', d') := BeginImage(l, d, declared);
      Logged(l', d')
  {
    hide Sized, LengthOf, ErasedEnd, Header, WriteCells, Tracked;
    SizedExtent(declared);
    EraseLogged(d, LengthOf(declared));
    EraseFlash(d, LengthOf(declared));
    var (d1, erased) := EraseCells(d, SLOT, ErasedEnd(LengthOf(declared)));
    if erased {
      HeaderLogged(d1, declared);
    }
  }

  lemma DataLogged(l: Loader, d: Device, bytes: seq<byte>)
    requires Agrees(l, d) && l.pending.None? && Logged(l, d) && Admissible(l, Data(l.nextOffset, bytes))
    ensures var (l', d') := StoreData(l, d, l.nextOffset, bytes);
      Logged(l', d')
  {
    hide Fits, U16, U32, ErasedEnd, WriteCells, Tracked, Stored, IsHeader, Crc32.Update, Even;
    var at := DATA + l.nextOffset;
    EvenRemainder(DATA);
    EvenRemainder(|bytes|);
    EvenSum(DATA, l.nextOffset);
    SizedExtent(DeclaredBy(l));
    WriteLogged(d, at, bytes);
    var (d', written) := WriteCells(d, at, bytes);
    if d.powered {
      var found :| |found| == |bytes| && AllErased(found) && d'.log == d.log + [Wrote(at, bytes, found, written)];
      TrackedMore(d.log, Wrote(at, bytes, found, written));
    }
  }

  lemma FinalizeLogged(l: Loader, d: Device)
    requires Agrees(l, d) && l.pending.None? && Logged(l, d) && Admissible(l, Finalize)
    ensures var (l', d') := FinalizeImage(l, d);
      Logged(l', d')
  {
    hide Sized, LengthOf, ErasedEnd, WriteCells, Tracked, Stored, IsHeader, Crc32.Update, Even, Scan;
    FinalizeScan(l, d);
    HeaderMarker(d.bytes, DeclaredBy(l), 0xff);
    var (d1, table) := Scan(d, DATA + l.bytecodeLen, l.mapCount);
    WriteLogged(d1, MARKER, [0, 0]);
    var (d2, written) := WriteCells(d1, MARKER, [0, 0]);
    if d1.powered {
      var found :| |found| == 2 && AllErased(found) && d2.log == d1.log + [Wrote(MARKER, [0, 0], found, written)];
      TrackedMore(d1.log, Wrote(MARKER, [0, 0], found, written));
    }
  }

  lemma StepLogged(n: Node, event: Event)
    requires Agrees(n.loader, n.device) && Logged(n.loader, n.device)
    ensures Logged(Step(n, event).loader, Step(n, event).device)
  {
    hide InTransfer, Describes, Tracked, BeginImage, StoreData, FinalizeImage, Stored;
    match event
    case Request(payload) =>
      AcceptAgrees(n.loader, n.device, payload);
    case Turn(faults) =>
      if n.loader.pending.Some? {
        var d := WithFaults(n.device, faults);
        FaultsIrrelevant(n.loader, n.device, faults);
        var idle := n.loader.(pending := None);
        UnparkedAgrees(n.loader, d);
        match n.loader.pending.value
        case Begin(length, maps, crc) => BeginLogged(idle, d, Declared(length, maps, crc));
        case Data(_, bytes) => DataLogged(idle, d, bytes);
        case Finalize => FinalizeLogged(idle, d);
      }
    case Start(result) =>
    case Reboot(faults) =>
      BootAgrees(PoweredUp(n.device, faults));
  }

  /** Over every run, whatever fails or is interrupted, the bus sees only allowed uses. */
  lemma {:induction false} RunDisciplined(bytes: seq<byte>, faults: seq<Fault>, events: seq<Event>)
    requires |bytes| == FLASH_SIZE
    ensures var n := Run(PowerOn(bytes, faults), events);
      Logged(n.loader, n.device)
  {
    hide Agrees, Step;
    if events == [] {
      BootLogged(bytes, faults);
    } else {
      var before := events[..|events| - 1];
      RunDisciplined(bytes, faults, before);
      RunReachable(bytes, faults, before);
      StepLogged(Run(PowerOn(bytes, faults), before), events[|events| - 1]);
    }
  }

  lemma BootLogged(bytes: seq<byte>, faults: seq<Fault>)
    requires |bytes| == FLASH_SIZE
    ensures Logged(PowerOn(bytes, faults).loader, PowerOn(bytes, faults).device)
  {
    BootAgrees(PoweredUp(Device(bytes, [], false, []), faults));
  }

  ghost predicate InSlot(op: BusOp) {
    match op
    case Erased(from, to, _) => from == SLOT && to <= SLOT + SLOT_SIZE && from % PAGE == 0 && to % PAGE == 0
    case Wrote(offset, data, found, _) =>
      && SLOT <= offset && offset + |data| <= SLOT + SLOT_SIZE
      && offset % 2 == 0 && |data| % 2 == 0
      && |found| == |data| && AllErased(found)
  }

  ghost predicate Bounded(t: Track) {
    match t
    case Prepared(limit) => limit <= SLOT + SLOT_SIZE
    case Open(next, limit) => DATA <= next && limit <= SLOT + SLOT_SIZE
    case _ => true
  }

  lemma FollowInSlot(t: Track, op: BusOp)
    requires Bounded(t) && Follow(t, op) != Violated
    ensures Bounded(Follow(t, op)) && InSlot(op)
  {
    hide ErasedEnd, U16, AllErased;
  }

  /** In particular every erase and write of the run stays inside the reserved slot. */
  lemma {:induction false} DisciplineInSlot(log: seq<BusOp>)
    requires Tracked(log) != Violated
    ensures Bounded(Tracked(log))
    ensures forall op :: op in log ==> InSlot(op)
  {
    hide InSlot, ErasedEnd, U16, AllErased;
    if log != [] {
      var before := log[..|log| - 1];
      DisciplineInSlot(before);
      FollowInSlot(Tracked(before), log[|log| - 1]);
      assert log == before + [log[|log| - 1]];
    }
  }

  lemma RunStaysInSlot(bytes: seq<byte>, faults: seq<Fault>, events: seq<Event>)
    requires |bytes| == FLASH_SIZE
    ensures forall op :: op in Run(PowerOn(bytes, faults), events).device.log ==> InSlot(op)
  {
    RunDisciplined(bytes, faults, events);
    DisciplineInSlot(Run(PowerOn(bytes, faults), events).device.log);
  }

  // ---- One erase per attempt ----

  function Erasures(log: seq<BusOp>): nat {
    if log == [] then 0
    else Erasures(log[..|log| - 1]) + if log[|log| - 1].Erased? then 1 else 0
  }

  function Begins(history: seq<Action>): nat {
    if history == [] then 0
    else
      var last := history[|history| - 1];
      Begins(history[..|history| - 1]) + if last.Performed? && last.op.Begin? then 1 else 0
  }

  lemma ErasuresMore(log: seq<BusOp>, op: BusOp)
    ensures Erasures(log + [op]) == Erasures(log) + if op.Erased? then 1 else 0
  {
    assert (log + [op])[..|log|] == log;
  }

  lemma WriteErasesNothing(d: Device, offset: nat, data: seq<byte>)
    ensures Erasures(WriteCells(d, offset, data).0.log) == Erasures(d.log)
  {
    hide Erasures, Programmed;
    var d' := WriteCells(d, offset, data).0;
    if d'.log != d.log {
      assert d'.log == d.log + [d'.log[|d.log|]];
      ErasuresMore(d.log, d'.log[|d.log|]);
    }
  }

  lemma EraseErasesOnce(d: Device, from: nat, to: nat)
    ensures Erasures(EraseCells(d, from, to).0.log) <= Erasures(d.log) + 1
  {
    hide Erasures, Blanked;
    if d.powered {
      ErasuresMore(d.log, Erased(from, to, EraseCells(d, from, to).1));
    }
  }

  lemma {:induction false} ScanErasesNothing(d: Device, base: nat, count: nat, index: nat, total: u32,
                                             table: LayoutTable)
    requires index <= count <= MAX_MAPS
    ensures ScanFrom(d, base, count, index, total, table).0.log == d.log
    decreases count - index
  {
    hide Decode, NextTotal, Narrowed;
    if index < count {
      var (d', raw) := ReadCells(d, base + DESCRIPTOR_SIZE * index, DESCRIPTOR_SIZE);
      if raw.Some? {
        var next := NextTotal(total, Decode(raw.value));
        if next.Some? {
          ScanErasesNothing(d', base, count, index + 1, next.value, table[index := Narrowed(total, Decode(raw.value))]);
        }
      }
    }
  }

  /** Performing an operation erases at most once, and only if it is a Begin. */
  lemma PerformErases(l: Loader, d: Device, op: LoadOp)
    ensures Erasures(Perform(l, d, op).1.log) <= Erasures(d.log) + if op.Begin? then 1 else 0
  {
    hide Erasures, EraseCells, WriteCells, ErasedEnd, LengthOf, Header, Crc32.Update, Crc32.Finish, Scan;
    match op
    case Begin(length, maps, crc) =>
      var declared := Declared(length, maps, crc);
      EraseErasesOnce(d, SLOT, ErasedEnd(LengthOf(declared)));
      WriteErasesNothing(EraseCells(d, SLOT, ErasedEnd(LengthOf(declared))).0, SLOT, Header(declared, 0xff));
    case Data(offset, bytes) =>
      WriteErasesNothing(d, DATA + offset, bytes);
    case Finalize =>
      var d1 := Scan(d, DATA + l.bytecodeLen, l.mapCount).0;
      assert d1.log == d.log by { ScanSilent(d, DATA + l.bytecodeLen, l.mapCount); }
      WriteErasesNothing(d1, MARKER, [0, 0]);
  }

  lemma ScanSilent(d: Device, base: nat, count: nat)
    requires count <= MAX_MAPS
    ensures Scan(d, base, count).0.log == d.log
  {
    ScanErasesNothing(d, base, count, 0, 0, NO_LAYOUTS);
  }

  lemma BeginsMore(history: seq<Action>, action: Action)
    ensures Begins(history + [action]) == Begins(history) + if action.Performed? && action.op.Begin? then 1 else 0
  {
    assert (history + [action])[..|history|] == history;
  }

  /** Over any run the bus sees at most one erase per performed Begin: no page is erased twice in
      one attempt, and nothing else ever erases. */
  lemma {:induction false} OneErasePerBegin(bytes: seq<byte>, faults: seq<Fault>, events: seq<Event>)
    requires |bytes| == FLASH_SIZE
    ensures var n := Run(PowerOn(bytes, faults), events);
      Erasures(n.device.log) <= Begins(n.history)
  {
    hide Agrees, Step, Erasures, Begins;
    if events == [] {
      BootSilent(bytes, faults);
    } else {
      var before := events[..|events| - 1];
      OneErasePerBegin(bytes, faults, before);
      RunReachable(bytes, faults, before);
      StepErases(Run(PowerOn(bytes, faults), before), events[|events| - 1]);
    }
  }

  lemma BootSilent(bytes: seq<byte>, faults: seq<Fault>)
    requires |bytes| == FLASH_SIZE
    ensures PowerOn(bytes, faults).device.log == [] && Erasures([]) == 0
  {
    hide InTransfer, Describes, ValidateCommitted;
    BootAgrees(PoweredUp(Device(bytes, [], false, []), faults));
  }

  lemma StepErases(n: Node, event: Event)
    requires Agrees(n.loader, n.device) && Erasures(n.device.log) <= Begins(n.history)
    ensures Erasures(Step(n, event).device.log) <= Begins(Step(n, event).history)
  {
    hide InTransfer, Describes, Erasures, Begins, Perform, ValidateCommitted, Stored;
    match event
    case Turn(faults) =>
      if n.loader.pending.Some? {
        PerformErases(n.loader.(pending := None), WithFaults(n.device, faults), n.loader.pending.value);
        BeginsMore(n.history, Performed(n.loader.pending.value, faults));
      }
    case Start(_) => BeginsMore(n.history, Started);
    case Reboot(faults) =>
      BootAgrees(PoweredUp(n.device, faults));
      BeginsMore(n.history, Rebooted(faults));
    case Request(_) =>
  }

  // ---- What is stored stays until an erase succeeds ----

  /** No erase after the first `from` uses of the bus succeeded. */
  predicate NoErase(log: seq<BusOp>, from: nat) {
    forall i :: from <= i < |log| && log[i].Erased? ==> !log[i].ok
  }

  predicate Longer(log: seq<BusOp>, log': seq<BusOp>) { |log| <= |log'| && log'[..|log|] == log }

  lemma PerformKeeps(l: Loader, d: Device, op: LoadOp)
    ensures Longer(d.log, Perform(l, d, op).1.log)
    ensures op.Begin? && NoErase(Perform(l, d, op).1.log, |d.log|) ==>
              Perform(l, d, op).1.bytes == d.bytes && !Perform(l, d, op).0.state.Receiving?
  {
    hide ErasedEnd, LengthOf, Header, Crc32.Update, Crc32.Finish, Scan, Blanked, Programmed;
    match op
    case Begin(length, maps, crc) =>
      var declared := Declared(length, maps, crc);
      var (d1, erased) := EraseCells(d, SLOT, ErasedEnd(LengthOf(declared)));
      if erased {
        assert Perform(l, d, op).1.log[|d.log|] == Erased(SLOT, ErasedEnd(LengthOf(declared)), true);
      }
    case Data(_, _) =>
    case Finalize =>
      ScanSilent(d, DATA + l.bytecodeLen, l.mapCount);
  }

  lemma StepKeeps(n: Node, event: Event)
    requires Agrees(n.loader, n.device)
    ensures var n' := Step(n, event);
      && Longer(n.device.log, n'.device.log)
      && (!n.loader.state.Receiving? && NoErase(n'.device.log, |n.device.log|) ==>
            n'.device.bytes == n.device.bytes && !n'.loader.state.Receiving?)
  {
    hide InTransfer, Describes, NoErase, Perform, ValidateCommitted, Stored, AcceptLoad;
    match event
    case Request(payload) => AcceptAgrees(n.loader, n.device, payload);
    case Turn(faults) =>
      if n.loader.pending.Some? {
        PerformKeeps(n.loader.(pending := None), WithFaults(n.device, faults), n.loader.pending.value);
      }
    case Start(_) =>
    case Reboot(faults) => BootAgrees(PoweredUp(n.device, faults));
  }

  lemma NoEraseSplit(log: seq<BusOp>, middle: seq<BusOp>, log': seq<BusOp>)
    requires Longer(log, middle) && Longer(middle, log')
    ensures Longer(log, log')
    ensures NoErase(log', |log|) ==> NoErase(middle, |log|) && NoErase(log', |middle|)
  {
    assert log'[..|log|] == middle[..|log|];
    assert forall i :: 0 <= i < |middle| ==> log'[i] == log'[..|middle|][i];
  }

  /**
   Durability. From any reached state that is not in the middle of a transfer, as long as no erase
   succeeds, every byte of the flash stays as it is, whatever is requested, fails or is interrupted:
   a stored image survives and a boot with good reads offers it again.
   */
  lemma {:induction false} Durable(bytes: seq<byte>, faults: seq<Fault>, events: seq<Event>, later: seq<Event>)
    requires |bytes| == FLASH_SIZE
    ensures var n := Run(PowerOn(bytes, faults), events);
      var n' := Run(PowerOn(bytes, faults), events + later);
      && Longer(n.device.log, n'.device.log)
      && ValidDevice(n.device)
      && (!n.loader.state.Receiving? && NoErase(n'.device.log, |n.device.log|) ==>
            && n'.device.bytes == n.device.bytes
            && !n'.loader.state.Receiving?
            && (Stored(n.device.bytes).Some? ==>
                  Step(n', Reboot([])).loader.state == Committed(Stored(n.device.bytes).value.declared.crc)))
    decreases |later|
  {
    hide Agrees, Step, Stored, NoErase, Longer;
    var all := events + later;
    var n, n' := Run(PowerOn(bytes, faults), events), Run(PowerOn(bytes, faults), all);
    RunReachable(bytes, faults, all);
    BootReturns(n');
    if later == [] {
      assert all == events;
      assert Longer(n.device.log, n.device.log) by { LongerItself(n.device.log); }
    } else {
      var before := later[..|later| - 1];
      assert all[..|all| - 1] == events + before;
      Durable(bytes, faults, events, before);
      var middle := Run(PowerOn(bytes, faults), events + before);
      RunReachable(bytes, faults, events + before);
      StepKeeps(middle, all[|all| - 1]);
      NoEraseSplit(n.device.log, middle.device.log, n'.device.log);
    }
  }

  lemma LongerItself(log: seq<BusOp>)
    ensures Longer(log, log)
  {}

  lemma BootReturns(n: Node)
    requires Agrees(n.loader, n.device)
    ensures ValidDevice(n.device)
    ensures Stored(n.device.bytes).Some? ==>
              Step(n, Reboot([])).loader.state == Committed(Stored(n.device.bytes).value.declared.crc)
  {
    hide ValidateCommitted, InTransfer, Describes, Stored;
    BootAgrees(PoweredUp(n.device, []));
  }
}
