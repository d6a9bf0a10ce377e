/** Where the loader does not do what its requirements say, and exactly when. */
module Departures {
  import opened Bytes
  import opened ImageFormat
  import opened LoaderAgreement
  import opened LoaderModel
  import opened LoaderRuns
  import opened MapLayouts
  import opened NorFlash
  import opened Uploads
  import Crc32

  // ---- A failed attempt can still be committed ----

  /** Begin reports a flash error exactly if its erase or its header write fails, and only an erase
      that works takes away what was stored: after a failed one the old image is still there. */
  lemma BeginExactly(l: Loader, d: Device)
    requires Agrees(l, d) && l.pending.Some? && l.pending.value.Begin?
    ensures var (l', d') := ExecutePending(l, d);
      && ValidDevice(d')
      && l'.state == (if OpsWork(d, 2) then Receiving else Failed(STATUS_FLASH_ERROR))
      && Stored(d'.bytes) == (if OpsWork(d, 1) then None else Stored(d.bytes))
      && (!OpsWork(d, 1) ==> d'.bytes == d.bytes)
  {
    hide BeginImage, Stored, OpsWork, InTransfer, Describes;
    var op := l.pending.value;
    UnparkedAgrees(l, d);
    BeginAgrees(l.(pending := None), d, Declared(op.bytecodeLen, op.mapCount, op.expectedCrc));
  }

  lemma {:induction false} ZeroOr(a: nat)
    ensures Or(0, a) == a
  {
    if a != 0 {
      ZeroOr(a / 2);
    }
  }

  /** Programming the marker leaves exactly the bits that a torn write kept. */
  lemma MarkerCells(bytes: seq<byte>, keep: seq<byte>)
    requires |bytes| == FLASH_SIZE && Blank(bytes, MARKER, MARKER + 2)
    ensures var marked := Programmed(bytes, MARKER, [0, 0], keep);
      marked[MARKER] == KeptBits(keep, 0) && marked[MARKER + 1] == KeptBits(keep, 1)
  {
    hide And, Or;
    var one: seq<byte> := [0];
    var two: seq<byte> := [0, 0];
    assert two[..1] == one && one[..0] == [];
    ZeroOr(KeptBits(keep, 0));
    ZeroOr(KeptBits(keep, 1));
    OnesAbsorb(KeptBits(keep, 0));
    OnesAbsorb(KeptBits(keep, 1));
  }

  /** Both marker bytes end up zero, whether or not the write was acknowledged. */
  ghost predicate MarkerLands(d: Device) {
    d.powered && KeptBits(TornBits(NextFault(d.faults)), 0) == 0 && KeptBits(TornBits(NextFault(d.faults)), 1) == 0
  }

  lemma MarkerWritten(d: Device)
    requires ValidDevice(d)
    ensures var (d', written) := WriteCells(d, MARKER, [0, 0]);
      && d'.bytes == (if d.powered then Programmed(d.bytes, MARKER, [0, 0], TornBits(NextFault(d.faults))) else d.bytes)
      && (written <==> d.powered && NextFault(d.faults).Works?)
  {
    var data: seq<byte> := [0, 0];
    assert |data| == 2 && MARKER + |data| <= |d.bytes|;
  }

  lemma MarkerStores(l: Loader, d: Device)
    requires ValidDevice(d) && InTransfer(l, d) && l.nextOffset == l.imageLen
    requires Vetted(Image(DeclaredBy(l), Received(l, d)))
    ensures Stored(WriteCells(d, MARKER, [0, 0]).0.bytes)
         == if MarkerLands(d) then Some(Image(DeclaredBy(l), Received(l, d))) else None
    ensures WriteCells(d, MARKER, [0, 0]).1 <==> d.powered && NextFault(d.faults).Works?
  {
    hide Sized, LengthOf, ErasedEnd, IsHeader, Even, Crc32.Update, Vetted, Stored, Programmed, WriteCells;
    HeaderMarker(d.bytes, DeclaredBy(l), 0xff);
    MarkerWritten(d);
    if d.powered {
      var keep := TornBits(NextFault(d.faults));
      MarkerCells(d.bytes, keep);
      MarkedSlot(l, d, Programmed(d.bytes, MARKER, [0, 0], keep));
    } else {
      TransferStoresNothing(l, d);
    }
  }

  /** What Finalize decides about a received image, over any flash. */
  function FinalizeVerdict(image: Image, d: Device): LoaderState
    requires |image.payload| == LengthOf(image.declared)
  {
    if Crc32.Checksum(image.payload) != image.declared.crc then Failed(STATUS_BAD_CRC)
    else if !Acceptable(Descriptors(image)) || !OpsWork(d, image.declared.mapCount) then Failed(STATUS_BAD_STATE)
    else if !OpsWork(d, image.declared.mapCount + 1) then Failed(STATUS_FLASH_ERROR)
    else Committed(image.declared.crc)
  }

  /**
   The requirements say that a failed attempt is never marked committed. Finalize reports success
   exactly if the CRC matched, the descriptors are acceptable and were all read, and the marker
   write was acknowledged; it stores the image exactly if instead of the last both marker bytes ended
   up zero. So a failed attempt is committed exactly when its marker write landed unacknowledged.
   */
  lemma FinalizeExactly(l: Loader, d: Device)
    requires Agrees(l, d) && l.pending == Some(Finalize)
    ensures var (l', d') := ExecutePending(l, d);
      var image := Image(DeclaredBy(l), Received(l, d));
      && ValidDevice(d')
      && l'.pending == None
      && l'.state == FinalizeVerdict(image, d)
      && Stored(d'.bytes)
         == if Vetted(image) && OpsWork(d, l.mapCount) && MarkerLands(AfterOps(d, l.mapCount))
            then Some(image) else None
  {
    hide IsHeader, Even, Crc32.Update, Stored, Scan, Descriptors, LayoutsOf, Acceptable, WriteCells, MarkerLands,
         OpsWork;
    hide Fits, LengthOf, ErasedEnd, AfterOps;
    ReceivedFits(l.(pending := None), d);
    TransferStoresNothing(l, d);
    FinalizeScan(l, d);
    var (d1, table) := Scan(d, DATA + l.bytecodeLen, l.mapCount);
    var (d2, written) := WriteCells(d1, MARKER, [0, 0]);
    if Crc32.Finish(l.crc) == l.expectedCrc && table.Some? {
      FinalizeFlash(l, d);
      MarkerStores(l, d1);
      OneMore(d, l.mapCount);
    }
  }

  lemma OneMore(d: Device, count: nat)
    requires OpsWork(d, count)
    ensures OpsWork(d, count + 1)
       <==> AfterOps(d, count).powered && NextFault(AfterOps(d, count).faults).Works?
  {
    OpsSplit(d, count, 1);
    FirstOpWorks(AfterOps(d, count), 1);
  }

  function ErasedFlash(): seq<byte> { seq(FLASH_SIZE, _ => 0xff) }

  /** An erased part that has just been switched on is ready for an upload. */
  lemma ErasedQuiet()
    ensures Quiet(PowerOn(ErasedFlash(), []))
  {
    hide ValidateCommitted, InTransfer, Describes;
    UnmarkedSlot(ErasedFlash());
    BootAgrees(PoweredUp(Device(ErasedFlash(), [], false, []), []));
  }

  /** An image sent in these pieces, with Finalize parked. */
  function Parked(n: Node, declared: Declared, pieces: seq<seq<byte>>): Node
    requires |Concat(pieces)| < 0x1_0000
  {
    Step(SendPieces(Exchange(n, BeginRequest(declared)), 0, pieces), Request(FINALIZE_REQUEST))
  }

  ghost predicate FullySent(n: Node, declared: Declared, data: seq<byte>) {
    && Agrees(n.loader, n.device) && n.device.powered
    && n.loader.pending == Some(Finalize)
    && DeclaredBy(n.loader) == declared && Received(n.loader, n.device) == data
  }

  lemma ParkedReady(n: Node, declared: Declared, pieces: seq<seq<byte>>)
    requires Quiet(n) && Sized(declared)
    requires forall piece :: piece in pieces ==> Sendable(piece)
    requires |Concat(pieces)| == LengthOf(declared) < 0x1_0000
    ensures FullySent(Parked(n, declared, pieces), declared, Concat(pieces))
  {
    hide Crc32.Checksum, Crc32.Update, Exchange, SendPieces, BeginRequest, Describes, Partial;
    hide IsHeader, Even, ErasedEnd, AcceptLoad, Fits, LengthOf, Sendable;
    BeginExchange(n, declared);
    PiecesSent(Exchange(n, BeginRequest(declared)), n.device.bytes, declared, [], pieces);
    assert [] + Concat(pieces) == Concat(pieces);
    var sent := SendPieces(Exchange(n, BeginRequest(declared)), 0, pieces);
    ReceivedFits(sent.loader, sent.device);
    FinalizeParked(sent);
  }

  lemma FinalizeParked(n: Node)
    requires Quiet(n) && n.loader.state.Receiving? && n.loader.nextOffset == n.loader.imageLen
    ensures var n' := Step(n, Request(FINALIZE_REQUEST));
      n' == n.(loader := n.loader.(pending := Some(Finalize))) && Agrees(n'.loader, n'.device)
  {
    hide Agrees;
    AcceptAgrees(n.loader, n.device, FINALIZE_REQUEST);
  }

  /** The first operation fails without clearing anything less than it should. */
  const FIRST_FAILS: seq<Fault> := [Fails([])]

  lemma FirstFails(d: Device)
    requires d.powered && d.faults == FIRST_FAILS
    ensures forall count :: 0 < count ==> !OpsWork(d, count)
    ensures OpsWork(d, 0) && AfterOps(d, 0) == d && MarkerLands(d)
  {
    forall count: nat | 0 < count
      ensures !OpsWork(d, count)
    {
      FirstOpWorks(d, count);
    }
  }

  /** Inputs that show it: over any quiet state, any image without maps whose marker write fails after
      clearing every bit. Finalize reports a flash error and the next boot commits the image. */
  lemma FailedAttemptReturns(n: Node, declared: Declared, pieces: seq<seq<byte>>)
    requires Quiet(n) && Sized(declared) && declared.mapCount == 0
    requires forall piece :: piece in pieces ==> Sendable(piece)
    requires |Concat(pieces)| == LengthOf(declared) < 0x1_0000
    requires Crc32.Checksum(Concat(pieces)) == declared.crc
    ensures var failed := Step(Parked(n, declared, pieces), Turn(FIRST_FAILS));
      && failed.loader.state == Failed(STATUS_FLASH_ERROR)
      && Step(failed, Reboot([])).loader.state == Committed(declared.crc)
  {
    hide Crc32.Checksum, Crc32.Update, ValidateCommitted, ExecutePending, Parked, Describes, Stored, IsHeader, Even;
    hide ErasedEnd, OpsWork, MarkerLands, LengthOf, Fits, FullySent, BootVerdict;
    var sent, image := Parked(n, declared, pieces), Image(declared, Concat(pieces));
    FullyFinalized(n, declared, pieces, FIRST_FAILS);
    FirstFails(WithFaults(sent.device, FIRST_FAILS));
    assert Descriptors(image) == [];
    BootAgrees(PoweredUp(Step(sent, Turn(FIRST_FAILS)).device, []));
  }

  /** Such inputs exist: any one instruction sent to an erased part that was just switched on. */
  lemma ErasedAttemptReturns(program: seq<byte>)
    requires |program| == 8
    ensures var declared := Declared(8, 0, Crc32.Checksum(program));
      var failed := Step(Parked(PowerOn(ErasedFlash(), []), declared, Chop(program)), Turn(FIRST_FAILS));
      && |Concat(Chop(program))| == 8
      && failed.loader.state == Failed(STATUS_FLASH_ERROR)
      && Step(failed, Reboot([])).loader.state == Committed(declared.crc)
  {
    hide Crc32.Checksum, Parked, Quiet, Chop, Step, PowerOn, ErasedFlash;
    EvenRemainder(8);
    ChopSendable(program);
    ErasedQuiet();
    FailedAttemptReturns(PowerOn(ErasedFlash(), []), Declared(8, 0, Crc32.Checksum(program)), Chop(program));
  }

  /** A whole upload over flash that works until Finalize meets the given faults. */
  lemma FullyFinalized(n: Node, declared: Declared, pieces: seq<seq<byte>>, faults: seq<Fault>)
    requires Quiet(n) && Sized(declared)
    requires forall piece :: piece in pieces ==> Sendable(piece)
    requires |Concat(pieces)| == LengthOf(declared) < 0x1_0000
    ensures var d := WithFaults(Parked(n, declared, pieces).device, faults);
      var n' := Step(Parked(n, declared, pieces), Turn(faults));
      var image := Image(declared, Concat(pieces));
      && d.powered && ValidDevice(n'.device)
      && n'.loader.pending == None && n'.loader.state == FinalizeVerdict(image, d)
      && Stored(n'.device.bytes)
         == if Vetted(image) && OpsWork(d, declared.mapCount) && MarkerLands(AfterOps(d, declared.mapCount))
            then Some(image) else None
  {
    hide Crc32.Checksum, Crc32.Update, ExecutePending, Parked, Describes, Stored, IsHeader, Even, ErasedEnd, OpsWork;
    hide MarkerLands, LengthOf, Fits, FinalizeVerdict, Vetted;
    ParkedReady(n, declared, pieces);
    var sent := Parked(n, declared, pieces);
    FaultsIrrelevant(sent.loader, sent.device, faults);
    ReceivedFits(sent.loader, sent.device);
    assert Received(sent.loader, WithFaults(sent.device, faults)) == Concat(pieces);
    FinalizeExactly(sent.loader, WithFaults(sent.device, faults));
  }

  // ---- A query can answer with another status ----

  /**
   The requirements say that after a failed operation the CRC query answers with a flash or CRC
   error. After Finalize it answers Bad State exactly if the CRC matched and the descriptors are
   not acceptable or the read of one of them failed.
   */
  lemma QueryBadState(l: Loader, d: Device)
    requires Agrees(l, d) && l.pending == Some(Finalize)
    ensures var image := Image(DeclaredBy(l), Received(l, d));
      Query(ExecutePending(l, d).0) == Err(STATUS_BAD_STATE)
      <==> Crc32.Checksum(image.payload) == image.declared.crc
           && (!Acceptable(Descriptors(image)) || !OpsWork(d, l.mapCount))
  {
    hide Crc32.Checksum, Acceptable, Descriptors, OpsWork, ExecutePending, Stored, Vetted, InTransfer, MarkerLands;
    FinalizeExactly(l, d);
  }

  /** Inputs that show it over flash that works: one instruction followed by a descriptor of type zero. */
  lemma UntypedMapRefused(n: Node, payload: seq<byte>)
    requires Quiet(n) && |payload| == 24 && payload[8..12] == [0, 0, 0, 0]
    ensures var declared := Declared(8, 1, Crc32.Checksum(payload));
      && |Concat(Chop(payload))| == LengthOf(declared) == 24
      && Query(Step(Parked(n, declared, Chop(payload)), Turn([])).loader) == Err(STATUS_BAD_STATE)
  {
    hide Crc32.Checksum, Parked, Quiet, Chop, Step, Stored, Vetted, Acceptable, OpsWork, MarkerLands;
    EvenRemainder(24);
    ChopSendable(payload);
    var declared := Declared(8, 1, Crc32.Checksum(payload));
    UntypedDescriptor(Image(declared, payload));
    FullyFinalized(n, declared, Chop(payload), []);
  }

  /** Inputs that show it whatever the descriptors are: an image with maps and a matching CRC, where
      the first read of a descriptor fails. */
  lemma UnreadMapRefused(n: Node, declared: Declared, pieces: seq<seq<byte>>)
    requires Quiet(n) && Sized(declared) && declared.mapCount > 0
    requires forall piece :: piece in pieces ==> Sendable(piece)
    requires |Concat(pieces)| == LengthOf(declared) < 0x1_0000
    requires Crc32.Checksum(Concat(pieces)) == declared.crc
    ensures Query(Step(Parked(n, declared, pieces), Turn(FIRST_FAILS)).loader) == Err(STATUS_BAD_STATE)
  {
    hide Crc32.Checksum, Parked, Quiet, Step, Stored, Vetted, Acceptable, OpsWork, MarkerLands, LengthOf, Fits;
    FullyFinalized(n, declared, pieces, FIRST_FAILS);
    FirstFails(WithFaults(Parked(n, declared, pieces).device, FIRST_FAILS));
  }

  lemma UntypedDescriptor(image: Image)
    requires image.declared.bytecodeLen == 8 && image.declared.mapCount == 1 && |image.payload| == 24
    requires image.payload[8..12] == [0, 0, 0, 0]
    ensures |image.payload| == LengthOf(image.declared) && !Acceptable(Descriptors(image))
  {
    hide Decode, Total, Size;
    assert image.payload[8..24][..4] == [0, 0, 0, 0];
    NoType(image.payload[8..24]);
    assert Descriptors(image)[0] == Decode(image.payload[8..24]);
    assert Descriptors(image)[0] in Descriptors(image);
  }

  lemma NoType(raw: seq<byte>)
    requires |raw| == DESCRIPTOR_SIZE && raw[..4] == [0, 0, 0, 0]
    ensures !Supported(Decode(raw))
  {
    assert raw[0] == raw[..4][0] && raw[1] == raw[..4][1] && raw[2] == raw[..4][2] && raw[3] == raw[..4][3];
    FourBytes(0, 0, 0, 0);
  }

  // ---- A boot can report an empty slot although it holds an image ----

  /**
   The requirements keep "no program" for a part without a valid image. A boot offers the stored image
   exactly if its header, its payload (16 bytes a read) and its descriptors were all read; it reports a flash error
   exactly if the header or a payload read failed; and so it calls the slot empty, although the
   image is there, exactly if those reads worked and the read of a descriptor failed.
   */
  lemma BootExactly(d: Device, image: Image)
    requires ValidDevice(d) && Stored(d.bytes) == Some(image)
    ensures var l := ValidateCommitted(NEW_LOADER, d).0;
      var payloadReads := 1 + Chunks(LengthOf(image.declared));
      && 16 * (payloadReads - 2) < LengthOf(image.declared) <= 16 * (payloadReads - 1)
      && (l.state == Failed(STATUS_FLASH_ERROR) <==> !OpsWork(d, payloadReads))
      && (l.state == Committed(image.declared.crc) <==> OpsWork(d, payloadReads + image.declared.mapCount))
      && (l.state == Empty
          <==> OpsWork(d, payloadReads) && !OpsWork(d, payloadReads + image.declared.mapCount))
  {
    hide ValidateCommitted, OpsWork, Chunks, LengthOf, ParseHeader, Stored;
    BootAgrees(d);
    BootHeader(d);
    StoredSized(d.bytes);
    ChunksCount(LengthOf(image.declared));
    OpsSplit(d, 1, Chunks(LengthOf(image.declared)));
    OpsSplit(d, 1 + Chunks(LengthOf(image.declared)), image.declared.mapCount);
  }

  lemma StoredSized(bytes: seq<byte>)
    requires |bytes| == FLASH_SIZE && Stored(bytes).Some?
    ensures LengthOf(Stored(bytes).value.declared) >= 8
  {
    SizedExtent(Stored(bytes).value.declared);
  }

  /** That many operations work and the next fails. */
  function FailsAfter(count: nat): seq<Fault> { seq(count, _ => Works) + FIRST_FAILS }

  lemma FailsThere(d: Device, count: nat, more: nat)
    requires d.powered && d.faults == FailsAfter(count)
    ensures OpsWork(d, more) <==> more <= count
  {
    if more > count {
      assert d.faults[count] == Fails([]);
    }
  }

  /** Inputs that show it: any stored image with maps, with a fault on the first read of a descriptor. */
  lemma UnreadMapHidesImage(d: Device, image: Image)
    requires ValidDevice(d) && d.powered && Stored(d.bytes) == Some(image) && image.declared.mapCount > 0
    requires d.faults == FailsAfter(1 + Chunks(LengthOf(image.declared)))
    ensures var (l, d') := ValidateCommitted(NEW_LOADER, d);
      && l.state == Empty
      && d'.bytes == d.bytes
      && ValidateCommitted(NEW_LOADER, PoweredUp(d', [])).0.state == Committed(image.declared.crc)
  {
    hide ValidateCommitted, OpsWork, Chunks, LengthOf, Stored, FailsAfter, BootVerdict;
    var worked := 1 + Chunks(LengthOf(image.declared));
    BootExactly(d, image);
    FailsThere(d, worked, worked);
    FailsThere(d, worked, worked + image.declared.mapCount);
    BootAgrees(d);
    BootAgrees(PoweredUp(ValidateCommitted(NEW_LOADER, d).1, []));
  }
}
