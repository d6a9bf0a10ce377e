/**
 RAM and flash agree: the invariant tying the loader's fields to the flash cells, and the proof
 that every operation, under every fault, keeps it and is a step of the image store.
 */
module LoaderAgreement {
  import opened Bytes
  import opened ImageFormat
  import opened ImageStore
  import opened LoaderModel
  import opened MapLayouts
  import opened NorFlash
  import Crc32

  function DeclaredBy(l: Loader): Declared { Declared(l.bytecodeLen, l.mapCount, l.expectedCrc) }

  function Received(l: Loader, d: Device): seq<byte>
    requires DATA + l.nextOffset <= |d.bytes|
  {
    d.bytes[DATA..DATA + l.nextOffset]
  }

  ghost predicate SameCells(d: Device, d': Device) {
    d' == d.(faults := d'.faults, powered := d'.powered)
  }

  /** What the callback checked before it parked an operation. */
  ghost predicate Admissible(l: Loader, op: LoadOp) {
    && !l.state.Running?
    && match op
       case Begin(bytecodeLen, mapCount, _) => Fits(bytecodeLen, mapCount)
       case Data(offset, bytes) =>
         && l.state.Receiving?
         && offset == l.nextOffset
         && 2 <= |bytes| <= 12 && Even(|bytes|)
         && offset + |bytes| <= l.imageLen
       case Finalize => l.state.Receiving? && l.nextOffset == l.imageLen
  }

  /** Mid-transfer: an unmarked header, exactly the bytes received so far, then erased cells to the end of
      the erased pages. */
  ghost predicate InTransfer(l: Loader, d: Device)
    requires ValidDevice(d)
  {
    && Sized(DeclaredBy(l))
    && l.imageLen == LengthOf(DeclaredBy(l))
    && l.nextOffset <= l.imageLen
    && Even(l.nextOffset)
    && IsHeader(d.bytes[SLOT..DATA], DeclaredBy(l), 0xff)
    && Blank(d.bytes, DATA + l.nextOffset, ErasedEnd(l.imageLen))
    && l.crc == Crc32.Update(Crc32.INIT, Received(l, d))
  }

  /** The flash holds a vetted image with this CRC and the RAM describes that image. */
  ghost predicate Describes(l: Loader, d: Device, crc: u32)
    requires ValidDevice(d)
  {
    && Stored(d.bytes).Some?
    && var image := Stored(d.bytes).value;
    && image.declared == Declared(l.bytecodeLen, l.mapCount, crc)
    && l.committedMaps == l.mapCount
    && l.layouts == LayoutsOf(Descriptors(image))
  }

  ghost predicate NoMaps(l: Loader) { l.committedMaps == 0 && l.layouts == NO_LAYOUTS }

  ghost predicate Agrees(l: Loader, d: Device) {
    && ValidDevice(d)
    && (l.pending.Some? ==> Admissible(l, l.pending.value))
    && match l.state
       case Committed(crc) => Describes(l, d, crc)
       case Running(crc) => Describes(l, d, crc)
       case Receiving => NoMaps(l) && InTransfer(l, d)
       case _ => NoMaps(l)
  }

  /** The image store a loader and its flash stand for. */
  ghost function Abstract(l: Loader, d: Device): Store
    requires Agrees(l, d)
  {
    var stored := Stored(d.bytes);
    Store(stored,
          match l.state
          case Empty => Idle
          case Receiving => Incoming(DeclaredBy(l), Received(l, d))
          case Committed(_) => Ready(stored.value)
          case Running(_) => Active(stored.value)
          case Failed(status) => Broken(status))
  }

  lemma CommittedAgrees(l: Loader, d: Device, image: Image)
    requires ValidDevice(d) && l.pending.None? && l.state == Committed(image.declared.crc)
    requires Stored(d.bytes) == Some(image)
    requires l.bytecodeLen == image.declared.bytecodeLen
    requires l.committedMaps == l.mapCount == image.declared.mapCount
    requires l.layouts == LayoutsOf(Descriptors(image))
    ensures Agrees(l, d) && Abstract(l, d) == Store(Some(image), Ready(image))
  {}

  lemma FailedAgrees(l: Loader, d: Device)
    requires ValidDevice(d) && l.pending.None? && NoMaps(l) && l.state.Failed?
    ensures Agrees(l, d) && Abstract(l, d) == Store(Stored(d.bytes), Broken(l.state.status))
  {}

  lemma UnparkedAgrees(l: Loader, d: Device)
    requires Agrees(l, d)
    ensures Agrees(l.(pending := None), d)
    ensures Abstract(l.(pending := None), d) == Abstract(l, d)
  {}

  // ---- Header facts ----

  lemma HeaderMarker(bytes: seq<byte>, declared: Declared, marker: byte)
    requires |bytes| == FLASH_SIZE && IsHeader(bytes[SLOT..DATA], declared, marker)
    ensures bytes[MARKER] == marker && bytes[MARKER + 1] == marker
  {
    assert bytes[SLOT..DATA][12] == marker && bytes[SLOT..DATA][13] == marker;
  }

  lemma ReceivedFits(l: Loader, d: Device)
    requires Agrees(l, d) && l.state.Receiving?
    ensures l.imageLen == LengthOf(DeclaredBy(l)) && DATA + l.imageLen <= |d.bytes| && l.nextOffset <= l.imageLen
  {
    hide Sized, LengthOf, ErasedEnd, IsHeader, Even, Crc32.Update;
    SizedExtent(DeclaredBy(l));
  }

  lemma TransferStoresNothing(l: Loader, d: Device)
    requires ValidDevice(d) && InTransfer(l, d)
    ensures Stored(d.bytes) == None
  {
    HeaderMarker(d.bytes, DeclaredBy(l), 0xff);
    UnmarkedSlot(d.bytes);
  }

  // ---- Begin ----

  /** A header torn in any way leaves the marker unprogrammed. */
  lemma TornHeader(bytes: seq<byte>, declared: Declared, keep: seq<byte>)
    requires |bytes| == FLASH_SIZE && Blank(bytes, SLOT, DATA)
    ensures Stored(Programmed(bytes, SLOT, Header(declared, 0xff), keep)) == None
  {
    TornOnes(bytes, SLOT, Header(declared, 0xff), keep, MARKER);
    UnmarkedSlot(Programmed(bytes, SLOT, Header(declared, 0xff), keep));
  }

  lemma BlankSlot(bytes: seq<byte>)
    requires |bytes| == FLASH_SIZE && Blank(bytes, SLOT, DATA)
    ensures Stored(bytes) == None
  {
    UnmarkedSlot(bytes);
  }

  lemma HeaderWritten(bytes: seq<byte>, declared: Declared, end: nat)
    requires |bytes| == FLASH_SIZE && DATA <= end && Blank(bytes, SLOT, end)
    ensures var written := Programmed(bytes, SLOT, Header(declared, 0xff), []);
      IsHeader(written[SLOT..DATA], declared, 0xff) && Blank(written, DATA, end)
  {
    ProgramBlank(bytes, SLOT, Header(declared, 0xff));
    assert Splice(bytes, SLOT, Header(declared, 0xff))[SLOT..DATA] == Header(declared, 0xff);
  }

  lemma HeaderFlash(d: Device, declared: Declared, end: nat)
    requires ValidDevice(d) && DATA <= end && Blank(d.bytes, SLOT, end)
    ensures var (d', written) := WriteCells(d, SLOT, Header(declared, 0xff));
      && ValidDevice(d')
      && Stored(d'.bytes) == None
      && (written ==> IsHeader(d'.bytes[SLOT..DATA], declared, 0xff) && Blank(d'.bytes, DATA, end))
      && (written <==> OpsWork(d, 1))
      && (Reliable(d) ==> written && Reliable(d'))
  {
    hide Header, IsHeader, Programmed, Stored;
    BlankSlot(d.bytes);
    HeaderWritten(d.bytes, declared, end);
    TornHeader(d.bytes, declared, TornBits(NextFault(d.faults)));
  }

  lemma BeginFlash(d: Device, declared: Declared)
    requires ValidDevice(d) && Sized(declared)
    ensures var end := ErasedEnd(LengthOf(declared));
      var (d1, erased) := EraseCells(d, SLOT, end);
      var (d2, written) := WriteCells(d1, SLOT, Header(declared, 0xff));
      && DATA + LengthOf(declared) <= end <= FLASH_SIZE
      && ValidDevice(d1) && ValidDevice(d2)
      && (!erased ==> d1.bytes == d.bytes)
      && (erased ==> Stored(d2.bytes) == None)
      && (erased && written ==> IsHeader(d2.bytes[SLOT..DATA], declared, 0xff) && Blank(d2.bytes, DATA, end))
      && (erased <==> OpsWork(d, 1))
      && (erased && written <==> OpsWork(d, 2))
      && (Reliable(d) ==> erased && written && Reliable(d2))
  {
    hide Sized, LengthOf, ErasedEnd, Header, IsHeader, WriteCells, Programmed, Stored;
    SizedExtent(declared);
    EraseFlash(d, LengthOf(declared));
    var (d1, erased) := EraseCells(d, SLOT, ErasedEnd(LengthOf(declared)));
    FirstOpWorks(d, 2);
    if erased {
      HeaderFlash(d1, declared, ErasedEnd(LengthOf(declared)));
      ErasedWorn(d, SLOT, ErasedEnd(LengthOf(declared)));
    } else {
      KeptLength(d1, declared);
    }
  }

  lemma EraseFlash(d: Device, imageLen: nat)
    requires ValidDevice(d) && imageLen + HEADER_SIZE <= SLOT_SIZE
    ensures var (d', erased) := EraseCells(d, SLOT, ErasedEnd(imageLen));
      && ValidDevice(d')
      && (if erased then Blank(d'.bytes, SLOT, ErasedEnd(imageLen)) else d'.bytes == d.bytes)
      && (erased <==> OpsWork(d, 1))
      && (Reliable(d) ==> erased && Reliable(d'))
  {
    ErasedPages(imageLen);
  }

  lemma ErasedWorn(d: Device, from: nat, to: nat)
    requires EraseCells(d, from, to).1
    ensures OpsWork(EraseCells(d, from, to).0, 1) <==> OpsWork(Worn(d), 1)
    ensures d.powered && NextFault(d.faults).Works?
  {}

  lemma KeptLength(d: Device, declared: Declared)
    requires ValidDevice(d)
    ensures ValidDevice(WriteCells(d, SLOT, Header(declared, 0xff)).0)
  {}

  lemma EmptyTransfer(l: Loader, d: Device)
    requires ValidDevice(d) && Sized(DeclaredBy(l))
    requires l.imageLen == LengthOf(DeclaredBy(l)) && l.nextOffset == 0 && l.crc == Crc32.INIT
    requires IsHeader(d.bytes[SLOT..DATA], DeclaredBy(l), 0xff) && Blank(d.bytes, DATA, ErasedEnd(l.imageLen))
    ensures InTransfer(l, d) && Received(l, d) == []
  {}

  /** Begin starts a transfer exactly if its erase and its header write both work, and destroys what
      was stored exactly if its erase does; a failed erase leaves every cell alone. */
  lemma BeginAgrees(l: Loader, d: Device, declared: Declared)
    requires Agrees(l, d) && l.pending.None? && !l.state.Running? && Sized(declared)
    ensures var (l', d') := BeginImage(l, d, declared);
      && Agrees(l', d')
      && l'.pending == None
      && BeginStep(Abstract(l, d), declared, Abstract(l', d'))
      && l'.state == (if OpsWork(d, 2) then Receiving else Failed(STATUS_FLASH_ERROR))
      && Stored(d'.bytes) == (if OpsWork(d, 1) then None else Stored(d.bytes))
      && (!OpsWork(d, 1) ==> d'.bytes == d.bytes)
      && (Reliable(d) ==> l'.state.Receiving? && l'.nextOffset == 0 && DeclaredBy(l') == declared && Reliable(d'))
      && (Stored(d'.bytes) != None ==> d'.bytes == d.bytes)
  {
    hide Sized, LengthOf, ErasedEnd, IsHeader, Stored, EraseCells, OpsWork, Header, Crc32.Update, Even;
    BeginFlash(d, declared);
    SizedExtent(declared);
    var (l', d') := BeginImage(l, d, declared);
    if l'.state.Receiving? {
      EmptyTransfer(l', d');
    }
  }

  // ---- Data ----

  lemma DataFlash(l: Loader, d: Device, bytes: seq<byte>)
    requires ValidDevice(d) && InTransfer(l, d)
    requires Even(|bytes|) && l.nextOffset + |bytes| <= l.imageLen
    ensures var at := DATA + l.nextOffset;
      var (d', written) := WriteCells(d, at, bytes);
      && ValidDevice(d')
      && Stored(d'.bytes) == None
      && (written ==> d'.bytes == Splice(d.bytes, at, bytes))
      && (written <==> OpsWork(d, 1))
      && (Reliable(d) ==> written && Reliable(d'))
  {
    hide Sized, LengthOf, IsHeader, Even, Crc32.Update, Vetted, WriteCells, Stored;
    EvenRemainder(DATA);
    EvenRemainder(|bytes|);
    EvenSum(DATA, l.nextOffset);
    WriteBlank(d, DATA + l.nextOffset, bytes);
    HeaderMarker(d.bytes, DeclaredBy(l), 0xff);
    var (d', written) := WriteCells(d, DATA + l.nextOffset, bytes);
    UnmarkedSlot(d'.bytes);
  }

  lemma TransferExtended(l: Loader, d: Device, bytes: seq<byte>, l': Loader, d': Device)
    requires ValidDevice(d) && InTransfer(l, d)
    requires Even(|bytes|) && l.nextOffset + |bytes| <= l.imageLen
    requires DATA + l.imageLen <= ErasedEnd(l.imageLen) <= FLASH_SIZE
    requires d'.bytes == Splice(d.bytes, DATA + l.nextOffset, bytes)
    requires l' == l.(crc := Crc32.Update(l.crc, bytes), nextOffset := l.nextOffset + |bytes|)
    ensures InTransfer(l', d') && Received(l', d') == Received(l, d) + bytes
  {
    hide Sized, LengthOf, IsHeader, Even, Crc32.Update;
    EvenSum(l.nextOffset, |bytes|);
    CellsExtended(l, d, bytes, l', d', ErasedEnd(l.imageLen));
  }

  lemma CellsExtended(l: Loader, d: Device, bytes: seq<byte>, l': Loader, d': Device, end: nat)
    requires DATA + l.nextOffset + |bytes| <= DATA + l.imageLen <= end <= |d.bytes|
    requires l.crc == Crc32.Update(Crc32.INIT, Received(l, d))
    requires Blank(d.bytes, DATA + l.nextOffset, end)
    requires d'.bytes == Splice(d.bytes, DATA + l.nextOffset, bytes)
    requires l' == l.(crc := Crc32.Update(l.crc, bytes), nextOffset := l.nextOffset + |bytes|)
    ensures d'.bytes[SLOT..DATA] == d.bytes[SLOT..DATA]
    ensures Blank(d'.bytes, DATA + l'.nextOffset, end)
    ensures Received(l', d') == Received(l, d) + bytes
    ensures l'.crc == Crc32.Update(Crc32.INIT, Received(l', d'))
  {
    SpliceKeeps(d.bytes, DATA + l.nextOffset, bytes, SLOT, DATA);
    SpliceExtends(d.bytes, DATA, DATA + l.nextOffset, bytes);
    Crc32.UpdateConcat(Crc32.INIT, Received(l, d), bytes);
  }

  lemma DataAgrees(l: Loader, d: Device, bytes: seq<byte>)
    requires Agrees(l, d) && l.pending.None? && Admissible(l, Data(l.nextOffset, bytes))
    ensures var (l', d') := StoreData(l, d, l.nextOffset, bytes);
      && Agrees(l', d')
      && l'.pending == None
      && DataStep(Abstract(l, d), bytes, Abstract(l', d'))
      && l'.state == (if OpsWork(d, 1) then Receiving else Failed(STATUS_FLASH_ERROR))
      && (Reliable(d) ==> l'.state.Receiving? && Reliable(d'))
      && (l'.state.Receiving? ==> l' == l.(crc := l'.crc, nextOffset := l.nextOffset + |bytes|))
  {
    DataFlash(l, d, bytes);
    ErasedPages(l.imageLen);
    var (l', d') := StoreData(l, d, l.nextOffset, bytes);
    if l'.state.Receiving? {
      TransferExtended(l, d, bytes, l', d');
    }
  }

  // ---- Finalize ----

  /** Programming the marker over a complete, vetted transfer is what stores the image. */
  lemma MarkedSlot(l: Loader, d: Device, bytes: seq<byte>)
    requires ValidDevice(d) && InTransfer(l, d) && l.nextOffset == l.imageLen
    requires |bytes| == FLASH_SIZE
    requires forall i :: 0 <= i < FLASH_SIZE && i != MARKER && i != MARKER + 1 ==> bytes[i] == d.bytes[i]
    requires Vetted(Image(DeclaredBy(l), Received(l, d)))
    ensures Stored(bytes) == if bytes[MARKER] == 0 && bytes[MARKER + 1] == 0
                             then Some(Image(DeclaredBy(l), Received(l, d))) else None
  {
    hide Fits, U16, U32, Even, Vetted, Crc32.Update;
    var image := Image(DeclaredBy(l), Received(l, d));
    assert bytes[DATA..DATA + |image.payload|] == image.payload;
    if bytes[MARKER] == 0 && bytes[MARKER + 1] == 0 {
      var h, h' := d.bytes[SLOT..DATA], bytes[SLOT..DATA];
      assert forall i :: 0 <= i < 16 && i != 12 && i != 13 ==> h'[i] == h[i];
      assert h'[..4] == h[..4] && h'[14..] == h[14..];
      StoredExact(bytes, image);
    } else {
      UnmarkedSlot(bytes);
    }
  }

  /** The three outcomes of a Finalize whose CRC matched: refused, torn, committed. */
  lemma FinalizeFlash(l: Loader, d: Device)
    requires ValidDevice(d) && InTransfer(l, d) && l.nextOffset == l.imageLen
    requires Crc32.Checksum(Received(l, d)) == l.expectedCrc
    ensures var image := Image(DeclaredBy(l), Received(l, d));
      var (d1, table) := Scan(d, DATA + l.bytecodeLen, l.mapCount);
      var (d2, written) := WriteCells(d1, MARKER, [0, 0]);
      && d1.bytes == d.bytes && ValidDevice(d2)
      && (table.Some? ==> Vetted(image) && table.value == LayoutsOf(Descriptors(image)))
      && (table.Some? ==> Stored(d2.bytes) == None || Stored(d2.bytes) == Some(image))
      && (table.Some? && written ==> Stored(d2.bytes) == Some(image))
      && (Reliable(d) ==> Reliable(d1) && (table.Some? <==> Acceptable(Descriptors(image))))
      && (Reliable(d) && table.Some? ==> written && Reliable(d2))
  {
    var image := Image(DeclaredBy(l), Received(l, d));
    FinalizeScan(l, d);
    var (d1, table) := Scan(d, DATA + l.bytecodeLen, l.mapCount);
    if table.Some? {
      MarkerFlash(l, d1);
    }
  }

  lemma FinalizeScan(l: Loader, d: Device)
    requires ValidDevice(d) && InTransfer(l, d) && l.nextOffset == l.imageLen
    ensures var image := Image(DeclaredBy(l), Received(l, d));
      var (d1, table) := Scan(d, DATA + l.bytecodeLen, l.mapCount);
      && SameCells(d, d1)
      && (table.Some? <==> Acceptable(Descriptors(image)) && OpsWork(d, l.mapCount))
      && (table.Some? ==> table.value == LayoutsOf(Descriptors(image)) && d1 == AfterOps(d, l.mapCount))
      && (Reliable(d) ==> d1 == d)
  {
    ErasedPages(l.imageLen);
    DescriptorsInPlace(d.bytes, Image(DeclaredBy(l), Received(l, d)));
    ScanExact(d, DATA + l.bytecodeLen, l.mapCount);
  }

  lemma MarkerFlash(l: Loader, d: Device)
    requires ValidDevice(d) && InTransfer(l, d) && l.nextOffset == l.imageLen
    requires Vetted(Image(DeclaredBy(l), Received(l, d)))
    ensures var image := Image(DeclaredBy(l), Received(l, d));
      var (d', written) := WriteCells(d, MARKER, [0, 0]);
      && ValidDevice(d')
      && (Stored(d'.bytes) == None || Stored(d'.bytes) == Some(image))
      && (written ==> Stored(d'.bytes) == Some(image))
      && (Reliable(d) ==> written && Reliable(d'))
  {
    hide Sized, LengthOf, IsHeader, Even, Crc32.Update, Vetted, WriteCells, Stored;
    var (d', written) := WriteCells(d, MARKER, [0, 0]);
    HeaderMarker(d.bytes, DeclaredBy(l), 0xff);
    WriteBlank(d, MARKER, [0, 0]);
    MarkedSlot(l, d, d'.bytes);
  }

  /** What Finalize decides about a received image when the flash works. */
  function Verdict(image: Image): LoaderState
    requires |image.payload| == LengthOf(image.declared)
  {
    if Crc32.Checksum(image.payload) != image.declared.crc then Failed(STATUS_BAD_CRC)
    else if !Acceptable(Descriptors(image)) then Failed(STATUS_BAD_STATE)
    else Committed(image.declared.crc)
  }

  lemma FinalizeAgrees(l: Loader, d: Device)
    requires Agrees(l, d) && l.pending.None? && Admissible(l, Finalize)
    ensures var (l', d') := FinalizeImage(l, d);
      && Agrees(l', d')
      && l'.pending == None
      && FinalizeStep(Abstract(l, d), Abstract(l', d'))
      && (Reliable(d) ==> l'.state == Verdict(Image(DeclaredBy(l), Received(l, d))) && Reliable(d'))
  {
    hide Sized, LengthOf, IsHeader, Even, Crc32.Update, Stored, Scan, WriteCells, LayoutsOf, Descriptors, Acceptable;
    TransferStoresNothing(l, d);
    var (l', d') := FinalizeImage(l, d);
    var image := Image(DeclaredBy(l), Received(l, d));
    assert Abstract(l, d) == Store(None, Incoming(image.declared, image.payload));
    if Crc32.Finish(l.crc) != l.expectedCrc {
      FailedAgrees(l', d');
    } else {
      FinalizeFlash(l, d);
      var (d1, table) := Scan(d, DATA + l.bytecodeLen, l.mapCount);
      var (d2, written) := WriteCells(d1, MARKER, [0, 0]);
      if table.Some? && written {
        assert d' == d2 && l'.layouts == table.value;
        CommittedAgrees(l', d', image);
      } else {
        assert d' == if table.Some? then d2 else d1;
        FailedAgrees(l', d');
      }
    }
  }

  // ---- The callback ----

  lemma AcceptAgrees(l: Loader, d: Device, payload: seq<byte>)
    requires Agrees(l, d)
    ensures var (l', verdict) := AcceptLoad(l, payload);
      && Agrees(l', d)
      && Abstract(l', d) == Abstract(l, d)
      && (verdict.Err? ==> l' == l)
      && (verdict.Ok? ==> l.pending.None? && l'.pending.Some? && l' == l.(pending := l'.pending)
                          && Admissible(l, l'.pending.value))
  {
    hide U16, U32, Fits, Stored, IsHeader, Crc32.Update, ErasedEnd, Blank, LayoutsOf, Descriptors, LengthOf;
    if |payload| >= 3 {
      EvenRemainder(|payload| - 3);
    }
  }

  /** The CRC a query reports is the checksum of the payload the flash holds. */
  lemma QueryReportsStored(l: Loader, d: Device)
    requires Agrees(l, d)
    ensures Query(l).Ok? <==> l.pending.None? && (Abstract(l, d).session.Ready? || Abstract(l, d).session.Active?)
    ensures Query(l).Ok? ==> Stored(d.bytes).Some? && Query(l).value == Crc32.Checksum(Stored(d.bytes).value.payload)
  {
    hide ParseHeader, IsHeader, Crc32.Checksum, Acceptable;
  }

  // ---- The main loop ----

  /** The parked operation is still admissible when the main loop performs it, and performing it
      is a step of the image store. */
  lemma TurnAgrees(l: Loader, d: Device)
    requires Agrees(l, d) && l.pending.Some?
    ensures var (l', d') := ExecutePending(l, d);
      && Admissible(l.(pending := None), l.pending.value)
      && Agrees(l', d')
      && l'.pending == None
      && OpStep(Abstract(l, d), l.pending.value, Abstract(l', d'))
      && (l.pending.value.Begin? && Stored(d'.bytes) != None ==> d'.bytes == d.bytes)
  {
    var idle := l.(pending := None);
    UnparkedAgrees(l, d);
    match l.pending.value
    case Begin(bytecodeLen, mapCount, crc) => BeginAgrees(idle, d, Declared(bytecodeLen, mapCount, crc));
    case Data(_, bytes) => DataAgrees(idle, d, bytes);
    case Finalize => FinalizeAgrees(idle, d);
  }

  lemma MarkRunningAgrees(l: Loader, d: Device)
    requires Agrees(l, d) && ExecutionMetadata(l).Ok?
    ensures var (l', r) := MarkRunning(l);
      && r.Ok?
      && Agrees(l', d)
      && Abstract(l, d).session.Ready?
      && Abstract(l', d) == Abstract(l, d).(session := Active(Abstract(l, d).session.image))
  {}

  // ---- Boot ----

  lemma UpdateChunk(bytes: seq<byte>, from: nat, mid: nat, to: nat, crc: u32)
    requires from <= mid <= to <= |bytes|
    ensures Crc32.Update(crc, bytes[from..to]) == Crc32.Update(Crc32.Update(crc, bytes[from..mid]), bytes[mid..to])
  {
    assert bytes[from..to] == bytes[from..mid] + bytes[mid..to];
    Crc32.UpdateConcat(crc, bytes[from..mid], bytes[mid..to]);
  }

  /** The reads it takes to go over a payload. */
  function Chunks(length: nat): nat { if length == 0 then 0 else 1 + Chunks(length - Min(CHUNK, length)) }

  lemma {:induction false} ChunksCount(length: nat)
    ensures CHUNK * (Chunks(length) - 1) < length <= CHUNK * Chunks(length) || length == 0 == Chunks(length)
  {
    if length > 0 {
      ChunksCount(length - Min(CHUNK, length));
    }
  }

  /** The boot check reads 16 bytes at a time and still ends with the CRC of the whole payload,
      exactly if every one of these reads works. */
  lemma {:induction false} CrcScanExact(d: Device, imageLen: nat, offset: nat, crc: u32)
    requires ValidDevice(d) && offset <= imageLen && DATA + imageLen <= FLASH_SIZE
    ensures var (d', r) := CrcScan(d, imageLen, offset, crc);
      && d' == d.(faults := d'.faults, powered := d'.powered)
      && (r.Some? <==> OpsWork(d, Chunks(imageLen - offset)))
      && (r.Some? ==> r.value == Crc32.Update(crc, d.bytes[DATA + offset..DATA + imageLen])
                      && d' == AfterOps(d, Chunks(imageLen - offset)))
      && (Reliable(d) ==> d' == d && r.Some?)
    decreases imageLen - offset
  {
    hide Crc32.Update;
    if offset == imageLen {
      assert d.bytes[DATA + offset..DATA + imageLen] == [];
      Crc32.UpdateNone(crc);
    } else {
      var next := offset + Min(CHUNK, imageLen - offset);
      var (d', chunk) := ReadCells(d, DATA + offset, next - offset);
      assert imageLen - next == imageLen - offset - Min(CHUNK, imageLen - offset);
      FirstOpWorks(d, Chunks(imageLen - offset));
      if chunk.Some? {
        CrcScanExact(d', imageLen, next, Crc32.Update(crc, chunk.value));
        UpdateChunk(d.bytes, DATA + offset, DATA + next, DATA + imageLen, crc);
      }
    }
  }

  lemma ValidateReads(d: Device, declared: Declared)
    requires ValidDevice(d) && Sized(declared)
    ensures DATA + LengthOf(declared) <= FLASH_SIZE
    ensures var image := Image(declared, d.bytes[DATA..DATA + LengthOf(declared)]);
      var (d1, crc) := CrcScan(d, LengthOf(declared), 0, Crc32.INIT);
      var (d2, table) := Scan(d1, DATA + declared.bytecodeLen, declared.mapCount);
      && SameCells(d, d1) && SameCells(d, d2)
      && (crc.Some? <==> OpsWork(d, Chunks(LengthOf(declared))))
      && (crc.Some? ==> Crc32.Finish(crc.value) == Crc32.Checksum(image.payload))
      && (table.Some? ==> Acceptable(Descriptors(image)) && table.value == LayoutsOf(Descriptors(image)))
      && (crc.Some? ==>
            (table.Some? <==> Acceptable(Descriptors(image))
                              && OpsWork(d, Chunks(LengthOf(declared)) + declared.mapCount)))
      && (Reliable(d) ==> d2 == d1 == d && crc.Some? && (table.Some? <==> Acceptable(Descriptors(image))))
  {
    hide Sized, LengthOf, ErasedEnd, Crc32.Update, CrcScan, Acceptable, Scan, LayoutsOf, DescriptorsAt, Chunks,
         OpsWork, AfterOps, Descriptors;
    SizedExtent(declared);
    var image := Image(declared, d.bytes[DATA..DATA + LengthOf(declared)]);
    CrcScanExact(d, LengthOf(declared), 0, Crc32.INIT);
    var (d1, crc) := CrcScan(d, LengthOf(declared), 0, Crc32.INIT);
    ScanExact(d1, DATA + declared.bytecodeLen, declared.mapCount);
    DescriptorsInPlace(d.bytes, image);
    OpsSplit(d, Chunks(LengthOf(declared)), declared.mapCount);
    ReliableWorks(d, Chunks(LengthOf(declared)) + declared.mapCount);
  }

  /** What boot makes of a marked header: a flash error if a payload read fails, the stored image if
      the descriptor reads work too, and nothing otherwise. */
  ghost function BodyVerdict(d: Device, declared: Declared): LoaderState
    requires ValidDevice(d)
  {
    if !OpsWork(d, Chunks(LengthOf(declared))) then Failed(STATUS_FLASH_ERROR)
    else if Stored(d.bytes).Some? && OpsWork(d, Chunks(LengthOf(declared)) + declared.mapCount)
    then Committed(declared.crc)
    else Empty
  }

  lemma StoredByHeader(bytes: seq<byte>, declared: Declared)
    requires |bytes| == FLASH_SIZE && Sized(declared) && ParseHeader(bytes[SLOT..DATA]) == Some(declared)
    ensures DATA + LengthOf(declared) <= FLASH_SIZE
    ensures var image := Image(declared, bytes[DATA..DATA + LengthOf(declared)]);
      Stored(bytes) == if Crc32.Checksum(image.payload) == declared.crc && Acceptable(Descriptors(image))
                       then Some(image) else None
  {
    hide ParseHeader, Crc32.Checksum, Acceptable, Descriptors, Fits, LengthOf;
    SizedExtent(declared);
  }

  lemma ValidateBodyAgrees(l: Loader, d: Device, declared: Declared)
    requires ValidDevice(d) && l.pending.None? && NoMaps(l) && Sized(declared)
    requires ParseHeader(d.bytes[SLOT..DATA]) == Some(declared)
    ensures var (l', d') := ValidateBody(l, d, declared);
      && SameCells(d, d')
      && Agrees(l', d')
      && l'.pending == None
      && l'.state == BodyVerdict(d, declared)
      && (Reliable(d) ==> d' == d && (l'.state == if Stored(d.bytes).Some? then Committed(declared.crc) else Empty))
  {
    hide Sized, LengthOf, Chunks, OpsWork, CrcScan, Scan, ParseHeader, Acceptable, Descriptors, LayoutsOf, Stored,
         Crc32.Checksum;
    SizedExtent(declared);
    ValidateReads(d, declared);
    StoredByHeader(d.bytes, declared);
    var (l', d') := ValidateBody(l, d, declared);
    var (d1, crc) := CrcScan(d, LengthOf(declared), 0, Crc32.INIT);
    if crc.Some? {
      var (d2, table) := Scan(d1, DATA + declared.bytecodeLen, declared.mapCount);
      assert d' == d2;
      if l'.state.Committed? {
        assert l'.layouts == table.value;
        CommittedAgrees(l', d', Stored(d.bytes).value);
      }
    }
  }

  /** What boot makes of any flash content under any faults: a flash error exactly if the header read
      or a payload read fails; the stored image exactly if every read of a descriptor works as well;
      otherwise nothing. */
  ghost function BootVerdict(d: Device): LoaderState
    requires ValidDevice(d)
  {
    var declared := ParseHeader(d.bytes[SLOT..DATA]);
    if !OpsWork(d, 1) then Failed(STATUS_FLASH_ERROR)
    else if declared.None? then Empty
    else
      var payloadReads := Chunks(LengthOf(declared.value));
      if !OpsWork(d, 1 + payloadReads) then Failed(STATUS_FLASH_ERROR)
      else if Stored(d.bytes).Some? && OpsWork(d, 1 + payloadReads + declared.value.mapCount)
      then Committed(declared.value.crc)
      else Empty
  }

  lemma BodyIsBoot(d: Device, declared: Declared)
    requires ValidDevice(d) && ParseHeader(d.bytes[SLOT..DATA]) == Some(declared) && OpsWork(d, 1)
    ensures BootVerdict(d) == BodyVerdict(Worn(d), declared)
  {
    hide ParseHeader, Stored, Chunks, LengthOf, OpsWork;
    FirstOpWorks(d, 1);
    FirstOpWorks(d, 1 + Chunks(LengthOf(declared)));
    FirstOpWorks(d, 1 + Chunks(LengthOf(declared)) + declared.mapCount);
  }

  /** A boot leaves RAM and flash in agreement whatever the flash held; with every read good it
      commits exactly the stored image. */
  lemma BootAgrees(d: Device)
    requires ValidDevice(d)
    ensures var (l', d') := ValidateCommitted(NEW_LOADER, d);
      && SameCells(d, d')
      && Agrees(l', d')
      && l'.pending == None
      && RebootStep(Store(Stored(d.bytes), Idle), Abstract(l', d'))
      && l'.state == BootVerdict(d)
      && (Reliable(d) ==> d' == d && match Stored(d.bytes)
                                     case Some(image) => l'.state == Committed(image.declared.crc)
                                     case None => l'.state == Empty)
  {
    hide ParseHeader, ValidateBody, BodyVerdict, Descriptors, LayoutsOf, Stored, InTransfer, Describes, LengthOf,
         Chunks;
    BootHeader(d);
    var (d1, header) := ReadCells(d, SLOT, HEADER_SIZE);
    if header.Some? && ParseHeader(header.value).Some? {
      ValidateBodyAgrees(ClearLayouts(NEW_LOADER), d1, ParseHeader(header.value).value);
      BodyIsBoot(d, ParseHeader(header.value).value);
    }
  }

  lemma BootHeader(d: Device)
    requires ValidDevice(d)
    ensures OpsWork(d, 1) <==> ReadCells(d, SLOT, HEADER_SIZE).1.Some?
    ensures ParseHeader(d.bytes[SLOT..DATA]).None? ==> Stored(d.bytes) == None
    ensures Stored(d.bytes).Some? ==>
              ParseHeader(d.bytes[SLOT..DATA]) == Some(Stored(d.bytes).value.declared)
  {
    hide ParseHeader, Vetted;
  }
}
