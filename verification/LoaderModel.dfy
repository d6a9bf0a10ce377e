/** The BPF image loader as a value: what every operation does to the RAM state and the flash. */
module LoaderModel {
  import opened Bytes
  import opened ImageFormat
  import opened MapLayouts
  import opened NorFlash
  import Crc32

  const STATUS_OK: byte := 0x00
  const STATUS_BAD_COMMAND: byte := 0x01
  const STATUS_BAD_LENGTH: byte := 0x02
  const STATUS_BAD_FLAGS: byte := 0x03
  const STATUS_NOT_IMPLEMENTED: byte := 0x04
  const STATUS_BUSY: byte := 0x05
  const STATUS_BAD_STATE: byte := 0x06
  const STATUS_BAD_CRC: byte := 0x07
  const STATUS_FLASH_ERROR: byte := 0x08
  const STATUS_NO_PROGRAM: byte := 0x09

  datatype LoadOp =
    | Begin(bytecodeLen: u16, mapCount: MapCount, expectedCrc: u32)
    | Data(offset: u16, bytes: seq<byte>)
    | Finalize

  datatype LoaderState = Empty | Receiving | Committed(crc: u32) | Running(crc: u32) | Failed(status: byte)

  datatype Loader = Loader(
    state: LoaderState,
    pending: Option<LoadOp>,
    bytecodeLen: u16,
    mapCount: MapCount,
    imageLen: u16,
    nextOffset: u16,
    expectedCrc: u32,
    crc: u32,
    layouts: LayoutTable,
    committedMaps: MapCount)

  const NEW_LOADER := Loader(Empty, None, 0, 0, 0, 0, 0, Crc32.INIT, NO_LAYOUTS, 0)

  // ---- In the I2C callback ----

  function DecodeLoad(l: Loader, payload: seq<byte>): Result<LoadOp> {
    if payload == [] then Err(STATUS_BAD_COMMAND)
    else if payload[0] == 0 && |payload| == 8 then
      if !Fits(U16(payload[1], payload[2]), payload[3]) then Err(STATUS_BAD_LENGTH)
      else
        Ok(Begin(U16(payload[1], payload[2]), payload[3],
                 U32(payload[4], payload[5], payload[6], payload[7])))
    else if payload[0] == 1 && 5 <= |payload| <= 15 && (|payload| - 3) % 2 == 0 then
      var offset := U16(payload[1], payload[2]);
      if !l.state.Receiving? || offset != l.nextOffset then Err(STATUS_BAD_STATE)
      else if offset + (|payload| - 3) > l.imageLen then Err(STATUS_BAD_LENGTH)
      else Ok(Data(offset, payload[3..]))
    else if payload[0] == 2 && |payload| == 1 then
      if !l.state.Receiving? || l.nextOffset != l.imageLen then Err(STATUS_BAD_STATE)
      else Ok(Finalize)
    else if payload[0] <= 2 then Err(STATUS_BAD_LENGTH)
    else Err(STATUS_BAD_COMMAND)
  }

  function AcceptLoad(l: Loader, payload: seq<byte>): (Loader, Result<()>) {
    if l.pending.Some? then (l, Err(STATUS_BUSY))
    else if l.state.Running? then (l, Err(STATUS_BAD_STATE))
    else
      match DecodeLoad(l, payload)
      case Err(status) => (l, Err(status))
      case Ok(op) => (l.(pending := Some(op)), Ok(()))
  }

  function Query(l: Loader): Result<u32> {
    if l.pending.Some? then Err(STATUS_BUSY)
    else
      match l.state
      case Committed(crc) => Ok(crc)
      case Running(crc) => Ok(crc)
      case Failed(status) => Err(status)
      case _ => Err(STATUS_NO_PROGRAM)
  }

  datatype MapMetadata = MapMetadata(backingOffset: u16, backingLen: u16, keySize: u32, valueSize: u32)

  datatype ProgramMetadata = ProgramMetadata(bytecodeLen: u16, mapCount: MapCount, maps: seq<MapMetadata>)

  function MetadataOf(layout: MapLayout): MapMetadata {
    MapMetadata(layout.offset, layout.len, layout.keySize, layout.valueSize)
  }

  function CommittedMetadata(l: Loader): ProgramMetadata {
    ProgramMetadata(l.bytecodeLen, l.committedMaps,
                    seq(MAX_MAPS, i requires 0 <= i < MAX_MAPS =>
                      if i < l.committedMaps then MetadataOf(l.layouts[i]) else MapMetadata(0, 0, 0, 0)))
  }

  function ExecutionMetadata(l: Loader): Result<ProgramMetadata> {
    if l.pending.Some? then Err(STATUS_BUSY)
    else
      match l.state
      case Committed(_) => Ok(CommittedMetadata(l))
      case Running(_) => Err(STATUS_BAD_STATE)
      case Failed(status) => Err(status)
      case _ => Err(STATUS_NO_PROGRAM)
  }

  function EventExecutionMetadata(l: Loader): Result<ProgramMetadata> {
    if l.pending.Some? then Err(STATUS_BUSY)
    else
      match l.state
      case Committed(_) => Ok(CommittedMetadata(l))
      case Running(_) => Ok(CommittedMetadata(l))
      case Failed(status) => Err(status)
      case _ => Err(STATUS_NO_PROGRAM)
  }

  function MarkRunning(l: Loader): (Loader, Result<()>) {
    match l.state
    case Committed(crc) => (l.(state := Running(crc)), Ok(()))
    case Running(_) => (l, Err(STATUS_BAD_STATE))
    case Failed(status) => (l, Err(status))
    case _ => (l, Err(STATUS_NO_PROGRAM))
  }

  // ---- In the main loop ----

  function Failing(l: Loader, status: byte): Loader { l.(state := Failed(status)) }

  function ClearLayouts(l: Loader): Loader { l.(layouts := NO_LAYOUTS, committedMaps := 0) }

  function BeginImage(l0: Loader, d: Device, declared: Declared): (Loader, Device) {
    var l := ClearLayouts(l0);
    var (d1, erased) := EraseCells(d, SLOT, ErasedEnd(LengthOf(declared)));
    if !erased then (Failing(l, STATUS_FLASH_ERROR), d1)
    else
      var (d2, written) := WriteCells(d1, SLOT, Header(declared, 0xff));
      if !written then (Failing(l, STATUS_FLASH_ERROR), d2)
      else
        (l.(state := Receiving, bytecodeLen := declared.bytecodeLen, mapCount := declared.mapCount,
            imageLen := Wrap16(LengthOf(declared)), nextOffset := 0,
            expectedCrc := declared.crc, crc := Crc32.INIT),
         d2)
  }

  function StoreData(l: Loader, d: Device, offset: u16, bytes: seq<byte>): (Loader, Device) {
    var (d', written) := WriteCells(d, DATA + offset, bytes);
    if !written then (Failing(l, STATUS_FLASH_ERROR), d')
    else
      (l.(crc := Crc32.Update(l.crc, bytes), nextOffset := Wrap16(l.nextOffset + |bytes|)), d')
  }

  function FinalizeImage(l: Loader, d: Device): (Loader, Device)
  {
    if Crc32.Finish(l.crc) != l.expectedCrc then (Failing(l, STATUS_BAD_CRC), d)
    else
      var (d1, table) := Scan(d, DATA + l.bytecodeLen, l.mapCount);
      if table.None? then (Failing(l, STATUS_BAD_STATE), d1)
      else
        var (d2, written) := WriteCells(d1, MARKER, [0, 0]);
        if !written then (Failing(l, STATUS_FLASH_ERROR), d2)
        else
          (l.(state := Committed(l.expectedCrc), layouts := table.value, committedMaps := l.mapCount), d2)
  }

  function Perform(l: Loader, d: Device, op: LoadOp): (Loader, Device)
  {
    match op
    case Begin(bytecodeLen, mapCount, expectedCrc) =>
      BeginImage(l, d, Declared(bytecodeLen, mapCount, expectedCrc))
    case Data(offset, bytes) => StoreData(l, d, offset, bytes)
    case Finalize => FinalizeImage(l, d)
  }

  function ExecutePending(l: Loader, d: Device): (Loader, Device)
  {
    if l.pending.None? then (l, d) else Perform(l.(pending := None), d, l.pending.value)
  }

  // ---- At boot ----

  const CHUNK := 16

  function Min(a: nat, b: nat): nat { if a < b then a else b }

  function CrcScan(d: Device, imageLen: nat, offset: nat, crc: u32): (Device, Option<u32>)
    decreases imageLen - offset
  {
    if offset >= imageLen then (d, Some(crc))
    else
      var length := Min(CHUNK, imageLen - offset);
      var (d', chunk) := ReadCells(d, DATA + offset, length);
      if chunk.None? then (d', None)
      else CrcScan(d', imageLen, offset + length, Crc32.Update(crc, chunk.value))
  }

  function ValidateCommitted(l0: Loader, d: Device): (Loader, Device) {
    var l := ClearLayouts(l0);
    var (d1, header) := ReadCells(d, SLOT, HEADER_SIZE);
    if header.None? then (Failing(l, STATUS_FLASH_ERROR), d1)
    else
      var declared := ParseHeader(header.value);
      if declared.None? then (l.(state := Empty), d1)
      else ValidateBody(l, d1, declared.value)
  }

  function ValidateBody(l: Loader, d: Device, declared: Declared): (Loader, Device)
    requires Sized(declared)
  {
    var (d1, crc) := CrcScan(d, LengthOf(declared), 0, Crc32.INIT);
    if crc.None? then (Failing(l, STATUS_FLASH_ERROR), d1)
    else
      var (d2, table) := Scan(d1, DATA + declared.bytecodeLen, declared.mapCount);
      if table.None? || Crc32.Finish(crc.value) != declared.crc then (l.(state := Empty), d2)
      else
        (l.(state := Committed(declared.crc), bytecodeLen := declared.bytecodeLen,
            mapCount := declared.mapCount, layouts := table.value, committedMaps := declared.mapCount),
         d2)
  }
}
