/** The loader as the firmware holds it: one object whose fields its methods update. */
module BpfLoaderObject {
  import opened Bytes
  import opened ImageFormat
  import opened LoaderModel
  import opened MapLayouts
  import opened NorFlash
  import Crc32

  class BpfLoader {
    var state: LoaderState
    var pending: Option<LoadOp>
    var bytecodeLen: u16
    var mapCount: MapCount
    var imageLen: u16
    var nextOffset: u16
    var expectedCrc: u32
    var crc: u32
    var layouts: LayoutTable
    var committedMaps: MapCount

    ghost function Model(): Loader reads this {
      Loader(state, pending, bytecodeLen, mapCount, imageLen, nextOffset, expectedCrc, crc, layouts, committedMaps)
    }

    constructor ()
      ensures Model() == NEW_LOADER
    {
      state, pending := Empty, None;
      bytecodeLen, mapCount, imageLen, nextOffset, expectedCrc := 0, 0, 0, 0, 0;
      crc := Crc32.INIT;
      layouts, committedMaps := NO_LAYOUTS, 0;
    }

    method AcceptsLoad(payload: seq<byte>) returns (verdict: Result<()>)
      modifies this`pending
      ensures (Model(), verdict) == AcceptLoad(old(Model()), payload)
    {
      if pending.Some? {
        return Err(STATUS_BUSY);
      }
      if state.Running? {
        return Err(STATUS_BAD_STATE);
      }
      if payload == [] || payload[0] > 2 {
        return Err(STATUS_BAD_COMMAND);
      }
      var operation: LoadOp;
      if payload[0] == 0 && |payload| == 8 {
        var length, maps := U16(payload[1], payload[2]), payload[3];
        if !Fits(length, maps) {
          return Err(STATUS_BAD_LENGTH);
        }
        operation := Begin(length, maps, U32(payload[4], payload[5], payload[6], payload[7]));
      } else if payload[0] == 1 && 5 <= |payload| <= 15 && (|payload| - 3) % 2 == 0 {
        if !state.Receiving? {
          return Err(STATUS_BAD_STATE);
        }
        var offset := U16(payload[1], payload[2]);
        if offset != nextOffset {
          return Err(STATUS_BAD_STATE);
        }
        if offset + (|payload| - 3) > imageLen {
          return Err(STATUS_BAD_LENGTH);
        }
        operation := Data(offset, payload[3..]);
      } else if payload[0] == 2 && |payload| == 1 {
        if !state.Receiving? {
          return Err(STATUS_BAD_STATE);
        }
        if nextOffset != imageLen {
          return Err(STATUS_BAD_STATE);
        }
        operation := Finalize;
      } else {
        return Err(STATUS_BAD_LENGTH);
      }
      pending := Some(operation);
      return Ok(());
    }

    method QueryCrc() returns (r: Result<u32>)
      ensures r == Query(Model())
    {
      if pending.Some? {
        return Err(STATUS_BUSY);
      }
      match state
      case Committed(crc) => return Ok(crc);
      case Running(crc) => return Ok(crc);
      case Failed(status) => return Err(status);
      case _ => return Err(STATUS_NO_PROGRAM);
    }

    method Metadata() returns (m: ProgramMetadata)
      ensures m == CommittedMetadata(Model())
    {
      var maps := [MapMetadata(0, 0, 0, 0), MapMetadata(0, 0, 0, 0), MapMetadata(0, 0, 0, 0), MapMetadata(0, 0, 0, 0),
                   MapMetadata(0, 0, 0, 0), MapMetadata(0, 0, 0, 0), MapMetadata(0, 0, 0, 0), MapMetadata(0, 0, 0, 0)];
      var index := 0;
      while index < committedMaps
        invariant 0 <= index <= committedMaps && |maps| == MAX_MAPS
        invariant forall i :: 0 <= i < MAX_MAPS ==>
                    maps[i] == if i < index then MetadataOf(layouts[i]) else MapMetadata(0, 0, 0, 0)
      {
        maps := maps[index := MetadataOf(layouts[index])];
        index := index + 1;
      }
      m := ProgramMetadata(bytecodeLen, committedMaps, maps);
      assert m.maps == CommittedMetadata(Model()).maps;
    }

    method StartMetadata() returns (r: Result<ProgramMetadata>)
      ensures r == ExecutionMetadata(Model())
    {
      if pending.Some? {
        return Err(STATUS_BUSY);
      }
      match state
      case Committed(_) => var m := Metadata(); return Ok(m);
      case Running(_) => return Err(STATUS_BAD_STATE);
      case Failed(status) => return Err(status);
      case _ => return Err(STATUS_NO_PROGRAM);
    }

    method EventMetadata() returns (r: Result<ProgramMetadata>)
      ensures r == EventExecutionMetadata(Model())
    {
      if pending.Some? {
        return Err(STATUS_BUSY);
      }
      match state
      case Committed(_) => var m := Metadata(); return Ok(m);
      case Running(_) => var m := Metadata(); return Ok(m);
      case Failed(status) => return Err(status);
      case _ => return Err(STATUS_NO_PROGRAM);
    }

    method SetRunning() returns (r: Result<()>)
      modifies this`state
      ensures (Model(), r) == MarkRunning(old(Model()))
    {
      match state
      case Committed(crc) =>
        state := Running(crc);
        return Ok(());
      case Running(_) => return Err(STATUS_BAD_STATE);
      case Failed(status) => return Err(status);
      case _ => return Err(STATUS_NO_PROGRAM);
    }

    method ExecutePending(flash: Flash)
      requires flash.Valid()
      modifies this, flash, flash.cells
      ensures flash.Valid()
      ensures (Model(), flash.Model()) == LoaderModel.ExecutePending(old(Model()), old(flash.Model()))
    {
      hide WriteCells, Crc32.Update, BeginImage, FinalizeImage;
      if pending.None? {
        return;
      }
      var operation := pending.value;
      pending := None;
      match operation
      case Begin(length, maps, expected) =>
        BeginReception(flash, Declared(length, maps, expected));
      case Data(offset, bytes) =>
        var written := flash.Write(DATA + offset, bytes);
        if !written {
          state := Failed(STATUS_FLASH_ERROR);
        } else {
          crc := Crc32.Crc32Update(crc, bytes);
          nextOffset := Wrap16(nextOffset + |bytes|);
        }
      case Finalize =>
        Commit(flash);
    }

    method BeginReception(flash: Flash, declared: Declared)
      requires flash.Valid()
      modifies this, flash, flash.cells
      ensures flash.Valid()
      ensures (Model(), flash.Model()) == BeginImage(old(Model()), old(flash.Model()), declared)
    {
      hide Header, ErasedEnd, LengthOf, EraseCells, WriteCells;
      layouts, committedMaps := NO_LAYOUTS, 0;
      var erased := flash.Erase(SLOT, ErasedEnd(LengthOf(declared)));
      if !erased {
        state := Failed(STATUS_FLASH_ERROR);
        return;
      }
      var written := flash.Write(SLOT, Header(declared, 0xff));
      if !written {
        state := Failed(STATUS_FLASH_ERROR);
        return;
      }
      state := Receiving;
      bytecodeLen, mapCount := declared.bytecodeLen, declared.mapCount;
      imageLen, nextOffset := Wrap16(LengthOf(declared)), 0;
      expectedCrc, crc := declared.crc, Crc32.INIT;
    }

    method Commit(flash: Flash)
      requires flash.Valid()
      modifies this, flash, flash.cells
      ensures flash.Valid()
      ensures (Model(), flash.Model()) == FinalizeImage(old(Model()), old(flash.Model()))
    {
      hide WriteCells, Scan, Crc32.Finish;
      if Crc32.Finish(crc) != expectedCrc {
        state := Failed(STATUS_BAD_CRC);
        return;
      }
      var table := ScanLayouts(flash, DATA + bytecodeLen, mapCount);
      if table.None? {
        state := Failed(STATUS_BAD_STATE);
        return;
      }
      var written := flash.Write(MARKER, [0, 0]);
      if !written {
        state := Failed(STATUS_FLASH_ERROR);
        return;
      }
      state := Committed(expectedCrc);
      layouts, committedMaps := table.value, mapCount;
    }

    method Validate(flash: Flash)
      requires flash.Valid()
      modifies this, flash`faults, flash`powered
      ensures flash.Valid()
      ensures (Model(), flash.Model()) == ValidateCommitted(old(Model()), old(flash.Model()))
    {
      hide ParseHeader, LengthOf, Sized, CrcScan, Scan, Crc32.Finish;
      layouts, committedMaps := NO_LAYOUTS, 0;
      var header := flash.Read(SLOT, HEADER_SIZE);
      if header.None? {
        state := Failed(STATUS_FLASH_ERROR);
        return;
      }
      var parsed := ParseHeader(header.value);
      if parsed.None? {
        state := Empty;
        return;
      }
      var declared := parsed.value;
      var register := ReadCrc(flash, LengthOf(declared));
      if register.None? {
        state := Failed(STATUS_FLASH_ERROR);
        return;
      }
      var table := ScanLayouts(flash, DATA + declared.bytecodeLen, declared.mapCount);
      if table.None? || Crc32.Finish(register.value) != declared.crc {
        state := Empty;
        return;
      }
      state := Committed(declared.crc);
      bytecodeLen, mapCount := declared.bytecodeLen, declared.mapCount;
      layouts, committedMaps := table.value, declared.mapCount;
    }
  }

  method ReadCrc(flash: Flash, length: nat) returns (crc: Option<u32>)
    requires flash.Valid()
    modifies flash`faults, flash`powered
    ensures (flash.Model(), crc) == CrcScan(old(flash.Model()), length, 0, Crc32.INIT)
  {
    hide Crc32.Update;
    var register: u32 := Crc32.INIT;
    var offset := 0;
    while offset < length
      invariant flash.Valid() && 0 <= offset <= length
      invariant CrcScan(flash.Model(), length, offset, register) == CrcScan(old(flash.Model()), length, 0, Crc32.INIT)
    {
      var size := Min(CHUNK, length - offset);
      var chunk := flash.Read(DATA + offset, size);
      if chunk.None? {
        return None;
      }
      register := Crc32.Crc32Update(register, chunk.value);
      offset := offset + size;
    }
    return Some(register);
  }
}
