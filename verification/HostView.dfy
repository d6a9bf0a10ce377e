/** What the host sees, told by the abstract image store alone: which answer each command gets. */
module HostView {
  import opened Bytes
  import opened Dispatch
  import opened Frames
  import opened ImageFormat
  import opened ImageStore
  import opened LoaderAgreement
  import opened LoaderModel
  import opened MapAccess
  import opened MapLayouts
  import opened NorFlash
  import opened Uploads
  import Crc32

  /** The image programs and map commands work on, if any. */
  function Current(session: Session): Option<Image> {
    match session
    case Ready(image) => Some(image)
    case Active(image) => Some(image)
    case _ => None
  }

  lemma CurrentExposed(l: Loader, d: Device)
    requires Agrees(l, d)
    ensures var current := Current(Abstract(l, d).session);
      && (current.Some? <==> Loaded(l))
      && (current.Some? ==> Stored(d.bytes) == current && Vetted(current.value)
                            && Exposes(l, Descriptors(current.value)))
  {
    hide Stored, Vetted, Acceptable, Descriptors, IsHeader, Crc32.Update;
    AgreementExposes(l, d);
    if Loaded(l) {
      StoredVetted(d.bytes);
    }
  }

  lemma StoredVetted(bytes: seq<byte>)
    requires |bytes| == FLASH_SIZE && Stored(bytes).Some?
    ensures Vetted(Stored(bytes).value)
  {}

  // ---- Loading ----

  /** The answer to a load operation, in the order the checks are made. */
  function LoadAnswer(session: Session, parked: bool, op: LoadOp): byte {
    if parked then STATUS_BUSY
    else if session.Active? then STATUS_BAD_STATE
    else
      match op
      case Begin(bytecodeLen, mapCount, _) => if Fits(bytecodeLen, mapCount) then STATUS_OK else STATUS_BAD_LENGTH
      case Data(offset, bytes) =>
        if !Sendable(bytes) then STATUS_BAD_LENGTH
        else if !session.Incoming? || offset != |session.data| then STATUS_BAD_STATE
        else if offset + |bytes| > LengthOf(session.declared) then STATUS_BAD_LENGTH
        else STATUS_OK
      case Finalize =>
        if !session.Incoming? || |session.data| != LengthOf(session.declared) then STATUS_BAD_STATE else STATUS_OK
  }

  lemma BeginStatus(l: Loader, op: LoadOp)
    requires op.Begin?
    ensures DecodeLoad(l, LoadRequest(op))
         == if Fits(op.bytecodeLen, op.mapCount) then Ok(op) else Err(STATUS_BAD_LENGTH)
  {
    hide Fits;
    var p := LoadRequest(op);
    var lo, crc := U16Bytes(op.bytecodeLen), U32Bytes(op.expectedCrc);
    assert p[1] == lo[0] && p[2] == lo[1] && p[3] == op.mapCount;
    assert p[4] == crc[0] && p[5] == crc[1] && p[6] == crc[2] && p[7] == crc[3];
  }

  lemma DataStatus(l: Loader, offset: u16, bytes: seq<byte>)
    ensures DecodeLoad(l, DataRequest(offset, bytes))
         == if !Sendable(bytes) then Err(STATUS_BAD_LENGTH)
            else if !l.state.Receiving? || offset != l.nextOffset then Err(STATUS_BAD_STATE)
            else if offset + |bytes| > l.imageLen then Err(STATUS_BAD_LENGTH)
            else Ok(Data(offset, bytes))
  {
    EvenRemainder(|bytes|);
    var p := DataRequest(offset, bytes);
    var at := U16Bytes(offset);
    assert p[1] == at[0] && p[2] == at[1] && p[3..] == bytes;
  }

  /** Every spelled load operation gets exactly the answer its store and session call for, and is
      parked exactly if that answer is OK. */
  lemma LoadAnswered(w: World, d: Device, request: Request, op: LoadOp, execute: Execute)
    requires Agrees(w.loader, d) && WellFormed(request) && request.flags == 0
    requires request.command == CMD_LOAD_BPF && Payload(request) == LoadRequest(op)
    ensures var r := DispatchRequest(w, request, execute);
      var answer := LoadAnswer(Abstract(w.loader, d).session, w.loader.pending.Some?, op);
      && r.outcome == Respond(answer, request.sequence, [])
      && r.world == if answer == STATUS_OK then w.(loader := w.loader.(pending := Some(op))) else w
  {
    hide LoadRequest, DecodeLoad, Fits, Encoded, LoadAnswer, Agrees, Abstract;
    DecodeAnswered(w.loader, d, op);
  }

  lemma SessionOf(l: Loader, d: Device)
    requires Agrees(l, d)
    ensures var session := Abstract(l, d).session;
      && (session.Active? <==> l.state.Running?)
      && (session.Incoming? <==> l.state.Receiving?)
      && (session.Incoming? ==> |session.data| == l.nextOffset && LengthOf(session.declared) == l.imageLen)
  {
    hide Stored, Describes, IsHeader, Crc32.Update, Even, Blank, ErasedEnd, LengthOf, Sized;
    if l.state.Receiving? {
      SizedExtent(DeclaredBy(l));
    }
  }

  /** The decoding checks, in terms of the session. */
  lemma DecodeAnswered(l: Loader, d: Device, op: LoadOp)
    requires Agrees(l, d)
    ensures var answer := LoadAnswer(Abstract(l, d).session, l.pending.Some?, op);
      AcceptLoad(l, LoadRequest(op))
      == if answer == STATUS_OK then (l.(pending := Some(op)), Ok(())) else (l, Err(answer))
  {
    hide LoadRequest, DataRequest, DecodeLoad, Fits, Agrees, Abstract, Even;
    SessionOf(l, d);
    match op
    case Begin(_, _, _) => BeginStatus(l, op);
    case Data(offset, bytes) =>
      assert LoadRequest(op) == DataRequest(offset, bytes) by { Spelled(op); }
      DataStatus(l, offset, bytes);
    case Finalize =>
      assert LoadRequest(op) == FINALIZE_REQUEST by { Spelled(op); }
      FinalizeStatus(l);
  }

  lemma Spelled(op: LoadOp)
    ensures op.Data? ==> LoadRequest(op) == DataRequest(op.offset, op.bytes)
    ensures op.Finalize? ==> LoadRequest(op) == FINALIZE_REQUEST
  {}

  lemma FinalizeStatus(l: Loader)
    ensures DecodeLoad(l, FINALIZE_REQUEST)
         == if !l.state.Receiving? || l.nextOffset != l.imageLen then Err(STATUS_BAD_STATE) else Ok(Finalize)
  {}

  /** Some load operation is spelled this way. */
  ghost predicate SpellsLoad(payload: seq<byte>) { exists op :: payload == LoadRequest(op) }

  /** The answer to any load payload: what spells no operation is refused for its operation byte, or
      for its length, which is also the refusal of a Begin for more than eight maps. */
  ghost function AnyLoadAnswer(session: Session, parked: bool, payload: seq<byte>): byte {
    if SpellsLoad(payload) then
      var op :| payload == LoadRequest(op);
      LoadAnswer(session, parked, op)
    else if parked then STATUS_BUSY
    else if session.Active? then STATUS_BAD_STATE
    else if payload == [] || payload[0] > 2 then STATUS_BAD_COMMAND
    else STATUS_BAD_LENGTH
  }

  lemma ShapeSpelled(p: seq<byte>)
    ensures p != [] && p[0] == 0 && |p| == 8 && p[3] <= MAX_MAPS ==> SpellsLoad(p)
    ensures |p| >= 3 && p[0] == 1 ==> SpellsLoad(p)
    ensures p == [2] ==> SpellsLoad(p)
  {
    hide U16, U32;
    assert p == [2] ==> p == LoadRequest(Finalize);
    if p != [] && p[0] == 0 && |p| == 8 && p[3] <= MAX_MAPS {
      var op := Begin(U16(p[1], p[2]), p[3], U32(p[4], p[5], p[6], p[7]));
      U16Determined(p[1], p[2], op.bytecodeLen);
      U32Determined(p[4], p[5], p[6], p[7], op.expectedCrc);
      assert p == [p[0]] + [p[1], p[2]] + [p[3]] + [p[4], p[5], p[6], p[7]];
      assert p == LoadRequest(op);
    } else if |p| >= 3 && p[0] == 1 {
      U16Determined(p[1], p[2], U16(p[1], p[2]));
      assert p == [p[0]] + [p[1], p[2]] + p[3..];
      assert p == LoadRequest(Data(U16(p[1], p[2]), p[3..]));
    }
  }

  lemma UnspelledLoad(l: Loader, payload: seq<byte>)
    requires !SpellsLoad(payload)
    ensures DecodeLoad(l, payload)
         == Err(if payload == [] || payload[0] > 2 then STATUS_BAD_COMMAND else STATUS_BAD_LENGTH)
  {
    hide U16, U32, SpellsLoad;
    ShapeSpelled(payload);
  }

  /** Every load request there is gets exactly the answer its store and session call for; it parks an
      operation it spells if that answer is OK, and changes nothing otherwise. */
  lemma AnyLoadAnswered(w: World, d: Device, request: Request, execute: Execute)
    requires Agrees(w.loader, d) && WellFormed(request) && request.command == CMD_LOAD_BPF
    ensures var r := DispatchRequest(w, request, execute);
      var answer := if request.flags != 0 then STATUS_BAD_FLAGS
                    else AnyLoadAnswer(Abstract(w.loader, d).session, w.loader.pending.Some?, Payload(request));
      && r.outcome == Respond(answer, request.sequence, [])
      && (answer != STATUS_OK ==> r.world == w)
      && (answer == STATUS_OK ==>
            exists op :: Payload(request) == LoadRequest(op) && r.world == w.(loader := w.loader.(pending := Some(op))))
  {
    hide LoadRequest, DecodeLoad, Encoded, LoadAnswer, Agrees, Abstract, Payload;
    if request.flags == 0 {
      var payload := Payload(request);
      if SpellsLoad(payload) {
        var op :| payload == LoadRequest(op);
        AnswerUnique(w, d, request, op, execute);
      } else {
        UnspelledLoad(w.loader, payload);
        assert Abstract(w.loader, d).session.Active? <==> w.loader.state.Running? by { SessionOf(w.loader, d); }
      }
    }
  }

  lemma AnswerUnique(w: World, d: Device, request: Request, op: LoadOp, execute: Execute)
    requires Agrees(w.loader, d) && WellFormed(request) && request.flags == 0
    requires request.command == CMD_LOAD_BPF && Payload(request) == LoadRequest(op)
    ensures var r := DispatchRequest(w, request, execute);
      var answer := AnyLoadAnswer(Abstract(w.loader, d).session, w.loader.pending.Some?, Payload(request));
      && r.outcome == Respond(answer, request.sequence, [])
      && (answer != STATUS_OK ==> r.world == w)
      && (answer == STATUS_OK ==>
            exists op' :: Payload(request) == LoadRequest(op')
                          && r.world == w.(loader := w.loader.(pending := Some(op'))))
  {
    hide LoadRequest, DispatchRequest, Encoded, LoadAnswer, Agrees, Abstract, Payload, Respond;
    assert SpellsLoad(Payload(request));
    forall any | Payload(request) == LoadRequest(any)
      ensures DispatchRequest(w, request, execute).outcome
           == Respond(LoadAnswer(Abstract(w.loader, d).session, w.loader.pending.Some?, any), request.sequence, [])
      ensures LoadAnswer(Abstract(w.loader, d).session, w.loader.pending.Some?, any) != STATUS_OK ==>
                DispatchRequest(w, request, execute).world == w
      ensures LoadAnswer(Abstract(w.loader, d).session, w.loader.pending.Some?, any) == STATUS_OK ==>
                DispatchRequest(w, request, execute).world == w.(loader := w.loader.(pending := Some(any)))
    {
      LoadAnswered(w, d, request, any, execute);
    }
  }

  // ---- Query and Start ----

  function QueryAnswer(session: Session, parked: bool): Result<u32> {
    if parked then Err(STATUS_BUSY)
    else
      match session
      case Ready(image) => Ok(Crc32.Checksum(image.payload))
      case Active(image) => Ok(Crc32.Checksum(image.payload))
      case Broken(status) => Err(status)
      case _ => Err(STATUS_NO_PROGRAM)
  }

  /** The CRC query answers with the checksum of the stored payload, or with what stands in the way. */
  lemma QueryAnswered(w: World, d: Device, request: Request, execute: Execute)
    requires Agrees(w.loader, d) && IsCommand(request, CMD_QUERY_BPF_CRC)
    ensures var r := DispatchRequest(w, request, execute);
      var answer := QueryAnswer(Abstract(w.loader, d).session, w.loader.pending.Some?);
      && r.world == w
      && r.outcome == if answer.Ok? then Respond(STATUS_OK, request.sequence, U32Bytes(answer.value))
                      else Respond(answer.status, request.sequence, [])
  {
    hide Encoded, U32Bytes, Stored, Crc32.Checksum, Acceptable, Descriptors, IsHeader, Crc32.Update;
    CurrentExposed(w.loader, d);
  }

  /** A program starts exactly when an image is ready; otherwise the answer says what stands in the way. */
  function StartRefusal(session: Session, parked: bool): Option<byte> {
    if parked then Some(STATUS_BUSY)
    else
      match session
      case Ready(_) => None
      case Active(_) => Some(STATUS_BAD_STATE)
      case Broken(status) => Some(status)
      case _ => Some(STATUS_NO_PROGRAM)
  }

  function ResultStatus(result: Result<nat>): byte {
    if result.Err? then result.status else if result.value == 0 then STATUS_OK else STATUS_BAD_COMMAND
  }

  /** Start runs the ready image once and makes it active exactly if the program returns zero. */
  lemma StartAnswered(w: World, d: Device, request: Request, execute: Execute)
    requires Agrees(w.loader, d) && IsCommand(request, CMD_START_BPF)
    ensures var r := DispatchRequest(w, request, execute);
      var s := Abstract(w.loader, d);
      var refusal := StartRefusal(s.session, w.loader.pending.Some?);
      && Agrees(r.world.loader, d)
      && match refusal
         case Some(status) => r == Dispatched(w, Respond(status, request.sequence, []), None)
         case None =>
           var (result, backing) := execute(CommittedMetadata(w.loader), w.backing);
           && r.outcome == Respond(ResultStatus(result), request.sequence, [])
           && r.called == Some(CommittedMetadata(w.loader))
           && r.world.backing == backing && r.world.status == w.status
           && Abstract(r.world.loader, d)
              == if result == Ok(0) then s.(session := Active(s.session.image)) else s
  {
    hide Encoded, Stored, CommittedMetadata, InTransfer;
    DispatchAgrees(w, d, request, execute);
  }

  // ---- Maps ----

  /** The maps on offer: those of the current image. */
  function MapsOf(session: Session): (maps: Option<seq<Descriptor>>)
    ensures maps.Some? ==> Acceptable(maps.value)
  {
    var current := Current(session);
    if current.Some? && Vetted(current.value) then Some(Descriptors(current.value)) else None
  }

  lemma MapsExposed(l: Loader, d: Device)
    requires Agrees(l, d)
    ensures var maps := MapsOf(Abstract(l, d).session);
      && (maps.Some? <==> Loaded(l))
      && (maps.Some? ==> Exposes(l, maps.value))
  {
    hide Agrees, Stored, Vetted, Acceptable, Exposes, Abstract;
    CurrentExposed(l, d);
  }

  function ReadAnswer(maps: Option<seq<Descriptor>>, id: byte, offset: u16, length: byte, backing: seq<byte>)
    : (answer: Result<seq<byte>>)
    requires |backing| == MAX_MAP_BYTES && (maps.Some? ==> Acceptable(maps.value))
    ensures answer.Ok? ==> |answer.value| == length <= 16
  {
    if !(1 <= length <= 16) then Err(STATUS_BAD_LENGTH)
    else if maps.None? then Err(STATUS_NO_PROGRAM)
    else if id >= |maps.value| then Err(STATUS_BAD_COMMAND)
    else if offset + length > Size(maps.value[id]) then Err(STATUS_BAD_LENGTH)
    else Ok(MapBytes(maps.value, id, backing)[offset..offset + length])
  }

  lemma ReadMapAnswer(l: Loader, ds: seq<Descriptor>, id: byte, offset: u16, length: byte, backing: seq<byte>)
    requires Exposes(l, ds) && |backing| == MAX_MAP_BYTES
    ensures ReadMap(l, id, offset, length, backing) == ReadAnswer(Some(ds), id, offset, length, backing)
  {
    hide Size, Total, MapBytes;
    ReadMapExact(l, ds, id, offset, length, backing);
  }

  /** A map read answers with the bytes of the current image's map, or with what stands in the way. */
  lemma ReadAnswered(w: World, d: Device, request: Request, id: byte, offset: u16, length: byte, execute: Execute)
    requires Agrees(w.loader, d) && |w.backing| == MAX_MAP_BYTES && WellFormed(request) && request.flags == 0
    requires request.command == CMD_READ_BPF_MAP && Payload(request) == ReadRequest(id, offset, length)
    ensures var r := DispatchRequest(w, request, execute);
      var answer := ReadAnswer(MapsOf(Abstract(w.loader, d).session), id, offset, length, w.backing);
      && r.world == w
      && r.outcome == if answer.Ok? then Respond(STATUS_OK, request.sequence, answer.value)
                      else Respond(answer.status, request.sequence, [])
  {
    hide Agrees, Encoded, ReadRequest, MapBytes, Abstract, Exposes, MapsOf, Size, Acceptable;
    MapsExposed(w.loader, d);
    ReadRequestDecoded(w.loader, id, offset, length, w.backing);
    var maps := MapsOf(Abstract(w.loader, d).session);
    if maps.Some? {
      ReadMapAnswer(w.loader, maps.value, id, offset, length, w.backing);
    }
  }

  function WriteAnswer(maps: Option<seq<Descriptor>>, id: nat, offset: nat, length: nat): byte {
    if maps.None? then STATUS_NO_PROGRAM
    else if id >= |maps.value| then STATUS_BAD_COMMAND
    else if offset + length > Size(maps.value[id]) then STATUS_BAD_LENGTH
    else STATUS_OK
  }

  lemma WriteMapAnswer(l: Loader, ds: seq<Descriptor>, id: byte, offset: u16, page: seq<byte>, backing: seq<byte>)
    requires Exposes(l, ds) && |backing| == MAX_MAP_BYTES && 1 <= |page| <= 14
    ensures StatusOf(WriteMap(l, id, offset, page, backing).0) == WriteAnswer(Some(ds), id, offset, |page|)
    ensures WriteMap(l, id, offset, page, backing).0 != Err(STATUS_OK)
  {
    hide Size, Total;
    WriteMapExact(l, ds, id, offset, page, backing);
  }

  /** A map write of a page replaces those bytes of the current image's map and no other map's, or
      changes nothing and says what stands in the way. */
  lemma WriteAnswered(w: World, d: Device, request: Request, id: nat, offset: nat, page: seq<byte>, execute: Execute)
    requires Agrees(w.loader, d) && |w.backing| == MAX_MAP_BYTES && WellFormed(request) && request.flags == 0
    requires id < 8 && offset < 0x400 && page != []
    requires request.command == CMD_WRITE_BPF_MAP && Payload(request) == WriteRequest(id, offset, page)
    ensures var r := DispatchRequest(w, request, execute);
      var maps := MapsOf(Abstract(w.loader, d).session);
      var answer := WriteAnswer(maps, id, offset, |page|);
      && r.outcome == Respond(answer, request.sequence, [])
      && r.world == w.(backing := r.world.backing) && |r.world.backing| == MAX_MAP_BYTES
      && (answer != STATUS_OK ==> r.world == w)
      && (answer == STATUS_OK ==>
            && MapBytes(maps.value, id, r.world.backing) == Splice(MapBytes(maps.value, id, w.backing), offset, page)
            && forall j :: 0 <= j < |maps.value| && j != id ==>
                 MapBytes(maps.value, j, r.world.backing) == MapBytes(maps.value, j, w.backing))
  {
    hide Agrees, Encoded, WriteRequest, MapBytes, Abstract, Exposes, MapsOf, Size, Acceptable, WriteCommand, Total;
    MapsExposed(w.loader, d);
    assert |page| <= 14 by { PageFits(request, id, offset, page); }
    WriteRequestLocated(w.loader, id, offset, page, w.backing);
    var maps := MapsOf(Abstract(w.loader, d).session);
    if maps.Some? {
      WriteMapAnswer(w.loader, maps.value, id, offset, page, w.backing);
      WriteMapExact(w.loader, maps.value, id, offset, page, w.backing);
    }
  }

  /** Some page write is spelled this way. */
  ghost predicate SpellsWrite(payload: seq<byte>) {
    exists id: nat, offset: nat, page: seq<byte> ::
      id < 8 && offset < 0x400 && page != [] && payload == WriteRequest(id, offset, page)
  }

  lemma PlaceSpelled(payload: seq<byte>)
    ensures |payload| >= 3 && Locate(U16(payload[0], payload[1])).Some? ==> SpellsWrite(payload)
  {
    hide U16, U16Bytes, PackLocation, And;
    if |payload| >= 3 && Locate(U16(payload[0], payload[1])).Some? {
      var word := U16(payload[0], payload[1]);
      var (id, offset) := Locate(word).value;
      U16Determined(payload[0], payload[1], word);
      LocateExact(word, id, offset);
      assert payload == [payload[0], payload[1]] + payload[2..];
      assert payload == WriteRequest(id, offset, payload[2..]);
    }
  }

  /** What spells no page write - too short, or with reserved location bits set - is refused. */
  lemma UnspelledWrite(l: Loader, payload: seq<byte>, backing: seq<byte>)
    requires !SpellsWrite(payload)
    ensures WriteCommand(l, payload, backing) == (Err(STATUS_BAD_LENGTH), backing)
  {
    hide U16, WriteMap, Locate, SpellsWrite;
    PlaceSpelled(payload);
  }

  lemma ReadSpelled(payload: seq<byte>)
    requires |payload| == 4
    ensures payload == ReadRequest(payload[0], U16(payload[1], payload[2]), payload[3])
  {
    hide U16;
    U16Determined(payload[1], payload[2], U16(payload[1], payload[2]));
    assert payload == [payload[0]] + [payload[1], payload[2]] + [payload[3]];
  }

  /** The commands whose payload is fixed at nothing. */
  predicate Bare(command: byte) {
    command == CMD_RESET || command == CMD_START_BPF || command == CMD_READ_STATUS || command == CMD_QUERY_BPF_CRC
  }

  /** The refusal of a request for its form alone, if there is one. */
  ghost function FormRefusal(request: Request): Option<byte>
    requires request.payloadLen <= MAX_PAYLOAD
  {
    if request.flags != 0 then Some(STATUS_BAD_FLAGS)
    else if !(CMD_RESET <= request.command <= CMD_QUERY_BPF_CRC) then Some(STATUS_BAD_COMMAND)
    else if Bare(request.command) && request.payloadLen != 0 then Some(STATUS_BAD_LENGTH)
    else if request.command == CMD_READ_BPF_MAP && request.payloadLen != 4 then Some(STATUS_BAD_LENGTH)
    else if request.command == CMD_WRITE_BPF_MAP && !SpellsWrite(Payload(request)) then Some(STATUS_BAD_LENGTH)
    else None
  }

  /** A map request that is not refused for its form spells a page, so the answers above apply to it. */
  lemma FormSpelled(request: Request)
    requires WellFormed(request) && FormRefusal(request) == None
    ensures request.command == CMD_READ_BPF_MAP ==>
              exists id, offset, length :: Payload(request) == ReadRequest(id, offset, length)
    ensures request.command == CMD_WRITE_BPF_MAP ==> SpellsWrite(Payload(request))
  {
    hide U16, SpellsWrite;
    if request.command == CMD_READ_BPF_MAP {
      ReadSpelled(Payload(request));
    }
  }

  /** Every ill-formed request is refused for its form, calls no program and changes nothing. With the
      answers above and the status queue's this leaves no request without a stated answer. */
  lemma IllFormedAnswered(w: World, request: Request, execute: Execute)
    requires request.payloadLen <= MAX_PAYLOAD && FormRefusal(request).Some?
    ensures DispatchRequest(w, request, execute)
         == Dispatched(w, Respond(FormRefusal(request).value, request.sequence, []), None)
  {
    hide AcceptLoad, ReadMap, WriteCommand, Query, ExecutionMetadata, Encoded, SpellsWrite, U16;
    if request.command == CMD_WRITE_BPF_MAP && !SpellsWrite(Payload(request)) {
      UnspelledWrite(w.loader, Payload(request), w.backing);
    }
  }

  lemma PageFits(request: Request, id: nat, offset: nat, page: seq<byte>)
    requires WellFormed(request) && id < 8 && offset < 0x400 && Payload(request) == WriteRequest(id, offset, page)
    ensures |page| <= 14
  {
    assert |WriteRequest(id, offset, page)| == 2 + |page|;
  }
}
