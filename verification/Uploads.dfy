/** Whole uploads: what the host sends, where it ends, and what a corrupted one comes to. */
module Uploads {
  import opened Bytes
  import opened ImageFormat
  import opened LoaderAgreement
  import opened LoaderModel
  import opened LoaderRuns
  import opened MapLayouts
  import opened NorFlash
  import Crc32

  // ---- The Load payloads a host sends ----

  function BeginRequest(declared: Declared): seq<byte> {
    [0] + U16Bytes(declared.bytecodeLen) + [declared.mapCount] + U32Bytes(declared.crc)
  }

  function DataRequest(offset: u16, piece: seq<byte>): seq<byte> { [1] + U16Bytes(offset) + piece }

  const FINALIZE_REQUEST: seq<byte> := [2]

  /** One request, then one turn of the main loop with flash that works. */
  function Exchange(n: Node, payload: seq<byte>): Node { Run(n, [Request(payload), Turn([])]) }

  predicate Sendable(piece: seq<byte>) { 2 <= |piece| <= 12 && Even(|piece|) }

  function SendPieces(n: Node, offset: nat, pieces: seq<seq<byte>>): Node
    requires offset + |Concat(pieces)| < 0x1_0000
    decreases |pieces|
  {
    if pieces == [] then n
    else SendPieces(Exchange(n, DataRequest(offset, pieces[0])), offset + |pieces[0]|, pieces[1..])
  }

  function SendImage(n: Node, declared: Declared, pieces: seq<seq<byte>>): Node
    requires |Concat(pieces)| < 0x1_0000
  {
    Exchange(SendPieces(Exchange(n, BeginRequest(declared)), 0, pieces), FINALIZE_REQUEST)
  }

  /** How each load operation is spelled on the wire. */
  function LoadRequest(op: LoadOp): seq<byte> {
    match op
    case Begin(bytecodeLen, mapCount, crc) => BeginRequest(Declared(bytecodeLen, mapCount, crc))
    case Data(offset, bytes) => DataRequest(offset, bytes)
    case Finalize => FINALIZE_REQUEST
  }

  lemma BeginSpelled(l: Loader, payload: seq<byte>)
    requires DecodeLoad(l, payload).Ok? && payload[0] == 0
    ensures payload == LoadRequest(DecodeLoad(l, payload).value)
  {
    hide Fits, U16, U32;
    var p := payload;
    U16Determined(p[1], p[2], U16(p[1], p[2]));
    U32Determined(p[4], p[5], p[6], p[7], U32(p[4], p[5], p[6], p[7]));
    assert p == [p[0]] + [p[1], p[2]] + [p[3]] + [p[4], p[5], p[6], p[7]];
  }

  lemma LaterSpelled(l: Loader, payload: seq<byte>)
    requires DecodeLoad(l, payload).Ok? && payload[0] != 0
    ensures payload == LoadRequest(DecodeLoad(l, payload).value)
  {
    hide Fits, U16, U32;
    var p := payload;
    if p[0] == 1 {
      U16Determined(p[1], p[2], U16(p[1], p[2]));
      assert p == [p[0]] + [p[1], p[2]] + p[3..];
    }
  }

  /** The callback accepts exactly the spellings of operations that are admissible where the loader
      stands, parks that very operation, and otherwise changes nothing. */
  lemma AcceptExact(l: Loader, payload: seq<byte>, op: LoadOp)
    ensures AcceptLoad(l, payload) == (l.(pending := Some(op)), Ok(()))
       <==> l.pending.None? && Admissible(l, op) && payload == LoadRequest(op)
    ensures AcceptLoad(l, payload).1.Err? ==> AcceptLoad(l, payload).0 == l
    ensures AcceptLoad(l, payload).1.Ok? ==>
              exists accepted :: AcceptLoad(l, payload).0 == l.(pending := Some(accepted))
  {
    hide Fits, U16, U32, BeginRequest, DataRequest, Even, LoadRequest, DecodeLoad;
    if l.pending.None? && !l.state.Running? && DecodeLoad(l, payload).Ok? {
      DecodedAdmissible(l, payload);
    }
    if l.pending.None? && Admissible(l, op) && payload == LoadRequest(op) {
      AdmissibleDecoded(l, op);
    }
  }

  lemma DecodedAdmissible(l: Loader, payload: seq<byte>)
    requires DecodeLoad(l, payload).Ok? && !l.state.Running?
    ensures payload == LoadRequest(DecodeLoad(l, payload).value)
    ensures Admissible(l, DecodeLoad(l, payload).value)
  {
    hide Fits, LoadRequest, U32, U16;
    if payload[0] == 0 {
      BeginSpelled(l, payload);
    } else {
      LaterSpelled(l, payload);
      if payload[0] == 1 {
        EvenRemainder(|payload| - 3);
      }
    }
  }

  lemma AdmissibleDecoded(l: Loader, op: LoadOp)
    requires Admissible(l, op)
    ensures DecodeLoad(l, LoadRequest(op)) == Ok(op)
  {
    hide DecodeLoad, Fits, BeginRequest, DataRequest;
    match op
    case Begin(bytecodeLen, mapCount, crc) => BeginDecoded(l, Declared(bytecodeLen, mapCount, crc));
    case Data(_, bytes) => DataDecoded(l, bytes);
    case Finalize => FinalizeDecoded(l);
  }

  lemma FinalizeDecoded(l: Loader)
    requires l.state.Receiving? && l.nextOffset == l.imageLen
    ensures DecodeLoad(l, FINALIZE_REQUEST) == Ok(Finalize)
  {}

  /** The answer to a load payload with nothing parked and nothing running, byte by byte. */
  function RawVerdict(l: Loader, p: seq<byte>): byte {
    if p == [] || p[0] > 2 then 0x01
    else if p[0] == 0 then if |p| == 8 && RawFits(Half(p, 1), p[3]) then 0x00 else 0x02
    else if p[0] == 1 then
      if |p| < 5 || |p| > 15 || |p| % 2 == 0 then 0x02
      else if !l.state.Receiving? || Half(p, 1) != l.nextOffset then 0x06
      else if l.nextOffset + |p| - 3 > l.imageLen then 0x02
      else 0x00
    else if |p| != 1 then 0x02
    else if !l.state.Receiving? || l.nextOffset != l.imageLen then 0x06
    else 0x00
  }

  /** What an accepted payload parks. */
  function RawOp(p: seq<byte>): LoadOp
    requires p != [] && (p[0] == 0 ==> |p| == 8 && p[3] <= 8) && (p[0] == 1 ==> |p| >= 3)
  {
    if p[0] == 0 then Begin(Half(p, 1), p[3], Field(p, 4))
    else if p[0] == 1 then Data(Half(p, 1), p[3..])
    else Finalize
  }

  lemma DecodeRaw(l: Loader, p: seq<byte>)
    ensures RawVerdict(l, p) != 0x00 ==> DecodeLoad(l, p) == Err(RawVerdict(l, p))
    ensures RawVerdict(l, p) == 0x00 ==> DecodeLoad(l, p) == Ok(RawOp(p))
  {
    hide Fits, U16, U32, Half, Field;
    if |p| >= 3 {
      WordHere(p, 1);
    }
    if |p| == 8 {
      WordHere(p, 4);
      FitsRaw(Half(p, 1), p[3]);
    }
  }

  /**
   Acceptance, byte by byte. A loader with something parked answers 5 and one that is running 6; a
   Begin is accepted exactly if its two length bytes make a multiple of 8 from 8 to 7680 and it has at
   most 8 maps, data and Finalize exactly if they continue or complete the transfer; and what is parked
   carries exactly the payload's numbers and bytes.
   */
  lemma AcceptRaw(l: Loader, p: seq<byte>)
    ensures var (l', r) := AcceptLoad(l, p);
      var verdict := if l.pending.Some? then 0x05 else if l.state.Running? then 0x06 else RawVerdict(l, p);
      && (verdict != 0x00 ==> r == Err(verdict) && l' == l)
      && (verdict == 0x00 ==> r == Ok(()) && l' == l.(pending := Some(RawOp(p))))
  {
    hide DecodeLoad, RawVerdict, RawOp;
    DecodeRaw(l, p);
  }

  // ---- The cells an upload leaves behind ----

  /** The slot with an image partly received, over whatever the flash held before. */
  function Partial(was: seq<byte>, declared: Declared, data: seq<byte>): seq<byte>
    requires |was| == FLASH_SIZE && Sized(declared) && |data| <= LengthOf(declared)
  {
    SizedExtent(declared);
    Splice(Splice(Blanked(was, SLOT, ErasedEnd(LengthOf(declared))), SLOT, Header(declared, 0xff)), DATA, data)
  }

  function Complete(was: seq<byte>, image: Image): seq<byte>
    requires |was| == FLASH_SIZE && Sized(image.declared) && |image.payload| == LengthOf(image.declared)
  {
    SizedExtent(image.declared);
    Splice(Splice(Blanked(was, SLOT, ErasedEnd(LengthOf(image.declared))), SLOT, Header(image.declared, 0)),
           DATA, image.payload)
  }

  lemma PartialExtended(was: seq<byte>, declared: Declared, data: seq<byte>, piece: seq<byte>)
    requires |was| == FLASH_SIZE && Sized(declared) && |data| + |piece| <= LengthOf(declared)
    ensures DATA + LengthOf(declared) <= FLASH_SIZE
    ensures Splice(Partial(was, declared, data), DATA + |data|, piece) == Partial(was, declared, data + piece)
  {
    hide Sized, LengthOf, ErasedEnd, Header, Blanked;
    SizedExtent(declared);
  }

  lemma PartialMarked(was: seq<byte>, image: Image)
    requires |was| == FLASH_SIZE && Sized(image.declared) && |image.payload| == LengthOf(image.declared)
    ensures DATA + LengthOf(image.declared) <= FLASH_SIZE
    ensures Splice(Partial(was, image.declared, image.payload), MARKER, [0, 0]) == Complete(was, image)
  {
    hide Sized, LengthOf, ErasedEnd, Blanked, U16Bytes, U32Bytes;
    SizedExtent(image.declared);
    var blank := Blanked(was, SLOT, ErasedEnd(LengthOf(image.declared)));
    var open, marked := Header(image.declared, 0xff), Header(image.declared, 0);
    assert forall i :: 0 <= i < HEADER_SIZE ==> marked[i] == if i == 12 || i == 13 then 0 else open[i];
    assert forall i :: 0 <= i < |was| ==>
             Splice(Partial(was, image.declared, image.payload), MARKER, [0, 0])[i] == Complete(was, image)[i];
  }

  // ---- One exchange at a time ----

  /** Powered, idle, and with no program marked running: ready for the next load request. */
  ghost predicate Quiet(n: Node) {
    && Agrees(n.loader, n.device)
    && n.loader.pending.None? && !n.loader.state.Running?
    && n.device.powered
  }

  /** A transfer of `declared` over the contents `was` that has brought `data` so far. */
  ghost predicate Midway(n: Node, was: seq<byte>, declared: Declared, data: seq<byte>)
    requires |was| == FLASH_SIZE
  {
    && Quiet(n) && n.loader.state.Receiving?
    && DeclaredBy(n.loader) == declared && Sized(declared)
    && |data| <= LengthOf(declared)
    && Received(n.loader, n.device) == data
    && n.device.bytes == Partial(was, declared, data)
  }

  lemma ExchangePerforms(n: Node, payload: seq<byte>, op: LoadOp)
    requires Quiet(n) && DecodeLoad(n.loader, payload) == Ok(op)
    ensures var (l, d) := Perform(n.loader, WithFaults(n.device, []), op);
      Exchange(n, payload).loader == l && Exchange(n, payload).device == d
  {
    hide DecodeLoad, Perform;
    var events := [Request(payload), Turn([])];
    assert events[..1] == [Request(payload)] && events[..1][..0] == [];
    assert Run(n, []) == n;
    assert Run(n, events[..1]) == Step(n, Request(payload));
    assert n.loader.(pending := Some(op)).(pending := None) == n.loader;
  }

  lemma BeginDecoded(l: Loader, declared: Declared)
    requires Sized(declared)
    ensures DecodeLoad(l, BeginRequest(declared))
         == Ok(Begin(declared.bytecodeLen, declared.mapCount, declared.crc))
  {
    hide Fits;
    var p := BeginRequest(declared);
    var lo, crc := U16Bytes(declared.bytecodeLen), U32Bytes(declared.crc);
    assert p[1] == lo[0] && p[2] == lo[1] && p[3] == declared.mapCount;
    assert p[4] == crc[0] && p[5] == crc[1] && p[6] == crc[2] && p[7] == crc[3];
  }

  lemma DataDecoded(l: Loader, piece: seq<byte>)
    requires l.state.Receiving? && Sendable(piece) && l.nextOffset + |piece| <= l.imageLen
    ensures DecodeLoad(l, DataRequest(l.nextOffset, piece)) == Ok(Data(l.nextOffset, piece))
  {
    EvenRemainder(|piece|);
    var p := DataRequest(l.nextOffset, piece);
    var at := U16Bytes(l.nextOffset);
    assert p[1] == at[0] && p[2] == at[1] && p[3..] == piece;
  }

  lemma BeginCells(l: Loader, d: Device, declared: Declared)
    requires ValidDevice(d) && Reliable(d) && Sized(declared)
    ensures BeginImage(l, d, declared).1.bytes == Partial(d.bytes, declared, [])
  {
    hide Sized, LengthOf, ErasedEnd, Header, Programmed;
    SizedExtent(declared);
    EraseFlash(d, LengthOf(declared));
    var (d1, erased) := EraseCells(d, SLOT, ErasedEnd(LengthOf(declared)));
    assert d1.bytes == Blanked(d.bytes, SLOT, ErasedEnd(LengthOf(declared)));
    WriteBlank(d1, SLOT, Header(declared, 0xff));
  }

  lemma BeginExchange(n: Node, declared: Declared)
    requires Quiet(n) && Sized(declared)
    ensures Midway(Exchange(n, BeginRequest(declared)), n.device.bytes, declared, [])
  {
    hide Sized, LengthOf, Partial, BeginImage, BeginRequest, DecodeLoad, Exchange, InTransfer, Describes;
    var d := WithFaults(n.device, []);
    BeginDecoded(n.loader, declared);
    ExchangePerforms(n, BeginRequest(declared), Begin(declared.bytecodeLen, declared.mapCount, declared.crc));
    FaultsIrrelevant(n.loader, n.device, []);
    BeginAgrees(n.loader, d, declared);
    BeginCells(n.loader, d, declared);
  }

  lemma DataExchange(n: Node, was: seq<byte>, declared: Declared, data: seq<byte>, piece: seq<byte>)
    requires |was| == FLASH_SIZE && Midway(n, was, declared, data)
    requires Sendable(piece) && |data| + |piece| <= LengthOf(declared)
    ensures |data| == n.loader.nextOffset
    ensures Midway(Exchange(n, DataRequest(|data|, piece)), was, declared, data + piece)
  {
    hide Sized, LengthOf, Partial, DataRequest, DecodeLoad, Exchange, IsHeader, Crc32.Update, Even, WriteCells;
    var d := WithFaults(n.device, []);
    SizedExtent(declared);
    DataDecoded(n.loader, piece);
    ExchangePerforms(n, DataRequest(|data|, piece), Data(|data|, piece));
    FaultsIrrelevant(n.loader, n.device, []);
    DataAgrees(n.loader, d, piece);
    DataFlash(n.loader, d, piece);
    PartialExtended(was, declared, data, piece);
    var n' := Exchange(n, DataRequest(|data|, piece));
    TransferExtended(n.loader, d, piece, n'.loader, n'.device);
  }

  lemma {:induction false} PiecesSent(n: Node, was: seq<byte>, declared: Declared, data: seq<byte>,
                                      pieces: seq<seq<byte>>)
    requires |was| == FLASH_SIZE && Midway(n, was, declared, data)
    requires forall piece :: piece in pieces ==> Sendable(piece)
    requires |data| + |Concat(pieces)| <= LengthOf(declared) < 0x1_0000
    ensures Midway(SendPieces(n, |data|, pieces), was, declared, data + Concat(pieces))
    decreases |pieces|
  {
    hide Midway, LengthOf, Exchange, DataRequest, Sendable;
    if pieces == [] {
      assert data + Concat(pieces) == data;
    } else {
      DataExchange(n, was, declared, data, pieces[0]);
      PiecesSent(Exchange(n, DataRequest(|data|, pieces[0])), was, declared, data + pieces[0], pieces[1..]);
      assert data + Concat(pieces) == data + pieces[0] + Concat(pieces[1..]);
    }
  }

  lemma MarkedCells(l: Loader, d: Device, was: seq<byte>)
    requires Agrees(l, d) && l.pending.None? && Admissible(l, Finalize) && Reliable(d) && |was| == FLASH_SIZE
    requires d.bytes == Partial(was, DeclaredBy(l), Received(l, d))
    ensures var (l', d') := FinalizeImage(l, d);
      l'.state.Committed? ==> d'.bytes == Complete(was, Image(DeclaredBy(l), Received(l, d)))
  {
    hide Sized, LengthOf, Partial, Complete, WriteCells, Scan, Stored, IsHeader, Even, Crc32.Update, Descriptors,
         Acceptable;
    var (l', d') := FinalizeImage(l, d);
    if l'.state.Committed? {
      FinalizeScan(l, d);
      HeaderMarker(d.bytes, DeclaredBy(l), 0xff);
      WriteBlank(d, MARKER, [0, 0]);
      PartialMarked(was, Image(DeclaredBy(l), Received(l, d)));
    }
  }

  lemma FinalizeExchange(n: Node, was: seq<byte>, image: Image)
    requires |was| == FLASH_SIZE && Midway(n, was, image.declared, image.payload)
    requires |image.payload| == LengthOf(image.declared)
    ensures var n' := Exchange(n, FINALIZE_REQUEST);
      && Agrees(n'.loader, n'.device)
      && n'.loader.pending == None
      && n'.loader.state == Verdict(image)
      && (n'.loader.state.Committed? ==>
            n'.device.bytes == Complete(was, image) && Stored(n'.device.bytes) == Some(image))
  {
    hide Sized, LengthOf, Partial, Complete, FinalizeImage, Exchange, IsHeader, Even, Crc32.Update, Stored, Verdict;
    var d := WithFaults(n.device, []);
    ExchangePerforms(n, FINALIZE_REQUEST, Finalize);
    FaultsIrrelevant(n.loader, n.device, []);
    FinalizeAgrees(n.loader, d);
    MarkedCells(n.loader, d, was);
  }

  // ---- Whole uploads ----

  /** What a committed upload leaves: exact cells, and RAM that exposes exactly the image's maps. */
  ghost predicate Installed(n: Node, was: seq<byte>, image: Image)
    requires |was| == FLASH_SIZE
  {
    && Vetted(image)
    && Agrees(n.loader, n.device)
    && n.loader.state == Committed(image.declared.crc)
    && Stored(n.device.bytes) == Some(image)
    && n.device.bytes == Complete(was, image)
    && n.loader.bytecodeLen == image.declared.bytecodeLen
    && n.loader.committedMaps == image.declared.mapCount
    && n.loader.layouts == LayoutsOf(Descriptors(image))
  }

  lemma CommittedInstalled(n: Node, was: seq<byte>, image: Image)
    requires |was| == FLASH_SIZE && Agrees(n.loader, n.device)
    requires n.loader.state == Committed(image.declared.crc)
    requires Stored(n.device.bytes) == Some(image) && n.device.bytes == Complete(was, image)
    ensures Installed(n, was, image)
  {
    hide Stored, Complete, Vetted, LayoutsOf, Descriptors;
    assert Vetted(image);
  }

  /**
   Upload completeness. From any quiet state, a declared image sent in any even pieces over flash
   that works ends as its content deserves: committed exactly if its CRC matches and its maps are
   acceptable. The cells and metadata it leaves depend on the image and the old contents alone,
   never on how the image was cut into pieces.
   */
  lemma UploadEnds(n: Node, declared: Declared, pieces: seq<seq<byte>>)
    requires Quiet(n) && Sized(declared)
    requires forall piece :: piece in pieces ==> Sendable(piece)
    requires |Concat(pieces)| == LengthOf(declared) < 0x1_0000
    ensures var n', image := SendImage(n, declared, pieces), Image(declared, Concat(pieces));
      && n'.loader.state == Verdict(image) && n'.loader.pending == None
      && (n'.loader.state.Committed? <==> Vetted(image))
      && (Vetted(image) ==> Installed(n', n.device.bytes, image))
  {
    hide InTransfer, Describes, Sized, LengthOf, Midway, Exchange, SendPieces, BeginRequest, Installed, Sendable,
         Descriptors, Acceptable;
    hide Crc32.Checksum;
    BeginExchange(n, declared);
    var begun := Exchange(n, BeginRequest(declared));
    TransferCompletes(begun, n.device.bytes, declared, [], pieces);
    assert [] + Concat(pieces) == Concat(pieces);
  }

  /** The same from the middle of a transfer. */
  lemma TransferCompletes(n: Node, was: seq<byte>, declared: Declared, data: seq<byte>, pieces: seq<seq<byte>>)
    requires |was| == FLASH_SIZE && Midway(n, was, declared, data)
    requires forall piece :: piece in pieces ==> Sendable(piece)
    requires |data| + |Concat(pieces)| == LengthOf(declared) < 0x1_0000
    ensures var n' := Exchange(SendPieces(n, |data|, pieces), FINALIZE_REQUEST);
      var image := Image(declared, data + Concat(pieces));
      && n'.loader.state == Verdict(image) && n'.loader.pending == None
      && (n'.loader.state.Committed? ==> Installed(n', was, image))
  {
    hide Sized, LengthOf, Midway, Exchange, SendPieces, Installed, Sendable, Verdict, Stored, Complete;
    PiecesSent(n, was, declared, data, pieces);
    var sent := SendPieces(n, |data|, pieces);
    var image := Image(declared, data + Concat(pieces));
    FinalizeExchange(sent, was, image);
    var n' := Exchange(sent, FINALIZE_REQUEST);
    if n'.loader.state.Committed? {
      CommittedInstalled(n', was, image);
    }
  }

  /** A transfer in progress is midway over its own cells. */
  lemma TransferMidway(n: Node)
    requires Quiet(n) && n.loader.state.Receiving?
    ensures Midway(n, n.device.bytes, DeclaredBy(n.loader), Received(n.loader, n.device))
  {
    hide Sized, LengthOf, ErasedEnd, Even, Crc32.Update, IsHeader, Header;
    SizedExtent(DeclaredBy(n.loader));
    var declared, data := DeclaredBy(n.loader), Received(n.loader, n.device);
    HeaderDetermined(n.device.bytes[SLOT..DATA], declared, 0xff);
    var cells := n.device.bytes;
    assert forall i :: SLOT <= i < DATA ==> cells[i] == cells[SLOT..DATA][i - SLOT];
    assert forall i :: DATA <= i < DATA + |data| ==> cells[i] == data[i - DATA];
    assert Partial(cells, declared, data) == cells;
  }

  function Chop(data: seq<byte>): seq<seq<byte>> {
    if data == [] then [] else if |data| <= 12 then [data] else [data[..12]] + Chop(data[12..])
  }

  lemma {:induction false} ChopSendable(data: seq<byte>)
    requires Even(|data|)
    ensures Concat(Chop(data)) == data
    ensures forall piece :: piece in Chop(data) ==> Sendable(piece)
  {
    EvenRemainder(|data|);
    if |data| > 12 {
      EvenRemainder(|data[12..]|);
      ChopSendable(data[12..]);
      var rest := Chop(data[12..]);
      assert Chop(data)[1..] == rest && Chop(data)[0] == data[..12];
      assert data == data[..12] + data[12..];
    } else if data != [] {
      assert Chop(data)[1..] == [];
    }
  }

  /** A transfer in progress can always be completed: what is missing always has even length, so
      it can be cut into sendable pieces, and sending those gives the image its verdict. */
  lemma ResumeEnds(n: Node, rest: seq<byte>)
    requires Quiet(n) && n.loader.state.Receiving?
    requires n.loader.nextOffset + |rest| == n.loader.imageLen
    ensures |Concat(Chop(rest))| == |rest|
    ensures var n' := Exchange(SendPieces(n, n.loader.nextOffset, Chop(rest)), FINALIZE_REQUEST);
      var image := Image(DeclaredBy(n.loader), Received(n.loader, n.device) + rest);
      && n'.loader.state == Verdict(image)
      && (n'.loader.state.Committed? ==> Installed(n', n.device.bytes, image))
  {
    hide Exchange, SendPieces, Sendable, Verdict, Installed, Stored, Midway, IsHeader, LengthOf, Sized, Even, Chop;
    SizedExtent(DeclaredBy(n.loader));
    RestEven(n.loader.nextOffset, |rest|, DeclaredBy(n.loader));
    ChopSendable(rest);
    TransferMidway(n);
    TransferCompletes(n, n.device.bytes, DeclaredBy(n.loader), Received(n.loader, n.device), Chop(rest));
  }

  lemma RestEven(sent: nat, rest: nat, declared: Declared)
    requires Even(sent) && Sized(declared) && sent + rest == LengthOf(declared)
    ensures Even(rest)
  {
    hide Even;
    EvenRemainder(sent);
    EvenRemainder(rest);
    var half := 4 * (declared.bytecodeLen / 8) + 8 * declared.mapCount;
    assert sent + rest == 2 * half;
  }

  // ---- Corrupted uploads ----

  /** If the bytes that arrived differ from the image the host declared only inside some 32
      consecutive bits, Finalize refuses them, whatever the flash does, and touches no cell. */
  lemma BurstRejected(l: Loader, d: Device, intended: seq<byte>, at: nat)
    requires Agrees(l, d) && l.pending == Some(Finalize)
    requires |intended| == l.imageLen && Crc32.Checksum(intended) == l.expectedCrc
    requires intended != Received(l, d) && Crc32.WithinBurst(intended, Received(l, d), at)
    ensures ExecutePending(l, d) == (l.(pending := None, state := Failed(STATUS_BAD_CRC)), d)
    ensures Stored(d.bytes) == None
  {
    hide Sized, LengthOf, IsHeader, Even, Crc32.Update, Stored, Scan, WriteCells, Crc32.Finish, Crc32.WithinBurst;
    TransferStoresNothing(l, d);
    Crc32.BurstChangesChecksum(intended, Received(l, d), at);
  }
}
