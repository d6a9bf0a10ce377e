/** The byte-paged map commands over the backing store. */
module MapAccess {
  import opened Bytes
  import opened ImageFormat
  import opened LoaderAgreement
  import opened LoaderModel
  import opened MapLayouts
  import opened NorFlash
  import BpfLoaderObject

  const MAX_READ := 16
  const MAX_WRITE := 14

  predicate Loaded(l: Loader) { l.state.Committed? || l.state.Running? }

  function ReadMap(l: Loader, id: byte, offset: u16, length: byte, backing: seq<byte>): (r: Result<seq<byte>>)
    ensures r.Ok? ==> |r.value| == length <= MAX_READ
  {
    if length == 0 || length > MAX_READ then Err(STATUS_BAD_LENGTH)
    else if !Loaded(l) then Err(STATUS_NO_PROGRAM)
    else if id >= MAX_MAPS || id >= l.committedMaps then Err(STATUS_BAD_COMMAND)
    else if offset + length > 0xffff || offset + length > l.layouts[id].len then Err(STATUS_BAD_LENGTH)
    else
      var start := l.layouts[id].offset + offset;
      if start + length > |backing| then Err(STATUS_BAD_LENGTH) else Ok(backing[start..start + length])
  }

  function WriteMap(l: Loader, id: byte, offset: u16, replacement: seq<byte>, backing: seq<byte>)
    : (r: (Result<()>, seq<byte>))
    ensures |r.1| == |backing|
  {
    if replacement == [] || |replacement| > MAX_WRITE then (Err(STATUS_BAD_LENGTH), backing)
    else if !Loaded(l) then (Err(STATUS_NO_PROGRAM), backing)
    else if id >= MAX_MAPS || id >= l.committedMaps then (Err(STATUS_BAD_COMMAND), backing)
    else if offset + |replacement| > 0xffff || offset + |replacement| > l.layouts[id].len then
      (Err(STATUS_BAD_LENGTH), backing)
    else
      var start := l.layouts[id].offset + offset;
      if start + |replacement| > |backing| then (Err(STATUS_BAD_LENGTH), backing)
      else (Ok(()), Splice(backing, start, replacement))
  }

  method WriteMapInPlace(loader: BpfLoaderObject.BpfLoader, id: byte, offset: u16, replacement: seq<byte>,
                         backing: array<byte>)
    returns (r: Result<()>)
    modifies backing
    ensures (r, backing[..]) == WriteMap(loader.Model(), id, offset, replacement, old(backing[..]))
  {
    if replacement == [] || |replacement| > MAX_WRITE {
      return Err(STATUS_BAD_LENGTH);
    }
    if !(loader.state.Committed? || loader.state.Running?) {
      return Err(STATUS_NO_PROGRAM);
    }
    if id >= MAX_MAPS || id >= loader.committedMaps {
      return Err(STATUS_BAD_COMMAND);
    }
    var layout := loader.layouts[id];
    if offset + |replacement| > 0xffff || offset + |replacement| > layout.len {
      return Err(STATUS_BAD_LENGTH);
    }
    var start := layout.offset + offset;
    if start + |replacement| > backing.Length {
      return Err(STATUS_BAD_LENGTH);
    }
    forall i | 0 <= i < |replacement| {
      backing[start + i] := replacement[i];
    }
    assert backing[..] == Splice(old(backing[..]), start, replacement);
    return Ok(());
  }

  method ReadMapBytes(loader: BpfLoaderObject.BpfLoader, id: byte, offset: u16, length: byte, backing: array<byte>)
    returns (r: Result<seq<byte>>)
    ensures r == ReadMap(loader.Model(), id, offset, length, backing[..])
  {
    if length == 0 || length > MAX_READ {
      return Err(STATUS_BAD_LENGTH);
    }
    if !(loader.state.Committed? || loader.state.Running?) {
      return Err(STATUS_NO_PROGRAM);
    }
    if id >= MAX_MAPS || id >= loader.committedMaps {
      return Err(STATUS_BAD_COMMAND);
    }
    var layout := loader.layouts[id];
    if offset + length > 0xffff || offset + length > layout.len {
      return Err(STATUS_BAD_LENGTH);
    }
    var start := layout.offset + offset;
    if start + length > backing.Length {
      return Err(STATUS_BAD_LENGTH);
    }
    return Ok(backing[start..start + length]);
  }

  // ---- Against the descriptors of the committed image ----

  /** The loader exposes exactly the maps these descriptors describe. */
  ghost predicate Exposes(l: Loader, ds: seq<Descriptor>) {
    && Loaded(l)
    && |ds| <= MAX_MAPS && Acceptable(ds)
    && l.committedMaps == |ds|
    && l.layouts == LayoutsOf(ds)
  }

  /** In every state that agrees with its flash, the maps on offer are those of the stored image;
      in states without a program there are none. */
  lemma AgreementExposes(l: Loader, d: Device)
    requires Agrees(l, d)
    ensures Loaded(l) ==> Stored(d.bytes).Some? && Exposes(l, Descriptors(Stored(d.bytes).value))
    ensures !Loaded(l) ==> NoMaps(l)
  {}

  /** The bytes of one map, placed by the descriptors alone. */
  function MapBytes(ds: seq<Descriptor>, id: nat, backing: seq<byte>): (bytes: seq<byte>)
    requires Acceptable(ds) && id < |ds| && |backing| == MAX_MAP_BYTES
    ensures |bytes| == Size(ds[id])
  {
    TotalOfPrefix(ds, id);
    backing[Total(ds[..id])..Total(ds[..id]) + Size(ds[id])]
  }

  /** A page can be read exactly if it is 1 to 16 bytes of an existing map, and is then those bytes. */
  lemma ReadMapExact(l: Loader, ds: seq<Descriptor>, id: byte, offset: u16, length: byte, backing: seq<byte>)
    requires Exposes(l, ds) && |backing| == MAX_MAP_BYTES
    ensures ReadMap(l, id, offset, length, backing).Ok?
       <==> 1 <= length <= 16 && id < |ds| && offset + length <= Size(ds[id])
    ensures ReadMap(l, id, offset, length, backing).Ok? ==>
              ReadMap(l, id, offset, length, backing).value == MapBytes(ds, id, backing)[offset..offset + length]
  {
    hide Size;
    if id < |ds| {
      TotalOfPrefix(ds, id);
      if offset + length <= Size(ds[id]) {
        SliceOfSlice(backing, Total(ds[..id]), Size(ds[id]), offset, offset + length);
      }
    }
  }

  /** A page can be written exactly if it is 1 to 14 bytes of an existing map; it replaces those
      bytes of that map, no byte of another map and nothing outside. A refused write changes nothing. */
  lemma WriteMapExact(l: Loader, ds: seq<Descriptor>, id: byte, offset: u16, page: seq<byte>, backing: seq<byte>)
    requires Exposes(l, ds) && |backing| == MAX_MAP_BYTES
    ensures var (r, backing') := WriteMap(l, id, offset, page, backing);
      && (r.Ok? <==> 1 <= |page| <= 14 && id < |ds| && offset + |page| <= Size(ds[id]))
      && (r.Err? ==> backing' == backing)
      && |backing'| == MAX_MAP_BYTES
      && (r.Ok? ==>
            && Total(ds[..id]) + offset + |page| <= MAX_MAP_BYTES
            && backing' == Splice(backing, Total(ds[..id]) + offset, page)
            && MapBytes(ds, id, backing') == Splice(MapBytes(ds, id, backing), offset, page)
            && forall j :: 0 <= j < |ds| && j != id ==> MapBytes(ds, j, backing') == MapBytes(ds, j, backing))
  {
    hide Size;
    var (r, backing') := WriteMap(l, id, offset, page, backing);
    if id < |ds| {
      TotalOfPrefix(ds, id);
    }
    if r.Ok? {
      MapWritten(ds, id, offset, page, backing);
    }
  }

  lemma MapWritten(ds: seq<Descriptor>, id: nat, offset: nat, page: seq<byte>, backing: seq<byte>)
    requires Acceptable(ds) && id < |ds| && offset + |page| <= Size(ds[id]) && |backing| == MAX_MAP_BYTES
    ensures Total(ds[..id]) + offset + |page| <= MAX_MAP_BYTES
    ensures var backing' := Splice(backing, Total(ds[..id]) + offset, page);
      && MapBytes(ds, id, backing') == Splice(MapBytes(ds, id, backing), offset, page)
      && forall j :: 0 <= j < |ds| && j != id ==> MapBytes(ds, j, backing') == MapBytes(ds, j, backing)
  {
    hide Size, Total;
    TotalOfPrefix(ds, id);
    var at := Total(ds[..id]) + offset;
    forall j | 0 <= j < |ds| && j != id
      ensures MapBytes(ds, j, Splice(backing, at, page)) == MapBytes(ds, j, backing)
    {
      TotalOfPrefix(ds, j);
      if j < id {
        PrefixesAscend(ds, j, id);
      } else {
        PrefixesAscend(ds, id, j);
      }
      SpliceKeeps(backing, at, page, Total(ds[..j]), Total(ds[..j]) + Size(ds[j]));
    }
  }

  // ---- The packed location word ----

  lemma {:induction false} AndLow(low: nat, high: nat, bits: nat)
    requires low < Raise(1, bits)
    ensures And(low + Raise(high, bits), Raise(1, bits) - 1) == low
  {
    if bits > 0 {
      var h := Raise(high, bits - 1);
      AndLow(low / 2, high, bits - 1);
      EvenAbove(low, h);
      assert low + Raise(high, bits) == low + 2 * h;
    }
  }

  lemma {:induction false} AndHigh(low: nat, high: nat, mask: nat, bits: nat)
    requires low < Raise(1, bits)
    ensures And(low + Raise(high, bits), Raise(mask, bits)) == Raise(And(high, mask), bits)
  {
    if bits > 0 {
      var h, m := Raise(high, bits - 1), Raise(mask, bits - 1);
      AndHigh(low / 2, high, mask, bits - 1);
      EvenAbove(low, h);
      EvenAbove(0, m);
    }
  }

  /** The map ID and byte offset in a location word, if its three top bits are clear. */
  function Locate(location: u16): Option<(byte, u16)> {
    if And(location, 0xe000) != 0 then None
    else Some((And(location / 0x400, 0x07), And(location, 0x03ff)))
  }

  function PackLocation(id: nat, offset: nat): u16
    requires id < 8 && offset < 0x400
  {
    offset + 0x400 * id
  }

  lemma Raise10(n: nat)
    ensures Raise(n, 10) == 0x400 * n
  {
    RaiseMore(n, 8, 2);
    Raise8(n);
    assert Raise(Raise(n, 8), 1) == 0x200 * n;
  }

  lemma Raise13(n: nat)
    ensures Raise(n, 13) == 0x2000 * n
  {
    RaiseMore(n, 10, 3);
    Raise10(n);
    assert Raise(Raise(n, 10), 1) == 0x800 * n;
    assert Raise(Raise(n, 10), 2) == 0x1000 * n;
  }

  lemma Raise3()
    ensures Raise(1, 3) == 8
  {
    assert Raise(1, 1) == 2;
    assert Raise(1, 2) == 4;
  }

  /** Location words are exactly the packed pairs of a 3-bit ID and a 10-bit offset. */
  lemma LocateExact(location: u16, id: nat, offset: nat)
    requires offset < 0x400
    ensures Locate(location) == Some((id, offset)) <==> id < 8 && location == PackLocation(id, offset)
  {
    hide And;
    var top, rest := location / 0x2000, location % 0x2000;
    assert And(location, 0xe000) == 0x2000 * top by {
      Raise13(1);
      Raise13(7);
      Raise13(top);
      AndHigh(rest, top, 7, 13);
      Raise13(And(top, 7));
      Raise3();
      AndLow(top, 0, 3);
      Raised0(3);
    }
    var high, low := location / 0x400, location % 0x400;
    assert And(location, 0x3ff) == low by {
      Raise10(1);
      Raise10(high);
      AndLow(low, high, 10);
    }
    if top == 0 {
      assert And(high, 7) == high by {
        Raise3();
        Raised0(3);
        AndLow(high, 0, 3);
      }
    }
  }

  lemma {:induction false} Raised0(bits: nat)
    ensures Raise(0, bits) == 0
  {
    if bits > 0 {
      Raised0(bits - 1);
    }
  }

  // ---- The commands ----

  function ReadCommand(l: Loader, payload: seq<byte>, backing: seq<byte>): (r: Result<seq<byte>>)
    ensures r.Ok? ==> |r.value| <= MAX_READ
  {
    if |payload| != 4 then Err(STATUS_BAD_LENGTH)
    else ReadMap(l, payload[0], U16(payload[1], payload[2]), payload[3], backing)
  }

  function WriteCommand(l: Loader, payload: seq<byte>, backing: seq<byte>): (r: (Result<()>, seq<byte>))
    ensures |r.1| == |backing|
  {
    if |payload| < 3 then (Err(STATUS_BAD_LENGTH), backing)
    else
      var location := Locate(U16(payload[0], payload[1]));
      if location.None? then (Err(STATUS_BAD_LENGTH), backing)
      else WriteMap(l, location.value.0, location.value.1, payload[2..], backing)
  }

  function WriteRequest(id: nat, offset: nat, page: seq<byte>): seq<byte>
    requires id < 8 && offset < 0x400
  {
    U16Bytes(PackLocation(id, offset)) + page
  }

  function ReadRequest(id: byte, offset: u16, length: byte): seq<byte> { [id] + U16Bytes(offset) + [length] }

  /** Consecutive pages written one command each, as long as every command succeeds. */
  function WritePages(l: Loader, id: nat, offset: nat, pages: seq<seq<byte>>, backing: seq<byte>): Option<seq<byte>>
    requires id < 8
    decreases |pages|
  {
    if pages == [] then Some(backing)
    else if offset >= 0x400 then None
    else
      var (r, backing') := WriteCommand(l, WriteRequest(id, offset, pages[0]), backing);
      if r.Err? then None else WritePages(l, id, offset + |pages[0]|, pages[1..], backing')
  }

  function ReadPages(l: Loader, id: byte, offset: nat, lengths: seq<byte>, backing: seq<byte>): Option<seq<byte>>
    decreases |lengths|
  {
    if lengths == [] then Some([])
    else if offset >= 0x1_0000 then None
    else
      var page := ReadCommand(l, ReadRequest(id, offset, lengths[0]), backing);
      if page.Err? then None
      else
        var rest := ReadPages(l, id, offset + lengths[0], lengths[1..], backing);
        if rest.None? then None else Some(page.value + rest.value)
  }

  function Sum(lengths: seq<byte>): nat { if lengths == [] then 0 else lengths[0] + Sum(lengths[1..]) }

  lemma WriteRequestLocated(l: Loader, id: nat, offset: nat, page: seq<byte>, backing: seq<byte>)
    requires id < 8 && offset < 0x400 && page != []
    ensures WriteCommand(l, WriteRequest(id, offset, page), backing) == WriteMap(l, id, offset, page, backing)
  {
    hide WriteMap, Locate;
    var word := U16Bytes(PackLocation(id, offset));
    assert WriteRequest(id, offset, page) == word + page;
    assert WriteRequest(id, offset, page)[2..] == page;
    LocateExact(PackLocation(id, offset), id, offset);
  }

  lemma ReadRequestDecoded(l: Loader, id: byte, offset: u16, length: byte, backing: seq<byte>)
    ensures ReadCommand(l, ReadRequest(id, offset, length), backing) == ReadMap(l, id, offset, length, backing)
  {
    hide ReadMap;
    var word := U16Bytes(offset);
    assert ReadRequest(id, offset, length) == [id, word[0], word[1], length];
  }

  /** Pages that stay inside a map all succeed, and together replace exactly their bytes. */
  lemma {:induction false} PagesWritten(l: Loader, ds: seq<Descriptor>, id: nat, offset: nat,
                                        pages: seq<seq<byte>>, backing: seq<byte>)
    requires Exposes(l, ds) && |backing| == MAX_MAP_BYTES && id < |ds|
    requires forall i :: 0 <= i < |pages| ==> 1 <= |pages[i]| <= 14
    requires offset + |Concat(pages)| <= Size(ds[id])
    ensures Total(ds[..id]) + offset + |Concat(pages)| <= MAX_MAP_BYTES
    ensures WritePages(l, id, offset, pages, backing)
         == Some(Splice(backing, Total(ds[..id]) + offset, Concat(pages)))
    decreases |pages|
  {
    hide Size, WriteCommand, WriteMap, WriteRequest, Total, LayoutsOf, Supported;
    TotalOfPrefix(ds, id);
    var start := Total(ds[..id]) + offset;
    if pages == [] {
      assert Splice(backing, start, []) == backing;
    } else {
      var page, rest := pages[0], Concat(pages[1..]);
      WriteRequestLocated(l, id, offset, page, backing);
      WriteMapExact(l, ds, id, offset, page, backing);
      var backing' := Splice(backing, start, page);
      PagesWritten(l, ds, id, offset + |page|, pages[1..], backing');
      SpliceTwice(backing, start, page, rest);
    }
  }

  lemma SpliceTwice(s: seq<byte>, at: nat, piece: seq<byte>, next: seq<byte>)
    requires at + |piece| + |next| <= |s|
    ensures Splice(Splice(s, at, piece), at + |piece|, next) == Splice(s, at, piece + next)
  {}

  lemma {:induction false} PagesRead(l: Loader, ds: seq<Descriptor>, id: nat, offset: nat,
                                     lengths: seq<byte>, backing: seq<byte>)
    requires Exposes(l, ds) && |backing| == MAX_MAP_BYTES && id < |ds|
    requires forall i :: 0 <= i < |lengths| ==> 1 <= lengths[i] <= 16
    requires offset + Sum(lengths) <= Size(ds[id])
    ensures ReadPages(l, id, offset, lengths, backing)
         == Some(MapBytes(ds, id, backing)[offset..offset + Sum(lengths)])
    decreases |lengths|
  {
    hide Size, ReadCommand, ReadMap, ReadRequest, Total;
    TotalOfPrefix(ds, id);
    var bytes := MapBytes(ds, id, backing);
    if lengths == [] {
      assert bytes[offset..offset] == [];
    } else {
      var length, rest := lengths[0], Sum(lengths[1..]);
      ReadRequestDecoded(l, id, offset, length, backing);
      ReadMapExact(l, ds, id, offset, length, backing);
      PagesRead(l, ds, id, offset + length, lengths[1..], backing);
      assert bytes[offset..offset + length] + bytes[offset + length..offset + length + rest]
          == bytes[offset..offset + length + rest];
    }
  }

  /**
   Paged transfer. Any bytes of any map, written through the packed location word in pages of 1 to
   14 and read back in pages of 1 to 16 cut differently, come back the same; every other byte of
   the backing store keeps its value, and so does every other map.
   */
  lemma PagedTransfer(l: Loader, ds: seq<Descriptor>, id: nat, offset: nat,
                      pages: seq<seq<byte>>, lengths: seq<byte>, backing: seq<byte>)
    requires Exposes(l, ds) && |backing| == MAX_MAP_BYTES && id < |ds|
    requires forall i :: 0 <= i < |pages| ==> 1 <= |pages[i]| <= 14
    requires forall i :: 0 <= i < |lengths| ==> 1 <= lengths[i] <= 16
    requires offset + |Concat(pages)| <= Size(ds[id]) && Sum(lengths) == |Concat(pages)|
    ensures var written := WritePages(l, id, offset, pages, backing);
      && written.Some? && |written.value| == MAX_MAP_BYTES
      && ReadPages(l, id, offset, lengths, written.value) == Some(Concat(pages))
      && (forall b :: 0 <= b < MAX_MAP_BYTES && !(0 <= b - Total(ds[..id]) - offset < |Concat(pages)|) ==>
            written.value[b] == backing[b])
      && forall j :: 0 <= j < |ds| && j != id ==> MapBytes(ds, j, written.value) == MapBytes(ds, j, backing)
  {
    hide Size, Total, WritePages, ReadPages;
    PagesWritten(l, ds, id, offset, pages, backing);
    MapWritten(ds, id, offset, Concat(pages), backing);
    var written := WritePages(l, id, offset, pages, backing).value;
    PagesRead(l, ds, id, offset, lengths, written);
    assert MapBytes(ds, id, written)[offset..offset + Sum(lengths)] == Concat(pages);
  }
}
