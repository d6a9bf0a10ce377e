/** The element view of an array map, which programs use, over the bytes the map commands page through. */
module MapElements {
  import opened Bytes
  import opened LoaderModel
  import opened MapAccess
  import opened MapLayouts

  /** The bytes of one entry relative to its map, if the map has them; sizes are 32 bits wide. */
  function ValueRange(m: MapMetadata, entry: u32): Option<(nat, nat)> {
    if m.keySize != 4 then None
    else
      var offset := CheckedMul(entry, m.valueSize);
      if offset.None? then None
      else
        var end := CheckedAdd(offset.value, m.valueSize);
        if end.None? || end.value > m.backingLen then None else Some((offset.value, end.value))
  }

  function Lookup(m: MapMetadata, entry: u32, backing: seq<byte>): Option<seq<byte>> {
    var range := ValueRange(m, entry);
    if range.None? || m.backingOffset + range.value.1 > |backing| || range.value.0 > range.value.1 then None
    else Some(backing[m.backingOffset + range.value.0..m.backingOffset + range.value.1])
  }

  function Update(m: MapMetadata, entry: u32, value: seq<byte>, backing: seq<byte>): (bool, seq<byte>) {
    if |value| != m.valueSize then (false, backing)
    else
      var range := ValueRange(m, entry);
      if range.None? || m.backingOffset + range.value.0 + |value| > |backing| then (false, backing)
      else (true, Splice(backing, m.backingOffset + range.value.0, value))
  }

  method UpdateInPlace(m: MapMetadata, entry: u32, value: seq<byte>, backing: array<byte>) returns (ok: bool)
    modifies backing
    ensures (ok, backing[..]) == Update(m, entry, value, old(backing[..]))
  {
    if |value| != m.valueSize {
      return false;
    }
    var range := ValueRange(m, entry);
    if range.None? {
      return false;
    }
    var start := m.backingOffset + range.value.0;
    if start + |value| > backing.Length {
      return false;
    }
    forall i | 0 <= i < |value| {
      backing[start + i] := value[i];
    }
    assert backing[..] == Splice(old(backing[..]), start, value);
    return true;
  }

  // ---- Against the descriptors ----

  function MapOf(ds: seq<Descriptor>, id: nat): MapMetadata
    requires Acceptable(ds) && id < |ds|
  {
    MetadataOf(LayoutAt(ds, id))
  }

  /** The metadata a program is given lists exactly the exposed maps. */
  lemma MetadataLists(l: Loader, ds: seq<Descriptor>)
    requires Exposes(l, ds)
    ensures CommittedMetadata(l).mapCount == |ds|
    ensures forall id :: 0 <= id < |ds| ==> CommittedMetadata(l).maps[id] == MapOf(ds, id)
  {}

  lemma EntryBound(d: Descriptor, entry: nat)
    ensures entry < d.maxEntries ==> entry * d.valueSize + d.valueSize <= Size(d)
    ensures entry >= d.maxEntries ==> entry * d.valueSize >= Size(d)
  {
    assert Size(d) == d.maxEntries * d.valueSize;
    if entry < d.maxEntries {
      Multiples(entry, d.maxEntries, d.valueSize);
    } else {
      Multiples(d.maxEntries, entry, d.valueSize);
    }
  }

  /** An index is accepted exactly if it is below the entry count the image declared, although
      the metadata no longer holds that count. */
  lemma ValueRangeExact(ds: seq<Descriptor>, id: nat, entry: u32)
    requires Acceptable(ds) && id < |ds|
    ensures ValueRange(MapOf(ds, id), entry)
         == if entry < ds[id].maxEntries
            then Some((entry * ds[id].valueSize, entry * ds[id].valueSize + ds[id].valueSize)) else None
  {
    hide Size, Total;
    var d := ds[id];
    assert Supported(d);
    TotalOfPrefix(ds, id);
    EntryBound(d, entry);
    assert MapOf(ds, id) == MapMetadata(Total(ds[..id]), Size(d), d.keySize, d.valueSize);
  }

  /** One map as the array of values it is to a program. */
  function Entries(ds: seq<Descriptor>, id: nat, backing: seq<byte>): (values: seq<seq<byte>>)
    requires Acceptable(ds) && id < |ds| && |backing| == MAX_MAP_BYTES
    ensures |values| == ds[id].maxEntries
  {
    seq(ds[id].maxEntries, i requires 0 <= i < ds[id].maxEntries => EntryAt(ds, id, i, backing))
  }

  function EntryAt(ds: seq<Descriptor>, id: nat, i: nat, backing: seq<byte>): seq<byte>
    requires Acceptable(ds) && id < |ds| && |backing| == MAX_MAP_BYTES && i < ds[id].maxEntries
  {
    EntryBound(ds[id], i);
    MapBytes(ds, id, backing)[i * ds[id].valueSize..i * ds[id].valueSize + ds[id].valueSize]
  }

  /** Looking an entry up gives the value at that index, or nothing beyond the last. */
  lemma LookupExact(ds: seq<Descriptor>, id: nat, entry: u32, backing: seq<byte>)
    requires Acceptable(ds) && id < |ds| && |backing| == MAX_MAP_BYTES
    ensures Lookup(MapOf(ds, id), entry, backing)
         == if entry < ds[id].maxEntries then Some(Entries(ds, id, backing)[entry]) else None
  {
    hide Total, Size, ValueRange;
    ValueRangeExact(ds, id, entry);
    TotalOfPrefix(ds, id);
    if entry < ds[id].maxEntries {
      EntryBound(ds[id], entry);
      SliceOfSlice(backing, Total(ds[..id]), Size(ds[id]), entry * ds[id].valueSize,
                   entry * ds[id].valueSize + ds[id].valueSize);
    }
  }

  /** Bytes cut at two positions that coincide or lie a whole value apart. */
  lemma WindowReplaced(bytes: seq<byte>, at: nat, value: seq<byte>, lo: nat)
    requires at + |value| <= |bytes| && lo + |value| <= |bytes|
    requires lo == at || lo + |value| <= at || at + |value| <= lo
    ensures Splice(bytes, at, value)[lo..lo + |value|] == if lo == at then value else bytes[lo..lo + |value|]
  {
    if lo == at {
      assert Splice(bytes, at, value)[at..at + |value|] == value;
    } else {
      SpliceKeeps(bytes, at, value, lo, lo + |value|);
    }
  }

  /** Replacing one entry's bytes is replacing that value in the array of values. */
  lemma EntryReplaced(ds: seq<Descriptor>, id: nat, backing: seq<byte>, backing': seq<byte>,
                      entry: nat, value: seq<byte>, i: nat)
    requires Acceptable(ds) && id < |ds| && |backing| == |backing'| == MAX_MAP_BYTES
    requires entry < ds[id].maxEntries && i < ds[id].maxEntries && |value| == ds[id].valueSize
    requires entry * ds[id].valueSize + |value| <= Size(ds[id])
    requires MapBytes(ds, id, backing') == Splice(MapBytes(ds, id, backing), entry * ds[id].valueSize, value)
    ensures EntryAt(ds, id, i, backing') == if i == entry then value else EntryAt(ds, id, i, backing)
  {
    hide Size, Total, MapBytes, Splice;
    var size := ds[id].valueSize;
    var at, lo := entry * size, i * size;
    assert lo + size <= Size(ds[id]) by { EntryBound(ds[id], i); }
    assert i < entry ==> lo + size <= at by {
      if i < entry {
        Multiples(i, entry, size);
      }
    }
    assert i > entry ==> at + size <= lo by {
      if i > entry {
        Multiples(entry, i, size);
      }
    }
    assert Supported(ds[id]);
    WindowReplaced(MapBytes(ds, id, backing), at, value, lo);
  }

  /**
   An element update succeeds exactly for a value of the declared size at an index below the
   declared count. It is then the array update at that index, seen in bytes the replacement at
   index times value size; it changes no other map and nothing outside the map. Otherwise nothing
   changes.
   */
  lemma UpdateExact(ds: seq<Descriptor>, id: nat, entry: u32, value: seq<byte>, backing: seq<byte>)
    requires Acceptable(ds) && id < |ds| && |backing| == MAX_MAP_BYTES
    ensures var (ok, backing') := Update(MapOf(ds, id), entry, value, backing);
      && (ok <==> |value| == ds[id].valueSize && entry < ds[id].maxEntries)
      && (!ok ==> backing' == backing)
      && |backing'| == MAX_MAP_BYTES
      && (ok ==>
            && entry * ds[id].valueSize + |value| <= Size(ds[id])
            && Total(ds[..id]) + Size(ds[id]) <= MAX_MAP_BYTES
            && backing' == Splice(backing, Total(ds[..id]) + entry * ds[id].valueSize, value)
            && Entries(ds, id, backing') == Entries(ds, id, backing)[entry := value]
            && forall j :: 0 <= j < |ds| && j != id ==> MapBytes(ds, j, backing') == MapBytes(ds, j, backing))
  {
    hide Total, Size, ValueRange, MapBytes;
    ValueRangeExact(ds, id, entry);
    TotalOfPrefix(ds, id);
    EntryBound(ds[id], entry);
    var (ok, backing') := Update(MapOf(ds, id), entry, value, backing);
    if ok {
      MapWritten(ds, id, entry * ds[id].valueSize, value, backing);
      forall i | 0 <= i < ds[id].maxEntries
        ensures Entries(ds, id, backing')[i] == Entries(ds, id, backing)[entry := value][i]
      {
        EntryReplaced(ds, id, backing, backing', entry, value, i);
      }
    }
  }

  /** A program's update and the host's map-write command are the same change, byte for byte. */
  lemma UpdateIsWrite(l: Loader, ds: seq<Descriptor>, id: nat, entry: u32, value: seq<byte>, backing: seq<byte>)
    requires Exposes(l, ds) && |backing| == MAX_MAP_BYTES && id < |ds|
    requires |value| == ds[id].valueSize <= 14 && entry < ds[id].maxEntries
    ensures entry * ds[id].valueSize < 0x1_0000
    ensures var (r, backing') := WriteMap(l, id, entry * ds[id].valueSize, value, backing);
      r.Ok? && Update(MapOf(ds, id), entry, value, backing) == (true, backing')
  {
    hide Total, Size, ValueRange, WriteMap, Update, MapBytes;
    EntryBound(ds[id], entry);
    TotalOfPrefix(ds, id);
    assert Supported(ds[id]);
    UpdateExact(ds, id, entry, value, backing);
    WriteMapExact(l, ds, id, entry * ds[id].valueSize, value, backing);
  }

  // ---- The helpers a program calls ----

  /** The position of the map that starts where a program's map pointer points. */
  function FindFrom(metadata: ProgramMetadata, start: nat, index: nat): Option<nat>
    requires metadata.mapCount <= |metadata.maps| && index <= metadata.mapCount
    decreases metadata.mapCount - index
  {
    if index == metadata.mapCount then None
    else if metadata.maps[index].backingOffset == start then Some(index)
    else FindFrom(metadata, start, index + 1)
  }

  method FindMap(metadata: ProgramMetadata, start: nat) returns (found: Option<nat>)
    requires metadata.mapCount <= |metadata.maps|
    ensures found == FindFrom(metadata, start, 0)
    ensures found.Some? ==> found.value < metadata.mapCount && metadata.maps[found.value].backingOffset == start
    ensures found.None? ==> forall i :: 0 <= i < metadata.mapCount ==> metadata.maps[i].backingOffset != start
  {
    for index := 0 to metadata.mapCount
      invariant FindFrom(metadata, start, index) == FindFrom(metadata, start, 0)
      invariant forall i :: 0 <= i < index ==> metadata.maps[i].backingOffset != start
    {
      if metadata.maps[index].backingOffset == start {
        return Some(index);
      }
    }
    return None;
  }

  lemma {:induction false} FoundFrom(metadata: ProgramMetadata, start: nat, index: nat, id: nat)
    requires index <= id < metadata.mapCount <= |metadata.maps|
    requires metadata.maps[id].backingOffset == start
    requires forall i :: index <= i < id ==> metadata.maps[i].backingOffset != start
    ensures FindFrom(metadata, start, index) == Some(id)
    decreases id - index
  {
    if index < id {
      FoundFrom(metadata, start, index + 1, id);
    }
  }

  lemma {:induction false} FoundSound(metadata: ProgramMetadata, start: nat, index: nat)
    requires index <= metadata.mapCount <= |metadata.maps|
    ensures match FindFrom(metadata, start, index)
            case Some(id) => index <= id < metadata.mapCount && metadata.maps[id].backingOffset == start
            case None => forall i :: index <= i < metadata.mapCount ==> metadata.maps[i].backingOffset != start
    decreases metadata.mapCount - index
  {
    if index < metadata.mapCount {
      FoundSound(metadata, start, index + 1);
    }
  }

  /** A pointer finds a map exactly if it is that map's start; since no map is empty, no two maps
      start together and the first match is the only one. */
  lemma FindExact(l: Loader, ds: seq<Descriptor>, start: nat, id: nat)
    requires Exposes(l, ds)
    ensures FindFrom(CommittedMetadata(l), start, 0) == Some(id)
       <==> id < |ds| && start == Total(ds[..id])
  {
    hide Total, Size;
    var metadata := CommittedMetadata(l);
    FoundSound(metadata, start, 0);
    if id < |ds| && start == Total(ds[..id]) {
      forall i | 0 <= i < id
        ensures metadata.maps[i].backingOffset != start
      {
        PrefixesAscend(ds, i, id);
        SizePositive(ds[i]);
      }
      FoundFrom(metadata, start, 0, id);
    }
  }

  /** A helper argument: the memory from a pointer to the end of RAM, nothing for a pointer that is
      null or outside RAM. */
  type Pointed = Option<seq<byte>>

  predicate Readable(p: Pointed, length: nat) { p.Some? && |p.value| >= length }

  /** The map and byte range a key selects. */
  function Select(active: Option<ProgramMetadata>, start: nat, key: Pointed): Option<(MapMetadata, u32, nat)>
    requires active.Some? ==> active.value.mapCount <= |active.value.maps|
  {
    if active.None? then None
    else
      FoundSound(active.value, start, 0);
      var found := FindFrom(active.value, start, 0);
      if found.None? then None
      else
        var m := active.value.maps[found.value];
        if m.keySize != 4 || !Readable(key, 4) then None
        else
          var entry := U32(key.value[0], key.value[1], key.value[2], key.value[3]);
          var range := ValueRange(m, entry);
          if range.None? || range.value.1 > m.backingLen then None
          else Some((m, entry, m.backingOffset + range.value.0))
  }

  /** Where in the backing store the selected value is; nothing stands for the null result. */
  function HelperLookup(active: Option<ProgramMetadata>, start: nat, key: Pointed): Option<nat>
    requires active.Some? ==> active.value.mapCount <= |active.value.maps|
  {
    var selected := Select(active, start, key);
    if selected.None? then None else Some(selected.value.2)
  }

  predicate MapsInside(m: ProgramMetadata, size: nat) {
    m.mapCount <= |m.maps| && forall i :: 0 <= i < m.mapCount ==> m.maps[i].backingOffset + m.maps[i].backingLen <= size
  }

  function HelperUpdate(active: Option<ProgramMetadata>, start: nat, key: Pointed, value: Pointed, flags: nat,
                        backing: seq<byte>): (bool, seq<byte>)
    requires active.Some? ==> MapsInside(active.value, |backing|)
  {
    var selected := Select(active, start, key);
    if selected.None? || flags != 0 || !Readable(value, selected.value.0.valueSize) then (false, backing)
    else
      FoundSound(active.value, start, 0);
      (true, Splice(backing, selected.value.2, value.value[..selected.value.0.valueSize]))
  }

  method UpdateHelper(active: Option<ProgramMetadata>, start: nat, key: Pointed, value: Pointed, flags: nat,
                      backing: array<byte>)
    returns (ok: bool)
    requires active.Some? ==> MapsInside(active.value, backing.Length)
    modifies backing
    ensures (ok, backing[..]) == HelperUpdate(active, start, key, value, flags, old(backing[..]))
  {
    if active.None? {
      return false;
    }
    var found := FindMap(active.value, start);
    if found.None? {
      return false;
    }
    var m := active.value.maps[found.value];
    if flags != 0 || m.keySize != 4 || !Readable(key, 4) || !Readable(value, m.valueSize) {
      return false;
    }
    var range := ValueRange(m, U32(key.value[0], key.value[1], key.value[2], key.value[3]));
    if range.None? || range.value.1 > m.backingLen {
      return false;
    }
    var destination := m.backingOffset + range.value.0;
    forall i | 0 <= i < m.valueSize {
      backing[destination + i] := value.value[i];
    }
    assert backing[..] == Splice(old(backing[..]), destination, value.value[..m.valueSize]);
    return true;
  }

  /** Every exposed map lies inside the backing store. */
  lemma ExposedInside(l: Loader, ds: seq<Descriptor>)
    requires Exposes(l, ds)
    ensures MapsInside(CommittedMetadata(l), MAX_MAP_BYTES)
  {
    hide Total, Size;
    forall id | 0 <= id < |ds|
      ensures l.layouts[id].offset + l.layouts[id].len <= MAX_MAP_BYTES
    {
      TotalOfPrefix(ds, id);
    }
  }

  /** What the selection of an exposed map's entry comes to, in terms of the declared maps. */
  lemma SelectExact(l: Loader, ds: seq<Descriptor>, id: nat, key: Pointed)
    requires Exposes(l, ds) && id < |ds|
    ensures CommittedMetadata(l).mapCount <= |CommittedMetadata(l).maps|
    ensures var selected := Select(Some(CommittedMetadata(l)), Total(ds[..id]), key);
      selected == if Readable(key, 4) && KeyOf(key.value) < ds[id].maxEntries
                  then Some((MapOf(ds, id), KeyOf(key.value), Total(ds[..id]) + KeyOf(key.value) * ds[id].valueSize))
                  else None
  {
    hide Total, Size, ValueRange, U32;
    FindExact(l, ds, Total(ds[..id]), id);
    MetadataLists(l, ds);
    assert Supported(ds[id]);
    TotalOfPrefix(ds, id);
    if Readable(key, 4) {
      ValueRangeExact(ds, id, KeyOf(key.value));
      EntryBound(ds[id], KeyOf(key.value));
    }
  }

  function KeyOf(key: seq<byte>): u32
    requires |key| >= 4
  {
    U32(key[0], key[1], key[2], key[3])
  }

  /** The update helper succeeds exactly on a map pointer, a readable key below the entry count, a
      readable value and zero flags; it is then the element update of that map, and the lookup helper
      points at the value it wrote. */
  lemma HelperUpdateExact(l: Loader, ds: seq<Descriptor>, id: nat, key: Pointed, value: Pointed, flags: nat,
                          backing: seq<byte>)
    requires Exposes(l, ds) && id < |ds| && |backing| == MAX_MAP_BYTES
    ensures MapsInside(CommittedMetadata(l), MAX_MAP_BYTES)
    ensures var active := Some(CommittedMetadata(l));
      var (ok, backing') := HelperUpdate(active, Total(ds[..id]), key, value, flags, backing);
      && (ok <==> Readable(key, 4) && KeyOf(key.value) < ds[id].maxEntries
                  && Readable(value, ds[id].valueSize) && flags == 0)
      && (!ok ==> backing' == backing)
      && (ok ==>
            var written := value.value[..ds[id].valueSize];
            && (ok, backing') == Update(MapOf(ds, id), KeyOf(key.value), written, backing)
            && |backing'| == MAX_MAP_BYTES
            && Entries(ds, id, backing') == Entries(ds, id, backing)[KeyOf(key.value) := written]
            && (forall j :: 0 <= j < |ds| && j != id ==> MapBytes(ds, j, backing') == MapBytes(ds, j, backing))
            && HelperLookup(active, Total(ds[..id]), key)
               == Some(Total(ds[..id]) + KeyOf(key.value) * ds[id].valueSize))
  {
    hide Total, Size, ValueRange, U32, Update, Select, MapBytes, Entries;
    ExposedInside(l, ds);
    SelectExact(l, ds, id, key);
    if Readable(key, 4) && KeyOf(key.value) < ds[id].maxEntries && Readable(value, ds[id].valueSize) {
      UpdateExact(ds, id, KeyOf(key.value), value.value[..ds[id].valueSize], backing);
    }
  }

  lemma KeyRaw(key: seq<byte>)
    requires |key| >= 4
    ensures KeyOf(key) == Field(key, 0)
  {
    WordValues(key[0], key[1], key[2], key[3]);
  }

  /** The place a lookup gives: some exposed map starts at the pointer, the key's little-endian number is
      readable and below the map's entry count, and the value lies at that index. */
  ghost predicate Found(ds: seq<Descriptor>, start: nat, key: Pointed, id: nat, place: nat)
    requires Acceptable(ds)
  {
    && id < |ds| && start == Total(ds[..id])
    && key.Some? && |key.value| >= 4 && Field(key.value, 0) < ds[id].maxEntries
    && place == Total(ds[..id]) + Field(key.value, 0) * ds[id].valueSize
  }

  /** The lookup helper gives exactly that place and otherwise null: for a pointer that is no map's
      start, an unreadable key, an index past the last entry, and while no program is active. */
  lemma HelperLookupExact(l: Loader, ds: seq<Descriptor>, start: nat, key: Pointed)
    requires Exposes(l, ds)
    ensures CommittedMetadata(l).mapCount <= |CommittedMetadata(l).maps|
    ensures match HelperLookup(Some(CommittedMetadata(l)), start, key)
            case Some(place) => exists id :: Found(ds, start, key, id, place)
            case None => forall id, place :: !Found(ds, start, key, id, place)
    ensures HelperLookup(None, start, key) == None
  {
    hide Total, Size, Select, Field, KeyOf;
    var metadata := CommittedMetadata(l);
    if key.Some? && |key.value| >= 4 {
      KeyRaw(key.value);
    }
    if exists id: nat :: id < |ds| && start == Total(ds[..id]) {
      var id: nat :| id < |ds| && start == Total(ds[..id]);
      SelectExact(l, ds, id, key);
      StartsApart(ds, id);
      var selected := HelperLookup(Some(metadata), start, key);
      if selected.Some? {
        assert Found(ds, start, key, id, selected.value);
      }
    } else {
      NothingSelected(l, ds, start, key);
    }
    InactiveSelected(start, key);
  }

  lemma StartsApart(ds: seq<Descriptor>, id: nat)
    requires |ds| <= MAX_MAPS && Acceptable(ds) && id < |ds|
    ensures forall other: nat :: other < |ds| && Total(ds[..other]) == Total(ds[..id]) ==> other == id
  {
    hide Total, Size;
    forall other: nat | other < |ds| && other != id
      ensures Total(ds[..other]) != Total(ds[..id])
    {
      if other < id {
        PrefixesAscend(ds, other, id);
        SizePositive(ds[other]);
      } else {
        PrefixesAscend(ds, id, other);
        SizePositive(ds[id]);
      }
    }
  }

  lemma NothingSelected(l: Loader, ds: seq<Descriptor>, start: nat, key: Pointed)
    requires Exposes(l, ds) && forall id: nat :: id < |ds| ==> start != Total(ds[..id])
    ensures CommittedMetadata(l).mapCount <= |CommittedMetadata(l).maps|
    ensures Select(Some(CommittedMetadata(l)), start, key) == None
  {
    hide Total, Size, ValueRange, U32, FindFrom;
    var found := FindFrom(CommittedMetadata(l), start, 0);
    if found.Some? {
      FindExact(l, ds, start, found.value);
    }
  }

  lemma InactiveSelected(start: nat, key: Pointed)
    ensures Select(None, start, key) == None
  {}

  /** For any pointer at all an update without a selected value, and any update while no program is
      active, fails and changes nothing. */
  lemma HelperUpdateRefused(l: Loader, ds: seq<Descriptor>, start: nat, key: Pointed, value: Pointed, flags: nat,
                            backing: seq<byte>)
    requires Exposes(l, ds) && |backing| == MAX_MAP_BYTES
    requires forall id, place :: !Found(ds, start, key, id, place)
    ensures MapsInside(CommittedMetadata(l), MAX_MAP_BYTES)
    ensures HelperUpdate(Some(CommittedMetadata(l)), start, key, value, flags, backing) == (false, backing)
    ensures HelperUpdate(None, start, key, value, flags, backing) == (false, backing)
  {
    hide Total, Size, Select, Field;
    ExposedInside(l, ds);
    HelperLookupExact(l, ds, start, key);
    InactiveSelected(start, key);
  }
}
