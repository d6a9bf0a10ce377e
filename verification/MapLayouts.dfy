/** Array-map descriptors and the backing ranges the loader derives from them. */
module MapLayouts {
  import opened Bytes
  import opened NorFlash

  const MAX_MAPS := 8
  const DESCRIPTOR_SIZE := 16
  const MAX_MAP_BYTES := 1024

  /** Map counts are checked against the limit before they are kept anywhere, so the eight-entry
      table is never overrun. */
  type MapCount = n: nat | n <= MAX_MAPS

  datatype MapLayout = MapLayout(offset: u16, len: u16, keySize: u32, valueSize: u32)

  const EMPTY_LAYOUT := MapLayout(0, 0, 0, 0)

  type LayoutTable = t: seq<MapLayout> | |t| == MAX_MAPS witness EIGHT_EMPTY

  const EIGHT_EMPTY := [EMPTY_LAYOUT, EMPTY_LAYOUT, EMPTY_LAYOUT, EMPTY_LAYOUT,
                        EMPTY_LAYOUT, EMPTY_LAYOUT, EMPTY_LAYOUT, EMPTY_LAYOUT]
  const NO_LAYOUTS: LayoutTable := EIGHT_EMPTY

  datatype Descriptor = Descriptor(mapType: u32, keySize: u32, valueSize: u32, maxEntries: u32)

  function Decode(raw: seq<byte>): Descriptor
    requires |raw| == DESCRIPTOR_SIZE
  {
    Descriptor(U32(raw[0], raw[1], raw[2], raw[3]), U32(raw[4], raw[5], raw[6], raw[7]),
               U32(raw[8], raw[9], raw[10], raw[11]), U32(raw[12], raw[13], raw[14], raw[15]))
  }

  // ---- The specification, over unbounded integers ----

  function Size(d: Descriptor): nat { d.valueSize * d.maxEntries }

  function Total(ds: seq<Descriptor>): nat {
    if ds == [] then 0 else Total(ds[..|ds| - 1]) + Size(ds[|ds| - 1])
  }

  predicate Supported(d: Descriptor) {
    d.mapType == 1 && d.keySize == 4 && d.valueSize != 0 && d.maxEntries != 0
  }

  predicate Acceptable(ds: seq<Descriptor>) {
    (forall d | d in ds :: Supported(d)) && Total(ds) <= MAX_MAP_BYTES
  }

  /** Each map starts where the one before it ends. */
  function LayoutAt(ds: seq<Descriptor>, i: nat): MapLayout
    requires Acceptable(ds)
  {
    if i < |ds| then
      TotalOfPrefix(ds, i);
      MapLayout(Total(ds[..i]), Size(ds[i]), ds[i].keySize, ds[i].valueSize)
    else EMPTY_LAYOUT
  }

  function LayoutsOf(ds: seq<Descriptor>): LayoutTable
    requires |ds| <= MAX_MAPS && Acceptable(ds)
  {
    seq(MAX_MAPS, i requires 0 <= i < MAX_MAPS => LayoutAt(ds, i))
  }

  lemma {:induction false} TotalOfPrefix(ds: seq<Descriptor>, i: nat)
    requires i < |ds|
    ensures Total(ds[..i]) + Size(ds[i]) == Total(ds[..i + 1]) <= Total(ds)
    decreases |ds|
  {
    if i == |ds| - 1 {
      assert ds[..i + 1] == ds;
    } else {
      var head := ds[..|ds| - 1];
      assert head[..i] == ds[..i] && head[..i + 1] == ds[..i + 1];
      TotalOfPrefix(head, i);
    }
  }

  // ---- The scan, with the machine's checked arithmetic ----

  function CheckedMul(a: u32, b: u32): Option<u32> {
    if a * b < 0x1_0000_0000 then Some(a * b) else None
  }

  function CheckedAdd(a: u32, b: u32): Option<u32> {
    if a + b < 0x1_0000_0000 then Some(a + b) else None
  }

  /** The running total after one more descriptor, or nothing where the scan gives up. */
  function NextTotal(total: u32, d: Descriptor): Option<u32> {
    var bytes := CheckedMul(d.valueSize, d.maxEntries);
    if bytes.None? then None
    else
      var next := CheckedAdd(total, bytes.value);
      if next.None? || d.mapType != 1 || d.keySize != 4 || d.valueSize == 0 || d.maxEntries == 0
         || next.value > MAX_MAP_BYTES
      then None
      else next
  }

  function Narrowed(total: u32, d: Descriptor): MapLayout {
    MapLayout(Wrap16(total), Wrap16(Size(d)), d.keySize, d.valueSize)
  }

  function ScanFrom(d: Device, base: nat, count: nat, index: nat, total: u32, table: LayoutTable)
    : (Device, Option<LayoutTable>)
    requires index <= count <= MAX_MAPS
    decreases count - index
  {
    if index == count then (d, Some(table))
    else
      var (d', raw) := ReadCells(d, base + DESCRIPTOR_SIZE * index, DESCRIPTOR_SIZE);
      if raw.None? then (d', None)
      else
        var descriptor := Decode(raw.value);
        var next := NextTotal(total, descriptor);
        if next.None? then (d', None)
        else ScanFrom(d', base, count, index + 1, next.value, table[index := Narrowed(total, descriptor)])
  }

  function Scan(d: Device, base: nat, count: nat): (Device, Option<LayoutTable>)
    requires count <= MAX_MAPS
  {
    ScanFrom(d, base, count, 0, 0, NO_LAYOUTS)
  }

  method ScanLayouts(flash: Flash, base: nat, count: nat) returns (table: Option<LayoutTable>)
    requires flash.Valid() && count <= MAX_MAPS
    modifies flash`faults, flash`powered
    ensures (flash.Model(), table) == Scan(old(flash.Model()), base, count)
  {
    hide Decode, NextTotal, Narrowed;
    var total: u32 := 0;
    var layouts: LayoutTable := NO_LAYOUTS;
    for index := 0 to count
      invariant flash.Valid()
      invariant ScanFrom(flash.Model(), base, count, index, total, layouts) == Scan(old(flash.Model()), base, count)
    {
      var raw := flash.Read(base + DESCRIPTOR_SIZE * index, DESCRIPTOR_SIZE);
      if raw.None? {
        return None;
      }
      var descriptor := Decode(raw.value);
      var next := NextTotal(total, descriptor);
      if next.None? {
        return None;
      }
      layouts := layouts[index := Narrowed(total, descriptor)];
      total := next.value;
    }
    return Some(layouts);
  }

  // ---- The scan meets the specification ----

  function DescriptorsAt(bytes: seq<byte>, base: nat, count: nat): (ds: seq<Descriptor>)
    requires base + DESCRIPTOR_SIZE * count <= |bytes|
    ensures |ds| == count
  {
    seq(count, i requires 0 <= i < count =>
      Decode(bytes[base + DESCRIPTOR_SIZE * i..base + DESCRIPTOR_SIZE * i + DESCRIPTOR_SIZE]))
  }

  lemma NextTotalExact(ds: seq<Descriptor>, i: nat)
    requires i < |ds| && Acceptable(ds[..i])
    ensures NextTotal(Total(ds[..i]), ds[i]).Some? <==> Acceptable(ds[..i + 1])
    ensures Acceptable(ds[..i + 1]) ==> NextTotal(Total(ds[..i]), ds[i]) == Some(Total(ds[..i + 1]))
  {
    TotalOfPrefix(ds, i);
    assert ds[..i + 1] == ds[..i] + [ds[i]];
    assert ds[i] in ds[..i + 1];
    assert Size(ds[i]) == ds[i].valueSize * ds[i].maxEntries;
  }

  lemma AcceptablePrefix(ds: seq<Descriptor>, i: nat)
    requires i <= |ds| && Acceptable(ds)
    ensures Acceptable(ds[..i])
  {
    if i < |ds| {
      TotalOfPrefix(ds, i);
    } else {
      assert ds[..i] == ds;
    }
  }

  lemma LayoutsExtend(ds: seq<Descriptor>, i: nat)
    requires i < |ds| <= MAX_MAPS && Acceptable(ds[..i]) && Acceptable(ds[..i + 1])
    ensures LayoutsOf(ds[..i + 1]) == LayoutsOf(ds[..i])[i := Narrowed(Total(ds[..i]), ds[i])]
  {
    var now, next := ds[..i], ds[..i + 1];
    TotalOfPrefix(ds, i);
    forall k | 0 <= k < MAX_MAPS && k != i
      ensures LayoutAt(next, k) == LayoutAt(now, k)
    {
      if k < i {
        assert next[..k] == now[..k];
      }
    }
    assert next[..i] == now;
  }

  /** What a scan of the last `left` of these descriptors comes to: it succeeds exactly if they are
      acceptable and every read works. */
  ghost predicate ScanResult(d: Device, ds: seq<Descriptor>, left: nat, d': Device, r: Option<LayoutTable>)
    requires |ds| <= MAX_MAPS
  {
    && d' == d.(faults := d'.faults, powered := d'.powered)
    && (r.Some? <==> Acceptable(ds) && OpsWork(d, left))
    && (r.Some? ==> r.value == LayoutsOf(ds) && d' == AfterOps(d, left))
    && (Reliable(d) ==> d' == d)
  }

  lemma {:induction false} ScanFromExact(d: Device, base: nat, ds: seq<Descriptor>, i: nat, total: u32,
                                         table: LayoutTable)
    requires i <= |ds| <= MAX_MAPS && base + DESCRIPTOR_SIZE * |ds| <= |d.bytes|
    requires ds == DescriptorsAt(d.bytes, base, |ds|)
    requires Acceptable(ds[..i]) && total == Total(ds[..i]) && table == LayoutsOf(ds[..i])
    ensures var (d', r) := ScanFrom(d, base, |ds|, i, total, table);
      ScanResult(d, ds, |ds| - i, d', r)
    decreases |ds| - i
  {
    hide Total, Size, LayoutsOf, Narrowed, NextTotal, Decode;
    if i == |ds| {
      assert ds[..i] == ds;
    } else {
      var (d', raw) := ReadCells(d, base + DESCRIPTOR_SIZE * i, DESCRIPTOR_SIZE);
      FirstOpWorks(d, |ds| - i);
      if Acceptable(ds) {
        AcceptablePrefix(ds, i + 1);
      }
      NextTotalExact(ds, i);
      if raw.Some? {
        assert Decode(raw.value) == ds[i];
        if NextTotal(total, ds[i]).Some? {
          LayoutsExtend(ds, i);
          ScanFromExact(d', base, ds, i + 1, Total(ds[..i + 1]), table[i := Narrowed(total, ds[i])]);
        }
      }
    }
  }

  /** A scan succeeds exactly if the descriptors are acceptable and every read of one works, and
      then lays their maps out one after the other. */
  lemma ScanExact(d: Device, base: nat, count: nat)
    requires count <= MAX_MAPS && base + DESCRIPTOR_SIZE * count <= |d.bytes|
    ensures var (d', r) := Scan(d, base, count);
      ScanResult(d, DescriptorsAt(d.bytes, base, count), count, d', r)
  {
    var ds := DescriptorsAt(d.bytes, base, count);
    assert ds[..0] == [];
    assert LayoutsOf(ds[..0]) == NO_LAYOUTS;
    ScanFromExact(d, base, ds, 0, 0, NO_LAYOUTS);
  }

  // ---- The same in raw bytes ----

  /** The little-endian number in four bytes. */
  function Field(b: seq<byte>, at: nat): u32
    requires at + 4 <= |b|
  {
    (b[at] as nat) + 0x100 * (b[at + 1] as nat) + 0x1_0000 * (b[at + 2] as nat) + 0x100_0000 * (b[at + 3] as nat)
  }

  /** The bytes of one map: its value size is at 8, its entry count at 12. */
  function RawSize(b: seq<byte>, at: nat): nat
    requires at + 16 <= |b|
  {
    Field(b, at + 8) * Field(b, at + 12)
  }

  /** The bytes of the first maps. */
  function RawTotal(b: seq<byte>, base: nat, count: nat): nat
    requires base + 16 * count <= |b|
  {
    if count == 0 then 0
    else RawTotal(b, base, count - 1) + RawSize(b, base + 16 * (count - 1))
  }

  predicate RawSupported(b: seq<byte>, at: nat)
    requires at + 16 <= |b|
  {
    Field(b, at) == 1 && Field(b, at + 4) == 4 && Field(b, at + 8) != 0 && Field(b, at + 12) != 0
  }

  lemma DecodeFields(b: seq<byte>, at: nat)
    requires at + 16 <= |b|
    ensures Decode(b[at..at + 16]) == Descriptor(Field(b, at), Field(b, at + 4), Field(b, at + 8), Field(b, at + 12))
  {
    hide U32;
    var raw := b[at..at + 16];
    WordValues(raw[0], raw[1], raw[2], raw[3]);
    WordValues(raw[4], raw[5], raw[6], raw[7]);
    WordValues(raw[8], raw[9], raw[10], raw[11]);
    WordValues(raw[12], raw[13], raw[14], raw[15]);
    assert forall i :: 0 <= i < 16 ==> raw[i] == b[at + i];
  }

  lemma SizeRaw(b: seq<byte>, base: nat, count: nat, i: nat)
    requires base + 16 * count <= |b| && i < count
    ensures Size(DescriptorsAt(b, base, count)[i]) == RawSize(b, base + 16 * i)
  {
    hide Decode, Field;
    DecodeFields(b, base + 16 * i);
  }

  lemma {:induction false} TotalRaw(b: seq<byte>, base: nat, count: nat, n: nat)
    requires base + 16 * count <= |b| && n <= count
    ensures Total(DescriptorsAt(b, base, count)[..n]) == RawTotal(b, base, n)
  {
    hide Decode, Field, RawSize;
    if n > 0 {
      var ds := DescriptorsAt(b, base, count);
      assert ds[..n][..n - 1] == ds[..n - 1];
      TotalRaw(b, base, count, n - 1);
      SizeRaw(b, base, count, n - 1);
    }
  }

  lemma DescriptorRaw(b: seq<byte>, base: nat, count: nat, i: nat)
    requires base + 16 * count <= |b| && i < count
    ensures var at, d := base + 16 * i, DescriptorsAt(b, base, count)[i];
      && d == Descriptor(Field(b, at), Field(b, at + 4), Field(b, at + 8), Field(b, at + 12))
      && (Supported(d) <==> RawSupported(b, at))
  {
    hide Decode, Field;
    DecodeFields(b, base + 16 * i);
  }

  lemma AcceptableRaw(b: seq<byte>, base: nat, count: nat)
    requires base + 16 * count <= |b|
    ensures Acceptable(DescriptorsAt(b, base, count))
       <==> RawTotal(b, base, count) <= 1024 && forall i :: 0 <= i < count ==> RawSupported(b, base + 16 * i)
  {
    hide Decode, Field, Supported, RawSupported, RawTotal, Total;
    var ds := DescriptorsAt(b, base, count);
    TotalRaw(b, base, count, count);
    assert ds[..count] == ds;
    if Acceptable(ds) {
      forall i | 0 <= i < count
        ensures RawSupported(b, base + 16 * i)
      {
        DescriptorRaw(b, base, count, i);
        assert ds[i] in ds;
      }
    }
    if forall i :: 0 <= i < count ==> RawSupported(b, base + 16 * i) {
      forall i | 0 <= i < count
        ensures Supported(ds[i])
      {
        DescriptorRaw(b, base, count, i);
        assert RawSupported(b, base + 16 * i);
      }
    }
  }

  /**
   The scan, byte by byte. It succeeds exactly if every descriptor read works, each descriptor holds
   the numbers 1 and 4 and two nonzero numbers, and the products of the latter add up to at most 1024;
   map i then starts at the sum of the products before its own.
   */
  lemma ScanRaw(d: Device, base: nat, count: nat)
    requires count <= MAX_MAPS && base + 16 * count <= |d.bytes|
    ensures var (d', r) := Scan(d, base, count);
      && (r.Some? <==> OpsWork(d, count) && RawTotal(d.bytes, base, count) <= 1024
                       && forall i :: 0 <= i < count ==> RawSupported(d.bytes, base + 16 * i))
      && (r.Some? ==> forall i :: 0 <= i < count ==>
            && r.value[i].offset == RawTotal(d.bytes, base, i)
            && r.value[i].len == Field(d.bytes, base + 16 * i + 8) * Field(d.bytes, base + 16 * i + 12)
            && r.value[i].keySize == Field(d.bytes, base + 16 * i + 4)
            && r.value[i].valueSize == Field(d.bytes, base + 16 * i + 8))
  {
    hide Scan, Decode, Total, Field, RawTotal, Acceptable, RawSupported;
    var ds := DescriptorsAt(d.bytes, base, count);
    ScanExact(d, base, count);
    AcceptableRaw(d.bytes, base, count);
    forall i | 0 <= i < count
      ensures ds[i].keySize == Field(d.bytes, base + 16 * i + 4)
      ensures ds[i].valueSize == Field(d.bytes, base + 16 * i + 8)
      ensures Size(ds[i]) == Field(d.bytes, base + 16 * i + 8) * Field(d.bytes, base + 16 * i + 12)
      ensures Total(ds[..i]) == RawTotal(d.bytes, base, i)
    {
      DescriptorRaw(d.bytes, base, count, i);
      TotalRaw(d.bytes, base, count, i);
    }
  }

  // ---- What the layouts look like ----

  lemma SizePositive(d: Descriptor)
    requires Supported(d)
    ensures Size(d) > 0
  {}

  lemma {:induction false} PrefixesAscend(ds: seq<Descriptor>, i: nat, j: nat)
    requires i < j < |ds|
    ensures Total(ds[..i]) + Size(ds[i]) <= Total(ds[..j])
    decreases j
  {
    TotalOfPrefix(ds, i);
    TotalOfPrefix(ds, j - 1);
    if i < j - 1 {
      PrefixesAscend(ds, i, j - 1);
    }
  }

  predicate Owned(t: LayoutTable, count: nat, b: nat)
    requires count <= MAX_MAPS
  {
    exists i :: 0 <= i < count && t[i].offset <= b < t[i].offset + t[i].len
  }

  /** The maps are nonempty, follow one another without gap or overlap, and end at the total. */
  lemma LayoutsTile(ds: seq<Descriptor>)
    requires |ds| <= MAX_MAPS && Acceptable(ds)
    ensures var t := LayoutsOf(ds);
      && (forall i :: 0 <= i < |ds| ==> t[i].len > 0 && t[i].offset + t[i].len <= Total(ds))
      && (forall i, j :: 0 <= i < j < |ds| ==> t[i].offset + t[i].len <= t[j].offset)
      && (forall b :: 0 <= b < Total(ds) ==> Owned(t, |ds|, b))
  {
    var t := LayoutsOf(ds);
    forall i | 0 <= i < |ds|
      ensures t[i].len > 0 && t[i].offset + t[i].len <= Total(ds)
    {
      SizePositive(ds[i]);
      TotalOfPrefix(ds, i);
    }
    forall i, j | 0 <= i < j < |ds|
      ensures t[i].offset + t[i].len <= t[j].offset
    {
      PrefixesAscend(ds, i, j);
    }
    forall b | 0 <= b < Total(ds)
      ensures Owned(t, |ds|, b)
    {
      assert ds[..|ds|] == ds;
      var i := Owner(ds, b, |ds|);
    }
  }

  lemma {:induction false} Owner(ds: seq<Descriptor>, b: nat, n: nat) returns (i: nat)
    requires n <= |ds| <= MAX_MAPS && Acceptable(ds) && b < Total(ds[..n])
    ensures i < |ds| && LayoutsOf(ds)[i].offset <= b < LayoutsOf(ds)[i].offset + LayoutsOf(ds)[i].len
  {
    TotalOfPrefix(ds, n - 1);
    if Total(ds[..n - 1]) <= b {
      i := n - 1;
    } else {
      i := Owner(ds, b, n - 1);
    }
  }
}
