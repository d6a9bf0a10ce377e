/** The flash image: a 16-byte header, the bytecode, then the map descriptors. */
module ImageFormat {
  import opened Bytes
  import opened MapLayouts
  import opened NorFlash
  import Crc32

  const SLOT := 0x6000
  const SLOT_SIZE := 8192
  const HEADER_SIZE := 16
  const DATA := SLOT + HEADER_SIZE
  const MARKER := SLOT + 12
  const MAX_BYTECODE := 7680

  /** What a Begin request declares about the image to come. */
  datatype Declared = Declared(bytecodeLen: u16, mapCount: MapCount, crc: u32)

  datatype Image = Image(declared: Declared, payload: seq<byte>)

  function ImageLen(bytecodeLen: u16, mapCount: byte): nat { bytecodeLen + mapCount * DESCRIPTOR_SIZE }

  predicate Fits(bytecodeLen: u16, mapCount: byte) {
    && bytecodeLen != 0
    && bytecodeLen <= MAX_BYTECODE
    && bytecodeLen % 8 == 0
    && mapCount <= MAX_MAPS
    && ImageLen(bytecodeLen, mapCount) + HEADER_SIZE <= SLOT_SIZE
  }

  function LengthOf(declared: Declared): nat { ImageLen(declared.bytecodeLen, declared.mapCount) }

  predicate Sized(declared: Declared) { Fits(declared.bytecodeLen, declared.mapCount) }

  function ErasedEnd(imageLen: nat): nat { SLOT + (HEADER_SIZE + imageLen + PAGE - 1) / PAGE * PAGE }

  /** The erased pages hold the whole image, stay inside the reserved slot, and are no more than needed. */
  lemma ErasedPages(imageLen: nat)
    requires imageLen + HEADER_SIZE <= SLOT_SIZE
    ensures DATA + imageLen <= ErasedEnd(imageLen) <= SLOT + SLOT_SIZE
    ensures ErasedEnd(imageLen) < DATA + imageLen + PAGE
    ensures ErasedEnd(imageLen) % PAGE == 0 && SLOT % PAGE == 0
  {}

  lemma SizedExtent(declared: Declared)
    requires Sized(declared)
    ensures 8 <= LengthOf(declared) && LengthOf(declared) + HEADER_SIZE <= SLOT_SIZE
    ensures DATA + LengthOf(declared) <= ErasedEnd(LengthOf(declared)) <= SLOT + SLOT_SIZE <= FLASH_SIZE
    ensures declared.bytecodeLen + DESCRIPTOR_SIZE * declared.mapCount == LengthOf(declared)
  {
    ErasedPages(LengthOf(declared));
  }

  const MAGIC: seq<byte> := [0x4f, 0x42, 0x50, 0x46]

  function Header(declared: Declared, marker: byte): (h: seq<byte>)
    ensures |h| == HEADER_SIZE && IsHeader(h, declared, marker)
  {
    MAGIC + [1, declared.mapCount] + U16Bytes(declared.bytecodeLen) + U32Bytes(declared.crc)
    + [marker, marker, 0xff, 0xff]
  }

  /** The same layout read field by field; it determines all sixteen bytes. */
  predicate IsHeader(h: seq<byte>, declared: Declared, marker: byte)
    requires |h| == HEADER_SIZE
  {
    && h[..4] == MAGIC
    && h[4] == 1
    && h[5] == declared.mapCount
    && U16(h[6], h[7]) == declared.bytecodeLen
    && U32(h[8], h[9], h[10], h[11]) == declared.crc
    && h[12] == marker && h[13] == marker
    && h[14..] == [0xff, 0xff]
  }

  lemma HeaderDetermined(h: seq<byte>, declared: Declared, marker: byte)
    requires |h| == HEADER_SIZE && IsHeader(h, declared, marker)
    ensures h == Header(declared, marker)
  {
    U16Determined(h[6], h[7], declared.bytecodeLen);
    U32Determined(h[8], h[9], h[10], h[11], declared.crc);
    assert h == h[..4] + [h[4], h[5]] + [h[6], h[7]] + [h[8], h[9], h[10], h[11]] + [h[12], h[13]] + h[14..];
  }

  function ParseHeader(h: seq<byte>): (r: Option<Declared>)
    requires |h| == HEADER_SIZE
    ensures r.Some? ==> Sized(r.value)
  {
    if h[..4] != MAGIC || h[4] != 1 || U16(h[12], h[13]) != 0 || h[14..] != [0xff, 0xff] then None
    else if !Fits(U16(h[6], h[7]), h[5]) then None
    else Some(Declared(U16(h[6], h[7]), h[5], U32(h[8], h[9], h[10], h[11])))
  }

  lemma ParseHeaderByField(h: seq<byte>, declared: Declared)
    requires |h| == HEADER_SIZE
    ensures ParseHeader(h) == Some(declared) <==> Sized(declared) && IsHeader(h, declared, 0)
  {
    hide Fits, U16, U32;
    U16Zero(h[12], h[13]);
  }

  /** The boot check accepts exactly the headers of well-sized images whose marker was programmed. */
  lemma ParseHeaderExact(h: seq<byte>, declared: Declared)
    requires |h| == HEADER_SIZE
    ensures ParseHeader(h) == Some(declared) <==> Sized(declared) && h == Header(declared, 0)
  {
    hide ParseHeader, IsHeader, Header;
    ParseHeaderByField(h, declared);
    if IsHeader(h, declared, 0) {
      HeaderDetermined(h, declared, 0);
    }
  }

  // ---- The same in raw bytes ----

  /** The little-endian number in two bytes. */
  function Half(b: seq<byte>, at: nat): u16
    requires at + 2 <= |b|
  {
    (b[at] as nat) + 0x100 * (b[at + 1] as nat)
  }

  predicate RawFits(length: nat, maps: nat) { length % 8 == 0 && 8 <= length <= 7680 && maps <= 8 }

  lemma FitsRaw(length: u16, maps: byte)
    ensures Fits(length, maps) <==> RawFits(length, maps)
  {}

  /** The boot check, byte by byte: "OBPF", version 1, at most 8 maps, a length that is a multiple of 8
      from 8 to 7680, a zero marker and erased reserved bytes. */
  lemma ParseHeaderRaw(h: seq<byte>)
    requires |h| == 16
    ensures ParseHeader(h).Some?
       <==> && h[0] == 0x4f && h[1] == 0x42 && h[2] == 0x50 && h[3] == 0x46 && h[4] == 1
            && RawFits(Half(h, 6), h[5])
            && h[12] == 0 && h[13] == 0 && h[14] == 0xff && h[15] == 0xff
    ensures ParseHeader(h).Some? ==> ParseHeader(h).value == Declared(Half(h, 6), h[5], Field(h, 8))
  {
    hide Fits, RawFits, U16, U32, Half, Field;
    WordHere(h, 6);
    WordHere(h, 8);
    FitsRaw(U16(h[6], h[7]), h[5]);
    U16Zero(h[12], h[13]);
    assert h[..4] == MAGIC <==> h[0] == 0x4f && h[1] == 0x42 && h[2] == 0x50 && h[3] == 0x46 by {
      assert h[..4] == [h[0], h[1], h[2], h[3]];
    }
    assert h[14..] == [h[14], h[15]];
  }

  lemma WordHere(b: seq<byte>, at: nat)
    requires at + 2 <= |b|
    ensures U16(b[at], b[at + 1]) == Half(b, at)
    ensures at + 4 <= |b| ==> U32(b[at], b[at + 1], b[at + 2], b[at + 3]) == Field(b, at)
  {
    WordValues(b[at], b[at + 1], 0, 0);
    if at + 4 <= |b| {
      WordValues(b[at], b[at + 1], b[at + 2], b[at + 3]);
    }
  }

  /** The header Begin writes, byte by byte. */
  lemma HeaderRaw(declared: Declared, marker: byte)
    ensures var (n, c) := (declared.bytecodeLen, declared.crc);
      Header(declared, marker)
      == [0x4f, 0x42, 0x50, 0x46, 1, declared.mapCount, n % 0x100, n / 0x100,
          c % 0x100, c / 0x100 % 0x100, c / 0x100 / 0x100 % 0x100, c / 0x100 / 0x100 / 0x100,
          marker, marker, 0xff, 0xff]
  {
    hide U16Bytes, U32Bytes;
    WordBytes(declared.bytecodeLen, declared.crc);
  }

  /** Where an image lies: its header at 0x6000, its marker at 0x600c, its data from 0x6010, and one or
      two pages of 4096 bytes erased for it. */
  lemma SlotRaw(imageLen: nat)
    requires imageLen + 16 <= 8192
    ensures SLOT == 0x6000 && MARKER == 0x600c && DATA == 0x6010 && PAGE == 4096
    ensures SLOT_SIZE == 8192 && FLASH_SIZE == 32768
    ensures ErasedEnd(imageLen) == if imageLen + 16 <= 4096 then 0x7000 else 0x8000
  {}

  function Descriptors(image: Image): (ds: seq<Descriptor>)
    requires |image.payload| == LengthOf(image.declared)
    ensures |ds| == image.declared.mapCount
  {
    DescriptorsAt(image.payload, image.declared.bytecodeLen, image.declared.mapCount)
  }

  /** Complete, of an allowed size, matching its declared CRC, with maps that fit the backing store. */
  predicate Vetted(image: Image) {
    && Sized(image.declared)
    && |image.payload| == LengthOf(image.declared)
    && Crc32.Checksum(image.payload) == image.declared.crc
    && Acceptable(Descriptors(image))
  }

  /** The image the flash contents amount to, if any. */
  function Stored(bytes: seq<byte>): (r: Option<Image>)
    requires |bytes| == FLASH_SIZE
    ensures r.Some? ==> Vetted(r.value)
  {
    var declared := ParseHeader(bytes[SLOT..DATA]);
    if declared.None? then None
    else
      var image := Image(declared.value, bytes[DATA..DATA + LengthOf(declared.value)]);
      if Vetted(image) then Some(image) else None
  }

  lemma StoredExact(bytes: seq<byte>, image: Image)
    requires |bytes| == FLASH_SIZE
    ensures Stored(bytes) == Some(image)
       <==> Vetted(image) && IsHeader(bytes[SLOT..DATA], image.declared, 0)
            && bytes[DATA..DATA + |image.payload|] == image.payload
  {
    hide ParseHeader, IsHeader, Fits, Crc32.Checksum, Acceptable;
    ParseHeaderByField(bytes[SLOT..DATA], image.declared);
  }

  /** A slot whose marker halfword is not zero holds no image. */
  lemma UnmarkedSlot(bytes: seq<byte>)
    requires |bytes| == FLASH_SIZE && (bytes[MARKER] != 0 || bytes[MARKER + 1] != 0)
    ensures Stored(bytes) == None
  {
    hide Fits, U16, U32, Vetted;
    U16Zero(bytes[SLOT..DATA][12], bytes[SLOT..DATA][13]);
  }

  /** The descriptors read in place are those of the payload. */
  lemma DescriptorsInPlace(bytes: seq<byte>, image: Image)
    requires DATA + |image.payload| <= |bytes| && |image.payload| == LengthOf(image.declared)
    requires bytes[DATA..DATA + |image.payload|] == image.payload
    ensures DescriptorsAt(bytes, DATA + image.declared.bytecodeLen, image.declared.mapCount) == Descriptors(image)
  {
    hide Decode;
    var base := image.declared.bytecodeLen;
    forall i | 0 <= i < image.declared.mapCount
      ensures bytes[DATA + base + 16 * i..DATA + base + 16 * i + 16] == image.payload[base + 16 * i..base + 16 * i + 16]
    {
      SliceOfSlice(bytes, DATA, |image.payload|, base + 16 * i, base + 16 * i + 16);
    }
  }
}
