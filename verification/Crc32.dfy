/** CRC-32/ISO-HDLC as the loader computes it, one bit at a time. */
module Crc32 {
  import opened Bytes

  const INIT: u32 := 0xffff_ffff

  function Xor32(a: u32, b: u32): u32 {
    Raise32(1);
    XorBelow(a, b, 32);
    Xor(a, b)
  }

  function ShiftBit(c: u32): u32 {
    if c % 2 != 0 then Xor32(c / 2, 0xedb8_8320) else c / 2
  }

  function Shift(c: u32, bits: nat): u32
    decreases bits, c  // with c in the measure, Shift(_, 8) is not unrolled wherever it occurs
  {
    if bits == 0 then c else ShiftBit(Shift(c, bits - 1))
  }

  function Feed(c: u32, b: byte): u32 { Shift(Xor32(c, b), 8) }

  function Update(c: u32, bytes: seq<byte>): u32 {
    if bytes == [] then c
    else Feed(Update(c, bytes[..|bytes| - 1]), bytes[|bytes| - 1])
  }

  function Finish(c: u32): u32 { Xor32(c, 0xffff_ffff) }

  function Checksum(bytes: seq<byte>): u32 { Finish(Update(INIT, bytes)) }

  method Crc32Update(register: u32, bytes: seq<byte>) returns (crc: u32)
    ensures crc == Update(register, bytes)
  {
    crc := register;
    var index := 0;
    while index < |bytes|
      invariant 0 <= index <= |bytes|
      invariant crc == Update(register, bytes[..index])
    {
      ghost var before := crc;
      crc := Xor32(crc, bytes[index]);
      var bit := 0;
      while bit < 8
        invariant 0 <= bit <= 8
        invariant crc == Shift(Xor32(before, bytes[index]), bit)
      {
        crc := if crc % 2 != 0 then Xor32(crc / 2, 0xedb8_8320) else crc / 2;
        bit := bit + 1;
      }
      assert bytes[..index + 1][..index] == bytes[..index];
      index := index + 1;
    }
    assert bytes[..|bytes|] == bytes;
  }

  /** The register depends only on the bytes fed, never on how they were cut into pieces. */
  lemma {:induction false} UpdateConcat(c: u32, s: seq<byte>, t: seq<byte>)
    ensures Update(c, s + t) == Update(Update(c, s), t)
  {
    if t == [] {
      assert s + t == s;
    } else {
      var head := t[..|t| - 1];
      assert (s + t)[..|s + t| - 1] == s + head;
      UpdateConcat(c, s, head);
    }
  }

  lemma UpdateNone(c: u32)
    ensures Update(c, []) == c
  {}

  lemma UpdateOne(c: u32, b: byte)
    ensures Update(c, [b]) == Feed(c, b)
  {
    assert [b][..0] == [];
  }

  lemma UpdateHead(c: u32, bytes: seq<byte>)
    requires bytes != []
    ensures Update(c, bytes) == Update(Feed(c, bytes[0]), bytes[1..])
  {
    assert bytes == [bytes[0]] + bytes[1..];
    UpdateConcat(c, [bytes[0]], bytes[1..]);
    UpdateOne(c, bytes[0]);
  }

  lemma HoistBit(y: u32, z: nat)
    requires 2 * z < 0x1_0000_0000
    ensures ShiftBit(Xor32(y, 2 * z)) == Xor32(ShiftBit(y), z)
  {
    EvenAbove(0, z);
    XorParts(y, 2 * z);
    XorSwap(y / 2, 0xedb8_8320, z);
  }

  /** Bits mixed in above the low ones come down unchanged after that many shifts. */
  lemma {:induction false} Hoist(x: u32, z: nat, bits: nat)
    requires Raise(z, bits) < 0x1_0000_0000
    ensures z < 0x1_0000_0000
    ensures Shift(Xor32(x, Raise(z, bits)), bits) == Xor32(Shift(x, bits), z)
    decreases bits
  {
    if bits > 0 {
      RaiseMore(z, 1, bits - 1);
      Hoist(x, 2 * z, bits - 1);
      HoistBit(Shift(x, bits - 1), z);
    }
  }

  // ---- The table-driven form of section 8 of RFC 1952 ----

  /** One entry of the table as the RFC computes it: eight steps with the reflected polynomial. */
  function TableEntry(c: u32, steps: nat): u32 {
    if steps == 0 then c
    else
      var halved := TableEntry(c, steps - 1);
      if halved % 2 == 1 then Xor32(0xedb8_8320, halved / 2) else halved / 2
  }

  lemma {:induction false} TableEntryIsShift(c: u32, steps: nat)
    ensures TableEntry(c, steps) == Shift(c, steps)
    decreases steps
  {
    if steps > 0 {
      TableEntryIsShift(c, steps - 1);
      XorComm(0xedb8_8320, TableEntry(c, steps - 1) / 2);
    }
  }

  function TableUpdate(c: u32, bytes: seq<byte>): u32
    decreases |bytes|
  {
    if bytes == [] then c
    else
      TableUpdate(Xor32(TableEntry(Xor32(c, bytes[0]) % 0x100, 8), c / 0x100), bytes[1..])
  }

  function Rfc1952Crc(bytes: seq<byte>): u32 {
    Xor32(TableUpdate(Xor32(0, 0xffff_ffff), bytes), 0xffff_ffff)
  }

  lemma MixLow(b: byte, low: byte, high: nat)
    ensures Xor(b, low) < 0x100
    ensures Xor(b, low + Raise(high, 8)) == Xor(b, low) + Raise(high, 8)
    ensures Xor(b, low + Raise(high, 8)) == Xor(Xor(b, low), Raise(high, 8))
  {
    Raise8(1);
    XorBelow(b, low, 8);
    XorSplit(b, low, high, 8);
    XorSplit(0, Xor(b, low), high, 8);
    ZeroXor(Xor(b, low));
    ZeroXor(Xor(b, low) + Raise(high, 8));
  }

  /** A byte changes only the low eight bits of the register it is mixed into. */
  lemma MixedByte(c: u32, b: byte)
    ensures Xor32(c, b) / 0x100 == c / 0x100
    ensures Xor32(c, b) == Xor(Xor32(c, b) % 0x100, Raise(c / 0x100, 8))
  {
    var low, high := c % 0x100, c / 0x100;
    assert Raise(high, 8) == 0x100 * high && c == low + 0x100 * high by { Raise8(high); }
    XorComm(c, b);
    MixLow(b, low, high);
    LowByteDetermined(Xor(b, low), high, Xor(c, b) % 0x100, Xor(c, b) / 0x100);
  }

  lemma FeedByTable(c: u32, b: byte)
    ensures Feed(c, b) == Xor32(TableEntry(Xor32(c, b) % 0x100, 8), c / 0x100)
  {
    TableEntryIsShift(Xor32(c, b) % 0x100, 8);
    MixedByte(c, b);
    Raise8(c / 0x100);
    Hoist(Xor32(c, b) % 0x100, c / 0x100, 8);
  }

  lemma {:induction false} UpdateIsTableUpdate(c: u32, bytes: seq<byte>)
    ensures Update(c, bytes) == TableUpdate(c, bytes)
    decreases |bytes|
  {
    if bytes != [] {
      FeedByTable(c, bytes[0]);
      UpdateHead(c, bytes);
      UpdateIsTableUpdate(Feed(c, bytes[0]), bytes[1..]);
    }
  }

  /** The loader's checksum is the CRC of RFC 1952. */
  lemma ChecksumIsRfc1952(bytes: seq<byte>)
    ensures Checksum(bytes) == Rfc1952Crc(bytes)
  {
    ZeroXor(0xffff_ffff);
    UpdateIsTableUpdate(INIT, bytes);
  }

  // ---- Burst detection ----

  lemma {:induction false} XorTop(a: nat, b: nat, bits: nat)
    requires a < Raise(1, bits) <= b
    ensures Xor(a, b) >= Raise(1, bits)
  {
    if bits == 0 {
      ZeroXor(b);
    } else {
      XorTop(a / 2, b / 2, bits - 1);
    }
  }

  lemma ShiftBitInjective(x: u32, y: u32)
    requires ShiftBit(x) == ShiftBit(y)
    ensures x == y
  {
    Raise32(1);
    XorTop(x / 2, 0xedb8_8320, 31);
    XorTop(y / 2, 0xedb8_8320, 31);
    if x % 2 != 0 && y % 2 != 0 {
      XorCancel(x / 2, y / 2, 0xedb8_8320);
    }
  }

  lemma {:induction false} ShiftInjective(x: u32, y: u32, bits: nat)
    requires Shift(x, bits) == Shift(y, bits)
    ensures x == y
  {
    if bits > 0 {
      ShiftBitInjective(Shift(x, bits - 1), Shift(y, bits - 1));
      ShiftInjective(x, y, bits - 1);
    }
  }

  // Messages as bit strings, each byte lowest bit first: the order in which the register takes them.

  type bit = n: nat | n < 2

  function ByteBits(b: nat, count: nat): (bits: seq<bit>)
    ensures |bits| == count
    decreases count, b
  {
    if count == 0 then [] else [b % 2] + ByteBits(b / 2, count - 1)
  }

  function BitsOf(bytes: seq<byte>): (bits: seq<bit>)
    ensures |bits| == 8 * |bytes|
  {
    if bytes == [] then [] else BitsOf(bytes[..|bytes| - 1]) + ByteBits(bytes[|bytes| - 1], 8)
  }

  function Number(bits: seq<bit>): nat { if bits == [] then 0 else bits[0] + 2 * Number(bits[1..]) }

  function UpdateBits(c: u32, bits: seq<bit>): u32
    decreases |bits|
  {
    if bits == [] then c else UpdateBits(ShiftBit(Xor32(c, bits[0])), bits[1..])
  }

  lemma {:induction false} NumberOfBits(b: nat, count: nat)
    requires b < Raise(1, count)
    ensures Number(ByteBits(b, count)) == b
  {
    if count > 0 {
      NumberOfBits(b / 2, count - 1);
      assert ByteBits(b, count)[1..] == ByteBits(b / 2, count - 1);
    }
  }

  lemma {:induction false} NumberInjective(v: seq<bit>, w: seq<bit>)
    requires |v| == |w| && Number(v) == Number(w)
    ensures v == w
  {
    if v != [] {
      EvenAbove(v[0], Number(v[1..]));
      EvenAbove(w[0], Number(w[1..]));
      NumberInjective(v[1..], w[1..]);
    }
  }

  lemma {:induction false} NumberBelow(bits: seq<bit>)
    ensures Number(bits) < Raise(1, |bits|)
  {
    if bits != [] {
      NumberBelow(bits[1..]);
    }
  }

  lemma {:induction false} ShiftFirst(c: u32, bits: nat)
    requires bits > 0
    ensures Shift(c, bits) == Shift(ShiftBit(c), bits - 1)
  {
    if bits > 1 {
      ShiftFirst(c, bits - 1);
    }
  }

  /** Bits fed one at a time act as one word mixed in at once. */
  lemma {:induction false} UpdateByWord(c: u32, bits: seq<bit>)
    requires Number(bits) < 0x1_0000_0000
    ensures UpdateBits(c, bits) == Shift(Xor32(c, Number(bits)), |bits|)
    decreases |bits|
  {
    hide ShiftBit;
    if bits == [] {
      XorZero(c);
    } else {
      var rest := Number(bits[1..]);
      SplitLowest(c, bits[0], rest);
      HoistBit(Xor32(c, bits[0]), rest);
      UpdateByWord(ShiftBit(Xor32(c, bits[0])), bits[1..]);
      ShiftFirst(Xor32(c, Number(bits)), |bits|);
    }
  }

  lemma SplitLowest(c: u32, low: bit, rest: nat)
    ensures Xor(c, low + 2 * rest) == Xor(Xor(c, low), 2 * rest)
  {
    assert Raise(1, 1) == 2 && Raise(rest, 1) == 2 * rest;
    XorSplit(c, low, rest, 1);
  }

  lemma {:induction false} BitsConcat(c: u32, v: seq<bit>, w: seq<bit>)
    ensures UpdateBits(c, v + w) == UpdateBits(UpdateBits(c, v), w)
    decreases |v|
  {
    if v == [] {
      assert v + w == w;
    } else {
      assert (v + w)[1..] == v[1..] + w;
      BitsConcat(ShiftBit(Xor32(c, v[0])), v[1..], w);
    }
  }

  /** The register takes a message bit by bit. */
  lemma {:induction false} UpdateByBits(c: u32, bytes: seq<byte>)
    ensures Update(c, bytes) == UpdateBits(c, BitsOf(bytes))
  {
    if bytes != [] {
      var head, last := bytes[..|bytes| - 1], bytes[|bytes| - 1];
      UpdateByBits(c, head);
      BitsConcat(c, BitsOf(head), ByteBits(last, 8));
      Raise8(1);
      NumberOfBits(last, 8);
      UpdateByWord(Update(c, head), ByteBits(last, 8));
    }
  }

  lemma {:induction false} BitsInjective(s: seq<byte>, t: seq<byte>)
    requires |s| == |t| && BitsOf(s) == BitsOf(t)
    ensures s == t
  {
    if s != [] {
      var last := |s| - 1;
      assert BitsOf(s)[..8 * last] == BitsOf(s[..last]) && BitsOf(t)[..8 * last] == BitsOf(t[..last]);
      assert BitsOf(s)[8 * last..] == ByteBits(s[last], 8) && BitsOf(t)[8 * last..] == ByteBits(t[last], 8);
      BitsInjective(s[..last], t[..last]);
      Raise8(1);
      NumberOfBits(s[last], 8);
      NumberOfBits(t[last], 8);
      assert s == s[..last] + [s[last]] && t == t[..last] + [t[last]];
    }
  }

  /** Feeding equal bits never merges two different registers. */
  lemma {:induction false} UpdateInjective(c: u32, d: u32, bits: seq<bit>)
    requires UpdateBits(c, bits) == UpdateBits(d, bits)
    ensures c == d
    decreases |bits|
  {
    hide ShiftBit;
    if bits != [] {
      UpdateInjective(ShiftBit(Xor32(c, bits[0])), ShiftBit(Xor32(d, bits[0])), bits[1..]);
      ShiftBitInjective(Xor32(c, bits[0]), Xor32(d, bits[0]));
      XorCancel(c, d, bits[0]);
    }
  }

  lemma WordDetermined(c: u32, v: seq<bit>, w: seq<bit>, tail: seq<bit>)
    requires |v| == |w| == 32
    requires UpdateBits(UpdateBits(c, v), tail) == UpdateBits(UpdateBits(c, w), tail)
    ensures v == w
  {
    UpdateInjective(UpdateBits(c, v), UpdateBits(c, w), tail);
    Raise32(1);
    NumberBelow(v);
    NumberBelow(w);
    UpdateByWord(c, v);
    UpdateByWord(c, w);
    ShiftInjective(Xor32(c, Number(v)), Xor32(c, Number(w)), 32);
    XorCancelLeft(c, Number(v), Number(w));
    NumberInjective(v, w);
  }

  lemma UpdateWindow(c: u32, v: seq<bit>, at: nat)
    requires at + 32 <= |v|
    ensures UpdateBits(c, v)
         == UpdateBits(UpdateBits(UpdateBits(c, v[..at]), v[at..at + 32]), v[at + 32..])
  {
    assert v == v[..at] + (v[at..at + 32] + v[at + 32..]);
    BitsConcat(c, v[..at], v[at..at + 32] + v[at + 32..]);
    BitsConcat(UpdateBits(c, v[..at]), v[at..at + 32], v[at + 32..]);
  }

  /** The bit strings agree everywhere except, perhaps, in 32 consecutive bits. */
  predicate WithinBurst(s: seq<byte>, t: seq<byte>, at: nat) {
    && |s| == |t| && at + 32 <= 8 * |s|
    && forall i :: 0 <= i < 8 * |s| && !(at <= i < at + 32) ==> BitsOf(s)[i] == BitsOf(t)[i]
  }

  /** Two messages that differ only inside 32 consecutive bits, wherever these lie across up to five
      bytes, never share a checksum. */
  lemma BurstChangesChecksum(s: seq<byte>, t: seq<byte>, at: nat)
    requires WithinBurst(s, t, at) && s != t
    ensures Checksum(s) != Checksum(t)
  {
    hide BitsOf, Update, UpdateBits;
    var v, w := BitsOf(s), BitsOf(t);
    assert v[..at] == w[..at] && v[at + 32..] == w[at + 32..];
    UpdateByBits(INIT, s);
    UpdateByBits(INIT, t);
    if Checksum(s) == Checksum(t) {
      XorCancel(Update(INIT, s), Update(INIT, t), 0xffff_ffff);
      UpdateWindow(INIT, v, at);
      UpdateWindow(INIT, w, at);
      WordDetermined(UpdateBits(INIT, v[..at]), v[at..at + 32], w[at..at + 32], v[at + 32..]);
      assert v == v[..at] + v[at..at + 32] + v[at + 32..];
      assert w == w[..at] + w[at..at + 32] + w[at + 32..];
      BitsInjective(s, t);
    }
  }
}
