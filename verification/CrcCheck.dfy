/** The check value of CRC-32/ISO-HDLC, worked out on registers of four machine bytes. */
module CrcCheck {
  import opened Bytes
  import opened Crc32
  import opened MachineBytes

  lemma XorBytes(low: byte, high: nat, low': byte, high': nat)
    ensures Xor(low + 0x100 * high, low' + 0x100 * high') == Xor(low, low') + 0x100 * Xor(high, high')
  {
    XorDigits(low, high, low', high', 8);
    Raise8(1);
    Raise8(high);
    Raise8(high');
    Raise8(Xor(high, high'));
  }

  lemma {:induction false} XorDigits(low: nat, high: nat, low': nat, high': nat, bits: nat)
    requires low < Raise(1, bits) && low' < Raise(1, bits)
    ensures Xor(low + Raise(high, bits), low' + Raise(high', bits)) == Xor(low, low') + Raise(Xor(high, high'), bits)
  {
    hide Xor;
    if bits > 0 {
      var p, l, q, l' := low % 2, low / 2, low' % 2, low' / 2;
      var h, h' := Raise(high, bits - 1), Raise(high', bits - 1);
      XorDigits(l, high, l', high', bits - 1);
      XorDown(p, l + h, q, l' + h');
      XorDown(p, l, q, l');
    } else {
      XorZero(0);
    }
  }

  // ---- The register ----

  /** A register as four machine bytes, highest first. */
  datatype Reg = Reg(b3: bv8, b2: bv8, b1: bv8, b0: bv8)

  function Join(low: byte, rest: nat): nat { low + 0x100 * rest }

  function Value(r: Reg): u32 { Join(Num(r.b0), Join(Num(r.b1), Join(Num(r.b2), Num(r.b3)))) }

  function Halved(r: Reg): Reg {
    Reg(r.b3 >> 1, (r.b2 >> 1) | (r.b3 << 7), (r.b1 >> 1) | (r.b2 << 7), (r.b0 >> 1) | (r.b1 << 7))
  }

  function StepReg(r: Reg): Reg {
    var h := Halved(r);
    if r.b0 & 1 == 0 then h else Reg(h.b3 ^ 0xed, h.b2 ^ 0xb8, h.b1 ^ 0x83, h.b0 ^ 0x20)
  }

  lemma Carry(x: bv8, y: bv8)
    ensures Num((x >> 1) | (y << 7)) == Num(x >> 1) + 0x80 * Num(y & 1)
  {}

  /** When bytes are halved each takes the lowest bit of the one above as its new highest. */
  lemma JoinedHalf(x: bv8, y: bv8, rest: nat, half: nat)
    requires rest == Num(y & 1) + 2 * half
    ensures Join(Num(x), rest) == Num(x & 1) + 2 * Join(Num((x >> 1) | (y << 7)), half)
  {
    hide Num;
    Half(x);
    Carry(x, y);
  }

  lemma HalvedWhole(r: Reg)
    ensures Value(r) == Num(r.b0 & 1) + 2 * Value(Halved(r))
  {
    hide Num, Join;
    var h := Halved(r);
    Half(r.b3);
    JoinedHalf(r.b2, r.b3, Num(r.b3), Num(h.b3));
    JoinedHalf(r.b1, r.b2, Join(Num(r.b2), Num(r.b3)), Join(Num(h.b2), Num(h.b3)));
    JoinedHalf(r.b0, r.b1, Join(Num(r.b1), Join(Num(r.b2), Num(r.b3))), Join(Num(h.b1), Join(Num(h.b2), Num(h.b3))));
  }

  lemma HalvedValue(r: Reg)
    ensures Value(r) % 2 == Num(r.b0 & 1)
    ensures Value(Halved(r)) == Value(r) / 2
  {
    hide Num, Value;
    Half(r.b0);
    HalvedWhole(r);
    EvenAbove(Num(r.b0 & 1), Value(Halved(r)));
  }

  lemma FourXor(x3: byte, x2: byte, x1: byte, x0: byte, y3: byte, y2: byte, y1: byte, y0: byte)
    ensures Xor(x0 + 0x100 * (x1 + 0x100 * (x2 + 0x100 * x3)), y0 + 0x100 * (y1 + 0x100 * (y2 + 0x100 * y3)))
         == Xor(x0, y0) + 0x100 * (Xor(x1, y1) + 0x100 * (Xor(x2, y2) + 0x100 * Xor(x3, y3)))
  {
    hide Xor;
    XorBytes(x2, x3, y2, y3);
    XorBytes(x1, x2 + 0x100 * x3, y1, y2 + 0x100 * y3);
    XorBytes(x0, x1 + 0x100 * (x2 + 0x100 * x3), y0, y1 + 0x100 * (y2 + 0x100 * y3));
  }

  lemma MixedValue(r: Reg, p: Reg)
    ensures Xor(Value(r), Value(p)) == Value(Reg(r.b3 ^ p.b3, r.b2 ^ p.b2, r.b1 ^ p.b1, r.b0 ^ p.b0))
  {
    hide Xor, Num;
    FourXor(Num(r.b3), Num(r.b2), Num(r.b1), Num(r.b0), Num(p.b3), Num(p.b2), Num(p.b1), Num(p.b0));
    MachineXor(r.b0, p.b0);
    MachineXor(r.b1, p.b1);
    MachineXor(r.b2, p.b2);
    MachineXor(r.b3, p.b3);
  }

  lemma PolynomialValue()
    ensures Value(Reg(0xed, 0xb8, 0x83, 0x20)) == 0xedb8_8320
  {}

  lemma StepValue(r: Reg)
    ensures Value(StepReg(r)) == ShiftBit(Value(r))
  {
    hide Num, Value;
    HalvedValue(r);
    assert Num(r.b0 & 1) == 0 <==> r.b0 & 1 == 0 by { Half(r.b0 & 1); }
    if r.b0 & 1 != 0 {
      MixedValue(Halved(r), Reg(0xed, 0xb8, 0x83, 0x20));
      assert Value(Reg(0xed, 0xb8, 0x83, 0x20)) == 0xedb8_8320 by { PolynomialValue(); }
    }
  }

  function FeedReg(r: Reg, b: bv8): Reg {
    var r0 := r.(b0 := r.b0 ^ b);
    StepReg(StepReg(StepReg(StepReg(StepReg(StepReg(StepReg(StepReg(r0))))))))
  }

  lemma FeedKnown(r: Reg, b: bv8)
    ensures Value(FeedReg(r, b)) == Feed(Value(r), Num(b))
  {
    hide StepReg, Value, ShiftBit;
    var r0 := r.(b0 := r.b0 ^ b);
    assert Value(r0) == Xor32(Value(r), Num(b)) by { MixedLow(r, b); }
    var r1 := StepReg(r0);
    var r2 := StepReg(r1);
    var r3 := StepReg(r2);
    var r4 := StepReg(r3);
    var r5 := StepReg(r4);
    var r6 := StepReg(r5);
    var r7 := StepReg(r6);
    StepValue(r0);
    StepValue(r1);
    StepValue(r2);
    StepValue(r3);
    StepValue(r4);
    StepValue(r5);
    StepValue(r6);
    StepValue(r7);
    EightShifts(Value(r0));
  }

  lemma EightShifts(c: u32)
    ensures Shift(c, 8)
         == ShiftBit(ShiftBit(ShiftBit(ShiftBit(ShiftBit(ShiftBit(ShiftBit(ShiftBit(c))))))))
  {
    hide ShiftBit;
    assert Shift(c, 0) == c;
    assert Shift(c, 1) == ShiftBit(Shift(c, 0));
    assert Shift(c, 2) == ShiftBit(Shift(c, 1));
    assert Shift(c, 3) == ShiftBit(Shift(c, 2));
    assert Shift(c, 4) == ShiftBit(Shift(c, 3));
    assert Shift(c, 5) == ShiftBit(Shift(c, 4));
    assert Shift(c, 6) == ShiftBit(Shift(c, 5));
    assert Shift(c, 7) == ShiftBit(Shift(c, 6));
  }

  lemma MixedLow(r: Reg, b: bv8)
    ensures Xor(Value(r), Num(b)) == Value(r.(b0 := r.b0 ^ b))
  {
    MixedValue(r, Reg(0, 0, 0, b));
  }

  const DIGITS: seq<byte> := [0x31, 0x32, 0x33, 0x34, 0x35, 0x36, 0x37, 0x38, 0x39]

  lemma Digit(i: nat, r: Reg, b: bv8, next: Reg)
    requires i < |DIGITS| && DIGITS[i] == Num(b) && Update(INIT, DIGITS[..i]) == Value(r) && FeedReg(r, b) == next
    ensures Update(INIT, DIGITS[..i + 1]) == Value(next)
  {
    hide Feed, FeedReg, Value;
    FeedKnown(r, b);
    assert DIGITS[..i + 1][..i] == DIGITS[..i];
  }

  /** The checksum of the digits "123456789" is the check value the standard gives for this CRC. */
  lemma CheckValue()
    ensures Checksum(DIGITS) == 0xcbf4_3926
  {
    hide Update, Feed, Xor;
    UpdateNone(INIT);
    assert DIGITS[..0] == [];
    Digit(0, Reg(0xff, 0xff, 0xff, 0xff), 0x31, Reg(0x7c, 0x23, 0x10, 0x48));
    Digit(1, Reg(0x7c, 0x23, 0x10, 0x48), 0x32, Reg(0xb0, 0xac, 0xbb, 0x32));
    Digit(2, Reg(0xb0, 0xac, 0xbb, 0x32), 0x33, Reg(0x77, 0xb7, 0x9c, 0x2d));
    Digit(3, Reg(0x77, 0xb7, 0x9c, 0x2d), 0x34, Reg(0x64, 0x1c, 0x1f, 0x5c));
    Digit(4, Reg(0x64, 0x1c, 0x1f, 0x5c), 0x35, Reg(0x34, 0x0a, 0xc5, 0xe3));
    Digit(5, Reg(0x34, 0x0a, 0xc5, 0xe3), 0x36, Reg(0xf6, 0x8d, 0x2c, 0x9e));
    Digit(6, Reg(0xf6, 0x8d, 0x2c, 0x9e), 0x37, Reg(0xaf, 0xfc, 0x96, 0x60));
    Digit(7, Reg(0xaf, 0xfc, 0x96, 0x60), 0x38, Reg(0x65, 0x1f, 0x25, 0x50));
    Digit(8, Reg(0x65, 0x1f, 0x25, 0x50), 0x39, Reg(0x34, 0x0b, 0xc6, 0xd9));
    assert DIGITS[..9] == DIGITS;
    MixedValue(Reg(0x34, 0x0b, 0xc6, 0xd9), Reg(0xff, 0xff, 0xff, 0xff));
  }
}
