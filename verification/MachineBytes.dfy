/** The bitwise operations on numbers are those of the machine on its bytes. */
module MachineBytes {
  import opened Bytes
  import opened NorFlash

  function Num(x: bv8): byte { x as nat }

  lemma Half(x: bv8)
    ensures Num(x) == Num(x & 1) + 2 * Num(x >> 1) && Num(x & 1) < 2
    ensures Num(x) == 0 <==> x == 0
  {}

  lemma MixedHalf(x: bv8, y: bv8)
    ensures Num((x ^ y) & 1) == if Num(x & 1) == Num(y & 1) then 0 else 1
    ensures (x ^ y) >> 1 == (x >> 1) ^ (y >> 1)
  {}

  lemma XorDown(p: nat, x: nat, q: nat, y: nat)
    requires p < 2 && q < 2
    ensures Xor(p + 2 * x, q + 2 * y) == (if p == q then 0 else 1) + 2 * Xor(x, y)
  {
    EvenAbove(p, x);
    EvenAbove(q, y);
    XorParts(p + 2 * x, q + 2 * y);
  }

  lemma {:induction false} MachineXor(x: bv8, y: bv8)
    ensures Xor(Num(x), Num(y)) == Num(x ^ y)
    decreases Num(x) + Num(y)
  {
    hide Xor, Num;
    Half(x);
    Half(y);
    if x == 0 && y == 0 {
      XorZero(0);
    } else {
      XorDown(Num(x & 1), Num(x >> 1), Num(y & 1), Num(y >> 1));
      MachineXor(x >> 1, y >> 1);
      Rejoined(x, y);
    }
  }

  lemma Rejoined(x: bv8, y: bv8)
    ensures Num(x ^ y) == (if Num(x & 1) == Num(y & 1) then 0 else 1) + 2 * Num((x >> 1) ^ (y >> 1))
  {
    hide Num;
    Half(x ^ y);
    MixedHalf(x, y);
  }

  lemma AndDown(p: nat, x: nat, q: nat, y: nat)
    requires p < 2 && q < 2
    ensures And(p + 2 * x, q + 2 * y) == (if p == 1 && q == 1 then 1 else 0) + 2 * And(x, y)
  {
    EvenAbove(p, x);
    EvenAbove(q, y);
  }

  lemma AndNothing()
    ensures And(0, 0) == 0
  {}

  lemma {:induction false} MachineAnd(x: bv8, y: bv8)
    ensures And(Num(x), Num(y)) == Num(x & y)
    decreases Num(x) + Num(y)
  {
    hide And, Num;
    Half(x);
    Half(y);
    if x == 0 && y == 0 {
      AndNothing();
    } else {
      AndDown(Num(x & 1), Num(x >> 1), Num(y & 1), Num(y >> 1));
      MachineAnd(x >> 1, y >> 1);
      AndRejoined(x, y);
    }
  }

  lemma AndRejoined(x: bv8, y: bv8)
    ensures Num(x & y) == (if Num(x & 1) == 1 && Num(y & 1) == 1 then 1 else 0) + 2 * Num((x >> 1) & (y >> 1))
  {
    hide Num;
    Half(x & y);
    AndHalf(x, y);
  }

  lemma AndHalf(x: bv8, y: bv8)
    ensures Num((x & y) & 1) == if Num(x & 1) == 1 && Num(y & 1) == 1 then 1 else 0
    ensures (x & y) >> 1 == (x >> 1) & (y >> 1)
  {}

  lemma OrDown(p: nat, x: nat, q: nat, y: nat)
    requires p < 2 && q < 2
    ensures Or(p + 2 * x, q + 2 * y) == (if p == 1 || q == 1 then 1 else 0) + 2 * Or(x, y)
  {
    EvenAbove(p, x);
    EvenAbove(q, y);
  }

  lemma OrNothing()
    ensures Or(0, 0) == 0
  {}

  lemma {:induction false} MachineOr(x: bv8, y: bv8)
    ensures Or(Num(x), Num(y)) == Num(x | y)
    decreases Num(x) + Num(y)
  {
    hide Or, Num;
    Half(x);
    Half(y);
    if x == 0 && y == 0 {
      OrNothing();
    } else {
      OrDown(Num(x & 1), Num(x >> 1), Num(y & 1), Num(y >> 1));
      MachineOr(x >> 1, y >> 1);
      OrRejoined(x, y);
    }
  }

  lemma OrRejoined(x: bv8, y: bv8)
    ensures Num(x | y) == (if Num(x & 1) == 1 || Num(y & 1) == 1 then 1 else 0) + 2 * Num((x >> 1) | (y >> 1))
  {
    hide Num;
    Half(x | y);
    OrHalf(x, y);
  }

  lemma OrHalf(x: bv8, y: bv8)
    ensures Num((x | y) & 1) == if Num(x & 1) == 1 || Num(y & 1) == 1 then 1 else 0
    ensures (x | y) >> 1 == (x >> 1) | (y >> 1)
  {}

  /** So a programmed cell holds its old bits and the data's, less those a torn run kept. */
  lemma CellProgrammed(bytes: seq<byte>, offset: nat, data: seq<byte>, keep: seq<byte>, i: nat,
                       cell: bv8, sent: bv8, kept: bv8)
    requires offset + |data| <= |bytes| && i < |data|
    requires bytes[offset + i] == Num(cell) && data[i] == Num(sent) && KeptBits(keep, i) == Num(kept)
    ensures Programmed(bytes, offset, data, keep)[offset + i] == Num(cell & (sent | kept))
  {
    hide And, Or, Programmed, Num;
    ProgrammedCell(bytes, offset, data, keep, i);
    MachineOr(sent, kept);
    MachineAnd(cell, sent | kept);
  }
}
