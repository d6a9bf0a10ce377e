/** Bytes, machine words, their little-endian encodings and their bitwise operations. */
module Bytes {
  type byte = n: nat | n < 0x100
  type u16 = n: nat | n < 0x1_0000
  type u32 = n: nat | n < 0x1_0000_0000

  datatype Option<+T> = None | Some(value: T)

  /** A value, or the status code that says why there is none. */
  datatype Result<+T> = Ok(value: T) | Err(status: byte)

  /** A cast to 16 bits. */
  function Wrap16(n: nat): u16 { if n < 0x1_0000 then n else n % 0x1_0000 }

  /** The number that bytes stand for, lowest byte first. */
  function Little(bytes: seq<byte>): nat {
    if bytes == [] then 0 else bytes[0] + 0x100 * Little(bytes[1..])
  }

  function LittleBytes(n: nat, count: nat): (s: seq<byte>)
    ensures |s| == count
    decreases count, n  // with n in the measure, a constant count is not unrolled wherever it occurs
  {
    if count == 0 then [] else [n % 0x100] + LittleBytes(n / 0x100, count - 1)
  }

  lemma TwoBytes(lo: byte, hi: byte)
    ensures Little([lo, hi]) == lo + 0x100 * hi
  {
    var v: seq<byte> := [lo, hi];
    assert v[1..] == [hi] && v[1..][1..] == [];
    assert Little([hi]) == hi;
  }

  lemma FourBytes(a: byte, b: byte, c: byte, d: byte)
    ensures Little([a, b, c, d]) == a + 0x100 * (b + 0x100 * (c + 0x100 * d))
  {
    var v: seq<byte> := [a, b, c, d];
    assert v[1..] == [b, c, d] && v[1..][1..] == [c, d];
    assert Little(v[1..]) == b + 0x100 * Little([c, d]);
    TwoBytes(c, d);
  }

  function U16(lo: byte, hi: byte): u16 {
    TwoBytes(lo, hi);
    Little([lo, hi])
  }

  function U32(a: byte, b: byte, c: byte, d: byte): u32 {
    FourBytes(a, b, c, d);
    Little([a, b, c, d])
  }

  function U16Bytes(n: u16): (s: seq<byte>)
    ensures |s| == 2 && U16(s[0], s[1]) == n
  {
    TwoSplit(n);
    LittleBytes(n, 2)
  }

  function U32Bytes(n: u32): (s: seq<byte>)
    ensures |s| == 4 && U32(s[0], s[1], s[2], s[3]) == n
  {
    FourSplit(n);
    LittleBytes(n, 4)
  }

  lemma TwoSplit(n: u16)
    ensures var s := LittleBytes(n, 2); Little([s[0], s[1]]) == n
  {
    var s := LittleBytes(n, 2);
    assert s[1..] == LittleBytes(n / 0x100, 1);
    TwoBytes(s[0], s[1]);
  }

  lemma FourSplit(n: u32)
    ensures var s := LittleBytes(n, 4); Little([s[0], s[1], s[2], s[3]]) == n
  {
    var s, b1 := LittleBytes(n, 4), n / 0x100;
    var b2, b3 := b1 / 0x100, b1 / 0x100 / 0x100;
    assert s[1..] == LittleBytes(b1, 3);
    assert s[1..][1..] == LittleBytes(b2, 2);
    assert s[1..][1..][1..] == LittleBytes(b3, 1);
    FourBytes(s[0], s[1], s[2], s[3]);
  }

  lemma LowByteDetermined(a: byte, r: nat, b: byte, q: nat)
    requires a + 0x100 * r == b + 0x100 * q
    ensures a == b && r == q
  {}

  /** Bytes are determined by their number and count. */
  lemma {:induction false} LittleInjective(v: seq<byte>, w: seq<byte>)
    requires |v| == |w| && Little(v) == Little(w)
    ensures v == w
  {
    if v != [] {
      LowByteDetermined(v[0], Little(v[1..]), w[0], Little(w[1..]));
      LittleInjective(v[1..], w[1..]);
    }
  }

  /** Words are little-endian, in numbers alone. */
  lemma WordValues(a: byte, b: byte, c: byte, d: byte)
    ensures U16(a, b) == a + 0x100 * b
    ensures U32(a, b, c, d) == a + 0x100 * b + 0x1_0000 * c + 0x100_0000 * d
  {
    TwoBytes(a, b);
    FourBytes(a, b, c, d);
  }

  lemma WordBytes(n: u16, m: u32)
    ensures U16Bytes(n) == [n % 0x100, n / 0x100]
    ensures U32Bytes(m) == [m % 0x100, m / 0x100 % 0x100, m / 0x100 / 0x100 % 0x100, m / 0x100 / 0x100 / 0x100]
  {
    var s, t := U16Bytes(n), U32Bytes(m);
    WordValues(s[0], s[1], 0, 0);
    FourBytes(t[0], t[1], t[2], t[3]);
    LowByteDetermined(s[0], s[1], n % 0x100, n / 0x100);
    var m1, t3: nat := m / 0x100, t[3];
    var t2 := t[2] + 0x100 * t3;
    var m2 := m1 / 0x100;
    LowByteDetermined(t[0], t[1] + 0x100 * t2, m % 0x100, m1);
    LowByteDetermined(t[1], t2, m1 % 0x100, m2);
    LowByteDetermined(t[2], t3, m2 % 0x100, m2 / 0x100);
  }

  lemma U16Zero(lo: byte, hi: byte)
    ensures U16(lo, hi) == 0 <==> lo == 0 && hi == 0
  {
    TwoBytes(lo, hi);
  }

  lemma U16Determined(lo: byte, hi: byte, n: u16)
    requires U16(lo, hi) == n
    ensures U16Bytes(n) == [lo, hi]
  {
    var s := U16Bytes(n);
    LittleInjective([s[0], s[1]], [lo, hi]);
  }

  lemma U32Determined(a: byte, b: byte, c: byte, d: byte, n: u32)
    requires U32(a, b, c, d) == n
    ensures U32Bytes(n) == [a, b, c, d]
  {
    var s := U32Bytes(n);
    LittleInjective([s[0], s[1], s[2], s[3]], [a, b, c, d]);
  }

  /** Evenness by counting down in twos, which the verifier handles better than remainders. */
  predicate Even(n: nat) { if n < 2 then n == 0 else Even(n - 2) }

  lemma {:induction false} EvenRemainder(n: nat)
    ensures Even(n) <==> n % 2 == 0
  {
    if n >= 2 {
      EvenRemainder(n - 2);
    }
  }

  lemma EvenSum(a: nat, b: nat)
    requires Even(a) && Even(b)
    ensures Even(a + b) && (a + b) % 2 == 0
  {
    EvenRemainder(a);
    EvenRemainder(b);
    EvenRemainder(a + b);
  }

  /** Multiples of the same size are in order and a whole size apart. */
  lemma {:induction false} Multiples(i: nat, j: nat, size: nat)
    ensures i <= j ==> i * size <= j * size
    ensures i < j ==> i * size + size <= j * size
  {
    if i < j {
      Multiples(i, j - 1, size);
      assert j * size == (j - 1) * size + size;
    }
  }

  // ---- Bitwise operations on naturals, one bit at a time ----

  function Xor(a: nat, b: nat): nat {
    if a == 0 && b == 0 then 0
    else (if a % 2 == b % 2 then 0 else 1) + 2 * Xor(a / 2, b / 2)
  }

  function And(a: nat, b: nat): (r: nat)
    ensures r <= a && r <= b
  {
    if a == 0 || b == 0 then 0
    else (if a % 2 == 1 && b % 2 == 1 then 1 else 0) + 2 * And(a / 2, b / 2)
  }

  function Or(a: nat, b: nat): nat {
    if a == 0 && b == 0 then 0
    else (if a % 2 == 1 || b % 2 == 1 then 1 else 0) + 2 * Or(a / 2, b / 2)
  }

  /** `n` shifted left by `bits`. */
  function Raise(n: nat, bits: nat): nat {
    if bits == 0 then n else 2 * Raise(n, bits - 1)
  }

  lemma Raise8(n: nat)
    ensures Raise(n, 8) == 0x100 * n
  {
    assert Raise(n, 1) == 2 * n;
    assert Raise(n, 2) == 4 * n;
    assert Raise(n, 3) == 8 * n;
    assert Raise(n, 4) == 16 * n;
    assert Raise(n, 5) == 32 * n;
    assert Raise(n, 6) == 64 * n;
    assert Raise(n, 7) == 128 * n;
  }

  lemma {:induction false} RaiseMore(n: nat, a: nat, b: nat)
    ensures Raise(Raise(n, a), b) == Raise(n, a + b)
  {
    if b > 0 {
      RaiseMore(n, a, b - 1);
    }
  }

  lemma Raise32(n: nat)
    ensures Raise(n, 32) == 0x1_0000_0000 * n
  {
    Raise8(n);
    RaiseMore(n, 8, 8);
    Raise8(Raise(n, 8));
    RaiseMore(n, 16, 8);
    Raise8(Raise(n, 16));
    RaiseMore(n, 24, 8);
    Raise8(Raise(n, 24));
  }

  lemma {:induction false} XorZero(a: nat)
    ensures Xor(a, 0) == a
  {
    if a != 0 {
      XorZero(a / 2);
    }
  }

  lemma {:induction false} ZeroXor(a: nat)
    ensures Xor(0, a) == a
  {
    if a != 0 {
      ZeroXor(a / 2);
    }
  }

  lemma {:induction false} XorComm(a: nat, b: nat)
    ensures Xor(a, b) == Xor(b, a)
  {
    if a != 0 || b != 0 {
      XorComm(a / 2, b / 2);
    }
  }

  lemma {:induction false} XorBelow(a: nat, b: nat, bits: nat)
    requires a < Raise(1, bits) && b < Raise(1, bits)
    ensures Xor(a, b) < Raise(1, bits)
  {
    if bits > 0 {
      XorBelow(a / 2, b / 2, bits - 1);
    }
  }

  lemma {:induction false} XorCancel(a: nat, b: nat, c: nat)
    requires Xor(a, c) == Xor(b, c)
    ensures a == b
  {
    if a != 0 || b != 0 || c != 0 {
      XorCancel(a / 2, b / 2, c / 2);
    }
  }

  lemma {:induction false} XorCancelLeft(a: nat, b: nat, c: nat)
    requires Xor(a, b) == Xor(a, c)
    ensures b == c
  {
    if a != 0 || b != 0 || c != 0 {
      XorCancelLeft(a / 2, b / 2, c / 2);
    }
  }

  /** The low bit of an exclusive or, and the bits above it. */
  lemma XorParts(a: nat, b: nat)
    ensures Xor(a, b) % 2 == (a % 2 + b % 2) % 2
    ensures Xor(a, b) / 2 == Xor(a / 2, b / 2)
  {
    if a != 0 || b != 0 {
      EvenAbove(if a % 2 == b % 2 then 0 else 1, Xor(a / 2, b / 2));
    }
  }

  lemma FromParts(x: nat, y: nat)
    requires x % 2 == y % 2 && x / 2 == y / 2
    ensures x == y
  {}

  lemma {:induction false} XorSwap(a: nat, b: nat, c: nat)
    ensures Xor(Xor(a, b), c) == Xor(Xor(a, c), b)
  {
    if a != 0 || b != 0 || c != 0 {
      XorSwap(a / 2, b / 2, c / 2);
      XorParts(a, b);
      XorParts(a, c);
      XorParts(Xor(a, b), c);
      XorParts(Xor(a, c), b);
      FromParts(Xor(Xor(a, b), c), Xor(Xor(a, c), b));
    }
  }

  /** Low bits and bits raised above them can be mixed in one after the other. */
  lemma {:induction false} XorSplit(a: nat, low: nat, high: nat, bits: nat)
    requires low < Raise(1, bits)
    ensures Xor(a, low + Raise(high, bits)) == Xor(Xor(a, low), Raise(high, bits))
  {
    if bits == 0 {
      XorZero(a);
    } else {
      var h := Raise(high, bits - 1);
      XorSplit(a / 2, low / 2, high, bits - 1);
      EvenAbove(low, h);
      XorParts(a, low + 2 * h);
      XorParts(a, low);
      XorParts(Xor(a, low), 2 * h);
      FromParts(Xor(a, low + 2 * h), Xor(Xor(a, low), 2 * h));
    }
  }

  lemma EvenAbove(low: nat, h: nat)
    ensures (low + 2 * h) % 2 == low % 2 && (low + 2 * h) / 2 == low / 2 + h
    ensures (2 * h) % 2 == 0 && (2 * h) / 2 == h
  {}

  lemma {:induction false} AndOnes(a: nat, bits: nat)
    requires a < Raise(1, bits)
    ensures And(Raise(1, bits) - 1, a) == a
  {
    if bits > 0 {
      AndOnes(a / 2, bits - 1);
    }
  }

  lemma {:induction false} OrZero(a: nat)
    ensures Or(a, 0) == a
  {
    if a != 0 {
      OrZero(a / 2);
    }
  }

  // ---- Byte strings ----

  /** `s` with the bytes at `at` replaced by `piece`. */
  function Splice(s: seq<byte>, at: nat, piece: seq<byte>): (r: seq<byte>)
    requires at + |piece| <= |s|
    ensures |r| == |s|
    ensures forall i :: 0 <= i < |s| ==> r[i] == if at <= i < at + |piece| then piece[i - at] else s[i]
  {
    s[..at] + piece + s[at + |piece|..]
  }

  lemma SpliceExtends(s: seq<byte>, lo: nat, at: nat, piece: seq<byte>)
    requires lo <= at && at + |piece| <= |s|
    ensures Splice(s, at, piece)[lo..at + |piece|] == s[lo..at] + piece
  {}

  lemma SpliceKeeps(s: seq<byte>, at: nat, piece: seq<byte>, lo: nat, hi: nat)
    requires at + |piece| <= |s| && lo <= hi <= |s| && (hi <= at || at + |piece| <= lo)
    ensures Splice(s, at, piece)[lo..hi] == s[lo..hi]
  {}

  lemma SliceOfSlice(s: seq<byte>, at: nat, length: nat, i: nat, j: nat)
    requires at + length <= |s| && i <= j <= length
    ensures s[at..at + length][i..j] == s[at + i..at + j]
  {
    var part, slice := s[at..at + length][i..j], s[at + i..at + j];
    assert |part| == |slice|;
    assert forall k :: 0 <= k < |part| ==> part[k] == slice[k];
  }

  function Concat(pieces: seq<seq<byte>>): seq<byte> {
    if pieces == [] then [] else pieces[0] + Concat(pieces[1..])
  }
}
