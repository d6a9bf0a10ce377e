/**
 The flash part behind the loader: erasing sets whole pages to 0xff, programming can only
 clear bits. Every operation may fail, and the power may go in the middle of one.
 */
module NorFlash {
  import opened Bytes

  const FLASH_SIZE := 32768
  const PAGE := 4096

  /** What happens to one operation. A failed or interrupted programming run is torn: it
      leaves set the bits of `keep` among those it should have cleared. Erasing is atomic,
      so a failed or interrupted erase changes nothing. */
  datatype Fault = Works | Fails(keep: seq<byte>) | Cut(keep: seq<byte>)

  /** An erase or programming run as seen on the flash bus; `found` is what the cells held. */
  datatype BusOp =
    | Erased(from: nat, to: nat, ok: bool)
    | Wrote(offset: nat, data: seq<byte>, found: seq<byte>, ok: bool)

  /** The cells, the faults of the operations to come, the power supply and the bus history.
      Once the faults are used up every operation works. */
  datatype Device = Device(bytes: seq<byte>, faults: seq<Fault>, powered: bool, log: seq<BusOp>)

  ghost predicate ValidDevice(d: Device) { |d.bytes| == FLASH_SIZE }

  ghost predicate Reliable(d: Device) { d.powered && d.faults == [] }

  function NextFault(faults: seq<Fault>): Fault { if faults == [] then Works else faults[0] }

  function LaterFaults(faults: seq<Fault>): seq<Fault> { if faults == [] then [] else faults[1..] }

  /** The device after one operation met its fate, cells and history aside. */
  function Worn(d: Device): Device {
    d.(faults := LaterFaults(d.faults), powered := d.powered && !NextFault(d.faults).Cut?)
  }

  function ReadCells(d: Device, offset: nat, length: nat): (Device, Option<seq<byte>>) {
    if !d.powered then (d, None)
    else
      (Worn(d),
       if NextFault(d.faults).Works? && offset + length <= |d.bytes|
       then Some(d.bytes[offset..offset + length]) else None)
  }

  function KeptBits(keep: seq<byte>, i: nat): byte { if i < |keep| then keep[i] else 0 }

  function TornBits(fault: Fault): seq<byte> { if fault.Works? then [] else fault.keep }

  /** NOR programming: each target byte in turn is ANDed with the data. */
  function Programmed(bytes: seq<byte>, offset: nat, data: seq<byte>, keep: seq<byte>): (r: seq<byte>)
    requires offset + |data| <= |bytes|
    ensures |r| == |bytes|
    ensures forall i :: 0 <= i < |bytes| && !(offset <= i < offset + |data|) ==> r[i] == bytes[i]
    decreases |data|
  {
    if data == [] then bytes
    else
      var last := |data| - 1;
      var cell := offset + last;
      Programmed(bytes, offset, data[..last], keep)[cell := And(bytes[cell], Or(data[last], KeptBits(keep, last)))]
  }

  function WriteCells(d: Device, offset: nat, data: seq<byte>): (Device, bool) {
    if !d.powered then (d, false)
    else if offset % 2 != 0 || |data| % 2 != 0 || offset + |data| > |d.bytes| then
      (Worn(d).(log := d.log + [Wrote(offset, data, [], false)]), false)
    else
      var fault := NextFault(d.faults);
      (Worn(d).(
       bytes := Programmed(d.bytes, offset, data, TornBits(fault)),
       log := d.log + [Wrote(offset, data, d.bytes[offset..offset + |data|], fault.Works?)]),
       fault.Works?)
  }

  function Blanked(bytes: seq<byte>, from: nat, to: nat): (r: seq<byte>)
    ensures |r| == |bytes|
  {
    seq(|bytes|, i requires 0 <= i < |bytes| => if from <= i < to then 0xff else bytes[i])
  }

  function EraseCells(d: Device, from: nat, to: nat): (Device, bool) {
    if !d.powered then (d, false)
    else
      var ok := from % PAGE == 0 && to % PAGE == 0 && from <= to <= |d.bytes| && NextFault(d.faults).Works?;
      (Worn(d).(
       bytes := if ok then Blanked(d.bytes, from, to) else d.bytes,
       log := d.log + [Erased(from, to, ok)]),
       ok)
  }

  /** The next operations all meet no fault. */
  predicate OpsWork(d: Device, count: nat) {
    count == 0 || (d.powered && forall i :: 0 <= i < count && i < |d.faults| ==> d.faults[i].Works?)
  }

  /** The device after that many operations that met no fault, cells and history aside. */
  function AfterOps(d: Device, count: nat): Device {
    d.(faults := if count <= |d.faults| then d.faults[count..] else [])
  }

  lemma ReliableWorks(d: Device, count: nat)
    ensures Reliable(d) ==> OpsWork(d, count) && AfterOps(d, count) == d
  {}

  lemma FirstOpWorks(d: Device, count: nat)
    requires count > 0
    ensures OpsWork(d, count) <==> d.powered && NextFault(d.faults).Works? && OpsWork(Worn(d), count - 1)
    ensures OpsWork(d, count) ==> AfterOps(Worn(d), count - 1) == AfterOps(d, count)
  {
    if d.faults != [] && OpsWork(d, count) {
      assert count <= |d.faults| ==> d.faults[1..][count - 1..] == d.faults[count..];
    }
    if d.faults != [] && d.powered && NextFault(d.faults).Works? && OpsWork(Worn(d), count - 1) {
      forall i | 0 <= i < count && i < |d.faults|
        ensures d.faults[i].Works?
      {
        assert i > 0 ==> d.faults[i] == Worn(d).faults[i - 1];
      }
    }
  }

  lemma OpsSplit(d: Device, first: nat, rest: nat)
    ensures OpsWork(d, first + rest) <==> OpsWork(d, first) && OpsWork(AfterOps(d, first), rest)
    ensures AfterOps(AfterOps(d, first), rest) == AfterOps(d, first + rest)
  {
    if OpsWork(d, first) && OpsWork(AfterOps(d, first), rest) {
      forall i | 0 <= i < first + rest && i < |d.faults|
        ensures d.faults[i].Works?
      {
        assert i >= first ==> d.faults[i] == AfterOps(d, first).faults[i - first];
      }
    }
  }

  /** The same part with its cells in an array that is changed in place. */
  class Flash {
    const cells: array<byte>
    var faults: seq<Fault>
    var powered: bool
    ghost var log: seq<BusOp>

    ghost predicate Valid() reads this { cells.Length == FLASH_SIZE }

    ghost function Model(): Device reads this, cells { Device(cells[..], faults, powered, log) }

    constructor (contents: seq<byte>, faults: seq<Fault>)
      requires |contents| == FLASH_SIZE
      ensures Valid() && fresh(cells) && Model() == Device(contents, faults, true, [])
    {
      cells := new byte[|contents|](i requires 0 <= i < |contents| => contents[i]);
      this.faults := faults;
      powered := true;
      log := [];
      new;
      assert cells[..] == contents;
    }

    method Wear() returns (fault: Fault)
      modifies this`faults, this`powered
      ensures fault == NextFault(old(faults)) && Model() == Worn(old(Model()))
    {
      fault := NextFault(faults);
      faults := LaterFaults(faults);
      powered := powered && !fault.Cut?;
    }

    method Read(offset: nat, length: nat) returns (bytes: Option<seq<byte>>)
      requires Valid()
      modifies this`faults, this`powered
      ensures (Model(), bytes) == ReadCells(old(Model()), offset, length)
    {
      if !powered {
        return None;
      }
      var fault := Wear();
      if !fault.Works? || offset + length > cells.Length {
        return None;
      }
      return Some(cells[offset..offset + length]);
    }

    method Write(offset: nat, data: seq<byte>) returns (ok: bool)
      requires Valid()
      modifies this, cells
      ensures (Model(), ok) == WriteCells(old(Model()), offset, data)
    {
      if !powered {
        return false;
      }
      var fault := Wear();
      if offset % 2 != 0 || |data| % 2 != 0 || offset + |data| > cells.Length {
        log := log + [Wrote(offset, data, [], false)];
        return false;
      }
      log := log + [Wrote(offset, data, cells[offset..offset + |data|], fault.Works?)];
      var keep := TornBits(fault);
      var i := 0;
      while i < |data|
        invariant 0 <= i <= |data|
        invariant cells[..] == Programmed(old(cells[..]), offset, data[..i], keep)
        modifies cells
      {
        assert data[..i + 1][..i] == data[..i];
        cells[offset + i] := And(cells[offset + i], Or(data[i], KeptBits(keep, i)));
        i := i + 1;
      }
      assert data[..|data|] == data;
      return fault.Works?;
    }

    method Erase(from: nat, to: nat) returns (ok: bool)
      requires Valid()
      modifies this, cells
      ensures (Model(), ok) == EraseCells(old(Model()), from, to)
    {
      if !powered {
        return false;
      }
      var fault := Wear();
      ok := from % PAGE == 0 && to % PAGE == 0 && from <= to <= cells.Length && fault.Works?;
      log := log + [Erased(from, to, ok)];
      if ok {
        forall i | from <= i < to {
          cells[i] := 0xff;
        }
        assert cells[..] == Blanked(old(cells[..]), from, to);
      }
    }
  }

  // ---- What programming does to erased cells ----

  ghost predicate Blank(bytes: seq<byte>, from: nat, to: nat) {
    to <= |bytes| && forall i :: from <= i < to ==> bytes[i] == 0xff
  }

  lemma OnesAbsorb(b: byte)
    ensures And(0xff, b) == b
    ensures And(0xff, Or(0xff, b)) == 0xff
  {
    Raise8(1);
    AndOnes(b, 8);
    OrOnes(b, 8);
    AndOnes(0xff, 8);
  }

  lemma {:induction false} OrOnes(a: nat, bits: nat)
    requires a < Raise(1, bits)
    ensures Or(Raise(1, bits) - 1, a) == Raise(1, bits) - 1
  {
    if bits > 0 {
      OrOnes(a / 2, bits - 1);
    }
  }

  /** On erased cells an AND-write stores exactly what was sent. */
  lemma {:induction false} ProgramBlank(bytes: seq<byte>, offset: nat, data: seq<byte>)
    requires Blank(bytes, offset, offset + |data|)
    ensures Programmed(bytes, offset, data, []) == Splice(bytes, offset, data)
    decreases |data|
  {
    if data != [] {
      var last := |data| - 1;
      ProgramBlank(bytes, offset, data[..last]);
      OrZero(data[last]);
      OnesAbsorb(data[last]);
    }
  }

  /** What the part does, in numbers. Without power nothing happens. A read gives the cells asked for, a
      write needs halfword alignment and touches only its own cells, an erase needs pages of 4096 bytes
      and sets them to 0xff or changes nothing; each stays within 32768 bytes and works exactly if its
      fault says so. */
  lemma FlashRaw(d: Device, offset: nat, length: nat, data: seq<byte>, to: nat)
    requires ValidDevice(d)
    ensures |d.bytes| == 32768
    ensures var (d', r) := ReadCells(d, offset, length);
      && d'.bytes == d.bytes
      && (r.Some? <==> d.powered && NextFault(d.faults).Works? && offset + length <= 32768)
      && (r.Some? ==> r.value == d.bytes[offset..offset + length])
    ensures var (d', ok) := WriteCells(d, offset, data);
      && |d'.bytes| == 32768
      && (ok <==> d.powered && NextFault(d.faults).Works?
                  && offset % 2 == 0 && |data| % 2 == 0 && offset + |data| <= 32768)
      && (!d.powered || offset % 2 != 0 || |data| % 2 != 0 || offset + |data| > 32768 ==> d'.bytes == d.bytes)
      && forall i :: 0 <= i < 32768 && !(offset <= i < offset + |data|) ==> d'.bytes[i] == d.bytes[i]
    ensures var (d', ok) := EraseCells(d, offset, to);
      && |d'.bytes| == 32768
      && (ok <==> d.powered && NextFault(d.faults).Works?
                  && offset % 4096 == 0 && to % 4096 == 0 && offset <= to <= 32768)
      && forall i :: 0 <= i < 32768 ==> d'.bytes[i] == if ok && offset <= i < to then 0xff else d.bytes[i]
  {
    hide And, Or, Programmed;
  }

  /** Every target cell is ANDed with its own data byte, less the bits a torn run kept. */
  lemma {:induction false} ProgrammedCell(bytes: seq<byte>, offset: nat, data: seq<byte>, keep: seq<byte>, i: nat)
    requires offset + |data| <= |bytes| && i < |data|
    ensures Programmed(bytes, offset, data, keep)[offset + i] == And(bytes[offset + i], Or(data[i], KeptBits(keep, i)))
    decreases |data|
  {
    hide And, Or;
    var last := |data| - 1;
    if i < last {
      ProgrammedCell(bytes, offset, data[..last], keep, i);
    }
  }

  /** A write that is acknowledged over erased cells replaced them; any write leaves the others alone. */
  lemma WriteBlank(d: Device, offset: nat, data: seq<byte>)
    requires ValidDevice(d) && offset % 2 == 0 && |data| % 2 == 0
    requires Blank(d.bytes, offset, offset + |data|)
    ensures var (d', written) := WriteCells(d, offset, data);
      && ValidDevice(d')
      && (forall i :: 0 <= i < FLASH_SIZE && !(offset <= i < offset + |data|) ==> d'.bytes[i] == d.bytes[i])
      && (written ==> d'.bytes == Splice(d.bytes, offset, data))
      && (written <==> OpsWork(d, 1))
      && (Reliable(d) ==> written && Reliable(d'))
  {
    ProgramBlank(d.bytes, offset, data);
  }

  /** However badly torn, programming 0xff over an erased byte leaves it erased. */
  lemma {:induction false} TornOnes(bytes: seq<byte>, offset: nat, data: seq<byte>, keep: seq<byte>, i: nat)
    requires offset + |data| <= |bytes|
    requires offset <= i < offset + |data| && bytes[i] == 0xff && data[i - offset] == 0xff
    ensures Programmed(bytes, offset, data, keep)[i] == 0xff
    decreases |data|
  {
    hide And, Or;
    var last := |data| - 1;
    if i == offset + last {
      OnesAbsorb(KeptBits(keep, last));
    } else {
      TornOnes(bytes, offset, data[..last], keep, i);
    }
  }
}
