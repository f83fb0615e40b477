/** A NOR flash behind an SPI transport: what each command does to its memory. */
module NorFlash {
  import opened Bytes

  const CAPACITY := 0x100_0000

  const PAGE := 256

  /** A byte cell that may have bits stuck at 0 or at 1. */
  datatype Cell = Cell(keep: byte, high: byte)
  {
    function Settle(v: byte): byte { (v & keep) | high }

    /** Programming can only clear bits. */
    function Clear(was: byte, v: byte): byte { Settle(was & v) }
  }

  /** `busy` counts the status reads until the operation in progress ends. */
  datatype Nor = Nor(mem: seq<byte>, cells: seq<Cell>, id: seq<byte>, wel: bool, busy: nat)
  {
    ghost predicate Valid() {
      |mem| == |cells| == CAPACITY && |id| == 3 && (busy > 0 ==> wel)
    }

    /** An accepted erase or program keeps the device busy for some unknown while. */
    function Started(mem': seq<byte>, delay: nat): Nor {
      this.(mem := mem', busy := delay, wel := delay > 0)
    }
  }

  function ErasedMemory(cells: seq<Cell>): (m: seq<byte>)
    ensures |m| == |cells|
  {
    seq(|cells|, a requires 0 <= a < |cells| => cells[a].Settle(0xFF))
  }

  /** Where the k-th data byte of a page program goes: it wraps inside its page. */
  function PageAddress(addr: nat, k: nat): nat {
    addr / PAGE * PAGE + (addr + k) % PAGE
  }

  function Programmed(mem: seq<byte>, cells: seq<Cell>, addr: nat, data: seq<byte>): (m: seq<byte>)
    requires |mem| == |cells| == CAPACITY && addr < CAPACITY
    ensures |m| == |mem|
  {
    if data == [] then mem
    else
      var n := |data| - 1;
      var m := Programmed(mem, cells, addr, data[..n]);
      var a := PageAddress(addr, n);
      m[a := cells[a].Clear(m[a], data[n])]
  }

  function Address(tx: seq<byte>): nat
    requires |tx| >= 4
  {
    (tx[1] as nat) * 0x10000 + (tx[2] as nat) * 0x100 + tx[3] as nat
  }

  /** The bytes on an output nobody drives. */
  function Undriven(n: nat): (r: seq<byte>)
    ensures |r| == n
  {
    seq(n, _ => 0xFF)
  }

  function Status(d: Nor): byte {
    (if d.busy > 0 then 0x01 else 0) | (if d.wel then 0x02 else 0)
  }

  function Memory(d: Nor, addr: nat, n: nat): (r: seq<byte>)
    requires d.Valid()
    ensures |r| == n
  {
    seq(n, k requires 0 <= k < n => d.mem[(addr + k) % CAPACITY])
  }

  /** One transaction, chip select held throughout: the new state and the bytes received. The first byte is the
      device's own command code. While busy, only the
      status can be read; erase and program need the write enable latch, which they use up. */
  function Transact(d: Nor, tx: seq<byte>, delay: nat): (r: (Nor, seq<byte>))
    requires d.Valid()
    ensures r.0.Valid() && |r.1| == |tx|
  {
    var n := |tx|;
    if n == 0 then (d, [])
    else if tx[0] == 0x05 then
      (if d.busy > 0 then d.(busy := d.busy - 1, wel := d.busy > 1) else d,
       seq(n, k => if k == 0 then 0xFF else Status(d)))
    else if d.busy > 0 then (d, Undriven(n))
    else if tx[0] == 0x9F then
      (d, seq(n, k => if 1 <= k <= 3 then d.id[k - 1] else 0xFF))
    else if tx[0] == 0x06 then (d.(wel := true), Undriven(n))
    else if tx[0] == 0x03 && n >= 4 then
      (d, Undriven(4) + Memory(d, Address(tx), n - 4))
    else if tx[0] == 0x02 && d.wel && n >= 5 then
      AddressFits(tx);
      (d.Started(Programmed(d.mem, d.cells, Address(tx), tx[4..]), delay), Undriven(n))
    else if tx[0] == 0xC7 && d.wel && n == 1 then
      (d.Started(ErasedMemory(d.cells), delay), Undriven(n))
    else (d, Undriven(n))
  }

  lemma AddressFits(tx: seq<byte>)
    requires |tx| >= 4
    ensures Address(tx) < CAPACITY
  {
  }

  // ------------------------------------------------- programming whole pages

  /** Memory that was erased, then given the image from address 0. */
  ghost predicate HoldsImage(mem: seq<byte>, cells: seq<Cell>, image: seq<byte>) {
    && |mem| == |cells| == CAPACITY && |image| <= CAPACITY
    && (forall a :: 0 <= a < |image| ==> mem[a] == cells[a].Settle(image[a]))
    && (forall a :: |image| <= a < CAPACITY ==> mem[a] == cells[a].Settle(0xFF))
  }

  lemma MaskedOnce(k: byte, h: byte, v: byte)
    ensures (((((0xFF & k) | h) & v) & k) | h) == ((v & k) | h)
  {
  }

  lemma SettledOnce(c: Cell, v: byte)
    ensures c.Clear(c.Settle(0xFF), v) == c.Settle(v)
  {
    MaskedOnce(c.keep, c.high, v);
  }

  lemma AlignedAddress(at: nat, k: nat)
    requires at % PAGE == 0 && k < PAGE
    ensures PageAddress(at, k) == at + k
  {
  }

  /** A page program that starts on a page boundary and fits the page writes its bytes one after another. */
  lemma {:induction false} AlignedProgram(mem: seq<byte>, cells: seq<Cell>, at: nat, data: seq<byte>)
    requires |mem| == |cells| == CAPACITY && |data| <= PAGE && at + |data| <= CAPACITY && at < CAPACITY
    requires at % PAGE == 0
    ensures forall a :: 0 <= a < CAPACITY && !(at <= a < at + |data|) ==> Programmed(mem, cells, at, data)[a] == mem[a]
    ensures forall a :: at <= a < at + |data| ==>
      Programmed(mem, cells, at, data)[a] == cells[a].Clear(mem[a], data[a - at])
  {
    hide Cell.Clear, PageAddress, Programmed;
    if data != [] {
      var n := |data| - 1;
      AlignedProgram(mem, cells, at, data[..n]);
      AlignedAddress(at, n);
      ProgramStep(mem, cells, at, data);
    } else {
      ProgramNothing(mem, cells, at);
    }
  }

  lemma ProgramNothing(mem: seq<byte>, cells: seq<Cell>, at: nat)
    requires |mem| == |cells| == CAPACITY && at < CAPACITY
    ensures Programmed(mem, cells, at, []) == mem
  {
  }

  lemma ProgramStep(mem: seq<byte>, cells: seq<Cell>, at: nat, data: seq<byte>)
    requires |mem| == |cells| == CAPACITY && data != [] && at < CAPACITY
    ensures var n, m, a := |data| - 1, Programmed(mem, cells, at, data[..|data| - 1]), PageAddress(at, |data| - 1);
      Programmed(mem, cells, at, data) == m[a := cells[a].Clear(m[a], data[n])]
  {
  }

  /** Programming the next page of an image over erased memory. */
  lemma NextPage(mem: seq<byte>, cells: seq<Cell>, image: seq<byte>, at: nat, n: nat)
    requires at + n <= |image| <= CAPACITY && 0 < n <= PAGE && at % PAGE == 0
    requires HoldsImage(mem, cells, image[..at])
    ensures HoldsImage(Programmed(mem, cells, at, image[at..at + n]), cells, image[..at + n])
  {
    hide Cell.Settle, Cell.Clear, Programmed;
    var data := image[at..at + n];
    AlignedProgram(mem, cells, at, data);
    forall a | at <= a < at + n ensures cells[a].Clear(mem[a], data[a - at]) == cells[a].Settle(image[a]) {
      SettledOnce(cells[a], image[a]);
    }
  }

  lemma ErasedHoldsNothing(cells: seq<Cell>)
    requires |cells| == CAPACITY
    ensures HoldsImage(ErasedMemory(cells), cells, [])
  {
    hide Cell.Settle;
  }

  /** No cell of the image's range has a bit stuck against it. */
  ghost predicate Writable(cells: seq<Cell>, image: seq<byte>) {
    |image| <= |cells| && forall a :: 0 <= a < |image| ==> cells[a].Settle(image[a]) == image[a]
  }
}
