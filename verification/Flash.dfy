/** The flash driver and the erase, program, verify run over it. */
module Flash {
  import opened Bytes
  import opened NorFlash

  // The driver's own idea of the device.

  const CAPACITY_BYTES := 16 * 1024 * 1024

  const PAGE_SIZE := 256

  const READ_ID: byte := 0x9F

  const READ_STATUS: byte := 0x05

  const WRITE_ENABLE: byte := 0x06

  const READ: byte := 0x03

  const PAGE_PROGRAM: byte := 0x02

  const BULK_ERASE: byte := 0xC7

  const WIP: byte := 0x01

  /** The SPI transport with the flash at its far end. A transfer that fails leaves the flash in any state. */
  class SpiBridge {
    var nor: Nor

    /** How many transfers have failed. */
    ghost var faults: nat

    constructor (nor: Nor)
      ensures this.nor == nor && faults == 0
    {
      this.nor, faults := nor, 0;
    }

    method Transfer(tx: seq<byte>) returns (ok: bool, rx: seq<byte>, ghost delay: nat)
      requires nor.Valid()
      modifies this
      ensures nor.Valid() && nor.cells == old(nor).cells && nor.id == old(nor).id
      ensures faults >= old(faults) && (ok <==> faults == old(faults))
      ensures ok ==> (nor, rx) == Transact(old(nor), tx, delay)
    {
      var wait: nat := *;
      delay := wait;
      ok := *;
      rx := [];
      if ok {
        var r := Transact(nor, tx, wait);
        nor, rx := r.0, r.1;
      } else {
        faults := faults + 1;
        var any: Nor := *;
        if |any.mem| == CAPACITY && any.cells == nor.cells && any.id == nor.id && (any.busy > 0 ==> any.wel) {
          nor := any;
        }
      }
    }
  }

  function AddressBytes(addr: nat): (r: seq<byte>)
    requires addr < CAPACITY
    ensures |r| == 3
  {
    [ByteOf(addr / 0x10000 % 256), ByteOf(addr / 0x100 % 256), ByteOf(addr % 256)]
  }

  lemma AddressRoundTrip(command: byte, addr: nat, data: seq<byte>)
    requires addr < CAPACITY
    ensures Address([command] + AddressBytes(addr) + data) == addr
    ensures ([command] + AddressBytes(addr) + data)[4..] == data
  {
    hide ByteOf;
    AddressDigits(addr);
    var tx := [command] + AddressBytes(addr) + data;
    assert tx[1] == AddressBytes(addr)[0] && tx[2] == AddressBytes(addr)[1] && tx[3] == AddressBytes(addr)[2];
  }

  lemma AddressDigits(addr: nat)
    requires addr < CAPACITY
    ensures var b := AddressBytes(addr); (b[0] as nat) * 0x10000 + (b[1] as nat) * 0x100 + b[2] as nat == addr
  {
    var a, b, c := addr / 0x10000, addr / 0x100 % 256, addr % 256;
    assert a < 256 && addr == a * 0x10000 + b * 0x100 + c;
  }

  /** A status read brings the end of the operation in progress one step nearer. */
  function Polled(d: Nor): Nor {
    if d.busy > 0 then d.(busy := d.busy - 1, wel := d.busy > 1) else d
  }

  /** A flash at rest, with its memory and nothing pending. */
  function AtRest(d: Nor, mem: seq<byte>): Nor {
    d.(mem := mem, busy := 0, wel := false)
  }

  /** A number of three bytes, the first the highest, has them as its digits. */
  lemma ThreeDigits(a: nat, b: nat, c: nat)
    requires a < 256 && b < 256 && c < 256
    ensures var n := a * 0x10000 + b * 0x100 + c;
      n / 0x10000 == a && n / 0x100 % 256 == b && n % 256 == c && n < 0x1000000
  {
    var n := a * 0x10000 + b * 0x100 + c;
    assert n / 0x100 == a * 0x100 + b;
  }

  lemma ByteRange(a: byte)
    ensures 0 <= a as nat < 256
  {
  }

  /** The identity number of three bytes received. */
  function Joined(a: byte, b: byte, c: byte): nat {
    (a as nat) * 0x10000 + (b as nat) * 0x100 + c as nat
  }

  /** Its digits are the bytes. */
  lemma JoinedIs(a: byte, b: byte, c: byte)
    ensures var n := Joined(a, b, c);
      && n / 0x10000 == a as nat && n / 0x100 % 256 == b as nat && n % 256 == c as nat && n < 0x1000000
  {
    hide Joined;
    var x: nat, y: nat, z: nat := a as nat, b as nat, c as nat;
    JoinedNumbers(a, b, c, x, y, z);
    ByteRange(a);
    ByteRange(b);
    ByteRange(c);
    ThreeDigits(x, y, z);
  }

  lemma JoinedNumbers(a: byte, b: byte, c: byte, x: nat, y: nat, z: nat)
    requires x == a as nat && y == b as nat && z == c as nat
    ensures Joined(a, b, c) == x * 0x10000 + y * 0x100 + z
  {
  }

  /** The one the driver looks for is that of the bytes 20 BA 18. */
  lemma KnownIdentity(a: byte, b: byte, c: byte)
    ensures Joined(a, b, c) == JEDEC_MT25QL128 <==> [a, b, c] == [0x20, 0xBA, 0x18]
  {
    hide Joined;
    var x: nat, y: nat, z: nat := a as nat, b as nat, c as nat;
    JoinedNumbers(a, b, c, x, y, z);
    ByteRange(a);
    ByteRange(b);
    ByteRange(c);
    KnownNumber(x, y, z);
    KnownBytes(a, b, c);
  }

  lemma KnownNumber(a: nat, b: nat, c: nat)
    requires a < 256 && b < 256 && c < 256
    ensures a * 0x10000 + b * 0x100 + c == JEDEC_MT25QL128 <==> a == 0x20 && b == 0xBA && c == 0x18
  {
  }

  lemma KnownBytes(a: byte, b: byte, c: byte)
    ensures a as nat == 0x20 && b as nat == 0xBA && c as nat == 0x18 <==> [a, b, c] == [0x20, 0xBA, 0x18]
  {
    ThreeNumbers();
    if a as nat == 0x20 && b as nat == 0xBA && c as nat == 0x18 {
      SameByte(a, 0x20);
      SameByte(b, 0xBA);
      SameByte(c, 0x18);
    }
    if [a, b, c] == [0x20, 0xBA, 0x18] {
      assert a == [a, b, c][0] && b == [a, b, c][1] && c == [a, b, c][2];
    }
  }

  lemma ThreeNumbers()
    ensures (0x20 as byte) as nat == 0x20 && (0xBA as byte) as nat == 0xBA && (0x18 as byte) as nat == 0x18
  {
  }

  lemma Undriven24()
    ensures Joined(0xFF, 0xFF, 0xFF) == 0xFFFFFF
  {
  }

  lemma SameByte(a: byte, b: byte)
    requires a as nat == b as nat
    ensures a == b
  {
    assert a == (a as nat) as byte && b == (b as nat) as byte;
  }

  class Mt25qFlash {
    const bridge: SpiBridge

    /** How many waits have timed out. */
    ghost var timeouts: nat

    constructor (bridge: SpiBridge)
      ensures this.bridge == bridge && timeouts == 0
    {
      this.bridge, timeouts := bridge, 0;
    }

    /** Failed transfers and timed-out waits so far. */
    ghost function Trouble(): nat
      reads this, bridge
    {
      bridge.faults + timeouts
    }

    /** A busy flash does not answer. */
    method ReadId() returns (ok: bool, jedec: nat)
      requires bridge.nor.Valid()
      modifies bridge
      ensures bridge.nor.Valid() && bridge.nor.cells == old(bridge.nor).cells && bridge.nor.id == old(bridge.nor).id
      ensures Trouble() >= old(Trouble()) && (ok <==> Trouble() == old(Trouble()))
      ensures ok ==> bridge.nor == old(bridge.nor) && jedec < 0x1000000
      ensures ok && old(bridge.nor).busy == 0 ==>
        && jedec / 0x10000 == bridge.nor.id[0] as nat && jedec / 0x100 % 256 == bridge.nor.id[1] as nat
        && jedec % 256 == bridge.nor.id[2] as nat
      ensures ok && old(bridge.nor).busy > 0 ==> jedec == 0xFFFFFF
      ensures ok ==> (jedec == JEDEC_MT25QL128 <==> old(bridge.nor).busy == 0 && bridge.nor.id == [0x20, 0xBA, 0x18])
    {
      hide Joined;
      jedec := 0;
      var rx;
      ghost var d;
      ok, rx, d := bridge.Transfer([READ_ID, 0, 0, 0]);
      if !ok { return; }
      jedec := Joined(rx[1], rx[2], rx[3]);
      JoinedIs(rx[1], rx[2], rx[3]);
      KnownIdentity(rx[1], rx[2], rx[3]);
      Undriven24();
      assert bridge.nor.id == [bridge.nor.id[0], bridge.nor.id[1], bridge.nor.id[2]];
    }

    method ReadStatus() returns (ok: bool, sr: byte)
      requires bridge.nor.Valid()
      modifies bridge
      ensures bridge.nor.Valid() && bridge.nor.cells == old(bridge.nor).cells && bridge.nor.id == old(bridge.nor).id
      ensures Trouble() >= old(Trouble()) && (ok <==> Trouble() == old(Trouble()))
      ensures ok ==> sr == Status(old(bridge.nor))
      ensures ok ==> bridge.nor == Polled(old(bridge.nor))
    {
      hide Status;
      sr := 0;
      var rx;
      ghost var d;
      ok, rx, d := bridge.Transfer([READ_STATUS, 0]);
      if !ok { return; }
      sr := rx[1];
    }

    method WriteEnable() returns (ok: bool)
      requires bridge.nor.Valid()
      modifies bridge
      ensures bridge.nor.Valid() && bridge.nor.cells == old(bridge.nor).cells && bridge.nor.id == old(bridge.nor).id
      ensures Trouble() >= old(Trouble()) && (ok <==> Trouble() == old(Trouble()))
      ensures ok ==> bridge.nor == if old(bridge.nor).busy > 0 then old(bridge.nor) else old(bridge.nor).(wel := true)
    {
      var rx;
      ghost var d;
      ok, rx, d := bridge.Transfer([WRITE_ENABLE]);
    }

    /** Polls until the operation in progress has ended; the timeout allows some unknown number of polls. */
    method WaitWipClear() returns (ok: bool)
      requires bridge.nor.Valid()
      modifies this, bridge
      ensures bridge.nor.Valid() && bridge.nor.cells == old(bridge.nor).cells && bridge.nor.id == old(bridge.nor).id
      ensures Trouble() >= old(Trouble()) && (ok <==> Trouble() == old(Trouble()))
      ensures ok ==> bridge.nor == old(bridge.nor).(busy := 0, wel := old(bridge.nor).busy == 0 && old(bridge.nor).wel)
    {
      hide Status;
      ghost var d := bridge.nor;
      var polls: nat := *;
      while true
        invariant bridge.nor.Valid() && Trouble() == old(Trouble())
        invariant bridge.nor.busy <= d.busy
        invariant bridge.nor == d.(busy := bridge.nor.busy, wel := if d.busy == 0 then d.wel else bridge.nor.busy > 0)
        decreases polls
      {
        ghost var busy := bridge.nor.busy;
        var sr;
        ghost var was := bridge.nor;
        ok, sr := ReadStatus();
        if !ok { return; }
        StatusShowsWip(was);
        if sr & WIP == 0 { return true; }
        if polls == 0 {
          timeouts := timeouts + 1;
          return false;
        }
        polls := polls - 1;
      }
    }

    method BulkErase() returns (ok: bool)
      requires bridge.nor.Valid()
      modifies this, bridge
      ensures bridge.nor.Valid() && bridge.nor.cells == old(bridge.nor).cells && bridge.nor.id == old(bridge.nor).id
      ensures Trouble() >= old(Trouble()) && (ok <==> Trouble() == old(Trouble()))
      ensures ok && old(bridge.nor).busy == 0 ==>
        bridge.nor == AtRest(old(bridge.nor), ErasedMemory(old(bridge.nor).cells))
    {
      hide Status, ErasedMemory;
      ok := WriteEnable();
      if !ok { return; }
      var rx;
      ghost var d;
      ok, rx, d := bridge.Transfer([BULK_ERASE]);
      if !ok { return; }
      ok := WaitWipClear();
    }

    /** The caller must keep to a page; the range checks are the driver's own. */
    method PageProgram(addr: nat, data: seq<byte>) returns (ok: bool)
      requires bridge.nor.Valid()
      modifies this, bridge
      ensures bridge.nor.Valid() && bridge.nor.cells == old(bridge.nor).cells && bridge.nor.id == old(bridge.nor).id
      ensures Trouble() >= old(Trouble())
      ensures (ok <==> 1 <= |data| <= PAGE && addr + |data| <= CAPACITY && Trouble() == old(Trouble()))
      ensures !(1 <= |data| <= PAGE && addr + |data| <= CAPACITY) ==> bridge.nor == old(bridge.nor)
      ensures ok && old(bridge.nor).busy == 0 ==>
        && addr < CAPACITY
        && bridge.nor == AtRest(old(bridge.nor), Programmed(old(bridge.nor).mem, old(bridge.nor).cells, addr, data))
    {
      hide Status, Programmed, Address, AddressBytes;
      if |data| == 0 || |data| > PAGE_SIZE { return false; }
      if addr + |data| > CAPACITY_BYTES { return false; }
      ok := WriteEnable();
      if !ok { return; }
      var tx := [PAGE_PROGRAM] + AddressBytes(addr) + data;
      AddressRoundTrip(PAGE_PROGRAM, addr, data);
      var rx;
      ghost var d;
      ok, rx, d := bridge.Transfer(tx);
      if !ok { return; }
      ok := WaitWipClear();
    }

    method Read(addr: nat, n: nat) returns (ok: bool, out: seq<byte>)
      requires bridge.nor.Valid()
      modifies bridge
      ensures bridge.nor.Valid() && bridge.nor.cells == old(bridge.nor).cells && bridge.nor.id == old(bridge.nor).id
      ensures Trouble() >= old(Trouble()) && (ok <==> (n == 0 || addr + n <= CAPACITY) && Trouble() == old(Trouble()))
      ensures n > 0 && addr + n > CAPACITY ==> bridge.nor == old(bridge.nor)
      ensures ok && n > 0 && old(bridge.nor).busy == 0 ==>
        bridge.nor == old(bridge.nor) && addr + n <= CAPACITY && out == bridge.nor.mem[addr..addr + n]
    {
      hide Status, Address, AddressBytes;
      out := [];
      if n == 0 { return true, []; }
      if addr + n > CAPACITY_BYTES { return false, []; }
      var tx := [READ] + AddressBytes(addr) + seq(n, _ => 0);
      AddressRoundTrip(READ, addr, seq(n, _ => 0));
      var rx;
      ghost var d;
      ok, rx, d := bridge.Transfer(tx);
      if !ok { return; }
      out := rx[4..];
      if old(bridge.nor).busy == 0 { MemoryIs(old(bridge.nor), addr, n); }
    }
  }

  lemma StatusShowsWip(d: Nor)
    ensures Status(d) & WIP == 0 <==> d.busy == 0
  {
  }

  lemma MemoryIs(d: Nor, addr: nat, n: nat)
    requires d.Valid() && addr + n <= CAPACITY
    ensures Memory(d, addr, n) == d.mem[addr..addr + n]
  {
  }

  // ---------------------------------------------------------- the programmer

  const JEDEC_MT25QL128 := 0x20BA18

  const VERIFY_CHUNK := 4096

  class FlashProgrammer {
    const flash: Mt25qFlash

    constructor (flash: Mt25qFlash)
      ensures this.flash == flash
    {
      this.flash := flash;
    }

    /** From the identity check to the verify pass. Without a failed transfer or a wait that timed out it succeeds
        exactly when every image byte can be stored, and a success always means the flash holds the image and is
        erased behind it. */
    method Program(image: seq<byte>) returns (ok: bool)
      requires flash.bridge.nor.Valid()
      modifies flash, flash.bridge
      ensures flash.Trouble() >= old(flash.Trouble()) && (ok ==> flash.Trouble() == old(flash.Trouble()))
      ensures var d, d' := old(flash.bridge.nor), flash.bridge.nor;
        && d'.Valid() && d'.cells == d.cells && d'.id == d.id
        && (ok ==> d' == AtRest(d, d'.mem) && HoldsImage(d'.mem, d.cells, image) && d'.mem[..|image|] == image)
      ensures flash.Trouble() == old(flash.Trouble()) ==> var d := old(flash.bridge.nor);
        if Accepts(d, image) then (ok <==> Writable(d.cells, image)) else !ok && flash.bridge.nor == d
    {
      hide HoldsImage, Writable, ErasedMemory;
      var jedec;
      ok, jedec := flash.ReadId();
      if !ok { return; }
      if jedec != JEDEC_MT25QL128 { return false; }
      if |image| > CAPACITY_BYTES { return false; }
      ok := flash.BulkErase();
      if !ok { return; }
      ErasedHoldsNothing(flash.bridge.nor.cells);
      assert image[..0] == [];
      ghost var d := old(flash.bridge.nor);
      ok := ProgramPages(image, d);
      if !ok { return; }
      ok := Verify(image);
      if ok { VerifiedMatches(flash.bridge.nor.mem, d.cells, image); }
      if flash.Trouble() == old(flash.Trouble()) { MismatchIsStuck(flash.bridge.nor.mem, d.cells, image); }
    }

    /** An idle MT25QL128, which identifies itself by the bytes 20 BA 18, and an image that fits its 16 MiB. */
    ghost predicate Accepts(d: Nor, image: seq<byte>)
    {
      d.busy == 0 && d.id == [0x20, 0xBA, 0x18] && |image| <= 0x100_0000
    }

    /** The page loop: pages tile the image, each starting on a boundary. */
    method ProgramPages(image: seq<byte>, ghost d: Nor) returns (ok: bool)
      requires flash.bridge.nor.Valid() && |image| <= CAPACITY && flash.bridge.nor == AtRest(d, flash.bridge.nor.mem)
      requires HoldsImage(flash.bridge.nor.mem, flash.bridge.nor.cells, [])
      modifies flash, flash.bridge
      ensures flash.bridge.nor.Valid() && flash.bridge.nor.cells == d.cells && flash.bridge.nor.id == d.id
      ensures flash.Trouble() >= old(flash.Trouble()) && (ok <==> flash.Trouble() == old(flash.Trouble()))
      ensures ok ==>
        flash.bridge.nor == AtRest(d, flash.bridge.nor.mem) && HoldsImage(flash.bridge.nor.mem, d.cells, image)
    {
      hide HoldsImage, Programmed;
      var off := 0;
      assert image[..0] == [];
      while off < |image|
        invariant flash.Trouble() == old(flash.Trouble())
        invariant off % PAGE == 0 && flash.bridge.nor.Valid() && flash.bridge.nor == AtRest(d, flash.bridge.nor.mem)
        invariant HoldsImage(flash.bridge.nor.mem, d.cells, image[..if off < |image| then off else |image|])
        decreases |image| - off
      {
        var n := if |image| - off < PAGE_SIZE then |image| - off else PAGE_SIZE;
        ghost var was := flash.bridge.nor;
        ok := flash.PageProgram(off, image[off..off + n]);
        if !ok { return; }
        NextPage(was.mem, d.cells, image, off, n);
        off := off + PAGE_SIZE;
      }
      assert image[..|image|] == image;
      ok := true;
    }

    /** The verify loop: true exactly when every byte could be read back and is the image's. */
    method Verify(image: seq<byte>) returns (ok: bool)
      requires flash.bridge.nor.Valid() && |image| <= CAPACITY && flash.bridge.nor.busy == 0
      modifies flash.bridge
      ensures flash.bridge.nor.Valid()
      ensures flash.bridge.nor.cells == old(flash.bridge.nor).cells && flash.bridge.nor.id == old(flash.bridge.nor).id
      ensures flash.Trouble() >= old(flash.Trouble()) && (flash.Trouble() > old(flash.Trouble()) ==> !ok)
      ensures flash.Trouble() == old(flash.Trouble()) ==>
        flash.bridge.nor == old(flash.bridge.nor) && (ok <==> flash.bridge.nor.mem[..|image|] == image)
    {
      ghost var d := flash.bridge.nor;
      var off := 0;
      while off < |image|
        invariant off >= 0 && flash.bridge.nor == d && flash.Trouble() == old(flash.Trouble())
        invariant forall a :: 0 <= a < off && a < |image| ==> d.mem[a] == image[a]
        decreases |image| - off
      {
        var n := if |image| - off < VERIFY_CHUNK then |image| - off else VERIFY_CHUNK;
        var readback;
        ok, readback := flash.Read(off, n);
        if !ok { return; }
        for i := 0 to n
          invariant forall k :: 0 <= k < i ==> readback[k] == image[off + k]
          modifies {}
        {
          if readback[i] != image[off + i] {
            assert d.mem[off + i] != image[off + i];
            return false;
          }
        }
        forall a | off <= a < off + n
          ensures d.mem[a] == image[a]
        {
          assert readback[a - off] == image[off + (a - off)];
        }
        off := off + VERIFY_CHUNK;
      }
      ok := true;
    }
  }

  lemma VerifiedMatches(mem: seq<byte>, cells: seq<Cell>, image: seq<byte>)
    requires HoldsImage(mem, cells, image) && mem[..|image|] == image
    ensures Writable(cells, image)
  {
    hide Cell.Settle;
    forall a | 0 <= a < |image| ensures cells[a].Settle(image[a]) == image[a] { assert mem[..|image|][a] == image[a]; }
  }

  lemma MismatchIsStuck(mem: seq<byte>, cells: seq<Cell>, image: seq<byte>)
    requires HoldsImage(mem, cells, image)
    ensures Writable(cells, image) ==> mem[..|image|] == image
  {
    hide Cell.Settle;
  }
}
