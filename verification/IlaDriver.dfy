/** The analyser driver over the BSCANE2 backend: register writes, capability probing, sample readout. */
module IlaDriver {
  import opened Bytes
  import opened IlaCore
  import opened Hardware
  import opened TapControl
  import opened Chain
  import opened Backend

  // The driver's own opcodes for the core's registers.

  const OP_IDCODE := 0x01
  const OP_CONFIG := 0x02
  const OP_CTRL := 0x08
  const OP_TRIG_MASK := 0x0A
  const OP_TRIG_VAL := 0x0B
  const OP_READ_ADDR := 0x0C
  const OP_READ_DATA := 0x0D
  const OP_PRE_SAMPLES := 0x0E
  const OP_TRIG_RISE := 0x0F
  const OP_TRIG_FALL := 0x10
  const OP_TRIG_MASK2 := 0x11
  const OP_TRIG_VAL2 := 0x12
  const OP_TRIG_CTRL := 0x13

  const CTRL_ARM := 0x1
  const CTRL_STOP := 0x2
  const CTRL_RESET := 0x4
  const CTRL_FORCE := 0x8

  const DEFAULT_DEPTH := 1024

  // -------------------------------------------------------- words as numbers

  method PackBits(val: nat, bits: nat) returns (out: seq<byte>)
    ensures Packs(out, NatBits(val, bits))
  {
    HoldsZeros(bits);
    out := PutNat(Zeros(bits), [], 0, val, bits);
    assert [] + NatBits(val, bits) == NatBits(val, bits);
  }

  lemma PaddedPayload(buf: seq<byte>, val: nat, drBits: nat)
    requires drBits <= 32 && Packs(buf, NatBits(val, drBits))
    ensures DataBits(drBits) <= 8 * |buf| && PayloadOf(buf, drBits) == Padded(NatBits(val, drBits))
  {
    hide Bit;
    BitsOfPacked(buf, NatBits(val, drBits));
  }

  lemma ReturnedNumber(out: seq<byte>, drBits: nat, word: Word)
    requires drBits <= 32 && Returns(out, drBits, word)
    ensures drBits <= 8 * |out| && Bits(out, 0, drBits) == word[..drBits]
  {
    HoldsBits(out, word[..drBits]);
  }

  lemma {:induction false} BitsNatPadded(bits: seq<bool>, n: nat)
    ensures BitsNat(bits + Falses(n)) == BitsNat(bits)
  {
    if bits == [] {
      assert bits + Falses(n) == Falses(n);
      BitsNatZeros(n);
    } else {
      assert (bits + Falses(n))[1..] == bits[1..] + Falses(n);
      BitsNatPadded(bits[1..], n);
    }
  }

  lemma {:induction false} BitsNatZeros(n: nat)
    ensures BitsNat(Falses(n)) == 0
  {
    if n > 0 {
      assert Falses(n)[1..] == Falses(n - 1);
      BitsNatZeros(n - 1);
    }
  }

  /** An address below the depth survives its trip through addrW bits of a frame. */
  lemma AddressArrives(addr: nat, addrW: nat)
    requires addrW <= 32 && addr < Pow2(addrW)
    ensures BitsNat(Padded(NatBits(addr, addrW))) == addr
  {
    hide BitsNat, NatBits, Pow2;
    BitsNatPadded(NatBits(addr, addrW), 32 - addrW);
    BitsNatOfNatBits(addr, addrW);
    DivModIs(addr, Pow2(addrW), 0, addr);
  }

  // ------------------------------------------------------------ one register

  /** The core after a driver write: prime scan if needed, then the real one. */
  function Written(i: Ila, shadow: nat, op: nat, word: Word): (r: Ila)
    requires i.Valid() && op < 32
    ensures r.Valid()
  {
    Latch(Primed(i, shadow, op), op, word)
  }

  /** A write touches the register it names and no other writable state. */
  lemma WriteEffect(i: Ila, shadow: nat, op: nat, word: Word)
    requires i.Valid() && op < 32
    ensures var r := Written(i, shadow, op, word);
      && r.storedIr == op && r.warm && r.mem == i.mem && r.addrW == i.addrW
      && r.idcode == i.idcode && r.config == i.config && r.status == i.status
      && (r.triggers == if op in TRIGGER_REGS then i.triggers[op := word] else i.triggers)
      && (r.orMode == if op == OP_TRIG_CTRL then word[0] else i.orMode)
      && (r.preSamples == if op == OP_PRE_SAMPLES then BitsNat(word) % |i.mem| else i.preSamples)
      && (op == OP_READ_ADDR ==> r.rdAddr == BitsNat(word) % |i.mem|)
      && (op !in {OP_READ_ADDR, OP_READ_DATA} ==> r.rdAddr == i.rdAddr)
      && (op != OP_CTRL ==> r.pulses == i.pulses)
      && (op == OP_CTRL ==> r.pulses == i.pulses + (if shadow != op then [Falses(4)] else []) + [word[..4]])
  {
    hide NatBits, BitsNat;
    if op in TRIGGER_REGS {
      assert i.triggers[op := Falses(32)][op := word] == i.triggers[op := word];
    }
    if op == OP_CTRL {
      assert Falses(32)[..4] == Falses(4);
      assert i.pulses + [] == i.pulses;
    }
  }

  // -------------------------------------------------------- reading samples

  lemma ReadDataStep(i: Ila)
    requires i.Valid()
    ensures var r := Latch(i, OP_READ_DATA, Falses(32)); r.mem == i.mem && r.rdAddr == (i.rdAddr + 1) % |i.mem|
  {
  }

  lemma AddressFits(i: Ila)
    requires i.Valid()
    ensures i.rdAddr < |i.mem|
  {
  }

  lemma {:induction false} ReadDataSteps(i: Ila, k: nat)
    requires i.Valid()
    ensures var r := Latches(i, OP_READ_DATA, Falses(32), k);
      r.mem == i.mem && r.rdAddr == (i.rdAddr + k) % |i.mem|
  {
    hide Latch, Falses, Ila.Valid;
    AddressFits(i);
    if k > 0 {
      ReadDataSteps(i, k - 1);
      ReadDataStep(Latches(i, OP_READ_DATA, Falses(32), k - 1));
      ModStep(i.rdAddr + k - 1, |i.mem|);
    } else {
      DivModIs(i.rdAddr, |i.mem|, 0, i.rdAddr);
    }
  }

  /** Whether the next READ_DATA batch spends an increment on a prime scan. */
  function PrimeSteps(shadow: nat): nat { if shadow == OP_READ_DATA then 0 else 1 }

  lemma PrimedAddress(i: Ila, shadow: nat)
    requires i.Valid()
    ensures var p := Primed(i, shadow, OP_READ_DATA);
      p.mem == i.mem && p.rdAddr == (i.rdAddr + PrimeSteps(shadow)) % |i.mem|
  {
    hide Latch;
    ReadDataStep(i);
    DivModIs(i.rdAddr, |i.mem|, 0, i.rdAddr);
  }

  lemma ReadDataValue(i: Ila)
    requires i.Valid()
    ensures RegisterValue(i, OP_READ_DATA) == i.mem[i.rdAddr]
  {
  }

  /** Word k of a READ_DATA batch. */
  lemma SampleAt(i: Ila, shadow: nat, k: nat)
    requires Synchronised(i, shadow)
    ensures var p := Primed(i, shadow, OP_READ_DATA);
      Preload(Latches(p, OP_READ_DATA, Falses(32), k)) == i.mem[(i.rdAddr + PrimeSteps(shadow) + k) % |i.mem|]
  {
    hide CaptureFrame, Latch, Primed, Latches, RegisterValue, PrimeSteps;
    var p := Primed(i, shadow, OP_READ_DATA);
    PrimingReads(i, shadow, OP_READ_DATA);
    LatchesKeep(p, OP_READ_DATA, Falses(32), k);
    PrimedAddress(i, shadow);
    ReadDataSteps(p, k);
    ReadDataValue(Latches(p, OP_READ_DATA, Falses(32), k));
    AddMod(i.rdAddr + PrimeSteps(shadow), k, |i.mem|);
  }

  lemma {:induction false} AddMod(a: nat, k: nat, m: nat)
    requires m > 0
    ensures (a % m + k) % m == (a + k) % m
  {
    if k > 0 {
      AddMod(a, k - 1, m);
      ModStep(a % m + k - 1, m);
      ModStep(a + k - 1, m);
    } else {
      DivModIs(a % m, m, 0, a % m);
    }
  }

  // ------------------------------------------------------------- the driver

  datatype IlaCaps = IlaCaps(version: nat, numCh: nat, sigCount: nat, dataW: nat, addrW: nat, depth: nat,
                             raw: nat, idcode: nat, probed: bool)

  const DEFAULT_CAPS := IlaCaps(0, 1, 0, 32, 10, DEFAULT_DEPTH, 0, 0, false)

  /** The CONFIG register, field by field. */
  function DecodeConfig(raw: nat): IlaCaps {
    var addrW := raw % 256;
    IlaCaps(raw / Pow2(24) % 256, raw / Pow2(20) % 16, raw / Pow2(16) % 16, raw / Pow2(10) % 64 + 1, addrW,
            if addrW == 0 || addrW > 20 then DEFAULT_DEPTH else Pow2(addrW), raw, 0, raw / Pow2(24) % 256 != 0)
  }

  /** The capabilities a CONFIG word states, bit field by bit field: version in the top byte, then four bits each of
      channels and signal count, six of data width less one, two unused, eight of address width. A width of 0 or above
      20 bits leaves the default depth. */
  ghost predicate Describes(c: IlaCaps, config: Word) {
    && c.version == BitsNat(config[24..]) && c.numCh == BitsNat(config[20..24]) && c.sigCount == BitsNat(config[16..20])
    && c.dataW == BitsNat(config[10..16]) + 1 && c.addrW == BitsNat(config[..8])
    && c.depth == (if 1 <= BitsNat(config[..8]) <= 20 then Pow2(BitsNat(config[..8])) else 1024)
    && c.raw == BitsNat(config) && (c.probed <==> c.version != 0)
  }

  lemma ConfigFields(config: Word)
    ensures Describes(DecodeConfig(BitsNat(config)), config)
  {
    hide BitsNat, Pow2;
    FieldWidths();
    FieldOf(config, 24, 8);
    FieldOf(config, 20, 4);
    FieldOf(config, 16, 4);
    FieldOf(config, 10, 6);
    FieldOf(config, 0, 8);
    assert config[24..24 + 8] == config[24..] && config[0..8] == config[..8];
  }

  lemma FieldWidths()
    ensures Pow2(0) == 1 && Pow2(4) == 16 && Pow2(6) == 64 && Pow2(8) == 256
  {
    assert Pow2(2) == 4 && Pow2(4) == 4 * Pow2(2) && Pow2(6) == 4 * Pow2(4) && Pow2(8) == 4 * Pow2(6);
  }

  lemma DescribesStill(c: IlaCaps, config: Word)
    requires Describes(c, config)
    ensures forall id :: Describes(c.(idcode := id), config)
    ensures c.version == BitsNat(config[24..])
  {
    hide BitsNat, Pow2;
  }

  class IlaDriver {
    const backend: BscaneIlaTapBackend
    var caps: IlaCaps

    constructor (backend: BscaneIlaTapBackend)
      ensures this.backend == backend && caps == IlaCaps(0, 1, 0, 32, 10, 1024, 0, 0, false)
    {
      this.backend, caps := backend, DEFAULT_CAPS;
    }

    /** What the backend needs from its surroundings to be called at all. */
    ghost predicate Usable()
      reads this, backend, backend.chain`devices, backend.chain.tap`state, backend.chain.tap.device
    {
      && backend.chain.tap.device.Valid() && backend.Configured()
      && 0 <= backend.plTapIndex < |backend.chain.devices|
      && (forall i :: 0 <= i < |backend.chain.devices| ==> backend.chain.devices[i].irLength <= 32)
    }

    /** The core is there and the shadow is in step with it; USERn may not be selected yet. */
    ghost predicate Linked()
      reads this, backend, backend.chain`devices, backend.chain.tap`state, backend.chain.tap.device
    {
      Usable() && backend.Wired() && Synchronised(backend.Core(), backend.storedIrInHw)
    }

    /** How many transfers have failed so far. */
    ghost function Faults(): nat
      reads backend.chain.tap.device
    {
      backend.chain.tap.device.faults
    }

    method ShiftDrInt(drBits: nat, tdi: nat) returns (ok: bool, tdo: nat)
      requires Usable() && drBits <= 32
      modifies backend`storedIrInHw, backend.chain.tap, backend.chain.tap.device
      ensures Usable() && Faults() >= old(Faults())
      ensures ok <==> Faults() == old(Faults())
      ensures ok && old(backend.InStep()) ==>
        var i, shadow, op := old(backend.Core()), old(backend.storedIrInHw), backend.pendingIr;
        && backend.InStep() && backend.storedIrInHw == op
        && backend.Core() == Written(i, shadow, op, Padded(NatBits(tdi, drBits)))
        && tdo == BitsNat(RegisterValue(Primed(i, shadow, op), op)[..drBits])
    {
      hide Latch, RegisterValue, Primed, NatBits, Returns, PayloadOf, Attached, HasCore, CoreOf;
      tdo := 0;
      var tdiBuf := PackBits(tdi, drBits);
      PaddedPayload(tdiBuf, tdi, drBits);
      ghost var inStep := backend.InStep();
      ghost var op := backend.pendingIr;
      ghost var shadow := backend.storedIrInHw;
      ghost var word := if inStep then RegisterValue(Primed(backend.Core(), shadow, op), op) else Falses(32);
      var tdoBuf;
      ok, tdoBuf := backend.ShiftDr(drBits, tdiBuf);
      if !ok { return; }
      if inStep { ReturnedNumber(tdoBuf, drBits, word); }
      tdo := ReadNumber(tdoBuf, 0, drBits);
    }

    /** selectIr then one shift: the driver's way to reach a register. */
    method Access(op: nat, drBits: nat, tdi: nat) returns (ok: bool, tdo: nat)
      requires Usable() && drBits <= 32 && op < 32
      modifies backend, backend.chain`lastError, backend.chain.tap, backend.chain.tap.device
      ensures Usable() && Faults() >= old(Faults())
      ensures (ok ==> Faults() == old(Faults())) && (old(Linked()) && Faults() == old(Faults()) ==> ok)
      ensures ok && old(Linked()) ==>
        var i, shadow := old(backend.Core()), old(backend.storedIrInHw);
        && Linked() && backend.storedIrInHw == op
        && backend.Core() == Written(i, shadow, op, Padded(NatBits(tdi, drBits)))
        && tdo == BitsNat(RegisterValue(Primed(i, shadow, op), op)[..drBits])
    {
      hide Latch, RegisterValue, Primed, NatBits, Attached, HasCore, CoreOf, BitsNat;
      tdo := 0;
      ok := backend.SelectIr(op);
      if !ok { return; }
      ok, tdo := ShiftDrInt(drBits, tdi);
    }

    method SetReadAddr(addr: nat) returns (ok: bool)
      requires Usable() && caps.addrW <= 32
      modifies backend, backend.chain`lastError, backend.chain.tap, backend.chain.tap.device
      ensures Usable() && Faults() >= old(Faults())
      ensures (ok ==> Faults() == old(Faults()))
      ensures (old(Linked()) && Faults() == old(Faults()) && addr < caps.depth ==> ok)
      ensures addr >= caps.depth ==> !ok && backend.chain.tap.device.hw == old(backend.chain.tap.device.hw)
      ensures ok && old(Linked()) ==>
        && Linked() && backend.storedIrInHw == OP_READ_ADDR && backend.Core().mem == old(backend.Core()).mem
        && (caps.addrW == old(backend.Core()).addrW && addr < Pow2(caps.addrW) ==> backend.Core().rdAddr == addr)
    {
      hide Latch, RegisterValue, Primed, NatBits, Attached, HasCore, CoreOf, BitsNat, Written, Padded;
      if addr >= caps.depth {
        return false;
      }
      ghost var linked := Linked();
      ghost var i := if linked then backend.Core() else EMPTY_CORE;
      ghost var shadow := backend.storedIrInHw;
      var d;
      ok, d := Access(OP_READ_ADDR, caps.addrW, addr);
      if ok && linked {
        WriteEffect(i, shadow, OP_READ_ADDR, Padded(NatBits(addr, caps.addrW)));
        if caps.addrW == i.addrW && addr < Pow2(caps.addrW) {
          AddressArrives(addr, caps.addrW);
          DivModIs(addr, |i.mem|, 0, addr);
        }
      }
    }

    /** Reads `count` samples; sample k is the word `k` places after the first one captured. */
    method ReadSamples(count: nat) returns (ok: bool, out: seq<nat>)
      requires Usable() && caps.dataW <= 32
      modifies backend, backend.chain`lastError, backend.chain.tap, backend.chain.tap.device
      ensures Usable() && Faults() >= old(Faults())
      ensures (ok ==> Faults() == old(Faults())) && (old(Linked()) && Faults() == old(Faults()) ==> ok)
      ensures ok ==> |out| == count
      ensures ok && old(Linked()) ==>
        var i, first := old(backend.Core()), old(backend.Core()).rdAddr + PrimeSteps(old(backend.storedIrInHw));
        && Linked() && backend.Core().mem == i.mem
        && forall k :: 0 <= k < count ==> out[k] == BitsNat(i.mem[(first + k) % |i.mem|][..caps.dataW])
    {
      hide Latch, RegisterValue, Primed, Attached, HasCore, CoreOf, BitsNat, Preload, BatchReturns;
      out := [];
      ghost var linked, shadow := Linked(), backend.storedIrInHw;
      ghost var i := if linked then backend.Core() else EMPTY_CORE;
      var flat;
      ok, flat := Burst(count, caps.dataW);
      if !ok { return; }
      out := UnpackSamples(flat, count, caps.dataW, i, shadow);
    }

    /** One batch of READ_DATA scans. */
    method Burst(count: nat, w: nat) returns (ok: bool, flat: seq<byte>)
      requires Usable() && w <= 32
      modifies backend, backend.chain`lastError, backend.chain.tap, backend.chain.tap.device
      ensures Usable() && Faults() >= old(Faults())
      ensures (ok ==> Faults() == old(Faults())) && (old(Linked()) && Faults() == old(Faults()) ==> ok)
      ensures ok ==> |flat| == count * ((w + 7) / 8)
      ensures ok && old(Linked()) ==> var i := old(backend.Core());
        && Linked() && backend.Core().mem == i.mem
        && BatchReturns(flat, Primed(i, old(backend.storedIrInHw), OP_READ_DATA), OP_READ_DATA, Falses(32), w, count)
    {
      hide Latch, RegisterValue, Primed, Attached, HasCore, CoreOf, Preload, BatchReturns, Latches, PayloadOf, OnlyCore;
      flat := [];
      ghost var linked, shadow := Linked(), backend.storedIrInHw;
      ghost var i := if linked then backend.Core() else EMPTY_CORE;
      ok := backend.SelectIr(OP_READ_DATA);
      if !ok { return; }
      var zeros: seq<byte> := [0, 0, 0, 0];
      ZeroPayload(zeros, w);
      ok, flat := backend.ShiftDrBatch(count, w, zeros);
      if !ok { return; }
      if linked { BatchMemory(i, shadow, count); }
    }

    /** The panel's readout: address depth - 1 cut to 16 bits, then a full batch. */
    method ReadAll() returns (ok: bool, out: seq<nat>)
      requires Usable() && caps.dataW <= 32 && caps.addrW <= 32 && caps.depth > 0
      modifies backend, backend.chain`lastError, backend.chain.tap, backend.chain.tap.device
      ensures Usable() && Faults() >= old(Faults())
      ensures (ok ==> Faults() == old(Faults())) && (old(Linked()) && Faults() == old(Faults()) ==> ok)
      ensures ok ==> |out| == caps.depth
      ensures ok && old(Linked()) && caps.addrW == old(backend.Core()).addrW && caps.depth == Pow2(caps.addrW) ==>
        var mem := old(backend.Core()).mem;
        && Linked() && backend.Core().mem == mem
        && forall k :: 0 <= k < caps.depth ==>
          out[k] == BitsNat(mem[SampleIndex(caps.depth, k)][..caps.dataW])
    {
      hide BitsNat, Attached, HasCore, CoreOf, Pow2, Latch, RegisterValue, Primed, Preload;
      out := [];
      CutIsSmaller(caps.depth - 1);
      ok := SetReadAddr((caps.depth - 1) % 65536);
      if !ok { return; }
      ok, out := ReadSamples(caps.depth);
    }

    method Ctrl(flags: nat) returns (ok: bool)
      requires Usable() && flags in {CTRL_ARM, CTRL_STOP, CTRL_RESET, CTRL_FORCE}
      modifies backend, backend.chain`lastError, backend.chain.tap, backend.chain.tap.device
      ensures Usable() && Faults() >= old(Faults())
      ensures (ok ==> Faults() == old(Faults())) && (old(Linked()) && Faults() == old(Faults()) ==> ok)
      ensures ok && old(Linked()) ==>
        && Linked() && backend.Core().mem == old(backend.Core()).mem
        && backend.Core().triggers == old(backend.Core()).triggers
        && backend.Core().pulses == old(backend.Core()).pulses
          + (if old(backend.storedIrInHw) != OP_CTRL then [Falses(4)] else []) + [NatBits(flags, 4)]
    {
      hide NatBits, Latch, Attached, HasCore, CoreOf, RegisterValue, Primed, Written;
      var d;
      ghost var linked := Linked();
      ghost var i := if linked then backend.Core() else EMPTY_CORE;
      WriteEffect(i, backend.storedIrInHw, OP_CTRL, Padded(NatBits(flags, 4)));
      assert Padded(NatBits(flags, 4))[..4] == NatBits(flags, 4);
      ok, d := Access(OP_CTRL, 4, flags);
    }

    /** The control flags the core saw since `i`: one write's, and none in the prime scan before it. */
    ghost predicate Pulsed(i: Ila, shadow: nat, flags: seq<bool>)
      requires Linked()
      reads this, backend, backend.chain`devices, backend.chain.tap`state, backend.chain.tap.device
    {
      && backend.Core().mem == i.mem && backend.Core().triggers == i.triggers
      && backend.Core().pulses == i.pulses + (if shadow != 0x08 then [Falses(4)] else []) + [flags]
    }

    /** One control write with the ARM flag alone, the first of FORCE, RESET, STOP and ARM from the right. */
    method Arm() returns (ok: bool)
      requires Usable()
      modifies backend, backend.chain`lastError, backend.chain.tap, backend.chain.tap.device
      ensures Usable() && Faults() >= old(Faults())
      ensures (ok ==> Faults() == old(Faults())) && (old(Linked()) && Faults() == old(Faults()) ==> ok)
      ensures ok && old(Linked()) ==>
        && Linked() && Pulsed(old(backend.Core()), old(backend.storedIrInHw), [true, false, false, false])
        && ArmPulses(backend.Core().pulses) == ArmPulses(old(backend.Core()).pulses) + 1
    {
      hide Attached, HasCore, CoreOf, NatBits;
      ghost var was := if Linked() then backend.Core().pulses else [];
      ok := Ctrl(CTRL_ARM);
      FlagBits();
      ArmBits();
      ArmAppend(was, [Falses(4)]);
      ArmAppend(was + [Falses(4)], [NatBits(CTRL_ARM, 4)]);
      ArmAppend(was, [NatBits(CTRL_ARM, 4)]);
      assert was + [] == was;
    }

    method Stop() returns (ok: bool)
      requires Usable()
      modifies backend, backend.chain`lastError, backend.chain.tap, backend.chain.tap.device
      ensures Usable() && Faults() >= old(Faults())
      ensures (ok ==> Faults() == old(Faults())) && (old(Linked()) && Faults() == old(Faults()) ==> ok)
      ensures ok && old(Linked()) ==>
        Linked() && Pulsed(old(backend.Core()), old(backend.storedIrInHw), [false, true, false, false])
    {
      hide Attached, HasCore, CoreOf, NatBits;
      FlagBits();
      ok := Ctrl(CTRL_STOP);
    }

    method ResetCapture() returns (ok: bool)
      requires Usable()
      modifies backend, backend.chain`lastError, backend.chain.tap, backend.chain.tap.device
      ensures Usable() && Faults() >= old(Faults())
      ensures (ok ==> Faults() == old(Faults())) && (old(Linked()) && Faults() == old(Faults()) ==> ok)
      ensures ok && old(Linked()) ==>
        Linked() && Pulsed(old(backend.Core()), old(backend.storedIrInHw), [false, false, true, false])
    {
      hide Attached, HasCore, CoreOf, NatBits;
      FlagBits();
      ok := Ctrl(CTRL_RESET);
    }

    method ForceTrigger() returns (ok: bool)
      requires Usable()
      modifies backend, backend.chain`lastError, backend.chain.tap, backend.chain.tap.device
      ensures Usable() && Faults() >= old(Faults())
      ensures (ok ==> Faults() == old(Faults())) && (old(Linked()) && Faults() == old(Faults()) ==> ok)
      ensures ok && old(Linked()) ==>
        Linked() && Pulsed(old(backend.Core()), old(backend.storedIrInHw), [false, false, false, true])
    {
      hide Attached, HasCore, CoreOf, NatBits;
      FlagBits();
      ok := Ctrl(CTRL_FORCE);
    }

    /** A trigger the core's depth or version does not offer. */
    ghost predicate Refused(riseMask: nat, fallMask: nat, mask2: nat, val2: nat, orMode: bool, preSamples: nat)
      reads this
    {
      || preSamples >= caps.depth
      || (caps.version < 2 && (riseMask != 0 || fallMask != 0))
      || (caps.version < 3 && (mask2 != 0 || val2 != 0 || orMode))
    }

    /** Programs the trigger. Refusals leave the hardware alone. */
    method ConfigureTrigger(mask: nat, value: nat, riseMask: nat, fallMask: nat, mask2: nat, val2: nat, orMode: bool,
                            preSamples: nat)
        returns (ok: bool)
      requires Usable() && 0 < caps.dataW <= 32 && caps.addrW <= 32
      modifies backend, backend.chain`lastError, backend.chain.tap, backend.chain.tap.device
      ensures Usable() && Faults() >= old(Faults())
      ensures ok ==> Faults() == old(Faults())
      ensures Refused(riseMask, fallMask, mask2, val2, orMode, preSamples) ==>
        !ok && backend.chain.tap.device.hw == old(backend.chain.tap.device.hw)
      ensures old(Linked()) && Faults() == old(Faults()) ==>
        (ok <==> !Refused(riseMask, fallMask, mask2, val2, orMode, preSamples))
      ensures ok && old(Linked()) ==>
        && Linked() && SameBut(backend.Core(), old(backend.Core()))
        && backend.Core().triggers ==
          TriggersFor(old(backend.Core()).triggers, caps.version, caps.dataW, mask, value, riseMask, fallMask,
                      mask2, val2)
        && backend.Core().orMode == (if caps.version >= 3 then orMode else old(backend.Core()).orMode)
        && backend.Core().preSamples == BitsNat(Padded(NatBits(preSamples, caps.addrW))) % |backend.Core().mem|
      ensures ok && old(Linked()) ==>
        TriggerIs(backend.Core(), old(backend.Core()), caps.version, caps.dataW, mask, value, riseMask, fallMask, mask2,
                  val2)
    {
      hide NatBits, BitsNat, Attached, HasCore, CoreOf, Padded, WithPair, TriggerIs;
      ghost var was := if Linked() then backend.Core() else EMPTY_CORE;
      if preSamples >= caps.depth { return false; }
      if caps.version < 2 && (riseMask != 0 || fallMask != 0) { return false; }
      if caps.version < 3 && (mask2 != 0 || val2 != 0 || orMode) { return false; }
      ok := ProgramPair(OP_TRIG_MASK, mask, OP_TRIG_VAL, value);
      if !ok { return; }
      ok := Program(OP_PRE_SAMPLES, caps.addrW, preSamples);
      if !ok { return; }
      if caps.version >= 2 {
        ok := ProgramPair(OP_TRIG_RISE, riseMask, OP_TRIG_FALL, fallMask);
        if !ok { return; }
      }
      if caps.version >= 3 {
        ok := ProgramOrMode(mask2, val2, orMode);
      }
      if ok && old(Linked()) {
        TriggerRegisters(backend.Core(), was, caps.version, caps.dataW, mask, value, riseMask, fallMask, mask2, val2);
      }
    }

    /** The second condition and how it combines with the first. */
    method ProgramOrMode(mask2: nat, val2: nat, orMode: bool) returns (ok: bool)
      requires Usable() && 0 < caps.dataW <= 32
      modifies backend, backend.chain`lastError, backend.chain.tap, backend.chain.tap.device
      ensures Usable() && Faults() >= old(Faults())
      ensures (ok ==> Faults() == old(Faults())) && (old(Linked()) && Faults() == old(Faults()) ==> ok)
      ensures ok && old(Linked()) ==>
        && Linked() && SameBut(backend.Core(), old(backend.Core()))
        && backend.Core().triggers
          == WithPair(old(backend.Core()).triggers, caps.dataW, OP_TRIG_MASK2, mask2, OP_TRIG_VAL2, val2)
        && backend.Core().orMode == orMode && backend.Core().preSamples == old(backend.Core()).preSamples
    {
      hide NatBits, BitsNat, Attached, HasCore, CoreOf, Padded, WithPair;
      ok := ProgramPair(OP_TRIG_MASK2, mask2, OP_TRIG_VAL2, val2);
      if !ok { return; }
      FirstBit(caps.dataW, orMode);
      ok := Program(OP_TRIG_CTRL, caps.dataW, if orMode then 1 else 0);
    }

    /** Two trigger registers of data width. */
    method ProgramPair(opA: nat, a: nat, opB: nat, b: nat) returns (ok: bool)
      requires Usable() && caps.dataW <= 32 && opA in TRIGGER_REGS && opB in TRIGGER_REGS
      modifies backend, backend.chain`lastError, backend.chain.tap, backend.chain.tap.device
      ensures Usable() && Faults() >= old(Faults())
      ensures (ok ==> Faults() == old(Faults())) && (old(Linked()) && Faults() == old(Faults()) ==> ok)
      ensures ok && old(Linked()) ==>
        && Linked() && SameBut(backend.Core(), old(backend.Core()))
        && backend.Core().triggers == WithPair(old(backend.Core()).triggers, caps.dataW, opA, a, opB, b)
        && backend.Core().orMode == old(backend.Core()).orMode
        && backend.Core().preSamples == old(backend.Core()).preSamples
    {
      hide NatBits, BitsNat, Attached, HasCore, CoreOf, Padded;
      ok := Program(opA, caps.dataW, a);
      if !ok { return; }
      ok := Program(opB, caps.dataW, b);
    }

    /** A write of a trigger or pre-sample register. */
    method Program(op: nat, bits: nat, value: nat) returns (ok: bool)
      requires Usable() && bits <= 32 && (op in TRIGGER_REGS || op in {OP_PRE_SAMPLES, OP_TRIG_CTRL})
      modifies backend, backend.chain`lastError, backend.chain.tap, backend.chain.tap.device
      ensures Usable() && Faults() >= old(Faults())
      ensures (ok ==> Faults() == old(Faults())) && (old(Linked()) && Faults() == old(Faults()) ==> ok)
      ensures ok && old(Linked()) ==>
        && Linked()
        && var i, r, word := old(backend.Core()), backend.Core(), Padded(NatBits(value, bits));
        && SameBut(r, i)
        && (r.triggers == if op in TRIGGER_REGS then i.triggers[op := word] else i.triggers)
        && (r.orMode == if op == OP_TRIG_CTRL then word[0] else i.orMode)
        && (r.preSamples == if op == OP_PRE_SAMPLES then BitsNat(word) % |i.mem| else i.preSamples)
    {
      hide NatBits, BitsNat, Latch, Attached, HasCore, CoreOf, RegisterValue, Primed, Written, Padded;
      ghost var linked := Linked();
      ghost var i := if linked then backend.Core() else EMPTY_CORE;
      WriteEffect(i, backend.storedIrInHw, op, Padded(NatBits(value, bits)));
      var d;
      ok, d := Access(op, bits, value);
    }

    method ReadIdcode() returns (ok: bool, idcode: nat)
      requires Usable()
      modifies backend, backend.chain`lastError, backend.chain.tap, backend.chain.tap.device
      ensures Usable() && Faults() >= old(Faults())
      ensures (ok ==> Faults() == old(Faults())) && (old(Linked()) && Faults() == old(Faults()) ==> ok)
      ensures ok && old(Linked()) ==>
        Linked() && SameBut(backend.Core(), old(backend.Core())) && idcode == BitsNat(old(backend.Core()).idcode)
    {
      ok, idcode := ReadRegister(OP_IDCODE);
    }

    /** A read of one of the constant registers. */
    method ReadRegister(op: nat) returns (ok: bool, value: nat)
      requires Usable() && op in {OP_IDCODE, OP_CONFIG}
      modifies backend, backend.chain`lastError, backend.chain.tap, backend.chain.tap.device
      ensures Usable() && Faults() >= old(Faults())
      ensures (ok ==> Faults() == old(Faults())) && (old(Linked()) && Faults() == old(Faults()) ==> ok)
      ensures ok && old(Linked()) ==>
        && Linked() && SameBut(backend.Core(), old(backend.Core()))
        && value == BitsNat(if op == OP_IDCODE then old(backend.Core()).idcode else old(backend.Core()).config)
    {
      hide NatBits, BitsNat, Latch, Attached, HasCore, CoreOf, Primed, Written, Padded;
      ghost var linked := Linked();
      ghost var i := if linked then backend.Core() else EMPTY_CORE;
      WriteEffect(i, backend.storedIrInHw, op, Padded(NatBits(0, 32)));
      PrimedConstants(i, backend.storedIrInHw, op);
      ok, value := Access(op, 32, 0);
    }

    /** Reads CONFIG after a warm-up read whose own failure is ignored. Without a failed transfer the cached
        capabilities are the decoded registers; a zero version leaves them unchanged. */
    method Probe() returns (ok: bool, out: IlaCaps)
      requires Usable()
      modifies this, backend, backend.chain`lastError, backend.chain.tap, backend.chain.tap.device
      ensures Usable() && Faults() >= old(Faults()) && out == caps
      ensures !ok ==> caps == old(caps)
      ensures ok ==> caps.probed && caps.version != 0
      ensures old(Linked()) && Faults() == old(Faults()) ==>
        && Linked() && SameBut(backend.Core(), old(backend.Core()))
        && (ok <==> BitsNat(old(backend.Core()).config[24..]) != 0)
        && (ok ==> Describes(caps, old(backend.Core()).config) && caps.idcode == BitsNat(old(backend.Core()).idcode))
    {
      hide BitsNat, Attached, HasCore, CoreOf, DecodeConfig, Describes;
      ghost var linked := Linked();
      ghost var config: Word := if linked then backend.Core().config else Falses(32);
      ConfigFields(config);
      DescribesStill(DecodeConfig(BitsNat(config)), config);
      var warm, idcode0 := ReadIdcode();
      var raw;
      ok, raw := ReadRegister(OP_CONFIG);
      out := caps;
      if !ok { return; }
      var c := DecodeConfig(raw);
      DecodedFields(raw);
      if !c.probed {
        return false, caps;
      }
      var again, idcode := ReadIdcode();
      caps := c.(idcode := if again then idcode else 0);
      out := caps;
    }
  }

  lemma PrimedConstants(i: Ila, shadow: nat, op: nat)
    requires i.Valid() && op in {OP_IDCODE, OP_CONFIG}
    ensures RegisterValue(Primed(i, shadow, op), op) == if op == OP_IDCODE then i.idcode else i.config
    ensures RegisterValue(Primed(i, shadow, op), op)[..32] == RegisterValue(Primed(i, shadow, op), op)
  {
  }

  lemma DecodedFields(raw: nat)
    ensures var c := DecodeConfig(raw);
      c.probed == (c.version != 0) && c.raw == raw && c.idcode == 0 && 1 <= c.dataW <= 64
  {
    hide Pow2;
  }

  /** The sample memory, read pointer, identification and pulse history are untouched. */
  ghost predicate SameBut(r: Ila, i: Ila) {
    r.mem == i.mem && r.rdAddr == i.rdAddr && r.pulses == i.pulses && r.addrW == i.addrW
    && r.idcode == i.idcode && r.config == i.config && r.status == i.status
  }

  function TriggersFor(t: map<nat, Word>, version: nat, w: nat, mask: nat, value: nat,
                       riseMask: nat, fallMask: nat, mask2: nat, val2: nat): map<nat, Word>
    requires w <= 32
  {
    var t1 := WithPair(t, w, OP_TRIG_MASK, mask, OP_TRIG_VAL, value);
    var t2 := if version < 2 then t1 else WithPair(t1, w, OP_TRIG_RISE, riseMask, OP_TRIG_FALL, fallMask);
    if version < 3 then t2 else WithPair(t2, w, OP_TRIG_MASK2, mask2, OP_TRIG_VAL2, val2)
  }

  /** What the core's own trigger registers hold, by the codes of its RTL: the two words every version has, the edge
      masks of version 2, the second condition of version 3. Registers a version lacks keep their words. */
  ghost predicate TriggerIs(r: Ila, i: Ila, version: nat, w: nat, mask: nat, value: nat, riseMask: nat, fallMask: nat,
                            mask2: nat, val2: nat)
    requires w <= 32 && r.Valid() && i.Valid()
  {
    && RegisterValue(r, 0x0A) == Padded(NatBits(mask, w)) && RegisterValue(r, 0x0B) == Padded(NatBits(value, w))
    && (version >= 2 ==> RegisterValue(r, 0x0F) == Padded(NatBits(riseMask, w)))
    && (version >= 2 ==> RegisterValue(r, 0x10) == Padded(NatBits(fallMask, w)))
    && (version >= 3 ==>
         RegisterValue(r, 0x11) == Padded(NatBits(mask2, w)) && RegisterValue(r, 0x12) == Padded(NatBits(val2, w)))
    && (version < 2 ==>
         RegisterValue(r, 0x0F) == RegisterValue(i, 0x0F) && RegisterValue(r, 0x10) == RegisterValue(i, 0x10))
    && (version < 3 ==>
         RegisterValue(r, 0x11) == RegisterValue(i, 0x11) && RegisterValue(r, 0x12) == RegisterValue(i, 0x12))
  }

  lemma TriggersAre(t: map<nat, Word>, version: nat, w: nat, mask: nat, value: nat, riseMask: nat, fallMask: nat,
                    mask2: nat, val2: nat)
    requires w <= 32 && forall op :: op in {0x0A, 0x0B, 0x0F, 0x10, 0x11, 0x12} ==> op in t
    ensures var n := TriggersFor(t, version, w, mask, value, riseMask, fallMask, mask2, val2);
      && {0x0A, 0x0B, 0x0F, 0x10, 0x11, 0x12} <= n.Keys
      && n[0x0A] == Padded(NatBits(mask, w)) && n[0x0B] == Padded(NatBits(value, w))
      && n[0x0F] == (if version >= 2 then Padded(NatBits(riseMask, w)) else t[0x0F])
      && n[0x10] == (if version >= 2 then Padded(NatBits(fallMask, w)) else t[0x10])
      && n[0x11] == (if version >= 3 then Padded(NatBits(mask2, w)) else t[0x11])
      && n[0x12] == (if version >= 3 then Padded(NatBits(val2, w)) else t[0x12])
  {
    hide NatBits, Padded;
  }

  lemma TriggerRegisters(r: Ila, i: Ila, version: nat, w: nat, mask: nat, value: nat, riseMask: nat, fallMask: nat,
                         mask2: nat, val2: nat)
    requires w <= 32 && r.Valid() && i.Valid()
    requires r.triggers == TriggersFor(i.triggers, version, w, mask, value, riseMask, fallMask, mask2, val2)
    ensures TriggerIs(r, i, version, w, mask, value, riseMask, fallMask, mask2, val2)
  {
    hide NatBits, Padded, TriggersFor;
    TriggersAre(i.triggers, version, w, mask, value, riseMask, fallMask, mask2, val2);
  }

  function WithPair(t: map<nat, Word>, w: nat, opA: nat, a: nat, opB: nat, b: nat): map<nat, Word>
    requires w <= 32
  {
    t[opA := Padded(NatBits(a, w))][opB := Padded(NatBits(b, w))]
  }

  lemma FirstBit(w: nat, b: bool)
    requires 0 < w <= 32
    ensures Padded(NatBits(if b then 1 else 0, w))[0] == b
  {
  }

  /** How often the ARM flag was pulsed. */
  function ArmPulses(pulses: seq<seq<bool>>): nat {
    if pulses == [] then 0 else (if pulses[0] != [] && pulses[0][0] then 1 else 0) + ArmPulses(pulses[1..])
  }

  lemma {:induction false} ArmAppend(a: seq<seq<bool>>, b: seq<seq<bool>>)
    ensures ArmPulses(a + b) == ArmPulses(a) + ArmPulses(b)
  {
    if a == [] {
      assert a + b == b;
    } else {
      assert (a + b)[1..] == a[1..] + b;
      ArmAppend(a[1..], b);
    }
  }

  lemma ArmBits()
    ensures ArmPulses([Falses(4)]) == 0 && ArmPulses([NatBits(CTRL_ARM, 4)]) == 1
  {
    assert [Falses(4)][1..] == [] && [NatBits(CTRL_ARM, 4)][1..] == [];
  }

  lemma CutIsSmaller(x: nat)
    ensures x % 65536 <= x
  {
  }

  lemma FlagBits()
    ensures NatBits(CTRL_ARM, 4) == [true, false, false, false] && NatBits(CTRL_STOP, 4) == [false, true, false, false]
    ensures NatBits(CTRL_RESET, 4) == [false, false, true, false]
    ensures NatBits(CTRL_FORCE, 4) == [false, false, false, true]
  {
  }

  /** Where sample k of ReadAll comes from. */
  function SampleIndex(depth: nat, k: nat): (r: nat)
    requires depth > 0
    ensures r < depth
  {
    ((depth - 1) % 65536 + 1 + k) % depth
  }

  /** Reading a whole buffer through ReadAll is reading the memory in order exactly when the depth fits
      the 16-bit address argument. */
  lemma InOrderIffSixteenBits(addrW: nat, depth: nat)
    requires 0 < addrW <= 32 && depth == Pow2(addrW)
    ensures (forall k :: 0 <= k < depth ==> SampleIndex(depth, k) == k) <==> addrW <= 16
  {
    hide Pow2;
    KnownPowers();
    if addrW <= 16 {
      Pow2Grows(addrW, 16);
      DivModIs(depth - 1, 65536, 0, depth - 1);
      forall k | 0 <= k < depth ensures SampleIndex(depth, k) == k { DivModIs(depth + k, depth, 1, k); }
    } else {
      Pow2Grows(17, addrW);
      Pow2Split(addrW - 16, 16);
      DivModIs(depth - 1, 65536, Pow2(addrW - 16) - 1, 65535);
      DivModIs(65536, depth, 0, 65536);
      assert SampleIndex(depth, 0) == 65536;
    }
  }

  lemma {:induction false} Pow2Split(a: nat, b: nat)
    ensures Pow2(a + b) == Pow2(a) * Pow2(b)
    decreases b
  {
    if b > 0 {
      Pow2Split(a, b - 1);
      assert Pow2(a) * (2 * Pow2(b - 1)) == 2 * (Pow2(a) * Pow2(b - 1));
    }
  }

  lemma ZeroPayload(z: seq<byte>, w: nat)
    requires z == [0, 0, 0, 0] && w <= 32
    ensures PayloadOf(z, w) == Falses(32)
  {
    hide Bit;
    forall k | 0 <= k < w ensures !Bits(z, 0, w)[k] { BitOfZero(k % 8); }
  }

  lemma BatchMemory(i: Ila, shadow: nat, count: nat)
    requires Synchronised(i, shadow)
    ensures Latches(Primed(i, shadow, OP_READ_DATA), OP_READ_DATA, Falses(32), count).mem == i.mem
  {
    ReadDataSteps(Primed(i, shadow, OP_READ_DATA), count);
  }

  /** Cuts the flat answer into samples. */
  method UnpackSamples(flat: seq<byte>, count: nat, w: nat, ghost i: Ila, ghost shadow: nat) returns (out: seq<nat>)
    requires w <= 32 && |flat| == count * ((w + 7) / 8)
    ensures |out| == count
    ensures
      && Synchronised(i, shadow)
      && BatchReturns(flat, Primed(i, shadow, OP_READ_DATA), OP_READ_DATA, Falses(32), w, count) ==>
      forall k :: 0 <= k < count ==> out[k] == BitsNat(i.mem[(i.rdAddr + PrimeSteps(shadow) + k) % |i.mem|][..w])
  {
    hide Returns, Slice, Latches, Primed, Preload, BitsNat;
    ghost var good := Synchronised(i, shadow)
      && BatchReturns(flat, Primed(i, shadow, OP_READ_DATA), OP_READ_DATA, Falses(32), w, count);
    var per := (w + 7) / 8;
    out := [];
    for k := 0 to count
      invariant |out| == k
      invariant good ==> forall j :: 0 <= j < k ==>
        out[j] == BitsNat(i.mem[(i.rdAddr + PrimeSteps(shadow) + j) % |i.mem|][..w])
    {
      Underrun(k, count, per);
      var slice := flat[k * per..(k + 1) * per];
      SliceIs(flat, k, per);
      if good {
        SampleAt(i, shadow, k);
        var p := Primed(i, shadow, OP_READ_DATA);
        ReturnedNumber(slice, w, Preload(Latches(p, OP_READ_DATA, Falses(32), k)));
      }
      var v := ReadNumber(slice, 0, w);
      out := out + [v];
    }
  }
}
