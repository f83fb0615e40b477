/** The two ways to reach the logic analyser: as a device of its own, and through the BSCANE2
    USERn register of the PL TAP, where a software shadow tracks the hidden opcode latch. */
module Backend {
  import opened Bytes
  import opened IlaCore
  import opened Hardware
  import opened TapControl
  import opened Chain

  /** One scan addressed to device t: the payload in, the bits at the target's place out. */
  method ShiftTarget(chain: JtagChain, t: nat, payload: seq<byte>, bits: nat) returns (ok: bool, out: seq<byte>)
    requires chain.tap.device.Valid() && t < |chain.devices| && bits <= 8 * |payload|
    modifies chain.tap, chain.tap.device
    ensures chain.tap.device.Valid() && chain.tap.device.faults >= old(chain.tap.device.faults)
    ensures ok <==> bits + |chain.devices| > 1 && chain.tap.device.faults == old(chain.tap.device.faults)
    ensures ok ==> |out| == (bits + 7) / 8
    ensures ok && old(chain.Addressing(t)) ==>
      var c, p := old(chain.tap.device.hw).chain, Bits(payload, 0, bits);
      && chain.Addressing(t) && chain.tap.device.hw.chain == DrScan(c, Frame(|c|, t, p))
      && Packs(out, DrScanTdo(c, Frame(|c|, t, p))[t..t + bits])
  {
    hide DrScan, DrScanTdo, Bits, Holds, Frame, GetBit, Targets, ReadsOver;
    ghost var c, p := chain.tap.device.hw.chain, Bits(payload, 0, bits);
    var n := |chain.devices|;
    var full := AssembleFrame(n, t, payload, bits);
    ghost var frame := Frame(n, t, p);
    HoldsBits(full, frame);
    var tdo;
    out := [];
    ok, tdo := chain.tap.ShiftDR(full, bits + n - 1, []);
    if !ok { return; }
    out := ExtractBits(tdo, t, bits);
    if old(chain.Addressing(t)) {
      FreshReads(tdo, DrScanTdo(c, frame));
      ExtractedIs(tdo, DrScanTdo(c, frame), t, bits);
      DrScanKeepsTarget(c, frame, Lengths(chain.devices), t);
    }
  }

  // ------------------------------------------------- a dedicated ILA device

  class ChainIlaTapBackend {
    const chain: JtagChain
    const deviceIndex: int

    constructor (chain: JtagChain, deviceIndex: int)
      ensures this.chain == chain && this.deviceIndex == deviceIndex
    {
      this.chain, this.deviceIndex := chain, deviceIndex;
    }

    ghost function Faults(): nat
      reads chain.tap.device
    {
      chain.tap.device.faults
    }

    method SelectIr(opcode: nat) returns (ok: bool)
      requires chain.tap.device.Valid() && forall i :: 0 <= i < |chain.devices| ==> chain.devices[i].irLength <= 32
      modifies chain`lastError, chain.tap, chain.tap.device
      ensures chain.tap.device.Valid() && Faults() >= old(Faults()) && (ok ==> Faults() == old(Faults()))
      ensures old(chain.Ready()) && 0 <= deviceIndex < |chain.devices| && Faults() == old(Faults()) ==> ok
      ensures ok && old(chain.Ready()) ==>
        && 0 <= deviceIndex < |chain.devices| && chain.Addressing(deviceIndex)
        && chain.tap.device.hw.chain == Select(old(chain.tap.device.hw).chain, deviceIndex, opcode)
    {
      ok := chain.SelectInstruction(deviceIndex, opcode);
    }

    /** Reads what passes at the selected register and leaves its end there; when drBits is the register's
        width that is its captured bits out and the payload in. */
    method ShiftDr(drBits: nat, tdi: seq<byte>) returns (ok: bool, tdo: seq<byte>)
      requires chain.tap.device.Valid() && drBits <= 8 * |tdi|
      requires 0 <= deviceIndex && (|chain.devices| > 0 ==> deviceIndex < |chain.devices|)
      modifies chain.tap, chain.tap.device
      ensures chain.tap.device.Valid() && Faults() >= old(Faults())
      ensures ok <==> |chain.devices| > 0 && drBits + |chain.devices| > 1 && Faults() == old(Faults())
      ensures |chain.devices| == 0 ==> chain.tap.device.hw == old(chain.tap.device.hw)
      ensures ok && old(chain.Addressing(deviceIndex)) ==>
        var c, p := old(chain.tap.device.hw).chain, Bits(tdi, 0, drBits);
        var reg := CaptureDevice(c[deviceIndex]);
        var s := Passing(reg, |c|, p);
        && chain.Addressing(deviceIndex)
        && chain.tap.device.hw.chain == c[deviceIndex := UpdateDevice(c[deviceIndex], s[drBits + |c| - 1..])]
        && Packs(tdo, s[..drBits])
        && (drBits == |reg| ==> s[drBits + |c| - 1..] == p && s[..drBits] == reg)
    {
      hide DrScan, DrScanTdo, CaptureDevice, UpdateDevice, Bits, Frame, Targets, GetBit, Passing;
      tdo := [];
      if |chain.devices| == 0 {
        return false, [];
      }
      ghost var c, p := chain.tap.device.hw.chain, Bits(tdi, 0, drBits);
      ok, tdo := ShiftTarget(chain, deviceIndex, tdi, drBits);
      if ok && old(chain.Addressing(deviceIndex)) {
        TargetScan(c, deviceIndex, p);
        if drBits == |CaptureDevice(c[deviceIndex])| {
          PassingEnds(CaptureDevice(c[deviceIndex]), |c|, p);
          assert p[0..] == p;
        }
      }
    }
  }

  // -------------------------------------------- the BSCANE2 protocol, pure

  const NO_OPCODE := 0xFF

  const USER_OPCODES: seq<nat> := [0x00, 0x02, 0x03, 0x22, 0x23]

  /** A payload of at most 32 bits as it travels in a frame. */
  function Padded(bits: seq<bool>): (w: Word)
    requires |bits| <= 32
  {
    bits + Falses(32 - |bits|)
  }

  /** The data bits CAPTURE-DR preloads. */
  function Preload(i: Ila): (w: Word)
    requires i.Valid()
  {
    CaptureFrame(i)[5..]
  }

  /** The shadow is unset or names the opcode latched in warm hardware. */
  ghost predicate Synchronised(i: Ila, shadow: nat) {
    i.Valid() && (shadow == NO_OPCODE || (i.warm && shadow == i.storedIr))
  }

  /** The hardware after the prime scan, which happens only when the shadow differs. */
  function Primed(i: Ila, shadow: nat, pending: nat): (r: Ila)
    requires i.Valid() && pending < 32
    ensures r.Valid()
  {
    if shadow != pending then Latch(i, pending, Falses(32)) else i
  }

  function Latches(i: Ila, op: nat, data: Word, k: nat): (r: Ila)
    requires i.Valid() && op < 32
    ensures r.Valid()
  {
    if k == 0 then i else Latch(Latches(i, op, data, k - 1), op, data)
  }

  lemma {:induction false} LatchesKeep(i: Ila, op: nat, data: Word, k: nat)
    requires i.Valid() && op < 32 && i.warm && i.storedIr == op
    ensures Latches(i, op, data, k).warm && Latches(i, op, data, k).storedIr == op
    ensures Preload(Latches(i, op, data, k)) == RegisterValue(Latches(i, op, data, k), op)
  {
    if k > 0 { LatchesKeep(i, op, data, k - 1); }
  }

  /** After priming, whatever the shadow was, the next capture reads the register of the pending opcode. */
  lemma PrimingReads(i: Ila, shadow: nat, pending: nat)
    requires Synchronised(i, shadow) && pending < 32
    ensures var p := Primed(i, shadow, pending);
      p.warm && p.storedIr == pending && Preload(p) == RegisterValue(p, pending)
  {
  }

  function FrameOf(op: nat, data: Word): (f: seq<bool>)
    ensures |f| == FRAME_BITS
  {
    NatBits(op, 5) + data
  }

  lemma FrameLatches(i: Ila, op: nat, data: Word)
    requires i.Valid() && op < 32
    ensures UpdateFrame(i, FrameOf(op, data)) == Latch(i, op, data)
  {
    hide Latch, NatBits, BitsNat;
    var f := FrameOf(op, data);
    assert f[..5] == NatBits(op, 5) && f[5..] == data;
    OpcodeRoundTrip(op);
  }

  // ----------------------------------------------- the core inside a chain

  /** The device's own instruction code for USERn. */
  function UserCode(user: nat): nat {
    match user
    case 1 => 0x02
    case 2 => 0x03
    case 3 => 0x22
    case _ => 0x23
  }

  /** Device pl offers an ILA core on USERn. */
  ghost predicate HasCore(c: seq<Device>, pl: int, user: nat)
    requires user < 5
  {
    && 0 <= pl < |c| && c[pl].Valid()
    && var key := NatBits(UserCode(user), |c[pl].ir|);
       key in c[pl].regs && c[pl].regs[key].User?
  }

  ghost function CoreOf(c: seq<Device>, pl: int, user: nat): (i: Ila)
    requires user < 5 && HasCore(c, pl, user)
    ensures i.Valid()
  {
    c[pl].regs[NatBits(UserCode(user), |c[pl].ir|)].ila
  }

  /** Nothing but the register of the core differs. */
  ghost predicate OnlyCore(c: seq<Device>, c': seq<Device>, pl: int, user: nat)
    requires user < 5
  {
    && 0 <= pl < |c| == |c'|
    && var key := NatBits(UserCode(user), |c[pl].ir|);
       key in c'[pl].regs && c' == c[pl := c[pl].(regs := c[pl].regs[key := c'[pl].regs[key]])]
  }

  lemma OnlyCoreSame(c: seq<Device>, pl: int, user: nat)
    requires user < 5 && HasCore(c, pl, user)
    ensures OnlyCore(c, c, pl, user)
  {
    hide NatBits;
    var key := NatBits(UserCode(user), |c[pl].ir|);
    assert c[pl].regs[key := c[pl].regs[key]] == c[pl].regs;
  }

  lemma OnlyCoreTwice(c: seq<Device>, c1: seq<Device>, c2: seq<Device>, pl: int, user: nat)
    requires user < 5 && OnlyCore(c, c1, pl, user) && OnlyCore(c1, c2, pl, user)
    ensures OnlyCore(c, c2, pl, user)
  {
    hide NatBits;
    var key := NatBits(UserCode(user), |c[pl].ir|);
    assert c[pl].regs[key := c1[pl].regs[key]][key := c2[pl].regs[key]] == c[pl].regs[key := c2[pl].regs[key]];
  }

  /** USERn is the instruction of pl, and every other device is in BYPASS. */
  ghost predicate Attached(c: seq<Device>, pl: int, user: nat)
    requires user < 5
  {
    && HasCore(c, pl, user) && Targets(c, pl)
    && c[pl].ir == NatBits(UserCode(user), |c[pl].ir|)
  }

  lemma AttachedCaptures(c: seq<Device>, pl: nat, user: nat)
    requires user < 5 && Attached(c, pl, user)
    ensures CaptureDevice(c[pl]) == CaptureFrame(CoreOf(c, pl, user))
  {
  }

  lemma AttachedUpdates(c: seq<Device>, pl: nat, user: nat, op: nat, data: Word)
    requires user < 5 && Attached(c, pl, user) && op < 32
    requires |CaptureDevice(c[pl])| == FRAME_BITS
    ensures var c' := c[pl := UpdateDevice(c[pl], FrameOf(op, data))];
      && Attached(c', pl, user) && CoreOf(c', pl, user) == Latch(CoreOf(c, pl, user), op, data)
      && OnlyCore(c, c', pl, user)
  {
    hide Latch, UpdateFrame, NatBits, FrameOf;
    FrameLatches(CoreOf(c, pl, user), op, data);
  }

  /** One full-chain scan of a frame, for any chain length and PL position. */
  lemma FrameScan(c: seq<Device>, pl: nat, user: nat, op: nat, data: Word)
    requires user < 5 && Attached(c, pl, user) && op < 32
    ensures var tdi := Frame(|c|, pl, FrameOf(op, data));
      && Attached(DrScan(c, tdi), pl, user) && OnlyCore(c, DrScan(c, tdi), pl, user)
      && CoreOf(DrScan(c, tdi), pl, user) == Latch(CoreOf(c, pl, user), op, data)
      && |tdi| == FRAME_BITS + |c| - 1
      && DrScanTdo(c, tdi)[pl + 5..pl + FRAME_BITS] == Preload(CoreOf(c, pl, user))
  {
    hide DrScan, DrScanTdo, UpdateDevice, CaptureFrame, Latch, NatBits, Frame, FrameOf, CaptureDevice, OnlyCore;
    AttachedCaptures(c, pl, user);
    var f := FrameOf(op, data);
    TargetWrites(c, pl, f);
    assert f[0..] == f;
    AttachedUpdates(c, pl, user, op, data);
    TargetReads(c, pl, f);
    var tdi := Frame(|c|, pl, f);
    FrameLength(|c|, pl, f);
    var reg, tdo := CaptureFrame(CoreOf(c, pl, user)), DrScanTdo(c, tdi);
    assert forall b :: 0 <= b < FRAME_BITS ==> tdo[pl + b] == reg[b];
    assert tdo[pl + 5..pl + FRAME_BITS] == reg[5..];
  }

  /** k scans of the same frame. */
  lemma {:induction false} FrameScans(c: seq<Device>, pl: nat, user: nat, op: nat, data: Word, k: nat)
    requires user < 5 && Attached(c, pl, user) && op < 32
    ensures var tdi := Frame(|c|, pl, FrameOf(op, data));
      && |DrScans(c, tdi, k)| == |c|
      && Attached(DrScans(c, tdi, k), pl, user) && OnlyCore(c, DrScans(c, tdi, k), pl, user)
      && CoreOf(DrScans(c, tdi, k), pl, user) == Latches(CoreOf(c, pl, user), op, data, k)
  {
    hide DrScan, Latch, FrameOf, Frame, CoreOf, HasCore, InBypass, OnlyCore;
    var tdi := Frame(|c|, pl, FrameOf(op, data));
    if k > 0 {
      FrameScans(c, pl, user, op, data, k - 1);
      FrameScan(DrScans(c, tdi, k - 1), pl, user, op, data);
      OnlyCoreTwice(c, DrScans(c, tdi, k - 1), DrScans(c, tdi, k), pl, user);
    } else {
      NoScans(c, tdi);
      AttachedHasCore(c, pl, user);
      OnlyCoreSame(c, pl, user);
    }
  }

  lemma SelectAttaches(c: seq<Device>, pl: int, user: nat)
    requires user < 5 && ValidChain(c) && HasCore(c, pl, user)
    ensures 0 <= pl < |c|
    ensures var c' := Select(c, pl, UserCode(user));
      Attached(c', pl, user) && HasCore(c', pl, user) && CoreOf(c', pl, user) == CoreOf(c, pl, user)
  {
    hide NatBits;
    SelectTargets(c, pl, UserCode(user));
  }

  // --------------------------------------------------- results of shiftDr

  function DataBits(drBits: nat): nat { if drBits < 32 then drBits else 32 }

  /** The payload word of a call: its low min(drBits, 32) bits. */
  function PayloadOf(tdi: seq<byte>, drBits: nat): Word
    requires DataBits(drBits) <= 8 * |tdi|
  {
    Padded(Bits(tdi, 0, DataBits(drBits)))
  }

  /** The bytes a call returns for a data word: as many as drBits asks for, at most 32 bits filled. */
  ghost predicate Returns(out: seq<byte>, drBits: nat, word: Word) {
    |out| == (drBits + 7) / 8 && Holds(out, word[..DataBits(drBits)])
  }

  lemma ReturnsUnique(a: seq<byte>, b: seq<byte>, drBits: nat, word: Word)
    requires Returns(a, drBits, word) && Returns(b, drBits, word)
    ensures a == b
  {
    hide Bit;
    forall k {:trigger GetBit(a, k)} | 0 <= k < 8 * |a| ensures GetBit(a, k) == GetBit(b, k) { }
    SameBitsSameBuffer(a, b);
  }

  /** The batch's flat answer: block i is the data word captured by scan i. */
  ghost predicate BatchReturns(flat: seq<byte>, i: Ila, op: nat, data: Word, drBits: nat, count: nat)
    requires i.Valid() && op < 32
  {
    && |flat| == count * ((drBits + 7) / 8)
    && forall k {:trigger Latches(i, op, data, k)} :: 0 <= k < count ==>
      Returns(Slice(flat, k, (drBits + 7) / 8), drBits, Preload(Latches(i, op, data, k)))
  }

  lemma BatchReturnsUnique(a: seq<byte>, b: seq<byte>, i: Ila, op: nat, data: Word, drBits: nat, count: nat)
    requires i.Valid() && op < 32
    requires BatchReturns(a, i, op, data, drBits, count) && BatchReturns(b, i, op, data, drBits, count)
    ensures a == b
  {
    hide Returns, Slice, Latches;
    var per := (drBits + 7) / 8;
    forall k | 0 <= k < count ensures Slice(a, k, per) == Slice(b, k, per) {
      ReturnsUnique(Slice(a, k, per), Slice(b, k, per), drBits, Preload(Latches(i, op, data, k)));
    }
    SlicesDetermine(a, b, count, per);
  }

  lemma {:induction false} SlicesDetermine(a: seq<byte>, b: seq<byte>, count: nat, per: nat)
    requires |a| == |b| == count * per
    requires forall k :: 0 <= k < count ==> Slice(a, k, per) == Slice(b, k, per)
    ensures a == b
    decreases count
  {
    hide Slice;
    if count > 0 {
      var cut := (count - 1) * per;
      assert count * per == cut + per;
      var a1, b1 := a[..cut], b[..cut];
      assert a == a1 + a[cut..] && b == b1 + b[cut..];
      forall k | 0 <= k < count - 1 ensures Slice(a1, k, per) == Slice(b1, k, per) {
        SliceOfAppend(a1, a[cut..], count - 1, per, k);
        SliceOfAppend(b1, b[cut..], count - 1, per, k);
        assert Slice(a, k, per) == Slice(b, k, per);
      }
      SlicesDetermine(a1, b1, count - 1, per);
      SliceOfLast(a1, a[cut..], count - 1, per);
      SliceOfLast(b1, b[cut..], count - 1, per);
      assert Slice(a, count - 1, per) == Slice(b, count - 1, per);
    }
  }

  lemma HoldsPad(buf: seq<byte>, bits: seq<bool>, n: nat)
    requires Holds(buf, bits) && |bits| <= n <= 8 * |buf|
    ensures Bits(buf, 0, n) == bits + Falses(n - |bits|)
  {
    hide Bit;
    forall k | 0 <= k < n ensures Bits(buf, 0, n)[k] == (bits + Falses(n - |bits|))[k] {
      assert Bits(buf, 0, n)[k] == GetBit(buf, k);
    }
  }

  lemma HoldsFalses(n: nat, k: nat)
    requires k <= 8 * |Zeros(n)|
    ensures Holds(Zeros(n), Falses(k))
  {
    hide Bit;
    GetBitOfZeros(n);
  }

  /** A slice of a packed scan ORed into a cleared buffer. */
  method SliceOut(drBits: nat, src: seq<byte>, from: nat, ghost word: Word) returns (out: seq<byte>)
    requires from + DataBits(drBits) <= 8 * |src|
    ensures |out| == (drBits + 7) / 8
    ensures (forall b :: 0 <= b < DataBits(drBits) ==> GetBit(src, from + b) == word[b]) ==> Returns(out, drBits, word)
  {
    hide Bit, GetBit;
    GetBitOfZeros(drBits);
    out := OrBits(Zeros(drBits), 0, src, from, DataBits(drBits));
  }

  lemma ScanSlice(full: seq<byte>, tdo: seq<bool>, from: nat, word: seq<bool>)
    requires Packs(full, tdo) && from + |word| <= |tdo| && tdo[from..from + |word|] == word
    ensures from + |word| <= 8 * |full| && forall b :: 0 <= b < |word| ==> GetBit(full, from + b) == word[b]
  {
    hide Bit;
    forall b | 0 <= b < |word| ensures GetBit(full, from + b) == word[b] {
      assert tdo[from..from + |word|][b] == tdo[from + b];
    }
  }

  ghost const EMPTY_CORE := Ila(0, [Falses(32)], Falses(32), Falses(32), Falses(32), [Falses(32)], false, 1, 0,
                                map op | op in TRIGGER_REGS :: Falses(32), 0, false, 0, [])

  class BscaneIlaTapBackend {
    const chain: JtagChain
    const plTapIndex: int
    const userChain: nat
    var pendingIr: nat
    var storedIrInHw: nat

    constructor (chain: JtagChain, plTapIndex: int, userChain: int)
      ensures this.chain == chain && this.plTapIndex == plTapIndex && Configured()
      ensures this.userChain == if 1 <= userChain <= 4 then userChain else 1
      ensures pendingIr == 0x01 && storedIrInHw == NO_OPCODE
    {
      this.chain, this.plTapIndex := chain, plTapIndex;
      this.userChain := if userChain < 1 || userChain > 4 then 1 else userChain;
      pendingIr, storedIrInHw := 0x01, NO_OPCODE;
    }

    /** How many transfers have failed so far. */
    ghost function Faults(): nat
      reads chain.tap.device
    {
      chain.tap.device.faults
    }

    ghost predicate Configured()
      reads this
    {
      1 <= userChain <= 4 && pendingIr < 32
    }

    /** The chain table is right, the TAP idle, and an ILA core sits where the backend expects it. */
    ghost predicate Wired()
      reads this, chain`devices, chain.tap`state, chain.tap.device
    {
      Configured() && chain.Ready() && HasCore(chain.tap.device.hw.chain, plTapIndex, userChain)
    }

    ghost function Core(): (i: Ila)
      requires Wired()
      reads this, chain`devices, chain.tap`state, chain.tap.device
      ensures i.Valid()
    {
      CoreOf(chain.tap.device.hw.chain, plTapIndex, userChain)
    }

    /** Wired, USERn selected, and the shadow in step with the hidden latch. */
    ghost predicate InStep()
      reads this, chain`devices, chain.tap`state, chain.tap.device
    {
      Wired() && Attached(chain.tap.device.hw.chain, plTapIndex, userChain) && Synchronised(Core(), storedIrInHw)
    }

    /** The chain is the one given, but for the register of the core. */
    ghost predicate OnlyCoreChanged(c: seq<Device>)
      requires Configured()
      reads this, chain`devices, chain.tap`state, chain.tap.device
    {
      OnlyCore(c, chain.tap.device.hw.chain, plTapIndex, userChain)
    }

    method SelectIr(opcode: nat) returns (ok: bool)
      requires Configured() && chain.tap.device.Valid()
      requires forall i :: 0 <= i < |chain.devices| ==> chain.devices[i].irLength <= 32
      modifies this, chain`lastError, chain.tap, chain.tap.device
      ensures chain.tap.device.Valid() && Faults() >= old(Faults()) && Configured()
      ensures (ok ==> Faults() == old(Faults())) && (old(Wired()) && Faults() == old(Faults()) ==> ok)
      ensures pendingIr == opcode % 32 && storedIrInHw == old(storedIrInHw)
      ensures ok && old(Wired()) && Synchronised(old(Core()), storedIrInHw) ==> InStep() && Core() == old(Core())
    {
      hide Select, Attached, CoreOf, HasCore, Synchronised;
      pendingIr := opcode % 32;
      ghost var c := chain.tap.device.hw.chain;
      if Wired() { SelectAttaches(c, plTapIndex, userChain); }
      ok := chain.SelectInstruction(plTapIndex, USER_OPCODES[userChain]);
    }

    /** One 37-bit frame through the chain, with the pending opcode. */
    method DoRawFrameShift(data32: seq<byte>) returns (ok: bool, tdo: seq<byte>)
      requires chain.tap.device.Valid() && pendingIr < 32 && userChain < 5
      requires 0 <= plTapIndex < |chain.devices| && |data32| == 4
      modifies chain.tap, chain.tap.device
      ensures chain.tap.device.Valid() && Faults() >= old(Faults()) && (ok <==> Faults() == old(Faults()))
      ensures |tdo| == 5
      ensures ok && old(Wired()) && Attached(old(chain.tap.device.hw).chain, plTapIndex, userChain) ==>
        && Wired() && Attached(chain.tap.device.hw.chain, plTapIndex, userChain)
        && Core() == Latch(old(Core()), pendingIr, Bits(data32, 0, 32))
        && OnlyCoreChanged(old(chain.tap.device.hw).chain)
        && Holds(tdo, Preload(old(Core())))
    {
      hide DrScan, DrScanTdo, Bits, Holds, Frame, GetBit, Attached, CoreOf, HasCore, Latch, CaptureFrame, NatBits,
           OnlyCore, ReadsOver, Preload, Targets;
      ghost var c, data: Word := chain.tap.device.hw.chain, Bits(data32, 0, 32);
      var frame := Zeros(FRAME_BITS);
      HoldsZeros(FRAME_BITS);
      frame := PutNat(frame, [], 0, pendingIr, 5);
      assert [] + NatBits(pendingIr, 5) == NatBits(pendingIr, 5);
      frame := PutBits(frame, NatBits(pendingIr, 5), 5, data32, 32);
      ghost var f := FrameOf(pendingIr, data);
      HoldsBits(frame, f);
      var n := |chain.devices|;
      var full := AssembleFrame(n, plTapIndex, frame, FRAME_BITS);
      ghost var tdi := Frame(n, plTapIndex, f);
      HoldsBits(full, tdi);
      tdo := Zeros(40);
      var fullTdo;
      ok, fullTdo := chain.tap.ShiftDR(full, FRAME_BITS + n - 1, []);
      if !ok { return; }
      tdo := OrBits(tdo, 0, fullTdo, plTapIndex + 5, 32);
      if old(Wired()) && Attached(c, plTapIndex, userChain) {
        FrameDone(c, Lengths(chain.devices), plTapIndex, userChain, pendingIr, data, fullTdo);
        OredHolds(tdo, fullTdo, plTapIndex + 5, Preload(CoreOf(c, plTapIndex, userChain)));
      }
    }

    /** The prime scan: brings the hidden latch to the pending opcode when the shadow says it differs. */
    method Prime() returns (ok: bool)
      requires chain.tap.device.Valid() && Configured()
      requires 0 <= plTapIndex < |chain.devices|
      modifies this`storedIrInHw, chain.tap, chain.tap.device
      ensures chain.tap.device.Valid() && Faults() >= old(Faults()) && (ok <==> Faults() == old(Faults()))
      ensures ok ==> storedIrInHw == pendingIr
      ensures ok && old(InStep()) ==>
        && InStep() && OnlyCoreChanged(old(chain.tap.device.hw).chain)
        && Core() == Primed(old(Core()), old(storedIrInHw), pendingIr)
        && Core().warm && Core().storedIr == pendingIr && Preload(Core()) == RegisterValue(Core(), pendingIr)
    {
      hide Attached, CoreOf, HasCore, Latch, Bits, RegisterValue, CaptureFrame, OnlyCore;
      if InStep() {
        PrimingReads(Core(), storedIrInHw, pendingIr);
        OnlyCoreSame(chain.tap.device.hw.chain, plTapIndex, userChain);
      }
      ok := true;
      if storedIrInHw != pendingIr {
        var zeros: seq<byte> := [0, 0, 0, 0];
        FourZeros(zeros);
        var dummy;
        ok, dummy := DoRawFrameShift(zeros);
        if !ok { return; }
        storedIrInHw := pendingIr;
      }
    }

    method ShiftDr(drBits: nat, tdi: seq<byte>) returns (ok: bool, tdo: seq<byte>)
      requires chain.tap.device.Valid() && Configured()
      requires 0 <= plTapIndex < |chain.devices| && DataBits(drBits) <= 8 * |tdi|
      modifies this`storedIrInHw, chain.tap, chain.tap.device
      ensures chain.tap.device.Valid() && Faults() >= old(Faults()) && (ok <==> Faults() == old(Faults()))
      ensures ok ==> |tdo| == (drBits + 7) / 8
      ensures ok && old(InStep()) ==>
        var p := Primed(old(Core()), old(storedIrInHw), pendingIr);
        && InStep() && storedIrInHw == pendingIr && OnlyCoreChanged(old(chain.tap.device.hw).chain)
        && Core() == Latch(p, pendingIr, PayloadOf(tdi, drBits))
        && Returns(tdo, drBits, RegisterValue(p, pendingIr))
    {
      hide Attached, CoreOf, HasCore, Latch, Bits, RegisterValue, CaptureFrame, Holds, GetBit, Primed, OnlyCore;
      tdo := [];
      ok := Prime();
      if !ok { return; }
      ghost var p, c1 := if old(InStep()) then Core() else EMPTY_CORE, chain.tap.device.hw.chain;
      var dataBits := DataBits(drBits);
      var data32 := Zeros(32);
      HoldsZeros(32);
      data32 := PutBits(data32, [], 0, tdi, dataBits);
      assert [] + Bits(tdi, 0, dataBits) == Bits(tdi, 0, dataBits);
      HoldsPad(data32, Bits(tdi, 0, dataBits), 32);
      var rawTdo;
      ok, rawTdo := DoRawFrameShift(data32);
      if !ok { return; }
      storedIrInHw := pendingIr;
      ghost var word := if old(InStep()) then Preload(p) else Falses(32);
      if old(InStep()) {
        HoldsWord(rawTdo, word);
        OnlyCoreTwice(old(chain.tap.device.hw).chain, c1, chain.tap.device.hw.chain, plTapIndex, userChain);
      }
      tdo := SliceOut(drBits, rawTdo, 0, word);
    }

    /** Where a batch of `count` scans leaves the core. */
    ghost function AfterBatch(count: int, word: Word): (i: Ila)
      requires Wired()
      reads this, chain`devices, chain.tap`state, chain.tap.device
      ensures i.Valid()
    {
      if count <= 0 then Core() else Latches(Primed(Core(), storedIrInHw, pendingIr), pendingIr, word, count)
    }

    /** The reference batch: one shiftDr per scan. */
    method DefaultShiftDrBatch(count: nat, drBits: nat, tdi: seq<byte>) returns (ok: bool, flat: seq<byte>)
      requires chain.tap.device.Valid() && Configured()
      requires 0 <= plTapIndex < |chain.devices| && DataBits(drBits) <= 8 * |tdi|
      modifies this`storedIrInHw, chain.tap, chain.tap.device
      ensures chain.tap.device.Valid() && Faults() >= old(Faults()) && (ok <==> Faults() == old(Faults()))
      ensures ok && old(InStep()) ==>
        var word := PayloadOf(tdi, drBits);
        && InStep() && storedIrInHw == (if count == 0 then old(storedIrInHw) else pendingIr)
        && OnlyCoreChanged(old(chain.tap.device.hw).chain)
        && Core() == old(AfterBatch(count, word))
        && BatchReturns(flat, Primed(old(Core()), old(storedIrInHw), pendingIr), pendingIr, word, drBits, count)
    {
      hide Attached, CoreOf, HasCore, Latch, Bits, RegisterValue, CaptureFrame, Returns, Primed, Slice, OnlyCore;
      flat := [];
      ok := true;
      ghost var inStep, word := InStep(), PayloadOf(tdi, drBits);
      ghost var p := if inStep then Primed(Core(), storedIrInHw, pendingIr) else EMPTY_CORE;
      if inStep {
        PrimingReads(Core(), storedIrInHw, pendingIr);
        OnlyCoreSame(chain.tap.device.hw.chain, plTapIndex, userChain);
      }
      var i := 0;
      while i < count
        invariant 0 <= i <= count && chain.tap.device.Valid() && ok && Faults() == old(Faults())
        invariant inStep ==> InStep() && OnlyCoreChanged(old(chain.tap.device.hw).chain)
        invariant inStep ==> InStep() && storedIrInHw == (if i == 0 then old(storedIrInHw) else pendingIr)
        invariant inStep ==> Primed(Core(), storedIrInHw, pendingIr) == Latches(p, pendingIr, word, i)
        invariant inStep && i > 0 ==> Core() == Latches(p, pendingIr, word, i)
        invariant inStep && i == 0 ==> Core() == old(Core())
        invariant inStep ==> BatchReturns(flat, p, pendingIr, word, drBits, i)
      {
        if inStep { LatchesKeep(p, pendingIr, word, i); }
        ghost var c1 := chain.tap.device.hw.chain;
        var tdo;
        ok, tdo := ShiftDr(drBits, tdi);
        if !ok { return; }
        if inStep {
          OnlyCoreTwice(old(chain.tap.device.hw).chain, c1, chain.tap.device.hw.chain, plTapIndex, userChain);
          BatchGrows(flat, tdo, p, pendingIr, word, drBits, i);
          AlreadyPrimed(Core(), pendingIr);
        }
        flat := flat + tdo;
        i := i + 1;
      }
    }

    /** The fast batch: one prime scan at most, then all scans in bulk. */
    method ShiftDrBatch(count: int, drBits: nat, tdi: seq<byte>) returns (ok: bool, flat: seq<byte>)
      requires chain.tap.device.Valid() && Configured()
      requires 0 <= plTapIndex < |chain.devices| && DataBits(drBits) <= 8 * |tdi|
      modifies this`storedIrInHw, chain.tap, chain.tap.device
      ensures chain.tap.device.Valid() && Faults() >= old(Faults()) && (ok <==> Faults() == old(Faults()))
      ensures count <= 0 ==> ok && flat == []
      ensures ok && count > 0 ==> |flat| == count * ((drBits + 7) / 8)
      ensures ok && old(InStep()) ==>
        var word := PayloadOf(tdi, drBits);
        && InStep() && storedIrInHw == (if count <= 0 then old(storedIrInHw) else pendingIr)
        && OnlyCoreChanged(old(chain.tap.device.hw).chain)
        && Core() == old(AfterBatch(count, word))
        && BatchReturns(flat, Primed(old(Core()), old(storedIrInHw), pendingIr), pendingIr, word, drBits,
                        if count <= 0 then 0 else count)
    {
      hide Attached, CoreOf, HasCore, Latch, Bits, RegisterValue, CaptureFrame, Returns, Primed, Slice, BatchReturns,
           Frame, FrameOf, DrScans, ScansOut, Latches, Targets, Preload, OnlyCore;
      flat := [];
      if InStep() { OnlyCoreSame(chain.tap.device.hw.chain, plTapIndex, userChain); }
      if count <= 0 {
        NoBatch(if InStep() then Primed(Core(), storedIrInHw, pendingIr) else EMPTY_CORE, pendingIr,
                PayloadOf(tdi, drBits), drBits);
        return true, [];
      }
      var n := |chain.devices|;
      var totalDr := FRAME_BITS + n - 1;
      ghost var word := PayloadOf(tdi, drBits);
      var fullTdi := BatchFrame(n, plTapIndex, pendingIr, tdi, drBits);
      ok := Prime();
      if !ok { return; }
      ghost var inStep, c := old(InStep()), chain.tap.device.hw.chain;
      ghost var p := if inStep then Core() else EMPTY_CORE;
      ghost var frame := Frame(n, plTapIndex, FrameOf(pendingIr, word));
      var rawFlat;
      ok, rawFlat := chain.tap.ShiftDRRepeat(count, totalDr, fullTdi);
      if !ok { return; }
      storedIrInHw := pendingIr;
      if inStep {
        BatchDone(c, Lengths(chain.devices), plTapIndex, userChain, pendingIr, word, count);
        OnlyCoreTwice(old(chain.tap.device.hw).chain, c, DrScans(c, frame, count), plTapIndex, userChain);
        LatchesKeep(p, pendingIr, word, count);
      }
      flat := UnpackBatch(rawFlat, totalDr, plTapIndex + 5, count, drBits,
                          c, plTapIndex, userChain, pendingIr, word, p);
    }
  }

  lemma NoBatch(p: Ila, op: nat, word: Word, drBits: nat)
    requires p.Valid() && op < 32
    ensures BatchReturns([], p, op, word, drBits, 0)
  {
  }

  /** Opcode and payload written straight into the zeroed full-chain buffer. */
  method BatchFrame(n: nat, pl: nat, op: nat, tdi: seq<byte>, drBits: nat) returns (full: seq<byte>)
    requires pl < n && DataBits(drBits) <= 8 * |tdi|
    ensures |full| == (FRAME_BITS + n - 1 + 7) / 8
    ensures Bits(full, 0, FRAME_BITS + n - 1) == Frame(n, pl, FrameOf(op, PayloadOf(tdi, drBits)))
  {
    hide Bits, Holds, NatBits, GetBit, Frame;
    var totalDr, dataBits := FRAME_BITS + n - 1, DataBits(drBits);
    ghost var payload := Bits(tdi, 0, dataBits);
    full := Zeros(totalDr);
    HoldsFalses(totalDr, pl);
    full := PutNat(full, Falses(pl), pl, op, 5);
    full := PutBits(full, Falses(pl) + NatBits(op, 5), pl + 5, tdi, dataBits);
    FramePads(n, pl, op, payload);
    HoldsPad(full, Falses(pl) + NatBits(op, 5) + payload, totalDr);
  }

  lemma AlreadyPrimed(i: Ila, pending: nat)
    requires i.Valid() && pending < 32
    ensures Primed(i, pending, pending) == i
  {
  }

  lemma BatchGrows(flat: seq<byte>, tdo: seq<byte>, p: Ila, op: nat, word: Word, drBits: nat, k: nat)
    requires p.Valid() && op < 32 && BatchReturns(flat, p, op, word, drBits, k)
    requires |tdo| == (drBits + 7) / 8 && Returns(tdo, drBits, Preload(Latches(p, op, word, k)))
    ensures BatchReturns(flat + tdo, p, op, word, drBits, k + 1)
  {
    hide Returns, Slice, Latches, CaptureFrame;
    var per := (drBits + 7) / 8;
    SliceOfLast(flat, tdo, k, per);
    forall j {:trigger Latches(p, op, word, j)} | 0 <= j < k + 1
      ensures Returns(Slice(flat + tdo, j, per), drBits, Preload(Latches(p, op, word, j)))
    {
      if j < k { SliceOfAppend(flat, tdo, k, per, j); }
    }
  }

  /** A payload written straight into the zeroed chain buffer is the padded frame. */
  lemma FramePads(n: nat, pl: nat, op: nat, payload: seq<bool>)
    requires pl < n && |payload| <= 32
    ensures |Falses(pl) + NatBits(op, 5) + payload| <= FRAME_BITS + n - 1
    ensures Falses(pl) + NatBits(op, 5) + payload + Falses(FRAME_BITS + n - 1 - |Falses(pl) + NatBits(op, 5) + payload|)
      == Frame(n, pl, FrameOf(op, Padded(payload)))
  {
    hide NatBits;
  }

  lemma {:induction false} DrScansKeepTarget(c: seq<Device>, tdi: seq<bool>, lens: seq<nat>, t: nat, k: nat)
    requires Targets(c, t) && IrLengths(lens, c)
    ensures IrLengths(lens, DrScans(c, tdi, k)) && Targets(DrScans(c, tdi, k), t)
  {
    hide DrScan;
    if k > 0 {
      DrScansKeepTarget(c, tdi, lens, t, k - 1);
      DrScanKeepsTarget(DrScans(c, tdi, k - 1), tdi, lens, t);
    }
  }

  /** One frame scan, with what was read of it. */
  lemma FrameDone(c: seq<Device>, lens: seq<nat>, pl: nat, user: nat, op: nat, data: Word, fullTdo: seq<byte>)
    requires user < 5 && Attached(c, pl, user) && op < 32 && IrLengths(lens, c)
    requires ReadsOver(fullTdo, [], DrScanTdo(c, Frame(|c|, pl, FrameOf(op, data))))
    ensures HasCore(c, pl, user)
    ensures var c' := DrScan(c, Frame(|c|, pl, FrameOf(op, data)));
      && Attached(c', pl, user) && HasCore(c', pl, user) && IrLengths(lens, c')
      && OnlyCore(c, c', pl, user) && CoreOf(c', pl, user) == Latch(CoreOf(c, pl, user), op, data)
    ensures pl + 37 <= 8 * |fullTdo|
    ensures forall b :: 0 <= b < 32 ==> GetBit(fullTdo, pl + 5 + b) == Preload(CoreOf(c, pl, user))[b]
  {
    hide DrScan, DrScanTdo, Attached, HasCore, CoreOf, OnlyCore, Latch, Preload, Frame, FrameOf, GetBit, ReadsOver;
    AttachedHasCore(c, pl, user);
    var tdi := Frame(|c|, pl, FrameOf(op, data));
    FrameScan(c, pl, user, op, data);
    FreshReads(fullTdo, DrScanTdo(c, tdi));
    AttachedHasCore(DrScan(c, tdi), pl, user);
    DrScanKeepsTarget(c, tdi, lens, pl);
    ScanSlice(fullTdo, DrScanTdo(c, tdi), pl + 5, Preload(CoreOf(c, pl, user)));
  }

  /** All scans of a batch. */
  lemma BatchDone(c: seq<Device>, lens: seq<nat>, pl: nat, user: nat, op: nat, word: Word, count: nat)
    requires user < 5 && Attached(c, pl, user) && op < 32 && IrLengths(lens, c)
    ensures HasCore(c, pl, user)
    ensures var c' := DrScans(c, Frame(|c|, pl, FrameOf(op, word)), count);
      && Attached(c', pl, user) && HasCore(c', pl, user) && IrLengths(lens, c') && OnlyCore(c, c', pl, user)
      && CoreOf(c', pl, user) == Latches(CoreOf(c, pl, user), op, word, count)
  {
    hide DrScans, Attached, HasCore, CoreOf, OnlyCore, Latches, Frame, FrameOf;
    AttachedHasCore(c, pl, user);
    var tdi := Frame(|c|, pl, FrameOf(op, word));
    FrameScans(c, pl, user, op, word, count);
    AttachedHasCore(DrScans(c, tdi, count), pl, user);
    DrScansKeepTarget(c, tdi, lens, pl, count);
  }

  /** The data field of scan i of a batch. */
  lemma BatchScan(rawFlat: seq<byte>, c: seq<Device>, pl: nat, user: nat, op: nat, word: Word, p: Ila, count: nat,
                  i: nat)
    requires user < 5 && Attached(c, pl, user) && HasCore(c, pl, user) && CoreOf(c, pl, user) == p && op < 32
    requires ScansOut(rawFlat, c, Frame(|c|, pl, FrameOf(op, word)), count) && i < count
    ensures var raw := Slice(rawFlat, i, (FRAME_BITS + |c| - 1 + 7) / 8);
      && pl + 5 + 32 <= 8 * |raw|
      && forall b :: 0 <= b < 32 ==> GetBit(raw, pl + 5 + b) == Preload(Latches(p, op, word, i))[b]
  {
    hide Slice, DrScans, DrScan, DrScanTdo, Frame, FrameOf, HasCore, CoreOf, InBypass, CaptureFrame, GetBit, Packs,
         Latches;
    var tdi := Frame(|c|, pl, FrameOf(op, word));
    FrameScans(c, pl, user, op, word, i);
    var ci := DrScans(c, tdi, i);
    AttachedHasCore(ci, pl, user);
    FrameScan(ci, pl, user, op, word);
    var raw := Slice(rawFlat, i, (FRAME_BITS + |c| - 1 + 7) / 8);
    assert Packs(raw, DrScanTdo(ci, tdi));
    ScanSlice(raw, DrScanTdo(ci, tdi), pl + 5, Preload(Latches(p, op, word, i)));
  }

  /** rawFlat is the TDO of `count` bulk scans of one frame, started with core p. */
  ghost predicate Scanned(rawFlat: seq<byte>, totalDr: nat, c: seq<Device>, pl: int, user: nat, op: nat, word: Word,
                          p: Ila, count: nat) {
    && ValidChain(c) && 0 <= pl < |c| && totalDr == FRAME_BITS + |c| - 1 && user < 5
    && Attached(c, pl, user) && HasCore(c, pl, user) && CoreOf(c, pl, user) == p
    && ScansOut(rawFlat, c, Frame(|c|, pl, FrameOf(op, word)), count)
  }

  /** Slices the data field out of every scan of a batch. */
  method UnpackBatch(rawFlat: seq<byte>, totalDr: nat, dataStart: nat, count: nat, drBits: nat,
                     ghost c: seq<Device>, ghost pl: nat, ghost user: nat, ghost op: nat, ghost word: Word,
                     ghost p: Ila)
      returns (flat: seq<byte>)
    requires |rawFlat| == count * ((totalDr + 7) / 8) && dataStart + 32 <= totalDr && dataStart == pl + 5
    requires p.Valid() && op < 32 && user < 5
    ensures |flat| == count * ((drBits + 7) / 8)
    ensures Scanned(rawFlat, totalDr, c, pl, user, op, word, p, count) ==>
      BatchReturns(flat, p, op, word, drBits, count)
  {
    hide Slice, ScansOut, Attached, HasCore, CoreOf, Frame, FrameOf, Latches, CaptureFrame, GetBit, Returns;
    ghost var good := Scanned(rawFlat, totalDr, c, pl, user, op, word, p, count);
    var rawBytes := (totalDr + 7) / 8;
    flat := [];
    for i := 0 to count
      invariant |flat| == i * ((drBits + 7) / 8)
      invariant good ==> BatchReturns(flat, p, op, word, drBits, i)
    {
      Underrun(i, count, rawBytes);
      var raw := rawFlat[i * rawBytes..(i + 1) * rawBytes];
      SliceIs(rawFlat, i, rawBytes);
      if good { BatchScan(rawFlat, c, pl, user, op, word, p, count, i); }
      var out := SliceOut(drBits, raw, dataStart, Preload(Latches(p, op, word, i)));
      if good {
        BatchGrows(flat, out, p, op, word, drBits, i);
      }
      Underrun(i, count, (drBits + 7) / 8);
      flat := flat + out;
    }
  }

  lemma FourZeros(z: seq<byte>)
    requires z == [0, 0, 0, 0]
    ensures Bits(z, 0, 32) == Falses(32)
  {
    hide Bit;
    forall k | 0 <= k < 32 ensures !Bits(z, 0, 32)[k] { BitOfZero(k % 8); }
  }

  lemma HoldsWord(buf: seq<byte>, word: Word)
    requires Holds(buf, word)
    ensures forall b :: 0 <= b < 32 ==> GetBit(buf, 0 + b) == word[b]
  {
  }

  lemma AttachedHasCore(c: seq<Device>, pl: int, user: nat)
    requires user < 5
    ensures Attached(c, pl, user) ==> HasCore(c, pl, user) && Targets(c, pl)
  {
  }

  lemma OredHolds(tdo: seq<byte>, src: seq<byte>, from: nat, word: Word)
    requires |tdo| == 5 && from + 32 <= 8 * |src|
    requires forall k {:trigger GetBit(tdo, k)} :: 0 <= k < 8 * |tdo| ==>
      GetBit(tdo, k) == (GetBit(Zeros(40), k) || (0 <= k < 0 + 32 && GetBit(src, from + k - 0)))
    requires forall b :: 0 <= b < 32 ==> GetBit(src, from + b) == word[b]
    ensures Holds(tdo, word)
  {
    hide Bit, GetBit;
    GetBitOfZeros(40);
  }
}
