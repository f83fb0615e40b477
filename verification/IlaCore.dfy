/** The logic analyser behind a BSCANE2 USERn chain, at the level of whole DR scans:
    CAPTURE-DR preloads {data, stored opcode}, UPDATE-DR latches the frame shifted in. */
module IlaCore {
  import opened Bytes

  const FRAME_BITS := 37

  const IR_IDCODE := 0x01
  const IR_CONFIG := 0x02
  const IR_SIG_DEF := 0x03
  const IR_CTRL := 0x08
  const IR_STATUS := 0x09
  const IR_TRIG_MASK := 0x0A
  const IR_TRIG_VAL := 0x0B
  const IR_READ_ADDR := 0x0C
  const IR_READ_DATA := 0x0D
  const IR_PRE_SAMPLES := 0x0E
  const IR_TRIG_RISE := 0x0F
  const IR_TRIG_FALL := 0x10
  const IR_TRIG_MASK2 := 0x11
  const IR_TRIG_VAL2 := 0x12
  const IR_TRIG_CTRL := 0x13

  type Word = w: seq<bool> | |w| == 32 witness Falses(32)

  /** `warm` is false until the first scan after a reset has passed, which reads as zeros;
      `pulses` records the CTRL flags of every CTRL update, oldest first. */
  datatype Ila = Ila(addrW: nat, mem: seq<Word>, idcode: Word, config: Word, status: Word, sigDefs: seq<Word>,
                     warm: bool, storedIr: nat, sigIdx: nat, triggers: map<nat, Word>,
                     preSamples: nat, orMode: bool, rdAddr: nat, pulses: seq<seq<bool>>)
  {
    ghost predicate Valid() {
      && addrW <= 32 && |mem| == Pow2(addrW) && rdAddr < |mem| && preSamples < |mem|
      && storedIr < 32
      && 0 < |sigDefs| <= 15 && sigIdx < |sigDefs|
      && (forall op :: op in TRIGGER_REGS ==> op in triggers)
    }
  }

  const TRIGGER_REGS: set<nat> :=
    {IR_TRIG_MASK, IR_TRIG_VAL, IR_TRIG_RISE, IR_TRIG_FALL, IR_TRIG_MASK2, IR_TRIG_VAL2}

  /** The register CAPTURE-DR selects for an opcode. */
  function RegisterValue(i: Ila, op: nat): Word
    requires i.Valid()
  {
    if op == IR_IDCODE then i.idcode
    else if op == IR_CONFIG then i.config
    else if op == IR_SIG_DEF then i.sigDefs[i.sigIdx]
    else if op == IR_STATUS then i.status
    else if op == IR_READ_ADDR then NatBits(i.rdAddr, 32)
    else if op == IR_READ_DATA then i.mem[i.rdAddr]
    else if op == IR_PRE_SAMPLES then NatBits(i.preSamples, 32)
    else if op == IR_TRIG_CTRL then [i.orMode] + Falses(31)
    else if op in TRIGGER_REGS then i.triggers[op]
    else Falses(32)
  }

  function CaptureFrame(i: Ila): (r: seq<bool>)
    requires i.Valid()
    ensures |r| == FRAME_BITS
  {
    if i.warm then NatBits(i.storedIr, 5) + RegisterValue(i, i.storedIr) else Falses(FRAME_BITS)
  }

  function NextSigIdx(i: Ila, op: nat): nat
    requires i.Valid()
  {
    if op != i.storedIr then 0
    else if op == IR_SIG_DEF then (if i.sigIdx < |i.sigDefs| - 1 then i.sigIdx + 1 else 0)
    else i.sigIdx
  }

  /** UPDATE-DR with opcode `op` and payload `data`. */
  function Latch(i: Ila, op: nat, data: Word): (r: Ila)
    requires i.Valid() && op < 32
    ensures r.Valid() && r.storedIr == op && r.warm
    ensures r.mem == i.mem && r.addrW == i.addrW
  {
    var j := i.(warm := true, storedIr := op, sigIdx := NextSigIdx(i, op));
    if op == IR_CTRL then j.(pulses := i.pulses + [data[..4]])
    else if op in TRIGGER_REGS then j.(triggers := i.triggers[op := data])
    else if op == IR_READ_ADDR then j.(rdAddr := BitsNat(data) % |i.mem|)
    else if op == IR_READ_DATA then j.(rdAddr := (i.rdAddr + 1) % |i.mem|)
    else if op == IR_PRE_SAMPLES then j.(preSamples := BitsNat(data) % |i.mem|)
    else if op == IR_TRIG_CTRL then j.(orMode := data[0])
    else j
  }

  function FrameOpcode(frame: seq<bool>): (op: nat)
    requires |frame| == FRAME_BITS
    ensures op < 32
  {
    assert Pow2(5) == 32;
    BitsNat(frame[..5])
  }

  function UpdateFrame(i: Ila, frame: seq<bool>): (r: Ila)
    requires i.Valid() && |frame| == FRAME_BITS
    ensures r.Valid()
  {
    Latch(i, FrameOpcode(frame), frame[5..])
  }

  /** Test-Logic-Reset of the TCK domain. */
  function ResetIla(i: Ila): (r: Ila)
    requires i.Valid()
    ensures r.Valid()
  {
    i.(warm := false, storedIr := IR_IDCODE, sigIdx := 0, rdAddr := 0, orMode := false,
       preSamples := |i.mem| / 4, triggers := map op | op in TRIGGER_REGS :: Falses(32))
  }

  /** A capture shows the opcode latched last and the register it names; the first one after a reset, nothing. */
  lemma CaptureShows(i: Ila)
    requires i.Valid()
    ensures i.warm ==>
      FrameOpcode(CaptureFrame(i)) == i.storedIr && CaptureFrame(i)[5..] == RegisterValue(i, i.storedIr)
    ensures !i.warm ==> CaptureFrame(i) == Falses(FRAME_BITS)
  {
    hide RegisterValue, NatBits, BitsNat;
    OpcodeRoundTrip(i.storedIr);
    if i.warm { assert CaptureFrame(i)[..5] == NatBits(i.storedIr, 5); }
  }

  lemma OpcodeRoundTrip(op: nat)
    requires op < 32
    ensures BitsNat(NatBits(op, 5)) == op
  {
    assert Pow2(5) == 32;
    BitsNatOfNatBits(op, 5);
  }

  /** Registers a write to `op` can change beside the one it names: the pointer and the word it points at. */
  predicate Coupled(op: nat, other: nat) {
    other == op || other == IR_SIG_DEF || (op in {IR_READ_ADDR, IR_READ_DATA} && other in {IR_READ_ADDR, IR_READ_DATA})
  }

  /** What a write leaves reads back in the next capture, under the opcode it was written with. */
  lemma WrittenReadsBack(i: Ila, op: nat, w: Word)
    requires i.Valid() && op < 32
    ensures var back := CaptureFrame(Latch(i, op, w));
      && FrameOpcode(back) == op
      && (op in TRIGGER_REGS ==> back[5..] == w)
      && (op in {IR_READ_ADDR, IR_PRE_SAMPLES} ==> BitsNat(back[5..]) == BitsNat(w) % |i.mem|)
      && (op == IR_READ_DATA ==> back[5..] == i.mem[(i.rdAddr + 1) % |i.mem|])
      && (op == IR_TRIG_CTRL ==> back[5..] == [w[0]] + Falses(31))
  {
    hide NatBits, BitsNat;
    var r := Latch(i, op, w);
    CaptureShows(r);
    WordOf(r.rdAddr, i.addrW);
    WordOf(r.preSamples, i.addrW);
  }

  /** And no other register changes. */
  lemma WriteLeavesOthers(i: Ila, op: nat, w: Word, other: nat)
    requires i.Valid() && op < 32 && !Coupled(op, other)
    ensures RegisterValue(Latch(i, op, w), other) == RegisterValue(i, other)
  {
    hide NatBits, BitsNat;
  }

  lemma WordOf(v: nat, addrW: nat)
    requires addrW <= 32 && v < Pow2(addrW)
    ensures BitsNat(NatBits(v, 32)) == v
  {
    hide BitsNat, NatBits, Pow2;
    Pow2Grows(addrW, 32);
    BitsNatOfNatBits(v, 32);
    DivModIs(v, Pow2(32), 0, v);
  }

  /** After a reset the trigger is clear, reading starts at address 0 and a quarter of the depth is kept
      before the trigger; identification, status and the sample memory survive. */
  lemma ResetValues(i: Ila, op: nat)
    requires i.Valid()
    ensures var r := ResetIla(i);
      && CaptureFrame(r) == Falses(FRAME_BITS) && r.storedIr == IR_IDCODE
      && (op in TRIGGER_REGS || op == IR_TRIG_CTRL ==> RegisterValue(r, op) == Falses(32))
      && (op == IR_READ_ADDR ==> BitsNat(RegisterValue(r, op)) == 0)
      && (op == IR_PRE_SAMPLES ==> BitsNat(RegisterValue(r, op)) == |i.mem| / 4)
      && (op == IR_SIG_DEF ==> RegisterValue(r, op) == i.sigDefs[0])
      && (op in {IR_IDCODE, IR_CONFIG, IR_STATUS} ==> RegisterValue(r, op) == RegisterValue(i, op))
      && r.mem == i.mem && r.addrW == i.addrW && r.pulses == i.pulses
  {
    hide NatBits, BitsNat;
    WordOf(0, i.addrW);
    WordOf(|i.mem| / 4, i.addrW);
    assert [false] + Falses(31) == Falses(32);
  }
}
