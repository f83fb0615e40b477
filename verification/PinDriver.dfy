/** Driving pins: values staged bit by bit in a boundary register image, applied under EXTEST. */
module PinDriver {
  import opened Bytes
  import opened Hardware
  import opened TapControl
  import opened Chain
  import opened Bsdl
  import opened Scanner

  lemma BitOfClear(b: byte, i: nat, j: nat)
    requires i < 8 && j < 8
    ensures Bit(b & !BitMask(i), j) == (Bit(b, j) && i != j)
  {
    assert i in {0, 1, 2, 3, 4, 5, 6, 7} && j in {0, 1, 2, 3, 4, 5, 6, 7};
  }

  lemma BitOfResize(buf: seq<byte>, n: nat, q: int)
    requires n >= |buf|
    ensures BitAt(Resize(buf, n), q) == BitAt(buf, q)
  {
    hide Bit;
    if 0 <= q && |buf| <= q / 8 < n { BitOfZero(q % 8); }
  }

  lemma BitOfPut(buf: seq<byte>, k: nat, b: byte, q: int)
    requires k < |buf|
    ensures BitAt(buf[k := b], q) == if 0 <= q && q / 8 == k then Bit(b, q % 8) else BitAt(buf, q)
  {
    hide Bit;
  }

  /** Sets or clears one bit, growing the buffer as needed; a negative position is ignored. */
  method SetBit(buf: seq<byte>, position: int, value: bool) returns (r: seq<byte>)
    ensures |r| >= |buf|
    ensures forall q :: BitAt(r, q) == if q == position && q >= 0 then value else BitAt(buf, q)
  {
    hide Bit, BitAt, Resize;
    if position < 0 { return buf; }
    var byteIdx, bitIdx := position / 8, position % 8;
    var grown := if byteIdx >= |buf| then Resize(buf, byteIdx + 1) else buf;
    var was := grown[byteIdx];
    var b := if value then was | BitMask(bitIdx) else was & !BitMask(bitIdx);
    r := grown[byteIdx := b];
    forall q ensures BitAt(r, q) == if q == position && q >= 0 then value else BitAt(buf, q) {
      if byteIdx >= |buf| { BitOfResize(buf, byteIdx + 1, q); }
      BitOfPut(grown, byteIdx, b, q);
      BitOfPut(grown, byteIdx, was, q);
      assert grown[byteIdx := was] == grown;
      if 0 <= q {
        BitOfOr(was, bitIdx, q % 8);
        BitOfClear(was, bitIdx, q % 8);
      }
    }
  }

  // --------------------------------------------------------------- staging

  /** The first output cell that carries a name, or -1. */
  function OutputCell(cells: seq<BoundaryCell>, pin: string): (r: int)
    ensures -1 <= r < |cells|
    ensures r >= 0 ==> cells[r].IsOutput() && cells[r].pinName == pin
  {
    if cells == [] then -1
    else
      var n := |cells| - 1;
      var earlier := OutputCell(cells[..n], pin);
      if earlier >= 0 then earlier
      else if cells[n].IsOutput() && cells[n].pinName == pin then n else -1
  }

  /** The first driving cell of a pin is the one staging writes through. */
  lemma {:induction false} OutputCellIs(cells: seq<BoundaryCell>, i: nat)
    requires i < |cells| && cells[i].function_ in {Output2, Output3, Bidir}
    requires forall j :: 0 <= j < i && cells[j].pinName == cells[i].pinName ==>
        cells[j].function_ in {Input, ClockIn, Control, Internal}
    ensures OutputCell(cells, cells[i].pinName) == i
  {
    if i < |cells| - 1 { OutputCellIs(cells[..|cells| - 1], i); }
  }

  lemma OutputCellMissing(cells: seq<BoundaryCell>, pin: string)
    ensures OutputCell(cells, pin) < 0 <==>
      forall j :: 0 <= j < |cells| && cells[j].pinName == pin ==> cells[j].function_ !in {Output2, Output3, Bidir}
  {
  }

  method GetOutputCellForPin(cells: seq<BoundaryCell>, pin: string) returns (found: Option<BoundaryCell>)
    ensures found == if OutputCell(cells, pin) >= 0 then Some(cells[OutputCell(cells, pin)]) else None
  {
    for i := 0 to |cells|
      invariant OutputCell(cells[..i], pin) < 0
    {
      assert cells[..i + 1][..i] == cells[..i];
      if cells[i].pinName == pin && cells[i].IsOutput() {
        FirstStays(cells, pin, i);
        return Some(cells[i]);
      }
    }
    assert cells[..|cells|] == cells;
    found := None;
  }

  lemma {:induction false} FirstStays(cells: seq<BoundaryCell>, pin: string, i: nat)
    requires i < |cells| && OutputCell(cells[..i], pin) < 0 && cells[i].pinName == pin && cells[i].IsOutput()
    ensures OutputCell(cells, pin) == i
  {
    var n := |cells| - 1;
    if i < n {
      assert cells[..n][..i] == cells[..i];
      FirstStays(cells[..n], pin, i);
    }
  }

  function ControlCell(cells: seq<BoundaryCell>, output: BoundaryCell): Option<BoundaryCell> {
    if 0 <= output.disabledBy < |cells| then Some(cells[output.disabledBy]) else None
  }

  function Digit(b: bool): int { if b then 1 else 0 }

  /** The value an image drives on a pin: 0, 1, or -1 for high impedance or no output. */
  function GetStagedPinValue(bsr: seq<byte>, cells: seq<BoundaryCell>, pin: string): int {
    var k := OutputCell(cells, pin);
    if k < 0 then -1
    else
      var control := ControlCell(cells, cells[k]);
      if control.Some? && Digit(BitAt(bsr, control.value.position)) == cells[k].disableValue then -1
      else Digit(BitAt(bsr, cells[k].position))
  }

  /** Where staging a pin writes, in order: its output bit, then its control bit. */
  function Written(bsr: seq<byte>, output: BoundaryCell, control: Option<BoundaryCell>, value: bool, q: int): bool {
    if control.Some? && q == control.value.position && q >= 0 then output.disableValue == 0
    else if q == output.position && q >= 0 then value
    else BitAt(bsr, q)
  }

  method StagePinOutput(bsr: seq<byte>, cells: seq<BoundaryCell>, pin: string, value: int)
      returns (ok: bool, r: seq<byte>)
    ensures |r| >= |bsr| && (ok <==> OutputCell(cells, pin) >= 0)
    ensures !ok ==> r == bsr
    ensures ok ==> var c := cells[OutputCell(cells, pin)];
      forall q :: BitAt(r, q) == Written(bsr, c, ControlCell(cells, c), value != 0, q)
  {
    hide BitAt;
    var output := GetOutputCellForPin(cells, pin);
    if output.None? { return false, bsr; }
    r := SetBit(bsr, output.value.position, value != 0);
    var control := ControlCell(cells, output.value);
    if control.Some? {
      r := SetBit(r, control.value.position, output.value.disableValue == 0);
    }
    ok := true;
  }

  /** Staging, cell by cell: the first driving cell of the pin takes the value, the cell that may disable it the
      opposite of the disabling value, which wins where the two share a place, and no other bit moves. */
  lemma StagedBits(bsr: seq<byte>, r: seq<byte>, cells: seq<BoundaryCell>, i: nat, value: bool)
    requires i < |cells| && cells[i].function_ in {Output2, Output3, Bidir}
    requires forall j :: 0 <= j < i && cells[j].pinName == cells[i].pinName ==>
        cells[j].function_ in {Input, ClockIn, Control, Internal}
    requires OutputCell(cells, cells[i].pinName) >= 0
    requires var c := cells[OutputCell(cells, cells[i].pinName)];
      forall q :: BitAt(r, q) == Written(bsr, c, ControlCell(cells, c), value, q)
    ensures var place, k := cells[i].position, cells[i].disabledBy;
      && (0 <= k < |cells| && cells[k].position >= 0 ==> BitAt(r, cells[k].position) == (cells[i].disableValue == 0))
      && (place >= 0 && (0 <= k < |cells| ==> cells[k].position != place) ==> BitAt(r, place) == value)
      && (forall q {:trigger BitAt(r, q)} :: q != place && (0 <= k < |cells| ==> q != cells[k].position) ==>
        BitAt(r, q) == BitAt(bsr, q))
  {
    hide BitAt;
    OutputCellIs(cells, i);
  }

  /** A staged value reads back exactly when the output has a place, its control slot is not an empty one that
      disables at 0, and the control bit does not fall on the output bit with the opposite value. */
  lemma StagedReadsBackIff(bsr: seq<byte>, r: seq<byte>, cells: seq<BoundaryCell>, pin: string, value: bool)
    requires OutputCell(cells, pin) >= 0
    requires var c := cells[OutputCell(cells, pin)];
      forall q :: BitAt(r, q) == Written(bsr, c, ControlCell(cells, c), value, q)
    ensures var c := cells[OutputCell(cells, pin)];
      var control := ControlCell(cells, c);
      GetStagedPinValue(r, cells, pin) == Digit(value) <==>
        && (c.position < 0 ==> !value)
        && (control.Some? && control.value.position < 0 ==> c.disableValue != 0)
        && (control.Some? && control.value.position == c.position >= 0 ==> value == (c.disableValue == 0))
  {
    hide OutputCell;
    var c := cells[OutputCell(cells, pin)];
    assert BitAt(r, c.position) == Written(bsr, c, ControlCell(cells, c), value, c.position);
    if ControlCell(cells, c).Some? {
      var q := ControlCell(cells, c).value.position;
      assert BitAt(r, q) == Written(bsr, c, ControlCell(cells, c), value, q);
    }
  }

  /** Releasing a pin writes its control bit only. */
  function Released(bsr: seq<byte>, output: BoundaryCell, control: BoundaryCell, q: int): bool {
    if q == control.position && q >= 0 then output.disableValue != 0 else BitAt(bsr, q)
  }

  method StagePinHighZ(bsr: seq<byte>, cells: seq<BoundaryCell>, pin: string) returns (ok: bool, r: seq<byte>)
    ensures |r| >= |bsr|
    ensures ok <==> OutputCell(cells, pin) >= 0 && var c := cells[OutputCell(cells, pin)];
      c.function_ in {Output3, Bidir} && ControlCell(cells, c).Some?
    ensures !ok ==> r == bsr
    ensures ok ==> var c := cells[OutputCell(cells, pin)];
      && (forall q :: BitAt(r, q) == Released(bsr, c, ControlCell(cells, c).value, q))
      && (GetStagedPinValue(r, cells, pin) == -1 <==>
        c.disableValue == 0 || (c.disableValue == 1 && ControlCell(cells, c).value.position >= 0))
  {
    hide BitAt, OutputCell;
    var output := GetOutputCellForPin(cells, pin);
    if output.None? { return false, bsr; }
    if output.value.function_ != Output3 && output.value.function_ != Bidir { return false, bsr; }
    var control := ControlCell(cells, output.value);
    if control.None? { return false, bsr; }
    r := SetBit(bsr, control.value.position, output.value.disableValue != 0);
    NoBitBelowZero(r, control.value.position);
    ok := true;
  }

  lemma NoBitBelowZero(bsr: seq<byte>, q: int)
    ensures q < 0 ==> !BitAt(bsr, q)
  {
  }

  /** Copies a raw image, cut or padded to the boundary length. */
  method ApplyBsrSnapshot(raw: seq<byte>, boundaryLength: nat) returns (r: seq<byte>)
    ensures Packs(r, seq(boundaryLength, k => BitAt(raw, k)))
  {
    hide Bit;
    var n := boundaryLength;
    var m := if n < 8 * |raw| then n else 8 * |raw|;
    GetBitOfZeros(n);
    r := OrBits(Zeros(n), 0, raw, 0, m);
    forall k {:trigger GetBit(r, k)} | 0 <= k < 8 * |r| ensures GetBit(r, k) == (k < n && BitAt(raw, k)) {
      if k < m { assert BitAt(raw, k) == GetBit(raw, k); }
    }
  }

  /** The safe values of the cells, each at its own place. */
  method InitBsrFromSafeValues(cells: seq<BoundaryCell>, boundaryLength: nat) returns (r: seq<byte>)
    ensures boundaryLength <= 8 * |r|
    ensures (|cells| == boundaryLength && forall i :: 0 <= i < |cells| ==> cells[i].position in {-1, i}) ==>
      forall q :: BitAt(r, q) == (0 <= q < |cells| && cells[q].position == q && cells[q].safeValue == 1)
  {
    hide BitAt;
    r := Zeros(boundaryLength);
    NoBitsInZeros(boundaryLength);
    ghost var placed := forall i :: 0 <= i < |cells| ==> cells[i].position in {-1, i};
    for i := 0 to |cells|
      invariant boundaryLength <= 8 * |r|
      invariant placed ==> forall q :: BitAt(r, q) == (0 <= q < i && cells[q].position == q && cells[q].safeValue == 1)
    {
      r := SetBit(r, cells[i].position, cells[i].safeValue == 1);
    }
  }

  lemma NoBitsInZeros(n: nat)
    ensures forall q :: !BitAt(Zeros(n), q)
  {
    hide Bit;
    forall q ensures !BitAt(Zeros(n), q) {
      if q >= 0 { BitOfZero(q % 8); }
    }
  }

  // ------------------------------------------------------------- the driver

  /** No pin of the device is a live pin of its processor: memory, peripheral, reset or power. */
  ghost predicate NoLivePins(dev: BsdlDevice) {
    forall name | name in dev.pins :: name !in {"PS_SRST_B", "PS_POR_B"}
      && (|name| >= 7 ==> name[..7] != "PS_DDR_") && (|name| >= 6 ==> name[..6] != "PS_MIO")
  }

  lemma BlockedIffLive(dev: BsdlDevice)
    ensures AllowsLiveExtest(dev) <==> NoLivePins(dev)
  {
    if AllowsLiveExtest(dev) {
      forall name | name in dev.pins ensures name !in {"PS_SRST_B", "PS_POR_B"}
        && (|name| >= 7 ==> name[..7] != "PS_DDR_") && (|name| >= 6 ==> name[..6] != "PS_MIO") {
        assert |name| >= 7 && name[..7] == "PS_DDR_" ==> "PS_DDR_" <= name;
        assert |name| >= 6 && name[..6] == "PS_MIO" ==> "PS_MIO" <= name;
      }
    }
  }

  /** EXTEST selects a boundary register of the length the description states. */
  ghost predicate Extests(d: Device, dev: BsdlDevice) {
    && "EXTEST" in dev.instructions
    && ExtestKey(d, dev) in d.regs
    && d.regs[ExtestKey(d, dev)].Cells?
    && |d.regs[ExtestKey(d, dev)].inputs| == dev.boundaryLength
  }

  ghost function ExtestKey(d: Device, dev: BsdlDevice): seq<bool>
    requires "EXTEST" in dev.instructions
  {
    NatBits(dev.instructions["EXTEST"], |d.ir|)
  }

  class PinDriver {
    const chain: JtagChain
    const deviceIndex: int
    var bsrData: seq<byte>

    constructor (chain: JtagChain, deviceIndex: int)
      ensures this.chain == chain && this.deviceIndex == deviceIndex && bsrData == []
    {
      this.chain, this.deviceIndex, bsrData := chain, deviceIndex, [];
    }

    predicate IsReady()
      reads chain`devices
    {
      0 <= deviceIndex < |chain.devices| && chain.devices[deviceIndex].bsdl.Some?
    }

    /** The index names a device with a description. */
    ghost predicate HasDevice()
      reads chain`devices
    {
      0 <= deviceIndex < |chain.devices| && chain.devices[deviceIndex].bsdl.Some?
    }

    function Dev(): BsdlDevice
      requires HasDevice()
      reads chain`devices
    {
      chain.devices[deviceIndex].bsdl.value
    }

    ghost predicate Sound()
      reads this, chain`devices, chain.tap`state, chain.tap.device
    {
      && chain.tap.device.Valid()
      && (forall i :: 0 <= i < |chain.devices| ==> chain.devices[i].irLength <= 32)
      && (HasDevice() ==> bsrData == [] || Dev().boundaryLength <= 8 * |bsrData|)
    }

    /** The description fits the hardware's sampling register. */
    ghost predicate Fits()
      reads chain`devices, chain.tap`state, chain.tap.device
    {
      chain.Ready() && HasDevice() && Samples(chain.tap.device.hw.chain[deviceIndex], Dev())
    }

    ghost function Faults(): nat
      reads chain.tap.device
    {
      chain.tap.device.faults
    }

    /** Loads the live pin state as the staging baseline. The result of the idle wait is ignored. */
    method CaptureCurrentState() returns (ok: bool)
      requires Sound()
      modifies this`bsrData, chain`lastError, chain.tap, chain.tap.device
      ensures Sound() && Faults() >= old(Faults()) && (ok ==> HasDevice() && Dev().boundaryLength <= 8 * |bsrData|)
      ensures !HasDevice() || !NamesSample(Dev()) ==> !ok && chain.tap.device.hw == old(chain.tap.device.hw)
      ensures !ok ==> bsrData == old(bsrData)
      ensures ok && Faults() == old(Faults()) ==> chain.tap.waits == old(chain.tap.waits) + [2]
      ensures old(Fits()) && Faults() == old(Faults()) ==>
        var c := old(chain.tap.device.hw.chain);
        && ok && chain.Addressing(deviceIndex) && Packs(bsrData, Sampled(c[deviceIndex], Dev()))
        && c[deviceIndex].Valid() && KeepsInputs(c[deviceIndex], chain.tap.device.hw.chain[deviceIndex])
    {
      hide DrScan, CaptureDevice, NatBits, Samples, Targets, Merged, Packs, FirstBits, Sampled, KeepsInputs, TotalIr;
      if !IsReady() { return false; }
      var dev := Dev();
      ghost var c, fits := chain.tap.device.hw.chain, Fits();
      if fits { SampledIsThere(c[deviceIndex], dev); }
      var opcode := SampleOpcode(dev);
      if opcode.None? { return false; }
      var raw;
      ok, raw := ReadPins(opcode.value);
      if !ok { return; }
      bsrData := ApplyBsrSnapshot(raw, dev.boundaryLength);
      PackedLength(bsrData, seq(dev.boundaryLength, k => BitAt(raw, k)));
      if Faults() == old(Faults()) && fits { SnapshotIs(raw, bsrData, c[deviceIndex], dev); }
    }

    /** Samples the whole boundary register. */
    method ReadPins(opcode: nat) returns (ok: bool, raw: seq<byte>)
      requires Sound() && HasDevice() && SampleOpcode(Dev()) == Some(opcode)
      modifies chain`lastError, chain.tap, chain.tap.device
      ensures Sound() && Faults() >= old(Faults())
      ensures ok && Faults() == old(Faults()) ==> chain.tap.waits == old(chain.tap.waits) + [2]
      ensures old(Fits()) && Faults() == old(Faults()) ==>
        var d := old(chain.tap.device.hw).chain[deviceIndex];
        && ok && chain.Addressing(deviceIndex) && KeepsInputs(d, chain.tap.device.hw.chain[deviceIndex])
        && Merged(raw, [], FirstBits(d.regs[SampleKey(d, Dev())].inputs, ReadLength(Dev().boundaryLength, 0)))
    {
      hide DrScan, CaptureDevice, NatBits, Samples, Targets, Merged, FirstBits, KeepsInputs, TotalIr, SampleOpcode;
      ghost var c, fits, dev := chain.tap.device.hw.chain, Fits(), Dev();
      raw := [];
      if fits { SampledIsThere(c[deviceIndex], dev); }
      ok := chain.SelectInstruction(deviceIndex, opcode);
      if !ok { return; }
      ghost var selected := chain.tap.device.hw.chain;
      if fits {
        SelectedReads(c[deviceIndex], selected[deviceIndex], dev);
        ReadKeepsInputs(c[deviceIndex], selected, deviceIndex, ReadLength(dev.boundaryLength, 0));
      }
      var waited := chain.tap.ClkIdle(2);
      ok, raw := chain.ReadBSR(deviceIndex, [], 0);
    }

    /** Makes sure there is a staging baseline: the live state, or failing that the safe values. */
    method Prepare()
      requires Sound() && HasDevice()
      modifies this`bsrData, chain`lastError, chain.tap, chain.tap.device
      ensures Sound() && Faults() >= old(Faults()) && Dev().boundaryLength <= 8 * |bsrData|
      ensures old(bsrData) != [] ==>
        bsrData == old(bsrData) && chain.tap.device.hw == old(chain.tap.device.hw) && Faults() == old(Faults())
      ensures old(bsrData) != [] && old(chain.Ready()) ==> chain.Ready()
      ensures old(bsrData) == [] && !NamesSample(Dev()) ==> IsSafe(bsrData)
      ensures old(bsrData) == [] && old(Fits()) && Faults() == old(Faults()) ==>
        var c := old(chain.tap.device.hw.chain);
        && chain.Ready() && Packs(bsrData, Sampled(c[deviceIndex], Dev()))
        && c[deviceIndex].Valid() && KeepsInputs(c[deviceIndex], chain.tap.device.hw.chain[deviceIndex])
    {
      hide Samples, Packs, Sampled, KeepsInputs, SampleOpcode, BitAt;
      if bsrData == [] {
        var captured := CaptureCurrentState();
        if !captured {
          bsrData := InitBsrFromSafeValues(Dev().boundaryCells, Dev().boundaryLength);
        }
      }
    }

    /** A buffer that holds the safe value of every cell at its own place. */
    ghost predicate IsSafe(bsr: seq<byte>)
      requires HasDevice()
      reads chain`devices
    {
      var cells := Dev().boundaryCells;
      Dev().WellFormed() ==>
        forall q :: BitAt(bsr, q) == (0 <= q < |cells| && cells[q].position == q && cells[q].safeValue == 1)
    }

    /** The image `bsr` with one pin staged over the baseline `base`. */
    ghost predicate Staged(bsr: seq<byte>, base: seq<byte>, pin: string, value: int)
      requires HasDevice() && OutputCell(Dev().boundaryCells, pin) >= 0
      reads chain`devices
    {
      var cells := Dev().boundaryCells;
      var c := cells[OutputCell(cells, pin)];
      forall q :: BitAt(bsr, q) == Written(base, c, ControlCell(cells, c), value != 0, q)
    }

    /** Stages a value, on devices that EXTEST may drive: over the image there is, else over the pins as they are
        sampled now, else over the safe values. */
    method SetPin(pin: string, value: int) returns (ok: bool)
      requires Sound()
      modifies this`bsrData, chain`lastError, chain.tap, chain.tap.device
      ensures Sound() && Faults() >= old(Faults())
      ensures ok <==> HasDevice() && NoLivePins(Dev()) && OutputCell(Dev().boundaryCells, pin) >= 0
      ensures ok && old(bsrData) != [] ==> Staged(bsrData, old(bsrData), pin, value)
      ensures ok && old(bsrData) == [] && !NamesSample(Dev()) ==>
        exists base :: IsSafe(base) && Staged(bsrData, base, pin, value)
      ensures ok && old(bsrData) == [] && old(Fits()) && Faults() == old(Faults()) ==>
        exists base :: Packs(base, Sampled(old(chain.tap.device.hw.chain[deviceIndex]), Dev()))
          && Staged(bsrData, base, pin, value)
      ensures !ok && old(bsrData) != [] ==> bsrData == old(bsrData)
    {
      hide Samples, Packs, Sampled, KeepsInputs, SampleOpcode, OutputCell, BitAt, Written, IsSafe,
           AllowsLiveExtest, NoLivePins;
      if !IsReady() { return false; }
      BlockedIffLive(Dev());
      if !AllowsLiveExtest(Dev()) { return false; }
      Prepare();
      ghost var base := bsrData;
      var dev := Dev();
      ok, bsrData := StagePinOutput(bsrData, dev.boundaryCells, pin, value);
      assert ok ==> Staged(bsrData, base, pin, value);
    }

    /** Puts the whole staged image into the boundary register under EXTEST; with nothing staged, the pins as they
        are sampled now. */
    method ApplyOutputs() returns (ok: bool)
      requires Sound()
      modifies this`bsrData, chain`lastError, chain.tap, chain.tap.device
      ensures Sound() && Faults() >= old(Faults()) && (old(bsrData) != [] ==> bsrData == old(bsrData))
      ensures !(HasDevice() && NoLivePins(Dev())) ==> !ok && chain.tap.device.hw == old(chain.tap.device.hw)
      ensures ok ==> "EXTEST" in Dev().instructions
      ensures old(Drivable()) && (old(bsrData) != [] || old(Fits())) && Faults() == old(Faults()) ==>
        var d := old(chain.tap.device.hw.chain[deviceIndex]);
        var key := ExtestKey(d, Dev());
        && ok && chain.Addressing(deviceIndex) && Dev().boundaryLength <= 8 * |bsrData|
        && var d', bits := chain.tap.device.hw.chain[deviceIndex], Bits(bsrData, 0, Dev().boundaryLength);
        && d'.ir == key && key in d'.regs && d'.regs[key] == Cells(d.regs[key].inputs, bits)
        && (old(bsrData) != [] ==> d'.regs == d.regs[key := d'.regs[key]])
        && (old(bsrData) == [] ==> bits == Sampled(d, Dev()))
    {
      hide Bits, Samples, Packs, Sampled, KeepsInputs, SampleOpcode, BitAt, IsSafe, Extests, ExtestKey,
           AllowsLiveExtest, NoLivePins, NamesSample;
      if !IsReady() { return false; }
      BlockedIffLive(Dev());
      if !AllowsLiveExtest(Dev()) { return false; }
      ghost var c0, drivable := chain.tap.device.hw.chain, Drivable() && (bsrData != [] || Fits());
      Prepare();
      var dev := Dev();
      if drivable { ExtestIsThere(c0[deviceIndex], dev); }
      var opcode := GetInstruction(dev, "EXTEST");
      if opcode.None? { return false; }
      if drivable && Faults() == old(Faults()) && old(bsrData) == [] {
        InputsKept(c0[deviceIndex], chain.tap.device.hw.chain[deviceIndex], dev);
        SampledBitsBack(bsrData, c0[deviceIndex], dev);
      }
      ok := Drive(opcode.value);
    }

    /** Loads EXTEST and writes the image. */
    method Drive(opcode: nat) returns (ok: bool)
      requires Sound() && HasDevice() && GetInstruction(Dev(), "EXTEST") == Some(opcode)
      requires Dev().boundaryLength <= 8 * |bsrData|
      modifies chain`lastError, chain.tap, chain.tap.device
      ensures Sound() && Faults() >= old(Faults())
      ensures old(Extesting()) && Faults() == old(Faults()) ==>
        var d := old(chain.tap.device.hw.chain[deviceIndex]);
        var key := ExtestKey(d, Dev());
        && ok && chain.Addressing(deviceIndex) && key in d.regs && d.regs[key].Cells?
        && var d' := chain.tap.device.hw.chain[deviceIndex];
        && d'.ir == key
        && d'.regs == d.regs[key := Cells(d.regs[key].inputs, Bits(bsrData, 0, Dev().boundaryLength))]
    {
      hide NatBits, Bits, Targets, TotalIr, Passing, UpdateDevice, CaptureDevice;
      ghost var c, fits := chain.tap.device.hw.chain, Extesting();
      ok := chain.SelectInstruction(deviceIndex, opcode);
      if !ok { return; }
      if fits && Faults() == old(Faults()) {
        SelectedDrives(c[deviceIndex], chain.tap.device.hw.chain[deviceIndex], Dev(),
                       Bits(bsrData, 0, Dev().boundaryLength));
      }
      ok := chain.WriteBSR(deviceIndex, bsrData, Dev().boundaryLength);
    }

    /** The table describes the hardware, EXTEST selects the register the description states, and there is an image. */
    ghost predicate Extesting()
      reads this`bsrData, chain`devices, chain.tap`state, chain.tap.device
    {
      && chain.Ready() && HasDevice() && Dev().boundaryLength <= 8 * |bsrData|
      && Extests(chain.tap.device.hw.chain[deviceIndex], Dev())
    }

    /** The hardware is as the table says, and EXTEST selects the register the description states. */
    ghost predicate Drivable()
      reads chain`devices, chain.tap`state, chain.tap.device
    {
      && chain.Ready() && HasDevice() && NoLivePins(Dev())
      && Extests(chain.tap.device.hw.chain[deviceIndex], Dev())
    }
  }

  /** What SAMPLE would read from a device now. */
  ghost function Sampled(d: Device, dev: BsdlDevice): seq<bool> {
    if NamesSample(dev) && SampleKey(d, dev) in d.regs && d.regs[SampleKey(d, dev)].Cells?
    then d.regs[SampleKey(d, dev)].inputs else []
  }

  /** Reading moves only the instruction and the latches of plain registers. */
  ghost predicate KeepsInputs(d: Device, d': Device) {
    && |d'.ir| == |d.ir| && d'.regs.Keys == d.regs.Keys
    && forall op :: op in d.regs && d.regs[op].Cells? ==> d'.regs[op].Cells? && d'.regs[op].inputs == d.regs[op].inputs
  }

  lemma ReadKeepsInputs(d: Device, selected: seq<Device>, t: nat, n: nat)
    requires Targets(selected, t) && selected[t] == d.(ir := selected[t].ir) && |selected[t].ir| == |d.ir|
    ensures |DrScan(selected, Falses(n + |selected| - 1))| == |selected|
    ensures KeepsInputs(d, DrScan(selected, Falses(n + |selected| - 1))[t])
  {
    hide DrScan, CaptureDevice;
    TargetScan(selected, t, Falses(n));
    assert Frame(|selected|, t, Falses(n)) == Falses(n + |selected| - 1);
  }

  lemma InputsKept(d: Device, d': Device, dev: BsdlDevice)
    requires KeepsInputs(d, d') && Extests(d, dev)
    ensures Extests(d', dev) && ExtestKey(d', dev) == ExtestKey(d, dev)
    ensures d'.regs[ExtestKey(d, dev)].inputs == d.regs[ExtestKey(d, dev)].inputs
  {
    hide NatBits;
  }

  lemma SampledBitsBack(image: seq<byte>, d: Device, dev: BsdlDevice)
    requires Samples(d, dev) && Packs(image, Sampled(d, dev))
    ensures dev.boundaryLength <= 8 * |image| && Bits(image, 0, dev.boundaryLength) == Sampled(d, dev)
  {
    hide NatBits, Bit;
    BitsOfPacked(image, Sampled(d, dev));
  }

  lemma ExtestIsThere(d: Device, dev: BsdlDevice)
    requires d.Valid() && Extests(d, dev)
    ensures dev.boundaryLength > 0 && GetInstruction(dev, "EXTEST").Some?
  {
    assert d.regs[ExtestKey(d, dev)].Valid();
  }

  lemma SelectedDrives(d: Device, selected: Device, dev: BsdlDevice, bits: seq<bool>)
    requires d.Valid() && Extests(d, dev) && |bits| == dev.boundaryLength
    requires selected == d.(ir := IrBits(true, GetInstruction(dev, "EXTEST").value, |d.ir|)) && selected.Valid()
    ensures |CaptureDevice(selected)| == dev.boundaryLength && selected.ir == ExtestKey(d, dev)
    ensures UpdateDevice(selected, bits).regs
      == d.regs[ExtestKey(d, dev) := Cells(d.regs[ExtestKey(d, dev)].inputs, bits)]
  {
    hide NatBits;
  }

  lemma SnapshotIs(raw: seq<byte>, image: seq<byte>, d: Device, dev: BsdlDevice)
    requires d.Valid() && Samples(d, dev)
    requires Merged(raw, [], FirstBits(d.regs[SampleKey(d, dev)].inputs, ReadLength(dev.boundaryLength, 0)))
    requires Packs(image, seq(dev.boundaryLength, k => BitAt(raw, k)))
    ensures Packs(image, Sampled(d, dev))
  {
    hide Bit, SampleKey;
    var inputs := d.regs[SampleKey(d, dev)].inputs;
    MergeIsExactIffClear([], dev.boundaryLength);
    assert FirstBits(inputs, dev.boundaryLength) == inputs;
    forall k | 0 <= k < |inputs| ensures BitAt(raw, k) == inputs[k] { assert BitAt(raw, k) == GetBit(raw, k); }
    assert seq(dev.boundaryLength, k => BitAt(raw, k)) == inputs;
  }
}
