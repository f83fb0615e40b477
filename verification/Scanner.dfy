/** Sampling pins: the boundary register decoded by cell, with a filter that shortens the scan. */
module Scanner {
  import opened Bytes
  import opened Hardware
  import opened Chain
  import opened Bsdl

  datatype PinState = Low | High | Unknown

  function Level(b: bool): PinState { if b then High else Low }

  /** A boundary bit as the decoder reads it: false outside the buffer. */
  predicate BitAt(raw: seq<byte>, position: int) {
    0 <= position && position / 8 < |raw| && Bit(raw[position / 8], position % 8)
  }

  // ---------------------------------------------------------- what a pin is

  /** The index of the last input cell of a pin, or -1. */
  function LastInput(cells: seq<BoundaryCell>, pin: string): (r: int)
    ensures -1 <= r < |cells|
    ensures r >= 0 ==> cells[r].HasPin() && cells[r].IsInput() && cells[r].pinName == pin
  {
    if cells == [] then -1
    else
      var n := |cells| - 1;
      if cells[n].HasPin() && cells[n].IsInput() && cells[n].pinName == pin then n else LastInput(cells[..n], pin)
  }

  /** The index of the first output cell of a pin, or -1. */
  function FirstOutput(cells: seq<BoundaryCell>, pin: string): (r: int)
    ensures -1 <= r < |cells|
    ensures r >= 0 ==> cells[r].HasPin() && cells[r].IsOutput() && cells[r].pinName == pin
  {
    if cells == [] then -1
    else
      var n := |cells| - 1;
      var earlier := FirstOutput(cells[..n], pin);
      if earlier >= 0 then earlier
      else if cells[n].HasPin() && cells[n].IsOutput() && cells[n].pinName == pin then n else -1
  }

  /** The cell a pin's state comes from: its last input cell, else its first output cell. */
  function SourceCell(cells: seq<BoundaryCell>, pin: string): (r: int)
    ensures -1 <= r < |cells|
    ensures r >= 0 ==> cells[r].HasPin() && cells[r].pinName == pin
  {
    var i := LastInput(cells, pin);
    if i >= 0 then i else FirstOutput(cells, pin)
  }

  /** m holds the state of exactly the pins that have a cell and pass the filter (an empty filter passes all). */
  ghost predicate Decodes(m: map<string, PinState>, cells: seq<BoundaryCell>, bits: seq<bool>, filter: set<string>) {
    forall pin {:trigger pin in m} {:trigger SourceCell(cells, pin)} ::
      && (pin in m <==> SourceCell(cells, pin) >= 0 && (filter == {} || pin in filter))
      && (pin in m ==> m[pin] == Level(CellBit(bits, cells[SourceCell(cells, pin)].position)))
  }

  predicate CellBit(bits: seq<bool>, position: int) {
    0 <= position < |bits| && bits[position]
  }

  lemma DecodeIsUnique(a: map<string, PinState>, b: map<string, PinState>, cells: seq<BoundaryCell>, bits: seq<bool>,
                       filter: set<string>)
    requires Decodes(a, cells, bits, filter) && Decodes(b, cells, bits, filter)
    ensures a == b
  {
    assert forall pin :: pin in a <==> pin in b;
  }

  /** A decode read cell by cell: a pin with a sensing cell shows the bit at the last one's place. */
  lemma DecodedInput(m: map<string, PinState>, cells: seq<BoundaryCell>, bits: seq<bool>, filter: set<string>, i: nat)
    requires Decodes(m, cells, bits, filter)
    requires i < |cells| && cells[i].pinName !in {"", "*"} && cells[i].function_ in {Input, Bidir, ClockIn}
    requires forall j :: i < j < |cells| && cells[j].pinName == cells[i].pinName ==>
        cells[j].function_ in {Output2, Output3, Control, Internal}
    ensures var pin, place := cells[i].pinName, cells[i].position;
      && (pin in m <==> filter == {} || pin in filter)
      && (pin in m ==> m[pin] == if 0 <= place < |bits| && bits[place] then High else Low)
  {
    LastInputIs(cells, i);
  }

  /** A pin without a sensing cell shows the bit at its first driving cell's place. */
  lemma DecodedOutput(m: map<string, PinState>, cells: seq<BoundaryCell>, bits: seq<bool>, filter: set<string>, i: nat)
    requires Decodes(m, cells, bits, filter)
    requires i < |cells| && cells[i].pinName !in {"", "*"} && cells[i].function_ in {Output2, Output3}
    requires forall j :: 0 <= j < |cells| && cells[j].pinName == cells[i].pinName ==>
        cells[j].function_ in {Control, Internal} || (j >= i && cells[j].function_ in {Output2, Output3})
    ensures var pin, place := cells[i].pinName, cells[i].position;
      && (pin in m <==> filter == {} || pin in filter)
      && (pin in m ==> m[pin] == if 0 <= place < |bits| && bits[place] then High else Low)
  {
    NoLastInput(cells, cells[i].pinName);
    FirstOutputIs(cells, i);
  }

  /** Control and internal cells show nothing, and neither do cells without a pin. */
  lemma NotDecoded(m: map<string, PinState>, cells: seq<BoundaryCell>, bits: seq<bool>, filter: set<string>,
                   pin: string)
    requires Decodes(m, cells, bits, filter)
    requires pin in {"", "*"} ||
      forall j :: 0 <= j < |cells| && cells[j].pinName == pin ==> cells[j].function_ in {Control, Internal}
    ensures pin !in m
  {
    var i := SourceCell(cells, pin);
    assert i >= 0 ==> Senses(cells[i]) || Drives(cells[i]);
  }

  lemma {:induction false} LastInputIs(cells: seq<BoundaryCell>, i: nat)
    requires i < |cells| && Senses(cells[i])
    requires forall j :: i < j < |cells| && cells[j].pinName == cells[i].pinName ==> !Senses(cells[j])
    ensures LastInput(cells, cells[i].pinName) == i
  {
    if i < |cells| - 1 { LastInputIs(cells[..|cells| - 1], i); }
  }

  lemma NoLastInput(cells: seq<BoundaryCell>, pin: string)
    requires forall j :: 0 <= j < |cells| && cells[j].pinName == pin ==> !Senses(cells[j])
    ensures LastInput(cells, pin) < 0
  {
  }

  lemma {:induction false} FirstOutputIs(cells: seq<BoundaryCell>, i: nat)
    requires i < |cells| && Drives(cells[i])
    requires forall j :: 0 <= j < i && cells[j].pinName == cells[i].pinName ==> !Drives(cells[j])
    ensures FirstOutput(cells, cells[i].pinName) == i
  {
    if i < |cells| - 1 { FirstOutputIs(cells[..|cells| - 1], i); }
  }

  // ------------------------------------------------------- decodeBoundaryScan

  datatype ScanResult = ScanResult(rawBsr: seq<byte>, pinStates: map<string, PinState>)
  {
    function GetPin(name: string): PinState {
      if name in pinStates then pinStates[name] else Unknown
    }
  }

  /** The states found by the input pass: each pin from its last input cell. */
  ghost predicate InputStates(m: map<string, PinState>, cells: seq<BoundaryCell>, raw: seq<byte>) {
    forall pin {:trigger pin in m} {:trigger LastInput(cells, pin)} ::
      && (pin in m <==> LastInput(cells, pin) >= 0)
      && (pin in m ==> m[pin] == Level(BitAt(raw, cells[LastInput(cells, pin)].position)))
  }

  /** The states after the output pass: as the input pass left them, else from the first output cell. */
  ghost predicate OutputStates(m: map<string, PinState>, inputs: map<string, PinState>, cells: seq<BoundaryCell>,
                               raw: seq<byte>) {
    forall pin {:trigger pin in m} {:trigger FirstOutput(cells, pin)} ::
      && (pin in m <==> pin in inputs || FirstOutput(cells, pin) >= 0)
      && (pin in inputs ==> pin in m && m[pin] == inputs[pin])
      && (pin in m && pin !in inputs ==> m[pin] == Level(BitAt(raw, cells[FirstOutput(cells, pin)].position)))
  }

  predicate Senses(cell: BoundaryCell) { cell.HasPin() && cell.IsInput() }

  predicate Drives(cell: BoundaryCell) { cell.HasPin() && cell.IsOutput() }

  lemma LastInputSnoc(cells: seq<BoundaryCell>, cell: BoundaryCell, pin: string)
    ensures LastInput(cells + [cell], pin)
      == if Senses(cell) && cell.pinName == pin then |cells| else LastInput(cells, pin)
  {
    assert (cells + [cell])[..|cells|] == cells;
  }

  lemma FirstOutputSnoc(cells: seq<BoundaryCell>, cell: BoundaryCell, pin: string)
    ensures FirstOutput(cells + [cell], pin) ==
      if FirstOutput(cells, pin) < 0 && Drives(cell) && cell.pinName == pin then |cells| else FirstOutput(cells, pin)
  {
    assert (cells + [cell])[..|cells|] == cells;
  }

  lemma InputStep(m: map<string, PinState>, cells: seq<BoundaryCell>, cell: BoundaryCell, raw: seq<byte>)
    requires InputStates(m, cells, raw)
    ensures InputStates(if Senses(cell) then m[cell.pinName := Level(BitAt(raw, cell.position))] else m,
                        cells + [cell], raw)
  {
    hide BitAt, LastInput, Senses;
    forall pin ensures
        LastInput(cells + [cell], pin) == if Senses(cell) && cell.pinName == pin then |cells| else LastInput(cells, pin)
    {
      LastInputSnoc(cells, cell, pin);
    }
  }

  lemma OutputStep(m: map<string, PinState>, inputs: map<string, PinState>, cells: seq<BoundaryCell>,
                   cell: BoundaryCell, raw: seq<byte>)
    requires OutputStates(m, inputs, cells, raw)
    ensures OutputStates(if Drives(cell) && cell.pinName !in m
      then m[cell.pinName := Level(BitAt(raw, cell.position))] else m,
                         inputs, cells + [cell], raw)
  {
    hide BitAt, FirstOutput, Drives;
    forall pin ensures FirstOutput(cells + [cell], pin) ==
        if FirstOutput(cells, pin) < 0 && Drives(cell) && cell.pinName == pin then |cells| else FirstOutput(cells, pin)
    {
      FirstOutputSnoc(cells, cell, pin);
    }
  }

  lemma NoStates(inputs: map<string, PinState>, raw: seq<byte>)
    ensures InputStates(map[], [], raw) && OutputStates(inputs, inputs, [], raw)
  {
  }

  method InputPass(cells: seq<BoundaryCell>, raw: seq<byte>) returns (states: map<string, PinState>)
    ensures InputStates(states, cells, raw)
  {
    hide InputStates, BitAt;
    states := map[];
    NoStates(states, raw);
    assert cells[..0] == [];
    for i := 0 to |cells|
      invariant InputStates(states, cells[..i], raw)
    {
      var cell := cells[i];
      assert cells[..i + 1] == cells[..i] + [cell];
      InputStep(states, cells[..i], cell, raw);
      if cell.HasPin() && cell.IsInput() {
        states := states[cell.pinName := Level(BitAt(raw, cell.position))];
      }
    }
    assert cells[..|cells|] == cells;
  }

  method OutputPass(cells: seq<BoundaryCell>, raw: seq<byte>, inputs: map<string, PinState>)
      returns (states: map<string, PinState>)
    ensures OutputStates(states, inputs, cells, raw)
  {
    hide OutputStates, BitAt;
    states := inputs;
    NoStates(states, raw);
    assert cells[..0] == [];
    for i := 0 to |cells|
      invariant OutputStates(states, inputs, cells[..i], raw)
    {
      var cell := cells[i];
      assert cells[..i + 1] == cells[..i] + [cell];
      OutputStep(states, inputs, cells[..i], cell, raw);
      if cell.HasPin() && cell.IsOutput() && cell.pinName !in states {
        states := states[cell.pinName := Level(BitAt(raw, cell.position))];
      }
    }
    assert cells[..|cells|] == cells;
  }

  lemma BitAtIsCellBit(raw: seq<byte>)
    ensures forall p :: BitAt(raw, p) == CellBit(Bits(raw, 0, 8 * |raw|), p)
  {
    hide Bit;
    forall p ensures BitAt(raw, p) == CellBit(Bits(raw, 0, 8 * |raw|), p) {
      if 0 <= p < 8 * |raw| { assert BitAt(raw, p) == GetBit(raw, p); }
    }
  }

  lemma PassesDecodePin(m: map<string, PinState>, inputs: map<string, PinState>, cells: seq<BoundaryCell>,
                        raw: seq<byte>, pin: string)
    requires InputStates(inputs, cells, raw) && OutputStates(m, inputs, cells, raw)
    ensures pin in m <==> SourceCell(cells, pin) >= 0
    ensures pin in m ==> m[pin] == Level(BitAt(raw, cells[SourceCell(cells, pin)].position))
  {
    hide BitAt, LastInput, FirstOutput;
    assert pin in inputs <==> LastInput(cells, pin) >= 0;
    assert pin in m <==> pin in inputs || FirstOutput(cells, pin) >= 0;
  }

  lemma PassesDecode(m: map<string, PinState>, inputs: map<string, PinState>, cells: seq<BoundaryCell>, raw: seq<byte>)
    requires InputStates(inputs, cells, raw) && OutputStates(m, inputs, cells, raw)
    ensures Decodes(m, cells, Bits(raw, 0, 8 * |raw|), {})
  {
    hide BitAt, CellBit, Bits, SourceCell, InputStates, OutputStates;
    BitAtIsCellBit(raw);
    forall pin: string {:trigger pin in m} {:trigger SourceCell(cells, pin)}
      ensures (pin in m <==> SourceCell(cells, pin) >= 0) &&
      (pin in m ==> m[pin] == Level(CellBit(Bits(raw, 0, 8 * |raw|), cells[SourceCell(cells, pin)].position)))
    {
      PassesDecodePin(m, inputs, cells, raw, pin);
    }
  }

  method DecodeBoundaryScan(cells: seq<BoundaryCell>, raw: seq<byte>) returns (r: ScanResult)
    ensures r.rawBsr == raw
    ensures raw == [] ==> r.pinStates == map[]
    ensures raw != [] ==> Decodes(r.pinStates, cells, Bits(raw, 0, 8 * |raw|), {})
  {
    hide InputStates, OutputStates, Decodes;
    if raw == [] {
      return ScanResult(raw, map[]);
    }
    var inputs := InputPass(cells, raw);
    var states := OutputPass(cells, raw, inputs);
    PassesDecode(states, inputs, cells, raw);
    r := ScanResult(raw, states);
  }

  // ------------------------------------------------------------ the scanner

  /** The cells a filtered scan must reach: those of a named pin in the filter. */
  predicate Needed(cell: BoundaryCell, filter: set<string>) {
    cell.HasPin() && cell.pinName in filter
  }

  /** `n` is enough for a filter when every needed cell lies below it. */
  ghost predicate Covers(n: int, cells: seq<BoundaryCell>, filter: set<string>) {
    forall i :: 0 <= i < |cells| && Needed(cells[i], filter) ==> cells[i].position < n
  }

  /** The decode of the bits below n, restricted to the filter, is the decode of the whole register. */
  lemma PartialDecodes(m: map<string, PinState>, f: map<string, PinState>, cells: seq<BoundaryCell>, raw: seq<byte>,
                       bits: seq<bool>,
                       n: nat, filter: set<string>)
    requires n <= |bits| && Packs(raw, bits[..n])
    requires if filter == {} then Covers(n, cells, AllPins(cells)) else Covers(n, cells, filter)
    requires Decodes(m, cells, Bits(raw, 0, 8 * |raw|), {})
    requires f == if filter == {} then m else map pin | pin in m && pin in filter :: m[pin]
    ensures Decodes(f, cells, bits, filter)
  {
    hide Bit, SourceCell;
    forall p | p < n ensures CellBit(Bits(raw, 0, 8 * |raw|), p) == CellBit(bits, p) {
      if p >= 0 { assert GetBit(raw, p) == bits[p]; }
    }
  }

  function AllPins(cells: seq<BoundaryCell>): set<string> {
    set i | 0 <= i < |cells| :: cells[i].pinName
  }

  /** Restricting a full decode to a filter is the filtered decode. */
  lemma FilterRestricts(full: map<string, PinState>, part: map<string, PinState>, cells: seq<BoundaryCell>,
                        bits: seq<bool>, filter: set<string>)
    requires filter != {}
    requires Decodes(full, cells, bits, {}) && Decodes(part, cells, bits, filter)
    ensures part == map pin | pin in full && pin in filter :: full[pin]
  {
    hide SourceCell;
    assert forall pin :: pin in part <==> pin in full && pin in filter;
  }

  /** The device's description fits its hardware: SAMPLE selects a boundary register of the stated length. */
  ghost predicate Samples(d: Device, dev: BsdlDevice) {
    && dev.WellFormed() && NamesSample(dev)
    && SampleKey(d, dev) in d.regs
    && d.regs[SampleKey(d, dev)].Cells?
    && |d.regs[SampleKey(d, dev)].inputs| == dev.boundaryLength
  }

  ghost predicate NamesSample(dev: BsdlDevice) {
    "SAMPLE" in dev.instructions || "SAMPLE/PRELOAD" in dev.instructions
  }

  /** The code of SAMPLE, or of SAMPLE/PRELOAD in a description without it, as an instruction register of the device
      holds it. */
  ghost function SampleKey(d: Device, dev: BsdlDevice): seq<bool>
    requires NamesSample(dev)
  {
    NatBits(dev.instructions[if "SAMPLE" in dev.instructions then "SAMPLE" else "SAMPLE/PRELOAD"], |d.ir|)
  }

  /** How a scan ended: before it touched the hardware, without its instruction, without its reading, or well. */
  datatype ScanEnd = Refused | NotSelected | NotRead | Scanned

  const NO_RESULT := ScanResult([], map[])

  class Scanner {
    const chain: JtagChain
    const deviceIndex: int
    var decodeFilter: set<string>

    /** Whether an error text is kept; no successful scan removes it. */
    var lastError: bool

    constructor (chain: JtagChain, deviceIndex: int)
      ensures this.chain == chain && this.deviceIndex == deviceIndex && decodeFilter == {} && !lastError
    {
      this.chain, this.deviceIndex, decodeFilter, lastError := chain, deviceIndex, {}, false;
    }

    predicate IsReady()
      reads chain`devices
    {
      0 <= deviceIndex < |chain.devices| && chain.devices[deviceIndex].bsdl.Some?
    }

    /** The index names a device with a description. */
    ghost predicate HasDevice()
      reads chain`devices
    {
      0 <= deviceIndex < |chain.devices| && chain.devices[deviceIndex].bsdl.Some?
    }

    function Dev(): BsdlDevice
      requires HasDevice()
      reads chain`devices
    {
      chain.devices[deviceIndex].bsdl.value
    }

    /** What every scan asks of its surroundings. */
    ghost predicate Usable()
      reads chain`devices, chain.tap.device
    {
      chain.tap.device.Valid() && forall i :: 0 <= i < |chain.devices| ==> chain.devices[i].irLength <= 32
    }

    /** How far a filtered read must go; 0 asks for the whole register. */
    method MaxNeededBsrBits() returns (n: nat)
      requires HasDevice()
      ensures decodeFilter == {} ==> n == 0
      ensures n > 0 ==>
        Covers(n, Dev().boundaryCells, decodeFilter) && !Covers(n - 1, Dev().boundaryCells, decodeFilter)
      ensures n == 0 && decodeFilter != {} ==> Covers(0, Dev().boundaryCells, decodeFilter)
    {
      if decodeFilter == {} {
        return 0;
      }
      var cells := Dev().boundaryCells;
      var maxPos := -1;
      for i := 0 to |cells|
        invariant maxPos >= -1 && Covers(maxPos + 1, cells[..i], decodeFilter)
        invariant maxPos >= 0 ==> !Covers(maxPos, cells[..i], decodeFilter)
      {
        var cell := cells[i];
        assert cells[..i + 1] == cells[..i] + [cell];
        CoversSnoc(cells[..i], cell, decodeFilter);
        if cell.HasPin() && cell.pinName in decodeFilter && cell.position > maxPos {
          maxPos := cell.position;
        }
      }
      assert cells[..|cells|] == cells;
      n := if maxPos >= 0 then maxPos + 1 else 0;
    }

    /** A description is loaded and names a sampling instruction. */
    ghost predicate CanSample()
      reads chain`devices
    {
      HasDevice() && NamesSample(Dev())
    }

    /** The table gives the scans something to shift. */
    ghost predicate Scannable()
      reads chain`devices
    {
      CanSample() && TotalIr(chain.devices, 0) > 0 && (Dev().boundaryLength > 0 || |chain.devices| > 1)
    }

    /** The table describes the hardware, and the device's description its boundary register. */
    ghost predicate Fits()
      reads chain`devices, chain.tap`state, chain.tap.device
    {
      chain.Ready() && HasDevice() && Samples(chain.tap.device.hw.chain[deviceIndex], Dev())
    }

    ghost function Faults(): nat
      reads chain.tap.device
    {
      chain.tap.device.faults
    }

    /** The pin states of the filtered pins, whatever the length of the read. A scan of hardware that fits, in
        which no transfer fails, is decoded from the live pins. A scan whose instruction could not be loaded takes
        over the chain's error text, which the failed load did not set; a scan that went well leaves the text alone. */
    method Sample() returns (r: ScanResult, ghost end: ScanEnd)
      requires Usable()
      modifies this`lastError, chain`lastError, chain.tap, chain.tap.device
      ensures Usable() && Faults() >= old(Faults())
      ensures end == Refused <==> !CanSample()
      ensures end == Refused ==> chain.tap.device.hw == old(chain.tap.device.hw)
      ensures end in {NotSelected, NotRead} ==> !Scannable() || Faults() > old(Faults())
      ensures lastError == match end
                           case Refused => true
                           case NotSelected => old(chain.lastError)
                           case NotRead => chain.tap.lastError
                           case Scanned => old(lastError)
      ensures end != Scanned ==> r == NO_RESULT
      ensures end == Scanned && Faults() == old(Faults()) ==> chain.tap.waits == old(chain.tap.waits) + [2]
      ensures old(Fits()) ==> Scannable()
      ensures old(Fits()) && Faults() == old(Faults()) ==>
        var d := old(chain.tap.device.hw.chain[deviceIndex]);
        && chain.Addressing(deviceIndex)
        && Decodes(r.pinStates, Dev().boundaryCells, d.regs[SampleKey(d, Dev())].inputs, decodeFilter)
    {
      hide Decodes, DrScan, CaptureDevice, NatBits, Samples, Targets, Merged, FirstBits, Covers, TotalIr, SourceCell;
      r := NO_RESULT;
      if !IsReady() {
        lastError := true;
        return NO_RESULT, Refused;
      }
      var dev := Dev();
      ghost var fits := Fits();
      if fits { SampledIsThere(chain.tap.device.hw.chain[deviceIndex], dev); }
      var opcode := SampleOpcode(dev);
      if opcode.None? {
        lastError := true;
        return NO_RESULT, Refused;
      }
      ghost var d := if fits then Some(chain.tap.device.hw.chain[deviceIndex]) else None;
      var partial := MaxNeededBsrBits();
      var raw, how := Acquire(opcode.value, partial);
      if how != Scanned { return NO_RESULT, how; }
      end := how;
      r := DecodeBoundaryScan(dev.boundaryCells, raw);
      ghost var full := r.pinStates;
      if decodeFilter != {} {
        r := r.(pinStates := map pin | pin in r.pinStates && pin in decodeFilter :: r.pinStates[pin]);
      }
      if fits && Faults() == old(Faults()) {
        SampledBits(raw, full, r.pinStates, dev, d.value, partial, decodeFilter);
      }
    }

    /** The three accesses of a scan: the instruction, two idle clocks, the reading. */
    method Acquire(opcode: nat, partial: nat) returns (raw: seq<byte>, how: ScanEnd)
      requires Usable()
      requires CanSample() && SampleOpcode(Dev()) == Some(opcode)
      modifies this`lastError, chain`lastError, chain.tap, chain.tap.device
      ensures Usable() && Faults() >= old(Faults()) && how != Refused
      ensures how in {NotSelected, NotRead} ==> !Scannable() || Faults() > old(Faults())
      ensures lastError == if how == NotSelected then old(chain.lastError)
                           else if how == NotRead then chain.tap.lastError else old(lastError)
      ensures how == Scanned && Faults() == old(Faults()) ==> chain.tap.waits == old(chain.tap.waits) + [2]
      ensures old(Fits()) ==> Scannable()
      ensures old(Fits()) && Faults() == old(Faults()) ==>
        var d := old(chain.tap.device.hw.chain[deviceIndex]);
        var inputs := d.regs[SampleKey(d, Dev())].inputs;
        chain.Addressing(deviceIndex) && Merged(raw, [], FirstBits(inputs, ReadLength(Dev().boundaryLength, partial)))
    {
      hide DrScan, CaptureDevice, NatBits, Samples, Targets, Merged, FirstBits, TotalIr, SourceCell;
      raw := [];
      ghost var fits, c := Fits(), chain.tap.device.hw.chain;
      if fits { SampledIsThere(c[deviceIndex], Dev()); }
      var done := chain.SelectInstruction(deviceIndex, opcode);
      if !done {
        lastError := chain.lastError;
        return [], NotSelected;
      }
      ghost var selected := chain.tap.device.hw.chain;
      if fits { SelectedReads(c[deviceIndex], selected[deviceIndex], Dev()); }
      var idled := chain.tap.ClkIdle(2);
      done, raw := chain.ReadBSR(deviceIndex, [], partial);
      if !done {
        lastError := chain.lastError;
        return [], NotRead;
      }
      how := Scanned;
    }
  }

  lemma SampledIsThere(d: Device, dev: BsdlDevice)
    requires d.Valid() && Samples(d, dev)
    ensures dev.boundaryLength > 0 && NamesSample(dev)
  {
    assert d.regs[SampleKey(d, dev)].Valid();
  }

  lemma CoversSnoc(cells: seq<BoundaryCell>, cell: BoundaryCell, filter: set<string>)
    ensures forall n :: Covers(n, cells + [cell], filter) <==>
      Covers(n, cells, filter) && (Needed(cell, filter) ==> cell.position < n)
  {
    forall n
      ensures Covers(n, cells + [cell], filter) <==>
        Covers(n, cells, filter) && (Needed(cell, filter) ==> cell.position < n)
    {
      if Covers(n, cells + [cell], filter) {
        forall i | 0 <= i < |cells| && Needed(cells[i], filter) ensures cells[i].position < n {
          assert (cells + [cell])[i] == cells[i];
        }
        assert (cells + [cell])[|cells|] == cell;
      }
    }
  }

  lemma SelectedReads(d: Device, selected: Device, dev: BsdlDevice)
    requires d.Valid() && Samples(d, dev)
    requires selected == d.(ir := IrBits(true, SampleOpcode(dev).value, |d.ir|)) && selected.Valid()
    ensures CaptureDevice(selected) == d.regs[SampleKey(d, dev)].inputs
  {
    hide NatBits;
  }

  lemma SampledBits(raw: seq<byte>, full: map<string, PinState>, kept: map<string, PinState>, dev: BsdlDevice,
                    d: Device,
                    partial: nat, filter: set<string>)
    requires d.Valid() && Samples(d, dev)
    requires filter == {} ==> partial == 0
    requires filter != {} ==> Covers(partial, dev.boundaryCells, filter)
    requires Merged(raw, [], FirstBits(d.regs[SampleKey(d, dev)].inputs, ReadLength(dev.boundaryLength, partial)))
    requires raw != [] ==> Decodes(full, dev.boundaryCells, Bits(raw, 0, 8 * |raw|), {})
    requires kept == if filter == {} then full else map pin | pin in full && pin in filter :: full[pin]
    ensures Decodes(kept, dev.boundaryCells, d.regs[SampleKey(d, dev)].inputs, filter)
  {
    hide Decodes, Merged, Packs, SampleKey;
    assert d.regs[SampleKey(d, dev)].Valid();
    var inputs := d.regs[SampleKey(d, dev)].inputs;
    var n := ReadLength(dev.boundaryLength, partial);
    MergeIsExactIffClear([], n);
    assert FirstBits(inputs, n) == inputs[..n];
    assert raw != [] by { PackedLength(raw, inputs[..n]); }
    FullCovers(dev, if filter == {} then AllPins(dev.boundaryCells) else filter);
    PartialDecodes(full, kept, dev.boundaryCells, raw, inputs, n, filter);
  }

  lemma FullCovers(dev: BsdlDevice, filter: set<string>)
    requires dev.WellFormed()
    ensures Covers(dev.boundaryLength, dev.boundaryCells, filter)
  {
    forall i | 0 <= i < |dev.boundaryCells| ensures dev.boundaryCells[i].position < dev.boundaryLength {
      assert dev.boundaryCells[i].position in {-1, i};
    }
  }

  lemma PackedLength(raw: seq<byte>, bits: seq<bool>)
    requires Packs(raw, bits)
    ensures |raw| == (|bits| + 7) / 8
  {
  }
}
