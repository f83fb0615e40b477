/** A JTAG chain as the cable sees it: a TAP controller state shared by all devices and one
    scan path through them. Device 0 is nearest TDO, so its bits come first. */
module Hardware {
  import opened Bytes
  import opened Tap
  import opened IlaCore

  /** A data register: plain cells with parallel inputs and an update latch, or a USERn chain. */
  datatype Register = Cells(inputs: seq<bool>, latch: seq<bool>) | User(ila: Ila)
  {
    ghost predicate Valid() {
      match this
      case Cells(inputs, latch) => 0 < |inputs| == |latch|
      case User(ila) => ila.Valid()
    }
  }

  /** Instructions absent from `regs`, all-ones among them, select the one-bit BYPASS register. */
  datatype Device = Device(ir: seq<bool>, resetIr: seq<bool>, regs: map<seq<bool>, Register>)
  {
    ghost predicate Valid() {
      && 0 < |ir| == |resetIr|
      && Ones(|ir|) !in regs
      && (forall op :: op in regs ==> regs[op].Valid())
    }
  }

  function Ones(n: nat): (r: seq<bool>)
    ensures |r| == n
  {
    seq(n, _ => true)
  }

  ghost predicate ValidChain(c: seq<Device>) {
    forall d :: 0 <= d < |c| ==> c[d].Valid()
  }

  function CaptureReg(r: Register): (b: seq<bool>)
    requires r.Valid()
    ensures |b| > 0
  {
    match r
    case Cells(inputs, _) => inputs
    case User(ila) => CaptureFrame(ila)
  }

  function UpdateReg(r: Register, bits: seq<bool>): (r': Register)
    requires r.Valid() && |bits| == |CaptureReg(r)|
    ensures r'.Valid() && |CaptureReg(r')| == |CaptureReg(r)|
  {
    match r
    case Cells(inputs, _) => Cells(inputs, bits)
    case User(ila) => User(UpdateFrame(ila, bits))
  }

  predicate InBypass(d: Device) {
    d.ir !in d.regs
  }

  function CaptureDevice(d: Device): (b: seq<bool>)
    requires d.Valid()
    ensures |b| > 0
  {
    if InBypass(d) then [false] else CaptureReg(d.regs[d.ir])
  }

  function UpdateDevice(d: Device, bits: seq<bool>): (d': Device)
    requires d.Valid() && |bits| == |CaptureDevice(d)|
    ensures d'.Valid() && d'.ir == d.ir && d'.resetIr == d.resetIr && d'.regs.Keys == d.regs.Keys
    ensures |CaptureDevice(d')| == |CaptureDevice(d)|
  {
    if InBypass(d) then d else d.(regs := d.regs[d.ir := UpdateReg(d.regs[d.ir], bits)])
  }

  function CaptureDrPath(c: seq<Device>): (r: seq<bool>)
    requires ValidChain(c)
    ensures |r| >= |c|
  {
    if c == [] then [] else CaptureDevice(c[0]) + CaptureDrPath(c[1..])
  }

  function UpdateDrChain(c: seq<Device>, path: seq<bool>): (c': seq<Device>)
    requires ValidChain(c) && |path| == |CaptureDrPath(c)|
    ensures ValidChain(c') && |c'| == |c|
    ensures |CaptureDrPath(c')| == |path|
    ensures forall d :: 0 <= d < |c| ==>
      c'[d].ir == c[d].ir && c'[d].resetIr == c[d].resetIr && c'[d].regs.Keys == c[d].regs.Keys
  {
    if c == [] then []
    else
      var w := |CaptureDevice(c[0])|;
      [UpdateDevice(c[0], path[..w])] + UpdateDrChain(c[1..], path[w..])
  }

  function IrLength(c: seq<Device>): nat {
    if c == [] then 0 else |c[0].ir| + IrLength(c[1..])
  }

  function CaptureIrPath(c: seq<Device>): (r: seq<bool>)
    ensures |r| == IrLength(c)
  {
    if c == [] then [] else seq(|c[0].ir|, i => i == 0) + CaptureIrPath(c[1..])
  }

  function UpdateIrChain(c: seq<Device>, path: seq<bool>): (c': seq<Device>)
    requires ValidChain(c) && |path| == IrLength(c)
    ensures ValidChain(c') && |c'| == |c| && IrLength(c') == IrLength(c)
    ensures forall d :: 0 <= d < |c| ==> c'[d].resetIr == c[d].resetIr
  {
    if c == [] then []
    else
      var n := |c[0].ir|;
      [c[0].(ir := path[..n])] + UpdateIrChain(c[1..], path[n..])
  }

  function ResetReg(r: Register): (r': Register)
    requires r.Valid()
    ensures r'.Valid()
  {
    match r
    case Cells(_, _) => r
    case User(ila) => User(ResetIla(ila))
  }

  function ResetChain(c: seq<Device>): (c': seq<Device>)
    requires ValidChain(c)
    ensures ValidChain(c') && |c'| == |c| && IrLength(c') == IrLength(c)
    ensures forall d :: 0 <= d < |c| ==> c'[d].resetIr == c[d].resetIr
  {
    if c == [] then []
    else [c[0].(ir := c[0].resetIr, regs := map op | op in c[0].regs :: ResetReg(c[0].regs[op]))] + ResetChain(c[1..])
  }

  // ------------------------------------------------------------ single clocks

  /** `path` is the content of the selected scan path while a scan is in progress. */
  datatype Hw = Hw(tap: TapState, chain: seq<Device>, path: seq<bool>)
  {
    ghost predicate Valid() {
      && ValidChain(chain)
      && (tap in {ShiftDr, Exit1Dr, PauseDr, Exit2Dr, UpdateDr} ==> |path| == |CaptureDrPath(chain)|)
      && (tap in {ShiftIr, Exit1Ir, PauseIr, Exit2Ir, UpdateIr} ==> |path| == IrLength(chain))
    }
  }

  /** One TCK pulse. An update takes effect on the clock that leaves the Update state. */
  function Clock(h: Hw, tms: bool, tdi: bool): (h': Hw)
    requires h.Valid()
    ensures h'.Valid() && h'.tap == Next(h.tap, tms)
  {
    var next := Next(h.tap, tms);
    match h.tap
    case TestLogicReset => Hw(next, ResetChain(h.chain), h.path)
    case CaptureDr => Hw(next, h.chain, CaptureDrPath(h.chain))
    case CaptureIr => Hw(next, h.chain, CaptureIrPath(h.chain))
    case ShiftDr => Hw(next, h.chain, (h.path + [tdi])[1..])
    case ShiftIr => Hw(next, h.chain, (h.path + [tdi])[1..])
    case UpdateDr => Hw(next, UpdateDrChain(h.chain, h.path), h.path)
    case UpdateIr => Hw(next, UpdateIrChain(h.chain, h.path), h.path)
    case _ => h.(tap := next)
  }

  /** TDO as sampled on the clock edge; an empty path is a wire. */
  predicate Tdo(h: Hw, tdi: bool) {
    (h.path + [tdi])[0]
  }

  // ------------------------------------------------------------- whole scans

  /** A DR scan of |tdi| clocks, from Capture-DR to Update-DR. */
  function DrScanTdo(c: seq<Device>, tdi: seq<bool>): (r: seq<bool>)
    requires ValidChain(c)
    ensures |r| == |tdi|
  {
    (CaptureDrPath(c) + tdi)[..|tdi|]
  }

  function DrScan(c: seq<Device>, tdi: seq<bool>): (c': seq<Device>)
    requires ValidChain(c)
    ensures ValidChain(c') && |c'| == |c|
  {
    UpdateDrChain(c, (CaptureDrPath(c) + tdi)[|tdi|..])
  }

  function IrScan(c: seq<Device>, tdi: seq<bool>): (c': seq<Device>)
    requires ValidChain(c)
    ensures ValidChain(c') && |c'| == |c|
  {
    UpdateIrChain(c, (CaptureIrPath(c) + tdi)[|tdi|..])
  }

  function DrScans(c: seq<Device>, tdi: seq<bool>, count: nat): (c': seq<Device>)
    requires ValidChain(c)
    ensures ValidChain(c') && |c'| == |c|
  {
    if count == 0 then c else DrScan(DrScans(c, tdi, count - 1), tdi)
  }
}
