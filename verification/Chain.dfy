/** The JTAG chain: frames in which one device is addressed and all others are in BYPASS. */
module Chain {
  import opened Bytes
  import opened Hardware
  import opened TapControl
  import opened Bsdl
  import opened Discovery

  // ------------------------------------------------- a scan with one target

  /** Every device but t is in BYPASS. */
  ghost predicate Targets(c: seq<Device>, t: nat) {
    ValidChain(c) && t < |c| && forall i :: 0 <= i < |c| && i != t ==> InBypass(c[i])
  }

  /** The TDI bits of a full-chain scan: the payload at the target, a zero for every other device. */
  function Frame(n: nat, t: nat, payload: seq<bool>): (r: seq<bool>)
    requires t < n
    ensures |r| == |payload| + n - 1
  {
    Falses(t) + payload + Falses(n - 1 - t)
  }

  lemma {:induction false} BypassPath(c: seq<Device>)
    requires ValidChain(c) && forall i :: 0 <= i < |c| ==> InBypass(c[i])
    ensures CaptureDrPath(c) == Falses(|c|)
  {
    if c != [] {
      BypassPath(c[1..]);
    }
  }

  lemma {:induction false} TargetPath(c: seq<Device>, t: nat)
    requires Targets(c, t)
    ensures CaptureDrPath(c) == Frame(|c|, t, CaptureDevice(c[t]))
  {
    hide CaptureDevice;
    if t == 0 {
      BypassPath(c[1..]);
      assert Falses(0) + CaptureDevice(c[0]) == CaptureDevice(c[0]);
    } else {
      TargetPath(c[1..], t - 1);
      BypassCapture(c[0]);
      assert [false] + (Falses(t - 1) + CaptureDevice(c[t]) + Falses(|c| - 1 - t))
        == Frame(|c|, t, CaptureDevice(c[t]));
    }
  }

  lemma BypassCapture(d: Device)
    requires d.Valid() && InBypass(d)
    ensures CaptureDevice(d) == [false] && forall b :: |b| == 1 ==> UpdateDevice(d, b) == d
  {
  }

  lemma {:induction false} BypassUpdate(c: seq<Device>, path: seq<bool>)
    requires ValidChain(c) && |path| == |CaptureDrPath(c)| && forall i :: 0 <= i < |c| ==> InBypass(c[i])
    ensures UpdateDrChain(c, path) == c
  {
    hide CaptureDevice, UpdateDevice;
    if c != [] {
      BypassCapture(c[0]);
      BypassUpdate(c[1..], path[1..]);
    }
  }

  lemma UpdateStep(c: seq<Device>, path: seq<bool>, w: nat)
    requires ValidChain(c) && c != [] && |path| == |CaptureDrPath(c)| && w == |CaptureDevice(c[0])|
    ensures w + |CaptureDrPath(c[1..])| == |path|
    ensures UpdateDrChain(c, path) == [UpdateDevice(c[0], path[..w])] + UpdateDrChain(c[1..], path[w..])
  {
    hide CaptureDevice, UpdateDevice;
  }

  lemma UpdateAt<T>(s: seq<T>, t: nat, x: T)
    requires t < |s|
    ensures t == 0 ==> [x] + s[1..] == s[t := x]
    ensures t > 0 ==> [s[0]] + s[1..][t - 1 := x] == s[t := x] && s[1..][t - 1] == s[t]
  {
  }

  lemma FirstTargetUpdate(c: seq<Device>, path: seq<bool>)
    requires Targets(c, 0) && |path| == |CaptureDrPath(c)|
    ensures |path| == |c| - 1 + |CaptureDevice(c[0])|
    ensures UpdateDrChain(c, path) == c[0 := UpdateDevice(c[0], path[0..|CaptureDevice(c[0])|])]
  {
    hide CaptureDevice, UpdateDevice, UpdateDrChain, CaptureDrPath, InBypass;
    var w := |CaptureDevice(c[0])|;
    TargetPath(c, 0);
    UpdateStep(c, path, w);
    BypassUpdate(c[1..], path[w..]);
    assert path[0..w] == path[..w];
    UpdateAt(c, 0, UpdateDevice(c[0], path[..w]));
  }

  lemma LaterTargetUpdate(c: seq<Device>, t: nat, path: seq<bool>, w: nat)
    requires Targets(c, t) && t > 0 && |path| == |CaptureDrPath(c)| && w == |CaptureDevice(c[t])|
    requires c[1..][t - 1] == c[t] && |path| == |c| - 1 + w
    requires UpdateDrChain(c[1..], path[1..]) == c[1..][t - 1 := UpdateDevice(c[t], path[1..][t - 1..t - 1 + w])]
    ensures UpdateDrChain(c, path) == c[t := UpdateDevice(c[t], path[t..t + w])]
  {
    hide CaptureDevice, UpdateDevice, UpdateDrChain, CaptureDrPath, InBypass;
    BypassCapture(c[0]);
    UpdateStep(c, path, 1);
    assert path[1..][t - 1..t - 1 + w] == path[t..t + w];
    UpdateAt(c, t, UpdateDevice(c[t], path[t..t + w]));
  }

  /** Only the target's register is updated, by the bits at its place in the path. */
  lemma {:induction false} TargetUpdate(c: seq<Device>, t: nat, path: seq<bool>)
    requires Targets(c, t) && |path| == |CaptureDrPath(c)|
    ensures |path| == |c| - 1 + |CaptureDevice(c[t])|
    ensures UpdateDrChain(c, path) == c[t := UpdateDevice(c[t], path[t..t + |CaptureDevice(c[t])|])]
    decreases t
  {
    hide CaptureDevice, UpdateDevice, UpdateDrChain, CaptureDrPath, InBypass, Targets, ValidChain;
    TargetIsThere(c, t);
    if t == 0 {
      FirstTargetUpdate(c, path);
    } else {
      TailPath(c, t, path);
      TargetUpdate(c[1..], t - 1, path[1..]);
      LaterTargetUpdate(c, t, path, |CaptureDevice(c[t])|);
    }
  }

  /** The path behind a device in BYPASS. */
  lemma TailPath(c: seq<Device>, t: nat, path: seq<bool>)
    requires Targets(c, t) && t > 0 && |path| == |CaptureDrPath(c)|
    ensures Targets(c[1..], t - 1) && ValidChain(c[1..]) && c[1..][t - 1] == c[t]
    ensures path != [] && |path[1..]| == |CaptureDrPath(c[1..])|
  {
    hide CaptureDevice, UpdateDevice, UpdateDrChain, CaptureDrPath, InBypass;
    TargetTail(c, t);
    BypassCapture(c[0]);
    UpdateStep(c, path, 1);
  }

  lemma TargetTail(c: seq<Device>, t: nat)
    requires Targets(c, t) && t > 0
    ensures Targets(c[1..], t - 1) && InBypass(c[0]) && c[0].Valid() && c[1..][t - 1] == c[t]
  {
    hide InBypass;
  }

  lemma TargetIsThere(c: seq<Device>, t: nat)
    requires Targets(c, t)
    ensures ValidChain(c) && t < |c| && c[t].Valid()
  {
  }

  lemma FrameLength(n: nat, t: nat, payload: seq<bool>)
    requires t < n
    ensures |Frame(n, t, payload)| == n - 1 + |payload|
  {
  }

  /** The first m bits out of a register shifted with zeros behind it. */
  function FirstBits(reg: seq<bool>, m: nat): (r: seq<bool>)
    ensures |r| == m
  {
    (reg + Falses(m))[..m]
  }

  /** What a scan addressed to t reads from the target's register. */
  lemma TargetReads(c: seq<Device>, t: nat, payload: seq<bool>)
    requires Targets(c, t)
    ensures var tdo := DrScanTdo(c, Frame(|c|, t, payload));
      forall b :: 0 <= b < |payload| && b < |CaptureDevice(c[t])| ==> tdo[t + b] == CaptureDevice(c[t])[b]
  {
    TargetPath(c, t);
  }

  /** Reading with zeros: beyond the register come only zeros. */
  lemma TargetReadsZeros(c: seq<Device>, t: nat, m: nat)
    requires Targets(c, t)
    ensures DrScanTdo(c, Falses(m + |c| - 1))[t..t + m] == FirstBits(CaptureDevice(c[t]), m)
  {
    TargetPath(c, t);
  }

  /** What passes through the target's place in a scan: its captured bits, the zeros of the other
      devices, and the payload. */
  function Passing(reg: seq<bool>, n: nat, payload: seq<bool>): (r: seq<bool>)
    requires n > 0
    ensures |r| == |reg| + n - 1 + |payload|
  {
    reg + Falses(n - 1) + payload
  }

  /** A payload of any length: the read is the front of what passes, the target's register keeps its end. */
  lemma TargetScan(c: seq<Device>, t: nat, payload: seq<bool>)
    requires Targets(c, t)
    ensures var tdi, s := Frame(|c|, t, payload), Passing(CaptureDevice(c[t]), |c|, payload);
      && |DrScanTdo(c, tdi)| == |tdi| && DrScanTdo(c, tdi)[t..t + |payload|] == s[..|payload|]
      && DrScan(c, tdi) == c[t := UpdateDevice(c[t], s[|tdi|..])]
  {
    hide CaptureDevice, UpdateDevice;
    var reg := CaptureDevice(c[t]);
    var tdi, s := Frame(|c|, t, payload), Passing(reg, |c|, payload);
    TargetPath(c, t);
    PassingIs(|c|, t, reg, payload);
    var path := (CaptureDrPath(c) + tdi)[|tdi|..];
    TargetUpdate(c, t, path);
  }

  lemma PassingIs(n: nat, t: nat, reg: seq<bool>, payload: seq<bool>)
    requires t < n
    ensures var tdi, s := Frame(n, t, payload), Passing(reg, n, payload);
      var all := Frame(n, t, reg) + tdi;
      && all[..|tdi|][t..t + |payload|] == s[..|payload|]
      && all[|tdi|..][t..t + |reg|] == s[|tdi|..]
  {
    var tdi, s := Frame(n, t, payload), Passing(reg, n, payload);
    var all := Frame(n, t, reg) + tdi;
    PassingInside(n, t, reg, payload);
    WindowsOf(Falses(t), s, Falses(n - 1 - t), |tdi|, |payload|, |reg|);
  }

  lemma PassingInside(n: nat, t: nat, reg: seq<bool>, payload: seq<bool>)
    requires t < n
    ensures Frame(n, t, reg) + Frame(n, t, payload) == Falses(t) + Passing(reg, n, payload) + Falses(n - 1 - t)
  {
  }

  lemma WindowsOf(a: seq<bool>, s: seq<bool>, b: seq<bool>, cut: nat, m: nat, w: nat)
    requires cut + w == |s| && m + |a| + |b| == cut
    ensures (a + s + b)[..cut][|a|..|a| + m] == s[..m] && (a + s + b)[cut..][|a|..|a| + w] == s[cut..]
  {
    var all := a + s + b;
    assert all[|a|..|a| + |s|] == s;
    assert all[..cut][|a|..|a| + m] == all[|a|..|a| + |s|][..m];
    assert all[cut..][|a|..|a| + w] == all[|a|..|a| + |s|][cut..];
  }

  /** What a scan addressed to t leaves: the target's register takes the last bits of the payload. */
  lemma TargetWrites(c: seq<Device>, t: nat, payload: seq<bool>)
    requires Targets(c, t) && |payload| >= |CaptureDevice(c[t])|
    ensures DrScan(c, Frame(|c|, t, payload))
      == c[t := UpdateDevice(c[t], payload[|payload| - |CaptureDevice(c[t])|..])]
  {
    hide CaptureDevice, UpdateDevice;
    TargetScan(c, t, payload);
    PassingEnds(CaptureDevice(c[t]), |c|, payload);
  }

  lemma PassingEnds(reg: seq<bool>, n: nat, payload: seq<bool>)
    requires n > 0 && |payload| >= |reg|
    ensures Passing(reg, n, payload)[|payload| + n - 1..] == payload[|payload| - |reg|..]
    ensures |payload| == |reg| ==> Passing(reg, n, payload)[..|reg|] == reg
  {
  }

  // --------------------------------------------------- instruction selection

  function IrBits(selected: bool, instruction: nat, n: nat): (r: seq<bool>)
    ensures |r| == n
  {
    if selected then NatBits(instruction, n) else Ones(n)
  }

  /** The IR path for devices from..|lens|: the instruction at the target, all ones elsewhere. */
  function IrFrame(lens: seq<nat>, from: nat, t: nat, instruction: nat): seq<bool>
    requires from <= |lens|
    decreases |lens| - from
  {
    if from == |lens| then [] else IrBits(from == t, instruction, lens[from]) + IrFrame(lens, from + 1, t, instruction)
  }

  /** The chain after an instruction is selected on t and BYPASS everywhere else. */
  function Select(c: seq<Device>, t: nat, instruction: nat): (c': seq<Device>)
    ensures |c'| == |c|
  {
    seq(|c|, i requires 0 <= i < |c| => c[i].(ir := IrBits(i == t, instruction, |c[i].ir|)))
  }

  ghost predicate IrLengths(lens: seq<nat>, c: seq<Device>) {
    |lens| == |c| && forall i :: 0 <= i < |c| ==> lens[i] == |c[i].ir|
  }

  function SelectFrom(c: seq<Device>, from: nat, t: nat, instruction: nat): (c': seq<Device>)
    requires from <= |c|
  {
    Select(c, t, instruction)[from..]
  }

  lemma {:induction false} SelectPath(c: seq<Device>, lens: seq<nat>, from: nat, t: nat, instruction: nat)
    requires ValidChain(c) && IrLengths(lens, c) && from <= |c|
    ensures |IrFrame(lens, from, t, instruction)| == IrLength(c[from..])
    ensures UpdateIrChain(c[from..], IrFrame(lens, from, t, instruction)) == SelectFrom(c, from, t, instruction)
    decreases |c| - from
  {
    hide IrBits;
    if from < |c| {
      SelectPath(c, lens, from + 1, t, instruction);
      var rest, head := IrFrame(lens, from + 1, t, instruction), IrBits(from == t, instruction, lens[from]);
      assert c[from..][1..] == c[from + 1..];
      assert IrFrame(lens, from, t, instruction) == head + rest;
      assert (head + rest)[..lens[from]] == head && (head + rest)[lens[from]..] == rest;
      assert SelectFrom(c, from, t, instruction) == [c[from].(ir := head)] + SelectFrom(c, from + 1, t, instruction);
    }
  }

  /** Shifting the IR path through the chain loads every instruction register with its own bits. */
  lemma SelectScans(c: seq<Device>, lens: seq<nat>, t: nat, instruction: nat)
    requires ValidChain(c) && IrLengths(lens, c)
    ensures IrScan(c, IrFrame(lens, 0, t, instruction)) == Select(c, t, instruction)
    ensures ValidChain(Select(c, t, instruction))
  {
    hide IrFrame, Select;
    SelectPath(c, lens, 0, t, instruction);
    assert c[0..] == c;
    var f := IrFrame(lens, 0, t, instruction);
    assert (CaptureIrPath(c) + f)[|f|..] == f;
    assert SelectFrom(c, 0, t, instruction) == Select(c, t, instruction);
  }

  /** Every other device is then in BYPASS. */
  lemma SelectTargets(c: seq<Device>, t: nat, instruction: nat)
    requires ValidChain(c) && t < |c|
    ensures Targets(Select(c, t, instruction), t)
  {
    hide NatBits;
    forall i | 0 <= i < |c|
      ensures Select(c, t, instruction)[i].Valid() && (i != t ==> InBypass(Select(c, t, instruction)[i]))
    {
      assert c[i].Valid();
    }
  }

  // ------------------------------------------------------- building buffers

  /** buf holds `bits` from bit 0 and zeros after them. */
  ghost predicate Holds(buf: seq<byte>, bits: seq<bool>) {
    && |bits| <= 8 * |buf|
    && forall k {:trigger GetBit(buf, k)} :: 0 <= k < 8 * |buf| ==> GetBit(buf, k) == (k < |bits| && bits[k])
  }

  lemma HoldsZeros(n: nat)
    ensures Holds(Zeros(n), [])
  {
    hide Bit;
    GetBitOfZeros(n);
  }

  lemma HoldsBits(buf: seq<byte>, bits: seq<bool>)
    requires Holds(buf, bits)
    ensures Bits(buf, 0, |bits|) == bits
  {
    hide Bit;
    forall k | 0 <= k < |bits| ensures Bits(buf, 0, |bits|)[k] == bits[k] {
      assert GetBit(buf, k) == bits[k];
    }
  }

  lemma HoldsZero(buf: seq<byte>, bits: seq<bool>)
    requires Holds(buf, bits) && |bits| < 8 * |buf|
    ensures Holds(buf, bits + [false])
  {
    hide Bit, GetBit;
  }

  /** Appends the n low bits of a value. */
  method PutNat(buf: seq<byte>, ghost bits: seq<bool>, at: nat, value: nat, n: nat) returns (r: seq<byte>)
    requires Holds(buf, bits) && |bits| == at && at + n <= 8 * |buf|
    ensures |r| == |buf| && Holds(r, bits + NatBits(value, n))
  {
    hide Bit, GetBit;
    r := buf;
    var v := value;
    ghost var done := bits;
    for b := 0 to n
      invariant |r| == |buf| && |done| == at + b && Holds(r, done)
      invariant done + NatBits(v, n - b) == bits + NatBits(value, n)
    {
      ghost var was := r;
      if v % 2 == 1 {
        r := RaiseBit(r, at + b);
        forall k | 0 <= k < 8 * |r|
          ensures GetBit(r, k) == (GetBit(was, k) || k == at + b)
        {
          GetBitOfRaise(was, at + b, k);
        }
      }
      assert done + NatBits(v, n - b) == (done + [v % 2 == 1]) + NatBits(v / 2, n - b - 1);
      done, v := done + [v % 2 == 1], v / 2;
    }
    assert done + [] == done;
  }

  /** Appends the first n bits of a packed buffer. */
  method PutBits(buf: seq<byte>, ghost bits: seq<bool>, at: nat, src: seq<byte>, n: nat) returns (r: seq<byte>)
    requires Holds(buf, bits) && |bits| == at && at + n <= 8 * |buf| && n <= 8 * |src|
    ensures |r| == |buf| && Holds(r, bits + Bits(src, 0, n))
  {
    hide Bit, GetBit;
    r := OrBits(buf, at, src, 0, n);
  }

  /** The TDI buffer of a full-chain scan addressed to device t. */
  method AssembleFrame(n: nat, t: nat, src: seq<byte>, bits: nat) returns (full: seq<byte>)
    requires t < n && bits <= 8 * |src|
    ensures |full| == (bits + n - 1 + 7) / 8 && Holds(full, Frame(n, t, Bits(src, 0, bits)))
  {
    hide Holds, Bits;
    ghost var payload := Bits(src, 0, bits);
    full := Zeros(bits + n - 1);
    HoldsZeros(bits + n - 1);
    var pos := 0;
    ghost var done := [];
    for i := 0 to n
      invariant |full| == (bits + n - 1 + 7) / 8 && pos == |done| && Holds(full, done)
      invariant done == if i <= t then Falses(i) else Falses(t) + payload + Falses(i - 1 - t)
    {
      if i == t {
        full := PutBits(full, done, pos, src, bits);
        done := done + payload;
        pos := pos + bits;
      } else {
        HoldsZero(full, done);
        done := done + [false];
        pos := pos + 1;
      }
    }
  }

  /** Bits skip..skip+n of a full-chain TDO buffer, packed. */
  method ExtractBits(full: seq<byte>, skip: nat, n: nat) returns (out: seq<byte>)
    requires skip + n <= 8 * |full|
    ensures Packs(out, Bits(full, skip, n))
  {
    hide Bit, GetBit;
    GetBitOfZeros(n);
    out := OrBits(Zeros(n), 0, full, skip, n);
  }

  lemma ExtractedIs(full: seq<byte>, tdo: seq<bool>, skip: nat, n: nat)
    requires Packs(full, tdo) && skip + n <= |tdo|
    ensures skip + n <= 8 * |full| && Bits(full, skip, n) == tdo[skip..skip + n]
  {
    hide Bit;
    forall k | 0 <= k < n ensures Bits(full, skip, n)[k] == tdo[skip + k] {
      assert GetBit(full, skip + k) == tdo[skip + k];
    }
  }

  // ------------------------------------------------------------- the chain

  datatype ChainDevice = ChainDevice(position: nat, idcode: nat, irLength: nat, bsdl: Option<BsdlDevice>)

  function Lengths(devices: seq<ChainDevice>): (r: seq<nat>)
    ensures |r| == |devices|
  {
    seq(|devices|, i requires 0 <= i < |devices| => devices[i].irLength)
  }

  function TotalIr(devices: seq<ChainDevice>, from: nat): nat
    requires from <= |devices|
    decreases |devices| - from
  {
    if from == |devices| then 0 else devices[from].irLength + TotalIr(devices, from + 1)
  }

  lemma {:induction false} TotalIrIs(devices: seq<ChainDevice>, from: nat, t: nat, instruction: nat)
    requires from <= |devices|
    ensures |IrFrame(Lengths(devices), from, t, instruction)| == TotalIr(devices, from)
    decreases |devices| - from
  {
    hide IrBits;
    if from < |devices| { TotalIrIs(devices, from + 1, t, instruction); }
  }

  /** A chain of real devices has instruction bits. */
  lemma IrIsNotEmpty(devices: seq<ChainDevice>, c: seq<Device>)
    requires ValidChain(c) && IrLengths(Lengths(devices), c) && devices != []
    ensures TotalIr(devices, 0) > 0
  {
    assert Lengths(devices)[0] == devices[0].irLength == |c[0].ir| > 0;
  }

  /** A partial request counts only between 1 and the register length. */
  function ReadLength(bsrLength: nat, partialBits: int): nat {
    if 0 < partialBits < bsrLength then partialBits else bsrLength
  }

  function Resize(buf: seq<byte>, n: nat): (r: seq<byte>)
    ensures |r| == n
  {
    if n <= |buf| then buf[..n] else buf + seq(n - |buf|, _ => 0)
  }

  /** bsr is `into` resized, with the read bits ORed in. */
  ghost predicate Merged(bsr: seq<byte>, into: seq<byte>, bits: seq<bool>) {
    && |bsr| == (|bits| + 7) / 8
    && forall k {:trigger GetBit(bsr, k)} :: 0 <= k < 8 * |bsr| ==>
      GetBit(bsr, k) == ((k < 8 * |into| && GetBit(into, k)) || (k < |bits| && bits[k]))
  }

  lemma MergedIs(bsr: seq<byte>, sized: seq<byte>, into: seq<byte>, read: seq<byte>, bits: seq<bool>)
    requires sized == Resize(into, (|bits| + 7) / 8) && |bsr| == |sized| && Packs(read, bits)
    requires forall k {:trigger GetBit(bsr, k)} :: 0 <= k < 8 * |bsr| ==>
      GetBit(bsr, k) == (GetBit(sized, k) || (0 <= k < 0 + |bits| && GetBit(read, 0 + k - 0)))
    ensures Merged(bsr, into, bits)
  {
    hide Bit;
    forall k {:trigger GetBit(bsr, k)} | 0 <= k < 8 * |bsr|
      ensures GetBit(bsr, k) == ((k < 8 * |into| && GetBit(into, k)) || (k < |bits| && bits[k]))
    {
      BitOfZero(k % 8);
    }
  }

  /** No bit of the caller's buffer is raised where the n bits read are merged in. */
  predicate ClearBelow(into: seq<byte>, n: nat) {
    forall k {:trigger GetBit(into, k)} :: 0 <= k < 8 * |into| && k < 8 * ((n + 7) / 8) ==> !GetBit(into, k)
  }

  /** Every reading of n bits comes out exactly if and only if the caller's buffer is clear in its place. */
  lemma MergeIsExactIffClear(into: seq<byte>, n: nat)
    ensures (forall bits, bsr :: |bits| == n && Merged(bsr, into, bits) ==> Packs(bsr, bits)) <==> ClearBelow(into, n)
  {
    hide GetBit;
    if ClearBelow(into, n) {
      forall bits, bsr | |bits| == n && Merged(bsr, into, bits) ensures Packs(bsr, bits) {}
    } else {
      StaleBitSurvives(into, n);
    }
  }

  /** A bit left raised in the buffer shows through a reading of all zeros. */
  lemma StaleBitSurvives(into: seq<byte>, n: nat)
    requires !ClearBelow(into, n)
    ensures var bsr := Resize(into, (n + 7) / 8); Merged(bsr, into, Falses(n)) && !Packs(bsr, Falses(n))
  {
    hide Bit;
    var bsr := Resize(into, (n + 7) / 8);
    forall k {:trigger GetBit(bsr, k)} | 0 <= k < 8 * |bsr|
      ensures GetBit(bsr, k) == (k < 8 * |into| && GetBit(into, k))
    {
      BitOfZero(k % 8);
    }
    var k :| 0 <= k < 8 * |into| && k < 8 * ((n + 7) / 8) && GetBit(into, k);
    assert GetBit(bsr, k);
  }

  const MAX_BITS := 256

  /** The IR length guessed from the manufacturer field: 4 for ARM, 6 otherwise, 1 for an unknown device. */
  function GuessedIrLength(f: Found): nat {
    match f
    case Bypass => 1
    case Id(code) => if code / 2 % 2048 == 0x23B then 4 else 6
  }

  /** The device table for a discovered list, positions counted from `first`. */
  function Table(list: seq<Found>, first: nat): (r: seq<ChainDevice>)
    ensures |r| == |list|
  {
    seq(|list|, i requires 0 <= i < |list| =>
      ChainDevice(first + i, if list[i].Id? then list[i].code else 0, GuessedIrLength(list[i]), None))
  }

  lemma TableCons(f: Found, rest: seq<Found>, first: nat)
    ensures Table([f] + rest, first) == Table([f], first) + Table(rest, first + 1)
  {
  }

  lemma TableEmpty()
    ensures Table([], 0) == [] && forall n :: Table(Parse([]), n) == []
  {
  }

  lemma TableOne(f: Found, first: nat)
    ensures Table([f], first) == [ChainDevice(first, if f.Id? then f.code else 0, GuessedIrLength(f), None)]
  {
  }

  /** Codes of standard devices are never 0, so the table determines the list. */
  lemma TableInjective(a: seq<Found>, b: seq<Found>)
    requires Standard(b) && forall i :: 0 <= i < |a| && a[i].Id? ==> a[i].code != 0
    ensures Table(a, 0) == Table(b, 0) <==> a == b
  {
    if Table(a, 0) == Table(b, 0) {
      forall i | 0 <= i < |a| ensures a[i] == b[i] {
        assert Table(a, 0)[i] == Table(b, 0)[i];
      }
    }
  }

  /** Device d has the instruction register the detection assumes: one bit wide when it shows BYPASS, else by the
      manufacturer field of its IDCODE four bits for 0x23B and six for any other. */
  ghost predicate UsualWidth(d: Device) {
    if d.resetIr !in d.regs then |d.resetIr| == 1
    else
      d.regs[d.resetIr].Cells? && |d.regs[d.resetIr].inputs| == 32
      && |d.resetIr| == if BitsNat(d.regs[d.resetIr].inputs[1..12]) == 0x23B then 4 else 6
  }

  /** The IDCODE a device shows after a reset, 0 for none. */
  ghost function Identity(d: Device): nat {
    if d.resetIr in d.regs && d.regs[d.resetIr].Cells? then BitsNat(d.regs[d.resetIr].inputs) else 0
  }

  lemma EntryFits(f: Found, d: Device)
    requires Shows(d) == Some(f)
    ensures (if f.Id? then f.code else 0) == Identity(d)
    ensures GuessedIrLength(f) == |d.resetIr| <==> UsualWidth(d)
  {
    hide BitsNat;
    if d.resetIr in d.regs { ManufacturerBits(d.regs[d.resetIr].inputs); }
  }

  /** The table of the true list describes the hardware exactly when every device has the assumed width. */
  lemma TableFits(list: seq<Found>, c: seq<Device>, c': seq<Device>)
    requires ChainList(c) == Some(list) && ValidChain(c') && SameWidths(c, c')
    ensures |Table(list, 0)| == |c|
    ensures forall i :: 0 <= i < |c| ==> Table(list, 0)[i].position == i && Table(list, 0)[i].idcode == Identity(c[i])
    ensures IrLengths(Lengths(Table(list, 0)), c') <==> forall i :: 0 <= i < |c| ==> UsualWidth(c[i])
  {
    hide UsualWidth, Shows, Identity, ChainList, GuessedIrLength;
    ListedAt(c, list);
    var t := Table(list, 0);
    forall i | 0 <= i < |c|
      ensures t[i].position == i && t[i].idcode == Identity(c[i])
      ensures Lengths(t)[i] == |c'[i].ir| <==> UsualWidth(c[i])
    {
      EntryFits(list[i], c[i]);
    }
  }

  lemma ResetKeepsWidths(h: Hw, h': Hw, tdi: seq<bool>)
    requires WasReset(h, h')
    ensures ValidChain(DrScan(h'.chain, tdi)) && SameWidths(h.chain, DrScan(h'.chain, tdi))
  {
    hide Move, CaptureDevice, UpdateDevice;
    MoveKeepsWidths(h, [true, true, true, true, true]);
  }

  function From(bits: seq<bool>, at: nat): seq<bool> {
    if at <= |bits| then bits[at..] else []
  }

  lemma FromStep(bits: seq<bool>, at: nat)
    requires at < |bits|
    ensures var rest := bits[at..];
      rest == From(bits, at) && rest[1..] == From(bits, at + 1)
      && (if |rest| < 32 then [] else rest[32..]) == From(bits, at + 32)
  {
  }

  lemma ParseStep(rest: seq<bool>)
    requires rest != []
    ensures !rest[0] ==> Parse(rest) == if true in Window(rest) then [Bypass] + Parse(rest[1..]) else []
    ensures rest[0] && BitsNat(Window(rest)) == ALL_ONES ==> Parse(rest) == []
    ensures rest[0] && BitsNat(Window(rest)) != ALL_ONES ==>
      Parse(rest) == [Id(BitsNat(Window(rest)))] + Parse(if |rest| < 32 then [] else rest[32..])
  {
    hide BitsNat;
  }

  lemma {:induction false} ParsedCodes(bits: seq<bool>)
    ensures forall i :: 0 <= i < |Parse(bits)| && Parse(bits)[i].Id? ==> Parse(bits)[i].code != 0
    decreases |bits|
  {
    if bits != [] {
      ParsedCodes(bits[1..]);
      if |bits| >= 32 { ParsedCodes(bits[32..]); }
    }
  }

  lemma WindowBits(tdo: seq<byte>, bitPos: nat, window: nat)
    requires |tdo| == MAX_BITS / 8 && bitPos < MAX_BITS
    requires window == (if MAX_BITS - bitPos < 32 then MAX_BITS - bitPos else 32)
    ensures var rest := Bits(tdo, 0, MAX_BITS)[bitPos..];
      rest[0] == GetBit(tdo, bitPos) && Window(rest) == Bits(tdo, bitPos, window)
  {
    hide GetBit;
  }

  lemma ResetReads(h: Hw, h': Hw, list: seq<Found>)
    requires WasReset(h, h') && ChainList(h.chain) == Some(list) && |Stream(list)| <= MAX_BITS
    ensures DrScanTdo(h'.chain, Falses(MAX_BITS)) == Stream(list) + Falses(MAX_BITS - |Stream(list)|)
    ensures Standard(list) && |list| == |h.chain|
  {
    hide Move, AllShow, ResetChain;
    var fives := [true, true, true, true, true];
    MoveShows(h, fives);
    ResetStream(Move(h, fives).chain, list);
    AllShowLength(h.chain);
    AllShowLength(Move(h, fives).chain);
    var s := Stream(list);
    assert (s + Falses(MAX_BITS))[..MAX_BITS] == s + Falses(MAX_BITS - |s|);
  }

  lemma AllShowLength(c: seq<Device>)
    ensures |AllShow(c)| == |c|
  {
  }

  class JtagChain {
    const tap: TapController
    var devices: seq<ChainDevice>

    /** Whether an error text is kept. */
    var lastError: bool

    constructor (tap: TapController)
      ensures this.tap == tap && devices == [] && !lastError
    {
      this.tap, devices, lastError := tap, [], false;
    }

    /** The device table describes the hardware chain, and the TAP is parked in Run-Test/Idle. */
    ghost predicate Ready()
      reads this`devices, tap`state, tap.device
    {
      tap.AtIdle() && IrLengths(Lengths(devices), tap.device.hw.chain)
    }

    /** Ready, with device t's data register the only one not in BYPASS. */
    ghost predicate Addressing(t: nat)
      reads this`devices, tap`state, tap.device
    {
      Ready() && Targets(tap.device.hw.chain, t)
    }

    method TotalIrLength() returns (total: nat)
      ensures total == TotalIr(devices, 0)
    {
      total := 0;
      var i := 0;
      while i < |devices|
        invariant 0 <= i <= |devices|
        invariant total + TotalIr(devices, i) == TotalIr(devices, 0)
      {
        total := total + devices[i].irLength;
        i := i + 1;
      }
    }

    method SelectInstruction(deviceIndex: int, instruction: nat) returns (ok: bool)
      requires tap.device.Valid() && forall i :: 0 <= i < |devices| ==> devices[i].irLength <= 32
      modifies this`lastError, tap`state, tap`lastError, tap.device
      ensures tap.device.Valid() && tap.device.faults >= old(tap.device.faults)
      ensures tap.lastError == (old(tap.lastError) || tap.device.faults > old(tap.device.faults))
      ensures lastError == (old(lastError) || !(0 <= deviceIndex < |devices|))
      ensures ok <==>
        0 <= deviceIndex < |devices| && TotalIr(devices, 0) > 0 && tap.device.faults == old(tap.device.faults)
      ensures !(0 <= deviceIndex < |devices|) ==> tap.device.hw == old(tap.device.hw)
      ensures old(Ready()) && devices != [] ==> TotalIr(devices, 0) > 0
      ensures ok && old(Ready()) ==>
        Addressing(deviceIndex) && tap.device.hw.chain == Select(old(tap.device.hw).chain, deviceIndex, instruction)
    {
      if deviceIndex < 0 || deviceIndex >= |devices| {
        if Ready() && devices != [] { IrIsNotEmpty(devices, tap.device.hw.chain); }
        lastError := true;
        return false;
      }
      if Ready() { IrIsNotEmpty(devices, tap.device.hw.chain); }
      ok := LoadIr(deviceIndex, instruction);
    }

    method LoadIr(t: nat, instruction: nat) returns (ok: bool)
      requires tap.device.Valid() && t < |devices|
      modifies tap`state, tap`lastError, tap.device
      ensures tap.device.Valid() && tap.device.faults >= old(tap.device.faults)
      ensures tap.lastError == (old(tap.lastError) || tap.device.faults > old(tap.device.faults))
      ensures ok <==> TotalIr(devices, 0) > 0 && tap.device.faults == old(tap.device.faults)
      ensures ok && old(Ready()) ==>
        Addressing(t) && tap.device.hw.chain == Select(old(tap.device.hw).chain, t, instruction)
    {
      hide Holds, IrBits, Bits, Select, IrScan, Pow2, NatBits;
      ghost var lens := Lengths(devices);
      var total := TotalIrLength();
      TotalIrIs(devices, 0, t, instruction);
      var irData := Zeros(total);
      HoldsZeros(total);
      ghost var frame := IrFrame(lens, 0, t, instruction);
      ghost var done := [];
      var bitPos := 0;
      for i := 0 to |devices|
        invariant bitPos == |done| && |irData| == (total + 7) / 8 && Holds(irData, done)
        invariant done + IrFrame(lens, i, t, instruction) == frame
        modifies {}
      {
        var irLen := devices[i].irLength;
        TotalIrIs(devices, i + 1, t, instruction);
        var opcode := if i == t then instruction else Pow2(irLen) - 1;
        OpcodeBits(i == t, instruction, irLen);
        irData := PutNat(irData, done, bitPos, opcode, irLen);
        Associate(done, IrBits(i == t, instruction, irLen), IrFrame(lens, i + 1, t, instruction));
        done := done + IrBits(i == t, instruction, irLen);
        bitPos := bitPos + irLen;
      }
      assert done + [] == done;
      HoldsBits(irData, frame);
      ghost var c := tap.device.hw.chain;
      ok := tap.ShiftIR(irData, total);
      if ok && old(Ready()) {
        SelectScans(c, lens, t, instruction);
        SelectTargets(c, t, instruction);
        SelectKeepsLengths(c, lens, t, instruction);
      }
    }

    /** Resets the chain and rebuilds the device table from the stream it then drives. */
    method DetectDevices() returns (count: nat)
      requires tap.device.Valid() && tap.device.fifo == []
      modifies this, tap, tap.device
      ensures tap.device.Valid() && tap.device.faults >= old(tap.device.faults) && count == |devices|
      ensures tap.device.faults > old(tap.device.faults) ==> devices == []
      ensures tap.device.faults == old(tap.device.faults) ==> tap.waits == old(tap.waits) + [10]
      ensures lastError <==> devices == []
      ensures tap.device.faults == old(tap.device.faults) && ChainList(old(tap.device.hw).chain).Some? ==>
        var list := ChainList(old(tap.device.hw).chain).value;
        |Stream(list)| <= 256 ==>
          tap.AtIdle() && Standard(list) && (Recoverable(list) <==> devices == Table(list, 0))
      ensures tap.device.faults == old(tap.device.faults) && ChainList(old(tap.device.hw).chain).Some? ==>
        var c, list := old(tap.device.hw).chain, ChainList(old(tap.device.hw).chain).value;
        |Stream(list)| <= 256 && Recoverable(list) ==>
          && |devices| == |c|
          && (forall i :: 0 <= i < |c| ==> devices[i].position == i && devices[i].idcode == Identity(c[i]))
          && (Ready() <==> forall i :: 0 <= i < |c| ==> UsualWidth(c[i]))
    {
      hide Parse, DrScanTdo, DrScan, Bits, Table, WasReset, ChainList, Stream, Recoverable, ReadsOver, UsualWidth,
           Identity, SameWidths;
      devices, lastError := [], true;
      ghost var h := tap.device.hw;
      var ok := tap.Reset();
      if !ok { return 0; }
      ghost var h1 := tap.device.hw;
      ok := tap.ClkIdle(10);
      if !ok { return 0; }
      var tdo;
      ok, tdo := tap.ReadDR(MAX_BITS, []);
      if !ok { return 0; }
      ghost var bits := Bits(tdo, 0, MAX_BITS);
      ParseTable(tdo);
      if devices != [] { lastError := false; }
      count := |devices|;
      if ChainList(h.chain).Some? {
        var list := ChainList(h.chain).value;
        if |Stream(list)| <= MAX_BITS {
          ResetReads(h, h1, list);
          FreshReads(tdo, DrScanTdo(h1.chain, Falses(MAX_BITS)));
          BitsOfPacked(tdo, DrScanTdo(h1.chain, Falses(MAX_BITS)));
          ParseInvertsStream(list, MAX_BITS - |Stream(list)|);
          ParsedCodes(bits);
          TableInjective(Parse(bits), list);
          ResetKeepsWidths(h, h1, Falses(MAX_BITS));
          TableFits(list, h.chain, DrScan(h1.chain, Falses(MAX_BITS)));
        }
      }
    }

    /** The parsing loop. */
    method ParseTable(tdo: seq<byte>)
      requires |tdo| == MAX_BITS / 8 && devices == []
      modifies this`devices
      ensures devices == Table(Parse(Bits(tdo, 0, MAX_BITS)), 0)
    {
      hide Bits, Table, GetBit, Parse, Window, BitsNat;
      var bitPos, devicePos := 0, 0;
      ghost var bits := Bits(tdo, 0, MAX_BITS);
      assert From(bits, 0) == bits;
      TableEmpty();
      var stop := false;
      while bitPos < MAX_BITS && !stop
        invariant 0 <= bitPos
        invariant stop ==> devices == Table(Parse(bits), 0)
        invariant !stop ==>
          devices + Table(Parse(From(bits, bitPos)), devicePos) == Table(Parse(bits), 0)
        decreases MAX_BITS - bitPos, !stop
      {
        var window := if MAX_BITS - bitPos < 32 then MAX_BITS - bitPos else 32;
        ghost var rest := bits[bitPos..];
        WindowBits(tdo, bitPos, window);
        ParseStep(rest);
        FromStep(bits, bitPos);
        if !GetBit(tdo, bitPos) {
          var any := AnySet(tdo, bitPos, window);
          if !any {
            stop := true;
            assert devices + [] == devices;
          } else {
            TableCons(Bypass, Parse(From(bits, bitPos + 1)), devicePos);
            TableOne(Bypass, devicePos);
            devices := devices + [ChainDevice(devicePos, 0, 1, None)];
            devicePos := devicePos + 1;
            bitPos := bitPos + 1;
          }
        } else {
          var idcode := ReadNumber(tdo, bitPos, window);
          if idcode == ALL_ONES {
            stop := true;
            assert devices + [] == devices;
          } else {
            var manufacturer := idcode / 2 % 2048;
            TableCons(Id(idcode), Parse(From(bits, bitPos + 32)), devicePos);
            TableOne(Id(idcode), devicePos);
            devices := devices + [ChainDevice(devicePos, idcode, if manufacturer == 0x23B then 4 else 6, None)];
            devicePos := devicePos + 1;
            bitPos := bitPos + 32;
          }
        }
      }
      assert devices + [] == devices;
    }

    /** Reads a target's data register by shifting zeros through the chain. */
    method ReadDataDR(deviceIndex: int, drBits: int) returns (ok: bool, out: seq<byte>)
      requires tap.device.Valid()
      modifies this`lastError, tap`state, tap`lastError, tap.device
      ensures tap.device.Valid() && tap.device.faults >= old(tap.device.faults)
      ensures tap.lastError == (old(tap.lastError) || tap.device.faults > old(tap.device.faults))
      ensures lastError == (if ok then old(lastError)
                            else if 0 <= deviceIndex < |devices| && drBits > 0 then tap.lastError else true)
      ensures ok <==> 0 <= deviceIndex < |devices| && drBits > 0 && tap.device.faults == old(tap.device.faults)
      ensures !(0 <= deviceIndex < |devices|) || drBits <= 0 ==> tap.device.hw == old(tap.device.hw)
      ensures ok ==> |out| == (drBits + 7) / 8
      ensures ok && 0 <= deviceIndex && old(Addressing(deviceIndex)) ==>
        var c := old(tap.device.hw).chain;
        && Addressing(deviceIndex) && tap.device.hw.chain == DrScan(c, Falses(drBits + |c| - 1))
        && Packs(out, FirstBits(CaptureDevice(c[deviceIndex]), drBits))
    {
      if deviceIndex < 0 || deviceIndex >= |devices| || drBits <= 0 {
        lastError := true;
        return false, [];
      }
      ok, out := ReadBits(deviceIndex, drBits);
      if !ok { lastError := tap.lastError; }
    }

    /** The read shared by ReadDataDR and ReadBSR: one bit per other device, then slice. */
    method ReadBits(t: nat, n: nat) returns (ok: bool, out: seq<byte>)
      requires tap.device.Valid() && t < |devices|
      modifies tap`state, tap`lastError, tap.device
      ensures tap.device.Valid() && tap.device.faults >= old(tap.device.faults)
      ensures tap.lastError == (old(tap.lastError) || tap.device.faults > old(tap.device.faults))
      ensures ok <==> n + |devices| > 1 && tap.device.faults == old(tap.device.faults)
      ensures ok ==> |out| == (n + 7) / 8
      ensures ok && old(Addressing(t)) ==>
        var c := old(tap.device.hw).chain;
        && Addressing(t) && tap.device.hw.chain == DrScan(c, Falses(n + |c| - 1))
        && Packs(out, FirstBits(CaptureDevice(c[t]), n))
    {
      hide DrScan, DrScanTdo, CaptureDevice, Bits, GetBit, ReadsOver;
      ghost var c := tap.device.hw.chain;
      var full;
      out := [];
      ok, full := tap.ReadDR(n + |devices| - 1, []);
      if !ok { return; }
      out := ExtractBits(full, t, n);
      if old(Addressing(t)) {
        var tdo := DrScanTdo(c, Falses(n + |c| - 1));
        TargetReadsZeros(c, t, n);
        FreshReads(full, tdo);
        ExtractedIs(full, tdo, t, n);
        DrScanKeepsTarget(c, Falses(n + |c| - 1), Lengths(devices), t);
      }
    }

    /** Reads the (possibly partial) boundary register, ORing it into whatever the caller's buffer holds. */
    method ReadBSR(deviceIndex: int, into: seq<byte>, partialBits: int) returns (ok: bool, bsr: seq<byte>)
      requires tap.device.Valid()
      modifies this`lastError, tap`state, tap`lastError, tap.device
      ensures tap.device.Valid() && tap.device.faults >= old(tap.device.faults)
      ensures tap.lastError == (old(tap.lastError) || tap.device.faults > old(tap.device.faults))
      ensures lastError == (if ok then old(lastError)
                            else if 0 <= deviceIndex < |devices| && devices[deviceIndex].bsdl.Some? then tap.lastError
                            else true)
      ensures ok <==>
        && 0 <= deviceIndex < |devices| && devices[deviceIndex].bsdl.Some?
        && ReadLength(devices[deviceIndex].bsdl.value.boundaryLength, partialBits) + |devices| > 1
        && tap.device.faults == old(tap.device.faults)
      ensures !(0 <= deviceIndex < |devices| && devices[deviceIndex].bsdl.Some?) ==>
        bsr == into && tap.device.hw == old(tap.device.hw)
      ensures ok && old(Addressing(deviceIndex)) ==>
        var c, n := old(tap.device.hw).chain, ReadLength(devices[deviceIndex].bsdl.value.boundaryLength, partialBits);
        && Addressing(deviceIndex) && tap.device.hw.chain == DrScan(c, Falses(n + |c| - 1))
        && Merged(bsr, into, FirstBits(CaptureDevice(c[deviceIndex]), n))
    {
      hide DrScan, CaptureDevice, Merged, FirstBits, Bit, GetBit, Resize, Targets;
      bsr := into;
      if deviceIndex < 0 || deviceIndex >= |devices| || devices[deviceIndex].bsdl.None? {
        lastError := true;
        return false, into;
      }
      var n := ReadLength(devices[deviceIndex].bsdl.value.boundaryLength, partialBits);
      ghost var c := tap.device.hw.chain;
      var read;
      ok, read := ReadBits(deviceIndex, n);
      if !ok {
        lastError := tap.lastError;
        return;
      }
      bsr := Resize(into, (n + 7) / 8);
      var sized := bsr;
      bsr := OrBits(sized, 0, read, 0, n);
      if old(Addressing(deviceIndex)) {
        MergedIs(bsr, sized, into, read, FirstBits(CaptureDevice(c[deviceIndex]), n));
      }
    }

    /** Drives a target's data register; the other devices get one zero each. */
    method WriteBSR(deviceIndex: int, bsr: seq<byte>, bsrBits: nat) returns (ok: bool)
      requires tap.device.Valid() && bsrBits <= 8 * |bsr|
      modifies this`lastError, tap`state, tap`lastError, tap.device
      ensures tap.device.Valid() && tap.device.faults >= old(tap.device.faults)
      ensures tap.lastError == (old(tap.lastError) || tap.device.faults > old(tap.device.faults))
      ensures lastError == (old(lastError) || !(0 <= deviceIndex < |devices|))
      ensures ok <==>
        0 <= deviceIndex < |devices| && bsrBits + |devices| > 1 && tap.device.faults == old(tap.device.faults)
      ensures !(0 <= deviceIndex < |devices|) ==> tap.device.hw == old(tap.device.hw)
      ensures ok && old(Addressing(deviceIndex)) ==>
        var c := old(tap.device.hw).chain;
        var s := Passing(CaptureDevice(c[deviceIndex]), |c|, Bits(bsr, 0, bsrBits));
        && Addressing(deviceIndex)
        && tap.device.hw.chain == c[deviceIndex := UpdateDevice(c[deviceIndex], s[bsrBits + |c| - 1..])]
        && (bsrBits == |CaptureDevice(c[deviceIndex])| ==> s[bsrBits + |c| - 1..] == Bits(bsr, 0, bsrBits))
    {
      hide DrScan, CaptureDevice, UpdateDevice, Bits, Holds, Frame, Passing, Targets;
      if deviceIndex < 0 || deviceIndex >= |devices| {
        lastError := true;
        return false;
      }
      ghost var c, payload := tap.device.hw.chain, Bits(bsr, 0, bsrBits);
      var full := AssembleFrame(|devices|, deviceIndex, bsr, bsrBits);
      ghost var frame := Frame(|devices|, deviceIndex, payload);
      HoldsBits(full, frame);
      ok := tap.ShiftDRWrite(full, bsrBits + |devices| - 1);
      if ok && old(Addressing(deviceIndex)) {
        DrScanKeepsTarget(c, frame, Lengths(devices), deviceIndex);
        TargetScan(c, deviceIndex, payload);
        if bsrBits == |CaptureDevice(c[deviceIndex])| {
          PassingEnds(CaptureDevice(c[deviceIndex]), |c|, payload);
          assert payload[0..] == payload;
        }
      }
    }
  }

  /** No data scan changes what is selected. */
  lemma DrScanKeepsTarget(c: seq<Device>, tdi: seq<bool>, lens: seq<nat>, t: nat)
    requires Targets(c, t) && IrLengths(lens, c)
    ensures IrLengths(lens, DrScan(c, tdi)) && Targets(DrScan(c, tdi), t)
  {
    hide CaptureDevice, UpdateDevice;
  }

  lemma Associate<T>(a: seq<T>, b: seq<T>, c: seq<T>)
    ensures a + (b + c) == (a + b) + c
  {
  }

  lemma SelectKeepsLengths(c: seq<Device>, lens: seq<nat>, t: nat, instruction: nat)
    requires IrLengths(lens, c)
    ensures IrLengths(lens, Select(c, t, instruction))
  {
    hide NatBits;
  }

  /** BYPASS is the largest value of the instruction register. */
  lemma {:induction false} OnesBits(n: nat)
    ensures NatBits(Pow2(n) - 1, n) == Ones(n)
  {
    if n > 0 {
      OnesBits(n - 1);
      assert (Pow2(n) - 1) / 2 == Pow2(n - 1) - 1;
    }
  }

  lemma OpcodeBits(selected: bool, instruction: nat, n: nat)
    ensures NatBits(if selected then instruction else Pow2(n) - 1, n) == IrBits(selected, instruction, n)
  {
    OnesBits(n);
  }
}
