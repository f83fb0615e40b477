/** The FTDI cable: bytes in, pulses on the chain, sampled TDO bits packed into reply bytes. */
module Cable {
  import opened Bytes
  import opened Framing
  import opened Tap
  import opened Hardware
  import opened Mpsse

  // ------------------------------------------------- events on the hardware

  function Tick(h: Hw, e: Event): (h': Hw)
    requires h.Valid()
    ensures h'.Valid()
  {
    if e.Pulse? then Clock(h, e.tms, e.tdi) else h
  }

  predicate TdoAt(h: Hw, e: Event) {
    e.Pulse? && Tdo(h, e.tdi)
  }

  function HwAfter(h: Hw, ev: seq<Event>): (h': Hw)
    requires h.Valid()
    ensures h'.Valid()
    decreases |ev|
  {
    if ev == [] then h else HwAfter(Tick(h, ev[0]), ev[1..])
  }

  /** The TDO level at each event. */
  function Trace(h: Hw, ev: seq<Event>): (r: seq<bool>)
    requires h.Valid()
    ensures |r| == |ev|
    decreases |ev|
  {
    if ev == [] then [] else [TdoAt(h, ev[0])] + Trace(Tick(h, ev[0]), ev[1..])
  }

  lemma {:induction false} HwAppend(h: Hw, a: seq<Event>, b: seq<Event>)
    requires h.Valid()
    ensures HwAfter(h, a + b) == HwAfter(HwAfter(h, a), b)
    ensures Trace(h, a + b) == Trace(h, a) + Trace(HwAfter(h, a), b)
    decreases |a|
  {
    hide Tick, TdoAt;
    if a == [] {
      assert a + b == b;
    } else {
      assert (a + b)[1..] == a[1..] + b;
      HwAppend(Tick(h, a[0]), a[1..], b);
    }
  }

  // --------------------------------------------------------- the input path

  /** TDO bits enter the input register at bit 7. */
  function Sample(rx: byte, tdo: bool): byte {
    (rx >> 1) | (if tdo then 0x80 else 0)
  }

  function Samples(rx: byte, tdo: seq<bool>): byte
    decreases |tdo|
  {
    if tdo == [] then rx else Samples(Sample(rx, tdo[0]), tdo[1..])
  }

  function RxStep(rx: byte, e: Event, tdo: bool): byte {
    if e.Pulse? && e.sample then Sample(rx, tdo) else rx
  }

  function OutStep(rx: byte, low: byte, e: Event, tdo: bool): seq<byte> {
    if e.PinsRead? then [low] else if e.emit then [RxStep(rx, e, tdo)] else []
  }

  function RxAfter(rx: byte, ev: seq<Event>, tdo: seq<bool>): byte
    requires |ev| == |tdo|
    decreases |ev|
  {
    if ev == [] then rx else RxAfter(RxStep(rx, ev[0], tdo[0]), ev[1..], tdo[1..])
  }

  /** The reply bytes; `low` is what a read of the low-byte pins returns. */
  function Reply(rx: byte, low: byte, ev: seq<Event>, tdo: seq<bool>): seq<byte>
    requires |ev| == |tdo|
    decreases |ev|
  {
    if ev == [] then []
    else OutStep(rx, low, ev[0], tdo[0]) + Reply(RxStep(rx, ev[0], tdo[0]), low, ev[1..], tdo[1..])
  }

  lemma {:induction false} ReplyAppend(rx: byte, low: byte, a: seq<Event>, s: seq<bool>, b: seq<Event>, t: seq<bool>)
    requires |a| == |s| && |b| == |t|
    ensures Reply(rx, low, a + b, s + t) == Reply(rx, low, a, s) + Reply(RxAfter(rx, a, s), low, b, t)
    ensures RxAfter(rx, a + b, s + t) == RxAfter(RxAfter(rx, a, s), b, t)
    decreases |a|
  {
    hide RxStep, OutStep;
    if a == [] {
      assert a + b == b && s + t == t;
    } else {
      assert (a + b)[1..] == a[1..] + b && (s + t)[1..] == s[1..] + t;
      ReplyAppend(RxStep(rx, a[0], s[0]), low, a[1..], s[1..], b, t);
    }
  }

  lemma {:induction false} ReplyLength(rx: byte, low: byte, ev: seq<Event>, tdo: seq<bool>)
    requires |ev| == |tdo|
    ensures |Reply(rx, low, ev, tdo)| == Replies(ev)
    decreases |ev|
  {
    hide Sample;
    if ev != [] {
      ReplyLength(RxStep(rx, ev[0], tdo[0]), low, ev[1..], tdo[1..]);
    }
  }

  lemma SampleBits(rx: byte, t: bool, i: nat)
    requires i < 8
    ensures Bit(Sample(rx, t), i) == if i == 7 then t else Bit(rx, i + 1)
  {
    assert i in {0, 1, 2, 3, 4, 5, 6, 7};
  }

  /** After m samples the newest is bit 7 and the oldest bit 8 - m. */
  lemma {:induction false} SamplesBits(rx: byte, tdo: seq<bool>, i: nat)
    requires |tdo| <= 8 && i < 8
    ensures Bit(Samples(rx, tdo), i) == if i >= 8 - |tdo| then tdo[i - (8 - |tdo|)] else Bit(rx, i + |tdo|)
    decreases |tdo|
  {
    hide Bit, Sample;
    if tdo != [] {
      SamplesBits(Sample(rx, tdo[0]), tdo[1..], i);
      if i < 8 - |tdo| + 1 {
        SampleBits(rx, tdo[0], i + |tdo| - 1);
      }
    }
  }

  /** A block of sampled pulses that emits only at its end replies with one byte. */
  lemma {:induction false} BlockReply(rx: byte, low: byte, ev: seq<Event>, tdo: seq<bool>)
    requires 0 < |ev| == |tdo|
    requires forall i :: 0 <= i < |ev| ==> ev[i].Pulse? && ev[i].sample && ev[i].emit == (i == |ev| - 1)
    ensures Reply(rx, low, ev, tdo) == [Samples(rx, tdo)]
    ensures RxAfter(rx, ev, tdo) == Samples(rx, tdo)
    decreases |ev|
  {
    hide Sample;
    if |ev| > 1 {
      BlockReply(Sample(rx, tdo[0]), low, ev[1..], tdo[1..]);
    }
  }

  /** Pulses that are not sampled reply with nothing. */
  lemma {:induction false} SilentReply(rx: byte, low: byte, ev: seq<Event>, tdo: seq<bool>)
    requires |ev| == |tdo|
    requires forall i :: 0 <= i < |ev| ==> ev[i].Pulse? && !ev[i].sample && !ev[i].emit
    ensures Reply(rx, low, ev, tdo) == [] && RxAfter(rx, ev, tdo) == rx
    decreases |ev|
  {
    hide Sample;
    if ev != [] {
      SilentReply(rx, low, ev[1..], tdo[1..]);
    }
  }

  /** Byte-mode reads reply with the TDO bits packed LSB first. */
  lemma {:induction false} BytesReply(rx: byte, low: byte, tms: bool, bits: seq<bool>, tdo: seq<bool>)
    requires |bits| == |tdo| && |bits| % 8 == 0
    ensures Packs(Reply(rx, low, DataEvents(tms, bits, true), tdo), tdo)
    decreases |bits|
  {
    if bits != [] {
      var a, b, s, t := bits[..8], bits[8..], tdo[..8], tdo[8..];
      assert bits == a + b && tdo == s + t;
      DataEventsAppend(tms, a, b, true);
      BlockReply(rx, low, DataEvents(tms, a, true), s);
      ReplyAppend(rx, low, DataEvents(tms, a, true), s, DataEvents(tms, b, true), t);
      BytesReply(Samples(rx, s), low, tms, b, t);
      forall i | 0 <= i < 8 ensures Bit(Samples(rx, s), i) == s[i] { SamplesBits(rx, s, i); }
      PacksCons(Samples(rx, s), s, Reply(Samples(rx, s), low, DataEvents(tms, b, true), t), t);
    }
  }

  lemma PacksCons(b: byte, s: seq<bool>, rest: seq<byte>, t: seq<bool>)
    requires |s| == 8 && forall i :: 0 <= i < 8 ==> Bit(b, i) == s[i]
    requires Packs(rest, t)
    ensures Packs([b] + rest, s + t)
  {
    hide Bit;
    var buf := [b] + rest;
    forall k {:trigger GetBit(buf, k)} | 0 <= k < 8 * |buf|
      ensures GetBit(buf, k) == (k < |s + t| && (s + t)[k])
    {
      if k >= 8 {
        assert k / 8 == (k - 8) / 8 + 1 && k % 8 == (k - 8) % 8;
        assert GetBit(buf, k) == GetBit(rest, k - 8);
      }
    }
  }

  /** The TCK pulses among some events. */
  function Clocks(ev: seq<Event>): nat {
    if ev == [] then 0 else (if ev[0].Pulse? then 1 else 0) + Clocks(ev[1..])
  }

  lemma {:induction false} TmsClocks(bits: seq<bool>, tdi: bool, read: bool)
    ensures Clocks(TmsEvents(bits, tdi, read)) == |bits|
  {
    AllClocks(TmsEvents(bits, tdi, read));
  }

  lemma {:induction false} AllClocks(ev: seq<Event>)
    requires forall i :: 0 <= i < |ev| ==> ev[i].Pulse?
    ensures Clocks(ev) == |ev|
  {
    if ev != [] { AllClocks(ev[1..]); }
  }

  // ---------------------------------------------------------- setting up

  /** Levels and directions of the low-byte pins: TMS and the output enable high; TCK, TDI, TMS and it driven. */
  const INIT_VALUE: byte := 0x88

  const OUTPUT_MASK: byte := 0x8B

  /** The divisor for a frequency: from 30 MHz on none, below it the largest that does not clock too slowly. */
  ghost predicate ClockFits(divisor: nat, clockFreqHz: nat) {
    && divisor <= 0xFFFF
    && (clockFreqHz == 0 || clockFreqHz >= 30_000_000 ==> divisor == 0)
    && (0 < clockFreqHz < 30_000_000 ==>
         && (divisor + 1) * clockFreqHz <= 30_000_000
         && (divisor < 0xFFFF ==> (divisor + 2) * clockFreqHz > 30_000_000))
  }

  lemma Quotient(f: nat, raw: int)
    requires 0 < f < 30_000_000 && raw == 30_000_000 / f - 1
    ensures raw >= 0 && ClockFits(if raw > 0xFFFF then 0xFFFF else raw, f)
  {
    var q := raw + 1;
    assert q * f <= 30_000_000 < (q + 1) * f by { DivBounds(30_000_000, f); }
    if q <= 0 { Scaled(q + 1, 1, f); }
    if raw > 0xFFFF { Scaled(0x10000, q, f); }
  }

  lemma NoDivisor(f: nat)
    requires f == 0 || f >= 30_000_000
    ensures ClockFits(0, f)
  {
  }

  lemma DivBounds(n: nat, f: nat)
    requires f > 0
    ensures n / f * f <= n < (n / f + 1) * f
  {
    assert n == n / f * f + n % f;
  }

  lemma Scaled(a: int, b: int, f: nat)
    requires a <= b
    ensures a * f <= b * f
  {
    assert b * f - a * f == (b - a) * f;
  }

  function SetupCalls(divisor: nat): (r: seq<Call>)
    requires divisor <= 0xFFFF
    ensures AllValid(r)
  {
    [DisableClockDivide5] + ([Disable3PhaseClocking] + ([DisableLoopback]
      + ([SetClockDivisor(divisor)] + [SetLowBits(INIT_VALUE, OUTPUT_MASK)])))
  }

  lemma QuietStep(p: Pins, c: Call, rest: seq<Call>)
    requires c.Valid() && AllValid(rest) && CallEvents(p, c) == []
    ensures AllValid([c] + rest)
    ensures CallsEvents(p, [c] + rest) == CallsEvents(CallPins(p, c), rest)
    ensures CallsPins(p, [c] + rest) == CallsPins(CallPins(p, c), rest)
  {
    hide CallEvents, CallPins;
    assert ([c] + rest)[1..] == rest;
    assert [] + CallsEvents(CallPins(p, c), rest) == CallsEvents(CallPins(p, c), rest);
  }

  /** The calls of the setup clock nothing. */
  lemma SetupDoes(h: Hw, p: Pins, divisor: nat)
    requires h.Valid() && divisor <= 0xFFFF
    ensures CallsEvents(p, SetupCalls(divisor)) == [] && HwAfter(h, []) == h
    ensures CallsPins(p, SetupCalls(divisor))
      == Pins(true, false, Engine(divisor, false, false, false, 0x88, 0x8B))
  {
    hide CallsEvents, CallsPins, HwAfter;
    var last := [SetLowBits(INIT_VALUE, OUTPUT_MASK)];
    var three := [SetClockDivisor(divisor)] + last;
    var p1 := CallPins(p, DisableClockDivide5);
    var p2 := CallPins(p1, Disable3PhaseClocking);
    var p3 := CallPins(p2, DisableLoopback);
    QuietStep(p, DisableClockDivide5, [Disable3PhaseClocking] + ([DisableLoopback] + three));
    QuietStep(p1, Disable3PhaseClocking, [DisableLoopback] + three);
    QuietStep(p2, DisableLoopback, three);
    QuietStep(p3, SetClockDivisor(divisor), last);
    var p4 := CallPins(p3, SetClockDivisor(divisor));
    QuietStep(p4, last[0], []);
    assert last == last + [];
    InitLevels();
    NothingQueued(h, CallPins(p4, last[0]));
  }

  lemma InitLevels()
    ensures Bit(INIT_VALUE, 3) && !Bit(INIT_VALUE, 1)
  {
  }

  lemma NothingQueued(h: Hw, p: Pins)
    requires h.Valid()
    ensures CallsEvents(p, []) == [] && CallsPins(p, []) == p && HwAfter(h, []) == h
  {
  }

  // --------------------------------------------------------------- the device

  class FtdiDevice {
    var hw: Hw
    var pins: Pins
    var rx: byte
    var low: byte
    var fifo: seq<byte>

    /** How many transfers have failed. */
    ghost var faults: nat

    /** How many TCK pulses the successful ones made. */
    ghost var clocks: nat

    ghost predicate Valid()
      reads this
    {
      hw.Valid()
    }

    constructor (hw: Hw, pins: Pins)
      requires hw.Valid()
      ensures Valid() && this.hw == hw && this.pins == pins && fifo == [] && faults == 0
    {
      this.hw, this.pins, rx, low, fifo, faults, clocks := hw, pins, 0, 0, [], 0, 0;
    }

    /** Sends a buffer and reads back its expected bytes. A failure may strike at any point of the transfer. */
    method Transfer(cmd: MpsseCommandBuffer) returns (ok: bool, read: seq<byte>)
      requires Valid() && cmd.Valid()
      modifies this
      ensures Valid()
      ensures faults >= old(faults) && (ok <==> faults == old(faults))
      ensures ok ==> |read| == cmd.expectedReadBytes
      ensures ok && old(fifo) == [] ==>
        var ev := CallsEvents(old(pins), cmd.calls);
        && hw == HwAfter(old(hw), ev) && pins == CallsPins(old(pins), cmd.calls) && fifo == [] && low == old(low)
        && clocks == old(clocks) + Clocks(ev)
        && read == Reply(old(rx), low, ev, Trace(old(hw), ev))
        && rx == RxAfter(old(rx), ev, Trace(old(hw), ev))
    {
      hide Parse, EncodeAll, HwAfter, Trace, Reply, RxAfter, CallsEvents, CallsPins, Clocks;
      cmd.Compiles(pins);
      read := [];
      var events := BufferEvents(pins, cmd.buffer).value;
      var tdo := Trace(hw, events);
      ReplyLength(rx, low, events, tdo);
      var fails: bool := *;
      if fails {
        var done: int := *;
        hw := HwAfter(hw, events[..if 0 <= done < |events| then done else |events|]);
        faults := faults + 1;
        return false, [];
      }
      hw, pins := HwAfter(hw, events), BufferPins(pins, cmd.buffer).value;
      fifo := fifo + Reply(rx, low, events, tdo);
      rx := RxAfter(rx, events, tdo);
      clocks := clocks + Clocks(events);
      read, fifo := fifo[..cmd.expectedReadBytes], fifo[cmd.expectedReadBytes..];
      ok := true;
    }

    /** Sets the engine up for JTAG. The clock it settles on is the slowest one not below the frequency asked for,
        30 MHz / (divisor + 1), as far as the divisor's 16 bits reach. */
    method InitMpsse(clockFreqHz: nat) returns (ok: bool)
      requires Valid()
      modifies this
      ensures Valid()
      ensures faults >= old(faults) && (ok <==> faults == old(faults))
      ensures ok && old(fifo) == [] ==>
        && hw == old(hw) && fifo == [] && pins == Pins(true, false, pins.engine)
        && pins.engine == Engine(pins.engine.divisor, false, false, false, 0x88, 0x8B)
      ensures ok && old(fifo) == [] ==> ClockFits(pins.engine.divisor, clockFreqHz)
    {
      hide HwAfter, CallsEvents, CallsPins, EncodeAll, ReadsAll, SetupCalls;
      var cmd := new MpsseCommandBuffer();
      var divisor := DivisorFor(clockFreqHz);
      QueueSetup(cmd, divisor);
      SetupDoes(hw, pins, divisor);
      ok := Write(cmd);
    }

    method DivisorFor(clockFreqHz: nat) returns (divisor: nat)
      ensures divisor <= 0xFFFF && ClockFits(divisor, clockFreqHz)
    {
      hide ClockFits;
      divisor := 0;
      if 0 < clockFreqHz < 30_000_000 {
        var raw := 30_000_000 / clockFreqHz - 1;
        Quotient(clockFreqHz, raw);
        divisor := if raw > 0xFFFF then 0xFFFF else raw;
      } else {
        NoDivisor(clockFreqHz);
      }
    }

    method QueueSetup(cmd: MpsseCommandBuffer, divisor: nat)
      requires cmd.Valid() && cmd.calls == [] && divisor <= 0xFFFF
      modifies cmd
      ensures cmd.Valid() && cmd.calls == SetupCalls(divisor)
    {
      hide EncodeAll, ReadsAll;
      cmd.DisableClockDivide5();
      cmd.Disable3PhaseClocking();
      cmd.DisableLoopback();
      cmd.SetClockDivisor(divisor);
      cmd.SetLowBits(INIT_VALUE, OUTPUT_MASK);
    }

    method Write(cmd: MpsseCommandBuffer) returns (ok: bool)
      requires Valid() && cmd.Valid()
      modifies this
      ensures Valid()
      ensures faults >= old(faults) && (ok <==> faults == old(faults))
      ensures ok && old(fifo) == [] ==>
        var ev := CallsEvents(old(pins), cmd.calls);
        && hw == HwAfter(old(hw), ev) && pins == CallsPins(old(pins), cmd.calls) && fifo == [] && low == old(low)
        && clocks == old(clocks) + Clocks(ev)
    {
      var dummy;
      ok, dummy := Transfer(cmd);
    }
  }
}
