/** The MPSSE command bytes read as pin activity (FTDI AN_108, sections 3.3 to 3.8), and the proof
    that the command buffer's bytes do exactly what its callers asked for. */
module Mpsse {
  import opened Bytes
  import opened Framing
  import opened Tap

  const WRITE_BYTES: byte := 0x19
  const READ_BYTES: byte := 0x28
  const RDWR_BYTES: byte := 0x39
  const WRITE_BITS: byte := 0x1B
  const READ_BITS: byte := 0x2A
  const RDWR_BITS: byte := 0x3B
  const TMS_OUT: byte := 0x4B
  const TMS_RDWR: byte := 0x6B
  const SET_BITS_LOW: byte := 0x80
  const GET_BITS_LOW: byte := 0x81
  const LOOPBACK_END: byte := 0x85
  const TCK_DIVISOR: byte := 0x86
  const SEND_IMMEDIATE: byte := 0x87
  const DIS_DIV_5: byte := 0x8A
  const EN_DIV_5: byte := 0x8B
  const EN_3_PHASE: byte := 0x8C
  const DIS_3_PHASE: byte := 0x8D

  const CHUNK := 65536

  // ------------------------------------------------------------- pin activity

  /** One TCK pulse, or a read of the low-byte pins. `sample` shifts TDO into the input register;
      `emit` then sends that register to the host. */
  datatype Event = Pulse(tms: bool, tdi: bool, sample: bool, emit: bool) | PinsRead

  /** How the engine is set up: TCK is 60 MHz / ((1 + divisor) * 2), a fifth of that while divided; `direction`
      has a one for every low-byte pin that is driven, `levels` what they were last driven to. */
  datatype Engine = Engine(divisor: nat, dividesBy5: bool, threePhase: bool, loopback: bool, levels: byte,
                           direction: byte)

  /** What the engine holds between commands: the two lines it clocks out, and its settings. */
  datatype Pins = Pins(tms: bool, tdi: bool, engine: Engine)

  function DataEvents(tms: bool, bits: seq<bool>, read: bool): (r: seq<Event>)
    ensures |r| == |bits|
  {
    seq(|bits|, i requires 0 <= i < |bits| => Pulse(tms, bits[i], read, read && (i % 8 == 7 || i == |bits| - 1)))
  }

  function TmsEvents(bits: seq<bool>, tdi: bool, read: bool): (r: seq<Event>)
    ensures |r| == |bits|
  {
    seq(|bits|, i requires 0 <= i < |bits| => Pulse(bits[i], tdi, read, read && i == |bits| - 1))
  }

  function LastOr(bits: seq<bool>, b: bool): bool {
    if bits == [] then b else bits[|bits| - 1]
  }

  function Held(b: bool, n: nat): (r: seq<bool>)
    ensures |r| == n
  {
    seq(n, _ => b)
  }

  // ------------------------------------------------------- interpreting bytes

  datatype Command =
    | DataCommand(tdi: seq<bool>, read: bool)
    | ReadCommand(count: nat)
    | TmsCommand(tms: seq<bool>, level: bool, sampled: bool)
    | PinsCommand(value: byte, direction: byte)
    | GetPinsCommand
    | DivisorCommand(divisor: nat)
    | DivideCommand(byFive: bool)
    | PhaseCommand(three: bool)
    | LoopbackOffCommand
    | FlushCommand

  function LengthField(lo: byte, hi: byte): (n: nat)
    ensures 1 <= n <= CHUNK
  {
    lo as nat + 256 * (hi as nat) + 1
  }

  /** The command at the head of p, by the opcodes and operands of the application note. */
  function Parse(p: seq<byte>): (r: Parsed<Command>)
    ensures r.Parsed? ==> 0 < r.used <= |p|
  {
    if p == [] then Malformed
    else if p[0] in {0x19, 0x39} then
      if |p| < 3 || |p| < 3 + LengthField(p[1], p[2]) then Malformed
      else
        var n := LengthField(p[1], p[2]);
        Parsed(DataCommand(AllBits(p[3..3 + n]), p[0] == 0x39), 3 + n)
    else if p[0] == 0x28 then
      if |p| < 3 then Malformed else Parsed(ReadCommand(8 * LengthField(p[1], p[2])), 3)
    else if p[0] in {0x1B, 0x3B} then
      if |p| < 3 || p[1] > 7 then Malformed
      else Parsed(DataCommand(Bits([p[2]], 0, p[1] as nat + 1), p[0] == 0x3B), 3)
    else if p[0] == 0x2A then
      if |p| < 2 || p[1] > 7 then Malformed else Parsed(ReadCommand(p[1] as nat + 1), 2)
    else if p[0] in {0x4B, 0x6B} then
      if |p| < 3 || p[1] > 6 then Malformed
      else Parsed(TmsCommand(TmsBits(p[2], p[1] as nat + 1), Bit(p[2], 7), p[0] == 0x6B), 3)
    else ParseSetting(p)
  }

  /** The commands that clock nothing. */
  function ParseSetting(p: seq<byte>): (r: Parsed<Command>)
    requires p != []
    ensures r.Parsed? ==> 0 < r.used <= |p|
  {
    if p[0] == 0x80 then
      if |p| < 3 then Malformed else Parsed(PinsCommand(p[1], p[2]), 3)
    else if p[0] == 0x81 then Parsed(GetPinsCommand, 1)
    else if p[0] == 0x85 then Parsed(LoopbackOffCommand, 1)
    else if p[0] == 0x86 then
      if |p| < 3 then Malformed else Parsed(DivisorCommand(p[1] as nat + 256 * (p[2] as nat)), 3)
    else if p[0] == 0x87 then Parsed(FlushCommand, 1)
    else if p[0] in {0x8A, 0x8B} then Parsed(DivideCommand(p[0] == 0x8B), 1)
    else if p[0] in {0x8C, 0x8D} then Parsed(PhaseCommand(p[0] == 0x8C), 1)
    else Malformed
  }

  function CommandEvents(p: Pins, c: Command): seq<Event> {
    match c
    case DataCommand(tdi, read) => DataEvents(p.tms, tdi, read)
    case ReadCommand(n) => DataEvents(p.tms, Held(p.tdi, n), true)
    case TmsCommand(tms, level, sampled) => TmsEvents(tms, level, sampled)
    case GetPinsCommand => [PinsRead]
    case _ => []
  }

  function CommandPins(p: Pins, c: Command): Pins {
    match c
    case DataCommand(tdi, _) => p.(tdi := LastOr(tdi, p.tdi))
    case TmsCommand(tms, level, _) => p.(tms := LastOr(tms, p.tms), tdi := level)
    case PinsCommand(v, d) => Pins(Bit(v, 3), Bit(v, 1), p.engine.(levels := v, direction := d))
    case DivisorCommand(n) => p.(engine := p.engine.(divisor := n))
    case DivideCommand(byFive) => p.(engine := p.engine.(dividesBy5 := byFive))
    case PhaseCommand(three) => p.(engine := p.engine.(threePhase := three))
    case LoopbackOffCommand => p.(engine := p.engine.(loopback := false))
    case _ => p
  }

  function AllEvents(p: Pins, cs: seq<Command>): seq<Event>
    decreases |cs|
  {
    if cs == [] then [] else CommandEvents(p, cs[0]) + AllEvents(CommandPins(p, cs[0]), cs[1..])
  }

  function AllPins(p: Pins, cs: seq<Command>): Pins
    decreases |cs|
  {
    if cs == [] then p else AllPins(CommandPins(p, cs[0]), cs[1..])
  }

  /** What the engine does with a buffer, starting with given pin levels; None when it is malformed. */
  function BufferEvents(p: Pins, buffer: seq<byte>): Option<seq<Event>> {
    match ParseAll(Parse, buffer)
    case None => None
    case Some(cs) => Some(AllEvents(p, cs))
  }

  /** The levels the engine holds afterwards. */
  function BufferPins(p: Pins, buffer: seq<byte>): Option<Pins> {
    match ParseAll(Parse, buffer)
    case None => None
    case Some(cs) => Some(AllPins(p, cs))
  }

  // ------------------------------------------------------------ builder calls

  datatype Call =
    | ClockTms(tmsBits: byte, count: int, level: bool, readTdo: bool)
    | ShiftOut(data: seq<byte>, bits: int)
    | ShiftIn(bits: int)
    | ShiftInOut(data: seq<byte>, bits: int)
    | SetLowBits(value: byte, direction: byte)
    | GetLowBits
    | SetClockDivisor(divisor: nat)
    | DisableClockDivide5
    | EnableClockDivide5
    | Enable3PhaseClocking
    | Disable3PhaseClocking
    | DisableLoopback
    | SendImmediate
  {
    ghost predicate Valid() {
      match this
      case ShiftOut(data, bits) => bits <= 8 * |data|
      case ShiftInOut(data, bits) => bits <= 8 * |data|
      case SetClockDivisor(d) => d <= 0xFFFF
      case _ => true
    }
  }

  /** What a call asks for: pulses, with no trace of commands, length fields or chunks. */
  function CallEvents(p: Pins, c: Call): seq<Event>
    requires c.Valid()
  {
    match c
    case ClockTms(b, n, level, read) => if 1 <= n <= 7 then TmsEvents(TmsBits(b, n), level, read) else []
    case ShiftOut(data, n) => if n <= 0 then [] else DataEvents(p.tms, Bits(data, 0, n), false)
    case ShiftIn(n) => if n <= 0 then [] else DataEvents(p.tms, Held(p.tdi, n), true)
    case ShiftInOut(data, n) => if n <= 0 then [] else DataEvents(p.tms, Bits(data, 0, n), true)
    case GetLowBits => [PinsRead]
    case _ => []
  }

  function CallPins(p: Pins, c: Call): Pins
    requires c.Valid()
  {
    match c
    case ClockTms(b, n, level, _) => if 1 <= n <= 7 then p.(tms := Bit(b, n - 1), tdi := level) else p
    case ShiftOut(data, n) => if n <= 0 then p else p.(tdi := GetBit(data, n - 1))
    case ShiftInOut(data, n) => if n <= 0 then p else p.(tdi := GetBit(data, n - 1))
    case SetLowBits(v, d) => Pins(Bit(v, 3), Bit(v, 1), p.engine.(levels := v, direction := d))
    case SetClockDivisor(d) => p.(engine := p.engine.(divisor := d))
    case DisableClockDivide5 => p.(engine := p.engine.(dividesBy5 := false))
    case EnableClockDivide5 => p.(engine := p.engine.(dividesBy5 := true))
    case Enable3PhaseClocking => p.(engine := p.engine.(threePhase := true))
    case Disable3PhaseClocking => p.(engine := p.engine.(threePhase := false))
    case DisableLoopback => p.(engine := p.engine.(loopback := false))
    case _ => p
  }

  ghost predicate AllValid(calls: seq<Call>) {
    forall i :: 0 <= i < |calls| ==> calls[i].Valid()
  }

  function CallsEvents(p: Pins, calls: seq<Call>): seq<Event>
    requires AllValid(calls)
    decreases |calls|
  {
    if calls == [] then [] else CallEvents(p, calls[0]) + CallsEvents(CallPins(p, calls[0]), calls[1..])
  }

  function CallsPins(p: Pins, calls: seq<Call>): Pins
    requires AllValid(calls)
    decreases |calls|
  {
    if calls == [] then p else CallsPins(CallPins(p, calls[0]), calls[1..])
  }

  function LowByte(n: nat): byte { ByteOf(n % 256) }

  function HighByte(n: nat): byte { ByteOf(n / 256 % 256) }

  function ChunkHeader(code: byte, n: nat): seq<byte>
    requires 1 <= n <= CHUNK
  {
    [code, LowByte(n - 1), HighByte(n - 1)]
  }

  function ByteChunks(code: byte, data: seq<byte>): seq<byte>
    decreases |data|
  {
    if data == [] then []
    else
      var n := if |data| > CHUNK then CHUNK else |data|;
      ChunkHeader(code, n) + data[..n] + ByteChunks(code, data[n..])
  }

  function ReadChunks(bytes: nat): seq<byte>
    decreases bytes
  {
    if bytes == 0 then []
    else
      var n := if bytes > CHUNK then CHUNK else bytes;
      ChunkHeader(READ_BYTES, n) + ReadChunks(bytes - n)
  }

  function RemainingBits(code: byte, data: seq<byte>, n: nat): seq<byte>
    requires n <= 8 * |data|
  {
    if n % 8 == 0 then [] else [code, ByteOf(n % 8 - 1), data[n / 8]]
  }

  function RemainingReads(n: nat): seq<byte> {
    if n % 8 == 0 then [] else [READ_BITS, ByteOf(n % 8 - 1)]
  }

  function Encode(c: Call): seq<byte>
    requires c.Valid()
  {
    match c
    case ClockTms(b, n, level, read) =>
      if n < 1 || n > 7 then []
      else [if read then TMS_RDWR else TMS_OUT, ByteOf(n - 1), (b & 0x7F) | (if level then 0x80 else 0)]
    case ShiftOut(data, n) =>
      if n <= 0 then [] else ByteChunks(WRITE_BYTES, data[..n / 8]) + RemainingBits(WRITE_BITS, data, n)
    case ShiftIn(n) =>
      if n <= 0 then [] else ReadChunks(n / 8) + RemainingReads(n)
    case ShiftInOut(data, n) =>
      if n <= 0 then [] else ByteChunks(RDWR_BYTES, data[..n / 8]) + RemainingBits(RDWR_BITS, data, n)
    case SetLowBits(v, d) => [SET_BITS_LOW, v, d]
    case GetLowBits => [GET_BITS_LOW]
    case SetClockDivisor(d) => [TCK_DIVISOR, LowByte(d), HighByte(d)]
    case DisableClockDivide5 => [DIS_DIV_5]
    case EnableClockDivide5 => [EN_DIV_5]
    case Enable3PhaseClocking => [EN_3_PHASE]
    case Disable3PhaseClocking => [DIS_3_PHASE]
    case DisableLoopback => [LOOPBACK_END]
    case SendImmediate => [SEND_IMMEDIATE]
  }

  function EncodeAll(calls: seq<Call>): seq<byte>
    requires AllValid(calls)
  {
    if calls == [] then [] else Encode(calls[0]) + EncodeAll(calls[1..])
  }

  /** Bytes a call makes the engine send back, as the builder counts them. */
  function Reads(c: Call): nat {
    match c
    case ClockTms(_, n, _, read) => if 1 <= n <= 7 && read then 1 else 0
    case ShiftIn(n) => if n <= 0 then 0 else n / 8 + (if n % 8 == 0 then 0 else 1)
    case ShiftInOut(_, n) => if n <= 0 then 0 else n / 8 + (if n % 8 == 0 then 0 else 1)
    case GetLowBits => 1
    case _ => 0
  }

  function ReadsAll(calls: seq<Call>): nat {
    if calls == [] then 0 else Reads(calls[0]) + ReadsAll(calls[1..])
  }

  // ------------------------------------------------ chunking changes nothing

  lemma DataEventsAppend(tms: bool, a: seq<bool>, b: seq<bool>, read: bool)
    requires |a| % 8 == 0
    ensures DataEvents(tms, a + b, read) == DataEvents(tms, a, read) + DataEvents(tms, b, read)
  {
    forall i | 0 <= i < |a + b|
      ensures DataEvents(tms, a + b, read)[i] == (DataEvents(tms, a, read) + DataEvents(tms, b, read))[i]
    {
      if i >= |a| {
        assert (i - |a|) % 8 == i % 8;
      } else if i == |a| - 1 {
        assert i % 8 == 7;
      }
    }
  }

  function AllBits(data: seq<byte>): (r: seq<bool>)
    ensures |r| == 8 * |data|
  {
    Bits(data, 0, 8 * |data|)
  }

  lemma AllBitsAppend(a: seq<byte>, b: seq<byte>)
    ensures AllBits(a + b) == AllBits(a) + AllBits(b)
  {
    forall k | 0 <= k < 8 * |a + b| ensures AllBits(a + b)[k] == (AllBits(a) + AllBits(b))[k] {
      assert AllBits(a + b)[k] == GetBit(a + b, k);
      if k >= 8 * |a| {
        var j := k - 8 * |a|;
        assert k / 8 == |a| + j / 8 && k % 8 == j % 8;
        assert (a + b)[k / 8] == b[j / 8];
        assert AllBits(b)[j] == GetBit(b, j);
      } else {
        assert AllBits(a)[k] == GetBit(a, k);
      }
    }
  }

  lemma LengthRoundTrip(n: nat)
    requires 1 <= n <= CHUNK
    ensures LengthField(LowByte(n - 1), HighByte(n - 1)) == n
  {
    var low, high := (n - 1) % 256, (n - 1) / 256;
    assert high < 256 && high % 256 == high && n - 1 == 256 * high + low;
  }

  lemma ParseFrame(p: seq<byte>, q: seq<byte>)
    requires Parse(p).Parsed?
    ensures 0 < Parse(p).used <= |p| && Parse(p + q) == Parse(p)
  {
    hide AllBits, Bits, TmsBits, Bit, LengthField, ParseSetting;
    assert forall i :: 0 <= i < |p| ==> (p + q)[i] == p[i];
    if p[0] in {0x19, 0x39} {
      var n := LengthField(p[1], p[2]);
      assert (p + q)[3..3 + n] == p[3..3 + n];
    }
    SettingFrame(p, q);
  }

  lemma SettingFrame(p: seq<byte>, q: seq<byte>)
    requires p != []
    ensures ParseSetting(p).Parsed? ==> ParseSetting(p + q) == ParseSetting(p)
  {
    assert forall i :: 0 <= i < |p| ==> (p + q)[i] == p[i];
  }

  lemma ParseIsSelfDelimiting()
    ensures SelfDelimiting(Parse)
  {
    hide Parse;
    var parse: seq<byte> -> Parsed<Command> := Parse;
    forall p, q | parse(p).Parsed? ensures 0 < parse(p).used <= |p| && parse(p + q) == parse(p) {
      assert parse(p) == Parse(p) && parse(p + q) == Parse(p + q);
      ParseFrame(p, q);
    }
    assert SelfDelimiting(parse);
  }

  lemma ParseHeader(code: byte, lo: byte, hi: byte, data: seq<byte>)
    requires code in {WRITE_BYTES, RDWR_BYTES} && LengthField(lo, hi) == |data|
    ensures Parse([code, lo, hi] + data) == Parsed(DataCommand(AllBits(data), code == RDWR_BYTES), 3 + |data|)
  {
    hide AllBits, Bits, TmsBits, Bit, LengthField;
    assert ([code, lo, hi] + data)[3..3 + |data|] == data;
  }

  lemma ParseChunk(code: byte, data: seq<byte>)
    requires code in {WRITE_BYTES, RDWR_BYTES} && 1 <= |data| <= CHUNK
    ensures Parse(ChunkHeader(code, |data|) + data)
      == Parsed(DataCommand(AllBits(data), code == RDWR_BYTES), 3 + |data|)
  {
    hide Parse, AllBits, LengthField;
    LengthRoundTrip(|data|);
    ParseHeader(code, LowByte(|data| - 1), HighByte(|data| - 1), data);
  }

  /** The engine makes `events` of a buffer whatever the pins held before, as far as `tms` and `tdi` say. */
  ghost predicate Does(buffer: seq<byte>, p: Pins, events: seq<Event>, p': Pins) {
    match ParseAll(Parse, buffer)
    case None => false
    case Some(cs) => AllEvents(p, cs) == events && AllPins(p, cs) == p'
  }

  lemma {:induction false} EventsAppend(p: Pins, a: seq<Command>, b: seq<Command>)
    ensures AllEvents(p, a + b) == AllEvents(p, a) + AllEvents(AllPins(p, a), b)
    ensures AllPins(p, a + b) == AllPins(AllPins(p, a), b)
    decreases |a|
  {
    hide CommandPins, CommandEvents;
    if a == [] {
      assert a + b == b;
    } else {
      assert (a + b)[0] == a[0] && (a + b)[1..] == a[1..] + b;
      EventsAppend(CommandPins(p, a[0]), a[1..], b);
    }
  }

  lemma DoesThen(x: seq<byte>, y: seq<byte>, p: Pins, ev1: seq<Event>, p1: Pins, ev2: seq<Event>, p2: Pins)
    requires Does(x, p, ev1, p1) && Does(y, p1, ev2, p2)
    ensures Does(x + y, p, ev1 + ev2, p2)
  {
    ParseIsSelfDelimiting();
    ParseAppend(Parse, x, y);
    EventsAppend(p, ParseAll(Parse, x).value, ParseAll(Parse, y).value);
  }

  lemma DoesNothing(p: Pins)
    ensures Does([], p, [], p)
  {
  }

  lemma DoesOne(buffer: seq<byte>, c: Command, p: Pins)
    requires buffer != [] && Parse(buffer) == Parsed(c, |buffer|)
    ensures Does(buffer, p, CommandEvents(p, c), CommandPins(p, c))
  {
    ParseSingle(Parse, buffer, c);
    assert [c][1..] == [];
    assert CommandEvents(p, c) + [] == CommandEvents(p, c);
  }

  /** The pulses of a data phase over whole bytes. */
  function PhaseEvents(p: Pins, data: seq<byte>, read: bool): seq<Event> {
    DataEvents(p.tms, AllBits(data), read)
  }

  function PhasePins(p: Pins, data: seq<byte>): Pins {
    p.(tdi := LastOr(AllBits(data), p.tdi))
  }

  lemma PhaseAppend(p: Pins, a: seq<byte>, b: seq<byte>, read: bool)
    ensures PhaseEvents(p, a + b, read) == PhaseEvents(p, a, read) + PhaseEvents(PhasePins(p, a), b, read)
    ensures PhasePins(p, a + b) == PhasePins(PhasePins(p, a), b)
  {
    AllBitsAppend(a, b);
    DataEventsAppend(p.tms, AllBits(a), AllBits(b), read);
  }

  lemma ByteChunkDoes(code: byte, data: seq<byte>, p: Pins)
    requires code in {WRITE_BYTES, RDWR_BYTES} && 1 <= |data| <= CHUNK
    ensures Does(ChunkHeader(code, |data|) + data, p, PhaseEvents(p, data, code == RDWR_BYTES), PhasePins(p, data))
  {
    hide Does, AllBits, Parse;
    ParseChunk(code, data);
    DoesOne(ChunkHeader(code, |data|) + data, DataCommand(AllBits(data), code == RDWR_BYTES), p);
  }

  lemma PhaseThen(x: seq<byte>, y: seq<byte>, p: Pins, a: seq<byte>, b: seq<byte>, read: bool)
    requires Does(x, p, PhaseEvents(p, a, read), PhasePins(p, a))
    requires Does(y, PhasePins(p, a), PhaseEvents(PhasePins(p, a), b, read), PhasePins(PhasePins(p, a), b))
    ensures Does(x + y, p, PhaseEvents(p, a + b, read), PhasePins(p, a + b))
  {
    hide Does, AllBits, PhaseEvents, PhasePins;
    PhaseAppend(p, a, b, read);
    DoesThen(x, y, p, PhaseEvents(p, a, read), PhasePins(p, a),
             PhaseEvents(PhasePins(p, a), b, read), PhasePins(PhasePins(p, a), b));
  }

  /** Byte mode in chunks of at most 65536 bytes is one uninterrupted run of pulses. */
  lemma {:induction false} ByteChunksDo(code: byte, data: seq<byte>, p: Pins)
    requires code in {WRITE_BYTES, RDWR_BYTES}
    ensures Does(ByteChunks(code, data), p, PhaseEvents(p, data, code == RDWR_BYTES), PhasePins(p, data))
    decreases |data|
  {
    if data == [] {
      assert PhaseEvents(p, data, code == RDWR_BYTES) == [];
    } else {
      hide Does, AllBits, PhaseEvents, PhasePins, ChunkHeader;
      var n := if |data| > CHUNK then CHUNK else |data|;
      var a, b := data[..n], data[n..];
      ByteChunkDoes(code, a, p);
      ByteChunksDo(code, b, PhasePins(p, a));
      PhaseThen(ChunkHeader(code, n) + a, ByteChunks(code, b), p, a, b, code == RDWR_BYTES);
      assert data == a + b;
    }
  }

  function ReadEvents(p: Pins, bytes: nat): seq<Event> {
    DataEvents(p.tms, Held(p.tdi, 8 * bytes), true)
  }

  lemma ReadAppend(p: Pins, n: nat, m: nat)
    ensures ReadEvents(p, n + m) == ReadEvents(p, n) + ReadEvents(p, m)
  {
    assert Held(p.tdi, 8 * n) + Held(p.tdi, 8 * m) == Held(p.tdi, 8 * (n + m));
    DataEventsAppend(p.tms, Held(p.tdi, 8 * n), Held(p.tdi, 8 * m), true);
  }

  lemma ParseReadHeader(lo: byte, hi: byte, n: nat)
    requires LengthField(lo, hi) == n
    ensures Parse([READ_BYTES, lo, hi]) == Parsed(ReadCommand(8 * n), 3)
  {
    hide AllBits, Bits, TmsBits, Bit, LengthField;
  }

  lemma ReadChunkDoes(n: nat, p: Pins)
    requires 1 <= n <= CHUNK
    ensures Does(ChunkHeader(READ_BYTES, n), p, ReadEvents(p, n), p)
  {
    hide Does, Parse, LengthField;
    LengthRoundTrip(n);
    ParseReadHeader(LowByte(n - 1), HighByte(n - 1), n);
    DoesOne(ChunkHeader(READ_BYTES, n), ReadCommand(8 * n), p);
  }

  lemma NoReads(p: Pins)
    ensures Does(ReadChunks(0), p, ReadEvents(p, 0), p)
  {
    DoesNothing(p);
    assert ReadEvents(p, 0) == [];
  }

  lemma {:induction false} ReadChunksDo(bytes: nat, p: Pins)
    ensures Does(ReadChunks(bytes), p, ReadEvents(p, bytes), p)
    decreases bytes
  {
    hide Does, ReadEvents, ChunkHeader;
    if bytes == 0 {
      NoReads(p);
    } else {
      var n := if bytes > CHUNK then CHUNK else bytes;
      ReadChunkDoes(n, p);
      ReadChunksDo(bytes - n, p);
      DoesThen(ChunkHeader(READ_BYTES, n), ReadChunks(bytes - n), p, ReadEvents(p, n), p, ReadEvents(p, bytes - n), p);
      ReadAppend(p, n, bytes - n);
    }
  }

  // ----------------------------------------------------- one call at a time

  lemma CountByte(k: nat)
    requires k < 8
    ensures ByteOf(k) as nat == k && ByteOf(k) <= 7 && (k < 7 ==> ByteOf(k) <= 6)
  {
  }

  lemma ParseRemaining(code: byte, count: byte, b: byte, r: nat)
    requires code in {WRITE_BITS, RDWR_BITS} && count <= 7 && r == count as nat + 1 <= 8
    ensures Parse([code, count, b]) == Parsed(DataCommand(Bits([b], 0, r), code == RDWR_BITS), 3)
  {
    hide AllBits, Bits, TmsBits, Bit, LengthField;
  }

  lemma BitsSplit(data: seq<byte>, n: nat)
    requires n <= 8 * |data|
    ensures Bits(data, 0, n) == AllBits(data[..n / 8]) + (if n % 8 == 0 then [] else Bits([data[n / 8]], 0, n % 8))
  {
    var tail := if n % 8 == 0 then [] else Bits([data[n / 8]], 0, n % 8);
    forall k | 0 <= k < n ensures Bits(data, 0, n)[k] == (AllBits(data[..n / 8]) + tail)[k] {
      assert Bits(data, 0, n)[k] == GetBit(data, k);
      if k < 8 * (n / 8) {
        assert AllBits(data[..n / 8])[k] == GetBit(data[..n / 8], k);
      } else {
        assert tail[k - 8 * (n / 8)] == Bit(data[n / 8], k % 8);
      }
    }
  }

  lemma RemainingDoes(code: byte, data: seq<byte>, n: nat, p: Pins)
    requires code in {WRITE_BITS, RDWR_BITS} && n <= 8 * |data| && n % 8 != 0
    ensures Does(RemainingBits(code, data, n), p, DataEvents(p.tms, Bits([data[n / 8]], 0, n % 8), code == RDWR_BITS),
                 p.(tdi := LastOr(Bits([data[n / 8]], 0, n % 8), p.tdi)))
  {
    hide Does, Parse;
    CountByte(n % 8 - 1);
    ParseRemaining(code, ByteOf(n % 8 - 1), data[n / 8], n % 8);
    DoesOne(RemainingBits(code, data, n), DataCommand(Bits([data[n / 8]], 0, n % 8), code == RDWR_BITS), p);
  }

  lemma ShiftDoes(bytesCode: byte, bitsCode: byte, data: seq<byte>, n: nat, p: Pins)
    requires (bytesCode, bitsCode) in {(WRITE_BYTES, WRITE_BITS), (RDWR_BYTES, RDWR_BITS)} && n <= 8 * |data|
    ensures Does(ByteChunks(bytesCode, data[..n / 8]) + RemainingBits(bitsCode, data, n), p,
                 DataEvents(p.tms, Bits(data, 0, n), bytesCode == RDWR_BYTES),
                 p.(tdi := LastOr(Bits(data, 0, n), p.tdi)))
  {
    hide Does, ByteChunks;
    var whole, read := data[..n / 8], bytesCode == RDWR_BYTES;
    BitsSplit(data, n);
    ByteChunksDo(bytesCode, whole, p);
    if n % 8 == 0 {
      assert ByteChunks(bytesCode, whole) + [] == ByteChunks(bytesCode, whole);
      assert AllBits(whole) + [] == AllBits(whole);
    } else {
      var tail := Bits([data[n / 8]], 0, n % 8);
      var p1 := PhasePins(p, whole);
      RemainingDoes(bitsCode, data, n, p1);
      DoesThen(ByteChunks(bytesCode, whole), RemainingBits(bitsCode, data, n), p, PhaseEvents(p, whole, read), p1,
               DataEvents(p1.tms, tail, read), p1.(tdi := LastOr(tail, p1.tdi)));
      DataEventsAppend(p.tms, AllBits(whole), tail, read);
    }
  }

  lemma ReadTailDoes(n: nat, p: Pins)
    requires n % 8 != 0
    ensures Does(RemainingReads(n), p, DataEvents(p.tms, Held(p.tdi, n % 8), true), p)
  {
    hide Does, Parse;
    CountByte(n % 8 - 1);
    ParseReadBits(ByteOf(n % 8 - 1), n % 8);
    DoesOne(RemainingReads(n), ReadCommand(n % 8), p);
  }

  lemma ParseReadBits(count: byte, r: nat)
    requires count <= 7 && r == count as nat + 1
    ensures Parse([READ_BITS, count]) == Parsed(ReadCommand(r), 2)
  {
    hide AllBits, Bits, TmsBits, Bit, LengthField;
  }

  lemma ShiftInDoes(n: nat, p: Pins)
    ensures Does(ReadChunks(n / 8) + RemainingReads(n), p, DataEvents(p.tms, Held(p.tdi, n), true), p)
  {
    hide Does, ReadChunks;
    ReadChunksDo(n / 8, p);
    if n % 8 == 0 {
      assert ReadChunks(n / 8) + [] == ReadChunks(n / 8);
    } else {
      ReadTailDoes(n, p);
      DoesThen(ReadChunks(n / 8), RemainingReads(n), p, ReadEvents(p, n / 8), p,
        DataEvents(p.tms, Held(p.tdi, n % 8), true), p);
      DataEventsAppend(p.tms, Held(p.tdi, 8 * (n / 8)), Held(p.tdi, n % 8), true);
      assert Held(p.tdi, 8 * (n / 8)) + Held(p.tdi, n % 8) == Held(p.tdi, n);
    }
  }

  function TmsByte(b: byte, level: bool): byte {
    (b & 0x7F) | (if level then 0x80 else 0)
  }

  lemma TmsByteBits(b: byte, level: bool, i: nat)
    requires i < 8
    ensures Bit(TmsByte(b, level), i) == if i == 7 then level else Bit(b, i)
  {
    assert i in {0, 1, 2, 3, 4, 5, 6, 7};
  }

  lemma TmsByteCarries(b: byte, level: bool, n: nat)
    requires n <= 7
    ensures TmsBits(TmsByte(b, level), n) == TmsBits(b, n) && Bit(TmsByte(b, level), 7) == level
  {
    forall i | 0 <= i < n ensures TmsBits(TmsByte(b, level), n)[i] == TmsBits(b, n)[i] {
      TmsByteBits(b, level, i);
    }
    TmsByteBits(b, level, 7);
  }

  lemma ParseTms(code: byte, count: byte, b: byte, n: nat)
    requires code in {TMS_OUT, TMS_RDWR} && count <= 6 && n == count as nat + 1
    ensures Parse([code, count, b]) == Parsed(TmsCommand(TmsBits(b, n), Bit(b, 7), code == TMS_RDWR), 3)
  {
    hide AllBits, Bits, TmsBits, Bit, LengthField;
  }

  lemma ClockTmsDoes(b: byte, n: nat, level: bool, read: bool, p: Pins)
    requires 1 <= n <= 7
    ensures Does(Encode(ClockTms(b, n, level, read)), p, TmsEvents(TmsBits(b, n), level, read),
                 p.(tms := Bit(b, n - 1), tdi := level))
  {
    hide Does, Parse, TmsByte, Bit, TmsBits, Encode, TmsEvents;
    CountByte(n - 1);
    TmsByteCarries(b, level, n);
    var code, d := if read then TMS_RDWR else TMS_OUT, TmsByte(b, level);
    ParseTms(code, ByteOf(n - 1), d, n);
    EncodeTms(b, n, level, read);
    DoesOne([code, ByteOf(n - 1), d], TmsCommand(TmsBits(b, n), level, read), p);
    LastTmsBit(b, n);
  }

  lemma LastTmsBit(b: byte, n: nat)
    requires 1 <= n <= 7
    ensures |TmsBits(b, n)| == n && TmsBits(b, n)[n - 1] == Bit(b, n - 1)
  {
    hide Bit;
  }

  lemma EncodeTms(b: byte, n: nat, level: bool, read: bool)
    requires 1 <= n <= 7
    ensures Encode(ClockTms(b, n, level, read))
      == [if read then TMS_RDWR else TMS_OUT, ByteOf(n - 1), TmsByte(b, level)]
  {
  }

  lemma EncodeTmsCount(b: byte, n: int, level: bool, read: bool)
    ensures Encode(ClockTms(b, n, level, read)) ==
      if 1 <= n <= 7 then [if read then TMS_RDWR else TMS_OUT, ByteOf(n - 1), TmsByte(b, level)] else []
  {
    if 1 <= n <= 7 { EncodeTms(b, n, level, read); }
  }

  lemma ParseOthers(a: byte, b: byte)
    ensures Parse([SET_BITS_LOW, a, b]) == Parsed(PinsCommand(a, b), 3)
    ensures Parse([GET_BITS_LOW]) == Parsed(GetPinsCommand, 1)
    ensures Parse([TCK_DIVISOR, a, b]) == Parsed(DivisorCommand(a as nat + 256 * (b as nat)), 3)
    ensures Parse([DIS_DIV_5]) == Parsed(DivideCommand(false), 1) && Parse([EN_DIV_5]) == Parsed(DivideCommand(true), 1)
    ensures Parse([DIS_3_PHASE]) == Parsed(PhaseCommand(false), 1)
    ensures Parse([EN_3_PHASE]) == Parsed(PhaseCommand(true), 1)
    ensures Parse([LOOPBACK_END]) == Parsed(LoopbackOffCommand, 1) && Parse([SEND_IMMEDIATE]) == Parsed(FlushCommand, 1)
  {
    hide AllBits, Bits, TmsBits, Bit, LengthField;
  }

  /** The divisor's two bytes, low byte first, add up to it. */
  lemma DivisorBytes(d: nat)
    requires d <= 0xFFFF
    ensures LowByte(d) as nat + 256 * (HighByte(d) as nat) == d
  {
    assert d == d % 256 + 256 * (d / 256) && d / 256 % 256 == d / 256;
  }

  lemma LastOfBits(data: seq<byte>, n: nat, b: bool)
    requires 0 < n <= 8 * |data|
    ensures LastOr(Bits(data, 0, n), b) == GetBit(data, n - 1)
  {
  }

  /** The calls that clock nothing. */
  lemma OtherCallDoes(c: Call, p: Pins)
    requires c.Valid() && !c.ClockTms? && !c.ShiftOut? && !c.ShiftIn? && !c.ShiftInOut?
    ensures Does(Encode(c), p, CallEvents(p, c), CallPins(p, c))
  {
    hide Does, Parse, ByteChunks, ReadChunks, RemainingBits, RemainingReads, TmsBits, Bit, TmsEvents, DataEvents;
    ParseOthers(0, 0);
    match c {
      case SetLowBits(v, d) =>
        ParseOthers(v, d);
        DoesOne(Encode(c), PinsCommand(v, d), p);
      case GetLowBits => DoesOne(Encode(c), GetPinsCommand, p);
      case SetClockDivisor(d) =>
        ParseOthers(Encode(c)[1], Encode(c)[2]);
        DivisorBytes(d);
        DoesOne(Encode(c), DivisorCommand(d), p);
      case DisableClockDivide5 => DoesOne(Encode(c), DivideCommand(false), p);
      case EnableClockDivide5 => DoesOne(Encode(c), DivideCommand(true), p);
      case Enable3PhaseClocking => DoesOne(Encode(c), PhaseCommand(true), p);
      case Disable3PhaseClocking => DoesOne(Encode(c), PhaseCommand(false), p);
      case DisableLoopback => DoesOne(Encode(c), LoopbackOffCommand, p);
      case SendImmediate => DoesOne(Encode(c), FlushCommand, p);
    }
  }

  /** The bytes of one builder call make exactly the pulses the call asks for. */
  lemma CallDoes(c: Call, p: Pins)
    requires c.Valid()
    ensures Does(Encode(c), p, CallEvents(p, c), CallPins(p, c))
  {
    hide Does, Parse, ByteChunks, ReadChunks, RemainingBits, RemainingReads, TmsBits, Bit, TmsByte, TmsEvents,
         DataEvents;
    match c {
      case ClockTms(b, n, level, read) =>
        if 1 <= n <= 7 { ClockTmsDoes(b, n, level, read, p); } else { DoesNothing(p); }
      case ShiftOut(data, n) =>
        if n <= 0 {
          DoesNothing(p);
        } else {
          ShiftDoes(WRITE_BYTES, WRITE_BITS, data, n, p);
          LastOfBits(data, n, p.tdi);
        }
      case ShiftIn(n) =>
        if n <= 0 { DoesNothing(p); } else { ShiftInDoes(n, p); }
      case ShiftInOut(data, n) =>
        if n <= 0 { DoesNothing(p); } else { ShiftDoes(RDWR_BYTES, RDWR_BITS, data, n, p); LastOfBits(data, n, p.tdi); }
      case _ => OtherCallDoes(c, p);
    }
  }

  /** Any run of builder calls compiles to bytes that make the calls' pulses, in order, nothing lost or added. */
  lemma {:induction false} CallsDo(calls: seq<Call>, p: Pins)
    requires AllValid(calls)
    ensures Does(EncodeAll(calls), p, CallsEvents(p, calls), CallsPins(p, calls))
    decreases |calls|
  {
    hide Does, Encode, CallEvents, CallPins;
    if calls == [] {
      DoesNothing(p);
    } else {
      CallDoes(calls[0], p);
      CallsDo(calls[1..], CallPins(p, calls[0]));
      DoesThen(Encode(calls[0]), EncodeAll(calls[1..]), p, CallEvents(p, calls[0]), CallPins(p, calls[0]),
               CallsEvents(CallPins(p, calls[0]), calls[1..]), CallsPins(CallPins(p, calls[0]), calls[1..]));
    }
  }

  /** No call of the list changes the setting that c changes. */
  ghost predicate Lasts(c: Call, calls: seq<Call>) {
    forall i :: 0 <= i < |calls| ==>
      && (c.SetClockDivisor? ==> !calls[i].SetClockDivisor?)
      && (c in {DisableClockDivide5, EnableClockDivide5} ==> calls[i] !in {DisableClockDivide5, EnableClockDivide5})
      && (c in {Enable3PhaseClocking, Disable3PhaseClocking} ==>
           calls[i] !in {Enable3PhaseClocking, Disable3PhaseClocking})
      && (c.SetLowBits? ==> !calls[i].SetLowBits?)
  }

  /** What a call asks of the engine. */
  ghost predicate Obeys(e: Engine, c: Call) {
    && (c.SetClockDivisor? ==> e.divisor == c.divisor)
    && (c == DisableClockDivide5 ==> !e.dividesBy5) && (c == EnableClockDivide5 ==> e.dividesBy5)
    && (c == Disable3PhaseClocking ==> !e.threePhase) && (c == Enable3PhaseClocking ==> e.threePhase)
    && (c == DisableLoopback ==> !e.loopback)
    && (c.SetLowBits? ==> e.levels == c.value && e.direction == c.direction)
  }

  lemma {:induction false} ObeysStill(c: Call, calls: seq<Call>, p: Pins)
    requires AllValid(calls) && Lasts(c, calls) && Obeys(p.engine, c)
    ensures Obeys(CallsPins(p, calls).engine, c)
    decreases |calls|
  {
    hide CallPins, Obeys;
    if calls != [] {
      assert Lasts(c, calls[1..]);
      ObeysNext(c, calls[0], p);
      ObeysStill(c, calls[1..], CallPins(p, calls[0]));
    }
  }

  lemma ObeysNext(c: Call, next: Call, p: Pins)
    requires next.Valid() && Lasts(c, [next]) && Obeys(p.engine, c)
    ensures Obeys(CallPins(p, next).engine, c)
  {
    hide Bit, GetBit;
    assert [next][0] == next;
  }

  lemma ObeysAtOnce(c: Call, p: Pins)
    requires c.Valid()
    ensures Obeys(CallPins(p, c).engine, c)
  {
    hide Bit, GetBit;
  }

  /** The engine ends up set as the last call for each setting asked, whatever else was queued around it. */
  lemma LastSettingWins(before: seq<Call>, c: Call, after: seq<Call>, p: Pins)
    requires AllValid(before + [c] + after) && Lasts(c, after)
    ensures BufferPins(p, EncodeAll(before + [c] + after)).Some?
    ensures Obeys(BufferPins(p, EncodeAll(before + [c] + after)).value.engine, c)
  {
    hide CallPins, Obeys, Encode, Lasts, Call.Valid;
    var calls := before + [c] + after;
    ValidParts(before, c, after);
    CallsDo(calls, p);
    assert calls == before + ([c] + after);
    PinsAppend(p, before, [c] + after);
    var q := CallsPins(p, before);
    assert ([c] + after)[1..] == after;
    ObeysAtOnce(c, q);
    ObeysStill(c, after, CallPins(q, c));
  }

  lemma ValidParts(before: seq<Call>, c: Call, after: seq<Call>)
    requires AllValid(before + [c] + after)
    ensures AllValid(before) && c.Valid() && AllValid(after) && AllValid([c] + after)
  {
    hide Call.Valid;
    var calls := before + [c] + after;
    assert calls[|before|] == c;
    forall i | 0 <= i < |after| ensures after[i].Valid() { assert calls[|before| + 1 + i] == after[i]; }
    forall i | 0 <= i < |before| ensures before[i].Valid() { assert calls[i] == before[i]; }
  }

  lemma {:induction false} PinsAppend(p: Pins, a: seq<Call>, b: seq<Call>)
    requires AllValid(a) && AllValid(b)
    ensures AllValid(a + b) && CallsPins(p, a + b) == CallsPins(CallsPins(p, a), b)
    decreases |a|
  {
    hide CallPins;
    if a == [] {
      assert a + b == b;
    } else {
      assert (a + b)[1..] == a[1..] + b;
      PinsAppend(CallPins(p, a[0]), a[1..], b);
    }
  }

  /** Bytes the engine sends to the host. */
  function Replies(events: seq<Event>): nat {
    if events == [] then 0
    else (if events[0].PinsRead? || events[0].emit then 1 else 0) + Replies(events[1..])
  }

  lemma {:induction false} RepliesAppend(a: seq<Event>, b: seq<Event>)
    ensures Replies(a + b) == Replies(a) + Replies(b)
  {
    if a == [] {
      assert a + b == b;
    } else {
      assert (a + b)[1..] == a[1..] + b;
      RepliesAppend(a[1..], b);
    }
  }

  lemma {:induction false} DataReplies(tms: bool, bits: seq<bool>, read: bool)
    ensures Replies(DataEvents(tms, bits, read)) == if read then |bits| / 8 + (if |bits| % 8 == 0 then 0 else 1) else 0
    decreases |bits|
  {
    var ev := DataEvents(tms, bits, read);
    if |bits| < 8 {
      if bits != [] {
        NoRepliesBut(ev, read);
      }
    } else {
      var a, b := bits[..8], bits[8..];
      assert bits == a + b;
      DataEventsAppend(tms, a, b, read);
      RepliesAppend(DataEvents(tms, a, read), DataEvents(tms, b, read));
      NoRepliesBut(DataEvents(tms, a, read), read);
      DataReplies(tms, b, read);
    }
  }

  lemma {:induction false} NoRepliesBut(ev: seq<Event>, read: bool)
    requires ev != [] && forall i :: 0 <= i < |ev| ==> ev[i].Pulse? && ev[i].emit == (read && i == |ev| - 1)
    ensures Replies(ev) == if read then 1 else 0
  {
    if |ev| > 1 {
      NoRepliesBut(ev[1..], read);
    }
  }

  lemma CallReplies(p: Pins, c: Call)
    requires c.Valid()
    ensures Replies(CallEvents(p, c)) == Reads(c)
  {
    match c {
      case ClockTms(b, n, level, read) => if 1 <= n <= 7 { NoRepliesBut(TmsEvents(TmsBits(b, n), level, read), read); }
      case ShiftOut(data, n) => if n > 0 { DataReplies(p.tms, Bits(data, 0, n), false); }
      case ShiftIn(n) => if n > 0 { DataReplies(p.tms, Held(p.tdi, n), true); }
      case ShiftInOut(data, n) => if n > 0 { DataReplies(p.tms, Bits(data, 0, n), true); }
      case GetLowBits => assert [PinsRead][1..] == [];
      case _ =>
    }
  }

  /** The builder's read counter is the number of bytes the engine sends back. */
  lemma {:induction false} CallsReply(p: Pins, calls: seq<Call>)
    requires AllValid(calls)
    ensures Replies(CallsEvents(p, calls)) == ReadsAll(calls)
    decreases |calls|
  {
    if calls != [] {
      CallReplies(p, calls[0]);
      CallsReply(CallPins(p, calls[0]), calls[1..]);
      RepliesAppend(CallEvents(p, calls[0]), CallsEvents(CallPins(p, calls[0]), calls[1..]));
    }
  }

  lemma {:induction false} EncodeSnoc(calls: seq<Call>, c: Call)
    requires AllValid(calls) && c.Valid()
    ensures AllValid(calls + [c])
    ensures EncodeAll(calls + [c]) == EncodeAll(calls) + Encode(c)
    ensures ReadsAll(calls + [c]) == ReadsAll(calls) + Reads(c)
    decreases |calls|
  {
    hide Encode, Reads;
    assert AllValid(calls + [c]);
    if calls == [] {
      assert calls + [c] == [c] && [c][1..] == [];
    } else {
      assert (calls + [c])[1..] == calls[1..] + [c];
      EncodeSnoc(calls[1..], c);
    }
  }

  lemma ChunkStep(code: byte, data: seq<byte>, offset: nat, chunk: nat)
    requires offset < |data| && chunk == (if |data| - offset > CHUNK then CHUNK else |data| - offset)
    ensures ByteChunks(code, data[offset..])
      == ChunkHeader(code, chunk) + data[offset..offset + chunk] + ByteChunks(code, data[offset + chunk..])
  {
    hide ChunkHeader;
    var rest := data[offset..];
    assert rest[..chunk] == data[offset..offset + chunk] && rest[chunk..] == data[offset + chunk..];
  }

  lemma NoChunks(code: byte, data: seq<byte>)
    requires data == []
    ensures ByteChunks(code, data) == [] && ReadChunks(0) == []
  {
  }

  lemma ReadChunkStep(fullBytes: nat, chunk: nat)
    requires fullBytes > 0 && chunk == (if fullBytes > CHUNK then CHUNK else fullBytes)
    ensures ReadChunks(fullBytes) == ChunkHeader(READ_BYTES, chunk) + ReadChunks(fullBytes - chunk)
  {
    hide ChunkHeader;
  }

  lemma Regroup(was: seq<byte>, h: seq<byte>, d: seq<byte>, rest: seq<byte>)
    ensures ((was + h) + d) + rest == was + (h + d + rest)
  {
  }

  lemma NoReplyBytes(c: Call)
    requires c.SetClockDivisor?
    ensures Reads(c) == 0
  {
  }

  // ---------------------------------------------------- the command buffer

  class MpsseCommandBuffer {
    var buffer: seq<byte>
    var expectedReadBytes: nat
    ghost var calls: seq<Call>

    ghost predicate Valid()
      reads this
    {
      AllValid(calls) && buffer == EncodeAll(calls) && expectedReadBytes == ReadsAll(calls)
    }

    constructor ()
      ensures Valid() && calls == []
    {
      buffer, expectedReadBytes, calls := [], 0, [];
    }

    method Clear()
      modifies this
      ensures Valid() && calls == []
    {
      buffer, expectedReadBytes, calls := [], 0, [];
    }

    ghost method Record(c: Call)
      requires c.Valid() && AllValid(calls)
      requires buffer == EncodeAll(calls) + Encode(c) && expectedReadBytes == ReadsAll(calls) + Reads(c)
      modifies this`calls
      ensures Valid() && calls == old(calls) + [c]
    {
      EncodeSnoc(calls, c);
      calls := calls + [c];
    }

    /** Counts outside 1..7 append nothing. */
    method ClockTms(tmsBits: byte, bitCount: int, tdiValue: bool, readTdo: bool)
      requires Valid()
      modifies this
      ensures Valid() && calls == old(calls) + [Call.ClockTms(tmsBits, bitCount, tdiValue, readTdo)]
    {
      hide EncodeAll, ReadsAll, Encode;
      EncodeTmsCount(tmsBits, bitCount, tdiValue, readTdo);
      if 1 <= bitCount <= 7 {
        buffer := buffer + [if readTdo then TMS_RDWR else TMS_OUT];
        buffer := buffer + [ByteOf(bitCount - 1)];
        buffer := buffer + [(tmsBits & 0x7F) | (if tdiValue then 0x80 else 0)];
        if readTdo {
          expectedReadBytes := expectedReadBytes + 1;
        }
        assert buffer == EncodeAll(calls) + Encode(Call.ClockTms(tmsBits, bitCount, tdiValue, readTdo));
      } else {
        assert buffer == EncodeAll(calls) + [];
      }
      Record(Call.ClockTms(tmsBits, bitCount, tdiValue, readTdo));
    }

    /** The byte-mode loop shared by ShiftOut and ShiftInOut. */
    method AppendChunks(code: byte, data: seq<byte>)
      modifies this`buffer
      ensures buffer == old(buffer) + ByteChunks(code, data)
    {
      hide ChunkHeader, ByteChunks;
      var offset := 0;
      assert data[0..] == data;
      while offset < |data|
        invariant 0 <= offset <= |data|
        invariant buffer + ByteChunks(code, data[offset..]) == old(buffer) + ByteChunks(code, data)
      {
        var fullBytes := |data| - offset;
        var chunk := if fullBytes > CHUNK then CHUNK else fullBytes;
        ChunkStep(code, data, offset, chunk);
        Regroup(buffer, ChunkHeader(code, chunk), data[offset..offset + chunk],
          ByteChunks(code, data[offset + chunk..]));
        buffer := buffer + ChunkHeader(code, chunk);
        buffer := buffer + data[offset..offset + chunk];
        offset := offset + chunk;
      }
      NoChunks(code, data[offset..]);
      assert buffer + [] == buffer;
    }

    method ShiftOut(data: seq<byte>, bitCount: int)
      requires Valid() && bitCount <= 8 * |data|
      modifies this
      ensures Valid() && calls == old(calls) + [Call.ShiftOut(data, bitCount)]
    {
      hide ByteChunks, EncodeAll, ReadsAll, ByteOf;
      if bitCount > 0 {
        AppendChunks(WRITE_BYTES, data[..bitCount / 8]);
        var remaining := bitCount % 8;
        if remaining > 0 {
          buffer := buffer + [WRITE_BITS, ByteOf(remaining - 1), data[bitCount / 8]];
        }
        assert buffer == EncodeAll(calls)
          + (ByteChunks(WRITE_BYTES, data[..bitCount / 8]) + RemainingBits(WRITE_BITS, data, bitCount));
      } else {
        assert buffer == EncodeAll(calls) + [];
      }
      Record(Call.ShiftOut(data, bitCount));
    }

    method ShiftInOut(data: seq<byte>, bitCount: int)
      requires Valid() && bitCount <= 8 * |data|
      modifies this
      ensures Valid() && calls == old(calls) + [Call.ShiftInOut(data, bitCount)]
    {
      hide ByteChunks, EncodeAll, ReadsAll, ByteOf;
      if bitCount > 0 {
        AppendChunks(RDWR_BYTES, data[..bitCount / 8]);
        expectedReadBytes := expectedReadBytes + bitCount / 8;
        var remaining := bitCount % 8;
        if remaining > 0 {
          buffer := buffer + [RDWR_BITS, ByteOf(remaining - 1), data[bitCount / 8]];
          expectedReadBytes := expectedReadBytes + 1;
        }
        assert buffer == EncodeAll(calls)
          + (ByteChunks(RDWR_BYTES, data[..bitCount / 8]) + RemainingBits(RDWR_BITS, data, bitCount));
      } else {
        assert buffer == EncodeAll(calls) + [];
      }
      Record(Call.ShiftInOut(data, bitCount));
    }

    method ShiftIn(bitCount: int)
      requires Valid()
      modifies this
      ensures Valid() && calls == old(calls) + [Call.ShiftIn(bitCount)]
    {
      hide ChunkHeader, ReadChunks, EncodeAll, ReadsAll, ByteOf;
      if bitCount > 0 {
        var fullBytes := bitCount / 8;
        while fullBytes > 0
          invariant 0 <= fullBytes
          invariant calls == old(calls)
          invariant buffer + ReadChunks(fullBytes) == old(buffer) + ReadChunks(bitCount / 8)
          invariant expectedReadBytes + fullBytes == old(expectedReadBytes) + bitCount / 8
        {
          var chunk := if fullBytes > CHUNK then CHUNK else fullBytes;
          ReadChunkStep(fullBytes, chunk);
          Regroup(buffer, ChunkHeader(READ_BYTES, chunk), [], ReadChunks(fullBytes - chunk));
          assert ChunkHeader(READ_BYTES, chunk) + [] == ChunkHeader(READ_BYTES, chunk);
          assert (buffer + ChunkHeader(READ_BYTES, chunk)) + [] == buffer + ChunkHeader(READ_BYTES, chunk);
          buffer := buffer + ChunkHeader(READ_BYTES, chunk);
          expectedReadBytes := expectedReadBytes + chunk;
          fullBytes := fullBytes - chunk;
        }
        NoChunks(READ_BYTES, []);
        assert buffer + [] == buffer;
        var remaining := bitCount % 8;
        if remaining > 0 {
          buffer := buffer + [READ_BITS, ByteOf(remaining - 1)];
          expectedReadBytes := expectedReadBytes + 1;
        }
        assert buffer == EncodeAll(calls) + (ReadChunks(bitCount / 8) + RemainingReads(bitCount));
      } else {
        assert buffer == EncodeAll(calls) + [];
      }
      Record(Call.ShiftIn(bitCount));
    }

    method SetLowBits(value: byte, direction: byte)
      requires Valid()
      modifies this
      ensures Valid() && calls == old(calls) + [Call.SetLowBits(value, direction)]
    {
      hide EncodeAll, ReadsAll;
      buffer := buffer + [SET_BITS_LOW];
      buffer := buffer + [value];
      buffer := buffer + [direction];
      assert buffer == EncodeAll(calls) + [SET_BITS_LOW, value, direction];
      Record(Call.SetLowBits(value, direction));
    }

    method GetLowBits()
      requires Valid()
      modifies this
      ensures Valid() && calls == old(calls) + [Call.GetLowBits]
    {
      hide EncodeAll, ReadsAll;
      buffer := buffer + [GET_BITS_LOW];
      expectedReadBytes := expectedReadBytes + 1;
      Record(Call.GetLowBits);
    }

    method SetClockDivisor(d: nat)
      requires Valid() && d <= 0xFFFF
      modifies this
      ensures Valid() && calls == old(calls) + [Call.SetClockDivisor(d)]
    {
      hide EncodeAll, ReadsAll, Encode;
      AppendDivisor(d);
      NoReplyBytes(Call.SetClockDivisor(d));
      Record(Call.SetClockDivisor(d));
    }

    /** A switch or the flush: one byte, no reply. */
    method AppendSwitch(code: byte, ghost c: Call)
      requires Valid() && c.Valid() && Encode(c) == [code] && Reads(c) == 0
      modifies this
      ensures Valid() && calls == old(calls) + [c]
    {
      hide EncodeAll, ReadsAll, Encode, Reads;
      buffer := buffer + [code];
      Record(c);
    }

    method DisableClockDivide5()
      requires Valid()
      modifies this
      ensures Valid() && calls == old(calls) + [Call.DisableClockDivide5]
    {
      AppendSwitch(DIS_DIV_5, Call.DisableClockDivide5);
    }

    method EnableClockDivide5()
      requires Valid()
      modifies this
      ensures Valid() && calls == old(calls) + [Call.EnableClockDivide5]
    {
      AppendSwitch(EN_DIV_5, Call.EnableClockDivide5);
    }

    method Enable3PhaseClocking()
      requires Valid()
      modifies this
      ensures Valid() && calls == old(calls) + [Call.Enable3PhaseClocking]
    {
      AppendSwitch(EN_3_PHASE, Call.Enable3PhaseClocking);
    }

    method Disable3PhaseClocking()
      requires Valid()
      modifies this
      ensures Valid() && calls == old(calls) + [Call.Disable3PhaseClocking]
    {
      AppendSwitch(DIS_3_PHASE, Call.Disable3PhaseClocking);
    }

    method DisableLoopback()
      requires Valid()
      modifies this
      ensures Valid() && calls == old(calls) + [Call.DisableLoopback]
    {
      AppendSwitch(LOOPBACK_END, Call.DisableLoopback);
    }

    method SendImmediate()
      requires Valid()
      modifies this
      ensures Valid() && calls == old(calls) + [Call.SendImmediate]
    {
      AppendSwitch(SEND_IMMEDIATE, Call.SendImmediate);
    }

    method AppendDivisor(d: nat)
      requires d <= 0xFFFF
      modifies this`buffer
      ensures buffer == old(buffer) + Encode(Call.SetClockDivisor(d))
    {
      buffer := buffer + [TCK_DIVISOR, LowByte(d), HighByte(d)];
    }

    /** The bytes accumulated by any sequence of builder calls, run from any pin levels, make exactly
        the pulses asked for and send back exactly the expected number of bytes. */
    lemma Compiles(p: Pins)
      requires Valid()
      ensures BufferEvents(p, buffer) == Some(CallsEvents(p, calls))
      ensures BufferPins(p, buffer) == Some(CallsPins(p, calls))
      ensures Replies(CallsEvents(p, calls)) == expectedReadBytes
    {
      CallsDo(calls, p);
      CallsReply(p, calls);
    }
  }
}
