/** Chain discovery: after a reset every device drives its 32-bit IDCODE or one BYPASS zero
    (IEEE 1149.1-2001, clauses 10 and 12), and the host parses the concatenation. */
module Discovery {
  import opened Bytes
  import opened Tap
  import opened Hardware
  import opened TapControl

  const ALL_ONES := 0xFFFF_FFFF

  /** A device as discovery sees it. */
  datatype Found = Bypass | Id(code: nat)

  function Emits(f: Found): seq<bool> {
    match f
    case Bypass => [false]
    case Id(code) => NatBits(code, 32)
  }

  /** The reset-time TDO stream of a device list, TDO-side device first. */
  function Stream(list: seq<Found>): seq<bool> {
    if list == [] then [] else Emits(list[0]) + Stream(list[1..])
  }

  function Window(bits: seq<bool>): seq<bool> {
    if |bits| < 32 then bits else bits[..32]
  }

  /** The device list the host reads out of a stream. */
  function Parse(bits: seq<bool>): seq<Found>
    decreases |bits|
  {
    if bits == [] then []
    else if !bits[0] then (if true !in Window(bits) then [] else [Bypass] + Parse(bits[1..]))
    else
      var code := BitsNat(Window(bits));
      if code == ALL_ONES then [] else [Id(code)] + Parse(if |bits| < 32 then [] else bits[32..])
  }

  /** An IDCODE as the standard has it: 32 bits, bit 0 set. */
  ghost predicate Standard(list: seq<Found>) {
    forall i :: 0 <= i < |list| && list[i].Id? ==> list[i].code % 2 == 1 && list[i].code <= 0xFFFF_FFFF
  }

  function LeadingBypasses(list: seq<Found>): (r: nat)
    ensures r <= |list|
  {
    if list == [] || list[0].Id? then 0 else 1 + LeadingBypasses(list[1..])
  }

  /** No IDCODE is all ones, and every BYPASS has an IDCODE fewer than 32 places behind it. */
  ghost predicate Recoverable(list: seq<Found>) {
    if list == [] then true
    else if list[0].Id? then list[0].code != 0xFFFF_FFFF && Recoverable(list[1..])
    else LeadingBypasses(list) < 32 && LeadingBypasses(list) < |list| && Recoverable(list[1..])
  }

  /** Whether the first `n` bits of a padded stream contain a one. */
  lemma {:induction false} OneWithin(list: seq<Found>, pad: nat, n: nat)
    requires Standard(list) && n <= |Stream(list)| + pad
    ensures true in (Stream(list) + Falses(pad))[..n] <== LeadingBypasses(list) < |list| && LeadingBypasses(list) < n
    ensures true in (Stream(list) + Falses(pad))[..n] ==> LeadingBypasses(list) < |list| && LeadingBypasses(list) < n
    decreases |list|
  {
    var bits := Stream(list) + Falses(pad);
    if list == [] {
    } else if list[0].Id? {
      assert bits[0] by { assert NatBits(list[0].code, 32)[0]; }
      if n > 0 { assert bits[..n][0]; }
    } else {
      var rest := Stream(list[1..]) + Falses(pad);
      assert bits == [false] + rest;
      if n > 0 {
        OneWithin(list[1..], pad, n - 1);
        assert bits[..n] == [false] + rest[..n - 1];
        assert true in bits[..n] <==> true in rest[..n - 1];
      }
    }
  }

  lemma ConsId(code: nat, rest: seq<bool>)
    requires code % 2 == 1 && code <= 0xFFFF_FFFF
    ensures var bits := NatBits(code, 32) + rest;
      |bits| >= 32 && bits[0] && Window(bits) == NatBits(code, 32) && BitsNat(Window(bits)) == code
        && bits[32..] == rest
  {
    assert NatBits(code, 32)[0];
    BitsNatOfNatBits(code, 32);
    KnownPowers();
    DivModIs(code, Pow2(32), 0, code);
  }

  lemma {:induction false} ZerosParse(n: nat)
    ensures Parse(Falses(n)) == []
  {
  }

  /** Parsing the stream of a chain, padded with zeros, gives back the chain if and only if it is recoverable. */
  lemma {:induction false} ParseInvertsStream(list: seq<Found>, pad: nat)
    requires Standard(list)
    ensures Parse(Stream(list) + Falses(pad)) == list <==> Recoverable(list)
    decreases |list|
  {
    hide NatBits, BitsNat;
    var bits := Stream(list) + Falses(pad);
    if list == [] {
      assert bits == Falses(pad);
      ZerosParse(pad);
    } else {
      var rest := Stream(list[1..]) + Falses(pad);
      ParseInvertsStream(list[1..], pad);
      if list[0].Id? {
        assert bits == NatBits(list[0].code, 32) + rest;
        ConsId(list[0].code, rest);
        if list[0].code != ALL_ONES {
          assert Parse(bits) == [list[0]] + Parse(rest);
          ConsSame(list, Parse(rest));
        }
      } else {
        assert bits == [false] + rest && bits[1..] == rest;
        OneWithin(list, pad, |Window(bits)|);
        assert Window(bits) == bits[..|Window(bits)|];
        LongEnough(list);
        if true in Window(bits) {
          assert Parse(bits) == [list[0]] + Parse(rest);
          ConsSame(list, Parse(rest));
        }
      }
    }
  }

  lemma {:induction false} LongEnough(list: seq<Found>)
    ensures |Stream(list)| >= |list|
  {
    if list != [] { LongEnough(list[1..]); }
  }

  lemma ConsSame(list: seq<Found>, tail: seq<Found>)
    requires list != []
    ensures [list[0]] + tail == list <==> tail == list[1..]
  {
    if [list[0]] + tail == list { assert tail == ([list[0]] + tail)[1..]; }
  }

  // ---------------------------------------------------------- the hardware

  /** What a device shows right after reset; None for a reset register that is neither kind. */
  function Shows(d: Device): Option<Found> {
    if d.resetIr !in d.regs then Some(Bypass)
    else match d.regs[d.resetIr]
      case Cells(inputs, _) => if |inputs| == 32 && inputs[0] then Some(Id(BitsNat(inputs))) else None
      case User(_) => None
  }

  function AllShow(c: seq<Device>): seq<Option<Found>> {
    seq(|c|, i requires 0 <= i < |c| => Shows(c[i]))
  }

  function Listed(shown: seq<Option<Found>>): Option<seq<Found>> {
    if shown == [] then Some([])
    else match (shown[0], Listed(shown[1..]))
      case (Some(f), Some(rest)) => Some([f] + rest)
      case _ => None
  }

  /** The chain as the standard describes it, or None. */
  function ChainList(c: seq<Device>): Option<seq<Found>> {
    Listed(AllShow(c))
  }

  lemma UpdateShows(d: Device, bits: seq<bool>)
    requires d.Valid() && |bits| == |CaptureDevice(d)|
    ensures Shows(UpdateDevice(d, bits)) == Shows(d)
  {
  }

  lemma {:induction false} UpdateDrShows(c: seq<Device>, path: seq<bool>)
    requires ValidChain(c) && |path| == |CaptureDrPath(c)|
    ensures AllShow(UpdateDrChain(c, path)) == AllShow(c)
    decreases |c|
  {
    hide CaptureDevice, UpdateDevice, Shows;
    if c != [] {
      var w := |CaptureDevice(c[0])|;
      UpdateShows(c[0], path[..w]);
      UpdateDrShows(c[1..], path[w..]);
      AllShowCons(c);
      AllShowCons(UpdateDrChain(c, path));
    }
  }

  lemma AllShowCons(c: seq<Device>)
    requires c != []
    ensures AllShow(c) == [Shows(c[0])] + AllShow(c[1..])
  {
    hide Shows;
  }

  lemma {:induction false} UpdateIrShows(c: seq<Device>, path: seq<bool>)
    requires ValidChain(c) && |path| == IrLength(c)
    ensures AllShow(UpdateIrChain(c, path)) == AllShow(c)
    decreases |c|
  {
    if c != [] {
      UpdateIrShows(c[1..], path[|c[0].ir|..]);
      AllShowCons(c);
      AllShowCons(UpdateIrChain(c, path));
    }
  }

  lemma {:induction false} ResetShows(c: seq<Device>)
    requires ValidChain(c)
    ensures AllShow(ResetChain(c)) == AllShow(c)
    decreases |c|
  {
    if c != [] {
      ResetShows(c[1..]);
      AllShowCons(c);
      AllShowCons(ResetChain(c));
    }
  }

  lemma ClockShows(h: Hw, tms: bool, tdi: bool)
    requires h.Valid()
    ensures AllShow(Clock(h, tms, tdi).chain) == AllShow(h.chain)
  {
    hide AllShow, UpdateDrChain, UpdateIrChain, ResetChain;
    match h.tap {
      case UpdateDr => UpdateDrShows(h.chain, h.path);
      case UpdateIr => UpdateIrShows(h.chain, h.path);
      case TestLogicReset => ResetShows(h.chain);
      case _ =>
    }
  }

  lemma {:induction false} MoveShows(h: Hw, tms: seq<bool>)
    requires h.Valid()
    ensures AllShow(Move(h, tms).chain) == AllShow(h.chain)
    decreases |tms|
  {
    hide Clock, AllShow;
    if tms != [] {
      ClockShows(h, tms[0], false);
      MoveShows(Clock(h, tms[0], false), tms[1..]);
    }
  }

  /** The same devices, as far as their instruction registers are wide. */
  ghost predicate SameWidths(c: seq<Device>, c': seq<Device>) {
    |c'| == |c| && forall d :: 0 <= d < |c| ==> |c'[d].resetIr| == |c[d].resetIr|
  }

  lemma ClockKeepsWidths(h: Hw, tms: bool, tdi: bool)
    requires h.Valid()
    ensures SameWidths(h.chain, Clock(h, tms, tdi).chain)
  {
    hide UpdateDrChain, UpdateIrChain, ResetChain;
  }

  lemma {:induction false} MoveKeepsWidths(h: Hw, tms: seq<bool>)
    requires h.Valid()
    ensures SameWidths(h.chain, Move(h, tms).chain)
    decreases |tms|
  {
    hide Clock;
    if tms != [] {
      ClockKeepsWidths(h, tms[0], false);
      MoveKeepsWidths(Clock(h, tms[0], false), tms[1..]);
    }
  }

  /** What the list says is what each device shows. */
  lemma {:induction false} ListedAt(c: seq<Device>, list: seq<Found>)
    requires ChainList(c) == Some(list)
    ensures |list| == |c| && forall i :: 0 <= i < |c| ==> Shows(c[i]) == Some(list[i])
    decreases |c|
  {
    hide Shows;
    if c != [] {
      AllShowCons(c);
      ListedAt(c[1..], list[1..]);
    }
  }

  /** The manufacturer field of an IDCODE is its bits 1 to 11. */
  lemma ManufacturerBits(inputs: seq<bool>)
    requires |inputs| == 32
    ensures BitsNat(inputs) / 2 % 2048 == BitsNat(inputs[1..12])
  {
    hide BitsNat;
    KnownPowers();
    assert Pow2(1) == 2;
    FieldOf(inputs, 1, 11);
  }

  /** After a reset the scan path is the stream of the chain's list. */
  lemma {:induction false} ResetStream(c: seq<Device>, list: seq<Found>)
    requires ValidChain(c) && ChainList(c) == Some(list)
    ensures CaptureDrPath(ResetChain(c)) == Stream(list) && Standard(list) && |list| == |c|
    decreases |c|
  {
    if c != [] {
      AllShowCons(c);
      ResetStream(c[1..], list[1..]);
      ResetEmits(c[0]);
    }
  }

  lemma ResetEmits(d: Device)
    requires d.Valid() && Shows(d).Some?
    ensures CaptureDevice(ResetChain([d])[0]) == Emits(Shows(d).value)
    ensures Shows(d).value.Id? ==> Shows(d).value.code % 2 == 1 && Shows(d).value.code <= 0xFFFF_FFFF
  {
    if d.resetIr in d.regs {
      var inputs := d.regs[d.resetIr].inputs;
      NatBitsOfBitsNat(inputs);
      KnownPowers();
      assert BitsNat(inputs) == 1 + 2 * BitsNat(inputs[1..]);
    }
  }
}
