/** The TAP controller: state moves and whole scans, driven through MPSSE bytes. */
module TapControl {
  import opened Bytes
  import opened Tap
  import opened Hardware
  import opened Mpsse
  import opened Cable

  // --------------------------------------------------- scans at pulse level

  lemma {:induction false} ShiftRun(h: Hw, ev: seq<Event>, bits: seq<bool>)
    requires h.Valid() && h.tap in {ShiftDr, ShiftIr}
    requires |ev| == |bits| && forall i :: 0 <= i < |ev| ==> ev[i].Pulse? && !ev[i].tms && ev[i].tdi == bits[i]
    ensures HwAfter(h, ev) == h.(path := (h.path + bits)[|bits|..])
    ensures Trace(h, ev) == (h.path + bits)[..|bits|]
    decreases |ev|
  {
    if ev == [] {
      assert (h.path + bits)[0..] == h.path;
    } else {
      var h1 := Tick(h, ev[0]);
      assert h1 == h.(path := (h.path + [bits[0]])[1..]);
      ShiftRun(h1, ev[1..], bits[1..]);
      Slide(h.path, bits);
    }
  }

  /** One clock then the rest is all the clocks. */
  lemma Slide(path: seq<bool>, bits: seq<bool>)
    requires bits != []
    ensures var q := (path + [bits[0]])[1..];
      && (q + bits[1..])[|bits| - 1..] == (path + bits)[|bits|..]
      && [(path + [bits[0]])[0]] + (q + bits[1..])[..|bits| - 1] == (path + bits)[..|bits|]
  {
    assert path + bits == (path + [bits[0]]) + bits[1..];
    assert (path + [bits[0]])[1..] + bits[1..] == (path + bits)[1..];
  }

  function Exit1(s: TapState): TapState {
    if s == ShiftDr then Exit1Dr else Exit1Ir
  }

  /** Where n clocks in a Shift state, the last with TMS high, leave the hardware. */
  function Shifted(h: Hw, bits: seq<bool>): Hw {
    Hw(Exit1(h.tap), h.chain, (h.path + bits)[|bits|..])
  }

  /** The pulses of one scan: bits with TMS low, the last with TMS high. */
  function ScanEvents(tdi: seq<byte>, n: nat, read: bool): seq<Event>
    requires 0 < n <= 8 * |tdi|
  {
    var bytes, r := (n - 1) / 8, (n - 1) % 8;
    DataEvents(false, Bits(tdi, 0, 8 * bytes), read)
    + (if r == 0 then [] else DataEvents(false, Bits([tdi[bytes]], 0, r), read))
    + [Pulse(true, GetBit(tdi, n - 1), read, read)]
  }

  lemma ScanEventsAt(tdi: seq<byte>, n: nat, read: bool)
    requires 0 < n <= 8 * |tdi|
    ensures |ScanEvents(tdi, n, read)| == n
    ensures forall i :: 0 <= i < n ==>
      var e := ScanEvents(tdi, n, read)[i];
      e.Pulse? && e.tms == (i == n - 1) && e.tdi == GetBit(tdi, i) && e.sample == read
  {
    var bytes, r := (n - 1) / 8, (n - 1) % 8;
    var ev := ScanEvents(tdi, n, read);
    forall i | 0 <= i < n
      ensures var e := ev[i]; e.Pulse? && e.tms == (i == n - 1) && e.tdi == GetBit(tdi, i) && e.sample == read
    {
      if i < 8 * bytes {
        assert ev[i] == DataEvents(false, Bits(tdi, 0, 8 * bytes), read)[i];
      } else if i < n - 1 {
        assert ev[i] == DataEvents(false, Bits([tdi[bytes]], 0, r), read)[i - 8 * bytes];
        assert Bits([tdi[bytes]], 0, r)[i - 8 * bytes] == Bit(tdi[bytes], i - 8 * bytes);
      }
    }
  }

  lemma ScanRuns(h: Hw, tdi: seq<byte>, n: nat, read: bool)
    requires h.Valid() && h.tap in {ShiftDr, ShiftIr} && 0 < n <= 8 * |tdi|
    ensures HwAfter(h, ScanEvents(tdi, n, read)) == Shifted(h, Bits(tdi, 0, n))
    ensures Trace(h, ScanEvents(tdi, n, read)) == (h.path + Bits(tdi, 0, n))[..n]
  {
    hide ScanEvents, HwAfter, Trace, Shifted;
    ScanEventsAt(tdi, n, read);
    PulsesRun(h, ScanEvents(tdi, n, read), Bits(tdi, 0, n));
  }

  lemma PulsesRun(h: Hw, ev: seq<Event>, bits: seq<bool>)
    requires h.Valid() && h.tap in {ShiftDr, ShiftIr} && 0 < |ev| == |bits|
    requires forall i :: 0 <= i < |ev| ==> ev[i].Pulse? && ev[i].tms == (i == |ev| - 1) && ev[i].tdi == bits[i]
    ensures HwAfter(h, ev) == Shifted(h, bits) && Trace(h, ev) == (h.path + bits)[..|bits|]
  {
    hide HwAfter, Trace, Shifted;
    var n := |ev|;
    var front, last := ev[..n - 1], ev[n - 1];
    assert ev == front + [last];
    ShiftRun(h, front, bits[..n - 1]);
    HwAppend(h, front, [last]);
    LastPulse(h, bits, last);
  }

  lemma LastPulse(h: Hw, bits: seq<bool>, last: Event)
    requires h.Valid() && h.tap in {ShiftDr, ShiftIr} && bits != []
    requires last.Pulse? && last.tms && last.tdi == bits[|bits| - 1]
    ensures var h1 := h.(path := (h.path + bits[..|bits| - 1])[|bits| - 1..]);
      && h1.Valid()
      && HwAfter(h1, [last]) == Shifted(h, bits)
      && (h.path + bits[..|bits| - 1])[..|bits| - 1] + Trace(h1, [last]) == (h.path + bits)[..|bits|]
  {
    var n := |bits|;
    var h1 := h.(path := (h.path + bits[..n - 1])[n - 1..]);
    SlideLast(h.path, bits);
    assert [last][1..] == [];
    assert HwAfter(h1, [last]) == Tick(h1, last);
    assert Trace(h1, [last]) == [TdoAt(h1, last)];
  }

  lemma SlideLast(path: seq<bool>, bits: seq<bool>)
    requires bits != []
    ensures var n, b := |bits|, bits[|bits| - 1];
      var q := (path + bits[..n - 1])[n - 1..];
      && |q| == |path|
      && (q + [b])[1..] == (path + bits)[n..]
      && (path + bits[..n - 1])[..n - 1] + [(q + [b])[0]] == (path + bits)[..n]
  {
    assert path + bits == (path + bits[..|bits| - 1]) + [bits[|bits| - 1]];
  }

  // ------------------------------------------------------- TMS-only moves

  /** Sampling does not disturb the hardware. */
  lemma {:induction false} SameTms(h: Hw, a: seq<Event>, b: seq<Event>)
    requires h.Valid() && |a| == |b|
    requires forall i :: 0 <= i < |a| ==> a[i].Pulse? && b[i].Pulse? && a[i].tms == b[i].tms && a[i].tdi == b[i].tdi
    ensures HwAfter(h, a) == HwAfter(h, b)
    decreases |a|
  {
    if a != [] {
      assert Tick(h, a[0]) == Tick(h, b[0]);
      SameTms(Tick(h, a[0]), a[1..], b[1..]);
    }
  }

  /** The hardware after a TMS-only move. */
  function Move(h: Hw, tms: seq<bool>): (h': Hw)
    requires h.Valid()
    ensures h'.Valid()
    decreases |tms|
  {
    if tms == [] then h else Move(Clock(h, tms[0], false), tms[1..])
  }

  lemma {:induction false} MoveIs(h: Hw, tms: seq<bool>)
    requires h.Valid()
    ensures HwAfter(h, TmsEvents(tms, false, false)) == Move(h, tms)
    decreases |tms|
  {
    if tms != [] {
      var ev := TmsEvents(tms, false, false);
      MoveIs(Clock(h, tms[0], false), tms[1..]);
      SameTms(Clock(h, tms[0], false), ev[1..], TmsEvents(tms[1..], false, false));
    }
  }

  lemma {:induction false} MoveWalks(h: Hw, tms: seq<bool>)
    requires h.Valid()
    ensures Move(h, tms).tap == Walk(h.tap, tms)
    decreases |tms|
  {
    if tms != [] { MoveWalks(Clock(h, tms[0], false), tms[1..]); }
  }

  lemma Move3(h: Hw, a: bool, b: bool, c: bool)
    requires h.Valid()
    ensures Move(h, [a, b]) == Clock(Clock(h, a, false), b, false)
    ensures Move(h, [a, b, c]) == Clock(Clock(Clock(h, a, false), b, false), c, false)
  {
    hide Clock;
    assert [a, b, c][1..] == [b, c] && [b, c][1..] == [c] && [c][1..] == [];
    assert [a, b][1..] == [b] && [b][1..] == [];
    var h1 := Clock(h, a, false);
    var h2 := Clock(h1, b, false);
    assert Move(h2, []) == h2;
    assert Move(h1, [b]) == h2;
    assert Move(Clock(h2, c, false), []) == Clock(h2, c, false);
    assert Move(h2, [c]) == Clock(h2, c, false);
    assert Move(h1, [b, c]) == Clock(h2, c, false);
  }

  // Shortest paths between the states every scan visits are unique.

  lemma ShortWalk(s: TapState, p: seq<bool>)
    ensures |p| == 0 ==> Walk(s, p) == s
    ensures |p| == 1 ==> Walk(s, p) == Next(s, p[0])
    ensures |p| == 2 ==> Walk(s, p) == Next(Next(s, p[0]), p[1])
    ensures |p| == 3 ==> Walk(s, p) == Next(Next(Next(s, p[0]), p[1]), p[2])
  {
    hide Next;
    if |p| == 3 { assert p == [p[0], p[1], p[2]]; Walk3(s, p[0], p[1], p[2]); }
    if |p| == 2 { assert p == [p[0], p[1]]; Walk2(s, p[0], p[1]); }
    if |p| == 1 { assert p == [p[0]]; Walk2(s, p[0], p[0]); }
  }

  lemma IdleToShiftDr(p: seq<bool>)
    requires Walk(RunTestIdle, p) == ShiftDr && |p| <= 3
    ensures |p| == 3 && p[0] && !p[1] && !p[2]
  {
    hide Walk;
    ShortWalk(RunTestIdle, p);
  }

  lemma IdleToShiftIr(p: seq<bool>)
    requires Walk(RunTestIdle, p) == ShiftIr && |p| <= 4
    ensures |p| == 4 && p[0] && p[1] && !p[2] && !p[3]
  {
    if |p| > 0 {
      ShortWalk(Next(RunTestIdle, p[0]), p[1..]);
    }
  }

  lemma Exit1ToIdle(s: TapState, p: seq<bool>)
    requires s in {Exit1Dr, Exit1Ir} && Walk(s, p) == RunTestIdle && |p| <= 2
    ensures |p| == 2 && p[0] && !p[1]
  {
    hide Walk;
    ShortWalk(s, p);
  }

  lemma PathsExist()
    ensures Walk(RunTestIdle, [true, false, false]) == ShiftDr
    ensures Walk(RunTestIdle, [true, true, false, false]) == ShiftIr
    ensures Walk(Exit1Dr, [true, false]) == RunTestIdle
    ensures Walk(Exit1Ir, [true, false]) == RunTestIdle
  {
    Walk3(RunTestIdle, true, false, false);
    Walk3(SelectDrScan, true, false, false);
    assert [true, true, false, false][1..] == [true, false, false];
    Walk2(Exit1Dr, true, false);
    Walk2(Exit1Ir, true, false);
  }

  lemma EnterShiftDr(h: Hw)
    requires h.Valid() && h.tap == RunTestIdle
    ensures Move(h, [true, false, false]) == Hw(ShiftDr, h.chain, CaptureDrPath(h.chain))
  {
    hide Move, Walk, ResetChain, CaptureDrPath, CaptureIrPath, UpdateDrChain, UpdateIrChain;
    Move3(h, true, false, false);
  }

  lemma EnterShiftIr(h: Hw)
    requires h.Valid() && h.tap == RunTestIdle
    ensures Move(h, [true, true, false, false]) == Hw(ShiftIr, h.chain, CaptureIrPath(h.chain))
  {
    hide Walk, ResetChain, CaptureDrPath, CaptureIrPath, UpdateDrChain, UpdateIrChain;
    assert [true, true, false, false][1..] == [true, false, false];
    Move3(Clock(h, true, false), true, false, false);
  }

  lemma LeaveDr(h: Hw)
    requires h.Valid() && h.tap == Exit1Dr
    ensures Move(h, [true, false]) == Hw(RunTestIdle, UpdateDrChain(h.chain, h.path), h.path)
  {
    hide Move, Walk, ResetChain, CaptureDrPath, CaptureIrPath, UpdateDrChain, UpdateIrChain;
    Move3(h, true, false, false);
  }

  lemma LeaveIr(h: Hw)
    requires h.Valid() && h.tap == Exit1Ir
    ensures Move(h, [true, false]) == Hw(RunTestIdle, UpdateIrChain(h.chain, h.path), h.path)
  {
    hide Move, Walk, ResetChain, CaptureDrPath, CaptureIrPath, UpdateDrChain, UpdateIrChain;
    Move3(h, true, false, false);
  }

  // -------------------------------------------------------- the reply bytes

  /** A scan's reply: whole bytes, then the remainder in the top bits of a byte, then the last bit in bit 7. */
  ghost predicate Layout(raw: seq<byte>, tdo: seq<bool>) {
    && |tdo| > 0
    && var bytes, r := (|tdo| - 1) / 8, (|tdo| - 1) % 8;
    && |raw| == bytes + (if r == 0 then 0 else 1) + 1
    && (forall k :: 0 <= k < 8 * bytes ==> GetBit(raw, k) == tdo[k])
    && (forall i {:trigger Bit(raw[bytes], i)} :: 8 - r <= i < 8 ==> Bit(raw[bytes], i) == tdo[8 * bytes + i - (8 - r)])
    && Bit(raw[|raw| - 1], 7) == tdo[|tdo| - 1]
  }

  lemma ScanReply(rx: byte, low: byte, tdi: seq<byte>, n: nat, tdo: seq<bool>)
    requires 0 < n <= 8 * |tdi| && |tdo| == n
    requires |ScanEvents(tdi, n, true)| == n
    ensures Layout(Reply(rx, low, ScanEvents(tdi, n, true), tdo), tdo)
  {
    hide Sample, Bit, GetBit, Layout, Packs, Samples;
    var bytes, r := (n - 1) / 8, (n - 1) % 8;
    var e1, t1 := DataEvents(false, Bits(tdi, 0, 8 * bytes), true), tdo[..8 * bytes];
    var e2, t2 := if r == 0 then [] else DataEvents(false, Bits([tdi[bytes]], 0, r), true), tdo[8 * bytes..n - 1];
    var e3, t3 := [Pulse(true, GetBit(tdi, n - 1), true, true)], [tdo[n - 1]];
    assert tdo == (t1 + t2) + t3;
    ReplyAppend(rx, low, e1 + e2, t1 + t2, e3, t3);
    ReplyAppend(rx, low, e1, t1, e2, t2);
    var rx1 := RxAfter(rx, e1, t1);
    var rx2 := RxAfter(rx, e1 + e2, t1 + t2);
    var raw1 := Reply(rx, low, e1, t1);
    BytesReply(rx, low, false, Bits(tdi, 0, 8 * bytes), t1);
    BlockReply(rx2, low, e3, t3);
    SamplesBits(rx2, t3, 7);
    if r == 0 {
      assert t2 == [];
      LayoutOf(raw1, t1, [], t2, Samples(rx2, t3), tdo);
    } else {
      BlockReply(rx1, low, e2, t2);
      forall i | 8 - r <= i < 8 ensures Bit(Samples(rx1, t2), i) == t2[i - (8 - r)] { SamplesBits(rx1, t2, i); }
      LayoutOf(raw1, t1, [Samples(rx1, t2)], t2, Samples(rx2, t3), tdo);
    }
  }

  lemma LayoutOf(raw1: seq<byte>, t1: seq<bool>, raw2: seq<byte>, t2: seq<bool>, last: byte, tdo: seq<bool>)
    requires |tdo| > 0 && |t1| == (|tdo| - 1) / 8 * 8 && |t2| == (|tdo| - 1) % 8
    requires tdo == (t1 + t2) + [tdo[|tdo| - 1]]
    requires Packs(raw1, t1)
    requires |raw2| == if t2 == [] then 0 else 1
    requires t2 != [] ==> forall i :: 8 - |t2| <= i < 8 ==> Bit(raw2[0], i) == t2[i - (8 - |t2|)]
    requires Bit(last, 7) == tdo[|tdo| - 1]
    ensures Layout((raw1 + raw2) + [last], tdo)
  {
    hide Bit;
    var raw := (raw1 + raw2) + [last];
    var bytes, r := (|tdo| - 1) / 8, (|tdo| - 1) % 8;
    forall k | 0 <= k < 8 * bytes ensures GetBit(raw, k) == tdo[k] {
      assert GetBit(raw1, k) == t1[k];
    }
    if r > 0 {
      assert raw[bytes] == raw2[0];
    }
  }

  /** The r top bits of a byte. */
  function TopBits(b: byte, r: nat): byte
    requires 0 < r < 8
  {
    b >> (8 - r)
  }

  lemma ShiftDown(b: byte, r: nat, i: nat)
    requires 0 < r < 8 && i < r
    ensures Bit(TopBits(b, r), i) == Bit(b, 8 - r + i)
  {
    assert r in {1, 2, 3, 4, 5, 6, 7} && i in {0, 1, 2, 3, 4, 5, 6};
  }

  function RawBytes(n: nat): nat
    requires n > 0
  {
    (n - 1) / 8 + (if (n - 1) % 8 == 0 then 0 else 1) + 1
  }

  /** The TDO bits a reply of the right length stands for. */
  function RawTdo(raw: seq<byte>, n: nat): (tdo: seq<bool>)
    requires n > 0 && |raw| == RawBytes(n)
    ensures |tdo| == n
  {
    var bytes, r := (n - 1) / 8, (n - 1) % 8;
    seq(n, k requires 0 <= k < n =>
      if k < 8 * bytes then GetBit(raw, k)
      else if k < n - 1 then Bit(raw[bytes], k - 8 * bytes + (8 - r))
      else Bit(raw[|raw| - 1], 7))
  }

  lemma RawTdoLayout(raw: seq<byte>, n: nat)
    requires n > 0 && |raw| == RawBytes(n)
    ensures Layout(raw, RawTdo(raw, n))
  {
    hide Bit;
  }

  lemma LayoutIsRawTdo(raw: seq<byte>, tdo: seq<bool>)
    requires Layout(raw, tdo)
    ensures |raw| == RawBytes(|tdo|) && RawTdo(raw, |tdo|) == tdo
  {
    hide Bit;
    var n := |tdo|;
    var bytes, r := (n - 1) / 8, (n - 1) % 8;
    forall k | 0 <= k < n ensures RawTdo(raw, n)[k] == tdo[k] {
      if k < 8 * bytes { assert GetBit(raw, k) == tdo[k]; }
      else if k < n - 1 { assert Bit(raw[bytes], k - 8 * bytes + (8 - r)) == tdo[k]; }
    }
  }

  /** A bit that a byte left in place of a scan's last byte keeps raised. */
  predicate StaleBit(stale: byte, bytes: nat, j: nat) {
    8 * bytes <= j < 8 * bytes + 8 && Bit(stale, j - 8 * bytes)
  }

  /** out holds the first k bits of a scan's TDO bits over the byte that was left in its last place. */
  ghost predicate Overlaid(out: seq<byte>, tdo: seq<bool>, k: nat, stale: byte) {
    && k <= |tdo| && out != []
    && forall j {:trigger GetBit(out, j)} :: 0 <= j < 8 * |out| ==>
      GetBit(out, j) == ((j < k && tdo[j]) || StaleBit(stale, |out| - 1, j))
  }

  /** What the caller's vector holds where the last byte of an n-bit scan goes, after it is resized. */
  function StaleByte(into: seq<byte>, n: nat): byte
    requires n > 0
  {
    if (n - 1) / 8 < |into| then into[(n - 1) / 8] else 0
  }

  lemma WholeBytes(raw: seq<byte>, bytes: nat, tdo: seq<bool>, stale: byte)
    requires bytes <= |raw| && 8 * bytes <= |tdo|
    requires forall k :: 0 <= k < 8 * bytes ==> GetBit(raw, k) == tdo[k]
    ensures Overlaid(raw[..bytes] + [stale], tdo, 8 * bytes, stale)
  {
    hide Bit;
    var out := raw[..bytes] + [stale];
    forall k {:trigger GetBit(out, k)} | 0 <= k < 8 * |out|
      ensures GetBit(out, k) == ((k < 8 * bytes && tdo[k]) || StaleBit(stale, bytes, k))
    {
      if k < 8 * bytes { assert GetBit(raw, k) == tdo[k]; }
    }
  }

  lemma OverlaySkips(out: seq<byte>, tdo: seq<bool>, k: nat, stale: byte)
    requires k < |tdo| && Overlaid(out, tdo, k, stale) && !tdo[k]
    ensures Overlaid(out, tdo, k + 1, stale)
  {
    hide GetBit, StaleBit;
  }

  /** Over a zero byte the overlay is exactly the scan's bits. */
  lemma OverlayIsPacked(out: seq<byte>, tdo: seq<bool>)
    requires Overlaid(out, tdo, |tdo|, 0) && |out| == (|tdo| + 7) / 8
    ensures Packs(out, tdo)
  {
    hide GetBit, Bit;
    forall k {:trigger GetBit(out, k)} | 0 <= k < 8 * |out| ensures GetBit(out, k) == (k < |tdo| && tdo[k]) {
      if 8 * (|out| - 1) <= k { BitOfZero(k - 8 * (|out| - 1)); }
    }
  }

  /** Every scan of n bits comes back exactly if and only if the byte left in its last place is clear. */
  lemma ExactIffNotStale(n: nat, stale: byte)
    requires n > 0
    ensures (forall tdo, out :: |tdo| == n && |out| == (n + 7) / 8 && Overlaid(out, tdo, n, stale) ==> Packs(out, tdo))
      <==> stale == 0
  {
    hide Bit, Overlaid, Packs;
    if stale == 0 {
      forall tdo, out | |tdo| == n && |out| == (n + 7) / 8 && Overlaid(out, tdo, n, stale) ensures Packs(out, tdo) {
        OverlayIsPacked(out, tdo);
      }
    } else {
      StaleSurvives(n, stale);
    }
  }

  /** A stale byte shows through a scan that reads all zeros. */
  lemma StaleSurvives(n: nat, stale: byte)
    requires n > 0 && stale != 0
    ensures var out := Zeros(8 * ((n - 1) / 8)) + [stale];
      |out| == (n + 7) / 8 && Overlaid(out, Falses(n), n, stale) && !Packs(out, Falses(n))
  {
    hide Bit;
    var bytes := (n - 1) / 8;
    var out := Zeros(8 * bytes) + [stale];
    forall k {:trigger GetBit(out, k)} | 0 <= k < 8 * |out| ensures GetBit(out, k) == StaleBit(stale, bytes, k) {
      if k < 8 * bytes { BitOfZero(k % 8); }
    }
    if Packs(out, Falses(n)) {
      forall i {:trigger Bit(stale, i)} | 0 <= i < 8 ensures Bit(stale, i) == Bit(0, i) {
        assert !GetBit(out, 8 * bytes + i);
        BitOfZero(i);
      }
      SameBitsSameByte(stale, 0);
    }
  }

  /** Reassembles the TDO bits of one scan from its reply, over what the caller's vector held. */
  method Unpack(raw: seq<byte>, n: nat, into: seq<byte>) returns (out: seq<byte>)
    requires n > 0 && |raw| == RawBytes(n)
    ensures |out| == (n + 7) / 8 && Overlaid(out, RawTdo(raw, n), n, StaleByte(into, n))
    ensures StaleByte(into, n) == 0 ==> Packs(out, RawTdo(raw, n))
  {
    hide Bit, GetBit, RawTdo, Overlaid, Packs, TopBits;
    ghost var tdo := RawTdo(raw, n);
    RawTdoLayout(raw, n);
    var bytes, r := (n - 1) / 8, (n - 1) % 8;
    var resized := if |into| > bytes then into[bytes] else 0;
    ghost var stale := StaleByte(into, n);
    out := raw[..bytes] + [resized];
    var rawIdx := bytes;
    WholeBytes(raw, bytes, tdo, stale);
    if r > 0 {
      var partial := TopBits(raw[rawIdx], r);
      rawIdx := rawIdx + 1;
      for i := 0 to r
        invariant |out| == bytes + 1 && Overlaid(out, tdo, 8 * bytes + i, stale)
      {
        ShiftDown(raw[bytes], r, i);
        assert Bit(raw[bytes], 8 - r + i) == tdo[8 * bytes + i];
        if Bit(partial, i) {
          out := Raise(out, 8 * bytes + i, tdo, stale);
        } else {
          OverlaySkips(out, tdo, 8 * bytes + i, stale);
        }
      }
    }
    if Bit(raw[rawIdx], 7) {
      out := Raise(out, n - 1, tdo, stale);
    } else {
      OverlaySkips(out, tdo, n - 1, stale);
    }
    if stale == 0 { OverlayIsPacked(out, tdo); }
  }

  /** Raises bit k of a buffer that so far shows the first k bits of tdo. */
  method Raise(out: seq<byte>, k: nat, ghost tdo: seq<bool>, ghost stale: byte) returns (out': seq<byte>)
    requires k < |tdo| && k < 8 * |out| && tdo[k] && Overlaid(out, tdo, k, stale)
    ensures |out'| == |out| && Overlaid(out', tdo, k + 1, stale)
  {
    hide Bit, StaleBit;
    out' := RaiseBit(out, k);
    forall j {:trigger GetBit(out', j)} | 0 <= j < 8 * |out'|
      ensures GetBit(out', j) == ((j < k + 1 && tdo[j]) || StaleBit(stale, |out'| - 1, j))
    {
      GetBitOfRaise(out, k, j);
    }
  }

  // ------------------------------------------------- builder calls of a scan

  function ShiftCall(data: seq<byte>, bits: nat, read: bool): Call {
    if read then ShiftInOut(data, bits) else ShiftOut(data, bits)
  }

  function BulkCalls(tdi: seq<byte>, n: nat, read: bool): seq<Call>
    requires 0 < n <= 8 * |tdi|
  {
    var bytes, r := (n - 1) / 8, (n - 1) % 8;
    (if bytes > 0 then [ShiftCall(tdi, 8 * bytes, read)] else [])
    + (if r > 0 then [ShiftCall([tdi[bytes]], r, read)] else [])
  }

  function ScanCalls(tdi: seq<byte>, n: nat, read: bool): seq<Call>
    requires 0 < n <= 8 * |tdi|
  {
    BulkCalls(tdi, n, read) + [ClockTms(0x01, 1, GetBit(tdi, n - 1), read)]
  }

  lemma {:induction false} CallsAppend(p: Pins, a: seq<Call>, b: seq<Call>)
    requires AllValid(a) && AllValid(b)
    ensures AllValid(a + b)
    ensures CallsEvents(p, a + b) == CallsEvents(p, a) + CallsEvents(CallsPins(p, a), b)
    ensures CallsPins(p, a + b) == CallsPins(CallsPins(p, a), b)
    decreases |a|
  {
    hide CallEvents, CallPins;
    assert AllValid(a + b);
    if a == [] {
      assert a + b == b;
    } else {
      assert (a + b)[1..] == a[1..] + b;
      CallsAppend(CallPins(p, a[0]), a[1..], b);
    }
  }

  lemma OneCall(p: Pins, c: Call)
    requires c.Valid()
    ensures AllValid([c]) && CallsEvents(p, [c]) == CallEvents(p, c) && CallsPins(p, [c]) == CallPins(p, c)
  {
    hide CallEvents, CallPins;
    assert [c][1..] == [];
    assert CallEvents(p, c) + [] == CallEvents(p, c);
  }

  lemma OneBit()
    ensures TmsBits(0x01, 1) == [true]
  {
    assert Bit(0x01, 0);
    assert TmsBits(0x01, 1)[0] == Bit(0x01, 0);
  }

  lemma BulkCallsDo(p: Pins, tdi: seq<byte>, n: nat, read: bool)
    requires 0 < n <= 8 * |tdi| && !p.tms
    ensures AllValid(BulkCalls(tdi, n, read))
    ensures CallsEvents(p, BulkCalls(tdi, n, read)) + [Pulse(true, GetBit(tdi, n - 1), read, read)]
      == ScanEvents(tdi, n, read)
    ensures !CallsPins(p, BulkCalls(tdi, n, read)).tms
  {
    hide GetBit, Bits;
    var bytes, r := (n - 1) / 8, (n - 1) % 8;
    var a := if bytes > 0 then [ShiftCall(tdi, 8 * bytes, read)] else [];
    var b := if r > 0 then [ShiftCall([tdi[bytes]], r, read)] else [];
    if bytes > 0 { OneCall(p, a[0]); } else { assert DataEvents(false, Bits(tdi, 0, 8 * bytes), read) == []; }
    var p1 := CallsPins(p, a);
    if r > 0 { OneCall(p1, b[0]); }
    CallsAppend(p, a, b);
  }

  lemma ScanCallsDo(p: Pins, tdi: seq<byte>, n: nat, read: bool)
    requires 0 < n <= 8 * |tdi| && !p.tms
    ensures AllValid(ScanCalls(tdi, n, read))
    ensures CallsEvents(p, ScanCalls(tdi, n, read)) == ScanEvents(tdi, n, read)
    ensures CallsPins(p, ScanCalls(tdi, n, read)).tms
  {
    hide ScanEvents, BulkCalls, GetBit;
    var c := ClockTms(0x01, 1, GetBit(tdi, n - 1), read);
    BulkCallsDo(p, tdi, n, read);
    var p1 := CallsPins(p, BulkCalls(tdi, n, read));
    OneBit();
    OneCall(p1, c);
    CallsAppend(p, BulkCalls(tdi, n, read), [c]);
    assert TmsEvents([true], GetBit(tdi, n - 1), read) == [Pulse(true, GetBit(tdi, n - 1), read, read)];
    assert TmsBits(0x01, 1)[0] == Bit(0x01, 0);
  }

  lemma FlushDoes(p: Pins, calls: seq<Call>)
    requires AllValid(calls)
    ensures AllValid(calls + [Call.SendImmediate])
    ensures CallsEvents(p, calls + [Call.SendImmediate]) == CallsEvents(p, calls)
    ensures CallsPins(p, calls + [Call.SendImmediate]) == CallsPins(p, calls)
  {
    var c := Call.SendImmediate;
    OneCall(CallsPins(p, calls), c);
    CallsAppend(p, calls, [c]);
    assert CallsEvents(p, calls) + [] == CallsEvents(p, calls);
  }

  /** Appends the commands of one scan. */
  method AppendScan(cmd: MpsseCommandBuffer, tdi: seq<byte>, n: nat, readBack: bool)
    requires cmd.Valid() && 0 < n <= 8 * |tdi|
    modifies cmd
    ensures cmd.Valid() && cmd.calls == old(cmd.calls) + ScanCalls(tdi, n, readBack)
  {
    hide GetBit, EncodeAll, ReadsAll;
    var bulkBits := n - 1;
    var bytes, remaining := bulkBits / 8, bulkBits % 8;
    if bytes > 0 {
      if readBack { cmd.ShiftInOut(tdi, bytes * 8); } else { cmd.ShiftOut(tdi, bytes * 8); }
    }
    if remaining > 0 {
      var partial := tdi[bytes];
      if readBack { cmd.ShiftInOut([partial], remaining); } else { cmd.ShiftOut([partial], remaining); }
    }
    assert cmd.calls == old(cmd.calls) + BulkCalls(tdi, n, readBack);
    var lastTdi := GetBit(tdi, n - 1);
    cmd.ClockTms(0x01, 1, lastTdi, readBack);
  }

  // ---------------------------------------------------------- repeated scans

  /** The i-th block of `per` bytes. */
  function Slice(flat: seq<byte>, i: nat, per: nat): seq<byte> {
    if (i + 1) * per <= |flat| && i * per <= (i + 1) * per then flat[i * per..(i + 1) * per] else []
  }

  lemma SliceOfAppend(flat: seq<byte>, x: seq<byte>, k: nat, per: nat, i: nat)
    requires |flat| == k * per && i < k
    ensures Slice(flat + x, i, per) == Slice(flat, i, per) && |Slice(flat, i, per)| == per
  {
    assert k * per == (i + 1) * per + (k - i - 1) * per;
    assert (k - i - 1) * per >= 0;
    assert (i + 1) * per == i * per + per;
    assert (flat + x)[i * per..(i + 1) * per] == flat[i * per..(i + 1) * per];
  }

  lemma SliceOfLast(flat: seq<byte>, x: seq<byte>, k: nat, per: nat)
    requires |flat| == k * per && |x| == per
    ensures Slice(flat + x, k, per) == x && |flat + x| == (k + 1) * per
  {
    assert (k + 1) * per == k * per + per;
  }

  function RoundCalls(tdi: seq<byte>, n: nat, toShift: Call, toIdle: Call): seq<Call>
    requires 0 < n <= 8 * |tdi|
  {
    ([toShift] + ScanCalls(tdi, n, true)) + [toIdle]
  }

  function RoundsCalls(tdi: seq<byte>, n: nat, toShift: Call, toIdle: Call, k: nat): seq<Call>
    requires 0 < n <= 8 * |tdi|
  {
    if k == 0 then [] else RoundsCalls(tdi, n, toShift, toIdle, k - 1) + RoundCalls(tdi, n, toShift, toIdle)
  }

  ghost predicate RoundMoves(toShift: Call, toIdle: Call) {
    && toShift.ClockTms? && toIdle.ClockTms? && !toShift.readTdo && !toIdle.readTdo
    && !toShift.level && !toIdle.level
    && 1 <= toShift.count <= 7 && TmsBits(toShift.tmsBits, toShift.count) == [true, false, false]
    && 1 <= toIdle.count <= 7 && TmsBits(toIdle.tmsBits, toIdle.count) == [true, false]
  }

  lemma SilentMove(h: Hw, rx: byte, low: byte, p: Pins, c: Call)
    requires h.Valid() && c.ClockTms? && !c.readTdo && !c.level && 1 <= c.count <= 7
    ensures AllValid([c])
    ensures var ev := CallsEvents(p, [c]);
      && HwAfter(h, ev) == Move(h, TmsBits(c.tmsBits, c.count))
      && Reply(rx, low, ev, Trace(h, ev)) == [] && RxAfter(rx, ev, Trace(h, ev)) == rx
      && CallsPins(p, [c]).tms == TmsBits(c.tmsBits, c.count)[c.count - 1]
  {
    hide Clock, HwAfter, Trace, Reply, RxAfter, Bit;
    OneCall(p, c);
    MoveIs(h, TmsBits(c.tmsBits, c.count));
    SilentReply(rx, low, CallsEvents(p, [c]), Trace(h, CallsEvents(p, [c])));
    assert TmsBits(c.tmsBits, c.count)[c.count - 1] == Bit(c.tmsBits, c.count - 1);
  }

  /** Two call lists in a row: events, hardware, replies. */
  lemma Sequence(h: Hw, rx: byte, low: byte, p: Pins, a: seq<Call>, b: seq<Call>)
    requires h.Valid() && AllValid(a) && AllValid(b)
    ensures AllValid(a + b)
    ensures var ea, p1 := CallsEvents(p, a), CallsPins(p, a);
      var h1, rx1, eb := HwAfter(h, ea), RxAfter(rx, ea, Trace(h, ea)), CallsEvents(p1, b);
      var ev := CallsEvents(p, a + b);
      && HwAfter(h, ev) == HwAfter(h1, eb)
      && Reply(rx, low, ev, Trace(h, ev)) == Reply(rx, low, ea, Trace(h, ea)) + Reply(rx1, low, eb, Trace(h1, eb))
      && RxAfter(rx, ev, Trace(h, ev)) == RxAfter(rx1, eb, Trace(h1, eb))
  {
    hide HwAfter, Trace, Reply, RxAfter, CallsEvents, CallsPins;
    var ea, p1 := CallsEvents(p, a), CallsPins(p, a);
    var h1, eb := HwAfter(h, ea), CallsEvents(p1, b);
    CallsAppend(p, a, b);
    HwAppend(h, ea, eb);
    ReplyAppend(rx, low, ea, Trace(h, ea), eb, Trace(h1, eb));
  }

  /** One scan at the level of calls: from a Shift state to Exit1, with its reply. */
  lemma ScanCallsRun(h: Hw, rx: byte, low: byte, p: Pins, tdi: seq<byte>, n: nat)
    requires h.Valid() && h.tap in {ShiftDr, ShiftIr} && !p.tms && 0 < n <= 8 * |tdi|
    ensures AllValid(ScanCalls(tdi, n, true))
    ensures var ev, bits := CallsEvents(p, ScanCalls(tdi, n, true)), Bits(tdi, 0, n);
      && HwAfter(h, ev) == Shifted(h, bits)
      && Layout(Reply(rx, low, ev, Trace(h, ev)), (h.path + bits)[..n])
  {
    hide Bits, ScanCalls, ScanEvents, HwAfter, Trace, Reply, Shifted, CallsEvents, CallsPins, Layout;
    ScanCallsDo(p, tdi, n, true);
    ScanRuns(h, tdi, n, true);
    ScanEventsAt(tdi, n, true);
    ScanReply(rx, low, tdi, n, (h.path + Bits(tdi, 0, n))[..n]);
  }

  /** One round of a repeated scan: idle to idle. */
  lemma RoundDoes(h: Hw, rx: byte, low: byte, p: Pins, tdi: seq<byte>, n: nat, toShift: Call, toIdle: Call)
    requires h.Valid() && h.tap == RunTestIdle && 0 < n <= 8 * |tdi| && RoundMoves(toShift, toIdle)
    ensures AllValid(RoundCalls(tdi, n, toShift, toIdle))
    ensures var ev, bits := CallsEvents(p, RoundCalls(tdi, n, toShift, toIdle)), Bits(tdi, 0, n);
      && HwAfter(h, ev).tap == RunTestIdle && HwAfter(h, ev).chain == DrScan(h.chain, bits)
      && Layout(Reply(rx, low, ev, Trace(h, ev)), DrScanTdo(h.chain, bits))
  {
    hide Bits, ScanCalls, HwAfter, Trace, Reply, CallsEvents, CallsPins, Layout, TmsBits, Move, DrScan, DrScanTdo,
         RxAfter;
    var bits, scan := Bits(tdi, 0, n), ScanCalls(tdi, n, true);
    SilentMove(h, rx, low, p, toShift);
    EnterShiftDr(h);
    var h1, p1 := Move(h, [true, false, false]), CallsPins(p, [toShift]);
    ScanCallsRun(h1, rx, low, p1, tdi, n);
    Sequence(h, rx, low, p, [toShift], scan);
    var both := [toShift] + scan;
    var e2 := CallsEvents(p, both);
    var h2, rx2, p2 := HwAfter(h, e2), RxAfter(rx, e2, Trace(h, e2)), CallsPins(p, both);
    SilentMove(h2, rx2, low, p2, toIdle);
    LeaveDr(h2);
    Sequence(h, rx, low, p, both, [toIdle]);
    DrScanIs(h.chain, bits);
    var raw := Reply(rx, low, e2, Trace(h, e2));
    assert [] + Reply(rx, low, CallsEvents(p1, scan), Trace(h1, CallsEvents(p1, scan)))
      == Reply(rx, low, CallsEvents(p1, scan), Trace(h1, CallsEvents(p1, scan)));
    assert raw + [] == raw;
  }

  /** k rounds: the chain is scanned k times and the reply is k scans' replies in order. */
  lemma {:induction false} RoundsDo(h: Hw, rx: byte, low: byte, p: Pins, tdi: seq<byte>, n: nat, toShift: Call,
                                    toIdle: Call, k: nat)
    requires h.Valid() && h.tap == RunTestIdle && 0 < n <= 8 * |tdi| && RoundMoves(toShift, toIdle)
    ensures AllValid(RoundsCalls(tdi, n, toShift, toIdle, k))
    ensures var ev, bits := CallsEvents(p, RoundsCalls(tdi, n, toShift, toIdle, k)), Bits(tdi, 0, n);
      var raw := Reply(rx, low, ev, Trace(h, ev));
      && HwAfter(h, ev).tap == RunTestIdle && HwAfter(h, ev).chain == DrScans(h.chain, bits, k)
      && |raw| == k * RawBytes(n)
      && forall i {:trigger DrScans(h.chain, bits, i)} :: 0 <= i < k ==>
        Layout(Slice(raw, i, RawBytes(n)), DrScanTdo(DrScans(h.chain, bits, i), bits))
  {
    hide Bits, RoundCalls, HwAfter, Trace, Reply, CallsEvents, CallsPins, RxAfter, Slice, DrScan, DrScanTdo, Layout,
         RoundMoves;
    var bits := Bits(tdi, 0, n);
    if k == 0 {
      NoCalls(h, rx, low, p);
    } else {
      var front, round := RoundsCalls(tdi, n, toShift, toIdle, k - 1), RoundCalls(tdi, n, toShift, toIdle);
      RoundsDo(h, rx, low, p, tdi, n, toShift, toIdle, k - 1);
      var e1, p1 := CallsEvents(p, front), CallsPins(p, front);
      var h1, rx1 := HwAfter(h, e1), RxAfter(rx, e1, Trace(h, e1));
      RoundDoes(h1, rx1, low, p1, tdi, n, toShift, toIdle);
      Sequence(h, rx, low, p, front, round);
      var raw1 := Reply(rx, low, e1, Trace(h, e1));
      var e2 := CallsEvents(p1, round);
      var raw2 := Reply(rx1, low, e2, Trace(h1, e2));
      LayoutIsRawTdo(raw2, DrScanTdo(h1.chain, bits));
      SliceOfLast(raw1, raw2, k - 1, RawBytes(n));
      forall i {:trigger DrScans(h.chain, bits, i)} | 0 <= i < k
        ensures Layout(Slice(raw1 + raw2, i, RawBytes(n)), DrScanTdo(DrScans(h.chain, bits, i), bits))
      {
        if i < k - 1 { SliceOfAppend(raw1, raw2, k - 1, RawBytes(n), i); }
      }
    }
  }

  lemma NoScans(c: seq<Device>, bits: seq<bool>)
    requires ValidChain(c)
    ensures DrScans(c, bits, 0) == c && ScansOut([], c, bits, 0)
  {
  }

  /** Appends k rounds of a repeated scan. */
  method AppendRounds(cmd: MpsseCommandBuffer, tdi: seq<byte>, n: nat, tmsToShift: byte, lenToShift: nat,
                      tmsToIdle: byte, lenToIdle: nat, k: nat)
    requires cmd.Valid() && cmd.calls == [] && 0 < n <= 8 * |tdi|
    modifies cmd
    ensures cmd.Valid()
    ensures cmd.calls == RoundsCalls(tdi, n, ClockTms(tmsToShift, lenToShift, false, false),
                                     ClockTms(tmsToIdle, lenToIdle, false, false), k)
  {
    hide EncodeAll, ReadsAll, ScanCalls;
    ghost var toShift := ClockTms(tmsToShift, lenToShift, false, false);
    ghost var toIdle := ClockTms(tmsToIdle, lenToIdle, false, false);
    for i := 0 to k
      invariant cmd.Valid() && cmd.calls == RoundsCalls(tdi, n, toShift, toIdle, i)
    {
      ghost var was := cmd.calls;
      cmd.ClockTms(tmsToShift, lenToShift, false, false);
      AppendScan(cmd, tdi, n, true);
      cmd.ClockTms(tmsToIdle, lenToIdle, false, false);
      assert cmd.calls == was + RoundCalls(tdi, n, toShift, toIdle);
    }
  }

  /** Reassembles k scans from one reply; fails on an underrun. */
  method UnpackRounds(raw: seq<byte>, n: nat, k: nat) returns (ok: bool, out: seq<byte>)
    requires n > 0
    ensures ok <==> |raw| >= k * RawBytes(n)
    ensures ok ==> |out| == k * ((n + 7) / 8)
    ensures ok && |raw| == k * RawBytes(n) ==> forall i :: 0 <= i < k ==>
      |Slice(raw, i, RawBytes(n))| == RawBytes(n)
        && Packs(Slice(out, i, (n + 7) / 8), RawTdo(Slice(raw, i, RawBytes(n)), n))
  {
    hide Slice, RawTdo;
    var per, outPer := RawBytes(n), (n + 7) / 8;
    out := [];
    var rawIdx := 0;
    for i := 0 to k
      invariant rawIdx == i * per <= |raw| && |out| == i * outPer
      invariant |raw| == k * per ==> forall j :: 0 <= j < i ==>
        |Slice(raw, j, per)| == per && Packs(Slice(out, j, outPer), RawTdo(Slice(raw, j, per), n))
    {
      Underrun(i, k, per);
      if rawIdx + per > |raw| {
        return false, [];
      }
      var one := Unpack(raw[rawIdx..rawIdx + per], n, []);
      SliceIs(raw, i, per);
      SliceOfLast(out, one, i, outPer);
      forall j | 0 <= j < i
        ensures Slice(out + one, j, outPer) == Slice(out, j, outPer)
      {
        SliceOfAppend(out, one, i, outPer, j);
      }
      out := out + one;
      rawIdx := rawIdx + per;
    }
    ok := true;
  }

  lemma Underrun(i: nat, k: nat, per: nat)
    requires i < k
    ensures i * per + per == (i + 1) * per <= k * per
  {
    assert k * per == (i + 1) * per + (k - i - 1) * per;
    assert (k - i - 1) * per >= 0;
  }

  lemma SliceIs(flat: seq<byte>, i: nat, per: nat)
    requires i * per + per <= |flat|
    ensures Slice(flat, i, per) == flat[i * per..i * per + per]
  {
    assert (i + 1) * per == i * per + per;
  }

  /** `flat` is the TDO of k scans in order, each packed into whole bytes. */
  ghost predicate ScansOut(flat: seq<byte>, c: seq<Device>, bits: seq<bool>, k: nat)
    requires ValidChain(c)
  {
    var per := (|bits| + 7) / 8;
    && |flat| == k * per
    && forall i {:trigger DrScans(c, bits, i)} :: 0 <= i < k ==>
      Packs(Slice(flat, i, per), DrScanTdo(DrScans(c, bits, i), bits))
  }

  lemma RoundsOut(c: seq<Device>, bits: seq<bool>, out: seq<byte>, raw: seq<byte>, n: nat, k: nat)
    requires ValidChain(c) && |bits| == n > 0
    requires |out| == k * ((n + 7) / 8) && |raw| == k * RawBytes(n)
    requires forall i :: 0 <= i < k ==>
      |Slice(raw, i, RawBytes(n))| == RawBytes(n)
        && Packs(Slice(out, i, (n + 7) / 8), RawTdo(Slice(raw, i, RawBytes(n)), n))
    requires forall i {:trigger DrScans(c, bits, i)} :: 0 <= i < k ==>
      Layout(Slice(raw, i, RawBytes(n)), DrScanTdo(DrScans(c, bits, i), bits))
    ensures ScansOut(out, c, bits, k)
  {
    hide Slice, DrScans, DrScanTdo, Layout, RawTdo, Packs;
    forall i {:trigger DrScans(c, bits, i)} | 0 <= i < k
      ensures Packs(Slice(out, i, (n + 7) / 8), DrScanTdo(DrScans(c, bits, i), bits))
    {
      LayoutIsRawTdo(Slice(raw, i, RawBytes(n)), DrScanTdo(DrScans(c, bits, i), bits));
    }
  }

  lemma ScansOutAppend(c: seq<Device>, bits: seq<bool>, flat: seq<byte>, more: seq<byte>, done: nat, k: nat)
    requires ValidChain(c)
    requires ScansOut(flat, c, bits, done) && ScansOut(more, DrScans(c, bits, done), bits, k)
    ensures ScansOut(flat + more, c, bits, done + k)
  {
    hide Slice, DrScans, DrScanTdo, Packs;
    var per := (|bits| + 7) / 8;
    assert (done + k) * per == done * per + k * per;
    var c1 := DrScans(c, bits, done);
    forall i {:trigger DrScans(c, bits, i)} | 0 <= i < done + k
      ensures Packs(Slice(flat + more, i, per), DrScanTdo(DrScans(c, bits, i), bits))
    {
      if i < done {
        SliceOfAppend(flat, more, done, per, i);
      } else {
        SliceOfTail(flat, more, done, per, i - done, k);
        DrScansAppend(c, bits, done, i - done);
        assert ValidChain(DrScans(c1, bits, i - done));
      }
    }
  }

  lemma SliceOfTail(flat: seq<byte>, more: seq<byte>, done: nat, per: nat, i: nat, k: nat)
    requires |flat| == done * per && |more| == k * per && i < k
    ensures Slice(flat + more, done + i, per) == Slice(more, i, per)
  {
    Underrun(i, k, per);
    assert (done + i) * per == done * per + i * per;
    assert (done + i + 1) * per == done * per + (i + 1) * per;
    assert (flat + more)[(done + i) * per..(done + i + 1) * per] == more[i * per..(i + 1) * per];
  }

  lemma NoCalls(h: Hw, rx: byte, low: byte, p: Pins)
    requires h.Valid()
    ensures var ev := CallsEvents(p, []); HwAfter(h, ev) == h && Reply(rx, low, ev, Trace(h, ev)) == []
  {
  }

  lemma {:induction false} DrScansAppend(c: seq<Device>, bits: seq<bool>, a: nat, b: nat)
    requires ValidChain(c)
    ensures DrScans(DrScans(c, bits, a), bits, b) == DrScans(c, bits, a + b)
  {
    hide DrScan;
    if b > 0 {
      DrScansAppend(c, bits, a, b - 1);
    }
  }

  // -------------------------------------------------------- the controller

  /** A scan read into a vector: exactly its bits, unless the vector's byte in the last place shows through. */
  ghost predicate ReadsOver(tdo: seq<byte>, into: seq<byte>, bits: seq<bool>) {
    && |tdo| == (|bits| + 7) / 8
    && (bits != [] ==> Overlaid(tdo, bits, |bits|, StaleByte(into, |bits|)))
    && (bits != [] && StaleByte(into, |bits|) == 0 ==> Packs(tdo, bits))
  }

  lemma FreshReads(tdo: seq<byte>, bits: seq<bool>)
    requires ReadsOver(tdo, [], bits) && bits != []
    ensures Packs(tdo, bits)
  {
    hide Overlaid, Packs;
  }

  class TapController {
    const device: FtdiDevice
    var state: TapState

    /** Whether an error text is kept; it never goes away. */
    var lastError: bool

    /** The waits made in Run-Test/Idle, in clocks. */
    ghost var waits: seq<int>

    constructor (device: FtdiDevice)
      ensures this.device == device && state == TestLogicReset && !lastError && waits == []
    {
      this.device, state, lastError, waits := device, TestLogicReset, false, [];
    }

    /** The software's idea of the TAP state is the hardware's, and no reply is pending. */
    ghost predicate InSync()
      reads this`state, device
    {
      && device.Valid() && device.hw.tap == state && device.fifo == []
      && (state in {ShiftDr, ShiftIr} ==> !device.pins.tms)
    }

    ghost predicate AtIdle()
      reads this`state, device
    {
      InSync() && state == RunTestIdle
    }

    /** Clocks TMS bits and nothing else. */
    method SendTms(tms: byte, len: nat) returns (ok: bool)
      requires device.Valid() && 1 <= len <= 7
      modifies this`lastError, device
      ensures device.Valid() && device.faults >= old(device.faults) && (ok <==> device.faults == old(device.faults))
      ensures lastError == (old(lastError) || device.faults > old(device.faults))
      ensures ok && old(device.fifo) == [] ==>
        && device.hw == Move(old(device.hw), TmsBits(tms, len)) && device.fifo == []
        && device.clocks == old(device.clocks) + len
        && device.pins.tms == TmsBits(tms, len)[len - 1]
    {
      var cmd := new MpsseCommandBuffer();
      cmd.ClockTms(tms, len, false, false);
      var c := Call.ClockTms(tms, len, false, false);
      assert cmd.calls == [c];
      OneCall(device.pins, c);
      MoveIs(device.hw, TmsBits(tms, len));
      TmsClocks(TmsBits(tms, len), false, false);
      ok := device.Write(cmd);
      if !ok { lastError := true; }
    }

    /** Resets from any state, in step with the hardware or not, and ends in Run-Test/Idle. */
    method Reset() returns (ok: bool)
      requires device.Valid()
      modifies this`state, this`lastError, device
      ensures device.Valid() && device.faults >= old(device.faults) && (ok <==> device.faults == old(device.faults))
      ensures lastError == (old(lastError) || device.faults > old(device.faults))
      ensures ok && old(device.fifo) == [] ==> AtIdle() && WasReset(old(device.hw), device.hw)
    {
      hide Move, HwAfter, CallsEvents, CallsPins, ResetChain, EncodeAll, ReadsAll;
      var cmd := new MpsseCommandBuffer();
      cmd.ClockTms(0x1F, 5, false, false);
      cmd.ClockTms(0x00, 1, false, false);
      var c1, c2 := Call.ClockTms(0x1F, 5, false, false), Call.ClockTms(0x00, 1, false, false);
      assert cmd.calls == [c1] + [c2];
      ResetCalls(device.pins, device.hw, c1, c2);
      ok := device.Write(cmd);
      if ok {
        state := RunTestIdle;
      } else {
        lastError := true;
      }
    }

    /** Moves to a state by the path of ComputeTmsPath. For a target more than seven clocks away the
        hardware is reset instead, while the software records the target. */
    method GotoState(target: TapState) returns (ok: bool, ghost path: seq<bool>)
      requires device.Valid()
      modifies this`state, this`lastError, device
      ensures device.Valid() && device.faults >= old(device.faults) && (ok <==> device.faults == old(device.faults))
      ensures lastError == (old(lastError) || device.faults > old(device.faults))
      ensures ok ==> state == target
      ensures ok && old(InSync()) ==>
        && device.fifo == [] && device.hw == Move(old(device.hw), path) && |path| <= 7
        && device.clocks == old(device.clocks) + |path|
      ensures ok && old(InSync()) && !TooFar(old(state), target) ==>
        InSync() && Walk(old(state), path) == target && forall q :: Walk(old(state), q) == target ==> |path| <= |q|
      ensures ok && old(InSync()) && TooFar(old(state), target) ==>
        device.hw.tap == TestLogicReset && !InSync()
    {
      hide Move, Walk, TmsBits;
      path := [];
      NoMove(device.hw);
      if state == target {
        return true, [];
      }
      var len, tms := ComputeTmsPath(state, target);
      path := TmsBits(tms, len);
      MoveWalks(device.hw, path);
      EndsLow(state, path);
      ok := SendTms(tms, len);
      if ok {
        state := target;
      }
    }

    /** Shifts in the current Shift state, raising TMS on the last bit. What is read goes over the vector given. */
    method DoShift(tdi: seq<byte>, bitCount: int, into: seq<byte>, readBack: bool) returns (ok: bool, tdo: seq<byte>)
      requires device.Valid() && bitCount <= 8 * |tdi|
      modifies this`lastError, device
      ensures device.Valid() && device.faults >= old(device.faults) && (ok <==> device.faults == old(device.faults))
      ensures lastError == (old(lastError) || device.faults > old(device.faults))
      ensures !readBack || bitCount <= 0 || !ok ==> tdo == into
      ensures ok && bitCount > 0 && readBack ==> |tdo| == (bitCount + 7) / 8
      ensures ok && bitCount > 0 && old(InSync()) && state in {ShiftDr, ShiftIr} ==>
        var bits := Bits(tdi, 0, bitCount);
        && device.hw == Shifted(old(device.hw), bits) && device.fifo == [] && device.pins.tms
        && (readBack ==> ReadsOver(tdo, into, (old(device.hw).path + bits)[..bitCount]))
    {
      hide Bits, ScanCalls, HwAfter, Trace, Reply, Shifted, CallsEvents, CallsPins, EncodeAll, ReadsAll, Layout, RawTdo,
           Overlaid, Packs;
      tdo := into;
      if bitCount <= 0 {
        return true, into;
      }
      var cmd := new MpsseCommandBuffer();
      AppendScan(cmd, tdi, bitCount, readBack);
      ghost var scan := ScanCalls(tdi, bitCount, readBack);
      cmd.SendImmediate();
      assert cmd.calls == scan + [Call.SendImmediate];
      ReadsAppend(scan, [Call.SendImmediate]);
      ghost var p, h := device.pins, device.hw;
      ghost var bits := Bits(tdi, 0, bitCount);
      if InSync() && state in {ShiftDr, ShiftIr} {
        ScanCallsDo(p, tdi, bitCount, readBack);
        FlushDoes(p, scan);
        ScanRuns(h, tdi, bitCount, readBack);
        ScanEventsAt(tdi, bitCount, readBack);
        if readBack {
          ScanReply(device.rx, device.low, tdi, bitCount, (h.path + bits)[..bitCount]);
        }
      }
      if readBack {
        var raw;
        ok, raw := device.Transfer(cmd);
        if ok {
          ScanReads(tdi, bitCount);
          FlushReads();
          if old(InSync()) && state in {ShiftDr, ShiftIr} {
            LayoutIsRawTdo(raw, (h.path + bits)[..bitCount]);
          }
          tdo := Unpack(raw, bitCount, into);
        }
      } else {
        ok := device.Write(cmd);
      }
      if !ok { lastError := true; }
    }

    /** Loads the instruction registers. */
    method ShiftIR(irData: seq<byte>, irBits: int) returns (ok: bool)
      requires device.Valid() && irBits <= 8 * |irData|
      modifies this`state, this`lastError, device
      ensures device.Valid() && device.faults >= old(device.faults)
      ensures lastError == (old(lastError) || device.faults > old(device.faults))
      ensures ok <==> irBits > 0 && device.faults == old(device.faults)
      ensures ok && old(AtIdle()) ==>
        AtIdle() && device.hw.chain == IrScan(old(device.hw).chain, Bits(irData, 0, irBits))
    {
      hide Bits, Walk, Move, IrScan;
      if irBits <= 0 {
        return false;
      }
      ghost var h0 := device.hw;
      ghost var path;
      ok, path := GotoState(ShiftIr);
      if !ok { return; }
      var tdo;
      PathsExist();
      ghost var h1 := device.hw;
      if old(AtIdle()) {
        IdleToShiftIr(path);
        assert path == [true, true, false, false];
        EnterShiftIr(h0);
      }
      ok, tdo := DoShift(irData, irBits, [], false);
      if !ok { return; }
      state := Exit1Ir;
      ghost var h2 := device.hw;
      ok, path := GotoState(RunTestIdle);
      if ok && old(AtIdle()) {
        Exit1ToIdle(Exit1Ir, path);
        assert path == [true, false];
        LeaveIr(h2);
        IrScanIs(h0.chain, Bits(irData, 0, irBits));
      }
    }

    /** One DR scan; `readBack` distinguishes the two overloads. */
    method Scan(tdi: seq<byte>, drBits: int, into: seq<byte>, readBack: bool) returns (ok: bool, tdo: seq<byte>)
      requires device.Valid() && drBits <= 8 * |tdi|
      modifies this`state, this`lastError, device
      ensures device.Valid() && device.faults >= old(device.faults)
      ensures lastError == (old(lastError) || device.faults > old(device.faults))
      ensures ok <==> drBits > 0 && device.faults == old(device.faults)
      ensures ok && readBack ==> |tdo| == (drBits + 7) / 8
      ensures ok && old(AtIdle()) ==>
        var c, bits := old(device.hw).chain, Bits(tdi, 0, drBits);
        && AtIdle() && device.hw.chain == DrScan(c, bits)
        && (readBack ==> ReadsOver(tdo, into, DrScanTdo(c, bits)))
    {
      hide Bits, Walk, Move, DrScan, DrScanTdo, ReadsOver;
      tdo := into;
      if drBits <= 0 {
        return false, into;
      }
      ghost var h0 := device.hw;
      ghost var path;
      ok, path := GotoState(ShiftDr);
      if !ok { return; }
      PathsExist();
      if old(AtIdle()) {
        IdleToShiftDr(path);
        assert path == [true, false, false];
        EnterShiftDr(h0);
      }
      ok, tdo := DoShift(tdi, drBits, into, readBack);
      if !ok { return; }
      state := Exit1Dr;
      ghost var h2 := device.hw;
      ok, path := GotoState(RunTestIdle);
      if ok && old(AtIdle()) {
        Exit1ToIdle(Exit1Dr, path);
        assert path == [true, false];
        LeaveDr(h2);
        DrScanIs(h0.chain, Bits(tdi, 0, drBits));
      }
    }

    /** Reads into a vector of the caller's, whose last byte keeps its raised bits. */
    method ShiftDR(tdi: seq<byte>, drBits: int, into: seq<byte>) returns (ok: bool, tdo: seq<byte>)
      requires device.Valid() && drBits <= 8 * |tdi|
      modifies this`state, this`lastError, device
      ensures device.Valid() && device.faults >= old(device.faults)
      ensures lastError == (old(lastError) || device.faults > old(device.faults))
      ensures ok <==> drBits > 0 && device.faults == old(device.faults)
      ensures ok ==> |tdo| == (drBits + 7) / 8
      ensures ok && old(AtIdle()) ==>
        var c, bits := old(device.hw).chain, Bits(tdi, 0, drBits);
        AtIdle() && device.hw.chain == DrScan(c, bits) && ReadsOver(tdo, into, DrScanTdo(c, bits))
    {
      ok, tdo := Scan(tdi, drBits, into, true);
    }

    method ShiftDRWrite(tdi: seq<byte>, drBits: int) returns (ok: bool)
      requires device.Valid() && drBits <= 8 * |tdi|
      modifies this`state, this`lastError, device
      ensures device.Valid() && device.faults >= old(device.faults)
      ensures lastError == (old(lastError) || device.faults > old(device.faults))
      ensures ok <==> drBits > 0 && device.faults == old(device.faults)
      ensures ok && old(AtIdle()) ==> AtIdle() && device.hw.chain == DrScan(old(device.hw).chain, Bits(tdi, 0, drBits))
    {
      var tdo;
      ok, tdo := Scan(tdi, drBits, [], false);
    }

    /** Shifts zeros in while reading. */
    method ReadDR(drBits: nat, into: seq<byte>) returns (ok: bool, tdo: seq<byte>)
      requires device.Valid()
      modifies this`state, this`lastError, device
      ensures device.Valid() && device.faults >= old(device.faults)
      ensures lastError == (old(lastError) || device.faults > old(device.faults))
      ensures ok <==> drBits > 0 && device.faults == old(device.faults)
      ensures ok ==> |tdo| == (drBits + 7) / 8
      ensures ok && old(AtIdle()) ==>
        var c, bits := old(device.hw).chain, Falses(drBits);
        AtIdle() && device.hw.chain == DrScan(c, bits) && ReadsOver(tdo, into, DrScanTdo(c, bits))
    {
      var zeros := Zeros(drBits);
      BitsOfZeros(drBits);
      ok, tdo := Scan(zeros, drBits, into, true);
    }

    /** Idle clocks, at most seven to a command. */
    method ClkIdle(cycles: int) returns (ok: bool)
      requires device.Valid()
      modifies this, device
      ensures device.Valid() && device.faults >= old(device.faults) && (ok <==> device.faults == old(device.faults))
      ensures lastError == (old(lastError) || device.faults > old(device.faults))
      ensures ok && old(AtIdle()) ==> AtIdle() && device.hw == old(device.hw)
      ensures ok && old(AtIdle()) ==> device.clocks == old(device.clocks) + (if cycles > 0 then cycles else 0)
      ensures waits == if ok then old(waits) + [cycles] else old(waits)
    {
      hide Move, Walk;
      ghost var path;
      ok, path := GotoState(RunTestIdle);
      NoMove(old(device.hw));
      ghost var idle := old(AtIdle());
      if ok && idle { IdleIsClose(path); }
      if !ok { return; }
      if cycles <= 0 {
        waits := waits + [cycles];
        return;
      }
      var left := cycles;
      while left > 0
        invariant device.Valid() && ok && device.faults == old(device.faults) && lastError == old(lastError)
        invariant left >= 0 && waits == old(waits)
        invariant idle ==> AtIdle() && device.hw == old(device.hw)
        invariant idle ==> device.clocks == old(device.clocks) + cycles - left
      {
        var n := if left > 7 then 7 else left;
        ghost var h := device.hw;
        if idle { StaysIdle(h, n); }
        ok := SendTms(0x00, n);
        if !ok { return; }
        left := left - n;
      }
      waits := waits + [cycles];
    }

    /** `count` equal scans, sent 512 to a transfer, starting and ending in Run-Test/Idle. */
    method ShiftDRRepeat(count: int, drBits: int, tdi: seq<byte>) returns (ok: bool, flat: seq<byte>)
      requires device.Valid() && drBits <= 8 * |tdi|
      modifies this`state, this`lastError, device
      ensures device.Valid() && device.faults >= old(device.faults) && (ok <==> device.faults == old(device.faults))
      ensures lastError == (old(lastError) || device.faults > old(device.faults))
      ensures count <= 0 || drBits <= 0 ==> ok && flat == [] && device.hw == old(device.hw)
      ensures ok && count > 0 && drBits > 0 ==> |flat| == count * ((drBits + 7) / 8)
      ensures ok && old(AtIdle()) && count > 0 && drBits > 0 ==>
        var c, bits := old(device.hw).chain, Bits(tdi, 0, drBits);
        AtIdle() && device.hw.chain == DrScans(c, bits, count) && ScansOut(flat, c, bits, count)
    {
      hide Bits, DrScans, ScansOut, Walk, TmsBits;
      flat := [];
      if count <= 0 || drBits <= 0 {
        return true, [];
      }
      var lenToShift, tmsToShift := ComputeTmsPath(RunTestIdle, ShiftDr);
      var lenToIdle, tmsToIdle := ComputeTmsPath(Exit1Dr, RunTestIdle);
      PathsExist();
      IdleToShiftDr(TmsBits(tmsToShift, lenToShift));
      Exit1ToIdle(Exit1Dr, TmsBits(tmsToIdle, lenToIdle));
      assert TmsBits(tmsToShift, lenToShift) == [true, false, false] && TmsBits(tmsToIdle, lenToIdle) == [true, false];
      ghost var c, bits, idle := device.hw.chain, Bits(tdi, 0, drBits), AtIdle();
      NoScans(c, bits);
      ghost var per := (drBits + 7) / 8;
      var done := 0;
      while done < count
        invariant 0 <= done <= count && device.Valid() && |flat| == done * per
        invariant device.faults == old(device.faults) && lastError == old(lastError)
        invariant idle ==> device.fifo == [] && device.hw.tap == RunTestIdle
        invariant idle ==> device.hw.chain == DrScans(c, bits, done) && ScansOut(flat, c, bits, done)
      {
        var k := if count - done < 512 then count - done else 512;
        var more;
        ok, more := SendRounds(tdi, drBits, tmsToShift, lenToShift, tmsToIdle, lenToIdle, k);
        if !ok { return false, flat; }
        if idle {
          DrScansAppend(c, bits, done, k);
          ScansOutAppend(c, bits, flat, more, done, k);
        }
        assert (done + k) * per == done * per + k * per;
        flat := flat + more;
        done := done + k;
      }
      state := RunTestIdle;
      ok := true;
    }

    /** One transfer of a repeated scan. */
    method SendRounds(tdi: seq<byte>, n: nat, tmsToShift: byte, lenToShift: nat, tmsToIdle: byte, lenToIdle: nat,
                      k: nat)
        returns (ok: bool, out: seq<byte>)
      requires device.Valid() && 0 < n <= 8 * |tdi|
      requires 1 <= lenToShift <= 7 && TmsBits(tmsToShift, lenToShift) == [true, false, false]
      requires 1 <= lenToIdle <= 7 && TmsBits(tmsToIdle, lenToIdle) == [true, false]
      modifies this`lastError, device
      ensures device.Valid() && device.faults >= old(device.faults) && (ok <==> device.faults == old(device.faults))
      ensures lastError == (old(lastError) || device.faults > old(device.faults))
      ensures ok ==> |out| == k * ((n + 7) / 8)
      ensures ok && old(device.fifo) == [] && old(device.hw).tap == RunTestIdle ==>
        var c, bits := old(device.hw).chain, Bits(tdi, 0, n);
        && device.fifo == [] && device.hw.tap == RunTestIdle && device.hw.chain == DrScans(c, bits, k)
        && ScansOut(out, c, bits, k)
    {
      hide Bits, Slice, DrScans, DrScanTdo, RoundsCalls, HwAfter, Trace, Reply, CallsEvents, CallsPins,
           Layout, RawTdo, TmsBits, EncodeAll, ReadsAll;
      out := [];
      var cmd := new MpsseCommandBuffer();
      AppendRounds(cmd, tdi, n, tmsToShift, lenToShift, tmsToIdle, lenToIdle, k);
      ghost var toShift := Call.ClockTms(tmsToShift, lenToShift, false, false);
      ghost var toIdle := Call.ClockTms(tmsToIdle, lenToIdle, false, false);
      ghost var rounds, h := RoundsCalls(tdi, n, toShift, toIdle, k), device.hw;
      cmd.SendImmediate();
      assert cmd.calls == rounds + [Call.SendImmediate];
      RoundsRead(tdi, n, toShift, toIdle, k);
      ReadsAppend(rounds, [Call.SendImmediate]);
      FlushReads();
      ghost var idle := device.fifo == [] && h.tap == RunTestIdle;
      if idle {
        RoundsDo(h, device.rx, device.low, device.pins, tdi, n, toShift, toIdle, k);
        FlushDoes(device.pins, rounds);
      }
      var raw;
      ok, raw := device.Transfer(cmd);
      if !ok {
        lastError := true;
        return;
      }
      ok, out := UnpackRounds(raw, n, k);
      if ok && idle {
        RoundsOut(h.chain, Bits(tdi, 0, n), out, raw, n, k);
      }
    }
  }

  lemma IdleIsClose(p: seq<bool>)
    requires forall q :: Walk(RunTestIdle, q) == RunTestIdle ==> |p| <= |q|
    ensures p == []
  {
    assert Walk(RunTestIdle, []) == RunTestIdle;
  }

  lemma {:induction false} IdleClocks(h: Hw, tms: seq<bool>)
    requires h.Valid() && h.tap == RunTestIdle && forall i :: 0 <= i < |tms| ==> !tms[i]
    ensures Move(h, tms) == h
  {
    if tms != [] {
      IdleClocks(h, tms[1..]);
    }
  }

  lemma StaysIdle(h: Hw, n: nat)
    requires h.Valid() && h.tap == RunTestIdle && n <= 7
    ensures Move(h, TmsBits(0x00, n)) == h
  {
    hide Bit;
    forall i | 0 <= i < n ensures !TmsBits(0x00, n)[i] {
      assert TmsBits(0x00, n)[i] == Bit(0x00, i);
      BitOfZero(i);
    }
    IdleClocks(h, TmsBits(0x00, n));
  }

  lemma BitsOfZeros(n: nat)
    ensures Bits(Zeros(n), 0, n) == Falses(n)
  {
    hide Bit;
    GetBitOfZeros(n);
    forall k | 0 <= k < n ensures !Bits(Zeros(n), 0, n)[k] {
      assert !GetBit(Zeros(n), k);
    }
  }

  lemma DrScanIs(c: seq<Device>, bits: seq<bool>)
    requires ValidChain(c)
    ensures DrScan(c, bits) == UpdateDrChain(c, (CaptureDrPath(c) + bits)[|bits|..])
    ensures DrScanTdo(c, bits) == (CaptureDrPath(c) + bits)[..|bits|]
  {
  }

  lemma IrScanIs(c: seq<Device>, bits: seq<bool>)
    requires ValidChain(c)
    ensures IrScan(c, bits) == UpdateIrChain(c, (CaptureIrPath(c) + bits)[|bits|..])
  {
  }

  lemma {:induction false} ReadsAppend(a: seq<Call>, b: seq<Call>)
    ensures ReadsAll(a + b) == ReadsAll(a) + ReadsAll(b)
  {
    hide Reads;
    if a == [] {
      assert a + b == b;
    } else {
      assert (a + b)[1..] == a[1..] + b;
      ReadsAppend(a[1..], b);
    }
  }

  lemma ScanReads(tdi: seq<byte>, n: nat)
    requires 0 < n <= 8 * |tdi|
    ensures ReadsAll(ScanCalls(tdi, n, true)) == RawBytes(n)
  {
    hide GetBit;
    var bytes, r := (n - 1) / 8, (n - 1) % 8;
    var a := if bytes > 0 then [ShiftCall(tdi, 8 * bytes, true)] else [];
    var b := if r > 0 then [ShiftCall([tdi[bytes]], r, true)] else [];
    ReadsAppend(a + b, [ClockTms(0x01, 1, GetBit(tdi, n - 1), true)]);
    ReadsAppend(a, b);
  }

  /** The rounds of one transfer reply with whole scans. */
  lemma {:induction false} RoundsRead(tdi: seq<byte>, n: nat, toShift: Call, toIdle: Call, k: nat)
    requires 0 < n <= 8 * |tdi| && toShift.ClockTms? && toIdle.ClockTms? && !toShift.readTdo && !toIdle.readTdo
    ensures ReadsAll(RoundsCalls(tdi, n, toShift, toIdle, k)) == k * RawBytes(n)
  {
    hide ScanCalls;
    if k > 0 {
      RoundsRead(tdi, n, toShift, toIdle, k - 1);
      ScanReads(tdi, n);
      ReadsAppend(RoundsCalls(tdi, n, toShift, toIdle, k - 1), RoundCalls(tdi, n, toShift, toIdle));
      ReadsAppend([toShift] + ScanCalls(tdi, n, true), [toIdle]);
      ReadsAppend([toShift], ScanCalls(tdi, n, true));
    }
  }

  lemma FlushReads()
    ensures ReadsAll([Call.SendImmediate]) == 0
  {
  }

  lemma NoMove(h: Hw)
    requires h.Valid()
    ensures Move(h, []) == h && Walk(h.tap, []) == h.tap
  {
  }

  /** A walk that ends in a Shift state ends with TMS low. */
  lemma EndsLow(s: TapState, p: seq<bool>)
    requires p != []
    ensures Walk(s, p) in {ShiftDr, ShiftIr} ==> !p[|p| - 1]
  {
    var q, b := p[..|p| - 1], p[|p| - 1];
    assert p == q + [b];
    WalkSnoc(s, q, b);
  }

  /** h' is h after a Test-Logic-Reset, up to updates the five reset clocks may have caused. */
  ghost predicate WasReset(h: Hw, h': Hw) {
    && h.Valid() && h'.Valid() && h'.tap == RunTestIdle
    && var mid := Move(h, [true, true, true, true, true]);
       h'.chain == ResetChain(mid.chain)
  }

  lemma ResetCalls(p: Pins, h: Hw, c1: Call, c2: Call)
    requires h.Valid()
    requires c1 == Call.ClockTms(0x1F, 5, false, false) && c2 == Call.ClockTms(0x00, 1, false, false)
    ensures AllValid([c1] + [c2])
    ensures WasReset(h, HwAfter(h, CallsEvents(p, [c1] + [c2])))
  {
    hide Clock;
    var fives := [true, true, true, true, true];
    FiveOnes();
    ZeroBit();
    OneCall(p, c1);
    var p1 := CallsPins(p, [c1]);
    OneCall(p1, c2);
    CallsAppend(p, [c1], [c2]);
    HwAppend(h, CallsEvents(p, [c1]), CallsEvents(p1, [c2]));
    MoveIs(h, fives);
    MoveWalks(h, fives);
    FiveOnesReset(h.tap);
    var mid := Move(h, fives);
    MoveIs(mid, [false]);
    OneMove(mid);
  }

  lemma OneMove(h: Hw)
    requires h.Valid() && h.tap == TestLogicReset
    ensures Move(h, [false]).tap == RunTestIdle && Move(h, [false]).chain == ResetChain(h.chain)
  {
    assert [false][1..] == [];
    assert Move(Clock(h, false, false), []) == Clock(h, false, false);
  }

  lemma ZeroBit()
    ensures TmsBits(0x00, 1) == [false]
  {
    BitOfZero(0);
    assert TmsBits(0x00, 1)[0] == Bit(0x00, 0);
  }
}
