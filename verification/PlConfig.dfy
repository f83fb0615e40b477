/** Configuring programmable logic: what stream of bits the CFG_IN register sees. */
module PlConfig {
  import opened Bytes
  import opened Hardware
  import opened TapControl
  import opened Chain

  // ----------------------------------------------- bits entering a register

  /** The bits that move, clock by clock, from place `at` of the scan path to place at - 1
      (from TDI when `at` is the whole path). */
  function Entering(path: seq<bool>, at: nat, tdi: seq<bool>): (r: seq<bool>)
    requires at <= |path|
    ensures |r| == |tdi|
    decreases |tdi|
  {
    if tdi == [] then []
    else
      var pushed := path + [tdi[0]];
      [pushed[at]] + Entering(pushed[1..], at, tdi[1..])
  }

  lemma {:induction false} EnteringIs(path: seq<bool>, at: nat, tdi: seq<bool>)
    requires at <= |path|
    ensures Entering(path, at, tdi) == (path + tdi)[at..at + |tdi|]
    decreases |tdi|
  {
    if tdi == [] {
      assert (path + tdi)[at..at] == [];
    } else {
      var pushed, whole := path + [tdi[0]], path + tdi;
      EnteringIs(pushed[1..], at, tdi[1..]);
      PushedFirst(path, at, tdi);
      FirstOfSlice(whole, at, |tdi|);
    }
  }

  lemma PushedFirst(path: seq<bool>, at: nat, tdi: seq<bool>)
    requires at <= |path| && tdi != []
    ensures (path + [tdi[0]])[1..] + tdi[1..] == (path + tdi)[1..] && (path + [tdi[0]])[at] == (path + tdi)[at]
  {
  }

  lemma FirstOfSlice(s: seq<bool>, at: nat, n: nat)
    requires 0 < n && at + n <= |s|
    ensures s[at..at + n] == [s[at]] + s[1..][at..at + (n - 1)]
  {
  }

  /** The bits that enter device t's data register during a scan of tdi. */
  function EntersDevice(c: seq<Device>, t: nat, tdi: seq<bool>): seq<bool>
    requires Targets(c, t)
  {
    TargetPath(c, t);
    Entering(CaptureDrPath(c), t + |CaptureDevice(c[t])|, tdi)
  }

  /** Padding the TDI bits with one zero per bypassed device gets every payload bit into the target:
      its register first sees the captured zeros of the devices nearer TDI, then the payload. */
  lemma PaddedEnters(c: seq<Device>, t: nat, payload: seq<bool>)
    requires Targets(c, t)
    ensures EntersDevice(c, t, payload + Falses(|c| - 1)) == Falses(|c| - 1 - t) + payload + Falses(t)
  {
    hide CaptureDevice;
    var tdi, w := payload + Falses(|c| - 1), |CaptureDevice(c[t])|;
    TargetPath(c, t);
    EnteringIs(CaptureDrPath(c), t + w, tdi);
    assert CaptureDrPath(c)[t + w..] == Falses(|c| - 1 - t);
    assert (CaptureDrPath(c) + tdi)[t + w..] == Falses(|c| - 1 - t) + tdi;
    assert (Falses(|c| - 1 - t) + tdi)[..|tdi|] == Falses(|c| - 1 - t) + payload + Falses(t);
  }

  /** Without the padding the last payload bits never arrive: one is lost per device nearer TDI. */
  lemma UnpaddedLosesBits(c: seq<Device>, t: nat, payload: seq<bool>)
    requires Targets(c, t) && |payload| >= |c| - 1 - t
    ensures EntersDevice(c, t, payload) == Falses(|c| - 1 - t) + payload[..|payload| - (|c| - 1 - t)]
  {
    hide CaptureDevice;
    var w := |CaptureDevice(c[t])|;
    TargetPath(c, t);
    EnteringIs(CaptureDrPath(c), t + w, payload);
    assert CaptureDrPath(c)[t + w..] == Falses(|c| - 1 - t);
    assert (CaptureDrPath(c) + payload)[t + w..] == Falses(|c| - 1 - t) + payload;
  }

  // ------------------------------------------------------------- bit order

  method BitReverseByte(x: byte) returns (b: byte)
    ensures forall j {:trigger Bit(b, j)} :: 0 <= j < 8 ==> Bit(b, j) == Bit(x, 7 - j)
  {
    b := ((x & 0xF0) >> 4) | ((x & 0x0F) << 4);
    b := ((b & 0xCC) >> 2) | ((b & 0x33) << 2);
    b := ((b & 0xAA) >> 1) | ((b & 0x55) << 1);
    assert Bit(b, 0) == Bit(x, 7) && Bit(b, 1) == Bit(x, 6) && Bit(b, 2) == Bit(x, 5) && Bit(b, 3) == Bit(x, 4);
    assert Bit(b, 4) == Bit(x, 3) && Bit(b, 5) == Bit(x, 2) && Bit(b, 6) == Bit(x, 1) && Bit(b, 7) == Bit(x, 0);
  }

  /** The bits of a file as the configuration logic numbers them: byte by byte, MSB first. */
  function MsbFirst(bytes: seq<byte>): (r: seq<bool>)
    ensures |r| == 8 * |bytes|
  {
    seq(8 * |bytes|, k requires 0 <= k < 8 * |bytes| => Bit(bytes[k / 8], 7 - k % 8))
  }

  ghost predicate Reversed(body: seq<byte>, bytes: seq<byte>) {
    && |body| == |bytes|
    && forall i, j {:trigger Bit(body[i], j)} :: 0 <= i < |body| && 0 <= j < 8 ==>
      Bit(body[i], j) == Bit(bytes[i], 7 - j)
  }

  lemma ReversedIsMsbFirst(body: seq<byte>, bytes: seq<byte>)
    requires Reversed(body, bytes)
    ensures Bits(body, 0, 8 * |body|) == MsbFirst(bytes)
  {
    hide Bit;
  }

  // --------------------------------------------------------- the bitstream

  const SYNC: seq<byte> := [0xAA, 0x99, 0x55, 0x66]

  ghost predicate SyncAt(raw: seq<byte>, i: nat) {
    && i + 4 <= |raw|
    && raw[i] == 0xAA && raw[i + 1] == 0x99 && raw[i + 2] == 0x55 && raw[i + 3] == 0x66
  }

  /** Where the body starts: at the first sync word, or at byte 0 when there is none. */
  ghost predicate BodyStartsAt(raw: seq<byte>, start: nat) {
    && start <= |raw|
    && (forall i :: 0 <= i < start ==> !SyncAt(raw, i))
    && (SyncAt(raw, start) || (start == 0 && forall i {:trigger SyncAt(raw, i)} :: 0 <= i ==> !SyncAt(raw, i)))
  }

  /** Reverses every byte, so that LSB-first shifting sends the file MSB first. */
  method ReverseBytes(bytes: seq<byte>) returns (body: seq<byte>)
    ensures |body| == |bytes| && Reversed(body, bytes)
  {
    hide Bit;
    body := [];
    for i := 0 to |bytes|
      invariant |body| == i && Reversed(body, bytes[..i])
    {
      var b := BitReverseByte(bytes[i]);
      ReversedSnoc(body, bytes[..i], b, bytes[i]);
      assert bytes[..i + 1] == bytes[..i] + [bytes[i]];
      body := body + [b];
    }
    assert bytes[..|bytes|] == bytes;
  }

  lemma ReversedSnoc(body: seq<byte>, bytes: seq<byte>, b: byte, x: byte)
    requires Reversed(body, bytes) && forall j {:trigger Bit(b, j)} :: 0 <= j < 8 ==> Bit(b, j) == Bit(x, 7 - j)
    ensures Reversed(body + [b], bytes + [x])
  {
    hide Bit;
  }

  method LoadBitstream(raw: seq<byte>) returns (ok: bool, body: seq<byte>, ghost start: nat)
    ensures ok == (raw != [])
    ensures ok ==> start < |raw| && |body| == |raw| - start
    ensures ok ==> BodyStartsAt(raw, start) && Reversed(body, raw[start..])
  {
    hide Bit, Reversed;
    body := [];
    if raw == [] {
      return false, [], 0;
    }
    var at := 0;
    var i := 0;
    while i + 4 <= |raw|
      invariant 0 <= i && at == 0
      invariant forall j :: 0 <= j < i ==> !SyncAt(raw, j)
    {
      if raw[i..i + 4] == SYNC {
        at := i;
        break;
      }
      i := i + 1;
    }
    start := at;
    body := ReverseBytes(raw[at..]);
    ok := true;
  }

  // ---------------------------------------------------- the status request

  const NOOP: bv32 := 0x20000000

  const SYNC_WORD: bv32 := 0xAA995566

  const READ_STAT: bv32 := 0x2800E001

  const STAT_REQUEST := [NOOP, SYNC_WORD, NOOP, NOOP, READ_STAT, NOOP, NOOP, NOOP, NOOP]

  function BigEndian(w: bv32): seq<byte> {
    [((w >> 24) & 0xFF) as byte, ((w >> 16) & 0xFF) as byte, ((w >> 8) & 0xFF) as byte, (w & 0xFF) as byte]
  }

  function BigEndianWords(words: seq<bv32>): seq<byte> {
    if words == [] then [] else BigEndianWords(words[..|words| - 1]) + BigEndian(words[|words| - 1])
  }

  /** The status request, byte-reversed for the wire. */
  method BuildStatReadPacket() returns (pkt: seq<byte>)
    ensures |pkt| == 36 && Reversed(pkt, StatBytes())
  {
    hide Bit, Reversed, BigEndian, StatBytes;
    var words := STAT_REQUEST;
    pkt := [];
    ReversedNothing();
    for i := 0 to |words|
      invariant |pkt| == 4 * i
      invariant Reversed(pkt, BigEndianWords(words[..i]))
    {
      var w := words[i];
      var bytes := BigEndian(w);
      FourBytes(w);
      var tail := ReverseBytes(bytes);
      ReversedConcat(pkt, BigEndianWords(words[..i]), tail, bytes);
      assert words[..i + 1][..i] == words[..i];
      pkt := pkt + tail;
    }
    assert words[..|words|] == words;
    RequestBytes();
  }

  /** The request as the configuration port reads it: NOOP, the sync word, two NOOPs, read STAT, four NOOPs. */
  function StatBytes(): seq<byte> {
    [0x20, 0x00, 0x00, 0x00] + [0xAA, 0x99, 0x55, 0x66] + [0x20, 0x00, 0x00, 0x00] + [0x20, 0x00, 0x00, 0x00]
      + [0x28, 0x00, 0xE0, 0x01] + [0x20, 0x00, 0x00, 0x00] + [0x20, 0x00, 0x00, 0x00] + [0x20, 0x00, 0x00, 0x00]
      + [0x20, 0x00, 0x00, 0x00]
  }

  lemma RequestBytes()
    ensures BigEndianWords(STAT_REQUEST) == StatBytes()
  {
    hide BigEndian, BigEndianWords;
    RequestWords();
    NoWords();
    var w0: seq<bv32> := [];
    var w1 := w0 + [NOOP];
    var w2 := w1 + [SYNC_WORD];
    var w3 := w2 + [NOOP];
    var w4 := w3 + [NOOP];
    var w5 := w4 + [READ_STAT];
    var w6 := w5 + [NOOP];
    var w7 := w6 + [NOOP];
    var w8 := w7 + [NOOP];
    WordsSnoc(w0, NOOP);
    assert [] + BigEndian(NOOP) == BigEndian(NOOP);
    WordsSnoc(w1, SYNC_WORD);
    WordsSnoc(w2, NOOP);
    WordsSnoc(w3, NOOP);
    WordsSnoc(w4, READ_STAT);
    WordsSnoc(w5, NOOP);
    WordsSnoc(w6, NOOP);
    WordsSnoc(w7, NOOP);
    WordsSnoc(w8, NOOP);
    assert STAT_REQUEST == w8 + [NOOP];
  }

  lemma NoWords()
    ensures BigEndianWords([]) == []
  {
  }

  lemma RequestWords()
    ensures BigEndian(NOOP) == [0x20, 0x00, 0x00, 0x00] && BigEndian(SYNC_WORD) == [0xAA, 0x99, 0x55, 0x66]
    ensures BigEndian(READ_STAT) == [0x28, 0x00, 0xE0, 0x01]
  {
  }

  lemma WordsSnoc(words: seq<bv32>, w: bv32)
    ensures BigEndianWords(words + [w]) == BigEndianWords(words) + BigEndian(w)
  {
    hide BigEndian;
    assert (words + [w])[..|words|] == words;
  }

  lemma FourBytes(w: bv32)
    ensures |BigEndian(w)| == 4
  {
  }

  lemma ReversedNothing()
    ensures Reversed([], [])
  {
  }

  lemma ReversedConcat(a: seq<byte>, x: seq<byte>, b: seq<byte>, y: seq<byte>)
    requires Reversed(a, x) && Reversed(b, y)
    ensures Reversed(a + b, x + y) && |b| == |y|
  {
    hide Bit;
  }

  // -------------------------------------------------------- the programmer

  const CFG_OUT := 0x04

  const CFG_IN := 0x05

  const JPROGRAM := 0x0B

  const JSTART := 0x0C

  const BYPASS := 0x3F

  class PlConfig {
    const chain: JtagChain
    const deviceIndex: int

    constructor (chain: JtagChain, deviceIndex: int)
      ensures this.chain == chain && this.deviceIndex == deviceIndex
    {
      this.chain, this.deviceIndex := chain, deviceIndex;
    }

    ghost predicate Sound()
      reads chain`devices, chain.tap`state, chain.tap.device
    {
      chain.tap.device.Valid() && forall i :: 0 <= i < |chain.devices| ==> chain.devices[i].irLength <= 32
    }

    ghost function Faults(): nat
      reads chain.tap.device
    {
      chain.tap.device.faults
    }

    /** Shifts `body` followed by one zero per bypassed device. */
    method ShiftIn(body: seq<byte>) returns (ok: bool)
      requires Sound() && 0 <= deviceIndex < |chain.devices|
      modifies chain.tap`state, chain.tap`lastError, chain.tap.device
      ensures Sound() && Faults() >= old(Faults())
      ensures ok <==> 8 * |body| + |chain.devices| > 1 && Faults() == old(Faults())
      ensures ok && old(chain.Addressing(deviceIndex)) ==>
        var c := old(chain.tap.device.hw).chain;
        && chain.Addressing(deviceIndex)
        && chain.tap.device.hw.chain == DrScan(c, Bits(body, 0, 8 * |body|) + Falses(|c| - 1))
    {
      hide DrScan, GetBit, Targets;
      var bypassCount := 0;
      for i := 0 to |chain.devices|
        invariant bypassCount == if i <= deviceIndex then i else i - 1
        modifies {}
      {
        if i != deviceIndex { bypassCount := bypassCount + 1; }
      }
      var totalBits := 8 * |body| + bypassCount;
      var tdi := Resize(body, (totalBits + 7) / 8);
      ghost var c := chain.tap.device.hw.chain;
      ResizedBits(body, bypassCount);
      ok := chain.tap.ShiftDRWrite(tdi, totalBits);
      if ok && old(chain.Addressing(deviceIndex)) {
        DrScanKeepsTarget(c, Bits(tdi, 0, totalBits), Lengths(chain.devices), deviceIndex);
      }
    }

    /** Loads an instruction into the target and lets some idle clocks pass; their result is ignored. */
    method Load(instruction: nat, cycles: nat) returns (ok: bool)
      requires Sound()
      modifies chain`lastError, chain.tap, chain.tap.device
      ensures Sound() && Faults() >= old(Faults()) && (ok ==> 0 <= deviceIndex < |chain.devices|)
      ensures old(chain.Ready()) && Faults() == old(Faults()) ==> (ok <==> 0 <= deviceIndex < |chain.devices|)
      ensures ok && Faults() == old(Faults()) && old(chain.Ready()) ==> var c := old(chain.tap.device.hw).chain;
        chain.Addressing(deviceIndex) && chain.tap.device.hw.chain == Select(c, deviceIndex, instruction)
      ensures ok && Faults() == old(Faults()) ==> chain.tap.waits == old(chain.tap.waits) + [cycles]
    {
      hide Select, Targets;
      ok := chain.SelectInstruction(deviceIndex, instruction);
      if !ok { return; }
      var waited := chain.tap.ClkIdle(cycles);
    }

    /** Steps 1 to 5: clear, wait, load, start. The results of the idle waits are ignored. */
    method Configure(raw: seq<byte>) returns (ok: bool, ghost start: nat)
      requires Sound()
      modifies chain`lastError, chain.tap, chain.tap.device
      ensures Sound() && Faults() >= old(Faults())
      ensures ok ==> raw != [] && 0 <= deviceIndex < |chain.devices|
      ensures old(chain.Ready()) && Faults() == old(Faults()) ==>
        (ok <==> raw != [] && 0 <= deviceIndex < |chain.devices|)
      ensures raw != [] ==> start < |raw| && BodyStartsAt(raw, start)
      ensures ok && Faults() == old(Faults()) && old(chain.Ready()) ==>
        var c, t := old(chain.tap.device.hw).chain, deviceIndex;
        var loading := Select(Select(c, t, 0x0B), t, 0x05);
        && ValidChain(loading) && chain.Addressing(t)
        && chain.tap.device.hw.chain ==
           Select(Select(DrScan(loading, MsbFirst(raw[start..]) + Falses(|c| - 1)), t, 0x0C), t, 0x3F)
      ensures ok && Faults() == old(Faults()) ==>
        chain.tap.waits == old(chain.tap.waits) + [16, 600000, 2, 16384, 16]
    {
      hide DrScan, Select, Bits, MsbFirst, Reversed, BodyStartsAt, Targets;
      start := 0;
      var body;
      ok, body, start := LoadBitstream(raw);
      if !ok { return; }
      ok := Load(JPROGRAM, 16);
      if !ok { return; }
      var waited := chain.tap.ClkIdle(600000);
      ok := Load(CFG_IN, 2);
      if !ok { return; }
      ReversedIsMsbFirst(body, raw[start..]);
      ok := ShiftIn(body);
      if !ok { return; }
      ok := Load(JSTART, 16384);
      if !ok { return; }
      ok := Load(BYPASS, 16);
    }

    /** Sends the status request through CFG_IN and reads 32 bits of CFG_OUT. */
    method ReadStatus() returns (ok: bool, stat: nat)
      requires Sound()
      modifies chain`lastError, chain.tap, chain.tap.device
      ensures Sound() && Faults() >= old(Faults())
      ensures old(chain.Ready()) && Faults() == old(Faults()) ==> (ok <==> 0 <= deviceIndex < |chain.devices|)
      ensures ok && Faults() == old(Faults()) && old(chain.Ready()) ==>
        var c, t := old(chain.tap.device.hw).chain, deviceIndex;
        0 <= t < |c| && ValidChain(Select(c, t, 0x05)) &&
        var asking := DrScan(Select(c, t, 0x05), MsbFirst(StatBytes()) + Falses(|c| - 1));
        && Select(asking, t, 0x04)[t].Valid()
        && stat == BitsNat(FirstBits(CaptureDevice(Select(asking, t, 0x04)[t]), 32))
      ensures ok && Faults() == old(Faults()) ==> chain.tap.waits == old(chain.tap.waits) + [16, 16, 16]
    {
      hide DrScan, Select, Bits, MsbFirst, Reversed, Targets, BitsNat, CaptureDevice, StatBytes;
      stat := 0;
      ok := Load(CFG_IN, 16);
      if !ok { return; }
      var pkt := BuildStatReadPacket();
      ReversedIsMsbFirst(pkt, StatBytes());
      ok := ShiftIn(pkt);
      if !ok { return; }
      var waited := chain.tap.ClkIdle(16);
      ok := Load(CFG_OUT, 16);
      if !ok { return; }
      ghost var answering := chain.tap.device.hw.chain;
      var raw;
      ok, raw := chain.ReadDataDR(deviceIndex, 32);
      if !ok { return; }
      stat := ReadNumber(raw, 0, 32);
      if Faults() == old(Faults()) && old(chain.Ready()) {
        BitsOfPacked(raw, FirstBits(CaptureDevice(answering[deviceIndex]), 32));
      }
    }
  }

  lemma ResizedBits(body: seq<byte>, extra: nat)
    ensures var n := 8 * |body| + extra;
      Bits(Resize(body, (n + 7) / 8), 0, n) == Bits(body, 0, 8 * |body|) + Falses(extra)
  {
    hide Bit;
    var n := 8 * |body| + extra;
    var full := Resize(body, (n + 7) / 8);
    forall k | 0 <= k < n ensures Bits(full, 0, n)[k] == (Bits(body, 0, 8 * |body|) + Falses(extra))[k] {
      BitOfZero(k % 8);
    }
  }
}
