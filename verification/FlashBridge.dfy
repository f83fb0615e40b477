/** SPI transactions carried over the JTAG chain through a target's USER1 register. */
module FlashBridge {
  import opened Bytes
  import opened Hardware
  import opened TapControl
  import opened Chain
  import opened PlConfig

  const USER1 := 0x02

  /** The target's instruction is the device's own code for USER1. */
  ghost predicate Selected(c: seq<Device>, t: nat) {
    t < |c| && c[t].ir == NatBits(0x02, |c[t].ir|)
  }

  /** The chain a transfer shifts through. */
  function Selecting(c: seq<Device>, t: nat, already: bool): (c': seq<Device>) {
    if already then c else Select(c, t, 0x02)
  }

  lemma SelectSelects(c: seq<Device>, t: nat)
    requires t < |c|
    ensures Selected(Select(c, t, 0x02), t)
  {
    hide NatBits;
  }

  lemma DrScanKeepsSelected(c: seq<Device>, tdi: seq<bool>, t: nat)
    requires ValidChain(c) && Selected(c, t)
    ensures Selected(DrScan(c, tdi), t)
  {
    hide NatBits, CaptureDevice, UpdateDevice;
  }

  lemma ReversedBack(rx: seq<byte>, packed: seq<byte>)
    requires Reversed(rx, packed)
    ensures MsbFirst(rx) == Bits(packed, 0, 8 * |packed|)
  {
    hide Bit;
    forall k | 0 <= k < 8 * |rx| ensures MsbFirst(rx)[k] == GetBit(packed, k) {
      assert Bit(rx[k / 8], 7 - k % 8) == Bit(packed[k / 8], k % 8);
    }
  }

  /** A USER1 register exactly as wide as the transaction ends up holding the bytes, and returns what it captured. */
  lemma ExactRegisterExchange(c: seq<Device>, t: nat, tx: seq<byte>)
    requires Targets(c, t) && |CaptureDevice(c[t])| == 8 * |tx|
    ensures DrScan(c, Frame(|c|, t, MsbFirst(tx))) == c[t := UpdateDevice(c[t], MsbFirst(tx))]
    ensures DrScanTdo(c, Frame(|c|, t, MsbFirst(tx)))[t..t + 8 * |tx|] == CaptureDevice(c[t])
  {
    hide CaptureDevice, UpdateDevice, MsbFirst, Targets, DrScan, DrScanTdo;
    TargetWrites(c, t, MsbFirst(tx));
    assert MsbFirst(tx)[0..] == MsbFirst(tx);
    TargetReads(c, t, MsbFirst(tx));
  }

  /** What a register that listens from the first clock of the scan hears: one zero per other device, then the bytes. */
  lemma BridgeHears(c: seq<Device>, t: nat, payload: seq<bool>)
    requires Targets(c, t)
    ensures EntersDevice(c, t, Frame(|c|, t, payload)) == Falses(|c| - 1) + payload
  {
    hide CaptureDevice;
    var tdi, w := Frame(|c|, t, payload), |CaptureDevice(c[t])|;
    TargetPath(c, t);
    EnteringIs(CaptureDrPath(c), t + w, tdi);
    assert CaptureDrPath(c)[t + w..] == Falses(|c| - 1 - t);
    assert (CaptureDrPath(c) + tdi)[t + w..] == Falses(|c| - 1 - t) + tdi;
    assert (Falses(|c| - 1 - t) + tdi)[..|tdi|] == Falses(|c| - 1) + payload;
  }

  /** For a listener that frames bytes from its first clock, a command arrives as sent exactly when the target is
      alone in the chain or all its bits are zeros. */
  lemma CommandArrivesIffAlone(c: seq<Device>, t: nat, payload: seq<bool>)
    requires Targets(c, t)
    ensures EntersDevice(c, t, Frame(|c|, t, payload))[..|payload|] == payload <==> |c| == 1 || true !in payload
  {
    hide EntersDevice;
    BridgeHears(c, t, payload);
    DelayedIsSame(|c| - 1, payload);
  }

  /** Bits pushed back by d zeros read the same only if there is no delay or nothing but zeros. */
  lemma DelayedIsSame(d: nat, p: seq<bool>)
    ensures (Falses(d) + p)[..|p|] == p <==> d == 0 || true !in p
  {
    var heard := (Falses(d) + p)[..|p|];
    if heard == p && d > 0 {
      AllLow(d, p, |p|);
    }
    if d == 0 || true !in p {
      forall k | 0 <= k < |p| ensures heard[k] == p[k] {
        if d > 0 && k >= d { assert !p[k] && !p[k - d]; }
        if d > 0 && k < d { assert !p[k]; }
      }
    }
  }

  lemma {:induction false} AllLow(d: nat, p: seq<bool>, k: nat)
    requires d > 0 && (Falses(d) + p)[..|p|] == p && k <= |p|
    ensures forall i :: 0 <= i < k ==> !p[i]
  {
    if k > 0 {
      AllLow(d, p, k - 1);
      assert p[k - 1] == (Falses(d) + p)[..|p|][k - 1];
    }
  }

  class FlashJtagBridge {
    const chain: JtagChain
    const deviceIndex: int
    var user1Selected: bool

    constructor (chain: JtagChain, deviceIndex: int)
      ensures this.chain == chain && this.deviceIndex == deviceIndex && !user1Selected
    {
      this.chain, this.deviceIndex, user1Selected := chain, deviceIndex, false;
    }

    /** The remembered selection is the hardware's. */
    ghost predicate InStep()
      reads this, chain`devices, chain.tap`state, chain.tap.device
    {
      && chain.Ready() && 0 <= deviceIndex
      && (user1Selected ==> chain.Addressing(deviceIndex) && Selected(chain.tap.device.hw.chain, deviceIndex))
    }

    /** One transaction: the bytes go out MSB first at the target's place in the chain, and come back the same way. */
    method Transfer(tx: seq<byte>) returns (ok: bool, rx: seq<byte>)
      requires chain.tap.device.Valid() && forall i :: 0 <= i < |chain.devices| ==> chain.devices[i].irLength <= 32
      modifies this`user1Selected, chain`lastError, chain.tap, chain.tap.device
      ensures chain.tap.device.Valid() && chain.tap.device.faults >= old(chain.tap.device.faults)
      ensures ok ==> chain.tap.device.faults == old(chain.tap.device.faults)
      ensures old(InStep()) && chain.tap.device.faults == old(chain.tap.device.faults) ==>
        (ok <==> tx != [] && 0 <= deviceIndex < |chain.devices|)
      ensures tx == [] || !(0 <= deviceIndex < |chain.devices|) ==>
        !ok && chain.tap.device.hw == old(chain.tap.device.hw) && user1Selected == old(user1Selected)
      ensures ok && old(InStep()) ==>
        var t, c := deviceIndex, Selecting(old(chain.tap.device.hw).chain, deviceIndex, old(user1Selected));
        && InStep() && user1Selected && |rx| == |tx| && ValidChain(c) && t < |c|
        && chain.tap.device.hw.chain == DrScan(c, Frame(|c|, t, MsbFirst(tx)))
        && MsbFirst(rx) == DrScanTdo(c, Frame(|c|, t, MsbFirst(tx)))[t..t + 8 * |tx|]
    {
      hide DrScan, DrScanTdo, Bits, Targets, Frame, MsbFirst, Reversed, Holds, Select, ReadsOver;
      rx := [];
      if tx == [] { return false, []; }
      if deviceIndex < 0 || deviceIndex >= |chain.devices| { return false, []; }
      ghost var sync := InStep();
      ghost var c := Selecting(chain.tap.device.hw.chain, deviceIndex, user1Selected);
      if !user1Selected {
        ghost var was := chain.tap.device.hw.chain;
        ok := chain.SelectInstruction(deviceIndex, USER1);
        if !ok { return; }
        user1Selected := true;
        if sync { SelectSelects(was, deviceIndex); }
      }
      assert sync ==> InStep() && chain.tap.device.hw.chain == c;
      var dataBits, n := 8 * |tx|, |chain.devices|;
      var body := ReverseBytes(tx);
      ReversedIsMsbFirst(body, tx);
      ghost var frame := Frame(n, deviceIndex, MsbFirst(tx));
      FrameLength(n, deviceIndex, MsbFirst(tx));
      var tdi := AssembleFrame(n, deviceIndex, body, dataBits);
      HoldsBits(tdi, frame);
      var tdo;
      ok, tdo := chain.tap.ShiftDR(tdi, n - 1 + dataBits, []);
      if !ok { return; }
      var packed := ExtractBits(tdo, deviceIndex, dataBits);
      rx := ReverseBytes(packed);
      BitsOfPacked(packed, Bits(tdo, deviceIndex, dataBits));
      ReversedBack(rx, packed);
      if sync {
        FreshReads(tdo, DrScanTdo(c, frame));
        ExtractedIs(tdo, DrScanTdo(c, frame), deviceIndex, dataBits);
        DrScanKeepsTarget(c, frame, Lengths(chain.devices), deviceIndex);
        DrScanKeepsSelected(c, frame, deviceIndex);
      }
    }
  }
}
