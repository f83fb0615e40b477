/** Whole runs of the BSCANE2 protocol: the shadow never lies, and every read sees the register last selected. */
module Session {
  import opened Bytes
  import opened IlaCore
  import opened Hardware
  import opened TapControl
  import opened Chain
  import opened Backend

  datatype Call =
    | Selecting(opcode: nat)
    | Shifting(drBits: nat, tdi: seq<byte>)
    | Batching(count: nat, drBits: nat, tdi: seq<byte>)
  {
    /** The payload is all there. */
    predicate Complete() {
      Selecting? || DataBits(drBits) <= 8 * |tdi|
    }
  }

  type Operation = c: Call | c.Complete() witness Selecting(0)

  /** The backend's two variables beside the core they talk to. */
  datatype State = State(core: Ila, pending: nat, shadow: nat)
  {
    ghost predicate Valid() {
      core.Valid() && pending < 32 && Synchronised(core, shadow)
    }

    /** The core when the next real scan captures. */
    function Ready(): (i: Ila)
      requires core.Valid() && pending < 32
      ensures i.Valid()
    {
      Primed(core, shadow, pending)
    }
  }

  function Step(s: State, op: Operation): (s': State)
    requires s.Valid()
  {
    match op
    case Selecting(opcode) => s.(pending := opcode % 32)
    case Shifting(n, tdi) => State(Latch(s.Ready(), s.pending, PayloadOf(tdi, n)), s.pending, s.pending)
    case Batching(k, n, tdi) =>
      if k == 0 then s else State(Latches(s.Ready(), s.pending, PayloadOf(tdi, n), k), s.pending, s.pending)
  }

  /** The data words an operation reads back. */
  function Words(s: State, op: Operation): seq<Word>
    requires s.Valid()
  {
    match op
    case Selecting(_) => []
    case Shifting(_, _) => [Preload(s.Ready())]
    case Batching(k, n, tdi) =>
      seq(k, j requires 0 <= j < k => Preload(Latches(s.Ready(), s.pending, PayloadOf(tdi, n), j)))
  }

  /** The bytes returned for an operation: one block for each word read. */
  ghost predicate Answers(reply: seq<byte>, s: State, op: Operation)
    requires s.Valid()
  {
    match op
    case Selecting(_) => reply == []
    case Shifting(n, _) => Returns(reply, n, Words(s, op)[0])
    case Batching(k, n, _) =>
      |reply| == k * ((n + 7) / 8) && forall j :: 0 <= j < k ==>
        Returns(Slice(reply, j, (n + 7) / 8), n, Words(s, op)[j])
  }

  lemma StepKeeps(s: State, op: Operation)
    requires s.Valid()
    ensures Step(s, op).Valid()
  {
    hide RegisterValue, CaptureFrame, Primed;
    PrimingReads(s.core, s.shadow, s.pending);
    match op {
      case Selecting(_) =>
      case Shifting(_, _) =>
      case Batching(k, n, tdi) => LatchesKeep(s.Ready(), s.pending, PayloadOf(tdi, n), k);
    }
  }

  ghost function Run(s: State, ops: seq<Operation>): (s': State)
    requires s.Valid()
    ensures s'.Valid()
    decreases |ops|
  {
    if ops == [] then s else StepKeeps(s, ops[0]); Run(Step(s, ops[0]), ops[1..])
  }

  /** The state before operation j of a run. */
  ghost function Before(s: State, ops: seq<Operation>, j: nat): (r: State)
    requires s.Valid() && j <= |ops|
    ensures r.Valid()
  {
    Run(s, ops[..j])
  }

  /** The state of a backend that is wired to a core. */
  ghost function StateOf(b: BscaneIlaTapBackend): (s: State)
    requires b.Wired()
    reads b, b.chain`devices, b.chain.tap`state, b.chain.tap.device
  {
    State(b.Core(), b.pendingIr, b.storedIrInHw)
  }

  /** A session on the backend itself is the run of the state machine: without a failed transfer it ends in
      the run's state, and reply j carries the words operation j reads there. */
  method Perform(b: BscaneIlaTapBackend, ops: seq<Operation>) returns (ok: bool, replies: seq<seq<byte>>)
    requires b.InStep() && forall i :: 0 <= i < |b.chain.devices| ==> b.chain.devices[i].irLength <= 32
    modifies b, b.chain`lastError, b.chain.tap, b.chain.tap.device
    ensures b.chain.tap.device.faults >= old(b.chain.tap.device.faults)
    ensures ok <==> b.chain.tap.device.faults == old(b.chain.tap.device.faults)
    ensures ok ==> b.InStep() && StateOf(b) == Run(old(StateOf(b)), ops)
    ensures ok ==> |replies| == |ops|
    ensures ok ==> forall j :: 0 <= j < |ops| ==> Answers(replies[j], Before(old(StateOf(b)), ops, j), ops[j])
  {
    hide Run, Step, Answers, BatchReturns, Returns, Latch, Latches, Primed, CaptureFrame;
    ghost var s := StateOf(b);
    RunNone(s, ops);
    replies := [];
    ok := true;
    for i := 0 to |ops|
      invariant ok && b.chain.tap.device.faults == old(b.chain.tap.device.faults)
      invariant b.InStep() && StateOf(b) == Before(s, ops, i) && |replies| == i
      invariant forall j :: 0 <= j < i ==> Answers(replies[j], Before(s, ops, j), ops[j])
      modifies b, b.chain`lastError, b.chain.tap, b.chain.tap.device
    {
      RunOne(s, ops, i);
      var reply;
      ok, reply := PerformOne(b, ops[i]);
      if !ok { return; }
      replies := replies + [reply];
    }
    assert ops[..|ops|] == ops;
  }

  method PerformOne(b: BscaneIlaTapBackend, op: Operation) returns (ok: bool, reply: seq<byte>)
    requires b.InStep() && forall i :: 0 <= i < |b.chain.devices| ==> b.chain.devices[i].irLength <= 32
    modifies b, b.chain`lastError, b.chain.tap, b.chain.tap.device
    ensures b.chain.tap.device.faults >= old(b.chain.tap.device.faults)
    ensures ok <==> b.chain.tap.device.faults == old(b.chain.tap.device.faults)
    ensures ok ==> b.InStep() && StateOf(b) == Step(old(StateOf(b)), op) && Answers(reply, old(StateOf(b)), op)
  {
    hide Returns, Latch, Latches, Primed, CaptureFrame, BatchReturns, PayloadOf, Preload;
    ghost var s := StateOf(b);
    PrimingReads(s.core, s.shadow, s.pending);
    reply := [];
    match op {
      case Selecting(opcode) => ok := b.SelectIr(opcode);
      case Shifting(n, tdi) => ok, reply := b.ShiftDr(n, tdi);
      case Batching(k, n, tdi) =>
        ok, reply := b.ShiftDrBatch(k, n, tdi);
        if ok { BatchAnswers(s, op, reply); }
    }
  }

  lemma BatchAnswers(s: State, op: Operation, reply: seq<byte>)
    requires s.Valid() && op.Batching?
    requires BatchReturns(reply, s.Ready(), s.pending, PayloadOf(op.tdi, op.drBits), op.drBits, op.count)
    ensures Answers(reply, s, op)
  {
    hide Returns, Latch, Latches, Primed, CaptureFrame, PayloadOf, Preload, Slice;
  }

  lemma RunNone(s: State, ops: seq<Operation>)
    requires s.Valid()
    ensures Before(s, ops, 0) == s
  {
  }

  lemma RunOne(s: State, ops: seq<Operation>, i: nat)
    requires s.Valid() && i < |ops|
    ensures Before(s, ops, i + 1) == Step(Before(s, ops, i), ops[i])
  {
    hide Run, Step;
    assert ops[..i + 1] == ops[..i] + [ops[i]];
    RunSnoc(s, ops[..i], ops[i]);
  }

  function LastSelected(ops: seq<Operation>, pending: nat): nat {
    if ops == [] then pending
    else LastSelected(ops[1..], if ops[0].Selecting? then ops[0].opcode % 32 else pending)
  }

  lemma {:induction false} PendingIsLastSelected(s: State, ops: seq<Operation>)
    requires s.Valid()
    ensures Run(s, ops).pending == LastSelected(ops, s.pending)
    decreases |ops|
  {
    hide Latch, Primed, Latches;
    if ops != [] {
      StepKeeps(s, ops[0]);
      PendingIsLastSelected(Step(s, ops[0]), ops[1..]);
    }
  }

  /** After any run from power-up or later, the shadow is unset or equals the hidden opcode, and each word
      read next is the value of the register named by the last selection at the moment of its capture. */
  lemma EveryReadSeesItsRegister(s: State, ops: seq<Operation>, drBits: nat, tdi: seq<byte>, count: nat, k: nat)
    requires s.Valid() && k < count && DataBits(drBits) <= 8 * |tdi|
    ensures var r := Run(s, ops);
      var p := r.Ready();
      && (r.shadow == NO_OPCODE || r.shadow == r.core.storedIr)
      && r.pending == LastSelected(ops, s.pending)
      && Words(r, Shifting(drBits, tdi)) == [RegisterValue(p, r.pending)]
      && Words(r, Batching(count, drBits, tdi))[k]
        == RegisterValue(Latches(p, r.pending, PayloadOf(tdi, drBits), k), r.pending)
  {
    hide RegisterValue, CaptureFrame, Latch, Primed;
    PendingIsLastSelected(s, ops);
    var r := Run(s, ops);
    PrimingReads(r.core, r.shadow, r.pending);
    LatchesKeep(r.Ready(), r.pending, PayloadOf(tdi, drBits), k);
  }

  /** k equal shifts leave the state a batch of k leaves. */
  lemma {:induction false} ShiftsRun(s: State, drBits: nat, tdi: seq<byte>, k: nat)
    requires s.Valid() && DataBits(drBits) <= 8 * |tdi|
    ensures Run(s, Repeat(Shifting(drBits, tdi), k)) == Step(s, Batching(k, drBits, tdi))
  {
    hide Latch, CaptureFrame, Primed, PayloadOf, RegisterValue;
    if k > 0 {
      ShiftsRun(s, drBits, tdi, k - 1);
      assert Repeat(Shifting(drBits, tdi), k) == Repeat(Shifting(drBits, tdi), k - 1) + [Shifting(drBits, tdi)];
      RunSnoc(s, Repeat(Shifting(drBits, tdi), k - 1), Shifting(drBits, tdi));
      ReadyAfter(s, drBits, tdi, k - 1);
    }
  }

  /** After a batch the next scan needs no priming. */
  lemma ReadyAfter(s: State, drBits: nat, tdi: seq<byte>, k: nat)
    requires s.Valid() && DataBits(drBits) <= 8 * |tdi|
    ensures var r := Step(s, Batching(k, drBits, tdi));
      r.Valid() && r.pending == s.pending && r.Ready() == Latches(s.Ready(), s.pending, PayloadOf(tdi, drBits), k)
  {
    hide Latch, CaptureFrame, Primed, PayloadOf, RegisterValue;
    StepKeeps(s, Batching(k, drBits, tdi));
    if k > 0 { AlreadyPrimed(Step(s, Batching(k, drBits, tdi)).core, s.pending); }
  }

  /** A batch reads and leaves what as many single shifts would. */
  lemma BatchIsShifts(s: State, drBits: nat, tdi: seq<byte>, count: nat)
    requires s.Valid() && DataBits(drBits) <= 8 * |tdi|
    ensures Run(s, Repeat(Shifting(drBits, tdi), count)) == Step(s, Batching(count, drBits, tdi))
    ensures forall k :: 0 <= k < count ==>
      Words(Run(s, Repeat(Shifting(drBits, tdi), k)), Shifting(drBits, tdi))
        == [Words(s, Batching(count, drBits, tdi))[k]]
  {
    hide Latch, CaptureFrame, Primed, PayloadOf, Run, Latches, Preload;
    ShiftsRun(s, drBits, tdi, count);
    forall k | 0 <= k < count
      ensures Words(Run(s, Repeat(Shifting(drBits, tdi), k)), Shifting(drBits, tdi))
        == [Words(s, Batching(count, drBits, tdi))[k]]
    {
      ShiftsRun(s, drBits, tdi, k);
      ReadyAfter(s, drBits, tdi, k);
    }
  }

  function Repeat(op: Operation, n: nat): (r: seq<Operation>)
    ensures |r| == n
  {
    seq(n, _ => op)
  }

  lemma {:induction false} RunSnoc(s: State, ops: seq<Operation>, op: Operation)
    requires s.Valid()
    ensures Run(s, ops + [op]) == Step(Run(s, ops), op)
    decreases |ops|
  {
    hide Latch, Primed, Latches, CaptureFrame;
    StepKeeps(Run(s, ops), op);
    if ops == [] {
      assert ops + [op] == [op] && [op][1..] == [];
    } else {
      StepKeeps(s, ops[0]);
      assert (ops + [op])[1..] == ops[1..] + [op];
      RunSnoc(Step(s, ops[0]), ops[1..], op);
    }
  }

  /** Why the shadow starts unset: with the reset opcode as its initial value, the first read skips the
      prime scan and returns the zeros of the cold chain in place of the IDCODE. */
  lemma StartingAtResetOpcodeReadsZeros(i: Ila)
    requires i.Valid() && !i.warm && i.storedIr == IR_IDCODE
    ensures Preload(Primed(i, IR_IDCODE, IR_IDCODE)) == Falses(32)
    ensures Preload(Primed(i, NO_OPCODE, IR_IDCODE)) == i.idcode
  {
  }

  /** The host always sends 37-bit frames, so a core with a narrower data path (a register of width W + 5,
      W < 32) latches bits that started 32 - W places later: the prime scan leaves the pending opcode in the
      latch exactly when W is 32 or the opcode is 0. */
  lemma NarrowCoreLosesOpcode(c: seq<Device>, pl: nat, op: nat, w: nat)
    requires Targets(c, pl) && op < 32 && w <= 32
    requires |CaptureDevice(c[pl])| == w + 5
    ensures var frame := FrameOf(op, Falses(32));
      && DrScan(c, Frame(|c|, pl, frame)) == c[pl := UpdateDevice(c[pl], frame[32 - w..])]
      && (frame[32 - w..][..5] == NatBits(op, 5) <==> w == 32 || op == 0)
  {
    hide DrScan, CaptureDevice, UpdateDevice, NatBits;
    var frame := FrameOf(op, Falses(32));
    TargetWrites(c, pl, frame);
    var bits, d := NatBits(op, 5), 32 - w;
    assert forall k :: 0 <= k < 5 ==> frame[d..][..5][k] == frame[d + k];
    if d > 0 {
      if frame[d..][..5] == bits {
        assert forall k :: 0 <= k < 5 ==> bits[k] == frame[d + k];
        ShiftedIsZero(bits, frame, d);
        ZeroBits(op);
      }
      if op == 0 {
        ZeroBits(0);
        assert frame[d..][..5] == bits;
      }
    } else {
      assert frame[d..][..5] == bits;
    }
  }

  lemma ShiftedIsZero(bits: seq<bool>, frame: seq<bool>, d: nat)
    requires |bits| == 5 && |frame| == 37 && 0 < d <= 32
    requires forall k :: 0 <= k < 5 ==> frame[k] == bits[k] && bits[k] == frame[d + k]
    requires forall k :: 5 <= k < 37 ==> !frame[k]
    ensures bits == Falses(5)
  {
    assert bits[4] == frame[d + 4] == false;
    assert bits[3] == frame[d + 3] && (d + 3 == 4 || !frame[d + 3]);
    assert bits[2] == frame[d + 2] && (d + 2 in {3, 4} || !frame[d + 2]);
    assert bits[1] == frame[d + 1] && (d + 1 in {2, 3, 4} || !frame[d + 1]);
    assert bits[0] == frame[d] && (d in {1, 2, 3, 4} || !frame[d]);
  }

  lemma ZeroBits(op: nat)
    requires op < 32
    ensures NatBits(op, 5) == Falses(5) <==> op == 0
  {
    BitsNatOfNatBits(op, 5);
    assert Pow2(5) == 32;
    assert BitsNat(Falses(5)) == 0 by {
      assert Falses(5)[1..] == Falses(4) && Falses(4)[1..] == Falses(3) && Falses(3)[1..] == Falses(2);
      assert Falses(2)[1..] == Falses(1) && Falses(1)[1..] == [];
      assert BitsNat(Falses(2)) == 0;
    }
    if op == 0 { NatBitsOfBitsNat(Falses(5)); }
  }
}
