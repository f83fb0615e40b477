/** The worker's capture session: a trigger state machine over a ring of frames. */
module CaptureSession {
  import opened Scanner
  import opened Trigger
  import opened Ring

  datatype CaptureState = Stopped | Running | WaitingTrigger | Triggered | Complete

  datatype SampleFrame = SampleFrame(data: ScanResult, triggerPoint: bool)

  const EMPTY_FRAME := SampleFrame(ScanResult([], map[]), false)

  /** Number of values of the size type the countdown is kept in. */
  const SIZES := 0x1_0000_0000_0000_0000

  // ------------------------------------------------- what a run should be

  /** The index of the first sample on which the trigger fires; the first sample has no predecessor and never does. */
  ghost function FirstFire(cs: seq<TriggerCondition>, s: seq<ScanResult>): (k: int)
    ensures -1 <= k < |s| && k != 0
  {
    if |s| < 2 then -1
    else
      var earlier := FirstFire(cs, s[..|s| - 1]);
      if earlier >= 0 then earlier
      else if AllMet(cs, s[|s| - 2], s[|s| - 1]) then |s| - 1
      else -1
  }

  lemma {:induction false} FirstFireIsFirst(cs: seq<TriggerCondition>, s: seq<ScanResult>)
    ensures var k := FirstFire(cs, s);
      && (k >= 1 ==> AllMet(cs, s[k - 1], s[k]))
      && (forall i {:trigger s[i]} :: 1 <= i < |s| && (k < 0 || i < k) ==> !AllMet(cs, s[i - 1], s[i]))
  {
    hide AllMet;
    if |s| >= 2 {
      var t := s[..|s| - 1];
      FirstFireIsFirst(cs, t);
      var k := FirstFire(cs, s);
      forall i {:trigger s[i]} | 1 <= i < |s| && (k < 0 || i < k) ensures !AllMet(cs, s[i - 1], s[i]) {
        if i < |t| { assert t[i] == s[i] && t[i - 1] == s[i - 1]; }
      }
    }
  }

  /** The frames a run of samples becomes: in NORMAL mode only the first firing sample is flagged. */
  ghost function History(mode: TriggerMode, cs: seq<TriggerCondition>, s: seq<ScanResult>): (h: seq<SampleFrame>)
    ensures |h| == |s|
  {
    seq(|s|, i requires 0 <= i < |s| => SampleFrame(s[i], mode == Normal && i == FirstFire(cs, s)))
  }

  /** Samples to keep from before the trigger. */
  function PreTrigger(depth: nat, ratio: real): int {
    (ratio * depth as real).Floor
  }

  lemma PreTriggerFits(depth: nat, ratio: real)
    requires 0.0 <= ratio <= 1.0 && depth > 0
    ensures 0 <= PreTrigger(depth, ratio) <= depth
    ensures PreTrigger(depth, ratio) == depth <==> ratio == 1.0
  {
    var d := depth as real;
    assert ratio * d <= d && ratio * d >= 0.0;
    if ratio < 1.0 {
      assert (1.0 - ratio) * d > 0.0;
    }
  }

  /** Samples from the trigger on: the rest of the buffer, or, when nothing is left, a full turn of the countdown. */
  function PostTrigger(depth: nat, ratio: real): int {
    var pre := PreTrigger(depth, ratio);
    if pre < depth then depth - pre else SIZES
  }

  /** Where a run that has not been stopped stands after the samples s. */
  ghost function Progress(mode: TriggerMode, cs: seq<TriggerCondition>, depth: nat, ratio: real,
                          s: seq<ScanResult>): CaptureState {
    var k := FirstFire(cs, s);
    match mode
    case FreeRun => if |s| >= depth then Complete else Running
    case Single => if |s| >= 1 then Complete else Running
    case Normal => if k < 0 then WaitingTrigger else if |s| - k < PostTrigger(depth, ratio) then Triggered else Complete
  }

  lemma FirstFireSnoc(cs: seq<TriggerCondition>, s: seq<ScanResult>, x: ScanResult)
    ensures FirstFire(cs, s + [x]) ==
      if FirstFire(cs, s) >= 0 then FirstFire(cs, s)
      else if s != [] && AllMet(cs, s[|s| - 1], x) then |s|
      else -1
  {
    assert (s + [x])[..|s|] == s;
  }

  lemma HistorySnoc(mode: TriggerMode, cs: seq<TriggerCondition>, s: seq<ScanResult>, x: ScanResult)
    ensures History(mode, cs, s + [x])
      == History(mode, cs, s) + [SampleFrame(x, mode == Normal && FirstFire(cs, s + [x]) == |s|)]
  {
    hide FirstFire, AllMet;
    FirstFireSnoc(cs, s, x);
  }

  // ------------------------------------------------------ what it promises

  /** The share of the buffer kept from before the trigger is the whole part of ratio times depth. */
  lemma PreTriggerShare(depth: nat, ratio: real)
    ensures ratio * depth as real - 1.0 < PreTrigger(depth, ratio) as real <= ratio * depth as real
  {
  }

  /** A NORMAL capture that ran to completion with room before the trigger, n samples from the trigger on: depth - n is
      the whole part of ratio times depth, and the buffer's one flagged frame is preceded by as many of those depth - n
      samples as there were. */
  lemma NormalCapture(cs: seq<TriggerCondition>, depth: nat, ratio: real, s: seq<ScanResult>)
    requires depth > 0 && 0.0 <= ratio < 1.0
    requires FirstFire(cs, s) >= 0 && |s| == FirstFire(cs, s) + PostTrigger(depth, ratio)
    ensures var k, kept := FirstFire(cs, s), Last(History(Normal, cs, s), depth);
      var n := |s| - k;
      && 1 <= n <= depth && ratio * depth as real - 1.0 < (depth - n) as real <= ratio * depth as real
      && |kept| == (if k < depth - n then k else depth - n) + n
      && forall i :: 0 <= i < |kept| ==> (kept[i].triggerPoint <==> i == if k < depth - n then k else depth - n)
  {
    hide FirstFire, PreTrigger;
    PreTriggerFits(depth, ratio);
    PreTriggerShare(depth, ratio);
  }

  /** The trigger is still in the buffer at completion exactly when the pre-trigger share is below 1; at 1 the
      countdown starts at zero, wraps, and the trigger is long overwritten when it runs out. */
  lemma TriggerSurvivesIff(cs: seq<TriggerCondition>, depth: nat, ratio: real, s: seq<ScanResult>)
    requires 0 < depth < SIZES && 0.0 <= ratio <= 1.0
    requires FirstFire(cs, s) >= 0 && |s| == FirstFire(cs, s) + PostTrigger(depth, ratio)
    ensures (exists f :: f in Last(History(Normal, cs, s), depth) && f.triggerPoint) <==> ratio < 1.0
    ensures ratio == 1.0 ==> |s| - FirstFire(cs, s) == 0x1_0000_0000_0000_0000
  {
    hide FirstFire, PreTrigger;
    PreTriggerFits(depth, ratio);
    var k, kept := FirstFire(cs, s), Last(History(Normal, cs, s), depth);
    if ratio < 1.0 {
      NormalCapture(cs, depth, ratio, s);
      var pre := depth - (|s| - k);
      var i := if k < pre then k else pre;
      assert kept[i] in kept && kept[i].triggerPoint;
    } else {
      assert |s| - k == SIZES;
      assert forall i :: 0 <= i < |kept| ==> kept[i] == History(Normal, cs, s)[|s| - depth + i];
    }
  }

  // ------------------------------------------------------------ the session

  /** The ring holds the latest frames of a history. */
  ghost predicate RingMatches(buffer: seq<SampleFrame>, writePos: nat, count: nat, history: seq<SampleFrame>) {
    && Holds(buffer, history)
    && writePos == Slot(|history|, |buffer|)
    && count == if |history| < |buffer| then |history| else |buffer|
  }

  class CaptureSession {
    const scanner: Scanner
    const trigger: TriggerEngine
    var bufferDepth: nat
    var buffer: seq<SampleFrame>
    var writePos: nat
    var count: nat
    var postTriggerRemaining: nat
    var state: CaptureState
    var prevSample: ScanResult
    var hasPrev: bool

    /** Every sample taken since the session was started. */
    ghost var taken: seq<ScanResult>

    constructor (scanner: Scanner, trigger: TriggerEngine)
      ensures this.scanner == scanner && this.trigger == trigger && state == Stopped && bufferDepth == 10000
      ensures taken == []
    {
      this.scanner, this.trigger, bufferDepth, buffer, writePos, count := scanner, trigger, 10000, [], 0, 0;
      postTriggerRemaining, state, prevSample, hasPrev, taken := 0, Stopped, ScanResult([], map[]), false, [];
    }

    ghost predicate RingValid()
      reads this`buffer, this`bufferDepth, this`writePos, this`count, this`taken, trigger
    {
      && |buffer| == bufferDepth > 0
      && RingMatches(buffer, writePos, count, History(trigger.mode, trigger.conditions, taken))
    }

    ghost predicate Valid()
      reads this, trigger
    {
      && RingValid() && bufferDepth < SIZES && trigger.armed && 0.0 <= trigger.preTriggerRatio <= 1.0
      && (hasPrev <==> taken != [])
      && (hasPrev ==> prevSample == taken[|taken| - 1])
      && (state != Stopped ==> OnCourse())
    }

    /** The state machine is where the samples taken so far put it; a completed run took no sample too many. */
    ghost predicate OnCourse()
      reads this`taken, this`bufferDepth, this`state, this`postTriggerRemaining, trigger
    {
      var k, post := FirstFire(trigger.conditions, taken), PostTrigger(bufferDepth, trigger.preTriggerRatio);
      && state == Progress(trigger.mode, trigger.conditions, bufferDepth, trigger.preTriggerRatio, taken)
      && (state == Triggered ==> postTriggerRemaining == post - (|taken| - k))
      && (state == Complete ==> |taken| == match trigger.mode
                                           case FreeRun => bufferDepth
                                           case Single => 1
                                           case Normal => k + post)
    }

    method SetBufferDepth(depth: nat)
      modifies this`bufferDepth
      ensures bufferDepth == if depth < 1 then 1 else depth
    {
      bufferDepth := if depth < 1 then 1 else depth;
    }

    method Start()
      requires 0 < bufferDepth < SIZES && 0.0 <= trigger.preTriggerRatio <= 1.0
      modifies this, trigger`armed, trigger`triggered
      ensures Valid() && taken == [] && state != Stopped && state != Complete && bufferDepth == old(bufferDepth)
    {
      buffer := Resized(buffer, bufferDepth);
      writePos, count, hasPrev := 0, 0, false;
      trigger.Arm();
      state := if trigger.mode == FreeRun || trigger.mode == Single then Running else WaitingTrigger;
      taken := [];
    }

    method Stop()
      requires Valid()
      modifies this`state
      ensures Valid() && state == Stopped
    {
      state := Stopped;
    }

    /** One tick: `due` when the sample interval has elapsed. The scan is trusted when the scanner holds no error
        text afterwards, be it from this scan or an earlier one: on hardware that fits and answers, a tick samples
        exactly when no text was left behind before it, whether or not the session was restarted since. A scan
        whose instruction could not be loaded goes in as an empty sample when the chain holds no text. */
    method Tick(due: bool) returns (sampled: bool, ghost end: ScanEnd)
      requires Valid() && scanner.Usable()
      modifies this, trigger`triggered
      modifies scanner`lastError, scanner.chain`lastError, scanner.chain.tap, scanner.chain.tap.device
      ensures Valid() && bufferDepth == old(bufferDepth) && scanner.Faults() >= old(scanner.Faults())
      ensures old(!Active()) || !due ==>
        !sampled && state == old(state) && taken == old(taken) && scanner.lastError == old(scanner.lastError)
      ensures old(Active()) && due ==> (sampled <==> !scanner.lastError) && (sampled <==> state != Stopped)
      ensures old(Active()) && due && end in {NotSelected, NotRead} ==>
        !scanner.Scannable() || scanner.Faults() > old(scanner.Faults())
      ensures old(Active()) && due ==> scanner.lastError == match end
        case Refused => true
        case NotSelected => old(scanner.chain.lastError)
        case NotRead => scanner.chain.tap.lastError
        case Scanned => old(scanner.lastError)
      ensures !sampled ==> taken == old(taken)
      ensures sampled ==> |taken| == |old(taken)| + 1 && taken[..|old(taken)|] == old(taken)
      ensures sampled && end != Scanned ==> taken[|old(taken)|] == NO_RESULT
      ensures old(Active()) && due && old(scanner.Fits()) && scanner.Faults() == old(scanner.Faults()) ==>
        var d, dev := old(scanner.chain.tap.device.hw.chain[scanner.deviceIndex]), scanner.Dev();
        && (sampled <==> !old(scanner.lastError))
        && (sampled ==> Decodes(taken[|old(taken)|].pinStates, dev.boundaryCells,
                                d.regs[SampleKey(d, dev)].inputs, scanner.decodeFilter))
    {
      hide Decodes, Samples, SampleKey, Progress, FirstFire, RingMatches, History;
      sampled := false;
      if state == Stopped || state == Complete { return false, Refused; }
      if !due { return false, Refused; }
      var result;
      result, end := scanner.Sample();
      if scanner.lastError {
        state := Stopped;
        return;
      }
      Take(result);
      sampled := true;
    }

    /** A run that still wants samples. */
    ghost predicate Active()
      reads this
    {
      state != Stopped && state != Complete
    }

    /** What a good scan does to a run that wants it. */
    method Take(result: ScanResult)
      requires Valid() && Active()
      modifies this, trigger`triggered
      ensures Valid() && bufferDepth == old(bufferDepth) && state != Stopped && taken == old(taken) + [result]
    {
      hide FirstFire, History, Holds, Slot, AllMet, PreTrigger, Progress, PostTrigger, RingMatches;
      match state {
        case Running => TakeRunning(result);
        case WaitingTrigger => TakeWaiting(result);
        case Triggered => TakeTriggered(result);
        case _ =>
      }
      prevSample, hasPrev := result, true;
    }

    /** All but the memory of the previous sample is as Valid says. */
    ghost predicate Took()
      reads this, trigger
    {
      && RingValid() && bufferDepth < SIZES && trigger.armed && 0.0 <= trigger.preTriggerRatio <= 1.0
      && state != Stopped && OnCourse()
    }

    method TakeRunning(result: ScanResult)
      requires Valid() && state == Running
      modifies this`buffer, this`writePos, this`count, this`taken, this`state
      ensures Took() && taken == old(taken) + [result]
    {
      hide FirstFire, History, Holds, Slot, AllMet, PreTrigger;
      FirstFireSnoc(trigger.conditions, taken, result);
      PreTriggerFits(bufferDepth, trigger.preTriggerRatio);
      if trigger.mode == Single {
        AppendSample(result, false);
        state := Complete;
      } else {
        AppendSample(result, false);
        if count >= bufferDepth { state := Complete; }
      }
    }

    method TakeWaiting(result: ScanResult)
      requires Valid() && state == WaitingTrigger
      modifies this, trigger`triggered
      ensures Took() && taken == old(taken) + [result] && bufferDepth == old(bufferDepth)
    {
      hide FirstFire, History, Holds, Slot, AllMet, PreTrigger;
      FirstFireSnoc(trigger.conditions, taken, result);
      PreTriggerFits(bufferDepth, trigger.preTriggerRatio);
      var fired := false;
      if hasPrev {
        fired := trigger.Evaluate(prevSample, result);
      }
      if fired {
        var pre := PreTrigger(bufferDepth, trigger.preTriggerRatio);
        postTriggerRemaining := bufferDepth - pre;
        AppendSample(result, true);
        postTriggerRemaining := if postTriggerRemaining == 0 then SIZES - 1 else postTriggerRemaining - 1;
        state := if postTriggerRemaining > 0 then Triggered else Complete;
      } else {
        AppendSample(result, false);
      }
    }

    method TakeTriggered(result: ScanResult)
      requires Valid() && state == Triggered
      modifies this`buffer, this`writePos, this`count, this`taken, this`state, this`postTriggerRemaining
      ensures Took() && taken == old(taken) + [result]
    {
      hide FirstFire, History, Holds, Slot, AllMet, PreTrigger;
      FirstFireSnoc(trigger.conditions, taken, result);
      PreTriggerFits(bufferDepth, trigger.preTriggerRatio);
      AppendSample(result, false);
      if postTriggerRemaining > 0 { postTriggerRemaining := postTriggerRemaining - 1; }
      if postTriggerRemaining == 0 { state := Complete; }
    }

    method AppendSample(result: ScanResult, triggerPoint: bool)
      requires RingValid()
      requires triggerPoint <==> trigger.mode == Normal && FirstFire(trigger.conditions, taken + [result]) == |taken|
      modifies this`buffer, this`writePos, this`count, this`taken
      ensures RingValid() && taken == old(taken) + [result]
    {
      hide FirstFire, History, Slot, AllMet;
      HistorySnoc(trigger.mode, trigger.conditions, taken, result);
      StoreKeeps(buffer, History(trigger.mode, trigger.conditions, taken), SampleFrame(result, triggerPoint));
      NextSlot(|taken|, bufferDepth);
      buffer := buffer[writePos := SampleFrame(result, triggerPoint)];
      writePos := (writePos + 1) % bufferDepth;
      if count < bufferDepth { count := count + 1; }
      taken := taken + [result];
    }

    /** The most recent frames of the run, oldest first, with their trigger flags. */
    method GetSamples() returns (out: seq<SampleFrame>)
      requires RingValid()
      ensures out == Last(History(trigger.mode, trigger.conditions, taken), bufferDepth)
    {
      hide FirstFire, History, Slot;
      ghost var h := History(trigger.mode, trigger.conditions, taken);
      if count == 0 { return []; }
      if count < bufferDepth {
        FrontOfRing(buffer, h, count);
        return buffer[..count];
      }
      OldestSlot(|h|, bufferDepth);
      SlotOfSlot(|h|, bufferDepth);
      out := CopyFrom(buffer, h, writePos, |h| - bufferDepth, bufferDepth);
    }
  }

  /** Runs without a trigger to wait for: a free one completes with exactly as many samples as the buffer holds, a
      single one with the first. */
  lemma PlainRuns(c: CaptureSession)
    requires c.Valid() && c.state != Stopped && c.trigger.mode in {FreeRun, Single}
    ensures c.state in {Running, Complete}
    ensures var wanted := if c.trigger.mode == FreeRun then c.bufferDepth else 1;
      if c.state == Complete then |c.taken| == wanted else |c.taken| < wanted
  {
  }

  /** So a session that reports a completed NORMAL run returns it like that, from the trigger's own settings. */
  lemma CompletedRun(c: CaptureSession, k: nat)
    requires c.Valid() && c.state == Complete && c.trigger.mode == Normal && c.trigger.preTriggerRatio < 1.0
    requires k == FirstFire(c.trigger.conditions, c.taken)
    ensures var ratio, depth := c.trigger.preTriggerRatio, c.bufferDepth;
      var n, frames := |c.taken| - k, Last(History(Normal, c.trigger.conditions, c.taken), depth);
      && 1 <= n <= depth && ratio * depth as real - 1.0 < (depth - n) as real <= ratio * depth as real
      && forall i :: 0 <= i < |frames| ==> (frames[i].triggerPoint <==> i == if k < depth - n then k else depth - n)
  {
    hide FirstFire, History, RingMatches, PreTrigger;
    PreTriggerFits(c.bufferDepth, c.trigger.preTriggerRatio);
    NormalCapture(c.trigger.conditions, c.bufferDepth, c.trigger.preTriggerRatio, c.taken);
  }

  function Resized(buffer: seq<SampleFrame>, n: nat): (r: seq<SampleFrame>)
    ensures |r| == n
  {
    if n <= |buffer| then buffer[..n] else buffer + seq(n - |buffer|, _ => EMPTY_FRAME)
  }

  lemma FrontOfRing<T>(buffer: seq<T>, history: seq<T>, count: nat)
    requires Holds(buffer, history) && |history| == count < |buffer|
    ensures buffer[..count] == history
  {
    hide Slot;
    forall j | 0 <= j < count ensures buffer[j] == history[j] {
      FrontSlot(j, |buffer|);
    }
  }

  lemma FrontSlot(j: nat, size: nat)
    requires j < size
    ensures Slot(j, size) == j
  {
  }

  lemma SlotOfSlot(n: nat, size: nat)
    requires size > 0
    ensures Slot(Slot(n, size), size) == Slot(n, size)
  {
  }
}
