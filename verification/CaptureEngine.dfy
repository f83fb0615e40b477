/** The capture engine: a capture thread filling a ring, pollers fetching what is new. */
module CaptureEngine {
  import opened Scanner
  import opened Trigger
  import opened Ring
  import opened CaptureSession

  // -------------------------------------------------- polling, as a function

  /** What a poll with a given cursor delivers. */
  function Poll<T>(history: seq<T>, cursor: nat, size: nat): (r: seq<T>) {
    if |history| <= cursor then []
    else Last(history[cursor..], size)
  }

  function Advanced<T>(history: seq<T>, cursor: nat): nat {
    if |history| <= cursor then cursor else |history|
  }

  /** Everything a client receives that polls, with one cursor, when the totals are as listed. */
  function Polled<T>(history: seq<T>, totals: seq<nat>, cursor: nat, size: nat): seq<T>
    requires forall i :: 0 <= i < |totals| ==> totals[i] <= |history|
  {
    if totals == [] then []
    else
      var seen := history[..totals[0]];
      Poll(seen, cursor, size) + Polled(history, totals[1..], Advanced(seen, cursor), size)
  }

  /** The totals are those of one session: they never go down. */
  ghost predicate Ascending(totals: seq<nat>, from: nat) {
    totals == [] || (from <= totals[0] && Ascending(totals[1..], totals[0]))
  }

  /** No more than a ring full arrived between two polls. */
  ghost predicate NoGap(totals: seq<nat>, from: nat, size: nat) {
    totals == [] || (totals[0] <= from + size && NoGap(totals[1..], totals[0], size))
  }

  function Final(totals: seq<nat>, from: nat): nat {
    if totals == [] then from else totals[|totals| - 1]
  }

  lemma {:induction false} FinalBounds<T>(history: seq<T>, totals: seq<nat>, from: nat)
    requires Ascending(totals, from) && from <= |history|
    requires forall i :: 0 <= i < |totals| ==> totals[i] <= |history|
    ensures from <= Final(totals, from) <= |history|
  {
    if totals != [] {
      FinalBounds(history, totals[1..], totals[0]);
    }
  }

  /** A poll delivers the unseen tail, short by whatever the ring had to drop. */
  lemma PollDelivers<T>(history: seq<T>, total: nat, from: nat, size: nat)
    requires from <= total <= |history|
    ensures var p := Poll(history[..total], from, size);
      && |p| == (if total - from <= size then total - from else size)
      && (total <= from + size ==> p == history[from..total])
      && Advanced(history[..total], from) == total
  {
  }

  /** The polls of a session add up to the history exactly when no gap exceeds the ring; otherwise frames are missing,
      never duplicated. */
  lemma {:induction false} PollsAddUpIff<T>(history: seq<T>, totals: seq<nat>, from: nat, size: nat)
    requires size > 0 && Ascending(totals, from) && from <= |history|
    requires forall i :: 0 <= i < |totals| ==> totals[i] <= |history|
    ensures from <= Final(totals, from) <= |history|
    ensures NoGap(totals, from, size) <==> Polled(history, totals, from, size) == history[from..Final(totals, from)]
    ensures |Polled(history, totals, from, size)| <= Final(totals, from) - from
    decreases |totals|
  {
    hide Poll, Advanced;
    FinalBounds(history, totals, from);
    if totals != [] {
      var t, rest, last := totals[0], totals[1..], Final(totals, from);
      PollDelivers(history, t, from, size);
      PollsAddUpIff(history, rest, t, size);
      assert Final(rest, t) == last;
      FinalBounds(history, rest, t);
      var head, tail := Poll(history[..t], from, size), Polled(history, rest, t, size);
      assert Polled(history, totals, from, size) == head + tail;
      assert history[from..last] == history[from..t] + history[t..last];
      if head + tail == history[from..last] {
        assert |head| == t - from && |tail| == last - t;
        assert (head + tail)[t - from..] == tail && history[from..last][t - from..] == history[t..last];
      }
    }
  }

  // -------------------------------------------------------------- the engine

  /** Samples still to take after a trigger before the engine re-arms. */
  function PostSamples(depth: nat, ratio: real): int {
    (depth as real * (1.0 - ratio)).Floor
  }

  lemma PostSamplesFits(depth: nat, ratio: real)
    requires 0.0 <= ratio <= 1.0
    ensures 0 <= PostSamples(depth, ratio) <= depth
  {
    var d := depth as real;
    assert 0.0 <= d * (1.0 - ratio) <= d;
  }

  /** It is the whole part of depth times the rest of the ratio. */
  lemma PostSamplesShare(depth: nat, ratio: real)
    ensures depth as real * (1.0 - ratio) - 1.0 < PostSamples(depth, ratio) as real <= depth as real * (1.0 - ratio)
  {
  }

  /** The frames flagged are exactly those on which the conditions hold and behind the last `post` of which none is
      flagged; the first frame has no predecessor and never is. */
  ghost predicate FlagsAre(h: seq<SampleFrame>, cs: seq<TriggerCondition>, post: int) {
    forall j :: 0 <= j < |h| ==> (h[j].triggerPoint <==> Deserves(h[..j], h[j], cs, post))
  }

  ghost predicate Deserves(h: seq<SampleFrame>, f: SampleFrame, cs: seq<TriggerCondition>, post: int) {
    h != [] && AllMet(cs, h[|h| - 1].data, f.data) && QuietFor(h, post)
  }

  lemma FlagsSnoc(h: seq<SampleFrame>, cs: seq<TriggerCondition>, post: int, f: SampleFrame)
    requires FlagsAre(h, cs, post) && (f.triggerPoint <==> Deserves(h, f, cs, post))
    ensures FlagsAre(h + [f], cs, post)
  {
    hide Deserves;
    var h' := h + [f];
    forall j | 0 <= j < |h'| ensures h'[j].triggerPoint <==> Deserves(h'[..j], h'[j], cs, post) {
      if j < |h| {
        assert h'[..j] == h[..j] && h'[j] == h[j];
      } else {
        assert h'[..j] == h && h'[j] == f;
      }
    }
  }

  /** Flagged frames are more than `post` apart: the engine is deaf to triggers while it fills the share after one. */
  ghost predicate Spaced(h: seq<SampleFrame>, post: int) {
    forall i, j :: 0 <= i < j < |h| && h[i].triggerPoint && h[j].triggerPoint ==> j - i > post
  }

  /** The last flag lies at least `gap` frames back. */
  ghost predicate QuietFor(h: seq<SampleFrame>, gap: int) {
    forall i :: 0 <= i < |h| && h[i].triggerPoint ==> |h| - i > gap
  }

  /** The state machine against the flags stored so far. */
  ghost predicate Tracks(mode: TriggerMode, state: CaptureState, remaining: nat, h: seq<SampleFrame>, post: int) {
    match mode
    case Normal =>
      && state in {WaitingTrigger, Triggered}
      && (state == WaitingTrigger <==> QuietFor(h, post))
      && (state == Triggered ==> remaining < post && QuietFor(h, post - 1 - remaining))
      && (state == Triggered ==> 0 <= |h| - post + remaining && h[|h| - post + remaining].triggerPoint)
    case _ => state == Running && forall i :: 0 <= i < |h| ==> !h[i].triggerPoint
  }

  /** What one iteration does to the state: `fired` is the trigger's verdict while waiting. */
  function StateAfter(state: CaptureState, remaining: nat, fired: bool, post: nat): (CaptureState, nat) {
    if state == Running || (state == WaitingTrigger && !fired) then (state, remaining)
    else
      var left := if state == WaitingTrigger then post else remaining;
      if left == 0 then (WaitingTrigger, 0) else (Triggered, left - 1)
  }

  lemma TracksStep(mode: TriggerMode, state: CaptureState, remaining: nat, h: seq<SampleFrame>, post: nat,
                   f: SampleFrame)
    requires Tracks(mode, state, remaining, h, post) && Spaced(h, post)
    requires f.triggerPoint ==> state == WaitingTrigger
    ensures var next := StateAfter(state, remaining, f.triggerPoint, post);
      Tracks(mode, next.0, next.1, h + [f], post) && Spaced(h + [f], post)
  {
    hide QuietFor;
    if mode == Normal {
      QuietSnoc(h, f, post);
      if state == Triggered {
        QuietSnoc(h, f, post - 1 - remaining);
        FlagSpoils(h, |h| - post + remaining, post);
        if remaining > 0 { FlagSpoils(h + [f], |h| - post + remaining, post); }
      }
      if f.triggerPoint && post > 0 { FreshFlag(h, f, post); }
    }
    SpacedSnoc(h, f, post);
  }

  lemma QuietSnoc(h: seq<SampleFrame>, f: SampleFrame, gap: int)
    ensures !f.triggerPoint && QuietFor(h, gap) ==> QuietFor(h + [f], gap) && QuietFor(h + [f], gap + 1)
    ensures f.triggerPoint && QuietFor(h, gap) && gap >= 0 ==> QuietFor(h + [f], 0)
  {
  }

  lemma FlagSpoils(h: seq<SampleFrame>, i: nat, gap: int)
    requires i < |h| && h[i].triggerPoint && |h| - i <= gap
    ensures !QuietFor(h, gap)
  {
  }

  lemma FreshFlag(h: seq<SampleFrame>, f: SampleFrame, gap: int)
    requires f.triggerPoint && gap > 0
    ensures !QuietFor(h + [f], gap)
  {
    FlagSpoils(h + [f], |h|, gap);
  }

  lemma SpacedSnoc(h: seq<SampleFrame>, f: SampleFrame, post: int)
    requires Spaced(h, post) && (f.triggerPoint ==> QuietFor(h, post))
    ensures Spaced(h + [f], post)
  {
  }

  lemma WaitingIsQuiet(state: CaptureState, remaining: nat, h: seq<SampleFrame>, post: int)
    requires Tracks(Normal, state, remaining, h, post)
    ensures state == WaitingTrigger <==> QuietFor(h, post)
  {
    hide QuietFor;
  }

  /** The ring, whose size is fixed at the start of a session, against the session's history. */
  ghost predicate RingRecords(buffer: seq<SampleFrame>, writePos: nat, count: nat, totalWritten: nat,
                              history: seq<SampleFrame>) {
    && totalWritten == |history|
    && (if buffer == [] then history == [] && writePos == count == 0 else RingMatches(buffer, writePos, count, history))
  }

  class CaptureEngine {
    const trigger: TriggerEngine
    var bufferDepth: nat
    var buffer: seq<SampleFrame>
    var writePos: nat
    var count: nat
    var totalWritten: nat
    var postTriggerRemaining: nat
    var state: CaptureState

    // The capture thread's own variables.
    var prevResult: ScanResult
    var hasPrev: bool
    var exited: bool

    /** Every frame stored since the session was started. */
    ghost var history: seq<SampleFrame>

    constructor (trigger: TriggerEngine)
      ensures this.trigger == trigger && RingValid() && state == Stopped && exited
      ensures bufferDepth == 10000 && history == []
    {
      this.trigger, bufferDepth, buffer, writePos, count, totalWritten := trigger, 10000, [], 0, 0, 0;
      postTriggerRemaining, state, prevResult, hasPrev, exited := 0, Stopped, ScanResult([], map[]), false, true;
      history := [];
    }

    ghost predicate RingValid()
      reads this
    {
      bufferDepth > 0 && RingRecords(buffer, writePos, count, totalWritten, history)
    }

    /** The capture thread between two iterations. */
    ghost predicate Capturing()
      reads this, trigger
    {
      && RingValid() && buffer != [] && !exited && |buffer| == bufferDepth
      && 0.0 <= trigger.preTriggerRatio <= 1.0 && trigger.armed
      && (hasPrev <==> history != [])
      && (hasPrev ==> prevResult == history[|history| - 1].data)
      && var post := PostSamples(bufferDepth, trigger.preTriggerRatio);
      && Spaced(history, post) && (trigger.mode == Normal ==> FlagsAre(history, trigger.conditions, post))
      && Tracks(trigger.mode, state, postTriggerRemaining, history, post)
    }

    method SetBufferDepth(depth: nat)
      requires RingValid()
      modifies this`bufferDepth
      ensures RingValid()
      ensures bufferDepth == if state != Stopped then old(bufferDepth) else if depth < 100 then 100 else depth
    {
      if state != Stopped { return; }
      bufferDepth := if depth < 100 then 100 else depth;
    }

    method Start(scannerReady: bool) returns (ok: bool)
      requires RingValid() && 0.0 <= trigger.preTriggerRatio <= 1.0
      modifies this, trigger`armed, trigger`triggered
      ensures RingValid() && ok == (old(state) == Stopped && scannerReady) && bufferDepth == old(bufferDepth)
      ensures ok ==> Capturing() && history == []
      ensures !ok ==> history == old(history) && buffer == old(buffer) && state == old(state)
    {
      if state != Stopped { return false; }
      if !scannerReady { return false; }
      buffer := Resized(buffer, bufferDepth);
      writePos, count, totalWritten := 0, 0, 0;
      trigger.Arm();
      state := if trigger.mode == FreeRun || trigger.mode == Single then Running else WaitingTrigger;
      prevResult, hasPrev, exited := ScanResult([], map[]), false, false;
      history := [];
      ok := true;
    }

    /** One iteration of the capture loop on a scan result. */
    method CaptureStep(result: ScanResult)
      requires Capturing()
      modifies this, trigger`armed, trigger`triggered
      ensures RingValid() && bufferDepth == old(bufferDepth) && |buffer| == |old(buffer)|
      ensures history == old(history) + [SampleFrame(result, trigger.mode == Normal && old(state) == WaitingTrigger
        && old(hasPrev) && AllMet(trigger.conditions, old(prevResult), result))]
      ensures trigger.mode in {Normal, FreeRun} ==> Capturing()
      ensures trigger.mode == Single ==> exited && state == Complete
    {
      hide AllMet, PostSamples, Spaced, Tracks, RingRecords, StateAfter, FlagsAre, QuietFor;
      ghost var h, was, left, post := history, state, postTriggerRemaining,
        PostSamples(bufferDepth, trigger.preTriggerRatio);
      var point, currentState := Step(result);
      TracksStep(trigger.mode, was, left, h, post, SampleFrame(result, point));
      if trigger.mode == Normal {
        WaitingIsQuiet(was, left, h, post);
        FlagsSnoc(h, trigger.conditions, post, SampleFrame(result, point));
      }
      Store(SampleFrame(result, point));
      prevResult, hasPrev := result, true;
      if trigger.mode == Single && currentState == Running {
        state := Complete;
        exited := true;
      }
    }

    /** The trigger part of an iteration: whether this sample is the trigger point, and the state it counts under. */
    method Step(result: ScanResult) returns (point: bool, currentState: CaptureState)
      requires Capturing()
      modifies this`state, this`postTriggerRemaining, trigger`armed, trigger`triggered
      ensures trigger.armed && 0 <= PostSamples(bufferDepth, trigger.preTriggerRatio)
      ensures point ==> old(state) == WaitingTrigger
      ensures trigger.mode == Normal ==>
        (point <==> old(state) == WaitingTrigger && hasPrev && AllMet(trigger.conditions, prevResult, result))
      ensures trigger.mode != Normal ==> currentState == Running && !point
      ensures (state, postTriggerRemaining) ==
        StateAfter(old(state), old(postTriggerRemaining), point, PostSamples(bufferDepth, trigger.preTriggerRatio))
    {
      hide AllMet, PostSamples, Spaced, QuietFor, Slot, Holds;
      PostSamplesFits(bufferDepth, trigger.preTriggerRatio);
      point, currentState := false, state;
      if currentState == WaitingTrigger && hasPrev {
        var fired := trigger.Evaluate(prevResult, result);
        if fired {
          point := true;
          state := Triggered;
          postTriggerRemaining := PostSamples(bufferDepth, trigger.preTriggerRatio);
          currentState := Triggered;
        }
      }
      if currentState == Triggered {
        if postTriggerRemaining == 0 {
          trigger.Arm();
          state := WaitingTrigger;
        } else {
          postTriggerRemaining := postTriggerRemaining - 1;
        }
      }
    }

    /** The store, under the buffer lock. */
    method Store(frame: SampleFrame)
      requires RingValid() && buffer != []
      modifies this`buffer, this`writePos, this`count, this`totalWritten, this`history
      ensures RingValid() && |buffer| == |old(buffer)| && history == old(history) + [frame]
    {
      hide Slot, Holds;
      StoreKeeps(buffer, history, frame);
      NextSlot(|history|, |buffer|);
      buffer := buffer[writePos := frame];
      writePos := (writePos + 1) % |buffer|;
      if count < |buffer| { count := count + 1; }
      totalWritten := totalWritten + 1;
      history := history + [frame];
    }

    method Stop()
      requires RingValid()
      modifies this`state, this`exited
      ensures RingValid() && state == Stopped && (old(state) != Stopped ==> exited)
    {
      if state == Stopped { return; }
      exited, state := true, Stopped;
    }

    method ClearSamples()
      requires RingValid()
      modifies this
      ensures RingValid() && state == old(state) && bufferDepth == old(bufferDepth)
      ensures history == if state == Stopped then [] else old(history)
    {
      if state != Stopped { return; }
      writePos, count, totalWritten, postTriggerRemaining := 0, 0, 0, 0;
      history := [];
    }

    method GetSamples() returns (out: seq<SampleFrame>)
      requires RingValid()
      ensures out == Last(history, |buffer|)
    {
      hide Slot, Holds;
      if count < |buffer| {
        FrontOfRing(buffer, history, count);
        return buffer[..count];
      }
      if buffer == [] { return []; }
      OldestSlot(|history|, |buffer|);
      SlotOfSlot(|history|, |buffer|);
      out := CopyFrom(buffer, history, writePos, |history| - |buffer|, |buffer|);
    }

    /** The frames stored since the caller's last call, and its new cursor. */
    method GetNewSamples(lastTotal: nat) returns (out: seq<SampleFrame>, newTotal: nat)
      requires RingValid()
      ensures out == Poll(history, lastTotal, |buffer|) && newTotal == Advanced(history, lastTotal)
    {
      hide Slot, Holds;
      var current := totalWritten;
      if current <= lastTotal {
        return [], lastTotal;
      }
      var newCount := current - lastTotal;
      if newCount > |buffer| {
        OldestSlot(|history|, |buffer|);
        SlotOfSlot(|history|, |buffer|);
        out := CopyFrom(buffer, history, writePos, |history| - |buffer|, |buffer|);
        return out, current;
      }
      out := CopyFrom(buffer, history, lastTotal, lastTotal, newCount);
      newTotal := current;
    }

    method GetLatestSample() returns (f: SampleFrame)
      requires RingValid()
      ensures f == if history == [] then SampleFrame(ScanResult([], map[]), false) else history[|history| - 1]
    {
      if count == 0 { return EMPTY_FRAME; }
      var idx := if writePos == 0 then |buffer| - 1 else writePos - 1;
      NextSlot(|history| - 1, |buffer|);
      f := buffer[idx];
      LatestSlot(|history| - 1, |buffer|);
      assert buffer[Slot(|history| - 1, |buffer|)] == history[|history| - 1];
    }
  }

  lemma LatestSlot(j: nat, size: nat)
    requires size > 0
    ensures Slot(j, size) == if Slot(j + 1, size) == 0 then size - 1 else Slot(j + 1, size) - 1
  {
    NextSlot(j, size);
    if Slot(j, size) + 1 == size {
      assert size % size == 0;
    }
  }

  /** The flags of a whole NORMAL session, from the trigger's own settings: the trigger is deaf for `post` frames behind
      a flagged one, the whole part of depth times (1 - ratio), and for no others. */
  lemma SessionFlags(e: CaptureEngine) returns (post: nat)
    requires e.Capturing() && e.trigger.mode == Normal
    ensures var share := e.bufferDepth as real * (1.0 - e.trigger.preTriggerRatio); share - 1.0 < post as real <= share
    ensures FlagsAre(e.history, e.trigger.conditions, post)
  {
    hide FlagsAre, Tracks, Spaced, RingRecords, PostSamples;
    PostSamplesFits(e.bufferDepth, e.trigger.preTriggerRatio);
    PostSamplesShare(e.bufferDepth, e.trigger.preTriggerRatio);
    post := PostSamples(e.bufferDepth, e.trigger.preTriggerRatio);
  }
}
