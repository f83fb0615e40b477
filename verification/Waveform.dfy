/** The waveform view: lanes rebuilt from a sample buffer, or extended frame by frame as the buffer slides. */
module Waveform {
  import opened Bytes
  import opened Scanner
  import opened Ring

  /** Timestamps count nanoseconds. */
  datatype Frame = Frame(timestamp: nat, data: ScanResult)

  datatype BusDefinition = BusDefinition(name: string, signals: seq<string>)

  /** A binary lane's values are 0 and 1, a bus lane's its bus values; times are microseconds from an origin. */
  datatype Lane = Lane(times: seq<int>, values: seq<nat>)

  datatype Source = Signal(name: string) | Bus(bus: BusDefinition)

  // ------------------------------------------------------------ what is shown

  /** A bus reads its signals most significant first. */
  function BusValue(signals: seq<string>, data: ScanResult): (v: nat)
    ensures v < Pow2(|signals|)
  {
    if signals == [] then 0
    else 2 * BusValue(signals[..|signals| - 1], data) + if data.GetPin(signals[|signals| - 1]) == High then 1 else 0
  }

  function ValueOf(s: Source, data: ScanResult): nat {
    match s
    case Signal(name) => if data.GetPin(name) == High then 1 else 0
    case Bus(bus) => BusValue(bus.signals, data)
  }

  /** Whole microseconds since the origin, cut toward zero. */
  function Micros(f: Frame, t0: int): int {
    var ns := f.timestamp - t0;
    if ns >= 0 then ns / 1000 else -(-ns / 1000)
  }

  function Picture(s: Source, frames: seq<Frame>, t0: int): Lane {
    Lane(seq(|frames|, i requires 0 <= i < |frames| => Micros(frames[i], t0)),
         seq(|frames|, i requires 0 <= i < |frames| => ValueOf(s, frames[i].data)))
  }

  function SourcesOf(signals: seq<string>, buses: seq<BusDefinition>): (r: seq<Source>)
    ensures |r| == |signals| + |buses|
  {
    seq(|signals|, i requires 0 <= i < |signals| => Signal(signals[i]))
      + seq(|buses|, i requires 0 <= i < |buses| => Bus(buses[i]))
  }

  function Names(buses: seq<BusDefinition>): seq<string> {
    seq(|buses|, i requires 0 <= i < |buses| => buses[i].name)
  }

  /** Every lane is the picture of the same frames. */
  ghost predicate Pictures(lanes: seq<Lane>, sources: seq<Source>, frames: seq<Frame>, t0: int) {
    |lanes| == |sources| && forall k :: 0 <= k < |lanes| ==> lanes[k] == Picture(sources[k], frames, t0)
  }

  lemma PictureSnoc(s: Source, frames: seq<Frame>, f: Frame, t0: int)
    ensures var p, q := Picture(s, frames, t0), Picture(s, frames + [f], t0);
      q.times == p.times + [Micros(f, t0)] && q.values == p.values + [ValueOf(s, f.data)]
  {
    hide ValueOf;
  }

  /** A lane point by point: the time is the whole microseconds since the origin, cut toward zero, a signal's value is
      1 when its pin is high, and bit n-1-j of a bus value says whether signal j of n is. */
  lemma LaneShows(s: Source, frames: seq<Frame>, t0: int, i: nat)
    requires i < |frames|
    ensures var lane, since, pins := Picture(s, frames, t0), frames[i].timestamp - t0, frames[i].data.pinStates;
      && |lane.times| == |lane.values| == |frames|
      && (since >= 0 ==> 1000 * lane.times[i] <= since < 1000 * lane.times[i] + 1000)
      && (since < 0 ==> 1000 * lane.times[i] - 1000 < since <= 1000 * lane.times[i])
      && match s
         case Signal(name) => lane.values[i] == if name in pins && pins[name] == High then 1 else 0
         case Bus(bus) => forall j :: 0 <= j < |bus.signals| ==>
           (lane.values[i] / Pow2(|bus.signals| - 1 - j) % 2 == 1 <==>
             bus.signals[j] in pins && pins[bus.signals[j]] == High)
  {
    hide BusValue, Pow2;
    if s.Bus? {
      forall j | 0 <= j < |s.bus.signals|
        ensures BusValue(s.bus.signals, frames[i].data) / Pow2(|s.bus.signals| - 1 - j) % 2 == 1
          <==> frames[i].data.GetPin(s.bus.signals[j]) == High
      {
        BusBit(s.bus.signals, frames[i].data, j);
      }
    }
  }

  lemma {:induction false} BusBit(signals: seq<string>, data: ScanResult, j: nat)
    requires j < |signals|
    ensures BusValue(signals, data) / Pow2(|signals| - 1 - j) % 2 == 1 <==> data.GetPin(signals[j]) == High
  {
    var n := |signals| - 1;
    var front := signals[..n];
    assert BusValue(signals, data) / 2 == BusValue(front, data);
    if j < n {
      BusBit(front, data, j);
      HalfThen(BusValue(signals, data), Pow2(n - 1 - j));
    }
  }

  /** Every value of a bus fits the 64-bit word it is kept in exactly when it has at most 64 signals. */
  lemma FitsWordIff(signals: seq<string>)
    ensures (forall data :: BusValue(signals, data) < Pow2(64)) <==> |signals| <= 64
  {
    hide Pow2, BusValue;
    if |signals| <= 64 {
      forall data ensures BusValue(signals, data) < Pow2(64) { Pow2Grows(|signals|, 64); }
    } else {
      var data := ScanResult([], map[signals[0] := High]);
      FirstSignalWeighs(signals, data);
      Pow2Grows(64, |signals| - 1);
    }
  }

  lemma {:induction false} FirstSignalWeighs(signals: seq<string>, data: ScanResult)
    requires signals != [] && data.GetPin(signals[0]) == High
    ensures BusValue(signals, data) >= Pow2(|signals| - 1)
  {
    if |signals| > 1 { FirstSignalWeighs(signals[..|signals| - 1], data); }
  }

  /** One weight per high signal, the first signal the heaviest. */
  method ComputeBusValue(bus: BusDefinition, data: ScanResult) returns (value: nat)
    ensures value == BusValue(bus.signals, data)
  {
    var bits := |bus.signals|;
    value := 0;
    for i := 0 to bits
      invariant value == BusValue(bus.signals[..i], data) * Pow2(bits - i)
    {
      assert bus.signals[..i + 1][..i] == bus.signals[..i];
      if data.GetPin(bus.signals[i]) == High {
        value := value + Pow2(bits - 1 - i);
      }
      Widen(BusValue(bus.signals[..i], data), bits - i);
      Spread(BusValue(bus.signals[..i], data), if data.GetPin(bus.signals[i]) == High then 1 else 0,
             Pow2(bits - 1 - i));
    }
    assert bus.signals[..bits] == bus.signals;
  }

  lemma Widen(v: nat, n: nat)
    requires n > 0
    ensures v * Pow2(n) == v * 2 * Pow2(n - 1)
  {
  }

  lemma Spread(v: nat, b: nat, w: nat)
    ensures (2 * v + b) * w == v * 2 * w + b * w
  {
  }

  // -------------------------------------------------------- which frames

  /** The frames a rebuild keeps: those no earlier than `clip` microseconds after the first. */
  function Kept(frames: seq<Frame>, t0: int, clip: int): seq<Frame> {
    if frames == [] then []
    else
      var n := |frames| - 1;
      Kept(frames[..n], t0, clip) + if Micros(frames[n], t0) < clip then [] else [frames[n]]
  }

  ghost predicate InOrder(frames: seq<Frame>) {
    forall i, j :: 0 <= i < j < |frames| ==> frames[i].timestamp <= frames[j].timestamp
  }

  lemma KeptSnoc(frames: seq<Frame>, f: Frame, t0: int, clip: int)
    ensures Kept(frames + [f], t0, clip)
      == if Micros(f, t0) < clip then Kept(frames, t0, clip) else Kept(frames, t0, clip) + [f]
  {
    hide Micros;
    assert (frames + [f])[..|frames|] == frames;
  }

  /** The last k frames. */
  ghost predicate IsTail(kept: seq<Frame>, frames: seq<Frame>) {
    |kept| <= |frames| && kept == frames[|frames| - |kept|..]
  }

  /** In time order the kept frames are the latest ones. */
  lemma {:induction false} KeptIsSuffix(frames: seq<Frame>, t0: int, clip: int)
    requires InOrder(frames)
    ensures IsTail(Kept(frames, t0, clip), frames)
    ensures |Kept(frames, t0, clip)| < |frames| ==> Micros(frames[0], t0) < clip
  {
    hide Micros, Kept, IsTail;
    if frames != [] {
      var front, last := frames[..|frames| - 1], frames[|frames| - 1];
      assert frames == front + [last];
      KeptIsSuffix(front, t0, clip);
      KeptSnoc(front, last, t0, clip);
      if Micros(last, t0) < clip {
        LastDecides(frames, t0, clip);
      } else {
        TailSnoc(Kept(front, t0, clip), front, last);
        if front == [] { TailOfNothing(Kept(front, t0, clip)); }
      }
    } else {
      KeptNothing(t0, clip);
      TailOfNothing([]);
    }
  }

  /** In time order a frame is kept exactly when it is no earlier than `clip` microseconds after the origin. */
  lemma KeptExactly(frames: seq<Frame>, t0: int, clip: int, i: nat)
    requires InOrder(frames) && i < |frames| && t0 <= frames[i].timestamp
    ensures IsTail(Kept(frames, t0, clip), frames)
    ensures i >= |frames| - |Kept(frames, t0, clip)| <==> frames[i].timestamp - t0 >= 1000 * clip
  {
    hide IsTail;
    KeptIsSuffix(frames, t0, clip);
    KeptOrNot(frames, t0, clip, i);
  }

  lemma {:induction false} KeptOrNot(frames: seq<Frame>, t0: int, clip: int, i: nat)
    requires InOrder(frames) && i < |frames|
    ensures |Kept(frames, t0, clip)| <= |frames|
    ensures i >= |frames| - |Kept(frames, t0, clip)| <==> Micros(frames[i], t0) >= clip
  {
    hide Micros;
    var n := |frames| - 1;
    var front := frames[..n];
    if Micros(frames[n], t0) < clip {
      Earlier(frames[i], frames[n], t0);
      LastDecides(frames, t0, clip);
    } else if i < n {
      KeptOrNot(front, t0, clip, i);
    } else if n > 0 {
      KeptOrNot(front, t0, clip, 0);
    }
  }

  /** When the latest frame is before the window, so is every other one. */
  lemma LastDecides(frames: seq<Frame>, t0: int, clip: int)
    requires InOrder(frames) && frames != [] && Micros(frames[|frames| - 1], t0) < clip
    ensures Kept(frames, t0, clip) == [] && IsTail([], frames) && Micros(frames[0], t0) < clip
  {
    hide Micros, Kept;
    forall i | 0 <= i < |frames| ensures Micros(frames[i], t0) < clip { Earlier(frames[i], frames[|frames| - 1], t0); }
    AllBeforeClip(frames, t0, clip);
  }

  lemma TailSnoc(kept: seq<Frame>, front: seq<Frame>, last: Frame)
    requires IsTail(kept, front)
    ensures IsTail(kept + [last], front + [last])
  {
  }

  lemma TailOfNothing(kept: seq<Frame>)
    ensures IsTail([], []) && (IsTail(kept, []) ==> kept == [])
  {
  }

  lemma KeptNothing(t0: int, clip: int)
    ensures Kept([], t0, clip) == []
  {
  }

  lemma Earlier(a: Frame, b: Frame, t0: int)
    requires a.timestamp <= b.timestamp
    ensures Micros(a, t0) <= Micros(b, t0)
  {
  }

  lemma {:induction false} AllBeforeClip(frames: seq<Frame>, t0: int, clip: int)
    requires forall i :: 0 <= i < |frames| ==> Micros(frames[i], t0) < clip
    ensures Kept(frames, t0, clip) == []
  {
    if frames != [] {
      AllBeforeClip(frames[..|frames| - 1], t0, clip);
    }
  }

  /** Frames on show after evicting `evict` points and adding new ones. */
  function Slid<T>(shown: seq<T>, added: seq<T>, evict: nat): seq<T> {
    (if evict <= |shown| then shown[evict..] else []) + added
  }

  /** How many frames the application drops from its own buffer to keep it at the depth. */
  function Evicted(buffer: seq<Frame>, added: seq<Frame>, depth: nat): nat {
    if |buffer| + |added| > depth then |buffer| + |added| - depth else 0
  }

  /** The frames on show after a run of appends that began in step with the buffer. */
  function ShownAfter(shown: seq<Frame>, buffer: seq<Frame>, batches: seq<seq<Frame>>, depth: nat): seq<Frame>
    decreases |batches|
  {
    if batches == [] then shown
    else ShownAfter(Slid(shown, batches[0], Evicted(buffer, batches[0], depth)), Last(buffer + batches[0], depth),
      batches[1..], depth)
  }

  function BufferAfter(buffer: seq<Frame>, batches: seq<seq<Frame>>, depth: nat): seq<Frame>
    decreases |batches|
  {
    if batches == [] then buffer else BufferAfter(Last(buffer + batches[0], depth), batches[1..], depth)
  }

  lemma SlideInStep(buffer: seq<Frame>, added: seq<Frame>, depth: nat)
    requires |buffer| <= depth
    ensures Slid(buffer, added, Evicted(buffer, added, depth)) == Last(buffer + added, depth) <==> |added| <= depth
    ensures |added| > depth ==> |Slid(buffer, added, Evicted(buffer, added, depth))| > depth
  {
    if |added| <= depth {
      var e := Evicted(buffer, added, depth);
      assert (buffer + added)[e..] == buffer[e..] + added;
    }
  }

  /** Once more is on show than the buffer holds, it stays that way. */
  lemma {:induction false} OversizedStays(shown: seq<Frame>, buffer: seq<Frame>, batches: seq<seq<Frame>>, depth: nat)
    requires |shown| > depth == |buffer|
    ensures |ShownAfter(shown, buffer, batches, depth)| > depth && |BufferAfter(buffer, batches, depth)| == depth
    decreases |batches|
  {
    if batches != [] {
      OversizedStays(Slid(shown, batches[0], Evicted(buffer, batches[0], depth)), Last(buffer + batches[0], depth),
        batches[1..], depth);
    }
  }

  /** A view built from the buffer keeps showing exactly the buffer through any run of appends in which no batch
      exceeds the depth, and through no other. */
  lemma {:induction false} StaysInStepIff(buffer: seq<Frame>, batches: seq<seq<Frame>>, depth: nat)
    requires |buffer| <= depth
    ensures ShownAfter(buffer, buffer, batches, depth) == BufferAfter(buffer, batches, depth)
      <==> forall i :: 0 <= i < |batches| ==> |batches[i]| <= depth
    decreases |batches|
  {
    if batches != [] {
      var added, rest := batches[0], batches[1..];
      SlideInStep(buffer, added, depth);
      var buffer' := Last(buffer + added, depth);
      if |added| <= depth {
        StaysInStepIff(buffer', rest, depth);
        assert forall i :: 0 <= i < |batches| ==> batches[i] == if i == 0 then added else rest[i - 1];
        assert forall i :: 0 <= i < |rest| ==> rest[i] == batches[i + 1];
      } else {
        OversizedStays(Slid(buffer, added, Evicted(buffer, added, depth)), buffer', rest, depth);
      }
    }
  }

  /** A view clipped to its scroll window stays a tail of the buffer, but appends do not fill it up again: it covers
      the buffer only if it did before or the batch alone fills the depth. */
  lemma ClippedSlides(shown: seq<Frame>, buffer: seq<Frame>, added: seq<Frame>, depth: nat)
    requires |shown| <= |buffer| <= depth && shown == buffer[|buffer| - |shown|..] && |added| <= depth
    ensures var s, b := Slid(shown, added, Evicted(buffer, added, depth)), Last(buffer + added, depth);
      |s| <= |b| && s == b[|b| - |s|..] && (s == b <==> |shown| == |buffer| || |added| == depth)
  {
    var s, b := Slid(shown, added, Evicted(buffer, added, depth)), Last(buffer + added, depth);
    var both := buffer + added;
    assert s == both[|both| - |s|..];
    assert b == both[|both| - |b|..];
  }

  /** A frame no earlier than two origins. */
  predicate After(f: Frame, t0: int, t1: int) { t0 <= f.timestamp && t1 <= f.timestamp }

  ghost predicate ShiftedBy(t0: int, t1: int, d: int) {
    forall f: Frame :: After(f, t0, t1) ==> Micros(f, t0) == Micros(f, t1) + d
  }

  /** Moving the time origin shifts every lane time after it by the same amount exactly when it moves by whole
      microseconds. */
  lemma OriginsDifferByConstantIff(t0: int, t1: int)
    ensures (exists d :: ShiftedBy(t0, t1, d)) <==> (t1 - t0) % 1000 == 0
  {
    hide Micros;
    if (t1 - t0) % 1000 == 0 {
      var d := (t1 - t0) / 1000;
      forall f: Frame | After(f, t0, t1) ensures Micros(f, t0) == Micros(f, t1) + d { WholeMicros(f, t0, t1); }
      assert ShiftedBy(t0, t1, d);
    } else if d :| ShiftedBy(t0, t1, d) {
      Stagger(t0, t1, d);
    }
  }

  lemma WholeMicros(f: Frame, t0: int, t1: int)
    requires (t1 - t0) % 1000 == 0 && After(f, t0, t1)
    ensures Micros(f, t0) == Micros(f, t1) + (t1 - t0) / 1000
  {
    WholeShift(f.timestamp - t1, (t1 - t0) / 1000);
  }

  lemma WholeShift(x: int, k: int)
    ensures (x + 1000 * k) / 1000 == x / 1000 + k
  {
  }

  /** Two frames a nanosecond apart, on either side of a microsecond of one origin. */
  lemma Stagger(t0: int, t1: int, d: int)
    requires ShiftedBy(t0, t1, d)
    ensures (t1 - t0) % 1000 == 0
  {
    var k := 1 + (if t1 < 0 then -t1 else 0) + (if t0 > t1 then t0 - t1 else 0);
    var start := t1 + 1000 * k;
    var data := ScanResult([], map[]);
    var f, g := Frame(start, data), Frame(start - 1, data);
    assert After(f, t0, t1) && After(g, t0, t1);
    assert Micros(f, t1) == k && Micros(g, t1) == k - 1;
    assert Micros(f, t0) == Micros(g, t0) + 1;
  }

  // ------------------------------------------------- what redefined buses do

  /** A frame on show, with the bus definitions in force when its values were computed. */
  datatype Entry = Entry(frame: Frame, buses: seq<BusDefinition>)

  function FramesOf(entries: seq<Entry>): (r: seq<Frame>)
    ensures |r| == |entries|
  {
    seq(|entries|, i requires 0 <= i < |entries| => entries[i].frame)
  }

  function Entries(frames: seq<Frame>, buses: seq<BusDefinition>): (r: seq<Entry>)
    ensures |r| == |frames|
  {
    seq(|frames|, i requires 0 <= i < |frames| => Entry(frames[i], buses))
  }

  /** The source of lane k under some definitions. */
  function SourceAt(signals: seq<string>, buses: seq<BusDefinition>, k: nat): Source
    requires k < |signals| + |buses|
  {
    if k < |signals| then Signal(signals[k]) else Bus(buses[k - |signals|])
  }

  /** Every entry has a definition for each of n bus lanes. */
  ghost predicate Width(entries: seq<Entry>, n: nat) {
    forall i :: 0 <= i < |entries| ==> |entries[i].buses| == n
  }

  /** Lane k as it is drawn: each value from the definition of its own time. */
  function Drawn(signals: seq<string>, n: nat, entries: seq<Entry>, k: nat, t0: int): Lane
    requires Width(entries, n) && k < |signals| + n
  {
    Lane(seq(|entries|, i requires 0 <= i < |entries| => Micros(entries[i].frame, t0)),
         seq(|entries|, i requires 0 <= i < |entries| =>
           ValueOf(SourceAt(signals, entries[i].buses, k), entries[i].frame.data)))
  }

  ghost predicate Draws(lanes: seq<Lane>, signals: seq<string>, n: nat, entries: seq<Entry>, t0: int) {
    && Width(entries, n) && |lanes| <= |signals| + n
    && forall k :: 0 <= k < |lanes| ==> lanes[k] == Drawn(signals, n, entries, k, t0)
  }

  /** Every frame gives every bus the same value under the definitions of its time and under `buses`. */
  ghost predicate Agree(entries: seq<Entry>, buses: seq<BusDefinition>)
    requires Width(entries, |buses|)
  {
    forall i, j :: 0 <= i < |entries| && 0 <= j < |buses| ==>
      BusValue(entries[i].buses[j].signals, entries[i].frame.data) == BusValue(buses[j].signals, entries[i].frame.data)
  }

  /** The lanes are the picture of their frames under given definitions exactly when every frame agrees on them. */
  lemma PicturesIffAgree(lanes: seq<Lane>, signals: seq<string>, buses: seq<BusDefinition>, entries: seq<Entry>,
                         t0: int)
    requires Draws(lanes, signals, |buses|, entries, t0) && |lanes| == |signals| + |buses|
    ensures Pictures(lanes, SourcesOf(signals, buses), FramesOf(entries), t0) <==> Agree(entries, buses)
  {
    hide Micros, BusValue;
    var sources := SourcesOf(signals, buses);
    if Agree(entries, buses) {
      forall k | 0 <= k < |lanes| ensures lanes[k] == Picture(sources[k], FramesOf(entries), t0) {
        LaneIsPicture(signals, buses, entries, k, t0);
      }
    } else {
      var i, j :| 0 <= i < |entries| && 0 <= j < |buses| &&
        BusValue(entries[i].buses[j].signals, entries[i].frame.data)
          != BusValue(buses[j].signals, entries[i].frame.data);
      var k := |signals| + j;
      assert lanes[k].values[i] != Picture(sources[k], FramesOf(entries), t0).values[i];
    }
  }

  lemma LaneIsPicture(signals: seq<string>, buses: seq<BusDefinition>, entries: seq<Entry>, k: nat, t0: int)
    requires Width(entries, |buses|) && Agree(entries, buses) && k < |signals| + |buses|
    ensures Drawn(signals, |buses|, entries, k, t0) == Picture(SourcesOf(signals, buses)[k], FramesOf(entries), t0)
  {
    hide Micros, BusValue;
  }

  /** After an append the lanes are right under the current definitions exactly when every frame kept from before
      the append gives each bus the same value under its old and its current definition. */
  lemma AppendExactIff(lanes: seq<Lane>, signals: seq<string>, buses: seq<BusDefinition>, kept: seq<Entry>,
                       added: seq<Frame>, t0: int)
    requires Draws(lanes, signals, |buses|, kept + Entries(added, buses), t0) && |lanes| == |signals| + |buses|
    ensures Width(kept, |buses|)
    ensures Pictures(lanes, SourcesOf(signals, buses), FramesOf(kept) + added, t0) <==> Agree(kept, buses)
  {
    hide Micros, BusValue, Drawn, Pictures;
    var all := kept + Entries(added, buses);
    WidthParts(kept, added, buses);
    PicturesIffAgree(lanes, signals, buses, all, t0);
    assert FramesOf(all) == FramesOf(kept) + added;
    AgreeParts(kept, added, buses);
  }

  lemma WidthParts(kept: seq<Entry>, added: seq<Frame>, buses: seq<BusDefinition>)
    ensures Width(kept + Entries(added, buses), |buses|) <==> Width(kept, |buses|)
  {
    var all := kept + Entries(added, buses);
    if Width(all, |buses|) {
      forall i | 0 <= i < |kept| ensures |kept[i].buses| == |buses| { assert all[i] == kept[i]; }
    }
  }

  lemma AgreeParts(kept: seq<Entry>, added: seq<Frame>, buses: seq<BusDefinition>)
    requires Width(kept, |buses|) && Width(kept + Entries(added, buses), |buses|)
    ensures Agree(kept + Entries(added, buses), buses) <==> Agree(kept, buses)
  {
    hide BusValue;
    var all := kept + Entries(added, buses);
    if Agree(all, buses) {
      forall i, j | 0 <= i < |kept| && 0 <= j < |buses|
        ensures BusValue(kept[i].buses[j].signals, kept[i].frame.data) == BusValue(buses[j].signals, kept[i].frame.data)
      {
        assert all[i] == kept[i];
      }
    }
  }

  /** The definitions before, the same bus with one signal more, and a frame on which they differ. */
  const NARROW := BusDefinition("addr", ["A"])

  const WIDE := BusDefinition("addr", ["A", "B"])

  const A_HIGH := Frame(0, ScanResult([], map["A" := High]))

  /** A bus widened under its own name passes the name check, and the frame kept from before stays wrong. */
  lemma RedefinedBusIsWrong(lanes: seq<Lane>)
    requires |lanes| == 1 && Draws(lanes, [], 1, [Entry(A_HIGH, [NARROW])], 0)
    ensures Names([NARROW]) == Names([WIDE]) && [NARROW] != [WIDE]
    ensures lanes[0].values == [1]
    ensures BusValue(WIDE.signals, A_HIGH.data) == 2
    ensures !Pictures(lanes, SourcesOf([], [WIDE]), [A_HIGH], 0)
  {
    assert NARROW.signals[..0] == [] && WIDE.signals[..1] == ["A"] && ["A"][..0] == [];
    assert lanes[0].values == [BusValue(NARROW.signals, A_HIGH.data)];
    assert Picture(SourcesOf([], [WIDE])[0], [A_HIGH], 0).values[0] == 2;
  }

  // ------------------------------------------------------------- the view

  class WaveformView {
    var lanes: seq<Lane>
    var laneSignals: seq<string>
    var laneBusNames: seq<string>
    var t0: int
    var autoScroll: bool
    var fitRequested: bool
    var window: nat

    /** The frames on show, with the bus definitions their values come from. */
    ghost var shown: seq<Entry>

    constructor ()
      ensures Valid() && lanes == [] && shown == [] && !autoScroll && !fitRequested && window == 10000
    {
      lanes, laneSignals, laneBusNames, t0, autoScroll, fitRequested, window := [], [], [], 0, false, false, 10000;
      shown := [];
    }

    /** There are no lanes and nothing is shown, or every lane is drawn from the frames on show. */
    ghost predicate Valid()
      reads this
    {
      || (lanes == [] && shown == [])
      || (|lanes| == |laneSignals| + |laneBusNames| && Draws(lanes, laneSignals, |laneBusNames|, shown, t0))
    }

    /** Every lane is what a rebuild from these frames with these definitions would make of it. */
    ghost predicate Exact(buses: seq<BusDefinition>, frames: seq<Frame>)
      reads this
    {
      Pictures(lanes, SourcesOf(laneSignals, buses), frames, t0)
    }

    /** Rebuilds every lane from the buffer; while scrolling only the last two windows' worth. */
    method SetData(signals: seq<string>, buses: seq<BusDefinition>, samples: seq<Frame>)
      modifies this`lanes, this`laneSignals, this`laneBusNames, this`t0, this`shown
      ensures Valid() && laneSignals == signals && laneBusNames == Names(buses)
      ensures samples == [] || (signals == [] && buses == []) ==> lanes == [] && shown == []
      ensures samples != [] && (signals != [] || buses != []) ==>
        var origin := samples[0].timestamp;
        var clip := if autoScroll && !fitRequested then Micros(samples[|samples| - 1], origin) - 2 * window else -1;
        && t0 == origin && shown == Entries(Kept(samples, origin, clip), buses)
        && Exact(buses, Kept(samples, origin, clip))
    {
      hide Picture, ValueOf, Micros, Kept, Pictures, Draws;
      lanes, laneSignals, laneBusNames, shown := [], signals, Names(buses), [];
      if samples == [] || (signals == [] && buses == []) { return; }
      var origin := samples[0].timestamp;
      var clip := if autoScroll && !fitRequested then Micros(samples[|samples| - 1], origin) - 2 * window else -1;
      ghost var frames := Kept(samples, origin, clip);
      var built := BuildLanes(signals, buses, samples, origin, clip);
      RebuiltDraws(built, signals, buses, frames, origin);
      lanes, t0, shown := built, origin, Entries(frames, buses);
    }

    /** The signal lanes, then the bus lanes. */
    method BuildLanes(signals: seq<string>, buses: seq<BusDefinition>, samples: seq<Frame>, origin: int, clip: int)
        returns (built: seq<Lane>)
      ensures Pictures(built, SourcesOf(signals, buses), Kept(samples, origin, clip), origin)
    {
      hide Picture, ValueOf, Micros, Kept, Pictures;
      built := [];
      ghost var frames, sources := Kept(samples, origin, clip), SourcesOf(signals, buses);
      NoPictures(sources, frames, origin);
      for k := 0 to |signals|
        invariant |built| == k && Pictures(built, sources[..k], frames, origin)
      {
        var lane := BuildLane(Signal(signals[k]), samples, origin, clip);
        PicturesGrow(built, sources, lane, frames, origin);
        built := built + [lane];
      }
      for k := 0 to |buses|
        invariant |built| == |signals| + k && Pictures(built, sources[..|signals| + k], frames, origin)
      {
        var lane := BuildLane(Bus(buses[k]), samples, origin, clip);
        PicturesGrow(built, sources, lane, frames, origin);
        built := built + [lane];
      }
      assert sources[..|signals| + |buses|] == sources;
    }

    method BuildLane(source: Source, samples: seq<Frame>, origin: int, clip: int) returns (lane: Lane)
      ensures lane == Picture(source, Kept(samples, origin, clip), origin)
    {
      hide Picture, ValueOf, Micros, Kept;
      lane := Lane([], []);
      EmptyPicture(source, origin);
      KeptNothing(origin, clip);
      assert samples[..0] == [];
      for i := 0 to |samples|
        invariant lane == Picture(source, Kept(samples[..i], origin, clip), origin)
      {
        assert samples[..i + 1] == samples[..i] + [samples[i]];
        KeptSnoc(samples[..i], samples[i], origin, clip);
        var us := Micros(samples[i], origin);
        if us < clip { continue; }
        var v := Evaluate(source, samples[i].data);
        PictureSnoc(source, Kept(samples[..i], origin, clip), samples[i], origin);
        lane := Lane(lane.times + [us], lane.values + [v]);
      }
      assert samples[..|samples|] == samples;
    }

    method Evaluate(source: Source, data: ScanResult) returns (v: nat)
      ensures v == ValueOf(source, data)
    {
      match source
      case Signal(name) => v := if data.GetPin(name) == High then 1 else 0;
      case Bus(bus) => v := ComputeBusValue(bus, data);
    }

    /** Extends every lane by the new frames after dropping `evict` points from its front. Refuses when the selection
        changed by name, or when there are no lanes to extend. The definitions themselves are not compared: the lanes
        are right exactly when the kept frames give every bus the value it had under the definition of their time. */
    method AppendData(signals: seq<string>, buses: seq<BusDefinition>, newFrames: seq<Frame>, evict: nat)
        returns (ok: bool)
      requires Valid()
      modifies this`lanes, this`shown
      ensures Valid()
      ensures ok <==>
        && signals == laneSignals && Names(buses) == laneBusNames
        && (old(lanes) == [] ==> signals == [] && buses == [])
      ensures !ok ==> lanes == old(lanes) && shown == old(shown)
      ensures ok ==> shown == Slid(old(shown), Entries(newFrames, buses), evict)
      ensures ok && (signals != [] || buses != []) ==> var kept := Slid(old(shown), [], evict);
        && |lanes| == |old(lanes)| && Width(kept, |buses|)
        && (Exact(buses, FramesOf(kept) + newFrames) <==> Agree(kept, buses))
    {
      hide Micros, Drawn, ValueOf, Pictures, Agree, Draws;
      if signals != laneSignals { return false; }
      if |buses| != |laneBusNames| { return false; }
      for i := 0 to |buses|
        invariant forall k :: 0 <= k < i ==> buses[k].name == laneBusNames[k]
        modifies {}
      {
        if buses[i].name != laneBusNames[i] { return false; }
      }
      if lanes == [] && (signals != [] || buses != []) { return false; }
      ok := true;
      var extended := ExtendLanes(signals, buses, newFrames, evict);
      ghost var kept := Slid(shown, [], evict);
      if signals != [] || buses != [] { AppendExactIff(extended, signals, buses, kept, newFrames, t0); }
      shown := Slid(shown, Entries(newFrames, buses), evict);
      lanes := extended;
    }

    method ExtendLanes(signals: seq<string>, buses: seq<BusDefinition>, newFrames: seq<Frame>, evict: nat)
        returns (extended: seq<Lane>)
      requires Valid() && signals == laneSignals && |buses| == |laneBusNames|
      requires lanes == [] ==> signals == [] && buses == []
      ensures |extended| == |lanes| == |signals| + |buses|
      ensures Draws(extended, signals, |buses|, Slid(shown, [], evict) + Entries(newFrames, buses), t0)
      ensures Slid(shown, [], evict) + Entries(newFrames, buses) == Slid(shown, Entries(newFrames, buses), evict)
    {
      hide Micros, Drawn, ValueOf;
      extended := [];
      ghost var n, all := |buses|, Slid(shown, [], evict) + Entries(newFrames, buses);
      assert Width(all, n);
      for k := 0 to |lanes|
        invariant |extended| == k
        invariant forall j :: 0 <= j < k ==> extended[j] == Drawn(signals, n, all, j, t0)
      {
        var source := if k < |signals| then Signal(signals[k]) else Bus(buses[k - |signals|]);
        var lane := ExtendLane(k, signals, buses, source, lanes[k], newFrames, evict, shown);
        extended := extended + [lane];
      }
    }

    method ExtendLane(ghost k: nat, ghost signals: seq<string>, ghost buses: seq<BusDefinition>, source: Source,
                      lane: Lane,
                      newFrames: seq<Frame>, evict: nat, ghost entries: seq<Entry>)
        returns (r: Lane)
      requires k < |signals| + |buses| && source == SourceAt(signals, buses, k) && Width(entries, |buses|)
      requires lane == Drawn(signals, |buses|, entries, k, t0)
      ensures Width(Slid(entries, [], evict) + Entries(newFrames, buses), |buses|)
      ensures r == Drawn(signals, |buses|, Slid(entries, [], evict) + Entries(newFrames, buses), k, t0)
    {
      hide Drawn, ValueOf, Micros, SourceAt;
      var nt := if evict < |lane.times| then evict else |lane.times|;
      var nv := if evict < |lane.values| then evict else |lane.values|;
      r := Lane(lane.times[nt..], lane.values[nv..]);
      ghost var n, left := |buses|, Slid(entries, [], evict);
      DrawnDrop(signals, n, entries, k, evict, t0);
      assert left + Entries(newFrames[..0], buses) == left;
      for i := 0 to |newFrames|
        invariant Width(left + Entries(newFrames[..i], buses), n)
        invariant r == Drawn(signals, n, left + Entries(newFrames[..i], buses), k, t0)
      {
        var v := Evaluate(source, newFrames[i].data);
        ghost var was := left + Entries(newFrames[..i], buses);
        DrawnSnoc(signals, buses, was, newFrames[i], k, t0);
        assert left + Entries(newFrames[..i + 1], buses) == was + [Entry(newFrames[i], buses)];
        r := Lane(r.times + [Micros(newFrames[i], t0)], r.values + [v]);
      }
      assert newFrames[..|newFrames|] == newFrames;
    }
  }

  /** A rebuild draws every lane with one set of definitions. */
  lemma RebuiltDraws(lanes: seq<Lane>, signals: seq<string>, buses: seq<BusDefinition>, frames: seq<Frame>, t0: int)
    requires Pictures(lanes, SourcesOf(signals, buses), frames, t0)
    ensures |lanes| == |signals| + |buses| && Draws(lanes, signals, |buses|, Entries(frames, buses), t0)
  {
    hide Micros, BusValue;
    var e := Entries(frames, buses);
    assert FramesOf(e) == frames;
    assert Width(e, |buses|);
    forall k | 0 <= k < |lanes| ensures lanes[k] == Drawn(signals, |buses|, e, k, t0) {
      LaneIsPicture(signals, buses, e, k, t0);
    }
  }

  lemma DrawnSnoc(signals: seq<string>, buses: seq<BusDefinition>, entries: seq<Entry>, f: Frame, k: nat, t0: int)
    requires Width(entries, |buses|) && k < |signals| + |buses|
    ensures var e := entries + [Entry(f, buses)];
      && Width(e, |buses|)
      && Drawn(signals, |buses|, e, k, t0)
        == Lane(Drawn(signals, |buses|, entries, k, t0).times + [Micros(f, t0)],
                Drawn(signals, |buses|, entries, k, t0).values + [ValueOf(SourceAt(signals, buses, k), f.data)])
  {
    hide ValueOf, Micros, SourceAt;
  }

  /** Dropping points from the front of a lane drops frames from its picture. */
  lemma DrawnDrop(signals: seq<string>, n: nat, entries: seq<Entry>, k: nat, evict: nat, t0: int)
    requires Width(entries, n) && k < |signals| + n
    ensures Width(Slid(entries, [], evict), n)
    ensures var p, at := Drawn(signals, n, entries, k, t0), if evict < |entries| then evict else |entries|;
      && |p.times| == |entries| == |p.values|
      && Drawn(signals, n, Slid(entries, [], evict), k, t0) == Lane(p.times[at..], p.values[at..])
  {
    hide ValueOf, Micros, SourceAt;
  }

  lemma NoPictures(sources: seq<Source>, frames: seq<Frame>, t0: int)
    ensures Pictures([], sources[..0], frames, t0)
  {
  }

  lemma PicturesGrow(built: seq<Lane>, sources: seq<Source>, lane: Lane, frames: seq<Frame>, t0: int)
    requires |built| < |sources| && Pictures(built, sources[..|built|], frames, t0)
    requires lane == Picture(sources[|built|], frames, t0)
    ensures Pictures(built + [lane], sources[..|built| + 1], frames, t0)
  {
    hide Picture;
  }

  lemma EmptyPicture(s: Source, t0: int)
    ensures Picture(s, [], t0) == Lane([], [])
  {
  }
}
