/** The IEEE 1149.1 TAP state diagram and the breadth-first search for TMS paths. */
module Tap {
  import opened Bytes

  datatype TapState =
    | TestLogicReset | RunTestIdle
    | SelectDrScan | CaptureDr | ShiftDr | Exit1Dr | PauseDr | Exit2Dr | UpdateDr
    | SelectIrScan | CaptureIr | ShiftIr | Exit1Ir | PauseIr | Exit2Ir | UpdateIr

  function Next(s: TapState, tms: bool): TapState {
    match s
    case TestLogicReset => if tms then TestLogicReset else RunTestIdle
    case RunTestIdle => if tms then SelectDrScan else RunTestIdle
    case SelectDrScan => if tms then SelectIrScan else CaptureDr
    case CaptureDr => if tms then Exit1Dr else ShiftDr
    case ShiftDr => if tms then Exit1Dr else ShiftDr
    case Exit1Dr => if tms then UpdateDr else PauseDr
    case PauseDr => if tms then Exit2Dr else PauseDr
    case Exit2Dr => if tms then UpdateDr else ShiftDr
    case UpdateDr => if tms then SelectDrScan else RunTestIdle
    case SelectIrScan => if tms then TestLogicReset else CaptureIr
    case CaptureIr => if tms then Exit1Ir else ShiftIr
    case ShiftIr => if tms then Exit1Ir else ShiftIr
    case Exit1Ir => if tms then UpdateIr else PauseIr
    case PauseIr => if tms then Exit2Ir else PauseIr
    case Exit2Ir => if tms then UpdateIr else ShiftIr
    case UpdateIr => if tms then SelectDrScan else RunTestIdle
  }

  /** The states a level of TMS holds, and the ones from which a low TMS leads to shifting. */
  lemma HeldStates(s: TapState, tms: bool)
    ensures Next(s, tms) == s <==>
      if tms then s == TestLogicReset else s in {RunTestIdle, ShiftDr, PauseDr, ShiftIr, PauseIr}
    ensures Next(s, tms) == ShiftDr <==> !tms && s in {CaptureDr, ShiftDr, Exit2Dr}
    ensures Next(s, tms) == ShiftIr <==> !tms && s in {CaptureIr, ShiftIr, Exit2Ir}
  {
  }

  /** Where a TMS sequence leads, first bit clocked first. */
  function Walk(s: TapState, tms: seq<bool>): TapState
    decreases |tms|
  {
    if tms == [] then s else Walk(Next(s, tms[0]), tms[1..])
  }

  lemma {:induction false} WalkAppend(s: TapState, p: seq<bool>, q: seq<bool>)
    ensures Walk(s, p + q) == Walk(Walk(s, p), q)
    decreases |p|
  {
    if p == [] {
      assert p + q == q;
    } else {
      assert (p + q)[1..] == p[1..] + q;
      WalkAppend(Next(s, p[0]), p[1..], q);
    }
  }

  lemma WalkSnoc(s: TapState, p: seq<bool>, b: bool)
    ensures Walk(s, p + [b]) == Next(Walk(s, p), b)
  {
    WalkAppend(s, p, [b]);
  }

  /** Five ones reset the controller from anywhere. */
  lemma FiveOnesReset(s: TapState)
    ensures Walk(s, [true, true, true, true, true]) == TestLogicReset
  {
    WalkAppend(s, [true, true, true], [true, true]);
    assert [true, true, true] + [true, true] == [true, true, true, true, true];
    var m := Next(Next(Next(s, true), true), true);
    WalkAppend(s, [true], [true, true]);
    assert [true] + [true, true] == [true, true, true];
    WalkAppend(Next(s, true), [true], [true]);
    assert [true] + [true] == [true, true];
    assert Walk(s, [true, true, true]) == m;
    WalkAppend(m, [true], [true]);
  }

  // ------------------------------------------------------------ reachability

  /** The only targets more than seven clocks away. */
  predicate TooFar(from: TapState, to: TapState) {
    to == Exit2Ir && from in {CaptureDr, ShiftDr, PauseDr}
  }

  /** A lower bound on the clocks from s to Exit2-IR. */
  function ClocksToExit2Ir(s: TapState): nat {
    match s
    case TestLogicReset => 7
    case RunTestIdle => 6
    case SelectDrScan => 5
    case CaptureDr => 8
    case ShiftDr => 8
    case Exit1Dr => 7
    case PauseDr => 8
    case Exit2Dr => 7
    case UpdateDr => 6
    case SelectIrScan => 4
    case CaptureIr => 3
    case ShiftIr => 3
    case Exit1Ir => 2
    case PauseIr => 1
    case Exit2Ir => 0
    case UpdateIr => 6
  }

  lemma {:induction false} Exit2IrIsFar(s: TapState, p: seq<bool>)
    requires Walk(s, p) == Exit2Ir
    ensures |p| >= ClocksToExit2Ir(s)
    decreases |p|
  {
    if p != [] {
      Exit2IrIsFar(Next(s, p[0]), p[1..]);
    }
  }

  function ToSelectDr(s: TapState): seq<bool> {
    match s
    case TestLogicReset => [false, true]
    case RunTestIdle => [true]
    case SelectDrScan => []
    case SelectIrScan => [true, false, true]
    case Exit1Dr => [true, true]
    case Exit2Dr => [true, true]
    case Exit1Ir => [true, true]
    case Exit2Ir => [true, true]
    case UpdateDr => [true]
    case UpdateIr => [true]
    case _ => [true, true, true]
  }

  function FromSelectDr(s: TapState): seq<bool> {
    match s
    case TestLogicReset => [true, true]
    case RunTestIdle => [true, true, false]
    case SelectDrScan => []
    case CaptureDr => [false]
    case ShiftDr => [false, false]
    case Exit1Dr => [false, true]
    case PauseDr => [false, true, false]
    case Exit2Dr => [false, true, false, true]
    case UpdateDr => [false, true, true]
    case SelectIrScan => [true]
    case CaptureIr => [true, false]
    case ShiftIr => [true, false, false]
    case Exit1Ir => [true, false, true]
    case PauseIr => [true, false, true, false]
    case Exit2Ir => [true, false, true, false, true]
    case UpdateIr => [true, false, true, true]
  }

  /** A path through Select-DR-Scan, except inside the IR column. */
  function Route(from: TapState, to: TapState): seq<bool> {
    if to == Exit2Ir && from == SelectIrScan then [false, true, false, true]
    else if to == Exit2Ir && from in {CaptureIr, ShiftIr} then [true, false, true]
    else if to == Exit2Ir && from == PauseIr then [true]
    else ToSelectDr(from) + FromSelectDr(to)
  }

  lemma Walk3(s: TapState, a: bool, b: bool, c: bool)
    ensures Walk(s, [a, b, c]) == Next(Next(Next(s, a), b), c)
  {
    Walk2(Next(s, a), b, c);
    assert [a, b, c][1..] == [b, c];
  }

  lemma Walk2(s: TapState, a: bool, b: bool)
    ensures Walk(s, [a]) == Next(s, a)
    ensures Walk(s, [a, b]) == Next(Next(s, a), b)
  {
    assert [a, b][1..] == [b];
    assert [b][1..] == [] && [a][1..] == [];
    assert Walk(Next(Next(s, a), b), []) == Next(Next(s, a), b);
  }

  lemma ToSelectDrWalks(s: TapState)
    ensures Walk(s, ToSelectDr(s)) == SelectDrScan
  {
    var p := ToSelectDr(s);
    if |p| == 3 { Walk3(s, p[0], p[1], p[2]); assert p == [p[0], p[1], p[2]]; }
    else if |p| == 2 { Walk2(s, p[0], p[1]); assert p == [p[0], p[1]]; }
    else if |p| == 1 { Walk2(s, p[0], p[0]); assert p == [p[0]]; }
  }

  lemma FromSelectDrWalks(s: TapState)
    ensures Walk(SelectDrScan, FromSelectDr(s)) == s
  {
    var p := FromSelectDr(s);
    if |p| >= 3 {
      Walk3(SelectDrScan, p[0], p[1], p[2]);
      assert p == [p[0], p[1], p[2]] + p[3..];
      WalkAppend(SelectDrScan, [p[0], p[1], p[2]], p[3..]);
      if |p| == 5 { Walk2(Walk(SelectDrScan, [p[0], p[1], p[2]]), p[3], p[4]); assert p[3..] == [p[3], p[4]]; }
      if |p| == 4 { Walk2(Walk(SelectDrScan, [p[0], p[1], p[2]]), p[3], p[3]); assert p[3..] == [p[3]]; }
    }
    else if |p| == 2 { Walk2(SelectDrScan, p[0], p[1]); assert p == [p[0], p[1]]; }
    else if |p| == 1 { Walk2(SelectDrScan, p[0], p[0]); assert p == [p[0]]; }
  }

  lemma RouteWalks(from: TapState, to: TapState)
    requires !TooFar(from, to)
    ensures Walk(from, Route(from, to)) == to && |Route(from, to)| <= 7
  {
    if to == Exit2Ir && from in {SelectIrScan, CaptureIr, ShiftIr, PauseIr} {
      Walk3(SelectIrScan, false, true, false);
      assert [false, true, false] + [true] == [false, true, false, true];
      WalkAppend(SelectIrScan, [false, true, false], [true]);
      Walk2(PauseIr, true, true);
      Walk3(from, true, false, true);
    } else {
      ToSelectDrWalks(from);
      FromSelectDrWalks(to);
      WalkAppend(from, ToSelectDr(from), FromSelectDr(to));
    }
  }

  /** Seven TMS clocks suffice for every pair but three. */
  lemma SevenClocksReach(from: TapState, to: TapState)
    ensures (exists p: seq<bool> :: |p| <= 7 && Walk(from, p) == to) <==> !TooFar(from, to)
  {
    if TooFar(from, to) {
      forall p: seq<bool> | |p| <= 7 ensures Walk(from, p) != to {
        if Walk(from, p) == to { Exit2IrIsFar(from, p); }
      }
    } else {
      RouteWalks(from, to);
    }
  }

  // ------------------------------------------------------ computeTmsPath

  datatype PathEntry = PathEntry(state: TapState, tms: byte, length: nat)

  function TmsBits(tms: byte, n: nat): (r: seq<bool>)
    requires n <= 8
    ensures |r| == n
  {
    Bits([tms], 0, n)
  }

  ghost predicate EntryOk(from: TapState, e: PathEntry) {
    && e.length <= 6
    && Walk(from, TmsBits(e.tms, e.length)) == e.state
    && forall j {:trigger Bit(e.tms, j)} :: e.length <= j < 8 ==> !Bit(e.tms, j)
  }

  ghost predicate HasEntry(queue: seq<PathEntry>, s: TapState, bound: nat) {
    exists j :: 0 <= j < |queue| && queue[j].state == s && queue[j].length <= bound
  }

  /** Both successors of an expanded entry are queued, unless the length limit cut them off. */
  ghost predicate Expanded(queue: seq<PathEntry>, to: TapState, e: PathEntry) {
    forall b :: Next(e.state, b) != to && (e.length + 1 < 7 ==> HasEntry(queue, Next(e.state, b), e.length + 1))
  }

  ghost predicate Searching(queue: seq<PathEntry>, head: nat, from: TapState, to: TapState) {
    && head <= |queue|
    && |queue| > 0 && queue[0] == PathEntry(from, 0, 0)
    && (forall i :: 0 <= i < |queue| ==> queue[i].length <= 6 && queue[i].state != to)
    && (forall i, j :: 0 <= i < j < |queue| ==> queue[i].state != queue[j].state)
    && (forall i, j :: 0 <= i < j < |queue| ==> queue[i].length <= queue[j].length)
    && (forall i :: 0 <= i < head ==> Expanded(queue, to, queue[i]))
  }

  /** Breadth first: a state some path reaches is queued no deeper than that path,
      as long as every entry shallower than the path has been expanded. */
  lemma {:induction false} PathIsQueued(queue: seq<PathEntry>, head: nat, from: TapState, to: TapState, p: seq<bool>)
    requires Searching(queue, head, from, to)
    requires |p| <= 6
    requires forall i :: head <= i < |queue| ==> queue[i].length >= |p|
    ensures HasEntry(queue, Walk(from, p), |p|)
  {
    if p == [] {
      assert queue[0].state == Walk(from, p);
    } else {
      var q, b := p[..|p| - 1], p[|p| - 1];
      assert p == q + [b];
      WalkSnoc(from, q, b);
      PathIsQueued(queue, head, from, to, q);
      var j :| 0 <= j < |queue| && queue[j].state == Walk(from, q) && queue[j].length <= |q|;
      assert Expanded(queue, to, queue[j]);
      var k :| 0 <= k < |queue| && queue[k].state == Next(queue[j].state, b) && queue[k].length <= queue[j].length + 1;
    }
  }

  /** No path shorter than the entry being expanded reaches the target. */
  lemma TargetIsNotCloser(queue: seq<PathEntry>, head: nat, from: TapState, to: TapState, depth: nat, p: seq<bool>)
    requires Searching(queue, head, from, to)
    requires depth <= 6 && forall i :: head <= i < |queue| ==> queue[i].length >= depth
    requires |p| <= 7 && (head == |queue| || |p| <= depth)
    ensures Walk(from, p) != to
  {
    if p == [] {
      assert queue[0].state == from;
    } else {
      var q, b := p[..|p| - 1], p[|p| - 1];
      assert p == q + [b];
      WalkSnoc(from, q, b);
      PathIsQueued(queue, head, from, to, q);
      var j :| 0 <= j < |queue| && queue[j].state == Walk(from, q) && queue[j].length <= |q|;
      assert Expanded(queue, to, queue[j]);
    }
  }

  lemma ExtendTms(from: TapState, e: PathEntry, b: bool, tms: byte)
    requires EntryOk(from, e)
    requires tms == if b then e.tms | BitMask(e.length) else e.tms
    ensures Walk(from, TmsBits(tms, e.length + 1)) == Next(e.state, b)
    ensures e.length < 6 ==> EntryOk(from, PathEntry(Next(e.state, b), tms, e.length + 1))
  {
    hide Bit, BitMask, Next, Walk, TmsBits;
    RaisedBits(e.tms, e.length, b, tms);
    OneMoreBit(e.tms, e.length, b, tms);
    WalkSnoc(from, TmsBits(e.tms, e.length), b);
  }

  lemma RaisedBits(was: byte, at: nat, b: bool, tms: byte)
    requires at < 8 && tms == if b then was | BitMask(at) else was
    ensures forall j {:trigger Bit(tms, j)} :: 0 <= j < 8 ==> Bit(tms, j) == (Bit(was, j) || (b && j == at))
  {
    hide Bit, BitMask;
    forall j {:trigger Bit(tms, j)} | 0 <= j < 8 ensures Bit(tms, j) == (Bit(was, j) || (b && j == at)) {
      if b { BitOfOr(was, at, j); }
    }
  }

  lemma OneMoreBit(was: byte, at: nat, b: bool, tms: byte)
    requires at < 8 && !Bit(was, at)
    requires forall j {:trigger Bit(tms, j)} :: 0 <= j < 8 ==> Bit(tms, j) == (Bit(was, j) || (b && j == at))
    ensures TmsBits(tms, at + 1) == TmsBits(was, at) + [b]
  {
    hide Bit;
    forall j | 0 <= j < at + 1 ensures TmsBits(tms, at + 1)[j] == (TmsBits(was, at) + [b])[j] {
      assert TmsBits(tms, at + 1)[j] == Bit(tms, j);
    }
  }

  /** Sixteen states: the fixed-size queue never overflows. */
  lemma QueueFits(queue: seq<PathEntry>, states: set<TapState>)
    requires forall i, j :: 0 <= i < j < |queue| ==> queue[i].state != queue[j].state
    requires states == set i | 0 <= i < |queue| :: queue[i].state
    ensures |queue| <= 16
  {
    DistinctStates(queue, states);
    var all := {TestLogicReset, RunTestIdle, SelectDrScan, CaptureDr, ShiftDr, Exit1Dr, PauseDr, Exit2Dr, UpdateDr,
                SelectIrScan, CaptureIr, ShiftIr, Exit1Ir, PauseIr, Exit2Ir, UpdateIr};
    assert states <= all;
    SubsetSize(states, all);
  }

  lemma {:induction false} SubsetSize<T>(a: set<T>, b: set<T>)
    requires a <= b
    ensures |a| <= |b|
  {
    if a != {} {
      var x :| x in a;
      SubsetSize(a - {x}, b - {x});
    }
  }

  lemma {:induction false} DistinctStates(queue: seq<PathEntry>, states: set<TapState>)
    requires forall i, j :: 0 <= i < j < |queue| ==> queue[i].state != queue[j].state
    requires states == set i | 0 <= i < |queue| :: queue[i].state
    ensures |states| == |queue|
  {
    if queue != [] {
      var front, last := queue[..|queue| - 1], queue[|queue| - 1];
      var rest := set i | 0 <= i < |front| :: front[i].state;
      DistinctStates(front, rest);
      assert states == rest + {last.state};
    }
  }

  /** Queues one successor unless it was met before or lies past the length limit. */
  method Visit(queue: seq<PathEntry>, visited: set<TapState>, ghost head: nat, ghost from: TapState, ghost to: TapState,
               cur: PathEntry, b: bool, tms: byte)
      returns (queue': seq<PathEntry>, visited': set<TapState>)
    requires Searching(queue, head, from, to) && Sound(queue, from, visited)
    requires head < |queue| && queue[head] == cur
    requires forall i :: 0 <= i < |queue| ==> queue[i].length <= cur.length + 1
    requires Next(cur.state, b) != to
    requires tms == if b then cur.tms | BitMask(cur.length) else cur.tms
    ensures Searching(queue', head, from, to) && Sound(queue', from, visited')
    ensures |queue| <= |queue'| && queue == queue'[..|queue|]
    ensures forall i :: 0 <= i < |queue'| ==> queue'[i].length <= cur.length + 1
    ensures cur.length + 1 < 7 ==> HasEntry(queue', Next(cur.state, b), cur.length + 1)
  {
    hide EntryOk, Expanded, Walk, TmsBits, Bit, BitMask;
    var next := Next(cur.state, b);
    queue', visited' := queue, visited;
    if next !in visited && cur.length + 1 < 7 {
      var e := PathEntry(next, tms, cur.length + 1);
      ExtendTms(from, cur, b, tms);
      visited', queue' := visited + {next}, queue + [e];
      AppendKeepsSearching(queue, head, from, to, e);
      AppendKeepsSound(queue, from, visited, e);
      assert queue'[|queue|] == e;
    } else if cur.length + 1 < 7 {
      var j :| 0 <= j < |queue| && queue[j].state == next;
    }
  }

  lemma AppendKeepsSearching(queue: seq<PathEntry>, head: nat, from: TapState, to: TapState, e: PathEntry)
    requires Searching(queue, head, from, to)
    requires e.length <= 6 && e.state != to
    requires forall i :: 0 <= i < |queue| ==> queue[i].length <= e.length && queue[i].state != e.state
    ensures Searching(queue + [e], head, from, to)
  {
    var queue' := queue + [e];
    assert queue == queue'[..|queue|];
    StillExpanded(queue, queue', head, to);
  }

  lemma AppendKeepsSound(queue: seq<PathEntry>, from: TapState, visited: set<TapState>, e: PathEntry)
    requires Sound(queue, from, visited) && EntryOk(from, e)
    ensures Sound(queue + [e], from, visited + {e.state})
  {
    var queue' := queue + [e];
    forall s ensures s in visited + {e.state} <==> exists i :: 0 <= i < |queue'| && queue'[i].state == s {
      if s in visited {
        var i :| 0 <= i < |queue| && queue[i].state == s;
        assert queue'[i] == queue[i];
      }
      assert queue'[|queue|] == e;
    }
  }

  lemma StillExpanded(queue: seq<PathEntry>, queue': seq<PathEntry>, head: nat, to: TapState)
    requires head <= |queue| <= |queue'| && queue == queue'[..|queue|]
    requires forall i :: 0 <= i < head ==> Expanded(queue, to, queue[i])
    ensures forall i :: 0 <= i < head ==> Expanded(queue', to, queue'[i])
  {
    forall i | 0 <= i < head ensures Expanded(queue', to, queue'[i]) {
      assert Expanded(queue, to, queue[i]) && queue'[i] == queue[i];
      forall b ensures queue[i].length + 1 < 7 ==> HasEntry(queue', Next(queue[i].state, b), queue[i].length + 1) {
        if queue[i].length + 1 < 7 {
          var k :| 0 <= k < |queue| && queue[k].state == Next(queue[i].state, b)
            && queue[k].length <= queue[i].length + 1;
          assert queue'[k] == queue[k];
        }
      }
    }
  }

  /** Every queued TMS pattern leads to its state, and `visited` is exactly the queued states. */
  ghost predicate Sound(queue: seq<PathEntry>, from: TapState, visited: set<TapState>) {
    && (forall i :: 0 <= i < |queue| ==> EntryOk(from, queue[i]))
    && (forall s :: s in visited <==> exists i :: 0 <= i < |queue| && queue[i].state == s)
  }

  /** The search finds a shortest path whenever one of at most seven clocks exists.
      For the other pairs it returns five ones, which lead to Test-Logic-Reset. */
  method ComputeTmsPath(from: TapState, to: TapState) returns (len: nat, tms: byte)
    ensures len <= 7 && (len == 0 <==> from == to)
    ensures Walk(from, TmsBits(tms, len)) == if TooFar(from, to) then TestLogicReset else to
    ensures !TooFar(from, to) ==> forall p :: Walk(from, p) == to ==> len <= |p|
  {
    hide EntryOk, Expanded, HasEntry, Walk, TmsBits, Bit, BitMask, TooFar, Sound, Next;
    if from == to {
      EmptyPath(from);
      TooFarHasNoPath(from, to, []);
      return 0, 0;
    }
    var queue, visited, head := [PathEntry(from, 0, 0)], {from}, 0;
    StartIsSound(from, to);
    while head < |queue|
      invariant Searching(queue, head, from, to) && Sound(queue, from, visited)
      invariant head < |queue| ==> forall i :: 0 <= i < |queue| ==> queue[i].length <= queue[head].length + 1
      decreases 16 - head
    {
      ghost var states := set i | 0 <= i < |queue| :: queue[i].state;
      QueueFits(queue, states);
      var cur := queue[head];
      SoundAt(queue, from, visited, head);
      NothingCloser(queue, head, from, to);
      var zero, one := cur.tms, cur.tms | BitMask(cur.length);
      ExtendTms(from, cur, false, zero);
      ExtendTms(from, cur, true, one);
      if Next(cur.state, false) == to {
        TooFarHasNoPath(from, to, TmsBits(zero, cur.length + 1));
        return cur.length + 1, zero;
      }
      queue, visited := Visit(queue, visited, head, from, to, cur, false, zero);
      if Next(cur.state, true) == to {
        TooFarHasNoPath(from, to, TmsBits(one, cur.length + 1));
        return cur.length + 1, one;
      }
      var queue1 := queue;
      queue, visited := Visit(queue, visited, head, from, to, cur, true, one);
      Advance(queue1, queue, head, from, to, cur);
      head := head + 1;
    }
    FallbackIsForced(queue, from, to);
    return 5, 0x1F;
  }

  lemma SoundAt(queue: seq<PathEntry>, from: TapState, visited: set<TapState>, head: nat)
    requires Sound(queue, from, visited) && head < |queue|
    ensures EntryOk(from, queue[head]) && queue[head].length <= 6
  {
    hide Walk, TmsBits, Bit;
  }

  lemma EmptyPath(from: TapState)
    ensures Walk(from, TmsBits(0, 0)) == from && TmsBits(0, 0) == [] && Walk(from, []) == from
  {
  }

  lemma StartIsSound(from: TapState, to: TapState)
    requires from != to
    ensures Searching([PathEntry(from, 0, 0)], 0, from, to) && Sound([PathEntry(from, 0, 0)], from, {from})
  {
    var queue := [PathEntry(from, 0, 0)];
    forall j {:trigger Bit(0, j)} | 0 <= j < 8 ensures !Bit(0, j) { BitOfZero(j); }
    assert EntryOk(from, queue[0]);
    assert queue[0].state == from;
  }

  lemma NothingCloser(queue: seq<PathEntry>, head: nat, from: TapState, to: TapState)
    requires Searching(queue, head, from, to) && head < |queue|
    ensures forall p :: |p| <= queue[head].length ==> Walk(from, p) != to
  {
    forall p | |p| <= queue[head].length ensures Walk(from, p) != to {
      TargetIsNotCloser(queue, head, from, to, queue[head].length, p);
    }
  }

  lemma Advance(queue1: seq<PathEntry>, queue: seq<PathEntry>, head: nat, from: TapState, to: TapState, cur: PathEntry)
    requires Searching(queue, head, from, to)
    requires head < |queue1| <= |queue| && queue1 == queue[..|queue1|] && queue[head] == cur
    requires Next(cur.state, false) != to && Next(cur.state, true) != to
    requires cur.length + 1 < 7 ==> HasEntry(queue1, Next(cur.state, false), cur.length + 1)
    requires cur.length + 1 < 7 ==> HasEntry(queue, Next(cur.state, true), cur.length + 1)
    ensures Searching(queue, head + 1, from, to)
  {
    if cur.length + 1 < 7 {
      var j :| 0 <= j < |queue1| && queue1[j].state == Next(cur.state, false) && queue1[j].length <= cur.length + 1;
      assert queue[j] == queue1[j];
      assert HasEntry(queue, Next(cur.state, false), cur.length + 1);
    }
    assert Expanded(queue, to, cur);
  }

  lemma FiveOnes()
    ensures TmsBits(0x1F, 5) == [true, true, true, true, true]
  {
    var b: byte := 0x1F;
    assert Bit(b, 0) && Bit(b, 1) && Bit(b, 2) && Bit(b, 3) && Bit(b, 4);
    forall k | 0 <= k < 5 ensures TmsBits(b, 5)[k] {
      assert TmsBits(b, 5)[k] == Bit(b, k);
      assert k in {0, 1, 2, 3, 4};
    }
  }

  lemma FallbackIsForced(queue: seq<PathEntry>, from: TapState, to: TapState)
    requires Searching(queue, |queue|, from, to)
    ensures TooFar(from, to)
    ensures Walk(from, TmsBits(0x1F, 5)) == TestLogicReset
  {
    forall p: seq<bool> | |p| <= 7 ensures Walk(from, p) != to {
      TargetIsNotCloser(queue, |queue|, from, to, 0, p);
    }
    SevenClocksReach(from, to);
    FiveOnes();
    FiveOnesReset(from);
  }

  lemma TooFarHasNoPath(from: TapState, to: TapState, p: seq<bool>)
    requires Walk(from, p) == to && |p| <= 7
    ensures !TooFar(from, to)
  {
    SevenClocksReach(from, to);
  }
}
