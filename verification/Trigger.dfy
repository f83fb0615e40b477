/** When a capture triggers: conditions on two consecutive scan results. */
module Trigger {
  import opened Scanner

  datatype TriggerMode = FreeRun | Single | Normal

  datatype TriggerEdge = Rising | Falling | Either

  datatype TriggerCondition = Edge(pinName: string, edge: TriggerEdge) | Level(pinName: string, level: PinState)

  predicate MetBy(c: TriggerCondition, prev: ScanResult, curr: ScanResult) {
    match c
    case Edge(pin, edge) =>
      var rising := prev.GetPin(pin) == Low && curr.GetPin(pin) == High;
      var falling := prev.GetPin(pin) == High && curr.GetPin(pin) == Low;
      (edge != Falling && rising) || (edge != Rising && falling)
    case Level(pin, level) => curr.GetPin(pin) == level
  }

  /** All conditions hold on this pair of samples. */
  ghost predicate AllMet(conditions: seq<TriggerCondition>, prev: ScanResult, curr: ScanResult) {
    forall i :: 0 <= i < |conditions| ==> MetBy(conditions[i], prev, curr)
  }

  class TriggerEngine {
    var mode: TriggerMode
    var conditions: seq<TriggerCondition>
    var triggered: bool
    var armed: bool
    var preTriggerRatio: real

    constructor ()
      ensures mode == FreeRun && conditions == [] && !triggered && !armed && preTriggerRatio == 0.5
    {
      mode, conditions, triggered, armed, preTriggerRatio := FreeRun, [], false, false, 0.5;
    }

    method SetPreTriggerRatio(ratio: real)
      modifies this`preTriggerRatio
      ensures 0.0 <= preTriggerRatio <= 1.0
      ensures preTriggerRatio == if ratio < 0.0 then 0.0 else if ratio > 1.0 then 1.0 else ratio
    {
      preTriggerRatio := ratio;
      if preTriggerRatio < 0.0 { preTriggerRatio := 0.0; }
      if preTriggerRatio > 1.0 { preTriggerRatio := 1.0; }
    }

    method Arm()
      modifies this`triggered, this`armed
      ensures armed && !triggered
    {
      triggered, armed := false, true;
    }

    method Evaluate(prev: ScanResult, curr: ScanResult) returns (fired: bool)
      modifies this`triggered
      ensures mode == FreeRun ==> fired
      ensures mode == Normal && armed ==> (fired <==> AllMet(conditions, prev, curr))
      ensures mode == Single && armed ==> (fired <==> !old(triggered) && AllMet(conditions, prev, curr))
      ensures mode != FreeRun && !armed ==> !fired
      ensures triggered == (old(triggered) || (fired && mode != FreeRun && conditions != []))
    {
      if mode == FreeRun { return true; }
      if !armed { return false; }
      if triggered && mode == Single { return false; }
      if conditions == [] { return true; }
      for i := 0 to |conditions|
        invariant triggered == old(triggered)
        invariant forall k :: 0 <= k < i ==> MetBy(conditions[k], prev, curr)
      {
        var met := EvaluateCondition(conditions[i], prev, curr);
        if !met { return false; }
      }
      triggered := true;
      fired := true;
    }

    method EvaluateCondition(cond: TriggerCondition, prev: ScanResult, curr: ScanResult) returns (met: bool)
      ensures met == MetBy(cond, prev, curr)
      ensures cond.Level? ==>
        (met <==> if cond.pinName in curr.pinStates then curr.pinStates[cond.pinName] == cond.level
                  else cond.level == Unknown)
    {
      match cond
      case Edge(pin, edge) => met := EvaluateEdge(pin, edge, prev, curr);
      case Level(pin, level) => met := curr.GetPin(pin) == level;
    }

    /** An edge needs both samples known. */
    method EvaluateEdge(pin: string, edge: TriggerEdge, prev: ScanResult, curr: ScanResult) returns (met: bool)
      ensures met == MetBy(Edge(pin, edge), prev, curr)
      ensures met <==> pin in prev.pinStates && pin in curr.pinStates &&
                       (prev.pinStates[pin], curr.pinStates[pin], edge) in
                         {(Low, High, Rising), (High, Low, Falling), (Low, High, Either), (High, Low, Either)}
    {
      var was, now := prev.GetPin(pin), curr.GetPin(pin);
      if was == Unknown || now == Unknown { return false; }
      var rising := was == Low && now == High;
      var falling := was == High && now == Low;
      match edge
      case Rising => met := rising;
      case Falling => met := falling;
      case Either => met := rising || falling;
    }
  }
}
