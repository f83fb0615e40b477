/** The parsed device description: boundary cells and instructions. */
module Bsdl {
  import opened Bytes

  datatype CellFunction = Input | Output2 | Output3 | Control | Bidir | ClockIn | Internal

  /** -1 stands for "none", as in the description's own fields. */
  datatype BoundaryCell = BoundaryCell(position: int, pinName: string, function_: CellFunction,
                                       safeValue: int, disabledBy: int, disableValue: int)
  {
    predicate HasPin() { pinName != "*" && pinName != "" }

    predicate IsInput() { function_ in {Input, Bidir, ClockIn} }

    predicate IsOutput() { function_ in {Output2, Output3, Bidir} }
  }

  const EMPTY_CELL := BoundaryCell(-1, "", Input, -1, -1, -1)

  datatype PinDirection = In | Out | InOut | Buffer | Linkage

  datatype BsdlDevice = BsdlDevice(entityName: string, instructionLength: int, instructions: map<string, nat>,
                                   boundaryLength: nat, boundaryCells: seq<BoundaryCell>,
                                   pins: map<string, PinDirection>, idcode: nat)
  {
    /** One cell slot per boundary bit, each empty or holding the cell of its own position. */
    ghost predicate WellFormed() {
      && |boundaryCells| == boundaryLength <= 65536
      && forall i :: 0 <= i < |boundaryCells| ==> boundaryCells[i].position in {-1, i}
    }
  }

  /** EXTEST would take over live processor pins of a device that has any. */
  predicate AllowsLiveExtest(d: BsdlDevice) {
    forall name :: name in d.pins ==>
      !("PS_DDR_" <= name) && !("PS_MIO" <= name) && name != "PS_SRST_B" && name != "PS_POR_B"
  }

  const EMPTY_DEVICE := BsdlDevice("", 0, map[], 0, [], map[], 0)

  function GetInstruction(d: BsdlDevice, name: string): Option<nat> {
    if name in d.instructions then Some(d.instructions[name]) else None
  }

  function SampleOpcode(d: BsdlDevice): Option<nat> {
    var op := GetInstruction(d, "SAMPLE");
    if op.None? then GetInstruction(d, "SAMPLE/PRELOAD") else op
  }
}
