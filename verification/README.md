# OWLTAP in Dafny

A model of the host side of OWLTAP, the JTAG viewer, logic analyser and flash programmer, with proofs about it. The
code that drives hardware is modelled down to the pulses on the cable; the pure and buffering parts are modelled
over the data they keep. `dafny verify dfyconfig.toml` checks everything.

## What is modelled

**From calls to clocks.** `Mpsse` compiles builder calls to FTDI MPSSE commands (application note AN_108, sections 3.3
to 3.8) and interprets the bytes as TMS/TDI pulses and engine settings. `Hardware` is the other end: an IEEE 1149.1 TAP
shared by a list of devices, device 0 nearest TDO, advanced one TCK pulse at a time. `Cable` joins the two, TDO sampling
included, and lets a transfer fail after any pulse. `Tap` is the path search, `TapControl` the controller. Their
contracts say what whole scans do to the chain, so nothing above them mentions pulses.

**The chain.** `Chain` and `Discovery` frame every scan so that one device is addressed and the others are in BYPASS,
for any number of devices and any target: selection, boundary reads and writes, data reads, and the discovery of devices
from the reset-time stream.

**The logic analyser.** `IlaCore` is the BSCANE2 core as its RTL describes it: capture preloads the register of the
stored opcode, update stores the frame's. `Backend` is the host's prime-scan protocol over it, with both batch forms
under one contract that fixes every byte; `Session` proves the protocol over whole runs; `IlaDriver` is the driver.

**Around the chain.** `BsdlLexer` and `BsdlParser` read device descriptions; `BsdlSpelling`, `BsdlWriter` and
`BsdlRoundTrip` write them down in every spelling and prove that each reads back as the device it describes. `Scanner`
and `PinDriver` read and drive pins by them; `PlConfig` configures programmable logic; `NorFlash`, `Flash`,
`FlashBridge` and `Mcs` program a flash.

**Captures and jobs.** `Ring`, `Trigger`, `CaptureSession` and `CaptureEngine` are the two capture rings against the
unbounded history of what was stored in them. `Waveform` is the incremental waveform view. `Executor` is the job
executor as a state machine: one transition for every atomic section of every thread, all interleavings.

Transfers, scans and waits can fail at any point. The cable and the flash transport count their failures in ghost fields
(`faults`, `timeouts`), and every operation above them says how far its verdict follows the count: most fail exactly
when a transfer failed, and the promises of those that ignore a result hold for every call during which the count stood
still.

## Where the code does less than its comments say

- The path search returns the reset sequence for Capture-DR, Shift-DR and Pause-DR to Exit2-IR, which need eight
  clocks; gotoState then records the target (`Tap.SevenClocksReach`, `TapControl.TapController.GotoState`).
- The BSCANE2 host sends 37-bit frames, so it works only with a core of data width 32 (`Session.NarrowCoreLosesOpcode`).
- A full readout through the panel or the daemon is in order only up to 16 address bits (`IlaDriver.InOrderIffSixteenBits`).
  The readout in `src/mcp/tools/register_tools.cpp` sets address 0 first, so over BSCANE2 its samples start at word 1:
  the contract of `IlaDriver.IlaDriver.ReadSamples` with a prime scan.
- Device discovery needs every IDCODE different from all ones and every BYPASS within 32 places of an IDCODE behind it
  (`Discovery.ParseInvertsStream`).
- readBSR ORs into the caller's buffer, and a scan ORs the last byte of its TDO bits into the caller's vector; both are
  exact only over clear bits (`Chain.MergeIsExactIffClear`, `TapControl.ExactIffNotStale`). No caller reuses one.
- The flash bridge's framing suits a register exactly as wide as the transaction. For a register that listens from the
  first clock, as its header describes, a command arrives as sent only when the target is alone
  (`FlashBridge.CommandArrivesIffAlone`).
- The scanner's error text outlives the scan that set it, so after one reported failure every later tick stops the
  capture session, restarted or not; and a failed instruction load sets no text, so its empty result can be recorded as
  a sample (`CaptureSession.CaptureSession.Tick`).
- A BSDL number too large for an int makes the parser throw where an instruction length or a cell number stands
  (`BsdlParser.ParsesIff`).
- The name of an entity is skipped up to the next semicolon, so the ports of an entity without a generic clause are lost
  (`BsdlRoundTrip.PortsReadIffGeneric`), and a boundary cell of an indexed port loses the end of its pin's name and the
  rest of its fields (`BsdlParser.PinReadsBackIff`).
- At pre-trigger ratio 1 a capture session's countdown wraps (`CaptureSession.TriggerSurvivesIff`).
- A segment base joined by bitwise or is the sum only without shared bits (`Mcs.AddressesAddUpIff`), and a record whose
  32-bit end wraps passes the capacity check (`Mcs.CopyStaysInsideIff`).
- A staged pin value reads back under a condition on its cells (`PinDriver.StagedReadsBackIff`).
- A submit that raced with shutdown may be accepted and never run (`Executor.SubmitCanBeStranded`).
- appendData compares buses by name only. A bus redefined under its old name keeps the old values in front of the new
  ones, which is right only where both definitions agree (`Waveform.AppendExactIff`). Lane times keep a constant offset
  only for whole-microsecond origins (`Waveform.OriginsDifferByConstantIff`), and a bus value its word only up to 64
  signals (`Waveform.FitsWordIff`).

## Model

| member | source | states |
|---|---|---|
| Mpsse.MpsseCommandBuffer.Compiles | src/ftdi/mpsse.cpp:22-156 | whatever sequence of builder calls filled the buffer, running its bytes as MPSSE commands makes exactly the pulses the calls asked for, from any pin levels, leaves the engine set as the calls set it, and sends back exactly the expected number of bytes |
| Mpsse.CallsDo | src/ftdi/mpsse.cpp:22-115 | the byte encodings of a list of calls, put end to end, run to the concatenation of the calls' own pulses and leave pins and engine settings where the calls leave them |
| Mpsse.CallDoes | src/ftdi/mpsse.cpp:22-115 | the bytes of one call, its chunk headers and length fields included, make exactly that call's pulses |
| Mpsse.LastSettingWins | src/ftdi/mpsse.cpp:117-154 | the clock divisor, the divide-by-5, three-phase and loopback modes and the pin levels and directions end up as the last call for each asked, whatever else was queued around it |
| Mpsse.CallsReply | src/ftdi/mpsse.cpp:28-111 | the reply bytes a run sends back are as many as the calls' read counts add up to |
| Mpsse.CallReplies | src/ftdi/mpsse.cpp:28-111 | the same for one call: one byte per whole byte read and one for a remainder |
| Mpsse.ParseIsSelfDelimiting | src/ftdi/mpsse.cpp:22-156 | what a command is depends on its own bytes only, so commands put end to end are read back as themselves |
| Mpsse.ByteChunksDo | src/ftdi/mpsse.cpp:44-57 | cutting data into 65536-byte commands loses and repeats no bit |
| Mpsse.ShiftDoes | src/ftdi/mpsse.cpp:38-63 | byte chunks followed by the bit remainder clock out exactly the first bitCount bits, least significant first |
| Mpsse.ShiftInDoes | src/ftdi/mpsse.cpp:65-87 | the same for reads: exactly bitCount sampled pulses with the pins held |
| Mpsse.ClockTmsDoes | src/ftdi/mpsse.cpp:22-36 | a TMS command clocks its low n bits on TMS with TDI held at the given level |
| Mpsse.LengthRoundTrip | src/ftdi/mpsse.cpp:46-52 | the two-byte length field read back is the chunk length it was written for, up to 65536 |
| Mpsse.MpsseCommandBuffer.ClockTms | src/ftdi/mpsse.cpp:22-36 | appends one TMS call; a count outside 1..7 appends nothing |
| Mpsse.MpsseCommandBuffer.ShiftOut | src/ftdi/mpsse.cpp:38-63 | appends exactly the encoding of one output call, chunk loop included |
| Mpsse.MpsseCommandBuffer.ShiftIn | src/ftdi/mpsse.cpp:65-87 | appends one read call and adds its reply bytes to the expected count |
| Mpsse.MpsseCommandBuffer.ShiftInOut | src/ftdi/mpsse.cpp:89-115 | appends one full-duplex call and adds its reply bytes to the expected count |
| Framing.ParseAppend | src/ftdi/mpsse.cpp:14-20 | with self-delimiting commands the parse of two buffers put together is the two parses put together |
| Cable.FtdiDevice.Transfer | src/ftdi/ftdi_device.cpp:498-606 | a successful transfer applies exactly the buffer's pulses to the chain and returns the bytes the cable shifted in meanwhile; a failure may leave any prefix of the pulses applied |
| Cable.FtdiDevice.Write | src/ftdi/ftdi_device.cpp:603-606 | a write is a transfer whose reply is not read |
| Cable.FtdiDevice.InitMpsse | src/ftdi/ftdi_device.cpp:480-496 | a set-up that went through leaves the divisor that fits the frequency best from below or the largest one, no divide-by-5, three-phase or loopback mode, and levels 0x88 with directions 0x8B; the chain sees no clock |
| Cable.ReplyAppend | src/ftdi/ftdi_device.cpp:498-601 | the reply to two runs of pulses is the two replies in order |
| Cable.BytesReply | src/ftdi/ftdi_device.cpp:498-601 | a byte-mode read returns the sampled TDO bits packed LSB first |
| Cable.BlockReply | src/ftdi/ftdi_device.cpp:498-601 | a bit-mode read returns its bits in the top of one byte |
| Tap.SevenClocksReach | src/jtag/tap_controller.cpp:45-90 | a TAP state is reachable from another in at most seven clocks if and only if the pair is not Capture-DR, Shift-DR or Pause-DR to Exit2-IR |
| Tap.ComputeTmsPath | src/jtag/tap_controller.cpp:45-90 | the search returns a shortest path whenever one of at most seven clocks exists; for the three other pairs it returns five ones, which lead to Test-Logic-Reset instead of the target |
| Tap.PathIsQueued | src/jtag/tap_controller.cpp:56-88 | breadth-first order: a state reachable by some path is queued no deeper than that path |
| Tap.TargetIsNotCloser | src/jtag/tap_controller.cpp:56-88 | while an entry is being expanded no path as short as it reaches the target |
| Tap.QueueFits | src/jtag/tap_controller.cpp:56-66 | the fixed sixteen-entry queue never overflows |
| Tap.FiveOnesReset | src/jtag/tap_controller.cpp:87-89 | five clocks with TMS high reach Test-Logic-Reset from every state |
| Tap.HeldStates | src/jtag/tap_controller.cpp:7-26 | the states that a level of TMS holds, and those from which a low TMS leads to shifting |
| Tap.ExtendTms | src/jtag/tap_controller.cpp:67-85 | appending a TMS bit to the pattern byte appends one step to the walk it encodes |
| TapControl.ScanRuns | src/jtag/tap_controller.cpp:198-243 | the clocks of one scan, the last with TMS high, slide the TDI bits through the selected path and leave Shift |
| TapControl.ScanReply | src/jtag/tap_controller.cpp:244-295 | the reply to a scan has its TDO bits in whole bytes, then top-aligned remainder bits, then the last bit in bit 7 |
| TapControl.Unpack | src/jtag/tap_controller.cpp:244-295 | taking that reply apart gives the TDO bits packed LSB first over whatever byte the caller's vector held in the last place: exactly the bits when that byte was 0 |
| TapControl.ExactIffNotStale | src/jtag/tap_controller.cpp:250-291 | every scan of n bits comes back exactly if and only if the byte left in its last place is 0 |
| TapControl.RoundsDo | src/jtag/tap_controller.cpp:297-345 | k rounds of goto, scan and return scan the chain k times, and the reply is the k scans' replies in order |
| TapControl.TapController.constructor | src/jtag/tap_controller.cpp:92-93 | the controller starts out believing in Test-Logic-Reset |
| TapControl.TapController.Reset | src/jtag/tap_controller.cpp:95-109 | six clocks put chain and tracker in Test-Logic-Reset and Run-Test/Idle whatever the state before |
| TapControl.TapController.GotoState | src/jtag/tap_controller.cpp:128-147 | the hardware walks the computed path; for the pairs out of reach the tracker records the target while the hardware sits in Test-Logic-Reset |
| TapControl.TapController.DoShift | src/jtag/tap_controller.cpp:198-295 | the pulses of the shift, and its TDO bits over the last byte of the caller's vector; fails exactly when a transfer fails |
| TapControl.TapController.ShiftIR | src/jtag/tap_controller.cpp:149-163 | from Run-Test/Idle back to it, with the bits in the instruction registers |
| TapControl.TapController.ShiftDR | src/jtag/tap_controller.cpp:165-180 | a whole data scan: the chain after it, and the captured bits, over the last byte of the caller's vector |
| TapControl.TapController.ShiftDRWrite | src/jtag/tap_controller.cpp:182-190 | the same without reading |
| TapControl.TapController.ReadDR | src/jtag/tap_controller.cpp:192-196 | a data scan with zeros at TDI, read in the same way |
| TapControl.TapController.ClkIdle | src/jtag/tap_controller.cpp:111-126 | idling makes exactly the clocks asked for and changes nothing in the chain; what was asked is appended to the log of waits |
| TapControl.TapController.ShiftDRRepeat | src/jtag/tap_controller.cpp:297-389 | count equal scans sent 512 to a transfer leave the chain, and return the bits, of count single scans; fails exactly when a transfer fails |
| Chain.TargetPath | src/jtag/jtag_chain.cpp:200-234 | with all other devices in BYPASS the scan path is one zero per device with the target's captured bits in its place |
| Chain.TargetUpdate | src/jtag/jtag_chain.cpp:238-272 | an update changes the target's register only, to the bits at its place |
| Chain.TargetReads | src/jtag/jtag_chain.cpp:274-309 | every payload bit position of a scan addressed to device t reads the bit t's register captured |
| Chain.TargetReadsZeros | src/jtag/jtag_chain.cpp:204-234 | reading with zeros returns the register's bits and zeros beyond its end |
| Chain.TargetScan | src/jtag/jtag_chain.cpp:200-272 | for a payload of any length the scan reads the front of register, bypass zeros and payload in a row, and leaves its end in the target's register and everything else as it was |
| Chain.TargetWrites | src/jtag/jtag_chain.cpp:238-272 | a payload framed with one zero per other device ends up in the target's register, and nothing else moves |
| Chain.SelectScans | src/jtag/jtag_chain.cpp:141-182 | the instruction path loads the opcode, cut to its width, into the target and all ones into every other device |
| Chain.SelectTargets | src/jtag/jtag_chain.cpp:141-182 | afterwards every other device is in BYPASS |
| Chain.OnesBits | src/jtag/jtag_chain.cpp:168-172 | the all-ones value of an instruction register is 2^n - 1 |
| Chain.JtagChain.SelectInstruction | src/jtag/jtag_chain.cpp:141-182 | refuses a bad index untouched; otherwise the chain is the old one with that selection; a failed transfer is reported, but sets no error text |
| Chain.JtagChain.DetectDevices | src/jtag/jtag_chain.cpp:11-112 | without a failed transfer, for a chain whose stream fits 256 bits, the device table is the chain's true list if and only if the list is recoverable; then every entry has its position and IDCODE, and the table fits the hardware, as every later operation assumes, if and only if devices of manufacturer 0x23B have a 4-bit instruction register, other ones with an IDCODE 6 bits and ones in BYPASS 1; after a failed transfer it is empty |
| Chain.JtagChain.ParseTable | src/jtag/jtag_chain.cpp:55-108 | the cursor loop builds the table of the parsed stream; Chain.TableFits says what positions, IDCODEs and instruction register lengths that gives |
| Chain.JtagChain.ReadDataDR | src/jtag/jtag_chain.cpp:274-309 | returns exactly the first drBits bits of the target's captured register, for any chain length and target; fails exactly on bad arguments and failed transfers |
| Chain.JtagChain.ReadBSR | src/jtag/jtag_chain.cpp:184-236 | returns the boundary bits, partial or whole, ORed into what the caller's buffer held; fails exactly without a description, on a bad index and on failed transfers |
| Chain.MergeIsExactIffClear | src/jtag/jtag_chain.cpp:225-234 | every reading of n bits comes out exactly if and only if no bit of the caller's buffer is raised below 8 * ((n + 7) / 8) |
| Chain.JtagChain.WriteBSR | src/jtag/jtag_chain.cpp:238-272 | the target's register takes the end of what passes it, which is the argument when that is as long as the register; every other device keeps its state |
| Chain.AssembleFrame | src/jtag/jtag_chain.cpp:244-266 | the buffer built in place is the payload at the target's offset and zeros elsewhere |
| Bytes.BitWeights | src/boundary_scan/pin_driver.cpp:27-33 | bit 0 of a byte is the least significant |
| Chain.TableInjective | src/jtag/jtag_chain.cpp:62-107 | two different device lists give different tables |
| Chain.TableFits | src/jtag/jtag_chain.cpp:62-107 | the table of a chain's list has positions in order, the IDCODEs shown, and the chain's own instruction register lengths exactly when manufacturer 0x23B goes with 4 bits, any other with 6 and BYPASS with 1 |
| Chain.ResetKeepsWidths | src/jtag/jtag_chain.cpp:14-36 | the discovery scan itself leaves every instruction register as wide as it was |
| Discovery.ParseInvertsStream | src/jtag/jtag_chain.cpp:55-108 | parsing the reset-time stream of a device list, padded with zeros, gives the list back if and only if no IDCODE is all ones and every BYPASS has an IDCODE fewer than 32 places behind it |
| Discovery.ResetStream | src/jtag/jtag_chain.cpp:14-36 | after Test-Logic-Reset the scan path is the concatenation of IDCODEs and BYPASS zeros |
| Discovery.MoveShows | src/jtag/jtag_chain.cpp:14-24 | no walk of the TAP without shifting changes what the devices will show after a reset |
| Backend.ChainIlaTapBackend.ShiftDr | src/ila/ila_tap_backend.cpp:22-64 | returns the first drBits bits that pass the addressed register and leaves the last ones in it: captured bits out and payload in when drBits is its width; for any chain |
| Backend.FrameScan | src/ila/bscane_ila_tap_backend.cpp:29-79 | one 37-bit frame through the chain reads the preloaded data word and latches opcode and payload, for any chain length and PL position |
| Backend.PrimingReads | src/ila/bscane_ila_tap_backend.cpp:81-96 | after the conditional prime scan the next capture reads the register of the pending opcode, whatever the shadow was |
| IlaCore.CaptureShows | hdl/ila/rtl/ila_bscane2_top.sv:196-208 | a capture shows the opcode latched last and the register it names; the first one after a reset shows zeros |
| IlaCore.WrittenReadsBack | hdl/ila/rtl/ila_bscane2_top.sv:239-268 | what is written to a register reads back in the next capture under the same opcode, addresses modulo the depth; a READ_DATA write steps to the next word |
| IlaCore.WriteLeavesOthers | hdl/ila/rtl/ila_bscane2_top.sv:239-268 | and every other register reads as before |
| IlaCore.ResetValues | hdl/ila/rtl/ila_bscane2_top.sv:215-231 | a reset clears the triggers and the read address, keeps a quarter of the depth before the trigger, latches the IDCODE opcode, and leaves identification, status and memory |
| Backend.FrameLatches | hdl/ila/rtl/ila_bscane2_top.sv:215-270 | the bits of a frame are latched as its opcode and payload |
| Backend.BatchReturnsUnique | src/ila/ila_tap_backend.cpp:66-77 | the batch contract determines every returned byte, so two implementations that meet it return the same bytes |
| Backend.ReturnsUnique | src/ila/bscane_ila_tap_backend.cpp:98-111 | the same for one shift |
| Backend.BscaneIlaTapBackend.constructor | src/ila/bscane_ila_tap_backend.cpp:11-15 | the shadow starts unset |
| Backend.BscaneIlaTapBackend.SelectIr | src/ila/bscane_ila_tap_backend.cpp:17-27 | records the opcode and routes USERn; a call without a failed transfer succeeds and keeps the shadow in step with the hidden latch |
| Backend.BscaneIlaTapBackend.DoRawFrameShift | src/ila/bscane_ila_tap_backend.cpp:29-79 | exact effect of a frame on the whole chain, of which only the core's register changes, and the data word it returns; fails exactly when a transfer fails |
| Backend.BscaneIlaTapBackend.Prime | src/ila/bscane_ila_tap_backend.cpp:87-92 | brings the hidden latch to the pending opcode, with no scan when the shadow already says so |
| Backend.BscaneIlaTapBackend.ShiftDr | src/ila/bscane_ila_tap_backend.cpp:81-112 | returns the low bits of the register named by the last selectIr, keeps shadow and latch equal, and changes nothing in the chain but the core's register |
| Backend.BscaneIlaTapBackend.DefaultShiftDrBatch | src/ila/ila_tap_backend.cpp:66-77 | the reference loop over shiftDr: word i of the answer is the register at scan i; of the chain only the core's register changes |
| Backend.BscaneIlaTapBackend.ShiftDrBatch | src/ila/bscane_ila_tap_backend.cpp:114-177 | the bulk path meets the reference loop's contract: same bytes, same chain, same shadow |
| Session.EveryReadSeesItsRegister | src/ila/bscane_ila_tap_backend.cpp:17-177 | after any run of selections, shifts and batches the shadow is unset or equal to the hidden opcode, and every word read next is the last selected register at the moment of its capture |
| Session.PendingIsLastSelected | src/ila/bscane_ila_tap_backend.cpp:17-27 | the pending opcode of a run is the last one selected in it |
| Session.BatchIsShifts | src/ila/bscane_ila_tap_backend.cpp:114-177 | a batch leaves the state, and reads the words, of as many single shifts |
| Session.Perform | src/ila/bscane_ila_tap_backend.cpp:17-177 | a session run on the backend class itself ends in the state of the state machine's run, and each reply carries the words the operation reads in that run; it fails exactly when a transfer fails |
| Session.StartingAtResetOpcodeReadsZeros | src/ila/bscane_ila_tap_backend.h:31-36 | why the shadow starts at 0xFF: starting it at the reset opcode would return zeros instead of the IDCODE |
| Session.NarrowCoreLosesOpcode | hdl/ila/rtl/ila_bscane2_top.sv:131-135 | a 37-bit frame leaves the right opcode in a core of data width w if and only if w is 32 or the opcode is 0 |
| IlaDriver.PackBits | src/ila/ila_driver.cpp:8-13 | packs the low bits of a number LSB first |
| IlaDriver.WriteEffect | hdl/ila/rtl/ila_bscane2_top.sv:239-268 | a register write, prime scan included, changes the register it names and no other writable state |
| IlaDriver.SampleAt | hdl/ila/rtl/ila_bscane2_top.sv:258-259 | word k of a READ_DATA batch is the memory word k places after the address, one more if a prime scan ran |
| IlaDriver.AddressArrives | src/ila/ila_driver.cpp:209-217 | an address below the depth survives its trip through the frame |
| IlaDriver.IlaDriver.ShiftDrInt | src/ila/ila_driver.cpp:33-42 | one shift by number: the register of the pending opcode comes back as a number |
| IlaDriver.IlaDriver.SetReadAddr | src/ila/ila_driver.cpp:209-217 | sets the read address; an address past the depth is refused untouched |
| IlaDriver.IlaDriver.ReadSamples | src/ila/ila_driver.cpp:223-243 | sample k is memory word first + k modulo the depth, where first is one past the address when the prime scan had to run |
| IlaDriver.IlaDriver.ReadAll | src/gui/ila_panel.cpp:591-598 | address depth - 1 followed by a full batch returns the words at the indices SampleIndex gives |
| IlaDriver.InOrderIffSixteenBits | src/gui/ila_panel.cpp:591-598 | that is the memory in order, words 0 to depth - 1, if and only if the address width is at most 16 |
| IlaDriver.IlaDriver.ConfigureTrigger | src/ila/ila_driver.cpp:121-161 | refusals leave the hardware alone, and without a failed transfer they are the only failures; success sets mask, value, edge masks, second comparator and mode in the register of each, as far as the version has it, and the pre-trigger count |
| IlaDriver.IlaDriver.Program | src/ila/ila_driver.cpp:121-161 | one trigger register write |
| IlaDriver.IlaDriver.Ctrl | src/ila/ila_driver.cpp:175-197 | a control write pulses exactly the flags given; a prime scan before it pulses none |
| IlaDriver.IlaDriver.Arm | src/ila/ila_driver.cpp:175-179 | one control write with the ARM flag alone: the pulses it makes, trigger settings and memory kept |
| IlaDriver.IlaDriver.Stop | src/ila/ila_driver.cpp:181-185 | one control write with the STOP flag alone |
| IlaDriver.IlaDriver.ResetCapture | src/ila/ila_driver.cpp:187-191 | one control write with the RESET flag alone |
| IlaDriver.IlaDriver.ForceTrigger | src/ila/ila_driver.cpp:193-197 | one control write with the FORCE flag alone |
| IlaDriver.IlaDriver.ReadIdcode | src/ila/ila_driver.cpp:92-95 | the number read is the core's IDCODE |
| IlaDriver.IlaDriver.Probe | src/ila/ila_driver.cpp:44-90 | without a failed transfer the capabilities are the bit fields of CONFIG, each at its own place and width, and the IDCODE, unless the version is zero, which is refused and leaves them |
| Scanner.DecodeBoundaryScan | src/boundary_scan/scanner.cpp:5-34 | every pin with a cell gets the level of its last input cell, else of its first output cell; bits outside the buffer read low |
| Scanner.DecodeIsUnique | src/boundary_scan/scanner.cpp:5-34 | that decides the result |
| Scanner.DecodedInput | src/boundary_scan/scanner.cpp:13-20 | in a decode a named pin with an INPUT, BIDIR or CLOCK cell is high exactly when the bit at the last such cell's place is set |
| Scanner.DecodedOutput | src/boundary_scan/scanner.cpp:22-31 | one without shows its first OUTPUT2 or OUTPUT3 cell |
| Scanner.NotDecoded | src/boundary_scan/scanner.cpp:13-31 | control and internal cells, and cells without a pin, show nothing |
| Scanner.Scanner.MaxNeededBsrBits | src/boundary_scan/scanner.cpp:168-182 | the least number of bits that covers every cell of a filtered pin, or 0 for all |
| Scanner.PartialDecodes | src/boundary_scan/scanner.cpp:135-161 | decoding only those bits and filtering is decoding the whole register and filtering |
| Scanner.FilterRestricts | src/boundary_scan/scanner.cpp:148-158 | a filtered decode is the full decode restricted to the filter |
| Scanner.Scanner.Sample | src/boundary_scan/scanner.cpp:113-161 | over hardware that fits the description, a sample without a failed transfer is exactly the decode of the live inputs of the register SAMPLE selects, or SAMPLE/PRELOAD without it, for the filtered pins, for every filter, chain length and position; how every other scan ends, and what each end does to the kept error text |
| PinDriver.SetBit | src/boundary_scan/pin_driver.cpp:13-25 | sets or clears one bit, grows the buffer, leaves every other bit |
| PinDriver.OutputCellIs | src/bsdl/bsdl_model.h:187-195 | staging writes through the first OUTPUT2, OUTPUT3 or BIDIR cell of a pin |
| PinDriver.OutputCellMissing | src/bsdl/bsdl_model.h:187-195 | a pin can be driven exactly when it has such a cell |
| PinDriver.StagePinOutput | src/boundary_scan/pin_driver.cpp:59-79 | writes the output bit, then the enabling value of its control bit, and nothing else |
| PinDriver.StagedBits | src/boundary_scan/pin_driver.cpp:59-79 | the output cell's bit takes the value and the bit of the cell its entry names takes the opposite of the disabling value, which wins where both share a place; no other bit moves |
| PinDriver.StagedReadsBackIff | src/boundary_scan/pin_driver.cpp:59-121 | a staged value reads back if and only if the output has a place, its control slot is not an empty one that disables at 0, and the control bit does not overwrite the output bit with the opposite value |
| PinDriver.StagePinHighZ | src/boundary_scan/pin_driver.cpp:81-105 | writes the control bit only; the pin then reads as released exactly when the disable value is a bit the control cell can hold |
| PinDriver.ApplyBsrSnapshot | src/boundary_scan/pin_driver.cpp:123-139 | the image is the raw bits cut or padded to the boundary length, with no bit beyond it |
| PinDriver.InitBsrFromSafeValues | src/boundary_scan/pin_driver.cpp:141-147 | each cell's bit is its safe value, all others are clear |
| PinDriver.BlockedIffLive | src/boundary_scan/pin_driver.cpp:37-57 | a device may be driven exactly when no pin name starts with PS_DDR_ or PS_MIO or is PS_SRST_B or PS_POR_B |
| PinDriver.PinDriver.CaptureCurrentState | src/boundary_scan/pin_driver.cpp:193-222 | without a failed transfer the staging image becomes the sampled pin state, and no register's inputs change |
| PinDriver.PinDriver.SetPin | src/boundary_scan/pin_driver.cpp:224-241 | refused unless the device may be driven and the pin has an output; otherwise the staged image changes as above, over the image there was, else the pins as sampled now, else the safe values |
| PinDriver.PinDriver.ApplyOutputs | src/boundary_scan/pin_driver.cpp:262-300 | without a failed transfer the boundary register under EXTEST holds exactly the staged image or, with nothing staged, the pins as sampled now |
| PlConfig.PaddedEnters | src/config/pl_config.cpp:222-237 | with one zero per bypassed device appended, the target's register sees one zero per device nearer TDI and then every body bit, in order and without a gap |
| PlConfig.UnpaddedLosesBits | src/config/pl_config.cpp:223-227 | without the padding the last body bits never arrive, one per device nearer TDI |
| PlConfig.BitReverseByte | src/config/pl_config.cpp:13-18 | bit j of the result is bit 7 - j of the argument |
| PlConfig.LoadBitstream | src/config/pl_config.cpp:43-76 | the body is the file from its first sync word, or all of it, every byte bit-reversed |
| PlConfig.ReversedIsMsbFirst | src/config/pl_config.cpp:68-75 | so the bits shifted LSB first are the file's bytes MSB first |
| PlConfig.BuildStatReadPacket | src/config/pl_config.cpp:97-123 | the status request is its nine words, given byte by byte, bit-reversed for the wire |
| PlConfig.PlConfig.ShiftIn | src/config/pl_config.cpp:228-240 | scans the body followed by one zero per bypassed device; fails exactly when a transfer fails or there is nothing to scan |
| PlConfig.PlConfig.Configure | src/config/pl_config.cpp:189-250 | without a failed transfer every non-empty file for an existing device goes through: instructions 0x0B, 0x05 with exactly the padded body, 0x0C and 0x3F, idling 16, 600000, 2, 16384 and 16 clocks, and the chain after the whole sequence |
| PlConfig.PlConfig.ReadStatus | src/config/pl_config.cpp:125-169 | without a failed transfer the status is the first 32 bits that instruction 0x04 captures after the nine request words, given byte by byte, went through 0x05 |
| Trigger.TriggerEngine.Evaluate | src/capture/trigger.cpp:56-86 | fires exactly when every condition holds on the pair of samples, for an armed trigger in NORMAL mode; single-shot and free-running modes as coded |
| Trigger.TriggerEngine.EvaluateEdge | src/capture/trigger.cpp:88-107 | an edge is met by the level pairs low-high for rising, high-low for falling and both for either, on a pin known in both samples, and by no other |
| Trigger.TriggerEngine.EvaluateCondition | src/capture/trigger.cpp:66-76 | a level condition is met by that level of a pin in the current sample; a pin not sampled is unknown |
| Trigger.TriggerEngine.SetPreTriggerRatio | src/capture/trigger.cpp:44-49 | a ratio below 0 becomes 0, one above 1 becomes 1, others are kept |
| Ring.StoreKeeps | src/capture/capture_engine.cpp:220-227 | storing at the write position keeps every item not yet overwritten at its index modulo the size |
| Ring.SlotsDiffer | src/capture/capture_engine.cpp:220-227 | items less than a ring apart never share a slot |
| Ring.CopyFrom | src/capture/capture_engine.cpp:97-104 | copying from a slot on, wrapping, is a tail of the history |
| CaptureSession.FirstFireIsFirst | src/hardware/capture_session.cpp:80-105 | the flagged sample satisfies the conditions and no earlier one does; the first sample never triggers |
| CaptureSession.PreTriggerFits | src/hardware/capture_session.cpp:91-95 | the pre-trigger share is below the depth if and only if the ratio is below 1 |
| CaptureSession.NormalCapture | src/hardware/capture_session.cpp:48-150 | with a ratio below 1 a completed NORMAL run took n samples from the trigger on, where depth - n is the ratio's share of the depth cut to a whole number, and of the frames returned exactly the one at min(k, depth - n) is flagged |
| CaptureSession.CompletedRun | src/hardware/capture_session.cpp:48-150 | and so it is for the session object whenever it has completed |
| CaptureSession.PlainRuns | src/hardware/capture_session.cpp:67-121 | a free run completes with exactly as many samples as the buffer holds, a single one with the first |
| CaptureSession.TriggerSurvivesIff | src/hardware/capture_session.cpp:91-101 | the trigger frame is still in the buffer at completion if and only if the ratio is below 1: at 1 the countdown wraps |
| CaptureSession.CaptureSession.Start | src/hardware/capture_session.cpp:18-35 | a new run, armed, with an empty history |
| CaptureSession.CaptureSession.Tick | src/hardware/capture_session.cpp:48-121 | a tick that is due samples exactly when the scanner holds no error text after the scan, and stops the session otherwise; on hardware that fits and answers that depends only on whether a text was left before, restarts included, and the sample is the decode of the live pins; a scan whose instruction failed to load goes in empty when the chain holds no text; the state machine stays where the samples taken put it |
| CaptureSession.CaptureSession.Take | src/hardware/capture_session.cpp:67-121 | a good scan moves the state machine to where the samples taken put it, and completes it with not one sample too many |
| CaptureSession.CaptureSession.AppendSample | src/hardware/capture_session.cpp:123-134 | the ring records the frame with its flag |
| CaptureSession.CaptureSession.GetSamples | src/hardware/capture_session.cpp:136-150 | the last depth frames of the history, oldest first |
| CaptureEngine.PollsAddUpIff | src/capture/capture_engine.cpp:121-155 | the polls of a session put together are the history if and only if no more than a ring full arrived between two of them; never more than the history |
| CaptureEngine.PollDelivers | src/capture/capture_engine.cpp:121-155 | one poll delivers the unseen tail, short by what the ring dropped, and moves the cursor to the total |
| CaptureEngine.CaptureEngine.GetNewSamples | src/capture/capture_engine.cpp:121-155 | over the ring that is what a poll returns, for every cursor, stale ones included |
| CaptureEngine.CaptureEngine.GetSamples | src/capture/capture_engine.cpp:87-107 | the last ring-full of the history |
| CaptureEngine.CaptureEngine.GetLatestSample | src/capture/capture_engine.cpp:157-162 | the newest frame |
| CaptureEngine.CaptureEngine.Start | src/capture/capture_engine.cpp:27-65 | refused unless stopped and ready; otherwise an empty session |
| CaptureEngine.CaptureEngine.CaptureStep | src/capture/capture_engine.cpp:178-237 | one frame more in the ring, flagged exactly when the waiting trigger fires; flagged frames stay more than the post-trigger share apart; a single shot stops |
| CaptureEngine.TracksStep | src/capture/capture_engine.cpp:191-218 | the state machine re-arms only after the post-trigger share has passed since the last flag |
| CaptureEngine.SessionFlags | src/capture/capture_engine.cpp:187-218 | in a NORMAL session the frames flagged are exactly those on which the conditions hold and behind which no flag lies within the post-trigger share, the rest of the ratio of the depth cut to a whole number |
| CaptureEngine.CaptureEngine.ClearSamples | src/capture/capture_engine.cpp:109-119 | only a stopped engine forgets its history |
| CaptureEngine.CaptureEngine.SetBufferDepth | src/capture/capture_engine.cpp:13-16 | only while stopped, and at least 100 |
| Executor.InvKept | src/hardware/hardware_executor.cpp:54-205 | every atomic section of every thread keeps the system invariant |
| Executor.FirstInFirstOut | src/hardware/hardware_executor.cpp:137-205 | over every interleaving, tasks start in the order their jobs were queued and none starts twice |
| Executor.OneAtATime | src/hardware/hardware_executor.cpp:175-204 | at most one job is running |
| Executor.TerminalForever | src/hardware/hardware_job.cpp:43-46 | once a job is terminal nothing a client can see of it changes |
| Executor.CancelledNeverRuns | src/hardware/hardware_executor.cpp:175-179 | a job whose cancel flag is up before the check that precedes its run never starts its task, in any continuation |
| Executor.CancelDooms | src/hardware/hardware_executor.cpp:100-107 | a cancel before that check raises the flag of that job |
| Executor.CancelInTime | src/hardware/hardware_executor.cpp:100-107 | so over every run with a cancel that comes before the check, the task never starts and the job, once terminal, is Cancelled without a result |
| Executor.FlagFollows | src/hardware/hardware_job.cpp:63-65 | a job's cancel flag is up exactly when a cancel of that very job is among the events so far, and never falls |
| Executor.OnlyCancelCancels | src/hardware/hardware_executor.cpp:175-204 | a job ends Cancelled only if it was cancelled |
| Executor.TaskDecides | src/hardware/hardware_executor.cpp:185-204 | what a task does decides what clients see of it for good: a throw Failed with its text, a return Complete with its value or Cancelled, and Cancelled if the job was cancelled before |
| Executor.CheckDecides | src/hardware/hardware_executor.cpp:191-196 | the check after a return makes it Cancelled exactly when the flag is up by then |
| Executor.UncancelledRuns | src/hardware/hardware_executor.cpp:175-190 | a job not cancelled by the check before its run starts, unless the hardware does not open |
| Executor.OpeningDecides | src/hardware/hardware_executor.cpp:181-184 | if opening fails the job is Failed with that text and never started |
| Executor.ReportsShow | src/hardware/hardware_job.cpp:48-51 | while a task runs, clients see the progress it reported last |
| Executor.SnapshotsAreHonest | src/hardware/hardware_job.cpp:67-70 | a snapshot in Complete carries the value the task returned and no error; failed ones carry an error and no result; queued and cancelled ones neither |
| Executor.HardwareIsOpen | src/hardware/hardware_executor.cpp:181-190 | the hardware is open from the start of a task body to its end |
| Executor.OpenFollows | src/hardware/hardware_executor.cpp:137-190 | the hardware is open exactly when the last opening or closing left it so |
| Executor.ShutdownDrains | src/hardware/hardware_executor.cpp:119-131 | when the join returns, the finished jobs are exactly those the worker took, and every job queued before the stop flag was set is among them |
| Executor.SubmitCanBeStranded | src/hardware/hardware_executor.cpp:79-98 | a submit that passed its check but queues after the worker has left is accepted and stays queued |
| Executor.NoJobsWhileDown | src/hardware/hardware_executor.cpp:79-98 | while the executor is down no job is accepted |
| Executor.WorkerMoves | src/hardware/hardware_executor.cpp:137-205 | whenever the worker has something to do, one of its sections is enabled and reduces the work left |
| Executor.WorkShrinks | src/hardware/hardware_executor.cpp:137-205 | starting the worker and queuing a task add work, a progress report and closing idle hardware leave it as it is, every other section of the worker takes some away, and nothing else adds to it |
| NorFlash.AlignedProgram | src/flash/spi_flash.cpp:72-97 | a page program that starts on a page boundary and fits the page clears bits of exactly its own bytes |
| NorFlash.NextPage | src/flash/flash_programmer.cpp:115-129 | programming the next page of an image over erased memory extends the image by it |
| NorFlash.SettledOnce | src/flash/flash_programmer.cpp:108-129 | erasing then programming a cell stores what the cell can hold of the value |
| Flash.AddressRoundTrip | src/flash/spi_flash.cpp:84-89 | the three address bytes address the byte they were made for |
| Flash.Mt25qFlash.ReadId | src/flash/spi_flash.cpp:11-23 | the three identity bytes of an idle flash, most significant first; a busy one does not answer |
| Flash.Mt25qFlash.WaitWipClear | src/flash/spi_flash.cpp:46-59 | unless a transfer fails or the wait times out, the operation in progress has ended and used up the write enable |
| Flash.Mt25qFlash.BulkErase | src/flash/spi_flash.cpp:61-70 | an idle flash is erased and at rest |
| Flash.Mt25qFlash.PageProgram | src/flash/spi_flash.cpp:72-97 | range errors are refused untouched; otherwise the memory is programmed, wrapping inside its page |
| Flash.Mt25qFlash.Read | src/flash/spi_flash.cpp:99-118 | returns the memory from the address on |
| Flash.FlashProgrammer.ProgramPages | src/flash/flash_programmer.cpp:115-129 | page-aligned writes that never cross a page tile the image, each with its own write enable |
| Flash.FlashProgrammer.Verify | src/flash/flash_programmer.cpp:131-155 | without a failed transfer true if and only if every byte read back is the image's; false with one |
| Flash.FlashProgrammer.Program | src/flash/flash_programmer.cpp:84-155 | success means the flash holds the image and is erased behind it; a run without a failed transfer or timeout succeeds if and only if the flash is idle, answers 0x20, 0xBA, 0x18, the image fits its 0x1000000 bytes, and no cell under the image has a bit stuck against it; a refusal changes nothing |
| FlashBridge.FlashJtagBridge.Transfer | src/flash/flash_jtag_bridge.cpp:23-96 | the bytes go MSB first to the target's place in the chain and the target's bits come back the same way; USER1 is loaded once and stays selected |
| FlashBridge.ExactRegisterExchange | src/flash/flash_jtag_bridge.cpp:46-94 | a USER1 register as wide as the transaction ends up with the bytes and returns what it captured |
| FlashBridge.BridgeHears | src/flash/flash_jtag_bridge.cpp:46-82 | a register that listens from the first clock hears one zero per other device before the bytes |
| FlashBridge.CommandArrivesIffAlone | src/flash/flash_jtag_bridge.cpp:46-82 | for such a listener a command arrives as sent if and only if the target is alone in the chain or all its bits are 0 |
| Mcs.ParseMcsRecord | src/flash/mcs_parser.cpp:16-79 | accepts exactly the lines whose hex bytes are all there and add up to 0 modulo 256, and returns their fields |
| Mcs.RecordRoundTrip | src/flash/mcs_parser.cpp:16-79 | a written record reads back, whatever follows on its line |
| Mcs.LineReads | src/flash/mcs_parser.cpp:16-79 | a line of bytes is a record exactly when they add up to 0 modulo 256: length, address high byte first, type, data |
| Mcs.FileRoundTrip | src/flash/mcs_parser.cpp:83-146 | every file written with linear base records, or with segment ones below 1 MiB, reads back as its data at its own addresses; start addresses, and lines behind the end of file, count for nothing |
| Mcs.TwoDigits | src/flash/mcs_parser.cpp:19-31 | a byte is two hex digits in either case, most significant first |
| Mcs.NotDigits | src/flash/mcs_parser.cpp:19-31 | any other character makes no byte |
| Mcs.MisreadIsRejected | src/flash/mcs_parser.cpp:59-79 | a record with one byte behind its length misread is rejected |
| Mcs.ParseMcsToImage | src/flash/mcs_parser.cpp:83-146 | the image is the overlay of the data records before the end of file: the last record to cover an address wins, gaps are 0xFF, the length is the highest record end; a malformed record before the end is an error |
| Mcs.CopyStaysInsideIff | src/flash/mcs_parser.cpp:125-136 | a record that passes the capacity check is copied inside the buffer if and only if its 32-bit end did not wrap |
| Mcs.StoreKeepsImage | src/flash/mcs_parser.cpp:133-136 | growing with 0xFF and overwriting extends the overlay by one record |
| Mcs.LastCoverDecides | src/flash/mcs_parser.cpp:133-136 | a byte of the image is the one the last record over its address has there |
| Mcs.UncoveredIsErased | src/flash/mcs_parser.cpp:133-136 | one no record covers is 0xFF |
| Mcs.EndIsReached | src/flash/mcs_parser.cpp:125-136 | the image ends where its farthest record does |
| Mcs.AddressesAddUpIff | src/flash/mcs_parser.cpp:127 | for a file the sum reading accepts, the or reading means the same if and only if no record shares an address bit with its base |
| Mcs.LinearFilesAddUp | src/flash/mcs_parser.cpp:111-117 | files without segment records always satisfy that condition |
| Mcs.OrIsSumIff | src/flash/mcs_parser.cpp:127 | a bitwise or is the sum if and only if the operands share no bit |
| Mcs.OverlapLosesAddress | src/flash/mcs_parser.cpp:118-127 | a file the parser accepts in which a record shares a bit with its segment base: its byte is placed at 16, where base plus address is 32 |
| BsdlLexer.Lexer.NextToken | src/bsdl/bsdl_lexer.cpp:137-188 | returns the head of the text's token list and leaves its tail |
| BsdlLexer.Lexer.PeekToken | src/bsdl/bsdl_lexer.cpp:190-196 | returns the head and consumes nothing |
| BsdlLexer.Lexer.SkipWhitespace | src/bsdl/bsdl_lexer.cpp:39-57 | stops at the first character outside blanks and comments |
| BsdlLexer.Lexer.ReadStringLiteral | src/bsdl/bsdl_lexer.cpp:84-118 | a literal up to its closing quote, doubled quotes read as one |
| BsdlLexer.Lexer.ReadIdentifier | src/bsdl/bsdl_lexer.cpp:59-82 | the longest word, in upper case |
| BsdlSpelling.WrittenTokensRead | src/bsdl/bsdl_lexer.cpp:39-188 | every spelling of a token list, with words in any case, quotes doubled in strings and any blanks and comments in between, lexes back to the list |
| BsdlParser.BsdlParser.Parse | src/bsdl/bsdl_parser.cpp:40-69 | the result is what the text's declarations, one after another, make of an empty device; so the description has one slot per boundary bit, at most 65536, each empty or holding the cell of its own position |
| BsdlRoundTrip.DescriptionReadsBack | src/bsdl/bsdl_parser.cpp:40-432 | every device description, written in BSDL with its strings cut into literals anywhere and any blanks and commas between their entries, parses, and to that device: name, lengths, IDCODE, each instruction's code, each cell field by field in its own slot, each port with its direction; of several entries for one thing the last counts |
| BsdlRoundTrip.UndeclaredIsEmpty | src/bsdl/bsdl_parser.cpp:40-69 | a text without declarations describes the empty device |
| BsdlRoundTrip.PortsReadIffGeneric | src/bsdl/bsdl_parser.cpp:71-78 | the ports of an entity are read if and only if a semicolon stands between its name and its port clause |
| BsdlParser.ParsesIff | src/bsdl/bsdl_parser.cpp:217-328 | a text parses if and only if every instruction length and every boundary cell number in its declarations fits an int |
| BsdlParser.CellsFitIff | src/bsdl/bsdl_parser.cpp:308-328 | a register string is taken if and only if the numbers at the head of its entries fit an int |
| BsdlParser.BsdlParser.ParseAttribute | src/bsdl/bsdl_parser.cpp:179-215 | an attribute declares what its name makes of its value, or nothing |
| BsdlParser.BsdlParser.ParseBoundaryRegister | src/bsdl/bsdl_parser.cpp:296-407 | stores exactly the entries of the register string, each in its own slot |
| BsdlParser.CellReadsBack | src/bsdl/bsdl_parser.cpp:335-392 | a full entry reads back as the cell it was written for, in any case and with any blanks in its fields |
| BsdlParser.ShortCellReadsBack | src/bsdl/bsdl_parser.cpp:335-392 | so does an entry of four fields |
| BsdlParser.PinReadsBackIff | src/bsdl/bsdl_parser.cpp:336-351 | an entry keeps the name of its pin if and only if it has no comma and no closing parenthesis, so not that of an indexed port |
| BsdlWriter.CellsRead | src/bsdl/bsdl_parser.cpp:308-404 | a written register string fills each entry's own slot with its cell |
| BsdlWriter.OpcodesRead | src/bsdl/bsdl_parser.cpp:231-278 | a written opcode string gives each name the value of its binary code |
| BsdlParser.BsdlParser.Store | src/bsdl/bsdl_parser.cpp:395-403 | a cell goes to its slot, and the register grows for it up to the limit |
| BsdlParser.StoredIs | src/bsdl/bsdl_parser.cpp:395-403 | a cell replaces what its slot held; past the stated length the register grows to end with it, over empty slots; past 65536 it is dropped |
| BsdlParser.StoredKeepsPlaces | src/bsdl/bsdl_parser.cpp:395-403 | which keeps every cell in its own place |
| BsdlParser.BsdlParser.ParseBoundaryLength | src/bsdl/bsdl_parser.cpp:283-294 | a length from 1 to 65536 resizes the slots, anything else is ignored |
| BsdlParser.WithLengthIs | src/bsdl/bsdl_parser.cpp:283-294 | a stated length keeps the cells below it and adds empty slots |
| BsdlParser.BsdlParser.ParseInstructionOpcode | src/bsdl/bsdl_parser.cpp:225-281 | the instruction table after all entries of the opcode string |
| BsdlParser.OpcodeOf | src/bsdl/bsdl_parser.cpp:266-277 | a binary code read most significant digit first |
| BsdlParser.BsdlParser.ParseInstructionLength | src/bsdl/bsdl_parser.cpp:217-223 | the length is the number given; fails exactly when that exceeds an int |
| BsdlParser.BsdlParser.ParseIdcodeRegister | src/bsdl/bsdl_parser.cpp:409-432 | a 32-digit code sets the IDCODE |
| BsdlParser.BsdlParser.ParsePorts | src/bsdl/bsdl_parser.cpp:80-177 | adds exactly the ports declared, each name with its index and direction, and leaves what follows the list |
| BsdlParser.WithPinsAt | src/bsdl/bsdl_parser.cpp:147-152 | a port declaration gives its direction to exactly the pins it names |
| BsdlParser.BsdlParser.ReadConcatenatedString | src/bsdl/bsdl_parser.cpp:503-528 | the text of the literals at the head of the token list |
| BsdlParser.BsdlParser.SkipToSemicolon | src/bsdl/bsdl_parser.cpp:530-538 | leaves what follows the next semicolon |
| BsdlParser.StoiOfDigits | src/bsdl/bsdl_parser.cpp:328 | a string of digits reads as its value unless it exceeds an int |
| BsdlParser.StoiOfSigned | src/bsdl/bsdl_parser.cpp:384-387 | so does one behind a sign |
| BsdlParser.NoDigitNoNumber | src/bsdl/bsdl_parser.cpp:384-387 | a text that does not start with a digit, a sign aside, is no number |
| Waveform.WaveformView.SetData | src/gui/waveform_view.cpp:32-132 | every lane is the picture of the same frames: all of them, or the last two windows' worth while scrolling |
| Waveform.LaneShows | src/gui/waveform_view.cpp:79-132 | a lane's times are whole microseconds from the origin, cut toward zero; a signal is 1 when its pin is high, and bit n-1-j of a bus of n signals says whether signal j is |
| Waveform.WaveformView.AppendData | src/gui/waveform_view.cpp:149-223 | refused when the selection changed by name or there are no lanes; otherwise the frames shown are those before, less the evicted ones, plus the new ones, and the lanes are right for the given definitions if and only if every kept frame gives each bus the value it had under the definition of its time |
| Waveform.AppendExactIff | src/gui/waveform_view.cpp:155-211 | that condition, for any lanes drawn with the definitions of their time |
| Waveform.RedefinedBusIsWrong | src/gui/waveform_view.cpp:158-160 | a bus widened under its own name passes the name check and keeps a wrong value |
| Waveform.StaysInStepIff | src/gui/app_window.cpp:1605-1637 | over any run of appends a view built from the buffer shows exactly the buffer if and only if no batch exceeds the depth |
| Waveform.ClippedSlides | src/gui/waveform_view.cpp:54-63 | a view clipped to its window stays a tail of the buffer and is whole only if it was before or the batch fills the depth |
| Waveform.OriginsDifferByConstantIff | src/gui/waveform_view.cpp:189-193 | the times of frames after both origins differ from a rebuild's by a constant if and only if the origin moved by whole microseconds |
| Waveform.KeptIsSuffix | src/gui/waveform_view.cpp:79-94 | in time order the frames a rebuild keeps are the latest |
| Waveform.KeptExactly | src/gui/waveform_view.cpp:79-94 | in time order a frame is kept if and only if it is no earlier than the clip |
| Waveform.ComputeBusValue | src/gui/bus_definition.cpp:5-15 | a bus value reads its signals most significant first |
| Waveform.FitsWordIff | src/gui/bus_definition.cpp:7-12 | every value of a bus fits its 64-bit word if and only if the bus has at most 64 signals |

## Left out

- Executor.InvKept: the executor and its jobs are a state machine over values, not classes with threads: a method cannot express other threads running between its sections. Job ids are assumed unique, handles are assumed to stay alive, and tasks are assumed to report progress, return or throw, not to set their own job state.
- Cable.FtdiDevice.Transfer: the USB drivers below the transfer, and opening, purging and synchronising the device before its set-up, are not modelled; data already waiting in the receive queue is, as a hypothesis that it is empty.
- Chain.JtagChain.DetectDevices: streams longer than 256 bits are outside the equivalence; IR lengths are the code's guess (4 for ARM, 6 otherwise).
- Session.EveryReadSeesItsRegister: signal-definition words and the status register are constants of the core during a run; clock-domain crossing and the capture state machine of the RTL are not modelled.
- IlaDriver.IlaDriver.Probe: promises nothing about the capabilities when a transfer fails, since the code ignores the failure of its first and last read.
- IlaDriver.IlaDriver.ConfigureTrigger: the driver's sig-def reading and status reading are left out as further register reads.
- Scanner.Scanner.Sample: error texts are kept as whether there is one; readIdCode, verifyIdCode and the pin lists are left out as easy members.
- PlConfig.PlConfig.Configure: the verification polls and their heuristics, the decoding of the status word, file access and progress callbacks are left out; totals above the range of int are not modelled.
- CaptureSession.CaptureSession.Tick: the sample interval is a due flag and error texts are kept as whether there is one; timestamps are left out; the pre-trigger share is the floor of a real product, without float rounding. Configuration is fixed during a run.
- CaptureEngine.CaptureEngine.CaptureStep: callbacks and the effective rate are left out, and the locked sections are methods; one step is one loop iteration.
- Flash.FlashProgrammer.Program: the bridge bitstream load and the TAP reset before it, and image file access, are left out; timeouts are an unknown number of polls.
- FlashBridge.FlashJtagBridge.Transfer: the bridge bitstream inside the programmable logic is not part of this model, so the NOR flash is reached through an ideal transport in `Flash`.
- Mcs.ParseMcsToImage: takes the lines of the file; a record whose address arithmetic wraps 32 bits is an error of its own (`OutOfRange`), where the copy in the code leaves its buffer (`Mcs.CopyStaysInsideIff`); error texts are left out.
- BsdlParser.BsdlParser.Parse: token positions, the package pin map, disable results and cell types, and the cross-references from pins to cells are left out; the exception for a number too large is `None`; characters are ASCII; opcodes longer than 32 digits are read as numbers.
- BsdlRoundTrip.DescriptionReadsBack: descriptions have their clauses in the usual order, ports of type BIT or BIT_VECTOR, and cells on pins without an index; other texts are covered by `BsdlParser.BsdlParser.Parse`.
- Waveform.WaveformView.SetData: lane names and colours, trigger markers, time bounds and everything drawn are left out; times are integers of microseconds; bus values are numbers, not 64-bit words.
- PinDriver.PinDriver.SetPin: says nothing about the image when the baseline had to be captured and a transfer failed meanwhile.
- Dialogs, drawing, JSON-RPC, process control, configuration files, generators, VCD and CSV export: input and output or easy members.
