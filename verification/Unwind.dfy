/** The x64 stack unwinder: table lookup, unwinding by codes, and simulation of a
    partly executed epilog. */
module Unwind {
  import opened Words
  import opened GuestMemory
  import opened CpuModel

  datatype UnwindOp =
    | PushNonvolatile(reg: byte)
    | Alloc(size: u32)
    | SetFrameRegister
    | SaveNonvolatile(reg: byte, offset: u32)
    | SaveXmm128(reg: byte, offset: u32)
    | PushMachineFrame(withErrorCode: bool)
    | EpilogCode(raw: u16)

  datatype UnwindCode = UnwindCode(prologOffset: byte, op: UnwindOp)

  datatype UnwindInfo = UnwindInfo(
    hasExceptionHandler: bool,
    hasTerminationHandler: bool,
    frameRegister: Option<byte>,
    frameOffset: u16,
    codes: seq<UnwindCode>,
    handlerRva: Option<u32>,
    handlerDataRva: Option<u32>,
    chained: Option<UnwindEntry>)

  datatype UnwindEntry = UnwindEntry(beginRva: u32, endRva: u32, info: UnwindInfo)

  datatype FrameUnwind = FrameUnwind(
    establisherFrame: u64,
    handlerRva: Option<u32>,
    handlerDataRva: Option<u32>,
    isLeafOrEpilog: bool)

  type HandlerType = u32
  const EXCEPTION: HandlerType := 1
  const UNWIND: HandlerType := 2

  // ---------------------------------------------------------------- lookup

  /** `partition_point(|e| e.begin_rva <= rva)` */
  function PartitionPoint(table: seq<UnwindEntry>, rva: u32): (n: nat)
    ensures n <= |table|
    ensures forall i :: 0 <= i < n ==> table[i].beginRva <= rva
    ensures n < |table| ==> table[n].beginRva > rva
  {
    if table == [] || table[0].beginRva > rva then 0 else 1 + PartitionPoint(table[1..], rva)
  }

  function Lookup(table: seq<UnwindEntry>, rva: u32): Option<UnwindEntry> {
    var idx := PartitionPoint(table, rva);
    if idx == 0 then None
    else if rva < table[idx - 1].endRva then Some(table[idx - 1]) else None
  }

  // --------------------------------------------------- unwinding by codes

  /** The register file so far, whether a machine frame was popped, and the read
      that failed, if any: a failure leaves the registers as they were then. */
  datatype Progress = Progress(cpu: CpuState, machineFrame: bool, error: Option<EmuError>)

  function Fail(p: Progress, e: EmuError): Progress {
    p.(error := Some(e))
  }

  function ApplyOp(op: UnwindOp, frame: u64, mem: Memory, p: Progress): Progress {
    var cpu := p.cpu;
    match op
    case PushNonvolatile(reg) => (
      match Read64(mem, cpu.Rsp())
      case Err(e) => Fail(p, e)
      case Ok(v) =>
        var c := cpu.WithGpr(reg, v);
        p.(cpu := c.WithRsp(WrapAdd(c.Rsp(), 8))))
    case Alloc(size) => p.(cpu := cpu.WithRsp(WrapAdd(cpu.Rsp(), size)))
    case SetFrameRegister => p.(cpu := cpu.WithRsp(frame))
    case SaveNonvolatile(reg, offset) => (
      match Read64(mem, WrapAdd(frame, offset))
      case Err(e) => Fail(p, e)
      case Ok(v) => p.(cpu := cpu.WithGpr(reg, v)))
    case SaveXmm128(reg, offset) => (
      match Read128(mem, WrapAdd(frame, offset))
      case Err(e) => Fail(p, e)
      case Ok(v) => p.(cpu := cpu.WithXmm(reg, v)))
    case PushMachineFrame(withErrorCode) => (
      var base := WrapAdd(cpu.Rsp(), if withErrorCode then 8 else 0);
      match Read64(mem, base)
      case Err(e) => Fail(p, e)
      case Ok(rip) =>
        var c := cpu.(rip := rip);
        match Read64(mem, WrapAdd(base, 24))
        case Err(e) => Fail(p.(cpu := c), e)
        case Ok(rsp) => p.(cpu := c.WithRsp(rsp), machineFrame := true))
    case EpilogCode(_) => p
  }

  /** The codes whose instruction has run when execution stands `offset` bytes into
      the function; for a chained parent (None) all of them. */
  function Executed(codes: seq<UnwindCode>, offset: Option<nat>): seq<UnwindCode> {
    if codes == [] then []
    else if offset.Some? && codes[0].prologOffset > offset.value then Executed(codes[1..], offset)
    else [codes[0]] + Executed(codes[1..], offset)
  }

  function ApplyCodes(codes: seq<UnwindCode>, frame: u64, mem: Memory, p: Progress): Progress {
    if codes == [] || p.error.Some? then p
    else ApplyCodes(codes[1..], frame, mem, ApplyOp(codes[0].op, frame, mem, p))
  }

  function FrameOf(info: UnwindInfo, cpu: CpuState): u64 {
    match info.frameRegister
    case Some(fr) => WrapSub(cpu.gpr[fr % 16], info.frameOffset)
    case None => cpu.Rsp()
  }

  /** Undo one record's executed codes, then those of the records it is chained to. */
  function ApplyChain(info: UnwindInfo, offset: Option<nat>, mem: Memory, p: Progress): Progress
    decreases info
  {
    var q := ApplyCodes(Executed(info.codes, offset), FrameOf(info, p.cpu), mem, p);
    if q.error.Some? then q
    else match info.chained
      case None => q
      case Some(parent) => ApplyChain(parent.info, None, mem, q)
  }

  function PopReturnAddress(cpu: CpuState, mem: Memory): (CpuState, Option<EmuError>) {
    match Read64(mem, cpu.Rsp())
    case Err(e) => (cpu, Some(e))
    case Ok(v) => (cpu.(rip := v).WithRsp(WrapAdd(cpu.Rsp(), 8)), None)
  }

  // ------------------------------------------------------ epilog simulation

  datatype EpiOp =
    | AddRsp(value: u64)
    | LeaRsp(reg: byte, disp: int)
    | Pop(reg: byte)

  datatype Scan = NotEpilog | ScanError(error: EmuError) | Epilog(ops: seq<EpiOp>)

  /** The optional stack-restoring instruction at the start of an epilog. */
  datatype Head = HeadReject | HeadError(error: EmuError) | HeadOk(ops: seq<EpiOp>, pc: int)

  predicate ByteIs(mem: Memory, addr: int, b: byte) {
    Read8(mem, addr) == Ok(b)
  }

  function ScanHead(mem: Memory, pc: int, b0: byte): Head {
    if b0 != 0x48 && b0 != 0x49 then HeadOk([], pc)
    else if b0 == 0x48 && ByteIs(mem, pc + 1, 0x83) && ByteIs(mem, pc + 2, 0xC4) then
      match Read8(mem, pc + 3)
      case Err(e) => HeadError(e)
      case Ok(imm) => HeadOk([AddRsp(Wrap64(SignExtend8(imm)))], pc + 4)
    else if b0 == 0x48 && ByteIs(mem, pc + 1, 0x81) && ByteIs(mem, pc + 2, 0xC4) then
      match Read32(mem, pc + 3)
      case Err(e) => HeadError(e)
      case Ok(imm) => HeadOk([AddRsp(Wrap64(SignExtend32(imm)))], pc + 7)
    else if ByteIs(mem, pc + 1, 0x8D) then
      match Read8(mem, pc + 2)
      case Err(e) => HeadError(e)
      case Ok(modrm) =>
        var md, reg, rm := modrm / 64, modrm / 8 % 8, modrm % 8;
        if reg != 4 || rm == 4 || (md != 1 && md != 2) then HeadReject
        else
          var fp := if b0 == 0x49 then rm + 8 else rm;
          if md == 1 then
            match Read8(mem, pc + 3)
            case Err(e) => HeadError(e)
            case Ok(d) => HeadOk([LeaRsp(fp, SignExtend8(d))], pc + 4)
          else
            match Read32(mem, pc + 3)
            case Err(e) => HeadError(e)
            case Ok(d) => HeadOk([LeaRsp(fp, SignExtend32(d))], pc + 7)
    else HeadOk([], pc)
  }

  /** The pops and the terminator. Each pop moves pc past a mapped byte, so the scan
      ends at the latest where the mapped code does. */
  function ScanTail(mem: Memory, begin: int, end: int, pc: int, ops: seq<EpiOp>): Scan
    decreases Above(mem, pc)
  {
    match Read8(mem, pc)
    case Err(_) => NotEpilog
    case Ok(b) =>
      AboveShrinks(mem, pc);
      if 0x58 <= b <= 0x5F then
        ScanTail(mem, begin, end, pc + 1, ops + [Pop(b - 0x58)])
      else if b == 0x41 then
        match Read8(mem, pc + 1)
        case Err(_) => NotEpilog
        case Ok(p) =>
          if 0x58 <= p <= 0x5F then
            AboveShrinks(mem, pc + 1);
            ScanTail(mem, begin, end, pc + 2, ops + [Pop(p - 0x58 + 8)])
          else NotEpilog
      else if b == 0xC3 || b == 0xC2 then Epilog(ops)
      else if b == 0xF3 && ByteIs(mem, pc + 1, 0xC3) then Epilog(ops)
      else if b == 0xEB then
        match Read8(mem, pc + 1)
        case Err(e) => ScanError(e)
        case Ok(rel) => TailJump(begin, end, WrapAdd(pc + 2, SignExtend8(rel)), ops)
      else if b == 0xE9 then
        match Read32(mem, pc + 1)
        case Err(e) => ScanError(e)
        case Ok(rel) => TailJump(begin, end, WrapAdd(pc + 5, SignExtend32(rel)), ops)
      else if b == 0xFF && Read8(mem, pc + 1).Ok? && Read8(mem, pc + 1).value / 8 % 8 == 4 then
        Epilog(ops)
      else NotEpilog
  }

  /** A jump ends an epilog only if it leaves the function. */
  function TailJump(begin: int, end: int, target: u64, ops: seq<EpiOp>): Scan {
    if begin <= target < end then NotEpilog else Epilog(ops)
  }

  function ScanEpilog(entry: UnwindEntry, imageBase: u64, mem: Memory, rip: u64): Scan {
    match Read8(mem, rip)
    case Err(_) => NotEpilog
    case Ok(b0) =>
      match ScanHead(mem, rip, b0)
      case HeadReject => NotEpilog
      case HeadError(e) => ScanError(e)
      case HeadOk(ops, pc) =>
        ScanTail(mem, imageBase + entry.beginRva, imageBase + entry.endRva, pc, ops)
  }

  function ApplyEpiOp(op: EpiOp, mem: Memory, cpu: CpuState): (CpuState, Option<EmuError>) {
    match op
    case AddRsp(v) => (cpu.WithRsp(WrapAdd(cpu.Rsp(), v)), None)
    case LeaRsp(reg, disp) => (cpu.WithRsp(WrapAdd(cpu.gpr[reg % 16], disp)), None)
    case Pop(reg) => (
      match Read64(mem, cpu.Rsp())
      case Err(e) => (cpu, Some(e))
      case Ok(v) =>
        var c := cpu.WithGpr(reg, v);
        (c.WithRsp(WrapAdd(c.Rsp(), 8)), None))
  }

  /** Play the rest of an epilog forward, then return. */
  function ApplyEpilog(ops: seq<EpiOp>, mem: Memory, cpu: CpuState): (CpuState, Option<EmuError>) {
    if ops == [] then PopReturnAddress(cpu, mem)
    else
      var (c, err) := ApplyEpiOp(ops[0], mem, cpu);
      if err.Some? then (c, err) else ApplyEpilog(ops[1..], mem, c)
  }

  /** Ok(true): the epilog was simulated. Ok(false): not in an epilog. */
  function SimulateEpilog(entry: UnwindEntry, imageBase: u64, cpu: CpuState, mem: Memory): (CpuState, Result<bool>) {
    match ScanEpilog(entry, imageBase, mem, cpu.rip)
    case NotEpilog => (cpu, Ok(false))
    case ScanError(e) => (cpu, Err(e))
    case Epilog(ops) =>
      var (c, err) := ApplyEpilog(ops, mem, cpu);
      (c, if err.Some? then Err(err.value) else Ok(true))
  }

  // ----------------------------------------------------- the whole unwind

  function Leaf(cpu: CpuState): FrameUnwind {
    FrameUnwind(cpu.Rsp(), None, None, true)
  }

  function UnwindLeaf(cpu: CpuState, mem: Memory): (CpuState, Result<FrameUnwind>) {
    var (c, err) := PopReturnAddress(cpu, mem);
    (c, if err.Some? then Err(err.value) else Ok(Leaf(c)))
  }

  predicate OptsIn(info: UnwindInfo, handlerType: HandlerType) {
    if handlerType == EXCEPTION then info.hasExceptionHandler
    else handlerType == UNWIND && info.hasTerminationHandler
  }

  function UnwindCodes(entry: UnwindEntry, offset: nat, cpu: CpuState, mem: Memory, handlerType: HandlerType)
    : (CpuState, Result<FrameUnwind>)
  {
    var p := ApplyChain(entry.info, Some(offset), mem, Progress(cpu, false, None));
    if p.error.Some? then (p.cpu, Err(p.error.value))
    else
      var (c, err) := if p.machineFrame then (p.cpu, None) else PopReturnAddress(p.cpu, mem);
      if err.Some? then (c, Err(err.value))
      else
        var optsIn := OptsIn(entry.info, handlerType);
        (c, Ok(FrameUnwind(
          FrameOf(entry.info, cpu),
          if optsIn then entry.info.handlerRva else None,
          if optsIn then entry.info.handlerDataRva else None,
          false)))
  }

  function UnwindTyped(table: seq<UnwindEntry>, imageBase: u64, cpu: CpuState, mem: Memory, handlerType: HandlerType)
    : (CpuState, Result<FrameUnwind>)
  {
    if cpu.rip < imageBase || cpu.rip - imageBase >= TWO32 then UnwindLeaf(cpu, mem)
    else
      var rva: u32 := cpu.rip - imageBase;
      match Lookup(table, rva)
      case None => UnwindLeaf(cpu, mem)
      case Some(entry) =>
        var (c, simulated) := SimulateEpilog(entry, imageBase, cpu, mem);
        match simulated
        case Err(e) => (c, Err(e))
        case Ok(true) => (c, Ok(Leaf(c)))
        case Ok(false) => UnwindCodes(entry, rva - entry.beginRva, cpu, mem, handlerType)
  }
}
