/** The unwinder as it runs: in place on a register file, in loops over codes,
    chained records and epilog bytes. Each method is tied to its function in Unwind. */
module Unwinder {
  import opened Words
  import opened GuestMemory
  import opened CpuModel
  import opened Unwind

  method PopReturn(ctx: Cpu, mem: Memory) returns (error: Option<EmuError>)
    modifies ctx
    ensures (ctx.State(), error) == PopReturnAddress(old(ctx.State()), mem)
  {
    match Read64(mem, ctx.gpr[RSP]) {
      case Err(e) => return Some(e);
      case Ok(v) =>
        ctx.rip := v;
        ctx.SetRsp(WrapAdd(ctx.gpr[RSP], 8));
        return None;
    }
  }

  /** One code, applied in place. */
  method ApplyCode(op: UnwindOp, frame: u64, ctx: Cpu, mem: Memory, machineFrame: bool)
    returns (machine: bool, error: Option<EmuError>)
    modifies ctx
    ensures Progress(ctx.State(), machine, error)
         == ApplyOp(op, frame, mem, Progress(old(ctx.State()), machineFrame, None))
  {
    hide Read64, Read128, WrapAdd;
    machine, error := machineFrame, None;
    match op {
      case PushNonvolatile(reg) =>
        match Read64(mem, ctx.gpr[RSP]) {
          case Err(e) => error := Some(e);
          case Ok(v) =>
            ctx.SetGpr(reg, v);
            ctx.SetRsp(WrapAdd(ctx.gpr[RSP], 8));
        }
      case Alloc(size) =>
        ctx.SetRsp(WrapAdd(ctx.gpr[RSP], size));
      case SetFrameRegister =>
        ctx.SetRsp(frame);
      case SaveNonvolatile(reg, offset) =>
        match Read64(mem, WrapAdd(frame, offset)) {
          case Err(e) => error := Some(e);
          case Ok(v) => ctx.SetGpr(reg, v);
        }
      case SaveXmm128(reg, offset) =>
        match Read128(mem, WrapAdd(frame, offset)) {
          case Err(e) => error := Some(e);
          case Ok(v) => ctx.xmm := ctx.xmm[reg % 16 := v];
        }
      case PushMachineFrame(withErrorCode) =>
        var base := WrapAdd(ctx.gpr[RSP], if withErrorCode then 8 else 0);
        match Read64(mem, base) {
          case Err(e) => error := Some(e);
          case Ok(rip) =>
            ctx.rip := rip;
            match Read64(mem, WrapAdd(base, 24)) {
              case Err(e) => error := Some(e);
              case Ok(rsp) =>
                ctx.SetRsp(rsp);
                machine := true;
            }
        }
      case EpilogCode(_) =>
    }
  }

  /** All codes of one record, in order, skipping those whose instruction has not run. */
  method ApplyRecord(info: UnwindInfo, offset: Option<nat>, frame: u64, ctx: Cpu, mem: Memory, machineFrame: bool)
    returns (machine: bool, error: Option<EmuError>)
    modifies ctx
    ensures Progress(ctx.State(), machine, error)
         == ApplyCodes(Executed(info.codes, offset), frame, mem, Progress(old(ctx.State()), machineFrame, None))
  {
    machine, error := machineFrame, None;
    ghost var goal := ApplyCodes(Executed(info.codes, offset), frame, mem, Progress(ctx.State(), machine, None));
    var i := 0;
    assert info.codes[0..] == info.codes;
    while i < |info.codes|
      invariant 0 <= i <= |info.codes|
      invariant error == None
      invariant goal == ApplyCodes(Executed(info.codes[i..], offset), frame, mem, Progress(ctx.State(), machine, None))
    {
      var code := info.codes[i];
      ghost var rest := Executed(info.codes[i + 1..], offset);
      assert info.codes[i..][1..] == info.codes[i + 1..];
      i := i + 1;
      if offset.Some? && code.prologOffset > offset.value {
        continue;
      }
      assert ([code] + rest)[1..] == rest;
      machine, error := ApplyCode(code.op, frame, ctx, mem, machine);
      if error.Some? {
        return;
      }
    }
  }

  method VirtualUnwindTyped(table: seq<UnwindEntry>, imageBase: u64, ctx: Cpu, mem: Memory, handlerType: HandlerType)
    returns (r: Result<FrameUnwind>)
    modifies ctx
    ensures (ctx.State(), r) == UnwindTyped(table, imageBase, old(ctx.State()), mem, handlerType)
  {
    hide SimulateEpilog, ApplyCodes, PopReturnAddress, UnwindLeaf;
    if ctx.rip < imageBase || ctx.rip - imageBase >= TWO32 {
      r := UnwindAsLeaf(ctx, mem);
      return;
    }
    var rva: u32 := ctx.rip - imageBase;
    var found := Lookup(table, rva);
    if found.None? {
      r := UnwindAsLeaf(ctx, mem);
      return;
    }
    var entry := found.value;
    var simulated := TrySimulateEpilog(entry, imageBase, ctx, mem);
    match simulated {
      case Err(e) => return Err(e);
      case Ok(done) =>
        if done {
          return Ok(FrameUnwind(ctx.gpr[RSP], None, None, true));
        }
    }
    var optsIn := OptsIn(entry.info, handlerType);
    var establisher := ctx.gpr[RSP];
    var machine := false;
    var cur := entry.info;
    var offset: Option<nat> := Some(rva - entry.beginRva);
    ghost var start := Progress(ctx.State(), false, None);
    ghost var goal := ApplyChain(entry.info, offset, mem, start);
    while true
      invariant goal == ApplyChain(cur, offset, mem, Progress(ctx.State(), machine, None))
      invariant offset.Some? ==> cur == entry.info && Progress(ctx.State(), machine, None) == start
      invariant offset.None? ==> establisher == FrameOf(entry.info, start.cpu)
      decreases cur
    {
      var frame := FrameOf(cur, ctx.State());
      if offset.Some? {
        establisher := frame;
      }
      var error;
      machine, error := ApplyRecord(cur, offset, frame, ctx, mem, machine);
      if error.Some? {
        return Err(error.value);
      }
      if cur.chained.None? {
        break;
      }
      cur := cur.chained.value.info;
      offset := None;
    }
    assert goal == Progress(ctx.State(), machine, None);
    if !machine {
      var error := PopReturn(ctx, mem);
      if error.Some? {
        return Err(error.value);
      }
    }
    return Ok(FrameUnwind(
      establisher,
      if optsIn then entry.info.handlerRva else None,
      if optsIn then entry.info.handlerDataRva else None,
      false));
  }

  method UnwindAsLeaf(ctx: Cpu, mem: Memory) returns (r: Result<FrameUnwind>)
    modifies ctx
    ensures (ctx.State(), r) == UnwindLeaf(old(ctx.State()), mem)
  {
    var error := PopReturn(ctx, mem);
    if error.Some? {
      return Err(error.value);
    }
    return Ok(Leaf(ctx.State()));
  }

  /** Decode the rest of an epilog from the code bytes and, only if it is one, run it. */
  method TrySimulateEpilog(entry: UnwindEntry, imageBase: u64, ctx: Cpu, mem: Memory) returns (r: Result<bool>)
    modifies ctx
    ensures (ctx.State(), r) == SimulateEpilog(entry, imageBase, old(ctx.State()), mem)
    ensures r == Ok(false) ==> ctx.State() == old(ctx.State())
  {
    var begin, end := imageBase + entry.beginRva, imageBase + entry.endRva;
    var ops: seq<EpiOp> := [];
    var pc: int := ctx.rip;
    var b0;
    match Read8(mem, pc) {
      case Err(_) => return Ok(false);
      case Ok(b) => b0 := b;
    }
    match ScanHead(mem, pc, b0) {
      case HeadReject => return Ok(false);
      case HeadError(e) => return Err(e);
      case HeadOk(first, next) => ops, pc := first, next;
    }
    ghost var goal := ScanEpilog(entry, imageBase, mem, ctx.rip);
    while true
      invariant ctx.State() == old(ctx.State())
      invariant goal == ScanTail(mem, begin, end, pc, ops)
      decreases Above(mem, pc)
    {
      var fetched := Read8(mem, pc);
      if fetched.Err? {
        return Ok(false);
      }
      var b := fetched.value;
      AboveShrinks(mem, pc);
      if 0x58 <= b <= 0x5F {
        ops := ops + [Pop(b - 0x58)];
        pc := pc + 1;
      } else if b == 0x41 {
        var p := Read8(mem, pc + 1);
        if p.Err? || !(0x58 <= p.value <= 0x5F) {
          return Ok(false);
        }
        ops := ops + [Pop(p.value - 0x58 + 8)];
        pc := pc + 2;
      } else if b == 0xEB || b == 0xE9 {
        var len := if b == 0xEB then 2 else 5;
        var rel;
        if b == 0xEB {
          match Read8(mem, pc + 1) {
            case Err(e) => return Err(e);
            case Ok(v) => rel := SignExtend8(v);
          }
        } else {
          match Read32(mem, pc + 1) {
            case Err(e) => return Err(e);
            case Ok(v) => rel := SignExtend32(v);
          }
        }
        if begin <= WrapAdd(pc + len, rel) < end {
          return Ok(false);
        }
        break;
      } else if b == 0xC3 || b == 0xC2 || (b == 0xF3 && ByteIs(mem, pc + 1, 0xC3))
             || (b == 0xFF && Read8(mem, pc + 1).Ok? && Read8(mem, pc + 1).value / 8 % 8 == 4) {
        break;
      } else {
        return Ok(false);
      }
    }
    assert goal == Epilog(ops);
    r := RunEpilog(ops, ctx, mem);
  }

  method RunEpilog(ops: seq<EpiOp>, ctx: Cpu, mem: Memory) returns (r: Result<bool>)
    modifies ctx
    ensures var (c, err) := ApplyEpilog(ops, mem, old(ctx.State()));
            ctx.State() == c && r == if err.Some? then Err(err.value) else Ok(true)
  {
    ghost var goal := ApplyEpilog(ops, mem, ctx.State());
    assert ops[0..] == ops;
    for i := 0 to |ops|
      invariant goal == ApplyEpilog(ops[i..], mem, ctx.State())
    {
      assert ops[i..][1..] == ops[i + 1..];
      match ops[i] {
        case AddRsp(v) => ctx.SetRsp(WrapAdd(ctx.gpr[RSP], v));
        case LeaRsp(reg, disp) => ctx.SetRsp(WrapAdd(ctx.gpr[reg % 16], disp));
        case Pop(reg) =>
          match Read64(mem, ctx.gpr[RSP]) {
            case Err(e) => return Err(e);
            case Ok(v) =>
              ctx.SetGpr(reg, v);
              ctx.SetRsp(WrapAdd(ctx.gpr[RSP], 8));
          }
      }
    }
    var error := PopReturn(ctx, mem);
    if error.Some? {
      return Err(error.value);
    }
    return Ok(true);
  }
}
