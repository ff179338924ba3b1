/** The prolog instructions of PrologRun are instructions: the interpreter, run on their
    encodings, changes registers and memory as PrologRun says; and none of them looks like
    the start of an epilog to the unwinder. */
module PrologAgrees {
  import opened Words
  import opened GuestMemory
  import opened CpuModel
  import opened Alu
  import opened Decoder
  import opened Interp
  import opened Unwind
  import opened PrologRun
  import opened EpilogAgrees
  import opened Assembler
  import BitOps

  /** The encoding of a prolog instruction, where this model's interpreter has one. */
  function PrologBytes(op: UnwindOp, info: UnwindInfo): seq<byte>
    requires Encodable(op, info)
  {
    match op
    case PushNonvolatile(reg) =>
      if reg % 16 < 8 then [0x50 + reg % 16] else [0x41, 0x50 + reg % 16 - 8]
    case Alloc(size) => [0x48, 0x81, 0xEC] + LeBytes(size, 4)
    case SetFrameRegister => LeaRspBytes(info.frameRegister.value % 16, info.frameOffset)
    case SaveNonvolatile(reg, offset) => MovStoreBytes(offset, reg % 16)
  }

  predicate Encodable(op: UnwindOp, info: UnwindInfo) {
    match op
    case PushNonvolatile(_) => true
    case Alloc(size) => size < 0x8000_0000
    case SetFrameRegister => info.frameRegister.Some? && info.frameRegister.value % 16 != RSP
    case SaveNonvolatile(reg, offset) => offset < 0x8000_0000
    case _ => false
  }

  /** The step a prolog instruction should make. */
  ghost predicate IsPrologStep(s: Step, op: UnwindOp, info: UnwindInfo, cpu: CpuState, mem: Memory, length: int) {
    && s.outcome == Continue && s.cpu.rip == Wrap64(cpu.rip + length)
    && s.cpu.gpr == Exec1(op, info, cpu).gpr && s.cpu.xmm == cpu.xmm
    && var slots := Stores(op, info, cpu);
       if slots == [] then s.mem == mem else Write(mem, slots[0].addr, slots[0].bytes) == Ok(s.mem)
  }

  lemma PushStep(mem: Memory, cpu: CpuState, op: UnwindOp, info: UnwindInfo)
    requires op.PushNonvolatile? && Holds(mem, cpu.rip, PrologBytes(op, info))
    requires Write(mem, Stores(op, info, cpu)[0].addr, Stores(op, info, cpu)[0].bytes).Ok?
    ensures IsPrologStep(Execute(mem, cpu, B64), op, info, cpu, mem, |PrologBytes(op, info)|)
  {
    hide Execute, Dispatch, Holds, Write, LeBytes, PushStack;
    var bs, r := PrologBytes(op, info), op.reg % 16;
    HoldsByte(mem, cpu.rip, bs, 0);
    var p, cur := NO_PREFIX, cpu.rip + 1;
    if r < 8 {
      ExecutePlain(mem, cpu);
    } else {
      HoldsByte(mem, cpu.rip, bs, 1);
      ExecuteRex(mem, cpu);
      p, cur := RexPrefix(0x41), cpu.rip + 2;
    }
    DispatchPush(mem, cpu, p, 0x50 + r % 8, cur);
    assert p.B() == r / 8 && (0x50 + r % 8) % 8 + 8 * p.B() == r;
    PushStackIs(mem, cpu, cpu.gpr[r]);
  }

  lemma DispatchPush(mem: Memory, cpu: CpuState, p: Prefixes, opcode: byte, cur: int)
    requires 0x50 <= opcode <= 0x57
    ensures Dispatch(mem, cpu, B64, p, opcode, cur)
         == Advance(PushStack(mem, cpu, B64, cpu.gpr[opcode % 8 + 8 * p.B()]), B64, cur)
  {
    hide PushStack, Advance;
  }

  lemma PushStackIs(mem: Memory, cpu: CpuState, v: u64)
    ensures PushStack(mem, cpu, B64, v) ==
            match Write(mem, WrapSub(cpu.Rsp(), 8), LeBytes(v, 8))
            case Err(e) => Step(cpu.WithRsp(WrapSub(cpu.Rsp(), 8)), mem, Failed(e))
            case Ok(m) => Step(cpu.WithRsp(WrapSub(cpu.Rsp(), 8)), m, Continue)
  {
    hide Write, LeBytes;
  }

  lemma AllocStep(mem: Memory, cpu: CpuState, op: UnwindOp, info: UnwindInfo)
    requires op.Alloc? && Encodable(op, info) && Holds(mem, cpu.rip, PrologBytes(op, info))
    ensures IsPrologStep(Execute(mem, cpu, B64), op, info, cpu, mem, |PrologBytes(op, info)|)
  {
    hide Execute, Dispatch, Holds, Group1, DoAlu, ImmAt, ByteIs;
    AllocBytes(mem, cpu.rip, op.size);
    ExecuteRex(mem, cpu);
    DispatchHead(mem, cpu, RexPrefix(0x48), 0x81);
    RspGroup1(mem, cpu, 0x81, 5, op.size, cpu.rip + 2, cpu.rip + 7);
    SubWraps(cpu.flags, cpu.Rsp(), op.size);
  }

  lemma AllocBytes(mem: Memory, pc: int, size: u32)
    requires size < 0x8000_0000 && Holds(mem, pc, [0x48, 0x81, 0xEC] + LeBytes(size, 4))
    ensures pc in mem && mem[pc] == 0x48 && pc + 1 in mem && mem[pc + 1] == 0x81
    ensures ByteIs(mem, pc + 2, 0xC4 + 8 * 5) && ImmAt(mem, pc + 3, 0x81, size, pc + 7)
  {
    var bs := [0x48, 0x81, 0xEC] + LeBytes(size, 4);
    HoldsByte(mem, pc, bs, 0);
    HoldsByte(mem, pc, bs, 1);
    HoldsByte(mem, pc, bs, 2);
    HoldsPart(mem, pc, [0x48, 0x81, 0xEC], LeBytes(size, 4));
    LeRoundTrip32(size);
  }

  lemma SubWraps(f: Flags, a: u64, n: u32)
    ensures DoAlu(f, 5, a, Wrap64(n), 8).0 == WrapSub(a, n)
  {
    hide SetSzp, BitOps.Xor, BitOps.Bit;
    assert Cut(a, 8) == a && Cut(Wrap64(n), 8) == n;
  }

  lemma SetFrameStep(mem: Memory, cpu: CpuState, op: UnwindOp, info: UnwindInfo)
    requires op.SetFrameRegister? && Encodable(op, info) && Holds(mem, cpu.rip, PrologBytes(op, info))
    ensures IsPrologStep(Execute(mem, cpu, B64), op, info, cpu, mem, |PrologBytes(op, info)|)
  {
    hide Execute, Holds, LeaRspBytes, WrapAdd;
    assert Stores(op, info, cpu) == [];
    hide Stores, FrameOf;
    LeaRoundTrip(mem, cpu, info.frameRegister.value % 16, info.frameOffset);
  }

  lemma SaveStep(mem: Memory, cpu: CpuState, op: UnwindOp, info: UnwindInfo)
    requires op.SaveNonvolatile? && Encodable(op, info) && Holds(mem, cpu.rip, PrologBytes(op, info))
    requires FrameOf(info, cpu) == cpu.Rsp()
    requires Write(mem, Stores(op, info, cpu)[0].addr, Stores(op, info, cpu)[0].bytes).Ok?
    ensures IsPrologStep(Execute(mem, cpu, B64), op, info, cpu, mem, |PrologBytes(op, info)|)
  {
    hide Execute, Holds, MovStoreBytes, LeBytes, Write;
    MovStoreRoundTrip(mem, cpu, op.reg % 16, op.offset);
  }

  /** Running a prolog instruction is what PrologRun says it is. For a save, the frame must
      be where rsp is, as it is throughout a conforming prolog. */
  lemma PrologInstruction(mem: Memory, cpu: CpuState, op: UnwindOp, info: UnwindInfo)
    requires Encodable(op, info) && Holds(mem, cpu.rip, PrologBytes(op, info))
    requires op.SaveNonvolatile? ==> FrameOf(info, cpu) == cpu.Rsp()
    requires Stores(op, info, cpu) != [] ==>
               Write(mem, Stores(op, info, cpu)[0].addr, Stores(op, info, cpu)[0].bytes).Ok?
    ensures IsPrologStep(Execute(mem, cpu, B64), op, info, cpu, mem, |PrologBytes(op, info)|)
  {
    hide Execute, Holds, PrologBytes, IsPrologStep, Write;
    match op {
      case PushNonvolatile(_) => PushStep(mem, cpu, op, info);
      case Alloc(_) => AllocStep(mem, cpu, op, info);
      case SetFrameRegister => SetFrameStep(mem, cpu, op, info);
      case SaveNonvolatile(_, _) => SaveStep(mem, cpu, op, info);
    }
  }

  // ------------------------------------------ not to be taken for an epilog

  lemma TailRejects(mem: Memory, begin: int, end: int, pc: int, ops: seq<EpiOp>)
    requires pc in mem && (mem[pc] == 0x48 || mem[pc] == 0x4C || 0x50 <= mem[pc] <= 0x57)
    ensures ScanTail(mem, begin, end, pc, ops) == NotEpilog
  {
  }

  /** Where the next instruction is a prolog instruction, the unwinder never sees an epilog,
      so it unwinds by codes. */
  lemma PrologIsNoEpilog(mem: Memory, rip: u64, op: UnwindOp, info: UnwindInfo, entry: UnwindEntry, imageBase: u64)
    requires Encodable(op, info) && Holds(mem, rip, PrologBytes(op, info))
    ensures ScanEpilog(entry, imageBase, mem, rip) == NotEpilog
  {
    hide Holds, ScanTail, LeBytes;
    var bs := PrologBytes(op, info);
    var begin, end := imageBase + entry.beginRva, imageBase + entry.endRva;
    HoldsByte(mem, rip, bs, 0);
    if |bs| > 1 {
      HoldsByte(mem, rip, bs, 1);
    }
    if op.PushNonvolatile? && op.reg % 16 >= 8 {
      PushRejects(mem, begin, end, rip);
    } else if op.PushNonvolatile? {
      TailRejects(mem, begin, end, rip, []);
    } else {
      HoldsByte(mem, rip, bs, 2);
      TailRejects(mem, begin, end, rip, []);
    }
  }

  lemma PushRejects(mem: Memory, begin: int, end: int, pc: int)
    requires pc in mem && mem[pc] == 0x41 && pc + 1 in mem && 0x50 <= mem[pc + 1] <= 0x57
    ensures ScanTail(mem, begin, end, pc, []) == NotEpilog
  {
  }
}
