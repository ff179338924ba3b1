/** Epilogs whose end the unwinder simplifies: tail jumps, returns that drop bytes, and pops
    of rsp. */
module EpilogEnds {
  import opened Words
  import opened GuestMemory
  import opened CpuModel
  import opened Decoder
  import opened Interp
  import opened EpilogAgrees
  import opened EpilogBytes
  import EpilogInverse
  import EpilogScan
  import UnwindExample
  import U = Unwind

  // ---- Up to the terminator ----

  /** The run s did what playing the operations did, or failed on the same read. */
  ghost predicate RanTo(s: Step, played: (CpuState, Option<EmuError>), mem: Memory, next: int) {
    if played.1.Some? then s.outcome == Failed(played.1.value) else Follows(s, played.0, mem, next)
  }

  function Played(ops: seq<U.EpiOp>, mem: Memory, cpu: CpuState): (CpuState, Option<EmuError>) {
    EpilogInverse.AfterOps(ops, |ops|, mem, cpu)
  }

  lemma PlayedStep(ops: seq<U.EpiOp>, mem: Memory, c: CpuState)
    requires ops != []
    ensures var (d, err) := U.ApplyEpiOp(ops[0], mem, c);
            Played(ops, mem, c) == if err.Some? then (d, err) else Played(ops[1..], mem, d)
  {
    hide U.ApplyEpiOp;
  }

  /** The pops at pc: the first, and the rest after it. */
  lemma MorePops(mem: Memory, pc: int, reg: byte, len: int)
    requires PopAt(mem, pc) == Some((reg, len)) && Addresses(mem) && PopsEnd(mem, pc) in mem
    ensures Pops(mem, pc) == [U.Pop(reg)] + Pops(mem, pc + len) && PopsEnd(mem, pc) == PopsEnd(mem, pc + len)
    ensures Wrap64(pc + len) == pc + len && Above(mem, pc + len) < Above(mem, pc)
  {
    AboveShrinks(mem, pc);
    StartIsMapped(mem, pc + len);
  }

  lemma StartIsMapped(mem: Memory, pc: int)
    requires PopsEnd(mem, pc) in mem
    ensures pc in mem
  {
  }

  lemma NothingPlayed(mem: Memory, cpu: CpuState, c: CpuState)
    requires c.gpr == cpu.gpr
    ensures RanTo(Run(mem, cpu, 0), Played([], mem, c), mem, cpu.rip)
  {
  }

  /** Each pop is one step of the interpreter. */
  lemma {:induction false} PopsRun(mem: Memory, cpu: CpuState, c: CpuState)
    requires Addresses(mem) && c.gpr == cpu.gpr
    requires PopsEnd(mem, cpu.rip) in mem && NoPopRsp(Pops(mem, cpu.rip))
    ensures var ops := Pops(mem, cpu.rip);
            RanTo(Run(mem, cpu, |ops|), Played(ops, mem, c), mem, PopsEnd(mem, cpu.rip))
    decreases Above(mem, cpu.rip)
  {
    hide *;
    var pop := PopAt(mem, cpu.rip);
    if pop.None? {
      NoPops(mem, cpu.rip);
      NothingPlayed(mem, cpu, c);
    } else {
      var (reg, len) := pop.value;
      MorePops(mem, cpu.rip, reg, len);
      var ops := Pops(mem, cpu.rip);
      assert ops[0] == U.Pop(reg) && ops[1..] == Pops(mem, cpu.rip + len);
      NoPopRspRest(ops);
      PopAgrees(mem, cpu, reg, len);
      PopSameRegisters(mem, cpu, c, reg);
      RunStep(mem, cpu, |ops| - 1);
      PlayedStep(ops, mem, c);
      var s := Execute(mem, cpu, B64);
      var (d, err) := U.ApplyEpiOp(U.Pop(reg), mem, c);
      if err.None? {
        PopsRun(mem, s.cpu, d);
      } else {
        FailedThere(s, d, err.value, mem, PopsEnd(mem, cpu.rip));
      }
    }
  }

  lemma FailedThere(s: Step, d: CpuState, e: EmuError, mem: Memory, next: int)
    requires s.outcome == Failed(e)
    ensures RanTo(s, (d, Some(e)), mem, next)
  {
  }

  /** Whatever ends the epilog, known to the scanner or not, the interpreter takes one step for
      each operation that stands at rip and comes to the terminator with the registers that
      playing the operations gives. */
  lemma OperationsRun(mem: Memory, cpu: CpuState, ops: seq<U.EpiOp>)
    requires Addresses(mem) && OpsAt(mem, cpu.rip) == Some(ops) && NoPopRsp(ops)
    requires EpilogEnd(mem, cpu.rip) in mem
    ensures RanTo(Run(mem, cpu, |ops|), Played(ops, mem, cpu), mem, EpilogEnd(mem, cpu.rip))
  {
    hide *;
    var head := Parts(mem, cpu.rip, ops);
    if head.ops == [] {
      PopsRun(mem, cpu, cpu);
    } else {
      HeadThenRun(mem, cpu, ops, head.pc);
    }
  }

  /** What stands at rip: a head, pops, and a terminator that is mapped. */
  lemma Parts(mem: Memory, rip: u64, ops: seq<U.EpiOp>) returns (head: U.Head)
    requires OpsAt(mem, rip) == Some(ops) && EpilogEnd(mem, rip) in mem
    ensures rip in mem && head == U.ScanHead(mem, rip, mem[rip]) && head.HeadOk?
    ensures ops == head.ops + Pops(mem, head.pc) && EpilogEnd(mem, rip) == PopsEnd(mem, head.pc)
    ensures PopsEnd(mem, head.pc) in mem && head.pc in mem
    ensures head.ops == [] ==> head.pc == rip && ops == Pops(mem, rip)
    ensures head.ops != [] ==> |head.ops| == 1 && !head.ops[0].Pop?
  {
    hide Pops, PopsEnd;
    head := U.ScanHead(mem, rip, mem[rip]);
    HeadLength(mem, rip);
    hide U.ScanHead;
    StartIsMapped(mem, head.pc);
  }

  lemma HeadThenRun(mem: Memory, cpu: CpuState, ops: seq<U.EpiOp>, pc: int)
    requires Addresses(mem) && cpu.rip in mem && ops != [] && pc in mem
    requires U.ScanHead(mem, cpu.rip, mem[cpu.rip]) == U.HeadOk([ops[0]], pc) && !ops[0].Pop?
    requires ops[1..] == Pops(mem, pc) && NoPopRsp(ops) && PopsEnd(mem, pc) in mem
    ensures RanTo(Run(mem, cpu, |ops|), Played(ops, mem, cpu), mem, PopsEnd(mem, pc))
  {
    hide *;
    NoPopRspRest(ops);
    NoWrap(mem, pc);
    HeadAgrees(mem, cpu, ops[0], pc);
    RunStep(mem, cpu, |ops| - 1);
    PlayedStep(ops, mem, cpu);
    PopsRun(mem, Execute(mem, cpu, B64).cpu, U.ApplyEpiOp(ops[0], mem, cpu).0);
  }

  // ---- Tail jumps ----

  /** The target of the direct jump at pc, if there is one. */
  function JumpAt(mem: Memory, pc: int): Option<u64> {
    if U.ByteIs(mem, pc, 0xEB) && Read8(mem, pc + 1).Ok? then
      Some(WrapAdd(pc + 2, SignExtend8(Read8(mem, pc + 1).value)))
    else if U.ByteIs(mem, pc, 0xE9) && Read32(mem, pc + 1).Ok? then
      Some(WrapAdd(pc + 5, SignExtend32(Read32(mem, pc + 1).value)))
    else None
  }

  lemma JumpExecutes(mem: Memory, cpu: CpuState, target: u64)
    requires JumpAt(mem, cpu.rip) == Some(target)
    ensures Execute(mem, cpu, B64) == Step(cpu.(rip := target), mem, Continue)
  {
    hide Dispatch;
    ExecutePlain(mem, cpu);
    DispatchJump(mem, cpu, mem[cpu.rip], cpu.rip + 1);
    PowersOf256();
    hide Execute;
    OneByte(mem, cpu.rip + 1);
  }

  lemma DispatchJump(mem: Memory, cpu: CpuState, opcode: byte, cur: int)
    requires opcode == 0xEB || opcode == 0xE9
    ensures Dispatch(mem, cpu, B64, NO_PREFIX, opcode, cur) ==
      Branch(mem, cpu, B64, if opcode == 0xEB then 1 else 4, true, cur)
  {
    hide Branch;
  }

  lemma OneByte(mem: Memory, at: int)
    ensures Read8(mem, at).Ok? ==> FetchUint(mem, at, 1) == Ok(Read8(mem, at).value)
  {
  }

  lemma {:induction false} RunMore(mem: Memory, cpu: CpuState, n: nat)
    ensures var s := Run(mem, cpu, n);
            Run(mem, cpu, n + 1) == if s.outcome == Continue then Execute(s.mem, s.cpu, B64) else s
    decreases n
  {
    hide Execute;
    if n == 0 {
      RunOne(mem, cpu);
    } else {
      var s := Execute(mem, cpu, B64);
      RunStep(mem, cpu, n);
      RunStep(mem, cpu, n - 1);
      if s.outcome == Continue {
        RunMore(s.mem, s.cpu, n - 1);
      }
    }
  }

  /** An epilog that ends in a jump out of the function: the interpreter plays the operations
      and stands at the jump's target with registers d, and the simulation is one return from
      there, as if the function jumped to returned at once. Or both fail on the same read. */
  lemma TailJumpReturnsAtOnce(entry: U.UnwindEntry, imageBase: u64, mem: Memory, cpu: CpuState,
                              ops: seq<U.EpiOp>, target: u64)
    requires Addresses(mem)
    requires U.ScanEpilog(entry, imageBase, mem, cpu.rip) == U.Epilog(ops) && NoPopRsp(ops)
    requires JumpAt(mem, EpilogEnd(mem, cpu.rip)) == Some(target)
    ensures var (d, err) := Played(ops, mem, cpu);
            var s := Run(mem, cpu, |ops| + 1);
            if err.Some? then s.outcome == Failed(err.value) && U.ApplyEpilog(ops, mem, cpu).1 == err
            else s.outcome == Continue && s.mem == mem && s.cpu.rip == target && s.cpu.gpr == d.gpr &&
                 var (c, popped) := U.ApplyEpilog(ops, mem, cpu);
                 (popped == None <==> Read64(mem, s.cpu.Rsp()).Ok?) &&
                 (popped == None ==> Ok(c.rip) == Read64(mem, s.cpu.Rsp()) && c.gpr == s.cpu.WithRsp(WrapAdd(s.cpu.Rsp(), 8)).gpr)
  {
    hide U.ScanEpilog, Run, U.ApplyEpilog, EpilogEnd, Execute, Read64, WrapAdd, JumpAt, EpilogInverse.AfterOps, NoPopRsp, OpsAt, EndsEpilog,
      CutShort;
    ScansExactly(entry, imageBase, mem, cpu.rip);
    EndIsMapped(mem, EpilogEnd(mem, cpu.rip), target);
    OperationsRun(mem, cpu, ops);
    var s := Run(mem, cpu, |ops|);
    RunMore(mem, cpu, |ops|);
    EpilogScan.PlayedThenReturned(ops, mem, cpu);
    if s.outcome == Continue {
      NoWrap(mem, EpilogEnd(mem, cpu.rip));
      JumpExecutes(mem, s.cpu, target);
    }
  }

  lemma EndIsMapped(mem: Memory, pc: int, target: u64)
    requires JumpAt(mem, pc) == Some(target)
    ensures pc in mem
  {
  }

  lemma NoWrap(mem: Memory, a: int)
    requires Addresses(mem) && a in mem
    ensures Wrap64(a) == a
  {
  }

  // ---- Where simulation and execution part ----

  /** Zeros in a stack, and `pop rsp` at 0x2000 before `ret 8`. */
  function Code(): Memory {
    map a: int | 0x1000 <= a < 0x2004 && InUse(a) ::
      if a == 0x2000 then 0x5C else if a == 0x2001 then 0xC2 else if a == 0x2002 then 8 else 0
  }

  predicate InUse(a: int) {
    a < 0x1100 || a >= 0x2000
  }

  lemma ZeroWord(addr: int)
    requires 0x1000 <= addr <= 0x10F8
    ensures Read64(Code(), addr) == Ok(0)
  {
    UnwindExample.ZeroBytes(8);
    hide LeBytes;
    assert Mapped(Code(), addr, 8);
    assert Bytes(Code(), addr, 8) == LeBytes(0, 8);
    HoldsRead64(Code(), addr, 0);
  }

  /** At `pop rsp` with a zero on the stack the interpreter leaves rsp zero, the simulation
      leaves it 8. */
  lemma PopRspDiffers()
    ensures var cpu := UnwindExample.Registers(0x1000, 0, 0x2000);
            PopAt(Code(), 0x2000) == Some((RSP, 1)) && Execute(Code(), cpu, B64).outcome == Continue &&
            Execute(Code(), cpu, B64).cpu.Rsp() == 0 && U.ApplyEpiOp(U.Pop(RSP), Code(), cpu).0.Rsp() == 8
  {
    hide *;
    var cpu := UnwindExample.Registers(0x1000, 0, 0x2000);
    ZeroWord(0x1000);
    PopRspThere();
    PopAgrees(Code(), cpu, RSP, 1);
    SimulatedPop(cpu);
    RspBelow(Execute(Code(), cpu, B64).cpu.Rsp());
  }

  lemma PopRspThere()
    ensures PopAt(Code(), 0x2000) == Some((RSP, 1))
    ensures var cpu := UnwindExample.Registers(0x1000, 0, 0x2000); cpu.Rsp() == 0x1000 && cpu.rip == 0x2000
  {
    assert 0x2000 in Code();
  }

  lemma SimulatedPop(cpu: CpuState)
    requires cpu.Rsp() == 0x1000 && Read64(Code(), 0x1000) == Ok(0)
    ensures var (c, err) := U.ApplyEpiOp(U.Pop(RSP), Code(), cpu); err == None && c.Rsp() == 8
  {
    hide Code, Read64;
  }

  lemma RspBelow(rsp: u64)
    requires WrapAdd(rsp, 8) == 8
    ensures rsp == 0
  {
  }

  /** At `ret 8` the interpreter leaves rsp 8 above the simulation's. */
  lemma RetDropsDiffer(entry: U.UnwindEntry)
    ensures var cpu := UnwindExample.Registers(0x1000, 0, 0x2001);
            var s, (c, r) := Run(Code(), cpu, 1), U.SimulateEpilog(entry, 0, cpu, Code());
            s.outcome == Continue && r == Ok(true) && c.Rsp() == 0x1008 && s.cpu.Rsp() == 0x1010
  {
    hide *;
    var cpu := UnwindExample.Registers(0x1000, 0, 0x2001);
    ZeroWord(0x1000);
    CodeAddresses();
    RetThere(entry);
    SimulationIsExecution(entry, 0, Code(), cpu, [], 8);
    RetSimulated(entry, cpu);
    BothReturn(Run(Code(), cpu, 1), U.ApplyEpilog([], Code(), cpu).0);
  }

  lemma RetThere(entry: U.UnwindEntry)
    ensures ReturnAt(Code(), EpilogEnd(Code(), 0x2001)) == Some(8) && U.ScanEpilog(entry, 0, Code(), 0x2001) == U.Epilog([])
    ensures var cpu := UnwindExample.Registers(0x1000, 0, 0x2001); cpu.Rsp() == 0x1000 && cpu.rip == 0x2001
    ensures NoPopRsp([])
  {
    assert 0x2001 in Code() && 0x2002 in Code() && 0x2003 in Code();
    var drop := Bytes(Code(), 0x2002, 2);
    assert drop == [8, 0] && LeValue(drop[1..]) == 0 && LeValue(drop) == 8;
  }

  lemma RetSimulated(entry: U.UnwindEntry, cpu: CpuState)
    requires cpu.Rsp() == 0x1000 && cpu.rip == 0x2001 && Read64(Code(), 0x1000) == Ok(0)
    requires U.ScanEpilog(entry, 0, Code(), 0x2001) == U.Epilog([])
    ensures var (c, err) := U.ApplyEpilog([], Code(), cpu);
            err == None && c.Rsp() == 0x1008 && U.SimulateEpilog(entry, 0, cpu, Code()) == (c, Ok(true))
  {
    hide Code, Read64, U.ScanEpilog;
  }

  lemma BothReturn(s: Step, c: CpuState)
    requires Agree(s, c, None, Code(), 8) && c.Rsp() == 0x1008
    ensures s.outcome == Continue && s.cpu.Rsp() == 0x1010
  {
    hide Code;
    assert s.cpu.gpr[RSP] == WrapAdd(c.Rsp(), 8);
  }

  lemma CodeAddresses()
    ensures Addresses(Code())
  {
  }
}
