/** The unwinder has its own small decoder for epilogs. It agrees with the interpreter:
    simulating the rest of an epilog is running it. */
module EpilogAgrees {
  import opened Words
  import opened GuestMemory
  import opened CpuModel
  import opened Alu
  import opened Decoder
  import opened Interp
  import U = Unwind

  /** Run n instructions, stopping at the first that does not continue. */
  function Run(mem: Memory, cpu: CpuState, n: nat): Step
    decreases n
  {
    hide Execute;
    if n == 0 then Step(cpu, mem, Continue)
    else
      var s := Execute(mem, cpu, B64);
      if s.outcome == Continue then Run(s.mem, s.cpu, n - 1) else s
  }

  ghost predicate Addresses(mem: Memory) {
    forall a :: a in mem ==> 0 <= a < TWO64
  }

  // ---------------------------------------------- the shape of what is scanned

  /** The register of the pop instruction at pc and its length, if there is one. */
  function PopAt(mem: Memory, pc: int): Option<(byte, int)> {
    match Read8(mem, pc)
    case Err(_) => None
    case Ok(b) =>
      if 0x58 <= b <= 0x5F then Some((b - 0x58, 1))
      else if b == 0x41 then
        match Read8(mem, pc + 1)
        case Err(_) => None
        case Ok(p) => if 0x58 <= p <= 0x5F then Some((p - 0x58 + 8, 2)) else None
      else None
  }

  function Pops(mem: Memory, pc: int): seq<U.EpiOp>
    decreases Above(mem, pc)
  {
    match PopAt(mem, pc)
    case None => []
    case Some((reg, len)) => AboveShrinks(mem, pc); [U.Pop(reg)] + Pops(mem, pc + len)
  }

  /** Where the pops from pc end. */
  function PopsEnd(mem: Memory, pc: int): int
    decreases Above(mem, pc)
  {
    match PopAt(mem, pc)
    case None => pc
    case Some((_, len)) => AboveShrinks(mem, pc); PopsEnd(mem, pc + len)
  }

  /** The number of extra bytes the return at pc drops, if it is a return. */
  function ReturnAt(mem: Memory, pc: int): (r: Option<u16>) {
    PowersOf256();
    if U.ByteIs(mem, pc, 0xC3) || (U.ByteIs(mem, pc, 0xF3) && U.ByteIs(mem, pc + 1, 0xC3)) then Some(0)
    else if U.ByteIs(mem, pc, 0xC2) && Mapped(mem, pc + 1, 2) then Some(LeValue(Bytes(mem, pc + 1, 2)))
    else None
  }

  lemma {:induction false} ScanTailIsPops(mem: Memory, begin: int, end: int, pc: int, ops: seq<U.EpiOp>)
    ensures var r := U.ScanTail(mem, begin, end, pc, ops);
            r.Epilog? ==> r.ops == ops + Pops(mem, pc)
    ensures ReturnAt(mem, PopsEnd(mem, pc)).Some? ==> U.ScanTail(mem, begin, end, pc, ops).Epilog?
    decreases Above(mem, pc)
  {
    if PopAt(mem, pc).Some? {
      var (reg, len) := PopAt(mem, pc).value;
      AboveShrinks(mem, pc);
      if len == 2 {
        AboveShrinks(mem, pc + 1);
      }
      ScanTailIsPops(mem, begin, end, pc + len, ops + [U.Pop(reg)]);
      assert ops + [U.Pop(reg)] + Pops(mem, pc + len) == ops + ([U.Pop(reg)] + Pops(mem, pc + len));
    } else {
      assert Pops(mem, pc) == [];
    }
  }

  // ------------------------------------------------------ single instructions

  /** With no prefix, or a REX prefix alone, the opcode is dispatched at once. */
  lemma ExecutePlain(mem: Memory, cpu: CpuState)
    requires cpu.rip in mem
    requires var b := mem[cpu.rip]; b >= 0x68 || 0x50 <= b < 0x64
    requires mem[cpu.rip] !in {0xF0, 0xF2, 0xF3}
    ensures Execute(mem, cpu, B64) == Dispatch(mem, cpu, B64, NO_PREFIX, mem[cpu.rip], cpu.rip + 1)
  {
    hide Dispatch;
    assert ReadPrefixes(mem, cpu.rip, B64, NO_PREFIX) == Ok((NO_PREFIX, cpu.rip));
  }

  function RexPrefix(b: byte): Prefixes {
    NO_PREFIX.(rex := b, hasRex := true)
  }

  lemma ExecuteRex(mem: Memory, cpu: CpuState)
    requires cpu.rip in mem && 0x40 <= mem[cpu.rip] <= 0x4F && cpu.rip + 1 in mem
    ensures Execute(mem, cpu, B64)
         == Dispatch(mem, cpu, B64, RexPrefix(mem[cpu.rip]), mem[cpu.rip + 1], cpu.rip + 2)
  {
    hide Dispatch;
    assert ReadPrefixes(mem, cpu.rip, B64, NO_PREFIX) == Ok((RexPrefix(mem[cpu.rip]), cpu.rip + 1));
  }

  /** A pop in the unwinder and a pop in the interpreter differ only for `pop rsp`, where
      the unwinder adds 8 to the popped value. */
  lemma PopRegAgrees(mem: Memory, cpu: CpuState, p: Prefixes, opcode: byte, cur: int)
    requires 0x58 <= opcode <= 0x5F
    ensures var reg := opcode % 8 + 8 * p.B();
            var s, (c, err) := PopReg(mem, cpu, B64, p, opcode, cur), U.ApplyEpiOp(U.Pop(reg), mem, cpu);
            if err.Some? then s == Step(cpu, mem, Failed(err.value))
            else && s.outcome == Continue && s.mem == mem && s.cpu.rip == Wrap64(cur)
                 && (s.cpu.gpr == c.gpr <==> reg != RSP)
                 && (reg == RSP ==> c.Rsp() == WrapAdd(s.cpu.Rsp(), 8))
  {
    PowersOf256();
    var reg := opcode % 8 + 8 * p.B();
    assert AddrMask(B64, cpu.Rsp()) == cpu.Rsp();
    match Read64(mem, cpu.Rsp())
    case Err(_) =>
    case Ok(v) =>
      assert PopStack(mem, cpu, B64) == (cpu.WithRsp(WrapAdd(cpu.Rsp(), 8)), Ok(v));
      var s, c := PopReg(mem, cpu, B64, p, opcode, cur).cpu, U.ApplyEpiOp(U.Pop(reg), mem, cpu).0;
      if reg == RSP {
        assert s.gpr[RSP] == v && c.gpr[RSP] == WrapAdd(v, 8);
      } else {
        assert s.gpr == c.gpr;
      }
  }

  lemma PopAgrees(mem: Memory, cpu: CpuState, reg: byte, len: int)
    requires PopAt(mem, cpu.rip) == Some((reg, len))
    ensures var s, (c, err) := Execute(mem, cpu, B64), U.ApplyEpiOp(U.Pop(reg), mem, cpu);
            if err.Some? then s == Step(cpu, mem, Failed(err.value))
            else && s.outcome == Continue && s.mem == mem && s.cpu.rip == Wrap64(cpu.rip + len)
                 && (s.cpu.gpr == c.gpr <==> reg != RSP)
                 && (reg == RSP ==> c.Rsp() == WrapAdd(s.cpu.Rsp(), 8))
  {
    hide *;
    var p := if len == 1 then NO_PREFIX else RexPrefix(0x41);
    PopBytes(mem, cpu.rip, reg, len);
    ExecutePop(mem, cpu, reg, len, p);
    PopRegAgrees(mem, cpu, p, mem[cpu.rip + len - 1], cpu.rip + len);
  }

  lemma PopBytes(mem: Memory, pc: int, reg: byte, len: int)
    requires PopAt(mem, pc) == Some((reg, len))
    ensures PopAtIs(mem, pc, reg, len, if len == 1 then NO_PREFIX else RexPrefix(0x41))
  {
  }

  /** The bytes of a pop instruction at pc: [41] 58+r. */
  ghost predicate PopAtIs(mem: Memory, pc: int, reg: byte, len: int, p: Prefixes) {
    && (len == 1 || len == 2) && pc in mem && pc + len - 1 in mem
    && p == (if len == 1 then NO_PREFIX else RexPrefix(0x41))
    && (len == 2 ==> mem[pc] == 0x41)
    && 0x58 <= mem[pc + len - 1] <= 0x5F && reg == mem[pc + len - 1] % 8 + 8 * p.B()
  }

  lemma ExecutePop(mem: Memory, cpu: CpuState, reg: byte, len: int, p: Prefixes)
    requires PopAtIs(mem, cpu.rip, reg, len, p)
    ensures cpu.rip + len - 1 in mem && 0x58 <= mem[cpu.rip + len - 1] <= 0x5F
    ensures reg == mem[cpu.rip + len - 1] % 8 + 8 * p.B()
    ensures Execute(mem, cpu, B64) == PopReg(mem, cpu, B64, p, mem[cpu.rip + len - 1], cpu.rip + len)
  {
    hide Execute, Dispatch, PopReg;
    DispatchPop(mem, cpu, p, mem[cpu.rip + len - 1], cpu.rip + len);
    if len == 1 {
      ExecutePlain(mem, cpu);
    } else {
      ExecuteRex(mem, cpu);
    }
  }

  lemma DispatchPop(mem: Memory, cpu: CpuState, p: Prefixes, opcode: byte, cur: int)
    requires 0x58 <= opcode <= 0x5F
    ensures Dispatch(mem, cpu, B64, p, opcode, cur) == PopReg(mem, cpu, B64, p, opcode, cur)
  {
    hide PopReg;
  }

  // ------------------------------------------------------------ the head

  /** A ModRM byte that names rsp itself, with operation number op. */
  lemma ModrmRsp(mem: Memory, cpu: CpuState, cur: int, op: byte)
    requires op < 8 && U.ByteIs(mem, cur, 0xC4 + 8 * op)
    ensures ReadModrm(mem, cur, RexPrefix(0x48), cpu, B64) == Ok(Modrm(op, Reg(4), cur + 1))
  {
    var p := RexPrefix(0x48);
    assert p.R() == 0 && p.B() == 0;
    hide MemOperand;
  }

  /** imm is the sign-extended immediate at cur, which ends at next. */
  predicate ImmAt(mem: Memory, cur: int, opcode: byte, imm: int, next: int) {
    if opcode == 0x83 then
      Read8(mem, cur).Ok? && imm == SignExtend8(Read8(mem, cur).value) && next == cur + 1
    else
      Read32(mem, cur).Ok? && imm == SignExtend32(Read32(mem, cur).value) && next == cur + 4
  }

  lemma Group1ImmIs(mem: Memory, cur: int, opcode: byte, imm: int, next: int)
    requires opcode == 0x81 || opcode == 0x83
    requires ImmAt(mem, cur, opcode, imm, next)
    ensures Group1Imm(mem, cur, opcode, 8) == Ok((Wrap64(imm), next))
  {
    PowersOf256();
  }

  lemma AddWraps(f: Flags, a: u64, imm: int)
    ensures DoAlu(f, 0, a, Wrap64(imm), 8).0 == WrapAdd(a, imm)
  {
    hide SetSzp;
    assert Cut(a, 8) == a && Cut(Wrap64(imm), 8) == Wrap64(imm);
  }

  /** The interpreter went on as the unwinder's op did: same registers, rip at next. */
  ghost predicate Follows(s: Step, c: CpuState, mem: Memory, next: int) {
    s.outcome == Continue && s.mem == mem && s.cpu.rip == Wrap64(next) && s.cpu.gpr == c.gpr
  }

  /** rsp and flags replaced, rip at next. */
  function AfterGroup1(mem: Memory, cpu: CpuState, sum: (u64, Flags), next: int): Step {
    Step(cpu.(flags := sum.1, rip := Wrap64(next)).WithRsp(sum.0), mem, Continue)
  }

  /** op rsp, imm in the interpreter. */
  lemma RspGroup1(mem: Memory, cpu: CpuState, opcode: byte, op: byte, imm: int, cur: int, next: int)
    requires opcode == 0x81 || opcode == 0x83
    requires op < 7 && U.ByteIs(mem, cur, 0xC4 + 8 * op) && ImmAt(mem, cur + 1, opcode, imm, next)
    ensures Group1(mem, cpu, B64, RexPrefix(0x48), opcode, cur)
         == AfterGroup1(mem, cpu, DoAlu(cpu.flags, op, cpu.Rsp(), Wrap64(imm), 8), next)
  {
    hide ReadModrm, Group1Imm, DoAlu, ImmAt, U.ByteIs, ReadRm, WriteRm, Advance, WrapAdd, Wrap64;
    ModrmRsp(mem, cpu, cur, op);
    Group1ImmIs(mem, cur + 1, opcode, imm, next);
    RspOperand(mem, cpu, Modrm(op, Reg(4), cur + 1), next, DoAlu(cpu.flags, op, cpu.Rsp(), Wrap64(imm), 8));
    assert RexPrefix(0x48).W();
  }

  lemma RspOperand(mem: Memory, cpu: CpuState, m: Modrm, next: int, sum: (u64, Flags))
    requires m.rm == Reg(4)
    ensures ReadRm(mem, cpu, m, next, B64, 8, true) == Ok(cpu.Rsp())
    ensures Advance(WriteRm(mem, cpu.(flags := sum.1), m, next, B64, 8, true, sum.0), B64, next)
         == Step(cpu.(flags := sum.1, rip := Wrap64(next)).WithRsp(sum.0), mem, Continue)
  {
  }

  /** The bytes of lea rsp, [reg+disp] after its opcode. */
  lemma LeaBytes(mem: Memory, b0: byte, pc: int, reg: byte, disp: int, next: int)
    requires b0 == 0x48 || b0 == 0x49
    requires U.ByteIs(mem, pc + 1, 0x8D)
    requires U.ScanHead(mem, pc, b0) == U.HeadOk([U.LeaRsp(reg, disp)], next)
    ensures pc + 2 in mem && (mem[pc + 2] / 64 == 1 || mem[pc + 2] / 64 == 2)
    ensures mem[pc + 2] / 8 % 8 == 4 && mem[pc + 2] % 8 != 4
    ensures reg == mem[pc + 2] % 8 + 8 * (b0 - 0x48)
    ensures ImmAt(mem, pc + 3, if mem[pc + 2] / 64 == 1 then 0x83 else 0x81, disp, next)
  {
  }

  lemma DispIs(mem: Memory, cur: int, md: byte, disp: int, next: int)
    requires md == 1 || md == 2
    requires ImmAt(mem, cur, if md == 1 then 0x83 else 0x81, disp, next)
    ensures ReadDisp(mem, cur, md) == Ok((disp, next))
  {
  }

  lemma LeaModrm(mem: Memory, cpu: CpuState, b0: byte, cur: int, reg: byte, disp: int, next: int)
    requires b0 == 0x48 || b0 == 0x49
    requires U.ByteIs(mem, cur - 1, 0x8D)
    requires U.ScanHead(mem, cur - 2, b0) == U.HeadOk([U.LeaRsp(reg, disp)], next)
    ensures ReadModrm(mem, cur, RexPrefix(b0), cpu, B64)
         == Ok(Modrm(RSP, Mem(cpu.gpr[reg % 16], disp, false), next))
  {
    hide U.ScanHead, ImmAt, ReadDisp;
    LeaBytes(mem, b0, cur - 2, reg, disp, next);
    DispIs(mem, cur + 1, mem[cur] / 64, disp, next);
    var p := RexPrefix(b0);
    assert p.R() == 0 && p.B() == b0 - 0x48;
  }

  lemma LeaRspAgrees(mem: Memory, cpu: CpuState, b0: byte, cur: int, reg: byte, disp: int, next: int)
    requires b0 == 0x48 || b0 == 0x49
    requires ReadModrm(mem, cur, RexPrefix(b0), cpu, B64)
          == Ok(Modrm(RSP, Mem(cpu.gpr[reg % 16], disp, false), next))
    ensures Lea(mem, cpu, B64, RexPrefix(b0), cur)
         == Step(cpu.WithRsp(WrapAdd(cpu.gpr[reg % 16], disp)).(rip := Wrap64(next)), mem, Continue)
  {
    hide ReadModrm;
    assert RexPrefix(b0).W();
  }

  /** The bytes at the head of an epilog. */
  lemma HeadBytes(mem: Memory, rip: u64, op: U.EpiOp, next: int)
    requires rip in mem && U.ScanHead(mem, rip, mem[rip]) == U.HeadOk([op], next)
    ensures rip + 1 in mem && (mem[rip] == 0x48 || mem[rip] == 0x49)
    ensures op.LeaRsp? ==> mem[rip + 1] == 0x8D
    ensures op.AddRsp? ==>
              && mem[rip] == 0x48 && (mem[rip + 1] == 0x81 || mem[rip + 1] == 0x83)
              && U.ByteIs(mem, rip + 2, 0xC4)
              && exists imm :: ImmAt(mem, rip + 3, mem[rip + 1], imm, next) && op.value == Wrap64(imm)
    ensures !op.Pop?
  {
    if op.AddRsp? {
      var imm := if mem[rip + 1] == 0x83 then SignExtend8(mem[rip + 3]) else SignExtend32(Read32(mem, rip + 3).value);
      assert ImmAt(mem, rip + 3, mem[rip + 1], imm, next);
    }
  }

  lemma AddRspAgrees(mem: Memory, cpu: CpuState, value: u64, next: int)
    requires cpu.rip in mem && U.ScanHead(mem, cpu.rip, mem[cpu.rip]) == U.HeadOk([U.AddRsp(value)], next)
    ensures Follows(Execute(mem, cpu, B64), cpu.WithRsp(WrapAdd(cpu.Rsp(), value)), mem, next)
  {
    hide *;
    HeadBytes(mem, cpu.rip, U.AddRsp(value), next);
    var opcode := mem[cpu.rip + 1];
    var imm :| ImmAt(mem, cpu.rip + 3, opcode, imm, next) && value == Wrap64(imm);
    WrapAddWrap(cpu.Rsp(), imm);
    ExecuteRex(mem, cpu);
    DispatchHead(mem, cpu, RexPrefix(0x48), opcode);
    AddOpcode(mem, cpu.rip + 2);
    RspGroup1(mem, cpu, opcode, 0, imm, cpu.rip + 2, next);
    AddWraps(cpu.flags, cpu.Rsp(), imm);
    FollowsAdd(mem, cpu, value, DoAlu(cpu.flags, 0, cpu.Rsp(), Wrap64(imm), 8), next);
  }

  lemma AddOpcode(mem: Memory, at: int)
    ensures U.ByteIs(mem, at, 0xC4) == U.ByteIs(mem, at, 0xC4 + 8 * 0)
  {
  }

  lemma FollowsAdd(mem: Memory, cpu: CpuState, value: u64, sum: (u64, Flags), next: int)
    requires sum.0 == WrapAdd(cpu.Rsp(), value)
    ensures Follows(AfterGroup1(mem, cpu, sum, next), cpu.WithRsp(WrapAdd(cpu.Rsp(), value)), mem, next)
  {
  }

  lemma LeaAgrees(mem: Memory, cpu: CpuState, reg: byte, disp: int, next: int)
    requires cpu.rip in mem && U.ScanHead(mem, cpu.rip, mem[cpu.rip]) == U.HeadOk([U.LeaRsp(reg, disp)], next)
    ensures Follows(Execute(mem, cpu, B64), cpu.WithRsp(WrapAdd(cpu.gpr[reg % 16], disp)), mem, next)
  {
    HeadBytes(mem, cpu.rip, U.LeaRsp(reg, disp), next);
    var b0 := mem[cpu.rip];
    assert U.ByteIs(mem, cpu.rip + 1, 0x8D);
    hide Execute, Dispatch, Lea, ReadModrm, U.ScanHead, U.ByteIs;
    ExecuteRex(mem, cpu);
    DispatchHead(mem, cpu, RexPrefix(b0), 0x8D);
    LeaModrm(mem, cpu, b0, cpu.rip + 2, reg, disp, next);
    LeaRspAgrees(mem, cpu, b0, cpu.rip + 2, reg, disp, next);
  }

  lemma DispatchHead(mem: Memory, cpu: CpuState, p: Prefixes, opcode: byte)
    requires opcode == 0x81 || opcode == 0x83 || opcode == 0x8D
    ensures Dispatch(mem, cpu, B64, p, opcode, cpu.rip + 2)
         == if opcode == 0x8D then Lea(mem, cpu, B64, p, cpu.rip + 2)
            else Group1(mem, cpu, B64, p, opcode, cpu.rip + 2)
  {
    hide Lea, Group1;
  }

  // ---------------------------------------------------------- the whole epilog

  /** The interpreter's run s and the unwinder's simulation agree: on the failing read, or
      on rip and all sixteen registers up to the bytes the return instruction drops. */
  ghost predicate Agree(s: Step, c: CpuState, err: Option<EmuError>, mem: Memory, drop: u16) {
    if err.Some? then s.outcome == Failed(err.value)
    else Follows(s, c.WithRsp(WrapAdd(c.Rsp(), drop)), mem, c.rip)
  }

  lemma DispatchRet(mem: Memory, cpu: CpuState, p: Prefixes, opcode: byte, cur: int)
    requires opcode == 0xC2 || opcode == 0xC3
    ensures Dispatch(mem, cpu, B64, p, opcode, cur) == Ret(mem, cpu, B64, opcode, cur)
  {
    hide Ret;
  }

  lemma RetAgrees(mem: Memory, cpu: CpuState, c: CpuState, opcode: byte, cur: int, drop: u16)
    requires opcode == 0xC2 || opcode == 0xC3
    requires if opcode == 0xC2 then FetchUint(mem, cur, 2) == Ok(drop) else drop == 0
    requires c.gpr == cpu.gpr
    ensures var (d, err) := U.PopReturnAddress(c, mem); Agree(Ret(mem, cpu, B64, opcode, cur), d, err, mem, drop)
  {
    PowersOf256();
    assert AddrMask(B64, cpu.Rsp()) == cpu.Rsp();
  }

  lemma ExecuteRet(mem: Memory, cpu: CpuState, drop: u16) returns (opcode: byte, cur: int)
    requires ReturnAt(mem, cpu.rip) == Some(drop)
    ensures opcode == 0xC2 || opcode == 0xC3
    ensures if opcode == 0xC2 then FetchUint(mem, cur, 2) == Ok(drop) else drop == 0
    ensures Execute(mem, cpu, B64) == Ret(mem, cpu, B64, opcode, cur)
  {
    hide Dispatch, Ret;
    opcode, cur := mem[cpu.rip], cpu.rip + 1;
    if opcode == 0xF3 {
      opcode, cur := 0xC3, cpu.rip + 2;
      var p := NO_PREFIX.(rep := 0xF3);
      assert ReadPrefixes(mem, cpu.rip + 1, B64, p) == Ok((p, cpu.rip + 1));
      DispatchRet(mem, cpu, p, opcode, cur);
    } else {
      ExecutePlain(mem, cpu);
      DispatchRet(mem, cpu, NO_PREFIX, opcode, cur);
    }
  }

  predicate NoPopRsp(ops: seq<U.EpiOp>) {
    U.Pop(RSP) !in ops
  }

  lemma RunOne(mem: Memory, cpu: CpuState)
    ensures Run(mem, cpu, 1) == Execute(mem, cpu, B64)
  {
    hide Execute;
    var s := Execute(mem, cpu, B64);
    if s.outcome == Continue {
      assert Run(s.mem, s.cpu, 0) == s;
    }
  }

  lemma NextIsMapped(mem: Memory, pc: int)
    requires ReturnAt(mem, PopsEnd(mem, pc)).Some?
    ensures pc in mem
  {
  }

  lemma ReturnAgrees(mem: Memory, cpu: CpuState, c: CpuState, drop: u16)
    requires c.gpr == cpu.gpr && ReturnAt(mem, cpu.rip) == Some(drop)
    ensures var (d, err) := U.ApplyEpilog([], mem, c); Agree(Run(mem, cpu, 1), d, err, mem, drop)
  {
    hide Execute, Ret, ReturnAt, Agree, Run;
    var opcode, cur := ExecuteRet(mem, cpu, drop);
    RetAgrees(mem, cpu, c, opcode, cur, drop);
    RunOne(mem, cpu);
  }

  lemma RunStep(mem: Memory, cpu: CpuState, n: nat)
    ensures var s := Execute(mem, cpu, B64);
            Run(mem, cpu, n + 1) == if s.outcome == Continue then Run(s.mem, s.cpu, n) else s
  {
    hide Execute;
  }

  lemma ApplyStep(ops: seq<U.EpiOp>, mem: Memory, c: CpuState)
    requires ops != []
    ensures var (c', err) := U.ApplyEpiOp(ops[0], mem, c);
            U.ApplyEpilog(ops, mem, c) == if err.Some? then (c', err) else U.ApplyEpilog(ops[1..], mem, c')
  {
    hide U.ApplyEpiOp;
  }

  /** The pops at pc: the first, and the rest after it. */
  lemma FirstPop(mem: Memory, pc: int, reg: byte, len: int)
    requires PopAt(mem, pc) == Some((reg, len)) && pc in mem
    requires Addresses(mem) && ReturnAt(mem, PopsEnd(mem, pc)).Some?
    ensures Pops(mem, pc) == [U.Pop(reg)] + Pops(mem, pc + len)
    ensures PopsEnd(mem, pc) == PopsEnd(mem, pc + len)
    ensures Wrap64(pc + len) == pc + len && Above(mem, pc + len) < Above(mem, pc)
  {
    AboveShrinks(mem, pc);
    NextIsMapped(mem, pc + len);
  }

  lemma {:induction false} PopsAgree(mem: Memory, cpu: CpuState, c: CpuState, drop: u16)
    requires Addresses(mem) && c.gpr == cpu.gpr
    requires ReturnAt(mem, PopsEnd(mem, cpu.rip)) == Some(drop)
    requires NoPopRsp(Pops(mem, cpu.rip))
    ensures var (d, err) := U.ApplyEpilog(Pops(mem, cpu.rip), mem, c);
            Agree(Run(mem, cpu, |Pops(mem, cpu.rip)| + 1), d, err, mem, drop)
    decreases Above(mem, cpu.rip)
  {
    hide *;
    NextIsMapped(mem, cpu.rip);
    var pop := PopAt(mem, cpu.rip);
    if pop.None? {
      NoPops(mem, cpu.rip);
      ReturnAgrees(mem, cpu, c, drop);
    } else {
      var (reg, len) := pop.value;
      FirstPop(mem, cpu.rip, reg, len);
      var ops, rest := Pops(mem, cpu.rip), Pops(mem, cpu.rip + len);
      assert ops[0] == U.Pop(reg) && ops[1..] == rest;
      NoPopRspRest(ops);
      PopAgrees(mem, cpu, reg, len);
      RunStep(mem, cpu, |ops|);
      ApplyStep(ops, mem, c);
      PopSameRegisters(mem, cpu, c, reg);
      var s := Execute(mem, cpu, B64);
      var (c', err) := U.ApplyEpiOp(U.Pop(reg), mem, c);
      if err.None? {
        PopsAgree(mem, s.cpu, c', drop);
      } else {
        AgreeFailed(s, c', err, mem, drop);
      }
    }
  }

  lemma NoPops(mem: Memory, pc: int)
    requires PopAt(mem, pc).None?
    ensures Pops(mem, pc) == [] && PopsEnd(mem, pc) == pc
  {
  }

  lemma NoPopRspRest(ops: seq<U.EpiOp>)
    requires ops != [] && NoPopRsp(ops)
    ensures NoPopRsp(ops[1..]) && ops[0] != U.Pop(RSP)
  {
  }

  lemma AgreeFailed(s: Step, c: CpuState, err: Option<EmuError>, mem: Memory, drop: u16)
    requires err.Some? && s.outcome == Failed(err.value)
    ensures Agree(s, c, err, mem, drop)
  {
  }

  /** What a simulated pop does depends on the general registers only. */
  lemma PopSameRegisters(mem: Memory, cpu: CpuState, c: CpuState, reg: byte)
    requires cpu.gpr == c.gpr
    ensures var (x, e), (y, f) := U.ApplyEpiOp(U.Pop(reg), mem, cpu), U.ApplyEpiOp(U.Pop(reg), mem, c);
            e == f && x.gpr == y.gpr
  {
  }

  /** Where the terminator of the epilog at rip stands. */
  function EpilogEnd(mem: Memory, rip: int): int {
    if rip !in mem then rip
    else match U.ScanHead(mem, rip, mem[rip])
      case HeadOk(_, pc) => PopsEnd(mem, pc)
      case _ => rip
  }

  /** Simulating an epilog is running it: from the same rip, the interpreter takes one step
      per scanned operation and one for the return, and ends with the same registers and
      rip, or fails on the same read. */
  lemma SimulationIsExecution(entry: U.UnwindEntry, imageBase: u64, mem: Memory, cpu: CpuState,
                              ops: seq<U.EpiOp>, drop: u16)
    requires Addresses(mem)
    requires U.ScanEpilog(entry, imageBase, mem, cpu.rip) == U.Epilog(ops) && NoPopRsp(ops)
    requires ReturnAt(mem, EpilogEnd(mem, cpu.rip)) == Some(drop)
    ensures var (c, err) := U.ApplyEpilog(ops, mem, cpu);
            Agree(Run(mem, cpu, |ops| + 1), c, err, mem, drop)
  {
    hide U.ScanTail, ReturnAt, Agree, Run, U.ApplyEpilog;
    var head := U.ScanHead(mem, cpu.rip, mem[cpu.rip]);
    hide U.ScanHead;
    ScanTailIsPops(mem, imageBase + entry.beginRva, imageBase + entry.endRva, head.pc, head.ops);
    HeadLength(mem, cpu.rip);
    if head.ops == [] {
      assert ops == Pops(mem, cpu.rip);
      PopsAgree(mem, cpu, cpu, drop);
    } else {
      var rest := Pops(mem, head.pc);
      assert ops == [head.ops[0]] + rest && ops[1..] == rest;
      NextIsMapped(mem, head.pc);
      NoPopRspRest(ops);
      assert Wrap64(head.pc) == head.pc;
      HeadThenPops(mem, cpu, ops, head.pc, drop);
    }
  }

  lemma HeadLength(mem: Memory, rip: u64)
    requires rip in mem && U.ScanHead(mem, rip, mem[rip]).HeadOk?
    ensures var head := U.ScanHead(mem, rip, mem[rip]);
            |head.ops| <= 1 && (head.ops == [] ==> head.pc == rip) && (head.ops != [] ==> !head.ops[0].Pop?)
  {
  }

  lemma HeadThenPops(mem: Memory, cpu: CpuState, ops: seq<U.EpiOp>, pc: int, drop: u16)
    requires Addresses(mem) && cpu.rip in mem && ops != []
    requires U.ScanHead(mem, cpu.rip, mem[cpu.rip]) == U.HeadOk([ops[0]], pc) && Wrap64(pc) == pc
    requires ops[1..] == Pops(mem, pc) && NoPopRsp(ops[1..]) && !ops[0].Pop?
    requires ReturnAt(mem, PopsEnd(mem, pc)) == Some(drop)
    ensures var (c, err) := U.ApplyEpilog(ops, mem, cpu);
            Agree(Run(mem, cpu, |ops| + 1), c, err, mem, drop)
  {
    hide *;
    HeadAgrees(mem, cpu, ops[0], pc);
    RunStep(mem, cpu, |ops|);
    ApplyStep(ops, mem, cpu);
    var s := Execute(mem, cpu, B64);
    PopsAgree(mem, s.cpu, U.ApplyEpiOp(ops[0], mem, cpu).0, drop);
  }

  lemma HeadAgrees(mem: Memory, cpu: CpuState, op: U.EpiOp, next: int)
    requires cpu.rip in mem && U.ScanHead(mem, cpu.rip, mem[cpu.rip]) == U.HeadOk([op], next) && !op.Pop?
    ensures var s, out := Execute(mem, cpu, B64), U.ApplyEpiOp(op, mem, cpu);
            out.1 == None && s.outcome == Continue && s.mem == mem && s.cpu.rip == Wrap64(next) && s.cpu.gpr == out.0.gpr
  {
    hide Execute, U.ScanHead;
    match op
    case AddRsp(value) => AddRspAgrees(mem, cpu, value, next);
    case LeaRsp(reg, disp) => LeaAgrees(mem, cpu, reg, disp, next);
  }

  /** `ret imm16` also drops imm16 bytes, which the unwinder ignores: the two agree on all
      registers exactly when it drops none. */
  lemma AgreesIffNothingDropped(s: Step, c: CpuState, mem: Memory, drop: u16)
    requires Agree(s, c, None, mem, drop)
    ensures s.cpu.gpr == c.gpr && s.cpu.rip == c.rip <==> drop == 0
  {
    assert s.cpu.gpr[RSP] == WrapAdd(c.Rsp(), drop);
    if drop == 0 {
      assert s.cpu.gpr == c.gpr;
    }
  }

  /** So an epilog ending in `ret imm16`, simulated without a failing read, leaves the
      registers that its execution leaves if and only if imm16 is zero. */
  lemma DropsExactly(entry: U.UnwindEntry, imageBase: u64, mem: Memory, cpu: CpuState, ops: seq<U.EpiOp>, drop: u16)
    requires Addresses(mem)
    requires U.ScanEpilog(entry, imageBase, mem, cpu.rip) == U.Epilog(ops) && NoPopRsp(ops)
    requires ReturnAt(mem, EpilogEnd(mem, cpu.rip)) == Some(drop)
    requires U.SimulateEpilog(entry, imageBase, cpu, mem).1 == Ok(true)
    ensures var s, c := Run(mem, cpu, |ops| + 1), U.SimulateEpilog(entry, imageBase, cpu, mem).0;
            s.outcome == Continue && (s.cpu.gpr == c.gpr && s.cpu.rip == c.rip <==> drop == 0)
  {
    hide U.ScanEpilog, ReturnAt, Run, U.ApplyEpilog, EpilogEnd;
    SimulationIsExecution(entry, imageBase, mem, cpu, ops, drop);
    AgreesIffNothingDropped(Run(mem, cpu, |ops| + 1), U.ApplyEpilog(ops, mem, cpu).0, mem, drop);
  }
}
