/** One instruction of the interpreter, for the opcodes that prologs, epilogs and the
    sample assembler use. */
module Interp {
  import opened Words
  import opened GuestMemory
  import opened CpuModel
  import opened Alu
  import opened Decoder

  /** How an instruction ended; Unmodelled stands for every opcode outside this model. */
  datatype Outcome = Continue | Failed(error: EmuError) | Unmodelled(opcode: byte)

  datatype Step = Step(cpu: CpuState, mem: Memory, outcome: Outcome)

  // ------------------------------------------------------------- registers

  /** Without a REX prefix, byte registers 4 to 7 are ah, ch, dh and bh. */
  predicate IsHigh8(index: byte, size: Size, hasRex: bool) {
    size == 1 && !hasRex && 4 <= index < 8
  }

  function ReadGpr(cpu: CpuState, index: byte, size: Size, hasRex: bool): u64 {
    if IsHigh8(index, size, hasRex) then cpu.gpr[index % 4] / 256 % 256
    else Cut(cpu.gpr[index % 16], size)
  }

  /** A byte or word write keeps the rest of the register; a dword write clears it. */
  function WriteGpr(cpu: CpuState, index: byte, size: Size, hasRex: bool, v: nat): CpuState {
    if IsHigh8(index, size, hasRex) then
      var was := cpu.gpr[index % 4];
      cpu.WithGpr(index % 4, was / 0x1_0000 * 0x1_0000 + v % 0x100 * 0x100 + was % 0x100)
    else if size == 1 then cpu.WithGpr(index, cpu.gpr[index % 16] / 0x100 * 0x100 + v % 0x100)
    else if size == 2 then cpu.WithGpr(index, cpu.gpr[index % 16] / 0x1_0000 * 0x1_0000 + v % 0x1_0000)
    else cpu.WithGpr(index, Cut(v, size))
  }

  function ReadRm(mem: Memory, cpu: CpuState, m: Modrm, next: int, bits: Bits, size: Size, hasRex: bool): Result<u64> {
    match m.rm
    case Reg(i) => Ok(ReadGpr(cpu, i, size, hasRex))
    case Mem(_, _, _) =>
      PowersOf256();
      ReadUint(mem, RmAddr(m.rm, next, bits), size)
  }

  function WriteRm(mem: Memory, cpu: CpuState, m: Modrm, next: int, bits: Bits, size: Size, hasRex: bool, v: nat): Step {
    match m.rm
    case Reg(i) => Step(WriteGpr(cpu, i, size, hasRex, v), mem, Continue)
    case Mem(_, _, _) =>
      match Write(mem, RmAddr(m.rm, next, bits), LeBytes(v, size))
      case Err(e) => Step(cpu, mem, Failed(e))
      case Ok(mem') => Step(cpu, mem', Continue)
  }

  // ----------------------------------------------------------------- stack

  function StackWidth(bits: Bits): int {
    if bits.B64? then 8 else 4
  }

  function PushStack(mem: Memory, cpu: CpuState, bits: Bits, v: nat): Step {
    var sp := AddrMask(bits, cpu.Rsp() - StackWidth(bits));
    match Write(mem, sp, LeBytes(v, StackWidth(bits)))
    case Err(e) => Step(cpu.WithRsp(sp), mem, Failed(e))
    case Ok(mem') => Step(cpu.WithRsp(sp), mem', Continue)
  }

  function PopStack(mem: Memory, cpu: CpuState, bits: Bits): (CpuState, Result<u64>) {
    var sp := AddrMask(bits, cpu.Rsp());
    PowersOf256();
    match ReadUint(mem, sp, StackWidth(bits))
    case Err(e) => (cpu, Err(e))
    case Ok(v) => (cpu.WithRsp(AddrMask(bits, sp + StackWidth(bits))), Ok(v))
  }

  // ---------------------------------------------------------- instructions

  function Jump(s: Step, bits: Bits, target: int): Step {
    s.(cpu := s.cpu.(rip := AddrMask(bits, target)))
  }

  /** The instruction finished: rip moves past it, unless it failed. */
  function Advance(s: Step, bits: Bits, next: int): Step {
    if s.outcome == Continue then Jump(s, bits, next) else s
  }

  function Fail(cpu: CpuState, mem: Memory, e: EmuError): Step {
    Step(cpu, mem, Failed(e))
  }

  /** An immediate of 16 or 32 bits, sign-extended to the operand size. */
  function ImmZ(mem: Memory, cur: int, size: Size): Result<(u64, int)> {
    PowersOf256();
    var n := if size == 2 then 2 else 4;
    match FetchUint(mem, cur, n)
    case Err(e) => Err(e)
    case Ok(v) => Ok((Cut(SignedOf(v, n), size), cur + n))
  }

  function Imm8(mem: Memory, cur: int): Result<(byte, int)> {
    match Read8(mem, cur)
    case Err(e) => Err(e)
    case Ok(v) => Ok((v, cur + 1))
  }

  /** The immediate of opcode 80, 81 or 83. */
  function Group1Imm(mem: Memory, cur: int, opcode: byte, size: Size): Result<(u64, int)> {
    if opcode == 0x81 then ImmZ(mem, cur, size)
    else
      match Imm8(mem, cur)
      case Err(e) => Err(e)
      case Ok((v, next)) => Ok((if opcode == 0x80 then v else Cut(SignExtend8(v), size), next))
  }

  function Group1(mem: Memory, cpu: CpuState, bits: Bits, p: Prefixes, opcode: byte, cur: int): Step {
    match ReadModrm(mem, cur, p, cpu, bits)
    case Err(e) => Fail(cpu, mem, e)
    case Ok(m) =>
      var size := if opcode == 0x80 then 1 else OpSize(bits, p);
      match Group1Imm(mem, m.next, opcode, size)
      case Err(e) => Fail(cpu, mem, e)
      case Ok((imm, next)) =>
        match ReadRm(mem, cpu, m, next, bits, size, p.hasRex)
        case Err(e) => Fail(cpu, mem, e)
        case Ok(a) =>
          var op := m.reg % 8;
          var (r, f) := DoAlu(cpu.flags, op, a, imm, size);
          var c := cpu.(flags := f);
          if op == 7 then Advance(Step(c, mem, Continue), bits, next)
          else Advance(WriteRm(mem, c, m, next, bits, size, p.hasRex, r), bits, next)
  }

  /** MOV r/m, reg */
  function MovStore(mem: Memory, cpu: CpuState, bits: Bits, p: Prefixes, size: Size, cur: int): Step {
    match ReadModrm(mem, cur, p, cpu, bits)
    case Err(e) => Fail(cpu, mem, e)
    case Ok(m) =>
      var v := ReadGpr(cpu, m.reg, size, p.hasRex);
      Advance(WriteRm(mem, cpu, m, m.next, bits, size, p.hasRex, v), bits, m.next)
  }

  /** MOV reg, r/m */
  function MovLoad(mem: Memory, cpu: CpuState, bits: Bits, p: Prefixes, size: Size, cur: int): Step {
    match ReadModrm(mem, cur, p, cpu, bits)
    case Err(e) => Fail(cpu, mem, e)
    case Ok(m) =>
      match ReadRm(mem, cpu, m, m.next, bits, size, p.hasRex)
      case Err(e) => Fail(cpu, mem, e)
      case Ok(v) => Advance(Step(WriteGpr(cpu, m.reg, size, p.hasRex, v), mem, Continue), bits, m.next)
  }

  function Lea(mem: Memory, cpu: CpuState, bits: Bits, p: Prefixes, cur: int): Step {
    match ReadModrm(mem, cur, p, cpu, bits)
    case Err(e) => Fail(cpu, mem, e)
    case Ok(m) =>
      var c := WriteGpr(cpu, m.reg, OpSize(bits, p), p.hasRex, RmAddr(m.rm, m.next, bits));
      Advance(Step(c, mem, Continue), bits, m.next)
  }

  /** MOV r/m, imm */
  function MovImm(mem: Memory, cpu: CpuState, bits: Bits, p: Prefixes, cur: int): Step {
    match ReadModrm(mem, cur, p, cpu, bits)
    case Err(e) => Fail(cpu, mem, e)
    case Ok(m) =>
      var size := OpSize(bits, p);
      match ImmZ(mem, m.next, size)
      case Err(e) => Fail(cpu, mem, e)
      case Ok((imm, next)) => Advance(WriteRm(mem, cpu, m, next, bits, size, p.hasRex, imm), bits, next)
  }

  function PopReg(mem: Memory, cpu: CpuState, bits: Bits, p: Prefixes, opcode: byte, cur: int): Step {
    var (c, popped) := PopStack(mem, cpu, bits);
    match popped
    case Err(e) => Fail(c, mem, e)
    case Ok(v) => Advance(Step(c.WithGpr(opcode % 8 + 8 * p.B(), AddrMask(bits, v)), mem, Continue), bits, cur)
  }

  function Ret(mem: Memory, cpu: CpuState, bits: Bits, opcode: byte, cur: int): Step {
    PowersOf256();
    var extra := if opcode == 0xC2 then FetchUint(mem, cur, 2) else Ok(0);
    match extra
    case Err(e) => Fail(cpu, mem, e)
    case Ok(n) =>
      var (c, popped) := PopStack(mem, cpu, bits);
      match popped
      case Err(e) => Fail(c, mem, e)
      case Ok(v) =>
        var d := if opcode == 0xC2 then c.WithRsp(AddrMask(bits, c.Rsp() + n)) else c;
        Step(d.(rip := v), mem, Continue)
  }

  /** A branch by rel8 (n = 1) or rel32 (n = 4), taken or not. */
  function Branch(mem: Memory, cpu: CpuState, bits: Bits, n: int, taken: bool, cur: int): Step
    requires n == 1 || n == 4
  {
    PowersOf256();
    match FetchUint(mem, cur, n)
    case Err(e) => Fail(cpu, mem, e)
    case Ok(v) =>
      var rel := if n == 1 then SignExtend8(v) else SignExtend32(v);
      Jump(Step(cpu, mem, Continue), bits, if taken then cur + n + rel else cur + n)
  }

  function Dispatch(mem: Memory, cpu: CpuState, bits: Bits, p: Prefixes, opcode: byte, cur: int): Step {
    if 0x50 <= opcode <= 0x57 then
      Advance(PushStack(mem, cpu, bits, cpu.gpr[opcode % 8 + 8 * p.B()]), bits, cur)
    else if 0x58 <= opcode <= 0x5F then PopReg(mem, cpu, bits, p, opcode, cur)
    else if 0x70 <= opcode <= 0x7F then Branch(mem, cpu, bits, 1, Cond(cpu.flags, opcode), cur)
    else match opcode
      case 0x80 => Group1(mem, cpu, bits, p, opcode, cur)
      case 0x81 => Group1(mem, cpu, bits, p, opcode, cur)
      case 0x83 => Group1(mem, cpu, bits, p, opcode, cur)
      case 0x88 => MovStore(mem, cpu, bits, p, 1, cur)
      case 0x89 => MovStore(mem, cpu, bits, p, OpSize(bits, p), cur)
      case 0x8A => MovLoad(mem, cpu, bits, p, 1, cur)
      case 0x8B => MovLoad(mem, cpu, bits, p, OpSize(bits, p), cur)
      case 0x8D => Lea(mem, cpu, bits, p, cur)
      case 0xC2 => Ret(mem, cpu, bits, opcode, cur)
      case 0xC3 => Ret(mem, cpu, bits, opcode, cur)
      case 0xC7 => MovImm(mem, cpu, bits, p, cur)
      case 0xE9 => Branch(mem, cpu, bits, 4, true, cur)
      case 0xEB => Branch(mem, cpu, bits, 1, true, cur)
      case 0x0F => TwoByte(mem, cpu, bits, cur)
      case _ => Step(cpu, mem, Unmodelled(opcode))
  }

  function TwoByte(mem: Memory, cpu: CpuState, bits: Bits, cur: int): Step {
    match Read8(mem, cur)
    case Err(e) => Fail(cpu, mem, e)
    case Ok(op2) =>
      if 0x80 <= op2 <= 0x8F then Branch(mem, cpu, bits, 4, Cond(cpu.flags, op2), cur + 1)
      else Step(cpu, mem, Unmodelled(op2))
  }

  /** `execute_one` */
  function Execute(mem: Memory, cpu: CpuState, bits: Bits): Step {
    match ReadPrefixes(mem, cpu.rip, bits, NO_PREFIX)
    case Err(e) => Fail(cpu, mem, e)
    case Ok((p, cur)) =>
      match Read8(mem, cur)
      case Err(e) => Fail(cpu, mem, e)
      case Ok(opcode) => Dispatch(mem, cpu, bits, p, opcode, cur + 1)
  }
}
