/** The interpreter as an object: it decodes through the prefetch buffer and updates
    registers and memory in place. Each method is tied to its function. */
module InterpreterClass {
  import opened Words
  import opened GuestMemory
  import opened CpuModel
  import opened Alu
  import opened Decoder
  import opened Fetch
  import opened Interp
  import opened StringOps

  class Interpreter {
    const bits: Bits
    var cpu: CpuState
    var mem: Memory

    constructor (bits: Bits, cpu: CpuState, mem: Memory)
      ensures this.bits == bits && this.cpu == cpu && this.mem == mem
    {
      this.bits, this.cpu, this.mem := bits, cpu, mem;
    }

    /** Take over what an instruction did. */
    method Commit(s: Step) returns (outcome: Outcome)
      modifies this
      ensures cpu == s.cpu && mem == s.mem && outcome == s.outcome
    {
      cpu, mem, outcome := s.cpu, s.mem, s.outcome;
    }

    /** One instruction, every byte of it fetched through the buffer. */
    method ExecuteOne() returns (outcome: Outcome)
      modifies this
      ensures Step(cpu, mem, outcome) == Execute(old(mem), old(cpu), bits)
    {
      hide Read8, ReadPrefixes, Dispatch;
      var ctx := new Ctx(mem, cpu.rip, bits);
      var error := ctx.ReadPrefixBytes(mem);
      if error.Some? {
        return Failed(error.value);
      }
      var op := ctx.U8(mem);
      if op.Err? {
        return Failed(op.error);
      }
      outcome := ExecuteOpcode(ctx, op.value);
    }

    method ExecuteOpcode(ctx: Ctx, opcode: byte) returns (outcome: Outcome)
      requires ctx.Valid(mem) && ctx.bits == bits
      modifies this, ctx
      ensures Step(cpu, mem, outcome) == Dispatch(old(mem), old(cpu), bits, old(ctx.pfx), opcode, old(ctx.cur))
    {
      hide PopReg, PushStack, Advance, Branch, Ret, Group1, MovStore, MovLoad, Lea, MovImm, Cond, Read8;
      var p := ctx.pfx;
      if 0x50 <= opcode <= 0x57 {
        outcome := Commit(Advance(PushStack(mem, cpu, bits, cpu.gpr[opcode % 8 + 8 * p.B()]), bits, ctx.cur));
      } else if 0x58 <= opcode <= 0x5F {
        outcome := Commit(PopReg(mem, cpu, bits, p, opcode, ctx.cur));
      } else if 0x70 <= opcode <= 0x7F {
        outcome := BranchBy(ctx, 1, Cond(cpu.flags, opcode));
      } else if opcode == 0xE9 || opcode == 0xEB {
        outcome := BranchBy(ctx, if opcode == 0xE9 then 4 else 1, true);
      } else if opcode == 0xC2 || opcode == 0xC3 {
        outcome := Return(ctx, opcode);
      } else if opcode == 0x80 || opcode == 0x81 || opcode == 0x83 {
        outcome := Arithmetic(ctx, opcode);
      } else if opcode == 0x88 || opcode == 0x89 || opcode == 0x8A || opcode == 0x8B {
        outcome := Move(ctx, opcode);
      } else if opcode == 0x8D || opcode == 0xC7 {
        outcome := LeaOrMovImm(ctx, opcode);
      } else if opcode == 0x0F {
        var op2 := ctx.U8(mem);
        if op2.Err? {
          outcome := Failed(op2.error);
        } else if 0x80 <= op2.value <= 0x8F {
          outcome := BranchBy(ctx, 4, Cond(cpu.flags, op2.value));
        } else {
          outcome := Unmodelled(op2.value);
        }
      } else {
        outcome := Unmodelled(opcode);
      }
    }

    method BranchBy(ctx: Ctx, n: int, taken: bool) returns (outcome: Outcome)
      requires ctx.Valid(mem) && ctx.bits == bits && (n == 1 || n == 4)
      modifies this, ctx`cur
      ensures Step(cpu, mem, outcome) == Branch(old(mem), old(cpu), bits, n, taken, old(ctx.cur))
    {
      PowersOf256();
      var v := ctx.Uint(mem, n);
      if v.Err? {
        return Failed(v.error);
      }
      var rel := if n == 1 then SignExtend8(v.value) else SignExtend32(v.value);
      cpu := cpu.(rip := AddrMask(bits, if taken then ctx.cur + rel else ctx.cur));
      return Continue;
    }

    method Return(ctx: Ctx, opcode: byte) returns (outcome: Outcome)
      requires ctx.Valid(mem) && ctx.bits == bits && (opcode == 0xC2 || opcode == 0xC3)
      modifies this, ctx`cur
      ensures Step(cpu, mem, outcome) == Ret(old(mem), old(cpu), bits, opcode, old(ctx.cur))
    {
      PowersOf256();
      var extra: nat := 0;
      if opcode == 0xC2 {
        var v := ctx.Uint(mem, 2);
        if v.Err? {
          return Failed(v.error);
        }
        extra := v.value;
      }
      var (c, popped) := PopStack(mem, cpu, bits);
      cpu := c;
      if popped.Err? {
        return Failed(popped.error);
      }
      if opcode == 0xC2 {
        cpu := cpu.WithRsp(AddrMask(bits, cpu.Rsp() + extra));
      }
      cpu := cpu.(rip := popped.value);
      return Continue;
    }

    method Immediate(ctx: Ctx, size: Size) returns (r: Result<u64>)
      requires ctx.Valid(mem)
      modifies ctx`cur
      ensures ctx.Valid(mem)
      ensures ImmZ(mem, old(ctx.cur), size) == if r.Ok? then Ok((r.value, ctx.cur)) else Err(r.error)
    {
      PowersOf256();
      var n := if size == 2 then 2 else 4;
      var v := ctx.Uint(mem, n);
      return if v.Ok? then Ok(Cut(SignedOf(v.value, n), size)) else Err(v.error);
    }

    method Arithmetic(ctx: Ctx, opcode: byte) returns (outcome: Outcome)
      requires ctx.Valid(mem) && ctx.bits == bits && (opcode == 0x80 || opcode == 0x81 || opcode == 0x83)
      modifies this, ctx
      ensures Step(cpu, mem, outcome) == Group1(old(mem), old(cpu), bits, old(ctx.pfx), opcode, old(ctx.cur))
    {
      hide ReadModrm, ImmZ, ReadRm, WriteRm, DoAlu, Advance, Read8;
      var p := ctx.pfx;
      var error := ctx.ReadModrmBytes(mem, cpu);
      if error.Some? {
        return Failed(error.value);
      }
      var m := ctx.modrm;
      var size := if opcode == 0x80 then 1 else OpSize(bits, p);
      var imm: Result<u64>;
      if opcode == 0x81 {
        imm := Immediate(ctx, size);
      } else {
        var v := ctx.U8(mem);
        imm := if v.Err? then Err(v.error)
               else Ok(if opcode == 0x80 then v.value else Cut(SignExtend8(v.value), size));
      }
      if imm.Err? {
        return Failed(imm.error);
      }
      var a := ReadRm(mem, cpu, m, ctx.cur, bits, size, p.hasRex);
      if a.Err? {
        return Failed(a.error);
      }
      var op := m.reg % 8;
      var (r, f) := DoAlu(cpu.flags, op, a.value, imm.value, size);
      cpu := cpu.(flags := f);
      if op == 7 {
        outcome := Commit(Advance(Step(cpu, mem, Continue), bits, ctx.cur));
      } else {
        outcome := Commit(Advance(WriteRm(mem, cpu, m, ctx.cur, bits, size, p.hasRex, r), bits, ctx.cur));
      }
    }

    method Move(ctx: Ctx, opcode: byte) returns (outcome: Outcome)
      requires ctx.Valid(mem) && ctx.bits == bits && 0x88 <= opcode <= 0x8B
      modifies this, ctx
      ensures var p := old(ctx.pfx);
              var size := if opcode % 2 == 0 then 1 else OpSize(bits, p);
              Step(cpu, mem, outcome) ==
              if opcode <= 0x89 then MovStore(old(mem), old(cpu), bits, p, size, old(ctx.cur))
              else MovLoad(old(mem), old(cpu), bits, p, size, old(ctx.cur))
    {
      hide ReadModrm, ReadRm, WriteRm, ReadGpr, WriteGpr, Advance;
      var p := ctx.pfx;
      var size := if opcode % 2 == 0 then 1 else OpSize(bits, p);
      var error := ctx.ReadModrmBytes(mem, cpu);
      if error.Some? {
        return Failed(error.value);
      }
      var m := ctx.modrm;
      if opcode <= 0x89 {
        var v := ReadGpr(cpu, m.reg, size, p.hasRex);
        outcome := Commit(Advance(WriteRm(mem, cpu, m, ctx.cur, bits, size, p.hasRex, v), bits, ctx.cur));
      } else {
        var v := ReadRm(mem, cpu, m, ctx.cur, bits, size, p.hasRex);
        if v.Err? {
          return Failed(v.error);
        }
        outcome := Commit(Advance(Step(WriteGpr(cpu, m.reg, size, p.hasRex, v.value), mem, Continue), bits, ctx.cur));
      }
    }

    method LeaOrMovImm(ctx: Ctx, opcode: byte) returns (outcome: Outcome)
      requires ctx.Valid(mem) && ctx.bits == bits && (opcode == 0x8D || opcode == 0xC7)
      modifies this, ctx
      ensures Step(cpu, mem, outcome) ==
              if opcode == 0x8D then Lea(old(mem), old(cpu), bits, old(ctx.pfx), old(ctx.cur))
              else MovImm(old(mem), old(cpu), bits, old(ctx.pfx), old(ctx.cur))
    {
      hide ReadModrm, ImmZ, WriteRm, WriteGpr, Advance, RmAddr;
      var p := ctx.pfx;
      var size := OpSize(bits, p);
      var error := ctx.ReadModrmBytes(mem, cpu);
      if error.Some? {
        return Failed(error.value);
      }
      var m := ctx.modrm;
      if opcode == 0x8D {
        var c := WriteGpr(cpu, m.reg, size, p.hasRex, RmAddr(m.rm, ctx.cur, bits));
        outcome := Commit(Advance(Step(c, mem, Continue), bits, ctx.cur));
      } else {
        var imm := Immediate(ctx, size);
        if imm.Err? {
          return Failed(imm.error);
        }
        outcome := Commit(Advance(WriteRm(mem, cpu, m, ctx.cur, bits, size, p.hasRex, imm.value), bits, ctx.cur));
      }
    }

    // -------------------------------------------------- string instructions

    /** MOVS and REP MOVS: registers, memory and the count after the loop. */
    method StringMovs(rep: byte, size: Size) returns (error: Option<EmuError>)
      modifies this
      ensures var count := if rep != 0 then old(cpu).gpr[RCX] else 1;
              var step := if old(cpu).flags.df then 0 - size else size;
              var r := Movs(old(mem), old(cpu).gpr[RSI], old(cpu).gpr[RDI], step, size, count);
              && error == r.error && mem == r.mem
              && cpu == old(cpu).(gpr := old(cpu).gpr[RSI := r.si][RDI := r.di]
                                           [RCX := if rep != 0 && error == None then 0 else old(cpu).gpr[RCX]])
    {
      hide Store, WrapAdd, Mapped;
      var step: int := if cpu.flags.df then 0 - size else size;
      var count := if rep != 0 then cpu.gpr[RCX] else 1;
      ghost var goal := Movs(mem, cpu.gpr[RSI], cpu.gpr[RDI], step, size, count);
      while count > 0
        invariant goal == Movs(mem, cpu.gpr[RSI], cpu.gpr[RDI], step, size, count)
        invariant cpu == old(cpu).(gpr := old(cpu).gpr[RSI := cpu.gpr[RSI]][RDI := cpu.gpr[RDI]][RCX := old(cpu).gpr[RCX]])
      {
        var si, di := cpu.gpr[RSI], cpu.gpr[RDI];
        var v := ReadUint(mem, si, size);
        if v.Err? {
          return Some(v.error);
        }
        LeBytesOfValue(Bytes(mem, si, size));
        var written := Write(mem, di, LeBytes(v.value, size));
        if written.Err? {
          return Some(written.error);
        }
        mem := written.value;
        cpu := cpu.(gpr := cpu.gpr[RSI := WrapAdd(si, step)][RDI := WrapAdd(di, step)]);
        count := count - 1;
      }
      if rep != 0 {
        cpu := cpu.(gpr := cpu.gpr[RCX := 0]);
      }
      return None;
    }

    function CursorOf(): Cursor
      reads this
    {
      Cursor(cpu.gpr[RCX], cpu.gpr[RSI], cpu.gpr[RDI], cpu.flags)
    }

    function WithCursor(s: CpuState, c: Cursor): CpuState {
      s.(gpr := s.gpr[RCX := c.rcx][RSI := c.rsi][RDI := c.rdi], flags := c.flags)
    }

    /** CMPS (cmps) and SCAS: compare, step, and repeat while the prefix says so. */
    method StringCompare(cmps: bool, rep: byte, size: Size) returns (error: Option<EmuError>)
      modifies this
      ensures var step := if old(cpu).flags.df then 0 - size else size;
              var q := Compare(cmps, Cut(old(cpu).gpr[RAX], size), size, rep, step, bits);
              var (c, err) := CompareLoop(q, old(mem), old(CursorOf()));
              error == err && mem == old(mem) && cpu == WithCursor(old(cpu), c)
    {
      hide ReadElem, Sub, AddrMask;
      var q := Compare(cmps, Cut(cpu.gpr[RAX], size), size, rep, if cpu.flags.df then 0 - size else size, bits);
      ghost var goal := CompareLoop(q, mem, CursorOf());
      while true
        invariant mem == old(mem) && goal == CompareLoop(q, mem, CursorOf())
        invariant cpu == WithCursor(old(cpu), CursorOf())
        decreases cpu.gpr[RCX]
      {
        var c := CursorOf();
        if rep != 0 && c.rcx == 0 {
          return None;
        }
        var a := if cmps then ReadElem(mem, c.rsi, size) else Ok(q.acc);
        if a.Err? {
          return Some(a.error);
        }
        var b := ReadElem(mem, c.rdi, size);
        if b.Err? {
          return Some(b.error);
        }
        var f := Sub(c.flags, a.value, b.value, 0, size).1;
        var rsi := if cmps then AddrMask(bits, c.rsi + q.step) else c.rsi;
        cpu := WithCursor(cpu, Cursor(c.rcx, rsi, AddrMask(bits, c.rdi + q.step), f));
        if rep == 0 {
          return None;
        }
        var n := AddrMask(bits, c.rcx - 1);
        MaskSmaller(bits, c.rcx);
        cpu := cpu.(gpr := cpu.gpr[RCX := n]);
        if RepBreak(rep, n, cpu.flags.zf) {
          return None;
        }
      }
    }
  }

  lemma MaskSmaller(bits: Bits, n: u64)
    requires n > 0
    ensures AddrMask(bits, n - 1) < n
  {
  }
}
