/** The sample assembler, and the round trip from its bytes through the decoder. */
module Assembler {
  import opened Words
  import opened GuestMemory
  import opened CpuModel
  import opened Alu
  import opened Decoder
  import opened Interp
  import opened EpilogAgrees

  type RegNo = r: int | 0 <= r < 16

  const RBX: RegNo := 3

  // --------------------------------------------------------------- encodings

  function Rex(r: RegNo, b: RegNo): byte {
    0x48 + (if r >= 8 then 4 else 0) + (if b >= 8 then 1 else 0)
  }

  /** ModRM, SIB and the shortest displacement for [rsp + disp]. */
  function ModrmRspBytes(reg: RegNo, disp: i32): seq<byte> {
    if -128 <= disp <= 127 then [0x44 + 8 * (reg % 8), 0x24, disp % 0x100]
    else [0x84 + 8 * (reg % 8), 0x24] + LeBytes(disp % TWO32, 4)
  }

  function MovStoreBytes(disp: i32, reg: RegNo): seq<byte> {
    [Rex(reg, RBX), 0x89] + ModrmRspBytes(reg, disp)
  }

  function MovLoadBytes(reg: RegNo, disp: i32): seq<byte> {
    [Rex(reg, RBX), 0x8B] + ModrmRspBytes(reg, disp)
  }

  function MovLoad32Bytes(reg: RegNo, disp: i32): seq<byte> {
    (if reg >= 8 then [0x44] else []) + [0x8B] + ModrmRspBytes(reg, disp)
  }

  function LeaRspBytes(reg: RegNo, disp: i32): seq<byte> {
    [Rex(reg, RBX), 0x8D] + ModrmRspBytes(reg, disp)
  }

  function MovImmBytes(disp: i32, imm: i32): seq<byte> {
    [0x48, 0xC7] + (ModrmRspBytes(0, disp) + LeBytes(imm % TWO32, 4))
  }

  // ----------------------------------------------------- decoding them again

  lemma {:induction false} HoldsPart(mem: Memory, at: int, a: seq<byte>, b: seq<byte>)
    requires Holds(mem, at, a + b)
    ensures Holds(mem, at, a) && Holds(mem, at + |a|, b)
  {
    var all := Bytes(mem, at, |a + b|);
    assert forall i :: 0 <= i < |a| ==> a[i] == all[i] == mem[at + i];
    assert forall i :: 0 <= i < |b| ==> b[i] == all[|a| + i] == mem[at + |a| + i];
    assert Bytes(mem, at, |a|) == a;
    assert Bytes(mem, at + |a|, |b|) == b;
  }

  lemma HoldsSlice(mem: Memory, at: int, bs: seq<byte>, i: nat, j: nat)
    requires Holds(mem, at, bs) && i <= j <= |bs|
    ensures Holds(mem, at + i, bs[i..j])
  {
    assert bs == bs[..i] + bs[i..] && bs[i..] == bs[i..j] + bs[j..];
    hide Holds;
    HoldsPart(mem, at, bs[..i], bs[i..]);
    HoldsPart(mem, at + i, bs[i..j], bs[j..]);
  }

  lemma HoldsByte(mem: Memory, at: int, bs: seq<byte>, i: nat)
    requires Holds(mem, at, bs) && i < |bs|
    ensures at + i in mem && mem[at + i] == bs[i]
  {
    assert Bytes(mem, at, |bs|)[i] == mem[at + i];
  }

  lemma DispDecodes(mem: Memory, cur: int, reg: RegNo, disp: i32)
    requires Holds(mem, cur, ModrmRspBytes(reg, disp))
    ensures cur in mem && cur + 1 in mem && mem[cur + 1] == 0x24
    ensures mem[cur] % 8 == 4 && mem[cur] / 8 % 8 == reg % 8
    ensures mem[cur] / 64 == 1 || mem[cur] / 64 == 2
    ensures ReadDisp(mem, cur + 2, mem[cur] / 64) == Ok((disp, cur + |ModrmRspBytes(reg, disp)|))
  {
    hide Holds, LeBytes, FetchUint, LeValue;
    var bs := ModrmRspBytes(reg, disp);
    HoldsByte(mem, cur, bs, 0);
    HoldsByte(mem, cur, bs, 1);
    if -128 <= disp <= 127 {
      HoldsByte(mem, cur, bs, 2);
    } else {
      HoldsPart(mem, cur, bs[..2], bs[2..]);
      assert bs == bs[..2] + bs[2..];
      LongReads(mem, cur + 2, disp);
    }
  }

  lemma LongReads(mem: Memory, cur: int, disp: i32)
    requires Holds(mem, cur, LeBytes(disp % TWO32, 4))
    ensures Fetch32(mem, cur) == Ok(disp % TWO32)
  {
    LeRoundTrip32(disp % TWO32);
  }

  /** Prefixes that leave base and index alone. */
  predicate Plain(p: Prefixes, reg: RegNo) {
    p.seg == 0 && p.X() == 0 && p.B() == 0 && p.R() == reg / 8
  }

  /** The operand bytes decode to the same register, rsp and the same displacement, and to
      exactly their length. */
  lemma RspOperandDecodes(mem: Memory, cpu: CpuState, cur: int, p: Prefixes, reg: RegNo, disp: i32)
    requires Holds(mem, cur, ModrmRspBytes(reg, disp)) && Plain(p, reg)
    ensures ReadModrm(mem, cur, p, cpu, B64)
         == Ok(Modrm(reg, Mem(cpu.Rsp(), disp, false), cur + |ModrmRspBytes(reg, disp)|))
  {
    hide ReadDisp, ModrmRspBytes, Holds, ReadModrm;
    DispDecodes(mem, cur, reg, disp);
    RspModrm(mem, cpu, cur, p, reg, disp, cur + |ModrmRspBytes(reg, disp)|);
  }

  lemma RspModrm(mem: Memory, cpu: CpuState, cur: int, p: Prefixes, reg: RegNo, disp: i32, next: int)
    requires Plain(p, reg) && cur in mem && cur + 1 in mem && mem[cur + 1] == 0x24
    requires mem[cur] % 8 == 4 && mem[cur] / 8 % 8 == reg % 8 && (mem[cur] / 64 == 1 || mem[cur] / 64 == 2)
    requires ReadDisp(mem, cur + 2, mem[cur] / 64) == Ok((disp, next))
    ensures ReadModrm(mem, cur, p, cpu, B64) == Ok(Modrm(reg, Mem(cpu.Rsp(), disp, false), next))
  {
    assert SibIndex(cpu, p, 0x24) == 0 && SegBase(cpu, B64, p.seg) == 0;
    assert reg == reg % 8 + 8 * (reg / 8);
    hide ReadDisp, SibIndex, SegBase;
  }

  lemma RexIsPlain(reg: RegNo)
    ensures 0x40 <= Rex(reg, RBX) <= 0x4F && Plain(RexPrefix(Rex(reg, RBX)), reg) && RexPrefix(Rex(reg, RBX)).W()
  {
  }

  /** Prefix, opcode and operand of a REX instruction at rip. */
  lemma RexOpcode(mem: Memory, cpu: CpuState, reg: RegNo, opcode: byte, operand: seq<byte>)
    requires Holds(mem, cpu.rip, [Rex(reg, RBX), opcode] + operand)
    ensures Holds(mem, cpu.rip + 2, operand)
    ensures Execute(mem, cpu, B64) == Dispatch(mem, cpu, B64, RexPrefix(Rex(reg, RBX)), opcode, cpu.rip + 2)
  {
    hide Execute, Dispatch, Rex;
    HoldsPart(mem, cpu.rip, [Rex(reg, RBX), opcode], operand);
    HoldsByte(mem, cpu.rip, [Rex(reg, RBX), opcode], 0);
    HoldsByte(mem, cpu.rip, [Rex(reg, RBX), opcode], 1);
    RexIsPlain(reg);
    ExecuteRex(mem, cpu);
  }

  /** lea reg, [rsp + disp], assembled and executed. */
  lemma LeaRoundTrip(mem: Memory, cpu: CpuState, reg: RegNo, disp: i32)
    requires Holds(mem, cpu.rip, LeaRspBytes(reg, disp))
    ensures Execute(mem, cpu, B64)
         == Step(cpu.WithGpr(reg, WrapAdd(cpu.Rsp(), disp))
                    .(rip := Wrap64(cpu.rip + |LeaRspBytes(reg, disp)|)), mem, Continue)
  {
    hide Execute, Dispatch, Holds, ReadModrm, ModrmRspBytes, Rex;
    RexOpcode(mem, cpu, reg, 0x8D, ModrmRspBytes(reg, disp));
    RexIsPlain(reg);
    var p := RexPrefix(Rex(reg, RBX));
    RspOperandDecodes(mem, cpu, cpu.rip + 2, p, reg, disp);
    DispatchLea(mem, cpu, p, cpu.rip + 2);
    LeaExecutes(mem, cpu, p, reg, disp, cpu.rip + 2, cpu.rip + |LeaRspBytes(reg, disp)|);
  }

  lemma DispatchLea(mem: Memory, cpu: CpuState, p: Prefixes, cur: int)
    ensures Dispatch(mem, cpu, B64, p, 0x8D, cur) == Lea(mem, cpu, B64, p, cur)
  {
    hide Lea;
  }

  lemma LeaExecutes(mem: Memory, cpu: CpuState, p: Prefixes, reg: RegNo, disp: i32, cur: int, next: int)
    requires p.W() && ReadModrm(mem, cur, p, cpu, B64) == Ok(Modrm(reg, Mem(cpu.Rsp(), disp, false), next))
    ensures Lea(mem, cpu, B64, p, cur)
         == Step(cpu.WithGpr(reg, WrapAdd(cpu.Rsp(), disp)).(rip := Wrap64(next)), mem, Continue)
  {
    hide ReadModrm;
  }

  /** mov [rsp + disp], reg, assembled and executed. */
  lemma MovStoreRoundTrip(mem: Memory, cpu: CpuState, reg: RegNo, disp: i32)
    requires Holds(mem, cpu.rip, MovStoreBytes(disp, reg))
    ensures var at, s := WrapAdd(cpu.Rsp(), disp), Execute(mem, cpu, B64);
            match Write(mem, at, LeBytes(cpu.gpr[reg], 8))
            case Err(e) => s == Step(cpu, mem, Failed(e))
            case Ok(m) => s == Step(cpu.(rip := Wrap64(cpu.rip + |MovStoreBytes(disp, reg)|)), m, Continue)
  {
    hide Execute, Dispatch, Holds, ReadModrm, ModrmRspBytes, Rex;
    RexOpcode(mem, cpu, reg, 0x89, ModrmRspBytes(reg, disp));
    RexIsPlain(reg);
    var p := RexPrefix(Rex(reg, RBX));
    RspOperandDecodes(mem, cpu, cpu.rip + 2, p, reg, disp);
    DispatchMov(mem, cpu, p, cpu.rip + 2);
    MovStoreExecutes(mem, cpu, p, reg, disp, cpu.rip + 2, cpu.rip + |MovStoreBytes(disp, reg)|);
  }

  lemma DispatchMov(mem: Memory, cpu: CpuState, p: Prefixes, cur: int)
    ensures Dispatch(mem, cpu, B64, p, 0x89, cur) == MovStore(mem, cpu, B64, p, OpSize(B64, p), cur)
    ensures Dispatch(mem, cpu, B64, p, 0x8B, cur) == MovLoad(mem, cpu, B64, p, OpSize(B64, p), cur)
  {
    hide MovStore, MovLoad, OpSize;
  }

  lemma MovStoreExecutes(mem: Memory, cpu: CpuState, p: Prefixes, reg: RegNo, disp: i32, cur: int, next: int)
    requires p.W() && ReadModrm(mem, cur, p, cpu, B64) == Ok(Modrm(reg, Mem(cpu.Rsp(), disp, false), next))
    ensures MovStore(mem, cpu, B64, p, OpSize(B64, p), cur) ==
            match Write(mem, WrapAdd(cpu.Rsp(), disp), LeBytes(cpu.gpr[reg], 8))
            case Err(e) => Step(cpu, mem, Failed(e))
            case Ok(m) => Step(cpu.(rip := Wrap64(next)), m, Continue)
  {
    hide ReadModrm, Write, LeBytes;
    CutAll(cpu.gpr[reg]);
  }

  lemma CutAll(v: u64)
    ensures Cut(v, 8) == v
  {
  }

  /** mov qword [rsp + disp], imm, assembled and executed: the immediate is sign-extended. */
  lemma MovImmRoundTrip(mem: Memory, cpu: CpuState, disp: i32, imm: i32)
    requires Holds(mem, cpu.rip, MovImmBytes(disp, imm))
    ensures var at, s := WrapAdd(cpu.Rsp(), disp), Execute(mem, cpu, B64);
            match Write(mem, at, LeBytes(Wrap64(imm), 8))
            case Err(e) => s == Step(cpu, mem, Failed(e))
            case Ok(m) => s == Step(cpu.(rip := Wrap64(cpu.rip + |MovImmBytes(disp, imm)|)), m, Continue)
  {
    hide Execute, Dispatch, Holds, ReadModrm, ModrmRspBytes, Rex, MovImm, LeBytes, Write;
    var operand, tail := ModrmRspBytes(0, disp), LeBytes(imm % TWO32, 4);
    RexOfZero();
    RexOpcode(mem, cpu, 0, 0xC7, operand + tail);
    HoldsPart(mem, cpu.rip + 2, operand, tail);
    RexIsPlain(0);
    var p := RexPrefix(Rex(0, RBX));
    RspOperandDecodes(mem, cpu, cpu.rip + 2, p, 0, disp);
    var cur := cpu.rip + 2 + |operand|;
    DispatchMovImm(mem, cpu, p, cpu.rip + 2);
    ImmediateDecodes(mem, cur, imm);
    MovImmExecutes(mem, cpu, p, disp, imm, cpu.rip + 2, cur);
  }

  lemma RexOfZero()
    ensures Rex(0, RBX) == 0x48
  {
  }

  lemma DispatchMovImm(mem: Memory, cpu: CpuState, p: Prefixes, cur: int)
    ensures Dispatch(mem, cpu, B64, p, 0xC7, cur) == MovImm(mem, cpu, B64, p, cur)
  {
    hide MovImm;
  }

  lemma ImmediateDecodes(mem: Memory, cur: int, imm: i32)
    requires Holds(mem, cur, LeBytes(imm % TWO32, 4))
    ensures ImmZ(mem, cur, 8) == Ok((Wrap64(imm), cur + 4))
  {
    LeRoundTrip32(imm % TWO32);
    PowersOf256();
    SignedBack(imm);
  }

  lemma SignedBack(imm: i32)
    ensures SignedOf(imm % TWO32, 4) == imm && Cut(imm, 8) == Wrap64(imm)
  {
  }

  lemma MovImmExecutes(mem: Memory, cpu: CpuState, p: Prefixes, disp: i32, imm: i32, cur: int, next: int)
    requires p.W() && ReadModrm(mem, cur, p, cpu, B64) == Ok(Modrm(0, Mem(cpu.Rsp(), disp, false), next))
    requires ImmZ(mem, next, 8) == Ok((Wrap64(imm), next + 4))
    ensures MovImm(mem, cpu, B64, p, cur) ==
            match Write(mem, WrapAdd(cpu.Rsp(), disp), LeBytes(Wrap64(imm), 8))
            case Err(e) => Step(cpu, mem, Failed(e))
            case Ok(m) => Step(cpu.(rip := Wrap64(next + 4)), m, Continue)
  {
    hide ReadModrm, Write, LeBytes, ImmZ;
    CutAll(Wrap64(imm));
  }

  /** mov reg, [rsp + disp] and mov reg32, [rsp + disp], assembled and executed. */
  lemma MovLoadRoundTrip(mem: Memory, cpu: CpuState, reg: RegNo, disp: i32)
    requires Holds(mem, cpu.rip, MovLoadBytes(reg, disp))
    ensures var s := Execute(mem, cpu, B64);
            match Read64(mem, WrapAdd(cpu.Rsp(), disp))
            case Err(e) => s == Step(cpu, mem, Failed(e))
            case Ok(v) => s == Step(cpu.WithGpr(reg, v).(rip := Wrap64(cpu.rip + |MovLoadBytes(reg, disp)|)), mem, Continue)
  {
    hide Execute, Dispatch, Holds, ReadModrm, ModrmRspBytes, Rex;
    RexOpcode(mem, cpu, reg, 0x8B, ModrmRspBytes(reg, disp));
    RexIsPlain(reg);
    var p := RexPrefix(Rex(reg, RBX));
    RspOperandDecodes(mem, cpu, cpu.rip + 2, p, reg, disp);
    DispatchMov(mem, cpu, p, cpu.rip + 2);
    MovLoadExecutes(mem, cpu, p, reg, disp, cpu.rip + 2, cpu.rip + |MovLoadBytes(reg, disp)|, 8);
  }

  lemma MovLoadExecutes(mem: Memory, cpu: CpuState, p: Prefixes, reg: RegNo, disp: i32, cur: int, next: int, size: Size)
    requires OpSize(B64, p) == size && size >= 4
    requires ReadModrm(mem, cur, p, cpu, B64) == Ok(Modrm(reg, Mem(cpu.Rsp(), disp, false), next))
    ensures MovLoad(mem, cpu, B64, p, OpSize(B64, p), cur) ==
            match ReadUint(mem, WrapAdd(cpu.Rsp(), disp), size)
            case Err(e) => Step(cpu, mem, Failed(e))
            case Ok(v) => Step(cpu.WithGpr(reg, Cut(v, size)).(rip := Wrap64(next)), mem, Continue)
    ensures size == 8 ==> forall v: u64 :: Cut(v, 8) == v
  {
    hide ReadModrm, ReadUint;
  }

  lemma MovLoad32RoundTrip(mem: Memory, cpu: CpuState, reg: RegNo, disp: i32)
    requires Holds(mem, cpu.rip, MovLoad32Bytes(reg, disp))
    ensures var s := Execute(mem, cpu, B64);
            match Read32(mem, WrapAdd(cpu.Rsp(), disp))
            case Err(e) => s == Step(cpu, mem, Failed(e))
            case Ok(v) => s == Step(cpu.WithGpr(reg, v).(rip := Wrap64(cpu.rip + |MovLoad32Bytes(reg, disp)|)), mem, Continue)
  {
    hide Execute, Dispatch, Holds, ReadModrm, ModrmRspBytes, MovLoad;
    var operand := ModrmRspBytes(reg, disp);
    var p, cur := Load32Decodes(mem, cpu, reg, operand);
    RspOperandDecodes(mem, cpu, cur, p, reg, disp);
    DispatchMov(mem, cpu, p, cur);
    MovLoadExecutes(mem, cpu, p, reg, disp, cur, cur + |operand|, 4);
    PowersOf256();
  }

  lemma Load32Decodes(mem: Memory, cpu: CpuState, reg: RegNo, operand: seq<byte>) returns (p: Prefixes, cur: int)
    requires Holds(mem, cpu.rip, (if reg >= 8 then [0x44] else []) + [0x8B] + operand)
    ensures Plain(p, reg) && OpSize(B64, p) == 4 && cur == cpu.rip + (if reg >= 8 then 2 else 1)
    ensures Holds(mem, cur, operand) && Execute(mem, cpu, B64) == Dispatch(mem, cpu, B64, p, 0x8B, cur)
  {
    hide Execute, Dispatch, Holds;
    p := if reg >= 8 then RexPrefix(0x44) else NO_PREFIX;
    var lead: seq<byte> := if reg >= 8 then [0x44, 0x8B] else [0x8B];
    assert (if reg >= 8 then [0x44] else []) + [0x8B] + operand == lead + operand;
    cur := cpu.rip + |lead|;
    HoldsPart(mem, cpu.rip, lead, operand);
    HoldsByte(mem, cpu.rip, lead, 0);
    if reg >= 8 {
      HoldsByte(mem, cpu.rip, lead, 1);
      ExecuteRex(mem, cpu);
    } else {
      ExecutePlain(mem, cpu);
    }
  }
}
