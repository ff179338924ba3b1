/** What the modelled instructions do with their operands, in either mode and at every size. */
module InstructionForms {
  import opened Words
  import opened GuestMemory
  import opened CpuModel
  import opened Alu
  import opened Decoder
  import opened Interp
  import StringOps
  import LogicOps

  // ---- The stack ----

  /** Eight bytes in 64-bit mode and four in 32-bit mode. */
  function Width(bits: Bits): (w: nat) {
    match bits case B64 => 8 case B32 => 4
  }

  lemma Masked(bits: Bits, v: nat)
    ensures AddrMask(bits, v) == v % Pow256(Width(bits))
  {
    PowersOf256();
  }

  /** A push moves rsp down by the width, whether or not the store then succeeds, and stores
      the value there; what is popped afterwards is the value, with rsp where it was. */
  lemma PushThenPop(mem: Memory, cpu: CpuState, bits: Bits, v: nat)
    ensures var s, w, sp := PushStack(mem, cpu, bits, v), Width(bits), AddrMask(bits, cpu.Rsp() - Width(bits));
            if Mapped(mem, sp, w) then
              s == Step(cpu.WithRsp(sp), Store(mem, sp, LeBytes(v, w)), Continue) &&
              PopStack(s.mem, s.cpu, bits) == (cpu.WithRsp(AddrMask(bits, cpu.Rsp())), Ok(AddrMask(bits, v)))
            else s == Step(cpu.WithRsp(sp), mem, Failed(Unmapped(sp, w)))
  {
    hide LeBytes, LeValue, AddrMask, Store, Bytes, Mapped;
    var w, sp := Width(bits), AddrMask(bits, cpu.Rsp() - Width(bits));
    if Mapped(mem, sp, w) {
      PoppedBack(mem, sp, v, w);
      Masked(bits, v);
      StringOps.MaskTwice(bits, cpu.Rsp() - w, 0);
      StringOps.MaskTwice(bits, cpu.Rsp() - w, w);
      RspTwice(cpu, sp, AddrMask(bits, cpu.Rsp()));
    }
  }

  lemma RspTwice(cpu: CpuState, x: u64, y: u64)
    ensures cpu.WithRsp(x).WithRsp(y) == cpu.WithRsp(y) && cpu.WithRsp(x).Rsp() == x
  {
    assert cpu.gpr[RSP := x][RSP := y] == cpu.gpr[RSP := y];
  }

  lemma PoppedBack(mem: Memory, sp: int, v: nat, w: nat)
    requires Mapped(mem, sp, w)
    ensures ReadUint(Store(mem, sp, LeBytes(v, w)), sp, w) == Ok(v % Pow256(w))
  {
    StoreHolds(mem, sp, LeBytes(v, w));
    LeValueOfBytes(v, w);
  }

  /** 50 + r and then 58 + t: the pushed register arrives in the popped one, its fourth bit
      from REX, and rsp is back unless it is the one popped. */
  lemma PushedIsPopped(mem: Memory, cpu: CpuState, bits: Bits, p: Prefixes, q: Prefixes, r: byte, t: byte, cur: int, next: int)
    requires r < 8 && t < 8
    ensures var s := Dispatch(mem, cpu, bits, p, 0x50 + r, cur);
            s.outcome == Continue ==>
              Dispatch(s.mem, s.cpu, bits, q, 0x58 + t, next) ==
              Step(cpu.WithRsp(AddrMask(bits, cpu.Rsp())).WithGpr(t + 8 * q.B(), AddrMask(bits, cpu.gpr[r + 8 * p.B()])).(
                     rip := AddrMask(bits, next)), s.mem, Continue)
  {
    hide PushStack, PopStack, AddrMask;
    var v := cpu.gpr[r + 8 * p.B()];
    PushThenPop(mem, cpu, bits, v);
    StringOps.MaskTwice(bits, v, 0);
    var s := PushStack(mem, cpu, bits, v);
    PopIgnoresRip(s.mem, s.cpu, bits, AddrMask(bits, cur));
  }

  lemma PopIgnoresRip(mem: Memory, cpu: CpuState, bits: Bits, rip: u64)
    ensures var (c, r) := PopStack(mem, cpu, bits); PopStack(mem, cpu.(rip := rip), bits) == (c.(rip := rip), r)
  {
    hide AddrMask, ReadUint;
  }

  /** C3, and C2 with its two bytes: rip from the top of the stack, and rsp above it and above
      what the instruction drops. */
  lemma ReturnIs(mem: Memory, cpu: CpuState, bits: Bits, p: Prefixes, cur: int, drop: u16, drops: bool)
    requires drops ==> Holds(mem, cur, [drop % 0x100, drop / 0x100])
    ensures var w, sp := Width(bits), AddrMask(bits, cpu.Rsp());
            var s := Dispatch(mem, cpu, bits, p, if drops then 0xC2 else 0xC3, cur);
            match ReadUint(mem, sp, w)
            case Err(e) => s == Step(cpu, mem, Failed(e))
            case Ok(v) =>
              s == Step(cpu.WithRsp(AddrMask(bits, cpu.Rsp() + w + if drops then drop else 0)).(rip := v), mem, Continue)
  {
    PowersOf256();
    hide AddrMask, LeValue, Bytes, Pow256;
    StringOps.MaskTwice(bits, cpu.Rsp(), Width(bits));
    StringOps.MaskTwice(bits, cpu.Rsp() + Width(bits), drop);
    if drops {
      DropReads(mem, cur, drop);
    }
    hide Read;
  }

  lemma DropReads(mem: Memory, cur: int, drop: u16)
    requires Holds(mem, cur, [drop % 0x100, drop / 0x100])
    ensures FetchUint(mem, cur, 2) == Ok(drop)
  {
    var bs := [drop % 0x100, drop / 0x100];
    assert bs[1..] == [drop / 0x100] && bs[1..][1..] == [];
    assert LeValue(bs) == drop;
  }

  // ---- Branches ----

  /** The distance of a branch, in one byte or in four. */
  predicate Distance(short: bool, rel: i32) {
    short ==> -128 <= rel < 128
  }

  function DistanceBytes(short: bool, rel: i32): (bs: seq<byte>) {
    if short then [rel % 0x100] else LeBytes(rel % TWO32, 4)
  }

  function AfterBranch(bits: Bits, short: bool, taken: bool, cur: int, rel: i32): u64 {
    AddrMask(bits, cur + (if short then 1 else 4) + if taken then rel else 0)
  }

  lemma DistanceReads(mem: Memory, cur: int, short: bool, rel: i32)
    requires Distance(short, rel) && Holds(mem, cur, DistanceBytes(short, rel))
    ensures FetchUint(mem, cur, if short then 1 else 4) == Ok(if short then rel % 0x100 else rel % TWO32)
  {
    PowersOf256();
    if short {
      assert LeValue([rel % 0x100]) == rel % 0x100 by {
        assert [rel % 0x100][1..] == [];
      }
    } else {
      LeRoundTrip32(rel % TWO32);
    }
  }

  lemma BranchGoes(mem: Memory, cpu: CpuState, bits: Bits, short: bool, taken: bool, cur: int, rel: i32)
    requires Distance(short, rel) && Holds(mem, cur, DistanceBytes(short, rel))
    ensures Branch(mem, cpu, bits, if short then 1 else 4, taken, cur)
         == Step(cpu.(rip := AfterBranch(bits, short, taken, cur, rel)), mem, Continue)
  {
    DistanceReads(mem, cur, short, rel);
    PowersOf256();
    hide AddrMask, FetchUint, Holds, DistanceBytes, Pow256;
  }

  /** EB and E9 always, 70 to 7F and 0F 80 to 8F if the condition in their low four bits holds:
      by the distance from the end of the instruction; otherwise to that end. */
  lemma BranchesAre(mem: Memory, cpu: CpuState, bits: Bits, p: Prefixes, cc: byte, cur: int, short: bool, rel: i32)
    requires cc < 0x10 && Distance(short, rel)
    ensures Holds(mem, cur, DistanceBytes(short, rel)) ==>
      Dispatch(mem, cpu, bits, p, if short then 0xEB else 0xE9, cur)
      == Step(cpu.(rip := AfterBranch(bits, short, true, cur, rel)), mem, Continue)
    ensures short && Holds(mem, cur, DistanceBytes(true, rel)) ==>
      Dispatch(mem, cpu, bits, p, 0x70 + cc, cur)
      == Step(cpu.(rip := AfterBranch(bits, true, Cond(cpu.flags, cc), cur, rel)), mem, Continue)
    ensures !short && Read8(mem, cur) == Ok(0x80 + cc) && Holds(mem, cur + 1, DistanceBytes(false, rel)) ==>
      Dispatch(mem, cpu, bits, p, 0x0F, cur)
      == Step(cpu.(rip := AfterBranch(bits, false, Cond(cpu.flags, cc), cur + 1, rel)), mem, Continue)
  {
    hide Branch, Cond, Holds, DistanceBytes, AfterBranch, Distance;
    LogicOps.SameCond(cpu.flags, 0x70 + cc, cc);
    LogicOps.SameCond(cpu.flags, 0x80 + cc, cc);
    if Holds(mem, cur, DistanceBytes(short, rel)) {
      BranchGoes(mem, cpu, bits, short, true, cur, rel);
      BranchGoes(mem, cpu, bits, short, Cond(cpu.flags, cc), cur, rel);
    }
    if !short && Holds(mem, cur + 1, DistanceBytes(false, rel)) {
      BranchGoes(mem, cpu, bits, false, Cond(cpu.flags, cc), cur + 1, rel);
    }
  }

  // ---- Immediates and the arithmetic group ----

  /** The immediate of 80 is a byte as it stands, that of 83 a byte read as a signed number. */
  lemma ByteImmediates(mem: Memory, cur: int, b: byte, size: Size)
    requires Read8(mem, cur) == Ok(b)
    ensures Group1Imm(mem, cur, 0x80, 1) == Ok((b, cur + 1))
    ensures Group1Imm(mem, cur, 0x83, size) == Ok((if b < 0x80 then b else Modulus(size) - 0x100 + b, cur + 1))
  {
    if b >= 0x80 {
      ModUnique(Modulus(size), -1, Modulus(size) - 0x100 + b, b - 0x100);
    } else {
      ModUnique(Modulus(size), 0, b, b);
    }
    hide Modulus;
  }

  /** That of 81 and of C7 has two bytes at the word size, and otherwise four that are read as
      a signed number. */
  lemma WideImmediates(mem: Memory, cur: int, size: Size, imm: i32)
    requires size == 2 ==> -0x8000 <= imm < 0x8000
    requires Holds(mem, cur, if size == 2 then LeBytes(imm % TWO32, 2) else LeBytes(imm % TWO32, 4))
    ensures ImmZ(mem, cur, size) == Ok((Cut(imm, size), cur + if size == 2 then 2 else 4))
    ensures Group1Imm(mem, cur, 0x81, size) == ImmZ(mem, cur, size)
  {
    PowersOf256();
    var n := if size == 2 then 2 else 4;
    LeValueOfBytes(imm % TWO32, n);
    assert FetchUint(mem, cur, n) == Ok(LeValue(LeBytes(imm % TWO32, n)));
    hide LeBytes, LeValue, FetchUint, Holds, Pow256;
    SignedWord(imm);
  }

  lemma SignedWord(imm: i32)
    ensures -0x8000 <= imm < 0x8000 ==> SignedOf(imm % TWO32 % 0x1_0000, 2) == imm
    ensures SignedOf(imm % TWO32 % 0x1_0000_0000, 4) == imm
  {
  }

  /** 80, 81 and 83: the operation that the reg field names, of the operand and the immediate.
      /7 compares and writes nothing; the others write the operand back. */
  lemma GroupOneIs(mem: Memory, cpu: CpuState, bits: Bits, p: Prefixes, opcode: byte, cur: int, m: Modrm, imm: u64, next: int, a: u64)
    requires opcode in [0x80, 0x81, 0x83] && ReadModrm(mem, cur, p, cpu, bits) == Ok(m)
    requires Group1Imm(mem, m.next, opcode, if opcode == 0x80 then 1 else OpSize(bits, p)) == Ok((imm, next))
    requires match m.rm
             case Reg(i) => a == ReadGpr(cpu, i, if opcode == 0x80 then 1 else OpSize(bits, p), p.hasRex)
             case Mem(_, _, _) => ReadUint(mem, RmAddr(m.rm, next, bits), if opcode == 0x80 then 1 else OpSize(bits, p)) == Ok(a)
    ensures var size := if opcode == 0x80 then 1 else OpSize(bits, p);
            var s, (r, f) := Dispatch(mem, cpu, bits, p, opcode, cur), DoAlu(cpu.flags, m.reg % 8, a, imm, size);
            var after := cpu.(flags := f, rip := AddrMask(bits, next));
            if m.reg % 8 == 7 then s == Step(after, mem, Continue)
            else match m.rm
              case Reg(i) => s == Step(WriteGpr(after, i, size, p.hasRex, r), mem, Continue)
              case Mem(_, _, _) => s == Step(after, Store(mem, RmAddr(m.rm, next, bits), LeBytes(r, size)), Continue)
  {
    hide ReadModrm, Group1Imm, LeBytes, LeValue, ReadGpr, OpSize, RmAddr, DoAlu, Cut, Store, Bytes, Mapped;
    PowersOf256();
  }

  // ---- Addresses and constants ----

  /** LEA loads the address, cut to the operand size, and C7 stores its immediate. */
  lemma LeaAndMovImmAre(mem: Memory, cpu: CpuState, bits: Bits, p: Prefixes, cur: int, m: Modrm)
    requires ReadModrm(mem, cur, p, cpu, bits) == Ok(m)
    ensures Dispatch(mem, cpu, bits, p, 0x8D, cur)
         == Step(WriteGpr(cpu, m.reg, OpSize(bits, p), p.hasRex, RmAddr(m.rm, m.next, bits)).(rip := AddrMask(bits, m.next)),
                 mem, Continue)
    ensures match ImmZ(mem, m.next, OpSize(bits, p))
            case Err(e) => Dispatch(mem, cpu, bits, p, 0xC7, cur) == Step(cpu, mem, Failed(e))
            case Ok((imm, next)) =>
              var s := Dispatch(mem, cpu, bits, p, 0xC7, cur);
              match m.rm
              case Reg(i) => s == Step(WriteGpr(cpu, i, OpSize(bits, p), p.hasRex, imm).(rip := AddrMask(bits, next)), mem, Continue)
              case Mem(_, _, _) =>
                match Write(mem, RmAddr(m.rm, next, bits), LeBytes(imm, OpSize(bits, p)))
                case Err(e) => s == Step(cpu, mem, Failed(e))
                case Ok(stored) => s == Step(cpu.(rip := AddrMask(bits, next)), stored, Continue)
  {
    hide ReadModrm, ImmZ, Write, LeBytes, WriteGpr, OpSize, RmAddr;
  }
}
