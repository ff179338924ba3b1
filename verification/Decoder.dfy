/** Instruction fetch and decoding: prefixes, ModRM and SIB. */
module Decoder {
  import opened Words
  import opened GuestMemory
  import opened CpuModel

  datatype Bits = B32 | B64

  datatype Prefixes = Prefixes(rex: byte, hasRex: bool, p66: bool, rep: byte, seg: byte, lock: bool) {
    predicate W() { rex / 8 % 2 == 1 }
    function R(): byte { rex / 4 % 2 }
    function X(): byte { rex / 2 % 2 }
    function B(): byte { rex % 2 }
  }

  const NO_PREFIX := Prefixes(0, false, false, 0, 0, false)
  const FS_BASE: u64 := 0x7FFE_0000_0000

  datatype Rm = Reg(index: byte) | Mem(base: u64, disp: int, ripRel: bool)

  datatype Modrm = Modrm(reg: byte, rm: Rm, next: int)

  function AddrMask(bits: Bits, a: int): u64 {
    if bits.B64? then Wrap64(a) else Wrap32(a)
  }

  // ------------------------------------------------------------------ fetch

  /** The first unmapped address of a range that is not wholly mapped. */
  function FirstUnmapped(mem: Memory, cur: int, n: nat): int
    decreases n
  {
    if n == 0 || cur !in mem then cur else FirstUnmapped(mem, cur + 1, n - 1)
  }

  /** A little-endian operand of n bytes, fetched byte by byte. */
  function FetchUint(mem: Memory, cur: int, n: nat): (r: Result<nat>)
    ensures r.Ok? ==> r.value < Pow256(n)
  {
    if Mapped(mem, cur, n) then Ok(LeValue(Bytes(mem, cur, n)))
    else Err(Unmapped(FirstUnmapped(mem, cur, n), 1))
  }

  function Fetch32(mem: Memory, cur: int): (r: Result<u32>) {
    PowersOf256();
    FetchUint(mem, cur, 4)
  }

  // --------------------------------------------------------------- prefixes

  /** The prefixes at cur, and where the opcode starts. A REX prefix ends them. */
  function ReadPrefixes(mem: Memory, cur: int, bits: Bits, p: Prefixes): Result<(Prefixes, int)>
    decreases Above(mem, cur)
  {
    match Read8(mem, cur)
    case Err(e) => Err(e)
    case Ok(b) =>
      AboveShrinks(mem, cur);
      if b == 0x66 then ReadPrefixes(mem, cur + 1, bits, p.(p66 := true))
      else if b == 0x67 then ReadPrefixes(mem, cur + 1, bits, p)
      else if b == 0xF0 then ReadPrefixes(mem, cur + 1, bits, p.(lock := true))
      else if b == 0xF2 || b == 0xF3 then ReadPrefixes(mem, cur + 1, bits, p.(rep := b))
      else if b == 0x2E || b == 0x36 || b == 0x3E || b == 0x26 then ReadPrefixes(mem, cur + 1, bits, p)
      else if b == 0x64 || b == 0x65 then ReadPrefixes(mem, cur + 1, bits, p.(seg := b))
      else if 0x40 <= b <= 0x4F && bits.B64? then Ok((p.(rex := b, hasRex := true), cur + 1))
      else Ok((p, cur))
  }

  function OpSize(bits: Bits, p: Prefixes): (s: int)
    ensures s == 2 || s == 4 || s == 8
  {
    if bits.B64? && p.W() then 8 else if p.p66 then 2 else 4
  }

  // -------------------------------------------------------------- operands

  function SegBase(cpu: CpuState, bits: Bits, seg: byte): u64 {
    if seg == 0x65 then cpu.gsBase
    else if seg == 0x64 then (if bits.B64? then FS_BASE else cpu.fsBase)
    else 0
  }

  /** The displacement that mod announces. */
  function ReadDisp(mem: Memory, cur: int, md: byte): Result<(int, int)> {
    if md == 0 then Ok((0, cur))
    else if md == 1 then
      match Read8(mem, cur)
      case Err(e) => Err(e)
      case Ok(d) => Ok((SignExtend8(d), cur + 1))
    else
      match Fetch32(mem, cur)
      case Err(e) => Err(e)
      case Ok(d) => Ok((SignExtend32(d), cur + 4))
  }

  function MemOperand(mem: Memory, cur: int, md: byte, base: u64, seg: u64, ripRel: bool, reg: byte): Result<Modrm> {
    match ReadDisp(mem, cur, md)
    case Err(e) => Err(e)
    case Ok((disp, next)) => Ok(Modrm(reg, Mem(WrapAdd(base, seg), disp, ripRel), next))
  }

  /** The scaled index of a SIB byte; index 4 without REX.X means none. */
  function SibIndex(cpu: CpuState, p: Prefixes, sib: byte): u64 {
    var scale := match sib / 64 case 0 => 1 case 1 => 2 case 2 => 4 case _ => 8;
    if sib / 8 % 8 != 4 || p.X() != 0 then WrapMul(cpu.gpr[sib / 8 % 8 + 8 * p.X()], scale) else 0
  }

  function ReadModrm(mem: Memory, cur: int, p: Prefixes, cpu: CpuState, bits: Bits): Result<Modrm> {
    match Read8(mem, cur)
    case Err(e) => Err(e)
    case Ok(modrm) =>
      var md, reg, rm := modrm / 64, modrm / 8 % 8 + 8 * p.R(), modrm % 8;
      var seg := SegBase(cpu, bits, p.seg);
      if md == 3 then Ok(Modrm(reg, Reg(rm + 8 * p.B()), cur + 1))
      else if rm == 4 then
        match Read8(mem, cur + 1)
        case Err(e) => Err(e)
        case Ok(sib) =>
          var index := SibIndex(cpu, p, sib);
          if sib % 8 == 5 && md == 0 then MemOperand(mem, cur + 2, 2, index, seg, false, reg)
          else MemOperand(mem, cur + 2, md, WrapAdd(index, cpu.gpr[sib % 8 + 8 * p.B()]), seg, false, reg)
      else if rm == 5 && md == 0 then MemOperand(mem, cur + 1, 2, 0, seg, bits.B64?, reg)
      else MemOperand(mem, cur + 1, md, cpu.gpr[rm + 8 * p.B()], seg, false, reg)
  }

  /** The address of a memory operand; next is where the instruction's bytes read so far end. */
  function RmAddr(rm: Rm, next: int, bits: Bits): u64 {
    match rm
    case Reg(_) => 0
    case Mem(base, disp, ripRel) => AddrMask(bits, if ripRel then next + disp else base + disp)
  }
}
