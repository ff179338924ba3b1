/** Every form of a ModRM operand, from its bytes to the address it stands for (Intel SDM,
    volume 2, section 2.1.5 and tables 2-2 and 2-3). */
module OperandForms {
  import opened Words
  import opened GuestMemory
  import opened CpuModel
  import opened Decoder
  import opened Assembler

  type Three = n: byte | n < 8

  /** How a displacement is encoded: not at all, in one byte, or in four. */
  datatype DispForm = NoDisp | Disp8 | Disp32

  function Mod(form: DispForm): (md: byte)
    ensures md < 3
  {
    match form case NoDisp => 0 case Disp8 => 1 case Disp32 => 2
  }

  predicate DispFits(form: DispForm, disp: int) {
    match form
    case NoDisp => disp == 0
    case Disp8 => -0x80 <= disp < 0x80
    case Disp32 => -0x8000_0000 <= disp < 0x8000_0000
  }

  function DispBytes(form: DispForm, disp: int): seq<byte>
    requires DispFits(form, disp)
  {
    match form
    case NoDisp => []
    case Disp8 => [disp % 0x100]
    case Disp32 => LeBytes(disp % TWO32, 4)
  }

  /** Address arithmetic is modulo 2^64, or 2^32 in 32-bit mode. */
  function Address(bits: Bits, x: int): int {
    if bits.B64? then x % 0x1_0000_0000_0000_0000 else x % 0x1_0000_0000
  }

  /** What a segment prefix adds: gs its base; fs its base, at a fixed place in 64-bit mode;
      none and the others nothing. */
  function Segment(cpu: CpuState, bits: Bits, seg: byte): int {
    match seg
    case 0x65 => cpu.gsBase
    case 0x64 => if bits.B64? then 0x7FFE_0000_0000 else cpu.fsBase
    case _ => 0
  }

  /** The operand was read as a memory operand at that address, with that register number and
      up to the end of its bytes; rip counts only in the form relative to it. */
  ghost predicate ReadAs(r: Result<Modrm>, reg: byte, next: int, bits: Bits, address: int) {
    r.Ok? && r.value.reg == reg && r.value.next == next && r.value.rm.Mem? && !r.value.rm.ripRel &&
    forall end: int :: RmAddr(r.value.rm, end, bits) == Address(bits, address)
  }

  lemma AddressAdds(bits: Bits, x: int, y: int)
    ensures AddrMask(bits, Wrap64(x) + y) == Address(bits, x + y)
  {
    var q := x / TWO64;
    assert Wrap64(x) == x - TWO64 * q;
    if bits.B64? {
      ModUnique(TWO64, (x + y) / TWO64 - q, (x + y) % TWO64, Wrap64(x) + y);
    } else {
      assert TWO64 * q == TWO32 * (TWO32 * q);
      ModUnique(TWO32, (x + y) / TWO32 - TWO32 * q, (x + y) % TWO32, Wrap64(x) + y);
    }
  }

  lemma WrapOfSum(x: int, y: int)
    ensures WrapAdd(Wrap64(x), y) == Wrap64(x + y) && WrapAdd(x, Wrap64(y)) == Wrap64(x + y)
  {
    WrapAddWrap(y, x);
    WrapAddWrap(x, y);
    assert WrapAdd(Wrap64(x), y) == WrapAdd(y, Wrap64(x));
    hide Wrap64;
  }

  lemma DispReads(mem: Memory, cur: int, form: DispForm, disp: int)
    requires DispFits(form, disp) && Holds(mem, cur, DispBytes(form, disp))
    ensures ReadDisp(mem, cur, Mod(form)) == Ok((disp, cur + |DispBytes(form, disp)|))
  {
    match form
    case NoDisp =>
    case Disp8 => HoldsByte(mem, cur, DispBytes(form, disp), 0);
    case Disp32 =>
      LeRoundTrip32(disp % TWO32);
      PowersOf256();
  }

  /** A base, a segment and a displacement add up. */
  lemma MemoryReads(mem: Memory, cur: int, form: DispForm, disp: int, base: int, cpu: CpuState, bits: Bits, seg: byte, reg: byte)
    requires DispFits(form, disp) && Holds(mem, cur, DispBytes(form, disp))
    ensures ReadAs(MemOperand(mem, cur, Mod(form), Wrap64(base), SegBase(cpu, bits, seg), false, reg), reg,
                   cur + |DispBytes(form, disp)|, bits, base + Segment(cpu, bits, seg) + disp)
  {
    DispReads(mem, cur, form, disp);
    var s := SegBase(cpu, bits, seg);
    assert s == Segment(cpu, bits, seg);
    WrapOfSum(base, s);
    AddressAdds(bits, base + s, disp);
    hide ReadDisp, Wrap64, AddrMask, Address, SegBase, Segment;
  }

  lemma Fields(md: byte, reg: Three, rm: Three)
    requires md < 4
    ensures var b := 64 * md + 8 * reg + rm; b < 0x100 && b / 64 == md && b / 8 % 8 == reg && b % 8 == rm
  {
  }

  /** A register: the low three bits in the byte, the fourth in REX. */
  lemma RegisterForm(mem: Memory, cpu: CpuState, cur: int, p: Prefixes, bits: Bits, reg: Three, rm: Three)
    requires Holds(mem, cur, [0xC0 + 8 * reg + rm])
    ensures ReadModrm(mem, cur, p, cpu, bits) == Ok(Modrm(reg + 8 * (p.rex / 4 % 2), Reg(rm + 8 * (p.rex % 2)), cur + 1))
  {
    HoldsByte(mem, cur, [0xC0 + 8 * reg + rm], 0);
    Fields(3, reg, rm);
  }

  /** [base + disp], for any base but those with low bits 4, which need a SIB byte; one with low
      bits 5 always has a displacement. */
  lemma BaseForm(mem: Memory, cpu: CpuState, cur: int, p: Prefixes, bits: Bits, reg: Three, base: Three, form: DispForm, disp: int)
    requires DispFits(form, disp) && base != 4 && (base == 5 ==> form != NoDisp)
    requires Holds(mem, cur, [64 * Mod(form) + 8 * reg + base] + DispBytes(form, disp))
    ensures ReadAs(ReadModrm(mem, cur, p, cpu, bits), reg + 8 * (p.rex / 4 % 2), cur + 1 + |DispBytes(form, disp)|, bits,
                   cpu.gpr[base + 8 * (p.rex % 2)] + Segment(cpu, bits, p.seg) + disp)
  {
    var b: byte := 64 * Mod(form) + 8 * reg + base;
    HoldsPart(mem, cur, [b], DispBytes(form, disp));
    HoldsByte(mem, cur, [b], 0);
    Fields(Mod(form), reg, base);
    var x := cpu.gpr[base + 8 * (p.rex % 2)];
    MemoryReads(mem, cur + 1, form, disp, x, cpu, bits, p.seg, reg + 8 * (p.rex / 4 % 2));
    assert Wrap64(x) == x;
    hide MemOperand, ReadAs, SegBase, Wrap64, DispBytes, Holds;
  }

  /** What an index adds, times one, two, four or eight; number 4 means none. */
  function Scaled(cpu: CpuState, scale: byte, index: byte): int
    requires index < 16
  {
    var times: int, x: int := match scale case 0 => 1 case 1 => 2 case 2 => 4 case _ => 8, cpu.gpr[index];
    if index == 4 then 0 else x * times
  }

  lemma IndexReads(cpu: CpuState, p: Prefixes, scale: byte, index: Three, base: Three)
    requires scale < 4
    ensures SibIndex(cpu, p, 64 * scale + 8 * index + base) == Wrap64(Scaled(cpu, scale, index + 8 * (p.rex / 2 % 2)))
  {
    Fields(scale, index, base);
  }

  /** [base + index * scale + disp]; a base with low bits 5 always has a displacement. */
  lemma SibForm(mem: Memory, cpu: CpuState, cur: int, p: Prefixes, bits: Bits, reg: Three, scale: byte, index: Three, base: Three,
                form: DispForm, disp: int)
    requires DispFits(form, disp) && scale < 4 && (base == 5 ==> form != NoDisp)
    requires Holds(mem, cur, [64 * Mod(form) + 8 * reg + 4, 64 * scale + 8 * index + base] + DispBytes(form, disp))
    ensures ReadAs(ReadModrm(mem, cur, p, cpu, bits), reg + 8 * (p.rex / 4 % 2), cur + 2 + |DispBytes(form, disp)|, bits,
                   cpu.gpr[base + 8 * (p.rex % 2)] + Scaled(cpu, scale, index + 8 * (p.rex / 2 % 2)) +
                   Segment(cpu, bits, p.seg) + disp)
  {
    var b: byte, sib: byte := 64 * Mod(form) + 8 * reg + 4, 64 * scale + 8 * index + base;
    HoldsPart(mem, cur, [b, sib], DispBytes(form, disp));
    HoldsByte(mem, cur, [b, sib], 0);
    HoldsByte(mem, cur, [b, sib], 1);
    Fields(Mod(form), reg, 4);
    Fields(scale, index, base);
    IndexReads(cpu, p, scale, index, base);
    var x, y := Scaled(cpu, scale, index + 8 * (p.rex / 2 % 2)), cpu.gpr[base + 8 * (p.rex % 2)];
    WrapOfSum(x, y);
    MemoryReads(mem, cur + 2, form, disp, x + y, cpu, bits, p.seg, reg + 8 * (p.rex / 4 % 2));
    hide MemOperand, ReadAs, SegBase, Wrap64, DispBytes, Holds, SibIndex, Scaled;
  }

  /** [index * scale + disp32], without a base; number 4 for the index leaves disp32 alone. */
  lemma NoBaseForm(mem: Memory, cpu: CpuState, cur: int, p: Prefixes, bits: Bits, reg: Three, scale: byte, index: Three, disp: int)
    requires DispFits(Disp32, disp) && scale < 4
    requires Holds(mem, cur, [8 * reg + 4, 64 * scale + 8 * index + 5] + DispBytes(Disp32, disp))
    ensures ReadAs(ReadModrm(mem, cur, p, cpu, bits), reg + 8 * (p.rex / 4 % 2), cur + 6, bits,
                   Scaled(cpu, scale, index + 8 * (p.rex / 2 % 2)) + Segment(cpu, bits, p.seg) + disp)
  {
    var b: byte, sib: byte := 8 * reg + 4, 64 * scale + 8 * index + 5;
    HoldsPart(mem, cur, [b, sib], DispBytes(Disp32, disp));
    HoldsByte(mem, cur, [b, sib], 0);
    HoldsByte(mem, cur, [b, sib], 1);
    Fields(0, reg, 4);
    Fields(scale, index, 5);
    IndexReads(cpu, p, scale, index, 5);
    MemoryReads(mem, cur + 2, Disp32, disp, Scaled(cpu, scale, index + 8 * (p.rex / 2 % 2)), cpu, bits, p.seg, reg + 8 * (p.rex / 4 % 2));
    assert |DispBytes(Disp32, disp)| == 4;
    hide MemOperand, ReadAs, SegBase, Wrap64, DispBytes, Holds, SibIndex, Scaled;
  }

  /** Low bits 5 without a displacement form: relative to the end of the instruction in 64-bit
      mode, and a plain address in 32-bit mode. */
  lemma RipForm(mem: Memory, cpu: CpuState, cur: int, p: Prefixes, bits: Bits, reg: Three, disp: int, end: int)
    requires DispFits(Disp32, disp) && Holds(mem, cur, [8 * reg + 5] + DispBytes(Disp32, disp))
    ensures var r := ReadModrm(mem, cur, p, cpu, bits);
            r.Ok? && r.value.reg == reg + 8 * (p.rex / 4 % 2) && r.value.next == cur + 5 && r.value.rm.Mem? &&
            (bits.B64? ==> RmAddr(r.value.rm, end, bits) == Address(bits, end + disp)) &&
            (bits.B32? ==> RmAddr(r.value.rm, end, bits) == Address(bits, Segment(cpu, bits, p.seg) + disp))
  {
    var b: byte := 8 * reg + 5;
    HoldsPart(mem, cur, [b], DispBytes(Disp32, disp));
    HoldsByte(mem, cur, [b], 0);
    Fields(0, reg, 5);
    DispReads(mem, cur + 1, Disp32, disp);
    assert |DispBytes(Disp32, disp)| == 4;
    WrapOfSum(0, SegBase(cpu, bits, p.seg));
    AddressAdds(bits, SegBase(cpu, bits, p.seg), disp);
    hide ReadDisp, DispBytes, Holds;
  }
}
