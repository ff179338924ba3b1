/** The bitwise operations of the arithmetic group, the flags that no number line explains,
    and branches on what a comparison left. */
module LogicOps {
  import opened Words
  import opened GuestMemory
  import opened CpuModel
  import opened BitOps
  import opened Alu
  import opened Decoder
  import opened Interp
  import opened Assembler
  import opened EpilogAgrees
  import opened MultiLimb
  import U = Unwind

  // ---- Bits of a cut operand ----

  lemma {:induction false} ModBit(x: nat, n: nat, i: nat)
    ensures Bit(x % Pow2(n), i) == (i < n && Bit(x, i))
  {
    if n == 0 {
      ZeroBit(i);
      assert x % 1 == 0;
    } else {
      HalfOfMod(x, Pow2(n - 1));
      if i > 0 {
        ModBit(x / 2, n - 1, i - 1);
      }
    }
  }

  lemma HalfOfMod(x: nat, p: nat)
    requires p > 0
    ensures x % (2 * p) / 2 == x / 2 % p && x % (2 * p) % 2 == x % 2
  {
    var q, r := x / 2 / p, x / 2 % p;
    assert x / 2 == p * q + r && x == 2 * (x / 2) + x % 2;
    assert 2 * (p * q) == 2 * p * q;
    ModUnique(2 * p, q, 2 * r + x % 2, x);
  }

  lemma CutBit(x: nat, size: Size, i: nat)
    ensures Bit(Cut(x, size), i) == (i < 8 * size && Bit(x, i))
  {
    hide Pow2, Bit;
    ModulusIsPow2(size);
    ModBit(x, 8 * size, i);
  }

  // ---- OR, AND and XOR ----

  /** Every bit of the result of operation 1 is the or, of 4 the and, of 6 the inequality of
      the operands' bits. CF, OF and AF are clear, ZF says that the result is zero, SF is its
      top bit; DF is kept. */
  lemma LogicBits(f: Flags, op: byte, a: nat, b: nat, size: Size)
    requires op == 1 || op == 4 || op == 6
    ensures var r := DoAlu(f, op, a, b, size).0;
            r < Modulus(size) &&
            forall i :: 0 <= i < 8 * size ==>
              (Bit(r, i) <==> if op == 1 then Bit(a, i) || Bit(b, i) else if op == 4 then Bit(a, i) && Bit(b, i)
                              else Bit(a, i) != Bit(b, i))
    ensures var (r, g) := DoAlu(f, op, a, b, size);
            !g.cf && !g.of && !g.af && g.df == f.df && (g.zf <==> r == 0) && (g.sf <==> Bit(r, 8 * size - 1))
  {
    hide Bit, Or, And, Xor, Cut, SignSet, Parity;
    var all := if op == 1 then Or(a, b) else if op == 4 then And(a, b) else Xor(a, b);
    forall i | 0 <= i < 8 * size
      ensures Bit(Cut(all, size), i) <==> if op == 1 then Bit(a, i) || Bit(b, i) else if op == 4 then Bit(a, i) && Bit(b, i)
                                          else Bit(a, i) != Bit(b, i)
    {
      CutBit(all, size, i);
      OrBit(a, b, i);
      AndBit(a, b, i);
      XorBit(a, b, i);
    }
    CutOfCut(Cut(all, size), size);
    SignBit(Cut(all, size), size);
  }

  /** Clearing the low four bits rounds down to a multiple of sixteen. */
  lemma {:induction false} AndOnes(x: nat, n: nat)
    requires x < Pow2(n)
    ensures And(x, Pow2(n) - 1) == x
  {
    if n > 0 && x > 0 {
      assert (Pow2(n) - 1) / 2 == Pow2(n - 1) - 1 && (Pow2(n) - 1) % 2 == 1;
      AndOnes(x / 2, n - 1);
    }
  }

  lemma AndTwice(x: nat, m: nat)
    ensures And(x, 2 * m) == 2 * And(x / 2, m)
  {
  }

  lemma AndClearsLow(x: u64)
    ensures And(x, TWO64 - 0x10) == x - x % 0x10
  {
    hide And;
    var m := TWO64 / 0x10 - 1;
    AndTwice(x, 8 * m);
    AndTwice(x / 2, 4 * m);
    AndTwice(x / 4, 2 * m);
    AndTwice(x / 8, m);
    Pow2Values();
    Pow2Sum(60, 4);
    SixteenIs();
    hide Pow2;
    AndOnes(x / 16, 60);
  }

  lemma SixteenIs()
    ensures Pow2(4) == 16
  {
  }

  /** and rsp, -10h in machine code: rsp is rounded down to a multiple of sixteen. */
  lemma AndAlignsStack(mem: Memory, cpu: CpuState)
    requires Holds(mem, cpu.rip, [0x48, 0x83, 0xE4, 0xF0])
    ensures var s := Execute(mem, cpu, B64);
            s.outcome == Continue && s.mem == mem && s.cpu.Rsp() == cpu.Rsp() - cpu.Rsp() % 0x10 &&
            s.cpu.rip == Wrap64(cpu.rip + 4) && (forall r :: 0 <= r < 16 && r != RSP ==> s.cpu.gpr[r] == cpu.gpr[r]) &&
            (s.cpu.flags.zf <==> cpu.Rsp() < 0x10) && !s.cpu.flags.cf && !s.cpu.flags.of
  {
    hide Execute, Dispatch, Holds, Group1, DoAlu, ImmAt, U.ByteIs;
    AndBytes(mem, cpu.rip);
    ExecuteRex(mem, cpu);
    DispatchHead(mem, cpu, RexPrefix(0x48), 0x83);
    RspGroup1(mem, cpu, 0x83, 4, -16, cpu.rip + 2, cpu.rip + 4);
    AndResult(cpu.flags, cpu.Rsp());
  }

  lemma AndResult(f: Flags, a: u64)
    ensures var (r, g) := DoAlu(f, 4, a, Wrap64(-16), 8);
            r == a - a % 0x10 && (g.zf <==> a < 0x10) && !g.cf && !g.of
  {
    hide And, Parity;
    AndClearsLow(a);
  }

  lemma AndBytes(mem: Memory, pc: int)
    requires Holds(mem, pc, [0x48, 0x83, 0xE4, 0xF0])
    ensures pc in mem && mem[pc] == 0x48 && pc + 1 in mem && mem[pc + 1] == 0x83
    ensures U.ByteIs(mem, pc + 2, 0xC4 + 8 * 4) && ImmAt(mem, pc + 3, 0x83, -16, pc + 4)
  {
    var bs: seq<byte> := [0x48, 0x83, 0xE4, 0xF0];
    HoldsByte(mem, pc, bs, 0);
    HoldsByte(mem, pc, bs, 1);
    HoldsByte(mem, pc, bs, 2);
    HoldsByte(mem, pc, bs, 3);
  }

  // ---- AF, PF, ZF and SF of sums and differences ----

  lemma FourthBit(x: nat)
    ensures Bit(x, 4) <==> x / 0x10 % 2 == 1
  {
    assert x / 2 / 2 / 2 / 2 == x / 0x10;
    assert Bit(x, 4) == Bit(x / 2, 3) == Bit(x / 2 / 2, 2) == Bit(x / 2 / 2 / 2, 1) == Bit(x / 2 / 2 / 2 / 2, 0);
  }

  /** Cutting keeps everything below the eighth bit. */
  lemma CutKeepsLow(v: int, size: Size)
    ensures Cut(v, size) % 0x100 == v % 0x100 && Cut(v, size) / 0x10 % 2 == v / 0x10 % 2 && Cut(v, size) % 0x10 == v % 0x10
  {
    var m, h := Modulus(size), Modulus(size) / 0x100;
    assert m == 0x100 * h;
    hide Modulus;
    var q, r := v / m, v % m;
    var z := h * q;
    assert m * q == 0x100 * z;
    LowOfSum(z, r);
    assert v == 0x100 * z + r;
  }

  lemma LowOfSum(z: int, r: int)
    ensures (0x100 * z + r) % 0x100 == r % 0x100 && (0x100 * z + r) / 0x10 % 2 == r / 0x10 % 2 && (0x100 * z + r) % 0x10 == r % 0x10
  {
    ModUnique(0x100, z + r / 0x100, r % 0x100, 0x100 * z + r);
    ModUnique(0x10, 0x10 * z + r / 0x10, r % 0x10, 0x100 * z + r);
    var h := r / 0x10;
    assert (0x100 * z + r) / 0x10 == 0x10 * z + h;
    ModUnique(2, 8 * z + h / 2, h % 2, 0x10 * z + h);
  }

  /** AF is the carry out of the low four bits of a sum; ZF and SF speak of the result. */
  lemma SumHalfCarry(f: Flags, a: nat, b: nat, c: nat, size: Size)
    requires c <= 1
    ensures var (r, g) := Add(f, a, b, c, size);
            (g.af <==> a % 0x10 + b % 0x10 + c >= 0x10) && (g.zf <==> r == 0) && (g.sf <==> r >= Modulus(size) / 2)
  {
    hide Bit, Xor, Cut, Modulus, Add;
    var x, y := Cut(a, size), Cut(b, size);
    AddFlagsAre(f, a, b, c, size);
    SumFourth(f, x, y, c, size);
    LowFour(a, size);
    LowFour(b, size);
  }

  /** And the borrow into them of a difference. */
  lemma DifferenceHalfCarry(f: Flags, a: nat, b: nat, c: nat, size: Size)
    requires c <= 1
    ensures var (r, g) := Sub(f, a, b, c, size);
            (g.af <==> a % 0x10 < b % 0x10 + c) && (g.zf <==> r == 0) && (g.sf <==> r >= Modulus(size) / 2)
  {
    hide Bit, Xor, Cut, Modulus, Sub;
    var x, y := Cut(a, size), Cut(b, size);
    SubFlagsAre(f, a, b, c, size);
    DifferenceFourth(f, x, y, c, size);
    LowFour(a, size);
    LowFour(b, size);
  }

  lemma LowFour(v: int, size: Size)
    ensures Cut(v, size) % 0x10 == v % 0x10
  {
    hide Cut;
    CutKeepsLow(v, size);
  }

  lemma CutFourth(v: int, size: Size)
    ensures Cut(v, size) / 0x10 % 2 == v / 0x10 % 2
  {
    hide Cut;
    CutKeepsLow(v, size);
  }

  lemma SumFourth(f: Flags, x: nat, y: nat, c: nat, size: Size)
    requires c <= 1
    ensures Bit(Xor(Xor(x, y), Cut(x + y + c, size)), 4) <==> x % 0x10 + y % 0x10 + c >= 0x10
  {
    hide Bit, Xor, Cut;
    FourthOfXor(x, y, Cut(x + y + c, size));
    CutFourth(x + y + c, size);
    CarryInFourth(x / 0x10, x % 0x10, y / 0x10, y % 0x10, c);
    SameParity(x / 0x10 + y / 0x10, Cut(x + y + c, size) / 0x10, (x + y + c) / 0x10);
  }

  lemma DifferenceFourth(f: Flags, x: nat, y: nat, c: nat, size: Size)
    requires c <= 1
    ensures Bit(Xor(Xor(x, y), Cut(x - y - c, size)), 4) <==> x % 0x10 < y % 0x10 + c
  {
    hide Bit, Xor, Cut;
    FourthOfXor(x, y, Cut(x - y - c, size));
    CutFourth(x - y - c, size);
    CarryInFourth(x / 0x10, x % 0x10, y / 0x10, y % 0x10, c);
    SameParity(x / 0x10 + y / 0x10, Cut(x - y - c, size) / 0x10, (x - y - c) / 0x10);
  }

  lemma SameParity(a: int, b: int, c: int)
    requires b % 2 == c % 2
    ensures (a + b) % 2 == (a + c) % 2
  {
    ModUnique(2, (a + c) / 2 + (b - c) / 2, (a + c) % 2, a + b);
  }

  lemma AddFlagsAre(f: Flags, a: nat, b: nat, c: nat, size: Size)
    ensures var x, y := Cut(a, size), Cut(b, size); var (r, g) := Add(f, a, b, c, size);
            r == Cut(x + y + c, size) && g.af == Bit(Xor(Xor(x, y), r), 4) && g.zf == (r == 0) && g.sf == (r >= Modulus(size) / 2)
  {
    hide Bit, Xor, Parity, Modulus;
    CutOfCut(Cut(Cut(a, size) + Cut(b, size) + c, size), size);
    hide Cut;
  }

  lemma SubFlagsAre(f: Flags, a: nat, b: nat, c: nat, size: Size)
    ensures var x, y := Cut(a, size), Cut(b, size); var (r, g) := Sub(f, a, b, c, size);
            r == Cut(x - y - c, size) && g.af == Bit(Xor(Xor(x, y), r), 4) && g.zf == (r == 0) && g.sf == (r >= Modulus(size) / 2)
  {
    hide Bit, Xor, Parity, Modulus;
    CutOfCut(Cut(Cut(a, size) - Cut(b, size) - c, size), size);
    hide Cut;
  }

  lemma FourthOfXor(x: nat, y: nat, r: nat)
    ensures Bit(Xor(Xor(x, y), r), 4) <==> (x / 0x10 + y / 0x10 + r / 0x10) % 2 == 1
  {
    hide Bit, Xor;
    XorBit(x, y, 4);
    XorBit(Xor(x, y), r, 4);
    FourthBit(x);
    FourthBit(y);
    FourthBit(r);
  }

  /** x is 16 p + u and y is 16 q + w. */
  lemma CarryInFourth(p: int, u: int, q: int, w: int, c: int)
    requires 0 <= u < 0x10 && 0 <= w < 0x10 && 0 <= c <= 1
    ensures (p + q + (0x10 * p + u + (0x10 * q + w) + c) / 0x10) % 2 == if u + w + c >= 0x10 then 1 else 0
    ensures (p + q + (0x10 * p + u - (0x10 * q + w) - c) / 0x10) % 2 == if u < w + c then 1 else 0
  {
    var k, b := if u + w + c >= 0x10 then 1 else 0, if u < w + c then 1 else 0;
    ModUnique(0x10, p + q + k, u + w + c - 0x10 * k, 0x10 * p + u + (0x10 * q + w) + c);
    ModUnique(0x10, p - q - b, u - w - c + 0x10 * b, 0x10 * p + u - (0x10 * q + w) - c);
    ModUnique(2, p + q, k, p + q + (p + q + k));
    ModUnique(2, p - b, b, p + q + (p - q - b));
  }

  /** PF after any of the eight operations: an even number of ones among the low eight bits
      of the result that the flags speak of. */
  lemma ParityOfLowByte(f: Flags, res: nat, size: Size)
    ensures var g, r := SetSzp(f, res, size), res % 0x100;
            g.pf <==> (r % 2 + r / 2 % 2 + r / 4 % 2 + r / 8 % 2 + r / 16 % 2 + r / 32 % 2 + r / 64 % 2 + r / 128 % 2) % 2 == 0
  {
    var r := res % 0x100;
    CutKeepsLow(res, size);
    hide Cut, CountOnes, SignSet;
    Ones(r);
  }

  lemma Ones(r: nat)
    requires r < 0x100
    ensures CountOnes(r) == r % 2 + r / 2 % 2 + r / 4 % 2 + r / 8 % 2 + r / 16 % 2 + r / 32 % 2 + r / 64 % 2 + r / 128 % 2
  {
    hide CountOnes;
    var a, b, c := r / 2, r / 4, r / 8;
    var d, e, g, h := r / 16, r / 32, r / 64, r / 128;
    assert a / 2 == b && b / 2 == c && c / 2 == d && d / 2 == e && e / 2 == g && g / 2 == h && h / 2 == 0;
    OneMore(r);
    OneMore(a);
    OneMore(b);
    OneMore(c);
    OneMore(d);
    OneMore(e);
    OneMore(g);
    OneMore(h);
  }

  lemma OneMore(x: nat)
    ensures CountOnes(x) == x % 2 + CountOnes(x / 2) && CountOnes(0) == 0
  {
  }

  // ---- Conditional branches ----

  /** What the sixteen conditions ask of the flags; an odd one is the opposite of the even one
      before it. */
  lemma ConditionsAre(f: Flags, c: byte)
    requires c < 0x10
    ensures Cond(f, c) == match c / 2
      case 0 => f.of == (c == 0)
      case 1 => f.cf == (c == 2)
      case 2 => f.zf == (c == 4)
      case 3 => (f.cf || f.zf) == (c == 6)
      case 4 => f.sf == (c == 8)
      case 5 => f.pf == (c == 10)
      case 6 => (f.sf != f.of) == (c == 12)
      case _ => (f.zf || f.sf != f.of) == (c == 14)
  {
  }

  /** A short branch, 70 to 7F, and a near one, 0F 80 to 8F: to the end of the instruction,
      and by the distance from there if the condition holds. */
  lemma ShortBranch(mem: Memory, cpu: CpuState, cc: byte, rel: byte)
    requires cc < 0x10 && Holds(mem, cpu.rip, [0x70 + cc, rel])
    ensures Execute(mem, cpu, B64) ==
      Step(cpu.(rip := Wrap64(cpu.rip + 2 + if Cond(cpu.flags, cc) then SignExtend8(rel) else 0)), mem, Continue)
  {
    hide Execute, Dispatch, Holds, Cond, SignExtend8, Branch;
    HoldsByte(mem, cpu.rip, [0x70 + cc, rel], 0);
    HoldsByte(mem, cpu.rip, [0x70 + cc, rel], 1);
    ExecutePlain(mem, cpu);
    DispatchShort(mem, cpu, 0x70 + cc, cpu.rip + 1);
    SameCond(cpu.flags, 0x70 + cc, cc);
    ShortTaken(mem, cpu, Cond(cpu.flags, cc), cpu.rip + 1, rel);
  }

  lemma DispatchShort(mem: Memory, cpu: CpuState, opcode: byte, cur: int)
    requires 0x70 <= opcode <= 0x7F
    ensures Dispatch(mem, cpu, B64, NO_PREFIX, opcode, cur) == Branch(mem, cpu, B64, 1, Cond(cpu.flags, opcode), cur)
  {
    hide Branch, Cond;
  }

  lemma SameCond(f: Flags, c: byte, d: byte)
    requires c % 0x10 == d % 0x10
    ensures Cond(f, c) == Cond(f, d)
  {
  }

  lemma ShortTaken(mem: Memory, cpu: CpuState, taken: bool, cur: int, rel: byte)
    requires cur in mem && mem[cur] == rel
    ensures Branch(mem, cpu, B64, 1, taken, cur) ==
      Step(cpu.(rip := Wrap64(cur + 1 + if taken then SignExtend8(rel) else 0)), mem, Continue)
  {
    PowersOf256();
    hide SignExtend8;
    assert Bytes(mem, cur, 1) == [rel] && LeValue([rel]) == rel by {
      assert [rel][1..] == [];
    }
  }

  /** What a comparison of the i-th with the j-th number asks of them. */
  predicate Relation(cc: byte, x: int, y: int, s: int, t: int) {
    match cc
    case 2 => x < y
    case 3 => x >= y
    case 4 => x == y
    case 5 => x != y
    case 6 => x <= y
    case 7 => x > y
    case 12 => s < t
    case 13 => s >= t
    case 14 => s <= t
    case _ => s > t
  }

  /** CMP and the branch after it: taken exactly when the operands, unsigned or signed, are
      in the relation that the branch is named for. */
  lemma BranchAfterCompare(mem: Memory, cpu: CpuState, f: Flags, a: nat, b: nat, size: Size, cc: byte, rel: byte)
    requires cc in {2, 3, 4, 5, 6, 7, 12, 13, 14, 15}
    requires Holds(mem, cpu.rip, [0x70 + cc, rel]) && cpu.flags == DoAlu(f, 7, a, b, size).1
    ensures Execute(mem, cpu, B64).cpu.rip == Wrap64(
      cpu.rip + 2 +
      if Relation(cc, Cut(a, size), Cut(b, size), SignedOf(a, size), SignedOf(b, size)) then SignExtend8(rel) else 0)
  {
    hide Execute, Cond, DoAlu, Cut, SignedOf, Holds;
    ShortBranch(mem, cpu, cc, rel);
    CompareDecides(f, a, b, size);
  }
}
