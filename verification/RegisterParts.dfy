/** Registers by part, prefixes, and operand sizes: what an encoding selects. */
module RegisterParts {
  import opened Words
  import opened GuestMemory
  import opened CpuModel
  import opened BitOps
  import opened Alu
  import opened Decoder
  import opened Interp
  import opened Assembler
  import opened LogicOps
  import MultiLimb

  // ---- Joining bits ----

  lemma {:induction false} JoinBits(a: nat, b: nat, n: nat, k: nat)
    requires b < Pow2(n)
    ensures Bit(a * Pow2(n) + b, k) == if k < n then Bit(b, k) else Bit(a, k - n)
  {
    if n == 0 {
      assert a * Pow2(n) + b == a;
    } else {
      var x, p := a * Pow2(n) + b, Pow2(n - 1);
      assert a * (2 * p) == 2 * (a * p);
      assert x % 2 == b % 2 && x / 2 == a * p + b / 2;
      if k > 0 {
        JoinBits(a, b / 2, n - 1, k - 1);
      }
    }
  }

  lemma {:induction false} DivBit(x: nat, n: nat, k: nat)
    ensures x / Pow2(n) >= 0 && Bit(x / Pow2(n), k) == Bit(x, k + n)
  {
    if n == 0 {
      assert x / 1 == x;
    } else {
      var p := Pow2(n - 1);
      HalfOfDiv(x, p);
      DivBit(x / 2, n - 1, k);
    }
  }

  lemma HalfOfDiv(x: nat, p: nat)
    requires p > 0
    ensures x / (2 * p) == x / 2 / p
  {
    var q, r := x / 2 / p, x / 2 % p;
    assert x / 2 == p * q + r && x == 2 * (x / 2) + x % 2;
    assert 2 * (p * q) == 2 * p * q;
    ModUnique(2 * p, q, 2 * r + x % 2, x);
  }

  // ---- General registers ----

  /** Without a REX prefix byte registers 4 to 7 are the second bytes of the first four. */
  predicate High(index: byte, size: Size, hasRex: bool) {
    size == 1 && !hasRex && (index == 4 || index == 5 || index == 6 || index == 7)
  }

  function Whole(index: byte, size: Size, hasRex: bool): (r: byte)
    ensures r < 16
  {
    if High(index, size, hasRex) then index - 4 else index % 16
  }

  /** Reading takes the low bits of the register, or its second byte. */
  lemma ReadsBits(cpu: CpuState, index: byte, size: Size, hasRex: bool, k: nat)
    ensures Bit(ReadGpr(cpu, index, size, hasRex), k) <==>
      k < 8 * size && Bit(cpu.gpr[Whole(index, size, hasRex)], if High(index, size, hasRex) then k + 8 else k)
  {
    var x := cpu.gpr[Whole(index, size, hasRex)];
    hide Bit, Cut;
    if High(index, size, hasRex) {
      ByteIs(x / 0x100);
      CutBit(x / 0x100, 1, k);
      EightBits();
      DivBit(x, 8, k);
    } else {
      CutBit(x, size, k);
    }
    hide Pow2;
  }

  lemma ByteIs(x: nat)
    ensures Cut(x, 1) == x % 0x100
  {
  }

  lemma EightBits()
    ensures Pow2(8) == 0x100
  {
    MultiLimb.Pow2Values();
  }

  /** Writing a byte or a word replaces those bits and keeps the rest of the register; writing
      a doubleword clears the upper half. */
  lemma WritesBits(cpu: CpuState, index: byte, size: Size, hasRex: bool, v: nat, k: nat)
    requires k < 64
    ensures var was, now := cpu.gpr[Whole(index, size, hasRex)], WriteGpr(cpu, index, size, hasRex, v).gpr[Whole(index, size, hasRex)];
            var from := if High(index, size, hasRex) then 8 else 0;
            Bit(now, k) <==>
              if from <= k < from + 8 * size then Bit(v, k - from) else size < 4 && Bit(was, k)
  {
    var was := cpu.gpr[Whole(index, size, hasRex)];
    hide Bit, Cut;
    if High(index, size, hasRex) {
      JoinHigh(was, v, k);
    } else if size == 1 {
      JoinByte(was, v, k);
    } else if size == 2 {
      JoinWord(was, v, k);
    } else {
      CutBit(v, size, k);
    }
  }

  lemma JoinByte(was: nat, v: nat, k: nat)
    ensures Bit(was / 0x100 * 0x100 + v % 0x100, k) == if k < 8 then Bit(v, k) else Bit(was, k)
  {
    hide Bit, Pow2;
    MultiLimb.Pow2Values();
    JoinBits(was / 0x100, v % 0x100, 8, k);
    ModBit(v, 8, k);
    if k >= 8 {
      DivBit(was, 8, k - 8);
    }
  }

  lemma JoinWord(was: nat, v: nat, k: nat)
    ensures Bit(was / 0x1_0000 * 0x1_0000 + v % 0x1_0000, k) == if k < 16 then Bit(v, k) else Bit(was, k)
  {
    hide Bit, Pow2;
    MultiLimb.Pow2Values();
    JoinBits(was / 0x1_0000, v % 0x1_0000, 16, k);
    ModBit(v, 16, k);
    if k >= 16 {
      DivBit(was, 16, k - 16);
    }
  }

  lemma JoinHigh(was: nat, v: nat, k: nat)
    ensures Bit(was / 0x1_0000 * 0x1_0000 + v % 0x100 * 0x100 + was % 0x100, k) ==
      if 8 <= k < 16 then Bit(v, k - 8) else Bit(was, k)
  {
    hide Bit, Pow2;
    MultiLimb.Pow2Values();
    var low := v % 0x100 * 0x100 + was % 0x100;
    JoinBits(was / 0x1_0000, low, 16, k);
    JoinBits(v % 0x100, was % 0x100, 8, k);
    ModBit(was, 8, k);
    if 8 <= k < 16 {
      ModBit(v, 8, k - 8);
    } else if k >= 16 {
      DivBit(was, 16, k - 16);
    }
  }

  /** Only that register changes. */
  lemma OthersKeep(cpu: CpuState, index: byte, size: Size, hasRex: bool, v: nat, r: int)
    requires 0 <= r < 16 && r != Whole(index, size, hasRex)
    ensures WriteGpr(cpu, index, size, hasRex, v).gpr[r] == cpu.gpr[r]
    ensures WriteGpr(cpu, index, size, hasRex, v) == cpu.(gpr := WriteGpr(cpu, index, size, hasRex, v).gpr)
  {
  }

  // ---- Prefixes ----

  predicate Legacy(b: byte) {
    b in [0x66, 0x67, 0xF0, 0xF2, 0xF3, 0x26, 0x2E, 0x36, 0x3E, 0x64, 0x65]
  }

  /** The last of two values in a list, zero if there is neither. */
  function LastOf(ps: seq<byte>, a: byte, b: byte): byte {
    if ps == [] then 0
    else if ps[|ps| - 1] == a || ps[|ps| - 1] == b then ps[|ps| - 1]
    else LastOf(ps[..|ps| - 1], a, b)
  }

  lemma {:induction false} LastOfFirst(x: byte, ps: seq<byte>, a: byte, b: byte)
    requires a != 0 && b != 0
    ensures LastOf([x] + ps, a, b) ==
      if LastOf(ps, a, b) != 0 then LastOf(ps, a, b) else if x == a || x == b then x else 0
  {
    if ps == [] {
      assert [x] + ps == [x] && [x][..0] == [];
    } else {
      var n := |ps| - 1;
      assert ([x] + ps)[|ps|] == ps[n] && ([x] + ps)[..|ps|] == [x] + ps[..n];
      LastOfFirst(x, ps[..n], a, b);
    }
  }

  /** A run of legacy prefixes: 66 and F0 count wherever they stand, the last of F2 and F3 and
      the last of 64 and 65 win, and 67 and the other segments mean nothing. */
  function With(p: Prefixes, ps: seq<byte>): Prefixes {
    p.(p66 := p.p66 || 0x66 in ps, lock := p.lock || 0xF0 in ps,
       rep := if LastOf(ps, 0xF2, 0xF3) != 0 then LastOf(ps, 0xF2, 0xF3) else p.rep,
       seg := if LastOf(ps, 0x64, 0x65) != 0 then LastOf(ps, 0x64, 0x65) else p.seg)
  }

  lemma {:induction false} PrefixesRead(mem: Memory, cur: int, bits: Bits, p: Prefixes, ps: seq<byte>, next: byte)
    requires Holds(mem, cur, ps + [next]) && !Legacy(next)
    requires forall k :: 0 <= k < |ps| ==> Legacy(ps[k])
    ensures ReadPrefixes(mem, cur, bits, p) ==
      if 0x40 <= next <= 0x4F && bits.B64? then Ok((With(p, ps).(rex := next, hasRex := true), cur + |ps| + 1))
      else Ok((With(p, ps), cur + |ps|))
    decreases |ps|
  {
    hide Holds;
    HoldsByte(mem, cur, ps + [next], 0);
    if ps == [] {
      assert With(p, ps) == p;
    } else {
      var b, rest := ps[0], ps[1..];
      assert ps + [next] == [b] + (rest + [next]) && ps == [b] + rest;
      HoldsPart(mem, cur, [b], rest + [next]);
      assert Legacy(ps[0]) && forall k :: 0 <= k < |rest| ==> Legacy(rest[k]) by {
        assert forall k :: 0 <= k < |rest| ==> rest[k] == ps[k + 1];
      }
      var q := With(p, [b]);
      FirstPrefix(mem, cur, bits, p, b);
      PrefixesRead(mem, cur + 1, bits, q, rest, next);
      WithFirst(p, b, rest);
    }
  }

  lemma FirstPrefix(mem: Memory, cur: int, bits: Bits, p: Prefixes, b: byte)
    requires cur in mem && mem[cur] == b && Legacy(b)
    ensures ReadPrefixes(mem, cur, bits, p) == ReadPrefixes(mem, cur + 1, bits, With(p, [b]))
  {
    LastOfOne(b, 0xF2, 0xF3);
    LastOfOne(b, 0x64, 0x65);
    hide LastOf;
  }

  lemma LastOfOne(x: byte, a: byte, b: byte)
    ensures LastOf([x], a, b) == if x == a || x == b then x else 0
  {
    assert [x][..0] == [];
  }

  lemma WithFirst(p: Prefixes, b: byte, rest: seq<byte>)
    ensures With(With(p, [b]), rest) == With(p, [b] + rest)
  {
    LastOfFirst(b, rest, 0xF2, 0xF3);
    LastOfFirst(b, rest, 0x64, 0x65);
    LastOfFirst(b, [], 0xF2, 0xF3);
    LastOfFirst(b, [], 0x64, 0x65);
    assert [b] + [] == [b];
  }

  /** REX.W makes an operand eight bytes, in 64-bit mode, 66 two, and otherwise it has four. */
  lemma OperandSizes(bits: Bits, p: Prefixes)
    ensures OpSize(bits, p) == if bits.B64? && p.rex / 8 % 2 == 1 then 8 else if p.p66 then 2 else 4
  {
  }

  // ---- Moves and the arithmetic group ----

  /** 88 and 8A move bytes, 89 and 8B operands of the size encoded; to memory or a register
      from the register that ModRM names, and back. */
  lemma MovesAre(mem: Memory, cpu: CpuState, bits: Bits, p: Prefixes, opcode: byte, cur: int, m: Modrm)
    requires opcode in [0x88, 0x89, 0x8A, 0x8B] && ReadModrm(mem, cur, p, cpu, bits) == Ok(m)
    ensures var size := if opcode % 2 == 0 then 1 else OpSize(bits, p);
            var s := Dispatch(mem, cpu, bits, p, opcode, cur);
            var moved := ReadGpr(cpu, m.reg, size, p.hasRex);
            match m.rm
            case Reg(i) =>
              s == Step((if opcode < 0x8A then WriteGpr(cpu, i, size, p.hasRex, moved)
                         else WriteGpr(cpu, m.reg, size, p.hasRex, ReadGpr(cpu, i, size, p.hasRex))).(rip := AddrMask(bits, m.next)),
                        mem, Continue)
            case Mem(_, _, _) =>
              if opcode < 0x8A then
                match Write(mem, RmAddr(m.rm, m.next, bits), LeBytes(moved, size))
                case Err(e) => s == Step(cpu, mem, Failed(e))
                case Ok(after) => s == Step(cpu.(rip := AddrMask(bits, m.next)), after, Continue)
              else
                match ReadUint(mem, RmAddr(m.rm, m.next, bits), size)
                case Err(e) => s == Step(cpu, mem, Failed(e))
                case Ok(v) => s == Step(WriteGpr(cpu, m.reg, size, p.hasRex, v).(rip := AddrMask(bits, m.next)), mem, Continue)
  {
    hide ReadModrm, ReadUint, Write, LeBytes, ReadGpr, WriteGpr, OpSize, RmAddr;
    PowersOf256();
  }
}
