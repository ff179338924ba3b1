/** The decoding context: instruction bytes come from a 16-byte prefetch buffer when it
    covers them and from memory otherwise. Either way they are the bytes in memory. */
module Fetch {
  import opened Words
  import opened GuestMemory
  import opened CpuModel
  import opened Decoder

  const IBUF_LEN: int := 16

  class Ctx {
    const bits: Bits
    const base: int
    const ibuf: seq<byte>
    const ibufN: int
    var cur: int
    var pfx: Prefixes
    var modrm: Modrm

    ghost predicate Valid(mem: Memory)
      reads this
    {
      && |ibuf| == IBUF_LEN && (ibufN == 0 || ibufN == IBUF_LEN) && base <= cur
      && (ibufN == IBUF_LEN ==> forall i :: base <= i < base + IBUF_LEN ==> i in mem && mem[i] == ibuf[i - base])
    }

    constructor (mem: Memory, rip: u64, bits: Bits)
      ensures Valid(mem) && cur == rip && pfx == NO_PREFIX && this.bits == bits
    {
      this.bits := bits;
      base, cur := rip, rip;
      pfx, modrm := NO_PREFIX, Modrm(0, Reg(0), rip);
      if Mapped(mem, rip, IBUF_LEN) {
        ibuf, ibufN := Bytes(mem, rip, IBUF_LEN), IBUF_LEN;
      } else {
        ibuf, ibufN := seq(IBUF_LEN, _ => 0), 0;
      }
    }

    /** k bytes at the cursor, if the buffer holds them all. */
    method Take(ghost mem: Memory, k: nat) returns (r: Option<seq<byte>>)
      requires Valid(mem) && k > 0
      modifies this`cur
      ensures Valid(mem)
      ensures r.None? ==> cur == old(cur)
      ensures r.Some? ==> cur == old(cur) + k && Mapped(mem, old(cur), k) && r.value == Bytes(mem, old(cur), k)
    {
      var off := cur - base;
      if off < (if ibufN < k - 1 then 0 else ibufN - (k - 1)) {
        r := Some(ibuf[off..off + k]);
        cur := cur + k;
        assert r.value == Bytes(mem, old(cur), k);
      } else {
        r := None;
      }
    }

    method U8(mem: Memory) returns (r: Result<byte>)
      requires Valid(mem)
      modifies this`cur
      ensures Valid(mem) && r == Read8(mem, old(cur))
      ensures cur == if r.Ok? then old(cur) + 1 else old(cur)
    {
      var t := Take(mem, 1);
      if t.Some? {
        assert t.value[0] == mem[old(cur)];
        return Ok(t.value[0]);
      }
      r := Read8(mem, cur);
      if r.Ok? {
        cur := cur + 1;
      }
    }

    /** A little-endian operand: from the buffer in one piece, or byte by byte. */
    method Uint(mem: Memory, k: nat) returns (r: Result<nat>)
      requires Valid(mem) && k > 0
      modifies this`cur
      ensures Valid(mem) && r == FetchUint(mem, old(cur), k)
      ensures r.Ok? ==> cur == old(cur) + k
    {
      var t := Take(mem, k);
      if t.Some? {
        return Ok(LeValue(t.value));
      }
      var v: seq<byte> := [];
      ghost var start := cur;
      for i := 0 to k
        invariant Valid(mem) && cur == start + i
        invariant Mapped(mem, start, i) && v == Bytes(mem, start, i)
        invariant FirstUnmapped(mem, start, k) == FirstUnmapped(mem, cur, k - i)
      {
        var b := U8(mem);
        if b.Err? {
          return Err(b.error);
        }
        v := v + [b.value];
      }
      return Ok(LeValue(v));
    }

    method ReadPrefixBytes(mem: Memory) returns (error: Option<EmuError>)
      requires Valid(mem)
      modifies this`cur, this`pfx
      ensures Valid(mem)
      ensures ReadPrefixes(mem, old(cur), bits, old(pfx)) == if error.Some? then Err(error.value) else Ok((pfx, cur))
    {
      ghost var goal := ReadPrefixes(mem, cur, bits, pfx);
      while true
        invariant Valid(mem) && goal == ReadPrefixes(mem, cur, bits, pfx)
        decreases Above(mem, cur)
      {
        ghost var at := cur;
        var next := U8(mem);
        if next.Err? {
          return Some(next.error);
        }
        AboveShrinks(mem, at);
        var b := next.value;
        if b == 0x66 {
          pfx := pfx.(p66 := true);
        } else if b == 0xF0 {
          pfx := pfx.(lock := true);
        } else if b == 0xF2 || b == 0xF3 {
          pfx := pfx.(rep := b);
        } else if b == 0x64 || b == 0x65 {
          pfx := pfx.(seg := b);
        } else if b == 0x67 || b == 0x2E || b == 0x36 || b == 0x3E || b == 0x26 {
        } else if 0x40 <= b <= 0x4F && bits == B64 {
          pfx := pfx.(rex := b, hasRex := true);
          return None;
        } else {
          cur := cur - 1;
          return None;
        }
      }
    }

    method ReadDisplacement(mem: Memory, md: byte) returns (r: Result<int>)
      requires Valid(mem)
      modifies this`cur
      ensures Valid(mem)
      ensures ReadDisp(mem, old(cur), md) == if r.Ok? then Ok((r.value, cur)) else Err(r.error)
    {
      if md == 0 {
        return Ok(0);
      } else if md == 1 {
        var d := U8(mem);
        return if d.Ok? then Ok(SignExtend8(d.value)) else Err(d.error);
      } else {
        PowersOf256();
        var d := Uint(mem, 4);
        return if d.Ok? then Ok(SignExtend32(d.value)) else Err(d.error);
      }
    }

    /** ModRM, SIB and displacement; the operand ends up in modrm. */
    method ReadModrmBytes(mem: Memory, cpu: CpuState) returns (error: Option<EmuError>)
      requires Valid(mem)
      modifies this`cur, this`modrm
      ensures Valid(mem)
      ensures ReadModrm(mem, old(cur), pfx, cpu, bits) == if error.Some? then Err(error.value) else Ok(modrm)
      ensures error.None? ==> modrm.next == cur
    {
      hide Read8, ReadDisp, SibIndex, SegBase;
      var first := U8(mem);
      if first.Err? {
        return Some(first.error);
      }
      var md, reg, rm := first.value / 64, first.value / 8 % 8 + 8 * pfx.R(), first.value % 8;
      if md == 3 {
        modrm := Modrm(reg, Reg(rm + 8 * pfx.B()), cur);
        return None;
      }
      var address: u64, dispMod, ripRel := 0, md, false;
      if rm == 4 {
        var second := U8(mem);
        if second.Err? {
          return Some(second.error);
        }
        var sib := second.value;
        address := SibIndex(cpu, pfx, sib);
        if sib % 8 == 5 && md == 0 {
          dispMod := 2;
        } else {
          address := WrapAdd(address, cpu.gpr[sib % 8 + 8 * pfx.B()]);
        }
      } else if rm == 5 && md == 0 {
        dispMod, ripRel := 2, bits == B64;
      } else {
        address := cpu.gpr[rm + 8 * pfx.B()];
      }
      var disp := ReadDisplacement(mem, dispMod);
      if disp.Err? {
        return Some(disp.error);
      }
      modrm := Modrm(reg, Mem(WrapAdd(address, SegBase(cpu, bits, pfx.seg)), disp.value, ripRel), cur);
      return None;
    }
  }
}
