/** Labels and fixups: the assembler object, and where its branches go. */
module Fixups {
  import opened Words
  import opened GuestMemory
  import opened CpuModel
  import opened Decoder
  import opened Interp
  import opened EpilogAgrees
  import opened Assembler

  datatype Fixup = Fixup(pos: nat, name: string)

  /** Four-byte windows inside the code, in order and apart. */
  predicate Apart(fixups: seq<Fixup>, length: int) {
    forall i :: 0 <= i < |fixups| ==>
      fixups[i].pos + 4 <= if i + 1 < |fixups| then fixups[i + 1].pos else length
  }

  /** The bytes of a rel32 that leads from the end of its window to target. */
  function RelBytes(pos: int, target: int): seq<byte> {
    LeBytes((target - (pos + 4)) % TWO32, 4)
  }

  function Patched(code: seq<byte>, pos: nat, target: int): (r: seq<byte>)
    requires pos + 4 <= |code|
    ensures |r| == |code|
  {
    code[..pos] + RelBytes(pos, target) + code[pos + 4..]
  }

  /** Every window filled in; None for a label that was never placed. */
  function PatchAll(code: seq<byte>, fixups: seq<Fixup>, labels: map<string, nat>): (r: Option<seq<byte>>)
    requires forall f :: f in fixups ==> f.pos + 4 <= |code|
    ensures r.Some? ==> |r.value| == |code|
    ensures r.Some? <==> forall f :: f in fixups ==> f.name in labels
    decreases |fixups|
  {
    if fixups == [] then Some(code)
    else
      var f := fixups[0];
      if f.name !in labels then None
      else PatchAll(Patched(code, f.pos, labels[f.name]), fixups[1..], labels)
  }

  predicate InWindow(fixups: seq<Fixup>, i: int) {
    exists f :: f in fixups && f.pos <= i < f.pos + 4
  }

  /** No byte outside the windows changes. */
  lemma {:induction false} OutsideUnchanged(code: seq<byte>, fixups: seq<Fixup>, labels: map<string, nat>, i: nat)
    requires forall f :: f in fixups ==> f.pos + 4 <= |code|
    requires PatchAll(code, fixups, labels).Some? && i < |code| && !InWindow(fixups, i)
    ensures PatchAll(code, fixups, labels).value[i] == code[i]
    decreases |fixups|
  {
    if fixups != [] {
      var f := fixups[0];
      assert f in fixups && !(f.pos <= i < f.pos + 4);
      var next := Patched(code, f.pos, labels[f.name]);
      assert next[i] == code[i];
      assert !InWindow(fixups[1..], i);
      OutsideUnchanged(next, fixups[1..], labels, i);
    }
  }

  /** Each window holds the displacement to its label. */
  lemma {:induction false} WindowResolves(code: seq<byte>, fixups: seq<Fixup>, labels: map<string, nat>, k: nat)
    requires Apart(fixups, |code|) && k < |fixups|
    requires forall f :: f in fixups ==> f.pos + 4 <= |code|
    requires PatchAll(code, fixups, labels).Some?
    ensures var f := fixups[k];
            f.name in labels &&
            PatchAll(code, fixups, labels).value[f.pos..f.pos + 4] == RelBytes(f.pos, labels[f.name])
    decreases |fixups|
  {
    if k == 0 {
      FirstWindow(code, fixups, labels);
    } else {
      var rest := fixups[1..];
      assert forall i :: 0 <= i < |rest| ==> rest[i] == fixups[i + 1];
      hide RelBytes, Patched;
      WindowResolves(Patched(code, fixups[0].pos, labels[fixups[0].name]), rest, labels, k - 1);
    }
  }

  lemma FirstWindow(code: seq<byte>, fixups: seq<Fixup>, labels: map<string, nat>)
    requires Apart(fixups, |code|) && fixups != []
    requires forall f :: f in fixups ==> f.pos + 4 <= |code|
    requires PatchAll(code, fixups, labels).Some?
    ensures var f := fixups[0];
            f.name in labels &&
            PatchAll(code, fixups, labels).value[f.pos..f.pos + 4] == RelBytes(f.pos, labels[f.name])
  {
    var f := fixups[0];
    var next, rest := Patched(code, f.pos, labels[f.name]), fixups[1..];
    var final := PatchAll(next, rest, labels).value;
    assert next[f.pos..f.pos + 4] == RelBytes(f.pos, labels[f.name]);
    hide Apart, RelBytes, PatchAll, Patched, InWindow;
    forall i | f.pos <= i < f.pos + 4
      ensures final[i] == next[i]
    {
      LaterWindows(fixups, |code|, i);
      OutsideUnchanged(next, rest, labels, i);
    }
    assert final[f.pos..f.pos + 4] == next[f.pos..f.pos + 4];
  }

  lemma {:induction false} Ordered(fixups: seq<Fixup>, length: int, i: nat, j: nat)
    requires Apart(fixups, length) && i < j < |fixups|
    ensures fixups[i].pos + 4 <= fixups[j].pos
  {
    if i + 1 < j {
      Ordered(fixups, length, i, j - 1);
      assert fixups[j - 1].pos + 4 <= fixups[j].pos;
    }
  }

  lemma LaterWindows(fixups: seq<Fixup>, length: int, i: int)
    requires Apart(fixups, length) && fixups != [] && fixups[0].pos <= i < fixups[0].pos + 4
    ensures !InWindow(fixups[1..], i)
  {
    forall j | 0 < j < |fixups|
      ensures fixups[j].pos > i
    {
      Ordered(fixups, length, 0, j);
    }
  }

  // ------------------------------------------------ instructions with fixups

  /** Fixup k belongs to an instruction that begins with the given bytes, right before the
      fixup's window and past the window before it. */
  predicate Emitted(code: seq<byte>, fixups: seq<Fixup>, k: nat, opcode: seq<byte>)
    requires k < |fixups|
  {
    var pos := fixups[k].pos;
    |opcode| <= pos <= |code| && code[pos - |opcode|..pos] == opcode &&
    (k > 0 ==> fixups[k - 1].pos + 4 <= pos - |opcode|)
  }

  const JMP: seq<byte> := [0xE9]
  const JE: seq<byte> := [0x0F, 0x84]

  /** The first bytes of a rip-relative lea. */
  function LeaOpcode(reg: RegNo): seq<byte> {
    [Rex(reg, RBX), 0x8D, 0x05 + 8 * (reg % 8)]
  }

  /** What is emitted later leaves an instruction as it was. */
  lemma EmittedStays(code: seq<byte>, fixups: seq<Fixup>, k: nat, opcode: seq<byte>, more: seq<byte>, later: seq<Fixup>)
    requires k < |fixups| && Emitted(code, fixups, k, opcode)
    ensures Emitted(code + more, fixups + later, k, opcode)
  {
  }

  /** An opcode lies outside all windows. */
  lemma OpcodeApart(code: seq<byte>, fixups: seq<Fixup>, k: nat, opcode: seq<byte>, i: int)
    requires Apart(fixups, |code|) && k < |fixups| && Emitted(code, fixups, k, opcode)
    requires fixups[k].pos - |opcode| <= i < fixups[k].pos
    ensures !InWindow(fixups, i)
  {
    forall j | 0 <= j < |fixups|
      ensures !(fixups[j].pos <= i < fixups[j].pos + 4)
    {
      if j > k {
        Ordered(fixups, |code|, k, j);
      } else if j < k - 1 {
        Ordered(fixups, |code|, j, k - 1);
      }
    }
  }

  /** So patching leaves it. */
  lemma OpcodeKept(code: seq<byte>, fixups: seq<Fixup>, labels: map<string, nat>, k: nat, opcode: seq<byte>)
    requires Apart(fixups, |code|) && k < |fixups| && Emitted(code, fixups, k, opcode)
    requires forall f :: f in fixups ==> f.pos + 4 <= |code|
    requires PatchAll(code, fixups, labels).Some?
    ensures PatchAll(code, fixups, labels).value[fixups[k].pos - |opcode|..fixups[k].pos] == opcode
  {
    hide PatchAll, Apart, InWindow;
    var pos, done := fixups[k].pos, PatchAll(code, fixups, labels).value;
    forall i | pos - |opcode| <= i < pos
      ensures done[i] == code[i]
    {
      OpcodeApart(code, fixups, k, opcode, i);
      OutsideUnchanged(code, fixups, labels, i);
    }
    assert done[pos - |opcode|..pos] == code[pos - |opcode|..pos];
  }

  /** The loaded code holds the instruction before its displacement. */
  lemma LoadedInstruction(mem: Memory, base: int, code: seq<byte>, fixups: seq<Fixup>, labels: map<string, nat>, k: nat,
                          opcode: seq<byte>)
    requires Apart(fixups, |code|) && k < |fixups| && Emitted(code, fixups, k, opcode)
    requires forall f :: f in fixups ==> f.pos + 4 <= |code|
    requires PatchAll(code, fixups, labels).Some? && Holds(mem, base, PatchAll(code, fixups, labels).value)
    ensures fixups[k].name in labels
    ensures Holds(mem, base + fixups[k].pos - |opcode|, opcode + RelBytes(fixups[k].pos, labels[fixups[k].name]))
  {
    hide Holds, Apart, RelBytes, PatchAll, InWindow;
    var pos, done := fixups[k].pos, PatchAll(code, fixups, labels).value;
    WindowResolves(code, fixups, labels, k);
    OpcodeKept(code, fixups, labels, k, opcode);
    assert fixups[k] in fixups;
    hide Emitted;
    HoldsSlice(mem, base, done, pos - |opcode|, pos + 4);
    Joined(done, pos - |opcode|, pos, pos + 4);
  }

  lemma Joined(s: seq<byte>, i: nat, j: nat, n: nat)
    requires i <= j <= n <= |s|
    ensures s[i..n] == s[i..j] + s[j..n]
  {
  }

  // ------------------------------------------------------------- the object

  class Asm {
    var code: seq<byte>
    var labels: map<string, nat>
    var fixups: seq<Fixup>

    ghost predicate Valid()
      reads this
    {
      && Apart(fixups, |code|)
      && (forall f :: f in fixups ==> f.pos + 4 <= |code|)
      && (forall l :: l in labels ==> labels[l] <= |code|)
    }

    constructor ()
      ensures Valid() && code == [] && labels == map[] && fixups == []
    {
      code, labels, fixups := [], map[], [];
    }

    method Emit(bs: seq<byte>)
      requires Valid()
      modifies this`code
      ensures Valid() && code == old(code) + bs
    {
      code := code + bs;
    }

    method Label(name: string)
      requires Valid()
      modifies this`labels
      ensures Valid() && labels == old(labels)[name := |code|]
    {
      labels := labels[name := |code|];
    }

    /** Four zero bytes to be filled in with the way to a label. */
    method Reference(name: string)
      requires Valid()
      modifies this`code, this`fixups
      ensures Valid()
      ensures code == old(code) + [0, 0, 0, 0]
      ensures fixups == old(fixups) + [Fixup(|old(code)|, name)]
    {
      fixups := fixups + [Fixup(|code|, name)];
      code := code + [0, 0, 0, 0];
    }

    method LeaRsp(reg: RegNo, disp: i32)
      requires Valid()
      modifies this`code
      ensures Valid() && code == old(code) + LeaRspBytes(reg, disp)
    {
      Emit(LeaRspBytes(reg, disp));
    }

    method MovAtRspReg(disp: i32, reg: RegNo)
      requires Valid()
      modifies this`code
      ensures Valid() && code == old(code) + MovStoreBytes(disp, reg)
    {
      Emit(MovStoreBytes(disp, reg));
    }

    method MovAtRspImm(disp: i32, imm: i32)
      requires Valid()
      modifies this`code
      ensures Valid() && code == old(code) + MovImmBytes(disp, imm)
    {
      Emit(MovImmBytes(disp, imm));
    }

    method MovRegAtRsp(reg: RegNo, disp: i32)
      requires Valid()
      modifies this`code
      ensures Valid() && code == old(code) + MovLoadBytes(reg, disp)
    {
      Emit(MovLoadBytes(reg, disp));
    }

    method Jmp(name: string)
      requires Valid()
      modifies this`code, this`fixups
      ensures Valid() && code == old(code) + JMP + [0, 0, 0, 0]
      ensures fixups == old(fixups) + [Fixup(|old(code)| + 1, name)]
      ensures Emitted(code, fixups, |fixups| - 1, JMP)
    {
      Emit(JMP);
      Reference(name);
    }

    method Je(name: string)
      requires Valid()
      modifies this`code, this`fixups
      ensures Valid() && code == old(code) + JE + [0, 0, 0, 0]
      ensures fixups == old(fixups) + [Fixup(|old(code)| + 2, name)]
      ensures Emitted(code, fixups, |fixups| - 1, JE)
    {
      Emit(JE);
      Reference(name);
    }

    method LeaLabel(reg: RegNo, name: string)
      requires Valid()
      modifies this`code, this`fixups
      ensures Valid() && code == old(code) + LeaOpcode(reg) + [0, 0, 0, 0]
      ensures fixups == old(fixups) + [Fixup(|old(code)| + 3, name)]
      ensures Emitted(code, fixups, |fixups| - 1, LeaOpcode(reg))
    {
      hide Rex;
      Emit(LeaOpcode(reg));
      Reference(name);
    }

    /** Patch every fixup in place; None if a label is missing. */
    method Finish() returns (r: Option<seq<byte>>)
      requires Valid()
      modifies this`code
      ensures r == PatchAll(old(code), fixups, labels)
      ensures r.Some? ==> code == r.value
    {
      assert fixups[0..] == fixups;
      for i := 0 to |fixups|
        invariant |code| == |old(code)| && forall f :: f in fixups ==> f.pos + 4 <= |code|
        invariant PatchAll(old(code), fixups, labels) == PatchAll(code, fixups[i..], labels)
      {
        var f := fixups[i];
        assert fixups[i..][1..] == fixups[i + 1..];
        if f.name !in labels {
          return None;
        }
        code := code[..f.pos] + RelBytes(f.pos, labels[f.name]) + code[f.pos + 4..];
      }
      return Some(code);
    }
  }

  // ------------------------------------------- running the finished branches

  lemma RelIsExact(pos: int, target: int)
    requires 0 <= pos && 0 <= target && pos + 4 < 0x8000_0000 && target < 0x8000_0000
    ensures SignExtend32((target - (pos + 4)) % TWO32) == target - (pos + 4)
  {
  }

  /** The rel32 at a window that has been filled in. */
  lemma RelFetched(mem: Memory, at: int, pos: int, target: int)
    requires 0 <= pos && 0 <= target && pos + 4 < 0x8000_0000 && target < 0x8000_0000
    requires Holds(mem, at, RelBytes(pos, target))
    ensures Mapped(mem, at, 4) && FetchUint(mem, at, 4) == Ok((target - (pos + 4)) % TWO32)
    ensures Fetch32(mem, at).Ok? && SignExtend32(Fetch32(mem, at).value) == target - (pos + 4)
  {
    LeRoundTrip32((target - (pos + 4)) % TWO32);
    RelIsExact(pos, target);
  }

  /** The finished code, loaded at base, holds each window's displacement. */
  lemma LoadedWindow(mem: Memory, base: int, code: seq<byte>, fixups: seq<Fixup>, labels: map<string, nat>, k: nat)
    requires Apart(fixups, |code|) && k < |fixups|
    requires forall f :: f in fixups ==> f.pos + 4 <= |code|
    requires PatchAll(code, fixups, labels).Some? && Holds(mem, base, PatchAll(code, fixups, labels).value)
    ensures fixups[k].name in labels
    ensures Holds(mem, base + fixups[k].pos, RelBytes(fixups[k].pos, labels[fixups[k].name]))
  {
    hide Holds, Apart, RelBytes;
    WindowResolves(code, fixups, labels, k);
    HoldsSlice(mem, base, PatchAll(code, fixups, labels).value, fixups[k].pos, fixups[k].pos + 4);
  }

  lemma DispatchBranch(mem: Memory, cpu: CpuState, cur: int)
    ensures Dispatch(mem, cpu, B64, NO_PREFIX, 0xE9, cur) == Branch(mem, cpu, B64, 4, true, cur)
    ensures Dispatch(mem, cpu, B64, NO_PREFIX, 0x0F, cur) == TwoByte(mem, cpu, B64, cur)
  {
    hide Branch, TwoByte;
  }

  /** A jmp with its displacement in place. */
  lemma JmpExecutes(mem: Memory, base: u64, cpu: CpuState, pos: nat, target: nat)
    requires pos + 4 < 0x8000_0000 && target < 0x8000_0000 && pos >= 1
    requires cpu.rip == base + pos - 1 && cpu.rip in mem && mem[cpu.rip] == 0xE9
    requires Holds(mem, base + pos, RelBytes(pos, target))
    ensures Execute(mem, cpu, B64) == Step(cpu.(rip := WrapAdd(base, target)), mem, Continue)
  {
    hide Execute, Dispatch, Holds;
    RelFetched(mem, base + pos, pos, target);
    ExecutePlain(mem, cpu);
    DispatchBranch(mem, cpu, cpu.rip + 1);
    PowersOf256();
  }

  /** A je with its displacement in place. */
  lemma JeExecutes(mem: Memory, base: u64, cpu: CpuState, pos: nat, target: nat)
    requires pos + 4 < 0x8000_0000 && target < 0x8000_0000 && pos >= 2
    requires cpu.rip == base + pos - 2 && cpu.rip in mem && mem[cpu.rip] == 0x0F
    requires cpu.rip + 1 in mem && mem[cpu.rip + 1] == 0x84
    requires Holds(mem, base + pos, RelBytes(pos, target))
    ensures Execute(mem, cpu, B64)
         == Step(cpu.(rip := WrapAdd(base, if cpu.flags.zf then target else pos + 4)), mem, Continue)
  {
    hide Execute, Dispatch, Holds;
    RelFetched(mem, base + pos, pos, target);
    ExecuteTwoByte(mem, cpu);
    DispatchBranch(mem, cpu, cpu.rip + 1);
    PowersOf256();
  }

  lemma ExecuteTwoByte(mem: Memory, cpu: CpuState)
    requires cpu.rip in mem && mem[cpu.rip] == 0x0F
    ensures Execute(mem, cpu, B64) == Dispatch(mem, cpu, B64, NO_PREFIX, 0x0F, cpu.rip + 1)
  {
    hide Dispatch;
    assert ReadPrefixes(mem, cpu.rip, B64, NO_PREFIX) == Ok((NO_PREFIX, cpu.rip));
  }

  /** A rip-relative lea with its displacement in place. */
  lemma LeaLabelExecutes(mem: Memory, base: u64, cpu: CpuState, reg: RegNo, pos: nat, target: nat)
    requires pos + 4 < 0x8000_0000 && target < 0x8000_0000 && pos >= 3
    requires cpu.rip == base + pos - 3
    requires Holds(mem, cpu.rip, [Rex(reg, RBX), 0x8D] + ([0x05 + 8 * (reg % 8)] + RelBytes(pos, target)))
    ensures Execute(mem, cpu, B64)
         == Step(cpu.WithGpr(reg, WrapAdd(base, target)).(rip := Wrap64(base + pos + 4)), mem, Continue)
  {
    hide Execute, Dispatch, Holds, Rex, ReadModrm, RelBytes, Fetch32, Lea;
    RexOpcode(mem, cpu, reg, 0x8D, [0x05 + 8 * (reg % 8)] + RelBytes(pos, target));
    RexIsPlain(reg);
    var p, cur := RexPrefix(Rex(reg, RBX)), cpu.rip + 2;
    HoldsPart(mem, cur, [0x05 + 8 * (reg % 8)], RelBytes(pos, target));
    HoldsByte(mem, cur, [0x05 + 8 * (reg % 8)], 0);
    RelFetched(mem, base + pos, pos, target);
    RipRelativeModrm(mem, cpu, p, reg, cur, target - (pos + 4));
    DispatchLea(mem, cpu, p, cur);
    LeaFinishes(mem, cpu, p, reg, cur, target - (pos + 4), base + target);
  }

  lemma LeaFinishes(mem: Memory, cpu: CpuState, p: Prefixes, reg: RegNo, cur: int, disp: int, addr: int)
    requires p.W() && ReadModrm(mem, cur, p, cpu, B64) == Ok(Modrm(reg, Mem(0, disp, true), cur + 5))
    requires addr == cur + 5 + disp
    ensures Lea(mem, cpu, B64, p, cur) == Step(cpu.WithGpr(reg, Wrap64(addr)).(rip := Wrap64(cur + 5)), mem, Continue)
  {
    hide ReadModrm;
    CutAll(Wrap64(addr));
  }

  lemma RipRelativeModrm(mem: Memory, cpu: CpuState, p: Prefixes, reg: RegNo, cur: int, disp: int)
    requires Plain(p, reg) && cur in mem && mem[cur] == 0x05 + 8 * (reg % 8)
    requires Fetch32(mem, cur + 1).Ok? && SignExtend32(Fetch32(mem, cur + 1).value) == disp
    ensures ReadModrm(mem, cur, p, cpu, B64) == Ok(Modrm(reg, Mem(0, disp, true), cur + 5))
  {
    hide Fetch32;
    assert mem[cur] / 64 == 0 && mem[cur] / 8 % 8 == reg % 8 && mem[cur] % 8 == 5;
    assert reg == reg % 8 + 8 * (reg / 8);
  }

  // ------------------------------------------------- the whole assembler run

  /** The finished code of an assembler, loaded at base below 2^31 bytes long. */
  ghost predicate Loaded(mem: Memory, base: u64, code: seq<byte>, fixups: seq<Fixup>, labels: map<string, nat>) {
    && Apart(fixups, |code|) && (forall f :: f in fixups ==> f.pos + 4 <= |code|)
    && (forall l :: l in labels ==> labels[l] <= |code|) && |code| < 0x8000_0000
    && PatchAll(code, fixups, labels).Some? && Holds(mem, base, PatchAll(code, fixups, labels).value)
  }

  /** A jmp of the finished code goes to its label, wherever the code is loaded. */
  lemma JmpReachesLabel(mem: Memory, base: u64, code: seq<byte>, fixups: seq<Fixup>, labels: map<string, nat>, k: nat, cpu: CpuState)
    requires Loaded(mem, base, code, fixups, labels) && k < |fixups| && Emitted(code, fixups, k, JMP)
    requires cpu.rip == base + fixups[k].pos - |JMP|
    ensures fixups[k].name in labels
    ensures Execute(mem, cpu, B64) == Step(cpu.(rip := WrapAdd(base, labels[fixups[k].name])), mem, Continue)
  {
    hide Execute, Holds, RelBytes, PatchAll, Apart;
    var pos := fixups[k].pos;
    LoadedInstruction(mem, base, code, fixups, labels, k, JMP);
    var rel := RelBytes(pos, labels[fixups[k].name]);
    HoldsPart(mem, cpu.rip, JMP, rel);
    HoldsByte(mem, cpu.rip, JMP, 0);
    assert fixups[k] in fixups;
    JmpExecutes(mem, base, cpu, pos, labels[fixups[k].name]);
  }

  /** A je of the finished code goes to its label if and only if ZF is set, and otherwise
      on to the next instruction. */
  lemma JeReachesLabel(mem: Memory, base: u64, code: seq<byte>, fixups: seq<Fixup>, labels: map<string, nat>, k: nat, cpu: CpuState)
    requires Loaded(mem, base, code, fixups, labels) && k < |fixups| && Emitted(code, fixups, k, JE)
    requires cpu.rip == base + fixups[k].pos - |JE|
    ensures fixups[k].name in labels
    ensures Execute(mem, cpu, B64) ==
      Step(cpu.(rip := WrapAdd(base, if cpu.flags.zf then labels[fixups[k].name] else fixups[k].pos + 4)), mem, Continue)
  {
    hide Execute, Holds, RelBytes, PatchAll, Apart;
    var pos := fixups[k].pos;
    LoadedInstruction(mem, base, code, fixups, labels, k, JE);
    var rel := RelBytes(pos, labels[fixups[k].name]);
    HoldsPart(mem, cpu.rip, JE, rel);
    HoldsByte(mem, cpu.rip, JE, 0);
    HoldsByte(mem, cpu.rip, JE, 1);
    assert fixups[k] in fixups;
    JeExecutes(mem, base, cpu, pos, labels[fixups[k].name]);
  }

  /** A rip-relative lea of the finished code yields its label's address. */
  lemma LeaReachesLabel(mem: Memory, base: u64, code: seq<byte>, fixups: seq<Fixup>, labels: map<string, nat>, k: nat, cpu: CpuState,
                        reg: RegNo)
    requires Loaded(mem, base, code, fixups, labels) && k < |fixups| && Emitted(code, fixups, k, LeaOpcode(reg))
    requires cpu.rip == base + fixups[k].pos - |LeaOpcode(reg)|
    ensures fixups[k].name in labels
    ensures Execute(mem, cpu, B64) ==
      Step(cpu.WithGpr(reg, WrapAdd(base, labels[fixups[k].name])).(rip := Wrap64(base + fixups[k].pos + 4)), mem, Continue)
  {
    hide Execute, Holds, RelBytes, PatchAll, Apart, Rex;
    var pos := fixups[k].pos;
    LoadedInstruction(mem, base, code, fixups, labels, k, LeaOpcode(reg));
    var rel := RelBytes(pos, labels[fixups[k].name]);
    assert LeaOpcode(reg) + rel == [Rex(reg, RBX), 0x8D] + ([0x05 + 8 * (reg % 8)] + rel);
    assert fixups[k] in fixups;
    LeaLabelExecutes(mem, base, cpu, reg, pos, labels[fixups[k].name]);
  }
}
