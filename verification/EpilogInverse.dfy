/** Unwinding from inside an epilog: at every instruction of an epilog that matches its
    prolog, simulating the rest gives the caller back, as unwinding by codes does from
    the body. */
module EpilogInverse {
  import opened Words
  import opened GuestMemory
  import opened CpuModel
  import opened Unwind
  import opened PrologRun
  import opened UnwindInverse

  predicate OnlyPushes(codes: seq<UnwindCode>) {
    forall i :: 0 <= i < |codes| ==> codes[i].op.PushNonvolatile? && codes[i].op.reg % 16 != RSP
  }

  /** The pops that undo a run of pushes, in code order. */
  function PopsFor(codes: seq<UnwindCode>): seq<EpiOp>
    requires OnlyPushes(codes)
  {
    if codes == [] then [] else [Pop(codes[0].op.reg)] + PopsFor(codes[1..])
  }

  /** What all allocations among the codes take. */
  function TotalAlloc(codes: seq<UnwindCode>): nat {
    if codes == [] then 0
    else (if codes[0].op.Alloc? then codes[0].op.size else 0) + TotalAlloc(codes[1..])
  }

  /** What the allocations took before the frame register was set. */
  function FrameAlloc(codes: seq<UnwindCode>): nat {
    if codes == [] then 0
    else if codes[0].op.SetFrameRegister? then TotalAlloc(codes[1..])
    else FrameAlloc(codes[1..])
  }

  /** How an epilog drops the allocation: not at all, by adding to rsp, or from the frame
      register. */
  datatype Drop = Bare | AddTotal | FromFrame

  /** A function's frame: allocations, saves and possibly a frame register, above the pushes.
      Code order, so the pushes ran first. */
  datatype Shape = Shape(upper: seq<UnwindCode>, pushes: seq<UnwindCode>, drop: Drop)

  function Codes(f: Shape): seq<UnwindCode> {
    f.upper + f.pushes
  }

  predicate WellFormed(f: Shape, info: UnwindInfo) {
    && OnlyPushes(f.pushes)
    && (forall i :: 0 <= i < |f.upper| ==> !f.upper[i].op.PushNonvolatile?)
    && (f.drop.Bare? ==> TotalAlloc(f.upper) == 0)
    && (f.drop.FromFrame? ==> SetsFrame(f.upper) && info.frameRegister.Some?)
  }

  function HeadFor(f: Shape, info: UnwindInfo): (ops: seq<EpiOp>)
    requires WellFormed(f, info)
    ensures |ops| <= 1 && forall op :: op in ops ==> !op.Pop?
  {
    match f.drop
    case Bare => []
    case AddTotal => [AddRsp(Wrap64(TotalAlloc(f.upper)))]
    case FromFrame => [LeaRsp(info.frameRegister.value, FrameAlloc(f.upper) - info.frameOffset)]
  }

  /** The epilog the ABI prescribes for such a frame ("x64 prolog and epilog"): at most one
      instruction that drops the allocation, then the pops. */
  function EpilogFor(f: Shape, info: UnwindInfo): seq<EpiOp>
    requires WellFormed(f, info)
  {
    HeadFor(f, info) + PopsFor(f.pushes)
  }

  // --------------------------------------------- epilog ops against codes

  lemma {:induction false} PopsAreCodes(codes: seq<UnwindCode>, frame: u64, mem: Memory, p: Progress)
    requires OnlyPushes(codes) && p.error == None
    ensures var q := ApplyCodes(codes, frame, mem, p);
            q.error == None ==> ApplyEpilog(PopsFor(codes), mem, p.cpu) == PopReturnAddress(q.cpu, mem)
  {
    if codes != [] {
      var ops := PopsFor(codes);
      assert ops[0] == Pop(codes[0].op.reg) && ops[1..] == PopsFor(codes[1..]);
      var q := ApplyOp(codes[0].op, frame, mem, p);
      if q.error == None {
        PopsAreCodes(codes[1..], frame, mem, q);
      }
    }
  }

  lemma {:induction false} SuffixSlots(upper: seq<UnwindCode>, lower: seq<UnwindCode>, info: UnwindInfo, e: CpuState, mem: Memory)
    requires HoldsAll(mem, Slots(upper + lower, info, e))
    ensures HoldsAll(mem, Slots(lower, info, e))
  {
    if upper == [] {
      assert upper + lower == lower;
    } else {
      assert (upper + lower)[1..] == upper[1..] + lower;
      SlotsSplit(upper + lower, info, e, mem);
      SuffixSlots(upper[1..], lower, info, e, mem);
    }
  }

  /** Adding up the allocations leads from rsp, or from the frame, to above the pushes. */
  lemma {:induction false} UpperDropped(upper: seq<UnwindCode>, pushes: seq<UnwindCode>, info: UnwindInfo, e: CpuState)
    requires Conforming(upper + pushes, info) && OnlyPushes(pushes)
    requires forall i :: 0 <= i < |upper| ==> !upper[i].op.PushNonvolatile?
    ensures WrapAdd(Exec(upper + pushes, info, e).Rsp(), TotalAlloc(upper)) == Exec(pushes, info, e).Rsp()
    ensures SetsFrame(upper + pushes) == SetsFrame(upper)
    ensures SetsFrame(upper) ==>
              WrapAdd(RspAtSet(upper + pushes, info, e), FrameAlloc(upper)) == Exec(pushes, info, e).Rsp()
    ensures SavedGprs(upper + pushes) == SavedGprs(upper) + SavedGprs(pushes)
    ensures SavedXmms(upper + pushes) == SavedXmms(upper) + SavedXmms(pushes)
  {
    hide WrapAdd, WrapSub;
    if upper == [] {
      assert upper + pushes == pushes;
      PushesSetNoFrame(pushes);
      WrapSelf(Exec(pushes, info, e).Rsp());
    } else {
      assert (upper + pushes)[1..] == upper[1..] + pushes;
      UpperDropped(upper[1..], pushes, info, e);
      if upper[0].op.Alloc? {
        WrapUp(Exec(upper[1..] + pushes, info, e).Rsp(), upper[0].op.size, TotalAlloc(upper[1..]));
      }
    }
  }

  lemma {:induction false} PushesSetNoFrame(codes: seq<UnwindCode>)
    requires OnlyPushes(codes)
    ensures !SetsFrame(codes) && SavedXmms(codes) == {}
  {
    if codes != [] {
      PushesSetNoFrame(codes[1..]);
    }
  }

  lemma {:induction false} PopsLength(codes: seq<UnwindCode>)
    requires OnlyPushes(codes)
    ensures |PopsFor(codes)| == |codes|
    ensures forall i :: 0 <= i < |codes| ==> PopsFor(codes)[i] == Pop(codes[i].op.reg)
  {
    if codes != [] {
      PopsLength(codes[1..]);
    }
  }

  lemma WrapSelf(x: u64)
    ensures WrapAdd(x, 0) == x
  {
  }

  lemma WrapUp(s: u64, n: int, m: int)
    ensures WrapAdd(WrapSub(s, n), n + m) == WrapAdd(s, m)
  {
    WrapShift(s, n, n + m);
  }

  lemma WrapShift(x: int, off: int, n: int)
    ensures WrapAdd(WrapSub(x, off), n) == WrapAdd(x, n - off)
  {
    var q := (x - off) / TWO64;
    assert WrapSub(x, off) == x - off - TWO64 * q;
    var y := x + n - off;
    ModUnique(TWO64, y / TWO64 - q, y % TWO64, y - TWO64 * q);
  }

  // ------------------------------------------------------- from inside it

  /** The registers after the first k operations of an epilog. */
  function AfterOps(ops: seq<EpiOp>, k: nat, mem: Memory, cpu: CpuState): (CpuState, Option<EmuError>)
    requires k <= |ops|
  {
    if k == 0 then (cpu, None)
    else
      var (c, err) := ApplyEpiOp(ops[0], mem, cpu);
      if err.Some? then (c, err) else AfterOps(ops[1..], k - 1, mem, c)
  }

  /** The frame's rsp, as the head of the epilog finds it. */
  ghost predicate RspFits(f: Shape, a: Activation, cpu: CpuState)
    requires WellFormed(f, a.info)
  {
    if f.drop.FromFrame?
    then SetsFrame(a.done) && FrameOf(a.info, cpu) == RspAtSet(a.done, a.info, a.entry.cpu)
    else cpu.Rsp() == AfterProlog(a).Rsp()
  }

  /** All but the held and the volatile registers are back. */
  ghost predicate Back(cpu: CpuState, e: CpuState, held: set<int>, vol: set<int>, volX: set<int>) {
    && (forall r :: 0 <= r < 16 && r != RSP && r !in vol && r !in held ==> cpu.gpr[r] == e.gpr[r])
    && (forall r :: 0 <= r < 16 && r !in volX ==> cpu.xmm[r] == e.xmm[r])
  }

  /** The pushes that are still to be popped at operation k. */
  function Remaining(f: Shape, info: UnwindInfo, k: nat): seq<UnwindCode>
    requires WellFormed(f, info) && k <= |EpilogFor(f, info)|
  {
    PopsLength(f.pushes);
    if k < |HeadFor(f, info)| then f.pushes else f.pushes[k - |HeadFor(f, info)|..]
  }

  /** The registers stand at operation k of the epilog. */
  ghost predicate AtOperation(f: Shape, a: Activation, k: nat, cpu: CpuState, vol: set<int>, volX: set<int>)
    requires WellFormed(f, a.info) && k <= |EpilogFor(f, a.info)|
  {
    var left := Remaining(f, a.info, k);
    && (if k < |HeadFor(f, a.info)| then RspFits(f, a, cpu) else cpu.Rsp() == Exec(left, a.info, a.entry.cpu).Rsp())
    && Back(cpu, a.entry.cpu, SavedGprs(left), vol, volX)
  }

  predicate Shaped(f: Shape, a: Activation) {
    WellFormed(f, a.info) && a.done == Codes(f) && Conforming(a.done, a.info)
  }

  lemma AfterPrologRsp(f: Shape, a: Activation)
    requires Shaped(f, a)
    ensures WrapAdd(AfterProlog(a).Rsp(), TotalAlloc(f.upper)) == Exec(f.pushes, a.info, a.entry.cpu).Rsp()
    ensures SetsFrame(a.done) == SetsFrame(f.upper)
    ensures SetsFrame(a.done) ==>
              WrapAdd(RspAtSet(a.done, a.info, a.entry.cpu), FrameAlloc(f.upper)) == Exec(f.pushes, a.info, a.entry.cpu).Rsp()
    ensures f.drop.Bare? ==> AfterProlog(a).Rsp() == Exec(f.pushes, a.info, a.entry.cpu).Rsp()
    ensures SavedGprs(a.done) == SavedGprs(f.upper) + SavedGprs(f.pushes)
    ensures SavedXmms(a.done) == SavedXmms(f.upper)
  {
    UpperDropped(f.upper, f.pushes, a.info, a.entry.cpu);
    PushesSetNoFrame(f.pushes);
    if f.drop.Bare? {
      WrapSelf(AfterProlog(a).Rsp());
    }
  }

  /** The head of the epilog leaves rsp above the allocation, wherever the body moved it. */
  lemma HeadDropsFrame(f: Shape, a: Activation, cpu: CpuState, mem: Memory)
    requires Shaped(f, a) && HeadFor(f, a.info) != [] && RspFits(f, a, cpu)
    ensures ApplyEpiOp(HeadFor(f, a.info)[0], mem, cpu) == (cpu.WithRsp(Exec(f.pushes, a.info, a.entry.cpu).Rsp()), None)
  {
    AfterPrologRsp(f, a);
    hide Exec, Conforming, WrapAdd, WrapSub, Wrap64, RspAtSet;
    if f.drop.FromFrame? {
      WrapShift(cpu.gpr[a.info.frameRegister.value % 16], a.info.frameOffset, FrameAlloc(f.upper));
    } else {
      WrapAddWrap(AfterProlog(a).Rsp(), TotalAlloc(f.upper));
    }
  }

  lemma {:induction false} OnlyPushesConform(codes: seq<UnwindCode>, j: nat)
    requires OnlyPushes(codes) && j <= |codes|
    ensures OnlyPushes(codes[j..])
  {
  }

  lemma {:induction false} SuffixOfSlots(codes: seq<UnwindCode>, j: nat, info: UnwindInfo, e: CpuState, mem: Memory)
    requires j <= |codes| && HoldsAll(mem, Slots(codes, info, e))
    ensures HoldsAll(mem, Slots(codes[j..], info, e))
  {
    assert codes == codes[..j] + codes[j..];
    SuffixSlots(codes[..j], codes[j..], info, e, mem);
  }

  lemma {:induction false} PushesKeep(codes: seq<UnwindCode>, info: UnwindInfo, e: CpuState)
    requires OnlyPushes(codes)
    ensures forall r :: 0 <= r < 16 && r != RSP ==> Exec(codes, info, e).gpr[r] == e.gpr[r]
  {
    if codes != [] {
      PushesKeep(codes[1..], info, e);
    }
  }

  /** One pop undoes one push. */
  lemma PopUndoes(codes: seq<UnwindCode>, info: UnwindInfo, e: CpuState, mem: Memory, cpu: CpuState, vol: set<int>, volX: set<int>)
    requires codes != [] && OnlyPushes(codes) && HoldsAll(mem, Slots(codes, info, e))
    requires cpu.Rsp() == Exec(codes, info, e).Rsp() && Back(cpu, e, SavedGprs(codes), vol, volX)
    ensures var (c, err) := ApplyEpiOp(Pop(codes[0].op.reg), mem, cpu);
            err == None && c.Rsp() == Exec(codes[1..], info, e).Rsp() && Back(c, e, SavedGprs(codes[1..]), vol, volX)
  {
    var op, s := codes[0].op, Exec(codes[1..], info, e);
    OnlyPushesConform(codes, 1);
    PushesKeep(codes[1..], info, e);
    SlotsSplit(codes, info, e, mem);
    var slot := Stores(op, info, s)[0];
    assert Holds(mem, slot.addr, slot.bytes);
    HoldsRead64(mem, slot.addr, s.gpr[op.reg % 16]);
    WrapInverse(s.Rsp(), 8);
    hide Exec, Slots, Stores, Holds, HoldsAll;
    var c := ApplyEpiOp(Pop(op.reg), mem, cpu).0;
    forall r | 0 <= r < 16 && r != RSP && r !in vol && r !in SavedGprs(codes[1..])
      ensures c.gpr[r] == e.gpr[r]
    {
      assert r != op.reg % 16 ==> r !in SavedGprs(codes);
    }
  }

  lemma OperationAt(f: Shape, info: UnwindInfo, k: nat)
    requires WellFormed(f, info) && k < |EpilogFor(f, info)|
    ensures var op, left := EpilogFor(f, info)[k], Remaining(f, info, k);
            if k < |HeadFor(f, info)| then op == HeadFor(f, info)[0] && Remaining(f, info, k + 1) == f.pushes
            else left != [] && left[0].op.PushNonvolatile? && op == Pop(left[0].op.reg) && Remaining(f, info, k + 1) == left[1..]
  {
    PopsLength(f.pushes);
    hide HeadFor, PopsFor, WellFormed;
    assert f.pushes[0..] == f.pushes;
  }

  /** Each operation of the epilog leads to the next. */
  lemma NextOperation(f: Shape, a: Activation, k: nat, cpu: CpuState, mem: Memory, vol: set<int>, volX: set<int>)
    requires Shaped(f, a) && k < |EpilogFor(f, a.info)| && AtOperation(f, a, k, cpu, vol, volX)
    requires HoldsAll(mem, SlotsOf(a))
    ensures var (c, err) := ApplyEpiOp(EpilogFor(f, a.info)[k], mem, cpu);
            err == None && AtOperation(f, a, k + 1, c, vol, volX)
  {
    OperationAt(f, a.info, k);
    var h := |HeadFor(f, a.info)|;
    if k < h {
      HeadDropsFrame(f, a, cpu, mem);
    } else {
      var left := Remaining(f, a.info, k);
      PushSlots(f, a, k, mem);
      PopUndoes(left, a.info, a.entry.cpu, mem, cpu, vol, volX);
    }
  }

  lemma PushSlots(f: Shape, a: Activation, k: nat, mem: Memory)
    requires Shaped(f, a) && k <= |EpilogFor(f, a.info)| && HoldsAll(mem, SlotsOf(a))
    ensures HoldsAll(mem, Slots(Remaining(f, a.info, k), a.info, a.entry.cpu)) && OnlyPushes(Remaining(f, a.info, k))
  {
    hide Slots, HoldsAll, Conforming, HeadFor;
    PopsLength(f.pushes);
    SuffixSlots(f.upper, f.pushes, a.info, a.entry.cpu, mem);
    if k >= |HeadFor(f, a.info)| {
      SuffixOfSlots(f.pushes, k - |HeadFor(f, a.info)|, a.info, a.entry.cpu, mem);
    }
  }

  /** From any operation the rest of the epilog returns to the caller. */
  lemma {:induction false} RestReturns(f: Shape, a: Activation, k: nat, cpu: CpuState, mem: Memory,
                                       callerRip: u64, vol: set<int>, volX: set<int>)
    requires Shaped(f, a) && k <= |EpilogFor(f, a.info)| && AtOperation(f, a, k, cpu, vol, volX)
    requires HoldsAll(mem, SlotsOf(a)) && Holds(mem, a.entry.cpu.Rsp(), LeBytes(callerRip, 8))
    ensures var (c, err) := ApplyEpilog(EpilogFor(f, a.info)[k..], mem, cpu);
            err == None && CallerRestored(c, a.entry.cpu, callerRip, WrapAdd(a.entry.cpu.Rsp(), 8), vol, volX)
    decreases |EpilogFor(f, a.info)| - k
  {
    hide WellFormed, Conforming, EpilogFor, HoldsAll, ApplyEpiOp, LeBytes, Holds, AtOperation, CallerRestored, ApplyEpilog;
    var ops := EpilogFor(f, a.info);
    if k == |ops| {
      LastOperation(f, a, cpu, vol, volX);
      ReturnsAt(mem, cpu, a.entry.cpu, callerRip, vol, volX);
      assert ops[k..] == [];
    } else {
      NextOperation(f, a, k, cpu, mem, vol, volX);
      EpilogStep(ops, k, mem, cpu);
      RestReturns(f, a, k + 1, ApplyEpiOp(ops[k], mem, cpu).0, mem, callerRip, vol, volX);
    }
  }

  lemma ReturnsAt(mem: Memory, cpu: CpuState, e: CpuState, callerRip: u64, vol: set<int>, volX: set<int>)
    requires cpu.Rsp() == e.Rsp() && Agrees(cpu, e, vol, volX) && Holds(mem, e.Rsp(), LeBytes(callerRip, 8))
    ensures var (c, err) := ApplyEpilog([], mem, cpu);
            err == None && CallerRestored(c, e, callerRip, WrapAdd(e.Rsp(), 8), vol, volX)
  {
    HoldsRead64(mem, e.Rsp(), callerRip);
    hide Read64, WrapAdd, Holds, LeBytes;
  }

  lemma EpilogStep(ops: seq<EpiOp>, k: nat, mem: Memory, cpu: CpuState)
    requires k < |ops| && ApplyEpiOp(ops[k], mem, cpu).1 == None
    ensures ApplyEpilog(ops[k..], mem, cpu) == ApplyEpilog(ops[k + 1..], mem, ApplyEpiOp(ops[k], mem, cpu).0)
  {
    hide ApplyEpiOp, PopReturnAddress;
    assert ops[k..][0] == ops[k] && ops[k..][1..] == ops[k + 1..];
  }

  lemma LastOperation(f: Shape, a: Activation, cpu: CpuState, vol: set<int>, volX: set<int>)
    requires Shaped(f, a) && AtOperation(f, a, |EpilogFor(f, a.info)|, cpu, vol, volX)
    ensures cpu.Rsp() == a.entry.cpu.Rsp() && Agrees(cpu, a.entry.cpu, vol, volX)
  {
    PopsLength(f.pushes);
    assert Remaining(f, a.info, |EpilogFor(f, a.info)|) == [];
  }

  /** The same from any registers that agree on what is not volatile. */
  lemma AgreeingOperation(f: Shape, a: Activation, k: nat, cpu: CpuState, now: CpuState, vol: set<int>, volX: set<int>)
    requires Shaped(f, a) && k <= |EpilogFor(f, a.info)| && AtOperation(f, a, k, cpu, vol, volX)
    requires now.Rsp() == cpu.Rsp() && Agrees(now, cpu, vol, volX) && FrameReg(a) !! vol
    ensures AtOperation(f, a, k, now, vol, volX)
  {
    AfterPrologRsp(f, a);
    ConformingKeepsRegisters(a.done, a.info, a.entry.cpu);
    hide EpilogFor, Exec, Remaining, Conforming, RspAtSet, WrapAdd, WrapSub;
    if f.drop.FromFrame? {
      assert a.info.frameRegister.value % 16 in FrameReg(a);
    }
  }

  // ----------------------------------------------- a chain of records

  /** The outermost activation of a run, whose frame the epilog drops. */
  function Root(acts: seq<Activation>): Activation
    requires acts != []
  {
    acts[|acts| - 1]
  }

  function AllGprs(acts: seq<Activation>): set<int> {
    if acts == [] then {} else AllGprs(acts[1..]) + SavedGprs(acts[0].done)
  }

  function AllXmms(acts: seq<Activation>): set<int> {
    if acts == [] then {} else AllXmms(acts[1..]) + SavedXmms(acts[0].done)
  }

  /** What chained records saved, and what the outermost saved by moves, holds its old value
      again when the epilog starts. */
  ghost predicate MovesRestored(f: Shape, acts: seq<Activation>)
    requires acts != []
  {
    var now, start, inner := acts[0].exit.cpu, Root(acts).entry.cpu, acts[..|acts| - 1];
    && (forall r :: 0 <= r < 16 && r in AllGprs(inner) + SavedGprs(f.upper) && r !in SavedGprs(f.pushes) ==>
          now.gpr[r] == start.gpr[r])
    && (forall r :: 0 <= r < 16 && r in AllXmms(inner) + SavedXmms(f.upper) ==> now.xmm[r] == start.xmm[r])
  }

  /** No body may change the register, and no chained record set it anew. */
  predicate KeepsFrameRegister(acts: seq<Activation>, fr: int, vol: set<int>) {
    fr !in FreeGprs(acts, vol) && forall k :: 0 <= k < |acts| - 1 ==> fr !in FrameReg(acts[k])
  }

  /** An epilog that goes by the frame register needs it unchanged, as bodies leave it, and
      any other needs rsp where the outermost prolog left it. */
  ghost predicate RspReady(f: Shape, acts: seq<Activation>, vol: set<int>)
    requires acts != [] && WellFormed(f, Root(acts).info)
  {
    if f.drop.FromFrame?
    then KeepsFrameRegister(acts, Root(acts).info.frameRegister.value % 16, vol)
    else acts[0].exit.cpu.Rsp() == AfterProlog(Root(acts)).Rsp()
  }

  /** The run has come to the epilog of its outermost record. */
  ghost predicate AtEpilog(f: Shape, acts: seq<Activation>, vol: set<int>) {
    acts != [] && Shaped(f, Root(acts)) && MovesRestored(f, acts) && RspReady(f, acts, vol)
  }

  lemma {:induction false} RootStarts(acts: seq<Activation>, start: Machine, slots: seq<Slot>, vol: set<int>, volX: set<int>)
    requires acts != [] && ValidRun(acts, start, slots, vol, volX)
    ensures Root(acts).entry == start
  {
    if |acts| > 1 {
      RootStarts(acts[1..], start, slots, vol, volX);
    }
  }

  /** What no record saved and is not volatile never changes. */
  lemma {:induction false} UnsavedKept(acts: seq<Activation>, start: Machine, slots: seq<Slot>, vol: set<int>, volX: set<int>)
    requires ValidRun(acts, start, slots, vol, volX)
    ensures FreeGprs(acts, vol) <= vol + AllGprs(acts) && FreeXmms(acts, volX) <= volX + AllXmms(acts)
    ensures Agrees(EntryOf(acts, start).cpu, start.cpu, vol + AllGprs(acts), volX + AllXmms(acts))
  {
    if acts != [] {
      var a := acts[0];
      UnsavedKept(acts[1..], start, slots, vol, volX);
      ConformingKeepsRegisters(a.done, a.info, a.entry.cpu);
      hide Conforming, Exec, SavedGprs, SavedXmms, RspAtSet;
      forall r | 0 <= r < 16 && r != RSP && r !in vol + AllGprs(acts)
        ensures a.exit.cpu.gpr[r] == start.cpu.gpr[r]
      {
        assert r !in FrameReg(a) && r !in FreeGprs(acts, vol);
      }
    }
  }

  lemma {:induction false} AllOfRoot(acts: seq<Activation>)
    requires acts != []
    ensures AllGprs(acts) == AllGprs(acts[..|acts| - 1]) + SavedGprs(Root(acts).done)
    ensures AllXmms(acts) == AllXmms(acts[..|acts| - 1]) + SavedXmms(Root(acts).done)
  {
    hide SavedGprs, SavedXmms;
    var n := |acts| - 1;
    if n == 0 {
      assert acts[1..] == [] && acts[..n] == [];
    } else {
      AllOfRoot(acts[1..]);
      assert acts[..n][1..] == acts[1..][..n - 1];
    }
  }

  /** A register so kept still leads to the frame that the outermost record set it from. */
  lemma {:induction false} RootFrameHeld(acts: seq<Activation>, start: Machine, slots: seq<Slot>, vol: set<int>, volX: set<int>)
    requires acts != [] && ValidRun(acts, start, slots, vol, volX)
    requires SetsFrame(Root(acts).done) && Root(acts).info.frameRegister.Some?
    requires KeepsFrameRegister(acts, Root(acts).info.frameRegister.value % 16, vol)
    ensures Root(acts).info.frameRegister.value % 16 != RSP
    ensures FrameOf(Root(acts).info, acts[0].exit.cpu) == RspAtSet(Root(acts).done, Root(acts).info, Root(acts).entry.cpu)
  {
    var a, fr := acts[0], Root(acts).info.frameRegister.value % 16;
    ConformingKeepsRegisters(a.done, a.info, a.entry.cpu);
    hide Conforming, Exec, RspAtSet, WrapSub;
    if |acts| > 1 {
      assert Root(acts[1..]) == Root(acts) && fr !in FrameReg(a);
      assert forall k :: 0 <= k < |acts[1..]| - 1 ==> acts[1..][k] == acts[k + 1];
      RootFrameHeld(acts[1..], start, slots, vol, volX);
    }
  }

  /** The body's end is the first operation of the epilog. */
  lemma ExitIsReady(f: Shape, acts: seq<Activation>, start: Machine, slots: seq<Slot>, vol: set<int>, volX: set<int>)
    requires AtEpilog(f, acts, vol) && ValidRun(acts, start, slots, vol, volX)
    ensures AtOperation(f, Root(acts), 0, acts[0].exit.cpu, vol, volX)
  {
    var a := Root(acts);
    BodyIsBack(f, acts, start, slots, vol, volX);
    AfterPrologRsp(f, a);
    if f.drop.FromFrame? {
      RootFrameHeld(acts, start, slots, vol, volX);
    }
    assert f.pushes[0..] == f.pushes;
    PopsLength(f.pushes);
    hide ValidRun, Exec, Conforming, SetsFrame, Back, MovesRestored, RspAtSet;
  }

  /** When the epilog starts, every register the pushes do not hold is back. */
  lemma BodyIsBack(f: Shape, acts: seq<Activation>, start: Machine, slots: seq<Slot>, vol: set<int>, volX: set<int>)
    requires AtEpilog(f, acts, vol) && ValidRun(acts, start, slots, vol, volX)
    ensures Back(acts[0].exit.cpu, Root(acts).entry.cpu, SavedGprs(f.pushes), vol, volX)
  {
    RootStarts(acts, start, slots, vol, volX);
    UnsavedKept(acts, start, slots, vol, volX);
    AllOfRoot(acts);
    AfterPrologRsp(f, Root(acts));
    hide ValidRun, Conforming, Exec, SavedGprs, SavedXmms, AllGprs, AllXmms, RspAtSet;
  }

  lemma {:induction false} AfterIsAt(f: Shape, a: Activation, k: nat, j: nat, cpu: CpuState, mem: Memory, vol: set<int>, volX: set<int>)
    requires Shaped(f, a) && k + j <= |EpilogFor(f, a.info)| && AtOperation(f, a, k, cpu, vol, volX)
    requires HoldsAll(mem, SlotsOf(a))
    ensures var (c, err) := AfterOps(EpilogFor(f, a.info)[k..], j, mem, cpu);
            err == None && AtOperation(f, a, k + j, c, vol, volX)
    decreases j
  {
    hide WellFormed, Conforming, EpilogFor, HoldsAll, ApplyEpiOp, AtOperation;
    var ops := EpilogFor(f, a.info);
    if j > 0 {
      NextOperation(f, a, k, cpu, mem, vol, volX);
      AfterIsAt(f, a, k + 1, j - 1, ApplyEpiOp(ops[k], mem, cpu).0, mem, vol, volX);
      assert ops[k..][0] == ops[k] && ops[k..][1..] == ops[k + 1..];
    }
  }

  // ------------------------------------------------------------ the theorems

  /** The slots of a called run and its return address, intact at the end of the body. */
  lemma ReturnIsHeld(acts: seq<Activation>, start: Machine, callerRip: u64, callerRsp: u64, vol: set<int>, volX: set<int>)
    requires acts != [] && Entered(Called, start, callerRip, callerRsp)
    requires ValidRun(acts, start, CallSlots(Called, start.cpu, callerRip, callerRsp), vol, volX)
    ensures Root(acts).entry == start && HoldsAll(acts[0].exit.mem, SlotsOf(Root(acts)))
    ensures Holds(acts[0].exit.mem, start.cpu.Rsp(), LeBytes(callerRip, 8))
    ensures callerRsp == WrapAdd(start.cpu.Rsp(), 8)
  {
    hide ValidRun, SlotsOf, LeBytes, WrapAdd;
    var slots := CallSlots(Called, start.cpu, callerRip, callerRsp);
    RootStarts(acts, start, slots, vol, volX);
    RunHolds(acts, start, slots, vol, volX, |acts| - 1);
    assert Holds(acts[0].exit.mem, slots[0].addr, slots[0].bytes);
  }

  /** A whole epilog, from the end of the body. */
  lemma EpilogUndoesFrame(f: Shape, acts: seq<Activation>, start: Machine, callerRip: u64, callerRsp: u64, vol: set<int>, volX: set<int>)
    requires AtEpilog(f, acts, vol) && Entered(Called, start, callerRip, callerRsp)
    requires ValidRun(acts, start, CallSlots(Called, start.cpu, callerRip, callerRsp), vol, volX)
    ensures var (c, err) := ApplyEpilog(EpilogFor(f, Root(acts).info), acts[0].exit.mem, acts[0].exit.cpu);
            err == None && CallerRestored(c, start.cpu, callerRip, callerRsp, vol, volX)
  {
    var a, slots := Root(acts), CallSlots(Called, start.cpu, callerRip, callerRsp);
    ReturnIsHeld(acts, start, callerRip, callerRsp, vol, volX);
    ExitIsReady(f, acts, start, slots, vol, volX);
    assert EpilogFor(f, a.info)[0..] == EpilogFor(f, a.info);
    hide ValidRun, AtOperation, EpilogFor, ApplyEpilog, CallerRestored, MovesRestored, RspReady;
    RestReturns(f, a, 0, acts[0].exit.cpu, acts[0].exit.mem, callerRip, vol, volX);
  }

  /** Unwinding from operation k of an epilog, from any registers that stand there and any
      memory in which the slots of the run are intact. */
  lemma UnwindFromEpilogAt(f: Shape, a: Activation, k: nat, now: CpuState, mem: Memory, callerRip: u64,
                           vol: set<int>, volX: set<int>,
                           table: seq<UnwindEntry>, imageBase: u64, entry: UnwindEntry, handlerType: HandlerType)
    requires Shaped(f, a) && k <= |EpilogFor(f, a.info)| && AtOperation(f, a, k, now, vol, volX)
    requires HoldsAll(mem, SlotsOf(a)) && Holds(mem, a.entry.cpu.Rsp(), LeBytes(callerRip, 8))
    requires 0 <= now.rip - imageBase < TWO32 && Lookup(table, now.rip - imageBase) == Some(entry)
    requires ScanEpilog(entry, imageBase, mem, now.rip) == Epilog(EpilogFor(f, a.info)[k..])
    ensures var (c, r) := UnwindTyped(table, imageBase, now, mem, handlerType);
            r.Ok? && r.value.isLeafOrEpilog &&
            CallerRestored(c, a.entry.cpu, callerRip, WrapAdd(a.entry.cpu.Rsp(), 8), vol, volX)
  {
    hide WellFormed, Conforming, EpilogFor, HoldsAll, Holds, LeBytes, AtOperation, CallerRestored, ApplyEpilog, ScanEpilog,
      UnwindTyped, Lookup;
    RestReturns(f, a, k, now, mem, callerRip, vol, volX);
    UnwindsBySimulation(table, imageBase, entry, handlerType, now, mem, EpilogFor(f, a.info)[k..]);
  }

  /** The registers now are those after the first k operations of the epilog. */
  ghost predicate Played(f: Shape, acts: seq<Activation>, k: nat, now: CpuState)
    requires acts != [] && WellFormed(f, Root(acts).info)
  {
    k <= |EpilogFor(f, Root(acts).info)| &&
    now == AfterOps(EpilogFor(f, Root(acts).info), k, acts[0].exit.mem, acts[0].exit.cpu).0.(rip := now.rip)
  }

  /** At every operation of the epilog, over any chain of records, virtual unwinding restores
      the caller: rip, rsp and every register that is not volatile. */
  lemma UnwindFromEpilog(f: Shape, acts: seq<Activation>, start: Machine, callerRip: u64, callerRsp: u64,
                         vol: set<int>, volX: set<int>, k: nat, now: CpuState,
                         table: seq<UnwindEntry>, imageBase: u64, entry: UnwindEntry, handlerType: HandlerType)
    requires AtEpilog(f, acts, vol) && Entered(Called, start, callerRip, callerRsp)
    requires ValidRun(acts, start, CallSlots(Called, start.cpu, callerRip, callerRsp), vol, volX)
    requires Played(f, acts, k, now)
    requires 0 <= now.rip - imageBase < TWO32 && Lookup(table, now.rip - imageBase) == Some(entry)
    requires ScanEpilog(entry, imageBase, acts[0].exit.mem, now.rip) == Epilog(EpilogFor(f, Root(acts).info)[k..])
    ensures var (c, r) := UnwindTyped(table, imageBase, now, acts[0].exit.mem, handlerType);
            r.Ok? && r.value.isLeafOrEpilog && CallerRestored(c, start.cpu, callerRip, callerRsp, vol, volX)
  {
    hide ValidRun, EpilogFor, AfterOps, ScanEpilog, UnwindTyped, Lookup, CallerRestored, AtOperation, WellFormed, Conforming,
      Holds, HoldsAll, LeBytes, CallSlots, MovesRestored, RspReady, WrapAdd;
    var a, slots := Root(acts), CallSlots(Called, start.cpu, callerRip, callerRsp);
    ReturnIsHeld(acts, start, callerRip, callerRsp, vol, volX);
    ExitIsReady(f, acts, start, slots, vol, volX);
    AfterAllIsAt(f, a, k, acts[0].exit, now, vol, volX);
    UnwindFromEpilogAt(f, a, k, now, acts[0].exit.mem, callerRip, vol, volX, table, imageBase, entry, handlerType);
  }

  /** From the body's end, k operations lead to operation k. */
  lemma AfterAllIsAt(f: Shape, a: Activation, k: nat, exit: Machine, now: CpuState, vol: set<int>, volX: set<int>)
    requires Shaped(f, a) && AtOperation(f, a, 0, exit.cpu, vol, volX) && HoldsAll(exit.mem, SlotsOf(a))
    requires k <= |EpilogFor(f, a.info)|
    requires now == AfterOps(EpilogFor(f, a.info), k, exit.mem, exit.cpu).0.(rip := now.rip)
    ensures AtOperation(f, a, k, now, vol, volX)
  {
    hide EpilogFor, AfterOps, AtOperation, WellFormed, Conforming, HoldsAll;
    assert EpilogFor(f, a.info)[0..] == EpilogFor(f, a.info);
    AfterIsAt(f, a, 0, k, exit.cpu, exit.mem, vol, volX);
    RipDoesNotMatter(f, a, k, AfterOps(EpilogFor(f, a.info), k, exit.mem, exit.cpu).0, now, vol, volX);
  }

  lemma RipDoesNotMatter(f: Shape, a: Activation, k: nat, c: CpuState, now: CpuState, vol: set<int>, volX: set<int>)
    requires Shaped(f, a) && k <= |EpilogFor(f, a.info)| && AtOperation(f, a, k, c, vol, volX)
    requires now.gpr == c.gpr && now.xmm == c.xmm
    ensures AtOperation(f, a, k, now, vol, volX)
  {
    hide WellFormed, Conforming, EpilogFor, Exec, Remaining;
  }

  lemma UnwindsBySimulation(table: seq<UnwindEntry>, imageBase: u64, entry: UnwindEntry, handlerType: HandlerType,
                            cpu: CpuState, mem: Memory, ops: seq<EpiOp>)
    requires 0 <= cpu.rip - imageBase < TWO32 && Lookup(table, cpu.rip - imageBase) == Some(entry)
    requires ScanEpilog(entry, imageBase, mem, cpu.rip) == Epilog(ops)
    requires ApplyEpilog(ops, mem, cpu).1 == None
    ensures var c := ApplyEpilog(ops, mem, cpu).0;
            UnwindTyped(table, imageBase, cpu, mem, handlerType) == (c, Ok(Leaf(c)))
  {
    hide ScanEpilog, ApplyEpilog, Lookup;
  }
}
