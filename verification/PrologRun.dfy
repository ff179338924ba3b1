/** What a conforming x64 prolog does to the machine, and the proof that unwinding by
    codes undoes however much of it has run. Pushes, allocations and saves come in any
    order that leaves the frame where the saves found it, and a frame register is set
    before the saves relative to it: the order that the x64 ABI prescribes ("x64 prolog and
    epilog") is one of them. */
module PrologRun {
  import opened Words
  import opened GuestMemory
  import opened CpuModel
  import opened Unwind

  // ------------------------------------------------------ running a prolog

  /** The registers after one prolog instruction. */
  function Exec1(op: UnwindOp, info: UnwindInfo, cpu: CpuState): CpuState {
    match op
    case PushNonvolatile(_) => cpu.WithRsp(WrapSub(cpu.Rsp(), 8))
    case Alloc(size) => cpu.WithRsp(WrapSub(cpu.Rsp(), size))
    case SetFrameRegister =>
      if info.frameRegister.Some?
      then cpu.WithGpr(info.frameRegister.value, WrapAdd(cpu.Rsp(), info.frameOffset))
      else cpu
    case _ => cpu
  }

  /** The codes list the prolog's instructions last to first. */
  function Exec(done: seq<UnwindCode>, info: UnwindInfo, entry: CpuState): CpuState {
    if done == [] then entry else Exec1(done[0].op, info, Exec(done[1..], info, entry))
  }

  datatype Slot = Slot(addr: u64, bytes: seq<byte>)

  /** What one prolog instruction stores, given the registers it runs with. */
  function Stores(op: UnwindOp, info: UnwindInfo, cpu: CpuState): seq<Slot> {
    match op
    case PushNonvolatile(reg) => [Slot(WrapSub(cpu.Rsp(), 8), LeBytes(cpu.gpr[reg % 16], 8))]
    case SaveNonvolatile(reg, offset) =>
      [Slot(WrapAdd(FrameOf(info, cpu), offset), LeBytes(cpu.gpr[reg % 16], 8))]
    case SaveXmm128(reg, offset) =>
      [Slot(WrapAdd(FrameOf(info, cpu), offset), LeBytes(cpu.xmm[reg % 16], 16))]
    case _ => []
  }

  /** Everything the executed part of a prolog has stored, oldest first. */
  function Slots(done: seq<UnwindCode>, info: UnwindInfo, entry: CpuState): seq<Slot> {
    if done == [] then []
    else Slots(done[1..], info, entry) + Stores(done[0].op, info, Exec(done[1..], info, entry))
  }

  ghost predicate HoldsAll(mem: Memory, slots: seq<Slot>) {
    forall i :: 0 <= i < |slots| ==> Holds(mem, slots[i].addr, slots[i].bytes)
  }

  // --------------------------------------------------- conforming prologs

  predicate SetsFrame(done: seq<UnwindCode>) {
    done != [] && (done[0].op.SetFrameRegister? || SetsFrame(done[1..]))
  }

  predicate IsSave(op: UnwindOp) {
    op.SaveNonvolatile? || op.SaveXmm128?
  }

  predicate HasSaves(done: seq<UnwindCode>) {
    done != [] && (IsSave(done[0].op) || HasSaves(done[1..]))
  }

  /** The record's frame is counted from rsp itself. */
  predicate ByRsp(info: UnwindInfo) {
    info.frameRegister.None? || info.frameRegister.value % 16 == RSP
  }

  /** The executed part of a prolog, last instruction first. */
  predicate Conforming(done: seq<UnwindCode>, info: UnwindInfo) {
    done == [] ||
    (Conforming(done[1..], info) &&
     match done[0].op
     case PushNonvolatile(reg) => Saveable(reg, done[1..], info) && MayMoveRsp(done[1..], info)
     case Alloc(_) => MayMoveRsp(done[1..], info)
     case SetFrameRegister => !ByRsp(info) && !SetsFrame(done[1..]) && !HasSaves(done[1..])
     case SaveNonvolatile(reg, _) => Saveable(reg, done[1..], info)
     case SaveXmm128(_, _) => true
     case EpilogCode(_) => true
     case PushMachineFrame(_) => false)
  }

  /** A frame register is saved before it is set. */
  predicate Saveable(reg: byte, before: seq<UnwindCode>, info: UnwindInfo) {
    reg % 16 != RSP &&
    (SetsFrame(before) && info.frameRegister.Some? ==> reg % 16 != info.frameRegister.value % 16)
  }

  /** Saves relative to rsp come after everything that moves it. */
  predicate MayMoveRsp(before: seq<UnwindCode>, info: UnwindInfo) {
    ByRsp(info) ==> !HasSaves(before)
  }

  function SavedGpr1(op: UnwindOp): set<int> {
    match op
    case PushNonvolatile(reg) => {reg % 16}
    case SaveNonvolatile(reg, _) => {reg % 16}
    case _ => {}
  }

  function SavedXmm1(op: UnwindOp): set<int> {
    if op.SaveXmm128? then {op.reg % 16} else {}
  }

  function SavedGprs(done: seq<UnwindCode>): set<int> {
    if done == [] then {} else SavedGprs(done[1..]) + SavedGpr1(done[0].op)
  }

  function SavedXmms(done: seq<UnwindCode>): set<int> {
    if done == [] then {} else SavedXmms(done[1..]) + SavedXmm1(done[0].op)
  }

  // ------------------------------------------------- undoing one record

  /** p is u with the registers gs, xs as they were in e, and, if rsp counts, with its rsp. */
  ghost predicate Undone(gs: set<int>, xs: set<int>, e: CpuState, u: CpuState, rspCounts: bool, p: Progress) {
    && p.error == None && p.cpu.rip == u.rip
    && (rspCounts ==> p.cpu.Rsp() == e.Rsp())
    && (forall r :: 0 <= r < 16 && r != RSP ==> p.cpu.gpr[r] == if r in gs then e.gpr[r] else u.gpr[r])
    && (forall r :: 0 <= r < 16 ==> p.cpu.xmm[r] == if r in xs then e.xmm[r] else u.xmm[r])
  }

  /** Undoing the instructions goes by where rsp is: up to the one that set a frame register,
      they pushed or they saved relative to rsp. Without such an instruction it depends on
      what is undone next. */
  predicate GoesByRsp(done: seq<UnwindCode>, info: UnwindInfo, next: bool) {
    if done == [] then next
    else match done[0].op
      case PushNonvolatile(_) => true
      case SetFrameRegister => false
      case SaveNonvolatile(_, _) => ByRsp(info) || GoesByRsp(done[1..], info, next)
      case SaveXmm128(_, _) => ByRsp(info) || GoesByRsp(done[1..], info, next)
      case _ => GoesByRsp(done[1..], info, next)
  }

  /** frame is the one that the saves were relative to, and where rsp was when the frame
      register was set. */
  ghost predicate FrameFits(done: seq<UnwindCode>, info: UnwindInfo, e: CpuState, frame: u64) {
    done == [] ||
    (FrameFits(done[1..], info, e, frame) &&
     (IsSave(done[0].op) ==> frame == FrameOf(info, Exec(done[1..], info, e))) &&
     (done[0].op.SetFrameRegister? ==> frame == Exec(done[1..], info, e).Rsp()))
  }

  /** The rsp that a frame register was set from. */
  function RspAtSet(done: seq<UnwindCode>, info: UnwindInfo, e: CpuState): u64
    requires SetsFrame(done)
  {
    if done[0].op.SetFrameRegister? then Exec(done[1..], info, e).Rsp() else RspAtSet(done[1..], info, e)
  }

  /** A conforming prolog changes rsp and, once it sets one, the frame register, which then
      leads back to the rsp it was set from. */
  lemma {:induction false} ConformingKeepsRegisters(done: seq<UnwindCode>, info: UnwindInfo, e: CpuState)
    requires Conforming(done, info)
    ensures SetsFrame(done) ==> !ByRsp(info) && FrameOf(info, Exec(done, info, e)) == RspAtSet(done, info, e)
    ensures forall r :: 0 <= r < 16 && r != RSP && (SetsFrame(done) ==> r != info.frameRegister.value % 16) ==>
              Exec(done, info, e).gpr[r] == e.gpr[r]
    ensures Exec(done, info, e).xmm == e.xmm
  {
    if done != [] {
      ConformingKeepsRegisters(done[1..], info, e);
      if done[0].op.SetFrameRegister? {
        WrapInverse(Exec(done[1..], info, e).Rsp(), info.frameOffset);
      }
      hide WrapAdd, WrapSub;
    }
  }

  /** The frame as the record defines it after the prolog is the one that its saves were
      relative to, wherever rsp went since if it is held by a register. */
  lemma {:induction false} FrameAfterFits(done: seq<UnwindCode>, info: UnwindInfo, e: CpuState, frame: u64)
    requires Conforming(done, info)
    requires SetsFrame(done) || HasSaves(done) ==> frame == FrameOf(info, Exec(done, info, e))
    ensures FrameFits(done, info, e, frame)
  {
    if done != [] {
      ConformingKeepsRegisters(done, info, e);
      ConformingKeepsRegisters(done[1..], info, e);
      hide WrapAdd, WrapSub;
      FrameAfterFits(done[1..], info, e, frame);
    }
  }

  lemma {:induction false} SavesGoByRsp(done: seq<UnwindCode>, info: UnwindInfo, next: bool)
    requires Conforming(done, info) && HasSaves(done) && ByRsp(info)
    ensures GoesByRsp(done, info, next)
  {
    if !IsSave(done[0].op) {
      SavesGoByRsp(done[1..], info, next);
    }
  }

  lemma SlotsSplit(done: seq<UnwindCode>, info: UnwindInfo, e: CpuState, mem: Memory)
    requires done != [] && HoldsAll(mem, Slots(done, info, e))
    ensures HoldsAll(mem, Slots(done[1..], info, e))
    ensures HoldsAll(mem, Stores(done[0].op, info, Exec(done[1..], info, e)))
  {
    var older := Slots(done[1..], info, e);
    var newest := Stores(done[0].op, info, Exec(done[1..], info, e));
    var all := Slots(done, info, e);
    assert all == older + newest;
    assert forall i :: 0 <= i < |older| ==> older[i] == all[i];
    assert forall i :: 0 <= i < |newest| ==> newest[i] == all[|older| + i];
  }

  /** One code undoes one instruction; rsp is back if it was right or the frame sets it. */
  lemma UndoPush(op: UnwindOp, info: UnwindInfo, s: CpuState, frame: u64, mem: Memory, p: Progress)
    requires op.EpilogCode? || op.Alloc? || op.SetFrameRegister? || (op.PushNonvolatile? && op.reg % 16 != RSP)
    requires p.error == None && HoldsAll(mem, Stores(op, info, s))
    requires op.SetFrameRegister? ==> frame == s.Rsp() && !ByRsp(info)
    requires op.PushNonvolatile? ==> p.cpu.Rsp() == Exec1(op, info, s).Rsp()
    ensures Undone(SavedGpr1(op), {}, s, p.cpu, op.SetFrameRegister? || p.cpu.Rsp() == Exec1(op, info, s).Rsp(),
                   ApplyOp(op, frame, mem, p))
    ensures ApplyOp(op, frame, mem, p).machineFrame == p.machineFrame
  {
    WrapInverse(s.Rsp(), 8);
    if op.Alloc? {
      WrapInverse(s.Rsp(), op.size);
    } else if op.PushNonvolatile? {
      var slot := Stores(op, info, s)[0];
      assert Holds(mem, slot.addr, slot.bytes);
      HoldsRead64(mem, slot.addr, s.gpr[op.reg % 16]);
    }
  }

  lemma UndoSave(op: UnwindOp, info: UnwindInfo, s: CpuState, frame: u64, mem: Memory, p: Progress)
    requires op.SaveXmm128? || (op.SaveNonvolatile? && op.reg % 16 != RSP)
    requires p.error == None && HoldsAll(mem, Stores(op, info, s))
    requires frame == FrameOf(info, s)
    ensures Undone(SavedGpr1(op), SavedXmm1(op), s, p.cpu, p.cpu.Rsp() == s.Rsp(), ApplyOp(op, frame, mem, p))
    ensures ApplyOp(op, frame, mem, p).machineFrame == p.machineFrame
  {
    if op.SaveNonvolatile? {
      var slot := Stores(op, info, s)[0];
      assert Holds(mem, slot.addr, slot.bytes);
      HoldsRead64(mem, slot.addr, s.gpr[op.reg % 16]);
    } else {
      var slot := Stores(op, info, s)[0];
      assert Holds(mem, slot.addr, slot.bytes);
      HoldsRead128(mem, slot.addr, s.xmm[op.reg % 16]);
    }
  }

  lemma UndoneCompose(g1: set<int>, x1: set<int>, g2: set<int>, x2: set<int>, r1: bool, r2: bool,
                      s: CpuState, e: CpuState, u: CpuState, q: Progress, p: Progress)
    requires Undone(g1, x1, s, u, r1, q) && Undone(g2, x2, e, q.cpu, r2, p)
    requires forall r :: 0 <= r < 16 && r != RSP && r in g1 ==> s.gpr[r] == e.gpr[r]
    requires s.xmm == e.xmm
    ensures Undone(g2 + g1, x2 + x1, e, u, r2, p)
  {
  }

  /** Unwinding one record: whatever part of a conforming prolog has run is undone, whether
      its saves go by rsp, by a frame register that this record set, or by one that was set
      before. rsp itself comes back if what is undone next goes by it. */
  lemma {:induction false} UndoRecord(done: seq<UnwindCode>, info: UnwindInfo, e: CpuState, frame: u64, mem: Memory,
                                      next: bool, p: Progress)
    requires Conforming(done, info) && p.error == None
    requires HoldsAll(mem, Slots(done, info, e)) && FrameFits(done, info, e, frame)
    requires GoesByRsp(done, info, next) ==> p.cpu.Rsp() == Exec(done, info, e).Rsp()
    ensures Undone(SavedGprs(done), SavedXmms(done), e, p.cpu, next, ApplyCodes(done, frame, mem, p))
    ensures ApplyCodes(done, frame, mem, p).machineFrame == p.machineFrame
  {
    if done != [] {
      hide HoldsAll, Stores, ApplyOp, Undone;
      var op, s, rest := done[0].op, Exec(done[1..], info, e), done[1..];
      var q := ApplyOp(op, frame, mem, p);
      UndoFirst(done, info, e, frame, mem, next, p);
      UndoRecord(rest, info, e, frame, mem, next, q);
      UndoneCompose(SavedGpr1(op), SavedXmm1(op), SavedGprs(rest), SavedXmms(rest), GoesByRsp(rest, info, next), next,
                    s, e, p.cpu, q, ApplyCodes(rest, frame, mem, q));
    } else {
      assert SavedGprs(done) == {} && SavedXmms(done) == {};
    }
  }

  /** The first code of a record, undone. */
  lemma UndoFirst(done: seq<UnwindCode>, info: UnwindInfo, e: CpuState, frame: u64, mem: Memory, next: bool, p: Progress)
    requires done != [] && Conforming(done, info) && p.error == None
    requires HoldsAll(mem, Slots(done, info, e)) && FrameFits(done, info, e, frame)
    requires GoesByRsp(done, info, next) ==> p.cpu.Rsp() == Exec(done, info, e).Rsp()
    ensures var op, s, q := done[0].op, Exec(done[1..], info, e), ApplyOp(done[0].op, frame, mem, p);
            Undone(SavedGpr1(op), SavedXmm1(op), s, p.cpu, GoesByRsp(done[1..], info, next), q) &&
            q.error == None && q.machineFrame == p.machineFrame &&
            (GoesByRsp(done[1..], info, next) ==> q.cpu.Rsp() == s.Rsp()) &&
            (forall r :: 0 <= r < 16 && r != RSP && r in SavedGpr1(op) ==> s.gpr[r] == e.gpr[r]) && s.xmm == e.xmm
    ensures HoldsAll(mem, Slots(done[1..], info, e))
  {
    var op, s := done[0].op, Exec(done[1..], info, e);
    SlotsSplit(done, info, e, mem);
    ConformingKeepsRegisters(done[1..], info, e);
    if IsSave(op) {
      UndoSave(op, info, s, frame, mem, p);
    } else {
      UndoPush(op, info, s, frame, mem, p);
    }
    hide ApplyOp, HoldsAll, Slots, Stores, WrapAdd, WrapSub;
  }
}
