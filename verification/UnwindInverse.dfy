/** Unwinding inverts execution, over a whole chain of records and from every point of
    a prolog or body. */
module UnwindInverse {
  import opened Words
  import opened GuestMemory
  import opened CpuModel
  import opened Unwind
  import opened PrologRun

  datatype Machine = Machine(cpu: CpuState, mem: Memory)

  /** One record's part of a run: from its entry the prolog instructions `done` ran, last
      listed first, and then the body took the machine to `exit`. */
  datatype Activation = Activation(info: UnwindInfo, done: seq<UnwindCode>, entry: Machine, exit: Machine)

  /** How the function was entered: by a call, which pushed the return address, or by an
      interrupt, whose frame the outermost record describes with `code`. */
  datatype Call = Called | Interrupted(code: UnwindCode)

  predicate WellFormedCall(call: Call) {
    call.Interrupted? ==> call.code.op.PushMachineFrame?
  }

  function MachineCodes(call: Call): seq<UnwindCode> {
    if call.Called? then [] else [call.code]
  }

  /** What the call stored on the stack. */
  function CallSlots(call: Call, entry: CpuState, callerRip: u64, callerRsp: u64): seq<Slot>
    requires WellFormedCall(call)
  {
    if call.Called? then [Slot(entry.Rsp(), LeBytes(callerRip, 8))]
    else
      var base := WrapAdd(entry.Rsp(), if call.code.op.withErrorCode then 8 else 0);
      [Slot(base, LeBytes(callerRip, 8)), Slot(WrapAdd(base, 24), LeBytes(callerRsp, 8))]
  }

  ghost predicate Entered(call: Call, start: Machine, callerRip: u64, callerRsp: u64) {
    && WellFormedCall(call)
    && HoldsAll(start.mem, CallSlots(call, start.cpu, callerRip, callerRsp))
    && (call.Called? ==> callerRsp == WrapAdd(start.cpu.Rsp(), 8))
  }

  predicate InSlot(slot: Slot, a: int) {
    slot.addr <= a < slot.addr + |slot.bytes|
  }

  function Span(slot: Slot): set<int> {
    set a | slot.addr <= a < slot.addr + |slot.bytes| && InSlot(slot, a)
  }

  function Spans(slots: seq<Slot>): set<int> {
    if slots == [] then {} else Span(slots[0]) + Spans(slots[1..])
  }

  /** Each slot is stored clear of everything stored before it. */
  predicate Disjoint(slots: seq<Slot>, taken: set<int>) {
    slots == [] || (Span(slots[0]) !! taken && Disjoint(slots[1..], taken + Span(slots[0])))
  }

  function StoreAll(slots: seq<Slot>, mem: Memory): Result<Memory> {
    if slots == [] then Ok(mem)
    else match Write(mem, slots[0].addr, slots[0].bytes)
      case Err(e) => Err(e)
      case Ok(m) => StoreAll(slots[1..], m)
  }

  function SlotsOf(a: Activation): seq<Slot> {
    Slots(a.done, a.info, a.entry.cpu)
  }

  /** The stack bytes the frames so far rely on. */
  function Protected(acts: seq<Activation>, call: seq<Slot>): set<int> {
    if acts == [] then Spans(call) else Protected(acts[1..], call) + Spans(SlotsOf(acts[0]))
  }

  function FrameReg(a: Activation): set<int> {
    if SetsFrame(a.done) && a.info.frameRegister.Some? then {a.info.frameRegister.value % 16} else {}
  }

  /** The registers a body may change: the volatile ones and those saved so far, except a
      frame register still in use. */
  function FreeGprs(acts: seq<Activation>, volatile: set<int>): set<int> {
    if acts == [] then volatile
    else FreeGprs(acts[1..], volatile) + SavedGprs(acts[0].done) - FrameReg(acts[0])
  }

  function FreeXmms(acts: seq<Activation>, volatile: set<int>): set<int> {
    if acts == [] then volatile else FreeXmms(acts[1..], volatile) + SavedXmms(acts[0].done)
  }

  function EntryOf(acts: seq<Activation>, start: Machine): Machine {
    if acts == [] then start else acts[0].exit
  }

  /** The registers when the body begins. */
  function AfterProlog(a: Activation): CpuState {
    Exec(a.done, a.info, a.entry.cpu)
  }

  /** Undoing the activations goes by where rsp is. Otherwise a frame register leads on, one
      that the innermost set or that an outer one did, with no push since. */
  predicate RspCounts(acts: seq<Activation>) {
    if acts == [] then true else GoesByRsp(acts[0].done, acts[0].info, RspCounts(acts[1..]))
  }

  /** The innermost activation's saves are relative to rsp or to a register that no body may
      change: one that it set itself, or that an outer activation did. */
  predicate SavesAnchored(acts: seq<Activation>, vol: set<int>) {
    acts != [] && HasSaves(acts[0].done) && !ByRsp(acts[0].info) ==>
      acts[0].info.frameRegister.value % 16 !in FreeGprs(acts, vol)
  }

  /** The stack pointer holds still in a body as long as undoing goes by it; registers that
      are not free and protected bytes are left alone. */
  ghost predicate BodyKeeps(a: Activation, mem: Memory, rspCounts: bool, free: set<int>, freeX: set<int>, protected: set<int>) {
    var s := AfterProlog(a);
    && (rspCounts ==> a.exit.cpu.Rsp() == s.Rsp())
    && (forall r :: 0 <= r < 16 && r != RSP && r !in free ==> a.exit.cpu.gpr[r] == s.gpr[r])
    && (forall r :: 0 <= r < 16 && r !in freeX ==> a.exit.cpu.xmm[r] == s.xmm[r])
    && (forall i :: i in protected && i in mem ==> i in a.exit.mem && a.exit.mem[i] == mem[i])
  }

  /** A run of nested activations, innermost first. */
  ghost predicate ValidRun(acts: seq<Activation>, start: Machine, call: seq<Slot>, vol: set<int>, volX: set<int>) {
    acts == [] ||
    var a, outer := acts[0], acts[1..];
    && ValidRun(outer, start, call, vol, volX)
    && a.entry == EntryOf(outer, start)
    && Conforming(a.done, a.info)
    && FrameReg(a) <= FreeGprs(outer, vol) + SavedGprs(a.done)
    && SavesAnchored(acts, vol)
    && Disjoint(SlotsOf(a), Protected(outer, call))
    && StoreAll(SlotsOf(a), a.entry.mem).Ok?
    && BodyKeeps(a, StoreAll(SlotsOf(a), a.entry.mem).value, RspCounts(acts),
                 FreeGprs(acts, vol), FreeXmms(acts, volX), Protected(acts, call))
  }

  // ---------------------------------------------------------------- memory

  lemma {:induction false} SpansOf(slots: seq<Slot>, i: nat)
    requires i < |slots|
    ensures Span(slots[i]) <= Spans(slots)
  {
    if i > 0 {
      SpansOf(slots[1..], i - 1);
    }
  }

  lemma FrameAll(mem: Memory, mem': Memory, slots: seq<Slot>)
    requires HoldsAll(mem, slots)
    requires forall a :: a in Spans(slots) && a in mem ==> a in mem' && mem'[a] == mem[a]
    ensures HoldsAll(mem', slots)
  {
    forall i | 0 <= i < |slots|
      ensures Holds(mem', slots[i].addr, slots[i].bytes)
    {
      SpansOf(slots, i);
      assert Holds(mem, slots[i].addr, slots[i].bytes);
      assert forall a :: InSlot(slots[i], a) ==> a in Span(slots[i]);
      HoldsFrame(mem, mem', slots[i].addr, slots[i].bytes);
    }
  }

  /** Stores clear of each other are all still there at the end, and nothing else moved. */
  lemma {:induction false} StoreAllHolds(slots: seq<Slot>, taken: set<int>, mem: Memory)
    requires Disjoint(slots, taken) && StoreAll(slots, mem).Ok?
    ensures HoldsAll(StoreAll(slots, mem).value, slots)
    ensures forall a :: a in mem && a in taken ==>
              a in StoreAll(slots, mem).value && StoreAll(slots, mem).value[a] == mem[a]
  {
    if slots != [] {
      var m := Write(mem, slots[0].addr, slots[0].bytes).value;
      var final := StoreAll(slots, mem).value;
      StoreAllHolds(slots[1..], taken + Span(slots[0]), m);
      StoreHolds(mem, slots[0].addr, slots[0].bytes);
      assert forall a :: InSlot(slots[0], a) ==> a in Span(slots[0]);
      HoldsFrame(m, final, slots[0].addr, slots[0].bytes);
      forall i | 0 <= i < |slots|
        ensures Holds(final, slots[i].addr, slots[i].bytes)
      {
        if i > 0 {
          assert slots[i] == slots[1..][i - 1];
        }
      }
    }
  }

  /** Everything the frames of a run rely on is intact when the innermost body stops. */
  lemma {:induction false} RunHolds(acts: seq<Activation>, start: Machine, call: seq<Slot>, vol: set<int>, volX: set<int>, k: nat)
    requires ValidRun(acts, start, call, vol, volX) && HoldsAll(start.mem, call)
    ensures HoldsAll(EntryOf(acts, start).mem, call)
    ensures k < |acts| ==> HoldsAll(EntryOf(acts, start).mem, SlotsOf(acts[k]))
    ensures Spans(call) <= Protected(acts, call)
    ensures k < |acts| ==> Spans(SlotsOf(acts[k])) <= Protected(acts, call)
    decreases |acts|
  {
    if acts != [] {
      var a, outer := acts[0], acts[1..];
      RunHolds(outer, start, call, vol, volX, if k == 0 then 0 else k - 1);
      var stored := StoreAll(SlotsOf(a), a.entry.mem).value;
      StoreAllHolds(SlotsOf(a), Protected(outer, call), a.entry.mem);
      FrameAll(a.entry.mem, stored, call);
      FrameAll(stored, a.exit.mem, call);
      if k == 0 {
        FrameAll(stored, a.exit.mem, SlotsOf(a));
      } else if k < |acts| {
        assert acts[k] == outer[k - 1];
        FrameAll(a.entry.mem, stored, SlotsOf(acts[k]));
        FrameAll(stored, a.exit.mem, SlotsOf(acts[k]));
      }
    }
  }

  // ------------------------------------------------------------ registers

  /** u agrees with s on everything the outer frames rely on. */
  ghost predicate Agrees(u: CpuState, s: CpuState, free: set<int>, freeX: set<int>) {
    && (forall r :: 0 <= r < 16 && r != RSP && r !in free ==> u.gpr[r] == s.gpr[r])
    && (forall r :: 0 <= r < 16 && r !in freeX ==> u.xmm[r] == s.xmm[r])
  }

  /** Where u stands for the end of the run: its registers, and its rsp if that counts. */
  ghost predicate StandsFor(u: CpuState, acts: seq<Activation>, vol: set<int>, volX: set<int>)
    requires acts != []
  {
    && Agrees(u, acts[0].exit.cpu, FreeGprs(acts, vol), FreeXmms(acts, volX))
    && (RspCounts(acts) ==> u.Rsp() == acts[0].exit.cpu.Rsp())
  }

  /** The frame that the record defines is the one its prolog worked with. */
  lemma FrameIsKnown(acts: seq<Activation>, start: Machine, call: seq<Slot>, vol: set<int>, volX: set<int>, u: CpuState)
    requires acts != [] && ValidRun(acts, start, call, vol, volX) && StandsFor(u, acts, vol, volX)
    ensures var a := acts[0];
            SetsFrame(a.done) || HasSaves(a.done) ==> FrameOf(a.info, u) == FrameOf(a.info, AfterProlog(a))
    ensures FrameFits(acts[0].done, acts[0].info, acts[0].entry.cpu, FrameOf(acts[0].info, u))
  {
    var a := acts[0];
    ConformingKeepsRegisters(a.done, a.info, a.entry.cpu);
    if ByRsp(a.info) {
      if HasSaves(a.done) {
        SavesGoByRsp(a.done, a.info, RspCounts(acts[1..]));
      }
    } else if SetsFrame(a.done) || HasSaves(a.done) {
      var fr := a.info.frameRegister.value % 16;
      assert SetsFrame(a.done) ==> fr in FrameReg(a);
      assert fr !in FreeGprs(acts, vol);
      assert u.gpr[fr] == AfterProlog(a).gpr[fr];
    }
    FrameAfterFits(a.done, a.info, a.entry.cpu, FrameOf(a.info, u));
  }

  /** One record undone: the registers agree with those at its entry, and rsp is the one at
      its entry if what is left to undo goes by it. */
  lemma UndoActivation(acts: seq<Activation>, start: Machine, call: seq<Slot>, vol: set<int>, volX: set<int>,
                       mem: Memory, p: Progress)
    requires acts != [] && ValidRun(acts, start, call, vol, volX)
    requires HoldsAll(mem, SlotsOf(acts[0]))
    requires p.error == None && StandsFor(p.cpu, acts, vol, volX)
    ensures var q := ApplyCodes(acts[0].done, FrameOf(acts[0].info, p.cpu), mem, p);
            && q.error == None && q.machineFrame == p.machineFrame && q.cpu.rip == p.cpu.rip
            && (RspCounts(acts[1..]) ==> q.cpu.Rsp() == acts[0].entry.cpu.Rsp())
            && Agrees(q.cpu, acts[0].entry.cpu, FreeGprs(acts[1..], vol), FreeXmms(acts[1..], volX))
  {
    var a := acts[0];
    FrameIsKnown(acts, start, call, vol, volX, p.cpu);
    UndoRecord(a.done, a.info, a.entry.cpu, FrameOf(a.info, p.cpu), mem, RspCounts(acts[1..]), p);
    ConformingKeepsRegisters(a.done, a.info, a.entry.cpu);
    hide Conforming, HoldsAll, ApplyCodes, FrameFits, GoesByRsp, Exec, FrameOf;
    var q := ApplyCodes(a.done, FrameOf(a.info, p.cpu), mem, p);
    forall r | 0 <= r < 16 && r != RSP && r !in FreeGprs(acts[1..], vol)
      ensures q.cpu.gpr[r] == a.entry.cpu.gpr[r]
    {
      if r !in SavedGprs(a.done) {
        assert r !in FrameReg(a) && r !in FreeGprs(acts, vol);
      }
    }
  }

  // ---------------------------------------------------------- the records

  /** The table's records describe the run: their executed codes are the instructions that
      ran, and the outermost also lists the machine frame of an interrupt. */
  predicate Describes(info: UnwindInfo, offset: Option<nat>, acts: seq<Activation>, call: Call)
    decreases |acts|
  {
    && acts != [] && acts[0].info == info
    && if |acts| == 1 then info.chained.None? && Executed(info.codes, offset) == acts[0].done + MachineCodes(call)
       else && info.chained.Some? && Executed(info.codes, offset) == acts[0].done
            && Describes(info.chained.value.info, None, acts[1..], call)
  }

  lemma {:induction false} ApplyAppend(a: seq<UnwindCode>, b: seq<UnwindCode>, frame: u64, mem: Memory, p: Progress)
    ensures ApplyCodes(a + b, frame, mem, p) == ApplyCodes(b, frame, mem, ApplyCodes(a, frame, mem, p))
  {
    if a == [] {
      assert a + b == b;
    } else if p.error.None? {
      assert (a + b)[1..] == a[1..] + b;
      ApplyAppend(a[1..], b, frame, mem, ApplyOp(a[0].op, frame, mem, p));
    }
  }

  /** The caller's registers, with the return address still to be popped for a call. */
  ghost predicate AtCaller(q: Progress, call: Call, start: Machine, callerRip: u64, callerRsp: u64) {
    && q.error == None && (q.machineFrame <==> call.Interrupted?)
    && (call.Called? ==> q.cpu.Rsp() == start.cpu.Rsp())
    && (call.Interrupted? ==> q.cpu.rip == callerRip && q.cpu.Rsp() == callerRsp)
  }

  lemma UndoMachineFrame(call: Call, start: Machine, callerRip: u64, callerRsp: u64, frame: u64, mem: Memory, p: Progress)
    requires WellFormedCall(call) && HoldsAll(mem, CallSlots(call, start.cpu, callerRip, callerRsp))
    requires p.error == None && !p.machineFrame && p.cpu.Rsp() == start.cpu.Rsp()
    ensures AtCaller(ApplyCodes(MachineCodes(call), frame, mem, p), call, start, callerRip, callerRsp)
    ensures var q := ApplyCodes(MachineCodes(call), frame, mem, p);
            q.cpu.xmm == p.cpu.xmm && forall r :: 0 <= r < 16 && r != RSP ==> q.cpu.gpr[r] == p.cpu.gpr[r]
  {
    if call.Interrupted? {
      var slots := CallSlots(call, start.cpu, callerRip, callerRsp);
      assert Holds(mem, slots[0].addr, slots[0].bytes) && Holds(mem, slots[1].addr, slots[1].bytes);
      HoldsRead64(mem, slots[0].addr, callerRip);
      HoldsRead64(mem, slots[1].addr, callerRsp);
      var q := ApplyOp(call.code.op, frame, mem, p);
      assert ApplyCodes([call.code][1..], frame, mem, q) == q;
    }
  }

  lemma {:induction false} UndoChain(acts: seq<Activation>, info: UnwindInfo, offset: Option<nat>, start: Machine,
                                     slots: seq<Slot>, call: Call, callerRip: u64, callerRsp: u64,
                                     vol: set<int>, volX: set<int>, mem: Memory, p: Progress)
    requires WellFormedCall(call)
    requires ValidRun(acts, start, slots, vol, volX)
    requires Describes(info, offset, acts, call)
    requires HoldsAll(mem, CallSlots(call, start.cpu, callerRip, callerRsp))
    requires forall k :: 0 <= k < |acts| ==> HoldsAll(mem, SlotsOf(acts[k]))
    requires p.error == None && !p.machineFrame && StandsFor(p.cpu, acts, vol, volX)
    ensures AtCaller(ApplyChain(info, offset, mem, p), call, start, callerRip, callerRsp)
    ensures Agrees(ApplyChain(info, offset, mem, p).cpu, start.cpu, vol, volX)
    decreases |acts|
  {
    UndoActivation(acts, start, slots, vol, volX, mem, p);
    var frame := FrameOf(info, p.cpu);
    var q := ApplyCodes(acts[0].done, frame, mem, p);
    if |acts| == 1 {
      ApplyAppend(acts[0].done, MachineCodes(call), frame, mem, p);
      UndoMachineFrame(call, start, callerRip, callerRsp, frame, mem, q);
    } else {
      assert forall k :: 0 <= k < |acts[1..]| ==> acts[1..][k] == acts[k + 1];
      UndoChain(acts[1..], info.chained.value.info, None, start, slots, call, callerRip, callerRsp, vol, volX, mem, q);
    }
  }

  /** Back in the caller: rip, rsp and every register that is not volatile. */
  ghost predicate CallerRestored(c: CpuState, start: CpuState, callerRip: u64, callerRsp: u64, vol: set<int>, volX: set<int>) {
    c.rip == callerRip && c.Rsp() == callerRsp && Agrees(c, start, vol, volX)
  }

  /** The activations from the innermost one that set a frame register on. */
  function Setter(acts: seq<Activation>): (s: seq<Activation>)
    ensures s != [] ==> SetsFrame(s[0].done)
  {
    if acts == [] || SetsFrame(acts[0].done) then acts else Setter(acts[1..])
  }

  /** The frame of the function: the rsp that a frame register was set from, or, when none
      was, the rsp that the innermost prolog left. */
  function Established(acts: seq<Activation>): u64
    requires acts != []
  {
    var s := Setter(acts);
    if s == [] then AfterProlog(acts[0]).Rsp() else RspAtSet(s[0].done, s[0].info, s[0].entry.cpu)
  }

  /** The innermost record declares the frame register that was set, by itself or by an outer
      record, and no body may have changed it since. */
  predicate FrameHeld(acts: seq<Activation>, vol: set<int>)
    requires acts != []
  {
    var s, info := Setter(acts), acts[0].info;
    s != [] && info.frameRegister.Some? && s[0].info.frameRegister.Some? &&
    info.frameRegister.value % 16 == s[0].info.frameRegister.value % 16 && info.frameOffset == s[0].info.frameOffset &&
    info.frameRegister.value % 16 !in FreeGprs(acts, vol)
  }

  /** The frame that unwinding reports: the function's, except where a declared register does
      not hold it yet, which is then taken for it, or where a record declares none although an
      outer one set one, which then reports rsp. */
  function Reported(acts: seq<Activation>, vol: set<int>, now: CpuState): u64
    requires acts != []
  {
    if FrameHeld(acts, vol) || (acts[0].info.frameRegister.None? && Setter(acts) == []) then Established(acts)
    else FrameOf(acts[0].info, now)
  }

  /** c and r are what the caller expects back from unwinding the run. */
  ghost predicate BackAtCaller(c: CpuState, r: Result<FrameUnwind>, acts: seq<Activation>, now: CpuState, start: CpuState,
                               callerRip: u64, callerRsp: u64, vol: set<int>, volX: set<int>)
    requires acts != []
  {
    && r.Ok? && !r.value.isLeafOrEpilog
    && CallerRestored(c, start, callerRip, callerRsp, vol, volX)
    && r.value.establisherFrame == Reported(acts, vol, now)
  }

  /** Without a set frame register undoing goes by rsp. */
  lemma {:induction false} NoSetterCounts(acts: seq<Activation>)
    requires Setter(acts) == []
    ensures RspCounts(acts)
  {
    if acts != [] {
      NoSetterCounts(acts[1..]);
      NoSetGoesOn(acts[0].done, acts[0].info);
    }
  }

  lemma {:induction false} NoSetGoesOn(done: seq<UnwindCode>, info: UnwindInfo)
    requires !SetsFrame(done)
    ensures GoesByRsp(done, info, true)
  {
    if done != [] {
      NoSetGoesOn(done[1..], info);
    }
  }

  /** A register that no body may change since it was set still leads to the frame. */
  lemma {:induction false} SetterHolds(acts: seq<Activation>, start: Machine, slots: seq<Slot>, vol: set<int>, volX: set<int>)
    requires ValidRun(acts, start, slots, vol, volX) && Setter(acts) != []
    requires var s := Setter(acts)[0];
             s.info.frameRegister.Some? && s.info.frameRegister.value % 16 !in FreeGprs(acts, vol)
    ensures var s := Setter(acts)[0];
            s.info.frameRegister.value % 16 != RSP &&
            FrameOf(s.info, acts[0].exit.cpu) == RspAtSet(s.done, s.info, s.entry.cpu)
  {
    var a, s := acts[0], Setter(acts)[0];
    var fr := s.info.frameRegister.value % 16;
    ConformingKeepsRegisters(a.done, a.info, a.entry.cpu);
    hide Conforming, Exec, RspAtSet, WrapSub;
    if !SetsFrame(a.done) {
      assert fr !in FreeGprs(acts[1..], vol);
      SetterHolds(acts[1..], start, slots, vol, volX);
    }
  }

  /** What the codes report. */
  lemma ReportedByCodes(acts: seq<Activation>, start: Machine, slots: seq<Slot>, vol: set<int>, volX: set<int>, now: CpuState)
    requires acts != [] && ValidRun(acts, start, slots, vol, volX) && StandsFor(now, acts, vol, volX)
    ensures FrameOf(acts[0].info, now) == Reported(acts, vol, now)
  {
    hide RspAtSet, Conforming, Exec, WrapSub;
    if FrameHeld(acts, vol) {
      SetterHolds(acts, start, slots, vol, volX);
    } else if acts[0].info.frameRegister.None? && Setter(acts) == [] {
      NoSetterCounts(acts);
    }
  }

  /** The same from any registers that agree with those the run ended with, over any memory
      in which the stack slots of the run are intact: this is how an outer frame is seen
      from an inner one. The slots may include those of frames further out. */
  lemma UnwindCodesAt(entry: UnwindEntry, offset: nat, handlerType: HandlerType,
                      acts: seq<Activation>, start: Machine, slots: seq<Slot>,
                      call: Call, callerRip: u64, callerRsp: u64, vol: set<int>, volX: set<int>,
                      now: CpuState, mem: Memory)
    requires WellFormedCall(call) && (call.Called? ==> callerRsp == WrapAdd(start.cpu.Rsp(), 8))
    requires ValidRun(acts, start, slots, vol, volX)
    requires Describes(entry.info, Some(offset), acts, call)
    requires HoldsAll(mem, CallSlots(call, start.cpu, callerRip, callerRsp))
    requires forall k :: 0 <= k < |acts| ==> HoldsAll(mem, SlotsOf(acts[k]))
    requires StandsFor(now, acts, vol, volX)
    ensures var (c, r) := UnwindCodes(entry, offset, now, mem, handlerType);
            BackAtCaller(c, r, acts, now, start.cpu, callerRip, callerRsp, vol, volX)
  {
    ReportedByCodes(acts, start, slots, vol, volX, now);
    hide Reported, FrameOf;
    UndoChain(acts, entry.info, Some(offset), start, slots, call, callerRip, callerRsp, vol, volX, mem,
              Progress(now, false, None));
    if call.Called? {
      var pushed := CallSlots(call, start.cpu, callerRip, callerRsp);
      assert Holds(mem, pushed[0].addr, pushed[0].bytes);
      HoldsRead64(mem, pushed[0].addr, callerRip);
    }
  }

  lemma UnwindCodesInverts(entry: UnwindEntry, offset: nat, handlerType: HandlerType,
                           acts: seq<Activation>, start: Machine,
                           call: Call, callerRip: u64, callerRsp: u64, vol: set<int>, volX: set<int>)
    requires Entered(call, start, callerRip, callerRsp)
    requires ValidRun(acts, start, CallSlots(call, start.cpu, callerRip, callerRsp), vol, volX)
    requires Describes(entry.info, Some(offset), acts, call)
    ensures var (c, r) := UnwindCodes(entry, offset, acts[0].exit.cpu, acts[0].exit.mem, handlerType);
            BackAtCaller(c, r, acts, acts[0].exit.cpu, start.cpu, callerRip, callerRsp, vol, volX)
  {
    hide ValidRun, HoldsAll, CallSlots, UnwindCodes, BackAtCaller;
    var now, mem := acts[0].exit.cpu, acts[0].exit.mem;
    var slots := CallSlots(call, start.cpu, callerRip, callerRsp);
    forall k | 0 <= k < |acts|
      ensures HoldsAll(mem, SlotsOf(acts[k]))
    {
      RunHolds(acts, start, slots, vol, volX, k);
    }
    RunHolds(acts, start, slots, vol, volX, 0);
    UnwindCodesAt(entry, offset, handlerType, acts, start, slots, call, callerRip, callerRsp, vol, volX, now, mem);
  }

  /** The reported frame is the function's if and only if the innermost record declares the
      register that holds it, or none was set and none is declared, or what is taken for it
      happens to be it. As long as neither its prolog nor a body has written a declared
      register, that is what the register held when the record was entered. */
  lemma ReportedExactly(acts: seq<Activation>, start: Machine, slots: seq<Slot>, vol: set<int>, volX: set<int>, now: CpuState)
    requires acts != [] && ValidRun(acts, start, slots, vol, volX) && StandsFor(now, acts, vol, volX)
    ensures var info := acts[0].info;
            Reported(acts, vol, now) == Established(acts) <==>
              FrameHeld(acts, vol) ||
              (if info.frameRegister.None? then Setter(acts) == [] || now.Rsp() == Established(acts)
               else now.gpr[info.frameRegister.value % 16] == WrapAdd(Established(acts), info.frameOffset))
    ensures var a := acts[0];
            SetsFrame(a.done) ==> FrameHeld(acts, vol)
    ensures var a := acts[0];
            !ByRsp(a.info) && !SetsFrame(a.done) && a.info.frameRegister.value % 16 !in FreeGprs(acts, vol) ==>
              Reported(acts, vol, now) == WrapSub(a.entry.cpu.gpr[a.info.frameRegister.value % 16], a.info.frameOffset)
  {
    var a := acts[0];
    ConformingKeepsRegisters(a.done, a.info, a.entry.cpu);
    ReportedByCodes(acts, start, slots, vol, volX, now);
    if SetsFrame(a.done) {
      assert Setter(acts) == acts;
      assert a.info.frameRegister.value % 16 in FrameReg(a);
    }
    if a.info.frameRegister.Some? {
      WrapInverse(now.gpr[a.info.frameRegister.value % 16], a.info.frameOffset);
      WrapInverse(Established(acts), a.info.frameOffset);
    }
    hide Conforming, SetsFrame, WrapAdd, WrapSub, Established, Exec, RspAtSet;
  }

  /** Execution stands in the entry's function. */
  predicate InFunction(table: seq<UnwindEntry>, imageBase: u64, entry: UnwindEntry, now: Machine) {
    0 <= now.cpu.rip - imageBase < TWO32 && Lookup(table, now.cpu.rip - imageBase) == Some(entry)
  }

  /** It stands there, and the bytes ahead do not pass for the rest of an epilog. That is the
      scanner's verdict: jumps of a body can pass for one too, see EpilogScan. */
  ghost predicate StandsIn(table: seq<UnwindEntry>, imageBase: u64, entry: UnwindEntry, now: Machine) {
    && InFunction(table, imageBase, entry, now)
    && ScanEpilog(entry, imageBase, now.mem, now.cpu.rip) == NotEpilog
  }

  lemma UnwindsByCodes(table: seq<UnwindEntry>, imageBase: u64, entry: UnwindEntry, handlerType: HandlerType, now: Machine)
    requires StandsIn(table, imageBase, entry, now)
    ensures 0 <= now.cpu.rip - imageBase - entry.beginRva
    ensures UnwindTyped(table, imageBase, now.cpu, now.mem, handlerType)
         == UnwindCodes(entry, now.cpu.rip - imageBase - entry.beginRva, now.cpu, now.mem, handlerType)
  {
  }

  /** The unwinder inverts execution. Whatever part of a conforming prolog has run, in
      whatever chain of records, and whatever the body has done since within the calling
      convention: where the bytes ahead do not pass for an epilog, virtual unwinding
      restores the caller's rip and rsp and every register that is not volatile. */
  lemma UnwindInvertsExecution(table: seq<UnwindEntry>, imageBase: u64, entry: UnwindEntry, handlerType: HandlerType,
                               acts: seq<Activation>, start: Machine, offset: nat,
                               call: Call, callerRip: u64, callerRsp: u64, vol: set<int>, volX: set<int>)
    requires Entered(call, start, callerRip, callerRsp)
    requires ValidRun(acts, start, CallSlots(call, start.cpu, callerRip, callerRsp), vol, volX)
    requires acts != [] && Describes(entry.info, Some(offset), acts, call)
    requires StandsIn(table, imageBase, entry, acts[0].exit)
    requires acts[0].exit.cpu.rip == imageBase + entry.beginRva + offset
    ensures var (c, r) := UnwindTyped(table, imageBase, acts[0].exit.cpu, acts[0].exit.mem, handlerType);
            BackAtCaller(c, r, acts, acts[0].exit.cpu, start.cpu, callerRip, callerRsp, vol, volX)
  {
    hide *;
    UnwindCodesInverts(entry, offset, handlerType, acts, start, call, callerRip, callerRsp, vol, volX);
    UnwindsByCodes(table, imageBase, entry, handlerType, acts[0].exit);
  }
}
