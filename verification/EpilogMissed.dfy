/** Epilogs that the scanner does not recognise are unwound by codes. From any registers that
    is right exactly while rsp, or the frame register, is what it was at the body's end. */
module EpilogMissed {
  import opened Words
  import opened GuestMemory
  import opened CpuModel
  import opened Unwind
  import opened PrologRun
  import opened UnwindInverse
  import opened EpilogInverse
  import opened EpilogScan
  import opened EpilogBytes
  import EpilogAgrees
  import UnwindExample

  // ---- What decides the rsp that undoing codes leads to ----

  lemma ShiftedAlike(a: u64, b: u64, n: int)
    ensures WrapAdd(a, n) == WrapAdd(b, n) <==> a == b
    ensures WrapSub(a, n) == WrapSub(b, n) <==> a == b
  {
    WrapInverse(a, n);
    WrapInverse(b, n);
    hide WrapAdd, WrapSub;
  }

  /** Undoing a record from two register files: it ends with the same rsp exactly when it
      started with the same one, or, if the record set a frame register, with the same frame. */
  lemma {:induction false} RspDecides(done: seq<UnwindCode>, info: UnwindInfo, f: u64, g: u64, mem: Memory, p: Progress, q: Progress)
    requires Conforming(done, info) && p.error == None && q.error == None
    ensures var x, y := ApplyCodes(done, f, mem, p), ApplyCodes(done, g, mem, q);
            x.error == None && y.error == None ==>
              (x.cpu.Rsp() == y.cpu.Rsp() <==> if SetsFrame(done) then f == g else p.cpu.Rsp() == q.cpu.Rsp())
  {
    if done != [] {
      hide Read64, Read128, WrapAdd;
      var op := done[0].op;
      var x, y := ApplyOp(op, f, mem, p), ApplyOp(op, g, mem, q);
      ShiftedAlike(p.cpu.Rsp(), q.cpu.Rsp(), if op.Alloc? then op.size else 8);
      if x.error == None && y.error == None {
        RspDecides(done[1..], info, f, g, mem, x, y);
      }
    }
  }

  lemma {:induction false} CodesKeep(done: seq<UnwindCode>, info: UnwindInfo, frame: u64, mem: Memory, p: Progress)
    requires Conforming(done, info)
    ensures var q := ApplyCodes(done, frame, mem, p);
            q.machineFrame == p.machineFrame && forall r :: 0 <= r < 16 && r != RSP && r !in SavedGprs(done) ==> q.cpu.gpr[r] == p.cpu.gpr[r]
  {
    if done != [] && p.error == None {
      hide Read64, Read128, WrapAdd;
      CodesKeep(done[1..], info, frame, mem, ApplyOp(done[0].op, frame, mem, p));
    }
  }

  // ---- A chain of records ----

  /** The frame register that was set, if one was. */
  function FrameRegisterOf(acts: seq<Activation>): int {
    var s := Setter(acts);
    if s != [] && s[0].info.frameRegister.Some? then s[0].info.frameRegister.value % 16 else RSP
  }

  /** All records conform, and at most one set a frame register, which those chained to it do
      not save. */
  predicate OneFrame(acts: seq<Activation>) {
    (forall k :: 0 <= k < |acts| ==> Conforming(acts[k].done, acts[k].info)) &&
    (Setter(acts) != [] ==>
       Setter(Setter(acts)[1..]) == [] &&
       forall k :: 0 <= k < |acts| - |Setter(acts)| ==> FrameRegisterOf(acts) !in SavedGprs(acts[k].done))
  }

  /** u and v lead to the same frame: by the frame register, or, if none was set, by rsp. */
  predicate SameFrame(acts: seq<Activation>, u: CpuState, v: CpuState) {
    if Setter(acts) != [] then u.gpr[FrameRegisterOf(acts)] == v.gpr[FrameRegisterOf(acts)]
    else u.Rsp() == v.Rsp()
  }

  lemma {:induction false} SetterLength(acts: seq<Activation>)
    ensures |Setter(acts)| <= |acts|
  {
    if acts != [] {
      SetterLength(acts[1..]);
    }
  }

  lemma {:induction false} FrameRegisterIsNotRsp(acts: seq<Activation>)
    requires OneFrame(acts) && Setter(acts) != []
    ensures FrameRegisterOf(acts) != RSP
    ensures SetsFrame(acts[0].done) ==> !ByRsp(acts[0].info)
  {
    hide SavedGprs;
    assert Conforming(acts[0].done, acts[0].info);
    ConformingKeepsRegisters(acts[0].done, acts[0].info, acts[0].entry.cpu);
    hide Conforming, SetsFrame;
    if Setter(acts) != acts {
      RestIsOneFrame(acts);
      FrameRegisterIsNotRsp(acts[1..]);
    }
  }

  lemma RestIsOneFrame(acts: seq<Activation>)
    requires acts != [] && OneFrame(acts)
    ensures OneFrame(acts[1..])
    ensures if SetsFrame(acts[0].done) then Setter(acts) == acts && Setter(acts[1..]) == [] else Setter(acts) == Setter(acts[1..])
  {
    hide Conforming, SetsFrame, SavedGprs;
    SetterLength(acts[1..]);
    assert forall k :: 0 <= k < |acts[1..]| ==> acts[1..][k] == acts[k + 1];
  }

  /** One record of the chain, from two register files: the frame of the rest. */
  lemma RecordDecides(acts: seq<Activation>, mem: Memory, p: Progress, q: Progress)
    requires acts != [] && OneFrame(acts) && p.error == None && q.error == None
    ensures var a := acts[0];
            var x, y := ApplyCodes(a.done, FrameOf(a.info, p.cpu), mem, p), ApplyCodes(a.done, FrameOf(a.info, q.cpu), mem, q);
            x.error == None && y.error == None ==> (SameFrame(acts[1..], x.cpu, y.cpu) <==> SameFrame(acts, p.cpu, q.cpu))
    ensures var a := acts[0]; ApplyCodes(a.done, FrameOf(a.info, p.cpu), mem, p).machineFrame == p.machineFrame
  {
    var a := acts[0];
    var f, g := FrameOf(a.info, p.cpu), FrameOf(a.info, q.cpu);
    assert Conforming(a.done, a.info);
    RspDecides(a.done, a.info, f, g, mem, p, q);
    CodesKeep(a.done, a.info, f, mem, p);
    CodesKeep(a.done, a.info, g, mem, q);
    RestIsOneFrame(acts);
    if Setter(acts) != [] {
      FrameRegisterIsNotRsp(acts);
      if SetsFrame(a.done) {
        ShiftedAlike(p.cpu.gpr[FrameRegisterOf(acts)], q.cpu.gpr[FrameRegisterOf(acts)], a.info.frameOffset);
      } else {
        SetterLength(acts[1..]);
        assert FrameRegisterOf(acts) !in SavedGprs(a.done);
      }
    }
    hide Conforming, ApplyCodes, SetsFrame, SavedGprs, WrapSub, WrapAdd;
  }

  /** Undoing a called chain from two register files: it ends with the same rsp exactly when
      both lead to the same frame. */
  lemma {:induction false} ChainDecides(acts: seq<Activation>, info: UnwindInfo, offset: Option<nat>, mem: Memory, p: Progress, q: Progress)
    requires Describes(info, offset, acts, Called) && OneFrame(acts)
    requires p.error == None && q.error == None
    ensures var x, y := ApplyChain(info, offset, mem, p), ApplyChain(info, offset, mem, q);
            x.error == None && y.error == None ==> (x.cpu.Rsp() == y.cpu.Rsp() <==> SameFrame(acts, p.cpu, q.cpu))
    ensures ApplyChain(info, offset, mem, p).machineFrame == p.machineFrame
    decreases |acts|
  {
    hide Conforming, ApplyCodes, SetsFrame, SavedGprs, Executed, OneFrame, FrameOf, SameFrame;
    var done := acts[0].done;
    var x, y := ApplyCodes(done, FrameOf(info, p.cpu), mem, p), ApplyCodes(done, FrameOf(info, q.cpu), mem, q);
    RecordDecides(acts, mem, p, q);
    if |acts| == 1 {
      assert Executed(info.codes, offset) == done + [] == done;
      NoRecords(x.cpu, y.cpu);
      assert acts[1..] == [];
    } else {
      RestIsOneFrame(acts);
      if x.error == None {
        ChainDecides(acts[1..], info.chained.value.info, None, mem, x, if y.error == None then y else x);
      }
    }
  }

  lemma NoRecords(u: CpuState, v: CpuState)
    ensures SameFrame([], u, v) <==> u.Rsp() == v.Rsp()
  {
  }

  /** Undoing goes by rsp alone, or by a frame register alone, which no body may change. */
  predicate OneWay(acts: seq<Activation>, vol: set<int>) {
    OneFrame(acts) && (Setter(acts) != [] ==> FrameRegisterOf(acts) !in FreeGprs(acts, vol) && !RspCounts(acts))
  }

  /** u has the registers of v, but for rsp, the frame register and those that are free. */
  ghost predicate AgreesApart(u: CpuState, v: CpuState, acts: seq<Activation>, vol: set<int>, volX: set<int>) {
    && (forall r :: 0 <= r < 16 && r != RSP && r !in FreeGprs(acts, vol) && r != FrameRegisterOf(acts) ==> u.gpr[r] == v.gpr[r])
    && (forall r :: 0 <= r < 16 && r !in FreeXmms(acts, volX) ==> u.xmm[r] == v.xmm[r])
  }

  /** Unwinding by codes a called run from any registers that agree with its end apart from
      rsp and the frame register restores the caller if and only if these lead to the frame,
      and so does the caller's rsp alone. */
  lemma CodesRestoreExactly(entry: UnwindEntry, offset: nat, handlerType: HandlerType,
                            acts: seq<Activation>, start: Machine, callerRip: u64, callerRsp: u64,
                            vol: set<int>, volX: set<int>, now: CpuState)
    requires acts != [] && Entered(Called, start, callerRip, callerRsp)
    requires ValidRun(acts, start, CallSlots(Called, start.cpu, callerRip, callerRsp), vol, volX)
    requires Describes(entry.info, Some(offset), acts, Called) && OneWay(acts, vol)
    requires AgreesApart(now, acts[0].exit.cpu, acts, vol, volX)
    ensures var (c, r) := UnwindCodes(entry, offset, now, acts[0].exit.mem, handlerType);
            (r.Ok? && CallerRestored(c, start.cpu, callerRip, callerRsp, vol, volX) <==> SameFrame(acts, now, acts[0].exit.cpu)) &&
            (r.Ok? && c.Rsp() == callerRsp <==> SameFrame(acts, now, acts[0].exit.cpu))
  {
    hide ValidRun, Describes, CallSlots, UnwindCodes, OneFrame, SetsFrame, RspCounts, FrameRegisterOf, AgreesApart, FreeGprs, FreeXmms,
      HoldsAll, Entered, Agrees, SameFrame;
    var exit, slots := acts[0].exit, CallSlots(Called, start.cpu, callerRip, callerRsp);
    ExitUndoes(entry, offset, acts, start, callerRip, callerRsp, vol, volX);
    if SameFrame(acts, now, exit.cpu) {
      LeadsThere(acts, vol, volX, now);
      SlotsAtExit(acts, start, callerRip, callerRsp, vol, volX);
      UnwindCodesAt(entry, offset, handlerType, acts, start, slots, Called, callerRip, callerRsp, vol, volX, now, exit.mem);
    } else {
      ChainDecides(acts, entry.info, Some(offset), exit.mem, Progress(now, false, None), Progress(exit.cpu, false, None));
      OkMeansUndone(entry, offset, handlerType, now, exit.mem, start, callerRsp);
    }
  }

  lemma LeadsThere(acts: seq<Activation>, vol: set<int>, volX: set<int>, now: CpuState)
    requires acts != [] && OneWay(acts, vol) && AgreesApart(now, acts[0].exit.cpu, acts, vol, volX)
    requires SameFrame(acts, now, acts[0].exit.cpu)
    ensures StandsFor(now, acts, vol, volX)
  {
    hide OneFrame, Setter, RspCounts, FreeGprs, FreeXmms;
    if Setter(acts) == [] {
      NoSetterCounts(acts);
    }
  }

  lemma SlotsAtExit(acts: seq<Activation>, start: Machine, callerRip: u64, callerRsp: u64, vol: set<int>, volX: set<int>)
    requires acts != [] && Entered(Called, start, callerRip, callerRsp)
    requires ValidRun(acts, start, CallSlots(Called, start.cpu, callerRip, callerRsp), vol, volX)
    ensures callerRsp == WrapAdd(start.cpu.Rsp(), 8)
    ensures HoldsAll(acts[0].exit.mem, CallSlots(Called, start.cpu, callerRip, callerRsp))
    ensures forall k :: 0 <= k < |acts| ==> HoldsAll(acts[0].exit.mem, SlotsOf(acts[k]))
  {
    hide ValidRun, CallSlots, HoldsAll, SlotsOf;
    var slots := CallSlots(Called, start.cpu, callerRip, callerRsp);
    RunHolds(acts, start, slots, vol, volX, 0);
    forall k | 0 <= k < |acts|
      ensures HoldsAll(acts[0].exit.mem, SlotsOf(acts[k]))
    {
      RunHolds(acts, start, slots, vol, volX, k);
    }
  }

  /** From the run's end itself the codes lead to the rsp at entry. */
  lemma ExitUndoes(entry: UnwindEntry, offset: nat, acts: seq<Activation>, start: Machine,
                   callerRip: u64, callerRsp: u64, vol: set<int>, volX: set<int>)
    requires acts != [] && Entered(Called, start, callerRip, callerRsp)
    requires ValidRun(acts, start, CallSlots(Called, start.cpu, callerRip, callerRsp), vol, volX)
    requires Describes(entry.info, Some(offset), acts, Called)
    ensures var q := ApplyChain(entry.info, Some(offset), acts[0].exit.mem, Progress(acts[0].exit.cpu, false, None));
            q.error == None && q.cpu.Rsp() == start.cpu.Rsp() && callerRsp == WrapAdd(start.cpu.Rsp(), 8)
  {
    hide ValidRun, CallSlots, HoldsAll, SlotsOf, ApplyChain, Describes;
    SlotsAtExit(acts, start, callerRip, callerRsp, vol, volX);
    UndoChain(acts, entry.info, Some(offset), start, CallSlots(Called, start.cpu, callerRip, callerRsp), Called, callerRip, callerRsp,
              vol, volX, acts[0].exit.mem, Progress(acts[0].exit.cpu, false, None));
  }

  /** An unwind that ends at the caller's rsp has undone all codes, and led to the rsp at entry. */
  lemma OkMeansUndone(entry: UnwindEntry, offset: nat, handlerType: HandlerType, now: CpuState, mem: Memory, start: Machine, callerRsp: u64)
    requires callerRsp == WrapAdd(start.cpu.Rsp(), 8)
    requires !ApplyChain(entry.info, Some(offset), mem, Progress(now, false, None)).machineFrame
    ensures var (c, r), q := UnwindCodes(entry, offset, now, mem, handlerType),
                             ApplyChain(entry.info, Some(offset), mem, Progress(now, false, None));
            r.Ok? ==> q.error == None && (c.Rsp() == callerRsp <==> q.cpu.Rsp() == start.cpu.Rsp())
  {
    hide ApplyChain, Read64, WrapAdd;
    WrapEight(ApplyChain(entry.info, Some(offset), mem, Progress(now, false, None)).cpu.Rsp(), start.cpu.Rsp());
  }

  /** The same through the scanner, wherever the function stands: where it sees no epilog, the
      caller is restored if and only if the registers lead to the frame; where it sees one, if
      and only if its operations lead back. */
  lemma UnwindAnywhereExactly(table: seq<UnwindEntry>, imageBase: u64, entry: UnwindEntry, handlerType: HandlerType,
                              acts: seq<Activation>, at: Machine, start: Machine, offset: nat,
                              callerRip: u64, callerRsp: u64, vol: set<int>, volX: set<int>)
    requires acts != [] && Entered(Called, start, callerRip, callerRsp)
    requires ValidRun(acts, start, CallSlots(Called, start.cpu, callerRip, callerRsp), vol, volX)
    requires Describes(entry.info, Some(offset), acts, Called) && OneWay(acts, vol)
    requires AgreesApart(at.cpu, acts[0].exit.cpu, acts, vol, volX) && at.mem == acts[0].exit.mem
    requires InFunction(table, imageBase, entry, at) && at.cpu.rip == imageBase + entry.beginRva + offset
    ensures var (c, r) := UnwindTyped(table, imageBase, at.cpu, at.mem, handlerType);
            var scan := ScanEpilog(entry, imageBase, at.mem, at.cpu.rip);
            r.Ok? && CallerRestored(c, start.cpu, callerRip, callerRsp, vol, volX) <==>
              VerdictFits(scan, at, Called, start, callerRip, callerRsp, vol, volX) &&
              (scan == NotEpilog ==> SameFrame(acts, at.cpu, acts[0].exit.cpu))
  {
    hide ValidRun, Describes, CallSlots, HoldsAll, OneWay, SameFrame, UnwindTyped, UnwindCodes, Entered, CallerRestored, AgreesApart, Lookup,
      ScanEpilog, LeadsBack, WrapAdd;
    SlotsAtExit(acts, start, callerRip, callerRsp, vol, volX);
    match ScanEpilog(entry, imageBase, at.mem, at.cpu.rip)
    case NotEpilog =>
      CodesRestoreExactly(entry, offset, handlerType, acts, start, callerRip, callerRsp, vol, volX, at.cpu);
      UnwindsByCodes(table, imageBase, entry, handlerType, at);
    case ScanError(_) => ScannedUnwind(table, imageBase, entry, handlerType, at);
    case Epilog(ops) =>
      ScannedUnwind(table, imageBase, entry, handlerType, at);
      SimulationExactly(ops, at, Called, start, callerRip, callerRsp, vol, volX);
  }

  // ---- At an operation of an epilog ----

  /** Operations that pop change rsp and the registers popped, the head rsp alone. */
  lemma {:induction false} PlayedKeeps(ops: seq<EpiOp>, k: nat, mem: Memory, cpu: CpuState)
    requires k <= |ops|
    ensures var c := AfterOps(ops, k, mem, cpu).0;
            c.xmm == cpu.xmm &&
            forall r :: 0 <= r < 16 && r != RSP && (forall i :: 0 <= i < k && ops[i].Pop? ==> ops[i].reg % 16 != r) ==>
              c.gpr[r] == cpu.gpr[r]
  {
    if k > 0 {
      hide Read64, WrapAdd;
      var (c, err) := ApplyEpiOp(ops[0], mem, cpu);
      if err.None? {
        PlayedKeeps(ops[1..], k - 1, mem, c);
        assert forall i :: 0 <= i < k - 1 ==> ops[1..][i] == ops[i + 1];
      }
    }
  }

  /** The frame register is popped by one of the first k operations. */
  predicate FramePopped(f: Shape, acts: seq<Activation>, k: nat)
    requires acts != [] && WellFormed(f, Root(acts).info) && k <= |EpilogFor(f, Root(acts).info)|
  {
    var ops := EpilogFor(f, Root(acts).info);
    exists i :: 0 <= i < k && ops[i].Pop? && ops[i].reg % 16 == FrameRegisterOf(acts)
  }

  lemma {:induction false} SavedAreFree(acts: seq<Activation>, vol: set<int>)
    requires acts != [] && OneFrame(acts)
    ensures SavedGprs(Root(acts).done) - {FrameRegisterOf(acts)} <= FreeGprs(acts, vol)
  {
    hide SetsFrame, SavedGprs, Conforming, OneFrame;
    RestIsOneFrame(acts);
    if |acts| > 1 {
      SavedAreFree(acts[1..], vol);
      assert Root(acts[1..]) == Root(acts);
      if SetsFrame(acts[0].done) {
        NoSetterFrees(acts[1..], vol);
      }
    }
  }

  lemma {:induction false} NoSetterFrees(acts: seq<Activation>, vol: set<int>)
    requires acts != [] && Setter(acts) == []
    ensures SavedGprs(Root(acts).done) <= FreeGprs(acts, vol)
  {
    hide SetsFrame, SavedGprs;
    assert FrameReg(acts[0]) == {};
    if |acts| > 1 {
      NoSetterFrees(acts[1..], vol);
      assert Root(acts[1..]) == Root(acts);
    }
  }

  lemma {:induction false} PushedIsSaved(codes: seq<UnwindCode>, i: nat)
    requires i < |codes| && codes[i].op.PushNonvolatile?
    ensures codes[i].op.reg % 16 in SavedGprs(codes)
  {
    if i > 0 {
      PushedIsSaved(codes[1..], i - 1);
    }
  }

  /** Each pop of an epilog is of a register that the outermost record pushed. */
  lemma PoppedIsSaved(f: Shape, a: Activation, i: nat)
    requires Shaped(f, a) && i < |EpilogFor(f, a.info)| && EpilogFor(f, a.info)[i].Pop?
    ensures EpilogFor(f, a.info)[i].reg % 16 in SavedGprs(a.done)
  {
    var head := HeadFor(f, a.info);
    PopsLength(f.pushes);
    assert i >= |head|;
    var j := i - |head|;
    assert a.done[|f.upper| + j] == f.pushes[j];
    PushedIsSaved(a.done, |f.upper| + j);
  }

  lemma PlayedAgrees(f: Shape, acts: seq<Activation>, k: nat, now: CpuState, vol: set<int>, volX: set<int>)
    requires AtEpilog(f, acts, vol) && Played(f, acts, k, now) && OneWay(acts, vol)
    ensures AgreesApart(now, acts[0].exit.cpu, acts, vol, volX)
    ensures Setter(acts) != [] && !FramePopped(f, acts, k) ==> SameFrame(acts, now, acts[0].exit.cpu)
  {
    hide EpilogFor, SetsFrame, RspReady, MovesRestored, Conforming, RspCounts, FreeGprs, AfterOps, Setter;
    var a, ops, exit := Root(acts), EpilogFor(f, Root(acts).info), acts[0].exit;
    PlayedKeeps(ops, k, exit.mem, exit.cpu);
    SavedAreFree(acts, vol);
    if Setter(acts) != [] {
      FrameRegisterIsNotRsp(acts);
    }
    forall r | 0 <= r < 16 && r != RSP && r !in FreeGprs(acts, vol) && r != FrameRegisterOf(acts)
      ensures now.gpr[r] == exit.cpu.gpr[r]
    {
      forall i | 0 <= i < k && ops[i].Pop?
        ensures ops[i].reg % 16 != r
      {
        PoppedIsSaved(f, a, i);
      }
    }
  }

  /** The bytes that the first k operations of an epilog drop. */
  function Dropped(f: Shape, info: UnwindInfo, k: nat): nat
    requires WellFormed(f, info) && k <= |EpilogFor(f, info)|
  {
    var head := |HeadFor(f, info)|;
    if k < head then 0 else TotalAlloc(f.upper) + 8 * (k - head)
  }

  lemma {:induction false} PopsRise(codes: seq<UnwindCode>, j: nat, info: UnwindInfo, e: CpuState)
    requires OnlyPushes(codes) && j <= |codes|
    ensures WrapAdd(Exec(codes, info, e).Rsp(), 8 * j) == Exec(codes[j..], info, e).Rsp()
  {
    hide WrapAdd, WrapSub;
    if j == 0 {
      assert codes[0..] == codes;
      WrapSelf(Exec(codes, info, e).Rsp());
    } else {
      assert codes[1..][j - 1..] == codes[j..];
      PopsRise(codes[1..], j - 1, info, e);
      WrapUp(Exec(codes[1..], info, e).Rsp(), 8, 8 * (j - 1));
    }
  }

  lemma WrapTwice(x: u64, n: nat, m: nat)
    ensures WrapAdd(WrapAdd(x, n), m) == WrapAdd(x, n + m)
  {
    WrapInverse(x, n);
    WrapShift(WrapAdd(x, n), n, n + m);
    hide WrapAdd, WrapSub;
  }

  lemma WrapBack(x: u64, n: nat)
    ensures WrapAdd(x, n) == x <==> n % TWO64 == 0
  {
    if WrapAdd(x, n) == x {
      var q := (x + n) / TWO64;
      assert x + n == TWO64 * q + x;
      ModUnique(TWO64, q, 0, n);
    } else if n % TWO64 == 0 {
      ModUnique(TWO64, n / TWO64, x, x + n);
    }
  }

  lemma RspAtOperation(f: Shape, a: Activation, k: nat, cpu: CpuState, vol: set<int>, volX: set<int>)
    requires Shaped(f, a) && k <= |EpilogFor(f, a.info)| && AtOperation(f, a, k, cpu, vol, volX) && !SetsFrame(a.done)
    ensures cpu.Rsp() == WrapAdd(AfterProlog(a).Rsp(), Dropped(f, a.info, k))
  {
    AfterPrologRsp(f, a);
    PopsLength(f.pushes);
    hide Exec, Conforming, SetsFrame, WrapAdd, RspAtSet, Back, HeadFor, PopsFor, TotalAlloc;
    var head := |HeadFor(f, a.info)|;
    if k < head {
      WrapSelf(AfterProlog(a).Rsp());
    } else {
      PopsRise(f.pushes, k - head, a.info, a.entry.cpu);
      WrapTwice(AfterProlog(a).Rsp(), TotalAlloc(f.upper), 8 * (k - head));
    }
  }

  /** Without a frame register, k operations raise rsp by what they drop. */
  lemma DroppedRises(f: Shape, acts: seq<Activation>, start: Machine, slots: seq<Slot>, vol: set<int>, volX: set<int>, k: nat, now: CpuState)
    requires AtEpilog(f, acts, vol) && ValidRun(acts, start, slots, vol, volX) && Played(f, acts, k, now)
    requires HoldsAll(acts[0].exit.mem, SlotsOf(Root(acts))) && !SetsFrame(Root(acts).done)
    ensures now.Rsp() == WrapAdd(acts[0].exit.cpu.Rsp(), Dropped(f, Root(acts).info, k))
  {
    hide ValidRun, Conforming, MovesRestored, HoldsAll, WrapAdd, AfterOps, AtOperation, EpilogFor, Dropped, Slots, AfterProlog, FrameOf;
    var a := Root(acts);
    AfterPrologRsp(f, a);
    ExitIsReady(f, acts, start, slots, vol, volX);
    AfterAllIsAt(f, a, k, acts[0].exit, now, vol, volX);
    RspAtOperation(f, a, k, now, vol, volX);
  }

  lemma {:induction false} NoSetterInRoot(acts: seq<Activation>)
    requires acts != [] && Setter(acts) == []
    ensures !SetsFrame(Root(acts).done)
  {
    hide SetsFrame;
    if |acts| > 1 {
      NoSetterInRoot(acts[1..]);
    }
  }

  /** What the codes need is still as it was at the body's end: nothing has been dropped, or
      the frame register is not changed. */
  predicate StillFits(f: Shape, acts: seq<Activation>, k: nat, now: CpuState)
    requires acts != [] && WellFormed(f, Root(acts).info) && k <= |EpilogFor(f, Root(acts).info)|
  {
    if Setter(acts) != [] then now.gpr[FrameRegisterOf(acts)] == acts[0].exit.cpu.gpr[FrameRegisterOf(acts)]
    else Dropped(f, Root(acts).info, k) % TWO64 == 0
  }

  lemma FitsAsLongAs(f: Shape, acts: seq<Activation>, start: Machine, slots: seq<Slot>, vol: set<int>, volX: set<int>, k: nat, now: CpuState)
    requires AtEpilog(f, acts, vol) && ValidRun(acts, start, slots, vol, volX) && Played(f, acts, k, now) && OneWay(acts, vol)
    requires HoldsAll(acts[0].exit.mem, SlotsOf(Root(acts)))
    ensures StillFits(f, acts, k, now) <==> SameFrame(acts, now, acts[0].exit.cpu)
    ensures Setter(acts) != [] && !FramePopped(f, acts, k) ==> StillFits(f, acts, k, now)
  {
    hide ValidRun, HoldsAll, SetsFrame, MovesRestored, RspReady, Conforming, EpilogFor, AfterOps, FramePopped, OneWay, Dropped, WrapAdd;
    PlayedAgrees(f, acts, k, now, vol, volX);
    if Setter(acts) == [] {
      NoSetterInRoot(acts);
      DroppedRises(f, acts, start, slots, vol, volX, k, now);
      WrapBack(acts[0].exit.cpu.Rsp(), Dropped(f, Root(acts).info, k));
    }
  }

  /** At operation k of an epilog in which the scanner sees none, unwinding restores the caller
      if and only if what the codes need still fits: nothing has been dropped yet, or, with a
      frame register, it is as it was, which it is until it is popped. */
  lemma MissedExactly(f: Shape, acts: seq<Activation>, start: Machine, callerRip: u64, callerRsp: u64,
                      vol: set<int>, volX: set<int>, k: nat, now: CpuState, offset: nat,
                      table: seq<UnwindEntry>, imageBase: u64, entry: UnwindEntry, handlerType: HandlerType)
    requires AtEpilog(f, acts, vol) && Entered(Called, start, callerRip, callerRsp) && OneWay(acts, vol)
    requires ValidRun(acts, start, CallSlots(Called, start.cpu, callerRip, callerRsp), vol, volX)
    requires Played(f, acts, k, now) && Describes(entry.info, Some(offset), acts, Called)
    requires StandsIn(table, imageBase, entry, Machine(now, acts[0].exit.mem)) && now.rip == imageBase + entry.beginRva + offset
    ensures var (c, r) := UnwindTyped(table, imageBase, now, acts[0].exit.mem, handlerType);
            (r.Ok? && CallerRestored(c, start.cpu, callerRip, callerRsp, vol, volX) <==> StillFits(f, acts, k, now)) &&
            (r.Ok? && c.Rsp() == callerRsp <==> StillFits(f, acts, k, now))
    ensures Setter(acts) != [] && !FramePopped(f, acts, k) ==> StillFits(f, acts, k, now)
  {
    hide ValidRun, Describes, CallSlots, HoldsAll, MovesRestored, RspReady, Conforming, EpilogFor, AfterOps, FramePopped, OneWay, StandsIn, StillFits, SetsFrame, SameFrame,
      UnwindTyped, UnwindCodes, Entered, CallerRestored, AgreesApart;
    SlotsAtExit(acts, start, callerRip, callerRsp, vol, volX);
    PlayedAgrees(f, acts, k, now, vol, volX);
    FitsAsLongAs(f, acts, start, CallSlots(Called, start.cpu, callerRip, callerRsp), vol, volX, k, now);
    CodesRestoreExactly(entry, offset, handlerType, acts, start, callerRip, callerRsp, vol, volX, now);
    UnwindsByCodes(table, imageBase, entry, handlerType, Machine(now, acts[0].exit.mem));
  }

  /** At every operation of an epilog whose remaining bytes stand at rip, whatever instruction
      ends it: unwinding restores the caller if and only if the scanner knows that instruction
      for an end, or it does not and what the codes need still fits. */
  lemma UnwindAtOperationExactly(f: Shape, acts: seq<Activation>, start: Machine, callerRip: u64, callerRsp: u64,
                                 vol: set<int>, volX: set<int>, k: nat, now: CpuState, offset: nat,
                                 table: seq<UnwindEntry>, imageBase: u64, entry: UnwindEntry, handlerType: HandlerType)
    requires AtEpilog(f, acts, vol) && Entered(Called, start, callerRip, callerRsp) && OneWay(acts, vol)
    requires ValidRun(acts, start, CallSlots(Called, start.cpu, callerRip, callerRsp), vol, volX)
    requires Played(f, acts, k, now) && Describes(entry.info, Some(offset), acts, Called)
    requires InFunction(table, imageBase, entry, Machine(now, acts[0].exit.mem)) && now.rip == imageBase + entry.beginRva + offset
    requires OpsAt(acts[0].exit.mem, now.rip) == Some(EpilogFor(f, Root(acts).info)[k..])
    ensures var mem := acts[0].exit.mem;
            var (c, r), end := UnwindTyped(table, imageBase, now, mem, handlerType), EpilogAgrees.EpilogEnd(mem, now.rip);
            r.Ok? && CallerRestored(c, start.cpu, callerRip, callerRsp, vol, volX) <==>
              EndsEpilog(mem, imageBase + entry.beginRva, imageBase + entry.endRva, end) ||
              (!CutShort(mem, end) && StillFits(f, acts, k, now))
  {
    hide ValidRun, Describes, CallSlots, MovesRestored, RspReady, Conforming, OneWay, StillFits, SetsFrame, UnwindTyped, Entered, CallerRestored, Lookup,
      EndsEpilog, CutShort, EpilogAgrees.EpilogEnd, ScanEpilog, EpilogFor, AfterOps;
    var mem := acts[0].exit.mem;
    ScansExactly(entry, imageBase, mem, now.rip);
    EndsAreNotCut(mem, imageBase + entry.beginRva, imageBase + entry.endRva, EpilogAgrees.EpilogEnd(mem, now.rip));
    NoHeadError(mem, now.rip);
    match ScanEpilog(entry, imageBase, mem, now.rip)
    case NotEpilog =>
      MissedExactly(f, acts, start, callerRip, callerRsp, vol, volX, k, now, offset, table, imageBase, entry, handlerType);
    case ScanError(_) => ScannedUnwind(table, imageBase, entry, handlerType, Machine(now, mem));
    case Epilog(_) =>
      UnwindFromEpilog(f, acts, start, callerRip, callerRsp, vol, volX, k, now, table, imageBase, entry, handlerType);
  }

  /** A single record goes one way. */
  lemma SingleIsOneWay(f: Shape, a: Activation, vol: set<int>)
    requires Shaped(f, a)
    ensures OneWay([a], vol)
  {
    AfterPrologRsp(f, a);
    ConformingKeepsRegisters(a.done, a.info, a.entry.cpu);
    if SetsFrame(a.done) {
      SetFrameDecides(f.upper, f.pushes, a.info);
      assert a.info.frameRegister.value % 16 in FrameReg(a);
    }
    assert [a][1..] == [] && RspCounts([]) && Setter([]) == [];
    assert RspCounts([a]) == GoesByRsp(a.done, a.info, true);
    hide Conforming, SetsFrame, GoesByRsp, Exec, RspAtSet, RspCounts;
  }

  lemma {:induction false} SetFrameDecides(upper: seq<UnwindCode>, pushes: seq<UnwindCode>, info: UnwindInfo)
    requires SetsFrame(upper) && !ByRsp(info) && forall i :: 0 <= i < |upper| ==> !upper[i].op.PushNonvolatile?
    ensures !GoesByRsp(upper + pushes, info, true)
  {
    assert (upper + pushes)[1..] == upper[1..] + pushes;
    if !upper[0].op.SetFrameRegister? {
      SetFrameDecides(upper[1..], pushes, info);
    }
  }

  lemma EndsAreNotCut(mem: Memory, begin: int, end: int, pc: int)
    ensures !(EndsEpilog(mem, begin, end, pc) && CutShort(mem, pc))
  {
    hide Read32, WrapAdd;
  }

  lemma NoHeadError(mem: Memory, rip: int)
    requires OpsAt(mem, rip).Some?
    ensures rip in mem && !ScanHead(mem, rip, mem[rip]).HeadError?
  {
    hide ScanHead;
  }

  // ---- An epilog that is unwound to the wrong caller ----

  const ALLOC := UnwindCode(4, Alloc(0x10))
  const INFO := UnwindInfo(false, false, None, 0, [ALLOC], None, None, None)
  const ENTRY := UnwindEntry(0, 0x100, INFO)
  const SHAPE := Shape([ALLOC], [], AddTotal)

  predicate InUse(a: int) {
    a < 0x1040 || a >= 0x2004
  }

  /** A stack of zeros and, at 0x2004, `add rsp, 10h; jmp [r8]`. */
  function Code(): Memory {
    map a: int | 0x1000 <= a < 0x200B && InUse(a) ::
      if a == 0x2004 then 0x48 else if a == 0x2005 then 0x83 else if a == 0x2006 then 0xC4 else if a == 0x2007 then 0x10
      else if a == 0x2008 then 0x41 else if a == 0x2009 then 0xFF else if a == 0x200A then 0x20 else 0
  }

  function At(rsp: u64, rip: u64): Machine {
    Machine(UnwindExample.Registers(rsp, 0, rip), Code())
  }

  /** `sub rsp, 10h` ran, and the body came to its epilog. */
  function FrameRun(): Activation {
    Activation(INFO, [ALLOC], At(0x1018, 0x2000), At(0x1008, 0x2004))
  }

  lemma ReturnHeld()
    ensures Holds(Code(), 0x1018, LeBytes(0, 8))
  {
    UnwindExample.ZeroBytes(8);
    hide LeBytes;
    assert Mapped(Code(), 0x1018, 8);
    assert Bytes(Code(), 0x1018, 8) == LeBytes(0, 8);
  }

  lemma RunIsValid()
    ensures var a, start := FrameRun(), At(0x1018, 0x2000);
            Entered(Called, start, 0, 0x1020) && ValidRun([a], start, CallSlots(Called, start.cpu, 0, 0x1020), {}, {}) &&
            Describes(INFO, Some(8), [a], Called) && Shaped(SHAPE, a) &&
            AfterProlog(a).Rsp() == 0x1008 && !SetsFrame(a.done) && SavedGprs(a.done) == {} && SavedXmms(a.done) == {}
  {
    hide LeBytes;
    var a, start := FrameRun(), At(0x1018, 0x2000);
    var call := CallSlots(Called, start.cpu, 0, 0x1020);
    ReturnHeld();
    assert [ALLOC][1..] == [] && Exec([], INFO, start.cpu) == start.cpu;
    assert AfterProlog(a) == start.cpu.WithRsp(0x1008);
    assert Slots([], INFO, start.cpu) == [] && SlotsOf(a) == [] && Conforming([], INFO) && !HasSaves([]) && !SetsFrame([]);
    assert SavedGprs([]) == {} && SavedXmms([]) == {} && !SetsFrame(a.done);
    assert [a][1..] == [] && ValidRun([], start, call, {}, {});
    assert FreeGprs([], {}) == {} && FreeXmms([], {}) == {};
    assert Executed([ALLOC], Some(8)) == [ALLOC] && [ALLOC] + MachineCodes(Called) == [ALLOC];
    assert Codes(SHAPE) == [ALLOC];
  }

  lemma EpilogStands()
    ensures var a, now := FrameRun(), At(0x1018, 0x2008).cpu;
            AtEpilog(SHAPE, [a], {}) && Played(SHAPE, [a], 1, now) && EpilogFor(SHAPE, INFO) == [AddRsp(0x10)] && OneWay([a], {})
  {
    var a := FrameRun();
    RunIsValid();
    SingleIsOneWay(SHAPE, a, {});
    hide ValidRun, Entered, Describes, Conforming, AfterProlog, OneWay, SetsFrame, Code;
    assert [ALLOC][1..] == [] && TotalAlloc([ALLOC]) == 0x10;
    assert EpilogFor(SHAPE, INFO) == [AddRsp(0x10)];
    assert [a][..0] == [] && AllGprs([]) == {} && AllXmms([]) == {};
    assert SavedGprs([ALLOC]) == {} && SavedXmms([ALLOC]) == {} && SHAPE.upper == a.done;
    assert AfterOps([AddRsp(0x10)][1..], 0, a.exit.mem, a.exit.cpu.WithRsp(0x1018)) == (a.exit.cpu.WithRsp(0x1018), None);
  }

  lemma MissedThere()
    ensures var at := At(0x1018, 0x2008);
            StandsIn([ENTRY], 0x2000, ENTRY, at) && OpsAt(at.mem, 0x2008) == Some([])
  {
    assert 0x2008 in Code() && 0x2009 in Code();
    assert [ENTRY][1..] == [] && PartitionPoint([ENTRY], 8) == 1;
    assert EpilogAgrees.PopAt(Code(), 0x2008) == None && ScanHead(Code(), 0x2008, 0x41) == HeadOk([], 0x2008);
    var none: seq<EpiOp> := [];
    assert EpilogAgrees.Pops(Code(), 0x2008) == none && none + none == none;
  }

  /** `add rsp, 10h` of an epilog ran and `jmp [r8]` is next, which the ABI lets end it: the
      bytes are the rest of the epilog, and unwinding misses the caller's rsp. */
  lemma PrefixedJumpIsMissed()
    ensures var a, at, start := FrameRun(), At(0x1018, 0x2008), At(0x1018, 0x2000);
            var (c, r) := UnwindTyped([ENTRY], 0x2000, at.cpu, at.mem, EXCEPTION);
            Entered(Called, start, 0, 0x1020) && ValidRun([a], start, CallSlots(Called, start.cpu, 0, 0x1020), {}, {}) &&
            AtEpilog(SHAPE, [a], {}) && Played(SHAPE, [a], 1, at.cpu) &&
            OpsAt(at.mem, at.cpu.rip) == Some(EpilogFor(SHAPE, INFO)[1..]) && !(r.Ok? && c.Rsp() == 0x1020)
  {
    hide ValidRun, Entered, Describes, AtEpilog, Played, OneWay, StandsIn, UnwindTyped, OpsAt, Code, CallSlots;
    RunIsValid();
    EpilogStands();
    MissedThere();
    assert Root([FrameRun()]) == FrameRun() && TotalAlloc([ALLOC]) == 0x10 by {
      assert [ALLOC][1..] == [];
    }
    assert !StillFits(SHAPE, [FrameRun()], 1, At(0x1018, 0x2008).cpu);
    MissedExactly(SHAPE, [FrameRun()], At(0x1018, 0x2000), 0, 0x1020, {}, {}, 1, At(0x1018, 0x2008).cpu, 8,
                  [ENTRY], 0x2000, ENTRY, EXCEPTION);
  }
}
