/** From bytes to unwinding: the interpreter executes any number of a prolog's instructions
    from its machine code, and unwinding from where it stands restores the caller. */
module PrologExecution {
  import opened Words
  import opened GuestMemory
  import opened CpuModel
  import opened Decoder
  import opened Interp
  import opened Unwind
  import opened PrologRun
  import opened UnwindInverse
  import opened PrologAgrees
  import opened Assembler
  import opened EpilogAgrees

  predicate AllEncodable(codes: seq<UnwindCode>, info: UnwindInfo) {
    forall i :: 0 <= i < |codes| ==> Encodable(codes[i].op, info)
  }

  /** The machine code of a prolog; codes list its instructions last to first. */
  function Code(codes: seq<UnwindCode>, info: UnwindInfo): seq<byte>
    requires AllEncodable(codes, info)
  {
    if codes == [] then [] else Code(codes[1..], info) + PrologBytes(codes[0].op, info)
  }

  /** Nothing is stored over the bytes from lo to hi. */
  predicate Clear(slots: seq<Slot>, lo: int, hi: int) {
    forall i :: 0 <= i < |slots| ==> slots[i].addr + |slots[i].bytes| <= lo || hi <= slots[i].addr
  }

  // ---- Running n + 1 instructions is running n and one more ----

  function Then(s: Step): Step {
    hide Execute;
    if s.outcome == Continue then Execute(s.mem, s.cpu, B64) else s
  }

  lemma {:induction false} RunLast(mem: Memory, cpu: CpuState, n: nat)
    ensures Run(mem, cpu, n + 1) == Then(Run(mem, cpu, n))
    decreases n
  {
    hide Execute;
    var s := Execute(mem, cpu, B64);
    if n == 0 {
      if s.outcome == Continue {
        assert Run(s.mem, s.cpu, 0) == s;
      }
    } else if s.outcome == Continue {
      RunLast(s.mem, s.cpu, n - 1);
    }
  }

  lemma {:induction false} StoreAllAcross(a: seq<Slot>, b: seq<Slot>, mem: Memory)
    ensures StoreAll(a + b, mem) == match StoreAll(a, mem) case Ok(m) => StoreAll(b, m) case Err(e) => Err(e)
    decreases |a|
  {
    hide Write;
    if a == [] {
      assert a + b == b;
    } else {
      assert (a + b)[1..] == a[1..] + b;
      match Write(mem, a[0].addr, a[0].bytes)
      case Err(_) =>
      case Ok(m) => StoreAllAcross(a[1..], b, m);
    }
  }

  lemma ClearParts(a: seq<Slot>, b: seq<Slot>, lo: int, hi: int)
    requires Clear(a + b, lo, hi)
    ensures Clear(a, lo, hi) && Clear(b, lo, hi)
  {
    assert forall i :: 0 <= i < |a| ==> a[i] == (a + b)[i];
    assert forall i :: 0 <= i < |b| ==> b[i] == (a + b)[|a| + i];
  }

  // ---- One instruction ----

  /** After the instructions rsp is the frame: it was when a declared frame register was set,
      and nothing has moved it since. */
  predicate RspIsFrame(done: seq<UnwindCode>, info: UnwindInfo) {
    info.frameRegister.None? ||
    (done != [] && (done[0].op.SetFrameRegister? ||
                    ((IsSave(done[0].op) || done[0].op.EpilogCode?) && RspIsFrame(done[1..], info))))
  }

  /** Saves are encoded relative to rsp. */
  predicate SavesAtRsp(codes: seq<UnwindCode>, info: UnwindInfo) {
    codes == [] ||
    (SavesAtRsp(codes[1..], info) && (codes[0].op.SaveNonvolatile? ==> RspIsFrame(codes[1..], info)))
  }

  lemma {:induction false} FrameIsRsp(done: seq<UnwindCode>, info: UnwindInfo, e: CpuState, cpu: CpuState)
    requires Conforming(done, info) && RspIsFrame(done, info)
    requires cpu.gpr == Exec(done, info, e).gpr
    ensures FrameOf(info, cpu) == cpu.Rsp()
  {
    if info.frameRegister.Some? {
      var s := Exec(done[1..], info, e);
      if done[0].op.SetFrameRegister? {
        WrapInverse(s.Rsp(), info.frameOffset);
      } else {
        FrameIsRsp(done[1..], info, e, s);
      }
    }
  }

  lemma {:induction false} SavesAtRspSuffix(codes: seq<UnwindCode>, k: nat, info: UnwindInfo)
    requires k <= |codes| && SavesAtRsp(codes, info)
    ensures SavesAtRsp(codes[k..], info)
  {
    if k > 0 {
      assert codes[k..] == codes[1..][k - 1..];
      SavesAtRspSuffix(codes[1..], k - 1, info);
    } else {
      assert codes[0..] == codes;
    }
  }

  /** A save relative to rsp in a record with a frame register comes after it is set. */
  lemma {:induction false} SavesFollowSet(codes: seq<UnwindCode>, info: UnwindInfo)
    requires AllEncodable(codes, info) && SavesAtRsp(codes, info) && info.frameRegister.Some?
    ensures HasSaves(codes) ==> SetsFrame(codes)
  {
    if codes != [] {
      assert Encodable(codes[0].op, info);
      SavesFollowSet(codes[1..], info);
      if codes[0].op.SaveNonvolatile? {
        RspIsFrameWasSet(codes[1..], info);
      }
    }
  }

  lemma {:induction false} RspIsFrameWasSet(done: seq<UnwindCode>, info: UnwindInfo)
    requires RspIsFrame(done, info) && info.frameRegister.Some?
    ensures SetsFrame(done)
  {
    if !done[0].op.SetFrameRegister? {
      RspIsFrameWasSet(done[1..], info);
    }
  }

  lemma SameStores(op: UnwindOp, info: UnwindInfo, a: CpuState, b: CpuState)
    requires a.gpr == b.gpr && Encodable(op, info)
    ensures Stores(op, info, a) == Stores(op, info, b) && Exec1(op, info, a).gpr == Exec1(op, info, b).gpr
  {
  }

  lemma AtMostOneStore(op: UnwindOp, info: UnwindInfo, cpu: CpuState)
    ensures |Stores(op, info, cpu)| <= 1
  {
  }

  lemma RestOf(codes: seq<UnwindCode>, info: UnwindInfo)
    requires codes != [] && Conforming(codes, info) && SavesAtRsp(codes, info)
    ensures Conforming(codes[1..], info) && SavesAtRsp(codes[1..], info)
    ensures codes[0].op.SaveNonvolatile? ==> RspIsFrame(codes[1..], info)
  {
  }

  /** What running the codes must lead to. */
  ghost predicate Ran(s: Step, codes: seq<UnwindCode>, info: UnwindInfo, start: Machine, at: int, code: seq<byte>)
    requires AllEncodable(codes, info)
  {
    s.outcome == Continue && s.cpu.gpr == Exec(codes, info, start.cpu).gpr && s.cpu.xmm == start.cpu.xmm &&
    s.cpu.rip == at + |Code(codes, info)| && StoreAll(Slots(codes, info, start.cpu), start.mem) == Ok(s.mem) &&
    Holds(s.mem, at, code)
  }

  lemma OneMore(s: Step, codes: seq<UnwindCode>, info: UnwindInfo, start: Machine, at: u64, rest: seq<byte>)
    requires codes != [] && AllEncodable(codes, info) && Conforming(codes, info) && SavesAtRsp(codes, info)
    requires at + |Code(codes, info) + rest| < TWO64
    requires Clear(Slots(codes, info, start.cpu), at, at + |Code(codes, info) + rest|)
    requires StoreAll(Slots(codes, info, start.cpu), start.mem).Ok?
    requires Ran(s, codes[1..], info, start, at, Code(codes, info) + rest)
    ensures Ran(Then(s), codes, info, start, at, Code(codes, info) + rest)
  {
    hide *;
    var op, before := codes[0].op, Exec(codes[1..], info, start.cpu);
    var older, newest := Slots(codes[1..], info, start.cpu), Stores(op, info, before);
    Unfold(codes, info, start.cpu);
    RanParts(s, codes[1..], info, start, at, Code(codes, info) + rest);
    var code, bytes := Code(codes, info) + rest, PrologBytes(op, info);
    assert code == Code(codes[1..], info) + (bytes + rest);
    HoldsPart(s.mem, at, Code(codes[1..], info), bytes + rest);
    HoldsPart(s.mem, s.cpu.rip, bytes, rest);
    StoreAllAcross(older, newest, start.mem);
    ClearParts(older, newest, at, at + |code|);
    SameStores(op, info, s.cpu, before);
    AtMostOneStore(op, info, before);
    StoresOne(newest, s.mem);
    if op.SaveNonvolatile? {
      RestOf(codes, info);
      FrameIsRsp(codes[1..], info, start.cpu, s.cpu);
    }
    PrologInstruction(s.mem, s.cpu, op, info);
    var t := Execute(s.mem, s.cpu, B64);
    AfterStep(t, op, info, s.cpu, s.mem, newest, |bytes|);
    CodeSurvives(s.mem, t.mem, newest, at, code);
    NoWrapBelow(s.cpu.rip + |bytes|);
    RanIs(t, codes, info, start, at, code);
    ThenIs(s);
  }

  lemma ThenIs(s: Step)
    requires s.outcome == Continue
    ensures Then(s) == Execute(s.mem, s.cpu, B64)
  {
    hide Execute;
  }

  lemma NoWrapBelow(x: int)
    requires 0 <= x < TWO64
    ensures Wrap64(x) == x
  {
  }

  /** The functions on codes, one instruction more. */
  lemma Unfold(codes: seq<UnwindCode>, info: UnwindInfo, e: CpuState)
    requires codes != [] && AllEncodable(codes, info)
    ensures AllEncodable(codes[1..], info) && Encodable(codes[0].op, info)
    ensures Code(codes, info) == Code(codes[1..], info) + PrologBytes(codes[0].op, info)
    ensures Exec(codes, info, e) == Exec1(codes[0].op, info, Exec(codes[1..], info, e))
    ensures Slots(codes, info, e) == Slots(codes[1..], info, e) + Stores(codes[0].op, info, Exec(codes[1..], info, e))
  {
    hide Encodable, PrologBytes, Exec1, Stores;
  }

  lemma RanParts(s: Step, codes: seq<UnwindCode>, info: UnwindInfo, start: Machine, at: int, code: seq<byte>)
    requires AllEncodable(codes, info) && Ran(s, codes, info, start, at, code)
    ensures s.outcome == Continue && s.cpu.gpr == Exec(codes, info, start.cpu).gpr && s.cpu.xmm == start.cpu.xmm
    ensures s.cpu.rip == at + |Code(codes, info)| && StoreAll(Slots(codes, info, start.cpu), start.mem) == Ok(s.mem)
    ensures Holds(s.mem, at, code)
  {
    hide Exec, Code, Slots, StoreAll, Holds;
  }

  lemma RanIs(s: Step, codes: seq<UnwindCode>, info: UnwindInfo, start: Machine, at: int, code: seq<byte>)
    requires AllEncodable(codes, info)
    requires s.outcome == Continue && s.cpu.gpr == Exec(codes, info, start.cpu).gpr && s.cpu.xmm == start.cpu.xmm
    requires s.cpu.rip == at + |Code(codes, info)| && StoreAll(Slots(codes, info, start.cpu), start.mem) == Ok(s.mem)
    requires Holds(s.mem, at, code)
    ensures Ran(s, codes, info, start, at, code)
  {
    hide Exec, Code, Slots, StoreAll, Holds;
  }

  lemma StoresOne(slots: seq<Slot>, mem: Memory)
    requires |slots| <= 1
    ensures StoreAll(slots, mem) == if slots == [] then Ok(mem) else Write(mem, slots[0].addr, slots[0].bytes)
  {
    if slots != [] {
      assert slots[1..] == [];
    }
  }

  lemma AfterStep(t: Step, op: UnwindOp, info: UnwindInfo, cpu: CpuState, mem: Memory, slots: seq<Slot>, length: int)
    requires IsPrologStep(t, op, info, cpu, mem, length) && slots == Stores(op, info, cpu) && |slots| <= 1
    ensures t.outcome == Continue && t.cpu.gpr == Exec1(op, info, cpu).gpr && t.cpu.xmm == cpu.xmm
    ensures t.cpu.rip == Wrap64(cpu.rip + length) && StoreAll(slots, mem) == Ok(t.mem)
  {
    StoresOne(slots, mem);
  }

  lemma CodeSurvives(mem: Memory, mem': Memory, slots: seq<Slot>, at: int, code: seq<byte>)
    requires |slots| <= 1 && StoreAll(slots, mem) == Ok(mem') && Clear(slots, at, at + |code|)
    requires Holds(mem, at, code)
    ensures Holds(mem', at, code)
  {
    StoresOne(slots, mem);
    HoldsFrame(mem, mem', at, code);
  }

  // ---- A whole prolog, or any part of it ----

  /** The interpreter, run from a prolog's first byte for as many instructions, makes the
      register and memory changes of the prolog model and stands right after them. */
  lemma {:induction false} PrologExecutes(codes: seq<UnwindCode>, info: UnwindInfo, start: Machine, rest: seq<byte>)
    requires AllEncodable(codes, info) && Conforming(codes, info) && SavesAtRsp(codes, info)
    requires Holds(start.mem, start.cpu.rip, Code(codes, info) + rest)
    requires start.cpu.rip + |Code(codes, info) + rest| < TWO64
    requires Clear(Slots(codes, info, start.cpu), start.cpu.rip, start.cpu.rip + |Code(codes, info) + rest|)
    requires StoreAll(Slots(codes, info, start.cpu), start.mem).Ok?
    ensures Ran(Run(start.mem, start.cpu, |codes|), codes, info, start, start.cpu.rip, Code(codes, info) + rest)
    decreases |codes|
  {
    hide Execute, Conforming, SavesAtRsp, Encodable, PrologBytes, Stores, Exec1, Holds, Then;
    if codes == [] {
      NothingRan(start);
    } else {
      var older := Slots(codes[1..], info, start.cpu);
      var newest := Stores(codes[0].op, info, Exec(codes[1..], info, start.cpu));
      RestOf(codes, info);
      assert Code(codes, info) + rest == Code(codes[1..], info) + (PrologBytes(codes[0].op, info) + rest);
      ClearParts(older, newest, start.cpu.rip, start.cpu.rip + |Code(codes, info) + rest|);
      StoreAllAcross(older, newest, start.mem);
      PrologExecutes(codes[1..], info, start, PrologBytes(codes[0].op, info) + rest);
      RunLast(start.mem, start.cpu, |codes| - 1);
      OneMore(Run(start.mem, start.cpu, |codes| - 1), codes, info, start, start.cpu.rip, rest);
    }
  }

  lemma NothingRan(start: Machine)
    ensures Run(start.mem, start.cpu, 0) == Step(start.cpu, start.mem, Continue)
  {
  }

  // ---- The code offsets in the table ----

  /** Each code carries the offset of the end of its instruction. */
  predicate OffsetsFit(codes: seq<UnwindCode>, info: UnwindInfo)
    requires AllEncodable(codes, info)
  {
    codes == [] || (codes[0].prologOffset == |Code(codes, info)| && OffsetsFit(codes[1..], info))
  }

  lemma {:induction false} ExecutedAll(codes: seq<UnwindCode>, info: UnwindInfo, offset: nat)
    requires AllEncodable(codes, info) && OffsetsFit(codes, info) && |Code(codes, info)| <= offset
    ensures Executed(codes, Some(offset)) == codes
  {
    hide PrologBytes, Encodable;
    if codes != [] {
      ExecutedAll(codes[1..], info, offset);
    }
  }

  lemma BytesNotEmpty(op: UnwindOp, info: UnwindInfo)
    requires Encodable(op, info)
    ensures PrologBytes(op, info) != []
  {
  }

  /** Between two instructions, the codes that count as executed are those that ran. */
  lemma {:induction false} ExecutedAt(codes: seq<UnwindCode>, k: nat, info: UnwindInfo)
    requires AllEncodable(codes, info) && OffsetsFit(codes, info) && k <= |codes|
    ensures Executed(codes, Some(|Code(codes[k..], info)|)) == codes[k..]
    ensures |Code(codes[k..], info)| + k <= |Code(codes, info)|
  {
    hide PrologBytes, Encodable;
    if k == 0 {
      ExecutedAll(codes, info, |Code(codes, info)|);
    } else {
      BytesNotEmpty(codes[0].op, info);
      assert codes[1..][k - 1..] == codes[k..];
      ExecutedAt(codes[1..], k - 1, info);
    }
  }

  lemma {:induction false} CodeSplits(codes: seq<UnwindCode>, k: nat, info: UnwindInfo) returns (rest: seq<byte>)
    requires AllEncodable(codes, info) && k <= |codes|
    ensures Code(codes, info) == Code(codes[k..], info) + rest
    ensures k > 0 ==> PrologBytes(codes[k - 1].op, info) <= rest
  {
    hide PrologBytes, Encodable;
    if k == 0 {
      rest := [];
    } else if k == 1 {
      rest := PrologBytes(codes[0].op, info);
    } else {
      assert codes[1..][k - 1..] == codes[k..];
      rest := CodeSplits(codes[1..], k - 1, info);
      rest := rest + PrologBytes(codes[0].op, info);
    }
  }

  lemma {:induction false} SlotsOfSuffix(codes: seq<UnwindCode>, k: nat, info: UnwindInfo, e: CpuState) returns (more: seq<Slot>)
    requires k <= |codes|
    ensures Slots(codes, info, e) == Slots(codes[k..], info, e) + more
  {
    hide Stores;
    if k == 0 {
      more := [];
    } else {
      assert codes[1..][k - 1..] == codes[k..];
      more := SlotsOfSuffix(codes[1..], k - 1, info, e);
      more := more + Stores(codes[0].op, info, Exec(codes[1..], info, e));
    }
  }

  lemma {:induction false} ConformingSuffix(codes: seq<UnwindCode>, k: nat, info: UnwindInfo)
    requires k <= |codes| && Conforming(codes, info)
    ensures Conforming(codes[k..], info)
  {
    if k > 0 {
      assert codes[k..] == codes[1..][k - 1..];
      ConformingSuffix(codes[1..], k - 1, info);
    } else {
      assert codes[0..] == codes;
    }
  }

  lemma {:induction false} DisjointPrefix(a: seq<Slot>, b: seq<Slot>, taken: set<int>)
    requires Disjoint(a + b, taken)
    ensures Disjoint(a, taken)
    decreases |a|
  {
    hide Span;
    if a != [] {
      assert (a + b)[0] == a[0] && (a + b)[1..] == a[1..] + b;
      DisjointPrefix(a[1..], b, taken + Span(a[0]));
    }
  }

  // ---- Execute, then unwind ----

  /** A called function whose prolog is the machine code of its unwind codes. */
  ghost predicate Entering(entry: UnwindEntry, imageBase: u64, start: Machine, callerRip: u64, callerRsp: u64) {
    var info, codes := entry.info, entry.info.codes;
    info.chained.None? && AllEncodable(codes, info) && Conforming(codes, info) && SavesAtRsp(codes, info) &&
    OffsetsFit(codes, info) && start.cpu.rip == imageBase + entry.beginRva && start.cpu.rip + |Code(codes, info)| < TWO64 &&
    entry.beginRva + |Code(codes, info)| < TWO32 &&
    Holds(start.mem, start.cpu.rip, Code(codes, info)) &&
    Entered(Called, start, callerRip, callerRsp) &&
    var slots := Slots(codes, info, start.cpu);
    Disjoint(slots, Spans(CallSlots(Called, start.cpu, callerRip, callerRsp))) &&
    StoreAll(slots, start.mem).Ok? && Clear(slots, start.cpu.rip, start.cpu.rip + |Code(codes, info)|)
  }

  /** A frame register is saved before it is set. */
  predicate FrameSaved(codes: seq<UnwindCode>, info: UnwindInfo) {
    SetsFrame(codes) && info.frameRegister.Some? ==> info.frameRegister.value % 16 in SavedGprs(codes)
  }

  /** Execute any number of a prolog's instructions with the interpreter, then unwind: rip,
      rsp and all other registers are the caller's again. Before the last instruction the
      code itself rules out an epilog; after it, the bytes that follow must not be one. */
  lemma ExecuteThenUnwind(table: seq<UnwindEntry>, imageBase: u64, entry: UnwindEntry, handlerType: HandlerType,
                          start: Machine, callerRip: u64, callerRsp: u64, k: nat)
    requires Entering(entry, imageBase, start, callerRip, callerRsp) && k <= |entry.info.codes|
    requires var done := entry.info.codes[k..];
             FrameSaved(done, entry.info) && entry.beginRva + |Code(done, entry.info)| < TWO32 &&
             Lookup(table, entry.beginRva + |Code(done, entry.info)|) == Some(entry)
    requires var now := Run(start.mem, start.cpu, |entry.info.codes| - k);
             k == 0 ==> ScanEpilog(entry, imageBase, now.mem, now.cpu.rip) == NotEpilog
    ensures var now := Run(start.mem, start.cpu, |entry.info.codes| - k);
            var (c, r) := UnwindTyped(table, imageBase, now.cpu, now.mem, handlerType);
            now.outcome == Continue && r.Ok? && c.rip == callerRip && c.Rsp() == callerRsp && c.xmm == start.cpu.xmm &&
            forall i :: 0 <= i < 16 && i != RSP ==> c.gpr[i] == start.cpu.gpr[i]
  {
    hide Conforming, Encodable, AllEncodable, PrologBytes, UnwindTyped, Lookup, ScanEpilog, Run, Holds, OffsetsFit,
      Executed, Disjoint, StoreAll, Slots, Exec, CallSlots, Spans, Code, Entering, Ran, FrameSaved, Entered, SavesAtRsp,
      HasSaves, SetsFrame;
    var info, codes := entry.info, entry.info.codes;
    var done := codes[k..];
    var rest := PartRuns(entry, imageBase, start, callerRip, callerRsp, k);
    var now := Run(start.mem, start.cpu, |done|);
    RanParts(now, done, info, start, start.cpu.rip, Code(codes, info));
    ExecutedPart(entry, imageBase, start, callerRip, callerRsp, k);
    if k > 0 {
      InsideProlog(now.mem, start.cpu.rip, codes, k, info, rest);
      PrologIsNoEpilog(now.mem, now.cpu.rip, codes[k - 1].op, info, entry, imageBase);
    }
    if info.frameRegister.Some? {
      SavesFollowSet(done, info);
    }
    var a := Activation(info, done, start, Machine(now.cpu, now.mem));
    Finish(table, imageBase, entry, handlerType, a, callerRip, callerRsp, |Code(done, info)|);
  }

  lemma EncodablePart(codes: seq<UnwindCode>, k: nat, info: UnwindInfo)
    requires AllEncodable(codes, info) && k <= |codes|
    ensures AllEncodable(codes[k..], info) && (k > 0 ==> Encodable(codes[k - 1].op, info))
  {
    hide Encodable;
  }

  /** The part of the prolog up to the k-th instruction from its end, executed. */
  lemma PartRuns(entry: UnwindEntry, imageBase: u64, start: Machine, callerRip: u64, callerRsp: u64, k: nat)
    returns (rest: seq<byte>)
    requires Entering(entry, imageBase, start, callerRip, callerRsp) && k <= |entry.info.codes|
    ensures var info, codes := entry.info, entry.info.codes; var done := codes[k..];
            AllEncodable(codes, info) && AllEncodable(done, info) && Conforming(done, info) && SavesAtRsp(done, info) &&
            Ran(Run(start.mem, start.cpu, |done|), done, info, start, start.cpu.rip, Code(codes, info)) &&
            Code(codes, info) == Code(done, info) + rest && (k > 0 ==> PrologBytes(codes[k - 1].op, info) <= rest) &&
            Disjoint(Slots(done, info, start.cpu), Spans(CallSlots(Called, start.cpu, callerRip, callerRsp)))
  {
    hide Conforming, SavesAtRsp, Encodable, PrologBytes, Run, Holds, OffsetsFit, Disjoint, StoreAll, Slots, Code, Ran, CallSlots,
      Spans, Clear;
    var info, codes := entry.info, entry.info.codes;
    var done := codes[k..];
    EncodablePart(codes, k, info);
    rest := CodeSplits(codes, k, info);
    var more := SlotsOfSuffix(codes, k, info, start.cpu);
    ConformingSuffix(codes, k, info);
    SavesAtRspSuffix(codes, k, info);
    StoreAllAcross(Slots(done, info, start.cpu), more, start.mem);
    ClearParts(Slots(done, info, start.cpu), more, start.cpu.rip, start.cpu.rip + |Code(codes, info)|);
    DisjointPrefix(Slots(done, info, start.cpu), more, Spans(CallSlots(Called, start.cpu, callerRip, callerRsp)));
    PrologExecutes(done, info, start, rest);
  }

  lemma ExecutedPart(entry: UnwindEntry, imageBase: u64, start: Machine, callerRip: u64, callerRsp: u64, k: nat)
    requires Entering(entry, imageBase, start, callerRip, callerRsp) && k <= |entry.info.codes|
    ensures var info, codes := entry.info, entry.info.codes;
            AllEncodable(codes, info) && AllEncodable(codes[k..], info) &&
            Executed(codes, Some(|Code(codes[k..], info)|)) == codes[k..] && info.chained.None? &&
            Entered(Called, start, callerRip, callerRsp) && start.cpu.rip == imageBase + entry.beginRva
  {
    hide Conforming, SavesAtRsp, Encodable, Holds, OffsetsFit, Disjoint, StoreAll, Slots, Code, CallSlots, Spans, Clear, Entered, Executed;
    EncodablePart(entry.info.codes, k, entry.info);
    ExecutedAt(entry.info.codes, k, entry.info);
  }

  lemma Finish(table: seq<UnwindEntry>, imageBase: u64, entry: UnwindEntry, handlerType: HandlerType,
               a: Activation, callerRip: u64, callerRsp: u64, offset: nat)
    requires a.info == entry.info && a.info.chained.None? && Executed(a.info.codes, Some(offset)) == a.done
    requires Conforming(a.done, a.info) && FrameSaved(a.done, a.info)
    requires a.info.frameRegister.Some? && HasSaves(a.done) ==> SetsFrame(a.done)
    requires Entered(Called, a.entry, callerRip, callerRsp)
    requires Disjoint(SlotsOf(a), Spans(CallSlots(Called, a.entry.cpu, callerRip, callerRsp)))
    requires StoreAll(SlotsOf(a), a.entry.mem) == Ok(a.exit.mem)
    requires a.exit.cpu.gpr == AfterProlog(a).gpr && a.exit.cpu.xmm == a.entry.cpu.xmm
    requires a.exit.cpu.rip == imageBase + entry.beginRva + offset && entry.beginRva + offset < TWO32
    requires Lookup(table, entry.beginRva + offset) == Some(entry)
    requires ScanEpilog(entry, imageBase, a.exit.mem, a.exit.cpu.rip) == NotEpilog
    ensures var (c, r) := UnwindTyped(table, imageBase, a.exit.cpu, a.exit.mem, handlerType);
            r.Ok? && c.rip == callerRip && c.Rsp() == callerRsp && c.xmm == a.entry.cpu.xmm &&
            forall i :: 0 <= i < 16 && i != RSP ==> c.gpr[i] == a.entry.cpu.gpr[i]
  {
    hide Conforming, UnwindTyped, Lookup, ScanEpilog, Executed, Disjoint, StoreAll, Slots, CallSlots, Spans, Entered, ValidRun,
      AfterProlog, SetsFrame, HasSaves, Reported;
    ActivationIsValid(a, callerRip, callerRsp);
    assert a.done + MachineCodes(Called) == a.done;
    UnwindInvertsExecution(table, imageBase, entry, handlerType, [a], a.entry, offset, Called, callerRip, callerRsp, {}, {});
    var c := UnwindTyped(table, imageBase, a.exit.cpu, a.exit.mem, handlerType).0;
    assert forall i :: 0 <= i < 16 ==> c.xmm[i] == a.entry.cpu.xmm[i];
    assert c.xmm == a.entry.cpu.xmm;
  }

  /** The next instruction's bytes stand at rip. */
  lemma InsideProlog(mem: Memory, at: int, codes: seq<UnwindCode>, k: nat, info: UnwindInfo, rest: seq<byte>)
    requires 0 < k <= |codes| && AllEncodable(codes, info) && PrologBytes(codes[k - 1].op, info) <= rest
    requires Holds(mem, at, Code(codes[k..], info) + rest)
    ensures Encodable(codes[k - 1].op, info)
    ensures Holds(mem, at + |Code(codes[k..], info)|, PrologBytes(codes[k - 1].op, info))
  {
    hide Holds, PrologBytes, Encodable;
    var bytes := PrologBytes(codes[k - 1].op, info);
    HoldsPart(mem, at, Code(codes[k..], info), rest);
    assert rest == bytes + rest[|bytes|..];
    HoldsPart(mem, at + |Code(codes[k..], info)|, bytes, rest[|bytes|..]);
  }

  lemma ActivationIsValid(a: Activation, callerRip: u64, callerRsp: u64)
    requires Conforming(a.done, a.info) && FrameSaved(a.done, a.info)
    requires a.info.frameRegister.Some? && HasSaves(a.done) ==> SetsFrame(a.done)
    requires var call := CallSlots(Called, a.entry.cpu, callerRip, callerRsp); Disjoint(SlotsOf(a), Spans(call))
    requires StoreAll(SlotsOf(a), a.entry.mem) == Ok(a.exit.mem)
    requires a.exit.cpu.gpr == AfterProlog(a).gpr && a.exit.cpu.xmm == a.entry.cpu.xmm
    ensures ValidRun([a], a.entry, CallSlots(Called, a.entry.cpu, callerRip, callerRsp), {}, {})
  {
    ConformingKeepsRegisters(a.done, a.info, a.entry.cpu);
    hide Conforming, Disjoint, StoreAll, Slots, CallSlots, Spans, SetsFrame, HasSaves, GoesByRsp;
    var call := CallSlots(Called, a.entry.cpu, callerRip, callerRsp);
    assert [a][1..] == [];
    assert ValidRun([], a.entry, call, {}, {});
    assert Protected([], call) == Spans(call);
    assert FreeGprs([], {}) == {};
  }
}
