/** What the scanner's verdict does to unwinding. It takes any bytes that could end an epilog
    for one, jumps of a body included: unwinding a valid run is right exactly when playing
    the scanned operations leads back to the function's entry. */
module EpilogScan {
  import opened Words
  import opened GuestMemory
  import opened CpuModel
  import opened Unwind
  import opened PrologRun
  import opened UnwindInverse
  import opened EpilogInverse
  import UnwindExample

  // ---- Playing operations ----

  lemma {:induction false} PlayedThenReturned(ops: seq<EpiOp>, mem: Memory, cpu: CpuState)
    ensures var (d, err) := AfterOps(ops, |ops|, mem, cpu);
            ApplyEpilog(ops, mem, cpu) == if err.Some? then (d, err) else PopReturnAddress(d, mem)
  {
    hide ApplyEpiOp, PopReturnAddress;
    if ops != [] {
      var (c, err) := ApplyEpiOp(ops[0], mem, cpu);
      if err.None? {
        PlayedThenReturned(ops[1..], mem, c);
      }
    }
  }

  /** Popping a return address from rsp gives the caller: for a call, rsp is where it was at
      the function's entry; for an interrupt, it is below the interrupted rsp, and on the
      interrupted rip. */
  predicate PopsCaller(d: CpuState, mem: Memory, call: Call, start: Machine, callerRip: u64, callerRsp: u64) {
    if call.Called? then d.Rsp() == start.cpu.Rsp()
    else WrapAdd(d.Rsp(), 8) == callerRsp && Read64(mem, d.Rsp()) == Ok(callerRip)
  }

  /** The operations lead back: without a failing read, to where the caller is popped, and
      to the registers at entry that are not volatile. */
  ghost predicate LeadsBack(ops: seq<EpiOp>, at: Machine, call: Call, start: Machine, callerRip: u64, callerRsp: u64,
                            vol: set<int>, volX: set<int>) {
    var (d, err) := AfterOps(ops, |ops|, at.mem, at.cpu);
    err == None && PopsCaller(d, at.mem, call, start, callerRip, callerRsp) && Agrees(d, start.cpu, vol, volX)
  }

  predicate RspLeadsBack(ops: seq<EpiOp>, at: Machine, start: Machine) {
    var (d, err) := AfterOps(ops, |ops|, at.mem, at.cpu);
    err == None && d.Rsp() == start.cpu.Rsp()
  }

  lemma WrapEight(a: u64, b: u64)
    ensures WrapAdd(a, 8) == WrapAdd(b, 8) <==> a == b
  {
    WrapInverse(a, 8);
    WrapInverse(b, 8);
    hide WrapAdd, WrapSub;
  }

  /** What the call left on the stack, and nothing else of the run, is in memory. */
  ghost predicate CallHeld(call: Call, mem: Memory, start: Machine, callerRip: u64, callerRsp: u64) {
    WellFormedCall(call) && HoldsAll(mem, CallSlots(call, start.cpu, callerRip, callerRsp)) &&
    (call.Called? ==> callerRsp == WrapAdd(start.cpu.Rsp(), 8))
  }

  /** A simulated epilog returns to the caller exactly when its operations lead back. */
  lemma SimulationExactly(ops: seq<EpiOp>, at: Machine, call: Call, start: Machine, callerRip: u64, callerRsp: u64,
                          vol: set<int>, volX: set<int>)
    requires CallHeld(call, at.mem, start, callerRip, callerRsp)
    ensures var (c, err) := ApplyEpilog(ops, at.mem, at.cpu);
            (err == None && CallerRestored(c, start.cpu, callerRip, callerRsp, vol, volX) <==>
              LeadsBack(ops, at, call, start, callerRip, callerRsp, vol, volX)) &&
            (call.Called? ==> (err == None && c.Rsp() == callerRsp <==> RspLeadsBack(ops, at, start)))
  {
    PlayedThenReturned(ops, at.mem, at.cpu);
    var d := AfterOps(ops, |ops|, at.mem, at.cpu).0;
    if call.Called? {
      ReturnSlot(at.mem, start, callerRip, callerRsp);
      HoldsRead64(at.mem, start.cpu.Rsp(), callerRip);
      WrapEight(d.Rsp(), start.cpu.Rsp());
    }
    hide AfterOps, ApplyEpilog, Read64, WrapAdd, HoldsAll, CallSlots, Holds, LeBytes;
  }

  /** What the verdict makes of it: no epilog, and unwinding by codes is right; a read that
      fails, and there is no unwinding; an epilog, and it is right if that leads back. */
  ghost predicate VerdictFits(scan: Scan, at: Machine, call: Call, start: Machine, callerRip: u64, callerRsp: u64,
                              vol: set<int>, volX: set<int>) {
    match scan
    case NotEpilog => true
    case ScanError(_) => false
    case Epilog(ops) => LeadsBack(ops, at, call, start, callerRip, callerRsp, vol, volX)
  }

  lemma ScannedUnwind(table: seq<UnwindEntry>, imageBase: u64, entry: UnwindEntry, handlerType: HandlerType, at: Machine)
    requires InFunction(table, imageBase, entry, at)
    ensures var scan := ScanEpilog(entry, imageBase, at.mem, at.cpu.rip);
            var (c, r) := UnwindTyped(table, imageBase, at.cpu, at.mem, handlerType);
            (scan.ScanError? ==> r.Err?) &&
            (scan.Epilog? ==> c == ApplyEpilog(scan.ops, at.mem, at.cpu).0 &&
                              (r.Ok? <==> ApplyEpilog(scan.ops, at.mem, at.cpu).1 == None))
  {
    hide ScanEpilog, ApplyEpilog, UnwindCodes, Lookup;
  }

  /** The machine is at the end of a run that the codes at the offset describe. */
  ghost predicate RunEnds(entry: UnwindEntry, imageBase: u64, acts: seq<Activation>, at: Machine, call: Call, start: Machine,
                          callerRip: u64, callerRsp: u64, offset: nat, vol: set<int>, volX: set<int>)
    requires WellFormedCall(call)
  {
    Entered(call, start, callerRip, callerRsp) &&
    ValidRun(acts, start, CallSlots(call, start.cpu, callerRip, callerRsp), vol, volX) &&
    acts != [] && at == acts[0].exit && Describes(entry.info, Some(offset), acts, call) &&
    at.cpu.rip == imageBase + entry.beginRva + offset
  }

  /** Everywhere in a function: prolog, body, or any place in an epilog, over any chain of
      records, called or interrupted. Whatever machine stands there with what the call
      pushed intact, where the scanner sees an epilog unwinding restores the caller if and
      only if playing what it saw leads back; where it finds no epilog, at the end of any
      conforming run, unwinding restores the caller. */
  lemma UnwindRestoresExactly(table: seq<UnwindEntry>, imageBase: u64, entry: UnwindEntry, handlerType: HandlerType,
                              acts: seq<Activation>, at: Machine, call: Call, start: Machine, offset: nat,
                              callerRip: u64, callerRsp: u64, vol: set<int>, volX: set<int>)
    requires CallHeld(call, at.mem, start, callerRip, callerRsp) && InFunction(table, imageBase, entry, at)
    requires ScanEpilog(entry, imageBase, at.mem, at.cpu.rip) == NotEpilog ==>
               RunEnds(entry, imageBase, acts, at, call, start, callerRip, callerRsp, offset, vol, volX)
    ensures var (c, r) := UnwindTyped(table, imageBase, at.cpu, at.mem, handlerType);
            var scan := ScanEpilog(entry, imageBase, at.mem, at.cpu.rip);
            (r.Ok? && CallerRestored(c, start.cpu, callerRip, callerRsp, vol, volX) <==>
              VerdictFits(scan, at, call, start, callerRip, callerRsp, vol, volX)) &&
            (scan.Epilog? && call.Called? ==> (r.Ok? && c.Rsp() == callerRsp <==> RspLeadsBack(scan.ops, at, start)))
  {
    hide ValidRun, Describes, CallSlots, UnwindTyped, ScanEpilog, ApplyEpilog, Lookup, LeadsBack, RspLeadsBack, CallerRestored,
      CallHeld, WrapAdd, Reported, Entered;
    match ScanEpilog(entry, imageBase, at.mem, at.cpu.rip)
    case NotEpilog =>
      UnwindInvertsExecution(table, imageBase, entry, handlerType, acts, start, offset, call, callerRip, callerRsp, vol, volX);
    case ScanError(_) => ScannedUnwind(table, imageBase, entry, handlerType, at);
    case Epilog(ops) =>
      ScannedUnwind(table, imageBase, entry, handlerType, at);
      SimulationExactly(ops, at, call, start, callerRip, callerRsp, vol, volX);
  }

  lemma ReturnSlot(mem: Memory, start: Machine, callerRip: u64, callerRsp: u64)
    requires HoldsAll(mem, CallSlots(Called, start.cpu, callerRip, callerRsp))
    ensures Holds(mem, start.cpu.Rsp(), LeBytes(callerRip, 8))
  {
    hide Holds, LeBytes;
    var slots := CallSlots(Called, start.cpu, callerRip, callerRsp);
    assert Holds(mem, slots[0].addr, slots[0].bytes);
  }

  // ---- Jumps of a body ----

  /** An indirect jump, FF /4, wherever it stands. */
  predicate IndirectJump(mem: Memory, rip: int) {
    rip in mem && rip + 1 in mem && mem[rip] == 0xFF && mem[rip + 1] / 8 % 8 == 4
  }

  /** A direct jump, EB or E9, out of the entry's own range. */
  predicate JumpOut(mem: Memory, rip: int, begin: int, end: int) {
    rip in mem &&
    ((mem[rip] == 0xEB && rip + 1 in mem && !(begin <= WrapAdd(rip + 2, SignExtend8(mem[rip + 1])) < end)) ||
     (mem[rip] == 0xE9 && Read32(mem, rip + 1).Ok? &&
       !(begin <= WrapAdd(rip + 5, SignExtend32(Read32(mem, rip + 1).value)) < end)))
  }

  lemma JumpPassesForEpilog(entry: UnwindEntry, imageBase: u64, mem: Memory, rip: u64)
    requires IndirectJump(mem, rip) || JumpOut(mem, rip, imageBase + entry.beginRva, imageBase + entry.endRva)
    ensures ScanEpilog(entry, imageBase, mem, rip) == Epilog([])
  {
    hide Read32, WrapAdd;
  }

  /** At such a jump of a called function, unwinding restores rsp if and only if rsp already
      is where it was when the function was entered: for a body with a frame it is not. */
  lemma UnwindAtJump(table: seq<UnwindEntry>, imageBase: u64, entry: UnwindEntry, handlerType: HandlerType,
                     at: Machine, start: Machine, callerRip: u64, callerRsp: u64, vol: set<int>, volX: set<int>)
    requires CallHeld(Called, at.mem, start, callerRip, callerRsp) && InFunction(table, imageBase, entry, at)
    requires IndirectJump(at.mem, at.cpu.rip) ||
             JumpOut(at.mem, at.cpu.rip, imageBase + entry.beginRva, imageBase + entry.endRva)
    ensures var (c, r) := UnwindTyped(table, imageBase, at.cpu, at.mem, handlerType);
            (r.Ok? && c.Rsp() == callerRsp <==> at.cpu.Rsp() == start.cpu.Rsp()) &&
            (r.Ok? && CallerRestored(c, start.cpu, callerRip, callerRsp, vol, volX) <==>
              at.cpu.Rsp() == start.cpu.Rsp() && Agrees(at.cpu, start.cpu, vol, volX))
  {
    hide CallHeld, RunEnds, UnwindTyped, ScanEpilog, Lookup, CallerRestored, IndirectJump, JumpOut, Agrees;
    JumpPassesForEpilog(entry, imageBase, at.mem, at.cpu.rip);
    UnwindRestoresExactly(table, imageBase, entry, handlerType, [], at, Called, start, 0, callerRip, callerRsp, vol, volX);
    assert AfterOps([], 0, at.mem, at.cpu) == (at.cpu, None);
  }

  // ---- A body that is unwound to the wrong caller ----

  const ALLOC := UnwindCode(4, Alloc(0x10))
  const INFO := UnwindInfo(false, false, None, 0, [ALLOC], None, None, None)
  const ENTRY := UnwindEntry(0, 0x100, INFO)

  /** A stack of zeros and, at 0x2008, `jmp rax`. */
  function Stack(): Memory {
    map a: int | 0x1000 <= a < 0x200A && InUse(a) :: if a == 0x2008 then 0xFF else if a == 0x2009 then 0xE0 else 0
  }

  predicate InUse(a: int) {
    a < 0x1020 || a >= 0x2008
  }

  function StartMachine(): Machine {
    Machine(UnwindExample.Registers(0x1018, 0, 0x2000), Stack())
  }

  /** `sub rsp, 10h` ran; the body is at its switch jump. */
  function SwitchRun(): Activation {
    Activation(INFO, [ALLOC], StartMachine(), Machine(UnwindExample.Registers(0x1008, 0, 0x2008), Stack()))
  }

  lemma StackHoldsZeros()
    ensures Holds(Stack(), 0x1018, LeBytes(0, 8))
  {
    UnwindExample.ZeroBytes(8);
    hide LeBytes;
    assert Mapped(Stack(), 0x1018, 8);
    assert Bytes(Stack(), 0x1018, 8) == LeBytes(0, 8);
  }

  lemma SwitchRunIsValid()
    ensures var a, start := SwitchRun(), StartMachine();
            Entered(Called, start, 0, 0x1020) &&
            ValidRun([a], start, CallSlots(Called, start.cpu, 0, 0x1020), {}, {}) &&
            Describes(INFO, Some(8), [a], Called) && InFunction([ENTRY], 0x2000, ENTRY, a.exit)
  {
    hide LeBytes;
    var a, start := SwitchRun(), StartMachine();
    var call := CallSlots(Called, start.cpu, 0, 0x1020);
    StackHoldsZeros();
    assert [ALLOC][1..] == [] && Exec([], INFO, start.cpu) == start.cpu;
    assert AfterProlog(a) == start.cpu.WithRsp(0x1008);
    assert Slots([], INFO, start.cpu) == [] && SlotsOf(a) == [];
    assert SavedGprs([]) == {} && SavedXmms([]) == {} && !SetsFrame(a.done);
    assert [a][1..] == [] && ValidRun([], start, call, {}, {});
    assert FreeGprs([], {}) == {} && FreeXmms([], {}) == {};
    assert Executed([ALLOC], Some(8)) == [ALLOC] && [ALLOC] + MachineCodes(Called) == [ALLOC];
    assert [ENTRY][1..] == [] && PartitionPoint([ENTRY], 8) == 1;
  }

  /** A valid run of a function with a frame, stopped in its body at a jump through a
      register, which unwinding takes for a return: the caller's rsp is missed. */
  lemma SwitchIsUnwoundWrongly()
    ensures var a, start := SwitchRun(), StartMachine();
            var (c, r) := UnwindTyped([ENTRY], 0x2000, a.exit.cpu, a.exit.mem, EXCEPTION);
            Entered(Called, start, 0, 0x1020) &&
            ValidRun([a], start, CallSlots(Called, start.cpu, 0, 0x1020), {}, {}) &&
            Describes(INFO, Some(8), [a], Called) && !(r.Ok? && c.Rsp() == 0x1020)
  {
    hide ValidRun, Describes, CallSlots, UnwindTyped, Lookup;
    SwitchRunIsValid();
    var at := SwitchRun().exit;
    assert IndirectJump(at.mem, at.cpu.rip) by {
      assert 0x2008 in Stack() && 0x2009 in Stack();
    }
    assert HoldsAll(at.mem, CallSlots(Called, StartMachine().cpu, 0, 0x1020));
    UnwindAtJump([ENTRY], 0x2000, ENTRY, EXCEPTION, at, StartMachine(), 0, 0x1020, {}, {});
  }
}
