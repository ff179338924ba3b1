/** Executing the rest of an epilog and unwinding from it arrive at the same caller. */
module EpilogExecution {
  import opened Words
  import opened GuestMemory
  import opened CpuModel
  import opened Interp
  import opened Unwind
  import opened UnwindInverse
  import opened EpilogInverse
  import opened EpilogAgrees
  import opened EpilogBytes

  lemma {:induction false} PopsAvoidRsp(codes: seq<UnwindCode>)
    requires OnlyPushes(codes)
    ensures NoPopRsp(PopsFor(codes))
  {
    if codes != [] {
      PopsAvoidRsp(codes[1..]);
      assert codes[0].op.reg % 16 != RSP;
    }
  }

  lemma EpilogAvoidsRsp(f: Shape, info: UnwindInfo, k: nat)
    requires WellFormed(f, info) && k <= |EpilogFor(f, info)|
    ensures NoPopRsp(EpilogFor(f, info)[k..])
  {
    PopsAvoidRsp(f.pushes);
    hide WellFormed, HeadFor;
    var head, pops := HeadFor(f, info), PopsFor(f.pushes);
    forall op | op in (head + pops)[k..]
      ensures op != Pop(RSP)
    {
      assert op in head || op in pops;
    }
  }

  /** From any operation of a frame's epilog whose remaining bytes stand at rip, over any chain of records, the interpreter executes the rest and the
      return: it stands at the return address with the caller's general registers, memory
      unchanged and rsp above the bytes the return drops; virtual unwinding from the same
      operation ends with the same registers exactly when the return drops none. */
  lemma EpilogReturns(f: Shape, acts: seq<Activation>, start: Machine, callerRip: u64, callerRsp: u64,
                      vol: set<int>, volX: set<int>, k: nat, now: CpuState, drop: u16,
                      table: seq<UnwindEntry>, imageBase: u64, entry: UnwindEntry, handlerType: HandlerType)
    requires AtEpilog(f, acts, vol) && Entered(Called, start, callerRip, callerRsp)
    requires ValidRun(acts, start, CallSlots(Called, start.cpu, callerRip, callerRsp), vol, volX)
    requires Played(f, acts, k, now)
    requires 0 <= now.rip - imageBase < TWO32 && Lookup(table, now.rip - imageBase) == Some(entry)
    requires OpsAt(acts[0].exit.mem, now.rip) == Some(EpilogFor(f, Root(acts).info)[k..])
    requires Addresses(acts[0].exit.mem) && ReturnAt(acts[0].exit.mem, EpilogEnd(acts[0].exit.mem, now.rip)) == Some(drop)
    ensures var mem := acts[0].exit.mem;
            var s := Run(mem, now, |EpilogFor(f, Root(acts).info)| - k + 1);
            var (c, r) := UnwindTyped(table, imageBase, now, mem, handlerType);
            s.outcome == Continue && s.mem == mem && s.cpu.rip == callerRip && s.cpu.Rsp() == WrapAdd(callerRsp, drop) &&
            (forall i :: 0 <= i < 16 && i != RSP && i !in vol ==> s.cpu.gpr[i] == start.cpu.gpr[i]) &&
            r.Ok? && c.rip == s.cpu.rip && (c.gpr == s.cpu.gpr <==> drop == 0)
  {
    hide ValidRun, Entered, MovesRestored, RspReady, ScanEpilog, EpilogFor, AfterOps, Run, UnwindTyped, Lookup, ReturnAt,
      EpilogEnd, OpsAt, WellFormed, Addresses, ApplyEpilog, WrapAdd;
    var mem, ops := acts[0].exit.mem, EpilogFor(f, Root(acts).info)[k..];
    ReturnIsSeen(entry, imageBase, mem, now.rip, ops, drop);
    UnwindFromEpilog(f, acts, start, callerRip, callerRsp, vol, volX, k, now, table, imageBase, entry, handlerType);
    EpilogAvoidsRsp(f, Root(acts).info, k);
    SimulationIsExecution(entry, imageBase, mem, now, ops, drop);
    SimulatedUnwind(table, imageBase, entry, handlerType, now, mem, ops);
    var s := Run(mem, now, |ops| + 1);
    AgreesIffNothingDropped(s, ApplyEpilog(ops, mem, now).0, mem, drop);
  }

  /** The scanner knows operations before a return for an epilog. */
  lemma ReturnIsSeen(entry: UnwindEntry, imageBase: u64, mem: Memory, rip: u64, ops: seq<EpiOp>, drop: u16)
    requires OpsAt(mem, rip) == Some(ops) && ReturnAt(mem, EpilogEnd(mem, rip)) == Some(drop)
    ensures ScanEpilog(entry, imageBase, mem, rip) == Epilog(ops)
  {
    hide OpsAt, EpilogEnd, ScanEpilog;
    ScansExactly(entry, imageBase, mem, rip);
  }

  /** A successful unwind from an epilog is its simulation. */
  lemma SimulatedUnwind(table: seq<UnwindEntry>, imageBase: u64, entry: UnwindEntry, handlerType: HandlerType,
                        cpu: CpuState, mem: Memory, ops: seq<EpiOp>)
    requires 0 <= cpu.rip - imageBase < TWO32 && Lookup(table, cpu.rip - imageBase) == Some(entry)
    requires ScanEpilog(entry, imageBase, mem, cpu.rip) == Epilog(ops)
    requires UnwindTyped(table, imageBase, cpu, mem, handlerType).1.Ok?
    ensures ApplyEpilog(ops, mem, cpu).1 == None
    ensures ApplyEpilog(ops, mem, cpu).0 == UnwindTyped(table, imageBase, cpu, mem, handlerType).0
  {
    hide ScanEpilog, ApplyEpilog, Lookup;
  }
}
