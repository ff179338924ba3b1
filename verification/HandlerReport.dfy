/** Which exception handler an unwind reports: the phases of dispatch ask with type 1 (the
    search) or 2 (the unwind), and act on the answer. */
module HandlerReport {
  import opened Words
  import opened GuestMemory
  import opened CpuModel
  import opened Unwind
  import opened UnwindInverse

  /** The record takes part in the phase. */
  predicate TakesPart(info: UnwindInfo, handlerType: HandlerType) {
    (handlerType == 1 && info.hasExceptionHandler) || (handlerType == 2 && info.hasTerminationHandler)
  }

  /** The handler and its data are the record's own if it takes part, and none otherwise. */
  predicate OwnHandler(r: FrameUnwind, info: UnwindInfo, handlerType: HandlerType) {
    if TakesPart(info, handlerType) then r.handlerRva == info.handlerRva && r.handlerDataRva == info.handlerDataRva
    else r.handlerRva == None && r.handlerDataRva == None
  }

  predicate NoHandler(r: FrameUnwind, c: CpuState) {
    r.isLeafOrEpilog && r.handlerRva == None && r.handlerDataRva == None && r.establisherFrame == c.Rsp()
  }

  /** Anywhere in a function of the table, a successful unwind reports the handler of the entry
      that was found, by its own flags and whatever it is chained to; where the scanner saw an
      epilog, none. */
  lemma HandlersExactly(table: seq<UnwindEntry>, imageBase: u64, entry: UnwindEntry, handlerType: HandlerType, at: Machine)
    requires InFunction(table, imageBase, entry, at)
    ensures var (c, r) := UnwindTyped(table, imageBase, at.cpu, at.mem, handlerType);
            var scan := ScanEpilog(entry, imageBase, at.mem, at.cpu.rip);
            r.Ok? ==> if scan.Epilog? then NoHandler(r.value, c)
                      else !r.value.isLeafOrEpilog && OwnHandler(r.value, entry.info, handlerType)
  {
    hide ScanEpilog, ApplyEpilog, ApplyChain, Lookup, FrameOf;
  }

  /** Outside the table the return address is popped, and no handler is reported. */
  lemma LeavesReportNone(table: seq<UnwindEntry>, imageBase: u64, handlerType: HandlerType, cpu: CpuState, mem: Memory)
    requires cpu.rip < imageBase || cpu.rip - imageBase >= 0x1_0000_0000 || Lookup(table, cpu.rip - imageBase) == None
    ensures var (c, r) := UnwindTyped(table, imageBase, cpu, mem, handlerType);
            match Read64(mem, cpu.Rsp())
            case Err(e) => r == Err(e) && c == cpu
            case Ok(v) => r.Ok? && NoHandler(r.value, c) && c == cpu.(rip := v).WithRsp(WrapAdd(cpu.Rsp(), 8))
  {
    hide Lookup, Read64;
  }

  /** Where the inversion theorem applies, the handler is the entry's own. */
  lemma InvertedReportsOwn(table: seq<UnwindEntry>, imageBase: u64, entry: UnwindEntry, handlerType: HandlerType,
                           acts: seq<Activation>, start: Machine, offset: nat,
                           call: Call, callerRip: u64, callerRsp: u64, vol: set<int>, volX: set<int>)
    requires Entered(call, start, callerRip, callerRsp)
    requires ValidRun(acts, start, CallSlots(call, start.cpu, callerRip, callerRsp), vol, volX)
    requires acts != [] && Describes(entry.info, Some(offset), acts, call)
    requires StandsIn(table, imageBase, entry, acts[0].exit)
    requires acts[0].exit.cpu.rip == imageBase + entry.beginRva + offset
    ensures var (c, r) := UnwindTyped(table, imageBase, acts[0].exit.cpu, acts[0].exit.mem, handlerType);
            BackAtCaller(c, r, acts, acts[0].exit.cpu, start.cpu, callerRip, callerRsp, vol, volX) &&
            OwnHandler(r.value, entry.info, handlerType)
  {
    hide ValidRun, Entered, Describes, CallSlots, UnwindTyped, ScanEpilog, Lookup, OwnHandler, CallerRestored, Reported;
    UnwindInvertsExecution(table, imageBase, entry, handlerType, acts, start, offset, call, callerRip, callerRsp, vol, volX);
    HandlersExactly(table, imageBase, entry, handlerType, acts[0].exit);
  }

  /** A chained part whose own flags are clear reports no handler, though its parent has one:
      in its body the parent's handler is passed by in both phases. */
  lemma ParentsHandlerIsPassedBy(table: seq<UnwindEntry>, imageBase: u64, entry: UnwindEntry, at: Machine, parent: UnwindEntry,
                                 handlerType: HandlerType)
    requires InFunction(table, imageBase, entry, at) && entry.info.chained == Some(parent)
    requires !entry.info.hasExceptionHandler && !entry.info.hasTerminationHandler
    requires parent.info.hasExceptionHandler && parent.info.handlerRva == Some(0x2000)
    ensures var r := UnwindTyped(table, imageBase, at.cpu, at.mem, handlerType).1;
            r.Ok? ==> r.value.handlerRva == None
  {
    hide UnwindTyped, ScanEpilog, InFunction;
    HandlersExactly(table, imageBase, entry, handlerType, at);
  }
}
