/** Which bytes the scanner takes for the rest of an epilog: exactly. */
module EpilogBytes {
  import opened Words
  import opened GuestMemory
  import opened EpilogAgrees
  import opened EpilogScan
  import U = Unwind

  /** An instruction that ends an epilog for the scanner: a return, an indirect jump FF /4 with
      no prefix, or a direct jump that leaves the range. */
  predicate EndsEpilog(mem: Memory, begin: int, end: int, pc: int) {
    pc in mem &&
    (mem[pc] == 0xC3 || mem[pc] == 0xC2 || (mem[pc] == 0xF3 && pc + 1 in mem && mem[pc + 1] == 0xC3) ||
     IndirectJump(mem, pc) || JumpOut(mem, pc, begin, end))
  }

  /** A direct jump whose distance is not all mapped. */
  predicate CutShort(mem: Memory, pc: int) {
    pc in mem && ((mem[pc] == 0xEB && pc + 1 !in mem) || (mem[pc] == 0xE9 && Read32(mem, pc + 1).Err?))
  }

  /** The operations of the instructions at rip: at most one that moves rsp, then pops. */
  function OpsAt(mem: Memory, rip: int): Option<seq<U.EpiOp>> {
    if rip !in mem then None
    else match U.ScanHead(mem, rip, mem[rip])
      case HeadOk(ops, pc) => Some(ops + Pops(mem, pc))
      case _ => None
  }

  lemma {:induction false} TailScansExactly(mem: Memory, begin: int, end: int, pc: int, ops: seq<U.EpiOp>)
    ensures var r, at := U.ScanTail(mem, begin, end, pc, ops), PopsEnd(mem, pc);
            (r == U.Epilog(ops + Pops(mem, pc)) <==> EndsEpilog(mem, begin, end, at)) &&
            (r.ScanError? <==> CutShort(mem, at)) &&
            (r.Epilog? ==> r.ops == ops + Pops(mem, pc))
    decreases Above(mem, pc)
  {
    hide Read32, WrapAdd;
    if PopAt(mem, pc).Some? {
      var (reg, len) := PopAt(mem, pc).value;
      AboveShrinks(mem, pc);
      if len == 2 {
        AboveShrinks(mem, pc + 1);
      }
      TailScansExactly(mem, begin, end, pc + len, ops + [U.Pop(reg)]);
      assert ops + [U.Pop(reg)] + Pops(mem, pc + len) == ops + ([U.Pop(reg)] + Pops(mem, pc + len));
    } else {
      assert Pops(mem, pc) == [] && ops + [] == ops;
    }
  }

  /** The verdict, in terms of bytes: an epilog if and only if operations are followed by an
      instruction that ends one, and then it is those operations; a failing read if and only
      if the head or a direct jump after the operations is cut short; otherwise none. */
  lemma ScansExactly(entry: U.UnwindEntry, imageBase: u64, mem: Memory, rip: u64)
    ensures var scan, at := U.ScanEpilog(entry, imageBase, mem, rip), EpilogEnd(mem, rip);
            (scan.Epilog? <==> OpsAt(mem, rip).Some? &&
                               EndsEpilog(mem, imageBase + entry.beginRva, imageBase + entry.endRva, at)) &&
            (scan.Epilog? ==> OpsAt(mem, rip) == Some(scan.ops)) &&
            (scan.ScanError? <==> rip in mem && (U.ScanHead(mem, rip, mem[rip]).HeadError? ||
                                                 (OpsAt(mem, rip).Some? && CutShort(mem, at))))
  {
    hide U.ScanTail, U.ScanHead, EndsEpilog, CutShort, Pops, PopsEnd;
    if rip in mem && U.ScanHead(mem, rip, mem[rip]).HeadOk? {
      var head := U.ScanHead(mem, rip, mem[rip]);
      TailScansExactly(mem, imageBase + entry.beginRva, imageBase + entry.endRva, head.pc, head.ops);
    }
  }
}
