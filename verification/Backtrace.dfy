/** Walking a whole stack: repeated unwinding lists the callers of nested frames. */
module BacktraceWalk {
  import opened Words
  import opened GuestMemory
  import opened CpuModel
  import opened Unwind
  import opened PrologRun
  import opened UnwindInverse
  import opened EpilogInverse
  import opened EpilogScan
  import opened EpilogMissed
  import Unwinder

  /** The checks after each unwind: an error, a zero or repeated rip, or an rsp that did not
      move up, ends the walk. */
  predicate WalkEnds(r: Result<FrameUnwind>, before: CpuState, after: CpuState) {
    r.Err? || after.rip == 0 || after.rip == before.rip || after.Rsp() <= before.Rsp()
  }

  function Backtrace(table: seq<UnwindEntry>, imageBase: u64, cpu: CpuState, mem: Memory, max: nat): seq<u64>
    decreases max
  {
    if max == 0 then []
    else
      var step := UnwindTyped(table, imageBase, cpu, mem, EXCEPTION);
      if WalkEnds(step.1, cpu, step.0) then []
      else [step.0.rip] + Backtrace(table, imageBase, step.0, mem, max - 1)
  }

  lemma WalkStep(table: seq<UnwindEntry>, imageBase: u64, cpu: CpuState, mem: Memory, max: nat, frames: seq<u64>)
    ensures var (c, r) := UnwindTyped(table, imageBase, cpu, mem, EXCEPTION);
            frames + Backtrace(table, imageBase, cpu, mem, max) ==
            if max == 0 || WalkEnds(r, cpu, c) then frames
            else frames + [c.rip] + Backtrace(table, imageBase, c, mem, max - 1)
  {
    hide UnwindTyped, WalkEnds;
  }

  /** `backtrace`: the registers are copied, so the caller's are not touched. */
  method WalkStack(table: seq<UnwindEntry>, imageBase: u64, ctx: Cpu, mem: Memory, max: nat)
    returns (frames: seq<u64>)
    ensures frames == Backtrace(table, imageBase, ctx.State(), mem, max)
    ensures ctx.State() == old(ctx.State())
  {
    hide UnwindTyped, WalkEnds, Backtrace;
    var walk := new Cpu(ctx.State());
    frames := [];
    while |frames| < max
      invariant |frames| <= max && fresh(walk) && ctx.State() == old(ctx.State())
      invariant Backtrace(table, imageBase, ctx.State(), mem, max) ==
        frames + Backtrace(table, imageBase, walk.State(), mem, max - |frames|)
    {
      var before := walk.State();
      WalkStep(table, imageBase, before, mem, max - |frames|, frames);
      var r := Unwinder.VirtualUnwindTyped(table, imageBase, walk, mem, EXCEPTION);
      if WalkEnds(r, before, walk.State()) {
        break;
      }
      frames := frames + [walk.rip];
    }
    WalkStep(table, imageBase, walk.State(), mem, 0, frames);
  }

  // ---- Nested frames ----

  /** Where a function stands: in its body or prolog, at operation k of its epilog, or, for
      a leaf, anywhere. */
  datatype Place = InBody | InEpilog(shape: Shape, k: nat) | InLeaf

  /** One function on the stack, as UnwindInverse describes its run, and the machine where it
      stands. A leaf has no table entry and no activation. */
  datatype Frame = Frame(
    place: Place, entry: UnwindEntry, offset: nat, acts: seq<Activation>, start: Machine, stand: Machine,
    call: Call, callerRip: u64, callerRsp: u64)

  function PushedBy(f: Frame): seq<Slot> {
    if WellFormedCall(f.call) then CallSlots(f.call, f.start.cpu, f.callerRip, f.callerRsp) else []
  }

  function ActSlots(acts: seq<Activation>): seq<Slot> {
    if acts == [] then [] else SlotsOf(acts[0]) + ActSlots(acts[1..])
  }

  /** Everything the frames rely on in memory, innermost first. */
  function StackOf(frames: seq<Frame>): seq<Slot> {
    if frames == [] then [] else ActSlots(frames[0].acts) + (PushedBy(frames[0]) + StackOf(frames[1..]))
  }

  /** In a body, the innermost activation is where it stands. */
  ghost predicate StandsInBody(f: Frame) {
    f.acts != [] && f.stand == f.acts[0].exit && Describes(f.entry.info, Some(f.offset), f.acts, f.call)
  }

  /** In an epilog, the operations before k have been played since the body's end. */
  ghost predicate StandsInEpilog(f: Frame, shape: Shape, k: nat, vol: set<int>) {
    f.call.Called? && AtEpilog(shape, f.acts, vol) && f.stand.mem == f.acts[0].exit.mem &&
    Played(shape, f.acts, k, f.stand.cpu)
  }

  /** A leaf keeps rsp, the registers that are not volatile and the stack it was given. */
  ghost predicate StandsInLeaf(f: Frame, given: seq<Slot>, vol: set<int>, volX: set<int>) {
    f.call.Called? && f.acts == [] && f.stand.cpu.Rsp() == f.start.cpu.Rsp() &&
    Agrees(f.stand.cpu, f.start.cpu, vol, volX) && KeepsStack(f.start.mem, f.stand.mem, given)
  }

  ghost predicate KeepsStack(mem: Memory, mem': Memory, slots: seq<Slot>) {
    forall a :: a in Spans(slots) && a in mem ==> a in mem' && mem'[a] == mem[a]
  }

  /** A run of one function, over the frames further out. */
  ghost predicate RunsOver(f: Frame, outer: seq<Frame>, vol: set<int>, volX: set<int>) {
    Entered(f.call, f.start, f.callerRip, f.callerRsp) &&
    ValidRun(f.acts, f.start, PushedBy(f) + StackOf(outer), vol, volX) &&
    (forall k :: 0 <= k < |f.acts| ==> FrameReg(f.acts[k]) !! vol) &&
    match f.place
    case InBody => StandsInBody(f)
    case InEpilog(shape, k) => StandsInEpilog(f, shape, k, vol)
    case InLeaf => StandsInLeaf(f, PushedBy(f) + StackOf(outer), vol, volX)
  }

  /** f was entered where the frame outside it stands: it will go back there, it finds the
      registers that are not volatile, and the stack it relies on. */
  ghost predicate EnteredFrom(f: Frame, outer: seq<Frame>, vol: set<int>, volX: set<int>)
    requires outer != []
  {
    var at := outer[0].stand;
    f.callerRip == at.cpu.rip && f.callerRsp == at.cpu.Rsp() &&
    Agrees(f.start.cpu, at.cpu, vol, volX) && KeepsStack(at.mem, f.start.mem, StackOf(outer))
  }

  ghost predicate Nested(frames: seq<Frame>, vol: set<int>, volX: set<int>) {
    frames == [] ||
    (Nested(frames[1..], vol, volX) && RunsOver(frames[0], frames[1..], vol, volX) &&
     (|frames| > 1 ==> EnteredFrom(frames[0], frames[1..], vol, volX)))
  }

  /** In an epilog that the scanner misses, what the codes need still fits; in a body it does. */
  ghost predicate CodesApply(f: Frame, vol: set<int>) {
    match f.place
    case InEpilog(shape, k) =>
      f.acts != [] && WellFormed(shape, Root(f.acts).info) && k <= |EpilogFor(shape, Root(f.acts).info)| &&
      Describes(f.entry.info, Some(f.offset), f.acts, f.call) && OneWay(f.acts, vol) && StillFits(shape, f.acts, k, f.stand.cpu)
    case _ => true
  }

  predicate IsRest(f: Frame, ops: seq<EpiOp>) {
    f.place.InEpilog? && f.acts != [] && WellFormed(f.place.shape, Root(f.acts).info) &&
    f.place.k <= |EpilogFor(f.place.shape, Root(f.acts).info)| && ops == EpilogFor(f.place.shape, Root(f.acts).info)[f.place.k..]
  }

  /** The operations go by registers that are not volatile. */
  predicate ByKept(ops: seq<EpiOp>, vol: set<int>) {
    forall i :: 0 <= i < |ops| && ops[i].LeaRsp? ==> ops[i].reg % 16 !in vol
  }

  /** What the scanner makes of the code bytes does for the frame: where it sees no epilog, the
      codes apply; where it sees one, it is what is left of the frame's, or it leads back all
      the same, as a jump of a body without a frame does. A leaf is in no function of the
      table. */
  ghost predicate Visible(f: Frame, table: seq<UnwindEntry>, imageBase: u64, mem: Memory, vol: set<int>, volX: set<int>) {
    var rip := f.stand.cpu.rip;
    if f.place.InLeaf? then rip < imageBase || rip - imageBase >= TWO32 || Lookup(table, rip - imageBase) == None
    else
      InFunction(table, imageBase, f.entry, Machine(f.stand.cpu, mem)) &&
      match ScanEpilog(f.entry, imageBase, mem, rip)
      case NotEpilog => rip == imageBase + f.entry.beginRva + f.offset && CodesApply(f, vol)
      case ScanError(_) => false
      case Epilog(ops) =>
        IsRest(f, ops) ||
        (ByKept(ops, vol) &&
         LeadsBack(ops, Machine(f.stand.cpu, mem), f.call, f.start, f.callerRip, f.callerRsp, vol, volX))
  }

  /** The walk ends at this frame: its return address is zero or its own rip, or its caller's
      rsp is not above its own. */
  predicate EndsAt(f: Frame) {
    f.callerRip == 0 || f.callerRip == f.stand.cpu.rip || f.callerRsp <= f.stand.cpu.Rsp()
  }

  /** The callers, up to the first frame that ends the walk. */
  function Callers(frames: seq<Frame>, max: nat): seq<u64> {
    if max == 0 || frames == [] || EndsAt(frames[0]) then []
    else [frames[0].callerRip] + Callers(frames[1..], max - 1)
  }

  // ---- The stack stays intact ----

  lemma HoldsBoth(mem: Memory, a: seq<Slot>, b: seq<Slot>)
    ensures HoldsAll(mem, a + b) <==> HoldsAll(mem, a) && HoldsAll(mem, b)
  {
    hide Holds;
    if HoldsAll(mem, a + b) {
      assert forall i :: 0 <= i < |a| ==> a[i] == (a + b)[i];
      assert forall i :: 0 <= i < |b| ==> b[i] == (a + b)[|a| + i];
    }
  }

  lemma {:induction false} HoldsActs(mem: Memory, acts: seq<Activation>)
    requires forall k :: 0 <= k < |acts| ==> HoldsAll(mem, SlotsOf(acts[k]))
    ensures HoldsAll(mem, ActSlots(acts))
  {
    hide HoldsAll, SlotsOf;
    if acts == [] {
      HoldsNone(mem);
    } else {
      HoldsActs(mem, acts[1..]);
      HoldsBoth(mem, SlotsOf(acts[0]), ActSlots(acts[1..]));
    }
  }

  lemma HoldsNone(mem: Memory)
    ensures HoldsAll(mem, [])
  {
  }

  lemma {:induction false} ActsHold(mem: Memory, acts: seq<Activation>, k: nat)
    requires k < |acts| && HoldsAll(mem, ActSlots(acts))
    ensures HoldsAll(mem, SlotsOf(acts[k]))
  {
    hide HoldsAll, SlotsOf;
    HoldsBoth(mem, SlotsOf(acts[0]), ActSlots(acts[1..]));
    if k > 0 {
      ActsHold(mem, acts[1..], k - 1);
    }
  }

  /** Where the innermost function stands, the slots of every frame are intact. */
  lemma {:induction false} StackHolds(frames: seq<Frame>, vol: set<int>, volX: set<int>)
    requires frames != [] && Nested(frames, vol, volX)
    ensures HoldsAll(frames[0].stand.mem, StackOf(frames))
    decreases |frames|
  {
    hide HoldsAll, ValidRun, SlotsOf, CallSlots, Agrees, KeepsStack, EpilogFor, AfterOps, Shaped, MovesRestored, RspReady, Describes;
    var f, outer := frames[0], frames[1..];
    var slots := PushedBy(f) + StackOf(outer);
    if outer == [] {
      HoldsNone(f.start.mem);
    } else {
      StackHolds(outer, vol, volX);
      KeptHolds(outer[0].stand.mem, f.start.mem, StackOf(outer));
    }
    HoldsBoth(f.start.mem, PushedBy(f), StackOf(outer));
    FrameHolds(f, slots, vol, volX);
    HoldsBoth(f.stand.mem, ActSlots(f.acts), slots);
  }

  lemma KeptHolds(mem: Memory, mem': Memory, slots: seq<Slot>)
    requires HoldsAll(mem, slots) && KeepsStack(mem, mem', slots)
    ensures HoldsAll(mem', slots)
  {
    hide HoldsAll;
    FrameAll(mem, mem', slots);
  }

  lemma FrameHolds(f: Frame, slots: seq<Slot>, vol: set<int>, volX: set<int>)
    requires ValidRun(f.acts, f.start, slots, vol, volX) && HoldsAll(f.start.mem, slots)
    requires if f.acts == [] then KeepsStack(f.start.mem, f.stand.mem, slots) else f.stand.mem == f.acts[0].exit.mem
    ensures HoldsAll(f.stand.mem, ActSlots(f.acts)) && HoldsAll(f.stand.mem, slots)
  {
    hide HoldsAll, ValidRun, SlotsOf, KeepsStack;
    if f.acts == [] {
      HoldsNone(f.stand.mem);
      KeptHolds(f.start.mem, f.stand.mem, slots);
    } else {
      forall k | 0 <= k < |f.acts|
        ensures HoldsAll(f.stand.mem, SlotsOf(f.acts[k]))
      {
        RunHolds(f.acts, f.start, slots, vol, volX, k);
      }
      RunHolds(f.acts, f.start, slots, vol, volX, 0);
      HoldsActs(f.stand.mem, f.acts);
    }
  }

  // ---- One frame up ----

  lemma {:induction false} VolatilesAreFree(acts: seq<Activation>, vol: set<int>, volX: set<int>)
    requires forall k :: 0 <= k < |acts| ==> FrameReg(acts[k]) !! vol
    ensures vol <= FreeGprs(acts, vol) && volX <= FreeXmms(acts, volX)
  {
    if acts != [] {
      VolatilesAreFree(acts[1..], vol, volX);
      assert FrameReg(acts[0]) !! vol;
    }
  }

  /** What unwinding one frame must lead to. */
  ghost predicate Unwound(step: (CpuState, Result<FrameUnwind>), f: Frame, vol: set<int>, volX: set<int>) {
    step.1.Ok? && CallerRestored(step.0, f.start.cpu, f.callerRip, f.callerRsp, vol, volX)
  }

  /** now looks like the frame: its rip and rsp, and what is not volatile. */
  ghost predicate LooksLike(now: CpuState, f: Frame, vol: set<int>, volX: set<int>) {
    now.rip == f.stand.cpu.rip && now.Rsp() == f.stand.cpu.Rsp() && Agrees(now, f.stand.cpu, vol, volX)
  }

  /** The frame stands where unwinding by codes is right. */
  lemma StandsForRun(f: Frame, outer: seq<Frame>, vol: set<int>, volX: set<int>)
    requires RunsOver(f, outer, vol, volX) && !f.place.InLeaf? && CodesApply(f, vol)
    requires HoldsAll(f.stand.mem, ActSlots(f.acts))
    ensures f.acts != [] && Describes(f.entry.info, Some(f.offset), f.acts, f.call) && StandsFor(f.stand.cpu, f.acts, vol, volX)
  {
    hide HoldsAll, ValidRun, CallSlots, Describes, StillFits, OneWay, StackOf, SlotsOf, MovesRestored, RspReady, Conforming, EpilogFor, AfterOps,
      FramePopped, WellFormed, AgreesApart, SameFrame, FrameReg, RspCounts, FreeGprs, FreeXmms, SetsFrame;
    if f.place.InEpilog? {
      var shape, k := f.place.shape, f.place.k;
      ActsHold(f.stand.mem, f.acts, |f.acts| - 1);
      PlayedAgrees(shape, f.acts, k, f.stand.cpu, vol, volX);
      FitsAsLongAs(shape, f.acts, f.start, PushedBy(f) + StackOf(outer), vol, volX, k, f.stand.cpu);
      LeadsThere(f.acts, vol, volX, f.stand.cpu);
    }
  }

  lemma UnwindByCodes(f: Frame, outer: seq<Frame>, table: seq<UnwindEntry>, imageBase: u64, vol: set<int>, volX: set<int>,
                      now: CpuState, mem: Memory)
    requires !f.place.InLeaf? && RunsOver(f, outer, vol, volX) && Visible(f, table, imageBase, mem, vol, volX)
    requires ScanEpilog(f.entry, imageBase, mem, f.stand.cpu.rip) == NotEpilog
    requires HoldsAll(f.stand.mem, ActSlots(f.acts)) && HoldsAll(mem, ActSlots(f.acts)) && HoldsAll(mem, PushedBy(f))
    requires LooksLike(now, f, vol, volX)
    ensures Unwound(UnwindTyped(table, imageBase, now, mem, EXCEPTION), f, vol, volX)
  {
    hide HoldsAll, ValidRun, SlotsOf, CallSlots, UnwindCodes, ScanEpilog, Lookup, Describes, Reported, CallerRestored, CodesApply, StackOf,
      FreeGprs, FreeXmms, RspCounts, FrameReg, StandsInBody, StandsInEpilog, UnwindTyped;
    var slots := PushedBy(f) + StackOf(outer);
    StandsForRun(f, outer, vol, volX);
    forall k | 0 <= k < |f.acts|
      ensures HoldsAll(mem, SlotsOf(f.acts[k]))
    {
      ActsHold(mem, f.acts, k);
    }
    VolatilesAreFree(f.acts, vol, volX);
    UnwindCodesAt(f.entry, f.offset, EXCEPTION, f.acts, f.start, slots, f.call, f.callerRip, f.callerRsp,
                  vol, volX, now, mem);
    UnwindsByCodes(table, imageBase, f.entry, EXCEPTION, Machine(now, mem));
  }

  /** Operations that go by kept registers do the same from registers that agree on those. */
  lemma {:induction false} PlayedAlike(ops: seq<EpiOp>, mem: Memory, u: CpuState, v: CpuState, vol: set<int>, volX: set<int>)
    requires u.Rsp() == v.Rsp() && Agrees(u, v, vol, volX) && ByKept(ops, vol)
    ensures var (c, e), (d, e') := AfterOps(ops, |ops|, mem, u), AfterOps(ops, |ops|, mem, v);
            e == e' && c.Rsp() == d.Rsp() && Agrees(c, d, vol, volX)
    decreases |ops|
  {
    if ops != [] {
      hide Read64, WrapAdd;
      assert ByKept(ops[1..], vol) by {
        assert forall i :: 0 <= i < |ops[1..]| ==> ops[1..][i] == ops[i + 1];
      }
      var p, q := ApplyEpiOp(ops[0], mem, u), ApplyEpiOp(ops[0], mem, v);
      if p.1.None? {
        PlayedAlike(ops[1..], mem, p.0, q.0, vol, volX);
      }
    }
  }

  lemma AgreedThrough(a: CpuState, b: CpuState, c: CpuState, vol: set<int>, volX: set<int>)
    requires Agrees(a, b, vol, volX) && Agrees(b, c, vol, volX)
    ensures Agrees(a, c, vol, volX)
  {
  }

  lemma UnwindByOperations(f: Frame, outer: seq<Frame>, table: seq<UnwindEntry>, imageBase: u64, vol: set<int>, volX: set<int>,
                           now: CpuState, mem: Memory, ops: seq<EpiOp>)
    requires RunsOver(f, outer, vol, volX) && InFunction(table, imageBase, f.entry, Machine(now, mem))
    requires ScanEpilog(f.entry, imageBase, mem, now.rip) == Epilog(ops) && ByKept(ops, vol)
    requires LeadsBack(ops, Machine(f.stand.cpu, mem), f.call, f.start, f.callerRip, f.callerRsp, vol, volX)
    requires HoldsAll(mem, PushedBy(f)) && LooksLike(now, f, vol, volX)
    ensures Unwound(UnwindTyped(table, imageBase, now, mem, EXCEPTION), f, vol, volX)
  {
    hide HoldsAll, ValidRun, CallSlots, ScanEpilog, UnwindTyped, ApplyEpilog, StackOf, AfterOps, Lookup, StandsInBody, StandsInEpilog,
      StandsInLeaf, Read64, WrapAdd, FrameReg, ByKept, Agrees, CallerRestored;
    PlayedAlike(ops, mem, now, f.stand.cpu, vol, volX);
    AgreedThrough(AfterOps(ops, |ops|, mem, now).0, AfterOps(ops, |ops|, mem, f.stand.cpu).0, f.start.cpu, vol, volX);
    SimulationExactly(ops, Machine(now, mem), f.call, f.start, f.callerRip, f.callerRsp, vol, volX);
    ScannedUnwind(table, imageBase, f.entry, EXCEPTION, Machine(now, mem));
  }

  lemma ReturnAddressHeld(f: Frame, mem: Memory)
    requires f.call.Called? && HoldsAll(mem, PushedBy(f))
    ensures Holds(mem, f.start.cpu.Rsp(), LeBytes(f.callerRip, 8))
  {
    hide Holds, LeBytes;
    assert Holds(mem, PushedBy(f)[0].addr, PushedBy(f)[0].bytes);
  }

  lemma UnwindLeafFrame(f: Frame, outer: seq<Frame>, table: seq<UnwindEntry>, imageBase: u64, vol: set<int>, volX: set<int>,
                        now: CpuState, mem: Memory)
    requires f.place.InLeaf? && RunsOver(f, outer, vol, volX) && Visible(f, table, imageBase, mem, vol, volX)
    requires HoldsAll(mem, PushedBy(f)) && LooksLike(now, f, vol, volX)
    ensures Unwound(UnwindTyped(table, imageBase, now, mem, EXCEPTION), f, vol, volX)
  {
    ReturnAddressHeld(f, mem);
    HoldsRead64(mem, f.start.cpu.Rsp(), f.callerRip);
    hide HoldsAll, Holds, LeBytes, ValidRun, Lookup, Read64, WrapAdd, KeepsStack, StackOf;
  }

  lemma UnwindByRest(f: Frame, outer: seq<Frame>, table: seq<UnwindEntry>, imageBase: u64, vol: set<int>, volX: set<int>,
                     now: CpuState, mem: Memory, ops: seq<EpiOp>)
    requires IsRest(f, ops) && RunsOver(f, outer, vol, volX) && InFunction(table, imageBase, f.entry, Machine(now, mem))
    requires ScanEpilog(f.entry, imageBase, mem, now.rip) == Epilog(ops)
    requires HoldsAll(f.stand.mem, ActSlots(f.acts)) && HoldsAll(mem, ActSlots(f.acts)) && HoldsAll(mem, PushedBy(f))
    requires LooksLike(now, f, vol, volX)
    ensures Unwound(UnwindTyped(table, imageBase, now, mem, EXCEPTION), f, vol, volX)
  {
    hide HoldsAll, ValidRun, Lookup, EpilogFor, AfterOps, AtOperation, MovesRestored, RspReady, WellFormed, Conforming,
      ScanEpilog, UnwindTyped, CallSlots, StackOf, Agrees, SlotsOf, WrapAdd, FrameReg;
    var shape, k := f.place.shape, f.place.k;
    var a, slots := Root(f.acts), PushedBy(f) + StackOf(outer);
    RootStarts(f.acts, f.start, slots, vol, volX);
    ActsHold(f.stand.mem, f.acts, |f.acts| - 1);
    ActsHold(mem, f.acts, |f.acts| - 1);
    ExitIsReady(shape, f.acts, f.start, slots, vol, volX);
    AfterAllIsAt(shape, a, k, f.acts[0].exit, f.stand.cpu, vol, volX);
    AgreeingOperation(shape, a, k, f.stand.cpu, now, vol, volX);
    ReturnAddressHeld(f, mem);
    UnwindFromEpilogAt(shape, a, k, now, mem, f.callerRip, vol, volX, table, imageBase, f.entry, EXCEPTION);
  }

  lemma UnwindOne(f: Frame, outer: seq<Frame>, table: seq<UnwindEntry>, imageBase: u64, vol: set<int>, volX: set<int>,
                  now: CpuState, mem: Memory)
    requires RunsOver(f, outer, vol, volX) && Visible(f, table, imageBase, mem, vol, volX)
    requires HoldsAll(f.stand.mem, ActSlots(f.acts)) && HoldsAll(mem, ActSlots(f.acts)) && HoldsAll(mem, PushedBy(f))
    requires LooksLike(now, f, vol, volX)
    ensures Unwound(UnwindTyped(table, imageBase, now, mem, EXCEPTION), f, vol, volX)
  {
    hide HoldsAll, RunsOver, ScanEpilog, UnwindTyped, Unwound, IsRest, ByKept, LeadsBack, CodesApply, Lookup, Agrees, ActSlots, PushedBy;
    if f.place.InLeaf? {
      UnwindLeafFrame(f, outer, table, imageBase, vol, volX, now, mem);
    } else {
      match ScanEpilog(f.entry, imageBase, mem, f.stand.cpu.rip)
      case NotEpilog => UnwindByCodes(f, outer, table, imageBase, vol, volX, now, mem);
      case Epilog(ops) =>
        if IsRest(f, ops) {
          UnwindByRest(f, outer, table, imageBase, vol, volX, now, mem, ops);
        } else {
          UnwindByOperations(f, outer, table, imageBase, vol, volX, now, mem, ops);
        }
    }
  }

  /** The frames out from here, as the walk sees them: registers that agree with the frame's
      on all that is not volatile, and memory in which the stack is intact. */
  lemma {:induction false} WalkFrom(frames: seq<Frame>, table: seq<UnwindEntry>, imageBase: u64,
                                    vol: set<int>, volX: set<int>, now: CpuState, mem: Memory, max: nat)
    requires Nested(frames, vol, volX) && HoldsAll(mem, StackOf(frames))
    requires forall k :: 0 <= k < |frames| ==> Visible(frames[k], table, imageBase, mem, vol, volX)
    requires frames != [] ==> LooksLike(now, frames[0], vol, volX)
    ensures var walk, callers := Backtrace(table, imageBase, now, mem, max), Callers(frames, max);
            callers <= walk && (max <= |frames| || |callers| < |frames| ==> walk == callers)
    decreases |frames|
  {
    hide HoldsAll, RunsOver, Visible, Agrees, UnwindTyped, KeepsStack;
    if max > 0 && frames != [] {
      var f, outer := frames[0], frames[1..];
      HoldsBoth(mem, ActSlots(f.acts), PushedBy(f) + StackOf(outer));
      HoldsBoth(mem, PushedBy(f), StackOf(outer));
      StackHolds(frames, vol, volX);
      HoldsBoth(f.stand.mem, ActSlots(f.acts), PushedBy(f) + StackOf(outer));
      UnwindOne(f, outer, table, imageBase, vol, volX, now, mem);
      var step := UnwindTyped(table, imageBase, now, mem, EXCEPTION);
      if !EndsAt(f) {
        if outer != [] {
          AgreedThrough(step.0, f.start.cpu, outer[0].stand.cpu, vol, volX);
        }
        WalkFrom(outer, table, imageBase, vol, volX, step.0, mem, max - 1);
        Prepend(f.callerRip, Backtrace(table, imageBase, step.0, mem, max - 1), Callers(outer, max - 1));
      }
    }
  }

  lemma Prepend(x: u64, walk: seq<u64>, callers: seq<u64>)
    requires callers <= walk
    ensures [x] + callers <= [x] + walk
  {
  }

  function AllCallers(frames: seq<Frame>): seq<u64> {
    if frames == [] then [] else [frames[0].callerRip] + AllCallers(frames[1..])
  }

  lemma {:induction false} NoneEndsListsAll(frames: seq<Frame>, max: nat)
    requires |frames| <= max
    ensures |AllCallers(frames)| == |frames|
    ensures if forall k :: 0 <= k < |frames| ==> !EndsAt(frames[k]) then Callers(frames, max) == AllCallers(frames)
            else |Callers(frames, max)| < |frames|
    decreases |frames|
  {
    hide EndsAt;
    if frames != [] {
      NoneEndsListsAll(frames[1..], max - 1);
      assert forall k :: 0 < k < |frames| ==> frames[k] == frames[1..][k - 1];
      assert forall k :: 0 <= k < |frames[1..]| ==> frames[1..][k] == frames[k + 1];
    }
  }

  /** A backtrace from the innermost of nested frames, each in its prolog, body or epilog or
      a leaf, lists their callers, innermost first, up to the first frame that ends the
      walk, and nothing else as long as the frames last. Every caller is listed if and only
      if no frame ends the walk. */
  lemma BacktraceListsCallers(frames: seq<Frame>, table: seq<UnwindEntry>, imageBase: u64,
                              vol: set<int>, volX: set<int>, max: nat)
    requires frames != [] && Nested(frames, vol, volX)
    requires forall k :: 0 <= k < |frames| ==> Visible(frames[k], table, imageBase, frames[0].stand.mem, vol, volX)
    ensures var at := frames[0].stand;
            var walk, callers := Backtrace(table, imageBase, at.cpu, at.mem, max), Callers(frames, max);
            callers <= walk && (max <= |frames| || |callers| < |frames| ==> walk == callers) &&
            (|frames| <= max ==> (AllCallers(frames) <= walk <==> forall k :: 0 <= k < |frames| ==> !EndsAt(frames[k])))
  {
    hide HoldsAll, Nested, Visible, Backtrace, Callers, AllCallers, EndsAt;
    if |frames| <= max {
      NoneEndsListsAll(frames, max);
    }
    StackHolds(frames, vol, volX);
    WalkFrom(frames, table, imageBase, vol, volX, frames[0].stand.cpu, frames[0].stand.mem, max);
  }
}
