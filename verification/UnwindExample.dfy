/** Two complements of the unwinding theorem: what a table lookup finds, and a concrete
    run that meets every condition of the theorem. */
module UnwindExample {
  import opened Words
  import opened GuestMemory
  import opened CpuModel
  import opened Unwind
  import opened PrologRun
  import opened UnwindInverse
  import opened EpilogInverse
  import opened PrologAgrees
  import PrologExecution

  // ---- Lookup ----

  /** Functions listed by ascending address, none empty, none overlapping the next. */
  predicate SortedTable(table: seq<UnwindEntry>) {
    (forall i :: 0 <= i < |table| ==> table[i].beginRva < table[i].endRva) &&
    (forall i, j :: 0 <= i < j < |table| ==> table[i].endRva <= table[j].beginRva)
  }

  predicate Covers(e: UnwindEntry, rva: u32) {
    e.beginRva <= rva < e.endRva
  }

  /** In a sorted table the lookup finds the entry that covers the address, if one does. */
  lemma LookupFindsCover(table: seq<UnwindEntry>, rva: u32)
    requires SortedTable(table)
    ensures Lookup(table, rva).Some? ==> Lookup(table, rva).value in table && Covers(Lookup(table, rva).value, rva)
    ensures forall i :: 0 <= i < |table| && Covers(table[i], rva) ==> Lookup(table, rva) == Some(table[i])
  {
    var n := PartitionPoint(table, rva);
    forall i | 0 <= i < |table| && Covers(table[i], rva)
      ensures i == n - 1
    {
    }
  }

  /** The last entry that begins at or below the address. */
  predicate IsLast(table: seq<UnwindEntry>, rva: u32, i: int) {
    0 <= i < |table| && table[i].beginRva <= rva && forall j :: i < j < |table| ==> table[j].beginRva > rva
  }

  /** In a table sorted by where its functions begin, as the loader sorts it, the lookup looks
      at the last entry that begins at or below the address and at no other: an address past
      its end is in no function, even if an earlier entry covers it. */
  lemma LookupSeesLast(table: seq<UnwindEntry>, rva: u32)
    requires forall i, j :: 0 <= i < j < |table| ==> table[i].beginRva <= table[j].beginRva
    ensures forall i :: IsLast(table, rva, i) ==>
              Lookup(table, rva) == if Covers(table[i], rva) then Some(table[i]) else None
    ensures Lookup(table, rva).Some? ==> exists i :: IsLast(table, rva, i) && Lookup(table, rva) == Some(table[i])
  {
    var n := PartitionPoint(table, rva);
    forall j | n <= j < |table|
      ensures table[j].beginRva > rva
    {
      assert table[n].beginRva <= table[j].beginRva;
    }
    assert n > 0 ==> IsLast(table, rva, n - 1);
  }

  /** Two functions, the second inside the first: an address after the second, which the
      first covers, is found in no entry. */
  lemma CoveredIsMissed(info: UnwindInfo)
    ensures var outer, inner := UnwindEntry(0, 0x100, info), UnwindEntry(0x40, 0x60, info);
            Covers(outer, 0x80) && Lookup([outer, inner], 0x80) == None
  {
    var table := [UnwindEntry(0, 0x100, info), UnwindEntry(0x40, 0x60, info)];
    assert IsLast(table, 0x80, 1);
    LookupSeesLast(table, 0x80);
  }

  // ---- A run ----

  const SET_FRAME := UnwindCode(4, SetFrameRegister)
  const PUSH_RBP := UnwindCode(1, PushNonvolatile(5))
  const INFO := UnwindInfo(false, false, Some(5), 0, [SET_FRAME, PUSH_RBP], None, None, None)
  const ENTRY := UnwindEntry(0, 0x100, INFO)

  predicate InUse(a: int) {
    a < 0x1018 || a >= 0x2000
  }

  /** A stack of zeros, and code of `nop` from 0x2000 on. */
  function Stack(): Memory {
    map a: int | 0x1000 <= a < 0x2200 && InUse(a) :: if a >= 0x2000 then 0x90 else 0
  }

  function Registers(rsp: u64, rbp: u64, rip: u64): CpuState {
    CpuState(seq(16, i => if i == 4 then rsp else if i == 5 then rbp else 0), seq(16, _ => 0), rip,
             Flags(false, false, false, false, false, false, false), 0, 0)
  }

  function StartMachine(): Machine {
    Machine(Registers(0x1008, 0, 0x2000), Stack())
  }

  /** `push rbp; mov rbp, rsp` ran, then a body that moved rsp freely. */
  function FrameRun(rsp: u64): Activation {
    Activation(INFO, [SET_FRAME, PUSH_RBP], StartMachine(), Machine(Registers(rsp, 0x1000, 0x2008), Stack()))
  }

  lemma {:induction false} ZeroBytes(n: nat)
    ensures forall i :: 0 <= i < n ==> LeBytes(0, n)[i] == 0
  {
    if n > 0 {
      ZeroBytes(n - 1);
    }
  }

  lemma StackHoldsZeros(addr: int)
    requires 0x1000 <= addr <= 0x1010
    ensures Holds(Stack(), addr, LeBytes(0, 8)) && Write(Stack(), addr, LeBytes(0, 8)) == Ok(Stack())
  {
    ZeroBytes(8);
    hide LeBytes;
    assert Mapped(Stack(), addr, 8);
    assert Bytes(Stack(), addr, 8) == LeBytes(0, 8);
    assert Store(Stack(), addr, LeBytes(0, 8)) == Stack();
  }

  lemma FrameRunExecutes(rsp: u64)
    ensures var a := FrameRun(rsp);
            AfterProlog(a) == a.entry.cpu.WithRsp(0x1000).WithGpr(5, 0x1000) &&
            SlotsOf(a) == [Slot(0x1000, LeBytes(0, 8))] && SetsFrame(a.done) && Conforming(a.done, INFO) &&
            SavedGprs(a.done) == {5} && SavedXmms(a.done) == {}
  {
    hide LeBytes;
    var done := [SET_FRAME, PUSH_RBP];
    var e := StartMachine().cpu;
    assert done[1..] == [PUSH_RBP] && [PUSH_RBP][1..] == [];
    assert Exec([PUSH_RBP], INFO, e) == e.WithRsp(0x1000);
    assert done[0].op == SetFrameRegister;
    assert Slots([], INFO, e) == [] && Slots([PUSH_RBP], INFO, e) == [Slot(0x1000, LeBytes(0, 8))];
    assert SavedGprs([]) == {} && SavedGprs([PUSH_RBP]) == {5};
    assert SavedXmms([]) == {} && SavedXmms([PUSH_RBP]) == {};
    assert Conforming([PUSH_RBP], INFO) && !SetsFrame([PUSH_RBP]) && !HasSaves([PUSH_RBP]);
  }

  /** The conditions of UnwindInvertsExecution hold together: a function with a frame
      register, called and stopped in its body, wherever the body has taken rsp. */
  lemma ConditionsAreMet(rsp: u64)
    ensures var a := FrameRun(rsp); var start := StartMachine();
            Entered(Called, start, 0, 0x1010) &&
            ValidRun([a], start, CallSlots(Called, start.cpu, 0, 0x1010), {}, {}) &&
            Describes(INFO, Some(8), [a], Called) && StandsIn([ENTRY], 0x2000, ENTRY, a.exit) &&
            a.exit.cpu.rip == 0x2000 + ENTRY.beginRva + 8
  {
    var a, start := FrameRun(rsp), StartMachine();
    var call := CallSlots(Called, start.cpu, 0, 0x1010);
    FrameRunExecutes(rsp);
    StackHoldsZeros(0x1000);
    StackHoldsZeros(0x1008);
    RunDescribed(rsp);
    RunStands(rsp);
    RunIsValid(rsp);
  }

  lemma RunDescribed(rsp: u64)
    ensures Describes(INFO, Some(8), [FrameRun(rsp)], Called)
  {
    var codes := [SET_FRAME, PUSH_RBP];
    assert codes[1..] == [PUSH_RBP] && [PUSH_RBP][1..] == [];
    assert Executed([PUSH_RBP], Some(8)) == [PUSH_RBP];
    assert Executed(codes, Some(8)) == codes;
    assert codes + MachineCodes(Called) == codes;
  }

  lemma RunStands(rsp: u64)
    ensures StandsIn([ENTRY], 0x2000, ENTRY, FrameRun(rsp).exit)
  {
    CodeIsNop(0x2008);
    assert [ENTRY][1..] == [] && PartitionPoint([ENTRY], 8) == 1;
  }

  /** No epilog starts at a `nop`. */
  lemma CodeIsNop(rip: int)
    requires 0x2000 <= rip < 0x2200
    ensures forall entry, imageBase :: ScanEpilog(entry, imageBase, Stack(), rip) == NotEpilog
  {
    assert rip in Stack() && Stack()[rip] == 0x90;
  }

  lemma RunIsValid(rsp: u64)
    ensures var start := StartMachine();
            ValidRun([FrameRun(rsp)], start, CallSlots(Called, start.cpu, 0, 0x1010), {}, {})
  {
    hide LeBytes;
    var a, start := FrameRun(rsp), StartMachine();
    var call := CallSlots(Called, start.cpu, 0, 0x1010);
    FrameRunExecutes(rsp);
    StackHoldsZeros(0x1000);
    var slots := SlotsOf(a);
    assert slots[1..] == [] && call == [Slot(0x1008, LeBytes(0, 8))] && call[1..] == [];
    assert [a][1..] == [];
    assert Protected([], call) == Spans(call) && Spans([]) == {};
    assert Span(slots[0]) !! Spans(call);
    assert Disjoint([], Spans(call) + Span(slots[0]));
    assert StoreAll([], Stack()) == Ok(Stack());
    assert StoreAll(slots, Stack()) == Ok(Stack());
    assert FreeGprs([], {}) == {} && FreeXmms([], {}) == {};
    assert FrameReg(a) == {5};
    assert ValidRun([], start, call, {}, {});
  }

  // ---- A chained part of the function ----

  const SAVE_RBX := UnwindCode(4, SaveNonvolatile(3, 0x10))
  const PART_INFO := UnwindInfo(false, false, Some(5), 0, [SAVE_RBX], None, None, Some(ENTRY))
  const PART := UnwindEntry(0x100, 0x200, PART_INFO)

  /** After `push rbp; mov rbp, rsp` and a body that moved rsp, a chained part saved rbx
      relative to rbp and moved rsp again. */
  function PartRun(rsp: u64, rsp': u64): Activation {
    Activation(PART_INFO, [SAVE_RBX], FrameRun(rsp).exit, Machine(Registers(rsp', 0x1000, 0x2108), Stack()))
  }

  lemma PartRunExecutes(rsp: u64, rsp': u64)
    ensures var a := PartRun(rsp, rsp');
            AfterProlog(a) == a.entry.cpu && SlotsOf(a) == [Slot(0x1010, LeBytes(0, 8))] &&
            !SetsFrame(a.done) && HasSaves(a.done) && Conforming(a.done, PART_INFO) && FrameReg(a) == {} &&
            SavedGprs(a.done) == {3} && SavedXmms(a.done) == {} && !GoesByRsp(a.done, PART_INFO, false)
  {
    hide LeBytes;
    var e := FrameRun(rsp).exit.cpu;
    assert [SAVE_RBX][1..] == [] && Exec([], PART_INFO, e) == e && Slots([], PART_INFO, e) == [];
    assert SavedGprs([]) == {} && SavedXmms([]) == {};
    assert Conforming([], PART_INFO) && !SetsFrame([]) && !GoesByRsp([], PART_INFO, false);
  }

  /** The conditions hold for a chained record that saves relative to the frame register of
      its parent, wherever both bodies have taken rsp; the frame reported is the parent's. */
  lemma InheritedFrameIsMet(rsp: u64, rsp': u64)
    ensures var acts, start := [PartRun(rsp, rsp'), FrameRun(rsp)], StartMachine();
            ValidRun(acts, start, CallSlots(Called, start.cpu, 0, 0x1010), {}, {}) &&
            Describes(PART_INFO, Some(8), acts, Called) && StandsIn([ENTRY, PART], 0x2000, PART, acts[0].exit) &&
            acts[0].exit.cpu.rip == 0x2000 + PART.beginRva + 8 &&
            FrameHeld(acts, {}) && Reported(acts, {}, acts[0].exit.cpu) == 0x1000
  {
    hide LeBytes, Conforming, StandsIn, Describes, Entered;
    var a, root, start := PartRun(rsp, rsp'), FrameRun(rsp), StartMachine();
    var acts := [a, root];
    PartIsValid(rsp, rsp');
    PartDescribed(rsp, rsp');
    CodeIsNop(0x2108);
    PartStands(rsp, rsp');
    FrameRunExecutes(rsp);
    PartRunExecutes(rsp, rsp');
    assert acts[1..] == [root] && Setter([root]) == [root] && Setter(acts) == [root];
    assert FreeGprs(acts, {}) == {3} by {
      assert [root][1..] == [] && FreeGprs([], {}) == {} && FrameReg(root) == {5};
    }
    RspAtSetOfRun(rsp);
  }

  lemma RspAtSetOfRun(rsp: u64)
    ensures RspAtSet(FrameRun(rsp).done, INFO, StartMachine().cpu) == 0x1000
  {
    var done := [SET_FRAME, PUSH_RBP];
    assert done[1..] == [PUSH_RBP] && [PUSH_RBP][1..] == [];
    assert Exec([], INFO, StartMachine().cpu) == StartMachine().cpu;
  }

  lemma PartStands(rsp: u64, rsp': u64)
    ensures StandsIn([ENTRY, PART], 0x2000, PART, PartRun(rsp, rsp').exit)
  {
    CodeIsNop(0x2108);
    hide ScanEpilog;
    assert [ENTRY, PART][1..] == [PART] && [PART][1..] == [];
    assert PartitionPoint([], 0x108) == 0 && PartitionPoint([PART], 0x108) == 1;
    assert PartitionPoint([ENTRY, PART], 0x108) == 2;
  }

  lemma PartDescribed(rsp: u64, rsp': u64)
    ensures Describes(PART_INFO, Some(8), [PartRun(rsp, rsp'), FrameRun(rsp)], Called)
  {
    var codes, acts := [SET_FRAME, PUSH_RBP], [PartRun(rsp, rsp'), FrameRun(rsp)];
    assert codes[1..] == [PUSH_RBP] && [PUSH_RBP][1..] == [] && [SAVE_RBX][1..] == [];
    assert Executed([PUSH_RBP], None) == [PUSH_RBP] && Executed(codes, None) == codes;
    assert Executed([SAVE_RBX], Some(8)) == [SAVE_RBX];
    assert codes + MachineCodes(Called) == codes;
    assert acts[1..] == [FrameRun(rsp)];
    assert Describes(INFO, None, [FrameRun(rsp)], Called);
  }

  lemma PartIsValid(rsp: u64, rsp': u64)
    ensures var start := StartMachine();
            ValidRun([PartRun(rsp, rsp'), FrameRun(rsp)], start, CallSlots(Called, start.cpu, 0, 0x1010), {}, {})
  {
    hide LeBytes, Conforming;
    var a, root, start := PartRun(rsp, rsp'), FrameRun(rsp), StartMachine();
    var acts, call := [a, root], CallSlots(Called, start.cpu, 0, 0x1010);
    RunIsValid(rsp);
    FrameRunExecutes(rsp);
    PartRunExecutes(rsp, rsp');
    StackHoldsZeros(0x1010);
    RootFacts(rsp);
    assert acts[1..] == [root];
    PartFrees(rsp, rsp');
    PartStores(rsp, rsp');
    PartKeeps(rsp, rsp', Protected(acts, call));
    hide ValidRun, Protected, BodyKeeps, Disjoint, StoreAll, FreeGprs, FreeXmms, FrameReg, CallSlots, FrameRun, PartRun;
    ValidStep(acts, start, call);
  }

  lemma PartFrees(rsp: u64, rsp': u64)
    ensures var acts := [PartRun(rsp, rsp'), FrameRun(rsp)];
            FreeGprs(acts, {}) == {3} && FreeXmms(acts, {}) == {} && !RspCounts(acts) && SavesAnchored(acts, {})
  {
    hide LeBytes, Conforming;
    var acts := [PartRun(rsp, rsp'), FrameRun(rsp)];
    RootFacts(rsp);
    PartRunExecutes(rsp, rsp');
    assert acts[1..] == [FrameRun(rsp)];
    hide RspCounts, FrameRun;
    assert RspCounts(acts) == GoesByRsp(acts[0].done, PART_INFO, RspCounts(acts[1..]));
  }

  lemma PartStores(rsp: u64, rsp': u64)
    ensures var slots, root := SlotsOf(PartRun(rsp, rsp')), FrameRun(rsp);
            Disjoint(slots, Protected([root], CallSlots(Called, StartMachine().cpu, 0, 0x1010))) &&
            StoreAll(slots, Stack()) == Ok(Stack())
  {
    hide LeBytes;
    var slots, taken := SlotsOf(PartRun(rsp, rsp')), Protected([FrameRun(rsp)], CallSlots(Called, StartMachine().cpu, 0, 0x1010));
    RootFacts(rsp);
    PartRunExecutes(rsp, rsp');
    StackHoldsZeros(0x1010);
    hide Protected, FrameRun, CallSlots, SlotsOf;
    assert slots[1..] == [] && Span(slots[0]) !! taken;
    assert Disjoint([], taken + Span(slots[0])) && StoreAll([], Stack()) == Ok(Stack());
  }

  lemma PartKeeps(rsp: u64, rsp': u64, protected: set<int>)
    ensures BodyKeeps(PartRun(rsp, rsp'), Stack(), false, {3}, {}, protected)
  {
    PartRunExecutes(rsp, rsp');
    hide AfterProlog, Stack;
  }

  lemma ValidStep(acts: seq<Activation>, start: Machine, call: seq<Slot>)
    requires acts != [] && ValidRun(acts[1..], start, call, {}, {})
    requires var a, outer := acts[0], acts[1..];
             a.entry == EntryOf(outer, start) && Conforming(a.done, a.info) &&
             FrameReg(a) <= FreeGprs(outer, {}) + SavedGprs(a.done) && SavesAnchored(acts, {}) &&
             Disjoint(SlotsOf(a), Protected(outer, call)) && StoreAll(SlotsOf(a), a.entry.mem).Ok? &&
             BodyKeeps(a, StoreAll(SlotsOf(a), a.entry.mem).value, RspCounts(acts),
                       FreeGprs(acts, {}), FreeXmms(acts, {}), Protected(acts, call))
    ensures ValidRun(acts, start, call, {}, {})
  {
    hide Conforming, BodyKeeps, Disjoint, StoreAll, Protected, SavesAnchored;
  }

  lemma RootFacts(rsp: u64)
    ensures var root, call := FrameRun(rsp), CallSlots(Called, StartMachine().cpu, 0, 0x1010);
            FreeGprs([root], {}) == {} && FreeXmms([root], {}) == {} && !RspCounts([root]) &&
            forall x :: x in Protected([root], call) ==> 0x1000 <= x < 0x1010
  {
    hide LeBytes, Conforming;
    var root, call := FrameRun(rsp), CallSlots(Called, StartMachine().cpu, 0, 0x1010);
    FrameRunExecutes(rsp);
    ZeroBytes(8);
    assert [root][1..] == [] && FrameReg(root) == {5};
    assert FreeGprs([], {}) == {} && FreeXmms([], {}) == {} && Protected([], call) == Spans(call);
    assert call == [Slot(0x1008, LeBytes(0, 8))] && call[1..] == [] && Spans([]) == {};
    assert SlotsOf(root)[1..] == [];
  }

  // ---- A frame register that is not set yet ----

  /** Only `push rbp` ran. */
  function PushedRun(): Activation {
    Activation(INFO, [PUSH_RBP], StartMachine(), Machine(Registers(0x1000, 0, 0x2001), Stack()))
  }

  /** Between `push rbp` and `mov rbp, rsp` the caller is restored, but the frame reported is
      what rbp still holds, and not the one established. */
  lemma NotYetSetIsReported()
    ensures var a, start := PushedRun(), StartMachine();
            ValidRun([a], start, CallSlots(Called, start.cpu, 0, 0x1010), {}, {}) &&
            var (c, r) := UnwindTyped([ENTRY], 0x2000, a.exit.cpu, a.exit.mem, EXCEPTION);
            r.Ok? && c.Rsp() == 0x1010 && r.value.establisherFrame == 0 && Established([a]) == 0x1000
  {
    hide LeBytes, Lookup, UnwindTyped, ScanEpilog, Describes, CallSlots, Entered;
    var a, start := PushedRun(), StartMachine();
    PushedIsValid();
    PushedDescribed();
    CodeIsNop(0x2001);
    StackHoldsZeros(0x1008);
    EnteredThere();
    LookupAtOne();
    UnwindInvertsExecution([ENTRY], 0x2000, ENTRY, EXCEPTION, [a], start, 1, Called, 0, 0x1010, {}, {});
    assert !SetsFrame(a.done) && [a][1..] == [] && Setter([a]) == [];
    assert AfterProlog(a) == start.cpu.WithRsp(0x1000) by {
      assert [PUSH_RBP][1..] == [];
    }
  }

  lemma LookupAtOne()
    ensures Lookup([ENTRY], 1) == Some(ENTRY)
  {
    assert [ENTRY][1..] == [] && PartitionPoint([ENTRY], 1) == 1;
  }

  lemma EnteredThere()
    ensures Entered(Called, StartMachine(), 0, 0x1010)
  {
    hide LeBytes;
    StackHoldsZeros(0x1008);
  }

  lemma PushedDescribed()
    ensures Describes(INFO, Some(1), [PushedRun()], Called)
  {
    var codes := [SET_FRAME, PUSH_RBP];
    assert codes[1..] == [PUSH_RBP] && [PUSH_RBP][1..] == [];
    assert Executed([], Some(1)) == [] && Executed([PUSH_RBP], Some(1)) == [PUSH_RBP];
    assert Executed(codes, Some(1)) == [PUSH_RBP];
    assert [PUSH_RBP] + MachineCodes(Called) == [PUSH_RBP];
  }

  lemma PushedIsValid()
    ensures var start := StartMachine();
            ValidRun([PushedRun()], start, CallSlots(Called, start.cpu, 0, 0x1010), {}, {})
  {
    hide LeBytes;
    var a, start := PushedRun(), StartMachine();
    var call := CallSlots(Called, start.cpu, 0, 0x1010);
    StackHoldsZeros(0x1000);
    assert a.done[1..] == [] && Exec([], INFO, start.cpu) == start.cpu && Slots([], INFO, start.cpu) == [];
    assert AfterProlog(a) == start.cpu.WithRsp(0x1000);
    var slots := SlotsOf(a);
    assert slots == [Slot(0x1000, LeBytes(0, 8))] && slots[1..] == [];
    assert call == [Slot(0x1008, LeBytes(0, 8))] && call[1..] == [] && [a][1..] == [];
    assert Spans([]) == {} && Protected([], call) == Spans(call) && Span(slots[0]) !! Spans(call);
    assert Disjoint([], Spans(call) + Span(slots[0]));
    assert StoreAll([], Stack()) == Ok(Stack()) && StoreAll(slots, Stack()) == Ok(Stack());
    assert Conforming([], INFO) && !SetsFrame([]) && !HasSaves([]) && FrameReg(a) == {};
    assert ValidRun([], start, call, {}, {}) && FreeGprs([], {}) == {} && FreeXmms([], {}) == {};
    ValidStep([a], start, call);
  }

  // ---- A function in machine code ----

  const PUSH_INFO := UnwindInfo(false, false, None, 0, [PUSH_RBP], None, None, None)
  const PUSH_ENTRY := UnwindEntry(0x3000, 0x3100, PUSH_INFO)

  /** A stack and, at 0x3000, `push rbp`. */
  function Image(): Memory {
    map a: int | 0x1000 <= a < 0x3001 && InImage(a) :: if a == 0x3000 then 0x55 else 0
  }

  predicate InImage(a: int) {
    a < 0x1010 || a == 0x3000
  }

  lemma ImageHoldsZeros(addr: int)
    requires 0x1000 <= addr <= 0x1008
    ensures Holds(Image(), addr, LeBytes(0, 8)) && Write(Image(), addr, LeBytes(0, 8)) == Ok(Image())
  {
    ZeroBytes(8);
    hide LeBytes;
    assert Mapped(Image(), addr, 8);
    assert Bytes(Image(), addr, 8) == LeBytes(0, 8);
    assert Store(Image(), addr, LeBytes(0, 8)) == Image();
  }

  /** The conditions of PrologExecution.ExecuteThenUnwind on entering a function can be met. */
  lemma EnteringIsMet()
    ensures PrologExecution.Entering(PUSH_ENTRY, 0, Machine(Registers(0x1008, 0, 0x3000), Image()), 0, 0x1010)
  {
    hide LeBytes;
    var codes, start := [PUSH_RBP], Machine(Registers(0x1008, 0, 0x3000), Image());
    assert codes[1..] == [];
    assert PrologExecution.Code([], PUSH_INFO) == [] && PrologBytes(PUSH_RBP.op, PUSH_INFO) == [0x55];
    assert PrologExecution.Code(codes, PUSH_INFO) == [0x55];
    assert Bytes(Image(), 0x3000, 1) == [0x55];
    ImageHoldsZeros(0x1000);
    ImageHoldsZeros(0x1008);
    var slots := Slots(codes, PUSH_INFO, start.cpu);
    assert Slots([], PUSH_INFO, start.cpu) == [] && slots == [Slot(0x1000, LeBytes(0, 8))] && slots[1..] == [];
    var call := CallSlots(Called, start.cpu, 0, 0x1010);
    assert call == [Slot(0x1008, LeBytes(0, 8))] && call[1..] == [];
    assert Spans([]) == {} && Span(slots[0]) !! Spans(call);
    assert Disjoint([], Spans(call) + Span(slots[0]));
    assert StoreAll([], Image()) == Ok(Image());
    assert PrologExecution.AllEncodable(codes, PUSH_INFO);
    assert Conforming([], PUSH_INFO) && !SetsFrame([]) && !HasSaves([]);
    assert Conforming(codes, PUSH_INFO) && PrologExecution.SavesAtRsp(codes, PUSH_INFO);
    assert PrologExecution.OffsetsFit(codes, PUSH_INFO);
    assert Entered(Called, start, 0, 0x1010);
    assert StoreAll(slots, Image()).Ok?;
    assert PrologExecution.Clear(slots, 0x3000, 0x3001);
    assert Disjoint(slots, Spans(call));
    assert Holds(Image(), 0x3000, [0x55]);
  }

  // ---- Epilogs without an allocation, and with two ----

  const PAGE := UnwindCode(8, Alloc(0x1000))
  const LOCALS := UnwindCode(15, Alloc(0x20))

  /** A function that only pushes has an epilog of pops alone; two allocations are dropped
      together; one below a frame register is dropped from it, with those above ignored. */
  lemma EpilogShapes()
    ensures var f := Shape([], [PUSH_RBP], Bare);
            WellFormed(f, PUSH_INFO) && EpilogFor(f, PUSH_INFO) == [Pop(5)]
    ensures var f := Shape([LOCALS, PAGE], [PUSH_RBP], AddTotal);
            WellFormed(f, PUSH_INFO) && EpilogFor(f, PUSH_INFO) == [AddRsp(0x1020), Pop(5)]
    ensures var f := Shape([PAGE, SET_FRAME, LOCALS], [PUSH_RBP], FromFrame);
            WellFormed(f, INFO) && EpilogFor(f, INFO) == [LeaRsp(5, 0x20), Pop(5)]
  {
    assert [PAGE, SET_FRAME, LOCALS][1..] == [SET_FRAME, LOCALS] && [SET_FRAME, LOCALS][1..] == [LOCALS];
    assert [LOCALS][1..] == [] && TotalAlloc([LOCALS]) == 0x20 && SetsFrame([SET_FRAME, LOCALS]);
    assert FrameAlloc([SET_FRAME, LOCALS]) == 0x20;
    assert [PUSH_RBP][1..] == [] && PopsFor([PUSH_RBP]) == [Pop(5)];
    assert [LOCALS, PAGE][1..] == [PAGE] && [PAGE][1..] == [];
    assert TotalAlloc([PAGE]) == 0x1000;
  }
}
