/** A backtrace that stops short: a function that calls itself from one place. */
module RecursionExample {
  import opened Words
  import opened GuestMemory
  import opened Unwind
  import opened PrologRun
  import opened UnwindInverse
  import opened BacktraceWalk
  import UnwindExample

  const LOCALS := UnwindCode(4, Alloc(8))
  const INFO := UnwindInfo(false, false, None, 0, [LOCALS], None, None, None)
  const ENTRY := UnwindEntry(0, 0x100, INFO)

  predicate InUse(a: int) {
    a < 0x1040 || a >= 0x2000
  }

  /** Code of `nop` from 0x2000 on, and a stack with two return addresses: 0x2008 at 0x1020
      and 0x77 at 0x1030. */
  function Stack(): Memory {
    map a: int | 0x1000 <= a < 0x2100 && InUse(a) ::
      if a >= 0x2000 then 0x90 else if a == 0x1020 then 8 else if a == 0x1021 then 0x20 else if a == 0x1030 then 0x77 else 0
  }

  function At(rsp: u64, rip: u64): Machine {
    Machine(UnwindExample.Registers(rsp, 0, rip), Stack())
  }

  /** `sub rsp, 8` ran, and the body stands at 0x2008. */
  function Act(rsp: int): Activation
    requires 8 <= rsp < TWO64
  {
    Activation(INFO, [LOCALS], At(rsp, 0x2000), At(rsp - 8, 0x2008))
  }

  function FrameAt(rsp: int, callerRip: u64): Frame
    requires 8 <= rsp < TWO64 - 8
  {
    Frame(InBody, ENTRY, 8, [Act(rsp)], At(rsp, 0x2000), At(rsp - 8, 0x2008), Called, callerRip, rsp + 8)
  }

  function Frames(): seq<Frame> {
    [FrameAt(0x1020, 0x2008), FrameAt(0x1030, 0x77)]
  }

  /** A word whose bytes above the lowest two are zero. */
  lemma WordHeld(addr: int, low: byte, high: byte)
    requires 0x1000 <= addr <= 0x1030
    requires Stack()[addr] == low && Stack()[addr + 1] == high && forall a :: addr + 2 <= a < addr + 8 ==> Stack()[a] == 0
    ensures Holds(Stack(), addr, LeBytes(low + 0x100 * high, 8))
  {
    UnwindExample.ZeroBytes(6);
    var v := low + 0x100 * high;
    assert LeBytes(high, 7) == [high] + LeBytes(0, 6) && LeBytes(v, 8) == [low] + LeBytes(high, 7);
    hide LeBytes, Stack;
    StackMapped(addr);
    var bytes, zeros := LeBytes(v, 8), LeBytes(0, 6);
    assert bytes == [low, high] + zeros;
    forall k | 0 <= k < 8
      ensures Bytes(Stack(), addr, 8)[k] == bytes[k]
    {
      var a := addr + k;
      assert Bytes(Stack(), addr, 8)[k] == Stack()[a];
    }
    assert Bytes(Stack(), addr, 8) == bytes;
  }

  lemma StackMapped(addr: int)
    requires 0x1000 <= addr <= 0x1038
    ensures Mapped(Stack(), addr, 8)
  {
  }

  lemma ReturnsHeld()
    ensures Holds(Stack(), 0x1020, LeBytes(0x2008, 8)) && Holds(Stack(), 0x1030, LeBytes(0x77, 8))
  {
    hide Holds, LeBytes;
    WordHeld(0x1020, 0x08, 0x20);
    WordHeld(0x1030, 0x77, 0);
  }

  lemma ActIsValid(rsp: int, slots: seq<Slot>)
    requires 8 <= rsp < TWO64
    ensures ValidRun([Act(rsp)], At(rsp, 0x2000), slots, {}, {}) && FrameReg(Act(rsp)) == {}
    ensures SlotsOf(Act(rsp)) == [] && Describes(INFO, Some(8), [Act(rsp)], Called)
  {
    var a, e := Act(rsp), At(rsp, 0x2000).cpu;
    assert [LOCALS][1..] == [] && Exec([], INFO, e) == e && Slots([], INFO, e) == [];
    assert SavedGprs([]) == {} && SavedXmms([]) == {} && !SetsFrame([]) && !HasSaves([]) && Conforming([], INFO);
    assert [a][1..] == [] && ValidRun([], At(rsp, 0x2000), slots, {}, {});
    assert FreeGprs([], {}) == {} && FreeXmms([], {}) == {};
    assert StoreAll([], Stack()) == Ok(Stack());
    assert Executed([], Some(8)) == [] && Executed([LOCALS], Some(8)) == [LOCALS] && [LOCALS] + MachineCodes(Called) == [LOCALS];
  }

  lemma FrameRuns(rsp: int, callerRip: u64, outer: seq<Frame>)
    requires 8 <= rsp < TWO64 - 8 && Holds(Stack(), rsp, LeBytes(callerRip, 8))
    ensures RunsOver(FrameAt(rsp, callerRip), outer, {}, {})
  {
    hide ValidRun, LeBytes, Holds, Describes;
    ActIsValid(rsp, PushedBy(FrameAt(rsp, callerRip)) + StackOf(outer));
  }

  lemma FrameIsVisible(rsp: int, callerRip: u64)
    requires 8 <= rsp < TWO64 - 8
    ensures Visible(FrameAt(rsp, callerRip), [ENTRY], 0x2000, Stack(), {}, {})
  {
    assert 0x2008 in Stack() && Stack()[0x2008] == 0x90;
    assert [ENTRY][1..] == [] && PartitionPoint([ENTRY], 8) == 1;
  }

  /** The inner of two frames returns to its own rip: the walk ends there, although both
      frames unwind. */
  lemma RecursionCutsShort()
    ensures var frames := Frames(); var at := frames[0].stand;
            Nested(frames, {}, {}) && AllCallers(frames) == [0x2008, 0x77] &&
            (forall k :: 0 <= k < |frames| ==> Visible(frames[k], [ENTRY], 0x2000, at.mem, {}, {})) &&
            Backtrace([ENTRY], 0x2000, at.cpu, at.mem, 16) == []
  {
    hide RunsOver, Visible, Backtrace, LeBytes, Holds, KeepsStack;
    var frames := Frames();
    ReturnsHeld();
    FrameIsVisible(0x1020, 0x2008);
    FrameIsVisible(0x1030, 0x77);
    FrameRuns(0x1030, 0x77, []);
    FrameRuns(0x1020, 0x2008, [frames[1]]);
    NothingChanged(StackOf([frames[1]]));
    assert frames[1..] == [frames[1]] && [frames[1]][1..] == [];
    assert Nested([], {}, {}) && Nested([frames[1]], {}, {});
    assert AllCallers([]) == [] && AllCallers([frames[1]]) == [0x77];
    BacktraceListsCallers(frames, [ENTRY], 0x2000, {}, {}, 16);
  }

  lemma NothingChanged(slots: seq<Slot>)
    ensures KeepsStack(Stack(), Stack(), slots)
  {
  }
}
