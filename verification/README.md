# Verified model of the emulator's core

A Dafny model of the parts of this x86/x64 emulator whose correctness is hard to see from one function, with proofs of
what they are for. `dafny verify dfyconfig.toml` checks everything.

## What is modelled

**Stack unwinding** (`Unwind`, `Unwinder`, `PrologRun`, `UnwindInverse`, `EpilogInverse`, `BacktraceWalk`,
`EpilogScan`, `EpilogBytes`, `EpilogCode`, `EpilogMissed`, `HandlerReport`, `UnwindExample`, `RecursionExample`). The
virtual unwinder of `crates/core/src/unwind.rs` over a register file and a guest memory that fails on unmapped bytes.
`PrologRun` says what a prolog does to the machine: pushes, allocations and saves in any order that leaves the frame
where the saves found it, the order of the x64 ABI among them, and a frame register set before the saves relative to
it. A run is a chain of activations whose bodies keep to the calling convention; a chained record may go by a frame
register that an outer one set. The main theorem is that unwinding inverts execution at every point of prolog and body
where the bytes ahead do not pass for an epilog; a second says exactly when it does where they do, from any machine; a
third says exactly when it does at every operation of an epilog, recognised or not; a fourth follows a whole stack of
nested frames with `backtrace`. `HandlerReport` says which handler an unwind reports, and `EpilogCode` that the bytes
of an epilog are read as the operations that undo its frame.

**The unwinder's decoder against the interpreter** (`Decoder`, `Interp`, `Fetch`, `InterpreterClass`, `OperandForms`,
`RegisterParts`, `InstructionForms`, `EpilogAgrees`, `EpilogEnds`, `EpilogExecution`, `PrologAgrees`,
`PrologExecution`). One instruction of `crates/cpu`, byte fetch through the prefetch buffer included, for the opcodes
of prologs, epilogs and the sample assembler. Simulating an epilog is shown to be executing it, and the bytes of
prolog instructions to do what their unwind codes say. Together with the inversion theorem this goes from machine code
to the caller: execute any part of a prolog, unwind, and the caller's registers are back; execute the rest of an
epilog, or unwind from it, and end at the same place. What the prefixes, ModRM and SIB bytes mean, and which bits of a
register an operand is, are stated on the encodings, and what each instruction then does with them, in either mode.

**Assembler and decoder** (`Assembler`, `Fixups`). What `gui_sample.rs` emits decodes and executes as meant, and every
branch and rip-relative address resolves to its label after the fixups are patched in place.

**Integer semantics** (`Alu`, `LogicOps`, `MultiLimb`, `MulDiv`, `Rotate`, `Bmi`, `StringOps`, `StringFlags`, `Lanes`,
`Saturation`, `BitOps`). Flags by value, OR, AND and XOR bit by bit, the branch after a comparison, chains of ADC and
SBB over any number of limbs with the condition codes after them, multiplication and division on the accumulator pair,
rotation through carry, PEXT and PDEP, REP MOVS, REPE CMPS and REPNE SCAS, packed lanes and their saturation. The
status flags and condition codes are those of the Intel SDM, volume 1, section 3.4.3.1 and appendix B.

**The FXSAVE image** (`Fxsave`, `FxsaveStable`, `FxsaveLayout`, `FpuClass`), Intel SDM, volume 1, section 10.5.

**The debugger control block** (`Debug`, `DebugControl`, `DebugThreads`). Sequentially, the bloom filters never change
an answer. Concurrently, calls are steps of threads under a lock with an unlocked filter load in front, and every
interleaving is linearizable; a change takes effect where its filter is stored.

**The host window mirror** (`HostWindows`, `HostEffects`, `WindowModel`). The planner of `crates/gui/src/host.rs` and
a host that replays its actions: when the two agree, and what each command does to both.

**The regression manifest and gate** (`Text`, `TomlLite`, `ManifestText`, `ManifestRoundTrip`, `ManifestLaw`,
`ManifestMeaning`, `Gate`, `GateFindings`). Printer, line-by-line reader and what it makes of the text, comparison
with a run field by field, and the update that folds a run back in.

**The random stream** (`SplitMix`, `RngValues`). The generator of `crates/oracle/src/rng.rs`.

Code that the source runs in place is a method here, on a class or an array or in a loop, tied by its postcondition to
a function that specifies it; the theorems are about the functions. Machine words are bounded integers with
wrap-around written out (`Words`); bitwise operators on them are functions on naturals characterised bit by bit
(`BitOps`); the debugger's filters are 64-bit vectors. Reads that fail, parse errors, divide errors and early stops
are values.

## Where the code does not do the obvious thing

Each of these is kept as the code has it, with the exact condition proved.

- The epilog scanner takes jumps of a body for the end of an epilog: any `FF /4`, and any `E9` or `EB` that leaves the
  entry's range, such as one to a chained fragment. Unwinding there pops the word at rsp; it restores the caller if
  and only if the registers already are those of the function's entry (`EpilogScan.UnwindAtJump`; for any scanned
  operations, `EpilogScan.UnwindRestoresExactly`). A run that is unwound wrongly is in
  `EpilogScan.SwitchIsUnwoundWrongly`.
- The scanner knows an indirect jump at the end of an epilog only without a prefix, so `jmp [r8]` (41 FF 20) and any
  `48 FF /4` are missed, as is a tail jump into the function's own range (`EpilogBytes.ScansExactly` has all that it
  knows). In an epilog that is missed, unwinding by codes restores the caller if and only if nothing has been dropped
  yet, or, with a frame register, if and only if that still holds the frame (`EpilogMissed.UnwindAtOperationExactly`;
  an epilog that is unwound wrongly is in `EpilogMissed.PrefixedJumpIsMissed`).
- Between a declared frame register and the instruction that sets it, the reported frame is what that register still
  holds, less the offset; and a chained record that declares no frame register reports rsp although its parent set one
  (`UnwindInverse.ReportedExactly`, with a run in `UnwindExample.NotYetSetIsReported`).
- A chained part does not report the handler of its parent: in its body only its own flags count
  (`HandlerReport.HandlersExactly`, with an entry in `HandlerReport.ParentsHandlerIsPassedBy`).
- A segment prefix before an operand relative to rip is passed over in 64-bit mode, and prefix 67 always is
  (`OperandForms.RipForm`, `RegisterParts.PrefixesRead`).
- A simulated `pop rsp` ends 8 above what the interpreter's does; all other pops agree (`EpilogAgrees.PopAgrees`, with
  an input in `EpilogEnds.PopRspDiffers`).
- The epilog simulation ignores the bytes that `ret imm16` drops; it agrees if and only if there are none
  (`EpilogAgrees.DropsExactly`, with an input in `EpilogEnds.RetDropsDiffer`).
- At a tail jump the simulation is the jump and then one return, as if the function jumped to returned at once
  (`EpilogEnds.TailJumpReturnsAtOnce`).
- A backtrace stops at a frame that returns to its own rip, as one does that calls itself from the same place; it
  lists every caller if and only if no frame ends it so, with a zero, or with an rsp that is not higher
  (`BacktraceWalk.BacktraceListsCallers`, with a stack in `RecursionExample.RecursionCutsShort`).
- In a table with overlaps an address that only an earlier entry covers is found in none
  (`UnwindExample.LookupSeesLast`, with a table in `UnwindExample.CoveredIsMissed`).
- DIV and IDIV at 16 bits and wider, and DIV on bytes, complete when the quotient does not fit; the quotient is right
  if and only if it fits (`MulDiv.DivIsExact`, with an input in `MulDiv.QuotientWraps`).
- IDIV of the least dividend by -1 at 8 and 64 bits, and no other division, stops the host's own division
  (`MulDiv.HostStopsExactly`, with an input in `MulDiv.HostStops`).
- Saturation makes the last byte of the address space invisible to watchpoints (`Debug.OverlapsExactly`, with a watch
  in `Debug.TopByteIsMissed`).
- Creating a top-level window whose handle is still open breaks the mirror for good, and nothing else does
  (`HostWindows.PlanMirrors`, for runs `HostWindows.RunMirrors`, and a run in `HostWindows.ReopenedIsRefused`).
- A manifest entry survives printing if and only if its strings have no newline, its counts and address are below
  2^63, and it has no exit code unless it exits (`ManifestLaw.RoundTripExactly`, with entries in
  `ManifestLaw.EntriesAreLost`); an empty header gains a blank line, and a carriage return before the end of a header
  line is lost (`ManifestLaw.ReadPrintRead`).
- Re-blessing makes the gate pass for every emulator if and only if no selected entry stands behind another of the
  same name (`Gate.BlessingExactly`).

## Model

| member | source | states |
|---|---|---|
| UnwindInverse.UnwindInvertsExecution | crates/core/src/unwind.rs:85-176 | At any point of a conforming prolog or of the body after it where the bytes ahead do not pass for an epilog, over any chain of records, called or interrupted: unwinding restores the caller's rip, rsp and every non-volatile general and xmm register. rsp may have moved freely in a body wherever a frame register holds the frame, one that the record set or one that an outer record set and a chained record saves by. The reported frame is the function's, with the exceptions of ReportedExactly. |
| UnwindInverse.UnwindCodesAt | crates/core/src/unwind.rs:108-176 | The same from any registers that agree on the non-volatile ones and any memory in which the stack slots are intact, so that it applies to an outer frame seen from an inner one. |
| UnwindInverse.UnwindCodesInverts | crates/core/src/unwind.rs:108-176 | The same for the codes alone, once the table entry is known and no epilog is under way. |
| UnwindInverse.UndoChain | crates/core/src/unwind.rs:121-170 | Undoing the executed codes of a record and all codes of the records it is chained to leads back to the entry of the outermost, machine frame included. |
| UnwindInverse.UndoActivation | crates/core/src/unwind.rs:122-162 | One record undone: the registers agree with those at entry on all that outer frames rely on, and rsp is the one at its entry whenever what is left to undo goes by rsp and not by a frame register. |
| UnwindInverse.FrameIsKnown | crates/core/src/unwind.rs:122-129 | The frame that a record computes for unwinding is the one its prolog's saves were relative to and its frame register was set from, wherever rsp is, whether the record set that register itself or took it over from an outer one. |
| UnwindInverse.UndoMachineFrame | crates/core/src/unwind.rs:154-159 | A machine frame, with or without error code, yields the interrupted rip and rsp and nothing else changes. |
| UnwindInverse.RunHolds | crates/core/src/unwind.rs:121-176 | Whatever the nested bodies store within the convention, every save slot and the return address are intact when the innermost stops. |
| UnwindInverse.ReportedExactly | crates/core/src/unwind.rs:122-129 | The reported frame is the function's, as the activation that set a frame register established it, if and only if the innermost record declares that register and it still holds the frame, or none was set and none is declared, or what the code takes for the frame (rsp, or a register not set yet) happens to be it. A declared register that nothing has written holds what it held at the record's entry. |
| HandlerReport.HandlersExactly | crates/core/src/unwind.rs:109-175 | Anywhere in a function of the table a successful unwind reports the handler and handler data of the entry that was found if and only if the search asks (type 1) and the entry has an exception handler, or the unwind asks (type 2) and it has a termination handler; where the scanner saw an epilog it reports none and is marked so. |
| HandlerReport.InvertedReportsOwn | crates/core/src/unwind.rs:85-176 | So wherever the inversion theorem applies. |
| HandlerReport.LeavesReportNone | crates/core/src/unwind.rs:92-102 | Outside the table the return address is popped, the frame is marked as a leaf and no handler is reported. |
| HandlerReport.ParentsHandlerIsPassedBy | crates/core/src/unwind.rs:109-169 | A chained part whose own flags are clear reports no handler though its parent has one. |
| EpilogScan.UnwindRestoresExactly | crates/core/src/unwind.rs:85-176 | For any machine that stands in a function with what the call pushed intact, called or interrupted: where the scanner sees an epilog, unwinding restores the caller if and only if playing the operations it saw leads back, and rsp alone if and only if they take rsp back; where a read of it fails, unwinding fails; where it sees none, unwinding the end of any conforming run restores the caller. (Where it sees none inside an epilog, see EpilogMissed.) |
| EpilogScan.UnwindAtJump | crates/core/src/unwind.rs:255-276 | Wherever a called function stands at a jump that passes for the end of an epilog (FF /4, or E9 or EB out of the entry's range), unwinding restores rsp if and only if rsp is where it was at entry, and the caller if and only if the other non-volatile registers are too. |
| EpilogScan.SimulationExactly | crates/core/src/unwind.rs:278-291 | Playing scanned operations and returning yields the caller exactly when the operations lead back: to the rsp at entry of a called function, or below an interrupt's rsp on its rip. |
| EpilogScan.JumpPassesForEpilog | crates/core/src/unwind.rs:255-272 | Those jumps are scanned as an epilog without operations, wherever they stand. |
| EpilogScan.SwitchIsUnwoundWrongly | crates/core/src/unwind.rs:255-292 | A valid run with a frame, stopped in its body at `jmp rax`, whose unwinding misses the caller's rsp. |
| EpilogMissed.UnwindAtOperationExactly | crates/core/src/unwind.rs:85-292 | At every operation of an epilog whose remaining bytes stand at rip, over any chain of records and whatever instruction ends it: unwinding restores the caller if and only if the scanner knows that instruction for an end, or does not and what the codes need still fits (nothing dropped yet; or, with a frame register, that register as it was at the body's end). |
| EpilogMissed.MissedExactly | crates/core/src/unwind.rs:104-176 | At an operation where the scanner sees no epilog, unwinding restores the caller, and its rsp alone, if and only if no byte of the frame has been dropped yet, or, with a frame register, if and only if that is as it was, which it is until it is popped. |
| EpilogMissed.UnwindAnywhereExactly | crates/core/src/unwind.rs:85-292 | For a called function, from any registers that agree with the end of a run apart from rsp and the frame register, by the scanner's verdict: none, and unwinding is right if and only if those lead to the frame; an epilog, if and only if its operations lead back. |
| EpilogMissed.CodesRestoreExactly | crates/core/src/unwind.rs:108-176 | Undoing codes from such registers restores the caller, and its rsp alone, if and only if the frame register, or without one rsp, is what it was at the run's end. |
| EpilogMissed.ChainDecides | crates/core/src/unwind.rs:121-170 | Two register files undone by the same chain end with the same rsp exactly when they start with the same frame register, or, if none was set, with the same rsp. |
| EpilogMissed.PrefixedJumpIsMissed | crates/core/src/unwind.rs:240-276 | After `add rsp, 10h` of an epilog, before `jmp [r8]` (41 FF 20), unwinding undoes the frame again and misses the caller's rsp. |
| EpilogBytes.ScansExactly | crates/core/src/unwind.rs:200-276 | The scanner sees an epilog if and only if an accepted head and pops are followed by C3, C2, F3 C3, FF /4 without a prefix, or EB or E9 with a readable target out of the range, and then exactly those operations; it fails if and only if the head or that jump is cut short. |
| EpilogBytes.TailScansExactly | crates/core/src/unwind.rs:240-276 | The same for the pops and the terminator alone. |
| EpilogCode.EpilogCodeScans | crates/core/src/unwind.rs:207-256 | The machine code of a frame's epilog, with its head in either width and before anything that is neither head nor pop, is read as exactly the operations that undo the frame. |
| EpilogCode.RestOfPopsScans | crates/core/src/unwind.rs:240-256 | So is what is left of it at every pop. |
| EpilogCode.AddScans | crates/core/src/unwind.rs:207-218 | Both encodings of add rsp, imm are read with their sign-extended immediate and length. |
| EpilogCode.LeaScans | crates/core/src/unwind.rs:219-236 | So are both encodings of lea rsp, [reg + disp], for every register that needs no SIB byte. |
| PrologRun.UndoRecord | crates/core/src/unwind.rs:122-162 | One record, any executed part of a conforming prolog, in any order that keeps the frame where the saves found it: exactly the saved registers are restored, all others and rip are untouched, and rsp is restored whenever what is undone next goes by it. |
| PrologRun.UndoPush | crates/core/src/unwind.rs:135-144 | A push, allocation or set-frame code inverts the instruction it stands for. |
| PrologRun.UndoSave | crates/core/src/unwind.rs:145-153 | A save code reloads exactly the register that was stored, 64 or 128 bits, relative to the frame. |
| PrologRun.FrameAfterFits | crates/core/src/unwind.rs:122-129 | The frame as the record defines it after the prolog is the one that every save was relative to and the frame register was set from. |
| PrologRun.ConformingKeepsRegisters | crates/core/src/unwind.rs:122-129 | A conforming prolog changes no register but rsp and the frame register it declares, and the frame computed from that register is the rsp it was set from. |
| UnwindExample.LookupFindsCover | crates/core/src/unwind.rs:40-44 | In a sorted table without overlaps the lookup returns the entry covering the address if there is one, and only such an entry. |
| UnwindExample.LookupSeesLast | crates/core/src/unwind.rs:40-44 | In a table sorted by beginnings, overlaps allowed, the lookup looks at the last entry that begins at or below the address and at no other. |
| UnwindExample.CoveredIsMissed | crates/core/src/unwind.rs:40-44 | A concrete overlapping table in which a covered address is found in no entry. |
| UnwindExample.ConditionsAreMet | crates/core/src/unwind.rs:85-176 | A concrete function with a frame register, stopped in its body with rsp anywhere, meets every condition of the inversion theorem. |
| UnwindExample.InheritedFrameIsMet | crates/core/src/unwind.rs:121-169 | A concrete chained part that saves relative to its parent's frame register, with rsp anywhere in both bodies, meets every condition of the inversion theorem and reports the parent's frame. |
| UnwindExample.NotYetSetIsReported | crates/core/src/unwind.rs:122-129 | Stopped between push rbp and mov rbp, rsp, unwinding restores the caller but reports 0 where the frame is 1000h. |
| Unwinder.VirtualUnwindTyped | crates/core/src/unwind.rs:85-176 | The loops over codes and chained records, run in place, leave the registers and the answer that the specification gives, error paths included. |
| Unwinder.ApplyRecord | crates/core/src/unwind.rs:130-162 | The code loop applies exactly the executed codes, in order, and stops at the first failing read. |
| Unwinder.ApplyCode | crates/core/src/unwind.rs:134-161 | One code in place, with the registers as they are when a read fails half way. |
| Unwinder.PopReturn | crates/core/src/unwind.rs:178-182 | rip from the top of the stack and rsp up by 8, or nothing on a failing read. |
| Unwinder.UnwindAsLeaf | crates/core/src/unwind.rs:94-102 | Outside the image or the table the return address is popped and the frame is marked as a leaf. |
| Unwinder.TrySimulateEpilog | crates/core/src/unwind.rs:184-292 | The byte scanner ends because it moves over mapped bytes; false leaves the registers untouched; true has played the scanned operations and the return. |
| Unwinder.RunEpilog | crates/core/src/unwind.rs:278-291 | The scanned operations played in order, then the return, stopping at the first failing read. |
| EpilogInverse.UnwindFromEpilog | crates/core/src/unwind.rs:184-292 | At every operation of the ABI's epilog for a frame where the scanner recognises what is left, over any chain of records, unwinding restores the caller (EpilogMissed says what happens where it does not). The outermost record pushed and allocated any number of times, before and after a frame register was set; the epilog drops the allocation by an add, from the frame register, or needs no such instruction; what chained records saved has been reloaded before. |
| EpilogInverse.UnwindFromEpilogAt | crates/core/src/unwind.rs:184-292 | The same from any registers that stand at that operation and any memory in which the slots are intact: an epilog seen from an inner frame. |
| EpilogInverse.RestReturns | crates/core/src/unwind.rs:278-291 | From any operation the rest of the epilog, played over intact slots, returns to the caller. |
| EpilogInverse.NextOperation | crates/core/src/unwind.rs:278-289 | Each operation succeeds and leads from its place in the epilog to the next. |
| UnwindExample.EpilogShapes | crates/core/src/unwind.rs:207-256 | A function that only pushes has an epilog of pops alone; two allocations are dropped by one add; with a frame register between two allocations only the lower one counts. |
| EpilogInverse.EpilogUndoesFrame | crates/core/src/unwind.rs:278-291 | The epilog of a frame restores the caller wherever bodies with a frame register moved rsp, over any chain of records. |
| EpilogInverse.HeadDropsFrame | crates/core/src/unwind.rs:280-283 | The head of the epilog, if it has one, leaves rsp above all allocations: by their sum, or from the frame register by those before it was set. |
| EpilogInverse.UnsavedKept | crates/core/src/unwind.rs:278-291 | What no record of a chain saved and is not volatile holds its value from the function's entry to the end of its body. |
| EpilogInverse.RootFrameHeld | crates/core/src/unwind.rs:280-283 | A frame register that no body may change and no chained record set anew still leads to the frame that the outermost record set it from. |
| EpilogInverse.PopsAreCodes | crates/core/src/unwind.rs:284-287 | A run of pops does what the push codes of the same registers undo. |
| BacktraceWalk.WalkStack | crates/core/src/unwind.rs:294-315 | The walk works on a copy of the registers and returns the return addresses up to the first step that fails, repeats rip, yields zero, or does not raise rsp. |
| BacktraceWalk.BacktraceListsCallers | crates/core/src/unwind.rs:294-315 | From the innermost of any number of nested frames, each in its prolog, body or epilog, with any chain of records, or a leaf outside the table, the backtrace lists their callers, innermost first, exactly up to the first frame whose return address is zero or its own rip or whose caller's rsp is not above its own; every caller is listed if and only if there is no such frame. An epilog may be one the scanner misses while the codes still fit, and a body may stand at a jump that passes for an epilog if that leads back. |
| RecursionExample.RecursionCutsShort | crates/core/src/unwind.rs:307-309 | Two frames of a function that calls itself from one place: both unwind, and the walk lists none of their two callers. |
| BacktraceWalk.StackHolds | crates/core/src/unwind.rs:294-315 | Where the innermost function stands, the slots of every frame of a nested stack are intact. |
| BacktraceWalk.UnwindOne | crates/core/src/unwind.rs:304-307 | One step of the walk, from a body, an epilog or a leaf, arrives at the caller with all registers that are not volatile, over memory changed by the callees. |
| EpilogAgrees.SimulationIsExecution | crates/core/src/unwind.rs:184-292 | Simulating an epilog is executing it: from the same rip the interpreter, one instruction per scanned operation and one for the return, ends with the same sixteen registers and rip, or fails on the same read. |
| EpilogAgrees.ScanTailIsPops | crates/core/src/unwind.rs:240-276 | What the scanner collects is exactly the run of pop instructions at pc, whatever terminator follows. |
| EpilogAgrees.PopAgrees | crates/cpu/src/exec.rs:99-103 | A pop in the scanner and in the interpreter agree on all registers if and only if the register is not rsp; for rsp the unwinder is 8 higher. |
| EpilogAgrees.AddRspAgrees | crates/cpu/src/exec.rs:166-180 | `add rsp, imm8` and `imm32` change rsp in the interpreter as in the unwinder and advance over exactly the scanned bytes. |
| EpilogAgrees.LeaAgrees | crates/cpu/src/exec.rs:222-227 | `lea rsp, [reg + disp]` likewise. |
| EpilogAgrees.ReturnAgrees | crates/cpu/src/exec.rs:362-373 | The return loads the same rip from the same slot; rsp differs by the bytes the return drops. |
| EpilogAgrees.PopsAgree | crates/cpu/src/exec.rs:99-103 | A run of pops and the return agree, step by step, failing on the same read. |
| EpilogAgrees.DropsExactly | crates/core/src/unwind.rs:257-258 | An epilog that ends in `ret imm16`, simulated without a failing read, leaves the registers that its execution leaves if and only if imm16 is zero. |
| EpilogEnds.OperationsRun | crates/cpu/src/exec.rs:47-63 | Whatever ends the epilog, known to the scanner or not, the interpreter takes one step for each operation that stands at rip and comes to the terminator with the registers that playing the operations gives, or fails on the same read. |
| EpilogEnds.TailJumpReturnsAtOnce | crates/core/src/unwind.rs:259-271 | An epilog that ends in EB or E9: the interpreter plays the operations and stands at the target, and the simulation is one popped return from there. |
| EpilogEnds.PopRspDiffers | crates/core/src/unwind.rs:284-287 | At pop rsp over a zero the interpreter leaves rsp 0 and the simulation 8. |
| EpilogEnds.RetDropsDiffer | crates/core/src/unwind.rs:257-258 | At ret 8 the interpreter leaves rsp 8 above the simulation's. |
| PrologAgrees.PrologInstruction | crates/cpu/src/exec.rs:94-98 | The bytes of a prolog instruction (push, sub rsp, lea frame register, mov to the frame), executed by the interpreter, do exactly what the unwind code says the prolog did. |
| PrologAgrees.PrologIsNoEpilog | crates/core/src/unwind.rs:203-272 | Where the next instruction belongs to a prolog, the scanner never sees an epilog. |
| PrologAgrees.PushStep | crates/cpu/src/exec.rs:94-98 | `push reg`, with or without REX, stores the register eight below and moves rsp. |
| PrologAgrees.AllocStep | crates/cpu/src/exec.rs:166-180 | `sub rsp, imm32` is the allocation of the unwind code. |
| PrologExecution.ExecuteThenUnwind | crates/core/src/unwind.rs:85-176 | From machine code: the interpreter executes any number of a prolog's instructions from the function's first byte, and unwinding from where it stands restores rip, rsp and every other register of the caller. |
| PrologExecution.PrologExecutes | crates/cpu/src/exec.rs:47-63 | Any number of prolog instructions, executed one after the other, make exactly the register and stack changes that the unwind codes describe and end right behind the last. |
| PrologExecution.ExecutedAt | crates/core/src/unwind.rs:130-133 | At the end of each instruction the offset filter keeps exactly the codes of the instructions that ran. |
| EpilogExecution.EpilogReturns | crates/core/src/unwind.rs:184-292 | From any operation of an epilog whose remaining bytes, ending in a return, stand at rip, over any chain of records, executing the rest stands at the return address with the caller's registers and rsp above the bytes the return drops; unwinding from there ends with the same sixteen registers if and only if it drops none. |
| UnwindExample.EnteringIsMet | crates/core/src/unwind.rs:85-176 | A function in machine code, just called, meets the conditions of ExecuteThenUnwind. |
| InterpreterClass.Interpreter.ExecuteOne | crates/cpu/src/exec.rs:47-63 | One instruction, every byte taken through the prefetch buffer, has the effect that decoding straight from memory has. |
| InterpreterClass.Interpreter.ExecuteOpcode | crates/cpu/src/exec.rs:75-104 | Dispatch on the opcode updates registers and memory in place as the specification says. |
| InterpreterClass.Interpreter.BranchBy | crates/cpu/src/exec.rs:448-457 | A relative jump of one or four bytes, taken or not. |
| InterpreterClass.Interpreter.Return | crates/cpu/src/exec.rs:362-373 | Both returns, the immediate read before the stack. |
| InterpreterClass.Interpreter.Immediate | crates/cpu/src/lib.rs:451-457 | An operand-sized immediate, sign-extended from four bytes at size eight. |
| InterpreterClass.Interpreter.Arithmetic | crates/cpu/src/exec.rs:166-180 | The immediate arithmetic group, including the comparison that writes nothing. |
| LogicOps.LogicBits | crates/cpu/src/exec.rs:650-668 | OR, AND and XOR at every operand size, bit by bit; CF, OF and AF clear, ZF and SF by the result. |
| LogicOps.AndAlignsStack | crates/cpu/src/exec.rs:166-180 | and rsp, -10h in machine code rounds rsp down to a multiple of sixteen and advances rip by four. |
| LogicOps.SumHalfCarry | crates/cpu/src/alu.rs:41-52 | AF of an addition is the carry out of the low four bits; ZF and SF are those of the result. |
| LogicOps.DifferenceHalfCarry | crates/cpu/src/alu.rs:54-65 | AF of a subtraction is the borrow into the low four bits; ZF and SF are those of the result. |
| LogicOps.ParityOfLowByte | crates/cpu/src/alu.rs:28-39 | PF says that the low eight bits hold an even number of ones. |
| LogicOps.ConditionsAre | crates/cpu/src/lib.rs:459-485 | What each of the sixteen conditions asks of the flags. |
| LogicOps.ShortBranch | crates/cpu/src/exec.rs:158-164 | A short conditional branch goes to the end of its two bytes, and by its distance from there if the condition holds. |
| LogicOps.BranchAfterCompare | crates/cpu/src/exec.rs:158-164 | After a comparison each branch is taken exactly when the operands, unsigned or signed, stand in the relation it is named for. |
| RegisterParts.WritesBits | crates/core/src/cpu.rs:163-182 | A byte or word write replaces exactly those bits of the register, ah to bh the second byte, and a doubleword write clears the upper half. |
| RegisterParts.ReadsBits | crates/core/src/cpu.rs:152-176 | Reading takes the low bits of the register, or its second byte. |
| RegisterParts.PrefixesRead | crates/cpu/src/lib.rs:300-321 | A run of legacy prefixes: 66 and F0 count wherever they stand, the last of F2 and F3 and the last of 64 and 65 win, the others mean nothing, and a REX prefix ends them in 64-bit mode. |
| RegisterParts.MovesAre | crates/cpu/src/exec.rs:199-210 | 88 to 8B move a byte or an operand of the encoded size between the register and the register or memory that ModRM names. |
| InstructionForms.GroupOneIs | crates/cpu/src/exec.rs:166-180 | 80, 81 and 83 combine the operand with the immediate and write it back, at the size encoded; /7 writes nothing. |
| InstructionForms.ByteImmediates | crates/cpu/src/exec.rs:170-174 | The immediate of 80 is a byte as it stands, that of 83 a byte read as a signed number. |
| InstructionForms.WideImmediates | crates/cpu/src/lib.rs:451-457 | That of 81 and C7 has two or four bytes and is read as a signed number. |
| InstructionForms.PushThenPop | crates/cpu/src/lib.rs:436-449 | A push stores below rsp, by the width of the mode; popping returns the value and rsp; when the store fails rsp has moved. |
| InstructionForms.PushedIsPopped | crates/cpu/src/exec.rs:94-103 | 50 to 57 and then 58 to 5F move one register to another, with the fourth bit of both from REX. |
| InstructionForms.ReturnIs | crates/cpu/src/exec.rs:362-373 | Both returns, in both modes: the address popped, and rsp above it and above what is dropped. |
| InstructionForms.BranchesAre | crates/cpu/src/exec.rs:158-164 | EB and E9, 70 to 7F and 0F 80 to 8F go to the end of the instruction or by the distance from there, in both modes. |
| InstructionForms.LeaAndMovImmAre | crates/cpu/src/exec.rs:222-227 | LEA loads the address cut to the operand size; C7 stores its immediate. |
| InterpreterClass.Interpreter.Move | crates/cpu/src/exec.rs:199-210 | Register to memory operand and back. |
| InterpreterClass.Interpreter.LeaOrMovImm | crates/cpu/src/exec.rs:222-227 | Address computation and the store of an immediate. |
| Fetch.Ctx.constructor | crates/cpu/src/exec.rs:47-60 | The buffer holds sixteen code bytes or none, and the cursor starts at rip. |
| Fetch.Ctx.Take | crates/cpu/src/lib.rs:200-212 | k bytes at the cursor, only when the buffer holds all of them; then they are the bytes of memory. |
| Fetch.Ctx.U8 | crates/cpu/src/lib.rs:226-240 | One code byte, from the buffer or from memory: the same byte or the same failure. |
| Fetch.Ctx.Uint | crates/cpu/src/lib.rs:243-270 | A little-endian operand, in one piece or byte by byte: same value, same failing address. |
| Fetch.Ctx.ReadPrefixBytes | crates/cpu/src/lib.rs:300-321 | The prefix loop reads what the recursive definition reads and stops where it does. |
| Fetch.Ctx.ReadDisplacement | crates/cpu/src/lib.rs:323-389 | The displacement that mod announces. |
| Fetch.Ctx.ReadModrmBytes | crates/cpu/src/lib.rs:323-389 | ModRM, SIB and displacement through the buffer give the operand that decoding from memory gives. |
| OperandForms.BaseForm | crates/cpu/src/lib.rs:323-389 | [base + disp] is read from its bytes as the sum of base, segment and displacement, for every register and displacement width that the form has. |
| OperandForms.SibForm | crates/cpu/src/lib.rs:323-389 | [base + index * scale + disp] likewise, for every scale, with index number 4 meaning none. |
| OperandForms.NoBaseForm | crates/cpu/src/lib.rs:323-389 | [index * scale + disp32] and a plain disp32. |
| OperandForms.RipForm | crates/cpu/src/lib.rs:323-389 | Relative to the end of the instruction in 64-bit mode, and a plain address in 32-bit mode. |
| OperandForms.RegisterForm | crates/cpu/src/lib.rs:323-389 | A register operand, with its fourth bit from REX. |
| Assembler.RspOperandDecodes | crates/app/src/gui_sample.rs:369-389 | For every register and displacement the emitted ModRM, SIB and displacement decode to that register, rsp as base, that displacement, and exactly their length. |
| Assembler.LeaRoundTrip | crates/app/src/gui_sample.rs:419-423 | `lea reg, [rsp + disp]`, assembled and executed, loads that address and advances rip by the bytes emitted. |
| Assembler.MovStoreRoundTrip | crates/app/src/gui_sample.rs:402-406 | `mov [rsp + disp], reg`, assembled and executed, stores those eight bytes there. |
| Assembler.MovImmRoundTrip | crates/app/src/gui_sample.rs:424-428 | mov qword [rsp + disp], imm, assembled and executed, stores the sign-extended immediate, or fails on the same write. |
| Assembler.MovLoadRoundTrip | crates/app/src/gui_sample.rs:407-411 | `mov reg, [rsp + disp]`, assembled and executed. |
| Assembler.MovLoad32RoundTrip | crates/app/src/gui_sample.rs:412-418 | The 32-bit load, with its shorter encoding for low registers, assembled and executed: the upper half is cleared. |
| Fixups.Asm.MovAtRspReg | crates/app/src/gui_sample.rs:402-406 | The store is appended to the code, labels and fixups unchanged. |
| Fixups.Asm.MovAtRspImm | crates/app/src/gui_sample.rs:424-428 | Appends those bytes. |
| Fixups.Asm.MovRegAtRsp | crates/app/src/gui_sample.rs:407-411 | The load is appended. |
| Fixups.Asm.LeaRsp | crates/app/src/gui_sample.rs:419-423 | The address computation is appended. |
| Fixups.EmittedStays | crates/app/src/gui_sample.rs:354-364 | An instruction emitted with a fixup stays as it is, whatever is emitted after it. |
| Fixups.OutsideUnchanged | crates/app/src/gui_sample.rs:509-516 | Patching changes no byte outside the fixup windows. |
| Fixups.WindowResolves | crates/app/src/gui_sample.rs:509-516 | After patching, each window holds the distance from its end to its label, whatever was patched later. |
| Fixups.Asm.Finish | crates/app/src/gui_sample.rs:509-516 | The patching loop in place: every window filled, or nothing returned when a label was never placed. |
| Fixups.Asm.Label | crates/app/src/gui_sample.rs:365-367 | A label names the current end of the code. |
| Fixups.Asm.Jmp | crates/app/src/gui_sample.rs:480-484 | Opcode, four zero bytes and a fixup for them, clear of every earlier window. |
| Fixups.Asm.Je | crates/app/src/gui_sample.rs:475-479 | Two opcode bytes, four zero bytes and a fixup, likewise. |
| Fixups.Asm.LeaLabel | crates/app/src/gui_sample.rs:485-491 | A rip-relative lea with a fixup for its displacement, likewise. |
| Fixups.JmpReachesLabel | crates/app/src/gui_sample.rs:480-484 | In the finished code of an assembler, loaded anywhere, executing a jmp that it emitted goes to the label of its fixup. |
| Fixups.JeReachesLabel | crates/app/src/gui_sample.rs:475-479 | Executing a je of the finished code goes to the label of its fixup if and only if ZF is set, and falls through otherwise. |
| Fixups.LeaReachesLabel | crates/app/src/gui_sample.rs:485-491 | Executing a rip-relative lea of the finished code yields the address of its fixup's label. |
| Fixups.LoadedWindow | crates/app/src/gui_sample.rs:509-516 | The finished code in memory: each window is fetched as the displacement to its label. |
| Fixups.LoadedInstruction | crates/app/src/gui_sample.rs:509-516 | The finished code in memory holds each instruction's own bytes, untouched by any patch, followed by the displacement to its label. |
| StringOps.ForwardIsPeriodic | crates/cpu/src/exec.rs:775-791 | Forward REP MOVS onto a destination d bytes ahead: byte i becomes source byte i mod d; rsi and rdi advance by the bytes moved, the count ends at zero, nothing else changes. |
| StringOps.ForwardDownIsExact | crates/cpu/src/exec.rs:775-791 | Forward onto a lower address: an exact copy however the ranges overlap. |
| StringOps.DisjointIsExact | crates/cpu/src/exec.rs:775-791 | Disjoint ranges on either side: an exact copy, with final rsi and rdi. |
| StringOps.BackwardUpIsExact | crates/cpu/src/exec.rs:775-791 | Backward REP MOVS onto a higher address: an exact copy however the ranges overlap; rsi and rdi go down by the bytes moved. |
| StringOps.BackwardIsPeriodic | crates/cpu/src/exec.rs:775-791 | Backward onto a destination d bytes below the source: its last d bytes are repeated periodically downward. |
| StringOps.StopsAtFirst | crates/cpu/src/exec.rs:793-831 | REPE CMPS and REPNE SCAS, both directions, both modes: the loop makes exactly as many rounds as up to and including the first difference (match), or all; rcx, rsi, rdi and ZF follow from that index. |
| StringFlags.ComparesOnce | crates/cpu/src/exec.rs:793-840 | CMPS and SCAS without a repeat prefix compare once whatever rcx holds, move the pointers by one element and leave the flags of the comparison; a failing read changes nothing. |
| StringFlags.LastPairCompared | crates/cpu/src/exec.rs:793-840 | After a repeated comparison ZF, CF and SF against OF give equality and both orders of the last pair looked at. |
| StringFlags.FailsAt | crates/cpu/src/exec.rs:793-840 | A read that fails ends the repetition with its error, the registers moved by the rounds before. |
| InterpreterClass.Interpreter.StringMovs | crates/cpu/src/exec.rs:775-791 | The MOVS loop in place is the element-by-element copy, with the registers as they stand when a byte is unmapped. |
| InterpreterClass.Interpreter.StringCompare | crates/cpu/src/exec.rs:793-831 | The CMPS and SCAS loops in place, with the break of the repeat prefix. |
| MultiLimb.AddFlags | crates/cpu/src/alu.rs:41-52 | ADC by value: the carry flag completes the exact sum, OF is set exactly when the signed sum is out of range, and SF differs from OF exactly when it is negative. |
| MultiLimb.SubFlags | crates/cpu/src/alu.rs:54-65 | SBB by value, likewise, with ZF. |
| MultiLimb.CompareDecides | crates/cpu/src/lib.rs:459-486 | After CMP the condition codes decide equality and every unsigned and signed order of the operands. |
| MultiLimb.AdcChainAdds | crates/cpu/src/alu.rs:41-52 | An ADC chain over any number of limbs of any size adds exactly: result plus last carry times the base is the sum. |
| MultiLimb.SbbChainSubtracts | crates/cpu/src/alu.rs:54-65 | An SBB chain subtracts exactly, the last borrow included. |
| MultiLimb.AdcChainSign | crates/cpu/src/alu.rs:41-52 | OF and SF after an ADC chain are about the whole two's complement numbers. |
| MultiLimb.SbbChainSign | crates/cpu/src/alu.rs:54-65 | OF and SF after an SBB chain are about the whole two's complement numbers. |
| MultiLimb.LimbsCompare | crates/cpu/src/exec.rs:650-660 | After SUB and SBB over n limbs, JB and JAE compare the n-limb numbers unsigned, JL and JGE signed. |
| MultiLimb.SignedIsTwosComplement | crates/cpu/src/alu.rs:19-26 | Reading only the top limb as signed is reading the whole as two's complement. |
| MulDiv.MulIsExact | crates/cpu/src/exec.rs:681-704 | MUL and IMUL leave the exact product in the accumulator pair at every size, and CF and OF say that the low half alone does not hold it. |
| MulDiv.DivIsExact | crates/cpu/src/exec.rs:706-757 | When DIV or IDIV completes, the remainder is right (smaller than the divisor, the dividend's sign), and quotient times divisor plus remainder is the dividend if and only if the quotient fits its register. |
| MulDiv.PairIs | crates/cpu/src/exec.rs:681-757 | The pair is AX for bytes and the two registers DX:AX, EDX:EAX or RDX:RAX otherwise. |
| MulDiv.OthersKeep | crates/cpu/src/exec.rs:681-757 | No other register changes; multiplication changes CF and OF alone, division no flag. |
| MulDiv.ByteDivisionIsSafe | crates/cpu/src/exec.rs:731-733 | A signed byte division completes only with a quotient that fits. |
| MulDiv.QuotientWraps | crates/cpu/src/exec.rs:750-755 | A division that completes with a wrong quotient: 1:0000 by 1 at 16 bits. |
| MulDiv.HostStopsExactly | crates/cpu/src/exec.rs:706-757 | The host's own division stops if and only if it is IDIV of the least dividend by -1 at 8 or 64 bits; at 16 and 32 bits, and unsigned, every quotient fits the type it divides in. |
| MulDiv.HostStops | crates/cpu/src/exec.rs:718-724 | AX = 8000h over FFh does so. |
| MulDiv.MulThenDivRestores | crates/cpu/src/exec.rs:681-757 | Multiplying and dividing by the same nonzero operand restores the accumulator with remainder zero, every size, signed and unsigned. |
| MulDiv.Mul | crates/cpu/src/exec.rs:681-704 | The in-place multiplication writes AX or the pair and both flags as specified. |
| MulDiv.Div | crates/cpu/src/exec.rs:706-757 | The in-place division: registers written, divide error, or overflow of the host arithmetic, with nothing changed in the last two. |
| Rotate.RotateBackRestores | crates/cpu/src/alu.rs:217-244 | RCL then RCR (or RCR then RCL) by the same count restores value and CF for every size, value and count. |
| Rotate.RotateMovesBits | crates/cpu/src/alu.rs:217-244 | Every bit of the word CF:value moves by the masked count modulo one more than the operand's bits. |
| Rotate.TurnRotates | crates/cpu/src/alu.rs:221-233 | Any number of loop rounds is a rotation by that number modulo the word's length. |
| Rotate.TurnIsPeriodic | crates/cpu/src/alu.rs:221-233 | Counts that agree modulo the word's length give the same result. |
| Rotate.TurnLoop | crates/cpu/src/alu.rs:221-233 | The bit-at-a-time loop, with its shifts and masks, turns the word CF:value once a round. |
| Rotate.Rotate | crates/cpu/src/alu.rs:217-244 | The instruction: masked count, loop, CF, and OF for a count of one; a count of zero changes no flag. |
| Rotate.RotateFlagsAre | crates/cpu/src/alu.rs:217-244 | Only CF and OF change; OF only for a masked count of one, where it says that the sign changed. |
| Rotate.RotateCounts | crates/cpu/src/alu.rs:217-244 | The count is taken modulo 64 for eight bytes and modulo 32 otherwise; zero changes nothing. |
| Bmi.ExtractDeposited | crates/cpu/src/vex.rs:657-684 | PEXT after PDEP under one mask is the value cut to as many bits as the mask has ones. |
| Bmi.DepositExtracted | crates/cpu/src/vex.rs:657-684 | PDEP after PEXT under one mask is the value and the mask. |
| Bmi.DepositStaysInside | crates/cpu/src/vex.rs:670-682 | PDEP sets no bit outside the mask. |
| Bmi.ExtractBit | crates/cpu/src/vex.rs:657-669 | PEXT puts the value's bit under the mask's j-th one into bit j. |
| Bmi.DepositBit | crates/cpu/src/vex.rs:670-682 | PDEP puts bit j of the value under the mask's j-th one. |
| Bmi.PextLoop | crates/cpu/src/vex.rs:657-669 | The accumulator loop computes PEXT. |
| Bmi.PdepLoop | crates/cpu/src/vex.rs:670-682 | The accumulator loop computes PDEP. |
| Bmi.BmiF5 | crates/cpu/src/vex.rs:657-684 | Operands cut to 32 or 64 bits first; the result needs no cut. |
| Bmi.Bzhi | crates/cpu/src/vex.rs:650-656 | The bits below the index stay and the others are cleared; CF says that the index is past the operand, ZF that no bit below it was set, SF that the top bit stayed, OF is cleared and the others are kept. |
| Lanes.PunpckRecovers | crates/cpu/src/sse.rs:1078-1091 | The even lanes of low and high interleaving are the first operand's lanes in order, the odd ones the second's, at every lane size. |
| Lanes.PunpckIsInjective | crates/cpu/src/sse.rs:1078-1091 | The two interleavings together determine both operands. |
| Lanes.WidenThenPack | crates/cpu/src/sse.rs:1226-1248 | Widening both halves of a word and packing them with saturation returns the word: signed with sign extension, unsigned with zero extension, at every lane size. |
| Lanes.NarrowedExtended | crates/cpu/src/sse.rs:1239-1243 | Saturating a widened lane gives the lane back. |
| Lanes.LaneOfAssembled | crates/cpu/src/sse.rs:1082-1089 | A word or'ed together lane by lane has those lanes. |
| Lanes.LanesDetermine | crates/cpu/src/sse.rs:1085-1086 | A word is determined by its lanes. |
| Lanes.PunpckLoop | crates/cpu/src/sse.rs:1078-1091 | The interleaving loop. |
| Lanes.PmovxLoop | crates/cpu/src/sse.rs:1487-1502 | The widening loop, between any two lane sizes. |
| Lanes.PmovxKeepsValues | crates/cpu/src/sse.rs:1487-1502 | Every widened lane, to two, four or eight times the size, stands for the number the source lane stood for, signed or unsigned. |
| Lanes.PackLoop | crates/cpu/src/sse.rs:1226-1248 | The narrowing loop over both operands: to signed or unsigned bytes and to signed words. |
| Lanes.PackusdwLoop | crates/cpu/src/sse.rs:1511-1521 | The separate loop that narrows doublewords to unsigned words computes the same function. |
| Saturation.PackSaturates | crates/cpu/src/sse.rs:1226-1248 | Each packed lane, of either operand, holds the signed number of its source lane where its type does, the type's greatest number where that is above it and its least where it is below, signed and unsigned. |
| Saturation.PackusdwSaturates | crates/cpu/src/sse.rs:1511-1521 | Doublewords to unsigned words: below zero is zero, above FFFFh is FFFFh. |
| Saturation.BytesSaturate | crates/cpu/src/sse.rs:1226-1248 | Words to unsigned and to signed bytes, in numbers. |
| Saturation.WordsSaturate | crates/cpu/src/sse.rs:1226-1248 | Doublewords to signed words, in numbers. |
| Saturation.PackuswbSaturates | crates/cpu/src/sse.rs:1226-1248 | 300 packs to 255 and -1 to 0. |
| FxsaveStable.SaveRestoreSave | crates/cpu/src/exec.rs:979-1060 | Save, restore into any machine, save again: the 512 bytes are identical if and only if MXCSR holds no bit that a restore drops. |
| FxsaveStable.SavesAreStable | crates/cpu/src/exec.rs:1013-1101 | On any machine that started with the initial MXCSR, whatever has run since (every write of MXCSR is masked), save, restore into any machine and save again give the same 512 bytes. |
| FxsaveStable.RestoredState | crates/cpu/src/exec.rs:1013-1060 | What a restore from an image leaves, whatever it went into: control words, pointers by mode, 80-bit registers in physical order, tags that abridge alike, the saved XMM registers. |
| FxsaveStable.TagsAbridgeBack | crates/cpu/src/exec.rs:1503-1525 | The tag word rebuilt from the abridged byte and the register contents abridges to that byte again, under any rotation of the stack. |
| FxsaveStable.StReads | crates/cpu/src/exec.rs:998-1002 | Each physical register is found again at its rotated slot, cut to 80 bits. |
| FxsaveStable.TagOfWord | crates/cpu/src/exec.rs:1043-1044 | Each two-bit tag is found again in the assembled tag word. |
| FxsaveLayout.HeaderLayout | crates/cpu/src/exec.rs:979-1000 | Control and status word, opcode, pointers by mode, MXCSR and its mask stand at the offsets of the Intel SDM. |
| FxsaveLayout.TagByte | crates/cpu/src/exec.rs:1503-1512 | The abridged tag byte has a bit for each register whose two tag bits are not both set. |
| FxsaveLayout.StackLayout | crates/cpu/src/exec.rs:998-1002 | With TOP, bits 11 to 13 of the status word, being t, slot i holds register t + i modulo 8. |
| FxsaveLayout.XmmLayout | crates/cpu/src/exec.rs:1003-1011 | The XMM registers stand from byte 160 on, sixteen or eight by mode. |
| FxsaveLayout.FullTagExactly | crates/cpu/src/exec.rs:1514-1525 | A value is tagged zero, valid or special by its exponent and significand. |
| FxsaveLayout.RestoredTag | crates/cpu/src/exec.rs:1034-1047 | After a restore each register is tagged by its value if its bit in the image is set, and empty otherwise. |
| FpuClass.Fpu.BuildArea | crates/cpu/src/exec.rs:979-1011 | The buffer filled in place is the specified image. |
| FpuClass.Fpu.RestoreArea | crates/cpu/src/exec.rs:1013-1017 | The whole restore in place. |
| FpuClass.Fpu.RestoreComponent | crates/cpu/src/exec.rs:1019-1047 | The x87 part, register by register. |
| FpuClass.Fpu.RestoreStack | crates/cpu/src/exec.rs:1034-1046 | The loop over the rotated stack, or-ing tags into the tag word one at a time, builds every register and tag. |
| FpuClass.Fpu.RestoreXmms | crates/cpu/src/exec.rs:1049-1060 | As many XMM registers as the mode has; the others keep their values. |
| FpuClass.AbridgedFtw | crates/cpu/src/exec.rs:1503-1512 | The loop computes one bit per non-empty register. |
| DebugThreads.CallLinearizes | crates/core/src/debug.rs:190-261 | Under every interleaving of steps, each query (whether an address is armed, whether any is, which is the next, whether an access is watched) and each change has one instant inside its call at which it acts atomically: a query answers what an unfiltered scan of the visible lists answers there. |
| DebugThreads.AppliedIs | crates/core/src/debug.rs:223-286 | What each change does to the lists: exactly one address, one range added, or all at a base removed, and the other list stays. |
| DebugThreads.FilterDecides | crates/core/src/debug.rs:190-256 | What a query answers from its filter alone, without the lock, is what a scan of the visible lists answers. |
| DebugThreads.SearchAnswers | crates/core/src/debug.rs:199-214 | What a query finds under the lock is right for the list: for the next breakpoint, the least armed address from the start on. |
| DebugThreads.StepIsAtomic | crates/core/src/debug.rs:360-373 | No step but the one that is a call's instant changes the visible lists, and that one performs the whole call. |
| DebugThreads.StepKeepsInv | crates/core/src/debug.rs:360-373 | Every step keeps lock, lists and filters in order: each filter summarises the list current when it was stored. |
| DebugThreads.RunKeepsInv | crates/core/src/debug.rs:360-373 | So does every run. |
| DebugThreads.SameGenerationSameLists | crates/core/src/debug.rs:360-373 | Two states of a run in which the lock is free and the generation is the same, less than 2^64 steps apart, have the same lists and the same answers. |
| DebugThreads.GenerationCounts | crates/core/src/debug.rs:360-373 | Along a run the generation counts the changes that have stored both filters, modulo 2^64. |
| Debug.WatchFilterKeepsHits | crates/core/src/debug.rs:391-411 | The watch filter never rejects an access that overlaps a watchpoint: saturated ends, ranges that fill the filter and wide accesses included. |
| Debug.PagesExactly | crates/core/src/debug.rs:390-412 | A watch marks, and an access probes, exactly the pages that hold one of its bytes. |
| Debug.OverlapSharesPage | crates/core/src/debug.rs:53-63 | Overlapping ranges share a page, saturated ends included. |
| Debug.BreakFilterHits | crates/core/src/debug.rs:377-389 | The breakpoint filter has no false negatives. |
| Debug.OverlapsExactly | crates/core/src/debug.rs:53-63 | Two ranges overlap in the sense of the code if and only if they share a byte other than the very last of the address space. |
| Debug.TopByteIsMissed | crates/core/src/debug.rs:53-63 | A watch on the last byte of the address space sees no access to it. |
| Debug.CoversExactly | crates/core/src/debug.rs:18-32 | A watch for reads sees reads, one for writes writes, one for both either. |
| Debug.InsertedIs | crates/core/src/debug.rs:223-231 | Arming keeps the list sorted and adds exactly that address. |
| Debug.RemovedIs | crates/core/src/debug.rs:233-241 | Disarming keeps it sorted and removes exactly that address. |
| DebugControl.Control.IsBreak | crates/core/src/debug.rs:190-200 | The filtered answer is membership in the list, false when detached. |
| DebugControl.Control.AnyBreakpoints | crates/core/src/debug.rs:203-205 | The filter is nonzero exactly when a breakpoint is armed. |
| DebugControl.Control.NextBreakAtOrAfter | crates/core/src/debug.rs:207-214 | The least armed address not below the start, if any. |
| DebugControl.Control.IsWatched | crates/core/src/debug.rs:249-261 | The filtered answer is the unfiltered scan over all armed ranges of that kind. |
| DebugControl.Control.Publish | crates/core/src/debug.rs:360-373 | Both filters rebuilt from the lists and the generation bumped. |
| DebugControl.Control.ArmBreak | crates/core/src/debug.rs:223-231 | List, filters and generation change only if the address was new. |
| DebugControl.Control.DisarmBreak | crates/core/src/debug.rs:233-241 | Likewise if it was armed. |
| DebugControl.Control.ArmWatch | crates/core/src/debug.rs:270-278 | A range is added at the end of the list each time it is armed, unless it is empty or nothing is attached; breakpoints stay. |
| DebugControl.Control.DisarmWatch | crates/core/src/debug.rs:280-286 | Every range at that base goes, the others stay in order, and the generation moves only if one went. |
| HostWindows.RunMirrors | crates/gui/src/host.rs:121-230 | Along a run every host action is legal and the host's windows are the model's open ones (title, size clamped to at least 1, visibility) if and only if no command recreates a window that is still open. |
| HostWindows.ReopenedIsRefused | crates/gui/src/host.rs:121-230 | Creating a shown top-level window once is mirrored, creating it twice is not. |
| HostWindows.StaleStays | crates/gui/src/host.rs:121-209 | A host window that the model takes for closed is never got rid of: the run ends with it there or with an illegal action. |
| HostWindows.PlanMirrors | crates/gui/src/host.rs:121-209 | One command keeps host and model in step if and only if it does not create a top-level window whose handle is still open. |
| HostWindows.PlanKeepsValid | crates/gui/src/host.rs:121-209 | Every command keeps the order free of duplicates, order and table in agreement, and shown windows open. |
| HostWindows.ShowMirrors | crates/gui/src/host.rs:211-219 | Showing opens a closed window once and brings it to the front. |
| HostWindows.HideMirrors | crates/gui/src/host.rs:220-230 | Hiding acts on an open window only. |
| HostEffects.ShowZeroHides | crates/gui/src/host.rs:153-161 | Show with 0 on a known window leaves it not visible, with its title, size and place; every other window is unchanged. |
| HostEffects.ShowShows | crates/gui/src/host.rs:153-161 | Any other Show of a known window leaves it open, visible and in front, opened with the title and size given last if it was not open. |
| HostEffects.ShowUnknown | crates/gui/src/host.rs:153-157 | Show of an unknown window does nothing. |
| HostEffects.TitleIsSet | crates/gui/src/host.rs:145-152 | A known window has the title given, on the host at once if it is open; an unknown one is left alone. |
| HostEffects.SizeIsSet | crates/gui/src/host.rs:162-175 | A known window has the size given if both dimensions are positive; otherwise nothing happens. |
| HostEffects.PresentPaints | crates/gui/src/host.rs:175-197 | An open window that is no child is painted, and nothing else happens. |
| HostEffects.PresentOpens | crates/gui/src/host.rs:175-197 | One that is not open is opened, brought to the front and painted, in this order, with its own title and size or, never heard of, with the size of the picture. |
| HostEffects.PresentChild | crates/gui/src/host.rs:175-179 | A picture of a child does nothing. |
| HostEffects.TopIsCreated | crates/gui/src/host.rs:123-145 | A new top-level window is known with the title and size given and last in the order; visible, it is open with that title and size, each dimension at least 1, and in front. |
| HostEffects.ChildIsCreated | crates/gui/src/host.rs:123-128 | A window with a known parent becomes a child, and the host does not hear of it. |
| HostEffects.DestroyForgets | crates/gui/src/host.rs:198-208 | The handle is unknown afterwards, its window closed if it was open, and every other window is unchanged. |
| WindowModel.Windows.Handle | crates/gui/src/host.rs:121-209 | The planner in place: the planned model and actions, validity kept, and the host in step if and only if no open window is recreated. |
| WindowModel.Windows.EnsureTop | crates/gui/src/host.rs:106-119 | A window is put on the host once, with clamped size. |
| WindowModel.Windows.ShowWindow | crates/gui/src/host.rs:211-219 | The actions and the new table of showing. |
| WindowModel.Windows.HideWindow | crates/gui/src/host.rs:220-230 | The actions and the new table of hiding. |
| WindowModel.Windows.ForgetWindow | crates/gui/src/host.rs:96-100 | The window leaves order, table and children. |
| WindowModel.Windows.Primary | crates/gui/src/host.rs:80-82 | The first window in order of creation that is on screen. |
| ManifestLaw.RoundTripExactly | crates/cli/src/corpus.rs:147-239 | Reading a printed manifest gives the same entries if and only if there is one and each has one-line strings, counts and address below 2^63, and no exit code unless it exits. |
| ManifestLaw.EntriesAreLost | crates/cli/src/corpus.rs:147-239 | An entry with a newline in its note, and a fault with an exit code, are not read back. |
| ManifestLaw.ReadPrinted | crates/cli/src/corpus.rs:147-239 | Printed with one-line strings: reading fails exactly when a count does not fit, and otherwise yields every entry, less an unprinted exit code or an oversized address. |
| ManifestLaw.ReadPrintRead | crates/cli/src/corpus.rs:147-239 | A manifest that was read and whose entries are printable is printed and read back whole, an empty header gaining a blank line, if and only if no line of its header ends in a carriage return. |
| ManifestLaw.ReadIsClean | crates/cli/src/corpus.rs:147-194 | Whatever was read has a header of comments and blanks, at least one entry, and one-line strings. |
| ManifestLaw.BlankTailDrops | crates/cli/src/corpus.rs:190-192 | Dropping trailing blank lines keeps the rest of the header and leaves no double newline at its end. |
| ManifestRoundTrip.StepField | crates/cli/src/corpus.rs:174-184 | Reading a printed line adds exactly its key and value to the table, or fails when the value cannot be read. |
| ManifestRoundTrip.FieldReads | crates/cli/src/corpus.rs:196-239 | Each printed field is read as its value; only a count that does not fit is unreadable. |
| ManifestRoundTrip.GetPair | crates/cli/src/toml_lite.rs:61-63 | The printed keys are distinct, so each is looked up as what its own line said. |
| ManifestRoundTrip.FromPairsReads | crates/cli/src/corpus.rs:278-335 | The pairs of a printed entry make that entry again. |
| ManifestText.ReadManifest | crates/cli/src/corpus.rs:147-194 | The line loop, with its five error paths, is the specified reading. |
| ManifestMeaning.TableExactly | crates/cli/src/corpus.rs:278-334 | What is asked of a table, and the first thing missing or wrong as its error. |
| ManifestMeaning.MissingKeys | crates/cli/src/corpus.rs:278-334 | What every missing key is read as, the name as the last part of the path. |
| ManifestMeaning.LastPartNames | crates/cli/src/corpus.rs:294-300 | The part of a path behind the last separator names the file. |
| ManifestMeaning.ComponentsAcross | crates/cli/src/corpus.rs:294-300 | The parts of a path are those on both sides of any separator. |
| ManifestMeaning.EndsOfPaths | crates/cli/src/corpus.rs:294-300 | A separator or a dot at the end of a path does not matter; two dots at the end name nothing. |
| ManifestMeaning.PairLine | crates/cli/src/corpus.rs:147-194 | A key and a value around an equals sign, blanks anywhere, adds the pair to the open table, or is refused by its line. |
| ManifestMeaning.TableLine | crates/cli/src/corpus.rs:147-194 | A heading, blanks around it, completes the table before and opens one. |
| ManifestMeaning.CommentLine | crates/cli/src/corpus.rs:147-194 | Blank lines and comments go to the header before the first table and nowhere after it. |
| ManifestText.WriteManifest | crates/cli/src/corpus.rs:196-239 | The printing loop produces the specified text. |
| ManifestText.WriteEntry | crates/cli/src/corpus.rs:202-238 | One table, field after field. |
| ManifestMeaning.PrintedFields | crates/cli/src/corpus.rs:196-239 | Which keys are printed, in which order and with what value. |
| ManifestMeaning.KeyColumns | crates/cli/src/corpus.rs:196-239 | Keys are padded to ten columns. |
| TomlLite.QuoteRoundTrip | crates/cli/src/toml_lite.rs:48-59 | Reading a quoted string gives the string, for all strings, whatever follows the closing quote. |
| TomlLite.IntRoundTrip | crates/cli/src/toml_lite.rs:32-36 | A printed integer is read back exactly when it fits a signed 64-bit integer. |
| TomlLite.AddressRoundTrip | crates/cli/src/toml_lite.rs:39-45 | An address printed in hexadecimal and quoted is read through `as_u64` exactly when it fits a signed 64-bit integer. |
| TomlLite.DigitsRoundTrip | crates/cli/src/toml_lite.rs:32-36 | Digits of either radix are read back as the number. |
| TomlLite.StringsExactly | crates/cli/src/toml_lite.rs:9-26 | A text is read as a string exactly when it begins with a quote and spells that string, escapes and all, up to a closing quote. |
| ManifestMeaning.CommentIsCut | crates/cli/src/toml_lite.rs:9-14 | A comment behind a value that is not quoted does not matter. |
| ManifestMeaning.UnderscoresDoNotMatter | crates/cli/src/toml_lite.rs:32-36 | Nor do underscores among digits. |
| ManifestMeaning.SignsRead | crates/cli/src/toml_lite.rs:32-36 | Either sign may stand before the digits; a sign alone is no number. |
| ManifestMeaning.CountsWrap | crates/cli/src/toml_lite.rs:39-45 | A negative number read as a count wraps modulo 2^64. |
| ManifestMeaning.TrimTakesBlanks | crates/cli/src/toml_lite.rs:9-14 | Trimming takes the blanks on both sides and nothing else. |
| TomlLite.ParseQuoted | crates/cli/src/toml_lite.rs:16-26 | The unescaping loop. |
| TomlLite.ToQuoted | crates/cli/src/toml_lite.rs:48-59 | The escaping loop. |
| Text.LinesOfUnlines | crates/cli/src/corpus.rs:153-153 | Lines written one by one are read back as those lines. |
| Text.LinesAcross | crates/cli/src/corpus.rs:153-153 | Text ending in a newline and what follows it are cut into lines separately. |
| Text.LastLineStands | crates/cli/src/corpus.rs:153-153 | Text after the last newline is a line as it stands. |
| Gate.BlessingExactly | crates/cli/src/corpus.rs:550-591 | Folding a run's observations back makes the next run pass, for every deterministic emulator, if and only if no selected entry stands behind another of the same name. |
| Gate.BlessedPasses | crates/cli/src/corpus.rs:550-591 | For one emulator and any selection of entries that come first of their names. |
| Gate.NamesakeFails | crates/cli/src/corpus.rs:553-553 | Otherwise an emulator with another outcome still fails after the update. |
| Gate.SavedBlessPasses | crates/cli/src/corpus.rs:196-239 | Run, fold in, save, load, run: the gate passes, though an exit code or an address may be lost on the way. |
| Gate.PinnedPasses | crates/cli/src/corpus.rs:476-524 | An entry pinned to an observation has no problem with it, and pinning again changes nothing. |
| GateFindings.ComparesExactly | crates/cli/src/corpus.rs:476-524 | There is no problem if and only if the outcomes are equal, the step counts differ by at most the tolerance, exit codes agree when both exit, addresses where both are known and a pinned reason agree when both fault, and a pinned artifact count agrees. |
| GateFindings.FindsExactly | crates/cli/src/corpus.rs:476-524 | Each kind of problem is reported exactly when its own field differs, with the pinned and the observed value. |
| GateFindings.GatePassesExactly | crates/cli/src/corpus.rs:526-550 | The gate passes if and only if something is selected, by a text in the name and the quick flag, every selected entry can be run, and each of these runs is as it was pinned. |
| GateFindings.PinnedMeetsExactly | crates/cli/src/corpus.rs:339-347 | A later run passes an entry pinned to an observation if and only if it ends alike, within no steps under the virtual clock, 64 after an exit, and otherwise 64 or a thousandth. |
| GateFindings.ChangesExactly | crates/cli/src/corpus.rs:552-600 | A change is reported under a key exactly when pinning changes that field; what an exit forgets is not reported. |
| GateFindings.TwoProblems | crates/cli/src/corpus.rs:476-524 | A concrete exit with another code after too many steps has exactly these two problems. |
| Gate.UpdateLands | crates/cli/src/corpus.rs:550-591 | Every verdict changes the entry it was made for and no other. |
| Gate.RunGate | crates/cli/src/corpus.rs:526-548 | The loop over selected entries, ending at the first that cannot be run. |
| Gate.Manifest.ApplyUpdate | crates/cli/src/corpus.rs:550-591 | The update loop in place: entries and reported changes. |
| Gate.Manifest.PinCount | crates/cli/src/corpus.rs:555-566 | Outcome, step count and tolerance, each reported only if it changes. |
| Gate.Manifest.PinStop | crates/cli/src/corpus.rs:567-584 | Exit code on an exit; address and reason otherwise. |
| SplitMix.DrawsRepeatExactly | crates/oracle/src/rng.rs:19-26 | Two draws of one stream are equal if and only if they are a multiple of 2^64 apart: no repeat within the period. |
| SplitMix.EveryWordIsDrawn | crates/oracle/src/rng.rs:19-26 | Every 64-bit word is drawn within one period. |
| SplitMix.TrialsDiffer | crates/oracle/src/rng.rs:12-17 | For one base, two trials start in the same state if and only if they have the same index. |
| SplitMix.MixIsBijective | crates/oracle/src/rng.rs:22-25 | The output function has a two-sided inverse on 64-bit words. |
| RngValues.MixIs | crates/oracle/src/rng.rs:22-25 | The output function step by step, each fold bit by bit and each product by its constant. |
| RngValues.DrawIs | crates/oracle/src/rng.rs:20-26 | The k-th draw is the output of the seed plus k times the constant. |
| RngValues.TrialIs | crates/oracle/src/rng.rs:12-17 | The state of a trial is the output of its base xored with its index times the constant. |
| SplitMix.UnshiftOfShift | crates/oracle/src/rng.rs:23-25 | A word is determined by its xor with its own shift. |
| SplitMix.MulUndone | crates/oracle/src/rng.rs:23-24 | Wrapping multiplication by an odd constant is undone by its inverse. |
| SplitMix.Rng.ForTrial | crates/oracle/src/rng.rs:12-17 | The constructor computes the trial state. |
| SplitMix.Rng.NextU64 | crates/oracle/src/rng.rs:20-26 | One draw advances the state by the constant and returns its mix. |
| Words.LeValueOfBytes | crates/core/src/memory.rs:66-82 | Writing a number as little-endian bytes and reading them keeps its low bytes. |
| Words.LeBytesOfValue | crates/core/src/memory.rs:66-98 | A byte string is determined by its length and its little-endian value. |
| GuestMemory.HoldsFrame | crates/core/src/memory.rs:52-54 | What a range holds depends on the bytes of that range only. |

## Left out

Weaker than the source, by member:

- EpilogAgrees.SimulationIsExecution: for epilogs that end in a return; those that end in EB or E9 are in EpilogEnds.TailJumpReturnsAtOnce, and those that end in FF /4, an opcode that is not modelled, in EpilogEnds.OperationsRun up to the jump. `pop rsp` is excluded, since PopAgrees shows that it differs; flags are not compared, since the unwinder has none.
- PrologRun.UndoRecord: a save stores relative to the frame as it is then; one that a prolog makes earlier counts as made where its code's offset puts it.
- PrologExecution.ExecuteThenUnwind: for a single record entered by a call, with the encodings of PrologAgrees, and code that the prolog's own stores do not overwrite.
- EpilogInverse.UnwindFromEpilog: for a called function, and from where the pops of the outermost record are left: the ABI does not support chained records that push or allocate, and what one may have pushed must have been popped before. Without a frame register to go by, the epilog needs rsp where the outermost prolog left it, as the ABI does.
- EpilogMissed.UnwindAtOperationExactly: at most one record of the chain sets a frame register, and then undoing goes by it alone; a single record always qualifies (SingleIsOneWay).
- BacktraceWalk.BacktraceListsCallers: a frame in its epilog and a leaf were called, not interrupted into; operations that the scanner takes a body for go by registers that are not volatile.
- PrologAgrees.PrologInstruction: one encoding for each instruction (`sub rsp, imm32`, `lea` for the frame register, `mov` relative to rsp), and no xmm saves, whose opcodes are not modelled; the inversion theorem covers every unwind code however it was encoded.
- StringOps.ForwardIsPeriodic: for a distance of at least one element and for ranges that do not wrap around the address space and are mapped; byte moves at any positive distance are included.
- StringOps.ForwardDownIsExact: for ranges that are mapped and do not wrap; BackwardUpIsExact and BackwardIsPeriodic likewise, the latter for a distance of at least one element.
- UnwindExample.LookupFindsCover: for sorted tables without overlaps; LookupSeesLast allows overlaps. In a table that is not sorted, which the loader does not make, the binary search of the source may stop at a different entry than the scan of the model.
- DebugThreads.CallLinearizes: loads and stores are sequentially consistent, where the source uses relaxed atomics under and before a lock.
- Gate.BlessingExactly: an emulator is a function of the entry's run inputs; a run that varies from one time to the next is outside.

Parts and aspects that the model does not have:

- Windows and Wine boot, sample generators other than the assembler, sound, windowing back ends, process spawning, command line and file staging.
- The JIT, virtual memory, the operating system layer and the scheduler.
- Floating-point arithmetic, rounding, conversions and compares.
- Opcodes beyond those of prologs, epilogs and the sample assembler: the dispatcher reports them as unmodelled. Multiplication, division, rotation, PEXT and PDEP, string and lane operations are modelled on operands already read.
- Address arithmetic written with a plain `+` in the source is unbounded in the model: where it would overflow, the source stops in a checked build.
- Access permissions: fetching and reading succeed on the same bytes. Watchpoint hits reported by memory are not modelled.
- REP MOVS faulting in the middle appears only as the state the loop stops in.
- Watch hit notes, stop requests and the step breakpoint of the debugger control block.
- The wording of the gate's problems, of its changes and of parse errors: what they report is kept as data.
- Parsing the run report, the table it renders, and file paths other than the last component of a path.
- AVX state in the save area, and XSAVE's component selection.
- The bounded draws and operand distribution of the random generator.
