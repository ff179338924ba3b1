/** Epilogs in machine code: the encodings of their operations, and that the scanner reads them
    as meant, from every operation on. */
module EpilogCode {
  import opened Words
  import opened GuestMemory
  import opened Unwind
  import opened EpilogInverse
  import opened EpilogAgrees
  import opened EpilogBytes
  import opened Assembler

  type Small = n: int | -0x80 <= n < 0x80

  // ---- Encodings ----

  /** pop reg, with REX.B for the upper eight */
  function PopCode(reg: RegNo): seq<byte> {
    if reg < 8 then [0x58 + reg] else [0x41, 0x58 + (reg - 8)]
  }

  /** add rsp, imm in its two widths */
  function AddCode(short: bool, imm: i32): seq<byte>
    requires short ==> -0x80 <= imm < 0x80
  {
    if short then [0x48, 0x83, 0xC4, imm % 0x100] else [0x48, 0x81, 0xC4] + LeBytes(imm % TWO32, 4)
  }

  /** lea rsp, [reg + disp] in its two widths; registers 4 and 12 would need a SIB byte. */
  function LeaCode(short: bool, reg: RegNo, disp: i32): seq<byte>
    requires short ==> -0x80 <= disp < 0x80
  {
    var rex: byte := if reg < 8 then 0x48 else 0x49;
    if short then [rex, 0x8D, 0x60 + reg % 8, disp % 0x100] else [rex, 0x8D, 0xA0 + reg % 8] + LeBytes(disp % TWO32, 4)
  }

  function PopsCode(regs: seq<RegNo>): seq<byte> {
    if regs == [] then [] else PopCode(regs[0]) + PopsCode(regs[1..])
  }

  function PopsOf(regs: seq<RegNo>): seq<EpiOp> {
    if regs == [] then [] else [Pop(regs[0])] + PopsOf(regs[1..])
  }

  // ---- Heads ----

  lemma AddScans(mem: Memory, pc: int, short: bool, imm: i32)
    requires (short ==> -0x80 <= imm < 0x80) && Holds(mem, pc, AddCode(short, imm))
    ensures pc in mem && mem[pc] == 0x48
    ensures ScanHead(mem, pc, 0x48) == HeadOk([AddRsp(imm % TWO64)], pc + if short then 4 else 7)
  {
    hide Holds, LeBytes;
    var bs := AddCode(short, imm);
    HoldsByte(mem, pc, bs, 0);
    HoldsByte(mem, pc, bs, 1);
    HoldsByte(mem, pc, bs, 2);
    if short {
      HoldsByte(mem, pc, bs, 3);
      SignedByte(imm);
    } else {
      HoldsPart(mem, pc, [0x48, 0x81, 0xC4], LeBytes(imm % TWO32, 4));
      ImmediateReads(mem, pc + 3, imm);
    }
  }

  lemma SignedByte(imm: int)
    requires -0x80 <= imm < 0x80
    ensures SignExtend8(imm % 0x100) == imm
  {
  }

  lemma ImmediateReads(mem: Memory, at: int, imm: i32)
    requires Holds(mem, at, LeBytes(imm % TWO32, 4))
    ensures Read32(mem, at).Ok? && SignExtend32(Read32(mem, at).value) == imm
  {
    LeRoundTrip32(imm % TWO32);
  }

  lemma LeaScans(mem: Memory, pc: int, short: bool, reg: RegNo, disp: i32)
    requires reg % 8 != 4 && (short ==> -0x80 <= disp < 0x80) && Holds(mem, pc, LeaCode(short, reg, disp))
    ensures pc in mem && mem[pc] == if reg < 8 then 0x48 else 0x49
    ensures ScanHead(mem, pc, mem[pc]) == HeadOk([LeaRsp(reg, disp)], pc + if short then 4 else 7)
  {
    hide Holds, LeBytes;
    var bs := LeaCode(short, reg, disp);
    HoldsByte(mem, pc, bs, 0);
    HoldsByte(mem, pc, bs, 1);
    HoldsByte(mem, pc, bs, 2);
    if short {
      HoldsByte(mem, pc, bs, 3);
      SignedByte(disp);
    } else {
      HoldsPart(mem, pc, bs[..3], LeBytes(disp % TWO32, 4));
      assert bs == bs[..3] + LeBytes(disp % TWO32, 4);
      ImmediateReads(mem, pc + 3, disp);
    }
  }

  // ---- Pops ----

  lemma PopScans(mem: Memory, pc: int, reg: RegNo)
    requires Holds(mem, pc, PopCode(reg))
    ensures PopAt(mem, pc) == Some((reg, |PopCode(reg)|)) && pc in mem && mem[pc] != 0x48 && mem[pc] != 0x49
  {
    HoldsByte(mem, pc, PopCode(reg), 0);
    if reg >= 8 {
      HoldsByte(mem, pc, PopCode(reg), 1);
    }
  }

  lemma {:induction false} PopsScan(mem: Memory, pc: int, regs: seq<RegNo>)
    requires Holds(mem, pc, PopsCode(regs)) && PopAt(mem, pc + |PopsCode(regs)|) == None
    ensures Pops(mem, pc) == PopsOf(regs) && PopsEnd(mem, pc) == pc + |PopsCode(regs)|
    decreases |regs|
  {
    hide Holds, PopCode;
    if regs != [] {
      HoldsPart(mem, pc, PopCode(regs[0]), PopsCode(regs[1..]));
      PopScans(mem, pc, regs[0]);
      PopsScan(mem, pc + |PopCode(regs[0])|, regs[1..]);
    }
  }

  // ---- A whole epilog ----

  /** No operation of an epilog stands here. */
  predicate NoOperation(mem: Memory, pc: int) {
    pc in mem && ScanHead(mem, pc, mem[pc]) == HeadOk([], pc) && PopAt(mem, pc) == None
  }

  /** The instruction that drops the allocation, if there is one, in either width. */
  datatype HeadCode = NoHead | AddHead(short: bool, imm: i32) | LeaHead(short: bool, reg: RegNo, disp: i32)

  predicate Encodes(h: HeadCode) {
    match h
    case NoHead => true
    case AddHead(short, imm) => short ==> -0x80 <= imm < 0x80
    case LeaHead(short, reg, disp) => reg % 8 != 4 && (short ==> -0x80 <= disp < 0x80)
  }

  function HeadBytesOf(h: HeadCode): seq<byte>
    requires Encodes(h)
  {
    match h
    case NoHead => []
    case AddHead(short, imm) => AddCode(short, imm)
    case LeaHead(short, reg, disp) => LeaCode(short, reg, disp)
  }

  function HeadOps(h: HeadCode): seq<EpiOp> {
    match h
    case NoHead => []
    case AddHead(_, imm) => [AddRsp(imm % TWO64)]
    case LeaHead(_, reg, disp) => [LeaRsp(reg, disp)]
  }

  /** The code of a head and pops, before anything that is neither, is read as those
      operations, and the end is found behind it. */
  lemma CodeScans(mem: Memory, pc: int, h: HeadCode, regs: seq<RegNo>)
    requires Encodes(h) && Holds(mem, pc, HeadBytesOf(h) + PopsCode(regs))
    requires NoOperation(mem, pc + |HeadBytesOf(h) + PopsCode(regs)|)
    ensures OpsAt(mem, pc) == Some(HeadOps(h) + PopsOf(regs))
    ensures EpilogEnd(mem, pc) == pc + |HeadBytesOf(h) + PopsCode(regs)|
  {
    hide Holds, AddCode, LeaCode;
    var head, pops := HeadBytesOf(h), PopsCode(regs);
    HoldsPart(mem, pc, head, pops);
    HeadScans(mem, pc, h, regs);
    hide ScanHead;
    PopsScan(mem, pc + |head|, regs);
  }

  lemma HeadScans(mem: Memory, pc: int, h: HeadCode, regs: seq<RegNo>)
    requires Encodes(h) && Holds(mem, pc, HeadBytesOf(h)) && Holds(mem, pc + |HeadBytesOf(h)|, PopsCode(regs))
    requires NoOperation(mem, pc + |HeadBytesOf(h) + PopsCode(regs)|)
    ensures pc in mem && ScanHead(mem, pc, mem[pc]) == HeadOk(HeadOps(h), pc + |HeadBytesOf(h)|)
  {
    hide Holds;
    match h
    case NoHead =>
      if regs != [] {
        HoldsPart(mem, pc, PopCode(regs[0]), PopsCode(regs[1..]));
        PopScans(mem, pc, regs[0]);
      }
    case AddHead(short, imm) =>
      hide ScanHead;
      AddScans(mem, pc, short, imm);
    case LeaHead(short, reg, disp) =>
      hide ScanHead;
      LeaScans(mem, pc, short, reg, disp);
  }

  // ---- The epilog of a frame ----

  /** The registers that a run of pushes saved, in the order of the pops. */
  function PoppedBy(pushes: seq<UnwindCode>): (regs: seq<RegNo>)
    requires OnlyPushes(pushes) && forall i :: 0 <= i < |pushes| ==> pushes[i].op.reg < 16
    ensures |regs| == |pushes|
  {
    if pushes == [] then [] else [pushes[0].op.reg] + PoppedBy(pushes[1..])
  }

  lemma {:induction false} PoppedAre(pushes: seq<UnwindCode>)
    requires OnlyPushes(pushes) && forall i :: 0 <= i < |pushes| ==> pushes[i].op.reg < 16
    ensures PopsOf(PoppedBy(pushes)) == PopsFor(pushes)
  {
    if pushes != [] {
      PoppedAre(pushes[1..]);
      assert PoppedBy(pushes)[1..] == PoppedBy(pushes[1..]);
    }
  }

  /** The head encodes what the shape asks for. */
  predicate EncodesHead(h: HeadCode, f: Shape, info: UnwindInfo)
    requires WellFormed(f, info)
  {
    Encodes(h) &&
    match f.drop
    case Bare => h == NoHead
    case AddTotal => h.AddHead? && h.imm % TWO64 == TotalAlloc(f.upper) % TWO64
    case FromFrame => h.LeaHead? && h.reg == info.frameRegister.value && h.disp == FrameAlloc(f.upper) - info.frameOffset
  }

  /** The machine code of a frame's epilog, whatever widths it is encoded in, is read as the
      operations that undo the frame: from its first instruction, and from every pop. */
  lemma EpilogCodeScans(mem: Memory, pc: int, h: HeadCode, f: Shape, info: UnwindInfo)
    requires WellFormed(f, info) && EncodesHead(h, f, info) && forall i :: 0 <= i < |f.pushes| ==> f.pushes[i].op.reg < 16
    requires var code := HeadBytesOf(h) + PopsCode(PoppedBy(f.pushes));
             Holds(mem, pc, code) && NoOperation(mem, pc + |code|)
    ensures OpsAt(mem, pc) == Some(EpilogFor(f, info))
    ensures EpilogEnd(mem, pc) == pc + |HeadBytesOf(h) + PopsCode(PoppedBy(f.pushes))|
  {
    hide Holds, NoOperation, PopsCode, OpsAt, EpilogEnd;
    CodeScans(mem, pc, h, PoppedBy(f.pushes));
    PoppedAre(f.pushes);
    assert HeadOps(h) == HeadFor(f, info);
  }

  lemma RestOfPopsScans(mem: Memory, pc: int, regs: seq<RegNo>, k: nat)
    requires k <= |regs| && Holds(mem, pc, PopsCode(regs)) && NoOperation(mem, pc + |PopsCode(regs)|)
    ensures OpsAt(mem, pc + |PopsCode(regs)| - |PopsCode(regs[k..])|) == Some(PopsOf(regs[k..]))
  {
    hide Holds, NoOperation, OpsAt;
    var before := PopsBefore(regs, k);
    HoldsPart(mem, pc, before, PopsCode(regs[k..]));
    assert HeadBytesOf(NoHead) + PopsCode(regs[k..]) == PopsCode(regs[k..]);
    assert HeadOps(NoHead) + PopsOf(regs[k..]) == PopsOf(regs[k..]);
    CodeScans(mem, pc + |before|, NoHead, regs[k..]);
  }

  lemma {:induction false} PopsBefore(regs: seq<RegNo>, k: nat) returns (before: seq<byte>)
    requires k <= |regs|
    ensures PopsCode(regs) == before + PopsCode(regs[k..])
  {
    hide PopCode;
    if k == 0 {
      before := [];
      assert regs[0..] == regs;
    } else {
      before := PopsBefore(regs[1..], k - 1);
      before := PopCode(regs[0]) + before;
      assert regs[1..][k - 1..] == regs[k..];
    }
  }
}
