/** The register file shared by the interpreter and the unwinder. */
module CpuModel {
  import opened Words

  type Gprs = s: seq<u64> | |s| == 16 witness seq(16, _ => 0)
  type Xmms = s: seq<u128> | |s| == 16 witness seq(16, _ => 0)

  const RAX := 0
  const RCX := 1
  const RDX := 2
  const RSP := 4
  const RSI := 6
  const RDI := 7

  datatype Flags = Flags(cf: bool, pf: bool, af: bool, zf: bool, sf: bool, df: bool, of: bool)

  datatype CpuState = CpuState(gpr: Gprs, xmm: Xmms, rip: u64, flags: Flags, gsBase: u64, fsBase: u64) {
    function Rsp(): u64 {
      gpr[RSP]
    }

    function WithRsp(v: u64): CpuState {
      this.(gpr := gpr[RSP := v])
    }

    /** A register number is masked to four bits before it indexes the file. */
    function WithGpr(reg: byte, v: u64): CpuState {
      this.(gpr := gpr[reg % 16 := v])
    }

    function WithXmm(reg: byte, v: u128): CpuState {
      this.(xmm := xmm[reg % 16 := v])
    }
  }

  /** The mutable register file that the emulator passes around. */
  class Cpu {
    var gpr: Gprs
    var xmm: Xmms
    var rip: u64
    var flags: Flags
    var gsBase: u64
    var fsBase: u64

    constructor (s: CpuState)
      ensures State() == s
    {
      gpr, xmm, rip, flags, gsBase, fsBase := s.gpr, s.xmm, s.rip, s.flags, s.gsBase, s.fsBase;
    }

    function State(): CpuState
      reads this
    {
      CpuState(gpr, xmm, rip, flags, gsBase, fsBase)
    }

    method SetRsp(v: u64)
      modifies this`gpr
      ensures State() == old(State()).WithRsp(v)
    {
      gpr := gpr[RSP := v];
    }

    method SetGpr(reg: byte, v: u64)
      modifies this`gpr
      ensures State() == old(State()).WithGpr(reg, v)
    {
      gpr := gpr[reg % 16 := v];
    }
  }
}
