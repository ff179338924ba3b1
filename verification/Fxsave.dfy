/** The 512-byte FXSAVE image: building it, restoring from it, and its stability. */
module Fxsave {
  import opened Words
  import opened BitOps
  import opened Decoder
  import MultiLimb

  type Byte512 = s: seq<byte> | |s| == 512 witness Zeros(512)
  type Sts = s: seq<u128> | |s| == 8 witness seq(8, _ => 0)
  type Xmms = s: seq<u128> | |s| == 16 witness seq(16, _ => 0)

  /** The x87, MXCSR and XMM state. */
  datatype FpState = FpState(
    st: Sts, cw: u16, sw: u16, tw: u16, fop: u16, fip: u64, fcs: u16, fdp: u64, fds: u16,
    mxcsr: u32, xmm: Xmms)

  const MXCSR_MASK: u32 := 0xFFFF
  const TWO80: int := 0x1_0000_0000_0000_0000_0000

  function Zeros(n: nat): (bs: seq<byte>)
    ensures |bs| == n
  {
    if n == 0 then [] else [0] + Zeros(n - 1)
  }

  /** The physical register behind ST(i): TOP is bits 11 to 13 of the status word. */
  function Top(sw: u16): nat {
    sw / 0x800 % 8
  }

  function Phys(sw: u16, i: nat): (p: nat)
    ensures p < 8
  {
    (Top(sw) + i) % 8
  }

  // ---- Tags ----

  /** The two-bit tag of register j in the full tag word. */
  function TagAt(tw: nat, j: nat): nat {
    if j == 0 then tw % 4 else TagAt(tw / 4, j - 1)
  }

  /** One bit per register among the first n: set unless the register is empty. */
  function Abridged(tw: nat, n: nat): (b: nat)
    ensures b < Pow2(n)
  {
    if n == 0 then 0 else (if tw % 4 != 3 then 1 else 0) + 2 * Abridged(tw / 4, n - 1)
  }

  /** The tag word made of the given tags, lowest register first. */
  function TagWord(tags: seq<nat>): nat {
    if tags == [] then 0 else tags[0] + 4 * TagWord(tags[1..])
  }

  /** `full_tag`: zero, special or valid, by exponent and significand of an 80-bit value. */
  function FullTag(v: nat): (t: nat)
    ensures t < 3
  {
    var exp, signif := v / TWO64 % 0x8000, v % TWO64;
    if exp == 0 && signif == 0 then 1
    else if exp == 0x7FFF || (exp == 0 && signif != 0) || (exp != 0 && signif < 0x8000_0000_0000_0000) then 2
    else 0
  }

  // ---- Saving ----

  function Pointers(s: FpState, rexw: bool): (bs: seq<byte>)
    ensures |bs| == 16
  {
    if rexw then LeBytes(s.fip, 8) + LeBytes(s.fdp, 8)
    else LeBytes(s.fip % TWO32, 4) + LeBytes(s.fcs, 2) + Zeros(2) + LeBytes(s.fdp % TWO32, 4) + LeBytes(s.fds, 2) + Zeros(2)
  }

  function Control(s: FpState): (bs: seq<byte>)
    ensures |bs| == 8
  {
    assert Pow2(8) == 0x100 by { MultiLimb.Pow2Values(); }
    LeBytes(s.cw, 2) + LeBytes(s.sw, 2) + [Abridged(s.tw, 8)] + Zeros(1) + LeBytes(s.fop, 2)
  }

  /** ST(0) to ST(n - 1), ten bytes each in sixteen */
  function StArea(s: FpState, n: nat): (bs: seq<byte>)
    ensures |bs| == 16 * n
  {
    if n == 0 then [] else StArea(s, n - 1) + LeBytes(s.st[Phys(s.sw, n - 1)], 10) + Zeros(6)
  }

  function XmmArea(s: FpState, n: nat): (bs: seq<byte>)
    requires n <= 16
    ensures |bs| == 16 * n
  {
    if n == 0 then [] else XmmArea(s, n - 1) + LeBytes(s.xmm[n - 1], 16)
  }

  function XmmCount(bits: Bits): nat {
    if bits.B64? then 16 else 8
  }

  /** `build_fxsave_area` */
  function Image(s: FpState, rexw: bool, bits: Bits): Byte512 {
    Control(s) + Pointers(s, rexw) + LeBytes(s.mxcsr, 4) + LeBytes(MXCSR_MASK, 4) +
    StArea(s, 8) + XmmArea(s, XmmCount(bits)) + Zeros(352 - 16 * XmmCount(bits))
  }

  // ---- Restoring ----

  function Field(buf: Byte512, off: nat, n: nat): nat
    requires off + n <= 512
  {
    LeValue(buf[off..off + n])
  }

  function Field16(buf: Byte512, off: nat): u16
    requires off + 2 <= 512
  {
    PowersOf256();
    Field(buf, off, 2)
  }

  function Field32(buf: Byte512, off: nat): u32
    requires off + 4 <= 512
  {
    PowersOf256();
    Field(buf, off, 4)
  }

  function Field64(buf: Byte512, off: nat): u64
    requires off + 8 <= 512
  {
    PowersOf256();
    Field(buf, off, 8)
  }

  function Field80(buf: Byte512, off: nat): (v: u128)
    requires off + 10 <= 512
    ensures v < TWO80
  {
    PowersOf256();
    Field(buf, off, 10)
  }

  function Field128(buf: Byte512, off: nat): u128
    requires off + 16 <= 512
  {
    PowersOf256();
    Field(buf, off, 16)
  }

  /** Which ST(i) lives in physical register p */
  function Logical(sw: u16, p: nat): (i: nat)
    requires p < 8
    ensures i < 8 && Phys(sw, i) == p
  {
    (p + 8 - Top(sw)) % 8
  }

  function StOf(buf: Byte512, p: nat): u128
    requires p < 8
  {
    Field80(buf, 32 + 16 * Logical(Field16(buf, 2), p))
  }

  function TagOf(buf: Byte512, p: nat): (t: nat)
    requires p < 8
    ensures t < 4
  {
    if Bit(buf[4], p) then FullTag(StOf(buf, p)) else 3
  }

  function RestoredTags(buf: Byte512): (tags: seq<nat>)
    ensures |tags| == 8 && forall p :: 0 <= p < 8 ==> tags[p] == TagOf(buf, p)
  {
    seq(8, p requires 0 <= p < 8 => TagOf(buf, p))
  }

  lemma {:induction false} TagWordFits(tags: seq<nat>)
    requires forall p :: 0 <= p < |tags| ==> tags[p] < 4
    ensures TagWord(tags) < Pow2(2 * |tags|)
  {
    if tags != [] {
      TagWordFits(tags[1..]);
    }
  }

  function RestoredTw(buf: Byte512): u16 {
    TagWordFits(RestoredTags(buf));
    assert Pow2(16) == 0x1_0000 by { MultiLimb.Pow2Values(); }
    TagWord(RestoredTags(buf))
  }

  /** `restore_x87_component` */
  function RestoreX87(s: FpState, buf: Byte512, rexw: bool): FpState {
    s.(sw := Field16(buf, 2),
       cw := Field16(buf, 0),
       fop := Field16(buf, 6),
       fip := if rexw then Field64(buf, 8) else Field32(buf, 8),
       fcs := if rexw then 0 else Field16(buf, 12),
       fdp := if rexw then Field64(buf, 16) else Field32(buf, 16),
       fds := if rexw then 0 else Field16(buf, 20),
       st := seq(8, p requires 0 <= p < 8 => StOf(buf, p)),
       tw := RestoredTw(buf))
  }

  function RestoredXmm(s: FpState, buf: Byte512, bits: Bits): Xmms {
    seq(16, i requires 0 <= i < 16 => if i < XmmCount(bits) then Field128(buf, 160 + 16 * i) else s.xmm[i])
  }

  /** `restore_fxsave_area` */
  function Restore(s: FpState, buf: Byte512, rexw: bool, bits: Bits): FpState {
    RestoreX87(s, buf, rexw).(
      mxcsr := Field32(buf, 24) % (MXCSR_MASK + 1),
      xmm := RestoredXmm(s, buf, bits))
  }

}
