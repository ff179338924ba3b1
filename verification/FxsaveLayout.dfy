/** Where FXSAVE puts each field (Intel SDM, volume 1, table 10-2), and what the rebuilt tags
    say of the registers. */
module FxsaveLayout {
  import opened Words
  import opened BitOps
  import opened Decoder
  import opened Fxsave
  import opened FxsaveStable

  /** The little-endian number in n bytes of the image. */
  function At(b: Byte512, off: nat, n: nat): nat
    requires off + n <= 512
  {
    LeValue(b[off..off + n])
  }

  lemma HeaderLayout(s: FpState, rexw: bool, bits: Bits)
    ensures var b := Image(s, rexw, bits);
            At(b, 0, 2) == s.cw && At(b, 2, 2) == s.sw && b[5] == 0 && At(b, 6, 2) == s.fop &&
            At(b, 24, 4) == s.mxcsr && At(b, 28, 4) == 0xFFFF &&
            if rexw then At(b, 8, 8) == s.fip && At(b, 16, 8) == s.fdp
            else At(b, 8, 4) == s.fip % TWO32 && At(b, 12, 2) == s.fcs && At(b, 16, 4) == s.fdp % TWO32 && At(b, 20, 2) == s.fds
  {
    hide Image, Control, LeBytes, LeValue, StArea, XmmArea, Pointers;
    ControlReads(s, rexw, bits);
    PointersRead(s, rexw, bits);
    MaskStands(s, rexw, bits);
    LeRoundTrip32(0xFFFF);
    ImageParts(s, rexw, bits);
    ReservedIsZero(s);
    assert Image(s, rexw, bits)[5] == Image(s, rexw, bits)[0..8][5];
  }

  lemma ReservedIsZero(s: FpState)
    ensures Control(s)[5] == 0
  {
    hide LeBytes, Abridged;
    assert Zeros(1) == [0] by {
      assert Zeros(0) == [];
    }
  }

  lemma MaskStands(s: FpState, rexw: bool, bits: Bits)
    ensures Image(s, rexw, bits)[28..32] == LeBytes(0xFFFF, 4)
  {
    hide Control, Pointers, LeBytes, StArea, XmmArea, Zeros;
  }

  /** The abridged tag byte: a bit for each register whose two tag bits are not both set. */
  lemma TagByte(s: FpState, rexw: bool, bits: Bits, p: nat)
    requires p < 8
    ensures Bit(Image(s, rexw, bits)[4], p) <==> !(Bit(s.tw, 2 * p) && Bit(s.tw, 2 * p + 1))
  {
    hide Image, Abridged, Bit;
    ControlReads(s, rexw, bits);
    AbridgedBit(s.tw, 8, p);
    TagIsTwoBits(s.tw, p);
  }

  lemma {:induction false} TagIsTwoBits(tw: nat, p: nat)
    ensures TagAt(tw, p) == (if Bit(tw, 2 * p) then 1 else 0) + (if Bit(tw, 2 * p + 1) then 2 else 0)
  {
    if p == 0 {
      assert Bit(tw, 1) == Bit(tw / 2, 0);
    } else {
      var q := 2 * (p - 1);
      assert Bit(tw, 2 * p) == Bit(tw / 2, q + 1) == Bit(tw / 2 / 2, q);
      assert Bit(tw, 2 * p + 1) == Bit(tw / 2, q + 2) == Bit(tw / 2 / 2, q + 1);
      assert tw / 2 / 2 == tw / 4;
      TagIsTwoBits(tw / 4, p - 1);
    }
  }

  /** With TOP, the three bits from the eleventh on, being t, slot i holds register t + i
      modulo 8: ten bytes of it in sixteen. */
  lemma StackLayout(s: FpState, rexw: bool, bits: Bits, t: nat, i: nat)
    requires t < 8 && i < 8 && s.sw / 0x800 % 8 == t
    ensures At(Image(s, rexw, bits), 32 + 16 * i, 10) == s.st[(t + i) % 8] % TWO80
  {
    hide Image, LeBytes, LeValue, StArea, XmmArea, Pointers, Control;
    ImageParts(s, rexw, bits);
    StSlot(s, 8, i);
    SubSlice(Image(s, rexw, bits), 32, StArea(s, 8), 16 * i, 10);
    LeValueOfBytes(s.st[(t + i) % 8], 10);
    PowersOf256();
    assert Pow256(10) == TWO80;
  }

  /** XMM registers from byte 160 on: sixteen in 64-bit mode, eight otherwise. */
  lemma XmmLayout(s: FpState, rexw: bool, bits: Bits, i: nat)
    requires i < if bits.B64? then 16 else 8
    ensures At(Image(s, rexw, bits), 160 + 16 * i, 16) == s.xmm[i]
  {
    hide Image, LeBytes, LeValue, StArea, XmmArea;
    XmmReads(s, rexw, bits, i);
  }

  // ---- Tags ----

  /** The tag of an 80-bit value with sign, exponent e and significand m: zero when both are
      zero; valid when the exponent is neither zero nor all ones and the significand has its
      integer bit; special otherwise: infinities, NaNs, denormals and unnormals. */
  lemma FullTagExactly(sign: nat, e: nat, m: nat)
    requires sign < 2 && e < 0x8000 && m < TWO64
    ensures var tag := FullTag(sign * 0x8000 * TWO64 + e * TWO64 + m);
            (tag == 1 <==> e == 0 && m == 0) &&
            (tag == 0 <==> 0 < e < 0x7FFF && m >= 0x8000_0000_0000_0000) && tag <= 2
  {
    var v := sign * 0x8000 * TWO64 + e * TWO64 + m;
    ModUnique(TWO64, sign * 0x8000 + e, m, v);
    ModUnique(0x8000, sign, e, sign * 0x8000 + e);
  }

  /** After a restore each register's two tag bits are those of its value if its bit in the
      image is set, and both set, for empty, if not. */
  lemma RestoredTag(s: FpState, buf: Byte512, rexw: bool, bits: Bits, p: nat)
    requires p < 8
    ensures var r := Restore(s, buf, rexw, bits);
            var tag := (if Bit(r.tw, 2 * p) then 1 else 0) + (if Bit(r.tw, 2 * p + 1) then 2 else 0);
            tag == if Bit(buf[4], p) then FullTag(r.st[p]) else 3
  {
    hide Bit, FullTag, StOf, TagWord, TagAt;
    var tags := RestoredTags(buf);
    TagOfWord(tags, p);
    TagIsTwoBits(RestoredTw(buf), p);
  }
}
