/** Saving, restoring into any machine, and saving again. */
module FxsaveStable {
  import opened Words
  import opened BitOps
  import opened Decoder
  import opened Fxsave
  import MultiLimb

  // ---- Where each field lies ----

  lemma SubSlice(buf: seq<byte>, from: nat, part: seq<byte>, i: nat, n: nat)
    requires from + |part| <= |buf| && buf[from..from + |part|] == part && i + n <= |part|
    ensures buf[from + i..from + i + n] == part[i..i + n]
  {
    var a, b := buf[from + i..from + i + n], part[i..i + n];
    forall k | 0 <= k < n
      ensures a[k] == b[k]
    {
      assert part[i + k] == buf[from..from + |part|][i + k];
    }
  }

  lemma ImageParts(s: FpState, rexw: bool, bits: Bits)
    ensures var b := Image(s, rexw, bits); var n := XmmCount(bits);
            b[0..8] == Control(s) && b[8..24] == Pointers(s, rexw) &&
            b[24..28] == LeBytes(s.mxcsr, 4) && b[32..160] == StArea(s, 8) &&
            b[160..160 + 16 * n] == XmmArea(s, n)
  {
    hide Control, Pointers, LeBytes, StArea, XmmArea, Zeros;
  }

  lemma ControlParts(s: FpState)
    ensures var c := Control(s);
            c[0..2] == LeBytes(s.cw, 2) && c[2..4] == LeBytes(s.sw, 2) && c[4] == Abridged(s.tw, 8) &&
            c[6..8] == LeBytes(s.fop, 2)
  {
    hide LeBytes, Abridged;
  }

  lemma PointerParts(s: FpState, rexw: bool)
    ensures var p := Pointers(s, rexw);
            if rexw then p[0..8] == LeBytes(s.fip, 8) && p[8..16] == LeBytes(s.fdp, 8)
            else p[0..4] == LeBytes(s.fip % TWO32, 4) && p[4..6] == LeBytes(s.fcs, 2) &&
                 p[8..12] == LeBytes(s.fdp % TWO32, 4) && p[12..14] == LeBytes(s.fds, 2)
  {
    hide LeBytes, Zeros;
  }

  lemma {:induction false} StSlot(s: FpState, n: nat, i: nat)
    requires i < n
    ensures StArea(s, n)[16 * i..16 * i + 10] == LeBytes(s.st[Phys(s.sw, i)], 10)
  {
    hide LeBytes, Phys;
    var before := StArea(s, n - 1);
    var v := LeBytes(s.st[Phys(s.sw, n - 1)], 10);
    if i == n - 1 {
      assert (before + v + Zeros(6))[|before|..|before| + 10] == v;
    } else {
      StSlot(s, n - 1, i);
      assert (before + v + Zeros(6))[16 * i..16 * i + 10] == before[16 * i..16 * i + 10];
    }
  }

  lemma {:induction false} XmmSlot(s: FpState, n: nat, i: nat)
    requires i < n <= 16
    ensures XmmArea(s, n)[16 * i..16 * i + 16] == LeBytes(s.xmm[i], 16)
  {
    hide LeBytes;
    var before := XmmArea(s, n - 1);
    var v := LeBytes(s.xmm[n - 1], 16);
    if i == n - 1 {
      assert (before + v)[|before|..|before| + 16] == v;
    } else {
      XmmSlot(s, n - 1, i);
      assert (before + v)[16 * i..16 * i + 16] == before[16 * i..16 * i + 16];
    }
  }

  lemma Low16(v: u16)
    ensures LeValue(LeBytes(v, 2)) == v
  {
    LeValueOfBytes(v, 2);
    PowersOf256();
  }

  // ---- What is read back ----

  lemma ControlReads(s: FpState, rexw: bool, bits: Bits)
    ensures var b := Image(s, rexw, bits);
            Field16(b, 0) == s.cw && Field16(b, 2) == s.sw && b[4] == Abridged(s.tw, 8) &&
            Field16(b, 6) == s.fop && Field32(b, 24) == s.mxcsr
  {
    hide Image, Control, LeBytes, LeValue, StArea, XmmArea, Pointers;
    var b := Image(s, rexw, bits);
    ImageParts(s, rexw, bits);
    ControlParts(s);
    SubSlice(b, 0, Control(s), 0, 2);
    SubSlice(b, 0, Control(s), 2, 2);
    SubSlice(b, 0, Control(s), 6, 2);
    assert b[4] == b[0..8][4];
    Low16(s.cw);
    Low16(s.sw);
    Low16(s.fop);
    LeRoundTrip32(s.mxcsr);
  }

  lemma PointersRead(s: FpState, rexw: bool, bits: Bits)
    ensures var b := Image(s, rexw, bits);
            if rexw then Field64(b, 8) == s.fip && Field64(b, 16) == s.fdp
            else Field32(b, 8) == s.fip % TWO32 && Field16(b, 12) == s.fcs &&
                 Field32(b, 16) == s.fdp % TWO32 && Field16(b, 20) == s.fds
  {
    hide Image, LeBytes, LeValue, StArea, XmmArea, Pointers, Control;
    var b, p := Image(s, rexw, bits), Pointers(s, rexw);
    ImageParts(s, rexw, bits);
    PointerParts(s, rexw);
    if rexw {
      SubSlice(b, 8, p, 0, 8);
      SubSlice(b, 8, p, 8, 8);
      LeRoundTrip64(s.fip);
      LeRoundTrip64(s.fdp);
    } else {
      SubSlice(b, 8, p, 0, 4);
      SubSlice(b, 8, p, 4, 2);
      SubSlice(b, 8, p, 8, 4);
      SubSlice(b, 8, p, 12, 2);
      LeRoundTrip32(s.fip % TWO32);
      LeRoundTrip32(s.fdp % TWO32);
      Low16(s.fcs);
      Low16(s.fds);
    }
  }

  lemma StReads(s: FpState, rexw: bool, bits: Bits, p: nat)
    requires p < 8
    ensures StOf(Image(s, rexw, bits), p) == s.st[p] % TWO80
  {
    hide Image, LeBytes, LeValue, StArea, XmmArea, Pointers, Control, Phys, Logical;
    var b, i := Image(s, rexw, bits), Logical(s.sw, p);
    ControlReads(s, rexw, bits);
    ImageParts(s, rexw, bits);
    StSlot(s, 8, i);
    SubSlice(b, 32, StArea(s, 8), 16 * i, 10);
    LeValueOfBytes(s.st[p], 10);
    PowersOf256();
    assert Pow256(10) == TWO80;
  }

  lemma XmmReads(s: FpState, rexw: bool, bits: Bits, i: nat)
    requires i < XmmCount(bits)
    ensures Field128(Image(s, rexw, bits), 160 + 16 * i) == s.xmm[i]
  {
    hide Image, LeBytes, LeValue, StArea, XmmArea, Pointers, Control;
    var n := XmmCount(bits);
    ImageParts(s, rexw, bits);
    XmmSlot(s, n, i);
    SubSlice(Image(s, rexw, bits), 160, XmmArea(s, n), 16 * i, 16);
    LeRoundTrip128(s.xmm[i]);
  }

  // ---- Tags ----

  lemma {:induction false} TagOfWord(tags: seq<nat>, j: nat)
    requires j < |tags| && forall p :: 0 <= p < |tags| ==> tags[p] < 4
    ensures TagAt(TagWord(tags), j) == tags[j]
  {
    var w := TagWord(tags[1..]);
    assert TagWord(tags) == tags[0] + 4 * w;
    if j > 0 {
      TagOfWord(tags[1..], j - 1);
    }
  }

  lemma {:induction false} AbridgedBit(tw: nat, n: nat, j: nat)
    requires j < n
    ensures Bit(Abridged(tw, n), j) == (TagAt(tw, j) != 3)
  {
    if j > 0 {
      AbridgedBit(tw / 4, n - 1, j - 1);
    }
  }

  /** The rebuilt tag word abridges to the byte it was rebuilt from. */
  lemma TagsAbridgeBack(buf: Byte512)
    ensures Abridged(RestoredTw(buf), 8) == buf[4]
  {
    hide Abridged, TagWord, Bit, TagAt, Pow2;
    var tw := RestoredTw(buf);
    forall j | 0 <= j < 8
      ensures Bit(Abridged(tw, 8), j) == Bit(buf[4], j)
    {
      AbridgedBit(tw, 8, j);
      TagOfWord(RestoredTags(buf), j);
    }
    MultiLimb.Pow2Values();
    SameBits(Abridged(tw, 8), buf[4], 8);
  }

  // ---- Stability ----

  lemma Truncated(v: nat)
    ensures LeBytes(v % TWO80, 10) == LeBytes(v, 10)
  {
    LeBytesCut(v, 10);
    PowersOf256();
    assert Pow256(10) == TWO80;
  }

  lemma {:induction false} LeBytesCut(v: nat, n: nat)
    ensures LeBytes(v % Pow256(n), n) == LeBytes(v, n)
  {
    if n > 0 {
      var p := Pow256(n - 1);
      assert Pow256(n) == 256 * p;
      CutDigits(v, p);
      LeBytesCut(v / 256, n - 1);
      hide Pow256;
    }
  }

  /** Cutting a number cuts its upper digits. */
  lemma CutDigits(v: nat, p: nat)
    requires p > 0
    ensures v % (256 * p) % 256 == v % 256 && v % (256 * p) / 256 == v / 256 % p
  {
    ModOfProduct(v, p);
  }

  lemma {:induction false} SameStArea(s: FpState, t: FpState, n: nat)
    requires s.sw == t.sw && n <= 8 && forall p :: 0 <= p < 8 ==> t.st[p] == s.st[p] % TWO80
    ensures StArea(t, n) == StArea(s, n)
  {
    hide LeBytes;
    if n > 0 {
      SameStArea(s, t, n - 1);
      Truncated(s.st[Phys(s.sw, n - 1)]);
    }
  }

  lemma {:induction false} SameXmmArea(s: FpState, t: FpState, n: nat)
    requires n <= 16 && forall i :: 0 <= i < n ==> t.xmm[i] == s.xmm[i]
    ensures XmmArea(t, n) == XmmArea(s, n)
  {
    hide LeBytes;
    if n > 0 {
      SameXmmArea(s, t, n - 1);
    }
  }

  lemma WrapWord(x: u64)
    ensures x % TWO32 % TWO32 == x % TWO32
  {
  }

  /** What a restore from an image leaves, whatever machine it went into. */
  lemma RestoredState(s: FpState, t: FpState, rexw: bool, bits: Bits)
    ensures var b := Image(s, rexw, bits); var r := Restore(t, b, rexw, bits);
            r.cw == s.cw && r.sw == s.sw && r.fop == s.fop && r.mxcsr == s.mxcsr % (MXCSR_MASK + 1) &&
            Abridged(r.tw, 8) == Abridged(s.tw, 8) &&
            (forall p :: 0 <= p < 8 ==> r.st[p] == s.st[p] % TWO80) &&
            (forall i :: 0 <= i < XmmCount(bits) ==> r.xmm[i] == s.xmm[i]) &&
            (forall i :: XmmCount(bits) <= i < 16 ==> r.xmm[i] == t.xmm[i])
    ensures var r := Restore(t, Image(s, rexw, bits), rexw, bits);
            if rexw then r.fip == s.fip && r.fdp == s.fdp && r.fcs == r.fds == 0
            else r.fip == s.fip % TWO32 && r.fdp == s.fdp % TWO32 && r.fcs == s.fcs && r.fds == s.fds
  {
    hide Image, Field16, Field32, Field64, Field128, StOf, RestoredTw, Abridged;
    var b := Image(s, rexw, bits);
    ControlReads(s, rexw, bits);
    PointersRead(s, rexw, bits);
    TagsAbridgeBack(b);
    forall p | 0 <= p < 8
      ensures StOf(b, p) == s.st[p] % TWO80
    {
      StReads(s, rexw, bits, p);
    }
    forall i | 0 <= i < XmmCount(bits)
      ensures Field128(b, 160 + 16 * i) == s.xmm[i]
    {
      XmmReads(s, rexw, bits, i);
    }
  }

  /** Save, restore into any machine, save again: the image is the same byte for byte, if
      and only if MXCSR holds none of the bits that a restore drops. */
  lemma SaveRestoreSave(s: FpState, t: FpState, rexw: bool, bits: Bits)
    ensures Image(Restore(t, Image(s, rexw, bits), rexw, bits), rexw, bits) == Image(s, rexw, bits) <==>
      s.mxcsr <= MXCSR_MASK
  {
    var r := Restore(t, Image(s, rexw, bits), rexw, bits);
    RestoredState(s, t, rexw, bits);
    hide Restore, LeBytes, Abridged, StArea, XmmArea, Zeros;
    SameStArea(s, r, 8);
    SameXmmArea(s, r, XmmCount(bits));
    WrapWord(s.fip);
    WrapWord(s.fdp);
    assert Control(r) == Control(s) && Pointers(r, rexw) == Pointers(s, rexw);
    hide Image, Control, Pointers;
    if s.mxcsr <= MXCSR_MASK {
      SameParts(s, r, rexw, bits);
    } else {
      ControlReads(s, rexw, bits);
      ControlReads(r, rexw, bits);
    }
  }

  lemma SameParts(s: FpState, r: FpState, rexw: bool, bits: Bits)
    requires Control(r) == Control(s) && Pointers(r, rexw) == Pointers(s, rexw) && r.mxcsr == s.mxcsr
    requires StArea(r, 8) == StArea(s, 8) && XmmArea(r, XmmCount(bits)) == XmmArea(s, XmmCount(bits))
    ensures Image(r, rexw, bits) == Image(s, rexw, bits)
  {
    hide Control, Pointers, LeBytes, StArea, XmmArea, Zeros;
  }

  // ---- MXCSR along a machine's run ----

  /** What can write MXCSR, each time under the mask: LDMXCSR and the setter of a test harness,
      FXRSTOR, and XRSTOR, which leaves the rest of the state as `rest` says; and everything
      else, which leaves it alone. */
  datatype MxcsrStep =
    | Load(value: u32)
    | Fxrstor(area: Byte512, rexw: bool, bits: Bits)
    | Xrstor(area: Byte512, rest: FpState)
    | Other(rest: FpState)

  function Next(s: FpState, step: MxcsrStep): FpState {
    match step
    case Load(value) => s.(mxcsr := value % (MXCSR_MASK + 1))
    case Fxrstor(area, rexw, bits) => Restore(s, area, rexw, bits)
    case Xrstor(area, rest) => rest.(mxcsr := Field32(area, 24) % (MXCSR_MASK + 1))
    case Other(rest) => rest.(mxcsr := s.mxcsr)
  }

  function After(s: FpState, steps: seq<MxcsrStep>): FpState {
    if steps == [] then s else Next(After(s, steps[..|steps| - 1]), steps[|steps| - 1])
  }

  const MXCSR_START: u32 := 0x1F80

  lemma {:induction false} MxcsrStaysMasked(s: FpState, steps: seq<MxcsrStep>)
    requires s.mxcsr <= MXCSR_MASK
    ensures After(s, steps).mxcsr <= MXCSR_MASK
  {
    if steps != [] {
      hide Field32, RestoreX87, RestoredXmm;
      MxcsrStaysMasked(s, steps[..|steps| - 1]);
    }
  }

  /** So on any machine that started with the initial MXCSR, whatever ran since, a save that is
      restored into any machine and saved again is the same 512 bytes. */
  lemma SavesAreStable(s: FpState, steps: seq<MxcsrStep>, t: FpState, rexw: bool, bits: Bits)
    requires s.mxcsr == MXCSR_START
    ensures var now := After(s, steps);
            Image(Restore(t, Image(now, rexw, bits), rexw, bits), rexw, bits) == Image(now, rexw, bits)
  {
    hide Image, Restore, After;
    MxcsrStaysMasked(s, steps);
    SaveRestoreSave(After(s, steps), t, rexw, bits);
  }
}
