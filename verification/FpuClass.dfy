/** The save area code as it runs: a zeroed buffer filled in place, and a restore that
    updates the registers one by one. */
module FpuClass {
  import opened Words
  import opened BitOps
  import opened Decoder
  import opened Fxsave
  import Bmi
  import MultiLimb

  // ---- Filling a zeroed buffer ----

  /** The buffer starts with the given bytes and is zero after them. */
  ghost predicate Filled(buf: array<byte>, bs: seq<byte>)
    reads buf
  {
    buf.Length == 512 && |bs| <= 512 && buf[..|bs|] == bs && forall j :: |bs| <= j < 512 ==> buf[j] == 0
  }

  lemma {:induction false} ZerosAreZero(n: nat)
    ensures forall k :: 0 <= k < n ==> Zeros(n)[k] == 0
  {
    if n > 0 {
      ZerosAreZero(n - 1);
    }
  }

  lemma FilledFurther(buf: array<byte>, bs: seq<byte>, n: nat)
    requires Filled(buf, bs) && |bs| + n <= 512
    ensures Filled(buf, bs + Zeros(n))
  {
    ZerosAreZero(n);
    assert buf[..|bs| + n] == bs + Zeros(n);
  }

  lemma FilledWhole(buf: array<byte>, bs: seq<byte>)
    requires Filled(buf, bs)
    ensures buf[..] == bs + Zeros(512 - |bs|)
  {
    FilledFurther(buf, bs, 512 - |bs|);
    assert buf[..512] == buf[..];
  }

  /** `buf[off..].copy_from_slice(bs)`, past everything written so far */
  method Put(buf: array<byte>, ghost before: seq<byte>, off: nat, bs: seq<byte>)
    requires Filled(buf, before) && |before| <= off && off + |bs| <= 512
    modifies buf
    ensures Filled(buf, before + Zeros(off - |before|) + bs)
  {
    FilledFurther(buf, before, off - |before|);
    ghost var head := before + Zeros(off - |before|);
    forall k | 0 <= k < |bs| {
      buf[off + k] := bs[k];
    }
    assert buf[..off] == head;
    assert buf[..off + |bs|] == head + bs;
  }

  method PutPair(buf: array<byte>, ghost before: seq<byte>, off: nat, a: seq<byte>, b: seq<byte>)
    requires Filled(buf, before) && |before| == off && off + |a| + |b| <= 512
    modifies buf
    ensures Filled(buf, before + (a + b))
  {
    hide Filled, Zeros;
    Put(buf, before, off, a);
    NoGap(before);
    NoGap(before + a);
    Put(buf, before + a, off + |a|, b);
    assert before + a + b == before + (a + b);
  }

  // ---- Tags set one at a time ----

  lemma OrQuarter(a: nat, b: nat)
    ensures Or(a, b) == Or(a % 4, b % 4) + 4 * Or(a / 4, b / 4)
  {
    OrHalf(a, b);
    OrHalf(a / 2, b / 2);
    OrHalf(a % 4, b % 4);
    OrHalf(a % 4 / 2, b % 4 / 2);
    hide Or;
    assert a % 4 / 2 == a / 2 % 2 && b % 4 / 2 == b / 2 % 2 && a % 4 / 2 / 2 == 0 && b % 4 / 2 / 2 == 0;
    assert Or(0, 0) == 0 by { OrZeroZero(); }
  }

  lemma OrZeroZero()
    ensures Or(0, 0) == 0
  {
  }

  lemma OrHalf(a: nat, b: nat)
    ensures Or(a, b) == 2 * Or(a / 2, b / 2) + if a % 2 == 1 || b % 2 == 1 then 1 else 0
  {
  }

  lemma ShlTwo(x: nat, k: nat)
    ensures Shl(x, k + 2) == 4 * Shl(x, k)
  {
  }

  lemma {:induction false} OrTag(tags: seq<nat>, p: nat, t: nat)
    requires p < |tags| && tags[p] == 0 && t < 4 && forall q :: 0 <= q < |tags| ==> tags[q] < 4
    ensures Or(TagWord(tags), Shl(t, 2 * p)) == TagWord(tags[p := t])
  {
    hide Or, Shl;
    var w := TagWord(tags[1..]);
    var all := TagWord(tags);
    assert all % 4 == tags[0] && all / 4 == w;
    if p == 0 {
      assert tags[0 := t][1..] == tags[1..];
      OrLowTag(all, t);
    } else {
      ShlTwo(t, 2 * p - 2);
      var b := Shl(t, 2 * p - 2);
      assert (4 * b) % 4 == 0 && (4 * b) / 4 == b;
      OrQuarter(all, 4 * b);
      OrTag(tags[1..], p - 1, t);
      assert tags[p := t][1..] == tags[1..][p - 1 := t];
      OrZero(tags[0]);
    }
  }

  lemma OrLowTag(a: nat, t: nat)
    requires a % 4 == 0 && t < 4
    ensures Or(a, Shl(t, 0)) == a + t
  {
    assert Shl(t, 0) == t && Or(0, t) == t;
    hide Or, Shl;
    OrQuarter(a, t);
    OrZero(a / 4);
  }

  /** The loop of `abridged_ftw` */
  method AbridgedFtw(full: u16) returns (out: nat)
    ensures out == Abridged(full, 8)
  {
    hide Abridged, Shr, Shl, Or, Pow2;
    out := 0;
    NothingYet(full);
    for j := 0 to 8
      invariant out < Pow2(j) && Abridged(full, 8) == out + Pow2(j) * Abridged(Shr(full, 2 * j), 8 - j)
    {
      AbridgedNext(full, j);
      Bmi.OrNewBit(out, j);
      Bmi.DoubleProduct(Pow2(j), Abridged(Shr(full, 2 * j + 2), 7 - j));
      MultiLimb.Pow2Double(j);
      var tag := Shr(full, 2 * j) % 4;
      if tag != 3 {
        out := Or(out, Shl(1, j));
      }
    }
  }

  lemma NothingYet(full: nat)
    ensures Pow2(0) == 1 && Shr(full, 0) == full && Abridged(Shr(full, 16), 0) == 0
  {
  }

  lemma AbridgedNext(full: nat, j: nat)
    requires j < 8
    ensures Abridged(Shr(full, 2 * j), 8 - j) ==
      (if Shr(full, 2 * j) % 4 != 3 then 1 else 0) + 2 * Abridged(Shr(full, 2 * j + 2), 7 - j)
  {
    hide Shr;
    Bmi.ShrNext(full, 2 * j);
    Bmi.ShrNext(full, 2 * j + 1);
    var x := Shr(full, 2 * j);
    assert x / 2 / 2 == x / 4;
  }

  class Fpu {
    const bits: Bits
    var st: Sts
    var cw: u16
    var sw: u16
    var tw: u16
    var fop: u16
    var fip: u64
    var fcs: u16
    var fdp: u64
    var fds: u16
    var mxcsr: u32
    var xmm: Xmms

    constructor (bits: Bits, s: FpState)
      ensures this.bits == bits && State() == s
    {
      this.bits := bits;
      st, cw, sw, tw, fop := s.st, s.cw, s.sw, s.tw, s.fop;
      fip, fcs, fdp, fds, mxcsr, xmm := s.fip, s.fcs, s.fdp, s.fds, s.mxcsr, s.xmm;
    }

    function State(): FpState
      reads this
    {
      FpState(st, cw, sw, tw, fop, fip, fcs, fdp, fds, mxcsr, xmm)
    }

    method PutControl(buf: array<byte>)
      requires Filled(buf, [])
      modifies buf
      ensures Filled(buf, Control(State()))
    {
      hide LeBytes, Abridged, Zeros;
      ghost var s := State();
      Put(buf, [], 0, LeBytes(cw, 2));
      NoGap(LeBytes(cw, 2));
      Put(buf, LeBytes(cw, 2), 2, LeBytes(sw, 2));
      NoGap(LeBytes(cw, 2) + LeBytes(sw, 2));
      var ftw := AbridgedFtw(tw);
      MultiLimb.Pow2Values();
      Put(buf, LeBytes(cw, 2) + LeBytes(sw, 2), 4, [ftw]);
      Put(buf, LeBytes(cw, 2) + LeBytes(sw, 2) + [ftw], 6, LeBytes(fop, 2));
    }

    method PutPointers(buf: array<byte>, rexw: bool)
      requires Filled(buf, Control(State()))
      modifies buf
      ensures Filled(buf, Control(State()) + Pointers(State(), rexw))
    {
      hide LeBytes, Control, Zeros, Filled;
      ghost var c := Control(State());
      if rexw {
        PutPair(buf, c, 8, LeBytes(fip, 8), LeBytes(fdp, 8));
      } else {
        var a, b, d, e := LeBytes(fip % TWO32, 4), LeBytes(fcs, 2), LeBytes(fdp % TWO32, 4), LeBytes(fds, 2);
        PutPair(buf, c, 8, a, b);
        FilledFurther(buf, c + (a + b), 2);
        PutPair(buf, c + (a + b) + Zeros(2), 16, d, e);
        FilledFurther(buf, c + (a + b) + Zeros(2) + (d + e), 2);
        assert c + (a + b) + Zeros(2) + (d + e) + Zeros(2) == c + (a + b + Zeros(2) + d + e + Zeros(2));
      }
    }

    method PutStack(buf: array<byte>, ghost head: seq<byte>)
      requires Filled(buf, head) && |head| == 32
      modifies buf
      ensures Filled(buf, head + StArea(State(), 8))
    {
      hide LeBytes, Zeros, Filled, StArea;
      StAreaStart(State(), head);
      for i := 0 to 8
        invariant Filled(buf, head + StArea(State(), i))
      {
        ghost var before := head + StArea(State(), i);
        NoGap(before);
        StAreaNext(State(), i, head);
        var v := LeBytes(st[Phys(sw, i)], 10);
        Put(buf, before, 32 + 16 * i, v);
        FilledFurther(buf, before + v, 6);
      }
    }

    method PutXmms(buf: array<byte>, ghost head: seq<byte>)
      requires Filled(buf, head) && |head| == 160
      modifies buf
      ensures Filled(buf, head + XmmArea(State(), XmmCount(bits)))
    {
      hide LeBytes, Zeros, Filled, XmmArea;
      XmmAreaStart(State(), head);
      var count := if bits.B64? then 16 else 8;
      for i := 0 to count
        invariant Filled(buf, head + XmmArea(State(), i))
      {
        ghost var before := head + XmmArea(State(), i);
        NoGap(before);
        XmmAreaNext(State(), i, head);
        Put(buf, before, 160 + 16 * i, LeBytes(xmm[i], 16));
      }
    }

    /** `build_fxsave_area` */
    method BuildArea(rexw: bool) returns (buf: array<byte>)
      ensures fresh(buf) && buf[..] == Image(State(), rexw, bits)
    {
      hide LeBytes, Control, Pointers, StArea, XmmArea, Zeros;
      buf := new byte[512](_ => 0);
      ghost var s := State();
      PutControl(buf);
      PutPointers(buf, rexw);
      ghost var head := Control(s) + Pointers(s, rexw);
      NoGap(head);
      Put(buf, head, 24, LeBytes(mxcsr, 4));
      NoGap(head + LeBytes(mxcsr, 4));
      Put(buf, head + LeBytes(mxcsr, 4), 28, LeBytes(MXCSR_MASK, 4));
      head := head + LeBytes(mxcsr, 4) + LeBytes(MXCSR_MASK, 4);
      PutStack(buf, head);
      PutXmms(buf, head + StArea(s, 8));
      FilledWhole(buf, head + StArea(s, 8) + XmmArea(s, XmmCount(bits)));
    }

    /** `restore_fxsave_area` */
    method RestoreArea(buf: Byte512, rexw: bool)
      modifies this
      ensures State() == Restore(old(State()), buf, rexw, bits)
    {
      hide Field16, Field32, Field64, Field128, RestoredTw, StOf;
      ghost var was := State();
      RestoreComponent(buf, rexw);
      mxcsr := Field32(buf, 24) % (MXCSR_MASK + 1);
      RestoreXmms(buf);
      ghost var r := Restore(was, buf, rexw, bits);
      assert st == r.st && xmm == r.xmm;
    }

    method RestoreXmms(buf: Byte512)
      modifies this`xmm
      ensures xmm == RestoredXmm(old(State()), buf, bits)
    {
      hide Field128;
      var count := if bits.B64? then 16 else 8;
      for i := 0 to count
        invariant forall j :: 0 <= j < 16 ==> xmm[j] == if j < i then Field128(buf, 160 + 16 * j) else old(xmm)[j]
      {
        xmm := xmm[i := Field128(buf, 160 + 16 * i)];
      }
    }

    /** `restore_x87_component` */
    method RestoreComponent(buf: Byte512, rexw: bool)
      modifies this
      ensures State() == RestoreX87(old(State()), buf, rexw)
    {
      hide Field16, Field32, Field64, Field80, RestoredTw, StOf, Phys, Logical;
      sw := Field16(buf, 2);
      cw := Field16(buf, 0);
      fop := Field16(buf, 6);
      if rexw {
        fip, fcs, fdp, fds := Field64(buf, 8), 0, Field64(buf, 16), 0;
      } else {
        fip, fcs, fdp, fds := Field32(buf, 8), Field16(buf, 12), Field32(buf, 16), Field16(buf, 20);
      }
      RestoreStack(buf);
      assert st == RestoreX87(old(State()), buf, rexw).st;
    }

    method RestoreStack(buf: Byte512)
      requires sw == Field16(buf, 2)
      modifies this`st, this`tw
      ensures tw == RestoredTw(buf) && forall p :: 0 <= p < 8 ==> st[p] == StOf(buf, p)
    {
      hide Field16, Field80, Phys, Logical, FullTag, Bit, Or, Shl, TagWord;
      var word := 0;
      ghost var tags: seq<nat> := seq(8, _ => 0);
      EmptyTags(tags);
      for i := 0 to 8
        invariant word == TagWord(tags) && |tags| == 8
        invariant forall p :: 0 <= p < 8 ==> tags[p] == if Logical(sw, p) < i then TagOf(buf, p) else 0
        invariant forall p :: 0 <= p < 8 && Logical(sw, p) < i ==> st[p] == StOf(buf, p)
      {
        var v := Field80(buf, 32 + 16 * i);
        var p := Phys(sw, i);
        LogicalOfPhys(sw, i);
        st := st[p := v];
        var tag := if !Bit(buf[4], p) then 3 else FullTag(v);
        assert tag == TagOf(buf, p);
        OrTag(tags, p, tag);
        word := Or(word, Shl(tag, 2 * p));
        tags := tags[p := tag];
        forall q | 0 <= q < 8 && q != p
          ensures Logical(sw, q) != i
        {
        }
      }
      assert tags == RestoredTags(buf);
      tw := RestoredTwIs(buf, word);
    }
  }

  lemma StAreaStart(s: FpState, head: seq<byte>)
    ensures head + StArea(s, 0) == head
  {
  }

  lemma StAreaNext(s: FpState, i: nat, head: seq<byte>)
    ensures head + StArea(s, i) + LeBytes(s.st[Phys(s.sw, i)], 10) + Zeros(6) == head + StArea(s, i + 1)
  {
    hide LeBytes, Zeros, Phys;
  }

  lemma XmmAreaStart(s: FpState, head: seq<byte>)
    ensures head + XmmArea(s, 0) == head
  {
  }

  lemma XmmAreaNext(s: FpState, i: nat, head: seq<byte>)
    requires i < 16
    ensures head + XmmArea(s, i) + LeBytes(s.xmm[i], 16) == head + XmmArea(s, i + 1)
  {
    hide LeBytes;
  }

  /** The accumulated word, known to fit. */
  function RestoredTwIs(buf: Byte512, word: nat): (w: u16)
    requires word == TagWord(RestoredTags(buf))
    ensures w == RestoredTw(buf) == word
  {
    assert RestoredTw(buf) == word;
    word
  }

  lemma EmptyTags(tags: seq<nat>)
    requires forall p :: 0 <= p < |tags| ==> tags[p] == 0
    ensures TagWord(tags) == 0
  {
    if tags != [] {
      EmptyTags(tags[1..]);
    }
  }

  lemma LogicalOfPhys(sw: u16, i: nat)
    requires i < 8
    ensures Logical(sw, Phys(sw, i)) == i
  {
  }

  lemma NoGap(bs: seq<byte>)
    ensures bs + Zeros(0) == bs && [] + Zeros(0) + bs == bs
  {
  }
}
