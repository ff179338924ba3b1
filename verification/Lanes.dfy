/** Packed lanes in a 128-bit word: interleaving, widening and saturating narrowing. */
module Lanes {
  import opened Words
  import opened BitOps

  /** `(v >> (i * bits)) & mask` */
  function Lane(v: nat, i: nat, bits: nat): nat {
    Low(Shr(v, i * bits), bits)
  }

  /** The word built from lanes the way the loops build it: lane after lane, or'ed in. */
  function Assemble(ls: seq<nat>, n: nat, bits: nat): nat
    requires n <= |ls|
  {
    if n == 0 then 0 else Or(Assemble(ls, n - 1, bits), Shl(ls[n - 1], (n - 1) * bits))
  }

  predicate LanesFit(ls: seq<nat>, bits: nat) {
    forall i :: 0 <= i < |ls| ==> ls[i] < Pow2(bits)
  }

  // ---- Lanes of an assembled word ----

  lemma LaneBelow(j: nat, n: nat, bits: nat)
    requires j < n
    ensures j * bits + bits <= n * bits
  {
    var d := n - j - 1;
    assert d * bits >= 0 && n * bits == (j + 1 + d) * bits == j * bits + bits + d * bits;
  }

  lemma LaneBit(v: nat, i: nat, bits: nat, t: nat)
    ensures Bit(Lane(v, i, bits), t) == (t < bits && Bit(v, i * bits + t))
  {
    LowBit(Shr(v, i * bits), bits, t);
    ShrBit(v, i * bits, t);
  }

  lemma LaneFits(v: nat, i: nat, bits: nat)
    ensures Lane(v, i, bits) < Pow2(bits)
  {
    LowBound(Shr(v, i * bits), bits);
  }

  lemma {:induction false} AssembleFits(ls: seq<nat>, n: nat, bits: nat)
    requires n <= |ls| && LanesFit(ls, bits)
    ensures Assemble(ls, n, bits) < Pow2(n * bits)
  {
    hide Or, Shl, Pow2;
    if n == 0 {
      NoLanes(bits);
    } else {
      AssembleFits(ls, n - 1, bits);
      LaneBelow(n - 1, n, bits);
      Pow2Mono((n - 1) * bits, n * bits);
      ShlBound(ls[n - 1], (n - 1) * bits, bits);
      assert bits + (n - 1) * bits == n * bits;
      OrBound(Assemble(ls, n - 1, bits), Shl(ls[n - 1], (n - 1) * bits), n * bits);
    }
  }

  lemma NoLanes(bits: nat)
    ensures Pow2(0 * bits) == 1
  {
  }

  lemma {:induction false} AssembleBit(ls: seq<nat>, n: nat, bits: nat, j: nat, t: nat)
    requires j < n <= |ls| && LanesFit(ls, bits) && t < bits
    ensures Bit(Assemble(ls, n, bits), j * bits + t) == Bit(ls[j], t)
  {
    hide Or, Shl, Pow2, Bit;
    var x, d, k := Assemble(ls, n - 1, bits), ls[n - 1], (n - 1) * bits;
    OrBit(x, Shl(d, k), j * bits + t);
    ShlBit(d, k, j * bits + t);
    if j == n - 1 {
      AssembleFits(ls, n - 1, bits);
      HighBitsClear(x, k, k + t);
    } else {
      LaneBelow(j, n - 1, bits);
      AssembleBit(ls, n - 1, bits, j, t);
    }
  }

  /** An assembled word has the lanes it was made of. */
  lemma LaneOfAssembled(ls: seq<nat>, bits: nat, j: nat)
    requires j < |ls| && LanesFit(ls, bits)
    ensures Lane(Assemble(ls, |ls|, bits), j, bits) == ls[j]
  {
    hide Assemble, Bit, Lane, Pow2;
    var w := Assemble(ls, |ls|, bits);
    LaneFits(w, j, bits);
    forall t | 0 <= t < bits
      ensures Bit(Lane(w, j, bits), t) == Bit(ls[j], t)
    {
      LaneBit(w, j, bits, t);
      AssembleBit(ls, |ls|, bits, j, t);
    }
    SameBits(Lane(w, j, bits), ls[j], bits);
  }

  /** A word is determined by its lanes. */
  lemma LanesDetermine(a: nat, b: nat, n: nat, bits: nat)
    requires bits > 0 && a < Pow2(n * bits) && b < Pow2(n * bits)
    requires forall i :: 0 <= i < n ==> Lane(a, i, bits) == Lane(b, i, bits)
    ensures a == b
  {
    hide Lane, Bit, Pow2;
    forall p | 0 <= p < n * bits
      ensures Bit(a, p) == Bit(b, p)
    {
      var i, t := p / bits, p % bits;
      assert p == bits * i + t && bits * i == i * bits;
      QuotientBelow(p, n, bits);
      LaneBit(a, i, bits, t);
      LaneBit(b, i, bits, t);
    }
    SameBits(a, b, n * bits);
  }

  lemma QuotientBelow(p: nat, n: nat, bits: nat)
    requires bits > 0 && p < n * bits
    ensures p / bits < n
  {
    var q := p / bits;
    assert p == bits * q + p % bits;
    var d := n - q;
    assert bits * d == n * bits - bits * q;
    MulBelow(bits, d);
  }

  // ---- Punpck ----

  type ElemSize = s: nat | s == 1 || s == 2 || s == 4 || s == 8 witness 1

  function LaneCount(esz: ElemSize): (n: nat)
    ensures n * (8 * esz) == 128 && n % 2 == 0 && n >= 2
  {
    16 / esz
  }

  function PunpckLane(a: nat, b: nat, esz: ElemSize, high: bool, j: nat): nat {
    var base := if high then LaneCount(esz) / 2 else 0;
    Lane(if j % 2 == 0 then a else b, base + j / 2, 8 * esz)
  }

  function PunpckLanes(a: nat, b: nat, esz: ElemSize, high: bool): (ls: seq<nat>)
    ensures |ls| == LaneCount(esz)
  {
    seq(LaneCount(esz), j requires 0 <= j < LaneCount(esz) => PunpckLane(a, b, esz, high, j))
  }

  /** `punpck` */
  function Punpck(a: nat, b: nat, esz: ElemSize, high: bool): nat {
    Assemble(PunpckLanes(a, b, esz, high), LaneCount(esz), 8 * esz)
  }

  lemma AssembleNothing()
    ensures forall ls: seq<nat>, bits: nat :: Assemble(ls, 0, bits) == 0
  {
  }

  lemma AssembleNext(ls: seq<nat>, n: nat, bits: nat)
    requires n < |ls|
    ensures Assemble(ls, n + 1, bits) == Or(Assemble(ls, n, bits), Shl(ls[n], n * bits))
  {
  }

  lemma PunpckLanesAt(a: nat, b: nat, esz: ElemSize, high: bool, i: nat)
    requires i < LaneCount(esz) / 2
    ensures var ls := PunpckLanes(a, b, esz, high); var base := if high then LaneCount(esz) / 2 else 0;
            ls[2 * i] == Lane(a, base + i, 8 * esz) && ls[2 * i + 1] == Lane(b, base + i, 8 * esz)
  {
    hide Lane;
  }

  method PunpckLoop(a: nat, b: nat, esz: ElemSize, high: bool) returns (out: nat)
    ensures out == Punpck(a, b, esz, high)
  {
    hide Lane, Or, Shl, Assemble, PunpckLanes;
    AssembleNothing();
    var bits := esz * 8;
    var half := 16 / esz / 2;
    var base := if high then half else 0;
    out := 0;
    ghost var ls := PunpckLanes(a, b, esz, high);
    for i := 0 to half
      invariant out == Assemble(ls, 2 * i, bits)
    {
      var d := Lane(a, base + i, bits);
      var s := Lane(b, base + i, bits);
      PunpckLanesAt(a, b, esz, high, i);
      AssembleNext(ls, 2 * i, bits);
      AssembleNext(ls, 2 * i + 1, bits);
      out := Or(out, Shl(d, 2 * i * bits));
      out := Or(out, Shl(s, (2 * i + 1) * bits));
    }
  }

  /** The even lanes of the low and the high interleaving are the lanes of the first operand
      in order, the odd ones those of the second, at every lane size. */
  lemma PunpckRecovers(a: nat, b: nat, esz: ElemSize, i: nat)
    requires i < LaneCount(esz)
    ensures var half, bits := LaneCount(esz) / 2, 8 * esz;
            var word := Punpck(a, b, esz, i >= half); var j := if i >= half then i - half else i;
            Lane(word, 2 * j, bits) == Lane(a, i, bits) && Lane(word, 2 * j + 1, bits) == Lane(b, i, bits)
  {
    hide Assemble, Lane;
    var half, bits := LaneCount(esz) / 2, 8 * esz;
    var j := if i >= half then i - half else i;
    var ls := PunpckLanes(a, b, esz, i >= half);
    PunpckFits(a, b, esz, i >= half);
    LaneOfAssembled(ls, bits, 2 * j);
    LaneOfAssembled(ls, bits, 2 * j + 1);
  }

  lemma PunpckFits(a: nat, b: nat, esz: ElemSize, high: bool)
    ensures LanesFit(PunpckLanes(a, b, esz, high), 8 * esz)
  {
    hide Lane;
    var ls := PunpckLanes(a, b, esz, high);
    forall j | 0 <= j < |ls|
      ensures ls[j] < Pow2(8 * esz)
    {
      var base := if high then LaneCount(esz) / 2 else 0;
      LaneFits(if j % 2 == 0 then a else b, base + j / 2, 8 * esz);
    }
  }

  /** So the two interleavings together lose nothing. */
  lemma PunpckIsInjective(a: nat, b: nat, c: nat, d: nat, esz: ElemSize)
    requires a < Pow2(128) && b < Pow2(128) && c < Pow2(128) && d < Pow2(128)
    requires Punpck(a, b, esz, false) == Punpck(c, d, esz, false) && Punpck(a, b, esz, true) == Punpck(c, d, esz, true)
    ensures a == c && b == d
  {
    hide Punpck, Lane, Pow2;
    var n, bits := LaneCount(esz), 8 * esz;
    forall i | 0 <= i < n
      ensures Lane(a, i, bits) == Lane(c, i, bits) && Lane(b, i, bits) == Lane(d, i, bits)
    {
      PunpckRecovers(a, b, esz, i);
      PunpckRecovers(c, d, esz, i);
    }
    LanesDetermine(a, c, n, bits);
    LanesDetermine(b, d, n, bits);
  }

  // ---- Widening and narrowing ----

  function SignedLane(v: nat, bits: nat): int
    requires bits > 0
  {
    if v >= Pow2(bits - 1) then v - Pow2(bits) else v
  }

  function Clamp(v: int, lo: int, hi: int): int {
    if v < lo then lo else if v > hi then hi else v
  }

  /** What a lane stands for. */
  function LaneValue(raw: nat, bits: nat, sign: bool): int
    requires bits > 0
  {
    if sign then SignedLane(raw, bits) else raw
  }

  /** One lane of `pmovx`: the source lane extended to a wider one */
  function Extended(raw: nat, bits: nat, wide: nat, sign: bool): nat
    requires bits > 0
  {
    LaneValue(raw, bits, sign) % Pow2(wide)
  }

  /** One lane of `pack`: read as signed, clamped to half the bits, and cut */
  function Narrowed(raw: nat, bits: nat, signedOut: bool): nat
    requires bits > 0
  {
    var v := SignedLane(raw, 2 * bits);
    (if signedOut then Clamp(v, 0 - Pow2(bits - 1), Pow2(bits - 1) - 1) else Clamp(v, 0, Pow2(bits) - 1)) % Pow2(bits)
  }

  function PmovxLanes(src: nat, esz: ElemSize, dsz: ElemSize, sign: bool): (ls: seq<nat>)
    ensures |ls| == LaneCount(dsz)
  {
    seq(LaneCount(dsz), i requires 0 <= i < LaneCount(dsz) => Extended(Lane(src, i, 8 * esz), 8 * esz, 8 * dsz, sign))
  }

  /** `pmovx` from lanes of esz bytes to lanes of dsz */
  function Pmovx(src: nat, esz: ElemSize, dsz: ElemSize, sign: bool): nat {
    Assemble(PmovxLanes(src, esz, dsz, sign), LaneCount(dsz), 8 * dsz)
  }

  function PackLane(a: nat, b: nat, esz: ElemSize, signedOut: bool, j: nat): nat {
    var half := LaneCount(esz) / 2;
    Narrowed(if j < half then Lane(a, j, 16 * esz) else Lane(b, j - half, 16 * esz), 8 * esz, signedOut)
  }

  function PackLanes(a: nat, b: nat, esz: ElemSize, signedOut: bool): (ls: seq<nat>)
    ensures |ls| == LaneCount(esz)
  {
    seq(LaneCount(esz), j requires 0 <= j < LaneCount(esz) => PackLane(a, b, esz, signedOut, j))
  }

  /** `pack` from lanes of 2 * esz bytes to lanes of esz bytes: to bytes of either sign and to
      signed words; to unsigned words see PackusdwLoop. */
  function Pack(a: nat, b: nat, esz: ElemSize, signedOut: bool): nat {
    Assemble(PackLanes(a, b, esz, signedOut), LaneCount(esz), 8 * esz)
  }

  method PmovxLoop(src: nat, esz: ElemSize, dsz: ElemSize, sign: bool) returns (out: nat)
    ensures out == Pmovx(src, esz, dsz, sign)
  {
    hide Lane, Or, Shl, Extended;
    out := 0;
    var count := 16 / dsz;
    for i := 0 to count
      invariant out == Assemble(PmovxLanes(src, esz, dsz, sign), i, 8 * dsz)
    {
      var ext := Extended(Lane(src, i, 8 * esz), 8 * esz, 8 * dsz, sign);
      out := Or(out, Shl(ext, i * (8 * dsz)));
    }
  }

  lemma PackLaneAt(a: nat, b: nat, esz: ElemSize, signedOut: bool, half: nat, i: nat)
    requires half < 2 && i < LaneCount(esz) / 2
    ensures var j := half * (LaneCount(esz) / 2) + i;
            j < LaneCount(esz) && PackLanes(a, b, esz, signedOut)[j] ==
            Narrowed(Lane(if half == 0 then a else b, i, 16 * esz), 8 * esz, signedOut)
  {
    hide Lane, Narrowed;
  }

  method PackLoop(a: nat, b: nat, esz: ElemSize, signedOut: bool) returns (out: nat)
    requires esz < 8
    ensures out == Pack(a, b, esz, signedOut)
  {
    hide Lane, Or, Shl, Narrowed, PackLanes, Assemble;
    AssembleNothing();
    out := 0;
    var lanes := 16 / (2 * esz);
    ghost var ls := PackLanes(a, b, esz, signedOut);
    for half := 0 to 2
      invariant out == Assemble(ls, half * lanes, 8 * esz)
    {
      var src := if half == 0 then a else b;
      for i := 0 to lanes
        invariant out == Assemble(ls, half * lanes + i, 8 * esz)
      {
        var c := Narrowed(Lane(src, i, 16 * esz), 8 * esz, signedOut);
        PackLaneAt(a, b, esz, signedOut, half, i);
        AssembleNext(ls, half * lanes + i, 8 * esz);
        out := Or(out, Shl(c, (half * lanes + i) * (8 * esz)));
      }
    }
  }

  /** `packusdw`, which has a loop of its own, is the unsigned pack of doublewords. */
  method PackusdwLoop(a: nat, b: nat) returns (out: nat)
    ensures out == Pack(a, b, 2, false)
  {
    hide Lane, Or, Shl, SignedLane, PackLanes, Assemble, Narrowed;
    AssembleNothing();
    out := 0;
    ghost var ls := PackLanes(a, b, 2, false);
    for half := 0 to 2
      invariant out == Assemble(ls, half * 4, 16)
    {
      var src := if half == 0 then a else b;
      for i := 0 to 4
        invariant out == Assemble(ls, half * 4 + i, 16)
      {
        var c: nat := Clamp(SignedLane(Lane(src, i, 32), 32), 0, 0xFFFF);
        ClampedIsNarrowed(Lane(src, i, 32));
        PackLaneAt(a, b, 2, false, half, i);
        AssembleNext(ls, half * 4 + i, 16);
        out := Or(out, Shl(c, (half * 4 + i) * 16));
      }
    }
  }

  lemma ClampedIsNarrowed(raw: nat)
    ensures Clamp(SignedLane(raw, 32), 0, 0xFFFF) == Narrowed(raw, 16, false)
  {
    assert Pow2(4) == 0x10 && Pow2(8) == 0x10 * Pow2(4) && Pow2(12) == 0x10 * Pow2(8) && Pow2(16) == 0x10 * Pow2(12);
    hide SignedLane, Pow2;
  }

  lemma ExtendedKeepsValue(v: nat, bits: nat, wide: nat, sign: bool)
    requires 0 < bits <= wide && v < Pow2(bits)
    ensures LaneValue(Extended(v, bits, wide, sign), wide, sign) == LaneValue(v, bits, sign)
  {
    var h, p, g, q := Pow2(bits - 1), Pow2(bits), Pow2(wide - 1), Pow2(wide);
    assert p == 2 * h && q == 2 * g;
    Pow2Mono(bits - 1, wide - 1);
    hide Pow2;
    var x := LaneValue(v, bits, sign);
    if x < 0 {
      ModUnique(q, -1, x + q, x);
    } else {
      ModUnique(q, 0, x, x);
    }
  }

  /** Every lane of the widened word stands for what the source lane stood for. */
  lemma PmovxKeepsValues(src: nat, esz: ElemSize, dsz: ElemSize, sign: bool, i: nat)
    requires esz <= dsz && i < LaneCount(dsz)
    ensures LaneValue(Lane(Pmovx(src, esz, dsz, sign), i, 8 * dsz), 8 * dsz, sign) ==
            LaneValue(Lane(src, i, 8 * esz), 8 * esz, sign)
  {
    hide Assemble, Lane, Pow2, Extended, LaneValue;
    PmovxFits(src, esz, dsz, sign);
    LaneOfAssembled(PmovxLanes(src, esz, dsz, sign), 8 * dsz, i);
    LaneFits(src, i, 8 * esz);
    ExtendedKeepsValue(Lane(src, i, 8 * esz), 8 * esz, 8 * dsz, sign);
  }

  /** Narrowing undoes widening, lane by lane. */
  lemma NarrowedExtended(v: nat, bits: nat, sign: bool)
    requires bits > 0 && v < Pow2(bits)
    ensures Narrowed(Extended(v, bits, 2 * bits, sign), bits, sign) == v
  {
    var h, p, q := Pow2(bits - 1), Pow2(bits), Pow2(2 * bits);
    assert p == 2 * h;
    WidePower(bits);
    assert q == 2 * Pow2(2 * bits - 1);
    hide Pow2;
    var x := LaneValue(v, bits, sign);
    if x < 0 {
      ModUnique(q, -1, x + q, x);
      ModUnique(p, -1, x + p, x);
    } else {
      ModUnique(q, 0, x, x);
      ModUnique(p, 0, x, x);
    }
  }

  lemma WidePower(bits: nat)
    requires bits > 0
    ensures Pow2(2 * bits - 1) >= Pow2(bits)
  {
    Pow2Mono(bits, 2 * bits - 1);
  }

  lemma PmovxFits(src: nat, esz: ElemSize, dsz: ElemSize, sign: bool)
    ensures LanesFit(PmovxLanes(src, esz, dsz, sign), 8 * dsz)
  {
  }

  lemma PackFits(a: nat, b: nat, esz: ElemSize, signedOut: bool)
    ensures LanesFit(PackLanes(a, b, esz, signedOut), 8 * esz)
  {
    hide Lane, SignedLane;
  }

  /** The lanes of the upper half of a word, shifted down. */
  lemma UpperLane(src: nat, i: nat, bits: nat, n: nat)
    requires n * bits == 64
    ensures Lane(Shr(src, 64), i, bits) == Lane(src, n + i, bits)
  {
    assert (n + i) * bits == 64 + i * bits;
    ShrShr(src, 64, i * bits);
  }

  lemma {:induction false} ShrShr(x: nat, k: nat, j: nat)
    ensures Shr(Shr(x, k), j) == Shr(x, k + j)
  {
    if k > 0 {
      ShrShr(x / 2, k - 1, j);
    }
  }

  /** Both halves of a word widened to twice the lane size. */
  function Widened(src: nat, esz: ElemSize, sign: bool): (nat, nat)
    requires esz < 8
  {
    (Pmovx(src, esz, 2 * esz, sign), Pmovx(Shr(src, 64), esz, 2 * esz, sign))
  }

  /** Widening both halves of a word and packing them back with saturation returns the
      word: sign extension under signed saturation, zero extension under unsigned. */
  lemma WidenThenPack(src: nat, esz: ElemSize, sign: bool)
    requires esz < 8 && src < Pow2(128)
    ensures var (lo, hi) := Widened(src, esz, sign); Pack(lo, hi, esz, sign) == src
  {
    hide Assemble, Lane, Pow2, Extended, Narrowed, Shr, Widened;
    var n, bits := LaneCount(esz), 8 * esz;
    var (lo, hi) := Widened(src, esz, sign);
    var ls := PackLanes(lo, hi, esz, sign);
    var word := Pack(lo, hi, esz, sign);
    PackFits(lo, hi, esz, sign);
    AssembleFits(ls, n, bits);
    forall j | 0 <= j < n
      ensures Lane(word, j, bits) == Lane(src, j, bits)
    {
      LaneOfAssembled(ls, bits, j);
      WidenedLane(src, esz, sign, j);
    }
    LanesDetermine(word, src, n, bits);
  }

  lemma WidenedLane(src: nat, esz: ElemSize, sign: bool, j: nat)
    requires esz < 8 && j < LaneCount(esz)
    ensures var (lo, hi) := Widened(src, esz, sign); PackLane(lo, hi, esz, sign, j) == Lane(src, j, 8 * esz)
  {
    hide Assemble, Lane, Pow2, Extended, Narrowed, Shr;
    var half, bits := LaneCount(esz) / 2, 8 * esz;
    assert half * bits == 64;
    var from := if j < half then src else Shr(src, 64);
    var i := if j < half then j else j - half;
    PmovxFits(from, esz, 2 * esz, sign);
    LaneOfAssembled(PmovxLanes(from, esz, 2 * esz, sign), 16 * esz, i);
    if j >= half {
      UpperLane(src, i, bits, half);
    }
    LaneFits(src, j, bits);
    NarrowedExtended(Lane(src, j, bits), bits, sign);
  }
}
