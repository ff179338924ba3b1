/** What the packs make of a lane that the narrower type does not hold. */
module Saturation {
  import opened Words
  import opened BitOps
  import opened Lanes
  import MultiLimb

  /** v is the number that a lane of n bits stands for in two's complement. */
  predicate StandsForSigned(lane: nat, n: nat, v: int)
    requires n > 0
  {
    0 - Pow2(n - 1) <= v < Pow2(n - 1) && lane == v % Pow2(n)
  }

  /** The source lane behind lane j of a pack: the first operand's lanes, then the second's. */
  function SourceLane(a: nat, b: nat, esz: ElemSize, j: nat): nat
    requires esz < 8
  {
    var half := 8 / esz;
    if j < half then Lane(a, j, 16 * esz) else Lane(b, j - half, 16 * esz)
  }

  lemma SignedOfLane(lane: nat, n: nat, v: int)
    requires n > 0 && StandsForSigned(lane, n, v)
    ensures SignedLane(lane, n) == v
  {
    var h := Pow2(n - 1);
    assert Pow2(n) == 2 * h;
    hide Pow2;
    if v >= 0 {
      ModUnique(2 * h, 0, v, v);
    } else {
      ModUnique(2 * h, -1, v + 2 * h, v);
    }
  }

  /** Packing 2n-bit lanes to n bits with saturation: with v the signed number of the source
      lane, the packed lane holds v where its type does, the type's greatest number where v is
      above it, and its least where v is below. */
  lemma PackSaturates(a: nat, b: nat, esz: ElemSize, signedOut: bool, j: nat, v: int)
    requires esz < 8 && j < 16 / esz && StandsForSigned(SourceLane(a, b, esz, j), 16 * esz, v)
    ensures var n := 8 * esz;
            var out := Lane(Pack(a, b, esz, signedOut), j, n);
            var least, greatest := if signedOut then 0 - Pow2(n - 1) else 0, if signedOut then Pow2(n - 1) - 1 else Pow2(n) - 1;
            out < Pow2(n) && (least <= v <= greatest ==> out == v % Pow2(n)) &&
            (v > greatest ==> out == greatest % Pow2(n)) && (v < least ==> out == least % Pow2(n))
  {
    hide Assemble, Lane, SignedLane, Pow2;
    var n := 8 * esz;
    PackFits(a, b, esz, signedOut);
    LaneOfAssembled(PackLanes(a, b, esz, signedOut), n, j);
    LaneFits(Pack(a, b, esz, signedOut), j, n);
    SignedOfLane(SourceLane(a, b, esz, j), 2 * n, v);
  }

  /** Unsigned words from doublewords, by the loop that packs only those. */
  lemma PackusdwSaturates(a: nat, b: nat, j: nat, v: int)
    requires j < 8 && StandsForSigned(if j < 4 then Lane(a, j, 32) else Lane(b, j - 4, 32), 32, v)
    ensures Lane(Pack(a, b, 2, false), j, 16) == if v < 0 then 0 else if v > 0xFFFF then 0xFFFF else v
  {
    hide Lane, Pack, Pow2;
    PackSaturates(a, b, 2, false, j, v);
    MultiLimb.Pow2Values();
  }

  /** Bytes from words, unsigned (PACKUSWB) and signed (PACKSSWB), and signed words from
      doublewords (PACKSSDW). */
  lemma BytesSaturate(a: nat, b: nat, j: nat, v: int)
    requires j < 16 && StandsForSigned(if j < 8 then Lane(a, j, 16) else Lane(b, j - 8, 16), 16, v)
    ensures Lane(Pack(a, b, 1, false), j, 8) == if v < 0 then 0 else if v > 0xFF then 0xFF else v
    ensures Lane(Pack(a, b, 1, true), j, 8) == if v < -0x80 then 0x80 else if v > 0x7F then 0x7F else v % 0x100
  {
    hide Lane, Pack, Pow2;
    PackSaturates(a, b, 1, false, j, v);
    PackSaturates(a, b, 1, true, j, v);
    MultiLimb.Pow2Values();
    MultiLimb.Pow2Double(7);
  }

  lemma WordsSaturate(a: nat, b: nat, j: nat, v: int)
    requires j < 8 && StandsForSigned(if j < 4 then Lane(a, j, 32) else Lane(b, j - 4, 32), 32, v)
    ensures Lane(Pack(a, b, 2, true), j, 16) == if v < -0x8000 then 0x8000 else if v > 0x7FFF then 0x7FFF else v % 0x1_0000
  {
    hide Lane, Pack, Pow2;
    PackSaturates(a, b, 2, true, j, v);
    MultiLimb.Pow2Values();
    MultiLimb.Pow2Double(15);
  }

  /** 300 packs to 255 and -1 to 0. */
  lemma PackuswbSaturates(a: nat, b: nat)
    requires Lane(a, 0, 16) == 0x012C && Lane(b, 0, 16) == 0xFFFF
    ensures Lane(Pack(a, b, 1, false), 0, 8) == 0xFF && Lane(Pack(a, b, 1, false), 8, 8) == 0
  {
    hide Lane, Pack, Pow2;
    MultiLimb.Pow2Values();
    MultiLimb.Pow2Double(15);
    BytesSaturate(a, b, 0, 300);
    BytesSaturate(a, b, 8, -1);
  }
}
