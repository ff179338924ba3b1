/** The output function of the random stream in numbers. */
module RngValues {
  import opened Words
  import opened BitOps
  import opened SplitMix
  import MultiLimb

  /** y is z with each bit flipped whose k-th higher bit is set. */
  predicate XorsDown(y: nat, z: nat, k: nat) {
    forall i :: 0 <= i < 64 ==> (Bit(y, i) <==> Bit(z, i) != Bit(z, i + k))
  }

  lemma XorShiftBits(z: u64, k: nat)
    ensures XorShift(z, k) < TWO64 && XorsDown(XorShift(z, k), z, k)
  {
    hide Xor, Shr, Bit;
    Fits(z, k);
    forall i | 0 <= i < 64
      ensures Bit(XorShift(z, k), i) <==> Bit(z, i) != Bit(z, i + k)
    {
      XorBit(z, Shr(z, k), i);
      ShrBit(z, k, i);
    }
  }

  lemma SameDown(y: u64, z: u64, k: nat)
    requires XorsDown(y, z, k)
    ensures y == XorShift(z, k)
  {
    hide XorShift, Pow2, Bit;
    XorShiftBits(z, k);
    MultiLimb.Pow2Values();
    forall i | 0 <= i < 64
      ensures Bit(y, i) == Bit(XorShift(z, k), i)
    {
      assert Bit(y, i) <==> Bit(z, i) != Bit(z, i + k);
    }
    SameBits(y, XorShift(z, k), 64);
  }

  /** The output of state z, step by step: fold down by 30, multiply, fold down by 27,
      multiply, fold down by 31, all modulo 2^64. */
  lemma MixIs(z: u64, a: u64, b: u64, c: u64, d: u64, out: u64)
    requires XorsDown(a, z, 30) && b == a * 0xBF58_476D_1CE4_E5B9 % TWO64
    requires XorsDown(c, b, 27) && d == c * 0x94D0_49BB_1331_11EB % TWO64
    requires XorsDown(out, d, 31)
    ensures Mix(z) == out
  {
    hide XorShift, XorsDown;
    SameDown(a, z, 30);
    SameDown(c, b, 27);
    SameDown(out, d, 31);
  }

  /** The k-th draw is the output of the seed plus k times the odd constant. */
  lemma DrawIs(seed: u64, k: nat, z: u64)
    requires k > 0 && z == (seed + k * 0x9E37_79B9_7F4A_7C15) % TWO64
    ensures Draw(seed, k) == Mix(z)
  {
    hide Mix;
    StateIsLinear(seed, k);
  }

  /** The state of a trial is the output of its base, each bit flipped where index times the
      constant has a one. */
  lemma TrialIs(base: u64, index: u64, m: u64, z: u64)
    requires m == index * 0x9E37_79B9_7F4A_7C15 % TWO64
    requires forall i :: 0 <= i < 64 ==> (Bit(z, i) <==> Bit(base, i) != Bit(m, i))
    ensures TrialState(base, index) == Mix(z)
  {
    hide Mix, Xor, Bit, Pow2;
    XorFits(base, m);
    forall i | 0 <= i < 64
      ensures Bit(z, i) == Bit(Xor(base, m), i)
    {
      XorBit(base, m, i);
    }
    MultiLimb.Pow2Values();
    SameBits(z, Xor(base, m), 64);
  }
}
