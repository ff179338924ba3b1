/** The SplitMix64 stream: its output function is a bijection of 64-bit words, so trial
    states never collide and a stream goes through every word once before it repeats. */
module SplitMix {
  import opened Words
  import opened BitOps
  import MultiLimb

  const GAMMA: u64 := 0x9E37_79B9_7F4A_7C15
  const MIX1: u64 := 0xBF58_476D_1CE4_E5B9
  const MIX2: u64 := 0x94D0_49BB_1331_11EB

  // Their inverses modulo 2^64
  const GAMMA_INV: u64 := 0xF1DE_83E1_9937_733D
  const MIX1_INV: u64 := 0x96DE_1B17_3F11_9089
  const MIX2_INV: u64 := 0x3196_42B2_D24D_8EC3

  /** `z ^ (z >> k)` */
  function XorShift(z: nat, k: nat): nat {
    Xor(z, Shr(z, k))
  }

  lemma {:induction false} XorBound(a: nat, b: nat, n: nat)
    requires a < Pow2(n) && b < Pow2(n)
    ensures Xor(a, b) < Pow2(n)
  {
    if n > 0 && a > 0 {
      XorBound(a / 2, b / 2, n - 1);
    }
  }

  lemma {:induction false} ShrBound(x: nat, k: nat)
    ensures Shr(x, k) <= x
  {
    if k > 0 {
      ShrBound(x / 2, k - 1);
    }
  }

  /** The last scrambling step, and the one function both generators apply. */
  function Mix(z: u64): u64 {
    var y := WrapMul(XorShift(z, 30), MIX1);
    var x := WrapMul(XorShift(y, 27), MIX2);
    Fits(x, 31);
    XorShift(x, 31)
  }

  lemma Fits(x: u64, k: nat)
    ensures XorShift(x, k) < TWO64
  {
    hide Pow2;
    MultiLimb.Pow2Values();
    ShrBound(x, k);
    XorBound(x, Shr(x, k), 64);
  }

  /** `Rng::for_trial` */
  function TrialState(base: u64, index: u64): u64 {
    XorFits(base, WrapMul(index, GAMMA));
    Mix(Xor(base, WrapMul(index, GAMMA)))
  }

  lemma XorFits(a: u64, b: u64)
    ensures Xor(a, b) < TWO64
  {
    hide Pow2;
    MultiLimb.Pow2Values();
    XorBound(a, b, 64);
  }

  class Rng {
    var state: u64

    constructor (seed: u64)
      ensures state == seed
    {
      state := seed;
    }

    constructor ForTrial(base: u64, index: u64)
      ensures state == TrialState(base, index)
    {
      var z: u64 := Xored(base, WrapMul(index, GAMMA));
      z := WrapMul(Shifted(z, 30), MIX1);
      z := WrapMul(Shifted(z, 27), MIX2);
      state := Shifted(z, 31);
    }

    method NextU64() returns (r: u64)
      modifies this
      ensures state == WrapAdd(old(state), GAMMA) && r == Mix(state)
    {
      state := WrapAdd(state, GAMMA);
      var z := state;
      z := WrapMul(Shifted(z, 30), MIX1);
      z := WrapMul(Shifted(z, 27), MIX2);
      r := Shifted(z, 31);
    }
  }

  function Xored(a: u64, b: u64): (r: u64)
    ensures r == Xor(a, b)
  {
    XorFits(a, b);
    Xor(a, b)
  }

  function Shifted(z: u64, k: nat): (r: u64)
    ensures r == XorShift(z, k)
  {
    Fits(z, k);
    XorShift(z, k)
  }

  // ---- Each part has an inverse ----

  lemma {:induction false} XorCancel(a: nat, b: nat)
    ensures Xor(Xor(a, b), b) == a
  {
    if a == 0 {
      XorSelf(b);
    } else {
      hide Xor;
      XorParts(a, b);
      XorParts(Xor(a, b), b);
      XorCancel(a / 2, b / 2);
    }
  }

  lemma XorParts(a: nat, b: nat)
    ensures Xor(a, b) / 2 == Xor(a / 2, b / 2) && Xor(a, b) % 2 == if a % 2 != b % 2 then 1 else 0
  {
  }

  lemma {:induction false} XorSelf(b: nat)
    ensures Xor(b, b) == 0
  {
    if b > 0 {
      XorSelf(b / 2);
    }
  }

  lemma {:induction false} XorCommutes(a: nat, b: nat)
    ensures Xor(a, b) == Xor(b, a)
  {
    if a == 0 {
      XorZero(b);
    } else if b == 0 {
      XorZero(a);
    } else {
      XorCommutes(a / 2, b / 2);
    }
  }

  lemma {:induction false} XorZero(b: nat)
    ensures Xor(b, 0) == b
  {
    if b > 0 {
      XorZero(b / 2);
    }
  }

  lemma {:induction false} ShrOfXor(a: nat, b: nat, k: nat)
    ensures Shr(Xor(a, b), k) == Xor(Shr(a, k), Shr(b, k))
  {
    if k > 0 {
      assert Xor(a, b) / 2 == Xor(a / 2, b / 2);
      ShrOfXor(a / 2, b / 2, k - 1);
    }
  }

  lemma {:induction false} ShrShrinks(x: nat, k: nat)
    ensures k > 0 && x > 0 ==> Shr(x, k) < x
  {
    if k > 0 {
      ShrBound(x / 2, k - 1);
    }
  }

  /** The word whose xor with its own shift is y. */
  function Unshift(y: nat, k: nat): nat
    requires k > 0
    decreases y
  {
    if y == 0 then 0
    else
      ShrShrinks(y, k);
      Xor(y, Unshift(Shr(y, k), k))
  }

  lemma {:induction false} ShrOfZero(k: nat)
    ensures Shr(0, k) == 0
  {
    if k > 0 {
      ShrOfZero(k - 1);
    }
  }

  lemma {:induction false} ShiftOfUnshift(y: nat, k: nat)
    requires k > 0
    ensures XorShift(Unshift(y, k), k) == y
    decreases y
  {
    ShrOfZero(k);
    if y > 0 {
      hide Xor, Shr;
      ShrShrinks(y, k);
      var w := Unshift(Shr(y, k), k);
      ShiftOfUnshift(Shr(y, k), k);
      ShrOfXor(y, w, k);
      XorCancel(w, Shr(w, k));
      XorCancel(y, w);
    }
  }

  lemma {:induction false} UnshiftOfShift(z: nat, k: nat)
    requires k > 0
    ensures Unshift(XorShift(z, k), k) == z
    decreases z
  {
    ShrOfZero(k);
    if z > 0 {
      hide Xor, Shr;
      ShrShrinks(z, k);
      UnshiftOfShift(Shr(z, k), k);
      ShrOfXor(z, Shr(z, k), k);
      XorCancel(z, Shr(z, k));
      if XorShift(z, k) == 0 {
        ZeroOnly(z, k);
      }
    }
  }

  /** Only zero is equal to its own shift. */
  lemma ZeroOnly(z: nat, k: nat)
    requires k > 0 && XorShift(z, k) == 0
    ensures z == 0
  {
    XorCancel(z, Shr(z, k));
    ShrShrinks(z, k);
    assert Xor(0, Shr(z, k)) == Shr(z, k);
    hide Xor, Shr;
  }

  lemma {:induction false} UnshiftBound(y: nat, k: nat, n: nat)
    requires k > 0 && y < Pow2(n)
    ensures Unshift(y, k) < Pow2(n)
    decreases y
  {
    if y > 0 {
      ShrShrinks(y, k);
      UnshiftBound(Shr(y, k), k, n);
      XorBound(y, Unshift(Shr(y, k), k), n);
    }
  }

  lemma MulInverse(x: int, c: int, d: int, k: int, t: int)
    requires t > 0 && 0 <= x < t && c * d == k * t + 1
    ensures (x * c) % t * d % t == x
  {
    var q, r := x * c / t, (x * c) % t;
    ProductSplits(x, c, d, k, t, q, r);
    ModUnique(t, x * k - q * d, x, r * d);
  }

  lemma ProductSplits(x: int, c: int, d: int, k: int, t: int, q: int, r: int)
    requires x * c == t * q + r && c * d == k * t + 1
    ensures r * d == t * (x * k - q * d) + x
  {
    assert (t * q + r) * d == t * (q * d) + r * d;
    assert x * c * d == x * (c * d) == x * (k * t) + x == t * (x * k) + x;
    assert t * (x * k - q * d) == t * (x * k) - t * (q * d);
  }

  /** An odd constant and its inverse, either way round. */
  predicate Inverse(c: u64, d: u64) {
    c * d % TWO64 == 1
  }

  lemma MulUndone(x: u64, c: u64, d: u64)
    requires Inverse(c, d)
    ensures WrapMul(WrapMul(x, c), d) == x
  {
    var t := TWO64;
    assert c * d == c * d / t * t + 1;
    MulInverse(x, c, d, c * d / t, t);
  }

  lemma InversesHold()
    ensures Inverse(GAMMA, GAMMA_INV) && Inverse(MIX1, MIX1_INV) && Inverse(MIX2, MIX2_INV)
    ensures Inverse(GAMMA_INV, GAMMA) && Inverse(MIX1_INV, MIX1) && Inverse(MIX2_INV, MIX2)
  {
  }

  function Unshifted(y: u64, k: nat): (r: u64)
    requires k > 0
    ensures r == Unshift(y, k)
  {
    UnshiftedFits(y, k);
    Unshift(y, k)
  }

  lemma UnshiftedFits(y: u64, k: nat)
    requires k > 0
    ensures Unshift(y, k) < TWO64
  {
    hide Pow2;
    MultiLimb.Pow2Values();
    UnshiftBound(y, k, 64);
  }

  function Unmix(y: u64): u64 {
    var x := WrapMul(Unshifted(y, 31), MIX2_INV);
    var w := WrapMul(Unshifted(x, 27), MIX1_INV);
    Unshifted(w, 30)
  }

  /** The output function is a bijection of the 64-bit words. */
  lemma MixIsBijective(z: u64)
    ensures Unmix(Mix(z)) == z && Mix(Unmix(z)) == z
  {
    hide XorShift, Unshift, WrapMul, Inverse;
    InversesHold();
    var y := WrapMul(Shifted(z, 30), MIX1);
    var x := WrapMul(Shifted(y, 27), MIX2);
    UnshiftOfShift(x, 31);
    MulUndone(Shifted(y, 27), MIX2, MIX2_INV);
    UnshiftOfShift(y, 27);
    MulUndone(Shifted(z, 30), MIX1, MIX1_INV);
    UnshiftOfShift(z, 30);

    var u := WrapMul(Unshifted(z, 31), MIX2_INV);
    var v := WrapMul(Unshifted(u, 27), MIX1_INV);
    ShiftOfUnshift(v, 30);
    MulUndone(Unshifted(u, 27), MIX1_INV, MIX1);
    ShiftOfUnshift(u, 27);
    MulUndone(Unshifted(z, 31), MIX2_INV, MIX2);
    ShiftOfUnshift(z, 31);
  }

  /** For one base, the trial index can be read back from the state: no two trials share one. */
  lemma TrialsDiffer(base: u64, i: u64, j: u64)
    ensures TrialState(base, i) == TrialState(base, j) <==> i == j
  {
    hide Mix, Unmix, WrapMul, Xor, Inverse;
    if TrialState(base, i) == TrialState(base, j) {
      var a, b := WrapMul(i, GAMMA), WrapMul(j, GAMMA);
      MixIsBijective(Xored(base, a));
      MixIsBijective(Xored(base, b));
      XorCommutes(base, a);
      XorCommutes(base, b);
      XorCancel(a, base);
      XorCancel(b, base);
      InversesHold();
      MulUndone(i, GAMMA, GAMMA_INV);
      MulUndone(j, GAMMA, GAMMA_INV);
    }
  }

  // ---- The stream ----

  /** The state after k draws, and the k-th draw. */
  function StateAfter(seed: u64, k: nat): u64 {
    if k == 0 then seed else WrapAdd(StateAfter(seed, k - 1), GAMMA)
  }

  function Draw(seed: u64, k: nat): u64
    requires k > 0
  {
    Mix(StateAfter(seed, k))
  }

  lemma {:induction false} StateIsLinear(seed: u64, k: nat)
    ensures StateAfter(seed, k) == WrapAdd(seed, k * GAMMA)
  {
    hide Wrap64;
    if k == 0 {
      WrapOfWord(seed);
    } else {
      StateIsLinear(seed, k - 1);
      assert k * GAMMA == (k - 1) * GAMMA + GAMMA;
      WrapOfWrap(seed + (k - 1) * GAMMA, GAMMA);
    }
  }

  lemma WrapOfWord(x: u64)
    ensures Wrap64(x) == x
  {
  }

  lemma WrapOfWrap(a: int, y: int)
    ensures Wrap64(Wrap64(a) + y) == Wrap64(a + y)
  {
    var t := TWO64;
    var q, r := a / t, a % t;
    var p, z := (r + y) / t, (r + y) % t;
    assert t * (q + p) == t * q + t * p;
    ModUnique(t, q + p, z, a + y);
  }

  lemma ProductWraps(x: int, y: int)
    ensures WrapMul(Wrap64(x), y) == WrapMul(x, y)
  {
    var t := TWO64;
    var q, r := x / t, x % t;
    assert x == t * q + r;
    assert x * y == t * (q * y) + r * y;
    var p := r * y / t;
    assert r * y == t * p + r * y % t;
    assert t * (q * y + p) == t * (q * y) + t * p;
    ModUnique(t, q * y + p, r * y % t, x * y);
  }

  lemma SameState(seed: u64, x: int, y: int)
    ensures WrapAdd(seed, x) == WrapAdd(seed, y) <==> Wrap64(x) == Wrap64(y)
  {
  }

  /** Two draws of one stream are equal exactly when they are a multiple of 2^64 apart: the
      period is the whole 2^64, and nothing repeats within it. */
  lemma DrawsRepeatExactly(seed: u64, i: nat, j: nat)
    requires i > 0 && j > 0
    ensures Draw(seed, i) == Draw(seed, j) <==> Wrap64(i) == Wrap64(j)
  {
    hide Mix, Unmix, WrapMul, StateAfter, WrapAdd, Inverse;
    MixIsBijective(StateAfter(seed, i));
    MixIsBijective(StateAfter(seed, j));
    StateIsLinear(seed, i);
    StateIsLinear(seed, j);
    SameState(seed, i * GAMMA, j * GAMMA);
    WrapMulDefined(i, GAMMA);
    WrapMulDefined(j, GAMMA);
    ProductWraps(i, GAMMA);
    ProductWraps(j, GAMMA);
    InversesHold();
    MulUndone(Wrap64(i), GAMMA, GAMMA_INV);
    MulUndone(Wrap64(j), GAMMA, GAMMA_INV);
  }

  lemma WrapMulDefined(a: int, b: int)
    ensures WrapMul(a, b) == Wrap64(a * b)
  {
  }

  /** Every 64-bit word is drawn within one period. */
  lemma EveryWordIsDrawn(seed: u64, y: u64) returns (k: nat)
    ensures 0 < k <= TWO64 && Draw(seed, k) == y
  {
    hide Mix, Unmix, WrapMul, WrapAdd, WrapSub, Wrap64, StateAfter, Inverse;
    var target := Unmix(y);
    MixIsBijective(y);
    var i := WrapMul(WrapSub(target, seed), GAMMA_INV);
    k := if i == 0 then TWO64 else i;
    StateIsLinear(seed, k);
    InversesHold();
    MulUndone(WrapSub(target, seed), GAMMA_INV, GAMMA);
    WrapMulDefined(k, GAMMA);
    ProductWraps(k, GAMMA);
    FullTurn(i);
    Reaches(seed, target);
    WrapOfWord(WrapSub(target, seed));
    SameState(seed, k * GAMMA, WrapSub(target, seed));
  }

  lemma FullTurn(i: u64)
    ensures Wrap64(if i == 0 then TWO64 else i) == i
  {
  }

  lemma Reaches(seed: u64, target: u64)
    ensures WrapAdd(seed, WrapSub(target, seed)) == target
  {
    WrapInverse(target, seed);
  }
}
