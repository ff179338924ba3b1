/** Arithmetic over several limbs: chains of ADC and SBB are exact, and the flags that
    the last limb leaves compare the whole numbers. */
module MultiLimb {
  import opened Words
  import opened BitOps
  import opened CpuModel
  import opened Alu

  // ---- Flags of one limb, by value ----

  lemma {:induction false} TopBit(x: nat, n: nat)
    requires x < Pow2(n + 1)
    ensures Bit(x, n) == (x >= Pow2(n))
  {
    if n > 0 {
      TopBit(x / 2, n - 1);
    }
  }

  lemma {:induction false} Pow2Sum(a: nat, b: nat)
    ensures Pow2(a + b) == Pow2(a) * Pow2(b)
  {
    if a == 0 {
      assert Pow2(0) * Pow2(b) == Pow2(b);
    } else {
      Pow2Sum(a - 1, b);
      assert Pow2(a + b) == 2 * (Pow2(a - 1) * Pow2(b));
      assert 2 * (Pow2(a - 1) * Pow2(b)) == (2 * Pow2(a - 1)) * Pow2(b);
    }
  }

  lemma Pow2Values()
    ensures Pow2(8) == 0x100 && Pow2(16) == 0x1_0000 && Pow2(32) == 0x1_0000_0000 && Pow2(64) == TWO64
  {
    assert Pow2(2) == 4 && Pow2(4) == 16 && Pow2(6) == 64 && Pow2(8) == 256;
    hide Pow2;
    Pow2Sum(8, 8);
    assert Pow2(16) == 0x1_0000;
    Pow2Sum(16, 16);
    assert Pow2(32) == 0x1_0000_0000;
    Pow2Sum(32, 32);
  }

  lemma Pow2Double(n: nat)
    ensures Pow2(n + 1) == 2 * Pow2(n)
  {
  }

  lemma ModulusIsPow2(size: Size)
    ensures Pow2(8 * size) == Modulus(size) && Pow2(8 * size - 1) == Modulus(size) / 2
  {
    hide Pow2;
    Pow2Values();
    Pow2Double(8 * size - 1);
  }

  /** The sign bit of an operand, as the flag formulas probe it. */
  lemma SignBit(x: nat, size: Size)
    requires x < Modulus(size)
    ensures Bit(x, 8 * size - 1) == SignSet(x, size)
  {
    ModulusIsPow2(size);
    TopBit(x, 8 * size - 1);
  }

  function Carry(f: Flags): int {
    if f.cf then 1 else 0
  }

  predicate InRange(v: int, half: int) {
    -half <= v < half
  }

  lemma CutSum(v: int, size: Size)
    requires 0 <= v < 2 * Modulus(size)
    ensures v == Cut(v, size) + if v >= Modulus(size) then Modulus(size) else 0
    ensures v / Modulus(size) == if v >= Modulus(size) then 1 else 0
  {
    match size
    case 1 =>
    case 2 =>
    case 4 =>
    case _ =>
  }

  lemma CutDifference(v: int, size: Size)
    requires -Modulus(size) <= v < Modulus(size)
    ensures v == Cut(v, size) - if v < 0 then Modulus(size) else 0
  {
    match size
    case 1 =>
    case 2 =>
    case 4 =>
    case _ =>
  }

  /** The signed reading of an operand, and of a result cut from a sum or difference. */
  lemma SignedReading(v: nat, size: Size)
    ensures SignedOf(v, size) == Cut(v, size) - if SignSet(Cut(v, size), size) then Modulus(size) else 0
  {
  }

  lemma SzpOf(res: nat, size: Size)
    requires res < Modulus(size)
    ensures forall f: Flags :: var g := SetSzp(f, res, size);
              g.cf == f.cf && g.of == f.of && g.zf == (res == 0) && g.sf == SignSet(res, size)
  {
    CutOfCut(res, size);
    hide Cut, Parity, SignSet;
  }

  lemma AddParts(f: Flags, a: nat, b: nat, c: nat, size: Size)
    requires c <= 1
    ensures var r := Add(f, a, b, c, size); var x, y := Cut(a, size), Cut(b, size);
            r.0 == Cut(x + y + c, size) && r.1.cf == (x + y + c >= Modulus(size)) &&
            r.1.of == (SignSet(x, size) == SignSet(y, size) && SignSet(x, size) != SignSet(r.0, size)) &&
            r.1.sf == SignSet(r.0, size)
  {
    hide Bit, Xor, SetSzp, SignSet, Modulus, Cut;
    var x, y := Cut(a, size), Cut(b, size);
    CutSum(x + y + c, size);
    var res := Cut(x + y + c, size);
    XorBit(x, y, 8 * size - 1);
    XorBit(x, res, 8 * size - 1);
    SignBit(x, size);
    SignBit(y, size);
    SignBit(res, size);
    SzpOf(res, size);
  }

  lemma SubParts(f: Flags, a: nat, b: nat, c: nat, size: Size)
    requires c <= 1
    ensures var r := Sub(f, a, b, c, size); var x, y := Cut(a, size), Cut(b, size);
            r.0 == Cut(x - y - c, size) && r.1.cf == (x - y - c < 0) && r.1.zf == (r.0 == 0) &&
            r.1.of == (SignSet(x, size) != SignSet(y, size) && SignSet(x, size) != SignSet(r.0, size)) &&
            r.1.sf == SignSet(r.0, size)
  {
    hide Bit, Xor, SetSzp, SignSet, Modulus, Cut;
    var x, y := Cut(a, size), Cut(b, size);
    var res := Cut(x - y - c, size);
    XorBit(x, y, 8 * size - 1);
    XorBit(x, res, 8 * size - 1);
    SignBit(x, size);
    SignBit(y, size);
    SignBit(res, size);
    SzpOf(res, size);
  }

  lemma CutOfCut(v: nat, size: Size)
    requires v < Modulus(size)
    ensures Cut(v, size) == v
  {
  }

  /** ADD and ADC: CF is the carry out, OF a signed result out of range, and SF with OF
      gives the sign of the exact sum. */
  lemma AddFlags(f: Flags, a: nat, b: nat, c: nat, size: Size)
    requires c <= 1
    ensures var r := Add(f, a, b, c, size); var s := SignedOf(a, size) + SignedOf(b, size) + c;
            Cut(a, size) + Cut(b, size) + c == r.0 + Carry(r.1) * Modulus(size) &&
            r.0 < Modulus(size) &&
            r.1.of == !InRange(s, Modulus(size) / 2) && (r.1.sf != r.1.of) == (s < 0)
  {
    hide Add, Cut, SignedOf, Modulus;
    AddParts(f, a, b, c, size);
    CutSum(Cut(a, size) + Cut(b, size) + c, size);
    SignedReading(a, size);
    SignedReading(b, size);
  }

  /** SUB, SBB and CMP, likewise. */
  lemma SubFlags(f: Flags, a: nat, b: nat, c: nat, size: Size)
    requires c <= 1
    ensures var r := Sub(f, a, b, c, size); var s := SignedOf(a, size) - SignedOf(b, size) - c;
            Cut(a, size) - Cut(b, size) - c == r.0 - Carry(r.1) * Modulus(size) &&
            r.0 < Modulus(size) && r.1.zf == (r.0 == 0) &&
            r.1.of == !InRange(s, Modulus(size) / 2) && (r.1.sf != r.1.of) == (s < 0)
  {
    hide Sub, Cut, SignedOf, Modulus;
    SubParts(f, a, b, c, size);
    CutDifference(Cut(a, size) - Cut(b, size) - c, size);
    SignedReading(a, size);
    SignedReading(b, size);
  }

  // ---- Conditions after a comparison ----

  /** After CMP (or SUB), the condition codes decide equality, unsigned and signed order. */
  lemma CompareDecides(f: Flags, a: nat, b: nat, size: Size)
    ensures var g := DoAlu(f, 7, a, b, size).1;
            var x, y := Cut(a, size), Cut(b, size);
            var s, t := SignedOf(a, size), SignedOf(b, size);
            (Cond(g, 0x4) <==> x == y) && (Cond(g, 0x5) <==> x != y) &&
            (Cond(g, 0x2) <==> x < y) && (Cond(g, 0x3) <==> x >= y) &&
            (Cond(g, 0x6) <==> x <= y) && (Cond(g, 0x7) <==> x > y) &&
            (Cond(g, 0xC) <==> s < t) && (Cond(g, 0xD) <==> s >= t) &&
            (Cond(g, 0xE) <==> s <= t) && (Cond(g, 0xF) <==> s > t)
  {
    hide Sub, Cut, SignedOf, Modulus;
    SubFlags(f, a, b, 0, size);
    SameReading(a, b, size);
  }

  lemma SameReading(a: nat, b: nat, size: Size)
    ensures Cut(a, size) == Cut(b, size) <==> SignedOf(a, size) == SignedOf(b, size)
  {
    hide Cut, Modulus;
  }

  // ---- Chains ----

  type Limbs = seq<u64>

  /** The same operation limb after limb, lowest first, the carry flag handed on. */
  function Chain(f: Flags, op: byte, xs: Limbs, ys: Limbs, size: Size): (Limbs, Flags)
    requires |xs| == |ys|
    decreases |xs|
  {
    hide DoAlu;
    if xs == [] then ([], f)
    else
      var first := DoAlu(f, op, xs[0], ys[0], size);
      var rest := Chain(first.1, op, xs[1..], ys[1..], size);
      ([first.0] + rest.0, rest.1)
  }

  function Value(xs: Limbs, size: Size): nat {
    if xs == [] then 0 else Cut(xs[0], size) + Modulus(size) * Value(xs[1..], size)
  }

  /** Modulus to the number of limbs */
  function Base(size: Size, n: nat): (b: nat)
    ensures b > 0
  {
    if n == 0 then 1 else Modulus(size) * Base(size, n - 1)
  }

  function Half(size: Size, n: nat): (h: nat)
    requires n > 0
    ensures h > 0
  {
    if n == 1 then Modulus(size) / 2 else Modulus(size) * Half(size, n - 1)
  }

  /** The limbs as one two's complement number: only the top limb is signed. */
  function SignedValue(xs: Limbs, size: Size): int
    requires xs != []
  {
    if |xs| == 1 then SignedOf(xs[0], size) else Cut(xs[0], size) + Modulus(size) * SignedValue(xs[1..], size)
  }

  lemma {:induction false} ValueBelowBase(xs: Limbs, size: Size)
    ensures Value(xs, size) < Base(size, |xs|)
  {
    if xs != [] {
      ValueBelowBase(xs[1..], size);
      var m, v, b := Modulus(size), Value(xs[1..], size), Base(size, |xs| - 1);
      assert m * v <= m * (b - 1) && m * (b - 1) == m * b - m;
    }
  }

  lemma {:induction false} HalfOfBase(size: Size, n: nat)
    requires n > 0
    ensures 2 * Half(size, n) == Base(size, n)
  {
    if n > 1 {
      HalfOfBase(size, n - 1);
      var m, h := Modulus(size), Half(size, n - 1);
      assert 2 * (m * h) == m * (2 * h);
    } else {
      assert Base(size, 0) == 1;
    }
  }

  lemma BelowMultiple(m: int, r: int, d: int, h: int)
    requires m > 0 && 0 <= r < m
    ensures (r + m * d < 0) == (d < 0)
    ensures (r + m * d < m * h) == (d < h) && (r + m * d >= -(m * h)) == (d >= -h)
    ensures InRange(r + m * d, m * h) == InRange(d, h)
  {
    MulBelow(m, d);
    var u, l := d - h, d + h;
    assert m * u == m * d - m * h && m * l == m * d + m * h;
    MulBelow(m, u);
    MulBelow(m, l);
  }

  /** Two's complement: half the range up, the value is its unsigned reading less the base. */
  lemma {:induction false} SignedIsTwosComplement(xs: Limbs, size: Size)
    requires xs != []
    ensures SignedValue(xs, size) ==
      Value(xs, size) - if Value(xs, size) >= Half(size, |xs|) then Base(size, |xs|) else 0
  {
    var m := Modulus(size);
    if |xs| == 1 {
      assert Value(xs[1..], size) == 0 && Base(size, 0) == 1;
    } else {
      var t := xs[1..];
      SignedIsTwosComplement(t, size);
      BelowMultiple(m, Cut(xs[0], size), Value(t, size), Half(size, |t|));
      assert m * (Value(t, size) - Base(size, |t|)) == m * Value(t, size) - m * Base(size, |t|);
    }
  }

  /** An ADC chain over any number of limbs adds exactly, the last carry included. */
  lemma {:induction false} AdcChainAdds(f: Flags, xs: Limbs, ys: Limbs, size: Size)
    requires |xs| == |ys|
    ensures var r := Chain(f, 2, xs, ys, size);
            |r.0| == |xs| && Value(r.0, size) + Carry(r.1) * Base(size, |xs|) ==
            Value(xs, size) + Value(ys, size) + Carry(f)
    decreases |xs|
  {
    hide Add, Sub, Logic, Or, And, Xor;
    if xs != [] {
      var m := Modulus(size);
      var first := DoAlu(f, 2, xs[0], ys[0], size);
      var rest := Chain(first.1, 2, xs[1..], ys[1..], size);
      AddFlags(f, xs[0], ys[0], Carry(f), size);
      AdcChainAdds(first.1, xs[1..], ys[1..], size);
      assert ([first.0] + rest.0)[1..] == rest.0;
      LimbStep(m, Cut(xs[0], size) + Cut(ys[0], size) + Carry(f), first.0, Carry(first.1),
        Value(xs[1..], size), Value(ys[1..], size), Value(rest.0, size), Carry(rest.1), Base(size, |xs| - 1));
      CutOfCut(first.0, size);
    }
  }

  lemma LimbStep(m: int, sum: int, r: int, c: int, x: int, y: int, z: int, k: int, b: int)
    requires sum == r + c * m && z + k * b == x + y + c && (k == 0 || k == 1) && (c == 0 || c == 1)
    ensures (r + m * z) + k * (m * b) == sum + m * x + m * y
  {
    assert m * (z + k * b) == m * (x + y + c);
    assert m * (x + y + c) == m * x + m * y + m * c;
    assert m * (z + k * b) == m * z + m * (k * b);
    assert m * (k * b) == k * (m * b);
  }

  /** An SBB chain subtracts exactly, and what its last limb leaves in the flags is about
      the whole numbers: CF borrows, OF is signed overflow, SF against OF the sign. */
  lemma {:induction false} SbbChainSubtracts(f: Flags, xs: Limbs, ys: Limbs, size: Size)
    requires |xs| == |ys|
    ensures var r := Chain(f, 3, xs, ys, size);
            |r.0| == |xs| && Value(r.0, size) - Carry(r.1) * Base(size, |xs|) ==
            Value(xs, size) - Value(ys, size) - Carry(f)
    decreases |xs|
  {
    hide Add, Sub, Logic, Or, And, Xor;
    if xs != [] {
      var m := Modulus(size);
      var first := DoAlu(f, 3, xs[0], ys[0], size);
      var rest := Chain(first.1, 3, xs[1..], ys[1..], size);
      SubFlags(f, xs[0], ys[0], Carry(f), size);
      SbbChainSubtracts(first.1, xs[1..], ys[1..], size);
      assert ([first.0] + rest.0)[1..] == rest.0;
      BorrowStep(m, Cut(xs[0], size) - Cut(ys[0], size) - Carry(f), first.0, Carry(first.1),
        Value(xs[1..], size), Value(ys[1..], size), Value(rest.0, size), Carry(rest.1), Base(size, |xs| - 1));
      CutOfCut(first.0, size);
    }
  }

  lemma BorrowStep(m: int, diff: int, r: int, c: int, x: int, y: int, z: int, k: int, b: int)
    requires diff == r - c * m && z - k * b == x - y - c && (k == 0 || k == 1) && (c == 0 || c == 1)
    ensures (r + m * z) - k * (m * b) == diff + m * x - m * y
  {
    assert m * (z - k * b) == m * (x - y - c);
    assert m * (x - y - c) == m * x - m * y - m * c;
    assert m * (z - k * b) == m * z - m * (k * b);
    assert m * (k * b) == k * (m * b);
  }

  lemma ChainOfOne(f: Flags, op: byte, xs: Limbs, ys: Limbs, size: Size)
    requires |xs| == |ys| == 1
    ensures Chain(f, op, xs, ys, size).1 == DoAlu(f, op, xs[0], ys[0], size).1
  {
    hide DoAlu;
  }

  lemma One(xs: Limbs, size: Size)
    requires |xs| == 1
    ensures SignedValue(xs, size) == SignedOf(xs[0], size) && Half(size, 1) == Modulus(size) / 2
  {
  }

  lemma Split(xs: Limbs, size: Size)
    requires |xs| > 1
    ensures SignedValue(xs, size) == Cut(xs[0], size) + Modulus(size) * SignedValue(xs[1..], size)
    ensures Half(size, |xs|) == Modulus(size) * Half(size, |xs| - 1)
  {
    hide Cut, Modulus;
  }

  lemma Negate(m: int, y: int)
    ensures m * -y == -(m * y)
  {
  }

  /** One limb under the rest: c is carried into, or borrowed from, the sum above. */
  lemma SignStep(m: int, low: int, r: int, c: int, x: int, y: int, h: int)
    requires m > 0 && 0 <= r < m && low == r + c * m
    ensures (low + m * x + m * y < 0) == (x + y + c < 0)
    ensures InRange(low + m * x + m * y, m * h) == InRange(x + y + c, h)
  {
    hide InRange;
    BelowMultiple(m, r, x + y + c, h);
    assert m * (x + y + c) == m * x + m * y + m * c;
  }

  lemma SbbLimb(f: Flags, a: u64, b: u64, size: Size)
    ensures var r := DoAlu(f, 3, a, b, size); var s := SignedOf(a, size) - SignedOf(b, size) - Carry(f);
            Cut(a, size) - Cut(b, size) - Carry(f) == r.0 - Carry(r.1) * Modulus(size) &&
            r.0 < Modulus(size) &&
            r.1.of == !InRange(s, Modulus(size) / 2) && (r.1.sf != r.1.of) == (s < 0)
  {
    SubFlags(f, a, b, Carry(f), size);
    hide Sub, Cut, SignedOf, Modulus;
  }

  lemma AdcLimb(f: Flags, a: u64, b: u64, size: Size)
    ensures var r := DoAlu(f, 2, a, b, size); var s := SignedOf(a, size) + SignedOf(b, size) + Carry(f);
            Cut(a, size) + Cut(b, size) + Carry(f) == r.0 + Carry(r.1) * Modulus(size) &&
            r.0 < Modulus(size) &&
            r.1.of == !InRange(s, Modulus(size) / 2) && (r.1.sf != r.1.of) == (s < 0)
  {
    AddFlags(f, a, b, Carry(f), size);
    hide Add, Cut, SignedOf, Modulus;
  }

  lemma {:induction false} SbbChainSign(f: Flags, xs: Limbs, ys: Limbs, size: Size)
    requires |xs| == |ys| && xs != []
    ensures var g := Chain(f, 3, xs, ys, size).1;
            var s := SignedValue(xs, size) - SignedValue(ys, size) - Carry(f);
            (g.sf != g.of) == (s < 0) && g.of == !InRange(s, Half(size, |xs|))
    decreases |xs|
  {
    hide DoAlu, SignedOf, Cut, Modulus;
    SbbLimb(f, xs[0], ys[0], size);
    var first := DoAlu(f, 3, xs[0], ys[0], size);
    hide Carry, InRange, Half, SignedValue;
    if |xs| == 1 {
      ChainOfOne(f, 3, xs, ys, size);
      One(xs, size);
      One(ys, size);
    } else {
      SbbChainSign(first.1, xs[1..], ys[1..], size);
      Split(xs, size);
      Split(ys, size);
      SignStep(Modulus(size), Cut(xs[0], size) - Cut(ys[0], size) - Carry(f), first.0, -Carry(first.1),
        SignedValue(xs[1..], size), -SignedValue(ys[1..], size), Half(size, |xs| - 1));
      Negate(Modulus(size), SignedValue(ys[1..], size));
      assert Chain(f, 3, xs, ys, size).1 == Chain(first.1, 3, xs[1..], ys[1..], size).1;
    }
  }

  lemma {:induction false} AdcChainSign(f: Flags, xs: Limbs, ys: Limbs, size: Size)
    requires |xs| == |ys| && xs != []
    ensures var g := Chain(f, 2, xs, ys, size).1;
            var s := SignedValue(xs, size) + SignedValue(ys, size) + Carry(f);
            (g.sf != g.of) == (s < 0) && g.of == !InRange(s, Half(size, |xs|))
    decreases |xs|
  {
    hide DoAlu, SignedOf, Cut, Modulus;
    AdcLimb(f, xs[0], ys[0], size);
    var first := DoAlu(f, 2, xs[0], ys[0], size);
    hide Carry, InRange, Half, SignedValue;
    if |xs| == 1 {
      ChainOfOne(f, 2, xs, ys, size);
      One(xs, size);
      One(ys, size);
    } else {
      AdcChainSign(first.1, xs[1..], ys[1..], size);
      Split(xs, size);
      Split(ys, size);
      SignStep(Modulus(size), Cut(xs[0], size) + Cut(ys[0], size) + Carry(f), first.0, Carry(first.1),
        SignedValue(xs[1..], size), SignedValue(ys[1..], size), Half(size, |xs| - 1));
      assert Chain(f, 2, xs, ys, size).1 == Chain(first.1, 2, xs[1..], ys[1..], size).1;
    }
  }

  lemma SubIsSbb(f: Flags, a: u64, b: u64, size: Size)
    ensures DoAlu(f, 5, a, b, size) == DoAlu(f.(cf := false), 3, a, b, size)
  {
    hide Cut, Modulus, Xor, Bit, Parity;
  }

  /** The flags after SUB on the lowest limb and SBB on the rest: JB and JAE compare the
      whole numbers unsigned, JL and JGE compare them signed. */
  lemma LimbsCompare(f: Flags, xs: Limbs, ys: Limbs, size: Size)
    requires |xs| == |ys| && xs != []
    ensures var first := DoAlu(f, 5, xs[0], ys[0], size);
            var g := Chain(first.1, 3, xs[1..], ys[1..], size).1;
            (Cond(g, 0x2) <==> Value(xs, size) < Value(ys, size)) &&
            (Cond(g, 0x3) <==> Value(xs, size) >= Value(ys, size)) &&
            (Cond(g, 0xC) <==> SignedValue(xs, size) < SignedValue(ys, size)) &&
            (Cond(g, 0xD) <==> SignedValue(xs, size) >= SignedValue(ys, size))
  {
    hide DoAlu, SignedValue, Base, Value, Modulus;
    var clear := f.(cf := false);
    SubIsSbb(f, xs[0], ys[0], size);
    var r := Chain(clear, 3, xs, ys, size);
    SbbChainSubtracts(clear, xs, ys, size);
    SbbChainSign(clear, xs, ys, size);
    ValueBelowBase(r.0, size);
    assert r.1 == Chain(DoAlu(clear, 3, xs[0], ys[0], size).1, 3, xs[1..], ys[1..], size).1;
    hide Chain;
  }
}
