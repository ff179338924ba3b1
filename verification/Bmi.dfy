/** PEXT and PDEP: the accumulator loops, the halving functions they compute, and how
    the two undo each other. */
module Bmi {
  import opened Words
  import opened BitOps
  import opened CpuModel
  import opened Alu
  import MultiLimb

  /** The bits of v under the ones of m, packed together. */
  function Pext(v: nat, m: nat): nat {
    if m == 0 then 0
    else if m % 2 == 1 then v % 2 + 2 * Pext(v / 2, m / 2)
    else Pext(v / 2, m / 2)
  }

  /** The low bits of v spread over the ones of m. */
  function Pdep(v: nat, m: nat): nat
    decreases m
  {
    if m == 0 then 0
    else if m % 2 == 1 then v % 2 + 2 * Pdep(v / 2, m / 2)
    else 2 * Pdep(v, m / 2)
  }

  // ---- The loops ----

  lemma {:induction false} OrNewBit(res: nat, k: nat)
    requires res < Pow2(k)
    ensures Or(res, Shl(1, k)) == res + Pow2(k) && Shl(1, k) == Pow2(k)
  {
    if k > 0 {
      OrNewBit(res / 2, k - 1);
    }
  }

  lemma {:induction false} ShrNext(x: nat, i: nat)
    ensures Shr(x, i + 1) == Shr(x, i) / 2 && Bit(x, i) == (Shr(x, i) % 2 == 1)
  {
    if i > 0 {
      ShrNext(x / 2, i - 1);
    }
  }

  lemma {:induction false} ShrToZero(x: nat, n: nat)
    requires x < Pow2(n)
    ensures Shr(x, n) == 0
  {
    if n > 0 {
      ShrToZero(x / 2, n - 1);
    }
  }

  lemma DoubleProduct(p: nat, x: nat)
    ensures p * (2 * x) == (2 * p) * x && p * (1 + 2 * x) == p + (2 * p) * x && p * 0 == 0
  {
  }

  /** The loop of PEXT over an operand of `opbits` bits */
  method PextLoop(val: nat, mask: nat, opbits: nat) returns (res: nat)
    requires mask < Pow2(opbits)
    ensures res == Pext(val, mask)
  {
    res := 0;
    var k := 0;
    for i := 0 to opbits
      invariant k <= i && res < Pow2(k)
      invariant Pext(val, mask) == res + Pow2(k) * Pext(Shr(val, i), Shr(mask, i))
    {
      ShrNext(mask, i);
      ShrNext(val, i);
      DoubleProduct(Pow2(k), Pext(Shr(val, i + 1), Shr(mask, i + 1)));
      OrNewBit(res, k);
      if Bit(mask, i) {
        if Bit(val, i) {
          res := Or(res, Shl(1, k));
        }
        k := k + 1;
      }
    }
    ShrToZero(mask, opbits);
  }

  /** The loop of PDEP */
  method PdepLoop(val: nat, mask: nat, opbits: nat) returns (res: nat)
    requires mask < Pow2(opbits)
    ensures res == Pdep(val, mask)
  {
    res := 0;
    var k := 0;
    for i := 0 to opbits
      invariant k <= i && res < Pow2(i)
      invariant Pdep(val, mask) == res + Pow2(i) * Pdep(Shr(val, k), Shr(mask, i))
    {
      ShrNext(mask, i);
      ShrNext(val, k);
      DoubleProduct(Pow2(i), Pdep(Shr(val, k + 1), Shr(mask, i + 1)));
      DoubleProduct(Pow2(i), Pdep(Shr(val, k), Shr(mask, i + 1)));
      OrNewBit(res, i);
      if Bit(mask, i) {
        if Bit(val, k) {
          res := Or(res, Shl(1, i));
        }
        k := k + 1;
      }
    }
    ShrToZero(mask, opbits);
  }

  // ---- They undo each other ----

  /** Depositing and extracting under one mask keeps as many low bits as the mask has ones. */
  lemma {:induction false} ExtractDeposited(v: nat, m: nat)
    ensures Pext(Pdep(v, m), m) == Low(v, CountOnes(m))
    decreases m
  {
    if m == 0 {
    } else if m % 2 == 1 {
      ExtractDeposited(v / 2, m / 2);
    } else {
      ExtractDeposited(v, m / 2);
    }
  }

  /** Extracting and depositing under one mask keeps the bits under the mask. */
  lemma {:induction false} DepositExtracted(v: nat, m: nat)
    ensures Pdep(Pext(v, m), m) == And(v, m)
    decreases m
  {
    if m == 0 {
      AndZero(v);
    } else if v == 0 {
      DepositExtracted(0, m / 2);
    } else {
      DepositExtracted(v / 2, m / 2);
    }
  }

  lemma {:induction false} AndZero(v: nat)
    ensures And(v, 0) == 0
  {
    if v > 0 {
      AndZero(v / 2);
    }
  }

  /** PDEP sets no bit outside the mask. */
  lemma {:induction false} DepositStaysInside(v: nat, m: nat, i: nat)
    ensures Bit(Pdep(v, m), i) ==> Bit(m, i)
    decreases m
  {
    if m == 0 {
      ZeroBit(i);
    } else if i > 0 {
      DepositStaysInside(if m % 2 == 1 then v / 2 else v, m / 2, i - 1);
    }
  }

  /** The number of ones of m below position i. */
  function Rank(m: nat, i: nat): nat {
    if i == 0 then 0 else m % 2 + Rank(m / 2, i - 1)
  }

  /** Bit by bit: the mask's one at position i carries bit i of v into the bit of its rank. */
  lemma {:induction false} ExtractBit(v: nat, m: nat, i: nat)
    requires Bit(m, i)
    ensures Bit(Pext(v, m), Rank(m, i)) == Bit(v, i)
    decreases i
  {
    if m == 0 {
      ZeroBit(i);
    } else if i > 0 {
      ExtractBit(v / 2, m / 2, i - 1);
    }
  }

  lemma {:induction false} DepositBit(v: nat, m: nat, i: nat)
    requires Bit(m, i)
    ensures Bit(Pdep(v, m), i) == Bit(v, Rank(m, i))
    decreases i
  {
    if m == 0 {
      ZeroBit(i);
    } else if i > 0 {
      DepositBit(if m % 2 == 1 then v / 2 else v, m / 2, i - 1);
    }
  }

  lemma {:induction false} ExtractIsShort(v: nat, m: nat)
    ensures Pext(v, m) < Pow2(CountOnes(m))
  {
    if m > 0 {
      ExtractIsShort(v / 2, m / 2);
    }
  }

  lemma {:induction false} DepositFits(v: nat, m: nat)
    ensures Pdep(v, m) <= m
    decreases m
  {
    if m > 0 {
      DepositFits(if m % 2 == 1 then v / 2 else v, m / 2);
    }
  }

  lemma {:induction false} ExtractFits(v: nat, m: nat)
    ensures Pext(v, m) <= m
  {
    if m > 0 {
      ExtractFits(v / 2, m / 2);
    }
  }

  // ---- The instruction ----

  /** `bmi_f5` on operands already read: PEXT for prefix F3, PDEP for F2. Both are cut to
      the operand size first, and so is the result. */
  method BmiF5(size: Size, deposit: bool, val: nat, mask: nat) returns (res: u64)
    requires size == 4 || size == 8
    ensures res == if deposit then Pdep(Cut(val, size), Cut(mask, size)) else Pext(Cut(val, size), Cut(mask, size))
  {
    hide Cut;
    var v, m := Cut(val, size), Cut(mask, size);
    MultiLimb.ModulusIsPow2(size);
    ExtractFits(v, m);
    DepositFits(v, m);
    var r;
    if deposit {
      r := PdepLoop(v, m, 8 * size);
    } else {
      r := PextLoop(v, m, 8 * size);
    }
    MultiLimb.CutOfCut(r, size);
    res := Cut(r, size);
  }

  /** BZHI, the third instruction of `bmi_f5`: the bits below the index stay, the others are
      cleared. CF says that the index was past the operand, ZF that no bit below it was set,
      SF that the top bit stayed; OF is cleared, and the other flags are kept. */
  method Bzhi(size: Size, val: nat, index: nat, f: Flags) returns (res: u64, g: Flags)
    requires size == 4 || size == 8
    ensures forall i: nat :: Bit(res, i) <==> i < index % 0x100 && Bit(Cut(val, size), i)
    ensures g == f.(cf := g.cf, zf := g.zf, sf := g.sf, of := false)
    ensures g.cf <==> index % 0x100 >= 8 * size
    ensures g.zf <==> NoBitBelow(Cut(val, size), index % 0x100)
    ensures g.sf <==> g.cf && Bit(Cut(val, size), 8 * size - 1)
  {
    hide Cut, Bit, Low, SignSet;
    var src, idx := Cut(val, size), index % 0x100;
    MultiLimb.ModulusIsPow2(size);
    if idx >= 8 * size {
      res := src;
      forall i: nat | i >= idx
        ensures !Bit(src, i)
      {
        HighBitsClear(src, 8 * size, i);
      }
    } else {
      LowStays(src, idx);
      res := Low(src, idx);
      forall i: nat
        ensures Bit(res, i) <==> i < idx && Bit(src, i)
      {
        LowBit(src, idx, i);
      }
    }
    ZeroHasNoBits(res, size);
    assert res == 0 <==> NoBitBelow(src, idx);
    MultiLimb.SignBit(res, size);
    g := f.(cf := idx >= 8 * size, sf := SignSet(res, size), zf := res == 0, of := false);
  }

  ghost predicate NoBitBelow(x: nat, n: nat) {
    forall i: nat :: i < n ==> !Bit(x, i)
  }

  lemma ZeroHasNoBits(x: u64, size: Size)
    requires x < Modulus(size)
    ensures x == 0 ==> forall i: nat :: !Bit(x, i)
    ensures (forall i: nat :: !Bit(x, i)) ==> x == 0
  {
    hide Bit, Pow2;
    MultiLimb.ModulusIsPow2(size);
    forall i: nat
      ensures !Bit(0, i)
    {
      ZeroBit(i);
    }
    if x != 0 && forall i: nat :: !Bit(x, i) {
      SameBits(x, 0, 8 * size);
    }
  }

  lemma {:induction false} LowStays(x: nat, n: nat)
    ensures Low(x, n) <= x
  {
    if n > 0 {
      LowStays(x / 2, n - 1);
    }
  }
}
