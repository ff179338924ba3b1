/** Rotation through the carry flag: the bit-at-a-time loop is a rotation of the word that
    CF forms with the operand, one bit longer than the operand. */
module Rotate {
  import opened Words
  import opened BitOps
  import opened CpuModel
  import opened Alu
  import MultiLimb
  import Bmi

  /** CF above an operand of n bits */
  function Word(v: nat, cf: bool, n: nat): nat {
    v + if cf then Pow2(n) else 0
  }

  /** One step to the left of a word of n + 1 bits. */
  function Left(w: nat, n: nat): nat {
    2 * Low(w, n) + if Bit(w, n) then 1 else 0
  }

  function Right(w: nat, n: nat): nat {
    w / 2 + if w % 2 == 1 then Pow2(n) else 0
  }

  function Step(left: bool, w: nat, n: nat): nat {
    if left then Left(w, n) else Right(w, n)
  }

  function Turn(left: bool, w: nat, n: nat, count: nat): nat {
    if count == 0 then w else Step(left, Turn(left, w, n, count - 1), n)
  }

  // ---- Steps move bits ----

  lemma {:induction false} TopAdded(x: nat, n: nat, i: nat)
    requires x < Pow2(n)
    ensures Bit(x + Pow2(n), i) == (i == n || Bit(x, i))
  {
    if n == 0 {
      ZeroBit(i);
      if i > 0 {
        ZeroBit(i - 1);
      }
    } else if i > 0 {
      TopAdded(x / 2, n - 1, i - 1);
    }
  }

  lemma LeftBits(w: nat, n: nat, i: nat)
    requires w < Pow2(n + 1) && i <= n
    ensures Left(w, n) < Pow2(n + 1)
    ensures Bit(Left(w, n), i) == Bit(w, if i == 0 then n else i - 1)
  {
    LowBound(w, n);
    if i > 0 {
      assert Left(w, n) / 2 == Low(w, n);
      LowBit(w, n, i - 1);
    }
  }

  lemma RightBits(w: nat, n: nat, i: nat)
    requires w < Pow2(n + 1) && i <= n
    ensures Right(w, n) < Pow2(n + 1)
    ensures Bit(Right(w, n), i) == Bit(w, if i == n then 0 else i + 1)
  {
    TopAdded(w / 2, n, i);
    HighBitsClear(w / 2, n, n);
  }

  /** Where the bit at position i comes from after `count` steps. */
  function Origin(left: bool, i: int, n: nat, count: int): int {
    if left then (i - count) % (n + 1) else (i + count) % (n + 1)
  }

  /** Turning by any count is rotation by that count modulo the word's length. */
  lemma {:induction false} TurnRotates(left: bool, w: nat, n: nat, count: nat, i: nat)
    requires w < Pow2(n + 1) && i <= n
    ensures Turn(left, w, n, count) < Pow2(n + 1)
    ensures Bit(Turn(left, w, n, count), i) == Bit(w, Origin(left, i, n, count))
  {
    if count == 0 {
      assert i % (n + 1) == i;
    } else {
      var from := if left then (if i == 0 then n else i - 1) else if i == n then 0 else i + 1;
      TurnRotates(left, w, n, count - 1, from);
      var t := Turn(left, w, n, count - 1);
      LeftBits(t, n, i);
      RightBits(t, n, i);
      OriginStep(left, i, from, n, count);
    }
  }

  lemma OriginStep(left: bool, i: nat, from: nat, n: nat, count: nat)
    requires i <= n && count > 0
    requires from == if left then (if i == 0 then n else i - 1) else if i == n then 0 else i + 1
    ensures Origin(left, from, n, count - 1) == Origin(left, i, n, count)
  {
    var m := n + 1;
    var a := if left then i - count else i + count;
    var b := if left then from - (count - 1) else from + (count - 1);
    var wrap := if left then (if i == 0 then 1 else 0) else if i == n then -1 else 0;
    assert b == a + m * wrap;
    ModUnique(m, b / m - wrap, b % m, a) by { assert m * (b / m - wrap) == m * (b / m) - m * wrap; }
  }

  /** Only the count modulo the word's length matters. */
  lemma TurnIsPeriodic(left: bool, w: nat, n: nat, count: nat)
    requires w < Pow2(n + 1)
    ensures Turn(left, w, n, count) == Turn(left, w, n, count % (n + 1))
  {
    hide Turn, Bit, Origin, Pow2;
    var m := n + 1;
    var r := count % m;
    TurnRotates(left, w, n, count, 0);
    TurnRotates(left, w, n, r, 0);
    forall i | 0 <= i < m
      ensures Bit(Turn(left, w, n, count), i) == Bit(Turn(left, w, n, r), i)
    {
      TurnRotates(left, w, n, count, i);
      TurnRotates(left, w, n, r, i);
      SameOrigin(left, i, n, count);
    }
    SameBits(Turn(left, w, n, count), Turn(left, w, n, r), m);
  }

  lemma SameOrigin(left: bool, i: nat, n: nat, count: nat)
    ensures Origin(left, i, n, count) == Origin(left, i, n, count % (n + 1))
  {
    var m := n + 1;
    var q, r := count / m, count % m;
    assert count == m * q + r;
    var b := if left then i - r else i + r;
    var s := if left then -q else q;
    assert m * s == if left then -(m * q) else m * q;
    assert m * (b / m + s) == m * (b / m) + m * s;
    ModUnique(m, b / m + s, b % m, b + m * s);
  }

  lemma StepsCancel(left: bool, w: nat, n: nat)
    requires w < Pow2(n + 1)
    ensures Step(!left, Step(left, w, n), n) == w
  {
    var t := Step(left, w, n);
    LeftBits(w, n, 0);
    RightBits(w, n, 0);
    LeftBits(t, n, 0);
    RightBits(t, n, 0);
    forall i | 0 <= i < n + 1
      ensures Bit(Step(!left, t, n), i) == Bit(w, i)
    {
      LeftBits(w, n, i);
      RightBits(w, n, i);
      LeftBits(t, n, i);
      RightBits(t, n, i);
      var from := if left then (if i == n then 0 else i + 1) else if i == 0 then n else i - 1;
      LeftBits(w, n, from);
      RightBits(w, n, from);
    }
    SameBits(Step(!left, t, n), w, n + 1);
  }

  lemma {:induction false} TurnInside(left: bool, w: nat, n: nat, count: nat)
    requires w < Pow2(n + 1)
    ensures count > 0 ==> Turn(left, w, n, count) == Turn(left, Step(left, w, n), n, count - 1)
    ensures Turn(left, w, n, count) < Pow2(n + 1)
  {
    if count > 1 {
      TurnInside(left, w, n, count - 1);
    }
    TurnRotates(left, w, n, count, 0);
  }

  /** Turning one way and then the other by the same count restores the word. */
  lemma {:induction false} TurnsCancel(left: bool, w: nat, n: nat, count: nat)
    requires w < Pow2(n + 1)
    ensures Turn(!left, Turn(left, w, n, count), n, count) == w
  {
    if count > 0 {
      var t := Turn(left, w, n, count - 1);
      TurnInside(left, w, n, count - 1);
      TurnInside(left, w, n, count);
      TurnInside(!left, Step(left, t, n), n, count);
      StepsCancel(left, t, n);
      TurnsCancel(left, w, n, count - 1);
    }
  }

  // ---- The instruction ----

  /** One more than the mask on a rotate count */
  function CountMask(size: Size): (m: nat)
    ensures m > 0
  {
    if size == 8 then 0x40 else 0x20
  }

  /** OF is only defined for a single step. */
  function OneStepOf(left: bool, res: nat, cf: bool, size: Size): bool {
    var msb := SignSet(res, size);
    if left then msb != cf else msb != Bit(res, 8 * size - 2)
  }

  function RotateFlags(f: Flags, left: bool, res: nat, cf: bool, c: nat, size: Size): Flags {
    f.(cf := cf, of := if c == 1 then OneStepOf(left, res, cf, size) else f.of)
  }

  /** RCL and RCR as rotation of CF:value by the masked count. */
  function RotateCarry(f: Flags, left: bool, val: nat, count: nat, size: Size): (nat, Flags) {
    var c := count % CountMask(size);
    if c == 0 then (Cut(val, size), f)
    else
      var n := 8 * size;
      var w := Turn(left, Word(Cut(val, size), f.cf, n), n, c);
      (Low(w, n), RotateFlags(f, left, Low(w, n), Bit(w, n), c, size))
  }

  lemma WordParts(v: nat, cf: bool, n: nat)
    requires v < Pow2(n)
    ensures Word(v, cf, n) < Pow2(n + 1) && Bit(Word(v, cf, n), n) == cf && Low(Word(v, cf, n), n) == v
  {
    TopAdded(v, n, n);
    HighBitsClear(v, n, n);
    LowOfTop(v, n);
    LowBound(v, n);
  }

  lemma {:induction false} LowOfTop(v: nat, n: nat)
    requires v < Pow2(n)
    ensures Low(v + Pow2(n), n) == v
  {
    if n > 0 {
      LowOfTop(v / 2, n - 1);
    }
  }

  lemma {:induction false} WordOfParts(w: nat, n: nat)
    requires w < Pow2(n + 1)
    ensures w == Word(Low(w, n), Bit(w, n), n)
  {
    if n > 0 {
      WordOfParts(w / 2, n - 1);
    }
  }

  /** One turn of the loop, left: the operand's top bit moves to CF and CF into bit 0. */
  lemma LoopLeft(res: nat, cf: bool, n: nat, next: nat)
    requires n > 0 && res < Pow2(n)
    requires next == Or(Shl(res, 1), if cf then 1 else 0) % Pow2(n)
    ensures next < Pow2(n) && Word(next, Bit(res, n - 1), n) == Left(Word(res, cf, n), n)
  {
    WordParts(res, cf, n);
    assert Shl(res, 1) == 2 * res;
    OrLowBit(res, if cf then 1 else 0);
    MultiLimb.TopBit(res, n - 1);
    var p, x := Pow2(n), 2 * res + if cf then 1 else 0;
    ModUnique(p, if x >= p then 1 else 0, if x >= p then x - p else x, x);
  }

  lemma OrLowBit(res: nat, c: nat)
    requires c <= 1
    ensures Or(2 * res, c) == 2 * res + c
  {
    assert c / 2 == 0 && (2 * res) / 2 == res;
    OrZero(res);
  }

  lemma {:induction false} ShlZero(k: nat)
    ensures Shl(0, k) == 0
  {
    if k > 0 {
      ShlZero(k - 1);
    }
  }

  /** And right: CF moves into the top bit and bit 0 into CF. */
  lemma LoopRight(res: nat, cf: bool, n: nat, next: nat)
    requires n > 0 && res < Pow2(n)
    requires next == Or(Shr(res, 1), Shl(if cf then 1 else 0, n - 1))
    ensures next < Pow2(n) && Word(next, res % 2 == 1, n) == Right(Word(res, cf, n), n)
  {
    ShrOne(res);
    hide Or, Shl, Shr;
    assert Pow2(n) == 2 * Pow2(n - 1);
    hide Pow2;
    if cf {
      Bmi.OrNewBit(res / 2, n - 1);
    } else {
      ShlZero(n - 1);
      OrZero(res / 2);
    }
  }

  lemma ShrOne(res: nat)
    ensures Shr(res, 1) == res / 2
  {
  }

  /** The loop of RCL and RCR. */
  method TurnLoop(left: bool, v: nat, carry: bool, count: nat, size: Size) returns (res: nat, cf: bool)
    requires v < Pow2(8 * size)
    ensures res < Pow2(8 * size)
    ensures Word(res, cf, 8 * size) == Turn(left, Word(v, carry, 8 * size), 8 * size, count)
  {
    hide Modulus, Turn, Word, Or, Shl, Shr, Bit, Left, Right, Pow2;
    var n := 8 * size;
    MultiLimb.ModulusIsPow2(size);
    res, cf := v, carry;
    TurnNothing(left, Word(v, carry, n), n);
    for i := 0 to count
      invariant res < Pow2(n) && Word(res, cf, n) == Turn(left, Word(v, carry, n), n, i)
    {
      TurnNext(left, Word(v, carry, n), n, i);
      if left {
        var next := Or(Shl(res, 1), if cf then 1 else 0) % Modulus(size);
        LoopLeft(res, cf, n, next);
        cf, res := Bit(res, n - 1), next;
      } else {
        var next := Or(Shr(res, 1), Shl(if cf then 1 else 0, n - 1));
        LoopRight(res, cf, n, next);
        cf, res := res % 2 == 1, next;
      }
    }
  }

  method Rotate(f: Flags, left: bool, val: nat, count: nat, size: Size) returns (res: nat, g: Flags)
    ensures (res, g) == RotateCarry(f, left, val, count, size)
  {
    hide Cut, Modulus, Turn, Word, Low, Bit, Pow2, CountMask, RotateFlags;
    res, g := Cut(val, size), f;
    var c := count % CountMask(size);
    if c == 0 {
      return;
    }
    MultiLimb.ModulusIsPow2(size);
    var cf;
    res, cf := TurnLoop(left, res, f.cf, c, size);
    WordParts(res, cf, 8 * size);
    g := RotateFlags(f, left, res, cf, c, size);
  }

  lemma TurnNothing(left: bool, w: nat, n: nat)
    ensures Turn(left, w, n, 0) == w
  {
  }

  lemma TurnNext(left: bool, w: nat, n: nat, i: nat)
    ensures Turn(left, w, n, i + 1) == if left then Left(Turn(left, w, n, i), n) else Right(Turn(left, w, n, i), n)
  {
  }

  /** Rotating through carry one way and back by the same count restores value and CF. */
  lemma RotateBackRestores(f: Flags, left: bool, val: nat, count: nat, size: Size)
    ensures var there := RotateCarry(f, left, val, count, size);
            var back := RotateCarry(there.1, !left, there.0, count, size);
            back.0 == Cut(val, size) && back.1.cf == f.cf
  {
    hide Turn, Word, Low, Bit, SignSet, OneStepOf, Modulus, Cut, Pow2;
    var n, v := 8 * size, Cut(val, size);
    var c := count % CountMask(size);
    MultiLimb.ModulusIsPow2(size);
    WordParts(v, f.cf, n);
    var w := Word(v, f.cf, n);
    if c == 0 {
      MultiLimb.CutOfCut(v, size);
    } else {
      var t := Turn(left, w, n, c);
      TurnInside(left, w, n, c);
      TurnsCancel(left, w, n, c);
      WordOfParts(t, n);
      LowBound(t, n);
      MultiLimb.CutOfCut(Low(t, n), size);
    }
  }

  /** Every bit of CF:value moves by the masked count modulo the operand's bits plus one. */
  lemma RotateMovesBits(f: Flags, left: bool, val: nat, count: nat, size: Size, i: nat)
    requires i <= 8 * size
    ensures var r := RotateCarry(f, left, val, count, size); var n := 8 * size;
            var c := count % CountMask(size) % (n + 1);
            Bit(Word(r.0, r.1.cf, n), i) == Bit(Word(Cut(val, size), f.cf, n), Origin(left, i, n, c))
  {
    hide Turn, Word, Low, Bit, SignSet, OneStepOf, Modulus, Cut, Pow2, Origin;
    var n, v := 8 * size, Cut(val, size);
    var c := count % CountMask(size);
    MultiLimb.ModulusIsPow2(size);
    WordParts(v, f.cf, n);
    var w := Word(v, f.cf, n);
    TurnNothing(left, w, n);
    TurnRotates(left, w, n, c, i);
    SameOrigin(left, i, n, c);
    WordOfParts(Turn(left, w, n, c), n);
  }

  /** The masked count: modulo 64 for an operand of eight bytes and modulo 32 for the others.
      A multiple of that changes neither value nor flags; otherwise CF and value turn. */
  lemma RotateCounts(f: Flags, left: bool, val: nat, count: nat, size: Size)
    ensures var c := if size == 8 then count % 64 else count % 32;
            RotateCarry(f, left, val, count, size) == RotateCarry(f, left, val, c, size) &&
            (c == 0 ==> RotateCarry(f, left, val, count, size) == (Cut(val, size), f))
  {
    hide Turn, Word, Low, Bit, RotateFlags, Cut;
  }

  /** Only CF and, for a masked count of one, OF change; there OF says that the sign changed. */
  lemma RotateFlagsAre(f: Flags, left: bool, val: nat, count: nat, size: Size)
    ensures var (r, g) := RotateCarry(f, left, val, count, size); var c := if size == 8 then count % 64 else count % 32;
            g == f.(cf := g.cf, of := g.of) && (c != 1 ==> g.of == f.of) &&
            (c == 1 ==> (g.of <==> Bit(r, 8 * size - 1) != Bit(Cut(val, size), 8 * size - 1)))
  {
    hide RotateCarry, Turn, Word, Low, Bit, Cut, OneStepOf, CountMask, Modulus;
    var c := if size == 8 then count % 64 else count % 32;
    MaskedCount(count, size);
    CarryParts(f, left, val, count, size, c);
    if c == 1 {
      assert Cut(val, size) < Modulus(size);
      OneStepTurnsSign(f.cf, left, Cut(val, size), size);
    }
  }

  lemma CarryParts(f: Flags, left: bool, val: nat, count: nat, size: Size, c: nat)
    requires c == count % CountMask(size)
    ensures var r := RotateCarry(f, left, val, count, size);
            var w := Turn(left, Word(Cut(val, size), f.cf, 8 * size), 8 * size, c);
            if c == 0 then r == (Cut(val, size), f)
            else r.0 == Low(w, 8 * size) &&
                 r.1 == f.(cf := r.1.cf, of := if c == 1 then OneStepOf(left, r.0, Bit(w, 8 * size), size) else f.of)
  {
    hide Turn, Word, Low, Bit, Cut, OneStepOf, CountMask;
  }

  lemma MaskedCount(count: nat, size: Size)
    ensures count % CountMask(size) == if size == 8 then count % 64 else count % 32
  {
    if size == 8 {
      assert CountMask(size) == 64;
    } else {
      assert CountMask(size) == 32;
    }
  }

  lemma OneStepTurnsSign(cf: bool, left: bool, v: nat, size: Size)
    requires v < Modulus(size)
    ensures var n := 8 * size; var t := Turn(left, Word(v, cf, n), n, 1);
            OneStepOf(left, Low(t, n), Bit(t, n), size) <==> Bit(Low(t, n), n - 1) != Bit(v, n - 1)
  {
    hide Turn, Word, Low, Bit, SignSet, Modulus, Pow2;
    var n := 8 * size;
    MultiLimb.ModulusIsPow2(size);
    OneStepMoves(cf, left, v, n);
    var t := Turn(left, Word(v, cf, n), n, 1);
    LowBound(t, n);
    MultiLimb.SignBit(Low(t, n), size);
  }

  /** One step: the bits that OF looks at. */
  lemma OneStepMoves(cf: bool, left: bool, v: nat, n: nat)
    requires v < Pow2(n) && n >= 2
    ensures var t := Turn(left, Word(v, cf, n), n, 1);
            if left then Bit(t, n) == Bit(v, n - 1) else Bit(Low(t, n), n - 2) == Bit(v, n - 1)
  {
    hide Turn, Word, Low, Bit, Pow2, Origin;
    var w := Word(v, cf, n);
    WordParts(v, cf, n);
    WordBits(v, cf, n, n - 1);
    TurnRotates(left, w, n, 1, if left then n else n - 2);
    LowBit(Turn(left, w, n, 1), n, n - 2);
    OneBack(left, n);
  }

  lemma OneBack(left: bool, n: nat)
    requires n >= 2
    ensures Origin(left, if left then n else n - 2, n, 1) == n - 1
  {
  }

  lemma WordBits(v: nat, cf: bool, n: nat, i: nat)
    requires v < Pow2(n) && i < n
    ensures Bit(Word(v, cf, n), i) == Bit(v, i)
  {
    if cf {
      TopAdded(v, n, i);
    }
  }
}
