/** MUL, IMUL, DIV and IDIV on the accumulator pair: AX for bytes, xDX:xAX otherwise. */
module MulDiv {
  import opened Words
  import opened CpuModel
  import opened Alu
  import opened Interp
  import opened MultiLimb

  /** `gpr_read`: the register's low bytes, never a high byte register */
  function GprRead(cpu: CpuState, index: byte, size: Size): (r: u64)
    ensures r < Modulus(size)
  {
    ReadGpr(cpu, index, size, true)
  }

  function GprWrite(cpu: CpuState, index: byte, size: Size, v: int): CpuState {
    WriteGpr(cpu, index, size, true, Cut(v, size))
  }

  const AH: byte := 4

  /** A value below m read as two's complement. */
  function SignedIn(v: int, m: int): int {
    if v >= m / 2 then v - m else v
  }

  function NumberOf(v: nat, signed: bool, m: int): int {
    if signed then SignedIn(v, m) else v
  }

  /** Division of the source language: the quotient is cut toward zero. */
  function TruncDiv(n: int, d: int): int
    requires d != 0
  {
    if (n < 0) == (d < 0) then Abs(n) / Abs(d) else -(Abs(n) / Abs(d))
  }

  function TruncRem(n: int, d: int): int
    requires d != 0
  {
    if n < 0 then -(Abs(n) % Abs(d)) else Abs(n) % Abs(d)
  }

  // ---- The operations ----

  /** The low and the high half of the accumulator pair, as one unsigned number. */
  function Pair(cpu: CpuState, size: Size): nat {
    if size == 1 then GprRead(cpu, 0, 2) else GprRead(cpu, 2, size) * Modulus(size) + GprRead(cpu, 0, size)
  }

  function WithPair(cpu: CpuState, size: Size, lo: u64, hi: u64): CpuState {
    if size == 1 then GprWrite(cpu, 0, 2, lo + hi * 0x100)
    else GprWrite(GprWrite(cpu, 0, size, lo), 2, size, hi)
  }

  /** `mul_op` on an operand already read at its size */
  function MulOp(cpu: CpuState, size: Size, signed: bool, src: u64): CpuState {
    var m := Modulus(size);
    var prod := NumberOf(GprRead(cpu, 0, size), signed, m) * NumberOf(Cut(src, size), signed, m);
    var lo, hi := Cut(prod, size), Cut(prod / m, size);
    var wide := if signed then SignedIn(lo, m) != prod else hi != 0;
    var c := WithPair(cpu, size, lo, hi);
    c.(flags := c.flags.(cf := wide, of := wide))
  }

  /** A divide error is the interrupt; an arithmetic overflow of the host ends the emulator. */
  datatype Division = Done(cpu: CpuState) | DivideError | HostOverflow

  function Remainder(cpu: CpuState, size: Size): u64 {
    if size == 1 then ReadGpr(cpu, AH, 1, false) else GprRead(cpu, 2, size)
  }

  function WithQuotient(cpu: CpuState, size: Size, q: int, r: int): CpuState {
    if size == 1 then WriteGpr(GprWrite(cpu, 0, 1, q), AH, 1, false, Cut(r, 1))
    else GprWrite(GprWrite(cpu, 0, size, q), 2, size, r)
  }

  const TWO127: int := 0x8000_0000_0000_0000_0000_0000_0000_0000

  /** The host divides bytes as i16 or u64 and everything wider as i128 or u128; a quotient
      that its type cannot hold stops it. */
  predicate HostHolds(q: int, size: Size, signed: bool) {
    if signed then InRange(q, if size == 1 then 0x8000 else TWO127)
    else 0 <= q < if size == 1 then TWO64 else 2 * TWO127
  }

  /** `div_op` on an operand already read at its size */
  function DivOp(cpu: CpuState, size: Size, signed: bool, divisor: u64): Division {
    var m := Modulus(size);
    var d := NumberOf(Cut(divisor, size), signed, m);
    var n := NumberOf(Pair(cpu, size), signed, m * m);
    if d == 0 then DivideError
    else if !HostHolds(TruncDiv(n, d), size, signed) then HostOverflow
    else if size == 1 && signed && !InRange(TruncDiv(n, d), 128) then DivideError
    else Done(WithQuotient(cpu, size, TruncDiv(n, d), TruncRem(n, d)))
  }

  method Mul(cpu: Cpu, size: Size, signed: bool, src: u64)
    modifies cpu
    ensures cpu.State() == MulOp(old(cpu.State()), size, signed, src)
  {
    hide WriteGpr, ReadGpr;
    var m := Modulus(size);
    var prod := NumberOf(GprRead(cpu.State(), 0, size), signed, m) * NumberOf(Cut(src, size), signed, m);
    var lo, hi := Cut(prod, size), Cut(prod / m, size);
    var wide := if signed then SignedIn(lo, m) != prod else hi != 0;
    if size == 1 {
      StoreGpr(cpu, 0, 2, lo + hi * 0x100);
    } else {
      StoreGpr(cpu, 0, size, lo);
      StoreGpr(cpu, 2, size, hi);
    }
    cpu.flags := cpu.flags.(cf := wide, of := wide);
  }

  method StoreGpr(cpu: Cpu, index: byte, size: Size, v: int)
    modifies cpu`gpr
    ensures cpu.State() == GprWrite(old(cpu.State()), index, size, v)
  {
    cpu.gpr := GprWrite(cpu.State(), index, size, v).gpr;
  }

  method StoreAh(cpu: Cpu, v: int)
    modifies cpu`gpr
    ensures cpu.State() == WriteGpr(old(cpu.State()), AH, 1, false, Cut(v, 1))
  {
    cpu.gpr := WriteGpr(cpu.State(), AH, 1, false, Cut(v, 1)).gpr;
  }

  datatype Ending = Finished | Interrupt0 | Overflowed

  method Div(cpu: Cpu, size: Size, signed: bool, divisor: u64) returns (end: Ending)
    modifies cpu`gpr
    ensures match DivOp(old(cpu.State()), size, signed, divisor)
            case Done(c) => end == Finished && cpu.State() == c
            case DivideError => end == Interrupt0 && cpu.State() == old(cpu.State())
            case HostOverflow => end == Overflowed && cpu.State() == old(cpu.State())
  {
    hide WriteGpr, ReadGpr, TruncDiv, TruncRem;
    var m := Modulus(size);
    var d := NumberOf(Cut(divisor, size), signed, m);
    if d == 0 {
      return Interrupt0;
    }
    var n := NumberOf(Pair(cpu.State(), size), signed, m * m);
    var q, r := TruncDiv(n, d), TruncRem(n, d);
    if !HostHolds(q, size, signed) {
      return Overflowed;
    }
    if size == 1 {
      if signed && !InRange(q, 128) {
        return Interrupt0;
      }
      StoreGpr(cpu, 0, 1, q);
      StoreAh(cpu, r);
    } else {
      StoreGpr(cpu, 0, size, q);
      StoreGpr(cpu, 2, size, r);
    }
    return Finished;
  }

  // ---- Which registers ----

  /** The accumulator pair is AX for bytes and DX:AX, EDX:EAX and RDX:RAX otherwise; the
      remainder is in AH or in its upper half. */
  lemma PairIs(cpu: CpuState, size: Size)
    ensures var a, d := cpu.gpr[RAX], cpu.gpr[RDX];
            Pair(cpu, size) == match size
              case 1 => a % 0x1_0000
              case 2 => d % 0x1_0000 * 0x1_0000 + a % 0x1_0000
              case 4 => d % TWO32 * TWO32 + a % TWO32
              case _ => d * TWO64 + a
    ensures Remainder(cpu, size) == if size == 1 then cpu.gpr[RAX] / 0x100 % 0x100 else cpu.gpr[RDX] % Modulus(size)
  {
  }

  /** No other register changes, nor does rdx for bytes; multiplication changes CF and OF, and
      division no flag. */
  lemma OthersKeep(cpu: CpuState, size: Size, signed: bool, src: u64, r: int)
    requires 0 <= r < 16 && r != RAX && (r != RDX || size == 1)
    ensures var c := MulOp(cpu, size, signed, src);
            c.gpr[r] == cpu.gpr[r] && c == cpu.(gpr := c.gpr, flags := cpu.flags.(cf := c.flags.cf, of := c.flags.of))
    ensures match DivOp(cpu, size, signed, src)
            case Done(c) => c.gpr[r] == cpu.gpr[r] && c == cpu.(gpr := c.gpr)
            case _ => true
  {
    hide Cut, Modulus, TruncDiv, TruncRem, HostHolds, NumberOf, Pair;
  }

  // ---- Arithmetic ----

  lemma TruncIdentity(n: int, d: int)
    requires d != 0
    ensures n == TruncDiv(n, d) * d + TruncRem(n, d)
    ensures Abs(TruncRem(n, d)) < Abs(d) && (TruncRem(n, d) != 0 ==> (TruncRem(n, d) < 0) == (n < 0))
  {
    var a, b := Abs(n), Abs(d);
    assert a == b * (a / b) + a % b;
    assert (a / b) * d == if d < 0 then -(b * (a / b)) else b * (a / b);
    assert -(a / b) * d == -((a / b) * d);
  }

  lemma TruncIsUnique(n: int, d: int, q: int)
    requires d != 0 && n == q * d
    ensures TruncDiv(n, d) == q && TruncRem(n, d) == 0
  {
    var a, b, p := Abs(n), Abs(d), Abs(q);
    assert a == b * p by {
      assert q * d == (-q) * (-d) && -(q * d) == (-q) * d && -(q * d) == q * (-d);
    }
    ModUnique(b, p, 0, a);
    SignOfProduct(q, d);
  }

  lemma SignOfProduct(q: int, d: int)
    requires d != 0
    ensures (q * d < 0) == (q != 0 && (q < 0) != (d < 0))
    ensures q * d == 0 ==> q == 0
  {
  }

  lemma CutOfSigned(v: int, size: Size)
    requires InRange(v, Modulus(size) / 2)
    ensures SignedIn(Cut(v, size), Modulus(size)) == v
  {
    CutDifference(v, size);
    hide Cut, Modulus;
  }

  /** Reading a cut number back gives it if and only if it was in range. */
  lemma CutReadsBack(v: int, size: Size, signed: bool)
    ensures NumberOf(Cut(v, size), signed, Modulus(size)) == v <==> Representable(v, size, signed)
  {
    var m := Modulus(size);
    if Representable(v, size, signed) {
      if signed {
        CutOfSigned(v, size);
      } else {
        CutOfCut(v, size);
      }
    }
    hide Cut, Modulus;
  }

  predicate Representable(v: int, size: Size, signed: bool) {
    if signed then InRange(v, Modulus(size) / 2) else 0 <= v < Modulus(size)
  }

  // ---- Registers read back ----

  lemma ReadWritten(cpu: CpuState, i: byte, j: byte, size: Size, v: int)
    requires i < 16 && j < 16
    ensures GprRead(GprWrite(cpu, i, size, v), j, size) == if i == j then Cut(v, size) else GprRead(cpu, j, size)
  {
    hide Cut, Modulus;
    var w := GprWrite(cpu, i, size, v);
    WordWritten(cpu, i, size, v);
    assert i % 16 == i && j % 16 == j;
    hide GprWrite, WriteGpr;
    assert ReadGpr(w, j, size, true) == Cut(w.gpr[j], size);
  }

  /** What a write leaves in its register, cut to the operand, is the value written. */
  lemma WordWritten(cpu: CpuState, i: byte, size: Size, v: int)
    requires i < 16
    ensures var w := GprWrite(cpu, i, size, v);
            w.gpr == cpu.gpr[i := w.gpr[i]] && Cut(w.gpr[i], size) == Cut(v, size)
  {
    var x := Cut(v, size);
    CutOfCut(x, size);
    assert i % 16 == i;
    match size
    case 1 => ByteWritten(cpu, i, x);
    case 2 => WordPartWritten(cpu, i, x);
    case 4 =>
      hide Cut;
      CutOfCut(x, 4);
    case _ =>
      hide Cut;
      CutOfCut(x, 8);
  }

  lemma ByteWritten(cpu: CpuState, i: byte, x: byte)
    requires i < 16
    ensures var w := WriteGpr(cpu, i, 1, true, x);
            w.gpr == cpu.gpr[i := w.gpr[i]] && Cut(w.gpr[i], 1) == x
  {
    assert i % 16 == i && Modulus(1) == 0x100;
    KeepsHigh(cpu.gpr[i], x);
    hide Modulus;
  }

  lemma WordPartWritten(cpu: CpuState, i: byte, x: u16)
    requires i < 16
    ensures var w := WriteGpr(cpu, i, 2, true, x);
            w.gpr == cpu.gpr[i := w.gpr[i]] && Cut(w.gpr[i], 2) == x
  {
    assert i % 16 == i && Modulus(2) == 0x1_0000;
    KeepsHigh(cpu.gpr[i], x);
    hide Modulus;
  }

  /** The bytes and words that partial writes put together are read back apart. */
  lemma KeepsHigh(was: u64, v: int)
    ensures (was / 0x100 * 0x100 + v % 0x100) % 0x100 == v % 0x100
    ensures (was / 0x1_0000 * 0x1_0000 + v % 0x1_0000) % 0x1_0000 == v % 0x1_0000
  {
  }

  lemma HighByte(was: u64, lo: int, hi: int)
    ensures var low := was / 0x100 * 0x100 + lo % 0x100;
            var both := low / 0x1_0000 * 0x1_0000 + hi % 0x100 * 0x100 + low % 0x100;
            both % 0x100 == lo % 0x100 && both / 0x100 % 0x100 == hi % 0x100
  {
  }

  lemma QuotientReads(cpu: CpuState, size: Size, q: int, r: int)
    ensures var c := WithQuotient(cpu, size, q, r);
            GprRead(c, 0, size) == Cut(q, size) && Remainder(c, size) == Cut(r, size)
  {
    if size == 1 {
      ByteQuotient(cpu, q, r);
    } else {
      hide WriteGpr, ReadGpr, GprWrite, GprRead, Cut;
      var c := GprWrite(cpu, 0, size, q);
      ReadWritten(cpu, 0, 0, size, q);
      ReadWritten(c, 2, 0, size, r);
      ReadWritten(c, 2, 2, size, r);
    }
  }

  lemma ByteQuotient(cpu: CpuState, q: int, r: int)
    ensures var c := WithQuotient(cpu, 1, q, r); GprRead(c, 0, 1) == Cut(q, 1) && Remainder(c, 1) == Cut(r, 1)
  {
    var x, y := Cut(q, 1), Cut(r, 1);
    assert Modulus(1) == 0x100;
    CutOfCut(x, 1);
    CutOfCut(y, 1);
    HighByte(cpu.gpr[0], x, y);
    hide Modulus;
  }

  lemma PairReads(cpu: CpuState, size: Size, lo: u64, hi: u64)
    requires lo < Modulus(size) && hi < Modulus(size)
    ensures Pair(WithPair(cpu, size, lo, hi), size) == hi * Modulus(size) + lo
  {
    hide WriteGpr, ReadGpr, GprWrite, GprRead, Cut, Modulus;
    if size == 1 {
      ReadWritten(cpu, 0, 0, 2, lo + hi * 0x100);
      ByteModulus();
      CutOfCut(lo + hi * 0x100, 2);
    } else {
      var c := GprWrite(cpu, 0, size, lo);
      ReadWritten(cpu, 0, 0, size, lo);
      ReadWritten(c, 2, 0, size, hi);
      ReadWritten(c, 2, 2, size, hi);
      CutOfCut(lo, size);
      CutOfCut(hi, size);
    }
  }

  lemma ByteModulus()
    ensures Modulus(1) == 0x100 && Modulus(2) == 0x1_0000
  {
  }

  // ---- Multiplication ----

  lemma SplitProduct(prod: int, size: Size)
    ensures prod == (prod / Modulus(size)) * Modulus(size) + Cut(prod, size)
  {
    var m := Modulus(size);
    assert prod == m * (prod / m) + prod % m;
  }

  lemma MulMono(a: int, b: int, c: int)
    requires a <= b && c >= 0
    ensures a * c <= b * c
  {
    var d := b - a;
    assert d * c >= 0;
    assert b * c == (a + d) * c == a * c + d * c;
  }

  lemma ProductSign(a: int, b: int)
    ensures a * b == if (a < 0) == (b < 0) then Abs(a) * Abs(b) else -(Abs(a) * Abs(b))
  {
    assert -a * b == -(a * b) && a * -b == -(a * b) && -a * -b == a * b;
  }

  lemma ProductBounds(a: int, b: int, h: int)
    requires h > 0 && -h <= a < h && -h <= b < h
    ensures -(h * h) <= a * b <= h * h
  {
    ProductSign(a, b);
    MulMono(Abs(a), h, Abs(b));
    MulMono(Abs(b), h, h);
    assert Abs(b) * h == h * Abs(b);
    assert Abs(a) * Abs(b) >= 0;
  }

  lemma UnsignedBounds(a: int, b: int, m: int)
    requires 0 <= a < m && 0 <= b < m
    ensures 0 <= a * b < m * m
  {
    MulMono(0, a, b);
    MulMono(a, m, b);
    MulMono(b, m - 1, m);
    assert (m - 1) * m == m * m - m && b * m == m * b;
  }

  function ProductOf(cpu: CpuState, size: Size, signed: bool, src: u64): int {
    NumberOf(GprRead(cpu, 0, size), signed, Modulus(size)) * NumberOf(Cut(src, size), signed, Modulus(size))
  }

  lemma ProductFits(a: int, b: int, m: int, signed: bool)
    requires m >= 4 && m % 2 == 0
    requires if signed then InRange(a, m / 2) && InRange(b, m / 2) else 0 <= a < m && 0 <= b < m
    ensures (m * m) / 2 == m * (m / 2)
    ensures signed ==> -(m * (m / 2)) < a * b < m * (m / 2) && InRange(a * b / m, m)
    ensures !signed ==> 0 <= a * b / m < m && a * b >= 0
  {
    var p, h := a * b, m / 2;
    assert m * m == 2 * (m * h) && m * h == 2 * (h * h);
    if signed {
      ProductBounds(a, b, h);
      assert h * h > 0;
      DivideBound(p, m, h);
    } else {
      UnsignedBounds(a, b, m);
      DivideBound(p, m, m);
    }
  }

  lemma DivideBound(p: int, m: int, h: int)
    requires m > 0 && -(m * h) <= p < m * h
    ensures -h <= p / m < h && (p >= 0 ==> p / m >= 0)
  {
    var q := p / m;
    assert p == m * q + p % m;
    BelowMultiple(m, p % m, q, h);
  }

  lemma NumberInRange(v: nat, signed: bool, m: int)
    requires v < m && m % 2 == 0
    ensures if signed then InRange(NumberOf(v, signed, m), m / 2) else 0 <= NumberOf(v, signed, m) < m
  {
  }

  lemma PairHoldsProduct(prod: int, m: int, hi: int, lo: int, p: int, signed: bool)
    requires m >= 4 && m % 2 == 0 && 0 <= lo < m && prod == p * m + lo && 0 <= hi * m + lo
    requires (m * m) / 2 == m * (m / 2)
    requires if signed then -(m * (m / 2)) < prod < m * (m / 2) && hi == (if p < 0 then p + m else p)
             else hi == p && p >= 0
    ensures NumberOf(hi * m + lo, signed, m * m) == prod
  {
    assert (p + m) * m == p * m + m * m;
    assert m * m == 2 * (m * (m / 2));
    BelowMultiple(m, lo, p, 0);
    assert p * m == m * p;
  }

  /** The pair holds the exact product, and CF and OF say that its low half alone does not. */
  lemma MulIsExact(cpu: CpuState, size: Size, signed: bool, src: u64)
    ensures var c := MulOp(cpu, size, signed, src); var prod := ProductOf(cpu, size, signed, src);
            NumberOf(Pair(c, size), signed, Modulus(size) * Modulus(size)) == prod &&
            c.flags.cf == c.flags.of == !Representable(prod, size, signed)
  {
    var m := Modulus(size);
    var a, b := NumberOf(GprRead(cpu, 0, size), signed, m), NumberOf(Cut(src, size), signed, m);
    NumberInRange(GprRead(cpu, 0, size), signed, m);
    NumberInRange(Cut(src, size), signed, m);
    hide WriteGpr, ReadGpr, GprWrite, GprRead, Cut, Modulus, Pair, WithPair;
    var prod := a * b;
    var lo, hi := Cut(prod, size), Cut(prod / m, size);
    PairReads(cpu, size, lo, hi);
    SplitProduct(prod, size);
    ProductFits(a, b, m, signed);
    CutDifferenceOrSame(prod / m, size);
    assert hi * m >= 0;
    PairHoldsProduct(prod, m, hi, lo, prod / m, signed);
    FlagsDoNotTouchPair(WithPair(cpu, size, lo, hi), MulOp(cpu, size, signed, src), size);
    CutReadsBack(prod, size, signed);
    HighHalfEmpty(prod, m, prod / m, lo);
  }

  lemma CutDifferenceOrSame(p: int, size: Size)
    requires InRange(p, Modulus(size))
    ensures Cut(p, size) == if p < 0 then p + Modulus(size) else p
  {
    CutDifference(p, size);
  }

  lemma FlagsDoNotTouchPair(c: CpuState, d: CpuState, size: Size)
    requires c.gpr == d.gpr
    ensures Pair(c, size) == Pair(d, size)
  {
  }

  lemma HighHalfEmpty(prod: int, m: int, p: int, lo: int)
    requires m > 0 && prod == p * m + lo && 0 <= lo < m
    ensures p == 0 <==> 0 <= prod < m
  {
    MulBelow(m, p);
    assert p * m == m * p;
  }

  // ---- Division ----

  function DividendOf(cpu: CpuState, size: Size, signed: bool): int {
    NumberOf(Pair(cpu, size), signed, Modulus(size) * Modulus(size))
  }

  function DivisorOf(divisor: u64, size: Size, signed: bool): int {
    NumberOf(Cut(divisor, size), signed, Modulus(size))
  }

  lemma RemainderFits(n: int, d: int, size: Size, signed: bool)
    requires d != 0 && (if signed then InRange(d, Modulus(size) / 2) else n >= 0 && 0 <= d < Modulus(size))
    ensures Representable(TruncRem(n, d), size, signed)
  {
    TruncIdentity(n, d);
    hide TruncRem, Modulus;
  }

  lemma QuotientDetermines(q: int, p: int, r: int, d: int)
    requires d != 0
    ensures q * d + r == p * d + r <==> q == p
  {
    assert (q - p) * d == q * d - p * d;
    SignOfProduct(q - p, d);
  }

  /** When a division completes, the remainder is always right; quotient times divisor plus
      remainder is the dividend exactly when the quotient fits its register. */
  lemma DivIsExact(cpu: CpuState, size: Size, signed: bool, divisor: u64)
    requires DivOp(cpu, size, signed, divisor).Done?
    ensures var c := DivOp(cpu, size, signed, divisor).cpu; var m := Modulus(size);
            var n, d := DividendOf(cpu, size, signed), DivisorOf(divisor, size, signed);
            var q, r := NumberOf(GprRead(c, 0, size), signed, m), NumberOf(Remainder(c, size), signed, m);
            d != 0 && Abs(r) < Abs(d) && (r != 0 ==> (r < 0) == (n < 0)) && r == TruncRem(n, d) &&
            (q == TruncDiv(n, d) <==> Representable(TruncDiv(n, d), size, signed)) &&
            (n == q * d + r <==> Representable(TruncDiv(n, d), size, signed))
  {
    var m := Modulus(size);
    var n, d := DividendOf(cpu, size, signed), DivisorOf(divisor, size, signed);
    NumberInRange(Cut(divisor, size), signed, m);
    hide WriteGpr, ReadGpr, GprWrite, GprRead, Cut, Modulus, Pair, WithQuotient, TruncDiv, TruncRem, Remainder, NumberOf, Representable;
    var q, r := TruncDiv(n, d), TruncRem(n, d);
    TruncIdentity(n, d);
    DividendIsNatural(cpu, size);
    RemainderFits(n, d, size, signed);
    QuotientReads(cpu, size, q, r);
    CutReadsBack(q, size, signed);
    CutReadsBack(r, size, signed);
    QuotientDetermines(NumberOf(Cut(q, size), signed, m), q, r, d);
  }

  lemma DividendIsNatural(cpu: CpuState, size: Size)
    ensures DividendOf(cpu, size, false) >= 0
  {
  }

  /** A signed byte division never completes with a quotient that does not fit. */
  lemma ByteDivisionIsSafe(cpu: CpuState, divisor: u64)
    ensures DivOp(cpu, 1, true, divisor).Done? ==>
      Representable(TruncDiv(DividendOf(cpu, 1, true), DivisorOf(divisor, 1, true)), 1, true)
  {
    ByteModulus();
    hide WriteGpr, ReadGpr, GprWrite, GprRead, Cut, Modulus, Pair, WithQuotient, TruncDiv, TruncRem, NumberOf;
  }

  /** Wider and unsigned ones do: 1:0000 over 1 completes with quotient 0. */
  lemma QuotientWraps(cpu: CpuState)
    requires cpu.gpr[0] == 0 && cpu.gpr[2] == 1
    ensures DivOp(cpu, 2, false, 1).Done? && GprRead(DivOp(cpu, 2, false, 1).cpu, 0, 2) == 0
    ensures DividendOf(cpu, 2, false) == 0x1_0000
  {
    assert Pair(cpu, 2) == 0x1_0000;
    assert TruncDiv(0x1_0000, 1) == 0x1_0000;
    QuotientReads(cpu, 2, 0x1_0000, TruncRem(0x1_0000, 1));
  }

  /** Multiplying and dividing by the same operand restores the accumulator and leaves no
      remainder, at every size, signed and unsigned. */
  lemma MulThenDivRestores(cpu: CpuState, size: Size, signed: bool, src: u64)
    requires Cut(src, size) != 0
    ensures var r := DivOp(MulOp(cpu, size, signed, src), size, signed, src);
            r.Done? && GprRead(r.cpu, 0, size) == GprRead(cpu, 0, size) && Remainder(r.cpu, size) == 0
  {
    var m := Modulus(size);
    var x := GprRead(cpu, 0, size);
    var a, d := NumberOf(x, signed, m), DivisorOf(src, size, signed);
    NumberInRange(x, signed, m);
    NumberInRange(Cut(src, size), signed, m);
    assert d != 0;
    var mul := MulOp(cpu, size, signed, src);
    MulIsExact(cpu, size, signed, src);
    ByteModulus();
    hide WriteGpr, ReadGpr, GprWrite, GprRead, Cut, Modulus, Pair, WithQuotient, TruncDiv, TruncRem, Remainder, MulOp;
    TruncIsUnique(a * d, d, a);
    ProductFits(a, d, m, signed);
    QuotientReads(mul, size, a, 0);
    NumberCutsBack(x, size, signed);
    CutOfCut(0, size);
  }

  lemma NumberCutsBack(x: nat, size: Size, signed: bool)
    requires x < Modulus(size)
    ensures Cut(NumberOf(x, signed, Modulus(size)), size) == x
  {
  }

  // ---- When the host cannot divide ----

  lemma QuotientBound(n: int, d: int)
    requires d != 0
    ensures Abs(TruncDiv(n, d)) <= Abs(n) && (Abs(d) >= 2 ==> 2 * Abs(TruncDiv(n, d)) <= Abs(n))
    ensures TruncDiv(n, 1) == n && TruncDiv(n, -1) == -n
    ensures n >= 0 && d > 0 ==> TruncDiv(n, d) >= 0
  {
    NatQuotient(Abs(n), Abs(d));
  }

  lemma NatQuotient(a: nat, b: nat)
    requires b > 0
    ensures 0 <= a / b <= a && (b >= 2 ==> 2 * (a / b) <= a) && a / 1 == a
  {
    var q := a / b;
    assert a == b * q + a % b;
    MulMono(1, b, q);
    if b >= 2 {
      MulMono(2, b, q);
    }
  }

  lemma DividendBound(cpu: CpuState, size: Size, signed: bool)
    ensures var n, h := DividendOf(cpu, size, signed), Modulus(size) * (Modulus(size) / 2);
            h <= TWO127 && (size == 1 ==> h == 0x8000) && (size == 8 ==> h == TWO127) && (size == 2 || size == 4 ==> h < TWO127) &&
            if signed then InRange(n, h) else 0 <= n < 2 * h
  {
    match size
    case 1 =>
    case 2 =>
    case 4 =>
    case _ =>
  }

  /** The host stops on a division if and only if it is IDIV of the least dividend by -1, at
      8 or 64 bits: the quotient then is the one number its type lacks. At 16 and 32 bits,
      and unsigned, every quotient fits the host. */
  lemma HostStopsExactly(cpu: CpuState, size: Size, signed: bool, divisor: u64)
    ensures DivOp(cpu, size, signed, divisor).HostOverflow? <==>
      signed && (size == 1 || size == 8) && DivisorOf(divisor, size, signed) == -1 &&
      DividendOf(cpu, size, signed) == -(Modulus(size) * (Modulus(size) / 2))
  {
    var n, d := DividendOf(cpu, size, signed), DivisorOf(divisor, size, signed);
    DividendBound(cpu, size, signed);
    NumberInRange(Cut(divisor, size), signed, Modulus(size));
    hide DividendOf, DivisorOf, TruncDiv, Cut, Pair, WithQuotient, NumberOf, Modulus;
    if d != 0 {
      QuotientBound(n, d);
    }
  }

  /** AX = 8000h over FFh gets there. */
  lemma HostStops(cpu: CpuState)
    requires cpu.gpr[0] == 0x8000
    ensures DivOp(cpu, 1, true, 0xFF) == HostOverflow
  {
    assert Pair(cpu, 1) == 0x8000;
    HostStopsExactly(cpu, 1, true, 0xFF);
  }
}
