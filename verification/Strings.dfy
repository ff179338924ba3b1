/** The repeated string instructions as functions, and what they compute. */
module StringOps {
  import opened Words
  import opened GuestMemory
  import opened CpuModel
  import opened Alu
  import opened Decoder

  // ------------------------------------------------------------------ MOVS

  datatype Copy = Copy(mem: Memory, si: u64, di: u64, error: Option<EmuError>)

  /** count elements of `size` bytes from si to di, one at a time, each by `step`. */
  function Movs(mem: Memory, si: u64, di: u64, step: int, size: Size, count: nat): Copy
    decreases count
  {
    if count == 0 then Copy(mem, si, di, None)
    else match Read(mem, si, size)
      case Err(e) => Copy(mem, si, di, Some(e))
      case Ok(v) =>
        match Write(mem, di, v)
        case Err(e) => Copy(mem, si, di, Some(e))
        case Ok(m) => Movs(m, WrapAdd(si, step), WrapAdd(di, step), step, size, count - 1)
  }

  /** Nothing moved outside a range of n bytes. */
  ghost predicate SameOutside(mem: Memory, mem': Memory, addr: int, n: int) {
    mem'.Keys == mem.Keys && forall a :: a in mem && !(addr <= a < addr + n) ==> mem'[a] == mem[a]
  }

  lemma ModAfter(i: nat, s: nat, d: nat)
    requires 0 < s <= d
    ensures (s + i) % d == if s + i % d >= d then s + i % d - d else s + i % d
  {
    var q, r := i / d, i % d;
    assert i == d * q + r;
    if s + r >= d {
      assert s + i == d * (q + 1) + (s + r - d);
      ModUnique(d, q + 1, s + r - d, s + i);
    } else {
      ModUnique(d, q, s + r, s + i);
    }
  }

  /** The bytes of count elements. */
  function Total(size: Size, count: nat): (n: nat)
    ensures n == 0 <==> count == 0
    ensures count > 0 ==> n >= size
  {
    if count == 0 then 0 else size + Total(size, count - 1)
  }

  lemma {:induction false} TotalIsProduct(size: Size, count: nat)
    ensures Total(size, count) == size * count
  {
    if count > 0 {
      TotalIsProduct(size, count - 1);
      assert size * count == size + size * (count - 1);
    }
  }

  ghost predicate CopiedAt(mem: Memory, final: Memory, src: int, dst: int) {
    src in mem && dst in final && final[dst] == mem[src]
  }

  ghost predicate PeriodicAt(mem: Memory, final: Memory, si: int, d: int, a: int)
    requires d > 0
  {
    CopiedAt(mem, final, si + (a - (si + d)) % d, a)
  }

  /** The first d bytes from si, repeated over n bytes from si + d. */
  ghost predicate Periodic(mem: Memory, final: Memory, si: int, d: int, n: int) {
    d > 0 && forall a :: si + d <= a < si + d + n ==> PeriodicAt(mem, final, si, d, a)
  }

  ghost predicate ExactAt(mem: Memory, final: Memory, si: int, di: int, a: int) {
    CopiedAt(mem, final, si + (a - di), a)
  }

  /** The n bytes from si, at di. */
  ghost predicate Exact(mem: Memory, final: Memory, si: int, di: int, n: int) {
    forall a :: di <= a < di + n ==> ExactAt(mem, final, si, di, a)
  }

  ghost predicate Finished(r: Copy, si: int, di: int) {
    r.error == None && r.si == Wrap64(si) && r.di == Wrap64(di)
  }

  /** One element: the bytes at si are copied to di and nothing else changes. */
  lemma OneElement(mem: Memory, si: u64, di: u64, step: int, size: Size, count: nat) returns (m: Memory)
    requires count > 0 && Mapped(mem, si, size) && Mapped(mem, di, size)
    ensures SameOutside(mem, m, di, size) && Exact(mem, m, si, di, size)
    ensures Movs(mem, si, di, step, size, count)
         == Movs(m, WrapAdd(si, step), WrapAdd(di, step), step, size, count - 1)
  {
    hide WrapAdd, Exact, SameOutside, Mapped, Store, Bytes;
    m := Store(mem, di, Bytes(mem, si, size));
    StoreCopies(mem, si, di, size);
  }

  lemma StoreCopies(mem: Memory, si: int, di: int, size: nat)
    requires Mapped(mem, si, size) && Mapped(mem, di, size)
    ensures var m := Store(mem, di, Bytes(mem, si, size));
            SameOutside(mem, m, di, size) && Exact(mem, m, si, di, size)
  {
    var bs := Bytes(mem, si, size);
    var m := Store(mem, di, bs);
    forall a | di <= a < di + size
      ensures ExactAt(mem, m, si, di, a)
    {
      assert m[a] == bs[a - di] == mem[si + (a - di)];
    }
  }

  lemma OutsideCompose(mem: Memory, m: Memory, final: Memory, di: int, size: nat, n: nat)
    requires SameOutside(mem, m, di, size) && SameOutside(m, final, di + size, n)
    ensures SameOutside(mem, final, di, size + n)
  {
  }

  lemma PeriodicByte(mem: Memory, m: Memory, final: Memory, si: int, d: int, size: nat, n: nat, a: int)
    requires Mapped(mem, si, size + n) && Mapped(mem, si + d, size + n) && 0 < size <= d
    requires SameOutside(mem, m, si + d, size) && SameOutside(m, final, si + d + size, n)
    requires Exact(mem, m, si, si + d, size) && Periodic(m, final, si + size, d, n)
    requires si + d <= a < si + d + size + n
    ensures PeriodicAt(mem, final, si, d, a)
  {
    if a < si + d + size {
      ModUnique(d, 0, a - (si + d), a - (si + d));
      assert ExactAt(mem, m, si, si + d, a);
    } else {
      var j := a - (si + d + size);
      assert PeriodicAt(m, final, si + size, d, a);
      ModAfter(j, size, d);
      var src := si + size + j % d;
      InPeriod(j, d);
      if src >= si + d {
        assert ExactAt(mem, m, si, si + d, src);
      } else {
        assert src in mem;
      }
    }
  }

  lemma InPeriod(j: nat, d: nat)
    requires d > 0
    ensures 0 <= j % d <= j
  {
  }

  /** Forward REP MOVS onto a destination d bytes ahead of its source, d at least one
      element: the first d source bytes are repeated periodically over the destination. A
      destination past the end of the source is the case of an exact copy. */
  lemma {:induction false} ForwardIsPeriodic(mem: Memory, si: u64, di: u64, size: Size, count: nat)
    requires Mapped(mem, si, Total(size, count)) && Mapped(mem, di, Total(size, count))
    requires si + size <= di && di + Total(size, count) <= TWO64
    ensures var r, n := Movs(mem, si, di, size, size, count), Total(size, count);
            Finished(r, si + n, di + n) && SameOutside(mem, r.mem, di, n) && Periodic(mem, r.mem, si, di - si, n)
    decreases count
  {
    hide *;
    TotalStep(size, count);
    if count == 0 {
      NoMoves(mem, si, di, size);
    } else {
      var d, n := di - si, Total(size, count - 1);
      FirstMapped(mem, si, size, n);
      FirstMapped(mem, di, size, n);
      var m := OneElement(mem, si, di, size, size, count);
      if count == 1 {
        LastElement(mem, m, si, d, size);
        LastMove(m, si, di, size);
      } else {
        NoWrap(si, size);
        NoWrap(di, size);
        MappedRest(mem, m, si, di, size, n);
        ForwardIsPeriodic(m, si + size, di + size, size, count - 1);
        var final := Movs(m, si + size, di + size, size, size, count - 1).mem;
        OutsideCompose(mem, m, final, di, size, n);
        PeriodicAll(mem, m, final, si, d, size, n);
      }
    }
  }

  lemma TotalStep(size: Size, count: nat)
    ensures count > 0 ==> Total(size, count) == size + Total(size, count - 1)
    ensures count > 1 ==> Total(size, count - 1) >= size
    ensures Total(size, 0) == 0
  {
  }

  lemma FirstMapped(mem: Memory, at: int, size: nat, n: nat)
    requires Mapped(mem, at, size + n)
    ensures Mapped(mem, at, size)
  {
  }

  lemma NoMoves(mem: Memory, si: u64, di: u64, size: Size)
    ensures var r := Movs(mem, si, di, size, size, 0);
            Finished(r, si, di) && SameOutside(mem, r.mem, di, 0) && Exact(mem, r.mem, si, di, 0)
    ensures di > si ==> Periodic(mem, mem, si, di - si, 0) && Movs(mem, si, di, size, size, 0).mem == mem
  {
  }

  lemma LastMove(m: Memory, si: u64, di: u64, size: Size)
    ensures Total(size, 0) == 0 && Total(size, 1) == size
    ensures Finished(Movs(m, WrapAdd(si, size), WrapAdd(di, size), size, size, 0), si + size, di + size)
    ensures Movs(m, WrapAdd(si, size), WrapAdd(di, size), size, size, 0).mem == m
  {
  }

  lemma NoWrap(x: int, n: int)
    requires 0 <= x + n < TWO64
    ensures WrapAdd(x, n) == x + n
  {
  }

  lemma LastElement(mem: Memory, m: Memory, si: int, d: int, size: int)
    requires Exact(mem, m, si, si + d, size) && 0 < size <= d
    ensures Periodic(mem, m, si, d, size)
  {
    forall a | si + d <= a < si + d + size
      ensures PeriodicAt(mem, m, si, d, a)
    {
      ModUnique(d, 0, a - (si + d), a - (si + d));
      assert ExactAt(mem, m, si, si + d, a);
    }
  }

  lemma MappedRest(mem: Memory, m: Memory, si: int, di: int, size: nat, n: nat)
    requires Mapped(mem, si, size + n) && Mapped(mem, di, size + n) && SameOutside(mem, m, di, size)
    ensures Mapped(m, si + size, n) && Mapped(m, di + size, n)
  {
  }

  lemma PeriodicAll(mem: Memory, m: Memory, final: Memory, si: int, d: int, size: nat, n: nat)
    requires Mapped(mem, si, size + n) && Mapped(mem, si + d, size + n) && 0 < size <= d
    requires SameOutside(mem, m, si + d, size) && SameOutside(m, final, si + d + size, n)
    requires Exact(mem, m, si, si + d, size) && Periodic(m, final, si + size, d, n)
    ensures Periodic(mem, final, si, d, size + n)
  {
    forall a | si + d <= a < si + d + size + n
      ensures PeriodicAt(mem, final, si, d, a)
    {
      PeriodicByte(mem, m, final, si, d, size, n, a);
    }
  }

  /** Forward onto a lower (or the same) address: an exact copy, however the ranges overlap. */
  lemma {:induction false} ForwardDownIsExact(mem: Memory, si: u64, di: u64, size: Size, count: nat)
    requires Mapped(mem, si, Total(size, count)) && Mapped(mem, di, Total(size, count))
    requires di <= si && si + Total(size, count) <= TWO64
    ensures var r, n := Movs(mem, si, di, size, size, count), Total(size, count);
            Finished(r, si + n, di + n) && SameOutside(mem, r.mem, di, n) && Exact(mem, r.mem, si, di, n)
    decreases count
  {
    hide *;
    TotalStep(size, count);
    if count == 0 {
      NoMoves(mem, si, di, size);
    } else {
      var n := Total(size, count - 1);
      FirstMapped(mem, si, size, n);
      FirstMapped(mem, di, size, n);
      var m := OneElement(mem, si, di, size, size, count);
      if count == 1 {
        LastMove(m, si, di, size);
      } else {
        NoWrap(si, size);
        NoWrap(di, size);
        MappedRest(mem, m, si, di, size, n);
        ForwardDownIsExact(m, si + size, di + size, size, count - 1);
        var final := Movs(m, si + size, di + size, size, size, count - 1).mem;
        OutsideCompose(mem, m, final, di, size, n);
        ExactAll(mem, m, final, si, di, size, n);
      }
    }
  }

  lemma ExactAll(mem: Memory, m: Memory, final: Memory, si: int, di: int, size: nat, n: nat)
    requires Mapped(mem, si, size + n) && di <= si
    requires SameOutside(mem, m, di, size) && SameOutside(m, final, di + size, n)
    requires Exact(mem, m, si, di, size) && Exact(m, final, si + size, di + size, n)
    ensures Exact(mem, final, si, di, size + n)
  {
    forall a | di <= a < di + size + n
      ensures ExactAt(mem, final, si, di, a)
    {
      if a < di + size {
        assert ExactAt(mem, m, si, di, a);
      } else {
        assert ExactAt(m, final, si + size, di + size, a);
      }
    }
  }

  /** Disjoint ranges, on either side: an exact copy. */
  lemma DisjointIsExact(mem: Memory, si: u64, di: u64, size: Size, count: nat)
    requires Mapped(mem, si, Total(size, count)) && Mapped(mem, di, Total(size, count))
    requires si + Total(size, count) <= di || di + Total(size, count) <= si
    requires si + Total(size, count) <= TWO64 && di + Total(size, count) <= TWO64
    ensures var r, n := Movs(mem, si, di, size, size, count), Total(size, count);
            Finished(r, si + n, di + n) && SameOutside(mem, r.mem, di, n) && Exact(mem, r.mem, si, di, n)
  {
    if di <= si {
      hide *;
      ForwardDownIsExact(mem, si, di, size, count);
    } else if count == 0 {
      NoMoves(mem, si, di, size);
    } else {
      hide Movs, Total, Finished, SameOutside, Mapped;
      ForwardIsPeriodic(mem, si, di, size, count);
      PeriodIsExact(mem, Movs(mem, si, di, size, size, count).mem, si, di, Total(size, count));
    }
  }

  lemma PeriodIsExact(mem: Memory, final: Memory, si: int, di: int, n: int)
    requires si + n <= di && Periodic(mem, final, si, di - si, n)
    ensures Exact(mem, final, si, di, n)
  {
    var d := di - si;
    forall a | di <= a < di + n
      ensures ExactAt(mem, final, si, di, a)
    {
      ModUnique(d, 0, a - di, a - di);
      assert PeriodicAt(mem, final, si, d, a);
    }
  }

  // Backward, with the direction flag set: si and di name the last elements.

  ghost predicate PeriodicDownAt(mem: Memory, final: Memory, top: int, d: int, a: int)
    requires d > 0
  {
    CopiedAt(mem, final, top - 1 - (top - d - 1 - a) % d, a)
  }

  /** The last d bytes below top, repeated downward over the n bytes below top - d. */
  ghost predicate PeriodicDown(mem: Memory, final: Memory, top: int, d: int, n: int) {
    d > 0 && forall a :: top - d - n <= a < top - d ==> PeriodicDownAt(mem, final, top, d, a)
  }

  lemma LastMoveDown(m: Memory, si: u64, di: u64, size: Size)
    ensures Total(size, 0) == 0 && Total(size, 1) == size
    ensures Finished(Movs(m, WrapAdd(si, 0 - size), WrapAdd(di, 0 - size), 0 - size, size, 0), si - size, di - size)
    ensures Movs(m, WrapAdd(si, 0 - size), WrapAdd(di, 0 - size), 0 - size, size, 0).mem == m
  {
  }

  lemma NoMovesDown(mem: Memory, si: u64, di: u64, size: Size)
    ensures var r := Movs(mem, si, di, 0 - size, size, 0);
            Finished(r, si, di) && r.mem == mem && SameOutside(mem, mem, di + size, 0) && Exact(mem, mem, si + size, di + size, 0)
    ensures di < si ==> PeriodicDown(mem, mem, si + size, si - di, 0)
  {
  }

  lemma MappedBelow(mem: Memory, m: Memory, si: int, di: int, size: nat, n: nat)
    requires Mapped(mem, si - n, size + n) && Mapped(mem, di - n, size + n) && SameOutside(mem, m, di, size)
    ensures Mapped(mem, si, size) && Mapped(mem, di, size) && Mapped(m, si - n, n) && Mapped(m, di - n, n)
  {
  }

  lemma OutsideBelow(mem: Memory, m: Memory, final: Memory, di: int, size: nat, n: nat)
    requires SameOutside(mem, m, di, size) && SameOutside(m, final, di - n, n)
    ensures SameOutside(mem, final, di - n, size + n)
  {
  }

  lemma ExactBelow(mem: Memory, m: Memory, final: Memory, si: int, di: int, size: nat, n: nat)
    requires Mapped(mem, si - n, size + n) && si <= di
    requires SameOutside(mem, m, di, size) && SameOutside(m, final, di - n, n)
    requires Exact(mem, m, si, di, size) && Exact(m, final, si - n, di - n, n)
    ensures Exact(mem, final, si - n, di - n, size + n)
  {
    var from, to := si - n, di - n;
    forall a | to <= a < di + size
      ensures ExactAt(mem, final, from, to, a)
    {
      if a >= di {
        assert ExactAt(mem, m, si, di, a);
      } else {
        assert ExactAt(m, final, from, to, a);
      }
    }
  }

  lemma MappedLast(mem: Memory, at: int, size: nat, n: nat)
    requires Mapped(mem, at - n, size + n)
    ensures Mapped(mem, at, size)
  {
  }

  /** Backward onto a higher (or the same) address: an exact copy, however the ranges overlap. */
  lemma {:induction false} BackwardUpIsExact(mem: Memory, si: u64, di: u64, size: Size, count: nat)
    requires var n := Total(size, count);
             n <= si + size && di + size <= TWO64 && si <= di &&
             Mapped(mem, si + size - n, n) && Mapped(mem, di + size - n, n)
    ensures var r, n := Movs(mem, si, di, 0 - size, size, count), Total(size, count);
            Finished(r, si - n, di - n) && SameOutside(mem, r.mem, di + size - n, n) &&
            Exact(mem, r.mem, si + size - n, di + size - n, n)
    decreases count
  {
    hide *;
    TotalStep(size, count);
    if count == 0 {
      NoMovesDown(mem, si, di, size);
    } else {
      var n := Total(size, count - 1);
      MappedLast(mem, si, size, n);
      MappedLast(mem, di, size, n);
      var m := OneElement(mem, si, di, 0 - size, size, count);
      if count == 1 {
        LastMoveDown(m, si, di, size);
      } else {
        NoWrap(si, 0 - size);
        NoWrap(di, 0 - size);
        MappedBelow(mem, m, si, di, size, n);
        BackwardUpIsExact(m, si - size, di - size, size, count - 1);
        var final := Movs(m, si - size, di - size, 0 - size, size, count - 1).mem;
        OutsideBelow(mem, m, final, di, size, n);
        ExactBelow(mem, m, final, si, di, size, n);
      }
    }
  }

  lemma PeriodicDownByte(mem: Memory, m: Memory, final: Memory, si: int, d: int, size: nat, n: nat, a: int)
    requires Mapped(mem, si - n, size + n) && Mapped(mem, si - d - n, size + n) && 0 < size <= d
    requires SameOutside(mem, m, si - d, size) && SameOutside(m, final, si - d - n, n)
    requires Exact(mem, m, si, si - d, size) && PeriodicDown(m, final, si, d, n)
    requires si - d - n <= a < si - d + size
    ensures PeriodicDownAt(mem, final, si + size, d, a)
  {
    if a >= si - d {
      var j := si + size - d - 1 - a;
      ModUnique(d, 0, j, j);
      assert ExactAt(mem, m, si, si - d, a);
    } else {
      var j := si - d - 1 - a;
      assert PeriodicDownAt(m, final, si, d, a);
      ModAfter(j, size, d);
      var src := si - 1 - j % d;
      InPeriod(j, d);
      if src < si - d + size {
        assert ExactAt(mem, m, si, si - d, src);
      } else {
        assert src in mem;
      }
    }
  }

  lemma PeriodicDownAll(mem: Memory, m: Memory, final: Memory, si: int, d: int, size: nat, n: nat)
    requires Mapped(mem, si - n, size + n) && Mapped(mem, si - d - n, size + n) && 0 < size <= d
    requires SameOutside(mem, m, si - d, size) && SameOutside(m, final, si - d - n, n)
    requires Exact(mem, m, si, si - d, size) && PeriodicDown(m, final, si, d, n)
    ensures PeriodicDown(mem, final, si + size, d, size + n)
  {
    var top := si + size;
    forall a | si - d - n <= a < si - d + size
      ensures PeriodicDownAt(mem, final, top, d, a)
    {
      PeriodicDownByte(mem, m, final, si, d, size, n, a);
    }
  }

  lemma LastElementDown(mem: Memory, m: Memory, si: int, d: int, size: int)
    requires Exact(mem, m, si, si - d, size) && 0 < size <= d
    ensures PeriodicDown(mem, m, si + size, d, size)
  {
    var top := si + size;
    forall a | si - d <= a < si - d + size
      ensures PeriodicDownAt(mem, m, top, d, a)
    {
      var j := top - d - 1 - a;
      ModUnique(d, 0, j, j);
      assert ExactAt(mem, m, si, si - d, a);
    }
  }

  /** Backward onto a destination d bytes below the source, d at least one element: the last
      d source bytes are repeated periodically downward. */
  lemma {:induction false} BackwardIsPeriodic(mem: Memory, si: u64, di: u64, size: Size, count: nat)
    requires var n := Total(size, count);
             n <= di + size && si + size <= TWO64 && di + size <= si &&
             Mapped(mem, si + size - n, n) && Mapped(mem, di + size - n, n)
    ensures var r, n := Movs(mem, si, di, 0 - size, size, count), Total(size, count);
            Finished(r, si - n, di - n) && SameOutside(mem, r.mem, di + size - n, n) &&
            PeriodicDown(mem, r.mem, si + size, si - di, n)
    decreases count
  {
    hide *;
    TotalStep(size, count);
    if count == 0 {
      NoMovesDown(mem, si, di, size);
    } else {
      var d, n := si - di, Total(size, count - 1);
      MappedLast(mem, si, size, n);
      MappedLast(mem, di, size, n);
      var m := OneElement(mem, si, di, 0 - size, size, count);
      if count == 1 {
        LastElementDown(mem, m, si, d, size);
        LastMoveDown(m, si, di, size);
      } else {
        NoWrap(si, 0 - size);
        NoWrap(di, 0 - size);
        MappedBelow(mem, m, si, di, size, n);
        BackwardIsPeriodic(m, si - size, di - size, size, count - 1);
        var final := Movs(m, si - size, di - size, 0 - size, size, count - 1).mem;
        OutsideBelow(mem, m, final, di, size, n);
        PeriodicDownAll(mem, m, final, si, d, size, n);
      }
    }
  }

  // ------------------------------------------------------------ SCAS, CMPS

  /** Which comparison runs: CMPS compares [rsi] with [rdi], SCAS an accumulator. */
  datatype Compare = Compare(cmps: bool, acc: u64, size: Size, rep: byte, step: int, bits: Bits)

  datatype Cursor = Cursor(rcx: u64, rsi: u64, rdi: u64, flags: Flags)

  function ReadElem(mem: Memory, addr: u64, size: Size): (r: Result<u64>)
    ensures r.Ok? ==> r.value < Modulus(size)
  {
    PowersOf256();
    ReadUint(mem, addr, size)
  }

  function LeftAt(q: Compare, mem: Memory, rsi: u64): (r: Result<u64>) {
    if q.cmps then ReadElem(mem, rsi, q.size) else Ok(q.acc)
  }

  predicate RepBreak(rep: byte, rcx: u64, zf: bool) {
    rcx == 0 || (rep == 0xF3 && !zf) || (rep == 0xF2 && zf)
  }

  /** The loop: stop at a zero count, on a failing read, or when the comparison says so. */
  function CompareLoop(q: Compare, mem: Memory, c: Cursor): (Cursor, Option<EmuError>)
    decreases c.rcx
  {
    hide Sub, ReadElem, LeftAt, RepBreak;
    if q.rep != 0 && c.rcx == 0 then (c, None)
    else match LeftAt(q, mem, c.rsi)
      case Err(e) => (c, Some(e))
      case Ok(a) =>
        match ReadElem(mem, c.rdi, q.size)
        case Err(e) => (c, Some(e))
        case Ok(b) =>
          var f := Sub(c.flags, a, b, 0, q.size).1;
          var rsi := if q.cmps then AddrMask(q.bits, c.rsi + q.step) else c.rsi;
          var d := Cursor(c.rcx, rsi, AddrMask(q.bits, c.rdi + q.step), f);
          if q.rep == 0 then (d, None)
          else
            var n := AddrMask(q.bits, c.rcx - 1);
            if RepBreak(q.rep, n, f.zf) then (d.(rcx := n), None) else CompareLoop(q, mem, d.(rcx := n))
  }

  /** A pointer after k steps. */
  function Moved(q: Compare, base: u64, k: nat): u64
    decreases k
  {
    if k == 0 then base else Moved(q, AddrMask(q.bits, base + q.step), k - 1)
  }

  lemma {:induction false} MovedIs(q: Compare, base: u64, k: nat)
    requires Fits(q.bits, base)
    ensures Moved(q, base, k) == AddrMask(q.bits, base + k * q.step)
    decreases k
  {
    hide AddrMask, Fits;
    if k == 0 {
      MaskFits(q.bits, base);
      assert 0 * q.step == 0;
    } else {
      MaskedFits(q.bits, base + q.step);
      MovedIs(q, AddrMask(q.bits, base + q.step), k - 1);
      assert k * q.step == q.step + (k - 1) * q.step;
      MaskTwice(q.bits, base + q.step, (k - 1) * q.step);
    }
  }

  lemma MaskFits(bits: Bits, base: u64)
    requires Fits(bits, base)
    ensures AddrMask(bits, base) == base
  {
  }

  lemma MaskedFits(bits: Bits, x: int)
    ensures Fits(bits, AddrMask(bits, x))
  {
  }

  /** The k-th element compared, from a given start. */
  function Elem(q: Compare, mem: Memory, base: u64, k: nat): Result<u64> {
    ReadElem(mem, Moved(q, base, k), q.size)
  }

  function Left(q: Compare, mem: Memory, rsi: u64, k: nat): Result<u64> {
    if q.cmps then Elem(q, mem, rsi, k) else Ok(q.acc)
  }

  ghost predicate Readable(q: Compare, mem: Memory, c: Cursor, k: nat) {
    Left(q, mem, c.rsi, k).Ok? && Elem(q, mem, c.rdi, k).Ok?
  }

  predicate EqualAt(q: Compare, mem: Memory, c: Cursor, k: nat) {
    Left(q, mem, c.rsi, k) == Elem(q, mem, c.rdi, k)
  }

  /** REPE stops at a difference, REPNE at a match. */
  predicate StopsAt(q: Compare, mem: Memory, c: Cursor, k: nat) {
    if q.rep == 0xF3 then !EqualAt(q, mem, c, k) else EqualAt(q, mem, c, k)
  }

  /** A register fits the mode's width. */
  predicate Fits(bits: Bits, r: u64) {
    bits.B32? ==> r < TWO32
  }

  predicate WellFormed(q: Compare, c: Cursor) {
    && (q.rep == 0xF2 || q.rep == 0xF3) && q.acc < Modulus(q.size)
    && Fits(q.bits, c.rcx) && Fits(q.bits, c.rsi) && Fits(q.bits, c.rdi)
  }

  lemma SubZero(f: Flags, a: u64, b: u64, size: Size)
    requires a < Modulus(size) && b < Modulus(size)
    ensures Sub(f, a, b, 0, size).1.zf <==> a == b
  {
    hide Parity, SignSet, Modulus;
    CutSmall(a, size);
    CutSmall(b, size);
    CutSmall(Cut(a - b, size), size);
    CutZero(a, b, size);
    hide Cut;
  }

  lemma CutSmall(a: int, size: Size)
    requires 0 <= a < Modulus(size)
    ensures Cut(a, size) == a
  {
    ModUnique(Modulus(size), 0, a, a);
  }

  lemma CutZero(a: int, b: int, size: Size)
    requires 0 <= a < Modulus(size) && 0 <= b < Modulus(size)
    ensures Cut(a - b, size) == 0 <==> a == b
  {
    var m := Modulus(size);
    hide Modulus;
    if a >= b {
      ModUnique(m, 0, a - b, a - b);
    } else {
      ModUnique(m, -1, a - b + m, a - b);
    }
  }

  lemma MaskTwice(bits: Bits, x: int, y: int)
    ensures AddrMask(bits, AddrMask(bits, x) + y) == AddrMask(bits, x + y)
  {
    var m := if bits.B64? then TWO64 else TWO32;
    var q := x / m;
    assert AddrMask(bits, x) == x - m * q;
    var z := x + y - m * q;
    ModUnique(m, z / m + q, z % m, x + y);
  }

  function Next(q: Compare, mem: Memory, c: Cursor): Cursor
    requires c.rcx > 0 && Readable(q, mem, c, 0)
  {
    var f := Sub(c.flags, Left(q, mem, c.rsi, 0).value, Elem(q, mem, c.rdi, 0).value, 0, q.size).1;
    Cursor(c.rcx - 1, if q.cmps then AddrMask(q.bits, c.rsi + q.step) else c.rsi, AddrMask(q.bits, c.rdi + q.step), f)
  }

  /** One round of the loop. */
  lemma OneRound(q: Compare, mem: Memory, c: Cursor)
    requires WellFormed(q, c) && c.rcx > 0 && Readable(q, mem, c, 0)
    ensures Next(q, mem, c).flags.zf == EqualAt(q, mem, c, 0)
    ensures CompareLoop(q, mem, c) ==
            if c.rcx == 1 || StopsAt(q, mem, c, 0) then (Next(q, mem, c), None)
            else CompareLoop(q, mem, Next(q, mem, c))
  {
    assert AddrMask(q.bits, c.rcx - 1) == c.rcx - 1;
    SubZero(c.flags, Left(q, mem, c.rsi, 0).value, Elem(q, mem, c.rdi, 0).value, q.size);
    hide Sub, AddrMask;
  }

  /** Elements seen from one step further on. */
  lemma NextShifts(q: Compare, mem: Memory, c: Cursor)
    requires c.rcx > 0 && Readable(q, mem, c, 0)
    ensures var d := Next(q, mem, c);
            && (forall k: nat :: Readable(q, mem, d, k) == Readable(q, mem, c, k + 1))
            && (forall k: nat :: StopsAt(q, mem, d, k) == StopsAt(q, mem, c, k + 1))
            && (forall k: nat :: EqualAt(q, mem, d, k) == EqualAt(q, mem, c, k + 1))
  {
    hide Sub, ReadElem, AddrMask;
    var d := Next(q, mem, c);
    forall k: nat
      ensures Left(q, mem, d.rsi, k) == Left(q, mem, c.rsi, k + 1)
      ensures Elem(q, mem, d.rdi, k) == Elem(q, mem, c.rdi, k + 1)
    {
    }
  }

  /** REPE CMPS and REPNE SCAS, in either direction, with k the first stopping index, or the
      count if there is none: the loop makes k + 1 rounds, or all of them; rcx, rsi and rdi
      have moved by that many rounds, and ZF tells whether the last pair was equal. */
  lemma {:induction false} StopsAtFirst(q: Compare, mem: Memory, c: Cursor, k: nat)
    requires WellFormed(q, c) && k <= c.rcx
    requires forall j :: 0 <= j <= k && j < c.rcx ==> Readable(q, mem, c, j)
    requires forall j :: 0 <= j < k ==> !StopsAt(q, mem, c, j)
    requires k < c.rcx ==> StopsAt(q, mem, c, k)
    ensures var rounds := if k < c.rcx then k + 1 else k;
            var (d, err) := CompareLoop(q, mem, c);
            && err == None && d.rcx == c.rcx - rounds
            && d.rdi == Moved(q, c.rdi, rounds)
            && d.rsi == (if q.cmps then Moved(q, c.rsi, rounds) else c.rsi)
            && (rounds == 0 ==> d == c)
            && (rounds > 0 ==> d.flags.zf == EqualAt(q, mem, c, rounds - 1))
    decreases k
  {
    hide CompareLoop, Readable, StopsAt, EqualAt, WellFormed, Sub, AddrMask, Next, Moved;
    if c.rcx == 0 {
      NoRounds(q, mem, c);
    } else {
      OneRound(q, mem, c);
      NextFits(q, mem, c);
      NextMoves(q, mem, c, if k < c.rcx then k else k - 1);
      if k > 0 && c.rcx > 1 {
        NextShifts(q, mem, c);
        StopsAtFirst(q, mem, Next(q, mem, c), k - 1);
      }
    }
  }

  lemma NoRounds(q: Compare, mem: Memory, c: Cursor)
    requires WellFormed(q, c) && c.rcx == 0
    ensures CompareLoop(q, mem, c) == (c, None) && Moved(q, c.rdi, 0) == c.rdi && Moved(q, c.rsi, 0) == c.rsi
  {
  }

  /** One round moves the cursor by one, so k more rounds move it by k + 1. */
  lemma NextMoves(q: Compare, mem: Memory, c: Cursor, k: nat)
    requires WellFormed(q, c) && c.rcx > 0 && Readable(q, mem, c, 0)
    ensures var d := Next(q, mem, c);
            d.rcx == c.rcx - 1 && Moved(q, c.rdi, k + 1) == Moved(q, d.rdi, k) && Moved(q, c.rdi, 1) == d.rdi &&
            if q.cmps then Moved(q, c.rsi, k + 1) == Moved(q, d.rsi, k) && Moved(q, c.rsi, 1) == d.rsi else d.rsi == c.rsi
  {
    hide Sub, AddrMask, Elem, Left, Readable, WellFormed, ReadElem;
    MovedMore(q, c.rdi, k);
    MovedMore(q, c.rsi, k);
  }

  lemma MovedMore(q: Compare, base: u64, k: nat)
    ensures Moved(q, base, k + 1) == Moved(q, AddrMask(q.bits, base + q.step), k)
    ensures Moved(q, base, 1) == AddrMask(q.bits, base + q.step)
  {
    hide AddrMask;
    assert Moved(q, AddrMask(q.bits, base + q.step), 0) == AddrMask(q.bits, base + q.step);
  }

  lemma NextFits(q: Compare, mem: Memory, c: Cursor)
    requires WellFormed(q, c) && c.rcx > 0 && Readable(q, mem, c, 0)
    ensures WellFormed(q, Next(q, mem, c))
  {
    hide Sub;
  }
}
