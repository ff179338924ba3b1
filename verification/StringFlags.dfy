/** CMPS and SCAS once, and the flags that the last comparison of a repeated one leaves. */
module StringFlags {
  import opened Words
  import opened GuestMemory
  import opened CpuModel
  import opened Alu
  import opened Decoder
  import opened StringOps
  import MultiLimb

  /** The flags of comparing x with y: ZF, CF for the unsigned order, SF and OF for the signed
      one; DF is kept. */
  predicate Compared(g: Flags, df: bool, x: u64, y: u64, size: Size) {
    g.zf == (x == y) && g.cf == (x < y) && (g.sf != g.of) == (SignedOf(x, size) < SignedOf(y, size)) && g.df == df
  }

  lemma SubCompares(f: Flags, x: u64, y: u64, size: Size)
    requires x < Modulus(size) && y < Modulus(size)
    ensures Compared(Sub(f, x, y, 0, size).1, f.df, x, y, size)
  {
    MultiLimb.SubFlags(f, x, y, 0, size);
    CutSmall(x, size);
    CutSmall(y, size);
    SubZero(f, x, y, size);
    SubKeepsDf(f, x, y, size);
    hide Sub, Cut, SignedOf, Modulus;
  }

  lemma SubKeepsDf(f: Flags, x: u64, y: u64, size: Size)
    ensures Sub(f, x, y, 0, size).1.df == f.df
  {
  }

  // ---- Without a repeat prefix ----

  /** One comparison, whatever rcx holds: the pointers move by one element, rsi only for CMPS,
      rcx stays, and the flags compare the two. A read that fails changes nothing; CMPS reads
      [rsi] first. */
  lemma ComparesOnce(q: Compare, mem: Memory, c: Cursor)
    requires q.rep == 0 && q.acc < Modulus(q.size)
    ensures var (d, err) := CompareLoop(q, mem, c);
            var left := if q.cmps then ReadElem(mem, c.rsi, q.size) else Ok(q.acc);
            var right := ReadElem(mem, c.rdi, q.size);
            if left.Err? then (d, err) == (c, Some(left.error))
            else if right.Err? then (d, err) == (c, Some(right.error))
            else err == None && d.rcx == c.rcx && d.rdi == AddrMask(q.bits, c.rdi + q.step) &&
                 d.rsi == (if q.cmps then AddrMask(q.bits, c.rsi + q.step) else c.rsi) &&
                 Compared(d.flags, c.flags.df, left.value, right.value, q.size)
  {
    hide Sub, ReadElem, AddrMask, Modulus, Compared;
    var left := if q.cmps then ReadElem(mem, c.rsi, q.size) else Ok(q.acc);
    var right := ReadElem(mem, c.rdi, q.size);
    if left.Ok? && right.Ok? {
      SubCompares(c.flags, left.value, right.value, q.size);
    }
  }

  // ---- Repeated ----

  ghost predicate ComparedAt(q: Compare, mem: Memory, c: Cursor, k: nat, g: Flags) {
    Readable(q, mem, c, k) && Compared(g, c.flags.df, Left(q, mem, c.rsi, k).value, Elem(q, mem, c.rdi, k).value, q.size)
  }

  lemma FirstCompared(q: Compare, mem: Memory, c: Cursor)
    requires WellFormed(q, c) && c.rcx > 0 && Readable(q, mem, c, 0)
    ensures ComparedAt(q, mem, c, 0, Next(q, mem, c).flags) && Next(q, mem, c).flags.df == c.flags.df
  {
    hide Sub, Modulus, Compared;
    SubCompares(c.flags, Left(q, mem, c.rsi, 0).value, Elem(q, mem, c.rdi, 0).value, q.size);
    SubKeepsDf(c.flags, Left(q, mem, c.rsi, 0).value, Elem(q, mem, c.rdi, 0).value, q.size);
  }

  lemma ComparedShifts(q: Compare, mem: Memory, c: Cursor, k: nat, g: Flags)
    requires WellFormed(q, c) && c.rcx > 0 && Readable(q, mem, c, 0)
    ensures ComparedAt(q, mem, Next(q, mem, c), k, g) == ComparedAt(q, mem, c, k + 1, g)
  {
    FirstCompared(q, mem, c);
    SameErrors(q, mem, c, k);
    hide Next, Left, Elem, WellFormed, Compared;
  }

  /** After a repeated comparison the flags compare the last pair that was looked at: the one
      that stopped it, or the last of all. Without a round they are as before. */
  lemma {:induction false} LastPairCompared(q: Compare, mem: Memory, c: Cursor, k: nat)
    requires WellFormed(q, c) && k <= c.rcx
    requires forall j :: 0 <= j <= k && j < c.rcx ==> Readable(q, mem, c, j)
    requires forall j :: 0 <= j < k ==> !StopsAt(q, mem, c, j)
    requires k < c.rcx ==> StopsAt(q, mem, c, k)
    ensures var rounds := if k < c.rcx then k + 1 else k;
            var d := CompareLoop(q, mem, c).0;
            if rounds == 0 then d.flags == c.flags else ComparedAt(q, mem, c, rounds - 1, d.flags)
    decreases k
  {
    hide CompareLoop, Readable, StopsAt, EqualAt, WellFormed, Sub, AddrMask, Next, Moved, ComparedAt;
    if c.rcx == 0 {
      NoRounds(q, mem, c);
    } else {
      OneRound(q, mem, c);
      NextFits(q, mem, c);
      NextMoves(q, mem, c, 0);
      FirstCompared(q, mem, c);
      if k > 0 && c.rcx > 1 {
        NextShifts(q, mem, c);
        LastPairCompared(q, mem, Next(q, mem, c), k - 1);
        ComparedShifts(q, mem, c, (if k < c.rcx then k else k - 1) - 1, CompareLoop(q, mem, c).0.flags);
      }
    }
  }

  /** A read that fails before anything stops the loop: that error, after the rounds before. */
  lemma {:induction false} FailsAt(q: Compare, mem: Memory, c: Cursor, k: nat)
    requires WellFormed(q, c) && k < c.rcx
    requires forall j :: 0 <= j < k ==> Readable(q, mem, c, j) && !StopsAt(q, mem, c, j)
    requires !Readable(q, mem, c, k)
    ensures var (d, err) := CompareLoop(q, mem, c);
            err == Some(if Left(q, mem, c.rsi, k).Err? then Left(q, mem, c.rsi, k).error else Elem(q, mem, c.rdi, k).error) &&
            d.rcx == c.rcx - k && d.rdi == Moved(q, c.rdi, k) && d.rsi == (if q.cmps then Moved(q, c.rsi, k) else c.rsi)
    decreases k
  {
    hide StopsAt, EqualAt, Sub, AddrMask;
    if k == 0 {
      FailsFirst(q, mem, c);
    } else {
      hide CompareLoop, Readable, WellFormed, Next, Moved;
      OneRound(q, mem, c);
      NextFits(q, mem, c);
      NextMoves(q, mem, c, k - 1);
      NextShifts(q, mem, c);
      FailsAt(q, mem, Next(q, mem, c), k - 1);
      SameErrors(q, mem, c, k - 1);
    }
  }

  lemma FailsFirst(q: Compare, mem: Memory, c: Cursor)
    requires WellFormed(q, c) && c.rcx > 0 && !Readable(q, mem, c, 0)
    ensures var (d, err) := CompareLoop(q, mem, c);
            d == c && err == Some(if Left(q, mem, c.rsi, 0).Err? then Left(q, mem, c.rsi, 0).error else Elem(q, mem, c.rdi, 0).error)
    ensures Moved(q, c.rdi, 0) == c.rdi && Moved(q, c.rsi, 0) == c.rsi
  {
    hide Sub, ReadElem, AddrMask;
  }

  lemma SameErrors(q: Compare, mem: Memory, c: Cursor, k: nat)
    requires c.rcx > 0 && Readable(q, mem, c, 0)
    ensures Left(q, mem, Next(q, mem, c).rsi, k) == Left(q, mem, c.rsi, k + 1)
    ensures Elem(q, mem, Next(q, mem, c).rdi, k) == Elem(q, mem, c.rdi, k + 1)
  {
    hide Sub, ReadElem, AddrMask;
  }
}
