/** The debugger's control block: Bloom filters in front of a sorted list of breakpoints
    and a list of watchpoints. */
module Debug {
  import opened Words

  const PAGE: int := 4096
  const WATCH_FILTER_MAX_PAGES: int := 4096
  const ACCESS_PROBE_MAX_PAGES: int := 64
  const ALL_BITS: bv64 := 0xFFFF_FFFF_FFFF_FFFF

  datatype WatchKind = Read | Write | ReadWrite {
    function Code(): bv8 {
      match this case Read => 1 case Write => 2 case ReadWrite => 3
    }

    predicate Covers(access: WatchKind) {
      Code() & access.Code() != 0
    }
  }

  datatype Watchpoint = Watchpoint(base: u64, len: u64, kind: WatchKind) {
    predicate Overlaps(addr: u64, n: u64) {
      n != 0 && addr < SatAdd(base, len) && base < SatAdd(addr, n)
    }
  }

  /** `saturating_add` */
  function SatAdd(a: u64, b: u64): u64 {
    if a + b < TWO64 then a + b else TWO64 - 1
  }

  // --------------------------------------------------------------- filters

  function Mix64(x: bv64): bv64 {
    var a := (x ^ (x >> 30)) * 0xbf58_476d_1ce4_e5b9;
    var b := (a ^ (a >> 27)) * 0x94d0_49bb_1331_11eb;
    b ^ (b >> 31)
  }

  /** The two filter bits of a key. */
  function BloomBits(key: u64): bv64 {
    var h := Mix64(key as bv64);
    (1 << (h & 63)) | (1 << ((h >> 32) & 63))
  }

  /** All of a key's bits are in the filter. */
  predicate Hits(filter: bv64, bits: bv64) {
    filter & bits == bits
  }

  function BreakFilter(keys: seq<u64>): bv64 {
    hide BloomBits;
    if keys == [] then 0 else BreakFilter(keys[..|keys| - 1]) | BloomBits(keys[|keys| - 1])
  }

  /** The bits of pages first to last. */
  function PageBits(first: u64, last: int): bv64
    requires first <= last + 1 <= TWO64
    decreases last + 1 - first
  {
    hide BloomBits;
    if last < first then 0 else PageBits(first, last - 1) | BloomBits(last)
  }

  function LastPage(base: u64, len: u64): u64
    requires len > 0
  {
    SatAdd(base, len - 1) / PAGE
  }

  function WatchBits(w: Watchpoint): bv64
    requires w.len > 0
  {
    var first, last := w.base / PAGE, LastPage(w.base, w.len);
    if last - first >= WATCH_FILTER_MAX_PAGES then ALL_BITS else PageBits(first, last)
  }

  predicate Nonempty(ws: seq<Watchpoint>) {
    forall w :: w in ws ==> w.len > 0
  }

  function WatchFilter(ws: seq<Watchpoint>): bv64
    requires Nonempty(ws)
  {
    hide WatchBits;
    if ws == [] then 0 else WatchFilter(ws[..|ws| - 1]) | WatchBits(ws[|ws| - 1])
  }

  predicate AccessMayHit(filter: bv64, addr: u64, len: u64)
    requires len > 0
  {
    hide BloomBits;
    var first, last := addr / PAGE, LastPage(addr, len);
    last - first >= ACCESS_PROBE_MAX_PAGES || exists p: u64 :: first <= p <= last && Hits(filter, BloomBits(p))
  }

  lemma HitsWider(a: bv64, b: bv64, bits: bv64)
    requires Hits(a, bits)
    ensures Hits(a | b, bits)
    ensures Hits(b | a, bits)
  {
  }

  lemma HitsAll(bits: bv64)
    ensures Hits(ALL_BITS, bits)
  {
  }

  lemma HitsNonzero(filter: bv64, bits: bv64)
    requires Hits(filter, bits) && bits != 0
    ensures filter != 0
  {
  }

  lemma BloomNonzero(key: u64)
    ensures BloomBits(key) != 0
  {
    hide Mix64;
    var h := Mix64(key as bv64);
    OneBit(h & 63, (h >> 32) & 63);
  }

  lemma OneBit(i: bv64, j: bv64)
    requires i < 64 && j < 64
    ensures (1 << i) | (1 << j) != 0 as bv64
  {
  }

  /** The breakpoint filter has no false negatives. */
  lemma {:induction false} BreakFilterHits(keys: seq<u64>, key: u64)
    requires key in keys
    ensures Hits(BreakFilter(keys), BloomBits(key))
  {
    hide BloomBits, Hits;
    var n := |keys| - 1;
    if key in keys[..n] {
      BreakFilterHits(keys[..n], key);
      HitsWider(BreakFilter(keys[..n]), BloomBits(keys[n]), BloomBits(key));
    } else {
      assert key == keys[n];
      SelfHits(BloomBits(key));
      HitsWider(BloomBits(key), BreakFilter(keys[..n]), BloomBits(key));
    }
  }

  lemma SelfHits(bits: bv64)
    ensures Hits(bits, bits)
  {
  }

  lemma {:induction false} PageBitsHit(first: u64, last: u64, p: u64)
    requires first <= p <= last
    ensures Hits(PageBits(first, last), BloomBits(p))
    decreases last
  {
    hide BloomBits, Hits;
    if p < last {
      PageBitsHit(first, last - 1, p);
      HitsWider(PageBits(first, last - 1), BloomBits(last), BloomBits(p));
    } else {
      SelfHits(BloomBits(p));
      HitsWider(BloomBits(p), PageBits(first, last - 1), BloomBits(p));
    }
  }

  lemma WatchBitsHit(w: Watchpoint, p: u64)
    requires w.len > 0 && w.base / PAGE <= p <= LastPage(w.base, w.len)
    ensures Hits(WatchBits(w), BloomBits(p))
  {
    hide BloomBits, Hits;
    HitsAll(BloomBits(p));
    if LastPage(w.base, w.len) - w.base / PAGE < WATCH_FILTER_MAX_PAGES {
      PageBitsHit(w.base / PAGE, LastPage(w.base, w.len), p);
    }
  }

  lemma {:induction false} WatchFilterHits(ws: seq<Watchpoint>, w: Watchpoint, p: u64)
    requires Nonempty(ws) && w in ws && w.base / PAGE <= p <= LastPage(w.base, w.len)
    ensures Hits(WatchFilter(ws), BloomBits(p))
  {
    hide BloomBits, Hits, WatchBits;
    var n := |ws| - 1;
    if w in ws[..n] {
      WatchFilterHits(ws[..n], w, p);
      HitsWider(WatchFilter(ws[..n]), WatchBits(ws[n]), BloomBits(p));
    } else {
      assert w == ws[n];
      WatchBitsHit(w, p);
      HitsWider(WatchBits(w), WatchFilter(ws[..n]), BloomBits(p));
    }
  }

  /** Overlapping ranges share a page, saturated ends included. */
  lemma OverlapSharesPage(w: Watchpoint, addr: u64, n: u64) returns (p: u64)
    requires w.len > 0 && w.Overlaps(addr, n)
    ensures w.base / PAGE <= p <= LastPage(w.base, w.len)
    ensures addr / PAGE <= p <= LastPage(addr, n)
  {
    p := (if addr < w.base then w.base else addr) / PAGE;
  }

  /** A range probes and marks exactly the pages that hold one of its bytes. */
  lemma PagesExactly(base: u64, len: u64, p: u64)
    requires len > 0
    ensures base / PAGE <= p <= LastPage(base, len) <==>
      exists x :: base <= x < base + len && x < TWO64 && x / PAGE == p
  {
    if base / PAGE <= p <= LastPage(base, len) {
      var x := if base / PAGE == p then base else p * PAGE;
      assert base <= x < base + len && x / PAGE == p;
    }
  }

  /** The watch filter never rejects an access that overlaps a watchpoint. */
  lemma WatchFilterKeepsHits(ws: seq<Watchpoint>, w: Watchpoint, addr: u64, n: u64)
    requires Nonempty(ws) && w in ws && w.Overlaps(addr, n)
    ensures WatchFilter(ws) != 0 && AccessMayHit(WatchFilter(ws), addr, n)
  {
    hide BloomBits, WatchFilter;
    var p := OverlapSharesPage(w, addr, n);
    WatchFilterHits(ws, w, p);
    BloomNonzero(p);
  }

  predicate InRange(base: u64, len: u64, x: int) {
    base <= x < base + len
  }

  /** Saturation costs exactly the top address: two ranges overlap in the sense of the code
      if and only if they share a byte below 2^64 - 1. */
  lemma OverlapsExactly(w: Watchpoint, addr: u64, n: u64)
    requires w.len > 0
    ensures w.Overlaps(addr, n) <==> exists x :: InRange(w.base, w.len, x) && InRange(addr, n, x) && x < TWO64 - 1
  {
    if w.Overlaps(addr, n) {
      var x := if addr < w.base then w.base else addr;
      assert InRange(w.base, w.len, x) && InRange(addr, n, x);
    }
  }

  /** A watch on the top byte alone sees no access to it. */
  lemma TopByteIsMissed(kind: WatchKind)
    ensures var top, w := TWO64 - 1, Watchpoint(TWO64 - 1, 1, kind);
            InRange(w.base, w.len, top) && InRange(top, 1, top) && !w.Overlaps(top, 1)
  {
  }

  /** A watch for reads sees reads, one for writes writes, one for both either; an access that
      does both is seen by all. */
  lemma CoversExactly(watch: WatchKind, access: WatchKind)
    ensures watch.Covers(access) <==>
      (watch != Write && access != Write) || (watch != Read && access != Read)
  {
  }

  // ------------------------------------------------------------ the lists

  /** The lists behind the lock. */
  datatype Sets = Sets(breakpoints: seq<u64>, watchpoints: seq<Watchpoint>)

  predicate Sorted(s: seq<u64>) {
    forall i, j :: 0 <= i < j < |s| ==> s[i] < s[j]
  }

  predicate ValidSets(s: Sets) {
    Sorted(s.breakpoints) && Nonempty(s.watchpoints)
  }

  /** The first index whose key is not below x. */
  function LowerBound(s: seq<u64>, x: u64): (i: nat)
    ensures i <= |s|
    ensures forall j :: 0 <= j < i ==> s[j] < x
    ensures i < |s| ==> s[i] >= x
  {
    if s == [] || s[0] >= x then 0 else 1 + LowerBound(s[1..], x)
  }

  function Inserted(s: seq<u64>, x: u64): seq<u64> {
    var i := LowerBound(s, x);
    if x in s then s else s[..i] + [x] + s[i..]
  }

  function Removed(s: seq<u64>, x: u64): seq<u64> {
    var i := LowerBound(s, x);
    if x in s && i < |s| then s[..i] + s[i + 1..] else s
  }

  /** `retain(|w| w.base != base)` */
  function Retained(ws: seq<Watchpoint>, base: u64): (r: seq<Watchpoint>)
    ensures forall w :: w in r <==> w in ws && w.base != base
    ensures |r| <= |ws| && (|r| == |ws| ==> r == ws)
  {
    if ws == [] then [] else Retained(ws[..|ws| - 1], base) + if ws[|ws| - 1].base != base then [ws[|ws| - 1]] else []
  }

  /** Arming and disarming keep the list sorted and change exactly one member. */
  lemma InsertedIs(s: seq<u64>, x: u64)
    requires Sorted(s)
    ensures Sorted(Inserted(s, x))
    ensures forall y :: y in Inserted(s, x) <==> y in s || y == x
  {
    hide Sorted;
    if x !in s {
      var i := LowerBound(s, x);
      Members(s, i);
      AboveBound(s, i, x);
      InsertSorted(s, i, x);
    }
  }

  lemma RemovedIs(s: seq<u64>, x: u64)
    requires Sorted(s)
    ensures Sorted(Removed(s, x))
    ensures forall y :: y in Removed(s, x) <==> y in s && y != x
  {
    if x in s {
      var i := IndexIs(s, x);
      Members(s, i);
      Members(s[i..], 1);
      assert s[i..][..1] == [x] && s[i..][1..] == s[i + 1..];
      RemoveSorted(s, i);
      RemovedApart(s, i);
      hide Sorted;
    }
  }

  lemma Members(s: seq<u64>, i: nat)
    requires i <= |s|
    ensures forall y :: y in s <==> y in s[..i] || y in s[i..]
  {
    assert s == s[..i] + s[i..];
  }

  lemma AboveBound(s: seq<u64>, i: nat, x: u64)
    requires Sorted(s) && x !in s && i == LowerBound(s, x)
    ensures forall j :: i <= j < |s| ==> s[j] > x
  {
    forall j | i <= j < |s|
      ensures s[j] > x
    {
      assert s[i] <= s[j] && s[i] != x;
    }
  }

  lemma InsertSorted(s: seq<u64>, i: nat, x: u64)
    requires Sorted(s) && i <= |s|
    requires forall j :: 0 <= j < i ==> s[j] < x
    requires forall j :: i <= j < |s| ==> s[j] > x
    ensures Sorted(s[..i] + [x] + s[i..])
  {
    var r := s[..i] + [x] + s[i..];
    assert forall j :: 0 <= j < |r| ==> r[j] == if j < i then s[j] else if j == i then x else s[j - 1];
  }

  lemma RemoveSorted(s: seq<u64>, i: nat)
    requires Sorted(s) && i < |s|
    ensures Sorted(s[..i] + s[i + 1..])
  {
    var r := s[..i] + s[i + 1..];
    assert forall j :: 0 <= j < |r| ==> r[j] == s[if j < i then j else j + 1];
  }

  lemma RemovedApart(s: seq<u64>, i: nat)
    requires Sorted(s) && i < |s|
    ensures s[i] !in s[..i] && s[i] !in s[i + 1..]
  {
  }

  lemma IndexIs(s: seq<u64>, x: u64) returns (i: nat)
    requires Sorted(s) && x in s
    ensures i == LowerBound(s, x) && i < |s| && s[i] == x
  {
    i := LowerBound(s, x);
    var k :| 0 <= k < |s| && s[k] == x;
    assert i <= k && s[i] <= s[k];
  }
}
