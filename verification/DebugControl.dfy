/** The control block as one object. Every method keeps the filters equal to the lists
    they summarise, and every query answers as an unfiltered scan of the lists would. */
module DebugControl {
  import opened Words
  import opened Debug

  class Control {
    const attached: bool
    var generation: u64
    var bpFilter: bv64
    var wpFilter: bv64
    var breakpoints: seq<u64>
    var watchpoints: seq<Watchpoint>

    ghost predicate Valid()
      reads this
    {
      && Sorted(breakpoints) && Nonempty(watchpoints)
      && bpFilter == BreakFilter(breakpoints) && wpFilter == WatchFilter(watchpoints)
      && (!attached ==> breakpoints == [] && watchpoints == [])
    }

    constructor (attached: bool)
      ensures Valid() && this.attached == attached && generation == 0
      ensures breakpoints == [] && watchpoints == []
    {
      this.attached := attached;
      generation, bpFilter, wpFilter := 0, 0, 0;
      breakpoints, watchpoints := [], [];
    }

    // -------------------------------------------------------------- queries

    method IsBreak(addr: u64) returns (b: bool)
      requires Valid()
      ensures b <==> addr in breakpoints
    {
      hide BloomBits, BreakFilter, WatchFilter;
      if !attached {
        return false;
      }
      var bits := BloomBits(addr);
      if !Hits(bpFilter, bits) {
        if addr in breakpoints {
          BreakFilterHits(breakpoints, addr);
        }
        return false;
      }
      var i := LowerBound(breakpoints, addr);
      b := i < |breakpoints| && breakpoints[i] == addr;
    }

    method AnyBreakpoints() returns (b: bool)
      requires Valid()
      ensures b <==> breakpoints != []
    {
      hide BloomBits;
      if breakpoints != [] {
        BreakFilterHits(breakpoints, breakpoints[0]);
        BloomNonzero(breakpoints[0]);
        HitsNonzero(bpFilter, BloomBits(breakpoints[0]));
      }
      return attached && bpFilter != 0;
    }

    /** The least breakpoint not below start. */
    method NextBreakAtOrAfter(start: u64) returns (r: Option<u64>)
      requires Valid()
      ensures r.None? ==> forall a :: a in breakpoints ==> a < start
      ensures r.Some? ==> r.value in breakpoints && r.value >= start
                          && forall a :: a in breakpoints && a >= start ==> r.value <= a
    {
      hide BreakFilter, WatchFilter, BloomBits;
      var any := AnyBreakpoints();
      if !any {
        return None;
      }
      var i := LowerBound(breakpoints, start);
      return if i < |breakpoints| then Some(breakpoints[i]) else None;
    }

    method IsWatched(addr: u64, len: u64, kind: WatchKind) returns (b: bool)
      requires Valid()
      ensures b <==> exists w :: w in watchpoints && w.kind.Covers(kind) && w.Overlaps(addr, len)
    {
      hide WatchFilter, AccessMayHit;
      if !attached || len == 0 {
        return false;
      }
      if wpFilter == 0 || !AccessMayHit(wpFilter, addr, len) {
        forall w | w in watchpoints && w.Overlaps(addr, len)
          ensures false
        {
          WatchFilterKeepsHits(watchpoints, w, addr, len);
        }
        return false;
      }
      for i := 0 to |watchpoints|
        invariant forall j :: 0 <= j < i ==> !(watchpoints[j].kind.Covers(kind) && watchpoints[j].Overlaps(addr, len))
      {
        if watchpoints[i].kind.Covers(kind) && watchpoints[i].Overlaps(addr, len) {
          return true;
        }
      }
      return false;
    }

    // -------------------------------------------------------------- changes

    /** Rebuild both filters from the lists and bump the generation. */
    method Publish()
      requires attached && Sorted(breakpoints) && Nonempty(watchpoints)
      modifies this`bpFilter, this`wpFilter, this`generation
      ensures Valid() && generation == WrapAdd(old(generation), 1)
    {
      hide BloomBits, WatchBits;
      var bp: bv64 := 0;
      for i := 0 to |breakpoints|
        invariant bp == BreakFilter(breakpoints[..i])
      {
        assert breakpoints[..i + 1][..i] == breakpoints[..i];
        bp := bp | BloomBits(breakpoints[i]);
      }
      var wp: bv64 := 0;
      for i := 0 to |watchpoints|
        invariant wp == WatchFilter(watchpoints[..i])
      {
        assert watchpoints[..i + 1][..i] == watchpoints[..i];
        wp := wp | WatchBits(watchpoints[i]);
      }
      assert breakpoints[..|breakpoints|] == breakpoints && watchpoints[..|watchpoints|] == watchpoints;
      bpFilter := bp;
      wpFilter := wp;
      generation := WrapAdd(generation, 1);
    }

    method ArmBreak(addr: u64)
      requires Valid()
      modifies this
      ensures Valid()
      ensures forall a :: a in breakpoints <==> a in old(breakpoints) || (attached && a == addr)
      ensures watchpoints == old(watchpoints)
      ensures generation == if breakpoints == old(breakpoints) then old(generation) else WrapAdd(old(generation), 1)
    {
      hide BreakFilter, WatchFilter, Inserted;
      if !attached || addr in breakpoints {
        return;
      }
      InsertedIs(breakpoints, addr);
      breakpoints := Inserted(breakpoints, addr);
      Publish();
    }

    method DisarmBreak(addr: u64)
      requires Valid()
      modifies this
      ensures Valid()
      ensures forall a :: a in breakpoints <==> a in old(breakpoints) && a != addr
      ensures watchpoints == old(watchpoints)
      ensures generation == if breakpoints == old(breakpoints) then old(generation) else WrapAdd(old(generation), 1)
    {
      hide BreakFilter, WatchFilter, Removed;
      if !attached || addr !in breakpoints {
        return;
      }
      RemovedIs(breakpoints, addr);
      breakpoints := Removed(breakpoints, addr);
      Publish();
    }

    method ArmWatch(base: u64, len: u64, kind: WatchKind)
      requires Valid()
      modifies this
      ensures Valid()
      ensures watchpoints == old(watchpoints) + if attached && len > 0 then [Watchpoint(base, len, kind)] else []
      ensures breakpoints == old(breakpoints)
      ensures generation == if attached && len > 0 then WrapAdd(old(generation), 1) else old(generation)
    {
      hide BreakFilter, WatchFilter, Sorted;
      if len == 0 || !attached {
        return;
      }
      watchpoints := watchpoints + [Watchpoint(base, len, kind)];
      Publish();
    }

    method DisarmWatch(base: u64)
      requires Valid()
      modifies this
      ensures Valid()
      ensures watchpoints == Retained(old(watchpoints), base)
      ensures breakpoints == old(breakpoints)
      ensures generation == if watchpoints == old(watchpoints) then old(generation) else WrapAdd(old(generation), 1)
    {
      hide BreakFilter, WatchFilter, Sorted, Retained;
      if !attached {
        return;
      }
      var before := |watchpoints|;
      var kept := Retained(watchpoints, base);
      if |kept| == before {
        return;
      }
      watchpoints := kept;
      Publish();
    }
  }
}
