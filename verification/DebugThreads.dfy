/** The control block shared between threads, as sequentially consistent steps: a change
    edits the lists, stores the two filters and bumps the generation under the lock; a query
    loads its filter without the lock and searches the list under it. Every call takes
    effect at one instant inside it. */
module DebugThreads {
  import opened Words
  import opened Debug

  type Tid = nat

  datatype Change =
    | ArmBreak(addr: u64)
    | DisarmBreak(addr: u64)
    | ArmWatch(w: Watchpoint)
    | DisarmWatch(base: u64)

  datatype Call =
    | IsBreak(addr: u64)
    | AnyBreakpoints
    | NextBreak(start: u64)
    | IsWatched(at: u64, len: u64, kind: WatchKind)
    | Mutate(change: Change)

  /** What a call returns: whether, or the least armed address from the start on; a change
      returns nothing, here Done. */
  datatype Answer = Is(yes: bool) | Least(addr: Option<u64>) | Done

  /** Where a thread stands in its call. */
  datatype Pc =
    | Idle
    | Called(call: Call)
    | Passed(call: Call)                  // the filter did not reject; waiting for the lock
    | Locked(call: Call)
    | Edited(call: Call)                  // the list is changed, the filters are not
    | BpStored(call: Call)
    | WpStored(call: Call)
    | Bumped(call: Call)
    | Returning(call: Call, answer: Answer)

  datatype State = State(
    sets: Sets,
    bpFilter: bv64,
    wpFilter: bv64,
    generation: u64,
    lock: Option<Tid>,
    pcs: map<Tid, Pc>,
    visible: Sets)   // the lists as of the last store of each filter

  predicate WellFormed(call: Call) {
    && (call.IsWatched? ==> call.len > 0)
    && (call.Mutate? && call.change.ArmWatch? ==> call.change.w.len > 0)
  }

  function Apply(change: Change, s: Sets): Sets {
    match change
    case ArmBreak(addr) => s.(breakpoints := Inserted(s.breakpoints, addr))
    case DisarmBreak(addr) => s.(breakpoints := Removed(s.breakpoints, addr))
    case ArmWatch(w) => s.(watchpoints := s.watchpoints + [w])
    case DisarmWatch(base) => s.(watchpoints := Retained(s.watchpoints, base))
  }

  predicate IsBreakChange(change: Change) {
    change.ArmBreak? || change.DisarmBreak?
  }

  /** The answer that a scan of the lists, without a filter, would give. */
  ghost predicate Answers(call: Call, answer: Answer, s: Sets) {
    match call
    case IsBreak(addr) => answer == Is(addr in s.breakpoints)
    case AnyBreakpoints => answer == Is(s.breakpoints != [])
    case NextBreak(start) => answer.Least? && IsLeastFrom(answer.addr, s.breakpoints, start)
    case IsWatched(at, len, kind) =>
      answer == Is(exists w :: w in s.watchpoints && w.kind.Covers(kind) && w.Overlaps(at, len))
    case Mutate(_) => answer == Done
  }

  ghost predicate IsLeastFrom(r: Option<u64>, keys: seq<u64>, start: u64) {
    match r
    case None => forall a :: a in keys ==> a < start
    case Some(least) => least in keys && least >= start && forall a :: a in keys && a >= start ==> least <= a
  }

  /** What the call finds in the lists once it has the lock. */
  ghost function Search(call: Call, s: Sets): Answer {
    match call
    case IsBreak(addr) => Is(addr in s.breakpoints)
    case AnyBreakpoints => Is(s.breakpoints != [])
    case NextBreak(start) =>
      var i := LowerBound(s.breakpoints, start);
      Least(if i < |s.breakpoints| then Some(s.breakpoints[i]) else None)
    case IsWatched(at, len, kind) =>
      Is(exists w :: w in s.watchpoints && w.kind.Covers(kind) && w.Overlaps(at, len))
    case Mutate(_) => Done
  }

  lemma SearchAnswers(call: Call, s: Sets)
    requires ValidSets(s)
    ensures Answers(call, Search(call, s), s)
  {
    if call.NextBreak? {
      var keys, i := s.breakpoints, LowerBound(s.breakpoints, call.start);
      forall a | a in keys
        ensures a < call.start || (i < |keys| && keys[i] <= a)
      {
        var k :| 0 <= k < |keys| && keys[k] == a;
        if k > i {
          assert keys[i] <= keys[k];
        }
      }
    }
  }

  predicate FilterPasses(call: Call, bp: bv64, wp: bv64)
    requires WellFormed(call)
  {
    hide BloomBits, AccessMayHit;
    match call
    case IsBreak(addr) => Hits(bp, BloomBits(addr))
    case AnyBreakpoints => bp != 0
    case NextBreak(_) => bp != 0
    case IsWatched(at, len, _) => wp != 0 && AccessMayHit(wp, at, len)
    case Mutate(_) => true
  }

  /** What a query answers when its filter is all it looks at. */
  function Rejected(call: Call): Answer {
    match call
    case NextBreak(_) => Least(None)
    case Mutate(_) => Done
    case _ => Is(false)
  }

  predicate HoldsLock(pc: Pc) {
    pc.Locked? || pc.Edited? || pc.BpStored? || pc.WpStored? || pc.Bumped?
  }

  function Move(s: State, t: Tid, pc: Pc): State {
    s.(pcs := s.pcs[t := pc])
  }

  // ----------------------------------------------------------------- steps

  /** One step of thread t. */
  ghost predicate Step(s: State, t: Tid, s': State)
    requires t in s.pcs && ValidSets(s.sets)
  {
    hide BreakFilter, WatchFilter, FilterPasses;
    var pc := s.pcs[t];
    match pc
    case Idle => exists call :: WellFormed(call) && s' == Move(s, t, Called(call))
    case Called(call) =>
      WellFormed(call) &&
      if call.Mutate? then s.lock == None && s' == Move(s.(lock := Some(t)), t, Locked(call))
      else if !FilterPasses(call, s.bpFilter, s.wpFilter) then s' == Move(s, t, Returning(call, Rejected(call)))
      else if call.AnyBreakpoints? then s' == Move(s, t, Returning(call, Is(true)))
      else s' == Move(s, t, Passed(call))
    case Passed(call) => s.lock == None && s' == Move(s.(lock := Some(t)), t, Locked(call))
    case Locked(call) =>
      if call.Mutate? then
        var sets := Apply(call.change, s.sets);
        if sets == s.sets then s' == Move(s.(lock := None), t, Returning(call, Done))
        else s' == Move(s.(sets := sets), t, Edited(call))
      else s' == Move(s.(lock := None), t, Returning(call, Search(call, s.sets)))
    case Edited(call) =>
      s' == Move(s.(bpFilter := BreakFilter(s.sets.breakpoints),
                    visible := s.visible.(breakpoints := s.sets.breakpoints)), t, BpStored(call))
    case BpStored(call) =>
      s' == Move(s.(wpFilter := WatchFilter(s.sets.watchpoints),
                    visible := s.visible.(watchpoints := s.sets.watchpoints)), t, WpStored(call))
    case WpStored(call) => s' == Move(s.(generation := WrapAdd(s.generation, 1)), t, Bumped(call))
    case Bumped(call) => s' == Move(s.(lock := None), t, Returning(call, Done))
    case Returning(_, _) => s' == Move(s, t, Idle)
  }

  ghost predicate Init(s: State) {
    && s.sets == Sets([], []) && s.visible == s.sets
    && s.bpFilter == 0 && s.wpFilter == 0 && s.lock == None
    && forall t :: t in s.pcs ==> s.pcs[t] == Idle
  }

  // ------------------------------------------------------------- invariant

  /** What the lock holder has done so far. */
  ghost predicate HolderOk(pc: Pc, s: State) {
    match pc
    case Edited(call) =>
      call.Mutate? && s.sets == Apply(call.change, s.visible) && s.sets != s.visible
    case BpStored(call) =>
      && call.Mutate? && s.sets.breakpoints == s.visible.breakpoints
      && (IsBreakChange(call.change) ==> s.sets == s.visible)
      && (!IsBreakChange(call.change) ==> s.sets == Apply(call.change, s.visible))
    case _ => s.sets == s.visible
  }

  ghost predicate ListsOk(s: State) {
    && ValidSets(s.sets) && ValidSets(s.visible)
    && s.bpFilter == BreakFilter(s.visible.breakpoints)
    && s.wpFilter == WatchFilter(s.visible.watchpoints)
  }

  predicate PcOk(pc: Pc) {
    && (pc != Idle ==> WellFormed(pc.call))
    && (pc.Edited? || pc.BpStored? || pc.WpStored? || pc.Bumped? ==> pc.call.Mutate?)
  }

  ghost predicate ThreadsOk(s: State) {
    && (forall t :: t in s.pcs ==> PcOk(s.pcs[t]))
    && (forall t :: t in s.pcs && HoldsLock(s.pcs[t]) ==> s.lock == Some(t))
  }

  ghost predicate LockOk(s: State) {
    if s.lock == None then s.sets == s.visible
    else s.lock.value in s.pcs && HoldsLock(s.pcs[s.lock.value]) && HolderOk(s.pcs[s.lock.value], s)
  }

  ghost predicate Inv(s: State) {
    ListsOk(s) && ThreadsOk(s) && LockOk(s)
  }

  lemma InitOk(s: State)
    requires Init(s)
    ensures Inv(s)
  {
    hide BloomBits, WatchBits;
  }

  lemma ApplyKeepsSorted(change: Change, s: Sets)
    requires ValidSets(s) && WellFormed(Mutate(change))
    ensures ValidSets(Apply(change, s))
  {
    hide Inserted, Removed, Sorted;
    match change
    case ArmBreak(addr) => InsertedIs(s.breakpoints, addr);
    case DisarmBreak(addr) => RemovedIs(s.breakpoints, addr);
    case ArmWatch(_) =>
    case DisarmWatch(_) =>
  }

  /** Arming a breakpoint adds its address and disarming takes it out; arming a watchpoint
      adds it and disarming takes out all at its base; the other list stays. */
  lemma AppliedIs(change: Change, s: Sets)
    requires ValidSets(s)
    ensures var t := Apply(change, s);
            match change
            case ArmBreak(addr) =>
              t.watchpoints == s.watchpoints && forall x :: x in t.breakpoints <==> x in s.breakpoints || x == addr
            case DisarmBreak(addr) =>
              t.watchpoints == s.watchpoints && forall x :: x in t.breakpoints <==> x in s.breakpoints && x != addr
            case ArmWatch(w) =>
              t.breakpoints == s.breakpoints && forall v :: v in t.watchpoints <==> v in s.watchpoints || v == w
            case DisarmWatch(base) =>
              t.breakpoints == s.breakpoints && forall v :: v in t.watchpoints <==> v in s.watchpoints && v.base != base
  {
    hide Inserted, Removed, Sorted, Nonempty;
    match change
    case ArmBreak(addr) => InsertedIs(s.breakpoints, addr);
    case DisarmBreak(addr) => RemovedIs(s.breakpoints, addr);
    case ArmWatch(_) =>
    case DisarmWatch(_) =>
  }

  /** What a step can do to the lists and filters. */
  ghost predicate ListEffect(s: State, pc: Pc, s': State)
    requires ValidSets(s.sets)
  {
    hide BreakFilter, WatchFilter, Apply;
    if pc.Edited? then
      && s'.sets == s.sets && s'.wpFilter == s.wpFilter
      && s'.bpFilter == BreakFilter(s.sets.breakpoints)
      && s'.visible == s.visible.(breakpoints := s.sets.breakpoints)
    else if pc.BpStored? then
      && s'.sets == s.sets && s'.bpFilter == s.bpFilter
      && s'.wpFilter == WatchFilter(s.sets.watchpoints)
      && s'.visible == s.visible.(watchpoints := s.sets.watchpoints)
    else
      && s'.bpFilter == s.bpFilter && s'.wpFilter == s.wpFilter && s'.visible == s.visible
      && (s'.sets == s.sets || (pc.Locked? && pc.call.Mutate? && s'.sets == Apply(pc.call.change, s.sets)))
  }

  lemma StepListEffect(s: State, t: Tid, s': State)
    requires t in s.pcs && ValidSets(s.sets) && Step(s, t, s')
    ensures ListEffect(s, s.pcs[t], s')
  {
    hide BreakFilter, WatchFilter, FilterPasses, Search, Answers, Sorted, Nonempty, WellFormed, Apply, ValidSets;
  }

  lemma StepKeepsLists(s: State, t: Tid, s': State)
    requires t in s.pcs && ListsOk(s) && PcOk(s.pcs[t]) && Step(s, t, s')
    ensures ListsOk(s')
  {
    hide Step, BreakFilter, WatchFilter, Apply, Sorted, Nonempty, WellFormed;
    StepListEffect(s, t, s');
    if s.pcs[t].Locked? && s.pcs[t].call.Mutate? {
      ApplyKeepsSorted(s.pcs[t].call.change, s.sets);
    }
  }

  /** A step of t leaves the other threads where they are. */
  lemma StepIsLocal(s: State, t: Tid, s': State)
    requires t in s.pcs && ValidSets(s.sets) && Step(s, t, s')
    ensures t in s'.pcs && s'.pcs == s.pcs[t := s'.pcs[t]]
  {
    hide BreakFilter, WatchFilter, FilterPasses, Search, WellFormed, Apply, ValidSets;
    match s.pcs[t]
    case Idle =>
      var call :| WellFormed(call) && s' == Move(s, t, Called(call));
    case _ =>
  }

  /** Where the stepping thread ends up, and that it alone takes or leaves the lock. */
  lemma StepOfThread(s: State, t: Tid, s': State)
    requires t in s.pcs && ValidSets(s.sets) && PcOk(s.pcs[t]) && Step(s, t, s')
    requires HoldsLock(s.pcs[t]) ==> s.lock == Some(t)
    ensures t in s'.pcs && PcOk(s'.pcs[t]) && (HoldsLock(s'.pcs[t]) ==> s'.lock == Some(t))
    ensures s'.lock == s.lock || s.lock == None || s.lock == Some(t)
  {
    hide BreakFilter, WatchFilter, FilterPasses, Search, WellFormed, Apply, ValidSets;
    match s.pcs[t]
    case Idle =>
      var call :| WellFormed(call) && s' == Move(s, t, Called(call));
    case _ =>
  }

  lemma StepKeepsThreads(s: State, t: Tid, s': State)
    requires t in s.pcs && ValidSets(s.sets) && ThreadsOk(s) && Step(s, t, s')
    ensures ThreadsOk(s')
  {
    hide Step, PcOk, ValidSets;
    StepOfThread(s, t, s');
    StepIsLocal(s, t, s');
  }

  lemma StepKeepsLock(s: State, t: Tid, s': State)
    requires t in s.pcs && ListsOk(s) && ThreadsOk(s) && LockOk(s) && Step(s, t, s')
    ensures LockOk(s')
  {
    hide BreakFilter, WatchFilter, Inserted, Removed, FilterPasses, Search, Answers, Sorted, Nonempty, Retained, WellFormed;
  }

  /** Every step keeps the invariant: in particular each filter always summarises the list
      that was current when it was stored. */
  lemma StepKeepsInv(s: State, t: Tid, s': State)
    requires t in s.pcs && Inv(s) && Step(s, t, s')
    ensures Inv(s')
  {
    hide Step, ListsOk, ThreadsOk, LockOk;
    assert PcOk(s.pcs[t]) && ValidSets(s.sets) by {
      Unpack(s, t);
    }
    StepKeepsLists(s, t, s');
    StepKeepsThreads(s, t, s');
    StepKeepsLock(s, t, s');
  }

  lemma Unpack(s: State, t: Tid)
    requires t in s.pcs && ListsOk(s) && ThreadsOk(s)
    ensures PcOk(s.pcs[t]) && ValidSets(s.sets)
  {
  }

  // ----------------------------------------------------- linearization

  /** Calls before and after their instant. */
  datatype Phase = Outside | Pending(call: Call) | Committed(call: Call, answer: Answer)

  function PhaseOf(pc: Pc): Phase {
    match pc
    case Idle => Outside
    case Called(call) => Pending(call)
    case Passed(call) => Pending(call)
    case Locked(call) => Pending(call)
    case Edited(call) => Pending(call)
    case BpStored(call) =>
      if call.Mutate? && IsBreakChange(call.change) then Committed(call, Done) else Pending(call)
    case WpStored(call) => Committed(call, Done)
    case Bumped(call) => Committed(call, Done)
    case Returning(call, answer) => Committed(call, answer)
  }

  /** The atomic specification: a query reads the visible lists, a change rewrites them. */
  ghost predicate Atomic(call: Call, answer: Answer, before: Sets, after: Sets) {
    Answers(call, answer, before) && after == if call.Mutate? then Apply(call.change, before) else before
  }

  /** What the filter alone decides is right for the visible lists. */
  lemma FilterDecides(call: Call, s: State)
    requires Inv(s) && WellFormed(call) && !call.Mutate?
    ensures !FilterPasses(call, s.bpFilter, s.wpFilter) ==> Answers(call, Rejected(call), s.visible)
    ensures call.AnyBreakpoints? && FilterPasses(call, s.bpFilter, s.wpFilter) ==> Answers(call, Is(true), s.visible)
  {
    hide WatchFilter, BloomBits, AccessMayHit, Hits;
    var keys := s.visible.breakpoints;
    match call
    case IsBreak(addr) =>
      if addr in keys {
        BreakFilterHits(keys, addr);
      }
    case AnyBreakpoints => FilterIsNonzero(keys);
    case NextBreak(_) => FilterIsNonzero(keys);
    case IsWatched(at, len, kind) =>
      hide BreakFilter;
      if !FilterPasses(call, s.bpFilter, s.wpFilter) {
        forall w | w in s.visible.watchpoints && w.Overlaps(at, len)
          ensures false
        {
          WatchFilterKeepsHits(s.visible.watchpoints, w, at, len);
        }
      }
  }

  lemma FilterIsNonzero(keys: seq<u64>)
    ensures BreakFilter(keys) != 0 <==> keys != []
  {
    hide BloomBits;
    if keys != [] {
      BreakFilterHits(keys, keys[0]);
      BloomNonzero(keys[0]);
      HitsNonzero(BreakFilter(keys), BloomBits(keys[0]));
    }
  }

  lemma ChangeIsDone(pc: Pc)
    ensures pc != Idle && pc.call.Mutate? ==> forall s :: Answers(pc.call, Done, s)
  {
  }

  /** What the invariant says of the stepping thread. */
  lemma Holder(s: State, t: Tid)
    requires t in s.pcs && Inv(s)
    ensures PcOk(s.pcs[t]) && ValidSets(s.sets) && ValidSets(s.visible)
    ensures HoldsLock(s.pcs[t]) ==> HolderOk(s.pcs[t], s)
    ensures s.pcs[t].Locked? || s.pcs[t].WpStored? || s.pcs[t].Bumped? ==> s.sets == s.visible
    ensures s.pcs[t].Edited? ==>
      s.sets == Apply(s.pcs[t].call.change, s.visible) &&
      (if IsBreakChange(s.pcs[t].call.change) then s.sets.watchpoints == s.visible.watchpoints
       else s.sets.breakpoints == s.visible.breakpoints)
    ensures s.pcs[t].BpStored? ==>
      s.sets.breakpoints == s.visible.breakpoints &&
      s.sets == if IsBreakChange(s.pcs[t].call.change) then s.visible else Apply(s.pcs[t].call.change, s.visible)
  {
    hide BreakFilter, WatchFilter, WellFormed, Inserted, Removed, Retained, ValidSets;
    assert ValidSets(s.sets) && ValidSets(s.visible);
  }

  /** The step carries its thread from one phase to the next, acting on the visible lists
      where it commits the call and leaving them alone elsewhere. */
  ghost predicate PhaseStep(s: State, t: Tid, s': State)
    requires t in s.pcs && t in s'.pcs
  {
    var p, q := PhaseOf(s.pcs[t]), PhaseOf(s'.pcs[t]);
    if p.Pending? && q.Committed? then
      q.call == p.call && Atomic(p.call, q.answer, s.visible, s'.visible)
    else
      s'.visible == s.visible && (p == q || (p.Outside? && q.Pending?) || (p.Committed? && q.Outside?))
  }

  lemma StepFromCalled(s: State, t: Tid, s': State)
    requires t in s.pcs && t in s'.pcs && Inv(s) && Step(s, t, s') && s.pcs[t].Called?
    ensures PhaseStep(s, t, s')
  {
    hide Inv, BreakFilter, WatchFilter, FilterPasses, Search, Answers, HolderOk, Apply, ValidSets, WellFormed;
    var pc := s.pcs[t];
    Holder(s, t);
    if !pc.call.Mutate? {
      FilterDecides(pc.call, s);
    }
  }

  lemma StepWithLock(s: State, t: Tid, s': State)
    requires t in s.pcs && t in s'.pcs && Inv(s) && Step(s, t, s') && !s.pcs[t].Called?
    ensures PhaseStep(s, t, s')
  {
    hide Inv, BreakFilter, WatchFilter, FilterPasses, Search, Answers, HolderOk, Apply, ValidSets, WellFormed;
    var pc := s.pcs[t];
    Holder(s, t);
    if pc.Locked? {
      SearchAnswers(pc.call, s.sets);
    }
    ChangeIsDone(pc);
    match pc
    case Idle =>
      var call :| WellFormed(call) && s' == Move(s, t, Called(call));
    case _ =>
  }

  /** Linearizability, step by step. A step that does not carry its thread from pending to
      committed leaves the visible lists alone; one that does performs the whole call on
      them atomically, with the answer the call will return. Other threads' calls do not
      move, and a committed call keeps its answer until it returns. */
  lemma StepIsAtomic(s: State, t: Tid, s': State)
    requires t in s.pcs && Inv(s) && Step(s, t, s')
    ensures t in s'.pcs && forall u :: u in s.pcs && u != t ==> u in s'.pcs && s'.pcs[u] == s.pcs[u]
    ensures PhaseStep(s, t, s')
  {
    hide Step, Inv, PhaseStep;
    Holder(s, t);
    StepIsLocal(s, t, s');
    if s.pcs[t].Called? {
      StepFromCalled(s, t, s');
    } else {
      StepWithLock(s, t, s');
    }
  }

  // ------------------------------------------------------------ whole runs

  /** A run: each state follows from the one before by a step of some thread. */
  ghost predicate IsRun(run: seq<State>, who: seq<Tid>) {
    && |run| == |who| + 1 && Init(run[0])
    && forall k :: 0 <= k < |who| ==>
         ValidSets(run[k].sets) && who[k] in run[k].pcs && Step(run[k], who[k], run[k + 1])
  }

  lemma RunSteps(run: seq<State>, who: seq<Tid>, k: nat)
    requires IsRun(run, who) && k < |who|
    ensures k + 1 < |run| && who[k] in run[k].pcs && ValidSets(run[k].sets) && Step(run[k], who[k], run[k + 1])
  {
    hide Init, Step, ValidSets;
  }

  lemma {:induction false} RunKeepsInv(run: seq<State>, who: seq<Tid>, k: nat)
    requires IsRun(run, who) && k < |run|
    ensures Inv(run[k])
  {
    hide Inv, Init, Step, ValidSets;
    if k == 0 {
      InitOk(run[0]);
    } else {
      RunKeepsInv(run, who, k - 1);
      RunSteps(run, who, k - 1);
      hide IsRun;
      StepKeepsInv(run[k - 1], who[k - 1], run[k]);
    }
  }

  /** Thread t is inside one call from i to j: pending at i, past its instant at j, and
      never out of the call between. */
  ghost predicate DuringCall(run: seq<State>, t: Tid, i: nat, j: nat) {
    && i <= j < |run|
    && (forall k :: i <= k <= j ==> t in run[k].pcs && !PhaseOf(run[k].pcs[t]).Outside?)
    && PhaseOf(run[i].pcs[t]).Pending? && PhaseOf(run[j].pcs[t]).Committed?
  }

  /** Under every interleaving, each call has one instant inside it, a step of its own
      thread, at which it acts atomically on the visible lists: a query's answer is the one an
      unfiltered scan gives there, and a change is made there as a whole. */
  lemma {:induction false} CallLinearizes(run: seq<State>, who: seq<Tid>, t: Tid, i: nat, j: nat)
    requires IsRun(run, who) && DuringCall(run, t, i, j)
    ensures exists k :: i <= k < j && who[k] == t
              && Atomic(PhaseOf(run[j].pcs[t]).call, PhaseOf(run[j].pcs[t]).answer, run[k].visible, run[k + 1].visible)
    decreases j
  {
    hide Inv, Init, Atomic, Step, ValidSets, PhaseOf;
    var k := j - 1;
    RunKeepsInv(run, who, k);
    RunSteps(run, who, k);
    StepIsAtomic(run[k], who[k], run[j]);
    if PhaseOf(run[k].pcs[t]) == PhaseOf(run[j].pcs[t]) {
      CallLinearizes(run, who, t, i, k);
    }
  }

  // ---- What the generation tells ----

  /** How often the generation was bumped from state i to state j of a run. */
  function Bumps(run: seq<State>, who: seq<Tid>, i: nat, j: nat): nat
    requires i <= j < |run| && |run| == |who| + 1
    decreases j
  {
    if i == j then 0
    else Bumps(run, who, i, j - 1) + if who[j - 1] in run[j - 1].pcs && run[j - 1].pcs[who[j - 1]].WpStored? then 1 else 0
  }

  /** A step bumps the generation once its change has stored both filters, and not otherwise;
      it changes the lists only where it starts a change, which then holds the lock. */
  lemma StepOfGeneration(s: State, t: Tid, s': State)
    requires t in s.pcs && ValidSets(s.sets) && Step(s, t, s')
    ensures s'.generation == if s.pcs[t].WpStored? then WrapAdd(s.generation, 1) else s.generation
    ensures s'.sets != s.sets ==> t in s'.pcs && s'.pcs[t].Edited?
    ensures s.pcs[t].Edited? ==> t in s'.pcs && s'.pcs[t].BpStored?
    ensures s.pcs[t].BpStored? ==> t in s'.pcs && s'.pcs[t].WpStored?
  {
    hide BreakFilter, WatchFilter, FilterPasses, Search, WellFormed, Apply, ValidSets;
    match s.pcs[t]
    case Idle =>
      var call :| WellFormed(call) && s' == Move(s, t, Called(call));
    case _ =>
  }

  lemma BumpOnce(g: u64, n: nat)
    ensures WrapAdd(WrapAdd(g, n), 1) == WrapAdd(g, n + 1)
  {
    var q := (g + n) / TWO64;
    assert WrapAdd(g, n) == g + n - TWO64 * q;
    ModUnique(TWO64, (g + n + 1) / TWO64 - q, (g + n + 1) % TWO64, WrapAdd(g, n) + 1);
  }

  lemma {:induction false} GenerationCounts(run: seq<State>, who: seq<Tid>, i: nat, j: nat)
    requires IsRun(run, who) && i <= j < |run|
    ensures Bumps(run, who, i, j) <= j - i
    ensures run[j].generation == WrapAdd(run[i].generation, Bumps(run, who, i, j))
    decreases j
  {
    hide Init, Step, ValidSets;
    if i == j {
      assert WrapAdd(run[i].generation, 0) == run[i].generation;
    } else {
      GenerationCounts(run, who, i, j - 1);
      RunSteps(run, who, j - 1);
      StepOfGeneration(run[j - 1], who[j - 1], run[j]);
      BumpOnce(run[i].generation, Bumps(run, who, i, j - 1));
      hide IsRun, WrapAdd;
    }
  }

  /** A thread is between editing the lists and bumping the generation. */
  predicate Unannounced(pc: Pc) {
    pc.Edited? || pc.BpStored? || pc.WpStored?
  }

  lemma {:induction false} UnbumpedIsUnchanged(run: seq<State>, who: seq<Tid>, i: nat, j: nat)
    requires IsRun(run, who) && i <= j < |run| && run[i].lock == None && Bumps(run, who, i, j) == 0
    ensures run[j].sets == run[i].sets || exists t :: t in run[j].pcs && Unannounced(run[j].pcs[t])
    decreases j
  {
    hide Init, Step, ValidSets, Inv;
    if i < j {
      UnbumpedIsUnchanged(run, who, i, j - 1);
      RunSteps(run, who, j - 1);
      RunKeepsInv(run, who, j - 1);
      var s, t, s' := run[j - 1], who[j - 1], run[j];
      StepOfGeneration(s, t, s');
      StepIsLocal(s, t, s');
      hide IsRun;
      if s'.sets != s.sets {
        assert Unannounced(s'.pcs[t]);
      } else if s.sets != run[i].sets {
        var u :| u in s.pcs && Unannounced(s.pcs[u]);
        assert Unannounced(s'.pcs[u]);
      }
    }
  }

  /** Two states of a run in which the lock is free and the generation is the same, less than
      2^64 steps apart: the lists are the same, and so is what every query is answered. */
  lemma SameGenerationSameLists(run: seq<State>, who: seq<Tid>, i: nat, j: nat)
    requires IsRun(run, who) && i <= j < |run| && j - i < TWO64
    requires run[i].lock == None && run[j].lock == None && run[i].generation == run[j].generation
    ensures run[j].sets == run[i].sets && run[j].visible == run[i].visible
  {
    hide Init, Step, ValidSets, Inv, Bumps;
    GenerationCounts(run, who, i, j);
    NoBumps(run[i].generation, Bumps(run, who, i, j));
    UnbumpedIsUnchanged(run, who, i, j);
    RunKeepsInv(run, who, i);
    RunKeepsInv(run, who, j);
    FreeLock(run[i]);
    FreeLock(run[j]);
  }

  lemma NoBumps(g: u64, n: nat)
    requires n < TWO64 && WrapAdd(g, n) == g
    ensures n == 0
  {
    var q := (g + n) / TWO64;
    assert n == TWO64 * q;
    ModUnique(TWO64, q, 0, n);
  }

  /** While the lock is free no change is under way, and the lists are the visible ones. */
  lemma FreeLock(s: State)
    requires Inv(s) && s.lock == None
    ensures s.sets == s.visible && forall t :: t in s.pcs ==> !Unannounced(s.pcs[t])
  {
    hide BreakFilter, WatchFilter, ValidSets, PcOk;
  }

  /** The lock matters: a change that has edited the lists and not yet bumped the generation
      shows the same generation over other lists. */
  lemma SameGenerationWhileLocked(s: State, t: Tid, s': State)
    requires t in s.pcs && ValidSets(s.sets) && Step(s, t, s') && s.pcs[t].Locked? && s.pcs[t].call.Mutate?
    ensures s'.generation == s.generation
    ensures s'.sets != s.sets <==> Apply(s.pcs[t].call.change, s.sets) != s.sets
  {
    hide BreakFilter, WatchFilter, FilterPasses, Search, WellFormed, Apply, ValidSets;
  }
}
