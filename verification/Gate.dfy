/** The regression gate: comparing a run with its pinned entry, running a manifest, and
    folding observations back into it. */
module Gate {
  import opened Words
  import opened TomlLite
  import opened ManifestText
  import opened ManifestRoundTrip
  import opened ManifestLaw

  datatype Observed = Observed(
    outcome: Outcome, exitCode: i64, steps: u64, rip: Option<u64>, artifacts: u64, detail: string)

  /** What differs: the pinned value, then the observed one. */
  datatype Problem =
    | OutcomeDiffers(Outcome, Outcome)
    | StepsDiffer(u64, tolerance: u64, u64)
    | ExitCodeDiffers(i64, i64)
    | RipDiffers(u64, u64)
    | ReasonDiffers(string, string)
    | ArtifactsDiffer(u64, u64)

  datatype Verdict = Verdict(entry: Entry, observed: Observed, problems: seq<Problem>) {
    predicate Passed() {
      problems == []
    }
  }

  predicate Both(e: Entry, o: Observed, outcome: Outcome) {
    e.outcome == outcome && o.outcome == outcome
  }

  /** `compare` */
  function Compare(e: Entry, o: Observed): seq<Problem> {
    (if o.outcome != e.outcome then [OutcomeDiffers(e.outcome, o.outcome)] else []) +
    (if Abs(o.steps - e.steps) > e.tolerance then [StepsDiffer(e.steps, e.tolerance, o.steps)] else []) +
    (if Both(e, o, Exit) && o.exitCode != e.exitCode then [ExitCodeDiffers(e.exitCode, o.exitCode)] else []) +
    (if Both(e, o, Fault) && e.rip.Some? && o.rip.Some? && e.rip != o.rip then [RipDiffers(e.rip.value, o.rip.value)] else []) +
    (if Both(e, o, Fault) && e.stop.Some? && e.stop.value != o.detail then [ReasonDiffers(e.stop.value, o.detail)] else []) +
    (if e.artifacts.Some? && e.artifacts.value != o.artifacts then [ArtifactsDiffer(e.artifacts.value, o.artifacts)] else [])
  }

  const JITTER_FLOOR: u64 := 64

  /** `Entry::default_tolerance` */
  function DefaultTolerance(outcome: Outcome, steps: u64, virtualClock: bool): u64 {
    if virtualClock then 0
    else if outcome == Exit then JITTER_FLOOR
    else if steps / 1000 > JITTER_FLOOR then steps / 1000
    else JITTER_FLOOR
  }

  /** An entry pinned to the ending of a run: outcome, step count and tolerance. */
  function PinnedCount(e: Entry, o: Observed): Entry {
    e.(outcome := o.outcome,
       steps := o.steps,
       tolerance := DefaultTolerance(o.outcome, o.steps, e.virtualClock))
  }

  /** An entry pinned to where a run ended: its exit code, or its address and reason. */
  function PinnedStop(e: Entry, o: Observed): Entry {
    if o.outcome == Exit then e.(exitCode := o.exitCode, rip := None, stop := None)
    else e.(rip := o.rip, stop := Some(o.detail))
  }

  /** An entry pinned to an observation. */
  function Pinned(e: Entry, o: Observed): Entry {
    PinnedStop(PinnedCount(e, o), o).(artifacts := Some(o.artifacts))
  }

  datatype Change = Change(name: string, key: string)

  function ChangedIf(b: bool, name: string, key: string): seq<Change> {
    if b then [Change(name, key)] else []
  }

  function CountChanges(e: Entry, o: Observed): seq<Change> {
    ChangedIf(e.outcome != o.outcome, e.name, "outcome") +
    ChangedIf(e.steps != o.steps, e.name, "steps") +
    ChangedIf(e.tolerance != DefaultTolerance(o.outcome, o.steps, e.virtualClock), e.name, "tolerance")
  }

  function StopChanges(e: Entry, o: Observed): seq<Change> {
    if o.outcome == Exit then ChangedIf(e.exitCode != o.exitCode, e.name, "exit_code")
    else ChangedIf(e.rip != o.rip, e.name, "rip") + ChangedIf(e.stop != Some(o.detail), e.name, "stop")
  }

  /** The changes that are reported when an entry is pinned. */
  function ChangesOf(e: Entry, o: Observed): seq<Change> {
    CountChanges(e, o) + StopChanges(e, o) + ChangedIf(e.artifacts != Some(o.artifacts), e.name, "artifacts")
  }

  // ---- Running a manifest ----

  /** What a run depends on. */
  datatype RunInput = RunInput(
    name: string, path: string, maxSteps: u64, virtualClock: bool, jit: bool, debugIdle: bool, wineBoot: Option<string>)

  function InputOf(e: Entry): RunInput {
    RunInput(e.name, e.path, e.maxSteps, e.virtualClock, e.jit, e.debugIdle, e.wineBoot)
  }

  /** A deterministic emulator: None where the run cannot be carried out. */
  type Emulator = RunInput -> Option<Observed>

  datatype Options = Options(only: Option<string>, quick: bool)

  /** `str::contains` */
  predicate Contains(s: string, part: string) {
    part <= s || (s != "" && Contains(s[1..], part))
  }

  predicate Selected(e: Entry, opts: Options) {
    (opts.only.Some? ==> Contains(e.name, opts.only.value)) && (opts.quick ==> e.quick)
  }

  /** The verdicts on the first n entries; None when a selected one cannot be run. */
  function Verdicts(es: seq<Entry>, n: nat, opts: Options, emu: Emulator): Option<seq<Verdict>>
    requires n <= |es|
  {
    if n == 0 then Some([])
    else
      match Verdicts(es, n - 1, opts, emu)
      case None => None
      case Some(vs) =>
        var e := es[n - 1];
        if !Selected(e, opts) then Some(vs)
        else
          match emu(InputOf(e))
          case None => None
          case Some(o) => Some(vs + [Verdict(e, o, Compare(e, o))])
  }

  /** `run_manifest`: None when a run fails or nothing was selected. */
  function RunManifest(es: seq<Entry>, opts: Options, emu: Emulator): Option<seq<Verdict>> {
    match Verdicts(es, |es|, opts, emu)
    case None => None
    case Some(vs) => if vs == [] then None else Some(vs)
  }

  predicate AllPassed(vs: Option<seq<Verdict>>) {
    vs.Some? && forall k :: 0 <= k < |vs.value| ==> vs.value[k].Passed()
  }

  method RunGate(es: seq<Entry>, opts: Options, emu: Emulator) returns (r: Option<seq<Verdict>>)
    ensures r == RunManifest(es, opts, emu)
  {
    hide Compare;
    var out := [];
    for n := 0 to |es|
      invariant Verdicts(es, n, opts, emu) == Some(out)
    {
      if !Selected(es[n], opts) {
        continue;
      }
      match emu(InputOf(es[n])) {
        case None =>
          FailureStays(es, n + 1, |es|, opts, emu);
          return None;
        case Some(o) =>
          out := out + [Verdict(es[n], o, Compare(es[n], o))];
      }
    }
    return if out == [] then None else Some(out);
  }

  lemma {:induction false} FailureStays(es: seq<Entry>, m: nat, n: nat, opts: Options, emu: Emulator)
    requires m <= n <= |es| && Verdicts(es, m, opts, emu).None?
    ensures Verdicts(es, n, opts, emu).None?
  {
    hide Compare;
    if m < n {
      FailureStays(es, m, n - 1, opts, emu);
    }
  }

  // ---- Folding observations back ----

  /** Index of the first entry of a name, or the number of entries. */
  function FirstNamed(es: seq<Entry>, name: string): (i: nat)
    ensures i <= |es| && (i < |es| ==> es[i].name == name)
    ensures forall k :: 0 <= k < i ==> es[k].name != name
  {
    if es == [] || es[0].name == name then 0 else FirstNamed(es[1..], name) + 1
  }

  function UpdateOne(es: seq<Entry>, v: Verdict): seq<Entry> {
    var i := FirstNamed(es, v.entry.name);
    if i < |es| then es[i := Pinned(es[i], v.observed)] else es
  }

  /** The entries after the first n verdicts. */
  function Update(es: seq<Entry>, vs: seq<Verdict>, n: nat): seq<Entry>
    requires n <= |vs|
  {
    if n == 0 then es else UpdateOne(Update(es, vs, n - 1), vs[n - 1])
  }

  function ChangesIn(es: seq<Entry>, vs: seq<Verdict>, n: nat): seq<Change>
    requires n <= |vs|
  {
    if n == 0 then []
    else
      var before := Update(es, vs, n - 1);
      var i := FirstNamed(before, vs[n - 1].entry.name);
      ChangesIn(es, vs, n - 1) + if i < |before| then ChangesOf(before[i], vs[n - 1].observed) else []
  }

  class Manifest {
    var header: string
    var entries: seq<Entry>

    constructor (m: Contents)
      ensures header == m.header && entries == m.entries
    {
      header, entries := m.header, m.entries;
    }

    function Value(): Contents
      reads this
    {
      Contents(header, entries)
    }

    /** `apply_update` */
    method ApplyUpdate(verdicts: seq<Verdict>) returns (changes: seq<Change>)
      modifies this`entries
      ensures entries == Update(old(entries), verdicts, |verdicts|)
      ensures changes == ChangesIn(old(entries), verdicts, |verdicts|)
    {
      hide CountChanges, StopChanges, PinnedStop, PinnedCount;
      changes := [];
      for n := 0 to |verdicts|
        invariant entries == Update(old(entries), verdicts, n)
        invariant changes == ChangesIn(old(entries), verdicts, n)
      {
        var v := verdicts[n];
        var i := FirstNamed(entries, v.entry.name);
        if i == |entries| {
          continue;
        }
        var counted, first := PinCount(entries[i], v.observed);
        var stopped, second := PinStop(counted, v.observed);
        var pinned, third := PinArtifacts(stopped, v.observed);
        PinParts(entries[i], v.observed);
        entries := entries[i := pinned];
        changes := changes + (first + second + third);
      }
    }

    static method PinCount(was: Entry, o: Observed) returns (e: Entry, changes: seq<Change>)
      ensures e == PinnedCount(was, o) && changes == CountChanges(was, o)
    {
      e, changes := was, [];
      if e.outcome != o.outcome {
        changes := changes + [Change(e.name, "outcome")];
        e := e.(outcome := o.outcome);
      }
      if e.steps != o.steps {
        changes := changes + [Change(e.name, "steps")];
        e := e.(steps := o.steps);
      }
      var tol := DefaultTolerance(o.outcome, o.steps, e.virtualClock);
      if e.tolerance != tol {
        changes := changes + [Change(e.name, "tolerance")];
        e := e.(tolerance := tol);
      }
    }

    static method PinStop(was: Entry, o: Observed) returns (e: Entry, changes: seq<Change>)
      ensures e == PinnedStop(was, o) && changes == StopChanges(was, o)
    {
      e, changes := was, [];
      if o.outcome == Exit {
        if e.exitCode != o.exitCode {
          changes := changes + [Change(e.name, "exit_code")];
          e := e.(exitCode := o.exitCode);
        }
        e := e.(rip := None, stop := None);
      } else {
        if e.rip != o.rip {
          changes := changes + [Change(e.name, "rip")];
          e := e.(rip := o.rip);
        }
        if e.stop != Some(o.detail) {
          changes := changes + [Change(e.name, "stop")];
          e := e.(stop := Some(o.detail));
        }
      }
    }

    static method PinArtifacts(was: Entry, o: Observed) returns (e: Entry, changes: seq<Change>)
      ensures e == was.(artifacts := Some(o.artifacts))
      ensures changes == ChangedIf(was.artifacts != Some(o.artifacts), was.name, "artifacts")
    {
      e, changes := was, [];
      if e.artifacts != Some(o.artifacts) {
        changes := [Change(e.name, "artifacts")];
        e := e.(artifacts := Some(o.artifacts));
      }
    }
  }

  // ---- Pinning makes the comparison pass ----

  lemma PinParts(e: Entry, o: Observed)
    ensures var c := PinnedCount(e, o);
            StopChanges(c, o) == StopChanges(e, o) && PinnedStop(c, o).name == e.name &&
            PinnedStop(c, o).artifacts == e.artifacts
  {
  }

  lemma PinnedPasses(e: Entry, o: Observed)
    ensures Compare(Pinned(e, o), o) == []
    ensures ChangesOf(Pinned(e, o), o) == [] && Pinned(Pinned(e, o), o) == Pinned(e, o)
  {
  }

  /** Re-running does not depend on what pinning changes. */
  lemma PinnedRunsAlike(e: Entry, o: Observed, opts: Options)
    ensures InputOf(Pinned(e, o)) == InputOf(e) && Selected(Pinned(e, o), opts) == Selected(e, opts)
    ensures Pinned(e, o).name == e.name && Pinned(e, o).note == e.note && Pinned(e, o).quick == e.quick
  {
  }

  predicate IsFirst(es: seq<Entry>, k: nat)
    requires k < |es|
  {
    forall j :: 0 <= j < k ==> es[j].name != es[k].name
  }

  /** Same names and same inputs, place by place. */
  predicate Alike(es: seq<Entry>, fs: seq<Entry>, opts: Options) {
    |es| == |fs| &&
    forall k :: 0 <= k < |es| ==>
      es[k].name == fs[k].name && InputOf(es[k]) == InputOf(fs[k]) && Selected(es[k], opts) == Selected(fs[k], opts)
  }

  lemma {:induction false} UpdateIsAlike(es: seq<Entry>, vs: seq<Verdict>, n: nat, opts: Options)
    requires n <= |vs|
    ensures Alike(es, Update(es, vs, n), opts)
  {
    hide Pinned, InputOf, Selected;
    if n > 0 {
      UpdateIsAlike(es, vs, n - 1, opts);
      var before := Update(es, vs, n - 1);
      var i := FirstNamed(before, vs[n - 1].entry.name);
      if i < |before| {
        PinnedRunsAlike(before[i], vs[n - 1].observed, opts);
      }
    }
  }

  /** The observation an entry was pinned to, if it was selected and came first. */
  function Repinned(es: seq<Entry>, k: nat, opts: Options, emu: Emulator): Entry
    requires k < |es|
  {
    if Selected(es[k], opts) && emu(InputOf(es[k])).Some? then Pinned(es[k], emu(InputOf(es[k])).value) else es[k]
  }

  predicate SelectedComeFirst(es: seq<Entry>, opts: Options) {
    forall k :: 0 <= k < |es| && Selected(es[k], opts) ==> IsFirst(es, k)
  }

  lemma {:induction false} UpdatePrefix(es: seq<Entry>, vs: seq<Verdict>, ws: seq<Verdict>, n: nat)
    requires n <= |vs| <= |ws| && ws[..|vs|] == vs
    ensures Update(es, ws, n) == Update(es, vs, n)
  {
    if n > 0 {
      UpdatePrefix(es, vs, ws, n - 1);
      assert ws[..|vs|][n - 1] == ws[n - 1];
    }
  }

  /** Every verdict lands on the entry it was made for, and on no other. */
  lemma {:induction false} UpdateLands(es: seq<Entry>, n: nat, opts: Options, emu: Emulator)
    requires n <= |es| && SelectedComeFirst(es, opts) && Verdicts(es, n, opts, emu).Some?
    ensures var vs := Verdicts(es, n, opts, emu).value; var fs := Update(es, vs, |vs|);
            |fs| == |es| &&
            (forall k :: 0 <= k < n ==> fs[k] == Repinned(es, k, opts, emu)) &&
            (forall k :: n <= k < |es| ==> fs[k] == es[k])
  {
    hide Compare, Pinned, InputOf, Selected, Update, UpdateOne, IsFirst;
    if n == 0 {
      UpdateNothing(es, []);
    } else {
      UpdateLands(es, n - 1, opts, emu);
      var before := Verdicts(es, n - 1, opts, emu).value;
      if Selected(es[n - 1], opts) {
        assert IsFirst(es, n - 1);
        UpdateAppend(es, before, Verdicts(es, n, opts, emu).value[|before|], n - 1, opts);
      }
    }
  }

  lemma UpdateNothing(es: seq<Entry>, vs: seq<Verdict>)
    ensures Update(es, vs, 0) == es
  {
  }

  /** One more verdict, on the first entry of its name, changes that entry only. */
  lemma UpdateAppend(es: seq<Entry>, vs: seq<Verdict>, v: Verdict, k: nat, opts: Options)
    requires k < |es| && IsFirst(es, k) && v.entry.name == es[k].name
    ensures |Update(es, vs, |vs|)| == |es|
    ensures Update(es, vs + [v], |vs| + 1) ==
      Update(es, vs, |vs|)[k := Pinned(Update(es, vs, |vs|)[k], v.observed)]
  {
    hide Pinned, InputOf, Selected;
    var fs := Update(es, vs, |vs|);
    UpdatePrefix(es, vs, vs + [v], |vs|);
    UpdateKeepsNames(es, vs, |vs|, opts);
    assert (vs + [v])[|vs|] == v;
    hide Update;
    assert FirstNamed(fs, v.entry.name) == k;
  }

  lemma {:induction false} VerdictsOfRepinned(es: seq<Entry>, fs: seq<Entry>, n: nat, opts: Options, emu: Emulator)
    requires |fs| == |es| && n <= |es| && Verdicts(es, n, opts, emu).Some?
    requires forall k :: 0 <= k < n ==> fs[k] == Repinned(es, k, opts, emu)
    ensures Verdicts(fs, n, opts, emu).Some?
    ensures |Verdicts(fs, n, opts, emu).value| == |Verdicts(es, n, opts, emu).value|
    ensures forall k :: 0 <= k < |Verdicts(fs, n, opts, emu).value| ==> Verdicts(fs, n, opts, emu).value[k].Passed()
  {
    hide Compare, Pinned, InputOf, Selected;
    if n > 0 {
      VerdictsOfRepinned(es, fs, n - 1, opts, emu);
      if emu(InputOf(es[n - 1])).Some? {
        PinnedRunsAlike(es[n - 1], emu(InputOf(es[n - 1])).value, opts);
        PinnedPasses(es[n - 1], emu(InputOf(es[n - 1])).value);
      }
    }
  }

  /** After the observations of a run are folded in, the next run passes: provided every
      selected entry is the first of its name. */
  lemma BlessedPasses(es: seq<Entry>, opts: Options, emu: Emulator)
    requires SelectedComeFirst(es, opts) && RunManifest(es, opts, emu).Some?
    ensures var vs := RunManifest(es, opts, emu).value;
            AllPassed(RunManifest(Update(es, vs, |vs|), opts, emu))
  {
    hide Compare, Pinned, InputOf, Selected;
    UpdateLands(es, |es|, opts, emu);
    var vs := RunManifest(es, opts, emu).value;
    VerdictsOfRepinned(es, Update(es, vs, |vs|), |es|, opts, emu);
  }

  /** An entry behind another of its name is never pinned. */
  lemma {:induction false} LaterNamesakeStays(es: seq<Entry>, vs: seq<Verdict>, n: nat, k: nat, opts: Options)
    requires n <= |vs| && k < |es| && !IsFirst(es, k)
    ensures |Update(es, vs, n)| == |es| && Update(es, vs, n)[k] == es[k]
  {
    hide Pinned, InputOf, Selected, IsFirst, FirstNamed;
    UpdateKeepsNames(es, vs, n, opts);
    if n > 0 {
      LaterNamesakeStays(es, vs, n - 1, k, opts);
      UpdateKeepsNames(es, vs, n - 1, opts);
      NeverFirst(es, Update(es, vs, n - 1), k, vs[n - 1].entry.name);
    }
  }

  lemma NeverFirst(es: seq<Entry>, fs: seq<Entry>, k: nat, name: string)
    requires k < |es| == |fs| && !IsFirst(es, k) && forall i :: 0 <= i < |es| ==> fs[i].name == es[i].name
    ensures FirstNamed(fs, name) != k
  {
    var j :| 0 <= j < k && es[j].name == es[k].name;
    assert fs[j].name == fs[k].name;
  }

  lemma UpdateKeepsNames(es: seq<Entry>, vs: seq<Verdict>, n: nat, opts: Options)
    requires n <= |vs|
    ensures |Update(es, vs, n)| == |es|
    ensures forall k :: 0 <= k < |es| ==> Update(es, vs, n)[k].name == es[k].name
  {
    hide Update, InputOf, Selected;
    UpdateIsAlike(es, vs, n, opts);
  }

  lemma {:induction false} VerdictAt(es: seq<Entry>, n: nat, k: nat, opts: Options, emu: Emulator) returns (i: nat)
    requires k < n <= |es| && Selected(es[k], opts) && Verdicts(es, n, opts, emu).Some?
    ensures emu(InputOf(es[k])).Some? && i < |Verdicts(es, n, opts, emu).value|
    ensures Verdicts(es, n, opts, emu).value[i].problems == Compare(es[k], emu(InputOf(es[k])).value)
  {
    hide Compare, InputOf, Selected;
    if k == n - 1 {
      i := |Verdicts(es, n - 1, opts, emu).value|;
    } else {
      i := VerdictAt(es, n - 1, k, opts, emu);
    }
  }

  function OtherOutcome(o: Outcome): Outcome {
    if o == Exit then Fault else Exit
  }

  /** A selected namesake behind another defeats some emulator: one that ends differently. */
  lemma NamesakeFails(es: seq<Entry>, opts: Options, k: nat) returns (emu: Emulator)
    requires k < |es| && Selected(es[k], opts) && !IsFirst(es, k)
    ensures RunManifest(es, opts, emu).Some?
    ensures var vs := RunManifest(es, opts, emu).value;
            !AllPassed(RunManifest(Update(es, vs, |vs|), opts, emu))
  {
    hide InputOf, Selected, Pinned;
    var seen := Observed(OtherOutcome(es[k].outcome), 0, 0, None, 0, "");
    emu := _ => Some(seen);
    TotalRuns(es, |es|, opts, emu);
    var _ := VerdictAt(es, |es|, k, opts, emu);
    var vs := RunManifest(es, opts, emu).value;
    var fs := Update(es, vs, |vs|);
    LaterNamesakeStays(es, vs, |vs|, k, opts);
    TotalRuns(fs, |fs|, opts, emu);
    var i := VerdictAt(fs, |fs|, k, opts, emu);
    assert Compare(fs[k], seen)[0] == OutcomeDiffers(es[k].outcome, seen.outcome);
  }

  lemma {:induction false} TotalRuns(es: seq<Entry>, n: nat, opts: Options, emu: Emulator)
    requires n <= |es| && forall x :: emu(x).Some?
    ensures Verdicts(es, n, opts, emu).Some?
  {
    hide Compare;
    if n > 0 {
      TotalRuns(es, n - 1, opts, emu);
    }
  }

  ghost predicate BlessingWorks(es: seq<Entry>, opts: Options, emu: Emulator) {
    RunManifest(es, opts, emu).Some? ==>
      var vs := RunManifest(es, opts, emu).value;
      AllPassed(RunManifest(Update(es, vs, |vs|), opts, emu))
  }

  /** Re-blessing makes the gate pass, whatever the emulator does, exactly when no selected
      entry stands behind another of the same name. */
  lemma BlessingExactly(es: seq<Entry>, opts: Options)
    ensures (forall emu: Emulator :: BlessingWorks(es, opts, emu)) <==> SelectedComeFirst(es, opts)
  {
    hide RunManifest, AllPassed, Update, Selected, IsFirst;
    if SelectedComeFirst(es, opts) {
      forall emu: Emulator
        ensures BlessingWorks(es, opts, emu)
      {
        if RunManifest(es, opts, emu).Some? {
          BlessedPasses(es, opts, emu);
        }
      }
    } else {
      var k :| 0 <= k < |es| && Selected(es[k], opts) && !IsFirst(es, k);
      var emu := NamesakeFails(es, opts, k);
      assert !BlessingWorks(es, opts, emu);
    }
  }

  // ---- Saving in between ----

  /** What printing may lose does not matter to the comparison. */
  lemma RereadPasses(e: Entry, o: Observed)
    ensures Compare(e, o) == [] ==> Compare(Reread(e), o) == []
  {
  }

  lemma RereadRunsAlike(e: Entry, opts: Options)
    ensures InputOf(Reread(e)) == InputOf(e) && Selected(Reread(e), opts) == Selected(e, opts)
  {
  }

  lemma {:induction false} VerdictsOfReread(es: seq<Entry>, fs: seq<Entry>, n: nat, opts: Options, emu: Emulator)
    requires |fs| == |es| && (forall k :: 0 <= k < |es| ==> fs[k] == Reread(es[k])) && n <= |es|
    requires Verdicts(es, n, opts, emu).Some?
    requires forall k :: 0 <= k < |Verdicts(es, n, opts, emu).value| ==> Verdicts(es, n, opts, emu).value[k].Passed()
    ensures Verdicts(fs, n, opts, emu).Some?
    ensures |Verdicts(fs, n, opts, emu).value| == |Verdicts(es, n, opts, emu).value|
    ensures forall k :: 0 <= k < |Verdicts(fs, n, opts, emu).value| ==> Verdicts(fs, n, opts, emu).value[k].Passed()
  {
    hide Compare, Reread, InputOf, Selected;
    if n > 0 {
      var vs := Verdicts(es, n, opts, emu).value;
      var before := Verdicts(es, n - 1, opts, emu).value;
      assert forall k :: 0 <= k < |before| ==> vs[k] == before[k];
      VerdictsOfReread(es, fs, n - 1, opts, emu);
      RereadRunsAlike(es[n - 1], opts);
      if Selected(es[n - 1], opts) {
        assert vs[|vs| - 1].Passed();
        RereadPasses(es[n - 1], emu(InputOf(es[n - 1])).value);
      }
    }
  }

  /** Run, fold in, save, load: the next run passes, though an exit code or an address may
      have been lost on the way. */
  lemma SavedBlessPasses(m: Contents, opts: Options, emu: Emulator)
    requires HeaderOk(m.header) && SelectedComeFirst(m.entries, opts) && RunManifest(m.entries, opts, emu).Some?
    requires var vs := RunManifest(m.entries, opts, emu).value;
             forall e :: e in Update(m.entries, vs, |vs|) ==> OneLineStrings(e) && CountsFit(e)
    ensures var vs := RunManifest(m.entries, opts, emu).value;
            var loaded := ParseManifest(ToToml(m.(entries := Update(m.entries, vs, |vs|))));
            loaded.Ok? && AllPassed(RunManifest(loaded.value.entries, opts, emu))
  {
    hide Compare, Reread, InputOf, Selected, HeaderOk, OneLineStrings, CountsFit, ParseManifest, ToToml;
    var vs := RunManifest(m.entries, opts, emu).value;
    var fs := Update(m.entries, vs, |vs|);
    BlessedPasses(m.entries, opts, emu);
    UpdateIsAlike(m.entries, vs, |vs|, opts);
    assert fs != [];
    ReadPrinted(m.(entries := fs));
    RereadAt(fs);
    VerdictsOfReread(fs, RereadAll(fs), |fs|, opts, emu);
  }
}
