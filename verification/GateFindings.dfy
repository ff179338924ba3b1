/** What the gate finds: each kind of difference, and only that. */
module GateFindings {
  import opened Words
  import opened ManifestText
  import opened Gate

  // ---- One comparison ----

  /** The step counts differ by no more than the tolerance. */
  predicate StepsFit(e: Entry, o: Observed) {
    o.steps <= e.steps + e.tolerance && e.steps <= o.steps + e.tolerance
  }

  predicate ExitCodesFit(e: Entry, o: Observed) {
    e.outcome == Exit && o.outcome == Exit ==> e.exitCode == o.exitCode
  }

  predicate AddressesFit(e: Entry, o: Observed) {
    e.outcome == Fault && o.outcome == Fault && e.rip.Some? && o.rip.Some? ==> e.rip.value == o.rip.value
  }

  predicate ReasonsFit(e: Entry, o: Observed) {
    e.outcome == Fault && o.outcome == Fault && e.stop.Some? ==> e.stop.value == o.detail
  }

  predicate ArtifactsFit(e: Entry, o: Observed) {
    e.artifacts.Some? ==> e.artifacts.value == o.artifacts
  }

  /** The run is as it was pinned. */
  predicate Meets(e: Entry, o: Observed) {
    e.outcome == o.outcome && StepsFit(e, o) && ExitCodesFit(e, o) && AddressesFit(e, o) && ReasonsFit(e, o) && ArtifactsFit(e, o)
  }

  lemma AbsIs(x: int)
    ensures Abs(x) == if x < 0 then 0 - x else x
  {
  }

  /** Each problem is reported exactly when its own field differs, with the pinned value and
      the observed one; and there is no problem if and only if none does. */
  lemma FindsExactly(e: Entry, o: Observed, p: Problem)
    ensures p in Compare(e, o) <==>
      match p
      case OutcomeDiffers(want, got) => e.outcome != o.outcome && want == e.outcome && got == o.outcome
      case StepsDiffer(want, tolerance, got) => !StepsFit(e, o) && want == e.steps && tolerance == e.tolerance && got == o.steps
      case ExitCodeDiffers(want, got) => !ExitCodesFit(e, o) && want == e.exitCode && got == o.exitCode
      case RipDiffers(want, got) => !AddressesFit(e, o) && e.rip == Some(want) && o.rip == Some(got)
      case ReasonDiffers(want, got) => !ReasonsFit(e, o) && e.stop == Some(want) && got == o.detail
      case ArtifactsDiffer(want, got) => !ArtifactsFit(e, o) && e.artifacts == Some(want) && got == o.artifacts
  {
    AbsIs(o.steps - e.steps);
    hide Abs;
  }

  lemma ComparesExactly(e: Entry, o: Observed)
    ensures Compare(e, o) == [] <==> Meets(e, o)
  {
    AbsIs(o.steps - e.steps);
    hide Abs;
  }

  /** An exit pinned with code 0 and 1000 steps, observed with code 1 after 900000: two
      problems, in this order. */
  lemma TwoProblems(e: Entry, o: Observed)
    requires e.outcome == Exit && e.exitCode == 0 && e.steps == 1000 && e.tolerance == 64 && e.artifacts == None
    requires o.outcome == Exit && o.exitCode == 1 && o.steps == 900_000
    ensures Compare(e, o) == [StepsDiffer(1000, 64, 900_000), ExitCodeDiffers(0, 1)]
  {
    AbsIs(o.steps - e.steps);
    hide Abs;
  }

  // ---- The whole gate ----

  predicate StandsAt(s: string, part: string, i: int) {
    0 <= i <= |s| - |part| && s[i..i + |part|] == part
  }

  /** The name contains the text asked for, and a quick run takes quick entries only. */
  ghost predicate Picked(e: Entry, opts: Options) {
    (opts.only.Some? ==> exists i :: StandsAt(e.name, opts.only.value, i)) &&
    (opts.quick ==> e.quick)
  }

  lemma {:induction false} ContainsExactly(s: string, part: string)
    ensures Contains(s, part) <==> exists i :: StandsAt(s, part, i)
  {
    if part <= s {
      assert StandsAt(s, part, 0);
    } else if s != "" {
      ContainsExactly(s[1..], part);
      if Contains(s[1..], part) {
        var i :| StandsAt(s[1..], part, i);
        assert s[i + 1..i + 1 + |part|] == s[1..][i..i + |part|];
        assert StandsAt(s, part, i + 1);
      }
      if i :| StandsAt(s, part, i) {
        assert s[0..|part|] == part ==> part <= s;
        assert s[1..][i - 1..i - 1 + |part|] == s[i..i + |part|];
        assert StandsAt(s[1..], part, i - 1);
      }
    }
  }

  lemma PickedExactly(e: Entry, opts: Options)
    ensures Selected(e, opts) <==> Picked(e, opts)
  {
    hide Contains;
    if opts.only.Some? {
      ContainsExactly(e.name, opts.only.value);
    }
  }

  /** The emulator is given the entry's own run parameters. */
  function Ran(e: Entry, emu: Emulator): Option<Observed> {
    emu(RunInput(e.name, e.path, e.maxSteps, e.virtualClock, e.jit, e.debugIdle, e.wineBoot))
  }

  lemma {:induction false} VerdictsExactly(es: seq<Entry>, n: nat, opts: Options, emu: Emulator)
    requires n <= |es|
    ensures Verdicts(es, n, opts, emu).Some? <==> forall k :: 0 <= k < n && Selected(es[k], opts) ==> Ran(es[k], emu).Some?
    ensures Verdicts(es, n, opts, emu).Some? ==>
      (Verdicts(es, n, opts, emu).value == [] <==> forall k :: 0 <= k < n ==> !Selected(es[k], opts)) &&
      ((forall i :: 0 <= i < |Verdicts(es, n, opts, emu).value| ==> Verdicts(es, n, opts, emu).value[i].problems == []) <==>
        forall k :: 0 <= k < n && Selected(es[k], opts) ==> Meets(es[k], Ran(es[k], emu).value))
  {
    hide Compare, Selected, Meets;
    if n > 0 {
      VerdictsExactly(es, n - 1, opts, emu);
      if Verdicts(es, n, opts, emu).Some? {
        VerdictsStep(es, n, opts, emu);
      }
    }
  }

  lemma VerdictsStep(es: seq<Entry>, n: nat, opts: Options, emu: Emulator)
    requires 0 < n <= |es| && Verdicts(es, n, opts, emu).Some?
    ensures Verdicts(es, n - 1, opts, emu).Some?
    ensures var before, after, e := Verdicts(es, n - 1, opts, emu).value, Verdicts(es, n, opts, emu).value, es[n - 1];
            if !Selected(e, opts) then after == before
            else Ran(e, emu).Some? && after[..|after| - 1] == before && |after| == |before| + 1 &&
                 (after[|before|].problems == [] <==> Meets(e, Ran(e, emu).value))
  {
    hide Compare, Selected, Meets;
    if Selected(es[n - 1], opts) {
      ComparesExactly(es[n - 1], emu(InputOf(es[n - 1])).value);
    }
  }

  /** The gate passes if and only if something is selected, every selected entry can be run,
      and each of those runs is as it was pinned. */
  lemma GatePassesExactly(es: seq<Entry>, opts: Options, emu: Emulator)
    ensures AllPassed(RunManifest(es, opts, emu)) <==>
      (exists k :: 0 <= k < |es| && Picked(es[k], opts)) &&
      forall k :: 0 <= k < |es| && Picked(es[k], opts) ==> Ran(es[k], emu).Some? && Meets(es[k], Ran(es[k], emu).value)
  {
    hide Compare, Selected, Picked, Meets, Verdicts;
    forall k | 0 <= k < |es|
      ensures Selected(es[k], opts) <==> Picked(es[k], opts)
    {
      PickedExactly(es[k], opts);
    }
    VerdictsExactly(es, |es|, opts, emu);
  }

  // ---- What a pinned entry tolerates ----

  /** How far a later run may be from the one that was pinned: not at all with the virtual
      clock, by 64 steps after an exit, and otherwise by 64 steps or a thousandth of them. */
  function Slack(e: Entry, o: Observed): nat {
    if e.virtualClock then 0
    else if o.outcome == Exit || o.steps < 65_000 then 64
    else o.steps / 1000
  }

  /** A later run passes an entry pinned to an observation if and only if it ends alike: the
      same outcome and artifacts, a step count within the slack, and the same exit code, or,
      after a fault, the same reason and, where both are known, the same address. */
  lemma PinnedMeetsExactly(e: Entry, o: Observed, later: Observed)
    ensures Compare(Pinned(e, o), later) == [] <==>
      later.outcome == o.outcome && later.artifacts == o.artifacts &&
      later.steps <= o.steps + Slack(e, o) && o.steps <= later.steps + Slack(e, o) &&
      (o.outcome == Exit ==> later.exitCode == o.exitCode) &&
      (o.outcome == Fault ==> later.detail == o.detail && (o.rip.Some? && later.rip.Some? ==> later.rip.value == o.rip.value))
  {
    ComparesExactly(Pinned(e, o), later);
    assert o.steps / 1000 > 64 <==> o.steps >= 65_000;
    hide Compare;
  }

  /** What pinning leaves alone, and that an exit forgets address and reason. */
  lemma PinnedKeeps(e: Entry, o: Observed)
    ensures var p := Pinned(e, o);
            p == e.(outcome := o.outcome, steps := o.steps, artifacts := Some(o.artifacts), tolerance := p.tolerance,
                    exitCode := p.exitCode, rip := p.rip, stop := p.stop) &&
            if o.outcome == Exit then p.exitCode == o.exitCode && p.rip == None && p.stop == None
            else p.exitCode == e.exitCode && p.rip == o.rip && p.stop == Some(o.detail)
  {
  }

  /** A change is reported under a key exactly when pinning changes that field; the address
      and reason that an exit forgets are not reported. */
  lemma ChangesExactly(e: Entry, o: Observed, c: Change)
    ensures var p := Pinned(e, o);
            c in ChangesOf(e, o) <==>
              c.name == e.name &&
              ((c.key == "outcome" && p.outcome != e.outcome) || (c.key == "steps" && p.steps != e.steps) ||
               (c.key == "tolerance" && p.tolerance != e.tolerance) || (c.key == "artifacts" && p.artifacts != e.artifacts) ||
               (c.key == "exit_code" && p.exitCode != e.exitCode) ||
               (o.outcome != Exit && ((c.key == "rip" && p.rip != e.rip) || (c.key == "stop" && p.stop != e.stop))))
  {
    hide DefaultTolerance;
  }
}
