/** What becomes of a request: which are admitted, and which of those that a worker reads lead to an
    enrichment. */
module OrchestratorStarts {
  import opened Options
  import opened Orchestrator
  import opened Runs = OrchestratorRuns
  import opened Force = OrchestratorForce
  import opened Spacing = OrchestratorSpacing

  /** Every start of the PDID within the cooldown was deleted on a verdict passed before it. */
  ghost predicate NoRecentStart(log: seq<Event>, p: string, now: int) {
    forall i | StartOf(log, i, p) && now - log[i].at < COOLDOWN :: LateDeletion(log, i, |log|, p)
  }

  lemma CoolingDownMeans(s: State, p: string)
    requires Valid(s)
    ensures CoolingDown(s.lastAttempt, s.clock, p) <==> !NoRecentStart(s.log, p, s.clock)
  {
    CooledDownIff(s.log, p, s.clock);
  }

  /** In every interleaving a request is admitted exactly when it names a known device and is forced or
      comes without a recent start; a forced one for a known device always is. */
  lemma AdmittedIff(queueSize: nat, workers: nat, now: int, steps: seq<Step>, s: State, c: nat, p: string, force: bool,
      known: bool)
    requires Run(Initially(queueSize, workers, now), steps, s) && c !in s.callers
    ensures var t := AfterAdmit(s, c, p, force, known);
      && (c in t.callers <==> p != "" && known && (force || NoRecentStart(s.log, p, s.clock)))
      && (c in t.callers ==> t == s.(callers := s.callers[c := Admitted(p, force)]))
      && (c !in t.callers ==> t == s)
  {
    ReachableIsValid(queueSize, workers, now, steps, s);
    CoolingDownMeans(s, p);
  }

  // ----- the worker that holds a PDID

  ghost predicate IsStep(step: Step, w: nat) {
    (step.Take? || step.Look? || step.Check? || step.Start? || step.Finish? || step.Leave?) && step.worker == w
  }

  ghost predicate Holds(s: State, w: nat, p: string) {
    w < |s.workers| && WorkerHolds(s.workers[w]) == Some(p)
  }

  /** The step adds no event about the work on the PDID. */
  ghost predicate Silent(s: State, t: State, p: string) {
    t.log == s.log
    || (&& |t.log| == |s.log| + 1 && t.log[..|s.log|] == s.log && t.log[|s.log|] != Cleared(p)
        && !(t.log[|s.log|].Started? && t.log[|s.log|].pdid == p))
  }

  /** No other step moves the worker or touches its PDID. */
  lemma OthersLeaveAlone(s: State, step: Step, w: nat, p: string)
    requires Placed(s) && Enabled(s, step) && Holds(s, w, p) && !IsStep(step, w)
    ensures w < |Next(s, step).workers|
    ensures Next(s, step).workers[w] == s.workers[w] && Silent(s, Next(s, step), p)
  {
    if step.GiveBack? {
      HolderIsNoCaller(s, step.caller, w, p);
    } else if step.Start? || step.Finish? {
      HeldOnce(s, step.worker, w, p);
    }
  }

  lemma HolderIsNoCaller(s: State, c: nat, w: nat, p: string)
    requires Placed(s) && Holds(s, w, p) && c in s.callers
    ensures CallerHolds(s.callers[c]) != Some(p)
  {
    HeldByWorker(s, w, p);
    HeldByCaller(s, c, p);
  }

  lemma HeldOnce(s: State, v: nat, w: nat, p: string)
    requires Placed(s) && Holds(s, w, p) && v < |s.workers| && v != w
    ensures WorkerHolds(s.workers[v]) != Some(p)
  {
    HeldByWorker(s, w, p);
    HeldByWorker(s, v, p);
  }

  ghost predicate StartsIn(log: seq<Event>, from: nat, k: nat, p: string) {
    exists i :: from <= i < k && i < |log| && log[i].Started? && log[i].pdid == p
  }

  /** The PDID is next cleared at `k`. */
  ghost predicate NextCleared(log: seq<Event>, from: nat, k: nat, p: string) {
    from <= k < |log| && log[k] == Cleared(p) && !ClearedBetween(log, from - 1, k, p)
  }

  lemma SilentStepKeeps(s: State, next: State, log: seq<Event>, k: nat, p: string)
    requires Silent(s, next, p) && next.log <= log && NextCleared(log, |s.log|, k, p)
    ensures NextCleared(log, |next.log|, k, p)
    ensures StartsIn(log, |s.log|, k, p) <==> StartsIn(log, |next.log|, k, p)
  {
    assert forall i | |s.log| <= i < |next.log| :: log[i] == next.log[i];
  }

  lemma OtherStep(s: State, step: Step, rest: seq<Step>, t: State, w: nat, k: nat, p: string)
    requires Valid(s) && Enabled(s, step) && Run(Next(s, step), rest, t)
    requires Holds(s, w, p) && !IsStep(step, w) && NextCleared(t.log, |s.log|, k, p)
    ensures Valid(Next(s, step)) && w < |Next(s, step).workers| && Next(s, step).workers[w] == s.workers[w]
    ensures |s.log| <= |Next(s, step).log| && NextCleared(t.log, |Next(s, step).log|, k, p)
    ensures StartsIn(t.log, |s.log|, k, p) <==> StartsIn(t.log, |Next(s, step).log|, k, p)
  {
    StepKeepsValid(s, step);
    OtherStepLog(s, step, rest, t, w, k, p);
  }

  lemma OtherStepLog(s: State, step: Step, rest: seq<Step>, t: State, w: nat, k: nat, p: string)
    requires Placed(s) && Enabled(s, step) && Run(Next(s, step), rest, t)
    requires Holds(s, w, p) && !IsStep(step, w) && NextCleared(t.log, |s.log|, k, p)
    ensures w < |Next(s, step).workers| && Next(s, step).workers[w] == s.workers[w]
    ensures |s.log| <= |Next(s, step).log| && NextCleared(t.log, |Next(s, step).log|, k, p)
    ensures StartsIn(t.log, |s.log|, k, p) <==> StartsIn(t.log, |Next(s, step).log|, k, p)
  {
    LogGrows(Next(s, step), rest, t);
    OthersLeaveAlone(s, step, w, p);
    SilentStepKeeps(s, Next(s, step), t.log, k, p);
  }

  lemma {:induction false} FinishingNeverStarts(s: State, steps: seq<Step>, t: State, w: nat, k: nat, p: string)
    requires Valid(s) && Run(s, steps, t) && NextCleared(t.log, |s.log|, k, p)
    requires w < |s.workers| && s.workers[w] == Finishing(p)
    ensures !StartsIn(t.log, |s.log|, k, p)
    decreases |steps|
  {
    if IsStep(steps[0], w) {
      LogGrows(Next(s, steps[0]), steps[1..], t);
      assert t.log[|s.log|] == Cleared(p);
    } else {
      OtherStep(s, steps[0], steps[1..], t, w, k, p);
      FinishingNeverStarts(Next(s, steps[0]), steps[1..], t, w, k, p);
    }
  }

  lemma {:induction false} CheckedStarts(s: State, steps: seq<Step>, t: State, w: nat, k: nat, p: string)
    requires Valid(s) && Run(s, steps, t) && NextCleared(t.log, |s.log|, k, p)
    requires w < |s.workers| && s.workers[w].Checked? && s.workers[w].pdid == p
    ensures StartsIn(t.log, |s.log|, k, p)
    decreases |steps|
  {
    if IsStep(steps[0], w) {
      OwnStart(s, steps[0], steps[1..], t, w, k, p);
    } else {
      OtherStep(s, steps[0], steps[1..], t, w, k, p);
      CheckedStarts(Next(s, steps[0]), steps[1..], t, w, k, p);
    }
  }

  lemma OwnStart(s: State, step: Step, rest: seq<Step>, t: State, w: nat, k: nat, p: string)
    requires Enabled(s, step) && Run(Next(s, step), rest, t) && NextCleared(t.log, |s.log|, k, p)
    requires w < |s.workers| && s.workers[w].Checked? && s.workers[w].pdid == p && IsStep(step, w)
    ensures StartsIn(t.log, |s.log|, k, p)
  {
    LogGrows(Next(s, step), rest, t);
    assert t.log[|s.log|] == Next(s, step).log[|s.log|];
    assert t.log[|s.log|].Started? && t.log[|s.log|].pdid == p;
  }

  lemma CheckDecides(s: State, w: nat, known: bool, p: string)
    requires Valid(s) && Enabled(s, Check(w, known)) && s.workers[w].pdid == p
    ensures var worker := AfterCheck(s, w, known).workers[w];
      if known && (s.workers[w].force || NoRecentStart(s.log, p, s.clock)) then worker == Checked(p, s.workers[w].force)
      else worker == Finishing(p)
  {
    CoolingDownMeans(s, p);
  }

  lemma CheckedOutcome(s: State, w: nat, known: bool, steps: seq<Step>, t: State, k: nat, p: string)
    requires Valid(s) && Enabled(s, Check(w, known)) && s.workers[w].pdid == p
    requires Run(AfterCheck(s, w, known), steps, t) && NextCleared(t.log, |s.log|, k, p)
    ensures StartsIn(t.log, |s.log|, k, p) <==>
            known && (s.workers[w].force || NoRecentStart(s.log, p, s.clock))
  {
    StepKeepsValid(s, Check(w, known));
    CheckDecides(s, w, known, p);
    if AfterCheck(s, w, known).workers[w].Checked? {
      CheckedStarts(AfterCheck(s, w, known), steps, t, w, k, p);
    } else {
      FinishingNeverStarts(AfterCheck(s, w, known), steps, t, w, k, p);
    }
  }

  /** Once a worker has read a request, it checks it before the PDID is cleared, and enriches exactly
      if the device is known by then and the request is forced or comes without a recent start. */
  lemma {:induction false} ReadStartsIff(s: State, steps: seq<Step>, t: State, w: nat, k: nat, p: string, force: bool)
    returns (m: nat, u: State)
    requires Valid(s) && Run(s, steps, t) && NextCleared(t.log, |s.log|, k, p)
    requires w < |s.workers| && s.workers[w] == Looked(p, force)
    ensures m < |steps| && Run(s, steps[..m], u) && steps[m].Check? && steps[m].worker == w
    ensures w < |u.workers| && u.workers[w] == Looked(p, force) && |s.log| <= |u.log| <= k
    ensures StartsIn(t.log, |s.log|, k, p) <==> steps[m].known && (force || NoRecentStart(u.log, p, u.clock))
    decreases |steps|
  {
    if IsStep(steps[0], w) {
      m, u := 0, s;
      CheckedOutcome(s, w, steps[0].known, steps[1..], t, k, p);
    } else {
      OtherStep(s, steps[0], steps[1..], t, w, k, p);
      m, u := ReadStartsIff(Next(s, steps[0]), steps[1..], t, w, k, p, force);
      RunStepFirst(s, steps, m, u);
      m := m + 1;
    }
  }

  // ----- found in the trace

  /** The step of a run that added an event. */
  lemma {:induction false} StepOfEvent(s: State, steps: seq<Step>, t: State, i: nat) returns (n: nat, u: State)
    requires Run(s, steps, t) && |s.log| <= i < |t.log|
    ensures n < |steps| && Run(s, steps[..n], u) && |u.log| == i && Enabled(u, steps[n])
    ensures Run(Next(u, steps[n]), steps[n + 1..], t)
    ensures |Next(u, steps[n]).log| == i + 1 && Next(u, steps[n]).log[i] == t.log[i]
    decreases |steps|
  {
    var next := Next(s, steps[0]);
    LogGrows(next, steps[1..], t);
    assert |next.log| <= |s.log| + 1;
    if i < |next.log| {
      n, u := 0, s;
    } else {
      n, u := StepOfEvent(next, steps[1..], t, i);
      RunStepFirst(s, steps, n, u);
      assert steps[1..][n + 1..] == steps[n + 2..];
      n := n + 1;
    }
  }

  lemma {:induction false} RunFurther(s: State, steps: seq<Step>, u: State, more: seq<Step>, t: State)
    requires Run(s, steps, u) && Run(u, more, t)
    ensures Run(s, steps + more, t)
    decreases |steps|
  {
    if steps == [] {
      assert steps + more == more;
    } else {
      RunFurther(Next(s, steps[0]), steps[1..], u, more, t);
      assert (steps + more)[1..] == steps[1..] + more;
    }
  }

  /** Only a worker that reads adds such an event. */
  lemma ReadLeavesLooked(s: State, step: Step, p: string, force: bool) returns (w: nat)
    requires Enabled(s, step) && Next(s, step).log == s.log + [ReadBy(p, force)]
    ensures step == Look(w) && w < |Next(s, step).workers| && Next(s, step).workers[w] == Looked(p, force)
  {
    assert Next(s, step).log[|s.log|] == ReadBy(p, force);
    w := step.worker;
  }

  /** The state right after a read. */
  lemma ReadAt(s0: State, steps: seq<Step>, t: State, i: nat, p: string, force: bool)
    returns (n: nat, s: State, w: nat)
    requires Valid(s0) && s0.log == [] && Run(s0, steps, t) && i < |t.log| && t.log[i] == ReadBy(p, force)
    ensures n <= |steps| && Run(s0, steps[..n], s) && Run(s, steps[n..], t)
    ensures Valid(s) && |s.log| == i + 1 && w < |s.workers| && s.workers[w] == Looked(p, force)
  {
    var before;
    n, before := StepOfEvent(s0, steps, t, i);
    s := Next(before, steps[n]);
    EventAppended(before, steps[n], ReadBy(p, force));
    w := ReadLeavesLooked(before, steps[n], p, force);
    RunStepLast(s0, steps, n, before);
    n := n + 1;
    RunKeepsValid(s0, steps[..n], s);
  }

  lemma RunStepLast(s: State, steps: seq<Step>, n: nat, u: State)
    requires n < |steps| && Run(s, steps[..n], u) && Enabled(u, steps[n])
    ensures Run(s, steps[..n + 1], Next(u, steps[n]))
  {
    assert [steps[n]][1..] == [];
    RunFurther(s, steps[..n], u, [steps[n]], Next(u, steps[n]));
    assert steps[..n] + [steps[n]] == steps[..n + 1];
  }

  /** In every interleaving, between the read of a force and the next clearing of its PDID there is an
      enrichment exactly if the device was known when the worker checked, whatever attempts are
      recorded. */
  lemma ReadForceStartsIff(
      queueSize: nat, workers: nat, now: int, steps: seq<Step>, t: State, i: nat, k: nat, p: string)
    returns (m: nat, w: nat, u: State)
    requires Run(Initially(queueSize, workers, now), steps, t)
    requires i < |t.log| && t.log[i] == ReadBy(p, true) && NextCleared(t.log, i + 1, k, p)
    ensures m < |steps| && Run(Initially(queueSize, workers, now), steps[..m], u)
    ensures steps[m].Check? && steps[m].worker == w && w < |u.workers| && u.workers[w] == Looked(p, true)
    ensures i < |u.log| <= k
    ensures StartsIn(t.log, i + 1, k, p) <==> steps[m].known
  {
    var s0 := Initially(queueSize, workers, now);
    InitiallyValid(queueSize, workers, now);
    var n, s, v, later, after := StartsAfterRead(s0, steps, t, i, k, p);
    RunJoined(s0, steps, n, s, later, after);
    m, w, u := n + later, v, after;
  }

  lemma StartsAfterRead(s0: State, steps: seq<Step>, t: State, i: nat, k: nat, p: string)
    returns (n: nat, s: State, w: nat, m: nat, u: State)
    requires Valid(s0) && s0.log == [] && Run(s0, steps, t)
    requires i < |t.log| && t.log[i] == ReadBy(p, true) && NextCleared(t.log, i + 1, k, p)
    ensures n <= |steps| && Run(s0, steps[..n], s) && m < |steps| - n && Run(s, steps[n..][..m], u)
    ensures steps[n..][m].Check? && steps[n..][m].worker == w && w < |u.workers| && u.workers[w] == Looked(p, true)
    ensures i < |u.log| <= k && (StartsIn(t.log, i + 1, k, p) <==> steps[n..][m].known)
  {
    n, s, w := ReadAt(s0, steps, t, i, p, true);
    m, u := ReadStartsIff(s, steps[n..], t, w, k, p, true);
  }

  lemma RunJoined(s: State, steps: seq<Step>, n: nat, u: State, m: nat, t: State)
    requires n <= |steps| && m <= |steps| - n && Run(s, steps[..n], u) && Run(u, steps[n..][..m], t)
    ensures Run(s, steps[..n + m], t)
  {
    RunFurther(s, steps[..n], u, steps[n..][..m], t);
    assert steps[..n] + steps[n..][..m] == steps[..n + m];
  }

  lemma EventAppended(s: State, step: Step, e: Event)
    requires Enabled(s, step) && |Next(s, step).log| == |s.log| + 1 && Next(s, step).log[|s.log|] == e
    ensures Next(s, step).log == s.log + [e]
  {
    assert s.log <= Next(s, step).log;
  }
}
