/** Which force requests a worker sees: a request for a PDID that is queued, or whose worker has
    not read yet, and no request that comes later. */
module OrchestratorForce {
  import opened Options
  import opened Orchestrator
  import opened Runs = OrchestratorRuns

  // ----- what the trace says about reads

  ghost predicate ClearedBetween(log: seq<Event>, i: int, j: int, p: string) {
    exists k :: i < k < j && 0 <= k < |log| && log[k] == Cleared(p)
  }

  lemma {:induction false} ForceWantedMeans(log: seq<Event>, p: string)
    ensures ForceWanted(log, p) <==>
              exists j :: 0 <= j < |log| && log[j] == Requested(p, true) && !ClearedBetween(log, j, |log|, p)
  {
    if log != [] {
      var n := |log| - 1;
      var init := log[..n];
      ForceWantedMeans(init, p);
      forall j | 0 <= j < n
        ensures log[j] == init[j]
        ensures ClearedBetween(log, j, |log|, p) <==> log[n] == Cleared(p) || ClearedBetween(init, j, n, p)
      {
        if ClearedBetween(log, j, |log|, p) {
          var k :| j < k < |log| && log[k] == Cleared(p);
          assert k < n ==> init[k] == Cleared(p);
        }
        if ClearedBetween(init, j, n, p) {
          var k :| j < k < n && init[k] == Cleared(p);
          assert log[k] == Cleared(p);
        }
      }
    }
  }

  lemma {:induction false} WasReadMeans(log: seq<Event>, p: string, j: nat)
    requires j < |log| && log[j].ReadBy? && log[j].pdid == p && !ClearedBetween(log, j, |log|, p)
    ensures WasRead(log, p).Some?
    decreases |log|
  {
    var n := |log| - 1;
    assert log[n] == Cleared(p) ==> j == n || ClearedBetween(log, j, |log|, p);
    if j < n && !(log[n].ReadBy? && log[n].pdid == p) {
      forall k | j < k < n ensures log[..n][k] != Cleared(p) {
        assert log[k] == Cleared(p) ==> ClearedBetween(log, j, |log|, p);
      }
      WasReadMeans(log[..n], p, j);
    }
  }

  lemma ClearedInPrefix(log: seq<Event>, i: int, j: nat, p: string)
    requires j <= |log|
    ensures ClearedBetween(log[..j], i, j, p) <==> ClearedBetween(log, i, j, p)
  {
    if ClearedBetween(log, i, j, p) {
      var k :| i < k < j && 0 <= k < |log| && log[k] == Cleared(p);
      assert log[..j][k] == Cleared(p);
    }
    if ClearedBetween(log[..j], i, j, p) {
      var k :| i < k < j && 0 <= k < j && log[..j][k] == Cleared(p);
      assert log[k] == Cleared(p);
    }
  }

  /** In every interleaving, what a worker reads is forced exactly when force was asked for since
      the PDID was last cleared; and it reads once between two clearings. */
  lemma ReadSeesForce(queueSize: nat, workers: nat, now: int, steps: seq<Step>, s: State, i: nat)
    requires Run(Initially(queueSize, workers, now), steps, s)
    requires i < |s.log| && s.log[i].ReadBy?
    ensures s.log[i].force <==>
              exists j :: 0 <= j < i && s.log[j] == Requested(s.log[i].pdid, true)
                          && !ClearedBetween(s.log, j, i, s.log[i].pdid)
    ensures forall j | 0 <= j < i && s.log[j].ReadBy? && s.log[j].pdid == s.log[i].pdid ::
              ClearedBetween(s.log, j, i, s.log[i].pdid)
  {
    ReachableIsValid(queueSize, workers, now, steps, s);
    var p, before := s.log[i].pdid, s.log[..i];
    GoodAt(s.log, i);
    ForceWantedMeans(before, p);
    forall j | 0 <= j < i
      ensures before[j] == s.log[j] && (ClearedBetween(before, j, i, p) <==> ClearedBetween(s.log, j, i, p))
      ensures s.log[j].ReadBy? && s.log[j].pdid == p ==> ClearedBetween(s.log, j, i, p)
    {
      ClearedInPrefix(s.log, j, i, p);
      if before[j].ReadBy? && before[j].pdid == p && !ClearedBetween(before, j, i, p) {
        WasReadMeans(before, p, j);
      }
    }
  }

  /** A force request is served exactly when the worker reads after it and before the PDID is
      cleared: a request that comes after the read, or whose reservation is dropped, is lost. */
  lemma ForceServedIffReadAfter(queueSize: nat, workers: nat, now: int, steps: seq<Step>, s: State, j: nat, k: nat,
      p: string)
    requires Run(Initially(queueSize, workers, now), steps, s)
    requires j < k < |s.log| && s.log[j] == Requested(p, true) && s.log[k] == Cleared(p)
             && !ClearedBetween(s.log, j, k, p)
    ensures (exists i :: j < i < k && s.log[i] == ReadBy(p, true)) <==>
            (exists i :: j < i < k && s.log[i].ReadBy? && s.log[i].pdid == p)
  {
    forall i | j < i < k && s.log[i].ReadBy? && s.log[i].pdid == p ensures s.log[i] == ReadBy(p, true) {
      ReadSeesForce(queueSize, workers, now, steps, s, i);
      assert !ClearedBetween(s.log, j, i, p);
    }
  }

  // ----- what the state says about a force request

  /** How far a pending PDID has come. */
  datatype Stage = Absent | Undecided | Waiting | TooLate

  ghost function StageOf(s: State, p: string): Stage {
    if p !in s.place then Absent
    else
      match s.place[p]
      case WithCaller(c) => if c in s.callers && s.callers[c].Reserved? then Undecided else TooLate
      case InQueue => Waiting
      case WithWorker(w) => if w < |s.workers| && s.workers[w].Got? then Waiting else TooLate
  }

  ghost predicate Forced(s: State, p: string) {
    p in s.pending && s.pending[p]
  }

  /** The step neither reads nor clears the PDID. */
  ghost predicate Passes(s: State, t: State, p: string) {
    t.log == s.log
    || (|t.log| == |s.log| + 1 && t.log[..|s.log|] == s.log
        && t.log[|s.log|] != Cleared(p) && !(t.log[|s.log|].ReadBy? && t.log[|s.log|].pdid == p))
  }

  /** What a step can do to the stage: nothing, decide it, read the PDID or clear it. */
  ghost predicate StageMoves(s: State, t: State, p: string) {
    match StageOf(s, p)
    case Absent => true
    case Undecided => Passes(s, t, p) && !StageOf(t, p).Absent? && Forced(t, p)
    case Waiting => t.log == s.log + [ReadBy(p, true)] || (Passes(s, t, p) && StageOf(t, p) == Waiting && Forced(t, p))
    case TooLate => t.log == s.log + [Cleared(p)] || (Passes(s, t, p) && StageOf(t, p) == TooLate && Forced(t, p))
  }

  lemma HeldByCaller(s: State, c: nat, p: string)
    requires Placed(s) && c in s.callers && p in s.place
    ensures s.place[p] == WithCaller(c) <==> CallerHolds(s.callers[c]) == Some(p)
  {
  }

  lemma HeldByWorker(s: State, w: nat, p: string)
    requires Placed(s) && w < |s.workers| && p in s.place
    ensures s.place[p] == WithWorker(w) <==> WorkerHolds(s.workers[w]) == Some(p)
  {
  }

  lemma HeldByQueue(s: State, p: string)
    requires Placed(s) && p in s.place && s.queue != []
    ensures p == s.queue[0] ==> s.place[p] == InQueue
  {
    assert s.queue[0] in s.queue;
  }

  lemma EnterStage(s: State, c: nat, p: string)
    requires Enabled(s, Enter(c)) && Forced(s, p) && p in s.place && s.place[p] != WithCaller(c)
    ensures StageMoves(s, AfterEnter(s, c), p)
  {
  }

  lemma OfferStage(s: State, c: nat, preferDone: bool, p: string)
    requires Enabled(s, Offer(c, preferDone)) && Forced(s, p) && p in s.place
    requires s.place[p] == WithCaller(c) <==> CallerHolds(s.callers[c]) == Some(p)
    ensures StageMoves(s, AfterOffer(s, c, preferDone), p)
  {
  }

  lemma GiveBackStage(s: State, c: nat, p: string)
    requires Enabled(s, GiveBack(c)) && Forced(s, p) && p in s.place
    requires s.place[p] == WithCaller(c) <==> CallerHolds(s.callers[c]) == Some(p)
    ensures StageMoves(s, AfterGiveBack(s, c), p)
  {
  }

  lemma CallerStepStage(s: State, step: Step, p: string)
    requires Placed(s) && Enabled(s, step) && Forced(s, p)
    requires step.Admit? || step.Enter? || step.Offer? || step.GiveBack?
    ensures StageMoves(s, Next(s, step), p)
  {
    match step
    case Admit(_, _, _, _) =>
    case Enter(c) =>
      HeldByCaller(s, c, p);
      EnterStage(s, c, p);
    case Offer(c, preferDone) =>
      HeldByCaller(s, c, p);
      OfferStage(s, c, preferDone, p);
    case GiveBack(c) =>
      HeldByCaller(s, c, p);
      GiveBackStage(s, c, p);
  }

  lemma TakeStage(s: State, w: nat, p: string)
    requires Enabled(s, Take(w)) && Forced(s, p) && p in s.place
    requires s.place[p] != WithWorker(w) && (p == s.queue[0] ==> s.place[p] == InQueue)
    ensures StageMoves(s, AfterTake(s, w), p)
  {
  }

  lemma LookStage(s: State, w: nat, p: string)
    requires Enabled(s, Look(w)) && Forced(s, p) && p in s.place
    requires s.place[p] == WithWorker(w) <==> WorkerHolds(s.workers[w]) == Some(p)
    ensures StageMoves(s, AfterLook(s, w), p)
  {
  }

  /** A worker that has read, and reads nothing more. */
  lemma LaterStage(s: State, step: Step, p: string)
    requires Enabled(s, step) && (step.Check? || step.Start? || step.Finish? || step.Leave?)
    requires Forced(s, p) && p in s.place
    requires s.place[p] == WithWorker(step.worker) <==> WorkerHolds(s.workers[step.worker]) == Some(p)
    ensures StageMoves(s, Next(s, step), p)
  {
  }

  lemma WorkerStepStage(s: State, step: Step, p: string)
    requires Placed(s) && Enabled(s, step) && Forced(s, p)
    requires step.Take? || step.Look? || step.Check? || step.Start? || step.Finish? || step.Leave?
    ensures StageMoves(s, Next(s, step), p)
  {
    HeldByWorker(s, step.worker, p);
    if step.Take? {
      HeldByQueue(s, p);
      TakeStage(s, step.worker, p);
    } else if step.Look? {
      LookStage(s, step.worker, p);
    } else {
      LaterStage(s, step, p);
    }
  }

  lemma StepStage(s: State, step: Step, p: string)
    requires Placed(s) && Enabled(s, step) && Forced(s, p)
    ensures StageMoves(s, Next(s, step), p)
  {
    if step.Admit? || step.Enter? || step.Offer? || step.GiveBack? {
      CallerStepStage(s, step, p);
    } else if step.Take? || step.Look? || step.Check? || step.Start? || step.Finish? || step.Leave? {
      WorkerStepStage(s, step, p);
    }
  }

  // ----- whole runs

  lemma {:induction false} LogGrows(s: State, steps: seq<Step>, t: State)
    requires Run(s, steps, t)
    ensures s.log <= t.log
    decreases |steps|
  {
    if steps != [] {
      assert s.log <= Next(s, steps[0]).log;
      LogGrows(Next(s, steps[0]), steps[1..], t);
    }
  }

  /** The force flag is read before the PDID is next cleared. */
  ghost predicate ForceRead(log: seq<Event>, from: nat, k: nat, p: string) {
    exists i :: from <= i < k && i < |log| && log[i] == ReadBy(p, true)
  }

  lemma PassingKeepsForceRead(s: State, next: State, log: seq<Event>, k: nat, p: string)
    requires Passes(s, next, p) && next.log <= log && |s.log| <= k < |log| && log[k] == Cleared(p)
    requires !ClearedBetween(log, |s.log| - 1, k, p)
    ensures |next.log| <= k && !ClearedBetween(log, |next.log| - 1, k, p)
    ensures ForceRead(log, |s.log|, k, p) <==> ForceRead(log, |next.log|, k, p)
    ensures forall i | |s.log| <= i < |next.log| :: !(log[i].ReadBy? && log[i].pdid == p)
  {
    assert forall i | |s.log| <= i < |next.log| :: log[i] == next.log[i];
  }

  lemma {:induction false} WaitingIsRead(s: State, steps: seq<Step>, t: State, k: nat, p: string) returns (i: nat)
    requires Valid(s) && Run(s, steps, t)
    requires Forced(s, p) && StageOf(s, p) == Waiting
    requires |s.log| <= k < |t.log| && t.log[k] == Cleared(p)
    ensures |s.log| <= i < k && t.log[i] == ReadBy(p, true)
    decreases |steps|
  {
    var next := Next(s, steps[0]);
    WaitingStep(s, steps[0], steps[1..], t, k, p);
    if |s.log| < |next.log| && next.log[|s.log|] == ReadBy(p, true) {
      i := |s.log|;
    } else {
      i := WaitingIsRead(next, steps[1..], t, k, p);
    }
  }

  lemma WaitingStep(s: State, step: Step, rest: seq<Step>, t: State, k: nat, p: string)
    requires Valid(s) && Enabled(s, step) && Run(Next(s, step), rest, t)
    requires Forced(s, p) && StageOf(s, p) == Waiting
    requires |s.log| <= k < |t.log| && t.log[k] == Cleared(p)
    ensures Valid(Next(s, step)) && |s.log| <= |Next(s, step).log| <= k && Next(s, step).log <= t.log
    ensures || (|s.log| < |Next(s, step).log| && Next(s, step).log[|s.log|] == ReadBy(p, true))
            || (Forced(Next(s, step), p) && StageOf(Next(s, step), p) == Waiting)
  {
    StepKeepsValid(s, step);
    WaitingStepLog(s, step, rest, t, k, p);
  }

  lemma WaitingStepLog(s: State, step: Step, rest: seq<Step>, t: State, k: nat, p: string)
    requires Placed(s) && Enabled(s, step) && Run(Next(s, step), rest, t)
    requires Forced(s, p) && StageOf(s, p) == Waiting
    requires |s.log| <= k < |t.log| && t.log[k] == Cleared(p)
    ensures |s.log| <= |Next(s, step).log| <= k && Next(s, step).log <= t.log
    ensures || (|s.log| < |Next(s, step).log| && Next(s, step).log[|s.log|] == ReadBy(p, true))
            || (Forced(Next(s, step), p) && StageOf(Next(s, step), p) == Waiting)
  {
    StepStage(s, step, p);
    LogGrows(Next(s, step), rest, t);
    WaitingMoves(s, Next(s, step), t, k, p);
  }

  lemma WaitingMoves(s: State, next: State, t: State, k: nat, p: string)
    requires StageMoves(s, next, p) && StageOf(s, p) == Waiting && next.log <= t.log
    requires |s.log| <= k < |t.log| && t.log[k] == Cleared(p)
    ensures |s.log| <= |next.log| <= k
    ensures || (|s.log| < |next.log| && next.log[|s.log|] == ReadBy(p, true))
            || (Forced(next, p) && StageOf(next, p) == Waiting)
  {
    assert |next.log| > |s.log| ==> t.log[|s.log|] == next.log[|s.log|];
  }

  lemma {:induction false} TooLateIsNotRead(s: State, steps: seq<Step>, t: State, k: nat, p: string)
    requires Valid(s) && Run(s, steps, t)
    requires Forced(s, p) && StageOf(s, p) == TooLate
    requires |s.log| <= k < |t.log| && t.log[k] == Cleared(p) && !ClearedBetween(t.log, |s.log| - 1, k, p)
    ensures forall i | |s.log| <= i < k :: !(t.log[i].ReadBy? && t.log[i].pdid == p)
    decreases |steps|
  {
    var next := Next(s, steps[0]);
    StepStage(s, steps[0], p);
    StepKeepsValid(s, steps[0]);
    LogGrows(next, steps[1..], t);
    if next.log == s.log + [Cleared(p)] {
      assert t.log[|s.log|] == Cleared(p);
    } else {
      PassingKeepsForceRead(s, next, t.log, k, p);
      TooLateIsNotRead(next, steps[1..], t, k, p);
    }
  }

  lemma StageDecides(s: State, steps: seq<Step>, t: State, k: nat, p: string)
    requires Valid(s) && Run(s, steps, t)
    requires Forced(s, p) && (StageOf(s, p) == Waiting || StageOf(s, p) == TooLate)
    requires |s.log| <= k < |t.log| && t.log[k] == Cleared(p) && !ClearedBetween(t.log, |s.log| - 1, k, p)
    ensures ForceRead(t.log, |s.log|, k, p) <==> StageOf(s, p) == Waiting
  {
    if StageOf(s, p) == Waiting {
      var i := WaitingIsRead(s, steps, t, k, p);
    } else {
      TooLateIsNotRead(s, steps, t, k, p);
    }
  }

  /** A force that joins a pending PDID is served before the next clearing exactly when, at the
      moment it enters, the PDID is queued or its worker has not read yet. */
  lemma JoiningForceServedIff(queueSize: nat, workers: nat, now: int, before: seq<Step>, s: State, c: nat,
      steps: seq<Step>, t: State, k: nat, p: string)
    requires Run(Initially(queueSize, workers, now), before, s)
    requires c in s.callers && s.callers[c] == Admitted(p, true)
    requires StageOf(s, p) == Waiting || StageOf(s, p) == TooLate
    requires Run(AfterEnter(s, c), steps, t)
    requires |s.log| < k < |t.log| && t.log[k] == Cleared(p) && !ClearedBetween(t.log, |s.log|, k, p)
    ensures ForceRead(t.log, |s.log|, k, p) <==> StageOf(s, p) == Waiting
  {
    ReachableIsValid(queueSize, workers, now, before, s);
    StepKeepsValid(s, Enter(c));
    var next := AfterEnter(s, c);
    JoinKeepsStage(s, c, p);
    LogGrows(next, steps, t);
    StageDecides(next, steps, t, k, p);
    assert t.log[|s.log|] == next.log[|s.log|] == Requested(p, true);
  }

  lemma JoinKeepsStage(s: State, c: nat, p: string)
    requires Placed(s) && c in s.callers && s.callers[c] == Admitted(p, true) && p in s.place
    ensures StageOf(AfterEnter(s, c), p) == StageOf(s, p) && Forced(AfterEnter(s, c), p)
    ensures AfterEnter(s, c).log == s.log + [Requested(p, true)]
  {
    HeldByCaller(s, c, p);
  }

  /** While a caller holds the reservation, nothing is decided before it offers the PDID. */
  lemma ReservationStays(s: State, step: Step, c: nat, p: string)
    requires Placed(s) && Enabled(s, step) && Forced(s, p)
    requires c in s.callers && s.callers[c] == Reserved(p) && !(step.Offer? && step.caller == c)
    ensures c in Next(s, step).callers && Next(s, step).callers[c] == Reserved(p)
    ensures Forced(Next(s, step), p) && Passes(s, Next(s, step), p)
  {
    assert CallerHolds(s.callers[c]) == Some(p);
    StepStage(s, step, p);
  }

  lemma OfferDecides(s: State, c: nat, preferDone: bool, p: string)
    requires Placed(s) && Enabled(s, Offer(c, preferDone)) && Forced(s, p) && s.callers[c] == Reserved(p)
    ensures Forced(AfterOffer(s, c, preferDone), p) && AfterOffer(s, c, preferDone).log == s.log
    ensures StageOf(AfterOffer(s, c, preferDone), p) ==
              if |s.queue| < s.queueSize && !(s.cancelled && preferDone) then Waiting else TooLate
  {
    HeldByCaller(s, c, p);
  }

  /** A reserved force, whoever asked for it, is served before the next clearing exactly when its
      caller finds room in the queue and is not turned away by the cancellation. */
  lemma {:induction false} ReservedForceServedIff(s: State, c: nat, steps: seq<Step>, t: State, k: nat, p: string)
    returns (m: nat, u: State)
    requires Valid(s) && Run(s, steps, t)
    requires c in s.callers && s.callers[c] == Reserved(p) && Forced(s, p)
    requires |s.log| <= k < |t.log| && t.log[k] == Cleared(p) && !ClearedBetween(t.log, |s.log| - 1, k, p)
    ensures m < |steps| && Run(s, steps[..m], u) && steps[m].Offer? && steps[m].caller == c
    ensures ForceRead(t.log, |s.log|, k, p) <==> |u.queue| < u.queueSize && !(u.cancelled && steps[m].preferDone)
    decreases |steps|
  {
    var step, rest := steps[0], steps[1..];
    var next := Next(s, step);
    StepKeepsValid(s, step);
    LogGrows(next, rest, t);
    if step.Offer? && step.caller == c {
      m, u := 0, s;
      OfferDecides(s, c, step.preferDone, p);
      StageDecides(next, rest, t, k, p);
    } else {
      ReservationStays(s, step, c, p);
      PassingKeepsForceRead(s, next, t.log, k, p);
      m, u := ReservedForceServedIff(next, c, rest, t, k, p);
      RunStepFirst(s, steps, m, u);
      m := m + 1;
    }
  }

  lemma RunStepFirst(s: State, steps: seq<Step>, m: nat, u: State)
    requires m < |steps| && Enabled(s, steps[0]) && Run(Next(s, steps[0]), steps[1..][..m], u)
    ensures Run(s, steps[..m + 1], u)
  {
    assert steps[..m + 1][1..] == steps[1..][..m];
  }

  /** The worker that has read the unforced request finishes it with a force asked for. */
  lemma ReadRequestFinishes(log: seq<Event>) returns (steps: seq<Step>, s: State)
    ensures s == Quiet(map["a" := 0], Resting, 0, log + [Started("a", false, 0)] + [Cleared("a")])
    ensures Run(HalfWay(map[], Resting, 0, log).(pending := map["a" := true]), steps, s)
  {
    var s2 := HalfWay(map[], Resting, 0, log).(pending := map["a" := true]);
    var s3 := s2.(workers := [Checked("a", false)]);
    assert Next(s2, Check(0, true)) == s3;
    var s4 := s2.(workers := [Finishing("a")], lastAttempt := map["a" := 0], log := log + [Started("a", false, 0)]);
    assert Next(s3, Start(0)) == s4;
    s := Quiet(s4.lastAttempt, Resting, 0, s4.log + [Cleared("a")]);
    assert Next(s4, Finish(0)) == s;
    steps := Before(s4, Finish(0), [], s);
    steps := Before(s3, Start(0), steps, s);
    steps := Before(s2, Check(0, true), steps, s);
  }

  lemma ForceJoinsLate(log: seq<Event>, rest: seq<Step>, t: State) returns (steps: seq<Step>)
    requires Run(HalfWay(map[], Resting, 0, log + [Requested("a", true)]).(pending := map["a" := true]), rest, t)
    ensures Run(HalfWay(map[], Resting, 0, log), steps, t)
  {
    var s0 := HalfWay(map[], Resting, 0, log);
    var s1 := s0.(callers := map[0 := Admitted("a", true)]);
    assert Next(s0, Admit(0, "a", true, true)) == s1;
    assert Next(s1, Enter(0)) == s0.(pending := map["a" := true], log := log + [Requested("a", true)]);
    steps := Before(s1, Enter(0), rest, t);
    steps := Before(s0, Admit(0, "a", true, true), steps, t);
  }

  /** Such a loss happens: the second caller's force arrives while the first request, already
      read, is still being worked on. */
  lemma LateForceIsLost() returns (steps: seq<Step>, s: State)
    ensures Run(Initially(1, 1, 0), steps, s) && s.pending == map[] && s.queue == []
    ensures s.log ==
            [Requested("a", false), ReadBy("a", false), Requested("a", true), Started("a", false, 0), Cleared("a")]
  {
    var asked := [Requested("a", false)];
    var read := asked + [ReadBy("a", false)];
    steps, s := ReadRequestFinishes(read + [Requested("a", true)]);
    steps := ForceJoinsLate(read, steps, s);
    steps := UntilRead(map[], Resting, 0, asked, steps, s);
    assert [] + [Requested("a", false)] == asked && Initially(1, 1, 0) == Quiet(map[], Resting, 0, []);
    steps := UntilQueued(map[], Resting, 0, [], steps, s);
  }
}
