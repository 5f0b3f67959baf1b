/** How far apart two enrichments of one PDID are: a cooldown, unless the later one was forced or
    the clean-up deleted an attempt it had judged before that attempt was noted. */
module OrchestratorSpacing {
  import opened Options
  import opened Orchestrator
  import opened Runs = OrchestratorRuns

  ghost predicate StartOf(log: seq<Event>, i: int, p: string) {
    0 <= i < |log| && log[i].Started? && log[i].pdid == p
  }

  ghost predicate ForgottenBetween(log: seq<Event>, i: int, j: int, p: string) {
    exists k :: i < k < j && 0 <= k < |log| && log[k] == Forgotten(p)
  }

  /** The clean-up judged the PDID at `h`, and it is that verdict which it carried out at `k`. */
  ghost predicate JudgedThenForgotten(log: seq<Event>, h: int, k: int, p: string) {
    0 <= h < k < |log| && log[h].Judged? && log[h].pdid == p && log[k] == Forgotten(p)
    && forall m | h < m < k :: !log[m].Judged? && !log[m].Forgotten?
  }

  /** A deletion between `i` and `j` whose test came before `i`. */
  ghost predicate LateDeletion(log: seq<Event>, i: int, j: int, p: string) {
    exists h, k :: JudgedThenForgotten(log, h, k, p) && h < i < k < j
  }

  // ----- the last attempt and the doomed PDID, found in the trace

  lemma {:induction false} LastAttemptIsStart(log: seq<Event>, p: string) returns (m: nat)
    requires LastAttempt(log, p).Some?
    ensures StartOf(log, m, p) && log[m].at == LastAttempt(log, p).value && !ForgottenBetween(log, m, |log|, p)
  {
    var n := |log| - 1;
    if log[n].Started? && log[n].pdid == p {
      m := n;
    } else {
      m := LastAttemptIsStart(log[..n], p);
      assert log[..n][m] == log[m];
      ForgottenInPrefix(log, m, n, p);
    }
  }

  /** A start that has not been forgotten is the last attempt, or an earlier one. */
  lemma {:induction false} RememberedStart(log: seq<Event>, i: nat, p: string)
    requires GoodLog(log) && StartOf(log, i, p) && !ForgottenBetween(log, i, |log|, p)
    ensures LastAttempt(log, p).Some? && LastAttempt(log, p).value >= log[i].at
    decreases |log|
  {
    var n := |log| - 1;
    var init := log[..n];
    if i < n {
      assert init[i] == log[i];
      ForgottenInPrefix(log, i, n, p);
      RememberedStart(init, i, p);
      assert init[i] in init;
    }
  }

  lemma {:induction false} DoomedWasJudged(log: seq<Event>, p: string) returns (h: nat)
    requires DoomedIn(log) == Some(p)
    ensures h < |log| && log[h].Judged? && log[h].pdid == p
    ensures forall m | h < m < |log| :: !log[m].Judged? && !log[m].Forgotten?
  {
    var n := |log| - 1;
    if log[n].Judged? {
      h := n;
    } else {
      h := DoomedWasJudged(log[..n], p);
      assert forall m | h <= m < n :: log[..n][m] == log[m];
    }
  }

  /** A recent start that was forgotten was judged before it happened. */
  lemma {:induction false} RecentStartDeletedLate(log: seq<Event>, i: nat, p: string, now: int)
    requires GoodLog(log) && TimedBy(log, now) && StartOf(log, i, p) && now - log[i].at < COOLDOWN
    requires ForgottenBetween(log, i, |log|, p)
    ensures LateDeletion(log, i, |log|, p)
    decreases |log|
  {
    var n := |log| - 1;
    var init := log[..n];
    ForgottenInPrefix(log, i, n, p);
    assert init[i] == log[i];
    if ForgottenBetween(init, i, n, p) {
      assert forall e :: e in init ==> e in log;
      RecentStartDeletedLate(init, i, p, now);
      LateDeletionInPrefix(log, i, n, p);
    } else {
      assert log[n] == Forgotten(p);
      GoodAt(log, n);
      var h := DoomedWasJudged(init, p);
      assert init[h] == log[h] && forall m | h < m < n :: init[m] == log[m];
      if h > i {
        VerdictOnLaterStart(log, i, h, p, now);
      }
      assert JudgedThenForgotten(log, h, n, p);
    }
  }

  /** What the clean-up judges has no recent start that it still remembers. */
  lemma VerdictOnLaterStart(log: seq<Event>, i: nat, h: nat, p: string, now: int)
    requires GoodLog(log) && TimedBy(log, now) && StartOf(log, i, p) && now - log[i].at < COOLDOWN
    requires i < h < |log| && log[h].Judged? && log[h].pdid == p
    ensures ForgottenBetween(log, i, h, p)
  {
    if !ForgottenBetween(log, i, h, p) {
      GoodAt(log, h);
      GoodPrefix(log, h);
      ForgottenInPrefix(log, i, h, p);
      assert log[..h][i] == log[i];
      assert log[h] in log;
      RememberedStart(log[..h], i, p);
    }
  }

  lemma {:induction false} GoodPrefix(log: seq<Event>, j: nat)
    requires GoodLog(log) && j <= |log|
    ensures GoodLog(log[..j])
    decreases |log|
  {
    if j < |log| {
      GoodPrefix(log[..|log| - 1], j);
      assert log[..|log| - 1][..j] == log[..j];
    } else {
      assert log[..j] == log;
    }
  }

  lemma ForgottenInPrefix(log: seq<Event>, i: int, j: nat, p: string)
    requires j <= |log|
    ensures ForgottenBetween(log[..j], i, j, p) <==> ForgottenBetween(log, i, j, p)
  {
    if ForgottenBetween(log, i, j, p) {
      var k :| i < k < j && 0 <= k < |log| && log[k] == Forgotten(p);
      assert log[..j][k] == Forgotten(p);
    }
    if ForgottenBetween(log[..j], i, j, p) {
      var k :| i < k < j && 0 <= k < j && log[..j][k] == Forgotten(p);
      assert log[k] == Forgotten(p);
    }
  }

  lemma LateDeletionInPrefix(log: seq<Event>, i: int, j: nat, p: string)
    requires j <= |log| && LateDeletion(log[..j], i, j, p)
    ensures forall n | j <= n :: LateDeletion(log, i, n, p)
  {
    var h, k :| JudgedThenForgotten(log[..j], h, k, p) && h < i < k < j;
    assert forall m | 0 <= m < j :: log[..j][m] == log[m];
    assert JudgedThenForgotten(log, h, k, p);
  }

  lemma LateDeletionForgets(log: seq<Event>, i: int, j: int, p: string)
    ensures LateDeletion(log, i, j, p) ==> ForgottenBetween(log, i, j, p)
  {
  }

  // ----- the guard and the spacing

  /** The cooldown check passes exactly when every recent start was deleted late. */
  lemma CooledDownIff(log: seq<Event>, p: string, now: int)
    requires GoodLog(log) && TimedBy(log, now)
    ensures CooledDown(log, p, now) <==>
              forall i | StartOf(log, i, p) && now - log[i].at < COOLDOWN :: LateDeletion(log, i, |log|, p)
  {
    if CooledDown(log, p, now) {
      forall i | StartOf(log, i, p) && now - log[i].at < COOLDOWN ensures LateDeletion(log, i, |log|, p) {
        if !ForgottenBetween(log, i, |log|, p) {
          RememberedStart(log, i, p);
        }
        RecentStartDeletedLate(log, i, p, now);
      }
    } else {
      var m := LastAttemptIsStart(log, p);
      LateDeletionForgets(log, m, |log|, p);
    }
  }

  /** In every interleaving, a worker with an unforced request passes the cooldown check exactly
      when the clean-up has deleted, on a verdict passed before it, each start within the cooldown. */
  lemma PassesCheckIff(queueSize: nat, workers: nat, now: int, steps: seq<Step>, s: State, w: nat, p: string)
    requires Run(Initially(queueSize, workers, now), steps, s)
    requires w < |s.workers| && s.workers[w] == Looked(p, false)
    ensures AfterCheck(s, w, true).workers[w] == Checked(p, false) <==>
              forall i | StartOf(s.log, i, p) && s.clock - s.log[i].at < COOLDOWN :: LateDeletion(s.log, i, |s.log|, p)
  {
    ReachableIsValid(queueSize, workers, now, steps, s);
    CooledDownIff(s.log, p, s.clock);
  }

  /** Two enrichments of one PDID are a cooldown apart, unless the later one was forced or the
      earlier one was deleted in between on a verdict passed before it. */
  lemma StartsAreSpaced(queueSize: nat, workers: nat, now: int, steps: seq<Step>, s: State, i: nat, j: nat, p: string)
    requires Run(Initially(queueSize, workers, now), steps, s)
    requires i < j && StartOf(s.log, i, p) && StartOf(s.log, j, p)
    ensures s.log[j].force || s.log[j].at - s.log[i].at >= COOLDOWN || LateDeletion(s.log, i, j, p)
  {
    ReachableIsValid(queueSize, workers, now, steps, s);
    GoodAt(s.log, j);
    GoodPrefix(s.log, j);
    assert s.log[..j][i] == s.log[i];
    CooledDownIff(s.log[..j], p, s.log[j].at);
    if LateDeletion(s.log[..j], i, j, p) {
      LateDeletionInPrefix(s.log, i, j, p);
    }
  }

  // ----- the race, run out

  /** The clean-up judges an attempt of two hours before, a new one is noted, and the clean-up
      deletes that; the next unforced enrichment starts at once. */
  lemma UnforcedStartsCoincide() returns (steps: seq<Step>, s: State)
    ensures Run(Initially(1, 1, 0), steps, s)
    ensures s.log == Cycle(0) + [Judged("a", 7201)] + Cycle(7201) + [Forgotten("a")] + Cycle(7201)
  {
    var log1, log2 := Cycle(0), Cycle(0) + [Judged("a", 7201)];
    var log3 := log2 + Cycle(7201);
    var log4 := log3 + [Forgotten("a")];
    var first, late := map["a" := 0], map["a" := 7201];
    assert late == map[]["a" := 7201] == first["a" := 7201] && first == map[]["a" := 0];
    s := Quiet(late, Sweeping(1), 7201, log4 + Cycle(7201));
    steps := WholeCycle(map[], Sweeping(1), 7201, log4, [], s);
    steps := Deletes(late, log3, steps, s);
    steps := WholeCycle(first, Doomed(1, "a"), 7201, log2, steps, s);
    steps := Judges(log1, steps, s);
    assert Initially(1, 1, 0) == Quiet(map[], Resting, 0, []) && [] + Cycle(0) == log1;
    steps := WholeCycle(map[], Resting, 0, [], steps, s);
  }

  lemma Deletes(attempts: map<string, int>, log: seq<Event>, rest: seq<Step>, t: State) returns (steps: seq<Step>)
    requires attempts.Keys == {"a"}
    requires Run(Quiet(map[], Sweeping(1), 7201, log + [Forgotten("a")]), rest, t)
    ensures Run(Quiet(attempts, Doomed(1, "a"), 7201, log), steps, t)
  {
    var s0 := Quiet(attempts, Doomed(1, "a"), 7201, log);
    assert Next(s0, Forget) == Quiet(map[], Sweeping(1), 7201, log + [Forgotten("a")]);
    steps := Before(s0, Forget, rest, t);
  }

  lemma Judges(log: seq<Event>, rest: seq<Step>, t: State) returns (steps: seq<Step>)
    requires Run(Quiet(map["a" := 0], Doomed(1, "a"), 7201, log + [Judged("a", 7201)]), rest, t)
    ensures Run(Quiet(map["a" := 0], Resting, 0, log), steps, t)
  {
    var s0 := Quiet(map["a" := 0], Resting, 0, log);
    var s1 := Quiet(map["a" := 0], Resting, 7201, log);
    var s2 := Quiet(map["a" := 0], Sweeping(1), 7201, log);
    assert Next(s0, Tick(7201)) == s1;
    assert Next(s1, BeginSweep) == s2;
    steps := Before(s2, Judge("a"), rest, t);
    steps := Before(s1, BeginSweep, steps, t);
    steps := Before(s0, Tick(7201), steps, t);
  }
}
