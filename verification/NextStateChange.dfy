/** The prediction of the next instant at which the interpreter's verdict may change. */
module NextStateChange {
  import opened Options
  import opened ScheduleModel
  import opened ScheduleParser
  import Sorting
  import Meaning = ScheduleMeaning

  predicate IntLeq(a: int, b: int) { a <= b }

  /** The seconds of the day at which a rule's clock texts that parse fall. */
  ghost predicate RuleClock(rule: Rule, secondOfDay: int) {
    && secondOfDay % 60 == 0
    && (ParseClock(rule.startTime) == Some(secondOfDay / 60) || ParseClock(rule.endTime) == Some(secondOfDay / 60))
  }

  ghost predicate Boundary(rules: seq<Rule>, local: int) {
    exists rule :: rule in rules && RuleClock(rule, local % 86400)
  }

  // ----- the verdict is constant between boundaries

  /** Moving on by a minute keeps a window open or closed, unless the new minute is the one
      at which it opens or closes. */
  lemma WindowStep(day: Weekday, start: int, length: int, minute: int, next: int)
    requires 0 <= minute < 10080 && next == (minute + 1) % 10080
    requires 0 <= start < 1440 && 0 <= length <= 1440
    requires next % 1440 != start && next % 1440 != (start + length) % 1440
    ensures InWindow(day, start, length, minute) <==> InWindow(day, start, length, next)
  {
    var base := day * 1440 + start;
    var v, w := (minute - base) % 10080, (next - base) % 10080;
    var q := (next - base) / 10080;
    assert next == start + w + 1440 * (day + 7 * q);
    DayResidue(next, start + w, day + 7 * q);
    NextResidue(minute - base, next - base);
  }

  lemma NextResidue(a: int, b: int)
    requires b == a + 1 || b == a + 1 - 10080
    ensures b % 10080 == if a % 10080 == 10079 then 0 else a % 10080 + 1
  {
    var q, r := a / 10080, a % 10080;
    var wrap := if b == a + 1 then 0 else 1;
    if r == 10079 {
      DivMod10080(b, q + 1 - wrap, 0);
    } else {
      DivMod10080(b, q - wrap, r + 1);
    }
  }

  lemma DayResidue(a: int, b: int, days: int)
    requires a == b + 1440 * days
    ensures a % 1440 == b % 1440
  {
    DivMod1440(a, b / 1440 + days, b % 1440);
  }

  lemma MinuteStep(local: int)
    ensures (local + 1) % 60 != 0 ==> MinuteOfWeek(local + 1) == MinuteOfWeek(local)
    ensures (local + 1) % 60 == 0 ==> MinuteOfWeek(local + 1) == (MinuteOfWeek(local) + 1) % 10080
  {
    var k, r := local / 60, local % 60;
    if r == 59 {
      DivMod60(local + 1, k + 1, 0);
      NextResidue(k, k + 1);
    } else {
      DivMod60(local + 1, k, r + 1);
    }
  }

  lemma WindowsStep(start: int, span: int, end: int, minute: int, next: int)
    requires 0 <= minute < 10080 && next == (minute + 1) % 10080
    requires 0 <= start < 1440 && 0 <= span <= 1440
    requires span == 0 || (start + span) % 1440 == end
    requires next % 1440 != start && next % 1440 != end
    ensures forall day: Weekday :: InWindow(day, start, span, minute) <==> InWindow(day, start, span, next)
  {
    if span != 0 {
      forall day: Weekday ensures InWindow(day, start, span, minute) <==> InWindow(day, start, span, next) {
        WindowStep(day, start, span, minute, next);
      }
    }
  }

  lemma SpanEnds(rule: Rule)
    requires ClocksParse(rule)
    ensures var span := Meaning.EvaluatorSpan(rule);
      span == 0 || (StartMinute(rule) + span) % 1440 == EndMinute(rule)
  {
    SpanArithmetic(StartMinute(rule), EndMinute(rule));
  }

  lemma SpanArithmetic(start: int, end: int)
    requires 0 <= start < 1440 && 0 <= end < 1440
    ensures (start + (end - start) % 1440) % 1440 == end && (start + 1440) % 1440 == start
  {
  }

  /** The windows of a rule that are open stay so, and no other opens, up to its next clock
      time. */
  lemma RuleWindowsStep(rule: Rule, local: int)
    requires ClocksParse(rule) && !RuleClock(rule, (local + 1) % 86400)
    ensures var start, span := StartMinute(rule), Meaning.EvaluatorSpan(rule);
      forall day: Weekday ::
        InWindow(day, start, span, MinuteOfWeek(local)) <==> InWindow(day, start, span, MinuteOfWeek(local + 1))
  {
    MinuteStep(local);
    if (local + 1) % 60 == 0 {
      var today, minuteOfDay, second := ClockParts(local + 1);
      SpanEnds(rule);
      WindowsStep(StartMinute(rule), Meaning.EvaluatorSpan(rule), EndMinute(rule),
                  MinuteOfWeek(local), MinuteOfWeek(local + 1));
    }
  }

  /** A rule comes into force or lapses only at one of its clock times. */
  lemma MatchStep(rule: Rule, local: int)
    requires !RuleClock(rule, (local + 1) % 86400)
    ensures MatchLength(rule, local) == MatchLength(rule, local + 1)
  {
    if ClocksParse(rule) {
      RuleWindowsStep(rule, local);
      Meaning.MatchesIsWindow(rule, local);
      Meaning.MatchesIsWindow(rule, local + 1);
    }
  }

  lemma {:induction false} LengthsStep(rules: seq<Rule>, local: int)
    requires forall rule | rule in rules :: !RuleClock(rule, (local + 1) % 86400)
    ensures MatchLengths(rules, local) == MatchLengths(rules, local + 1)
  {
    if rules != [] {
      assert rules[0] in rules;
      assert forall rule | rule in rules[1..] :: rule in rules;
      MatchStep(rules[0], local);
      LengthsStep(rules[1..], local);
    }
  }

  lemma {:induction false} ConstantBetweenBoundaries(s: ScheduleRecord, first: int, last: int)
    requires first <= last
    requires forall t | first < t <= last :: !Boundary(s.rules, t)
    ensures EvaluateLocal(s, last) == EvaluateLocal(s, first)
    decreases last - first
  {
    if first < last {
      ConstantBetweenBoundaries(s, first, last - 1);
      assert !Boundary(s.rules, last);
      LengthsStep(s.rules, last - 1);
    }
  }

  // ----- NextStateChange

  ghost predicate HasClock(rules: seq<Rule>) {
    exists rule :: rule in rules && (ParseClock(rule.startTime).Some? || ParseClock(rule.endTime).Some?)
  }

  /** Every boundary in a stretch of time that lies after `local` has been collected. */
  ghost predicate Complete(points: seq<int>, rules: seq<Rule>, first: int, limit: int, local: int) {
    forall t | first <= t < limit && local < t && Boundary(rules, t) :: t in points
  }

  ghost predicate Sound(points: seq<int>, rules: seq<Rule>, local: int) {
    forall p | p in points :: local < p && Boundary(rules, p)
  }

  lemma ClockPoint(rule: Rule, day: int, clock: Option<nat>)
    requires clock.Some?
    requires clock == ParseClock(rule.startTime) || clock == ParseClock(rule.endTime)
    ensures RuleClock(rule, (day * 86400 + clock.value * 60) % 86400)
  {
    DivMod86400(day * 86400 + clock.value * 60, day, clock.value * 60);
    DivMod60(clock.value * 60, clock.value, 0);
  }

  /** Within one day a clock time falls at one instant. */
  lemma ClockInstant(rule: Rule, day: int, t: int)
    requires day * 86400 <= t < (day + 1) * 86400 && RuleClock(rule, t % 86400)
    ensures || (ParseClock(rule.startTime).Some? && t == day * 86400 + ParseClock(rule.startTime).value * 60)
            || (ParseClock(rule.endTime).Some? && t == day * 86400 + ParseClock(rule.endTime).value * 60)
  {
    DivMod86400(t, day, t - day * 86400);
  }

  ghost predicate CollectedClock(points: seq<int>, clock: Option<nat>, day: int, local: int) {
    clock.Some? && day * 86400 + clock.value * 60 > local ==> day * 86400 + clock.value * 60 in points
  }

  /** One clock time of a rule on one day. */
  method CollectClock(rules: seq<Rule>, rule: Rule, clock: Option<nat>, day: int, local: int,
                      before: seq<int>)
    returns (points: seq<int>)
    requires rule in rules && Sound(before, rules, local)
    requires clock == ParseClock(rule.startTime) || clock == ParseClock(rule.endTime)
    ensures Sound(points, rules, local)
    ensures forall p | p in before :: p in points
    ensures CollectedClock(points, clock, day, local)
  {
    points := before;
    if clock.Some? {
      var t := day * 86400 + clock.value * 60;
      if t > local {
        ClockPoint(rule, day, clock);
        points := points + [t];
      }
    }
  }

  /** The loop over the rules for one day. */
  method CollectDay(rules: seq<Rule>, day: int, local: int, before: seq<int>) returns (points: seq<int>)
    requires Sound(before, rules, local)
    ensures Sound(points, rules, local)
    ensures forall p | p in before :: p in points
    ensures Complete(points, rules, day * 86400, (day + 1) * 86400, local)
  {
    points := before;
    for k := 0 to |rules|
      invariant Sound(points, rules, local)
      invariant forall p | p in before :: p in points
      invariant Complete(points, rules[..k], day * 86400, (day + 1) * 86400, local)
    {
      ghost var was := points;
      points := CollectClock(rules, rules[k], ParseClock(rules[k].startTime), day, local, points);
      points := CollectClock(rules, rules[k], ParseClock(rules[k].endTime), day, local, points);
      CompleteNext(was, points, rules, k, day, local);
    }
    assert rules[..|rules|] == rules;
  }

  lemma CompleteNext(points: seq<int>, more: seq<int>, rules: seq<Rule>, k: nat, day: int, local: int)
    requires k < |rules| && Complete(points, rules[..k], day * 86400, (day + 1) * 86400, local)
    requires forall p | p in points :: p in more
    requires CollectedClock(more, ParseClock(rules[k].startTime), day, local)
    requires CollectedClock(more, ParseClock(rules[k].endTime), day, local)
    ensures Complete(more, rules[..k + 1], day * 86400, (day + 1) * 86400, local)
  {
    forall t | day * 86400 <= t < (day + 1) * 86400 && local < t && Boundary(rules[..k + 1], t) ensures t in more {
      var r :| r in rules[..k + 1] && RuleClock(r, t % 86400);
      if r in rules[..k] {
        assert Boundary(rules[..k], t);
      } else {
        assert r == rules[k];
        ClockInstant(r, day, t);
      }
    }
  }

  /** Some boundary falls within a day of any instant if there is any clock time at all. */
  lemma BoundaryWithinADay(rules: seq<Rule>, local: int) returns (t: int)
    requires HasClock(rules)
    ensures local < t <= local + 86400 && Boundary(rules, t)
  {
    var rule :| rule in rules && (ParseClock(rule.startTime).Some? || ParseClock(rule.endTime).Some?);
    var clock := if ParseClock(rule.startTime).Some? then ParseClock(rule.startTime) else ParseClock(rule.endTime);
    var today, _, _ := ClockParts(local);
    var day := if today * 86400 + clock.value * 60 <= local then today + 1 else today;
    ClockPoint(rule, day, clock);
    t := day * 86400 + clock.value * 60;
  }

  /** The loop over the days. */
  method CollectPoints(rules: seq<Rule>, local: int) returns (points: seq<int>)
    ensures Sound(points, rules, local)
    ensures Complete(points, rules, local, local + 86401, local)
  {
    points := [];
    var today := local / 86400;
    for i := 0 to 8
      invariant Sound(points, rules, local)
      invariant Complete(points, rules, today * 86400, (today + i) * 86400, local)
    {
      points := CollectDay(rules, today + i, local, points);
    }
  }

  /** The earliest collected point, or the same time tomorrow if there is none. */
  method NextPoint(rules: seq<Rule>, local: int) returns (next: int)
    ensures local < next <= local + 86400
    ensures if HasClock(rules) then Boundary(rules, next) else next == local + 86400
    ensures forall t | local < t < next :: !Boundary(rules, t)
  {
    var transitionPoints := CollectPoints(rules, local);
    if HasClock(rules) {
      var first := BoundaryWithinADay(rules, local);
      assert first in transitionPoints;
    }
    if |transitionPoints| == 0 {
      NoClockNoBoundary(rules);
      return local + 86400;
    }
    var sorted := Sorting.Sort(IntLeq, transitionPoints);
    Sorting.SortSorted(IntLeq, transitionPoints);
    Sorting.SameMembers(sorted, transitionPoints);
    next := sorted[0];
    assert next in transitionPoints;
    BoundaryHasClock(rules, next);
  }

  method NextStateChange(zones: Zones, s: ScheduleRecord, now: int) returns (next: int)
    ensures now < next <= now + 86400
    ensures forall t | now <= t < next :: EvaluateAt(zones, s, t) == EvaluateAt(zones, s, now)
    ensures if HasClock(s.rules) then Boundary(s.rules, LocalTime(zones, s.timezone, next)) else next == now + 86400
    ensures forall t | now < t < next :: !Boundary(s.rules, LocalTime(zones, s.timezone, t))
  {
    var local := LocalTime(zones, s.timezone, now);
    var nextLocal := NextPoint(s.rules, local);
    next := nextLocal - (local - now);
    ConstantUntil(zones, s, now, next);
  }

  lemma ConstantUntil(zones: Zones, s: ScheduleRecord, now: int, next: int)
    requires forall t | now < t < next :: !Boundary(s.rules, LocalTime(zones, s.timezone, t))
    ensures forall t | now <= t < next :: EvaluateAt(zones, s, t) == EvaluateAt(zones, s, now)
  {
    forall t | now <= t < next ensures EvaluateAt(zones, s, t) == EvaluateAt(zones, s, now) {
      var first, last := LocalTime(zones, s.timezone, now), LocalTime(zones, s.timezone, t);
      NoLocalBoundary(zones, s, now, t);
      ConstantBetweenBoundaries(s, first, last);
    }
  }

  /** The same instants seen from the schedule's zone. */
  lemma NoLocalBoundary(zones: Zones, s: ScheduleRecord, now: int, t: int)
    requires forall u | now < u <= t :: !Boundary(s.rules, LocalTime(zones, s.timezone, u))
    ensures forall u | LocalTime(zones, s.timezone, now) < u <= LocalTime(zones, s.timezone, t) :: !Boundary(s.rules, u)
  {
    var offset := LocalTime(zones, s.timezone, 0);
    forall u | LocalTime(zones, s.timezone, now) < u <= LocalTime(zones, s.timezone, t) ensures !Boundary(s.rules, u) {
      assert LocalTime(zones, s.timezone, u - offset) == u;
    }
  }

  lemma NoClockNoBoundary(rules: seq<Rule>)
    ensures !HasClock(rules) ==> forall t :: !Boundary(rules, t)
  {
  }

  lemma BoundaryHasClock(rules: seq<Rule>, t: int)
    requires Boundary(rules, t)
    ensures HasClock(rules)
  {
  }
}
