/** The projection and the interpreter are written independently; this module proves that
    they give a rule the same meaning, and what an interpreted composite therefore does. */
module ScheduleMeaning {
  import opened Options
  import opened ScheduleModel
  import opened ScheduleParser
  import opened ScheduleConflict

  // ----- one rule

  /** The window length in minutes that `Evaluate` acts on.  It differs from the projection's
      span in one case: identical clock texts make a window of a whole day. */
  ghost function EvaluatorSpan(rule: Rule): (span: int)
    requires ClocksParse(rule)
    ensures 0 <= span <= 1440
  {
    if StartMinute(rule) != EndMinute(rule) then Span(rule)
    else if DistinctTimes(rule) then 0
    else 1440
  }

  /** The interpreter's test in minutes of the day. */
  lemma MatchesByMinute(rule: Rule, local: int, today: int, minuteOfDay: int, second: int)
    requires ClocksParse(rule)
    requires local == today * 86400 + minuteOfDay * 60 + second && local / 86400 == today
    requires 0 <= minuteOfDay < 1440 && 0 <= second < 60
    ensures var current: Weekday := today % 7;
      var previous: Weekday := (current + 6) % 7;
      Matches(rule, local) <==>
        || (Short(current) in rule.days && 0 <= minuteOfDay - StartMinute(rule) < EvaluatorSpan(rule))
        || (Short(previous) in rule.days && minuteOfDay - StartMinute(rule) + 1440 < EvaluatorSpan(rule))
  {
    var start, end := StartMinute(rule), EndMinute(rule);
    assert today * 86400 + start * 60 <= local <==> start <= minuteOfDay;
    assert local < today * 86400 + end * 60 <==> minuteOfDay < end;
    assert EvaluatorSpan(rule) ==
      if start < end then end - start
      else if start > end then end - start + 1440
      else if DistinctTimes(rule) then 0 else 1440;
  }

  /** `Evaluate` takes a rule to be in force in exactly the windows that open on its days. */
  lemma MatchesIsWindow(rule: Rule, local: int)
    requires ClocksParse(rule)
    ensures Matches(rule, local) <==>
              exists day: Weekday :: Short(day) in rule.days
                && InWindow(day, StartMinute(rule), EvaluatorSpan(rule), MinuteOfWeek(local))
  {
    var today, minuteOfDay, second := ClockParts(local);
    MatchesByMinute(rule, local, today, minuteOfDay, second);
    WindowDays(StartMinute(rule), EvaluatorSpan(rule), today % 7, minuteOfDay, MinuteOfWeek(local));
  }

  lemma WindowDays(start: int, length: int, current: Weekday, minuteOfDay: int, minute: int)
    requires 0 <= start < 1440 && 0 <= length <= 1440 && 0 <= minuteOfDay < 1440
    requires minute == current * 1440 + minuteOfDay
    ensures forall day: Weekday :: InWindow(day, start, length, minute) <==>
              || (day == current && 0 <= minuteOfDay - start < length)
              || (day == (current + 6) % 7 && minuteOfDay - start + 1440 < length)
  {
    forall day: Weekday
      ensures InWindow(day, start, length, minute) <==>
              || (day == current && 0 <= minuteOfDay - start < length)
              || (day == (current + 6) % 7 && minuteOfDay - start + 1440 < length)
    {
      WindowByDay(day, start, length, current, minuteOfDay);
    }
  }

  /** The projection of a rule covers exactly the windows that open on its days, long names
      included. */
  lemma ProjectionIsWindow(s: ScheduleRecord, i: nat, minute: int)
    requires i < |s.rules| && ClocksParse(s.rules[i]) && 0 <= minute < 10080
    ensures var rule := s.rules[i];
      (exists seg | seg in RuleSegments(s, i, |rule.days|) :: seg.Covers(minute)) <==>
      exists day: Weekday :: (Short(day) in rule.days || Long(day) in rule.days)
        && InWindow(day, StartMinute(rule), Span(rule), minute)
  {
    var rule := s.rules[i];
    RuleCoverage(s, i, |rule.days|, minute);
    forall day: Weekday | (Short(day) in rule.days || Long(day) in rule.days)
      && InWindow(day, StartMinute(rule), Span(rule), minute)
      ensures exists k | 0 <= k < |rule.days| :: NamedDay(rule.days[k]) == Some(day)
    {
      var name := if Short(day) in rule.days then Short(day) else Long(day);
      var k :| 0 <= k < |rule.days| && rule.days[k] == name;
    }
  }

  /** At every instant, the interpreter applies the rule exactly when its projection covers
      the minute. */
  ghost predicate Agrees(s: ScheduleRecord, i: nat)
    requires i < |s.rules| && ClocksParse(s.rules[i])
  {
    forall local: int ::
      Matches(s.rules[i], local) <==>
      exists seg | seg in RuleSegments(s, i, |s.rules[i].days|) :: seg.Covers(MinuteOfWeek(local))
  }

  /** The rules on which the two readings coincide.  A rule with identical clock texts must
      name no short day, and any other rule that lasts must repeat its long day names in
      short form. */
  predicate Portable(rule: Rule)
    requires ClocksParse(rule)
  {
    if !DistinctTimes(rule) then forall day: Weekday :: Short(day) !in rule.days
    else StartMinute(rule) == EndMinute(rule) || ShortDaysOnly(rule)
  }

  lemma AgreementIffPortable(s: ScheduleRecord, i: nat)
    requires i < |s.rules| && ClocksParse(s.rules[i])
    ensures Agrees(s, i) <==> Portable(s.rules[i])
  {
    var rule := s.rules[i];
    if Portable(rule) {
      forall local: int
        ensures Matches(rule, local) <==>
                exists seg | seg in RuleSegments(s, i, |rule.days|) :: seg.Covers(MinuteOfWeek(local))
      {
        MatchesIsWindow(rule, local);
        ProjectionIsWindow(s, i, MinuteOfWeek(local));
      }
    } else {
      var day: Weekday :|
        if DistinctTimes(rule) then Long(day) in rule.days && Short(day) !in rule.days
        else Short(day) in rule.days;
      NotPortable(s, i, day);
    }
  }

  /** The opening minute of an offending day tells the two readings apart. */
  lemma NotPortable(s: ScheduleRecord, i: nat, day: Weekday)
    requires i < |s.rules| && ClocksParse(s.rules[i])
    requires var rule := s.rules[i];
      if DistinctTimes(rule) then
        StartMinute(rule) != EndMinute(rule) && Long(day) in rule.days && Short(day) !in rule.days
      else Short(day) in rule.days
    ensures !Agrees(s, i)
  {
    if DistinctTimes(s.rules[i]) {
      LongNameIsNotApplied(s, i, day);
    } else {
      FullDayIsNotProjected(s, i, day);
    }
  }

  lemma LongNameIsNotApplied(s: ScheduleRecord, i: nat, day: Weekday)
    requires i < |s.rules| && ClocksParse(s.rules[i]) && DistinctTimes(s.rules[i])
    requires StartMinute(s.rules[i]) != EndMinute(s.rules[i])
    requires Long(day) in s.rules[i].days && Short(day) !in s.rules[i].days
    ensures !Agrees(s, i)
  {
    var rule := s.rules[i];
    var local := day * 86400 + StartMinute(rule) * 60;
    OpeningMinute(rule, day, local);
    assert !Matches(rule, local) by { MatchesIsWindow(rule, local); }
    assert InWindow(day, StartMinute(rule), Span(rule), MinuteOfWeek(local));
    ProjectionIsWindow(s, i, MinuteOfWeek(local));
    DisagreesAt(s, i, local);
  }

  lemma DisagreesAt(s: ScheduleRecord, i: nat, local: int)
    requires i < |s.rules| && ClocksParse(s.rules[i])
    requires Matches(s.rules[i], local) <==>
             !exists seg | seg in RuleSegments(s, i, |s.rules[i].days|) :: seg.Covers(MinuteOfWeek(local))
    ensures !Agrees(s, i)
  {
  }

  lemma FullDayIsNotProjected(s: ScheduleRecord, i: nat, day: Weekday)
    requires i < |s.rules| && ClocksParse(s.rules[i]) && !DistinctTimes(s.rules[i]) && Short(day) in s.rules[i].days
    ensures !Agrees(s, i)
  {
    var rule := s.rules[i];
    var local := day * 86400 + StartMinute(rule) * 60;
    OpeningMinute(rule, day, local);
    assert Matches(rule, local) by { MatchesIsWindow(rule, local); }
    ProjectionIsWindow(s, i, MinuteOfWeek(local));
    DisagreesAt(s, i, local);
  }

  /** The opening minute of a window lies in it, and in no window of the rule that opens on
      another day. */
  lemma OpeningMinute(rule: Rule, day: Weekday, local: int)
    requires ClocksParse(rule) && local == day * 86400 + StartMinute(rule) * 60
    ensures forall other: Weekday ::
              InWindow(other, StartMinute(rule), EvaluatorSpan(rule), MinuteOfWeek(local)) <==>
              other == day && EvaluatorSpan(rule) > 0
    ensures InWindow(day, StartMinute(rule), Span(rule), MinuteOfWeek(local)) <==> Span(rule) > 0
  {
    DivMod60(local, day * 1440 + StartMinute(rule), 0);
    var start := StartMinute(rule);
    WindowDays(start, EvaluatorSpan(rule), day, start, MinuteOfWeek(local));
    WindowDays(start, Span(rule), day, start, MinuteOfWeek(local));
  }

  // ----- bundles

  ghost predicate IdsConsistent(schedules: seq<ScheduleRecord>) {
    forall a, b | a in schedules && b in schedules && a.id == b.id :: a == b
  }

  /** What the handlers demand of every rule they store. */
  ghost predicate Validated(schedules: seq<ScheduleRecord>) {
    forall s | s in schedules :: forall rule | rule in s.rules :: DistinctTimes(rule)
  }

  ghost predicate AllPortable(schedules: seq<ScheduleRecord>) {
    forall s | s in schedules :: forall rule | rule in s.rules :: ClocksParse(rule) && Portable(rule)
  }

  ghost predicate Covered(segments: seq<Segment>, minute: int, action: Action) {
    exists seg :: seg in segments && seg.Covers(minute) && seg.action == action
  }

  /** A segment carries the action and the origin of the rule it comes from. */
  lemma {:induction false} SegmentOrigin(s: ScheduleRecord, i: nat, n: nat, seg: Segment)
    requires i < |s.rules| && ClocksParse(s.rules[i]) && n <= |s.rules[i].days|
    requires seg in RuleSegments(s, i, n)
    ensures seg.action == s.rules[i].action && seg.sourceRuleIdx == i
    ensures seg.scheduleId == s.id && seg.scheduleName == s.name
    ensures 0 <= seg.start <= seg.end <= 10080 && seg.end - seg.start <= 1440
  {
    if n > 0 && seg in RuleSegments(s, i, n - 1) {
      SegmentOrigin(s, i, n - 1, seg);
    }
  }

  lemma {:induction false} ScheduleSegments(s: ScheduleRecord, n: nat, seg: Segment)
    requires RulesParse(s) && n <= |s.rules|
    ensures seg in SegmentsOf(s, n) <==>
              exists i :: 0 <= i < n && seg in RuleSegments(s, i, |s.rules[i].days|)
  {
    if n > 0 {
      ScheduleSegments(s, n - 1, seg);
    }
  }

  lemma {:induction false} BundleSegments(schedules: seq<ScheduleRecord>, seg: Segment)
    requires AllParse(schedules)
    ensures seg in AllSegments(schedules) <==>
              exists s :: s in schedules && seg in SegmentsOf(s, |s.rules|)
  {
    if schedules != [] {
      var init, last := schedules[..|schedules| - 1], schedules[|schedules| - 1];
      BundleSegments(init, seg);
      assert forall s :: s in schedules <==> s in init || s == last;
    }
  }

  lemma {:induction false} BundleRules(schedules: seq<ScheduleRecord>, rule: Rule)
    ensures rule in AllRules(schedules) <==> exists s :: s in schedules && rule in s.rules
  {
    if schedules != [] {
      var init, last := schedules[..|schedules| - 1], schedules[|schedules| - 1];
      BundleRules(init, rule);
      assert forall s :: s in schedules <==> s in init || s == last;
    }
  }

  /** Where a segment of a bundle comes from. */
  lemma Provenance(schedules: seq<ScheduleRecord>, seg: Segment) returns (s: ScheduleRecord, i: nat)
    requires AllParse(schedules) && seg in AllSegments(schedules)
    ensures s in schedules && i < |s.rules| && seg in RuleSegments(s, i, |s.rules[i].days|)
    ensures seg.action == s.rules[i].action && seg.sourceRuleIdx == i
    ensures seg.scheduleId == s.id && seg.scheduleName == s.name
    ensures 0 <= seg.start <= seg.end <= 10080 && seg.end - seg.start <= 1440
  {
    BundleSegments(schedules, seg);
    s :| s in schedules && seg in SegmentsOf(s, |s.rules|);
    ScheduleSegments(s, |s.rules|, seg);
    i :| 0 <= i < |s.rules| && seg in RuleSegments(s, i, |s.rules[i].days|);
    SegmentOrigin(s, i, |s.rules[i].days|, seg);
  }

  /** The segments of a bundle that clash are exactly those that put contradictory actions on
      some minute, provided equal ids mean equal schedules. */
  lemma ClashIffContradiction(schedules: seq<ScheduleRecord>)
    requires AllParse(schedules) && IdsConsistent(schedules)
    ensures HasClash(AllSegments(schedules)) <==>
              exists minute, x, y ::
                x != y && Covered(AllSegments(schedules), minute, x) && Covered(AllSegments(schedules), minute, y)
  {
    var segments := AllSegments(schedules);
    if HasClash(segments) {
      var a, b :| a in segments && b in segments && Clash(a, b);
      var minute := MaxInt(a.start, b.start);
      assert Covered(segments, minute, a.action) && Covered(segments, minute, b.action);
    }
    if minute, x, y :| x != y && Covered(segments, minute, x) && Covered(segments, minute, y) {
      var a :| a in segments && a.Covers(minute) && a.action == x;
      var b :| b in segments && b.Covers(minute) && b.action == y;
      var s, i := Provenance(schedules, a);
      var t, j := Provenance(schedules, b);
      assert Clash(a, b);
    }
  }

  /** Whatever the ids: what is reported are contradictions between rules that differ in their
      number or in the id of their schedule. */
  lemma ClashIffTaggedContradiction(schedules: seq<ScheduleRecord>)
    requires AllParse(schedules)
    ensures HasClash(AllSegments(schedules)) <==>
              exists minute, a, b ::
                && a in AllSegments(schedules) && b in AllSegments(schedules)
                && a.Covers(minute) && b.Covers(minute) && a.action != b.action
                && (a.scheduleId != b.scheduleId || a.sourceRuleIdx != b.sourceRuleIdx)
  {
    var segments := AllSegments(schedules);
    if HasClash(segments) {
      var a, b :| a in segments && b in segments && Clash(a, b);
      var minute := MaxInt(a.start, b.start);
      assert a.Covers(minute) && b.Covers(minute);
    }
    if minute, a, b :|
      && a in segments && b in segments && a.Covers(minute) && b.Covers(minute) && a.action != b.action
      && (a.scheduleId != b.scheduleId || a.sourceRuleIdx != b.sourceRuleIdx)
    {
      assert Clash(a, b);
    }
  }

  lemma OneActionPerMinute(schedules: seq<ScheduleRecord>, minute: int, x: Action, y: Action)
    requires Mergeable(schedules) && IdsConsistent(schedules)
    requires Covered(AllSegments(schedules), minute, x) && Covered(AllSegments(schedules), minute, y)
    ensures x == y
  {
    ClashIffContradiction(schedules);
  }

  /** A schedule that applies one action on Monday from 22:00 to 23:00. */
  ghost function MondayNight(name: string, action: Action): ScheduleRecord {
    ScheduleRecord("x", name, Downtime, "UTC", [Rule([Short(1)], "22:00", "23:00", action)])
  }

  lemma MondayNightSegments(name: string, action: Action)
    ensures var s := MondayNight(name, action);
      RulesParse(s) && SegmentsOf(s, 1) == [Segment(2760, 2820, action, "x", name, 0)]
  {
    var s := MondayNight(name, action);
    assert ParseClock("22:00") == Some(1320) && ParseClock("23:00") == Some(1380);
    assert RuleSegments(s, 0, 0) == [] && SegmentsOf(s, 0) == [];
  }

  /** Without consistent ids a contradiction can go unreported: the sweep takes two rules of
      two different schedules with one id for the same rule. */
  lemma SharedIdHidesContradiction()
    ensures var bundle := [MondayNight("a", Block), MondayNight("b", Allow)];
      && Mergeable(bundle)
      && Covered(AllSegments(bundle), 2760, Block) && Covered(AllSegments(bundle), 2760, Allow)
  {
    MondayNightSegments("a", Block);
    MondayNightSegments("b", Allow);
    var bundle := [MondayNight("a", Block), MondayNight("b", Allow)];
    assert bundle[..1] == [MondayNight("a", Block)];
    var segA, segB := Segment(2760, 2820, Block, "x", "a", 0), Segment(2760, 2820, Allow, "x", "b", 0);
    assert AllSegments(bundle[..1]) == [segA];
    assert AllSegments(bundle) == [segA, segB];
    assert segA.Covers(2760) && segB.Covers(2760);
  }

  // ----- the composite

  /** When the rules in force agree, the interpreter returns what they agree on. */
  lemma EvaluateUniform(s: ScheduleRecord, local: int, action: Action)
    requires forall rule | rule in s.rules && Matches(rule, local) :: rule.action == action
    ensures (exists rule :: rule in s.rules && Matches(rule, local)) ==> EvaluateLocal(s, local) == action
    ensures (forall rule | rule in s.rules :: !Matches(rule, local)) ==>
            EvaluateLocal(s, local) == DefaultAction(s.mode)
  {
    var lengths := MatchLengths(s.rules, local);
    BestOfIsFirstShortest(lengths, |s.rules|);
    forall k | 0 <= k < |s.rules| ensures lengths[k] == MatchLength(s.rules[k], local) {
      MatchLengthsAt(s.rules, local, k);
    }
  }

  lemma MatchedRuleIsCovered(schedules: seq<ScheduleRecord>, rule: Rule, local: int)
    requires AllParse(schedules) && rule in AllRules(schedules)
    requires Matches(rule, local) && DistinctTimes(rule)
    ensures Covered(AllSegments(schedules), MinuteOfWeek(local), rule.action)
  {
    BundleRules(schedules, rule);
    var s :| s in schedules && rule in s.rules;
    var i :| 0 <= i < |s.rules| && s.rules[i] == rule;
    MatchesIsWindow(rule, local);
    ProjectionIsWindow(s, i, MinuteOfWeek(local));
    var seg :| seg in RuleSegments(s, i, |rule.days|) && seg.Covers(MinuteOfWeek(local));
    SegmentOrigin(s, i, |rule.days|, seg);
    ScheduleSegments(s, |s.rules|, seg);
    BundleSegments(schedules, seg);
  }

  lemma CoveredRuleMatches(schedules: seq<ScheduleRecord>, seg: Segment, local: int)
    requires AllParse(schedules) && AllPortable(schedules) && seg in AllSegments(schedules)
    requires seg.Covers(MinuteOfWeek(local))
    ensures exists rule :: rule in AllRules(schedules) && Matches(rule, local) && rule.action == seg.action
  {
    var s, i := Provenance(schedules, seg);
    var rule := s.rules[i];
    assert rule in s.rules;
    AgreementIffPortable(s, i);
    BundleRules(schedules, rule);
  }

  lemma CompositeCovered(schedules: seq<ScheduleRecord>, seg: Segment, local: int)
    requires schedules != [] && Mergeable(schedules)
    requires IdsConsistent(schedules) && AllPortable(schedules)
    requires seg in AllSegments(schedules) && seg.Covers(MinuteOfWeek(local))
    ensures EvaluateLocal(Composite(schedules), local) == seg.action
  {
    var minute := MinuteOfWeek(local);
    assert Covered(AllSegments(schedules), minute, seg.action);
    CoveredRuleMatches(schedules, seg, local);
    var composite := Composite(schedules);
    forall rule | rule in composite.rules && Matches(rule, local) ensures rule.action == seg.action {
      PortableMatchIsDistinct(schedules, rule, local);
      MatchedRuleIsCovered(schedules, rule, local);
      OneActionPerMinute(schedules, minute, rule.action, seg.action);
    }
    EvaluateUniform(composite, local, seg.action);
  }

  lemma CompositeUncovered(schedules: seq<ScheduleRecord>, local: int)
    requires schedules != [] && Mergeable(schedules) && AllPortable(schedules)
    requires forall seg | seg in AllSegments(schedules) :: !seg.Covers(MinuteOfWeek(local))
    ensures EvaluateLocal(Composite(schedules), local) == if HasWhitelist(schedules) then Block else Allow
  {
    var composite := Composite(schedules);
    forall rule | rule in composite.rules ensures !Matches(rule, local) {
      if Matches(rule, local) {
        PortableMatchIsDistinct(schedules, rule, local);
        MatchedRuleIsCovered(schedules, rule, local);
      }
    }
    EvaluateUniform(composite, local, Block);
  }

  /** A merged bundle acts, at every instant, with the action of every projected segment over
      that minute, and with its default action where there is none. */
  lemma CompositeMeaning(schedules: seq<ScheduleRecord>, local: int)
    requires schedules != [] && Mergeable(schedules)
    requires IdsConsistent(schedules) && AllPortable(schedules)
    ensures forall seg | seg in AllSegments(schedules) && seg.Covers(MinuteOfWeek(local)) ::
              EvaluateLocal(Composite(schedules), local) == seg.action
    ensures (forall seg | seg in AllSegments(schedules) :: !seg.Covers(MinuteOfWeek(local))) ==>
              EvaluateLocal(Composite(schedules), local) == if HasWhitelist(schedules) then Block else Allow
  {
    forall seg | seg in AllSegments(schedules) && seg.Covers(MinuteOfWeek(local))
      ensures EvaluateLocal(Composite(schedules), local) == seg.action
    {
      CompositeCovered(schedules, seg, local);
    }
    if forall seg | seg in AllSegments(schedules) :: !seg.Covers(MinuteOfWeek(local)) {
      CompositeUncovered(schedules, local);
    }
  }

  lemma PortableMatchIsDistinct(schedules: seq<ScheduleRecord>, rule: Rule, local: int)
    requires AllPortable(schedules) && rule in AllRules(schedules) && Matches(rule, local)
    ensures DistinctTimes(rule)
  {
    BundleRules(schedules, rule);
    MatchesIsWindow(rule, local);
  }

  /** The rules themselves decide too, whatever names their days have: a merged bundle of validated
      schedules acts as every rule in force says, and with its default action if none is. */
  lemma CompositeFollowsRules(schedules: seq<ScheduleRecord>, local: int)
    requires schedules != [] && Mergeable(schedules)
    requires IdsConsistent(schedules) && Validated(schedules)
    ensures forall rule | rule in AllRules(schedules) && Matches(rule, local) ::
              EvaluateLocal(Composite(schedules), local) == rule.action
    ensures (forall rule | rule in AllRules(schedules) :: !Matches(rule, local)) ==>
              EvaluateLocal(Composite(schedules), local) == if HasWhitelist(schedules) then Block else Allow
  {
    var composite := Composite(schedules);
    forall rule | rule in AllRules(schedules) && Matches(rule, local)
      ensures Covered(AllSegments(schedules), MinuteOfWeek(local), rule.action)
    {
      BundleRules(schedules, rule);
      MatchedRuleIsCovered(schedules, rule, local);
    }
    forall rule | rule in AllRules(schedules) && Matches(rule, local)
      ensures EvaluateLocal(composite, local) == rule.action
    {
      forall other | other in AllRules(schedules) && Matches(other, local) ensures other.action == rule.action {
        OneActionPerMinute(schedules, MinuteOfWeek(local), other.action, rule.action);
      }
      EvaluateUniform(composite, local, rule.action);
    }
    if forall rule | rule in AllRules(schedules) :: !Matches(rule, local) {
      EvaluateUniform(composite, local, Block);
    }
  }
}
