/** Neither the order of the schedules in a bundle nor that of the rules in a schedule decides
    what the bundle does. */
module ScheduleOrder {
  import opened Options
  import opened ScheduleModel
  import opened ScheduleParser
  import opened ScheduleConflict
  import opened ScheduleMeaning

  // ----- order of the schedules

  ghost predicate SameSchedules(xs: seq<ScheduleRecord>, ys: seq<ScheduleRecord>) {
    forall s :: s in xs <==> s in ys
  }

  lemma SameScheduleSegments(xs: seq<ScheduleRecord>, ys: seq<ScheduleRecord>)
    requires SameSchedules(xs, ys) && AllParse(xs)
    ensures AllParse(ys)
    ensures forall seg :: seg in AllSegments(xs) <==> seg in AllSegments(ys)
  {
    forall seg ensures seg in AllSegments(xs) <==> seg in AllSegments(ys) {
      BundleSegments(xs, seg);
      BundleSegments(ys, seg);
    }
  }

  lemma SameScheduleRules(xs: seq<ScheduleRecord>, ys: seq<ScheduleRecord>)
    requires SameSchedules(xs, ys)
    ensures forall rule :: rule in AllRules(xs) <==> rule in AllRules(ys)
  {
    forall rule ensures rule in AllRules(xs) <==> rule in AllRules(ys) {
      BundleRules(xs, rule);
      BundleRules(ys, rule);
    }
  }

  /** Which bundles merge depends neither on the order nor on the repetition of schedules. */
  lemma MergeableIgnoresOrder(xs: seq<ScheduleRecord>, ys: seq<ScheduleRecord>)
    requires SameSchedules(xs, ys) && Mergeable(xs)
    ensures Mergeable(ys)
    ensures xs != [] ==> ys != [] && xs[0].timezone == ys[0].timezone
  {
    SameScheduleSegments(xs, ys);
    if xs != [] {
      assert xs[0] in ys;
    }
    if ys != [] {
      assert ys[0] in xs;
    }
  }

  // ----- order of the rules

  /** The two bundles consist of the same rules and have the same default. */
  ghost predicate SameRules(xs: seq<ScheduleRecord>, ys: seq<ScheduleRecord>) {
    && (forall rule :: rule in AllRules(xs) <==> rule in AllRules(ys))
    && (HasWhitelist(xs) <==> HasWhitelist(ys))
  }

  /** The verdict of a merged bundle of validated schedules depends on its rules alone. */
  lemma EvaluateDependsOnRules(xs: seq<ScheduleRecord>, ys: seq<ScheduleRecord>, local: int)
    requires SameRules(xs, ys) && xs != [] && ys != []
    requires Mergeable(xs) && IdsConsistent(xs) && Validated(xs)
    ensures EvaluateLocal(Composite(xs), local) == EvaluateLocal(Composite(ys), local)
  {
    CompositeFollowsRules(xs, local);
    var cy := Composite(ys);
    if rule :| rule in AllRules(xs) && Matches(rule, local) {
      EvaluateUniform(cy, local, rule.action);
    } else {
      EvaluateUniform(cy, local, Block);
    }
  }

  /** The same schedule with its rules in another order. */
  ghost predicate Rearranged(s: ScheduleRecord, t: ScheduleRecord) {
    t == s.(rules := t.rules) && multiset(s.rules) == multiset(t.rules)
  }

  ghost predicate HasRearranged(s: ScheduleRecord, schedules: seq<ScheduleRecord>) {
    exists t :: t in schedules && Rearranged(s, t)
  }

  ghost predicate Within(xs: seq<ScheduleRecord>, ys: seq<ScheduleRecord>) {
    forall s | s in xs :: HasRearranged(s, ys)
  }

  /** The schedules of one bundle are those of the other, in any order, each with its rules in any
      order. */
  ghost predicate RearrangedBundle(xs: seq<ScheduleRecord>, ys: seq<ScheduleRecord>) {
    Within(xs, ys) && Within(ys, xs)
  }

  lemma RearrangedMembers(s: ScheduleRecord, t: ScheduleRecord)
    requires Rearranged(s, t)
    ensures forall rule :: rule in s.rules <==> rule in t.rules
  {
    forall rule ensures rule in s.rules <==> rule in t.rules {
      assert rule in s.rules <==> rule in multiset(s.rules);
      assert rule in t.rules <==> rule in multiset(t.rules);
    }
  }

  lemma RearrangedBundleMembers(xs: seq<ScheduleRecord>, ys: seq<ScheduleRecord>, rule: Rule)
    requires Within(xs, ys) && rule in AllRules(xs)
    ensures rule in AllRules(ys)
  {
    BundleRules(xs, rule);
    var s :| s in xs && rule in s.rules;
    var t :| t in ys && Rearranged(s, t);
    RearrangedMembers(s, t);
    BundleRules(ys, rule);
  }

  lemma RearrangedWhitelist(xs: seq<ScheduleRecord>, ys: seq<ScheduleRecord>)
    requires Within(xs, ys) && HasWhitelist(xs)
    ensures HasWhitelist(ys)
  {
    var s :| s in xs && (s.mode == Whitelist || exists r | r in s.rules :: r.action == Allow);
    var t :| t in ys && Rearranged(s, t);
    RearrangedMembers(s, t);
  }

  lemma RearrangedHasSameRules(xs: seq<ScheduleRecord>, ys: seq<ScheduleRecord>)
    requires RearrangedBundle(xs, ys)
    ensures SameRules(xs, ys)
  {
    forall rule ensures rule in AllRules(xs) <==> rule in AllRules(ys) {
      if rule in AllRules(xs) { RearrangedBundleMembers(xs, ys, rule); }
      if rule in AllRules(ys) { RearrangedBundleMembers(ys, xs, rule); }
    }
    if HasWhitelist(xs) { RearrangedWhitelist(xs, ys); }
    if HasWhitelist(ys) { RearrangedWhitelist(ys, xs); }
  }

  /** A minute of the week lies in a window of the rule, as the projection reads it. */
  ghost predicate RuleCovers(rule: Rule, minute: int)
    requires ClocksParse(rule)
  {
    exists day: Weekday :: (Short(day) in rule.days || Long(day) in rule.days)
      && InWindow(day, StartMinute(rule), Span(rule), minute)
  }

  lemma CoveredByRule(schedules: seq<ScheduleRecord>, minute: int, action: Action)
    requires AllParse(schedules) && 0 <= minute < 10080
    ensures Covered(AllSegments(schedules), minute, action) <==>
            exists rule :: rule in AllRules(schedules) && rule.action == action
              && ClocksParse(rule) && RuleCovers(rule, minute)
  {
    if Covered(AllSegments(schedules), minute, action) {
      var seg :| seg in AllSegments(schedules) && seg.Covers(minute) && seg.action == action;
      var s, i := Provenance(schedules, seg);
      ProjectionIsWindow(s, i, minute);
      assert s.rules[i] in s.rules;
      BundleRules(schedules, s.rules[i]);
    }
    if rule :| rule in AllRules(schedules) && rule.action == action && ClocksParse(rule) && RuleCovers(rule, minute) {
      BundleRules(schedules, rule);
      var s :| s in schedules && rule in s.rules;
      var i :| 0 <= i < |s.rules| && s.rules[i] == rule;
      ProjectionIsWindow(s, i, minute);
      var seg :| seg in RuleSegments(s, i, |rule.days|) && seg.Covers(minute);
      SegmentOrigin(s, i, |rule.days|, seg);
      ScheduleSegments(s, |s.rules|, seg);
      BundleSegments(schedules, seg);
    }
  }

  lemma ClashNeedsSameRules(xs: seq<ScheduleRecord>, ys: seq<ScheduleRecord>)
    requires SameRules(xs, ys) && AllParse(xs) && AllParse(ys) && IdsConsistent(xs) && IdsConsistent(ys)
    requires HasClash(AllSegments(xs))
    ensures HasClash(AllSegments(ys))
  {
    ClashIffContradiction(xs);
    var minute, x, y :| x != y && Covered(AllSegments(xs), minute, x) && Covered(AllSegments(xs), minute, y);
    var seg :| seg in AllSegments(xs) && seg.Covers(minute) && seg.action == x;
    var _, _ := Provenance(xs, seg);
    CoveredByRule(xs, minute, x);
    CoveredByRule(xs, minute, y);
    CoveredByRule(ys, minute, x);
    CoveredByRule(ys, minute, y);
    ClashIffContradiction(ys);
  }

  /** Which bundles merge does not depend on the order of the rules. */
  lemma MergeableIgnoresRuleOrder(xs: seq<ScheduleRecord>, ys: seq<ScheduleRecord>)
    requires RearrangedBundle(xs, ys) && IdsConsistent(xs) && IdsConsistent(ys) && Mergeable(xs)
    ensures Mergeable(ys)
    ensures xs != [] ==> ys != [] && xs[0].timezone == ys[0].timezone
  {
    RearrangedHasSameRules(xs, ys);
    forall t | t in ys ensures RulesParse(t) && t.timezone == xs[0].timezone {
      assert HasRearranged(t, xs);
      var s :| s in xs && Rearranged(t, s);
      RearrangedMembers(t, s);
    }
    if xs != [] {
      assert HasRearranged(xs[0], ys);
    }
    if ys != [] {
      assert ys[0] in ys;
    }
    assert AllParse(ys);
    if HasClash(AllSegments(ys)) {
      ClashNeedsSameRules(ys, xs);
    }
  }

  /** Nor does what a merged bundle of validated schedules does, neither on the order of the rules
      nor on that of the schedules. */
  lemma EvaluateIgnoresRuleOrder(xs: seq<ScheduleRecord>, ys: seq<ScheduleRecord>, local: int)
    requires RearrangedBundle(xs, ys) && xs != [] && ys != []
    requires Mergeable(xs) && IdsConsistent(xs) && Validated(xs)
    ensures EvaluateLocal(Composite(xs), local) == EvaluateLocal(Composite(ys), local)
  {
    RearrangedHasSameRules(xs, ys);
    EvaluateDependsOnRules(xs, ys, local);
  }

  lemma EvaluateIgnoresOrder(xs: seq<ScheduleRecord>, ys: seq<ScheduleRecord>, local: int)
    requires SameSchedules(xs, ys) && xs != [] && ys != []
    requires Mergeable(xs) && IdsConsistent(xs) && Validated(xs)
    ensures EvaluateLocal(Composite(xs), local) == EvaluateLocal(Composite(ys), local)
  {
    SameScheduleRules(xs, ys);
    EvaluateDependsOnRules(xs, ys, local);
  }

  // ----- where the order matters

  /** A schedule with a rule for the whole of Monday, written with one clock text. */
  ghost function AllMonday(id: string, action: Action): ScheduleRecord {
    ScheduleRecord(id, id, Downtime, "UTC", [Rule([Short(1)], "08:00", "08:00", action)])
  }

  lemma AllMondayMatches(action: Action)
    ensures var rule := Rule([Short(1)], "08:00", "08:00", action);
      ClocksParse(rule) && MatchLength(rule, 1 * 86400 + 43200) == Some(86400)
  {
    assert ParseClock("08:00") == Some(480);
  }

  lemma FirstFullDayWins(id: string, action: Action, other: string, otherAction: Action)
    ensures var bundle := [AllMonday(id, action), AllMonday(other, otherAction)];
      Mergeable(bundle) && EvaluateLocal(Composite(bundle), 1 * 86400 + 43200) == action
  {
    var a, b := AllMonday(id, action), AllMonday(other, otherAction);
    AllMondayMatches(action);
    AllMondayMatches(otherAction);
    FullDayProjectsToNothing(a);
    FullDayProjectsToNothing(b);
    TwoFullDays(a, b);
    FirstOfTwo(a.rules + b.rules, 1 * 86400 + 43200, Composite([a, b]));
  }

  lemma FirstOfTwo(rules: seq<Rule>, local: int, a: ScheduleRecord)
    requires |rules| == 2 && MatchLength(rules[0], local) == MatchLength(rules[1], local) == Some(86400)
    requires a.rules == rules
    ensures EvaluateLocal(a, local) == rules[0].action
  {
    MatchLengthsAt(rules, local, 0);
    MatchLengthsAt(rules, local, 1);
    var lengths := MatchLengths(rules, local);
    assert BestOf(lengths, 0) == None && BestOf(lengths, 1) == Some(0) && BestOf(lengths, 2) == Some(0);
  }

  /** Rules that open and close at one clock text, which the handlers refuse, make the order
      matter: the projection does not see them, so the bundle merges, and the first one wins. */
  lemma FullDayRulesMakeOrderMatter()
    ensures var a, b, local := AllMonday("a", Block), AllMonday("b", Allow), 1 * 86400 + 43200;
      && Mergeable([a, b]) && Mergeable([b, a])
      && EvaluateLocal(Composite([a, b]), local) == Block
      && EvaluateLocal(Composite([b, a]), local) == Allow
  {
    var a, b, local := AllMonday("a", Block), AllMonday("b", Allow), 1 * 86400 + 43200;
    FirstFullDayWins("a", Block, "b", Allow);
    FirstFullDayWins("b", Allow, "a", Block);
  }

  /** Such a schedule projects to nothing. */
  lemma FullDayProjectsToNothing(s: ScheduleRecord)
    requires |s.rules| == 1 && |s.rules[0].days| == 1 && ClocksParse(s.rules[0]) && !DistinctTimes(s.rules[0])
    ensures RulesParse(s) && SegmentsOf(s, 1) == []
  {
    assert RuleSegments(s, 0, 0) == [] && RuleSegments(s, 0, 1) == [];
    assert SegmentsOf(s, 0) == [];
  }

  lemma TwoFullDays(a: ScheduleRecord, b: ScheduleRecord)
    requires |a.rules| == |b.rules| == 1 && a.timezone == b.timezone
    requires RulesParse(a) && RulesParse(b) && SegmentsOf(a, 1) == SegmentsOf(b, 1) == []
    ensures Mergeable([a, b]) && AllRules([a, b]) == a.rules + b.rules
  {
    assert [a, b][..1] == [a] && [a][..0] == [];
    assert AllParse([a, b]) && AllParse([a]);
    assert AllSegments([a]) == AllSegments([]) + SegmentsOf(a, 1) == [];
    assert AllSegments([a, b]) == AllSegments([a]) + SegmentsOf(b, 1) == [];
    assert AllRules([a]) == a.rules;
  }
}
