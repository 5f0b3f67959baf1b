/** What a bundle of stored schedules comes to, and what a report of conflicts says of it, in terms
    of the stored rules alone. */
module BundleAnswers {
  import opened Options
  import opened ScheduleModel
  import opened ScheduleParser
  import opened ScheduleConflict
  import opened ScheduleMeaning
  import opened ScheduleAnswers
  import opened ScheduleEngine
  import Strings

  // ----- contradictions

  ghost predicate SaysAt(schedules: seq<ScheduleRecord>, local: int, action: Action) {
    exists s, rule :: s in schedules && rule in s.rules && rule.action == action && Projects(rule, local)
  }

  /** At some instant two rules of the bundle that disagree have their windows open. */
  ghost predicate Contradictory(schedules: seq<ScheduleRecord>) {
    exists local, x, y :: x != y && SaysAt(schedules, local, x) && SaysAt(schedules, local, y)
  }

  lemma CoveredMeansSays(schedules: seq<ScheduleRecord>, local: int, action: Action)
    requires AllParse(schedules)
    ensures Covered(AllSegments(schedules), MinuteOfWeek(local), action) <==> SaysAt(schedules, local, action)
  {
    if Covered(AllSegments(schedules), MinuteOfWeek(local), action) {
      var seg :| seg in AllSegments(schedules) && seg.Covers(MinuteOfWeek(local)) && seg.action == action;
      var s, i := Provenance(schedules, seg);
      assert s.rules[i] in s.rules;
      CoveredMeansProjects(s, i, local);
    }
    if SaysAt(schedules, local, action) {
      var s, rule :| s in schedules && rule in s.rules && rule.action == action && Projects(rule, local);
      var i :| 0 <= i < |s.rules| && s.rules[i] == rule;
      CoveredMeansProjects(s, i, local);
      var seg :| seg in RuleSegments(s, i, |rule.days|) && seg.Covers(MinuteOfWeek(local));
      SegmentOrigin(s, i, |rule.days|, seg);
      ScheduleSegments(s, |s.rules|, seg);
      BundleSegments(schedules, seg);
    }
  }

  lemma ClashIffContradictory(schedules: seq<ScheduleRecord>)
    requires AllParse(schedules) && IdsConsistent(schedules)
    ensures HasClash(AllSegments(schedules)) <==> Contradictory(schedules)
  {
    ClashIffContradiction(schedules);
    if HasClash(AllSegments(schedules)) {
      var minute, x, y :| x != y && Covered(AllSegments(schedules), minute, x)
                          && Covered(AllSegments(schedules), minute, y);
      var seg :| seg in AllSegments(schedules) && seg.Covers(minute) && seg.action == x;
      var _, _ := Provenance(schedules, seg);
      InstantOfMinute(minute);
      CoveredMeansSays(schedules, minute * 60, x);
      CoveredMeansSays(schedules, minute * 60, y);
    }
    if Contradictory(schedules) {
      var local, x, y :| x != y && SaysAt(schedules, local, x) && SaysAt(schedules, local, y);
      CoveredMeansSays(schedules, local, x);
      CoveredMeansSays(schedules, local, y);
    }
  }

  lemma InstantOfMinute(minute: int)
    requires 0 <= minute < 10080
    ensures MinuteOfWeek(minute * 60) == minute
  {
  }

  // ----- the action of a bundle

  /** The clock text of a rule cannot be read. */
  ghost predicate Unreadable(rule: Rule) {
    !(exists start, end :: Spells(rule.startTime, start) && Spells(rule.endTime, end))
  }

  lemma UnreadableMeans(rule: Rule)
    ensures Unreadable(rule) <==> !ClocksParse(rule)
  {
    if ClocksParse(rule) {
      ClocksMean(rule, StartMinute(rule), EndMinute(rule));
    }
    if !Unreadable(rule) {
      var start, end :| Spells(rule.startTime, start) && Spells(rule.endTime, end);
      ClocksMean(rule, start, end);
    }
  }

  /** The schedules of a bundle are there but cannot be merged. */
  ghost predicate Unmergeable(bundle: seq<ScheduleRecord>) {
    || (exists s, t :: s in bundle && t in bundle && s.timezone != t.timezone)
    || (exists s, rule :: s in bundle && rule in s.rules && Unreadable(rule))
    || Contradictory(bundle)
  }

  lemma MergeableMeans(bundle: seq<ScheduleRecord>)
    requires bundle != [] && IdsConsistent(bundle)
    ensures Mergeable(bundle) <==> !Unmergeable(bundle)
  {
    assert SameTimezone(bundle) <==> !exists s, t :: s in bundle && t in bundle && s.timezone != t.timezone by {
      assert bundle[0] in bundle;
    }
    forall s, rule | s in bundle && rule in s.rules ensures Unreadable(rule) <==> !ClocksParse(rule) {
      UnreadableMeans(rule);
    }
    assert AllParse(bundle) <==> !exists s, rule :: s in bundle && rule in s.rules && Unreadable(rule);
    if AllParse(bundle) {
      ClashIffContradictory(bundle);
    }
  }

  ghost predicate Restrictive(bundle: seq<ScheduleRecord>) {
    exists s :: s in bundle && (s.mode == Whitelist || exists rule :: rule in s.rules && rule.action == Allow)
  }

  ghost predicate SomeInForce(bundle: seq<ScheduleRecord>, local: int) {
    exists s, rule :: s in bundle && rule in s.rules && InForce(rule, local)
  }

  ghost predicate AllInForceSay(bundle: seq<ScheduleRecord>, local: int, action: Action) {
    forall s, rule | s in bundle && rule in s.rules && InForce(rule, local) :: rule.action == action
  }

  /** At a local instant the bundle acts as all its rules in force say; without one it blocks if a
      schedule is a whitelist or allows something, and otherwise allows. */
  ghost predicate BundleActs(bundle: seq<ScheduleRecord>, local: int, action: Action) {
    if SomeInForce(bundle, local) then AllInForceSay(bundle, local, action)
    else action == if Restrictive(bundle) then Block else Allow
  }

  lemma RuleOfBundle(bundle: seq<ScheduleRecord>, rule: Rule, local: int)
    ensures Matches(rule, local) <==> InForce(rule, local)
    ensures rule in AllRules(bundle) <==> exists s :: s in bundle && rule in s.rules
  {
    BundleRules(bundle, rule);
    MatchesMeansInForce(rule, local);
  }

  lemma CompositeActs(bundle: seq<ScheduleRecord>, local: int)
    requires bundle != [] && Mergeable(bundle) && IdsConsistent(bundle) && Validated(bundle)
    ensures BundleActs(bundle, local, EvaluateLocal(Composite(bundle), local))
  {
    CompositeFollowsRules(bundle, local);
    if SomeInForce(bundle, local) {
      forall s, rule | s in bundle && rule in s.rules && InForce(rule, local)
        ensures rule.action == EvaluateLocal(Composite(bundle), local)
      {
        RuleOfBundle(bundle, rule, local);
      }
    } else {
      forall rule | rule in AllRules(bundle) ensures !Matches(rule, local) {
        RuleOfBundle(bundle, rule, local);
      }
      RestrictiveMeans(bundle);
    }
  }

  lemma RestrictiveMeans(bundle: seq<ScheduleRecord>)
    ensures HasWhitelist(bundle) <==> Restrictive(bundle)
  {
  }

  ghost predicate BundleAnswers(bundle: seq<ScheduleRecord>, local: int, action: Action) {
    if Unmergeable(bundle) then action == Block
    else Validated(bundle) ==> BundleActs(bundle, local, action)
  }

  lemma MergedAnswers(bundle: seq<ScheduleRecord>, local: int, action: Action)
    requires bundle != [] && IdsConsistent(bundle)
    requires action == if Mergeable(bundle) then EvaluateLocal(Composite(bundle), local) else Block
    ensures BundleAnswers(bundle, local, action)
  {
    MergeableMeans(bundle);
    if Mergeable(bundle) && Validated(bundle) {
      CompositeActs(bundle, local);
    }
  }

  /** An empty bundle allows, and one with a missing schedule blocks. */
  lemma FreshActionOfNothing(zones: Zones, schedules: map<string, ScheduleRecord>, ids: seq<string>, now: int)
    ensures ids == [] ==> FreshAction(zones, schedules, ids, now) == Allow
    ensures (exists id :: id in ids && id !in schedules) ==> FreshAction(zones, schedules, ids, now) == Block
  {
  }

  /** A bundle whose schedules are there blocks if they cannot be merged; otherwise it acts, on the
      clock of the zone they share, as its rules say. */
  lemma FreshActionMeaning(
      zones: Zones, schedules: map<string, ScheduleRecord>, ids: seq<string>, now: int,
      bundle: seq<ScheduleRecord>, local: int, action: Action)
    requires KeyedById(schedules) && ids != [] && forall id | id in ids :: id in schedules
    requires |bundle| == |ids| && forall i | 0 <= i < |ids| :: bundle[i] == schedules[ids[i]]
    requires local == now + (if bundle[0].timezone in zones then zones[bundle[0].timezone] else 0)
    requires action == FreshAction(zones, schedules, ids, now)
    ensures BundleAnswers(bundle, local, action)
  {
    FreshMerge(zones, schedules, ids, now, bundle, local);
    MergedAnswers(bundle, local, action);
  }

  lemma FreshMerge(
      zones: Zones, schedules: map<string, ScheduleRecord>, ids: seq<string>, now: int,
      bundle: seq<ScheduleRecord>, local: int)
    requires KeyedById(schedules) && ids != [] && forall id | id in ids :: id in schedules
    requires |bundle| == |ids| && forall i | 0 <= i < |ids| :: bundle[i] == schedules[ids[i]]
    requires local == now + (if bundle[0].timezone in zones then zones[bundle[0].timezone] else 0)
    ensures IdsConsistent(bundle)
    ensures FreshAction(zones, schedules, ids, now) ==
            if Mergeable(bundle) then EvaluateLocal(Composite(bundle), local) else Block
  {
    assert bundle == Resolve(schedules, ids);
    ResolvedAreConsistent(schedules, ids);
  }

  /** How a composite grows by one schedule. */
  lemma CompositeGrows(before: seq<ScheduleRecord>, s: ScheduleRecord)
    ensures Composite([s]).id == s.id && Composite([s]).name == s.name && Composite([s]).rules == s.rules
    ensures before != [] ==>
              && Composite(before + [s]).id == Composite(before).id + "+" + s.id
              && Composite(before + [s]).name == Composite(before).name + " + " + s.name
              && Composite(before + [s]).rules == Composite(before).rules + s.rules
  {
    assert [s][..0] == [] && (before + [s])[..|before|] == before;
    assert Ids([s]) == [s.id] && Names([s]) == [s.name] && AllRules([s]) == s.rules;
    if before != [] {
      IdsAndNames(before);
      JoinMore(Ids(before), s.id, "+");
      JoinMore(Names(before), s.name, " + ");
    }
  }

  lemma {:induction false} IdsAndNames(bundle: seq<ScheduleRecord>)
    ensures |Ids(bundle)| == |Names(bundle)| == |bundle|
  {
    if bundle != [] {
      IdsAndNames(bundle[..|bundle| - 1]);
    }
  }

  lemma {:induction false} JoinMore(xs: seq<string>, x: string, sep: string)
    requires xs != []
    ensures Strings.Join(xs + [x], sep) == Strings.Join(xs, sep) + sep + x
  {
    assert (xs + [x])[1..] == xs[1..] + [x];
    if |xs| > 1 {
      JoinMore(xs[1..], x, sep);
    } else {
      Strings.JoinPair(xs[0], x, sep);
      assert xs + [x] == [xs[0], x];
    }
  }

  // ----- the report

  lemma TwoDigitsSpell(n: int)
    requires 0 <= n < 100
    ensures TwoDigits(n) == [DigitChar(n / 10), DigitChar(n % 10)]
  {
  }

  /** A minute of the week is written as its day and its clock. */
  lemma FormatMeaning(m: int, day: int, minute: int)
    requires 0 <= day < 7 && 0 <= minute < 1440 && m % 10080 == day * 1440 + minute
    ensures FormatMinuteOfWeek(m).0 ==
            ["sunday", "monday", "tuesday", "wednesday", "thursday", "friday", "saturday"][day]
    ensures Spells(FormatMinuteOfWeek(m).1, minute)
  {
    DivMod1440(m % 10080, day, minute);
    ClockIsSpelled(TwoDigits(minute / 60) + ":" + TwoDigits(minute % 60), minute);
  }

  lemma ClockIsSpelled(clock: string, minute: int)
    requires 0 <= minute < 1440 && clock == TwoDigits(minute / 60) + ":" + TwoDigits(minute % 60)
    ensures Spells(clock, minute)
  {
    TwoDigitsSpell(minute / 60);
    TwoDigitsSpell(minute % 60);
    PartsSpell(clock, TwoDigits(minute / 60), minute / 60, minute % 60);
  }

  lemma CoveredProjects(s: ScheduleRecord, i: nat, seg: Segment, local: int)
    requires i < |s.rules| && ClocksParse(s.rules[i]) && seg in RuleSegments(s, i, |s.rules[i].days|)
    requires seg.start <= local / 60 % 10080 < seg.end
    ensures Projects(s.rules[i], local)
  {
    CoveredMeansProjects(s, i, local);
    assert seg.Covers(MinuteOfWeek(local));
  }

  /** The texts of a conflict are those of the ends of the overlap. */
  ghost predicate Tells(c: Conflict, start: int, end: int) {
    && 0 <= start < end <= 10080
    && c.day == ["sunday", "monday", "tuesday", "wednesday", "thursday", "friday", "saturday"][start / 1440]
    && Spells(c.overlapStart, start % 1440) && Spells(c.overlapEnd, end % 1440)
  }

  lemma ConflictTells(a: Segment, b: Segment, start: int, end: int)
    requires start == MaxInt(a.start, b.start) && end == MinInt(a.end, b.end) && 0 <= start < end <= 10080
    ensures Tells(ConflictOf(a, b), start, end)
  {
    StartMeaning(start);
    EndMeaning(end);
    var from, to := FormatMinuteOfWeek(start), FormatMinuteOfWeek(end);
    TextsTell(ConflictOf(a, b), start, end, from.0, from.1, to.1);
  }

  lemma StartMeaning(m: int)
    requires 0 <= m < 10080
    ensures FormatMinuteOfWeek(m).0 ==
            ["sunday", "monday", "tuesday", "wednesday", "thursday", "friday", "saturday"][m / 1440]
    ensures Spells(FormatMinuteOfWeek(m).1, m % 1440)
  {
    FormatMeaning(m, m / 1440, m % 1440);
  }

  lemma EndMeaning(m: int)
    requires 0 < m <= 10080
    ensures Spells(FormatMinuteOfWeek(m).1, m % 1440)
  {
    FormatMeaning(m, m % 10080 / 1440, m % 1440);
  }

  lemma TextsTell(c: Conflict, start: int, end: int, day: string, from: string, to: string)
    requires c.day == day && c.overlapStart == from && c.overlapEnd == to && 0 <= start < end <= 10080
    requires day == ["sunday", "monday", "tuesday", "wednesday", "thursday", "friday", "saturday"][start / 1440]
    requires Spells(from, start % 1440) && Spells(to, end % 1440)
    ensures Tells(c, start, end)
  {
  }

  ghost predicate BothProject(r: Rule, q: Rule, start: int, end: int) {
    forall local | start <= local / 60 % 10080 < end :: Projects(r, local) && Projects(q, local)
  }

  lemma OverlapProjects(
      s: ScheduleRecord, i: nat, a: Segment, t: ScheduleRecord, j: nat, b: Segment, start: int, end: int)
    requires i < |s.rules| && ClocksParse(s.rules[i]) && a in RuleSegments(s, i, |s.rules[i].days|)
    requires j < |t.rules| && ClocksParse(t.rules[j]) && b in RuleSegments(t, j, |t.rules[j].days|)
    requires start == MaxInt(a.start, b.start) && end == MinInt(a.end, b.end)
    ensures BothProject(s.rules[i], t.rules[j], start, end)
  {
    forall local | start <= local / 60 % 10080 < end
      ensures Projects(s.rules[i], local) && Projects(t.rules[j], local)
    {
      CoveredProjects(s, i, a, local);
      CoveredProjects(t, j, b, local);
    }
  }

  /** A reported conflict names two schedules of the bundle with rules that say the reported actions,
      which differ, and a stretch of the week, by its day and its clocks, over which both rules have
      their windows open. */
  lemma ReportIsTrue(schedules: seq<ScheduleRecord>, conflicts: seq<Conflict>, c: Conflict)
    returns (s: ScheduleRecord, t: ScheduleRecord, i: nat, j: nat, start: int, end: int)
    requires AllParse(schedules) && FaithfulReport(AllSegments(schedules), conflicts) && c in conflicts
    ensures s in schedules && c.scheduleAId == s.id && c.scheduleAName == s.name
    ensures t in schedules && c.scheduleBId == t.id && c.scheduleBName == t.name
    ensures i < |s.rules| && j < |t.rules|
    ensures c.actionA == s.rules[i].action && c.actionB == t.rules[j].action && c.actionA != c.actionB
    ensures Tells(c, start, end) && BothProject(s.rules[i], t.rules[j], start, end)
  {
    var a, b :| InOrderClash(AllSegments(schedules), a, b) && c == ConflictOf(a, b);
    s, i := Provenance(schedules, a);
    t, j := Provenance(schedules, b);
    start, end := MaxInt(a.start, b.start), MinInt(a.end, b.end);
    ConflictTells(a, b, start, end);
    OverlapProjects(s, i, a, t, j, b, start, end);
  }
}
