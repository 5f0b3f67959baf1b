/** The compiler: weekly rules become minute-of-week segments, and a bundle of schedules
    becomes one composite schedule once no two segments contradict each other. */
module ScheduleConflict {
  import opened Options
  import opened ScheduleModel
  import Sorting
  import Strings

  /** A half-open range of minutes of the week with the action and the origin of its rule. */
  datatype Segment = Segment(
    start: int, end: int, action: Action,
    scheduleId: string, scheduleName: string, sourceRuleIdx: nat)
  {
    predicate Covers(minute: int) { start <= minute < end }
  }

  // ----- ProjectSchedule

  /** The one or two segments of a rule on one day. */
  function DaySegments(s: ScheduleRecord, ruleIdx: nat, day: Weekday): seq<Segment>
    requires ruleIdx < |s.rules| && ClocksParse(s.rules[ruleIdx])
  {
    var rule := s.rules[ruleIdx];
    var start, end := StartMinute(rule), EndMinute(rule);
    if start < end then
      [Segment(day * 1440 + start, day * 1440 + end, rule.action, s.id, s.name, ruleIdx)]
    else
      var nextDay := (day + 1) % 7;
      [Segment(day * 1440 + start, (day + 1) * 1440, rule.action, s.id, s.name, ruleIdx),
       Segment(nextDay * 1440, nextDay * 1440 + end, rule.action, s.id, s.name, ruleIdx)]
  }

  function NamedDay(name: DayName): Option<Weekday> {
    match name
    case Short(day) => Some(day)
    case Long(day) => Some(day)
    case Unrecognised => None
  }

  /** The segments of the first `n` days of a rule. */
  function RuleSegments(s: ScheduleRecord, ruleIdx: nat, n: nat): seq<Segment>
    requires ruleIdx < |s.rules| && ClocksParse(s.rules[ruleIdx])
    requires n <= |s.rules[ruleIdx].days|
  {
    if n == 0 || StartMinute(s.rules[ruleIdx]) == EndMinute(s.rules[ruleIdx]) then []
    else
      var day := NamedDay(s.rules[ruleIdx].days[n - 1]);
      RuleSegments(s, ruleIdx, n - 1) + if day.Some? then DaySegments(s, ruleIdx, day.value) else []
  }

  predicate RulesParse(s: ScheduleRecord) {
    forall rule | rule in s.rules :: ClocksParse(rule)
  }

  /** The segments of the first `n` rules of a schedule. */
  function SegmentsOf(s: ScheduleRecord, n: nat): seq<Segment>
    requires n <= |s.rules|
    requires RulesParse(s)
  {
    if n == 0 then []
    else SegmentsOf(s, n - 1) + RuleSegments(s, n - 1, |s.rules[n - 1].days|)
  }

  /** The loop over the days of one rule. */
  method ProjectRule(s: ScheduleRecord, ruleIdx: nat, start: nat, end: nat, before: seq<Segment>)
    returns (segments: seq<Segment>)
    requires ruleIdx < |s.rules| && ClocksParse(s.rules[ruleIdx])
    requires start == StartMinute(s.rules[ruleIdx]) && end == EndMinute(s.rules[ruleIdx]) && start != end
    ensures segments == before + RuleSegments(s, ruleIdx, |s.rules[ruleIdx].days|)
  {
    var rule := s.rules[ruleIdx];
    segments := before;
    for j := 0 to |rule.days|
      invariant segments == before + RuleSegments(s, ruleIdx, j)
    {
      var day := NamedDay(rule.days[j]);
      if day.None? { continue; }
      var dayIdx: int := day.value;
      if start < end {
        var startW, endW := dayIdx * 1440 + start, dayIdx * 1440 + end;
        segments := segments + [Segment(startW, endW, rule.action, s.id, s.name, ruleIdx)];
      } else {
        var startW1, endW1 := dayIdx * 1440 + start, (dayIdx + 1) * 1440;
        segments := segments + [Segment(startW1, endW1, rule.action, s.id, s.name, ruleIdx)];
        var nextDayIdx := (dayIdx + 1) % 7;
        var startW2, endW2 := nextDayIdx * 1440, nextDayIdx * 1440 + end;
        segments := segments + [Segment(startW2, endW2, rule.action, s.id, s.name, ruleIdx)];
      }
    }
  }

  method ProjectSchedule(s: ScheduleRecord) returns (r: Option<seq<Segment>>)
    ensures r == if RulesParse(s) then Some(SegmentsOf(s, |s.rules|)) else None
  {
    var segments := [];
    for ruleIdx := 0 to |s.rules|
      invariant forall k | 0 <= k < ruleIdx :: ClocksParse(s.rules[k])
      invariant RulesParse(s) ==> segments == SegmentsOf(s, ruleIdx)
    {
      var rule := s.rules[ruleIdx];
      assert rule in s.rules;
      var startT := ParseClock(rule.startTime);
      if startT.None? { return None; }
      var endT := ParseClock(rule.endTime);
      if endT.None? { return None; }
      if startT.value == endT.value { continue; }
      segments := ProjectRule(s, ruleIdx, startT.value, endT.value, segments);
    }
    return Some(segments);
  }

  // ----- what the projection covers

  /** A window read around the week lies on its opening day or runs into the next one. */
  lemma WindowByDay(day: Weekday, start: int, length: int, weekday: Weekday, minuteOfDay: int)
    requires 0 <= start < 1440 && 0 <= length <= 1440 && 0 <= minuteOfDay < 1440
    ensures InWindow(day, start, length, weekday * 1440 + minuteOfDay) <==>
              || (weekday == day && 0 <= minuteOfDay - start < length)
              || (weekday == (day + 1) % 7 && minuteOfDay - start + 1440 < length)
  {
    var v := weekday * 1440 + minuteOfDay - (day * 1440 + start);
    assert v % 10080 == if v < 0 then v + 10080 else v;
  }

  /** The one or two pieces of a window cut at midnight make up the window. */
  lemma PiecesOfWindow(day: Weekday, start: int, end: int, minute: int)
    requires 0 <= start < 1440 && 0 <= end < 1440 && start != end && 0 <= minute < 10080
    ensures InWindow(day, start, (end - start) % 1440, minute) <==>
              if start < end then day * 1440 + start <= minute < day * 1440 + end
              else || day * 1440 + start <= minute < (day + 1) * 1440
                   || (day + 1) % 7 * 1440 <= minute < (day + 1) % 7 * 1440 + end
  {
    var weekday: Weekday, minuteOfDay := minute / 1440, minute % 1440;
    WindowByDay(day, start, (end - start) % 1440, weekday, minuteOfDay);
    assert (end - start) % 1440 == if start < end then end - start else end - start + 1440;
  }

  lemma DayCoverage(s: ScheduleRecord, ruleIdx: nat, day: Weekday, minute: int)
    requires ruleIdx < |s.rules| && ClocksParse(s.rules[ruleIdx])
    requires StartMinute(s.rules[ruleIdx]) != EndMinute(s.rules[ruleIdx])
    requires 0 <= minute < 10080
    ensures (exists seg | seg in DaySegments(s, ruleIdx, day) :: seg.Covers(minute)) <==>
              InWindow(day, StartMinute(s.rules[ruleIdx]), Span(s.rules[ruleIdx]), minute)
  {
    var rule := s.rules[ruleIdx];
    var segs := DaySegments(s, ruleIdx, day);
    PiecesOfWindow(day, StartMinute(rule), EndMinute(rule), minute);
    assert segs[0] in segs && segs[|segs| - 1] in segs;
  }

  lemma {:induction false} RuleCoverage(s: ScheduleRecord, ruleIdx: nat, n: nat, minute: int)
    requires ruleIdx < |s.rules| && ClocksParse(s.rules[ruleIdx])
    requires n <= |s.rules[ruleIdx].days|
    requires 0 <= minute < 10080
    ensures (exists seg | seg in RuleSegments(s, ruleIdx, n) :: seg.Covers(minute)) <==>
              exists k | 0 <= k < n :: NamedDay(s.rules[ruleIdx].days[k]).Some?
                && InWindow(NamedDay(s.rules[ruleIdx].days[k]).value,
                            StartMinute(s.rules[ruleIdx]), Span(s.rules[ruleIdx]), minute)
  {
    var rule := s.rules[ruleIdx];
    if n > 0 && StartMinute(rule) != EndMinute(rule) {
      RuleCoverage(s, ruleIdx, n - 1, minute);
      var day := NamedDay(rule.days[n - 1]);
      var head := RuleSegments(s, ruleIdx, n - 1);
      if day.Some? {
        DayCoverage(s, ruleIdx, day.value, minute);
        var last := DaySegments(s, ruleIdx, day.value);
        assert forall seg :: seg in head + last <==> seg in head || seg in last;
      }
    } else if n > 0 {
      assert Span(rule) == 0;
    }
  }

  // ----- conflicts

  datatype Conflict = Conflict(
    scheduleAId: string, scheduleAName: string, scheduleBId: string, scheduleBName: string,
    day: string, overlapStart: string, overlapEnd: string, actionA: Action, actionB: Action)

  function MaxInt(a: int, b: int): int { if a > b then a else b }

  function MinInt(a: int, b: int): int { if a < b then a else b }

  predicate Overlap(a: Segment, b: Segment) {
    MaxInt(a.start, b.start) < MinInt(a.end, b.end)
  }

  /** Two segments contradict each other: they share a minute, disagree on the action and
      stem from different rules. */
  predicate Clash(a: Segment, b: Segment) {
    && Overlap(a, b)
    && a.action != b.action
    && (a.scheduleId != b.scheduleId || a.sourceRuleIdx != b.sourceRuleIdx)
  }

  ghost predicate HasClash(segments: seq<Segment>) {
    exists a, b :: a in segments && b in segments && Clash(a, b)
  }

  const DAY_NAMES := ["sunday", "monday", "tuesday", "wednesday", "thursday", "friday", "saturday"]

  /** `%02d`. */
  function TwoDigits(n: int): string
    requires 0 <= n < 100
  {
    [('0' as int + n / 10) as char, ('0' as int + n % 10) as char]
  }

  function FormatMinuteOfWeek(m: int): (string, string) {
    var minute := m % 10080;
    var minuteOfDay := minute % 1440;
    (DAY_NAMES[minute / 1440],
     TwoDigits(minuteOfDay / 60) + ":" + TwoDigits(minuteOfDay % 60))
  }

  function ConflictOf(a: Segment, b: Segment): Conflict {
    var (day, start) := FormatMinuteOfWeek(MaxInt(a.start, b.start));
    var (_, end) := FormatMinuteOfWeek(MinInt(a.end, b.end));
    Conflict(a.scheduleId, a.scheduleName, b.scheduleId, b.scheduleName, day, start, end,
             a.action, b.action)
  }

  function ConflictKey(c: Conflict): string {
    c.scheduleAId + "|" + c.scheduleBId + "|" + c.day + "|" + c.overlapStart + "|" + c.overlapEnd
  }

  predicate SegmentLeq(a: Segment, b: Segment) {
    a.start < b.start || (a.start == b.start && a.end <= b.end)
  }

  /** Every clash among the pairs visited before (i, j) has its key among `seen`. */
  ghost predicate Swept(segments: seq<Segment>, i: int, j: int, seen: set<string>) {
    forall p, q | 0 <= p < q < |segments| && (p < i || (p == i && q < j)) && Clash(segments[p], segments[q]) ::
      ConflictKey(ConflictOf(segments[p], segments[q])) in seen
  }

  /** Every reported conflict is the description of a real clash. */
  ghost predicate AllReal(segments: seq<Segment>, conflicts: seq<Conflict>) {
    forall c | c in conflicts ::
      exists p, q :: 0 <= p < q < |segments| && Clash(segments[p], segments[q])
                  && c == ConflictOf(segments[p], segments[q])
  }

  ghost predicate KeysDistinct(conflicts: seq<Conflict>) {
    forall i, j | 0 <= i < j < |conflicts| :: ConflictKey(conflicts[i]) != ConflictKey(conflicts[j])
  }

  ghost function KeysOf(conflicts: seq<Conflict>): set<string> {
    set c | c in conflicts :: ConflictKey(c)
  }

  lemma SweptNext(segments: seq<Segment>, i: nat, j: nat, seen: set<string>, seen': set<string>)
    requires i < j < |segments| && Swept(segments, i, j, seen) && seen <= seen'
    requires Clash(segments[i], segments[j]) ==> ConflictKey(ConflictOf(segments[i], segments[j])) in seen'
    ensures Swept(segments, i, j + 1, seen')
  {
  }

  lemma ReportOne(segments: seq<Segment>, i: nat, j: nat, conflicts: seq<Conflict>, c: Conflict)
    requires AllReal(segments, conflicts) && KeysDistinct(conflicts)
    requires i < j < |segments| && Clash(segments[i], segments[j]) && c == ConflictOf(segments[i], segments[j])
    requires ConflictKey(c) !in KeysOf(conflicts)
    ensures AllReal(segments, conflicts + [c]) && KeysDistinct(conflicts + [c])
    ensures KeysOf(conflicts + [c]) == KeysOf(conflicts) + {ConflictKey(c)}
  {
    forall k | 0 <= k < |conflicts| ensures ConflictKey(conflicts[k]) != ConflictKey(c) {
      assert ConflictKey(conflicts[k]) in KeysOf(conflicts);
    }
    var all := conflicts + [c];
    assert forall d :: d in all <==> d in conflicts || d == c;
  }

  /** The pairwise sweep over segments sorted by start, leaving the inner loop at the first
      segment that starts after the current one has ended. */
  method Sweep(segments: seq<Segment>) returns (conflicts: seq<Conflict>)
    requires Sorting.IsSorted(SegmentLeq, segments)
    ensures AllReal(segments, conflicts) && KeysDistinct(conflicts)
    ensures Swept(segments, |segments|, 0, KeysOf(conflicts))
  {
    conflicts := [];
    var seenConflicts: set<string> := {};
    for i := 0 to |segments|
      invariant AllReal(segments, conflicts) && KeysDistinct(conflicts)
      invariant seenConflicts == KeysOf(conflicts)
      invariant Swept(segments, i, 0, seenConflicts)
    {
      conflicts, seenConflicts := SweepFrom(segments, i, conflicts, seenConflicts);
    }
  }

  /** The inner loop: the conflicts of segment `i` with the later ones. */
  method SweepFrom(segments: seq<Segment>, i: nat, conflictsSoFar: seq<Conflict>, seenSoFar: set<string>)
    returns (conflicts: seq<Conflict>, seenConflicts: set<string>)
    requires i < |segments| && Sorting.IsSorted(SegmentLeq, segments)
    requires AllReal(segments, conflictsSoFar) && KeysDistinct(conflictsSoFar)
    requires seenSoFar == KeysOf(conflictsSoFar) && Swept(segments, i, 0, seenSoFar)
    ensures AllReal(segments, conflicts) && KeysDistinct(conflicts)
    ensures seenConflicts == KeysOf(conflicts) && Swept(segments, i + 1, 0, seenConflicts)
  {
    conflicts, seenConflicts := conflictsSoFar, seenSoFar;
    var j := i + 1;
    while j < |segments|
      invariant i < j <= |segments|
      invariant AllReal(segments, conflicts) && KeysDistinct(conflicts)
      invariant seenConflicts == KeysOf(conflicts)
      invariant Swept(segments, i, j, seenConflicts)
    {
      if segments[j].start >= segments[i].end {
        NoOverlapBeyond(segments, i, j);
        break;
      }
      ghost var seenBefore := seenConflicts;
      if Overlap(segments[i], segments[j]) {
        if segments[i].action != segments[j].action {
          if segments[i].scheduleId != segments[j].scheduleId
             || segments[i].sourceRuleIdx != segments[j].sourceRuleIdx {
            var c := ConflictOf(segments[i], segments[j]);
            var cKey := ConflictKey(c);
            if cKey !in seenConflicts {
              ReportOne(segments, i, j, conflicts, c);
              seenConflicts := seenConflicts + {cKey};
              conflicts := conflicts + [c];
            }
          }
        }
      }
      SweptNext(segments, i, j, seenBefore, seenConflicts);
      j := j + 1;
    }
  }

  lemma NoOverlapBeyond(segments: seq<Segment>, i: nat, j: nat)
    requires i < j < |segments| && Sorting.IsSorted(SegmentLeq, segments)
    requires segments[j].start >= segments[i].end
    ensures forall q | j <= q < |segments| :: !Overlap(segments[i], segments[q])
  {
    forall q | j <= q < |segments| ensures !Overlap(segments[i], segments[q]) {
      assert q == j || SegmentLeq(segments[j], segments[q]);
    }
  }

  // ----- MergeSchedules

  datatype MergeOutcome =
    | Merged(composite: ScheduleRecord)
    | Conflicted(composite: ScheduleRecord, conflicts: seq<Conflict>)
    | MixedTimezones
    | BadClock

  const EMPTY_SCHEDULE := ScheduleRecord("", "", Downtime, "", [])

  predicate SameTimezone(schedules: seq<ScheduleRecord>) {
    forall s | s in schedules :: s.timezone == schedules[0].timezone
  }

  predicate AllParse(schedules: seq<ScheduleRecord>) {
    forall s | s in schedules :: RulesParse(s)
  }

  function AllSegments(schedules: seq<ScheduleRecord>): seq<Segment>
    requires AllParse(schedules)
  {
    if schedules == [] then []
    else
      var init, last := schedules[..|schedules| - 1], schedules[|schedules| - 1];
      AllSegments(init) + SegmentsOf(last, |last.rules|)
  }

  function AllRules(schedules: seq<ScheduleRecord>): seq<Rule> {
    if schedules == [] then []
    else AllRules(schedules[..|schedules| - 1]) + schedules[|schedules| - 1].rules
  }

  predicate HasWhitelist(schedules: seq<ScheduleRecord>) {
    exists s | s in schedules ::
      s.mode == Whitelist || exists r | r in s.rules :: r.action == Allow
  }

  function Ids(schedules: seq<ScheduleRecord>): seq<string> {
    if schedules == [] then []
    else Ids(schedules[..|schedules| - 1]) + [schedules[|schedules| - 1].id]
  }

  function Names(schedules: seq<ScheduleRecord>): seq<string> {
    if schedules == [] then []
    else Names(schedules[..|schedules| - 1]) + [schedules[|schedules| - 1].name]
  }

  function Composite(schedules: seq<ScheduleRecord>): ScheduleRecord
    requires schedules != []
  {
    ScheduleRecord(
      Strings.Join(Ids(schedules), "+"),
      Strings.Join(Names(schedules), " + "),
      if HasWhitelist(schedules) then Whitelist else Downtime,
      schedules[0].timezone,
      AllRules(schedules))
  }

  /** The bundles that merge without an error. */
  ghost predicate Mergeable(schedules: seq<ScheduleRecord>) {
    SameTimezone(schedules) && AllParse(schedules) && !HasClash(AllSegments(schedules))
  }

  /** Conflicts describe real clashes, the earlier segment first, and no clash goes unreported: it
      shares its key with a reported one in one of the two orders of its segments. */
  ghost predicate FaithfulReport(segments: seq<Segment>, conflicts: seq<Conflict>) {
    && (forall c | c in conflicts :: exists a, b :: InOrderClash(segments, a, b) && c == ConflictOf(a, b))
    && (forall a, b | a in segments && b in segments && Clash(a, b) ::
          ConflictKey(ConflictOf(a, b)) in KeysOf(conflicts) || ConflictKey(ConflictOf(b, a)) in KeysOf(conflicts))
    && KeysDistinct(conflicts)
  }

  ghost predicate InOrderClash(segments: seq<Segment>, a: Segment, b: Segment) {
    a in segments && b in segments && SegmentLeq(a, b) && Clash(a, b)
  }

  lemma RealInBundle(segments: seq<Segment>, sorted: seq<Segment>, conflicts: seq<Conflict>, c: Conflict)
    requires multiset(sorted) == multiset(segments) && Sorting.IsSorted(SegmentLeq, sorted)
    requires AllReal(sorted, conflicts) && c in conflicts
    ensures exists a, b :: InOrderClash(segments, a, b) && c == ConflictOf(a, b)
  {
    Sorting.SameMembers(sorted, segments);
    var p, q :| 0 <= p < q < |sorted| && Clash(sorted[p], sorted[q]) && c == ConflictOf(sorted[p], sorted[q]);
    assert sorted[p] in sorted && sorted[q] in sorted;
    assert InOrderClash(segments, sorted[p], sorted[q]);
  }

  lemma ClashIsReported(segments: seq<Segment>, sorted: seq<Segment>, seen: set<string>, a: Segment, b: Segment)
    requires multiset(sorted) == multiset(segments) && Swept(sorted, |sorted|, 0, seen)
    requires a in segments && b in segments && Clash(a, b)
    ensures ConflictKey(ConflictOf(a, b)) in seen || ConflictKey(ConflictOf(b, a)) in seen
  {
    Sorting.SameMembers(sorted, segments);
    var p :| 0 <= p < |sorted| && sorted[p] == a;
    var q :| 0 <= q < |sorted| && sorted[q] == b;
    assert Clash(sorted[q], sorted[p]);
    if p < q {
      assert ConflictKey(ConflictOf(sorted[p], sorted[q])) in seen;
    } else {
      assert ConflictKey(ConflictOf(sorted[q], sorted[p])) in seen;
    }
  }

  lemma SweepIsFaithful(segments: seq<Segment>, sorted: seq<Segment>, conflicts: seq<Conflict>)
    requires multiset(sorted) == multiset(segments) && Sorting.IsSorted(SegmentLeq, sorted)
    requires AllReal(sorted, conflicts) && KeysDistinct(conflicts)
    requires Swept(sorted, |sorted|, 0, KeysOf(conflicts))
    ensures FaithfulReport(segments, conflicts)
  {
    forall a, b | a in segments && b in segments && Clash(a, b)
      ensures ConflictKey(ConflictOf(a, b)) in KeysOf(conflicts) || ConflictKey(ConflictOf(b, a)) in KeysOf(conflicts)
    {
      ClashIsReported(segments, sorted, KeysOf(conflicts), a, b);
    }
    forall c | c in conflicts ensures exists a, b :: InOrderClash(segments, a, b) && c == ConflictOf(a, b)
    {
      RealInBundle(segments, sorted, conflicts, c);
    }
  }

  /** A report is empty exactly when there is nothing to report. */
  lemma ReportEmptyIffNoClash(segments: seq<Segment>, conflicts: seq<Conflict>)
    requires FaithfulReport(segments, conflicts)
    ensures conflicts == [] <==> !HasClash(segments)
  {
    if HasClash(segments) {
      var a, b :| a in segments && b in segments && Clash(a, b);
      assert KeysOf(conflicts) != {};
    }
    if conflicts != [] {
      assert conflicts[0] in conflicts;
    }
  }

  /** The sort followed by the sweep. */
  method FindConflicts(allSegments: seq<Segment>) returns (conflicts: seq<Conflict>)
    ensures FaithfulReport(allSegments, conflicts)
    ensures conflicts == [] <==> !HasClash(allSegments)
  {
    var sorted := Sorting.Sort(SegmentLeq, allSegments);
    Sorting.SortSorted(SegmentLeq, allSegments);
    conflicts := Sweep(sorted);
    SweepIsFaithful(allSegments, sorted, conflicts);
    ReportEmptyIffNoClash(allSegments, conflicts);
  }

  /** What the loop over the schedules has gathered. */
  datatype Gathered = Gathered(
    segments: seq<Segment>, rules: seq<Rule>, names: seq<string>, ids: seq<string>, whitelist: bool)

  ghost function GatheredFrom(schedules: seq<ScheduleRecord>): Gathered
    requires AllParse(schedules)
  {
    Gathered(AllSegments(schedules), AllRules(schedules), Names(schedules), Ids(schedules), HasWhitelist(schedules))
  }

  lemma GatherNext(before: seq<ScheduleRecord>, s: ScheduleRecord)
    requires AllParse(before) && RulesParse(s)
    ensures AllParse(before + [s])
    ensures var g := GatheredFrom(before);
      GatheredFrom(before + [s]) ==
      Gathered(g.segments + SegmentsOf(s, |s.rules|), g.rules + s.rules, g.names + [s.name], g.ids + [s.id],
               g.whitelist || s.mode == Whitelist || exists r | r in s.rules :: r.action == Allow)
  {
    var all := before + [s];
    assert all[..|all| - 1] == before;
    assert forall x :: x in all <==> x in before || x == s;
  }

  /** The inner loop, which looks for an allow rule. */
  method AllowsSomething(rules: seq<Rule>, before: bool) returns (whitelist: bool)
    ensures whitelist <==> before || exists r | r in rules :: r.action == Allow
  {
    whitelist := before;
    for j := 0 to |rules|
      invariant whitelist <==> before || exists k | 0 <= k < j :: rules[k].action == Allow
    {
      if rules[j].action == Allow {
        whitelist := true;
      }
    }
  }

  method Gather(schedules: seq<ScheduleRecord>) returns (r: Option<Gathered>)
    ensures r == if AllParse(schedules) then Some(GatheredFrom(schedules)) else None
  {
    var g := Gathered([], [], [], [], false);
    for i := 0 to |schedules|
      invariant AllParse(schedules[..i]) && g == GatheredFrom(schedules[..i])
    {
      var s := schedules[i];
      assert s in schedules && schedules[..i + 1] == schedules[..i] + [s];
      var segs := ProjectSchedule(s);
      if segs.None? { return None; }
      GatherNext(schedules[..i], s);
      var whitelist := AllowsSomething(s.rules, g.whitelist || s.mode == Whitelist);
      g := Gathered(g.segments + segs.value, g.rules + s.rules, g.names + [s.name], g.ids + [s.id], whitelist);
    }
    assert schedules[..|schedules|] == schedules;
    return Some(g);
  }

  method MergeSchedules(schedules: seq<ScheduleRecord>) returns (outcome: MergeOutcome)
    ensures schedules == [] ==> outcome == Merged(ScheduleRecord("", "", Downtime, "", []))
    ensures schedules != [] ==>
              && (outcome.MixedTimezones? <==> !SameTimezone(schedules))
              && (outcome.BadClock? <==> SameTimezone(schedules) && !AllParse(schedules))
              && (outcome.Merged? <==> Mergeable(schedules))
              && (outcome.Merged? || outcome.Conflicted? ==> outcome.composite == Composite(schedules))
    ensures outcome.Conflicted? ==>
              AllParse(schedules) && FaithfulReport(AllSegments(schedules), outcome.conflicts)
  {
    if |schedules| == 0 {
      return Merged(EMPTY_SCHEDULE);
    }
    var bundleTimezone := schedules[0].timezone;
    for i := 0 to |schedules|
      invariant forall k | 0 <= k < i :: schedules[k].timezone == bundleTimezone
    {
      if schedules[i].timezone != bundleTimezone {
        assert schedules[i] in schedules;
        return MixedTimezones;
      }
    }

    var gathered := Gather(schedules);
    if gathered.None? {
      return BadClock;
    }
    var g := gathered.value;
    var conflicts := FindConflicts(g.segments);
    var composite := ScheduleRecord(
      Strings.Join(g.ids, "+"), Strings.Join(g.names, " + "),
      if g.whitelist then Whitelist else Downtime, bundleTimezone, g.rules);
    if |conflicts| > 0 {
      return Conflicted(composite, conflicts);
    }
    return Merged(composite);
  }
}
