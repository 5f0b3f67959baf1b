/** What a key of the conflict report stands for: for ids without a bar it determines the two
    schedules and their overlap, so no clash is hidden behind the report of another. */
module ConflictReport {
  import opened Options
  import opened ScheduleModel
  import opened ScheduleConflict
  import opened ScheduleMeaning
  import Strings

  // ----- keys

  predicate BarFree(c: Conflict) {
    '|' !in c.scheduleAId && '|' !in c.scheduleBId && '|' !in c.day && '|' !in c.overlapStart && '|' !in c.overlapEnd
  }

  /** The two conflicts name the same schedules, in this order, and the same overlap. */
  predicate SameReport(c: Conflict, d: Conflict) {
    && c.scheduleAId == d.scheduleAId && c.scheduleBId == d.scheduleBId
    && c.day == d.day && c.overlapStart == d.overlapStart && c.overlapEnd == d.overlapEnd
  }

  function TimeKey(c: Conflict): string { c.overlapStart + "|" + c.overlapEnd }

  function DayKey(c: Conflict): string { c.day + "|" + TimeKey(c) }

  function TargetKey(c: Conflict): string { c.scheduleBId + "|" + DayKey(c) }

  lemma KeyInParts(c: Conflict)
    ensures ConflictKey(c) == c.scheduleAId + "|" + TargetKey(c)
  {
    assert DayKey(c) == c.day + "|" + c.overlapStart + "|" + c.overlapEnd;
    assert TargetKey(c) == c.scheduleBId + "|" + c.day + "|" + c.overlapStart + "|" + c.overlapEnd;
  }

  lemma KeyDeterminesReport(c: Conflict, d: Conflict)
    requires BarFree(c) && BarFree(d)
    ensures ConflictKey(c) == ConflictKey(d) <==> SameReport(c, d)
  {
    if ConflictKey(c) == ConflictKey(d) {
      KeyInParts(c);
      KeyInParts(d);
      Strings.FirstSeparator(c.scheduleAId, TargetKey(c), d.scheduleAId, TargetKey(d), '|');
      Strings.FirstSeparator(c.scheduleBId, DayKey(c), d.scheduleBId, DayKey(d), '|');
      Strings.FirstSeparator(c.day, TimeKey(c), d.day, TimeKey(d), '|');
      Strings.FirstSeparator(c.overlapStart, c.overlapEnd, d.overlapStart, d.overlapEnd, '|');
    }
  }

  /** With a bar in an id the keys of different pairs can be equal. */
  lemma BarMakesKeysCollide(c: Conflict, x: string, y: string, z: string)
    ensures ConflictKey(c.(scheduleAId := x + "|" + y, scheduleBId := z))
         == ConflictKey(c.(scheduleAId := x, scheduleBId := y + "|" + z))
  {
    var tail := "|" + c.day + "|" + c.overlapStart + "|" + c.overlapEnd;
    assert x + "|" + y + "|" + z == x + "|" + (y + "|" + z);
  }

  // ----- times

  lemma TwoDigitsInjective(m: int, n: int)
    requires 0 <= m < 100 && 0 <= n < 100
    ensures TwoDigits(m) == TwoDigits(n) <==> m == n
  {
    if TwoDigits(m) == TwoDigits(n) {
      assert TwoDigits(m)[0] == TwoDigits(n)[0] && TwoDigits(m)[1] == TwoDigits(n)[1];
    }
  }

  function TimeText(minuteOfDay: int): string
    requires 0 <= minuteOfDay < 1440
  {
    TwoDigits(minuteOfDay / 60) + ":" + TwoDigits(minuteOfDay % 60)
  }

  lemma TimeTextInjective(m: int, n: int)
    requires 0 <= m < 1440 && 0 <= n < 1440
    ensures TimeText(m) == TimeText(n) <==> m == n
  {
    if TimeText(m) == TimeText(n) {
      assert TimeText(m)[..2] == TwoDigits(m / 60) && TimeText(n)[..2] == TwoDigits(n / 60);
      assert TimeText(m)[3..] == TwoDigits(m % 60) && TimeText(n)[3..] == TwoDigits(n % 60);
      TwoDigitsInjective(m / 60, n / 60);
      TwoDigitsInjective(m % 60, n % 60);
    }
  }

  lemma DayNamesDiffer(d: int, e: int)
    requires 0 <= d < 7 && 0 <= e < 7
    ensures DAY_NAMES[d] == DAY_NAMES[e] <==> d == e
    ensures '|' !in DAY_NAMES[d]
  {
    assert |DAY_NAMES[0]| == 6 && |DAY_NAMES[1]| == 6 && |DAY_NAMES[2]| == 7 && |DAY_NAMES[3]| == 9;
    assert |DAY_NAMES[4]| == 8 && |DAY_NAMES[5]| == 6 && |DAY_NAMES[6]| == 8;
    assert DAY_NAMES[0][0] == 's' && DAY_NAMES[1][0] == 'm' && DAY_NAMES[5][0] == 'f';
    assert DAY_NAMES[4][0] == 't' && DAY_NAMES[6][0] == 's';
  }

  lemma FormatIs(m: int)
    requires 0 <= m <= 10080
    ensures FormatMinuteOfWeek(m) == (DAY_NAMES[m % 10080 / 1440], TimeText(m % 1440))
  {
    assert m % 10080 % 1440 == m % 1440;
  }

  lemma StartDetermined(m: int, n: int)
    requires 0 <= m < 10080 && 0 <= n < 10080 && FormatMinuteOfWeek(m) == FormatMinuteOfWeek(n)
    ensures m == n
  {
    var d, e := m % 10080 / 1440, n % 10080 / 1440;
    assert DAY_NAMES[d] == DAY_NAMES[e] && TimeText(m % 1440) == TimeText(n % 1440) by {
      FormatIs(m);
      FormatIs(n);
    }
    DayNamesDiffer(d, e);
    TimeTextInjective(m % 1440, n % 1440);
    FromParts(m, n);
  }

  lemma FromParts(m: int, n: int)
    requires 0 <= m < 10080 && 0 <= n < 10080
    requires m % 10080 / 1440 == n % 10080 / 1440 && m % 1440 == n % 1440
    ensures m == n
  {
  }

  lemma EndDetermined(start: int, m: int, n: int)
    requires 0 <= start < m <= 10080 && start < n <= 10080 && m - start <= 1440 && n - start <= 1440
    requires FormatMinuteOfWeek(m).1 == FormatMinuteOfWeek(n).1
    ensures m == n
  {
    FormatIs(m);
    FormatIs(n);
    TimeTextInjective(m % 1440, n % 1440);
    SameResidue(start, m, n);
  }

  lemma SameResidue(start: int, m: int, n: int)
    requires start < m <= start + 1440 && start < n <= start + 1440 && m % 1440 == n % 1440
    ensures m == n
  {
    assert m - n == 1440 * (m / 1440 - n / 1440);
  }

  // ----- reports

  /** Two clashes between the same schedules, in this order, with the same overlap. */
  ghost predicate SameClash(a: Segment, b: Segment, p: Segment, q: Segment) {
    && a.scheduleId == p.scheduleId && b.scheduleId == q.scheduleId
    && MaxInt(a.start, b.start) == MaxInt(p.start, q.start) && MinInt(a.end, b.end) == MinInt(p.end, q.end)
  }

  ghost predicate BarFreeIds(schedules: seq<ScheduleRecord>) {
    forall s | s in schedules :: '|' !in s.id
  }

  lemma TimeTextIsBarFree(m: int)
    requires 0 <= m < 1440
    ensures '|' !in TimeText(m)
  {
  }

  lemma ClashIsBarFree(schedules: seq<ScheduleRecord>, a: Segment, b: Segment)
    requires AllParse(schedules) && BarFreeIds(schedules)
    requires a in AllSegments(schedules) && b in AllSegments(schedules) && Clash(a, b)
    ensures BarFree(ConflictOf(a, b))
    ensures 0 <= MaxInt(a.start, b.start) < MinInt(a.end, b.end) <= 10080
    ensures MinInt(a.end, b.end) - MaxInt(a.start, b.start) <= 1440
  {
    var _, _ := Provenance(schedules, a);
    var _, _ := Provenance(schedules, b);
    var start, end := MaxInt(a.start, b.start), MinInt(a.end, b.end);
    FormatIs(start);
    FormatIs(end);
    DayNamesDiffer(start % 10080 / 1440, 0);
    TimeTextIsBarFree(start % 1440);
    TimeTextIsBarFree(end % 1440);
  }

  lemma SameKeySameClash(schedules: seq<ScheduleRecord>, a: Segment, b: Segment, p: Segment, q: Segment)
    requires AllParse(schedules) && BarFreeIds(schedules)
    requires a in AllSegments(schedules) && b in AllSegments(schedules) && Clash(a, b)
    requires p in AllSegments(schedules) && q in AllSegments(schedules) && Clash(p, q)
    requires ConflictKey(ConflictOf(a, b)) == ConflictKey(ConflictOf(p, q))
    ensures SameClash(a, b, p, q)
  {
    ClashIsBarFree(schedules, a, b);
    ClashIsBarFree(schedules, p, q);
    KeyDeterminesReport(ConflictOf(a, b), ConflictOf(p, q));
    StartDetermined(MaxInt(a.start, b.start), MaxInt(p.start, q.start));
    EndDetermined(MaxInt(a.start, b.start), MinInt(a.end, b.end), MinInt(p.end, q.end));
  }

  /** The report has the conflict of this clash, or of one between the same schedules with the same
      overlap. */
  ghost predicate IsReported(segments: seq<Segment>, conflicts: seq<Conflict>, a: Segment, b: Segment) {
    exists p, q :: p in segments && q in segments && Clash(p, q)
      && SameClash(a, b, p, q) && ConflictOf(p, q) in conflicts
  }

  /** For ids without a bar no clash is hidden behind the report of another: each has one that names
      its two schedules and its overlap. */
  lemma EveryClashIsReported(schedules: seq<ScheduleRecord>, conflicts: seq<Conflict>, a: Segment, b: Segment)
    requires AllParse(schedules) && BarFreeIds(schedules) && FaithfulReport(AllSegments(schedules), conflicts)
    requires a in AllSegments(schedules) && b in AllSegments(schedules) && Clash(a, b)
    ensures IsReported(AllSegments(schedules), conflicts, a, b) || IsReported(AllSegments(schedules), conflicts, b, a)
  {
    var x, y := a, b;
    if ConflictKey(ConflictOf(a, b)) !in KeysOf(conflicts) {
      x, y := b, a;
    }
    var c :| c in conflicts && ConflictKey(c) == ConflictKey(ConflictOf(x, y));
    var p, q :| InOrderClash(AllSegments(schedules), p, q) && c == ConflictOf(p, q);
    SameKeySameClash(schedules, x, y, p, q);
    assert IsReported(AllSegments(schedules), conflicts, x, y);
  }

  // ----- a hidden clash

  /** A schedule that applies one action on Monday evening until 22:00. */
  ghost function MondayEvening(id: string, startTime: string, action: Action): ScheduleRecord {
    ScheduleRecord(id, id, Downtime, "UTC", [Rule([Short(1)], startTime, "22:00", action)])
  }

  ghost function EarlyBlock(id: string): Segment { Segment(2640, 2760, Block, id, id, 0) }

  ghost function LateAllow(id: string): Segment { Segment(2700, 2760, Allow, id, id, 0) }

  lemma EarlyBlockSegments(id: string)
    ensures var s := MondayEvening(id, "20:00", Block); RulesParse(s) && SegmentsOf(s, 1) == [EarlyBlock(id)]
  {
    var s := MondayEvening(id, "20:00", Block);
    assert ParseClock("20:00") == Some(1200) && ParseClock("22:00") == Some(1320);
    assert RuleSegments(s, 0, 0) == [] && SegmentsOf(s, 0) == [];
  }

  lemma LateAllowSegments(id: string)
    ensures var s := MondayEvening(id, "21:00", Allow); RulesParse(s) && SegmentsOf(s, 1) == [LateAllow(id)]
  {
    var s := MondayEvening(id, "21:00", Allow);
    assert ParseClock("21:00") == Some(1260) && ParseClock("22:00") == Some(1320);
    assert RuleSegments(s, 0, 0) == [] && SegmentsOf(s, 0) == [];
  }

  ghost function BarBundle(): seq<ScheduleRecord> {
    [MondayEvening("a|b", "20:00", Block)] + [MondayEvening("a", "20:00", Block)]
    + [MondayEvening("c", "21:00", Allow)] + [MondayEvening("b|c", "21:00", Allow)]
  }

  ghost function BarSegments(): seq<Segment> {
    [EarlyBlock("a|b"), EarlyBlock("a"), LateAllow("c"), LateAllow("b|c")]
  }

  lemma AppendEarly(before: seq<ScheduleRecord>, id: string)
    requires AllParse(before)
    ensures var more := before + [MondayEvening(id, "20:00", Block)];
      AllParse(more) && AllSegments(more) == AllSegments(before) + [EarlyBlock(id)]
  {
    EarlyBlockSegments(id);
    GatherNext(before, MondayEvening(id, "20:00", Block));
  }

  lemma AppendLate(before: seq<ScheduleRecord>, id: string)
    requires AllParse(before)
    ensures var more := before + [MondayEvening(id, "21:00", Allow)];
      AllParse(more) && AllSegments(more) == AllSegments(before) + [LateAllow(id)]
  {
    LateAllowSegments(id);
    GatherNext(before, MondayEvening(id, "21:00", Allow));
  }

  lemma BarBundleSegments()
    ensures AllParse(BarBundle()) && AllSegments(BarBundle()) == BarSegments()
  {
    var one := [MondayEvening("a|b", "20:00", Block)];
    var two := one + [MondayEvening("a", "20:00", Block)];
    var three := two + [MondayEvening("c", "21:00", Allow)];
    assert AllParse(one) && AllSegments(one) == [EarlyBlock("a|b")] by {
      AppendEarly([], "a|b");
      assert [] + one == one;
    }
    AppendEarly(one, "a");
    AppendLate(two, "c");
    AppendLate(three, "b|c");
  }

  ghost predicate Reported(conflicts: seq<Conflict>, a: Segment, b: Segment) {
    IsReported(BarSegments(), conflicts, a, b) || IsReported(BarSegments(), conflicts, b, a)
  }

  lemma SegmentOfId(seg: Segment)
    requires seg in BarSegments()
    ensures seg.scheduleId == "a|b" ==> seg == EarlyBlock("a|b")
    ensures seg.scheduleId == "a" ==> seg == EarlyBlock("a")
    ensures seg.scheduleId == "c" ==> seg == LateAllow("c")
    ensures seg.scheduleId == "b|c" ==> seg == LateAllow("b|c")
  {
    assert |"a|b"| == 3 && |"a"| == 1 && |"c"| == 1 && |"b|c"| == 3;
    assert "a|b"[0] == 'a' && "b|c"[0] == 'b';
  }

  /** A clash that is reported is reported with its blocking segment first. */
  lemma ReportedInOrder(conflicts: seq<Conflict>, a: string, b: string)
    requires FaithfulReport(BarSegments(), conflicts) && Reported(conflicts, EarlyBlock(a), LateAllow(b))
    requires (a == "a|b" && b == "c") || (a == "a" && b == "b|c")
    ensures ConflictOf(EarlyBlock(a), LateAllow(b)) in conflicts
  {
    if IsReported(BarSegments(), conflicts, EarlyBlock(a), LateAllow(b)) {
      var p, q :| p in BarSegments() && q in BarSegments() && Clash(p, q)
        && SameClash(EarlyBlock(a), LateAllow(b), p, q) && ConflictOf(p, q) in conflicts;
      SegmentOfId(p);
      SegmentOfId(q);
    } else {
      var p, q :| p in BarSegments() && q in BarSegments() && Clash(p, q)
        && SameClash(LateAllow(b), EarlyBlock(a), p, q) && ConflictOf(p, q) in conflicts;
      var x, y :| InOrderClash(BarSegments(), x, y) && ConflictOf(p, q) == ConflictOf(x, y);
      assert x.scheduleId == b && y.scheduleId == a;
      SegmentOfId(x);
      SegmentOfId(y);
      assert false;
    }
  }

  /** Two clashes with different schedules, of which no report has both: their keys are equal. */
  lemma BarHidesClash(conflicts: seq<Conflict>)
    requires AllParse(BarBundle()) && FaithfulReport(AllSegments(BarBundle()), conflicts)
    ensures InOrderClash(AllSegments(BarBundle()), EarlyBlock("a|b"), LateAllow("c"))
    ensures InOrderClash(AllSegments(BarBundle()), EarlyBlock("a"), LateAllow("b|c"))
    ensures !(&& Reported(conflicts, EarlyBlock("a|b"), LateAllow("c"))
              && Reported(conflicts, EarlyBlock("a"), LateAllow("b|c")))
  {
    BarBundleSegments();
    assert BarSegments()[0] == EarlyBlock("a|b") && BarSegments()[1] == EarlyBlock("a");
    assert BarSegments()[2] == LateAllow("c") && BarSegments()[3] == LateAllow("b|c");
    if && Reported(conflicts, EarlyBlock("a|b"), LateAllow("c"))
       && Reported(conflicts, EarlyBlock("a"), LateAllow("b|c"))
    {
      ReportedInOrder(conflicts, "a|b", "c");
      ReportedInOrder(conflicts, "a", "b|c");
      EqualKeys();
    }
  }

  lemma EqualKeys()
    ensures var c, d := ConflictOf(EarlyBlock("a|b"), LateAllow("c")), ConflictOf(EarlyBlock("a"), LateAllow("b|c"));
      ConflictKey(c) == ConflictKey(d) && c != d
  {
    var c, d := ConflictOf(EarlyBlock("a|b"), LateAllow("c")), ConflictOf(EarlyBlock("a"), LateAllow("b|c"));
    BarMakesKeysCollide(c, "a", "b", "c");
    assert "a" + "|" + "b" == "a|b" && "b" + "|" + "c" == "b|c";
  }
}
