/** What a schedule, a bundle and a report of conflicts say, in terms of clock texts, days and
    instants alone. */
module ScheduleAnswers {
  import opened Options
  import opened ScheduleModel
  import opened ScheduleParser
  import opened ScheduleConflict
  import opened ScheduleMeaning
  import Engine = ScheduleEngine

  // ----- clock texts

  function DigitChar(n: int): char
    requires 0 <= n < 10
  {
    "0123456789"[n]
  }

  /** The text writes a minute of the day: one or two digits for the hour, two for the minute. */
  ghost predicate Spells(text: string, minute: int) {
    && 0 <= minute < 1440
    && var hour, rest := minute / 60, minute % 60;
       var tail := [':', DigitChar(rest / 10), DigitChar(rest % 10)];
       text == [DigitChar(hour / 10), DigitChar(hour % 10)] + tail || (hour < 10 && text == [DigitChar(hour)] + tail)
  }

  lemma DigitOfChar(n: int)
    requires 0 <= n < 10
    ensures IsDigit(DigitChar(n)) && Digit(DigitChar(n)) == n
  {
  }

  lemma CharOfDigit(c: char)
    requires IsDigit(c)
    ensures DigitChar(Digit(c)) == c && Digit(c) < 10
  {
  }

  lemma SpelledParses(text: string, minute: int)
    requires Spells(text, minute)
    ensures ParseClock(text) == Some(minute)
  {
    var hour, rest := minute / 60, minute % 60;
    DigitOfChar(hour / 10);
    DigitOfChar(hour % 10);
    DigitOfChar(rest / 10);
    DigitOfChar(rest % 10);
    var tail := [':', DigitChar(rest / 10), DigitChar(rest % 10)];
    if hour < 10 && text == [DigitChar(hour)] + tail {
      DigitOfChar(hour);
      assert text[1] == ':' && text[1..] == tail;
    } else {
      assert text[2..] == tail;
    }
  }

  lemma ParsedIsSpelled(text: string)
    requires ParseClock(text).Some?
    ensures Spells(text, ParseClock(text).value)
  {
    var n := if |text| > 1 && IsDigit(text[1]) then 2 else 1;
    var rest := text[n..];
    var hour := if n == 2 then 10 * Digit(text[0]) + Digit(text[1]) else Digit(text[0]);
    var minute := 10 * Digit(rest[1]) + Digit(rest[2]);
    assert hour < 24 && minute < 60 && ParseClock(text) == Some(hour * 60 + minute);
    PartsSpelled(text, n, hour, minute);
  }

  lemma PartsSpelled(text: string, n: nat, hour: int, minute: int)
    requires text != [] && IsDigit(text[0]) && n == (if |text| > 1 && IsDigit(text[1]) then 2 else 1)
    requires hour == (if n == 2 then 10 * Digit(text[0]) + Digit(text[1]) else Digit(text[0])) && hour < 24
    requires |text| == n + 3 && text[n] == ':' && IsDigit(text[n + 1]) && IsDigit(text[n + 2])
    requires minute == 10 * Digit(text[n + 1]) + Digit(text[n + 2]) && minute < 60
    ensures Spells(text, hour * 60 + minute)
  {
    TailIsSpelled(text[n..], minute);
    HourIsSpelled(text, hour);
    assert text == text[..n] + text[n..];
    PartsSpell(text, text[..n], hour, minute);
  }

  lemma PartsSpell(text: string, head: string, hour: int, minute: int)
    requires 0 <= hour < 24 && 0 <= minute < 60
    requires head == [DigitChar(hour / 10), DigitChar(hour % 10)] || (hour < 10 && head == [DigitChar(hour)])
    requires text == head + [':', DigitChar(minute / 10), DigitChar(minute % 10)]
    ensures Spells(text, hour * 60 + minute)
  {
    DivMod60(hour * 60 + minute, hour, minute);
  }

  lemma TailIsSpelled(rest: string, minute: int)
    requires |rest| == 3 && rest[0] == ':' && IsDigit(rest[1]) && IsDigit(rest[2])
    requires minute == 10 * Digit(rest[1]) + Digit(rest[2])
    ensures 0 <= minute < 100 && rest == [':', DigitChar(minute / 10), DigitChar(minute % 10)]
  {
    CharOfDigit(rest[1]);
    CharOfDigit(rest[2]);
    assert minute / 10 == Digit(rest[1]) && minute % 10 == Digit(rest[2]);
  }

  lemma HourIsSpelled(text: string, hour: int)
    requires text != [] && IsDigit(text[0])
    requires var twoDigits := |text| > 1 && IsDigit(text[1]);
      hour == if twoDigits then 10 * Digit(text[0]) + Digit(text[1]) else Digit(text[0])
    ensures 0 <= hour < 100
    ensures if |text| > 1 && IsDigit(text[1]) then text[..2] == [DigitChar(hour / 10), DigitChar(hour % 10)]
            else hour < 10 && text[..1] == [DigitChar(hour)]
  {
    CharOfDigit(text[0]);
    if |text| > 1 && IsDigit(text[1]) {
      CharOfDigit(text[1]);
      assert hour / 10 == Digit(text[0]) && hour % 10 == Digit(text[1]);
    }
  }

  /** Exactly the clock texts are read, each as the minute it writes. */
  lemma ParseClockIff(text: string, minute: int)
    ensures ParseClock(text).Some? && ParseClock(text).value == minute <==> Spells(text, minute)
  {
    if ParseClock(text).Some? {
      ParsedIsSpelled(text);
    }
    if Spells(text, minute) {
      SpelledParses(text, minute);
    }
  }

  // ----- one rule

  /** A window lasts up to its end clock, of the next day unless that is later than its start. */
  ghost predicate OpenFrom(rule: Rule, n: int, local: int, start: int, end: int) {
    && (start == end ==> rule.startTime == rule.endTime)
    && n * 86400 + start * 60 <= local < n * 86400 + end * 60 + (if end <= start then 86400 else 0)
  }

  /** The window that the rule opens on day `n`, counted from a Sunday, is open at a local instant. */
  ghost predicate OpenAt(rule: Rule, n: int, local: int) {
    exists start, end ::
      Spells(rule.startTime, start) && Spells(rule.endTime, end) && OpenFrom(rule, n, local, start, end)
  }

  ghost predicate OpensOn(rule: Rule, n: int) {
    Short(n % 7) in rule.days
  }

  ghost predicate InForce(rule: Rule, local: int) {
    exists n :: OpensOn(rule, n) && OpenAt(rule, n, local)
  }

  ghost predicate Lasts(rule: Rule, seconds: int) {
    exists start, end ::
      && Spells(rule.startTime, start) && Spells(rule.endTime, end)
      && seconds == (end - start) * 60 + (if end <= start then 86400 else 0)
  }

  lemma ClocksMean(rule: Rule, start: int, end: int)
    ensures Spells(rule.startTime, start) && Spells(rule.endTime, end) <==>
            ClocksParse(rule) && StartMinute(rule) == start && EndMinute(rule) == end
  {
    ParseClockIff(rule.startTime, start);
    ParseClockIff(rule.endTime, end);
  }

  lemma OpenAtMeans(rule: Rule, n: int, local: int)
    ensures OpenAt(rule, n, local) <==>
            ClocksParse(rule) && OpenFrom(rule, n, local, StartMinute(rule), EndMinute(rule))
  {
    if OpenAt(rule, n, local) {
      var start, end :| Spells(rule.startTime, start) && Spells(rule.endTime, end)
                        && OpenFrom(rule, n, local, start, end);
      ClocksMean(rule, start, end);
    }
    if ClocksParse(rule) && OpenFrom(rule, n, local, StartMinute(rule), EndMinute(rule)) {
      ClocksMean(rule, StartMinute(rule), EndMinute(rule));
    }
  }

  lemma LastsMeans(rule: Rule, seconds: int)
    ensures Lasts(rule, seconds) <==> ClocksParse(rule) && WindowDuration(rule) == seconds
  {
    if Lasts(rule, seconds) {
      var start, end :| Spells(rule.startTime, start) && Spells(rule.endTime, end)
        && seconds == (end - start) * 60 + (if end <= start then 86400 else 0);
      ClocksMean(rule, start, end);
    }
    if ClocksParse(rule) {
      ClocksMean(rule, StartMinute(rule), EndMinute(rule));
    }
  }

  /** The day of an open window is today or yesterday. */
  lemma OpenOnTwoDays(rule: Rule, n: int, local: int)
    requires OpenAt(rule, n, local)
    ensures n == local / 86400 || n == local / 86400 - 1
  {
    OpenAtMeans(rule, n, local);
    DivMod86400(local, local / 86400, local % 86400);
  }

  lemma MatchesMeansInForce(rule: Rule, local: int)
    ensures Matches(rule, local) <==> InForce(rule, local)
  {
    var open := OpenNow(rule, local, local / 86400);
  }

  lemma OpenNow(rule: Rule, local: int, today: int) returns (open: bool)
    requires today == local / 86400
    ensures open <==> Matches(rule, local)
    ensures open <==> InForce(rule, local)
  {
    open := || (OpensOn(rule, today) && OpenAt(rule, today, local))
            || (OpensOn(rule, today - 1) && OpenAt(rule, today - 1, local));
    MatchesMeansOpen(rule, local, today);
    InForceOnTwoDays(rule, local, today);
  }

  lemma InForceOnTwoDays(rule: Rule, local: int, today: int)
    requires today == local / 86400
    ensures InForce(rule, local) <==>
            || (OpensOn(rule, today) && OpenAt(rule, today, local))
            || (OpensOn(rule, today - 1) && OpenAt(rule, today - 1, local))
  {
    if InForce(rule, local) {
      var n :| OpensOn(rule, n) && OpenAt(rule, n, local);
      OpenOnTwoDays(rule, n, local);
      if n == today {
        assert OpensOn(rule, today) && OpenAt(rule, today, local);
      } else {
        assert n == today - 1;
      }
    }
  }

  lemma MatchesMeansOpen(rule: Rule, local: int, today: int)
    requires today == local / 86400
    ensures Matches(rule, local) <==>
            || (OpensOn(rule, today) && OpenAt(rule, today, local))
            || (OpensOn(rule, today - 1) && OpenAt(rule, today - 1, local))
  {
    OpenAtMeans(rule, today, local);
    OpenAtMeans(rule, today - 1, local);
    if ClocksParse(rule) {
      DayBefore(today);
      MatchesByDays(rule, local, today, today % 7, (today - 1) % 7);
    }
  }

  lemma MatchesByDays(rule: Rule, local: int, today: int, current: Weekday, previous: Weekday)
    requires ClocksParse(rule)
    requires today == local / 86400 && current == today % 7 && previous == (today % 7 + 6) % 7
    ensures var start, end := StartMinute(rule), EndMinute(rule);
      Matches(rule, local) <==>
        || (Short(current) in rule.days && OpenFrom(rule, today, local, start, end))
        || (Short(previous) in rule.days && OpenFrom(rule, today - 1, local, start, end))
  {
    OpenToday(rule, local, today, StartMinute(rule), EndMinute(rule));
  }

  lemma OpenToday(rule: Rule, local: int, today: int, start: int, end: int)
    requires today == local / 86400 && 0 <= start < 1440 && 0 <= end < 1440
    ensures OpenFrom(rule, today, local, start, end) <==>
            && (start == end ==> rule.startTime == rule.endTime) && today * 86400 + start * 60 <= local
            && (end > start ==> local < today * 86400 + end * 60)
    ensures OpenFrom(rule, today - 1, local, start, end) <==>
            && (start == end ==> rule.startTime == rule.endTime)
            && end <= start && local < today * 86400 + end * 60
  {
    DivMod86400(local, today, local % 86400);
  }

  lemma DayBefore(n: int)
    ensures (n % 7 + 6) % 7 == (n - 1) % 7
  {
  }

  // ----- one schedule

  /** The first of the shortest rules in force. */
  ghost predicate Decides(rules: seq<Rule>, b: int, local: int) {
    && 0 <= b < |rules| && InForce(rules[b], local)
    && forall k, d, e | 0 <= k < |rules| && InForce(rules[k], local) && Lasts(rules[b], d) && Lasts(rules[k], e) ::
         d <= e && (k < b ==> d < e)
  }

  lemma BestDecides(rules: seq<Rule>, local: int)
    ensures var best := BestOf(MatchLengths(rules, local), |rules|);
            && (best.None? <==> forall rule | rule in rules :: !InForce(rule, local))
            && (best.Some? ==> Decides(rules, best.value, local))
  {
    var lengths := MatchLengths(rules, local);
    BestOfIsFirstShortest(lengths, |rules|);
    forall k | 0 <= k < |rules|
      ensures lengths[k].Some? <==> InForce(rules[k], local)
      ensures forall d :: Lasts(rules[k], d) && lengths[k].Some? ==> lengths[k].value == d
    {
      MatchLengthsAt(rules, local, k);
      MatchesMeansInForce(rules[k], local);
      forall d ensures Lasts(rules[k], d) && lengths[k].Some? ==> lengths[k].value == d {
        LastsMeans(rules[k], d);
      }
    }
  }

  /** Only one rule decides. */
  lemma OneDecides(rules: seq<Rule>, b: int, c: int, local: int)
    requires Decides(rules, b, local) && Decides(rules, c, local)
    ensures b == c
  {
    MatchesMeansInForce(rules[b], local);
    MatchesMeansInForce(rules[c], local);
    LastsMeans(rules[b], WindowDuration(rules[b]));
    LastsMeans(rules[c], WindowDuration(rules[c]));
  }

  ghost predicate NoneInForce(rules: seq<Rule>, local: int) {
    forall rule | rule in rules :: !InForce(rule, local)
  }

  lemma DecidingRuleIsBest(rules: seq<Rule>, b: int, local: int)
    requires Decides(rules, b, local)
    ensures BestOf(MatchLengths(rules, local), |rules|) == Some(b)
  {
    BestDecides(rules, local);
    assert rules[b] in rules;
    OneDecides(rules, b, BestOf(MatchLengths(rules, local), |rules|).value, local);
  }

  /** Either no rule is in force, or one decides. */
  lemma NoneOrOne(rules: seq<Rule>, local: int) returns (b: int)
    ensures b == -1 <==> NoneInForce(rules, local)
    ensures b != -1 ==> Decides(rules, b, local)
    ensures BestOf(MatchLengths(rules, local), |rules|) == if b == -1 then None else Some(b)
  {
    BestDecides(rules, local);
    var best := BestOf(MatchLengths(rules, local), |rules|);
    b := if best.Some? then best.value else -1;
  }

  ghost predicate ActsBy(s: ScheduleRecord, local: int, b: int, action: Action) {
    if b == -1 then NoneInForce(s.rules, local) && action == if s.mode == Whitelist then Block else Allow
    else Decides(s.rules, b, local) && action == s.rules[b].action
  }

  lemma LocalMeaning(s: ScheduleRecord, local: int) returns (b: int)
    ensures ActsBy(s, local, b, EvaluateLocal(s, local))
  {
    b := NoneOrOne(s.rules, local);
  }

  lemma ActsOneWay(s: ScheduleRecord, local: int, b: int, action: Action, c: int, other: Action)
    requires ActsBy(s, local, b, action) && ActsBy(s, local, c, other)
    ensures b == c && action == other
  {
    if b != -1 && c != -1 {
      OneDecides(s.rules, b, c, local);
    }
  }

  ghost predicate Acts(s: ScheduleRecord, local: int, action: Action) {
    exists b :: ActsBy(s, local, b, action)
  }

  /** At every instant a schedule acts, on the clock of its time zone, or of UTC if the host does not
      know it, as the first of its shortest rules in force says; without one a whitelist blocks and
      any other schedule allows. */
  lemma EvaluateMeaning(zones: Zones, s: ScheduleRecord, now: int, action: Action)
    ensures EvaluateAt(zones, s, now) == action <==>
            Acts(s, now + (if s.timezone in zones then zones[s.timezone] else 0), action)
  {
    var local := now + (if s.timezone in zones then zones[s.timezone] else 0);
    assert EvaluateAt(zones, s, now) == EvaluateLocal(s, local);
    LocalMeaningIff(s, local, action);
  }

  lemma LocalMeaningIff(s: ScheduleRecord, local: int, action: Action)
    ensures EvaluateLocal(s, local) == action <==> Acts(s, local, action)
  {
    var b := LocalMeaning(s, local);
    if Acts(s, local, action) {
      var c :| ActsBy(s, local, c, action);
      ActsOneWay(s, local, b, EvaluateLocal(s, local), c, action);
    }
  }

  /** A schedule in a zone is one in UTC that is asked later by the offset of the zone. */
  lemma ZoneShiftsClock(zones: Zones, s: ScheduleRecord, z: string, u: string, now: int)
    requires z in zones && u !in zones
    ensures EvaluateAt(zones, s.(timezone := z), now) == EvaluateAt(zones, s.(timezone := u), now + zones[z])
  {
    assert EvaluateLocal(s.(timezone := z), now + zones[z]) == EvaluateLocal(s.(timezone := u), now + zones[z]);
  }

  /** Some short day of the rule opens a window that is open at this minute of the week. */
  ghost predicate OnWeeklyClock(rule: Rule, minute: int)
    requires ClocksParse(rule)
  {
    exists day: Weekday :: Short(day) in rule.days && InWindow(day, StartMinute(rule), Span(rule), minute)
  }

  /** A schedule of one rule, read in UTC on the clock of the week. */
  lemma OneRuleMeaning(zones: Zones, s: ScheduleRecord, now: int)
    requires s.timezone !in zones && |s.rules| == 1
    requires ClocksParse(s.rules[0]) && DistinctTimes(s.rules[0])
    ensures EvaluateAt(zones, s, now) ==
            if OnWeeklyClock(s.rules[0], now / 60 % 10080) then s.rules[0].action
            else if s.mode == Whitelist then Block else Allow
  {
    InForceOnWeeklyClock(s.rules[0], now);
    var b := LocalMeaning(s, now);
    if b != -1 {
      assert InForce(s.rules[b], now) && b == 0;
    } else {
      assert s.rules[0] in s.rules;
    }
  }

  lemma InForceOnWeeklyClock(rule: Rule, local: int)
    requires ClocksParse(rule) && DistinctTimes(rule)
    ensures InForce(rule, local) <==> OnWeeklyClock(rule, local / 60 % 10080)
  {
    MatchesIsWindow(rule, local);
    MatchesMeansInForce(rule, local);
  }

  // ----- what the projection covers

  /** The projection knows long day names too, and nothing of rules with one clock text. */
  ghost predicate NamesDay(rule: Rule, n: int) {
    Short(n % 7) in rule.days || Long(n % 7) in rule.days
  }

  ghost predicate Projects(rule: Rule, local: int) {
    rule.startTime != rule.endTime && exists n :: NamesDay(rule, n) && OpenAt(rule, n, local)
  }

  lemma WindowIsOpen(rule: Rule, local: int, today: int, day: Weekday)
    requires ClocksParse(rule) && DistinctTimes(rule) && today == local / 86400
    ensures var start, end := StartMinute(rule), EndMinute(rule);
      InWindow(day, start, Span(rule), MinuteOfWeek(local)) <==>
        || (day == today % 7 && OpenFrom(rule, today, local, start, end))
        || (day == (today - 1) % 7 && OpenFrom(rule, today - 1, local, start, end))
  {
    var t, minuteOfDay, second := ClockParts(local);
    var start, end := StartMinute(rule), EndMinute(rule);
    DayBefore(today);
    WindowDays(start, Span(rule), today % 7, minuteOfDay, MinuteOfWeek(local));
    OpenToday(rule, local, today, start, end);
    SpanOf(rule);
    MinutesAndSeconds(today, minuteOfDay, second, start);
    MinutesAndSeconds(today, minuteOfDay, second, end);
  }

  lemma SpanOf(rule: Rule)
    requires ClocksParse(rule)
    ensures var start, end := StartMinute(rule), EndMinute(rule);
      Span(rule) == end - start + if end < start then 1440 else 0
  {
  }

  lemma MinutesAndSeconds(today: int, minuteOfDay: int, second: int, clock: int)
    requires 0 <= second < 60
    ensures today * 86400 + clock * 60 <= today * 86400 + minuteOfDay * 60 + second <==> clock <= minuteOfDay
  {
  }

  /** Some day of the rule, of either name, has its window open at this minute of the week. */
  ghost predicate OnProjectedClock(rule: Rule, minute: int)
    requires ClocksParse(rule)
  {
    exists day: Weekday ::
      (Short(day) in rule.days || Long(day) in rule.days) && InWindow(day, StartMinute(rule), Span(rule), minute)
  }

  lemma CoveredMeansProjects(s: ScheduleRecord, i: nat, local: int)
    requires i < |s.rules| && ClocksParse(s.rules[i])
    ensures (exists seg | seg in RuleSegments(s, i, |s.rules[i].days|) :: seg.Covers(MinuteOfWeek(local))) <==>
            Projects(s.rules[i], local)
  {
    ProjectionIsWindow(s, i, MinuteOfWeek(local));
    if DistinctTimes(s.rules[i]) {
      if Projects(s.rules[i], local) {
        ProjectsOnClock(s.rules[i], local);
      }
      if OnProjectedClock(s.rules[i], MinuteOfWeek(local)) {
        OnClockProjects(s.rules[i], local);
      }
    }
  }

  lemma ProjectsOnClock(rule: Rule, local: int)
    requires ClocksParse(rule) && DistinctTimes(rule) && Projects(rule, local)
    ensures OnProjectedClock(rule, MinuteOfWeek(local))
  {
    var n :| NamesDay(rule, n) && OpenAt(rule, n, local);
    OpenOnTwoDays(rule, n, local);
    OpenAtMeans(rule, n, local);
    OpenDayOnClock(rule, local, local / 86400, n);
  }

  lemma OpenDayOnClock(rule: Rule, local: int, today: int, n: int)
    requires ClocksParse(rule) && DistinctTimes(rule) && today == local / 86400
    requires n == today || n == today - 1
    requires OpenFrom(rule, n, local, StartMinute(rule), EndMinute(rule))
    ensures InWindow(n % 7, StartMinute(rule), Span(rule), MinuteOfWeek(local))
  {
    WindowIsOpen(rule, local, today, n % 7);
  }

  lemma OnClockProjects(rule: Rule, local: int)
    requires ClocksParse(rule) && DistinctTimes(rule) && OnProjectedClock(rule, MinuteOfWeek(local))
    ensures Projects(rule, local)
  {
    var today := local / 86400;
    var day: Weekday :| (Short(day) in rule.days || Long(day) in rule.days)
                        && InWindow(day, StartMinute(rule), Span(rule), MinuteOfWeek(local));
    WindowIsOpen(rule, local, today, day);
    var n := if day == today % 7 && OpenFrom(rule, today, local, StartMinute(rule), EndMinute(rule)) then today
             else today - 1;
    OpenAtMeans(rule, n, local);
    assert NamesDay(rule, n);
  }
}
