/** The interpreter: which action a schedule prescribes at an instant, and when that
    can next change. */
module ScheduleParser {
  import opened Options
  import opened ScheduleModel

  // ----- Evaluate

  /** Whether `Evaluate` takes the rule to be in force at a local instant. */
  predicate Matches(rule: Rule, local: int) {
    var today := local / 86400;
    var current: Weekday := today % 7;
    var previous: Weekday := (current + 6) % 7;
    var matchesCurrentDay := Short(current) in rule.days;
    var matchesPrevDay := Short(previous) in rule.days;
    && ClocksParse(rule)
    && var start := today * 86400 + StartMinute(rule) * 60;
       var end := today * 86400 + EndMinute(rule) * 60;
       && !(rule.startTime != rule.endTime && start == end)
       && if end > start then
            matchesCurrentDay && start <= local < end
          else
            || (matchesPrevDay && start - 86400 <= local < end)
            || (matchesCurrentDay && start <= local < end + 86400)
  }

  /** The length in seconds that `Evaluate` gives to the rule's window. */
  function WindowDuration(rule: Rule): (d: int)
    requires ClocksParse(rule)
    ensures 0 <= d <= 86400
  {
    (EndMinute(rule) - StartMinute(rule)) * 60 + if EndMinute(rule) > StartMinute(rule) then 0 else 86400
  }

  /** The window length of a rule in force, nothing for the others. */
  function MatchLength(rule: Rule, local: int): (r: Option<int>)
    ensures r.Some? ==> 0 <= r.value <= 86400
  {
    if Matches(rule, local) then Some(WindowDuration(rule)) else None
  }

  function MatchLengths(rules: seq<Rule>, local: int): (r: seq<Option<int>>)
    ensures |r| == |rules|
  {
    if rules == [] then []
    else [MatchLength(rules[0], local)] + MatchLengths(rules[1..], local)
  }

  lemma {:induction false} MatchLengthsAt(rules: seq<Rule>, local: int, i: nat)
    requires i < |rules|
    ensures MatchLengths(rules, local)[i] == MatchLength(rules[i], local)
  {
    if i > 0 {
      MatchLengthsAt(rules[1..], local, i - 1);
    }
  }

  /** The first of the shortest windows among the first `n`. */
  function BestOf(lengths: seq<Option<int>>, n: nat): (best: Option<nat>)
    requires n <= |lengths|
    ensures best.Some? ==> best.value < n && lengths[best.value].Some?
  {
    if n == 0 then None
    else
      var best := BestOf(lengths, n - 1);
      if lengths[n - 1].Some? && (best.None? || lengths[n - 1].value < lengths[best.value].value)
      then Some(n - 1)
      else best
  }

  function DefaultAction(mode: Mode): Action {
    if mode == Whitelist then Block else Allow
  }

  function EvaluateLocal(s: ScheduleRecord, local: int): Action {
    var best := BestOf(MatchLengths(s.rules, local), |s.rules|);
    if best.Some? then s.rules[best.value].action else DefaultAction(s.mode)
  }

  function EvaluateAt(zones: Zones, s: ScheduleRecord, now: int): Action {
    EvaluateLocal(s, LocalTime(zones, s.timezone, now))
  }

  /** The part of the loop body that decides one rule. */
  method MatchRule(rule: Rule, local: int) returns (isMatch: bool, windowDuration: int)
    ensures MatchLength(rule, local) == if isMatch then Some(windowDuration) else None
  {
    var today := local / 86400;
    var currentWeekday: Weekday := today % 7;
    var prevWeekday: Weekday := (currentWeekday + 6) % 7;
    isMatch, windowDuration := false, 0;

    var matchesCurrentDay, matchesPrevDay := false, false;
    for j := 0 to |rule.days|
      invariant matchesCurrentDay <==> Short(currentWeekday) in rule.days[..j]
      invariant matchesPrevDay <==> Short(prevWeekday) in rule.days[..j]
    {
      if rule.days[j].Short? {
        if rule.days[j].day == currentWeekday { matchesCurrentDay := true; }
        if rule.days[j].day == prevWeekday { matchesPrevDay := true; }
      }
    }
    assert rule.days[..|rule.days|] == rule.days;
    if !matchesCurrentDay && !matchesPrevDay { return; }

    var startTime, endTime := ParseClock(rule.startTime), ParseClock(rule.endTime);
    if startTime.None? || endTime.None? { return; }
    var start := today * 86400 + startTime.value * 60;
    var end := today * 86400 + endTime.value * 60;
    if rule.startTime != rule.endTime && start == end { return; }

    if end > start {
      if matchesCurrentDay {
        isMatch := start <= local < end;
      }
      windowDuration := end - start;
    } else {
      windowDuration := end + 86400 - start;
      if matchesPrevDay {
        var startOvernight := start - 86400;
        if startOvernight <= local < end { isMatch := true; }
      }
      if matchesCurrentDay {
        if start <= local < end + 86400 { isMatch := true; }
      }
    }
  }

  method Evaluate(zones: Zones, s: ScheduleRecord, now: int) returns (action: Action)
    ensures action == EvaluateAt(zones, s, now)
  {
    var local := LocalTime(zones, s.timezone, now);
    var bestMatch: Option<Rule> := None;
    var bestDuration := -1;
    ghost var lengths := MatchLengths(s.rules, local);

    for i := 0 to |s.rules|
      invariant forall k | 0 <= k < i && lengths[k].Some? :: lengths[k].value >= 0
      invariant BestOf(lengths, i).None? ==> bestMatch == None && bestDuration == -1
      invariant BestOf(lengths, i).Some? ==>
                  var b := BestOf(lengths, i).value;
                  bestMatch == Some(s.rules[b]) && bestDuration == lengths[b].value
    {
      var isMatch, windowDuration := MatchRule(s.rules[i], local);
      MatchLengthsAt(s.rules, local, i);
      if isMatch {
        if bestDuration == -1 || windowDuration < bestDuration {
          bestDuration, bestMatch := windowDuration, Some(s.rules[i]);
        }
      }
    }

    if bestMatch.Some? {
      return bestMatch.value.action;
    }
    action := if s.mode == Whitelist then Block else Allow;
  }

  /** What `BestOf` picks, without following its recursion: a window that none undercuts
      and no earlier one ties with. */
  lemma {:induction false} BestOfIsFirstShortest(lengths: seq<Option<int>>, n: nat)
    requires n <= |lengths|
    ensures BestOf(lengths, n).None? <==> forall k | 0 <= k < n :: lengths[k].None?
    ensures BestOf(lengths, n).Some? ==>
              var b := BestOf(lengths, n).value;
              forall k | 0 <= k < n && lengths[k].Some? ::
                && lengths[b].value <= lengths[k].value
                && (k < b ==> lengths[b].value < lengths[k].value)
  {
    if n > 0 {
      BestOfIsFirstShortest(lengths, n - 1);
    }
  }
}
