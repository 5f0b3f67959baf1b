/** The data of a schedule and the clock arithmetic shared by the projection and the
    interpreter.  Instants are whole seconds; local instant 0 is a Sunday midnight. */
module ScheduleModel {
  import opened Options

  datatype Action = Allow | Block | Schedule

  datatype Mode = Downtime | Whitelist

  type Weekday = d: int | 0 <= d < 7

  /** A day of a rule after trimming and lower-casing: "mon", "monday", or anything else. */
  datatype DayName = Short(day: Weekday) | Long(day: Weekday) | Unrecognised

  datatype Rule = Rule(days: seq<DayName>, startTime: string, endTime: string, action: Action)

  datatype ScheduleRecord = ScheduleRecord(
    id: string, name: string, mode: Mode, timezone: string, rules: seq<Rule>)

  /** Fixed offsets in seconds of the zones the host knows. */
  type Zones = map<string, int>

  /** Unknown zones are read as UTC. */
  function LocalTime(zones: Zones, timezone: string, now: int): int {
    now + if timezone in zones then zones[timezone] else 0
  }

  predicate IsDigit(c: char) { '0' <= c <= '9' }

  function Digit(c: char): nat
    requires IsDigit(c)
  {
    c as int - '0' as int
  }

  /** `time.Parse("15:04", text)` as minutes since midnight: one or two hour digits, exactly
      two minute digits. */
  function ParseClock(text: string): (r: Option<nat>)
    ensures r.Some? ==> r.value < 1440
  {
    if text == [] || !IsDigit(text[0]) then None
    else
      var twoDigits := |text| > 1 && IsDigit(text[1]);
      var hour := if twoDigits then 10 * Digit(text[0]) + Digit(text[1]) else Digit(text[0]);
      var rest := text[if twoDigits then 2 else 1..];
      if hour < 24 && |rest| == 3 && rest[0] == ':' && IsDigit(rest[1]) && IsDigit(rest[2])
         && 10 * Digit(rest[1]) + Digit(rest[2]) < 60
      then Some(hour * 60 + 10 * Digit(rest[1]) + Digit(rest[2]))
      else None
  }

  predicate ClocksParse(rule: Rule) {
    ParseClock(rule.startTime).Some? && ParseClock(rule.endTime).Some?
  }

  function StartMinute(rule: Rule): (m: nat)
    requires ClocksParse(rule)
    ensures m < 1440
  {
    ParseClock(rule.startTime).value
  }

  function EndMinute(rule: Rule): (m: nat)
    requires ClocksParse(rule)
    ensures m < 1440
  {
    ParseClock(rule.endTime).value
  }

  /** The minute of the week in which a local instant falls. */
  function MinuteOfWeek(local: int): (m: int)
    ensures 0 <= m < 10080
  {
    (local / 60) % 10080
  }

  /** The reference meaning of a weekly window: it opens at minute `start` of day `day`,
      lasts `length` minutes, and is read around the week. */
  ghost predicate InWindow(day: Weekday, start: int, length: int, minute: int) {
    (minute - (day * 1440 + start)) % 10080 < length
  }

  /** Minutes from start to end around midnight; 0 when they coincide. */
  ghost function Span(rule: Rule): int
    requires ClocksParse(rule)
  {
    (EndMinute(rule) - StartMinute(rule)) % 1440
  }

  /** The handlers refuse a rule whose two clock texts coincide. */
  predicate DistinctTimes(rule: Rule) { rule.startTime != rule.endTime }

  predicate ShortDaysOnly(rule: Rule) {
    forall day: Weekday | Long(day) in rule.days :: Short(day) in rule.days
  }

  // ----- quotients by the lengths of a minute, a day and a week

  lemma DivMod60(a: int, q: int, r: int)
    requires a == 60 * q + r && 0 <= r < 60
    ensures a / 60 == q && a % 60 == r
  {
  }

  lemma DivMod1440(a: int, q: int, r: int)
    requires a == 1440 * q + r && 0 <= r < 1440
    ensures a / 1440 == q && a % 1440 == r
  {
  }

  lemma DivMod10080(a: int, q: int, r: int)
    requires a == 10080 * q + r && 0 <= r < 10080
    ensures a / 10080 == q && a % 10080 == r
  {
  }

  lemma DivMod86400(a: int, q: int, r: int)
    requires a == 86400 * q + r && 0 <= r < 86400
    ensures a / 86400 == q && a % 86400 == r
  {
  }

  /** A local instant is a day, a minute of that day and a second of that minute. */
  lemma ClockParts(local: int) returns (today: int, minuteOfDay: int, second: int)
    ensures local == today * 86400 + minuteOfDay * 60 + second
    ensures 0 <= minuteOfDay < 1440 && 0 <= second < 60
    ensures local / 86400 == today && local % 86400 == minuteOfDay * 60 + second
    ensures local / 60 == today * 1440 + minuteOfDay && local % 60 == second
    ensures local % 86400 / 60 == minuteOfDay && local % 86400 % 60 == second
    ensures MinuteOfWeek(local) == today % 7 * 1440 + minuteOfDay
    ensures MinuteOfWeek(local) % 1440 == minuteOfDay
  {
    var minutes := local / 60;
    second := local % 60;
    today := minutes / 1440;
    minuteOfDay := minutes % 1440;
    DivMod86400(local, today, minuteOfDay * 60 + second);
    DivMod60(local % 86400, minuteOfDay, second);
    DivMod10080(minutes, today / 7, today % 7 * 1440 + minuteOfDay);
    DivMod1440(today % 7 * 1440 + minuteOfDay, today % 7, minuteOfDay);
  }
}
