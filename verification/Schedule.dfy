// Times, recurrence rules and the rows that carry them. A time is a whole minute of
// facility-local time counted from midnight of Thursday 1 January 1970; days count from there too.
module Schedule {
  import opened Prelude

  const DAY_MINUTES := 1440

  function Day(t: int): int {
    t / DAY_MINUTES
  }

  /** Sunday is 0 and Saturday is 6, as in Go's time.Weekday. */
  function Weekday(day: int): (w: int)
    ensures 0 <= w < 7
  {
    (day + 4) % 7
  }

  /** Every weekday comes within a week. */
  lemma WeekdayWithinAWeek(day: int, w: int) returns (d: int)
    requires 0 <= w < 7
    ensures day <= d < day + 7 && Weekday(d) == w
  {
    var ahead := w - Weekday(day);
    d := day + if ahead < 0 then ahead + 7 else ahead;
  }

  /** The last minute of a day: an UNTIL date covers the whole of its day. */
  function EndOfDay(day: int): int {
    day * DAY_MINUTES + DAY_MINUTES - 1
  }

  /** FREQ=WEEKLY with BYDAY, INTERVAL 1 and an optional UNTIL date (section 3.3.10 of RFC 5545). */
  datatype WeeklyRule = WeeklyRule(dtstart: int, weekdays: set<int>, until: Option<int>)

  predicate Occurs(rule: WeeklyRule, t: int) {
    && rule.dtstart <= t
    && t % DAY_MINUTES == rule.dtstart % DAY_MINUTES
    && Weekday(Day(t)) in rule.weekdays
    && (rule.until.Some? ==> Day(t) <= rule.until.value)
  }

  /** Occurrences from `first` to `last`, both included, in order. */
  function Between(rule: WeeklyRule, first: int, last: int): (times: seq<int>)
    ensures forall t :: t in times <==> Occurs(rule, t) && first <= t <= last
    ensures Increasing(times)
  {
    BetweenIncreasing(rule, first, last, Day(first));
    BetweenMembers(rule, first, last);
    BetweenFromDay(rule, first, last, Day(first))
  }

  function OnDay(rule: WeeklyRule, day: int): int {
    day * DAY_MINUTES + rule.dtstart % DAY_MINUTES
  }

  function BetweenFromDay(rule: WeeklyRule, first: int, last: int, day: int): seq<int>
    decreases Day(last) - day
  {
    if Day(last) < day then []
    else
      var t := OnDay(rule, day);
      var rest := BetweenFromDay(rule, first, last, day + 1);
      if Occurs(rule, t) && first <= t <= last then [t] + rest else rest
  }

  lemma DayMonotone(t: int, u: int)
    requires t <= u
    ensures Day(t) <= Day(u)
  {
  }

  lemma OnDayUnique(rule: WeeklyRule, day: int, t: int)
    ensures Day(OnDay(rule, day)) == day
    ensures Day(t) == day && t % DAY_MINUTES == rule.dtstart % DAY_MINUTES ==> t == OnDay(rule, day)
  {
    assert t == Day(t) * DAY_MINUTES + t % DAY_MINUTES;
  }

  lemma {:induction false} BetweenMember(rule: WeeklyRule, first: int, last: int, day: int, t: int)
    ensures t in BetweenFromDay(rule, first, last, day) <==> Occurs(rule, t) && first <= t <= last && day <= Day(t)
    decreases Day(last) - day
  {
    if t <= last {
      DayMonotone(t, last);
    }
    if day <= Day(last) {
      BetweenMember(rule, first, last, day + 1, t);
      OnDayUnique(rule, day, t);
    }
  }

  lemma BetweenMembers(rule: WeeklyRule, first: int, last: int)
    ensures forall t :: t in BetweenFromDay(rule, first, last, Day(first)) <==> Occurs(rule, t) && first <= t <= last
  {
    forall t
      ensures t in BetweenFromDay(rule, first, last, Day(first)) <==> Occurs(rule, t) && first <= t <= last
    {
      BetweenMember(rule, first, last, Day(first), t);
      if first <= t {
        DayMonotone(first, t);
      }
    }
  }

  lemma {:induction false} BetweenIncreasing(rule: WeeklyRule, first: int, last: int, day: int)
    ensures Increasing(BetweenFromDay(rule, first, last, day))
    decreases Day(last) - day
  {
    if day <= Day(last) {
      BetweenIncreasing(rule, first, last, day + 1);
      var rest := BetweenFromDay(rule, first, last, day + 1);
      forall u | u in rest
        ensures OnDay(rule, day) < u
      {
        BetweenMember(rule, first, last, day + 1, u);
        OnDayUnique(rule, day, u);
        if u <= OnDay(rule, day) {
          DayMonotone(u, OnDay(rule, day));
        }
      }
      assert forall i | 0 <= i < |rest| :: rest[i] in rest;
    }
  }

  /** The stored rule text of an override; `times` is what parsing it gives, None when it is rejected. */
  datatype OverrideRule = OverrideRule(text: string, times: Option<seq<int>>)

  function Times(rule: OverrideRule): seq<int> {
    if rule.times.Some? then rule.times.value else []
  }

  function TimesBetween(rule: OverrideRule, first: int, last: int): seq<int> {
    Filter(Times(rule), InRange(first, last))
  }

  function InRange(first: int, last: int): int -> bool {
    t => first <= t <= last
  }

  /** The first occurrence, when there is one, and its day. */
  function FirstTime(rule: OverrideRule): Option<int> {
    if Times(rule) == [] then None else Some(Times(rule)[0])
  }

  function FirstDay(rule: OverrideRule): Option<int> {
    if Times(rule) == [] then None else Some(Day(Times(rule)[0]))
  }

  /** A row of program_class_event_overrides. A duration is None when its text does not parse. */
  datatype Override = Override(
    id: nat, eventId: nat, rule: OverrideRule, duration: Option<int>, cancelled: bool,
    room: Option<nat>, instructor: Option<nat>, reason: string, link: Option<nat>, deleted: bool)

  /** A row of program_class_events with its live overrides preloaded. */
  datatype Event = Event(
    id: nat, classId: nat, rule: Option<WeeklyRule>, duration: Option<int>,
    room: Option<nat>, instructor: Option<nat>, overrides: seq<Override>)

  /** An event with the facility of its class. */
  datatype Class = Class(facilityId: nat, event: Event)
}
