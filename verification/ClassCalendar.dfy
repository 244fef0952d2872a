// The calendar of one event with its overrides applied, and the overlap of two classes' calendars.
module ClassCalendar {
  import opened Prelude
  import opened Schedule

  datatype Instance = Instance(eventId: nat, classId: nat, start: int, duration: int, room: Option<nat>)

  /** An event whose duration does not parse is shown with one hour. */
  const DEFAULT_DURATION := 60

  function DurationOf(event: Event): int {
    if event.duration.Some? then event.duration.value else DEFAULT_DURATION
  }

  // ----- the calendar, as a set of instances

  predicate HitBy(overrides: seq<Override>, first: int, last: int, t: int) {
    exists o | o in overrides :: t in TimesBetween(o.rule, first, last)
  }

  function UnhitBy(overrides: seq<Override>, first: int, last: int): int -> bool {
    t => !HitBy(overrides, first, last, t)
  }

  function BaseInstanceOf(event: Event): int -> Instance {
    t => Instance(event.id, event.classId, t, DurationOf(event), event.room)
  }

  function MovedInstanceOf(event: Event, o: Override): int -> Instance {
    t => Instance(event.id, event.classId, t, if o.duration.Some? then o.duration.value else DurationOf(event),
                  if o.room.Some? then o.room else event.room)
  }

  /** One instance per occurrence of each override that is not a cancel. */
  function MovedInstances(event: Event, overrides: seq<Override>, first: int, last: int): seq<Instance> {
    if overrides == [] then []
    else
      var o := overrides[|overrides| - 1];
      MovedInstances(event, overrides[..|overrides| - 1], first, last)
      + if o.cancelled then [] else Map(TimesBetween(o.rule, first, last), MovedInstanceOf(event, o))
  }

  /** The occurrences of the rule that no override hits, and the instances of the overrides. */
  function Calendar(event: Event, first: int, last: int): seq<Instance> {
    if event.rule.None? then []
    else
      Map(Filter(Between(event.rule.value, first, last), UnhitBy(event.overrides, first, last)), BaseInstanceOf(event))
      + MovedInstances(event, event.overrides, first, last)
  }

  function StartOf(): Instance -> int {
    (i: Instance) => i.start
  }

  method ApplyOverrides(event: Event, start: int, end: int) returns (instances: seq<Instance>)
    ensures multiset(instances) == multiset(Calendar(event, start, end))
    ensures SortedBy(instances, StartOf())
  {
    if event.rule.None? {
      return [];
    }
    var exDates: set<int> := {};
    var rDates: seq<Instance> := [];
    for i := 0 to |event.overrides|
      invariant forall t :: t in exDates <==> HitBy(event.overrides[..i], start, end, t)
      invariant rDates == MovedInstances(event, event.overrides[..i], start, end)
    {
      assert event.overrides[..i + 1][..i] == event.overrides[..i];
      assert event.overrides[..i + 1] == event.overrides[..i] + [event.overrides[i]];
      var hits, moved := ApplyOne(event, event.overrides[i], start, end);
      exDates, rDates := exDates + hits, rDates + moved;
    }
    assert event.overrides[..|event.overrides|] == event.overrides;
    var base := BaseInstances(event, start, end, exDates);
    instances := SortBy(base + rDates, StartOf());
  }

  /** The exception times of one override, and its own instances unless it is a cancel. */
  method ApplyOne(event: Event, o: Override, start: int, end: int) returns (hits: set<int>, moved: seq<Instance>)
    ensures forall t :: t in hits <==> t in TimesBetween(o.rule, start, end)
    ensures moved == if o.cancelled then [] else Map(TimesBetween(o.rule, start, end), MovedInstanceOf(event, o))
  {
    hits, moved := {}, [];
    var duration := if o.duration.Some? then o.duration.value else DurationOf(event);
    var room := if o.room.Some? then o.room else event.room;
    var occurrences := TimesBetween(o.rule, start, end);
    for j := 0 to |occurrences|
      invariant moved == if o.cancelled then [] else Map(occurrences, MovedInstanceOf(event, o))[..j]
      invariant forall t :: t in hits <==> t in occurrences[..j]
    {
      if !o.cancelled {
        moved := moved + [Instance(event.id, event.classId, occurrences[j], duration, room)];
      }
      hits := hits + {occurrences[j]};
    }
    assert occurrences[..|occurrences|] == occurrences;
  }

  /** The occurrences left once the exception times are taken out. */
  method BaseInstances(event: Event, start: int, end: int, exDates: set<int>) returns (instances: seq<Instance>)
    requires event.rule.Some?
    requires forall t :: t in exDates <==> HitBy(event.overrides, start, end, t)
    ensures instances
        == Map(Filter(Between(event.rule.value, start, end), UnhitBy(event.overrides, start, end)),
          BaseInstanceOf(event))
  {
    var all := Between(event.rule.value, start, end);
    var kept: seq<int> := [];
    instances := [];
    for i := 0 to |all|
      invariant kept == Filter(all[..i], UnhitBy(event.overrides, start, end))
      invariant instances == Map(kept, BaseInstanceOf(event))
    {
      FilterSnoc(all, i, UnhitBy(event.overrides, start, end));
      if all[i] !in exDates {
        kept := kept + [all[i]];
        instances := instances + [Instance(event.id, event.classId, all[i], DurationOf(event), event.room)];
      }
    }
    assert all[..|all|] == all;
  }

  /** An instance of the event's own rule: as long as the event, or one hour when that does not parse. */
  predicate IsBaseInstance(event: Event, first: int, last: int, i: Instance)
    requires event.rule.Some?
  {
    && i.eventId == event.id && i.classId == event.classId && i.room == event.room
    && i.duration == (if event.duration.Some? then event.duration.value else 60)
    && Occurs(event.rule.value, i.start) && first <= i.start <= last
    && forall o | o in event.overrides :: i.start !in Times(o.rule)
  }

  /** An instance of an override: its own length and room where it has them, the event's where it has not. */
  predicate IsMovedInstance(event: Event, o: Override, first: int, last: int, i: Instance) {
    && i.eventId == event.id && i.classId == event.classId
    && i.room == (if o.room.Some? then o.room else event.room)
    && i.duration == (if o.duration.Some? then o.duration.value
                      else if event.duration.Some? then event.duration.value else 60)
    && i.start in Times(o.rule) && first <= i.start <= last
  }

  /** The calendar of an event, with no reference to how it is computed; an event whose rule does not parse
      has none. */
  lemma CalendarMembers(event: Event, first: int, last: int, i: Instance)
    ensures i in Calendar(event, first, last) <==>
              && event.rule.Some?
              && (|| IsBaseInstance(event, first, last, i)
                  || exists o :: o in event.overrides && !o.cancelled && IsMovedInstance(event, o, first, last, i))
  {
    if event.rule.Some? {
      MovedMembers(event, event.overrides, first, last, i);
      var times := Filter(Between(event.rule.value, first, last), UnhitBy(event.overrides, first, last));
      MapMember(times, BaseInstanceOf(event), i);
      forall t | first <= t <= last
        ensures HitBy(event.overrides, first, last, t) <==> exists o | o in event.overrides :: t in Times(o.rule)
      {
      }
    }
  }

  /** How often an instance is one of an override that counts: once for each override and time it fits. */
  ghost function MovedCount(event: Event, overrides: seq<Override>, first: int, last: int, i: Instance): nat {
    if overrides == [] then 0
    else
      var o := overrides[|overrides| - 1];
      MovedCount(event, overrides[..|overrides| - 1], first, last, i)
      + if !o.cancelled && IsMovedInstance(event, o, first, last, i) then multiset(Times(o.rule))[i.start] else 0
  }

  lemma {:induction false} MapCounts(times: seq<int>, f: int -> Instance, i: Instance)
    requires forall t :: f(t).start == t
    ensures multiset(Map(times, f))[i] == if i == f(i.start) then multiset(times)[i.start] else 0
  {
    if times != [] {
      MapCounts(times[1..], f, i);
      MapHead(times, f);
      assert times == [times[0]] + times[1..];
    }
  }

  lemma OneMovedCounts(event: Event, o: Override, first: int, last: int, i: Instance)
    ensures multiset(Map(TimesBetween(o.rule, first, last), MovedInstanceOf(event, o)))[i]
         == if IsMovedInstance(event, o, first, last, i) then multiset(Times(o.rule))[i.start] else 0
  {
    MapCounts(TimesBetween(o.rule, first, last), MovedInstanceOf(event, o), i);
    FilterCounts(Times(o.rule), InRange(first, last), i.start);
    if i.start !in Times(o.rule) {
      assert multiset(Times(o.rule))[i.start] == 0;
    }
  }

  lemma {:induction false} MovedCounts(event: Event, overrides: seq<Override>, first: int, last: int, i: Instance)
    ensures multiset(MovedInstances(event, overrides, first, last))[i] == MovedCount(event, overrides, first, last, i)
  {
    if overrides != [] {
      MovedCounts(event, overrides[..|overrides| - 1], first, last, i);
      OneMovedCounts(event, overrides[|overrides| - 1], first, last, i);
    }
  }

  /** How often an instance is in the calendar: once for the rule, and once for each override and time. */
  lemma CalendarCounts(event: Event, first: int, last: int, i: Instance)
    requires event.rule.Some?
    ensures multiset(Calendar(event, first, last))[i]
         == (if IsBaseInstance(event, first, last, i) then 1 else 0)
           + MovedCount(event, event.overrides, first, last, i)
  {
    var all, keep := Between(event.rule.value, first, last), UnhitBy(event.overrides, first, last);
    MovedCounts(event, event.overrides, first, last, i);
    MapCounts(Filter(all, keep), BaseInstanceOf(event), i);
    FilterCounts(all, keep, i.start);
    IncreasingCounts(all, i.start);
  }

  lemma {:induction false} CalendarsMembers(events: seq<Event>, first: int, last: int, i: Instance)
    ensures i in Calendars(events, first, last) <==> exists e | e in events :: i in Calendar(e, first, last)
  {
    if events != [] {
      var init, e := events[..|events| - 1], events[|events| - 1];
      assert events == init + [e];
      CalendarsMembers(init, first, last, i);
    }
  }

  lemma MapMember(times: seq<int>, f: int -> Instance, i: Instance)
    requires forall t :: f(t).start == t
    ensures i in Map(times, f) <==> i.start in times && i == f(i.start)
  {
    if i in Map(times, f) {
      var k :| 0 <= k < |times| && Map(times, f)[k] == i;
      assert f(times[k]) == i && f(times[k]).start == times[k] && times[k] in times;
    }
    if i.start in times {
      var k :| 0 <= k < |times| && times[k] == i.start;
      assert Map(times, f)[k] == f(i.start);
    }
  }

  lemma {:induction false} MovedMembers(event: Event, overrides: seq<Override>, first: int, last: int, i: Instance)
    ensures i in MovedInstances(event, overrides, first, last) <==>
              exists o :: o in overrides && !o.cancelled && i == MovedInstanceOf(event, o)(i.start)
                          && i.start in TimesBetween(o.rule, first, last)
  {
    if overrides != [] {
      var init, o := overrides[..|overrides| - 1], overrides[|overrides| - 1];
      MovedMembers(event, init, first, last, i);
      MapMember(TimesBetween(o.rule, first, last), MovedInstanceOf(event, o), i);
      assert overrides == init + [o];
    }
  }

  // ----- overlap

  predicate Overlap(a: Instance, b: Instance) {
    a.start < b.start + b.duration && b.start < a.start + a.duration
  }

  predicate Includes(i: Instance, t: int) {
    i.start <= t < i.start + i.duration
  }

  /** With positive durations two instances overlap exactly when some minute belongs to both. */
  lemma OverlapIsCommonMinute(a: Instance, b: Instance)
    requires a.duration > 0 && b.duration > 0
    ensures Overlap(a, b) <==> exists t :: Includes(a, t) && Includes(b, t)
  {
    if Overlap(a, b) {
      var t := if a.start < b.start then b.start else a.start;
      assert Includes(a, t) && Includes(b, t);
    }
  }

  predicate Meets(a: Instance, others: seq<Instance>) {
    exists b | b in others :: Overlap(a, b)
  }

  lemma MeetsNext(a: Instance, others: seq<Instance>, j: nat)
    requires j < |others|
    ensures Meets(a, others[..j + 1]) <==> Meets(a, others[..j]) || Overlap(a, others[j])
  {
    assert others[..j + 1] == others[..j] + [others[j]];
  }

  predicate DayMet(instances: seq<Instance>, others: seq<Instance>, weekday: int) {
    exists a | a in instances :: Meets(a, others) && Weekday(Day(a.start)) == weekday
  }

  /** The weekdays below `n` that are met, from Sunday on. */
  function DaysMet(instances: seq<Instance>, others: seq<Instance>, n: nat): seq<int> {
    if n == 0 then []
    else DaysMet(instances, others, n - 1) + if DayMet(instances, others, n - 1) then [n - 1] else []
  }

  /** The first instance of the list that meets the others. */
  function FirstMeeting(instances: seq<Instance>, others: seq<Instance>): Option<Instance> {
    if instances == [] then None
    else if Meets(instances[0], others) then Some(instances[0])
    else FirstMeeting(instances[1..], others)
  }

  lemma FirstMeetingAt(instances: seq<Instance>, others: seq<Instance>, i: nat)
    requires i < |instances|
    requires FirstMeeting(instances[..i], others).None?
    ensures FirstMeeting(instances[..i + 1], others) == if Meets(instances[i], others) then Some(instances[i]) else None
  {
    if i == 0 {
      assert instances[..1] == [instances[0]];
    } else {
      assert instances[..i][1..] == instances[1..][..i - 1] && instances[..i + 1][1..] == instances[1..][..i];
      FirstMeetingAt(instances[1..], others, i - 1);
    }
  }

  lemma FirstMeetingStays(instances: seq<Instance>, others: seq<Instance>, i: nat)
    requires i < |instances| && FirstMeeting(instances[..i], others).Some?
    ensures FirstMeeting(instances[..i + 1], others) == FirstMeeting(instances[..i], others)
  {
    if !Meets(instances[0], others) {
      assert instances[..i][1..] == instances[1..][..i - 1] && instances[..i + 1][1..] == instances[1..][..i];
      FirstMeetingStays(instances[1..], others, i - 1);
    }
  }

  method CompareCalendars(newInstances: seq<Instance>, existingInstances: seq<Instance>)
    returns (first: Option<Instance>, days: seq<int>)
    ensures first == FirstMeeting(newInstances, existingInstances)
    ensures days == DaysMet(newInstances, existingInstances, 7)
  {
    first := None;
    var seenDays: set<int> := {};
    for i := 0 to |newInstances|
      invariant first == FirstMeeting(newInstances[..i], existingInstances)
      invariant forall w :: w in seenDays <==> DayMet(newInstances[..i], existingInstances, w)
    {
      var newInst := newInstances[i];
      var newEnd := newInst.start + newInst.duration;
      var met := false;
      ghost var firstBefore, daysBefore := first, seenDays;
      for j := 0 to |existingInstances|
        invariant met <==> Meets(newInst, existingInstances[..j])
        invariant first == if met && firstBefore.None? then Some(newInst) else firstBefore
        invariant seenDays == if met then daysBefore + {Weekday(Day(newInst.start))} else daysBefore
      {
        var exInst := existingInstances[j];
        MeetsNext(newInst, existingInstances, j);
        if newInst.start < exInst.start + exInst.duration && newEnd > exInst.start {
          if first.None? {
            first := Some(newInst);
          }
          seenDays := seenDays + {Weekday(Day(newInst.start))};
          met := true;
        }
      }
      assert existingInstances[..|existingInstances|] == existingInstances;
      assert newInstances[..i + 1] == newInstances[..i] + [newInst];
      if firstBefore.None? {
        FirstMeetingAt(newInstances, existingInstances, i);
      } else {
        FirstMeetingStays(newInstances, existingInstances, i);
      }
    }
    assert newInstances[..|newInstances|] == newInstances;
    days := [];
    for wd := 0 to 7
      invariant days == DaysMet(newInstances, existingInstances, wd)
    {
      if wd in seenDays {
        days := days + [wd];
      }
    }
  }

  function Calendars(events: seq<Event>, first: int, last: int): seq<Instance> {
    if events == [] then []
    else Calendars(events[..|events| - 1], first, last) + Calendar(events[|events| - 1], first, last)
  }

  /** One list per event, each its calendar in order of start. */
  ghost predicate AreCalendars(parts: seq<seq<Instance>>, events: seq<Event>, first: int, last: int) {
    && |parts| == |events|
    && forall k | 0 <= k < |parts| ::
         multiset(parts[k]) == multiset(Calendar(events[k], first, last)) && SortedBy(parts[k], StartOf())
  }

  lemma CalendarsNext(parts: seq<seq<Instance>>, events: seq<Event>, i: nat, more: seq<Instance>, first: int, last: int)
    requires i < |events| && AreCalendars(parts, events[..i], first, last)
    requires multiset(more) == multiset(Calendar(events[i], first, last)) && SortedBy(more, StartOf())
    ensures AreCalendars(parts + [more], events[..i + 1], first, last)
    ensures multiset(Concat(parts) + more) == multiset(Concat(parts)) + multiset(Calendar(events[i], first, last))
  {
    forall k | 0 <= k <= i
      ensures multiset((parts + [more])[k]) == multiset(Calendar(events[..i + 1][k], first, last))
          && SortedBy((parts + [more])[k], StartOf())
    {
      assert k < i ==> events[..i][k] == events[k];
    }
  }

  method GenerateInstances(events: seq<Event>, start: int, end: int)
      returns (instances: seq<Instance>, ghost parts: seq<seq<Instance>>)
    ensures multiset(instances) == multiset(Calendars(events, start, end))
    ensures instances == Concat(parts) && AreCalendars(parts, events, start, end)
  {
    instances, parts := [], [];
    for i := 0 to |events|
      invariant multiset(instances) == multiset(Calendars(events[..i], start, end))
      invariant instances == Concat(parts) && AreCalendars(parts, events[..i], start, end)
    {
      assert events[..i + 1][..i] == events[..i];
      var more := ApplyOverrides(events[i], start, end);
      ConcatSnoc(parts, more);
      CalendarsNext(parts, events, i, more, start, end);
      instances, parts := instances + more, parts + [more];
    }
    assert events[..|events|] == events;
  }

  /** The first overlap found: no event before event `k` has one, and event `k` has none that starts earlier. */
  ghost predicate IsFirstOverlap(events: seq<Event>, first: int, last: int, existing: seq<Instance>, k: nat,
      a: Instance) {
    && k < |events|
    && a in Calendar(events[k], first, last) && Meets(a, existing)
    && (forall b | b in Calendar(events[k], first, last) && Meets(b, existing) :: a.start <= b.start)
    && (forall m, b | 0 <= m < k && b in Calendar(events[m], first, last) :: !Meets(b, existing))
  }

  lemma {:induction false} FirstMeetingAppend(s: seq<Instance>, t: seq<Instance>, others: seq<Instance>)
    ensures FirstMeeting(s + t, others)
        == if FirstMeeting(s, others).Some? then FirstMeeting(s, others) else FirstMeeting(t, others)
  {
    if s == [] {
      assert s + t == t;
    } else {
      assert (s + t)[1..] == s[1..] + t;
      FirstMeetingAppend(s[1..], t, others);
    }
  }

  /** In a sorted list the first that meets is the earliest that does. */
  lemma {:induction false} FirstMeetingLeast(s: seq<Instance>, others: seq<Instance>)
    requires SortedBy(s, StartOf()) && FirstMeeting(s, others).Some?
    ensures forall b | b in s && Meets(b, others) :: FirstMeeting(s, others).value.start <= b.start
  {
    var key := StartOf();
    forall b | b in s && Meets(b, others)
      ensures FirstMeeting(s, others).value.start <= b.start
    {
      if Meets(s[0], others) {
        var i :| 0 <= i < |s| && s[i] == b;
        assert key(s[0]) <= key(s[i]);
      } else {
        assert b in s[1..];
        FirstMeetingLeast(s[1..], others);
      }
    }
  }

  lemma {:induction false} FirstMeetingOverall(
    parts: seq<seq<Instance>>, events: seq<Event>, first: int, last: int, others: seq<Instance>) returns (k: nat)
    requires AreCalendars(parts, events, first, last) && FirstMeeting(Concat(parts), others).Some?
    ensures IsFirstOverlap(events, first, last, others, k, FirstMeeting(Concat(parts), others).value)
  {
    var head, tail := parts[0], Concat(parts[1..]);
    FirstMeetingAppend(head, tail, others);
    FirstMeetingExists(head, others);
    SameMembers(head, Calendar(events[0], first, last));
    if FirstMeeting(head, others).Some? {
      FirstMeetingLeast(head, others);
      k := 0;
    } else {
      k := FirstMeetingOverall(parts[1..], events[1..], first, last, others);
      k := k + 1;
    }
  }

  /** Two classes overlap in the window exactly when some pair of their instances does. The interval is
      that of the first overlap, event by event and then in order of start; the weekdays
      reported are those of the overlapping instances of the new class, from Sunday to Saturday. */
  method CheckEventsOverlap(newEvents: seq<Event>, existingEvents: seq<Event>, startWindow: int, endWindow: int)
    returns (overlap: bool, firstStart: int, firstEnd: int, days: seq<int>)
    ensures var added, existing := Calendars(newEvents, startWindow, endWindow),
        Calendars(existingEvents, startWindow, endWindow);
            && (overlap <==> exists a, b :: a in added && b in existing && Overlap(a, b))
            && AreDaysMet(days, added, existing)
            && (overlap ==> exists k, a :: IsFirstOverlap(newEvents, startWindow, endWindow, existing, k, a)
                                           && firstStart == a.start && firstEnd == a.start + a.duration)
  {
    var newInstances, newParts := GenerateInstances(newEvents, startWindow, endWindow);
    var existingInstances, existingParts := GenerateInstances(existingEvents, startWindow, endWindow);
    var first;
    first, days := CompareCalendars(newInstances, existingInstances);
    SameMembers(newInstances, Calendars(newEvents, startWindow, endWindow));
    SameMembers(existingInstances, Calendars(existingEvents, startWindow, endWindow));
    SameDaysMet(newInstances, Calendars(newEvents, startWindow, endWindow),
                existingInstances, Calendars(existingEvents, startWindow, endWindow), 7);
    DaysMetAreThose(Calendars(newEvents, startWindow, endWindow), Calendars(existingEvents, startWindow, endWindow));
    FirstMeetingExists(newInstances, existingInstances);
    DaysMetExist(newInstances, existingInstances, 7);
    if days == [] {
      return false, 0, 0, [];
    }
    ghost var k := FirstMeetingOverall(newParts, newEvents, startWindow, endWindow, existingInstances);
    SameFirstOverlap(newEvents, startWindow, endWindow, existingInstances,
      Calendars(existingEvents, startWindow, endWindow), k, first.value);
    overlap, firstStart, firstEnd := true, first.value.start, first.value.start + first.value.duration;
  }

  lemma SameFirstOverlap(events: seq<Event>, first: int, last: int, s: seq<Instance>, t: seq<Instance>, k: nat,
      a: Instance)
    requires (forall x :: x in s <==> x in t) && IsFirstOverlap(events, first, last, s, k, a)
    ensures IsFirstOverlap(events, first, last, t, k, a)
  {
    assert forall b :: Meets(b, s) <==> Meets(b, t);
  }

  lemma SameMembers(s: seq<Instance>, t: seq<Instance>)
    requires multiset(s) == multiset(t)
    ensures forall x :: x in s <==> x in t
  {
    assert forall x :: x in s <==> x in multiset(s);
    assert forall x :: x in t <==> x in multiset(t);
  }

  /** The weekdays, in the order of the week, on which an instance overlaps one of the others. */
  ghost predicate AreDaysMet(days: seq<int>, instances: seq<Instance>, others: seq<Instance>) {
    && Increasing(days)
    && forall w :: w in days <==>
         0 <= w < 7 && exists a, b :: a in instances && b in others && Overlap(a, b) && Weekday(Day(a.start)) == w
  }

  lemma {:induction false} DaysMetExactly(instances: seq<Instance>, others: seq<Instance>, n: nat)
    ensures Increasing(DaysMet(instances, others, n))
    ensures forall w :: w in DaysMet(instances, others, n) <==> 0 <= w < n && DayMet(instances, others, w)
  {
    if n > 0 {
      DaysMetExactly(instances, others, n - 1);
      var before := DaysMet(instances, others, n - 1);
      assert forall k | 0 <= k < |before| :: before[k] in before;
    }
  }

  lemma DaysMetAreThose(instances: seq<Instance>, others: seq<Instance>)
    ensures AreDaysMet(DaysMet(instances, others, 7), instances, others)
  {
    DaysMetExactly(instances, others, 7);
    forall w
      ensures DayMet(instances, others, w) <==>
                exists a, b :: a in instances && b in others && Overlap(a, b) && Weekday(Day(a.start)) == w
    {
      if a, b :| a in instances && b in others && Overlap(a, b) && Weekday(Day(a.start)) == w {
        assert Meets(a, others);
      }
    }
  }

  lemma {:induction false} SameDaysMet(a: seq<Instance>, a': seq<Instance>, b: seq<Instance>, b': seq<Instance>, n: nat)
    requires forall x :: x in a <==> x in a'
    requires forall x :: x in b <==> x in b'
    ensures DaysMet(a, b, n) == DaysMet(a', b', n)
  {
    if n > 0 {
      SameDaysMet(a, a', b, b', n - 1);
      assert DayMet(a, b, n - 1) == DayMet(a', b', n - 1);
    }
  }

  lemma FirstMeetingExists(instances: seq<Instance>, others: seq<Instance>)
    ensures FirstMeeting(instances, others).Some? <==> exists a | a in instances :: Meets(a, others)
    ensures FirstMeeting(instances, others).Some? ==>
              FirstMeeting(instances, others).value in instances && Meets(FirstMeeting(instances, others).value, others)
  {
  }

  lemma {:induction false} DaysMetExist(instances: seq<Instance>, others: seq<Instance>, n: nat)
    requires n <= 7
    ensures DaysMet(instances, others, n) == [] <==> forall w | 0 <= w < n :: !DayMet(instances, others, w)
    ensures n == 7 ==> (DaysMet(instances, others, n) == [] <==> !exists a | a in instances :: Meets(a, others))
  {
    if n > 0 {
      DaysMetExist(instances, others, n - 1);
    }
    forall a | a in instances && Meets(a, others)
      ensures DayMet(instances, others, Weekday(Day(a.start)))
    {
    }
  }
}
