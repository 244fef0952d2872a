// Comparing the occurrences of a requested rule with existing bookings.
module Conflicts {
  import opened Prelude
  import opened Schedule
  import opened Bookings

  datatype ConflictKind = RoomConflict | InstructorConflict

  datatype Conflict = Conflict(eventId: nat, classId: nat, className: string, start: int, end: int, kind: ConflictKind)

  /** A room or instructor of 0 is not checked; a rule or a duration is None when it does not parse. */
  datatype Request = Request(
    facilityId: nat, rule: Option<WeeklyRule>, duration: Option<int>, roomId: nat, instructorId: nat,
    excludeEventId: Option<nat>, excludeClassId: Option<nat>)

  datatype Window = Window(occurrences: seq<int>, duration: int, rangeStart: int, rangeEnd: int)

  const MAX_CONFLICTS := 50

  /** What the check reads off the clock and the calendar: a year before now, and adding a year. */
  datatype Clock = Clock(yearAgo: int, plusYear: int -> int)

  /** The range a rule is checked in: from DTSTART, but not more than a year back, for at most a year. */
  function WindowOf(rule: WeeklyRule, duration: int, clock: Clock): Window {
    var rangeStart := if rule.dtstart < clock.yearAgo then clock.yearAgo else rule.dtstart;
    var limit := clock.plusYear(rangeStart);
    var until := if rule.until.None? || EndOfDay(rule.until.value) < rangeStart then limit
        else EndOfDay(rule.until.value);
    var rangeEnd := if limit < until then limit else until;
    Window(Between(rule, rangeStart, rangeEnd), duration, rangeStart, rangeEnd)
  }

  function PrepareConflictWindow(req: Request, clock: Clock): Result<Window> {
    if req.rule.None? || req.duration.None? then Err else Ok(WindowOf(req.rule.value, req.duration.value, clock))
  }

  /** From the later of DTSTART and a year ago, for a year, or up to the end of the UNTIL day if that comes
      first without the rule being over already. */
  ghost predicate IsChecked(rule: WeeklyRule, clock: Clock, first: int, last: int) {
    && rule.dtstart <= first && clock.yearAgo <= first && (first == rule.dtstart || first == clock.yearAgo)
    && last <= clock.plusYear(first)
    && (last == clock.plusYear(first) || (rule.until.Some? && last == EndOfDay(rule.until.value)))
    && (rule.until.Some? && first <= EndOfDay(rule.until.value) ==> last <= EndOfDay(rule.until.value))
    && (rule.until.Some? && EndOfDay(rule.until.value) < first ==> last == clock.plusYear(first))
  }

  /** The range of a window, and the occurrences in it: those from a year ago on, for a year from there or
      from DTSTART, whichever is later. */
  lemma WindowExactly(rule: WeeklyRule, duration: int, clock: Clock, first: int, last: int)
    ensures var w := WindowOf(rule, duration, clock);
            && w.duration == duration
            && (IsChecked(rule, clock, first, last) <==> w.rangeStart == first && w.rangeEnd == last)
            && forall t :: t in w.occurrences <==>
                 && Occurs(rule, t) && clock.yearAgo <= t
                 && t <= clock.plusYear(if rule.dtstart < clock.yearAgo then clock.yearAgo else rule.dtstart)
  {
    var w := WindowOf(rule, duration, clock);
    forall t | Occurs(rule, t) && rule.until.Some?
      ensures t <= EndOfDay(rule.until.value)
    {
      assert t < (Day(t) + 1) * DAY_MINUTES;
    }
  }

  // ----- one pair

  function MinuteOfDay(t: int): int {
    t % DAY_MINUTES
  }

  /** Clock times compared on the day both sessions start; the days they end on are not looked at. */
  predicate HasLocalTimeOverlap(start1: int, end1: int, start2: int, end2: int) {
    && Day(start1) == Day(start2)
    && MinuteOfDay(start1) < MinuteOfDay(end2)
    && MinuteOfDay(start2) < MinuteOfDay(end1)
  }

  /** Half-open intervals of minutes. */
  predicate Intersect(start1: int, end1: int, start2: int, end2: int) {
    start1 < end2 && start2 < end1
  }

  predicate OnOneDay(start: int, end: int) {
    start < end && Day(start) == Day(end)
  }

  /** For sessions that start and end on one day the comparison is interval intersection. */
  lemma OverlapIsIntersection(start1: int, end1: int, start2: int, end2: int)
    requires OnOneDay(start1, end1) && OnOneDay(start2, end2)
    ensures HasLocalTimeOverlap(start1, end1, start2, end2) <==> Intersect(start1, end1, start2, end2)
  {
    DayAndMinute(start1);
    DayAndMinute(end1);
    DayAndMinute(start2);
    DayAndMinute(end2);
  }

  lemma DayAndMinute(t: int)
    ensures t == Day(t) * DAY_MINUTES + MinuteOfDay(t) && 0 <= MinuteOfDay(t) < DAY_MINUTES
  {
  }

  /** Every one-day session is judged right against this one. */
  ghost predicate JudgedRight(start: int, end: int) {
    forall s, e | OnOneDay(s, e) :: HasLocalTimeOverlap(start, end, s, e) <==> Intersect(start, end, s, e)
  }

  /** The comparison can be trusted for a session exactly when it ends on the day it starts, the last
      minute of a day apart: a session ending at midnight, or after it, is misjudged. */
  lemma JudgedRightExactly(start: int, end: int)
    requires start < end
    ensures JudgedRight(start, end) <==> Day(start) == Day(end) || (end == start + 1 && MinuteOfDay(end) == 0)
  {
    DayAndMinute(start);
    DayAndMinute(end);
    if Day(start) == Day(end) {
      forall s, e | OnOneDay(s, e)
        ensures HasLocalTimeOverlap(start, end, s, e) <==> Intersect(start, end, s, e)
      {
        OverlapIsIntersection(start, end, s, e);
      }
    } else if end == start + 1 && MinuteOfDay(end) == 0 {
      forall s, e | OnOneDay(s, e)
        ensures HasLocalTimeOverlap(start, end, s, e) <==> Intersect(start, end, s, e)
      {
        DayAndMinute(s);
        DayAndMinute(e);
      }
    } else if MinuteOfDay(start) < DAY_MINUTES - 1 && MinuteOfDay(end) <= MinuteOfDay(start) {
      DayAndMinute(start + 1);
      assert OnOneDay(start, start + 1) && Intersect(start, end, start, start + 1);
      assert !HasLocalTimeOverlap(start, end, start, start + 1);
    } else {
      var midnight := Day(end) * DAY_MINUTES;
      DayAndMinute(midnight);
      DayAndMinute(midnight + 1);
      if start < midnight < end {
        assert OnOneDay(midnight, midnight + 1) && Intersect(start, end, midnight, midnight + 1);
        assert !HasLocalTimeOverlap(start, end, midnight, midnight + 1);
      } else {
        var previous := midnight - DAY_MINUTES;
        DayAndMinute(previous);
        DayAndMinute(previous + 1);
        assert OnOneDay(previous, previous + 1) && Intersect(start, end, previous, previous + 1);
        assert !HasLocalTimeOverlap(start, end, previous, previous + 1);
      }
    }
  }

  // ----- all pairs

  predicate Excluded(req: Request, booking: Booking) {
    req.excludeEventId == Some(booking.eventId) || req.excludeClassId == Some(booking.classId)
  }

  predicate Clashes(w: Window, req: Request, occ: int, booking: Booking) {
    !Excluded(req, booking) && HasLocalTimeOverlap(occ, occ + w.duration, booking.start, booking.end)
  }

  function NameOf(names: map<nat, string>, classId: nat): string {
    if classId in names && names[classId] != "" then names[classId] else "Unknown Class"
  }

  function Report(names: map<nat, string>, kind: ConflictKind, booking: Booking): Conflict {
    Conflict(booking.eventId, booking.classId, NameOf(names, booking.classId), booking.start, booking.end, kind)
  }

  /** The conflicts of one occurrence, in booking order. */
  function ConflictsAt(w: Window, req: Request, names: map<nat, string>, kind: ConflictKind, occ: int,
      bookings: seq<Booking>): seq<Conflict> {
    if bookings == [] then []
    else
      var b := bookings[|bookings| - 1];
      ConflictsAt(w, req, names, kind, occ, bookings[..|bookings| - 1])
      + if Clashes(w, req, occ, b) then [Report(names, kind, b)] else []
  }

  /** The full enumeration: every occurrence with every booking. */
  function AllConflicts(w: Window, req: Request, names: map<nat, string>, kind: ConflictKind, occurrences: seq<int>,
      bookings: seq<Booking>): seq<Conflict> {
    if occurrences == [] then []
    else
      AllConflicts(w, req, names, kind, occurrences[..|occurrences| - 1], bookings)
      + ConflictsAt(w, req, names, kind, occurrences[|occurrences| - 1], bookings)
  }

  function Capped(conflicts: seq<Conflict>): seq<Conflict> {
    if |conflicts| <= MAX_CONFLICTS then conflicts else conflicts[..MAX_CONFLICTS]
  }

  lemma CappedAppend(s: seq<Conflict>, t: seq<Conflict>)
    ensures Capped(s) == Capped(s + t) || |s| < MAX_CONFLICTS
    ensures Capped(Capped(s) + t) == Capped(s + t)
  {
  }

  /** The first fifty entries of the enumeration, found without finishing it. */
  method BuildConflictsFromBookings(w: Window, req: Request, names: map<nat, string>, kind: ConflictKind,
      bookings: seq<Booking>)
    returns (conflicts: seq<Conflict>)
    ensures conflicts == Capped(AllConflicts(w, req, names, kind, w.occurrences, bookings))
  {
    conflicts := [];
    ghost var done: seq<Conflict> := [];
    for i := 0 to |w.occurrences|
      invariant done == AllConflicts(w, req, names, kind, w.occurrences[..i], bookings)
      invariant conflicts == Capped(done)
    {
      ghost var at := ConflictsAt(w, req, names, kind, w.occurrences[i], bookings);
      AllConflictsNext(w, req, names, kind, w.occurrences, i, bookings);
      if |conflicts| >= MAX_CONFLICTS {
        CappedPrefix(w, req, names, kind, w.occurrences, i, bookings);
        return;
      }
      conflicts := AddConflictsAt(w, req, names, kind, w.occurrences[i], bookings, conflicts);
      CappedAppend(done, at);
      done := done + at;
    }
    assert w.occurrences[..|w.occurrences|] == w.occurrences;
  }

  lemma AllConflictsNext(
    w: Window, req: Request, names: map<nat, string>, kind: ConflictKind, occurrences: seq<int>, i: nat,
    bookings: seq<Booking>)
    requires i < |occurrences|
    ensures AllConflicts(w, req, names, kind, occurrences[..i + 1], bookings)
         == AllConflicts(w, req, names, kind, occurrences[..i], bookings)
            + ConflictsAt(w, req, names, kind, occurrences[i], bookings)
  {
    assert occurrences[..i + 1][..i] == occurrences[..i];
  }

  lemma ConflictsAtNext(w: Window, req: Request, names: map<nat, string>, kind: ConflictKind, occ: int,
      bookings: seq<Booking>, j: nat)
    requires j < |bookings|
    ensures ConflictsAt(w, req, names, kind, occ, bookings[..j + 1])
         == ConflictsAt(w, req, names, kind, occ, bookings[..j])
            + if Clashes(w, req, occ, bookings[j]) then [Report(names, kind, bookings[j])] else []
  {
    assert bookings[..j + 1][..j] == bookings[..j];
  }

  /** Once fifty conflicts are found, looking at further bookings cannot change the answer. */
  lemma FullIsFinal(w: Window, req: Request, names: map<nat, string>, kind: ConflictKind, occ: int,
      bookings: seq<Booking>, j: nat, found: seq<Conflict>)
    requires j <= |bookings|
    requires |found + ConflictsAt(w, req, names, kind, occ, bookings[..j])| == MAX_CONFLICTS
    ensures Capped(found + ConflictsAt(w, req, names, kind, occ, bookings))
        == found + ConflictsAt(w, req, names, kind, occ, bookings[..j])
  {
    ConflictsAtPrefix(w, req, names, kind, occ, bookings, j);
  }

  method AddConflictsAt(w: Window, req: Request, names: map<nat, string>, kind: ConflictKind, occ: int,
      bookings: seq<Booking>, found: seq<Conflict>)
    returns (conflicts: seq<Conflict>)
    requires |found| < MAX_CONFLICTS
    ensures conflicts == Capped(found + ConflictsAt(w, req, names, kind, occ, bookings))
  {
    conflicts := found;
    for j := 0 to |bookings|
      invariant |conflicts| < MAX_CONFLICTS
      invariant conflicts == found + ConflictsAt(w, req, names, kind, occ, bookings[..j])
    {
      ConflictsAtNext(w, req, names, kind, occ, bookings, j);
      if Clashes(w, req, occ, bookings[j]) {
        conflicts := conflicts + [Report(names, kind, bookings[j])];
        if |conflicts| >= MAX_CONFLICTS {
          FullIsFinal(w, req, names, kind, occ, bookings, j + 1, found);
          return;
        }
      }
    }
    assert bookings[..|bookings|] == bookings;
  }

  lemma {:induction false} ConflictsAtPrefix(w: Window, req: Request, names: map<nat, string>, kind: ConflictKind,
      occ: int, bookings: seq<Booking>, j: nat)
    requires j <= |bookings|
    ensures ConflictsAt(w, req, names, kind, occ, bookings[..j]) <= ConflictsAt(w, req, names, kind, occ, bookings)
  {
    if j < |bookings| {
      assert bookings[..|bookings| - 1][..j] == bookings[..j];
      ConflictsAtPrefix(w, req, names, kind, occ, bookings[..|bookings| - 1], j);
    } else {
      assert bookings[..j] == bookings;
    }
  }

  lemma {:induction false} CappedPrefix(w: Window, req: Request, names: map<nat, string>, kind: ConflictKind,
      occurrences: seq<int>, i: nat, bookings: seq<Booking>)
    requires i <= |occurrences|
    requires |AllConflicts(w, req, names, kind, occurrences[..i], bookings)| >= MAX_CONFLICTS
    ensures |AllConflicts(w, req, names, kind, occurrences, bookings)| >= MAX_CONFLICTS
    ensures Capped(AllConflicts(w, req, names, kind, occurrences[..i], bookings))
         == Capped(AllConflicts(w, req, names, kind, occurrences, bookings))
  {
    if i < |occurrences| {
      assert occurrences[..|occurrences| - 1][..i] == occurrences[..i];
      CappedPrefix(w, req, names, kind, occurrences[..|occurrences| - 1], i, bookings);
    } else {
      assert occurrences[..i] == occurrences;
    }
  }

  /** The entries of the enumeration: one for each occurrence and booking, not of an excluded event or class,
      that overlap, with the booking's event, class, times and the name of the class. */
  lemma {:induction false} ConflictsExactly(
    w: Window, req: Request, names: map<nat, string>, kind: ConflictKind, occurrences: seq<int>, bookings: seq<Booking>,
    x: Conflict)
    ensures x in AllConflicts(w, req, names, kind, occurrences, bookings) <==>
              exists occ, b ::
                occ in occurrences && b in bookings && IsConflictOf(w.duration, req, names, kind, occ, b, x)
  {
    if occurrences != [] {
      var init, last := occurrences[..|occurrences| - 1], occurrences[|occurrences| - 1];
      ConflictsExactly(w, req, names, kind, init, bookings, x);
      ConflictsAtExactly(w, req, names, kind, last, bookings, x);
      assert occurrences == init + [last];
    }
  }

  predicate IsConflictOf(
    duration: int, req: Request, names: map<nat, string>, kind: ConflictKind, occ: int, b: Booking, x: Conflict)
  {
    && req.excludeEventId != Some(b.eventId) && req.excludeClassId != Some(b.classId)
    && HasLocalTimeOverlap(occ, occ + duration, b.start, b.end)
    && x.eventId == b.eventId && x.classId == b.classId && x.start == b.start && x.end == b.end && x.kind == kind
    && (if b.classId in names && names[b.classId] != "" then x.className == names[b.classId]
        else x.className == "Unknown Class")
  }

  lemma {:induction false} ConflictsAtExactly(
    w: Window, req: Request, names: map<nat, string>, kind: ConflictKind, occ: int, bookings: seq<Booking>, x: Conflict)
    ensures x in ConflictsAt(w, req, names, kind, occ, bookings) <==>
              exists b :: b in bookings && IsConflictOf(w.duration, req, names, kind, occ, b, x)
  {
    if bookings != [] {
      var init, b := bookings[..|bookings| - 1], bookings[|bookings| - 1];
      ConflictsAtExactly(w, req, names, kind, occ, init, x);
      assert bookings == init + [b];
      assert IsConflictOf(w.duration, req, names, kind, occ, b, x)
          <==> Clashes(w, req, occ, b) && x == Report(names, kind, b);
    }
  }

  // ----- the report does not depend on the order of the bookings, but for which fifty it shows

  function ClashesWith(w: Window, req: Request, occ: int): Booking -> bool {
    (b: Booking) => Clashes(w, req, occ, b)
  }

  function ReportedAs(names: map<nat, string>, kind: ConflictKind): Booking -> Conflict {
    (b: Booking) => Report(names, kind, b)
  }

  lemma {:induction false} ConflictsAtMap(w: Window, req: Request, names: map<nat, string>, kind: ConflictKind,
      occ: int, bookings: seq<Booking>)
    ensures ConflictsAt(w, req, names, kind, occ, bookings)
        == Map(Filter(bookings, ClashesWith(w, req, occ)), ReportedAs(names, kind))
  {
    if bookings != [] {
      var init, b := bookings[..|bookings| - 1], bookings[|bookings| - 1];
      ConflictsAtMap(w, req, names, kind, occ, init);
      assert bookings == init + [b];
      FilterAdd(init, b, ClashesWith(w, req, occ));
    }
  }

  lemma {:induction false} ConflictsPermute(
    w: Window, req: Request, names: map<nat, string>, kind: ConflictKind, occurrences: seq<int>, s: seq<Booking>,
    t: seq<Booking>)
    requires multiset(s) == multiset(t)
    ensures multiset(AllConflicts(w, req, names, kind, occurrences, s))
        == multiset(AllConflicts(w, req, names, kind, occurrences, t))
  {
    if occurrences != [] {
      var init, occ := occurrences[..|occurrences| - 1], occurrences[|occurrences| - 1];
      ConflictsPermute(w, req, names, kind, init, s, t);
      ConflictsAtMap(w, req, names, kind, occ, s);
      ConflictsAtMap(w, req, names, kind, occ, t);
      FilterPermutes(s, t, ClashesWith(w, req, occ));
      MapPermutes(Filter(s, ClashesWith(w, req, occ)), Filter(t, ClashesWith(w, req, occ)), ReportedAs(names, kind));
    }
  }

  /** All conflicts of the occurrences with the bookings, or fifty of them when there are more. */
  ghost predicate Reports(conflicts: seq<Conflict>, w: Window, req: Request, names: map<nat, string>,
      kind: ConflictKind, bookings: seq<Booking>) {
    var all := AllConflicts(w, req, names, kind, w.occurrences, bookings);
    && multiset(conflicts) <= multiset(all)
    && |conflicts| == if |all| <= 50 then |all| else 50
  }

  lemma CappedReports(w: Window, req: Request, names: map<nat, string>, kind: ConflictKind, bookings: seq<Booking>,
      content: seq<Booking>)
    requires multiset(bookings) == multiset(content)
    ensures Reports(Capped(AllConflicts(w, req, names, kind, w.occurrences, bookings)), w, req, names, kind, content)
  {
    var all := AllConflicts(w, req, names, kind, w.occurrences, bookings);
    ConflictsPermute(w, req, names, kind, w.occurrences, bookings, content);
    assert |all| == |multiset(all)| == |multiset(AllConflicts(w, req, names, kind, w.occurrences, content))|;
    if |all| > MAX_CONFLICTS {
      assert all == all[..MAX_CONFLICTS] + all[MAX_CONFLICTS..];
    }
  }

  ghost predicate ClearAt(w: Window, req: Request, occ: int, bookings: seq<Booking>) {
    forall b | b in bookings :: !Clashes(w, req, occ, b)
  }

  /** No conflict is reported exactly when no checked occurrence clashes with a booking. */
  lemma {:induction false} NoConflictsExactly(w: Window, req: Request, names: map<nat, string>, kind: ConflictKind,
      occurrences: seq<int>, bookings: seq<Booking>)
    ensures Capped(AllConflicts(w, req, names, kind, occurrences, bookings)) == []
       <==> forall occ | occ in occurrences :: ClearAt(w, req, occ, bookings)
  {
    if occurrences != [] {
      var init, last := occurrences[..|occurrences| - 1], occurrences[|occurrences| - 1];
      NoConflictsExactly(w, req, names, kind, init, bookings);
      NoConflictsAtExactly(w, req, names, kind, last, bookings);
      assert occurrences == init + [last];
    }
  }

  lemma {:induction false} NoConflictsAtExactly(w: Window, req: Request, names: map<nat, string>, kind: ConflictKind,
      occ: int, bookings: seq<Booking>)
    ensures ConflictsAt(w, req, names, kind, occ, bookings) == [] <==> ClearAt(w, req, occ, bookings)
  {
    if bookings != [] {
      NoConflictsAtExactly(w, req, names, kind, occ, bookings[..|bookings| - 1]);
      assert bookings == bookings[..|bookings| - 1] + [bookings[|bookings| - 1]];
    }
  }
}
