// Expanding an event into the bookings of one room or one instructor, and what those bookings are:
// a partition of the sessions of the event.
module Bookings {
  import opened Prelude
  import opened Schedule

  datatype Booking = Booking(roomId: nat, start: int, end: int, eventId: nat, classId: nat, isOverride: bool)

  /** One session of an event, where it is held and by whom. */
  datatype Session = Session(start: int, end: int, room: Option<nat>, instructor: Option<nat>, isOverride: bool)

  // ----- the sessions of an event, as a reference

  /** Days on which some override, cancelled or not as told, has an occurrence. */
  function DaysOf(overrides: seq<Override>, cancelled: bool, first: int, last: int): set<int> {
    set o, t | o in overrides && o.cancelled == cancelled && t in TimesBetween(o.rule, first, last) :: Day(t)
  }

  predicate Untouched(overrides: seq<Override>, first: int, last: int, t: int) {
    Day(t) !in DaysOf(overrides, true, first, last) && Day(t) !in DaysOf(overrides, false, first, last)
  }

  function UntouchedBy(overrides: seq<Override>, first: int, last: int): int -> bool {
    t => Untouched(overrides, first, last, t)
  }

  function UntouchedTimes(event: Event, first: int, last: int): seq<int>
    requires event.rule.Some?
  {
    Filter(Between(event.rule.value, first, last), UntouchedBy(event.overrides, first, last))
  }

  function BaseSession(event: Event, t: int): Session
    requires event.duration.Some?
  {
    Session(t, t + event.duration.value, event.room, event.instructor, false)
  }

  function BaseSessionAt(event: Event): int -> Session
    requires event.duration.Some?
  {
    t => BaseSession(event, t)
  }

  function OverrideSession(event: Event, o: Override, t: int): Session
    requires event.duration.Some?
  {
    Session(t, t + OrElse(o.duration, event.duration).value, OrElse(o.room, event.room),
      OrElse(o.instructor, event.instructor), true)
  }

  function OverrideSessionAt(event: Event, o: Override): int -> Session
    requires event.duration.Some?
  {
    t => OverrideSession(event, o, t)
  }

  function OverrideSessions(event: Event, overrides: seq<Override>, first: int, last: int): seq<Session>
    requires event.duration.Some?
  {
    if overrides == [] then []
    else
      var o := overrides[|overrides| - 1];
      OverrideSessions(event, overrides[..|overrides| - 1], first, last)
      + if o.cancelled then [] else Map(TimesBetween(o.rule, first, last), OverrideSessionAt(event, o))
  }

  predicate Expandable(event: Event) {
    event.rule.Some? && event.duration.Some?
  }

  /** Each base occurrence on a day that no override touches, and each occurrence of an override that counts. */
  function Sessions(event: Event, first: int, last: int): seq<Session>
    requires Expandable(event)
  {
    Map(UntouchedTimes(event, first, last), BaseSessionAt(event))
    + OverrideSessions(event, event.overrides, first, last)
  }

  function InRoom(room: nat): Session -> bool {
    (s: Session) => s.room == Some(room)
  }

  function ByInstructor(instructor: nat): Session -> bool {
    (s: Session) => s.instructor == Some(instructor)
  }

  function HasInstructor(): Session -> bool {
    (s: Session) => s.instructor.Some?
  }

  /** A session as a booking; instructor bookings leave the room out. */
  function Book(event: Event, withRoom: bool): Session -> Booking {
    (s: Session) =>
      var roomId := if withRoom && s.room.Some? then s.room.value else 0;
      Booking(roomId, s.start, s.end, event.id, event.classId, s.isOverride)
  }

  function Kept(sessions: seq<Session>, keep: Session -> bool, book: Session -> Booking): seq<Booking> {
    Map(Filter(sessions, keep), book)
  }

  lemma KeptAppend(s: seq<Session>, t: seq<Session>, keep: Session -> bool, book: Session -> Booking)
    ensures Kept(s + t, keep, book) == Kept(s, keep, book) + Kept(t, keep, book)
  {
    FilterAppend(s, t, keep);
    MapAppend(Filter(s, keep), Filter(t, keep), book);
  }

  /** What a caller may rely on: every entry, in order of start, ties in any order. */
  ghost predicate IsInStartOrder(bookings: seq<Booking>, content: seq<Booking>) {
    multiset(bookings) == multiset(content) && SortedBy(bookings, (b: Booking) => b.start)
  }

  // ----- expansion

  method OverrideDays(overrides: seq<Override>, first: int, last: int)
    returns (cancelledDates: set<int>, rescheduledDates: map<int, Override>)
    ensures cancelledDates == DaysOf(overrides, true, first, last)
    ensures rescheduledDates.Keys == DaysOf(overrides, false, first, last)
  {
    cancelledDates, rescheduledDates := {}, map[];
    for i := 0 to |overrides|
      invariant cancelledDates == DaysOf(overrides[..i], true, first, last)
      invariant rescheduledDates.Keys == DaysOf(overrides[..i], false, first, last)
    {
      var o := overrides[i];
      var times := TimesBetween(o.rule, first, last);
      var days := set t | t in times :: Day(t);
      assert overrides[..i + 1] == overrides[..i] + [o];
      if o.cancelled {
        cancelledDates := cancelledDates + days;
      } else {
        rescheduledDates := rescheduledDates + map d | d in days :: o;
      }
    }
    assert overrides[..|overrides|] == overrides;
  }

  // The two passes of an expansion, as they grow.

  function BaseBookings(event: Event, times: seq<int>, untouched: int -> bool, keep: Session -> bool,
      book: Session -> Booking): seq<Booking>
    requires Expandable(event)
  {
    if times == [] then []
    else
      var t := times[|times| - 1];
      BaseBookings(event, times[..|times| - 1], untouched, keep, book)
      + if untouched(t) && keep(BaseSession(event, t)) then [book(BaseSession(event, t))] else []
  }

  lemma OneBaseKept(event: Event, t: int, untouched: int -> bool, keep: Session -> bool, book: Session -> Booking)
    requires Expandable(event)
    ensures Kept(Map(Filter([t], untouched), BaseSessionAt(event)), keep, book)
         == if untouched(t) && keep(BaseSession(event, t)) then [book(BaseSession(event, t))] else []
  {
    assert [t][1..] == [];
    var base := Map(Filter([t], untouched), BaseSessionAt(event));
    if untouched(t) {
      assert base == [BaseSession(event, t)] && base[1..] == [];
      assert Filter(base, keep) == if keep(base[0]) then base else [];
    }
  }

  lemma {:induction false} BaseBookingsKept(event: Event, times: seq<int>, untouched: int -> bool,
      keep: Session -> bool, book: Session -> Booking)
    requires Expandable(event)
    ensures BaseBookings(event, times, untouched, keep, book)
         == Kept(Map(Filter(times, untouched), BaseSessionAt(event)), keep, book)
  {
    if times != [] {
      var init, t := times[..|times| - 1], times[|times| - 1];
      var before, last := Filter(init, untouched), Filter([t], untouched);
      BaseBookingsKept(event, init, untouched, keep, book);
      assert times == init + [t];
      FilterAppend(init, [t], untouched);
      MapAppend(before, last, BaseSessionAt(event));
      KeptAppend(Map(before, BaseSessionAt(event)), Map(last, BaseSessionAt(event)), keep, book);
      OneBaseKept(event, t, untouched, keep, book);
    }
  }

  function OverrideBookings(event: Event, overrides: seq<Override>, first: int, last: int, keep: Session -> bool,
      book: Session -> Booking): seq<Booking>
    requires Expandable(event)
  {
    if overrides == [] then []
    else
      var o := overrides[|overrides| - 1];
      OverrideBookings(event, overrides[..|overrides| - 1], first, last, keep, book)
      + if o.cancelled then []
        else Kept(Map(TimesBetween(o.rule, first, last), OverrideSessionAt(event, o)), keep, book)
  }

  lemma {:induction false} OverrideBookingsKept(event: Event, overrides: seq<Override>, first: int, last: int,
      keep: Session -> bool, book: Session -> Booking)
    requires Expandable(event)
    ensures OverrideBookings(event, overrides, first, last, keep, book)
         == Kept(OverrideSessions(event, overrides, first, last), keep, book)
  {
    if overrides != [] {
      var init, o := overrides[..|overrides| - 1], overrides[|overrides| - 1];
      OverrideBookingsKept(event, init, first, last, keep, book);
      var added := if o.cancelled then [] else Map(TimesBetween(o.rule, first, last), OverrideSessionAt(event, o));
      KeptAppend(OverrideSessions(event, init, first, last), added, keep, book);
    }
  }

  lemma KeptSessions(event: Event, first: int, last: int, keep: Session -> bool, book: Session -> Booking)
    requires Expandable(event)
    ensures Kept(Sessions(event, first, last), keep, book)
         == BaseBookings(event, Between(event.rule.value, first, last), UntouchedBy(event.overrides, first, last),
           keep, book)
            + OverrideBookings(event, event.overrides, first, last, keep, book)
  {
    BaseBookingsKept(event, Between(event.rule.value, first, last), UntouchedBy(event.overrides, first, last), keep,
      book);
    OverrideBookingsKept(event, event.overrides, first, last, keep, book);
    KeptAppend(Map(UntouchedTimes(event, first, last), BaseSessionAt(event)),
               OverrideSessions(event, event.overrides, first, last), keep, book);
  }

  /** All sessions of one override are in the same room and by the same instructor. */
  lemma OneOverrideKept(event: Event, o: Override, times: seq<int>, keep: Session -> bool, book: Session -> Booking,
      kept: bool)
    requires Expandable(event)
    requires forall t :: keep(OverrideSession(event, o, t)) == kept
    ensures Kept(Map(times, OverrideSessionAt(event, o)), keep, book)
         == if kept then Map(Map(times, OverrideSessionAt(event, o)), book) else []
  {
    if kept {
      FilterKeepsAll(Map(times, OverrideSessionAt(event, o)), keep);
    } else {
      FilterNone(Map(times, OverrideSessionAt(event, o)), keep);
    }
  }

  /** The bookings of one override: its occurrences in range, with its own duration when it has one. */
  method OneOverride(event: Event, o: Override, rangeStart: int, rangeEnd: int, roomId: nat,
      ghost book: Session -> Booking)
    returns (bookings: seq<Booking>)
    requires Expandable(event)
    requires forall t :: book(OverrideSession(event, o, t)).roomId == roomId
    requires forall s :: book(s) == Booking(book(s).roomId, s.start, s.end, event.id, event.classId, s.isOverride)
    ensures bookings == Map(Map(TimesBetween(o.rule, rangeStart, rangeEnd), OverrideSessionAt(event, o)), book)
  {
    bookings := [];
    var overrideDuration := if o.duration.Some? then o.duration.value else event.duration.value;
    var times := TimesBetween(o.rule, rangeStart, rangeEnd);
    for j := 0 to |times|
      invariant bookings == Map(Map(times, OverrideSessionAt(event, o)), book)[..j]
    {
      bookings := bookings + [Booking(roomId, times[j], times[j] + overrideDuration, event.id, event.classId, true)];
    }
  }

  method OverrideInRoom(event: Event, o: Override, rangeStart: int, rangeEnd: int, targetRoom: nat)
      returns (bookings: seq<Booking>)
    requires Expandable(event) && !o.cancelled
    ensures bookings
        == Kept(Map(TimesBetween(o.rule, rangeStart, rangeEnd), OverrideSessionAt(event, o)), InRoom(targetRoom),
          Book(event, true))
  {
    var overrideRoom := if o.room.Some? then o.room else event.room;
    OneOverrideKept(event, o, TimesBetween(o.rule, rangeStart, rangeEnd), InRoom(targetRoom), Book(event, true),
      overrideRoom == Some(targetRoom));
    if overrideRoom != Some(targetRoom) {
      return [];
    }
    bookings := OneOverride(event, o, rangeStart, rangeEnd, targetRoom, Book(event, true));
  }

  method OverrideByInstructor(event: Event, o: Override, rangeStart: int, rangeEnd: int, targetInstructor: nat)
      returns (bookings: seq<Booking>)
    requires Expandable(event) && !o.cancelled
    ensures bookings
        == Kept(Map(TimesBetween(o.rule, rangeStart, rangeEnd), OverrideSessionAt(event, o)),
          ByInstructor(targetInstructor), Book(event, false))
  {
    var effectiveInstructor := if o.instructor.Some? then o.instructor else event.instructor;
    OneOverrideKept(event, o, TimesBetween(o.rule, rangeStart, rangeEnd), ByInstructor(targetInstructor),
      Book(event, false),
                    effectiveInstructor == Some(targetInstructor));
    if effectiveInstructor != Some(targetInstructor) {
      return [];
    }
    bookings := OneOverride(event, o, rangeStart, rangeEnd, 0, Book(event, false));
  }

  method ExpandEventToBookings(event: Event, rangeStart: int, rangeEnd: int, targetRoom: nat)
    returns (result: Result<seq<Booking>>)
    ensures event.room.None? ==> result == Ok([])
    ensures event.room.Some? ==> (result.Ok? <==> Expandable(event))
    ensures event.room.Some? && Expandable(event) ==>
              IsInStartOrder(result.value,
                Kept(Sessions(event, rangeStart, rangeEnd), InRoom(targetRoom), Book(event, true)))
  {
    if event.room.None? {
      return Ok([]);
    }
    if event.rule.None? || event.duration.None? {
      return Err;
    }
    var bookings := OccurrencesInRoom(event, rangeStart, rangeEnd, targetRoom);
    var moved := OverridesInRoom(event, rangeStart, rangeEnd, targetRoom);
    KeptSessions(event, rangeStart, rangeEnd, InRoom(targetRoom), Book(event, true));
    result := Ok(SortBy(bookings + moved, (b: Booking) => b.start));
  }

  /** The loop over the occurrences of the event's own rule, for a room. */
  method OccurrencesInRoom(event: Event, rangeStart: int, rangeEnd: int, targetRoom: nat)
      returns (bookings: seq<Booking>)
    requires Expandable(event) && event.room.Some?
    ensures bookings == BaseBookings(event, Between(event.rule.value, rangeStart, rangeEnd),
                                     UntouchedBy(event.overrides, rangeStart, rangeEnd), InRoom(targetRoom),
                                       Book(event, true))
  {
    ghost var untouched := UntouchedBy(event.overrides, rangeStart, rangeEnd);
    bookings := [];
    var cancelledDates, rescheduledDates := OverrideDays(event.overrides, rangeStart, rangeEnd);
    var occurrences := Between(event.rule.value, rangeStart, rangeEnd);
    for i := 0 to |occurrences|
      invariant bookings == BaseBookings(event, occurrences[..i], untouched, InRoom(targetRoom), Book(event, true))
    {
      var occ := occurrences[i];
      assert occurrences[..i + 1][..i] == occurrences[..i];
      assert untouched(occ) == (Day(occ) !in cancelledDates && Day(occ) !in rescheduledDates);
      if Day(occ) in cancelledDates || Day(occ) in rescheduledDates || event.room.value != targetRoom {
        continue;
      }
      bookings := bookings
        + [Booking(event.room.value, occ, occ + event.duration.value, event.id, event.classId, false)];
    }
    assert occurrences[..|occurrences|] == occurrences;
  }

  method OverridesInRoom(event: Event, rangeStart: int, rangeEnd: int, targetRoom: nat) returns (bookings: seq<Booking>)
    requires Expandable(event)
    ensures bookings
        == OverrideBookings(event, event.overrides, rangeStart, rangeEnd, InRoom(targetRoom), Book(event, true))
  {
    bookings := [];
    for i := 0 to |event.overrides|
      invariant bookings
          == OverrideBookings(event, event.overrides[..i], rangeStart, rangeEnd, InRoom(targetRoom), Book(event, true))
    {
      assert event.overrides[..i + 1][..i] == event.overrides[..i];
      if !event.overrides[i].cancelled {
        var added := OverrideInRoom(event, event.overrides[i], rangeStart, rangeEnd, targetRoom);
        bookings := bookings + added;
      }
    }
    assert event.overrides[..|event.overrides|] == event.overrides;
  }

  method ExpandEventToInstructorBookings(event: Event, rangeStart: int, rangeEnd: int, targetInstructor: nat)
    returns (result: Result<seq<Booking>>)
    ensures result.Ok? <==> Expandable(event)
    ensures Expandable(event) ==>
              IsInStartOrder(result.value,
                Kept(Sessions(event, rangeStart, rangeEnd), ByInstructor(targetInstructor), Book(event, false)))
  {
    if event.rule.None? || event.duration.None? {
      return Err;
    }
    ghost var untouched := UntouchedBy(event.overrides, rangeStart, rangeEnd);
    ghost var keep, book := ByInstructor(targetInstructor), Book(event, false);
    var bookings: seq<Booking> := [];
    var cancelledDates, rescheduledDates := OverrideDays(event.overrides, rangeStart, rangeEnd);
    var occurrences := Between(event.rule.value, rangeStart, rangeEnd);
    if event.instructor == Some(targetInstructor) {
      for i := 0 to |occurrences|
        invariant bookings == BaseBookings(event, occurrences[..i], untouched, keep, book)
      {
        var occ := occurrences[i];
        assert occurrences[..i + 1][..i] == occurrences[..i];
        if Day(occ) in cancelledDates || Day(occ) in rescheduledDates {
          continue;
        }
        bookings := bookings + [Booking(0, occ, occ + event.duration.value, event.id, event.classId, false)];
      }
      assert occurrences[..|occurrences|] == occurrences;
    } else {
      OthersBaseBookings(event, occurrences, untouched, targetInstructor);
    }
    var moved := OverridesByInstructor(event, rangeStart, rangeEnd, targetInstructor);
    KeptSessions(event, rangeStart, rangeEnd, keep, book);
    result := Ok(SortBy(bookings + moved, (b: Booking) => b.start));
  }

  lemma OthersBaseBookings(event: Event, times: seq<int>, untouched: int -> bool, instructor: nat)
    requires Expandable(event) && event.instructor != Some(instructor)
    ensures BaseBookings(event, times, untouched, ByInstructor(instructor), Book(event, false)) == []
  {
  }

  method OverridesByInstructor(event: Event, rangeStart: int, rangeEnd: int, targetInstructor: nat)
      returns (bookings: seq<Booking>)
    requires Expandable(event)
    ensures bookings
        == OverrideBookings(event, event.overrides, rangeStart, rangeEnd, ByInstructor(targetInstructor),
          Book(event, false))
  {
    bookings := [];
    for i := 0 to |event.overrides|
      invariant bookings
          == OverrideBookings(event, event.overrides[..i], rangeStart, rangeEnd, ByInstructor(targetInstructor),
            Book(event, false))
    {
      assert event.overrides[..i + 1][..i] == event.overrides[..i];
      if !event.overrides[i].cancelled {
        var added := OverrideByInstructor(event, event.overrides[i], rangeStart, rangeEnd, targetInstructor);
        bookings := bookings + added;
      }
    }
    assert event.overrides[..|event.overrides|] == event.overrides;
  }

  // ----- the bookings of all rooms partition the sessions

  /** The sessions booked in each of several rooms, or for each of several instructors, room by room. */
  function SessionsOf(sessions: seq<Session>, keep: nat -> Session -> bool, targets: seq<nat>): seq<Session> {
    if targets == [] then []
    else Filter(sessions, keep(targets[0])) + SessionsOf(sessions, keep, targets[1..])
  }

  function AnyOf(keep: nat -> Session -> bool, targets: seq<nat>): Session -> bool {
    (s: Session) => exists i | 0 <= i < |targets| :: keep(targets[i])(s)
  }

  ghost predicate OneTargetEach(keep: nat -> Session -> bool) {
    forall a, b, s | keep(a)(s) && keep(b)(s) :: a == b
  }

  lemma {:induction false} SessionsOfPartition(sessions: seq<Session>, keep: nat -> Session -> bool, targets: seq<nat>)
    requires Distinct(targets) && OneTargetEach(keep)
    ensures multiset(SessionsOf(sessions, keep, targets)) == multiset(Filter(sessions, AnyOf(keep, targets)))
  {
    if targets == [] {
      FilterNone(sessions, AnyOf(keep, targets));
    } else {
      SessionsOfPartition(sessions, keep, targets[1..]);
      var head, tail, all := keep(targets[0]), AnyOf(keep, targets[1..]), AnyOf(keep, targets);
      forall s | s in sessions
        ensures (all(s) <==> head(s) || tail(s)) && !(head(s) && tail(s))
      {
        if all(s) && !head(s) {
          var i :| 0 <= i < |targets| && keep(targets[i])(s);
          assert targets[i] == targets[1..][i - 1];
        }
        if tail(s) {
          var i :| 0 <= i < |targets[1..]| && keep(targets[1..][i])(s);
          assert targets[1..][i] == targets[i + 1];
        }
      }
      FilterUnion(sessions, head, tail, all);
    }
  }

  /** Expansions for several rooms, or several instructors, taken together. */
  lemma {:induction false} ExpansionsTogether(
    sessions: seq<Session>, keep: nat -> Session -> bool, book: Session -> Booking, targets: seq<nat>,
    results: seq<seq<Booking>>)
    requires |results| == |targets|
    requires forall k | 0 <= k < |targets| :: IsInStartOrder(results[k], Kept(sessions, keep(targets[k]), book))
    ensures multiset(Concat(results)) == multiset(Map(SessionsOf(sessions, keep, targets), book))
  {
    if targets != [] {
      var head, tail := Filter(sessions, keep(targets[0])), SessionsOf(sessions, keep, targets[1..]);
      ExpansionsTogether(sessions, keep, book, targets[1..], results[1..]);
      assert IsInStartOrder(results[0], Kept(sessions, keep(targets[0]), book));
      MapAppend(head, tail, book);
    }
  }

  /** Expanded for any rooms that include every effective room, an event with a room has each of its
      sessions booked exactly once over all of them, and each booking is in the room it is held in. */
  lemma RoomBookingsPartition(event: Event, first: int, last: int, rooms: seq<nat>, results: seq<seq<Booking>>)
    requires Expandable(event) && event.room.Some? && Distinct(rooms) && |results| == |rooms|
    requires forall s | s in Sessions(event, first, last) :: s.room.Some? ==> s.room.value in rooms
    requires forall k | 0 <= k < |rooms| ::
               IsInStartOrder(results[k], Kept(Sessions(event, first, last), InRoom(rooms[k]), Book(event, true)))
    ensures multiset(Concat(results)) == multiset(Map(Sessions(event, first, last), Book(event, true)))
    ensures forall k, b | 0 <= k < |rooms| && b in results[k] :: b.roomId == rooms[k]
  {
    var sessions, book := Sessions(event, first, last), Book(event, true);
    SessionsOfPartition(sessions, InRoom, rooms);
    OverrideSessionsHaveRoom(event, event.overrides, first, last);
    FilterKeepsAll(sessions, AnyOf(InRoom, rooms));
    ExpansionsTogether(sessions, InRoom, book, rooms, results);
    MapPermutes(SessionsOf(sessions, InRoom, rooms), sessions, book);
    forall k, b | 0 <= k < |rooms| && b in results[k]
      ensures b.roomId == rooms[k]
    {
      assert IsInStartOrder(results[k], Kept(sessions, InRoom(rooms[k]), book));
      BookingIsKept(sessions, InRoom(rooms[k]), book, results[k], b);
    }
  }

  lemma BookingIsKept(sessions: seq<Session>, keep: Session -> bool, book: Session -> Booking,
      bookings: seq<Booking>, b: Booking)
    requires multiset(bookings) == multiset(Kept(sessions, keep, book)) && b in bookings
    ensures exists s :: s in sessions && keep(s) && b == book(s)
  {
    assert b in multiset(Kept(sessions, keep, book));
    var kept := Filter(sessions, keep);
    var i :| 0 <= i < |kept| && Map(kept, book)[i] == b;
    assert kept[i] in kept;
  }

  lemma OverrideSessionsHaveRoom(event: Event, overrides: seq<Override>, first: int, last: int)
    requires Expandable(event) && event.room.Some?
    ensures forall s | s in OverrideSessions(event, overrides, first, last) :: s.room.Some?
  {
  }

  /** The same for the sessions that have an instructor. */
  lemma InstructorBookingsPartition(event: Event, first: int, last: int, instructors: seq<nat>,
      results: seq<seq<Booking>>)
    requires Expandable(event) && Distinct(instructors) && |results| == |instructors|
    requires forall s | s in Sessions(event, first, last) :: s.instructor.Some? ==> s.instructor.value in instructors
    requires forall k | 0 <= k < |instructors| ::
               IsInStartOrder(results[k],
                 Kept(Sessions(event, first, last), ByInstructor(instructors[k]), Book(event, false)))
    ensures multiset(Concat(results))
        == multiset(Map(Filter(Sessions(event, first, last), HasInstructor()), Book(event, false)))
    ensures forall k, b | 0 <= k < |instructors| && b in results[k] ::
              exists s :: s in Sessions(event, first, last) && s.instructor == Some(instructors[k])
                && b == Book(event, false)(s)
  {
    var sessions, book := Sessions(event, first, last), Book(event, false);
    SessionsOfPartition(sessions, ByInstructor, instructors);
    FilterAgrees(sessions, AnyOf(ByInstructor, instructors), HasInstructor());
    ExpansionsTogether(sessions, ByInstructor, book, instructors, results);
    MapPermutes(SessionsOf(sessions, ByInstructor, instructors), Filter(sessions, HasInstructor()), book);
    forall k, b | 0 <= k < |instructors| && b in results[k]
      ensures exists s :: s in sessions && s.instructor == Some(instructors[k]) && b == book(s)
    {
      assert IsInStartOrder(results[k], Kept(sessions, ByInstructor(instructors[k]), book));
      BookingIsKept(sessions, ByInstructor(instructors[k]), book, results[k], b);
    }
  }

  lemma IncreasingFilter(s: seq<int>, keep: int -> bool)
    requires Increasing(s)
    ensures Increasing(Filter(s, keep))
  {
    if s != [] {
      assert Increasing(s[1..]);
      IncreasingFilter(s[1..], keep);
      assert forall t | t in Filter(s[1..], keep) :: t in s[1..] && s[0] < t;
      assert forall i | 0 <= i < |Filter(s[1..], keep)| :: Filter(s[1..], keep)[i] in Filter(s[1..], keep);
    }
  }

  lemma {:induction false} UntouchedCounts(event: Event, first: int, last: int, t: int)
    requires Expandable(event)
    ensures multiset(UntouchedTimes(event, first, last))[t]
         == if Occurs(event.rule.value, t) && first <= t <= last && !TouchedOn(event.overrides, first, last, Day(t))
           then 1 else 0
  {
    IncreasingFilter(Between(event.rule.value, first, last), UntouchedBy(event.overrides, first, last));
    IncreasingCounts(UntouchedTimes(event, first, last), t);
    forall o, u | o in event.overrides && u in TimesBetween(o.rule, first, last)
      ensures Day(u) in DaysOf(event.overrides, o.cancelled, first, last)
    {
    }
  }

  /** Some override of either kind has a time in the range on the day. */
  ghost predicate TouchedOn(overrides: seq<Override>, first: int, last: int, day: int) {
    exists o, u :: o in overrides && u in Times(o.rule) && first <= u <= last && Day(u) == day
  }

  lemma {:induction false} BaseCounts(event: Event, times: seq<int>, t: int)
    requires Expandable(event)
    ensures multiset(Map(times, BaseSessionAt(event)))[Session(t, t + event.duration.value, event.room,
        event.instructor, false)]
         == multiset(times)[t]
  {
    if times != [] {
      BaseCounts(event, times[1..], t);
      MapHead(times, BaseSessionAt(event));
      assert times == [times[0]] + times[1..];
    }
  }

  lemma {:induction false} OverrideSessionsAreMarked(event: Event, overrides: seq<Override>, first: int, last: int)
    requires Expandable(event)
    ensures forall s | s in OverrideSessions(event, overrides, first, last) :: s.isOverride
  {
    if overrides != [] {
      OverrideSessionsAreMarked(event, overrides[..|overrides| - 1], first, last);
    }
  }

  /** The base sessions, time by time: an occurrence in the range is a session once, of the event's length,
      room and instructor, unless an override of either kind has a time in the range on its day. */
  lemma BaseSessionsExactlyOnce(event: Event, first: int, last: int, t: int)
    requires Expandable(event)
    ensures multiset(Sessions(event, first, last))[Session(t, t + event.duration.value, event.room, event.instructor,
        false)]
         == if Occurs(event.rule.value, t) && first <= t <= last && !TouchedOn(event.overrides, first, last, Day(t))
           then 1 else 0
  {
    UntouchedCounts(event, first, last, t);
    BaseCounts(event, UntouchedTimes(event, first, last), t);
    OverrideSessionsAreMarked(event, event.overrides, first, last);
  }

  /** The sessions that are not of an override are these. */
  lemma BaseSessionMembers(event: Event, first: int, last: int, s: Session)
    requires Expandable(event) && s in Sessions(event, first, last) && !s.isOverride
    ensures s == Session(s.start, s.start + event.duration.value, event.room, event.instructor, false)
  {
    OverrideSessionsAreMarked(event, event.overrides, first, last);
    var times := UntouchedTimes(event, first, last);
    var k :| 0 <= k < |times| && Map(times, BaseSessionAt(event))[k] == s;
  }

  /** A session of an override: its own length, room and instructor where it has them, the event's where
      it has not. */
  predicate IsSessionOf(event: Event, o: Override, first: int, last: int, s: Session)
    requires Expandable(event)
  {
    && s.isOverride && s.start in Times(o.rule) && first <= s.start <= last
    && s.end == s.start + (if o.duration.Some? then o.duration.value else event.duration.value)
    && s.room == (if o.room.Some? then o.room else event.room)
    && s.instructor == (if o.instructor.Some? then o.instructor else event.instructor)
  }

  lemma OneOverrideMembers(event: Event, o: Override, first: int, last: int, s: Session)
    requires Expandable(event)
    ensures s in Map(TimesBetween(o.rule, first, last), OverrideSessionAt(event, o))
        <==> IsSessionOf(event, o, first, last, s)
  {
    var times := TimesBetween(o.rule, first, last);
    var sessions := Map(times, OverrideSessionAt(event, o));
    if IsSessionOf(event, o, first, last, s) {
      var k :| 0 <= k < |times| && times[k] == s.start;
      assert sessions[k] == OverrideSession(event, o, s.start) == s;
    }
    if s in sessions {
      var k :| 0 <= k < |sessions| && sessions[k] == s;
      assert s == OverrideSession(event, o, times[k]) && times[k] in times;
    }
  }

  /** The override sessions are those of the overrides that count; a cancelled one gives none. */
  lemma {:induction false} OverrideSessionMembers(event: Event, overrides: seq<Override>, first: int, last: int,
      s: Session)
    requires Expandable(event)
    ensures s in OverrideSessions(event, overrides, first, last)
       <==> exists o :: o in overrides && !o.cancelled && IsSessionOf(event, o, first, last, s)
  {
    if overrides != [] {
      var init, o := overrides[..|overrides| - 1], overrides[|overrides| - 1];
      OverrideSessionMembers(event, init, first, last, s);
      OneOverrideMembers(event, o, first, last, s);
      assert overrides == init + [o];
    }
  }

  /** How often a session is one of an override that counts: once for each override and time it fits. */
  ghost function FitCount(event: Event, overrides: seq<Override>, first: int, last: int, s: Session): nat
    requires Expandable(event)
  {
    if overrides == [] then 0
    else
      var o := overrides[|overrides| - 1];
      FitCount(event, overrides[..|overrides| - 1], first, last, s)
      + if !o.cancelled && IsSessionOf(event, o, first, last, s) then multiset(Times(o.rule))[s.start] else 0
  }

  lemma {:induction false} OneOverrideCounts(event: Event, o: Override, times: seq<int>, s: Session)
    requires Expandable(event)
    ensures multiset(Map(times, OverrideSessionAt(event, o)))[s]
         == if s == OverrideSession(event, o, s.start) then multiset(times)[s.start] else 0
  {
    if times != [] {
      OneOverrideCounts(event, o, times[1..], s);
      MapHead(times, OverrideSessionAt(event, o));
      assert times == [times[0]] + times[1..];
    }
  }

  lemma {:induction false} FitCounts(event: Event, overrides: seq<Override>, first: int, last: int, s: Session)
    requires Expandable(event)
    ensures multiset(OverrideSessions(event, overrides, first, last))[s] == FitCount(event, overrides, first, last, s)
  {
    if overrides != [] {
      var init, o := overrides[..|overrides| - 1], overrides[|overrides| - 1];
      FitCounts(event, init, first, last, s);
      OneFits(event, o, first, last, s);
    }
  }

  lemma OneFits(event: Event, o: Override, first: int, last: int, s: Session)
    requires Expandable(event)
    ensures multiset(Map(TimesBetween(o.rule, first, last), OverrideSessionAt(event, o)))[s]
         == if IsSessionOf(event, o, first, last, s) then multiset(Times(o.rule))[s.start] else 0
  {
    OneOverrideCounts(event, o, TimesBetween(o.rule, first, last), s);
    FilterCounts(Times(o.rule), InRange(first, last), s.start);
    if s.start !in Times(o.rule) {
      assert multiset(Times(o.rule))[s.start] == 0;
    }
  }

  /** Each time of an override that counts is a session once. */
  lemma OverrideSessionsExactlyOnce(event: Event, first: int, last: int, s: Session)
    requires Expandable(event) && s.isOverride
    ensures multiset(Sessions(event, first, last))[s] == FitCount(event, event.overrides, first, last, s)
  {
    FitCounts(event, event.overrides, first, last, s);
    var base := Map(UntouchedTimes(event, first, last), BaseSessionAt(event));
    assert forall b | b in base :: !b.isOverride;
    assert s !in base;
  }
}
