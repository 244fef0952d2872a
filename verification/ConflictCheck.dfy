// The conflict check of a request against the classes stored so far: room first, then instructor.
module ConflictCheck {
  import opened Prelude
  import opened Schedule
  import opened Bookings
  import opened Conflicts

  // ----- which events the two queries select

  predicate MentionsRoom(event: Event, room: nat) {
    event.room == Some(room) || exists o | o in event.overrides :: o.room == Some(room)
  }

  predicate MentionsInstructor(event: Event, instructor: nat) {
    event.instructor == Some(instructor) || exists o | o in event.overrides :: o.instructor == Some(instructor)
  }

  predicate RoomSelects(c: Class, req: Request) {
    c.facilityId == req.facilityId && MentionsRoom(c.event, req.roomId)
  }

  predicate InstructorSelects(c: Class, req: Request) {
    c.facilityId == req.facilityId && MentionsInstructor(c.event, req.instructorId)
  }

  // ----- what the answer is made of

  /** Nothing selected fails to expand; an event without a room is not expanded for rooms. */
  predicate RoomReadable(classes: seq<Class>, req: Request) {
    forall c | c in classes && RoomSelects(c, req) && c.event.room.Some? :: Expandable(c.event)
  }

  predicate InstructorReadable(classes: seq<Class>, req: Request) {
    forall c | c in classes && InstructorSelects(c, req) :: Expandable(c.event)
  }

  /** The sessions of one event in the requested room, as bookings. */
  function RoomPart(c: Class, w: Window, req: Request): seq<Booking> {
    if RoomSelects(c, req) && c.event.room.Some? && Expandable(c.event)
    then Kept(Sessions(c.event, w.rangeStart, w.rangeEnd), InRoom(req.roomId), Book(c.event, true)) else []
  }

  function InstructorPart(c: Class, w: Window, req: Request): seq<Booking> {
    if InstructorSelects(c, req) && Expandable(c.event)
    then Kept(Sessions(c.event, w.rangeStart, w.rangeEnd), ByInstructor(req.instructorId), Book(c.event, false)) else []
  }

  function RoomContent(classes: seq<Class>, w: Window, req: Request): seq<Booking> {
    if classes == [] then []
        else RoomContent(classes[..|classes| - 1], w, req) + RoomPart(classes[|classes| - 1], w, req)
  }

  function InstructorContent(classes: seq<Class>, w: Window, req: Request): seq<Booking> {
    if classes == [] then []
        else InstructorContent(classes[..|classes| - 1], w, req) + InstructorPart(classes[|classes| - 1], w, req)
  }

  // ----- what an empty answer means

  ghost predicate ClearOf(event: Event, w: Window, req: Request, keep: Session -> bool) {
    && Expandable(event)
    && forall occ, s | occ in w.occurrences && s in Sessions(event, w.rangeStart, w.rangeEnd) && keep(s) ::
         !Clashes(w, req, occ, Book(event, true)(s))
  }

  ghost predicate RoomClearOf(c: Class, w: Window, req: Request) {
    RoomSelects(c, req) && c.event.room.Some? ==>
      ClearOf(c.event, w, req, InRoom(req.roomId))
  }

  ghost predicate InstructorClearOf(c: Class, w: Window, req: Request) {
    InstructorSelects(c, req) ==>
      ClearOf(c.event, w, req, ByInstructor(req.instructorId))
  }

  ghost predicate RoomClear(classes: seq<Class>, w: Window, req: Request) {
    req.roomId != 0 ==> forall c | c in classes :: RoomClearOf(c, w, req)
  }

  ghost predicate InstructorClear(classes: seq<Class>, w: Window, req: Request) {
    req.instructorId != 0 ==> forall c | c in classes :: InstructorClearOf(c, w, req)
  }

  // ----- the check

  /** Bookings in some order, all in the sessions kept and the other way round. */
  lemma ClearOfBookings(event: Event, w: Window, req: Request, keep: Session -> bool, withRoom: bool,
      bookings: seq<Booking>)
    requires Expandable(event)
    requires multiset(bookings)
        == multiset(Kept(Sessions(event, w.rangeStart, w.rangeEnd), keep, Book(event, withRoom)))
    ensures ClearOf(event, w, req, keep) <==> NoClash(w, req, bookings)
  {
    var sessions := Sessions(event, w.rangeStart, w.rangeEnd);
    var content := Kept(sessions, keep, Book(event, withRoom));
    forall b
      ensures b in bookings <==> b in content
    {
      assert b in multiset(bookings) <==> b in multiset(content);
    }
    forall s, occ
      ensures Clashes(w, req, occ, Book(event, true)(s)) <==> Clashes(w, req, occ, Book(event, withRoom)(s))
    {
    }
    var kept := Filter(sessions, keep);
    forall s | s in sessions && keep(s)
      ensures Book(event, withRoom)(s) in content
    {
      var i :| 0 <= i < |kept| && kept[i] == s;
      assert content[i] == Book(event, withRoom)(s);
    }
    forall b | b in content
      ensures exists s :: s in sessions && keep(s) && b == Book(event, withRoom)(s)
    {
      var i :| 0 <= i < |content| && content[i] == b;
      assert kept[i] in kept && content[i] == Book(event, withRoom)(kept[i]);
    }
  }

  ghost predicate NoClash(w: Window, req: Request, bookings: seq<Booking>) {
    forall occ | occ in w.occurrences :: ClearAt(w, req, occ, bookings)
  }

  lemma NoClashAppend(w: Window, req: Request, s: seq<Booking>, t: seq<Booking>)
    ensures NoClash(w, req, s + t) <==> NoClash(w, req, s) && NoClash(w, req, t)
  {
    if NoClash(w, req, s + t) {
      assert forall b | b in s :: b in s + t;
      assert forall b | b in t :: b in s + t;
    }
  }

  lemma NoClashPermutes(w: Window, req: Request, s: seq<Booking>, t: seq<Booking>)
    requires multiset(s) == multiset(t)
    ensures NoClash(w, req, s) <==> NoClash(w, req, t)
  {
    assert forall b :: b in s <==> b in multiset(s);
    assert forall b :: b in t <==> b in multiset(t);
  }

  /** Nothing of one class stands in the way exactly when it is readable and its bookings do not clash. */
  lemma RoomPartClear(c: Class, w: Window, req: Request)
    ensures RoomClearOf(c, w, req)
        <==> (RoomSelects(c, req) && c.event.room.Some? ==> Expandable(c.event)) && NoClash(w, req, RoomPart(c, w, req))
  {
    if RoomSelects(c, req) && c.event.room.Some? && Expandable(c.event) {
      ClearOfBookings(c.event, w, req, InRoom(req.roomId), true, RoomPart(c, w, req));
    }
  }

  lemma RoomClearNext(classes: seq<Class>, c: Class, w: Window, req: Request)
    ensures (forall x | x in classes + [c] :: RoomClearOf(x, w, req))
        <==> (forall x | x in classes :: RoomClearOf(x, w, req)) && RoomClearOf(c, w, req)
    ensures RoomReadable(classes + [c], req)
        <==> RoomReadable(classes, req) && (RoomSelects(c, req) && c.event.room.Some? ==> Expandable(c.event))
  {
  }

  lemma RoomContentNext(classes: seq<Class>, c: Class, w: Window, req: Request)
    ensures NoClash(w, req, RoomContent(classes + [c], w, req))
        <==> NoClash(w, req, RoomContent(classes, w, req)) && NoClash(w, req, RoomPart(c, w, req))
  {
    assert (classes + [c])[..|classes|] == classes;
    NoClashAppend(w, req, RoomContent(classes, w, req), RoomPart(c, w, req));
  }

  lemma {:induction false} RoomContentClear(classes: seq<Class>, w: Window, req: Request)
    ensures RoomReadable(classes, req) && NoClash(w, req, RoomContent(classes, w, req))
        <==> forall c | c in classes :: RoomClearOf(c, w, req)
  {
    if classes != [] {
      var init, c := classes[..|classes| - 1], classes[|classes| - 1];
      assert classes == init + [c];
      RoomContentClear(init, w, req);
      RoomPartClear(c, w, req);
      RoomContentNext(init, c, w, req);
      RoomClearNext(init, c, w, req);
    }
  }

  method RoomBookingsOf(c: Class, w: Window, req: Request) returns (result: Result<seq<Booking>>)
    ensures result.Ok? <==> (RoomSelects(c, req) && c.event.room.Some? ==> Expandable(c.event))
    ensures result.Ok? ==> multiset(result.value) == multiset(RoomPart(c, w, req))
  {
    if c.facilityId != req.facilityId || !MentionsRoom(c.event, req.roomId) {
      return Ok([]);
    }
    result := ExpandEventToBookings(c.event, w.rangeStart, w.rangeEnd, req.roomId);
  }

  method RoomBookingsInRange(classes: seq<Class>, w: Window, req: Request) returns (result: Result<seq<Booking>>)
    ensures result.Ok? <==> RoomReadable(classes, req)
    ensures result.Ok? ==> multiset(result.value) == multiset(RoomContent(classes, w, req))
  {
    var bookings: seq<Booking> := [];
    for i := 0 to |classes|
      invariant RoomReadable(classes[..i], req)
      invariant multiset(bookings) == multiset(RoomContent(classes[..i], w, req))
    {
      assert classes[..i + 1] == classes[..i] + [classes[i]] && classes[..i + 1][..i] == classes[..i];
      RoomClearNext(classes[..i], classes[i], w, req);
      var expanded := RoomBookingsOf(classes[i], w, req);
      if expanded.Err? {
        assert classes[i] in classes;
        return Err;
      }
      bookings := bookings + expanded.value;
    }
    assert classes[..|classes|] == classes;
    result := Ok(bookings);
  }

  /** Nothing of one class stands in the way exactly when it is readable and its bookings do not clash. */
  lemma InstructorPartClear(c: Class, w: Window, req: Request)
    ensures InstructorClearOf(c, w, req)
        <==> (InstructorSelects(c, req) ==> Expandable(c.event)) && NoClash(w, req, InstructorPart(c, w, req))
  {
    if InstructorSelects(c, req) && Expandable(c.event) {
      ClearOfBookings(c.event, w, req, ByInstructor(req.instructorId), false, InstructorPart(c, w, req));
    }
  }

  lemma InstructorClearNext(classes: seq<Class>, c: Class, w: Window, req: Request)
    ensures (forall x | x in classes + [c] :: InstructorClearOf(x, w, req))
        <==> (forall x | x in classes :: InstructorClearOf(x, w, req)) && InstructorClearOf(c, w, req)
    ensures InstructorReadable(classes + [c], req)
        <==> InstructorReadable(classes, req) && (InstructorSelects(c, req) ==> Expandable(c.event))
  {
  }

  lemma InstructorContentNext(classes: seq<Class>, c: Class, w: Window, req: Request)
    ensures NoClash(w, req, InstructorContent(classes + [c], w, req))
        <==> NoClash(w, req, InstructorContent(classes, w, req)) && NoClash(w, req, InstructorPart(c, w, req))
  {
    assert (classes + [c])[..|classes|] == classes;
    NoClashAppend(w, req, InstructorContent(classes, w, req), InstructorPart(c, w, req));
  }

  lemma {:induction false} InstructorContentClear(classes: seq<Class>, w: Window, req: Request)
    ensures InstructorReadable(classes, req) && NoClash(w, req, InstructorContent(classes, w, req))
        <==> forall c | c in classes :: InstructorClearOf(c, w, req)
  {
    if classes != [] {
      var init, c := classes[..|classes| - 1], classes[|classes| - 1];
      assert classes == init + [c];
      InstructorContentClear(init, w, req);
      InstructorPartClear(c, w, req);
      InstructorContentNext(init, c, w, req);
      InstructorClearNext(init, c, w, req);
    }
  }

  method InstructorBookingsOf(c: Class, w: Window, req: Request) returns (result: Result<seq<Booking>>)
    ensures result.Ok? <==> (InstructorSelects(c, req) ==> Expandable(c.event))
    ensures result.Ok? ==> multiset(result.value) == multiset(InstructorPart(c, w, req))
  {
    if c.facilityId != req.facilityId || !MentionsInstructor(c.event, req.instructorId) {
      return Ok([]);
    }
    result := ExpandEventToInstructorBookings(c.event, w.rangeStart, w.rangeEnd, req.instructorId);
  }

  method InstructorBookingsInRange(classes: seq<Class>, w: Window, req: Request) returns (result: Result<seq<Booking>>)
    ensures result.Ok? <==> InstructorReadable(classes, req)
    ensures result.Ok? ==> multiset(result.value) == multiset(InstructorContent(classes, w, req))
  {
    var bookings: seq<Booking> := [];
    for i := 0 to |classes|
      invariant InstructorReadable(classes[..i], req)
      invariant multiset(bookings) == multiset(InstructorContent(classes[..i], w, req))
    {
      assert classes[..i + 1] == classes[..i] + [classes[i]] && classes[..i + 1][..i] == classes[..i];
      InstructorClearNext(classes[..i], classes[i], w, req);
      var expanded := InstructorBookingsOf(classes[i], w, req);
      if expanded.Err? {
        assert classes[i] in classes;
        return Err;
      }
      bookings := bookings + expanded.value;
    }
    assert classes[..|classes|] == classes;
    result := Ok(bookings);
  }

  /** What is reported for the requested room: nothing when none is requested. */
  ghost predicate RoomReport(conflicts: seq<Conflict>, classes: seq<Class>, w: Window, req: Request,
      names: map<nat, string>) {
    Reports(conflicts, w, req, names, RoomConflict, if req.roomId == 0 then [] else RoomContent(classes, w, req))
  }

  ghost predicate InstructorReport(conflicts: seq<Conflict>, classes: seq<Class>, w: Window, req: Request,
      names: map<nat, string>) {
    Reports(conflicts, w, req, names, InstructorConflict,
      if req.instructorId == 0 then [] else InstructorContent(classes, w, req))
  }

  method CheckRoomConflicts(classes: seq<Class>, w: Window, req: Request, names: map<nat, string>)
      returns (result: Result<seq<Conflict>>)
    ensures result.Ok? <==> (req.roomId != 0 ==> RoomReadable(classes, req))
    ensures result.Ok? ==> RoomReport(result.value, classes, w, req, names)
    ensures result == Ok([]) <==> RoomClear(classes, w, req)
  {
    if req.roomId == 0 {
      NothingToReport(w, req, names, RoomConflict, w.occurrences);
      return Ok([]);
    }
    var bookings := RoomBookingsInRange(classes, w, req);
    RoomContentClear(classes, w, req);
    if bookings.Err? {
      return Err;
    }
    NoConflictsExactly(w, req, names, RoomConflict, w.occurrences, bookings.value);
    CappedReports(w, req, names, RoomConflict, bookings.value, RoomContent(classes, w, req));
    NoClashPermutes(w, req, bookings.value, RoomContent(classes, w, req));
    var conflicts := BuildConflictsFromBookings(w, req, names, RoomConflict, bookings.value);
    assert conflicts == [] <==> NoClash(w, req, bookings.value);
    result := Ok(conflicts);
  }

  method CheckInstructorConflicts(classes: seq<Class>, w: Window, req: Request, names: map<nat, string>)
      returns (result: Result<seq<Conflict>>)
    ensures result.Ok? <==> (req.instructorId != 0 ==> InstructorReadable(classes, req))
    ensures result.Ok? ==> InstructorReport(result.value, classes, w, req, names)
    ensures result == Ok([]) <==> InstructorClear(classes, w, req)
  {
    if req.instructorId == 0 {
      NothingToReport(w, req, names, InstructorConflict, w.occurrences);
      return Ok([]);
    }
    var bookings := InstructorBookingsInRange(classes, w, req);
    InstructorContentClear(classes, w, req);
    if bookings.Err? {
      return Err;
    }
    NoConflictsExactly(w, req, names, InstructorConflict, w.occurrences, bookings.value);
    CappedReports(w, req, names, InstructorConflict, bookings.value, InstructorContent(classes, w, req));
    NoClashPermutes(w, req, bookings.value, InstructorContent(classes, w, req));
    var conflicts := BuildConflictsFromBookings(w, req, names, InstructorConflict, bookings.value);
    assert conflicts == [] <==> NoClash(w, req, bookings.value);
    result := Ok(conflicts);
  }

  predicate Unchecked(req: Request) {
    req.roomId == 0 && req.instructorId == 0
  }

  /** The request names no room and no instructor, or its window can be prepared. */
  predicate Checkable(req: Request) {
    Unchecked(req) || (req.rule.Some? && req.duration.Some?)
  }

  /** The window a request is checked in; an empty one when it cannot be prepared. */
  function RequestWindow(req: Request, clock: Clock): Window {
    match PrepareConflictWindow(req, clock)
    case Ok(w) => w
    case Err => Window([], 0, 0, 0)
  }

  /** Nothing stands in the way of the request. */
  ghost predicate Passes(classes: seq<Class>, req: Request, clock: Clock) {
    var w := RequestWindow(req, clock);
    Checkable(req) && RoomClear(classes, w, req) && InstructorClear(classes, w, req)
  }

  ghost predicate IsAnswer(
    conflicts: seq<Conflict>, rooms: seq<Conflict>, instructors: seq<Conflict>, classes: seq<Class>, w: Window,
    req: Request,
    names: map<nat, string>)
  {
    && conflicts == rooms + instructors
    && RoomReport(rooms, classes, w, req, names) && InstructorReport(instructors, classes, w, req, names)
  }

  /** The conflicts of the requested room and then of the requested instructor, at most fifty each; an
      error when the window cannot be prepared or a selected event does not expand. */
  method CheckConflicts(classes: seq<Class>, req: Request, clock: Clock, names: map<nat, string>)
      returns (result: Result<seq<Conflict>>)
    ensures result == Ok([]) <==> Passes(classes, req, clock)
    ensures result.Ok? <==> Checkable(req)
                            && (req.roomId != 0 ==> RoomReadable(classes, req))
                                && (req.instructorId != 0 ==> InstructorReadable(classes, req))
    ensures result.Ok? ==>
              exists rooms, instructors ::
                IsAnswer(result.value, rooms, instructors, classes, RequestWindow(req, clock), req, names)
  {
    if req.roomId == 0 && req.instructorId == 0 {
      NothingIsAnAnswer(classes, RequestWindow(req, clock), req, names);
      assert IsAnswer([], [], [], classes, RequestWindow(req, clock), req, names);
      return Ok([]);
    }
    var prepared := PrepareConflictWindow(req, clock);
    if prepared.Err? {
      return Err;
    }
    result := CheckWindow(classes, prepared.value, req, names);
  }

  /** The check in a window that has been prepared. */
  method CheckWindow(classes: seq<Class>, w: Window, req: Request, names: map<nat, string>)
      returns (result: Result<seq<Conflict>>)
    ensures result == Ok([]) <==> RoomClear(classes, w, req) && InstructorClear(classes, w, req)
    ensures result.Ok? <==>
              && (req.roomId != 0 ==> RoomReadable(classes, req))
              && (req.instructorId != 0 ==> InstructorReadable(classes, req))
    ensures result.Ok? ==>
        exists rooms, instructors :: IsAnswer(result.value, rooms, instructors, classes, w, req, names)
  {
    var rooms := CheckRoomConflicts(classes, w, req, names);
    if rooms.Err? {
      return Err;
    }
    var instructors := CheckInstructorConflicts(classes, w, req, names);
    if instructors.Err? {
      return Err;
    }
    result := Ok(rooms.value + instructors.value);
    assert IsAnswer(result.value, rooms.value, instructors.value, classes, w, req, names);
    assert result.value == [] <==> rooms.value == [] && instructors.value == [];
  }

  lemma NothingIsAnAnswer(classes: seq<Class>, w: Window, req: Request, names: map<nat, string>)
    requires Unchecked(req)
    ensures RoomReport([], classes, w, req, names) && InstructorReport([], classes, w, req, names)
  {
    NothingToReport(w, req, names, RoomConflict, w.occurrences);
    NothingToReport(w, req, names, InstructorConflict, w.occurrences);
  }

  lemma {:induction false} NothingToReport(w: Window, req: Request, names: map<nat, string>, kind: ConflictKind,
      occurrences: seq<int>)
    ensures AllConflicts(w, req, names, kind, occurrences, []) == []
  {
    if occurrences != [] {
      NothingToReport(w, req, names, kind, occurrences[..|occurrences| - 1]);
    }
  }

  // ----- the check in terms of rules and sessions alone

  /** The event is looked at for a room: it has a room, and it or one of its overrides names this one. */
  predicate LooksAtRoom(c: Class, facilityId: nat, room: nat) {
    && c.facilityId == facilityId && c.event.room.Some?
    && (c.event.room.value == room || exists o | o in c.event.overrides :: o.room == Some(room))
  }

  predicate LooksAtInstructor(c: Class, facilityId: nat, instructor: nat) {
    && c.facilityId == facilityId
    && (c.event.instructor == Some(instructor) || exists o | o in c.event.overrides :: o.instructor == Some(instructor))
  }

  /** No occurrence of the requested rule in the checked year overlaps the session, unless its event or
      class is excluded. */
  ghost predicate Spares(req: Request, clock: Clock, event: Event, s: Session)
    requires req.rule.Some? && req.duration.Some?
  {
    || req.excludeEventId == Some(event.id) || req.excludeClassId == Some(event.classId)
    || forall t | Occurs(req.rule.value, t) && clock.yearAgo <= t
                  && t <= clock.plusYear(if req.rule.value.dtstart < clock.yearAgo then clock.yearAgo
                                         else req.rule.value.dtstart) ::
         !HasLocalTimeOverlap(t, t + req.duration.value, s.start, s.end)
  }

  ghost predicate SparesRoom(classes: seq<Class>, req: Request, clock: Clock, first: int, last: int)
    requires req.rule.Some? && req.duration.Some?
  {
    forall c | c in classes && LooksAtRoom(c, req.facilityId, req.roomId) ::
      && c.event.rule.Some? && c.event.duration.Some?
      && forall s | s in Sessions(c.event, first, last) && s.room == Some(req.roomId) :: Spares(req, clock, c.event, s)
  }

  ghost predicate SparesInstructor(classes: seq<Class>, req: Request, clock: Clock, first: int, last: int)
    requires req.rule.Some? && req.duration.Some?
  {
    forall c | c in classes && LooksAtInstructor(c, req.facilityId, req.instructorId) ::
      && c.event.rule.Some? && c.event.duration.Some?
      && forall s | s in Sessions(c.event, first, last) && s.instructor == Some(req.instructorId) ::
           Spares(req, clock, c.event, s)
  }

  lemma ClearIsSpared(event: Event, req: Request, clock: Clock, first: int, last: int, keep: Session -> bool)
    requires req.rule.Some? && req.duration.Some? && IsChecked(req.rule.value, clock, first, last)
    ensures ClearOf(event, RequestWindow(req, clock), req, keep) <==>
              && event.rule.Some? && event.duration.Some?
              && forall s | s in Sessions(event, first, last) && keep(s) :: Spares(req, clock, event, s)
  {
    var w := RequestWindow(req, clock);
    WindowExactly(req.rule.value, req.duration.value, clock, first, last);
    if event.rule.Some? && event.duration.Some? {
      forall s
        ensures Spares(req, clock, event, s)
            <==> forall occ | occ in w.occurrences :: !Clashes(w, req, occ, Book(event, true)(s))
      {
        var b := Book(event, true)(s);
        assert b.start == s.start && b.end == s.end && b.eventId == event.id && b.classId == event.classId;
      }
    }
  }

  /** A request passes exactly when it names no room and no instructor, or its rule and duration parse and
      every event looked at can be expanded and has its sessions in the checked range spared. */
  lemma PassesExactly(classes: seq<Class>, req: Request, clock: Clock, first: int, last: int)
    requires req.rule.Some? ==> IsChecked(req.rule.value, clock, first, last)
    ensures Passes(classes, req, clock) <==>
              || (req.roomId == 0 && req.instructorId == 0)
              || (&& req.rule.Some? && req.duration.Some?
                  && (req.roomId != 0 ==> SparesRoom(classes, req, clock, first, last))
                  && (req.instructorId != 0 ==> SparesInstructor(classes, req, clock, first, last)))
  {
    if req.rule.Some? && req.duration.Some? {
      forall c: Class
        ensures RoomClearOf(c, RequestWindow(req, clock), req) <==>
                  (LooksAtRoom(c, req.facilityId, req.roomId) ==>
                     && c.event.rule.Some? && c.event.duration.Some?
                     && forall s | s in Sessions(c.event, first, last) && s.room == Some(req.roomId) ::
                          Spares(req, clock, c.event, s))
        ensures InstructorClearOf(c, RequestWindow(req, clock), req) <==>
                  (LooksAtInstructor(c, req.facilityId, req.instructorId) ==>
                     && c.event.rule.Some? && c.event.duration.Some?
                     && forall s | s in Sessions(c.event, first, last) && s.instructor == Some(req.instructorId) ::
                          Spares(req, clock, c.event, s))
      {
        ClearIsSpared(c.event, req, clock, first, last, InRoom(req.roomId));
        ClearIsSpared(c.event, req, clock, first, last, ByInstructor(req.instructorId));
      }
    }
  }

  /** The bookings compared for a room are those of the sessions held in it. */
  lemma {:induction false} RoomContentExactly(classes: seq<Class>, w: Window, req: Request, b: Booking)
    ensures b in RoomContent(classes, w, req) <==>
              exists c, s :: c in classes && LooksAtRoom(c, req.facilityId, req.roomId)
                             && c.event.rule.Some? && c.event.duration.Some?
                             && s in Sessions(c.event, w.rangeStart, w.rangeEnd) && s.room == Some(req.roomId)
                             && b == Booking(req.roomId, s.start, s.end, c.event.id, c.event.classId, s.isOverride)
  {
    if classes != [] {
      var init, c := classes[..|classes| - 1], classes[|classes| - 1];
      RoomContentExactly(init, w, req, b);
      if LooksAtRoom(c, req.facilityId, req.roomId) && Expandable(c.event) {
        KeptExactly(Sessions(c.event, w.rangeStart, w.rangeEnd), InRoom(req.roomId), Book(c.event, true), b);
      }
      assert classes == init + [c];
    }
  }

  lemma {:induction false} InstructorContentExactly(classes: seq<Class>, w: Window, req: Request, b: Booking)
    ensures b in InstructorContent(classes, w, req) <==>
              exists c, s :: c in classes && LooksAtInstructor(c, req.facilityId, req.instructorId)
                             && c.event.rule.Some? && c.event.duration.Some?
                             && s in Sessions(c.event, w.rangeStart, w.rangeEnd)
                                 && s.instructor == Some(req.instructorId)
                             && b == Booking(0, s.start, s.end, c.event.id, c.event.classId, s.isOverride)
  {
    if classes != [] {
      var init, c := classes[..|classes| - 1], classes[|classes| - 1];
      InstructorContentExactly(init, w, req, b);
      if LooksAtInstructor(c, req.facilityId, req.instructorId) && Expandable(c.event) {
        KeptExactly(Sessions(c.event, w.rangeStart, w.rangeEnd), ByInstructor(req.instructorId),
          Book(c.event, false), b);
      }
      assert classes == init + [c];
    }
  }

  lemma KeptExactly(sessions: seq<Session>, keep: Session -> bool, book: Session -> Booking, b: Booking)
    ensures b in Kept(sessions, keep, book) <==> exists s :: s in sessions && keep(s) && b == book(s)
  {
    var kept := Filter(sessions, keep);
    if b in Map(kept, book) {
      var i :| 0 <= i < |kept| && Map(kept, book)[i] == b;
      assert kept[i] in kept;
    }
    if s :| s in sessions && keep(s) && b == book(s) {
      var i :| 0 <= i < |kept| && kept[i] == s;
      assert Map(kept, book)[i] == b;
    }
  }
}
