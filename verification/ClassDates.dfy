// The start and end dates of a class, derived from its series and the override table.
module ClassDates {
  import opened Prelude
  import opened Schedule
  import opened OverrideLinks
  import opened ClassBoundaries

  /** The live overrides of an event with ids below `n`. */
  function LoadOverrides(rows: Rows, eventId: nat, n: nat): seq<Override> {
    if n == 0 then []
    else
      LoadOverrides(rows, eventId, n - 1)
      + if Live(rows, n - 1) && rows[n - 1].eventId == eventId then [rows[n - 1]] else []
  }

  lemma {:induction false} LoadsExactly(rows: Rows, eventId: nat, n: nat, o: Override)
    ensures o in LoadOverrides(rows, eventId, n)
        <==> exists id | 0 <= id < n :: Live(rows, id) && rows[id] == o && o.eventId == eventId
  {
    if n > 0 {
      LoadsExactly(rows, eventId, n - 1, o);
    }
  }

  /** The recurrence rows of a class with their live overrides. */
  function LoadEvents(series: seq<Event>, classId: nat, rows: Rows, n: nat): seq<Event> {
    if series == [] then []
    else
      var e := series[|series| - 1];
      LoadEvents(series[..|series| - 1], classId, rows, n)
      + if e.classId == classId then [e.(overrides := LoadOverrides(rows, e.id, n))] else []
  }

  /** The dates can be derived: the class is there and has rows, which all parse. */
  predicate Derivable(classes: map<nat, Dates>, series: seq<Event>, classId: nat) {
    classId in classes && (exists e | e in series :: e.classId == classId)
    && forall e | e in series && e.classId == classId :: e.rule.Some?
  }

  lemma {:induction false} LoadedParse(series: seq<Event>, classId: nat, rows: Rows, n: nat)
    ensures LoadEvents(series, classId, rows, n) != [] <==> exists e | e in series :: e.classId == classId
    ensures AllParse(LoadEvents(series, classId, rows, n))
        <==> forall e | e in series && e.classId == classId :: e.rule.Some?
  {
    if series != [] {
      var init, e := series[..|series| - 1], series[|series| - 1];
      assert series == init + [e];
      LoadedParse(init, classId, rows, n);
      if e.classId == classId {
        var loaded := e.(overrides := LoadOverrides(rows, e.id, n));
        assert LoadEvents(series, classId, rows, n) == LoadEvents(init, classId, rows, n) + [loaded];
        assert forall x ::
            x in LoadEvents(series, classId, rows, n) <==> x in LoadEvents(init, classId, rows, n) || x == loaded;
      }
    }
  }

  /** The dates of the classes after those of one class are derived from the rows as they now are. */
  function Derived(classes: map<nat, Dates>, series: seq<Event>, classId: nat, rows: Rows, n: nat,
      horizon: Horizon): map<nat, Dates>
    requires Derivable(classes, series, classId)
  {
    LoadedParse(series, classId, rows, n);
    classes[classId := Synced(classes[classId], LoadEvents(series, classId, rows, n), horizon)]
  }

  /** A live override of the event, as a row of the table. */
  predicate IsOverrideOf(rows: Rows, eventId: nat, o: Override) {
    exists id | id in rows :: !rows[id].deleted && rows[id].eventId == eventId && rows[id] == o
  }

  function OfClass(classId: nat): Event -> bool {
    (e: Event) => e.classId == classId
  }

  /** Row by row, `events` are the series rows `own` with exactly the live overrides of each event. */
  ghost predicate Loaded(events: seq<Event>, own: seq<Event>, rows: Rows) {
    |events| == |own| && forall k | 0 <= k < |own| :: IsLoaded(rows, own[k], events[k])
  }

  /** What is loaded for a class: its series rows, in order, with exactly the live overrides of each event. */
  lemma {:induction false} LoadEventsExactly(series: seq<Event>, classId: nat, rows: Rows, n: nat)
    requires forall id | id in rows :: id < n
    ensures Loaded(LoadEvents(series, classId, rows, n), Filter(series, OfClass(classId)), rows)
  {
    if series != [] {
      var init, e := series[..|series| - 1], series[|series| - 1];
      assert series == init + [e];
      LoadEventsExactly(init, classId, rows, n);
      FilterAdd(init, e, OfClass(classId));
      LoadedExactly(rows, e, n);
    }
  }

  lemma LoadedExactly(rows: Rows, e: Event, n: nat)
    requires forall id | id in rows :: id < n
    ensures IsLoaded(rows, e, e.(overrides := LoadOverrides(rows, e.id, n)))
  {
    forall o
      ensures o in LoadOverrides(rows, e.id, n) <==> IsOverrideOf(rows, e.id, o)
    {
      LoadsExactly(rows, e.id, n, o);
    }
  }

  ghost predicate IsLoaded(rows: Rows, e: Event, x: Event) {
    x == e.(overrides := x.overrides) && forall o :: o in x.overrides <==> IsOverrideOf(rows, e.id, o)
  }

  // ----- the dates of a class, in terms of the table

  /** A live override of a class's event that is not a cancel is for the time `t`. */
  ghost predicate RowMoves(rows: Rows, e: Event, t: int) {
    exists id | id in rows && !rows[id].deleted && rows[id].eventId == e.id ::
      !rows[id].cancelled && Times(rows[id].rule) != [] && Times(rows[id].rule)[0] == t
  }

  /** A session of the series on a day that no live cancel of the event is for. */
  ghost predicate RowKeeps(rows: Rows, e: Event, t: int) {
    && e.rule.Some? && Occurs(e.rule.value, t)
    && forall id | id in rows && !rows[id].deleted && rows[id].eventId == e.id && rows[id].cancelled
                   && Times(rows[id].rule) != [] ::
         Day(Times(rows[id].rule)[0]) != Day(t)
  }

  ghost function ClassStarts(series: seq<Event>, classId: nat, rows: Rows): int -> bool {
    t => exists e | e in series && e.classId == classId ::
      (e.rule.Some? && e.rule.value.dtstart == t) || RowMoves(rows, e, t)
  }

  ghost function ClassUntils(series: seq<Event>, classId: nat): int -> bool {
    t => exists e | e in series && e.classId == classId ::
           e.rule.Some? && e.rule.value.until.Some? && t == EndOfDay(e.rule.value.until.value)
  }

  ghost function ClassDatesFound(series: seq<Event>, classId: nat, rows: Rows, first: int, last: int): int -> bool {
    t => exists e | e in series && e.classId == classId ::
      (RowKeeps(rows, e, t) && first <= t <= last) || RowMoves(rows, e, t)
  }

  ghost predicate ClassOverridden(series: seq<Event>, classId: nat, rows: Rows) {
    exists e, id | e in series && e.classId == classId && id in rows :: !rows[id].deleted && rows[id].eventId == e.id
  }

  /** The dates of a class are those that its series and the live overrides of their events give. */
  ghost predicate DatesFollowTable(
    before: Dates, after: Dates, series: seq<Event>, classId: nat, rows: Rows, horizon: Horizon)
  {
    var searchedTo := if before.end.None? then horizon.fiveYearsOn(before.start)
                      else horizon.threeMonthsOn(before.end.value);
    Settled(before, after, ClassStarts(series, classId, rows), ClassUntils(series, classId),
            ClassDatesFound(series, classId, rows, before.start, searchedTo), ClassOverridden(series, classId, rows))
  }

  lemma LoadedMoves(rows: Rows, e: Event, x: Event, t: int)
    requires IsLoaded(rows, e, x)
    ensures IsMove(x, t) <==> RowMoves(rows, e, t)
    ensures e.rule.Some? ==> (IsKept(x, t) <==> RowKeeps(rows, e, t))
    ensures x.overrides != [] <==> exists id | id in rows :: !rows[id].deleted && rows[id].eventId == e.id
  {
    forall id | id in rows && !rows[id].deleted && rows[id].eventId == e.id
      ensures rows[id] in x.overrides
    {
      assert IsOverrideOf(rows, e.id, rows[id]);
    }
    forall o | o in x.overrides
      ensures exists id | id in rows :: !rows[id].deleted && rows[id].eventId == e.id && rows[id] == o
    {
      assert IsOverrideOf(rows, e.id, o);
    }
    if x.overrides != [] {
      assert x.overrides[0] in x.overrides;
    }
  }

  lemma LoadedStarts(events: seq<Event>, own: seq<Event>, rows: Rows, t: int)
    requires Loaded(events, own, rows) && AllParse(events)
    ensures IsStart(events, t)
        <==> exists e | e in own :: (e.rule.Some? && e.rule.value.dtstart == t) || RowMoves(rows, e, t)
  {
    if x :| x in events && (x.rule.value.dtstart == t || IsMove(x, t)) {
      var k :| 0 <= k < |events| && events[k] == x;
      LoadedMoves(rows, own[k], events[k], t);
      assert own[k] in own;
    }
    if e :| e in own && ((e.rule.Some? && e.rule.value.dtstart == t) || RowMoves(rows, e, t)) {
      var k :| 0 <= k < |own| && own[k] == e;
      LoadedMoves(rows, own[k], events[k], t);
      assert events[k] in events;
    }
  }

  lemma LoadedUntils(events: seq<Event>, own: seq<Event>, rows: Rows, t: int)
    requires Loaded(events, own, rows) && AllParse(events)
    ensures IsUntil(events, t) <==>
              exists e | e in own :: e.rule.Some? && e.rule.value.until.Some? && t == EndOfDay(e.rule.value.until.value)
  {
    if x :| x in events && x.rule.value.until.Some? && t == EndOfDay(x.rule.value.until.value) {
      var k :| 0 <= k < |events| && events[k] == x;
      assert own[k] in own;
    }
    if e :| e in own && e.rule.Some? && e.rule.value.until.Some? && t == EndOfDay(e.rule.value.until.value) {
      var k :| 0 <= k < |own| && own[k] == e;
      assert events[k] in events;
    }
  }

  lemma LoadedDates(events: seq<Event>, own: seq<Event>, rows: Rows, first: int, last: int, t: int)
    requires Loaded(events, own, rows) && AllParse(events)
    ensures IsFound(events, first, last, t) <==>
              exists e | e in own :: (RowKeeps(rows, e, t) && first <= t <= last) || RowMoves(rows, e, t)
  {
    if x :| x in events && ((IsKept(x, t) && first <= t <= last) || IsMove(x, t)) {
      var k :| 0 <= k < |events| && events[k] == x;
      LoadedMoves(rows, own[k], events[k], t);
      assert own[k] in own;
    }
    if e :| e in own && ((RowKeeps(rows, e, t) && first <= t <= last) || RowMoves(rows, e, t)) {
      var k :| 0 <= k < |own| && own[k] == e;
      LoadedMoves(rows, own[k], events[k], t);
      assert events[k] in events;
    }
  }

  lemma LoadedOverridden(events: seq<Event>, own: seq<Event>, rows: Rows)
    requires Loaded(events, own, rows)
    ensures HasOverrides(events) <==>
              exists e, id | e in own && id in rows :: !rows[id].deleted && rows[id].eventId == e.id
  {
    if x :| x in events && x.overrides != [] {
      var k :| 0 <= k < |events| && events[k] == x;
      LoadedMoves(rows, own[k], events[k], 0);
      assert own[k] in own;
    }
    if e, id :| e in own && id in rows && !rows[id].deleted && rows[id].eventId == e.id {
      var k :| 0 <= k < |own| && own[k] == e;
      LoadedMoves(rows, own[k], events[k], 0);
      assert events[k] in events;
    }
  }

  lemma OwnTimes(
    events: seq<Event>, series: seq<Event>, classId: nat, rows: Rows, first: int, last: int, t: int)
    requires Loaded(events, Filter(series, OfClass(classId)), rows) && AllParse(events)
    ensures StartsAt(events)(t) == ClassStarts(series, classId, rows)(t)
    ensures UntilAt(events)(t) == ClassUntils(series, classId)(t)
    ensures FoundAt(events, first, last)(t) == ClassDatesFound(series, classId, rows, first, last)(t)
  {
    var own := Filter(series, OfClass(classId));
    LoadedStarts(events, own, rows, t);
    LoadedUntils(events, own, rows, t);
    LoadedDates(events, own, rows, first, last, t);
    assert forall e :: e in own <==> e in series && e.classId == classId;
  }

  lemma SyncedFollowsTable(
    before: Dates, events: seq<Event>, series: seq<Event>, classId: nat, rows: Rows, horizon: Horizon)
    requires Loaded(events, Filter(series, OfClass(classId)), rows) && AllParse(events) && events != []
    ensures DatesFollowTable(before, Synced(before, events, horizon), series, classId, rows, horizon)
  {
    var searchedTo := if before.end.None? then horizon.fiveYearsOn(before.start)
                      else horizon.threeMonthsOn(before.end.value);
    RunExactly(before, events, horizon);
    LoadedOverridden(events, Filter(series, OfClass(classId)), rows);
    var starts, untils := ClassStarts(series, classId, rows), ClassUntils(series, classId);
    var found := ClassDatesFound(series, classId, rows, before.start, searchedTo);
    forall t
      ensures StartsAt(events)(t) == starts(t) && UntilAt(events)(t) == untils(t)
      ensures FoundAt(events, before.start, searchedTo)(t) == found(t)
    {
      OwnTimes(events, series, classId, rows, before.start, searchedTo, t);
    }
    SameSettled(before, Synced(before, events, horizon), StartsAt(events), UntilAt(events),
                FoundAt(events, before.start, searchedTo), starts, untils, found, HasOverrides(events));
  }

  lemma DerivedIsSynced(
    classes: map<nat, Dates>, series: seq<Event>, classId: nat, rows: Rows, n: nat, horizon: Horizon)
    requires Derivable(classes, series, classId)
    ensures var events := LoadEvents(series, classId, rows, n);
            && events != [] && AllParse(events)
            && Derived(classes, series, classId, rows, n, horizon)
               == classes[classId := Synced(classes[classId], events, horizon)]
  {
    LoadedParse(series, classId, rows, n);
  }

  /** Deriving a class again changes no other class, and leaves it with the dates that follow from the table. */
  lemma DerivedFollowsTable(
    classes: map<nat, Dates>, series: seq<Event>, classId: nat, rows: Rows, n: nat, horizon: Horizon)
    requires Derivable(classes, series, classId) && forall id | id in rows :: id < n
    ensures var derived := Derived(classes, series, classId, rows, n, horizon);
            && derived == classes[classId := derived[classId]]
            && DatesFollowTable(classes[classId], derived[classId], series, classId, rows, horizon)
  {
    var events := LoadEvents(series, classId, rows, n);
    var before := classes[classId];
    DerivedIsSynced(classes, series, classId, rows, n, horizon);
    LoadEventsExactly(series, classId, rows, n);
    SyncedFollowsTable(before, events, series, classId, rows, horizon);
    assert Derived(classes, series, classId, rows, n, horizon)[classId] == Synced(before, events, horizon);
  }

  /** Of all classes only one is derived again, and its dates follow from the table. */
  ghost predicate DerivedAgain(
    before: map<nat, Dates>, after: map<nat, Dates>, series: seq<Event>, classId: nat, rows: Rows, horizon: Horizon)
  {
    && classId in before && classId in after && after == before[classId := after[classId]]
    && DatesFollowTable(before[classId], after[classId], series, classId, rows, horizon)
  }
}
