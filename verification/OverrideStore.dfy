// The override table as the object that the database calls update in place, with the start and end
// dates of the classes that are derived again after every change.
module OverrideStore {
  import opened Prelude
  import opened Schedule
  import opened OverrideLinks
  import opened OverrideTable
  import opened ClassBoundaries
  import opened ClassDates

  class Store {
    var rows: Rows
    var nextId: nat
    var attendance: set<Attendance>
    var classes: map<nat, Dates>
    const series: seq<Event>

    ghost function Snapshot(): Table
      reads this
    {
      Table(rows, nextId, attendance)
    }

    ghost predicate Valid()
      reads this
    {
      WellFormed(Snapshot())
    }

    constructor (series: seq<Event>, classes: map<nat, Dates>)
      ensures Valid() && rows == map[] && attendance == {} && this.series == series && this.classes == classes
    {
      rows := map[];
      nextId := 1;
      attendance := {};
      this.series, this.classes := series, classes;
    }

    /** Derives the start and end date of a class again, unless that is an error. */
    method SyncClassDateBoundaries(classId: nat, horizon: Horizon) returns (ok: bool)
      modifies this`classes
      ensures ok <==> Derivable(old(classes), series, classId)
      ensures classes == if ok then Derived(old(classes), series, classId, rows, nextId, horizon) else old(classes)
      ensures ok && Valid() ==> DerivedAgain(old(classes), classes, series, classId, rows, horizon)
    {
      if classId !in classes {
        return false;
      }
      var events := LoadEvents(series, classId, rows, nextId);
      LoadedParse(series, classId, rows, nextId);
      var dates := classes[classId];
      var class_ := new ClassRow(dates.start, dates.end);
      ok := class_.SyncClassDateBoundaries(events, horizon);
      if ok {
        if Valid() {
          DerivedFollowsTable(classes, series, classId, rows, nextId, horizon);
        }
        var synced := Dates(class_.startDt, class_.endDt);
        assert synced == Synced(dates, events, horizon);
        classes := classes[classId := synced];
      }
    }

    method RollBack(savedRows: Rows, savedNextId: nat, savedAttendance: set<Attendance>)
      modifies this`rows, this`nextId, this`attendance
      ensures Snapshot() == Table(savedRows, savedNextId, savedAttendance)
    {
      rows, nextId, attendance := savedRows, savedNextId, savedAttendance;
    }

    /** One round of the loop of CreateOverrideEvents. */
    method Upsert(request: Override, total: nat, linked: Option<nat>, parents: seq<nat>)
      returns (ok: bool, linked': Option<nat>, parents': seq<nat>)
      requires Valid()
      modifies this`rows, this`nextId, this`attendance
      ensures ok ==> Valid()
      ensures ProcessRequest(Progress(old(Snapshot()), linked, parents), request, total)
           == if ok then Ok(Progress(Snapshot(), linked', parents')) else Err
    {
      ghost var before := Progress(Snapshot(), linked, parents);
      ProcessWellFormed(before, request, total);
      linked', parents' := linked, parents;
      var o := request;
      if !o.cancelled && linked.Some? {
        o := o.(link := linked);
        rows := SoftDelete(rows, OldTargets(rows, linked.value, o.id));
      }
      assert rows == Cleaned(before, request);
      if o.id == 0 {
        if existing: nat :| existing in rows.Keys && HasKey(rows, existing, o.eventId, o.rule) {
          FindKeyUnique(rows, existing, o.eventId, o.rule);
          parents' := parents + ParentOf(rows, existing);
          o := o.(id := existing, link := if o.link.None? then rows[existing].link else o.link);
        }
      }
      assert o == Resolved(before, request);
      var isUpdate := o.id > 0;
      var written := Write(Table(rows, nextId, attendance), o);
      if written.Err? || !Describable(request, total, isUpdate) {
        return false, linked', parents';
      }
      var (t, id) := written.value;
      rows, nextId := t.rows, t.nextId;
      if o.cancelled && total > 1 {
        linked' := Some(id);
      }
      if o.cancelled || isUpdate {
        attendance := DropAttendance(attendance, o.eventId, FirstDay(o.rule).value);
      }
      ok := true;
    }

    /** Upserts the requests in order, linking each reschedule target to the cancel before it, and derives
        the dates of their class again. */
    method CreateOverrideEvents(overrideEvents: seq<Override>, classId: nat, horizon: Horizon) returns (ok: bool)
      requires Valid()
      modifies this
      ensures Valid()
      ensures ok <==> CreateOverrides(old(Snapshot()), overrideEvents).Ok?
                      && (overrideEvents != [] ==> Derivable(old(classes), series, classId))
      ensures ok ==> CreateOverrides(old(Snapshot()), overrideEvents) == Ok(Snapshot())
      ensures if ok && overrideEvents != [] then DerivedAgain(old(classes), classes, series, classId, rows, horizon)
              else classes == old(classes)
      ensures !ok ==> Snapshot() == old(Snapshot())
    {
      var savedRows, savedNextId, savedAttendance := rows, nextId, attendance;
      ok := WriteOverrides(overrideEvents);
      if ok && overrideEvents != [] {
        ok := SyncClassDateBoundaries(classId, horizon);
        if !ok {
          RollBack(savedRows, savedNextId, savedAttendance);
        }
      }
    }

    /** The rows and the attendance of the call. */
    method WriteOverrides(overrideEvents: seq<Override>) returns (ok: bool)
      requires Valid()
      modifies this`rows, this`nextId, this`attendance
      ensures Valid()
      ensures CreateOverrides(old(Snapshot()), overrideEvents) == if ok then Ok(Snapshot()) else Err
      ensures !ok ==> Snapshot() == old(Snapshot())
    {
      var savedRows, savedNextId, savedAttendance := rows, nextId, attendance;
      var linkedOverrideId: Option<nat> := None;
      var parentCancelIds: seq<nat> := [];
      ghost var start := Progress(Snapshot(), None, []);
      ok := true;
      var i := 0;
      while i < |overrideEvents| && ok
        invariant 0 <= i <= |overrideEvents|
        invariant ok ==> Valid()
        invariant ProcessAll(start, overrideEvents[..i], |overrideEvents|)
               == if ok then Ok(Progress(Snapshot(), linkedOverrideId, parentCancelIds)) else Err
      {
        assert overrideEvents[..i + 1][..i] == overrideEvents[..i];
        ok, linkedOverrideId, parentCancelIds :=
          Upsert(overrideEvents[i], |overrideEvents|, linkedOverrideId, parentCancelIds);
        i := i + 1;
      }
      if ok {
        assert overrideEvents[..i] == overrideEvents;
        var restored := Restore(rows, parentCancelIds);
        ok := UniqueKeys(restored);
        if ok {
          rows := restored;
        }
      } else {
        ProcessAllPrefixFails(start, overrideEvents, i, |overrideEvents|);
      }
      if !ok {
        RollBack(savedRows, savedNextId, savedAttendance);
      }
    }

    /** SELECT ... WHERE linked_override_event_id = id, over live rows. */
    method ReverseLinks(id: nat) returns (ids: seq<nat>)
      ensures forall a :: a in ids <==> Links(rows, a, id)
    {
      ids := [];
      var rest := set a | a in rows && Links(rows, a, id);
      while rest != {}
        invariant forall a :: a in ids || a in rest <==> Links(rows, a, id)
        decreases rest
      {
        var a :| a in rest;
        ids, rest := ids + [a], rest - {a};
      }
    }

    /** Marks `id` as found and queues it, unless it was found before. */
    method Visit(ghost start: nat, ghost open: set<nat>, visited: set<nat>, eventIds: seq<nat>, queue: seq<nat>,
        id: nat)
      returns (visited': set<nat>, eventIds': seq<nat>, queue': seq<nat>)
      requires Searching(rows, start, visited, eventIds, queue, open) && Connected(rows, start, id)
      ensures Searching(rows, start, visited', eventIds', queue', open)
      ensures visited' == visited + {id} && (visited' == visited ==> queue' == queue)
    {
      visited', eventIds', queue' := visited, eventIds, queue;
      if id !in visited {
        VisitStep(rows, start, visited, eventIds, queue, open, id);
        visited', eventIds', queue' := visited + {id}, eventIds + [id], queue + [id];
      }
    }

    /** Finds every neighbour of `currentId`, which has just left the queue. */
    method Expand(ghost start: nat, visited: set<nat>, eventIds: seq<nat>, queue: seq<nat>, currentId: nat)
      returns (visited': set<nat>, eventIds': seq<nat>, queue': seq<nat>)
      requires Searching(rows, start, visited, eventIds, queue, {currentId}) && Connected(rows, start, currentId)
      ensures Searching(rows, start, visited', eventIds', queue', {})
      ensures visited <= visited' && (visited' == visited ==> queue' == queue)
    {
      visited', eventIds', queue' := visited, eventIds, queue;
      var reverseLinked := ReverseLinks(currentId);
      for i := 0 to |reverseLinked|
        invariant Searching(rows, start, visited', eventIds', queue', {currentId})
        invariant visited <= visited' && (visited' == visited ==> queue' == queue)
        invariant forall k | 0 <= k < i :: reverseLinked[k] in visited'
      {
        ConnectedExtend(rows, start, currentId, reverseLinked[i]);
        visited', eventIds', queue' := Visit(start, {currentId}, visited', eventIds', queue', reverseLinked[i]);
      }
      if Live(rows, currentId) && rows[currentId].link.Some? {
        var fwd := rows[currentId].link.value;
        ConnectedExtend(rows, start, currentId, fwd);
        visited', eventIds', queue' := Visit(start, {currentId}, visited', eventIds', queue', fwd);
      }
      assert forall b | Links(rows, b, currentId) :: b in reverseLinked;
      CloseStep(rows, start, visited', eventIds', queue', currentId);
    }

    /** Breadth-first search from `start` along links taken in both directions. */
    method CollectChain(start: nat) returns (eventIds: seq<nat>)
      requires Live(rows, start)
      ensures forall id :: id in eventIds <==> Connected(rows, start, id)
      ensures forall i, j | 0 <= i < j < |eventIds| :: eventIds[i] != eventIds[j]
    {
      eventIds := [start];
      var visited, queue := {start}, [start];
      ConnectedSelf(rows, start);
      if rows[start].link.Some? {
        var fwd := rows[start].link.value;
        ConnectedExtend(rows, start, start, fwd);
        visited, eventIds, queue := Visit(start, {}, visited, eventIds, queue, fwd);
      }
      while queue != []
        invariant Searching(rows, start, visited, eventIds, queue, {})
        decreases Mentioned(rows) + {start} - visited, |queue|
      {
        var currentId := queue[0];
        PopStep(rows, start, visited, eventIds, queue);
        queue := queue[1..];
        visited, eventIds, queue := Expand(start, visited, eventIds, queue, currentId);
        VisitedIsMentioned(rows, start, visited, eventIds, queue, {});
      }
      VisitedIsComponent(rows, start, visited, eventIds);
    }

    /** Undoes a cancel or a reschedule, and derives the dates of the class again. */
    method DeleteOverrideEvent(eventId: nat, classId: nat, horizon: Horizon) returns (ok: bool)
      requires Valid()
      modifies this
      ensures Valid()
      ensures ok <==> Live(old(rows), eventId) && Times(old(rows)[eventId].rule) != []
                      && Derivable(old(classes), series, classId)
      ensures if ok then DerivedAgain(old(classes), classes, series, classId, rows, horizon)
              else classes == old(classes) && Snapshot() == old(Snapshot())
      ensures ok ==> rows.Keys == old(rows).Keys && nextId == old(nextId)
      ensures ok ==> forall id | id in rows ::
                rows[id] == if Connected(old(rows), eventId, id) then old(rows)[id].(deleted := true) else old(rows)[id]
      ensures ok ==> var undone := old(rows)[eventId];
                     forall a :: a in attendance <==>
                       a in old(attendance) && !(a.eventId == undone.eventId && a.day == Day(Times(undone.rule)[0]))
      ensures ok ==> forall a, b | Links(rows, a, b) :: b in old(rows) && !old(rows)[b].deleted ==> Live(rows, b)
    {
      var savedRows, savedNextId, savedAttendance := rows, nextId, attendance;
      ok := DeleteRows(eventId);
      if ok {
        ok := SyncClassDateBoundaries(classId, horizon);
        if !ok {
          RollBack(savedRows, savedNextId, savedAttendance);
        }
      }
    }

    /** The whole chain goes, and no survivor links into it. */
    method DeleteRows(eventId: nat) returns (ok: bool)
      requires Valid()
      modifies this`rows, this`attendance
      ensures Valid()
      ensures DeleteChain(old(Snapshot()), eventId) == if ok then Ok(Snapshot()) else Err
      ensures !ok ==> Snapshot() == old(Snapshot())
      ensures ok ==> forall id :: Live(rows, id) <==> old(Live(rows, id) && !Connected(rows, eventId, id))
      ensures ok ==> forall a, b | Links(rows, a, b) :: b in old(rows) && !old(rows)[b].deleted ==> Live(rows, b)
    {
      ok := Live(rows, eventId) && FirstDay(rows[eventId].rule).Some?;
      if ok {
        var override := rows[eventId];
        var eventIds := CollectChain(eventId);
        var ids := set id | id in eventIds;
        assert ids == Component(rows, eventId);
        forall a, b | Links(rows, a, b)
          ensures a in ids <==> b in ids
        {
          ComponentIsIsolated(rows, eventId, a, b);
        }
        SoftDeleteKeys(rows, ids);
        attendance := DropAttendance(attendance, override.eventId, FirstDay(override.rule).value);
        rows := SoftDelete(rows, ids);
      }
    }

    /** Lifts one cancellation; the override and its link stay. */
    method UncancelOverride(overrideId: nat)
      requires Valid()
      modifies this`rows
      ensures Valid()
      ensures rows == LiftCancel(old(rows), overrideId)
      ensures rows.Keys == old(rows).Keys
      ensures forall id | id in rows ::
                rows[id] == if id == overrideId && !old(rows)[id].deleted
                            then old(rows)[id].(cancelled := false, reason := "") else old(rows)[id]
    {
      if Live(rows, overrideId) {
        rows := rows[overrideId := rows[overrideId].(cancelled := false, reason := "")];
        assert forall a, b :: SameKey(rows, a, b) ==> old(SameKey(rows, a, b));
      }
    }
  }

  /** The state of the search: everything found is connected, and closed but for the frontier. */
  ghost predicate Searching(rows: Rows, start: nat, visited: set<nat>, eventIds: seq<nat>, queue: seq<nat>,
      open: set<nat>) {
    && start in visited
    && (forall id :: id in eventIds <==> id in visited)
    && (forall i, j | 0 <= i < j < |eventIds| :: eventIds[i] != eventIds[j])
    && (forall id | id in queue :: id in visited)
    && (forall id | id in visited :: Connected(rows, start, id))
    && (forall a, b | a in visited && a !in queue && a !in open && Adjacent(rows, a, b) :: b in visited)
  }

  lemma VisitStep(rows: Rows, start: nat, visited: set<nat>, eventIds: seq<nat>, queue: seq<nat>, open: set<nat>,
      id: nat)
    requires Searching(rows, start, visited, eventIds, queue, open)
    requires id !in visited && Connected(rows, start, id)
    ensures Searching(rows, start, visited + {id}, eventIds + [id], queue + [id], open)
  {
  }

  lemma PopStep(rows: Rows, start: nat, visited: set<nat>, eventIds: seq<nat>, queue: seq<nat>)
    requires queue != [] && Searching(rows, start, visited, eventIds, queue, {})
    ensures Searching(rows, start, visited, eventIds, queue[1..], {queue[0]})
  {
    assert queue == [queue[0]] + queue[1..];
  }

  lemma CloseStep(rows: Rows, start: nat, visited: set<nat>, eventIds: seq<nat>, queue: seq<nat>, id: nat)
    requires Searching(rows, start, visited, eventIds, queue, {id})
    requires forall b | Adjacent(rows, id, b) :: b in visited
    ensures Searching(rows, start, visited, eventIds, queue, {})
  {
  }

  lemma VisitedIsMentioned(rows: Rows, start: nat, visited: set<nat>, eventIds: seq<nat>, queue: seq<nat>,
      open: set<nat>)
    requires Searching(rows, start, visited, eventIds, queue, open)
    ensures visited <= Mentioned(rows) + {start}
  {
    ComponentMentioned(rows, start);
  }

  lemma VisitedIsComponent(rows: Rows, start: nat, visited: set<nat>, eventIds: seq<nat>)
    requires Searching(rows, start, visited, eventIds, [], {})
    ensures forall id :: id in eventIds <==> Connected(rows, start, id)
  {
    forall id | Connected(rows, start, id)
      ensures id in visited
    {
      var p :| Walk(rows, p) && p[0] == start && p[|p| - 1] == id;
      ClosedHoldsComponent(rows, start, visited, p);
    }
  }

  lemma {:induction false} ProcessAllPrefixFails(p: Progress, reqs: seq<Override>, i: nat, total: nat)
    requires i <= |reqs| && ProcessAll(p, reqs[..i], total).Err?
    ensures ProcessAll(p, reqs, total).Err?
  {
    if i < |reqs| {
      assert reqs[..|reqs| - 1][..i] == reqs[..i];
      ProcessAllPrefixFails(p, reqs[..|reqs| - 1], i, total);
    } else {
      assert reqs[..i] == reqs;
    }
  }
}
