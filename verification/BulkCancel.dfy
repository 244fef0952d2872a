// Cancelling every session of a set of events in a date range in one call.
module BulkCancel {
  import opened Prelude
  import opened Schedule
  import opened OverrideLinks
  import opened OverrideTable
  import opened OverrideStore
  import opened CivilDates

  /** One session: the event it belongs to and the rule text its override would carry. */
  datatype Instance = Instance(event: Event, slot: OverrideRule)

  /** What is asked for: the events of a facility that an instructor gives, on the days of a range. */
  datatype Request = Request(facilityId: nat, instructorId: nat, startDate: string, endDate: string, reason: string)

  datatype AffectedClass = AffectedClass(classId: nat, className: string, cancelledSessions: nat, studentCount: nat)

  /** Nothing to say, all `n` sessions were cancelled before, or some were skipped. */
  datatype Message = NoMessage | AllCancelledBefore(n: nat) | SomeSkipped(cancelled: nat, skipped: nat)

  datatype Response = Response(
    success: bool, sessionCount: nat, classCount: nat, studentCount: nat,
    alreadyCancelledCount: nat, message: Message, classes: seq<AffectedClass>)

  /** Names and active enrolments of the classes, as looked up. */
  datatype Details = Details(names: map<nat, string>, students: map<nat, nat>)

  function NameIn(details: Details, classId: nat): string {
    if classId in details.names then details.names[classId] else ""
  }

  function StudentsIn(details: Details, classId: nat): nat {
    if classId in details.students then details.students[classId] else 0
  }

  /** What the validation of a request demands: all of it, and a reason of 10 to 255 characters. */
  predicate Validates(req: Request) {
    req.instructorId != 0 && req.startDate != "" && req.endDate != "" && 10 <= |req.reason| <= 255
  }

  /** The query; validation never lets the instructor 0, which stands for nobody, come this far. */
  predicate Selects(req: Request, c: Class) {
    && c.facilityId == req.facilityId
    && (if req.instructorId == 0 then c.event.instructor.None? else c.event.instructor == Some(req.instructorId))
  }

  function InstanceAt(event: Event, slotAt: int -> OverrideRule): int -> Instance {
    t => Instance(event, slotAt(t))
  }

  /** The sessions of the selected events from `first` to `last`; `slotAt` writes the override rule of a
      session. An event whose rule does not parse is passed over. */
  function Instances(classes: seq<Class>, req: Request, first: int, last: int,
      slotAt: int -> OverrideRule): seq<Instance> {
    if classes == [] then []
    else
      var c := classes[|classes| - 1];
      Instances(classes[..|classes| - 1], req, first, last, slotAt)
      + if Selects(req, c) && c.event.rule.Some?
        then Map(Between(c.event.rule.value, first, last), InstanceAt(c.event, slotAt)) else []
  }

  lemma {:induction false} InstancesExactly(classes: seq<Class>, req: Request, first: int, last: int,
      slotAt: int -> OverrideRule, i: Instance)
    ensures i in Instances(classes, req, first, last, slotAt) <==>
              exists c, t :: c in classes && c.facilityId == req.facilityId
                             && (if req.instructorId == 0 then c.event.instructor.None?
                                 else c.event.instructor == Some(req.instructorId))
                             && c.event.rule.Some? && Occurs(c.event.rule.value, t) && first <= t <= last
                             && i == Instance(c.event, slotAt(t))
  {
    if classes != [] {
      var init, c := classes[..|classes| - 1], classes[|classes| - 1];
      assert classes == init + [c];
      InstancesExactly(init, req, first, last, slotAt, i);
      if Selects(req, c) && c.event.rule.Some? {
        InstancesOfOne(c.event, first, last, slotAt, i);
      }
    }
  }

  lemma InstancesOfOne(event: Event, first: int, last: int, slotAt: int -> OverrideRule, i: Instance)
    requires event.rule.Some?
    ensures i in Map(Between(event.rule.value, first, last), InstanceAt(event, slotAt)) <==>
              exists t :: Occurs(event.rule.value, t) && first <= t <= last && i == Instance(event, slotAt(t))
  {
    var times := Between(event.rule.value, first, last);
    var instances := Map(times, InstanceAt(event, slotAt));
    if i in instances {
      var k :| 0 <= k < |instances| && instances[k] == i;
      assert times[k] in times;
    }
    if t :| Occurs(event.rule.value, t) && first <= t <= last && i == Instance(event, slotAt(t)) {
      assert t in times;
      var k :| 0 <= k < |times| && times[k] == t;
      assert instances[k] == i;
    }
  }

  predicate Holds(rows: Rows, instance: Instance, cancelled: bool) {
    exists id | id in rows :: HasKey(rows, id, instance.event.id, instance.slot) && rows[id].cancelled == cancelled
  }

  function NotCancelledIn(rows: Rows): Instance -> bool {
    (i: Instance) => !Holds(rows, i, true)
  }

  function NewCancellations(rows: Rows, instances: seq<Instance>): seq<Instance> {
    Filter(instances, NotCancelledIn(rows))
  }

  function CancelRow(instance: Instance, reason: string): Override {
    Override(0, instance.event.id, instance.slot, instance.event.duration, true,
             instance.event.room, None, reason, None, false)
  }

  /** INSERT ... ON CONFLICT (event_id, override_rrule) WHERE deleted_at IS NULL DO NOTHING. */
  function InsertOrSkip(t: Table, row: Override): Table {
    if exists id | id in t.rows :: HasKey(t.rows, id, row.eventId, row.rule) then t
    else t.(rows := t.rows[t.nextId := row.(id := t.nextId)], nextId := t.nextId + 1)
  }

  function InsertAll(t: Table, instances: seq<Instance>, reason: string): Table {
    if instances == [] then t
    else InsertOrSkip(InsertAll(t, instances[..|instances| - 1], reason), CancelRow(instances[|instances| - 1], reason))
  }

  function OfClass(classId: nat): Instance -> bool {
    (i: Instance) => i.event.classId == classId
  }

  function OfOneOf(classes: seq<AffectedClass>): Instance -> bool {
    (i: Instance) => exists c | c in classes :: c.classId == i.event.classId
  }

  function InClass(instances: seq<Instance>, classId: nat): nat {
    |Filter(instances, OfClass(classId))|
  }

  function CancelledSessions(classes: seq<AffectedClass>): nat {
    if classes == [] then 0 else classes[0].cancelledSessions + CancelledSessions(classes[1..])
  }

  function Students(classes: seq<AffectedClass>): nat {
    if classes == [] then 0 else Students(classes[..|classes| - 1]) + classes[|classes| - 1].studentCount
  }

  predicate DistinctClasses(classes: seq<AffectedClass>) {
    forall i, j | 0 <= i < j < |classes| :: classes[i].classId != classes[j].classId
  }

  /** One entry per class with cancellations, counting them. */
  ghost predicate Tallies(classes: seq<AffectedClass>, instances: seq<Instance>, details: Details) {
    && DistinctClasses(classes)
    && (forall i | i in instances :: exists c | c in classes :: c.classId == i.event.classId)
    && (forall c | c in classes :: c.cancelledSessions == InClass(instances, c.classId) > 0)
    && (forall c | c in classes ::
          && c.className == (if c.classId in details.names then details.names[c.classId] else "")
          && c.studentCount == (if c.classId in details.students then details.students[c.classId] else 0))
  }

  // ----- conservation

  /** The students of a list of classes are those of its parts together. */
  lemma {:induction false} StudentsAddUp(classes: seq<AffectedClass>, more: seq<AffectedClass>, c: AffectedClass)
    ensures Students([c]) == c.studentCount
    ensures Students(classes + more) == Students(classes) + Students(more)
  {
    assert [c][..0] == [];
    if more == [] {
      assert classes + more == classes;
    } else {
      StudentsAddUp(classes, more[..|more| - 1], c);
      assert (classes + more)[..|classes + more| - 1] == classes + more[..|more| - 1];
    }
  }

  lemma {:induction false} TalliesSplit(classes: seq<AffectedClass>, instances: seq<Instance>)
    requires DistinctClasses(classes)
    requires forall c | c in classes :: c.cancelledSessions == InClass(instances, c.classId)
    ensures CancelledSessions(classes) == |Filter(instances, OfOneOf(classes))|
  {
    if classes == [] {
      FilterNone(instances, OfOneOf(classes));
    } else {
      TalliesSplit(classes[1..], instances);
      var head, tail, all := OfClass(classes[0].classId), OfOneOf(classes[1..]), OfOneOf(classes);
      assert classes == [classes[0]] + classes[1..];
      forall i: Instance
        ensures all(i) <==> head(i) || tail(i)
        ensures !(head(i) && tail(i))
      {
        if tail(i) {
          var c :| c in classes[1..] && c.classId == i.event.classId;
          assert c in classes;
        }
      }
      FilterUnion(instances, head, tail, all);
      assert |multiset(Filter(instances, all))| == |Filter(instances, all)|;
    }
  }

  /** The cancelled sessions of the classes add up to all the sessions cancelled. */
  lemma SessionsConserved(classes: seq<AffectedClass>, instances: seq<Instance>, details: Details)
    requires Tallies(classes, instances, details)
    ensures CancelledSessions(classes) == |instances|
  {
    TalliesSplit(classes, instances);
    FilterKeepsAll(instances, OfOneOf(classes));
  }

  // ----- idempotence

  lemma {:induction false} InsertAllEffect(t: Table, instances: seq<Instance>, reason: string)
    requires WellFormed(t)
    ensures var t' := InsertAll(t, instances, reason);
            && WellFormed(t') && t.nextId <= t'.nextId
            && (forall id | id in t.rows :: id in t'.rows && t'.rows[id] == t.rows[id])
            && (forall id | id in t'.rows && id !in t.rows :: t'.rows[id].cancelled)
            && (forall i | i in instances :: Holds(t'.rows, i, true) || Holds(t'.rows, i, false))
  {
    if instances != [] {
      var before := InsertAll(t, instances[..|instances| - 1], reason);
      var last := instances[|instances| - 1];
      InsertAllEffect(t, instances[..|instances| - 1], reason);
      var row := CancelRow(last, reason);
      var after := InsertOrSkip(before, row);
      InsertOrSkipWellFormed(before, row);
      if after != before {
        assert HasKey(after.rows, before.nextId, last.event.id, last.slot);
      }
      forall i | i in instances
        ensures Holds(after.rows, i, true) || Holds(after.rows, i, false)
      {
        if i in instances[..|instances| - 1] {
          var id :| id in before.rows && HasKey(before.rows, id, i.event.id, i.slot);
          assert HasKey(after.rows, id, i.event.id, i.slot);
        }
      }
    }
  }

  /** What a bulk cancellation leaves: every row as it was, and new ones that are cancels of sessions asked
      for, with the length and the room of the event, the reason given, and neither instructor nor link. */
  lemma {:induction false} InsertedRows(t: Table, instances: seq<Instance>, reason: string)
    requires WellFormed(t)
    ensures var t' := InsertAll(t, instances, reason);
            && t'.attendance == t.attendance
            && (forall id | id in t.rows :: id in t'.rows && t'.rows[id] == t.rows[id])
            && (forall id | id in t'.rows && id !in t.rows ::
                exists i :: i in instances && IsCancelFor(t'.rows[id], i, reason))
  {
    if instances != [] {
      var init, last := instances[..|instances| - 1], instances[|instances| - 1];
      var before := InsertAll(t, init, reason);
      assert instances == init + [last];
      InsertedRows(t, init, reason);
      InsertAllEffect(t, init, reason);
      var after := InsertOrSkip(before, CancelRow(last, reason));
      forall id | id in after.rows && id !in t.rows
        ensures exists i :: i in instances && IsCancelFor(after.rows[id], i, reason)
      {
        if id in before.rows {
          var i :| i in init && IsCancelFor(before.rows[id], i, reason);
          assert i in instances;
        } else {
          assert IsCancelFor(after.rows[id], last, reason) && last in instances;
        }
      }
    }
  }

  predicate IsCancelFor(row: Override, i: Instance, reason: string) {
    && row.eventId == i.event.id && row.rule == i.slot && row.cancelled && !row.deleted
    && row.duration == i.event.duration && row.room == i.event.room && row.instructor == None
    && row.reason == reason && row.link == None
  }

  lemma InsertOrSkipWellFormed(t: Table, row: Override)
    requires WellFormed(t) && !row.deleted
    ensures WellFormed(InsertOrSkip(t, row))
  {
    var t' := InsertOrSkip(t, row);
    if t' != t {
      forall a, b | a in t'.rows && b in t'.rows && SameKey(t'.rows, a, b)
        ensures a == b
      {
        assert a in t.rows && b in t.rows ==> SameKey(t.rows, a, b);
        assert a !in t.rows && b in t.rows ==> HasKey(t.rows, b, row.eventId, row.rule);
        assert a in t.rows && b !in t.rows ==> HasKey(t.rows, a, row.eventId, row.rule);
      }
    }
  }

  /** A second identical call inserts nothing, and reports every session as already cancelled
      exactly when no live override that is not a cancel holds the slot of one of them. */
  lemma SecondRun(t: Table, instances: seq<Instance>, reason: string, reason': string)
    requires WellFormed(t)
    ensures var t' := InsertAll(t, NewCancellations(t.rows, instances), reason);
            && InsertAll(t', NewCancellations(t'.rows, instances), reason') == t'
            && (NewCancellations(t'.rows, instances) == [] <==> forall i | i in instances :: !Holds(t.rows, i, false))
  {
    var new1 := NewCancellations(t.rows, instances);
    var t' := InsertAll(t, new1, reason);
    InsertAllEffect(t, new1, reason);
    forall i | i in instances
      ensures Holds(t'.rows, i, true) <==> !Holds(t.rows, i, false)
      ensures Holds(t'.rows, i, true) || Holds(t'.rows, i, false)
    {
      if Holds(t.rows, i, false) {
        var a :| a in t.rows && HasKey(t.rows, a, i.event.id, i.slot) && !t.rows[a].cancelled;
        assert HasKey(t'.rows, a, i.event.id, i.slot) && !t'.rows[a].cancelled;
        forall b | b in t'.rows && HasKey(t'.rows, b, i.event.id, i.slot)
          ensures b == a
        {
          assert SameKey(t'.rows, a, b);
        }
      } else if Holds(t.rows, i, true) {
        var a :| a in t.rows && HasKey(t.rows, a, i.event.id, i.slot) && t.rows[a].cancelled;
        assert HasKey(t'.rows, a, i.event.id, i.slot);
      } else {
        assert i in new1;
        var a :| a in t'.rows && HasKey(t'.rows, a, i.event.id, i.slot);
        assert a in t.rows ==> HasKey(t.rows, a, i.event.id, i.slot);
        assert t'.rows[a].cancelled;
      }
    }
    var new2 := NewCancellations(t'.rows, instances);
    InsertHeld(t', new2, reason');
    if new2 != [] {
      assert new2[0] in instances && !Holds(t'.rows, new2[0], true);
    }
    if i :| i in instances && Holds(t.rows, i, false) {
      assert i in new2;
    }
  }

  lemma {:induction false} InsertHeld(t: Table, instances: seq<Instance>, reason: string)
    requires forall i | i in instances :: Holds(t.rows, i, true) || Holds(t.rows, i, false)
    ensures InsertAll(t, instances, reason) == t
  {
    if instances != [] {
      InsertHeld(t, instances[..|instances| - 1], reason);
      var last := instances[|instances| - 1];
      assert last in instances;
      var a :| a in t.rows && HasKey(t.rows, a, last.event.id, last.slot);
    }
  }

  // ----- the call

  /** The slots already cancelled, per event, among the live overrides of the instances. */
  method ExistingCancels(rows: Rows, instances: seq<Instance>) returns (existing: map<nat, set<OverrideRule>>)
    ensures forall i | i in instances ::
              Holds(rows, i, true) <==> i.event.id in existing && i.slot in existing[i.event.id]
  {
    var eventIds, slots: set<OverrideRule> := {}, {};
    for k := 0 to |instances|
      invariant forall j | 0 <= j < k :: instances[j].event.id in eventIds && instances[j].slot in slots
    {
      eventIds, slots := eventIds + {instances[k].event.id}, slots + {instances[k].slot};
    }
    var found := set id | id in rows && Live(rows, id) && rows[id].cancelled
                          && rows[id].eventId in eventIds && rows[id].rule in slots;
    existing := map[];
    var rest := found;
    while rest != {}
      invariant rest <= found
      invariant forall id | id in found && id !in rest ::
                  rows[id].eventId in existing && rows[id].rule in existing[rows[id].eventId]
      invariant forall e, slot | e in existing && slot in existing[e] ::
                  exists id | id in found :: rows[id].eventId == e && rows[id].rule == slot
      decreases rest
    {
      var id :| id in rest;
      var e, slot := rows[id].eventId, rows[id].rule;
      rest := rest - {id};
      existing := existing[e := (if e in existing then existing[e] else {}) + {slot}];
    }
    forall i | i in instances
      ensures Holds(rows, i, true) <==> i.event.id in existing && i.slot in existing[i.event.id]
    {
      if Holds(rows, i, true) {
        var id :| id in rows && HasKey(rows, id, i.event.id, i.slot) && rows[id].cancelled;
        assert id in found;
      }
    }
  }

  method CountByClass(instances: seq<Instance>) returns (classMap: map<nat, nat>)
    ensures forall c :: c in classMap <==> InClass(instances, c) > 0
    ensures forall c | c in classMap :: classMap[c] == InClass(instances, c)
  {
    classMap := map[];
    for k := 0 to |instances|
      invariant forall c :: c in classMap <==> InClass(instances[..k], c) > 0
      invariant forall c | c in classMap :: classMap[c] == InClass(instances[..k], c)
    {
      var c := instances[k].event.classId;
      forall d: nat
        ensures InClass(instances[..k + 1], d) == InClass(instances[..k], d) + if d == c then 1 else 0
      {
        FilterSnoc(instances, k, OfClass(d));
      }
      classMap := classMap[c := (if c in classMap then classMap[c] else 0) + 1];
    }
    assert instances[..|instances|] == instances;
  }

  method TallyByClass(instances: seq<Instance>, details: Details) returns (classes: seq<AffectedClass>)
    ensures Tallies(classes, instances, details)
  {
    var classMap := CountByClass(instances);
    classes := [];
    var rest := classMap.Keys;
    while rest != {}
      invariant rest <= classMap.Keys
      invariant DistinctClasses(classes)
      invariant forall c | c in classes :: c.classId in classMap && c.classId !in rest
      invariant forall d | d in classMap && d !in rest :: exists c | c in classes :: c.classId == d
      invariant forall c | c in classes :: c.cancelledSessions == InClass(instances, c.classId) > 0
      invariant forall c | c in classes ::
                  c.className == NameIn(details, c.classId) && c.studentCount == StudentsIn(details, c.classId)
      decreases rest
    {
      var d :| d in rest;
      var entry := AffectedClass(d, NameIn(details, d), classMap[d], StudentsIn(details, d));
      assert entry in classes + [entry] && forall c | c in classes :: c in classes + [entry];
      classes, rest := classes + [entry], rest - {d};
    }
    forall i | i in instances
      ensures i.event.classId in classMap
    {
      assert i in Filter(instances, OfClass(i.event.classId));
    }
  }

  method ExpandInstances(classes: seq<Class>, req: Request, first: int, last: int, slotAt: int -> OverrideRule)
    returns (instances: seq<Instance>)
    ensures instances == Instances(classes, req, first, last, slotAt)
  {
    instances := [];
    for k := 0 to |classes|
      invariant instances == Instances(classes[..k], req, first, last, slotAt)
    {
      assert classes[..k + 1][..k] == classes[..k];
      if Selects(req, classes[k]) && classes[k].event.rule.Some? {
        var more := ExpandEvent(classes[k].event, first, last, slotAt);
        instances := instances + more;
      }
    }
    assert classes[..|classes|] == classes;
  }

  method ExpandEvent(baseEvent: Event, first: int, last: int, slotAt: int -> OverrideRule)
      returns (instances: seq<Instance>)
    requires baseEvent.rule.Some?
    ensures instances == Map(Between(baseEvent.rule.value, first, last), InstanceAt(baseEvent, slotAt))
  {
    instances := [];
    var occurrences := Between(baseEvent.rule.value, first, last);
    for j := 0 to |occurrences|
      invariant instances == Map(occurrences, InstanceAt(baseEvent, slotAt))[..j]
    {
      instances := instances + [Instance(baseEvent, slotAt(occurrences[j]))];
    }
  }

  method Partition(rows: Rows, instances: seq<Instance>)
      returns (newCancellations: seq<Instance>, alreadyCancelled: seq<Instance>)
    ensures newCancellations == NewCancellations(rows, instances)
    ensures |newCancellations| + |alreadyCancelled| == |instances|
  {
    var existing := ExistingCancels(rows, instances);
    newCancellations, alreadyCancelled := [], [];
    for k := 0 to |instances|
      invariant newCancellations == NewCancellations(rows, instances[..k])
      invariant |newCancellations| + |alreadyCancelled| == k
    {
      var instance := instances[k];
      FilterSnoc(instances, k, NotCancelledIn(rows));
      if instance.event.id in existing && instance.slot in existing[instance.event.id] {
        alreadyCancelled := alreadyCancelled + [instance];
      } else {
        newCancellations := newCancellations + [instance];
      }
    }
    assert instances[..|instances|] == instances;
  }

  method TotalStudents(classes: seq<AffectedClass>) returns (total: nat)
    ensures total == Students(classes)
  {
    total := 0;
    for k := 0 to |classes|
      invariant total == Students(classes[..k])
    {
      assert classes[..k + 1][..k] == classes[..k];
      total := total + classes[k].studentCount;
    }
    assert classes[..|classes|] == classes;
  }

  /** The first and the last minute of the days asked for. */
  function Range(req: Request): Option<(int, int)> {
    match (ParseIso(req.startDate), ParseIso(req.endDate))
    case (Some(first), Some(last)) => Some((DayNumber(first) * DAY_MINUTES, EndOfDay(DayNumber(last))))
    case _ => None
  }

  /** What the call answers for the sessions it selected, given those that were not cancelled yet. */
  ghost predicate Answers(response: Response, instances: seq<Instance>, cancelled: seq<Instance>, details: Details) {
    && response.sessionCount + response.alreadyCancelledCount == |instances|
    && response.sessionCount == |cancelled|
    && Tallies(response.classes, cancelled, details)
    && CancelledSessions(response.classes) == response.sessionCount
    && response.success == (instances != [])
    && response.classCount == |response.classes| && response.studentCount == Students(response.classes)
    && (response.alreadyCancelledCount == 0 ==> response.message == NoMessage)
    && (response.alreadyCancelledCount > 0 && response.sessionCount == 0 ==>
          response.message == AllCancelledBefore(response.alreadyCancelledCount))
    && (response.alreadyCancelledCount > 0 && response.sessionCount > 0 ==>
          response.message == SomeSkipped(response.sessionCount, response.alreadyCancelledCount))
  }

  function Known(details: Result<Details>): Details {
    if details.Ok? then details.value else Details(map[], map[])
  }

  /** The sessions that were not cancelled yet are, and the answer says so. */
  ghost predicate Cancels(
    before: Table, after: Table, instances: seq<Instance>, reason: string, details: Details, response: Response)
  {
    var cancelled := NewCancellations(before.rows, instances);
    after == InsertAll(before, cancelled, reason) && Answers(response, instances, cancelled, details)
  }

  lemma NothingIsCancelled(t: Table, reason: string, details: Details)
    ensures Cancels(t, t, [], reason, details, Response(false, 0, 0, 0, 0, NoMessage, []))
  {
  }

  /** The sessions that a request selects, when it validates and its dates parse. */
  function Selected(classes: seq<Class>, req: Request, slotAt: int -> OverrideRule): Result<seq<Instance>> {
    if !Validates(req) || Range(req).None? then Err
    else Ok(Instances(classes, req, Range(req).value.0, Range(req).value.1, slotAt))
  }

  /** The sessions selected are exactly the occurrences, on the days from the first to the last one asked for,
      of the events of the facility that the instructor gives; a request is refused when it lacks something,
      has a reason of the wrong length, or a date that is not written YYYY-MM-DD. */
  lemma SelectedExactly(classes: seq<Class>, req: Request, slotAt: int -> OverrideRule, first: Date, last: Date,
      i: Instance)
    requires Valid(first) && Valid(last) && req.startDate == Iso(first) && req.endDate == Iso(last)
    ensures Selected(classes, req, slotAt).Ok? <==> req.instructorId != 0 && 10 <= |req.reason| <= 255
    ensures Selected(classes, req, slotAt).Ok? ==>
              (i in Selected(classes, req, slotAt).value <==>
                 exists c, t :: c in classes && c.facilityId == req.facilityId
                                && c.event.instructor == Some(req.instructorId) && c.event.rule.Some?
                                && Occurs(c.event.rule.value, t) && DayNumber(first) <= Day(t) <= DayNumber(last)
                                && i == Instance(c.event, slotAt(t)))
  {
    ParseIsoExactly(req.startDate, first);
    ParseIsoExactly(req.endDate, last);
    var (a, b) := Range(req).value;
    InstancesExactly(classes, req, a, b, slotAt, i);
    forall t: int
      ensures a <= t <= b <==> DayNumber(first) <= Day(t) <= DayNumber(last)
    {
      assert t == Day(t) * DAY_MINUTES + t % DAY_MINUTES;
    }
  }

  lemma UnreadableDates(classes: seq<Class>, req: Request, slotAt: int -> OverrideRule)
    requires (forall d | Valid(d) :: req.startDate != Iso(d)) || (forall d | Valid(d) :: req.endDate != Iso(d))
    ensures Selected(classes, req, slotAt) == Err
  {
    if ParseIso(req.startDate).Some? && ParseIso(req.endDate).Some? {
      ParseIsoExactly(req.startDate, ParseIso(req.startDate).value);
      ParseIsoExactly(req.endDate, ParseIso(req.endDate).value);
    }
  }

  /** No session is selected twice when the events are different ones and their slots tell times apart. */
  lemma {:induction false} SelectedOnce(classes: seq<Class>, req: Request, first: int, last: int,
      slotAt: int -> OverrideRule)
    requires forall t, u | slotAt(t) == slotAt(u) :: t == u
    requires forall i, j | 0 <= i < j < |classes| :: classes[i].event.id != classes[j].event.id
    ensures Distinct(Instances(classes, req, first, last, slotAt))
  {
    if classes != [] {
      var init, c := classes[..|classes| - 1], classes[|classes| - 1];
      SelectedOnce(init, req, first, last, slotAt);
      var before := Instances(init, req, first, last, slotAt);
      forall i | i in before
        ensures i.event.id != c.event.id
      {
        InstancesExactly(init, req, first, last, slotAt, i);
        var c', t :| c' in init && i == Instance(c'.event, slotAt(t));
      }
      if Selects(req, c) && c.event.rule.Some? {
        var times := Between(c.event.rule.value, first, last);
        var added := Map(times, InstanceAt(c.event, slotAt));
        assert forall k | 0 <= k < |added| :: added[k].event == c.event;
        assert Distinct(added);
        assert forall k | 0 <= k < |before| :: before[k] in before;
      }
    }
  }

  method SelectInstances(classes: seq<Class>, req: Request, slotAt: int -> OverrideRule)
      returns (selected: Result<seq<Instance>>)
    ensures selected == Selected(classes, req, slotAt)
  {
    if !Validates(req) || Range(req).None? {
      return Err;
    }
    var instances := ExpandInstances(classes, req, Range(req).value.0, Range(req).value.1, slotAt);
    selected := Ok(instances);
  }

  /** `details` is what the look-ups give, or that one fails; `writes` says whether the inserts succeed.
      Both come in only when there is a session to cancel. */
  method BulkCancelSessions(
    store: Store, classes: seq<Class>, req: Request, slotAt: int -> OverrideRule, details: Result<Details>,
    writes: bool)
    returns (result: Result<Response>)
    requires store.Valid()
    modifies store
    ensures store.Valid() && store.classes == old(store.classes)
    ensures var selected := Selected(classes, req, slotAt);
            result.Ok? <==> selected.Ok? && (selected.value == [] || (details.Ok? && writes))
    ensures result.Err? ==> store.Snapshot() == old(store.Snapshot())
    ensures result.Ok? ==>
              Cancels(old(store.Snapshot()), store.Snapshot(), Selected(classes, req, slotAt).value, req.reason,
                      Known(details), result.value)
  {
    var selected := SelectInstances(classes, req, slotAt);
    if selected.Err? {
      return Err;
    }
    result := CancelSelected(store, selected.value, req.reason, details, writes);
  }

  method CancelSelected(store: Store, instances: seq<Instance>, reason: string, details: Result<Details>, writes: bool)
    returns (result: Result<Response>)
    requires store.Valid()
    modifies store`rows, store`nextId
    ensures store.Valid()
    ensures result.Ok? <==> instances == [] || (details.Ok? && writes)
    ensures result.Err? ==> store.Snapshot() == old(store.Snapshot())
    ensures result.Ok? ==>
              Cancels(old(store.Snapshot()), store.Snapshot(), instances, reason, Known(details), result.value)
  {
    if instances != [] && (details.Err? || !writes) {
      return Err;
    }
    var response := CancelInstances(store, instances, reason, Known(details));
    result := Ok(response);
  }

  method CancelInstances(store: Store, instances: seq<Instance>, reason: string, details: Details)
      returns (response: Response)
    requires store.Valid()
    modifies store`rows, store`nextId
    ensures store.Valid()
    ensures Cancels(old(store.Snapshot()), store.Snapshot(), instances, reason, details, response)
  {
    if instances == [] {
      NothingIsCancelled(store.Snapshot(), reason, details);
      return Response(false, 0, 0, 0, 0, NoMessage, []);
    }
    var newCancellations, alreadyCancelled := Partition(store.rows, instances);
    var affected := TallyByClass(newCancellations, details);
    SessionsConserved(affected, newCancellations, details);
    InsertCancels(store, newCancellations, reason);
    var studentCount := TotalStudents(affected);
    var message := NoMessage;
    if |alreadyCancelled| > 0 {
      message := if |newCancellations| == 0 then AllCancelledBefore(|alreadyCancelled|)
                 else SomeSkipped(|newCancellations|, |alreadyCancelled|);
    }
    response := Response(
      true, |newCancellations|, |affected|, studentCount, |alreadyCancelled|, message, affected);
  }

  method InsertCancels(store: Store, instances: seq<Instance>, reason: string)
    requires store.Valid()
    modifies store`rows, store`nextId
    ensures store.Valid()
    ensures store.Snapshot() == InsertAll(old(store.Snapshot()), instances, reason)
  {
    for k := 0 to |instances|
      invariant store.Valid()
      invariant store.Snapshot() == InsertAll(old(store.Snapshot()), instances[..k], reason)
    {
      assert instances[..k + 1][..k] == instances[..k];
      var row := CancelRow(instances[k], reason);
      InsertOrSkipWellFormed(store.Snapshot(), row);
      if !exists id | id in store.rows :: HasKey(store.rows, id, row.eventId, row.rule) {
        store.rows := store.rows[store.nextId := row.(id := store.nextId)];
        store.nextId := store.nextId + 1;
      }
    }
    assert instances[..|instances|] == instances;
  }
}
