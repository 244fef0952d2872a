// The three writers of the override table: creating overrides (single or as a reschedule pair),
// deleting a whole reschedule chain, and lifting a cancellation. A failed call changes nothing.
module OverrideTable {
  import opened Prelude
  import opened Schedule
  import opened OverrideLinks

  datatype Attendance = Attendance(eventId: nat, userId: nat, day: int)

  datatype Table = Table(rows: Rows, nextId: nat, attendance: set<Attendance>)

  /** What the database itself guarantees: the primary key and the partial unique index. */
  predicate WellFormed(t: Table) {
    && 0 < t.nextId
    && UniqueKeys(t.rows)
    && forall id | id in t.rows :: t.rows[id].id == id && 0 < id < t.nextId
  }

  // ----- creating overrides

  /** Where a call stands between two requests: the cancel to link to, and the parents to restore. */
  datatype Progress = Progress(table: Table, linked: Option<nat>, parents: seq<nat>)

  ghost function FindKey(rows: Rows, eventId: nat, rule: OverrideRule): Option<nat> {
    if exists id :: HasKey(rows, id, eventId, rule) then
      var id :| HasKey(rows, id, eventId, rule);
      Some(id)
    else
      None
  }

  lemma FindKeyUnique(rows: Rows, id: nat, eventId: nat, rule: OverrideRule)
    requires UniqueKeys(rows) && HasKey(rows, id, eventId, rule)
    ensures FindKey(rows, eventId, rule) == Some(id)
  {
    var found := FindKey(rows, eventId, rule).value;
    assert SameKey(rows, id, found);
  }

  /** The live reschedule targets of a cancel, other than the row being rewritten. */
  function OldTargets(rows: Rows, cancel: nat, except: nat): set<nat> {
    set id | id in rows && Links(rows, id, cancel) && !rows[id].cancelled && id != except
  }

  function ParentOf(rows: Rows, id: nat): seq<nat>
    requires id in rows
  {
    match rows[id].link
    case Some(parent) => if parent != id then [parent] else []
    case None => []
  }

  /** The unique index and the foreign key of the link. */
  predicate Admissible(rows: Rows, id: nat, row: Override) {
    && (row.link.Some? ==> row.link.value in rows || row.link.value == id)
    && !exists other | other in rows :: other != id && HasKey(rows, other, row.eventId, row.rule)
  }

  /** An UPDATE leaves the id and the event of the row alone. */
  function Overwrite(row: Override, req: Override): Override {
    row.(duration := req.duration, rule := req.rule, cancelled := req.cancelled, room := req.room,
    reason := req.reason, link := req.link, instructor := req.instructor)
  }

  /** Writing one request: UPDATE when it has an id (of a row that may be gone), INSERT otherwise. */
  function Write(t: Table, req: Override): Result<(Table, nat)> {
    var id := if req.id > 0 then req.id else t.nextId;
    if req.id > 0 && !Live(t.rows, id) then Ok((t, id))
    else
      var row := if req.id > 0 then Overwrite(t.rows[id], req) else req.(id := id, deleted := false);
      if !Admissible(t.rows, id, row) then Err
      else Ok((t.(rows := t.rows[id := row], nextId := if req.id > 0 then t.nextId else t.nextId + 1), id))
  }

  /** The summaries and dates a request must be able to produce before it can be committed. */
  predicate Describable(req: Override, total: nat, update: bool) {
    && (req.cancelled || update ==> FirstDay(req.rule).Some?)
    && (!req.cancelled && total > 1 ==> FirstDay(req.rule).Some? && req.duration.Some?)
    && (!req.cancelled && req.instructor.Some? ==> FirstDay(req.rule).Some?)
    && (!req.cancelled && req.room.Some? && total == 1 ==> FirstDay(req.rule).Some?)
  }

  function DropAttendance(attendance: set<Attendance>, eventId: nat, day: int): set<Attendance> {
    set a | a in attendance && !(a.eventId == eventId && a.day == day)
  }

  /** A non-cancelled request after a cancel of the same call is the target of that cancel. */
  predicate IsTarget(p: Progress, req: Override) {
    !req.cancelled && p.linked.Some?
  }

  function Cleaned(p: Progress, req: Override): Rows {
    if IsTarget(p, req) then SoftDelete(p.table.rows, OldTargets(p.table.rows, p.linked.value, req.id))
    else p.table.rows
  }

  ghost function Existing(rows: Rows, req: Override): Option<nat> {
    if req.id == 0 then FindKey(rows, req.eventId, req.rule) else None
  }

  /** The request as it is written: linked to its cancel, or carrying forward the link it overwrites. */
  ghost function Resolved(p: Progress, req: Override): Override {
    var rows := Cleaned(p, req);
    var linkedReq := if IsTarget(p, req) then req.(link := p.linked) else req;
    match Existing(rows, req)
    case Some(id) => linkedReq.(id := id, link := if linkedReq.link.None? then rows[id].link else linkedReq.link)
    case None => linkedReq
  }

  ghost function ProcessRequest(p: Progress, req: Override, total: nat): Result<Progress> {
    var rows := Cleaned(p, req);
    var existing := Existing(rows, req);
    var resolved := Resolved(p, req);
    match Write(p.table.(rows := rows), resolved)
    case Err => Err
    case Ok((t, id)) =>
      if !Describable(req, total, resolved.id > 0) then Err
      else
        Ok(Progress(
             if req.cancelled || resolved.id > 0
             then t.(attendance := DropAttendance(t.attendance, req.eventId, FirstDay(req.rule).value)) else t,
             if req.cancelled && total > 1 then Some(id) else p.linked,
             if existing.Some? then p.parents + ParentOf(rows, existing.value) else p.parents))
  }

  ghost function ProcessAll(p: Progress, reqs: seq<Override>, total: nat): Result<Progress> {
    if reqs == [] then Ok(p)
    else
      match ProcessAll(p, reqs[..|reqs| - 1], total)
      case Ok(q) => ProcessRequest(q, reqs[|reqs| - 1], total)
      case Err => Err
  }

  function Restore(rows: Rows, ids: seq<nat>): Rows {
    map id | id in rows :: if id in ids then rows[id].(deleted := false) else rows[id]
  }

  ghost function CreateOverrides(t: Table, reqs: seq<Override>): Result<Table> {
    match ProcessAll(Progress(t, None, []), reqs, |reqs|)
    case Err => Err
    case Ok(q) =>
      var rows := Restore(q.table.rows, q.parents);
      if UniqueKeys(rows) then Ok(q.table.(rows := rows)) else Err
  }

  /** Attendance goes only on the event and day of some request of the call, and always on those of
      its cancels. */
  lemma {:induction false} AttendanceFollowsRequests(p: Progress, reqs: seq<Override>, total: nat, q: Progress,
      a: Attendance)
    requires ProcessAll(p, reqs, total) == Ok(q)
    ensures a in q.table.attendance ==> a in p.table.attendance
    ensures a in p.table.attendance && a !in q.table.attendance ==>
              exists r :: r in reqs && r.eventId == a.eventId && FirstDay(r.rule) == Some(a.day)
    ensures a in q.table.attendance ==>
              forall r | r in reqs && r.cancelled :: !(r.eventId == a.eventId && FirstDay(r.rule) == Some(a.day))
  {
    if reqs != [] {
      var init, last := reqs[..|reqs| - 1], reqs[|reqs| - 1];
      assert reqs == init + [last];
      AttendanceFollowsRequests(p, init, total, ProcessAll(p, init, total).value, a);
    }
  }

  /** A call of one request removes attendance exactly on the event and day of the request, and only when
      that is a cancel or overwrites a row. */
  lemma SingleAttendanceExactly(t: Table, req: Override, t': Table, a: Attendance)
    requires WellFormed(t) && req.id == 0 && CreateOverrides(t, [req]) == Ok(t')
    ensures a in t'.attendance <==>
              && a in t.attendance
              && !(a.eventId == req.eventId && Times(req.rule) != [] && a.day == Day(Times(req.rule)[0])
                   && (req.cancelled || exists id | id in t.rows :: HasKey(t.rows, id, req.eventId, req.rule)))
  {
    var p := Progress(t, None, []);
    assert [req][..0] == [] && ProcessAll(p, [req], 1) == ProcessRequest(p, req, 1);
    forall id: nat | id in t.rows && HasKey(t.rows, id, req.eventId, req.rule)
      ensures FindKey(t.rows, req.eventId, req.rule) == Some(id)
    {
      FindKeyUnique(t.rows, id, req.eventId, req.rule);
    }
  }

  /** Overwriting a row that is linked to another brings that one back if it was deleted; nothing else
      changes its deleted mark. */
  lemma ParentIsRestored(t: Table, req: Override, id: nat, parent: nat, t': Table)
    requires WellFormed(t) && req.id == 0 && !req.deleted && CreateOverrides(t, [req]) == Ok(t')
    requires HasKey(t.rows, id, req.eventId, req.rule) && t.rows[id].link == Some(parent)
    requires parent != id && parent in t.rows
    ensures parent in t'.rows && t'.rows[parent] == t.rows[parent].(deleted := false)
    ensures forall k | k in t.rows && k != id && k != parent :: k in t'.rows && t'.rows[k] == t.rows[k]
  {
    var p := Progress(t, None, []);
    assert [req][..0] == [] && ProcessAll(p, [req], 1) == ProcessRequest(p, req, 1);
    FindKeyUnique(t.rows, id, req.eventId, req.rule);
    var q := ProcessAll(p, [req], 1).value;
    assert q.parents == [] + [parent];
  }

  /** A request with an id overwrites that row in place, but for its event, or does nothing when it is gone. */
  lemma RequestWithId(t: Table, req: Override, t': Table)
    requires WellFormed(t) && req.id > 0 && CreateOverrides(t, [req]) == Ok(t')
    ensures t'.rows.Keys == t.rows.Keys && t'.nextId == t.nextId
    ensures forall id | id in t.rows ::
              t'.rows[id] == if id == req.id && !t.rows[id].deleted
                             then Override(id, t.rows[id].eventId, req.rule, req.duration, req.cancelled, req.room,
                                           req.instructor, req.reason, req.link, false)
                             else t.rows[id]
  {
    var p := Progress(t, None, []);
    assert [req][..0] == [] && ProcessAll(p, [req], 1) == ProcessRequest(p, req, 1);
    var q := ProcessAll(p, [req], 1).value;
    assert q.parents == [];
  }

  lemma WriteWellFormed(t: Table, req: Override)
    requires WellFormed(t) && Write(t, req).Ok?
    ensures WellFormed(Write(t, req).value.0)
  {
    var (t', id) := Write(t, req).value;
    if t' != t {
      var row := t'.rows[id];
      forall a, b | a in t'.rows && b in t'.rows && SameKey(t'.rows, a, b)
        ensures a == b
      {
        assert a != id && b != id ==> SameKey(t.rows, a, b);
        assert a == id && b != id ==> HasKey(t.rows, b, row.eventId, row.rule);
        assert a != id && b == id ==> HasKey(t.rows, a, row.eventId, row.rule);
      }
    }
  }

  lemma SoftDeleteKeys(rows: Rows, ids: set<nat>)
    requires UniqueKeys(rows)
    ensures UniqueKeys(SoftDelete(rows, ids))
  {
    assert forall a, b :: SameKey(SoftDelete(rows, ids), a, b) ==> SameKey(rows, a, b);
  }

  lemma ProcessWellFormed(p: Progress, req: Override, total: nat)
    requires WellFormed(p.table)
    ensures WellFormed(p.table.(rows := Cleaned(p, req)))
    ensures ProcessRequest(p, req, total).Ok? ==> WellFormed(ProcessRequest(p, req, total).value.table)
  {
    if IsTarget(p, req) {
      SoftDeleteKeys(p.table.rows, OldTargets(p.table.rows, p.linked.value, req.id));
    }
    var t := p.table.(rows := Cleaned(p, req));
    if Write(t, Resolved(p, req)).Ok? {
      WriteWellFormed(t, Resolved(p, req));
    }
  }

  // ----- deleting a chain

  predicate Adjacent(rows: Rows, a: nat, b: nat) {
    Links(rows, a, b) || Links(rows, b, a)
  }

  ghost predicate Walk(rows: Rows, p: seq<nat>) {
    |p| > 0 && forall i | 0 <= i < |p| - 1 :: Adjacent(rows, p[i], p[i + 1])
  }

  /** Joined by links of live rows taken in either direction. */
  ghost predicate Connected(rows: Rows, a: nat, b: nat) {
    exists p :: Walk(rows, p) && p[0] == a && p[|p| - 1] == b
  }

  /** Every id that a link can mention. */
  function Mentioned(rows: Rows): set<nat> {
    rows.Keys + set id | id in rows && rows[id].link.Some? :: rows[id].link.value
  }

  lemma ConnectedExtend(rows: Rows, a: nat, b: nat, c: nat)
    requires Connected(rows, a, b) && Adjacent(rows, b, c)
    ensures Connected(rows, a, c)
  {
    var p :| Walk(rows, p) && p[0] == a && p[|p| - 1] == b;
    var q := p + [c];
    assert Walk(rows, q) && q[0] == a && q[|q| - 1] == c;
  }

  /** A set that holds `start` and every neighbour of its members holds the whole component. */
  lemma ClosedHoldsComponent(rows: Rows, start: nat, closed: set<nat>, p: seq<nat>)
    requires start in closed && Walk(rows, p) && p[0] == start
    requires forall a, b | a in closed && Adjacent(rows, a, b) :: b in closed
    ensures p[|p| - 1] in closed
    decreases |p|
  {
    if |p| > 1 {
      ClosedHoldsComponent(rows, start, closed, p[..|p| - 1]);
      assert Adjacent(rows, p[|p| - 2], p[|p| - 1]);
    }
  }

  ghost function Component(rows: Rows, start: nat): (ids: set<nat>)
    ensures forall id :: id in ids <==> Connected(rows, start, id)
  {
    ComponentMentioned(rows, start);
    set id | id in Mentioned(rows) + {start} && Connected(rows, start, id)
  }

  lemma ComponentMentioned(rows: Rows, start: nat)
    ensures forall id | Connected(rows, start, id) :: id in Mentioned(rows) + {start}
  {
    forall id | Connected(rows, start, id)
      ensures id in Mentioned(rows) + {start}
    {
      var p :| Walk(rows, p) && p[0] == start && p[|p| - 1] == id;
      ClosedHoldsComponent(rows, start, Mentioned(rows) + {start}, p);
    }
  }

  lemma ConnectedSelf(rows: Rows, start: nat)
    ensures Connected(rows, start, start)
  {
    var p := [start];
    assert Walk(rows, p) && p[0] == start && p[|p| - 1] == start;
  }

  /** No survivor of the deletion of a component links into it, and none of its members links out. */
  lemma ComponentIsIsolated(rows: Rows, start: nat, a: nat, b: nat)
    requires Links(rows, a, b)
    ensures a in Component(rows, start) <==> b in Component(rows, start)
  {
    if Connected(rows, start, a) {
      ConnectedExtend(rows, start, a, b);
    }
    if Connected(rows, start, b) {
      ConnectedExtend(rows, start, b, a);
    }
  }

  ghost function DeleteChain(t: Table, id: nat): Result<Table> {
    if !Live(t.rows, id) || FirstDay(t.rows[id].rule).None? then Err
    else Ok(t.(rows := SoftDelete(t.rows, Component(t.rows, id)),
             attendance := DropAttendance(t.attendance, t.rows[id].eventId, FirstDay(t.rows[id].rule).value)))
  }

  function LiftCancel(rows: Rows, id: nat): Rows {
    if Live(rows, id) then rows[id := rows[id].(cancelled := false, reason := "")] else rows
  }
}
