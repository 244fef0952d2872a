// Runs of the override table from an empty table: which steps keep the links of the schedule in
// order, and exactly when a step breaks them.
module OverrideRuns {
  import opened Prelude
  import opened Schedule
  import opened OverrideLinks
  import opened OverrideTable
  import opened BulkCancel

  ghost predicate Ordered(t: Table) {
    WellFormed(t) && Consistent(t.rows)
  }

  /** A request as the handlers build it: no id and no link of its own. */
  predicate Plain(req: Override) {
    req.id == 0 && req.link.None? && !req.deleted
  }

  /** Where the single upsert of a plain request goes, and what it writes there. */
  ghost function Placed(t: Table, req: Override, link: Option<nat>): (nat, Override) {
    match FindKey(t.rows, req.eventId, req.rule)
    case Some(id) => (id, Overwrite(t.rows[id], req.(link := if link.None? then t.rows[id].link else link)))
    case None => (t.nextId, req.(id := t.nextId, link := link))
  }

  ghost predicate AllLive(rows: Rows, ids: seq<nat>) {
    forall id | id in ids :: Live(rows, id)
  }

  lemma ProcessPlain(p: Progress, req: Override, total: nat, t: Table, q: Progress)
    requires t == p.table.(rows := Cleaned(p, req)) && Ordered(t) && AllLive(t.rows, p.parents)
    requires Plain(req) && ProcessRequest(p, req, total) == Ok(q)
    ensures var (id, row) := Placed(t, req, if IsTarget(p, req) then p.linked else None);
            && q.table.rows == t.rows[id := row] && q.table.nextId >= t.nextId
            && q.linked == if req.cancelled && total > 1 then Some(id) else p.linked
    ensures WellFormed(q.table) && AllLive(q.table.rows, q.parents)
  {
    WriteWellFormed(t, Resolved(p, req));
    var existing := Existing(t.rows, req);
    if existing.Some? && t.rows[existing.value].link.Some? {
      assert Links(t.rows, existing.value, t.rows[existing.value].link.value);
    }
  }

  lemma RestoreLive(rows: Rows, ids: seq<nat>)
    requires AllLive(rows, ids)
    ensures Restore(rows, ids) == rows
  {
  }

  // ----- one request

  /** Making override `id` count again leaves no link dangling and no cancel with two targets. */
  ghost predicate MayCountAgain(rows: Rows, id: nat) {
    Live(rows, id) && rows[id].cancelled ==>
      Unlinked(rows, id) && (rows[id].link.Some? ==> NoOtherTarget(rows, id, rows[id].link.value))
  }

  ghost predicate SingleGuard(t: Table, req: Override) {
    var existing := FindKey(t.rows, req.eventId, req.rule);
    req.cancelled || existing.None? || MayCountAgain(t.rows, existing.value)
  }

  lemma FreshIsUnlinked(t: Table, id: nat)
    requires Ordered(t) && t.nextId <= id
    ensures forall a :: !Links(t.rows, a, id)
  {
  }

  lemma PlacedConsistent(t: Table, req: Override)
    requires Ordered(t) && Plain(req)
    ensures var (id, row) := Placed(t, req, None);
            Consistent(t.rows[id := row]) <==> SingleGuard(t, req)
  {
    var (id, row) := Placed(t, req, None);
    forall a | HasKey(t.rows, a, row.eventId, row.rule)
      ensures a == id
    {
      FindKeyUnique(t.rows, a, req.eventId, req.rule);
    }
    FreshIsUnlinked(t, t.nextId);
    if Live(t.rows, id) && row.link.Some? {
      assert Links(t.rows, id, row.link.value);
      LinkIsNotSelf(t.rows, id);
    }
    PutConsistent(t.rows, id, row);
  }

  lemma LinkIsNotSelf(rows: Rows, id: nat)
    requires Acyclic(rows)
    ensures !Links(rows, id, id)
  {
    if Links(rows, id, id) {
      assert LinkPath(rows, [id, id]);
    }
  }

  lemma SingleProcess(t: Table, req: Override, q: Progress)
    requires Ordered(t) && Plain(req) && ProcessAll(Progress(t, None, []), [req], 1) == Ok(q)
    ensures var (id, row) := Placed(t, req, None); q.table.rows == t.rows[id := row]
    ensures WellFormed(q.table) && AllLive(q.table.rows, q.parents)
  {
    var p := Progress(t, None, []);
    assert [req][..0] == [] && ProcessAll(p, [req], 1) == ProcessRequest(p, req, 1);
    ProcessPlain(p, req, 1, t, q);
  }

  lemma SingleTheorem(t: Table, req: Override, t': Table)
    requires Ordered(t) && Plain(req) && CreateOverrides(t, [req]) == Ok(t')
    ensures Ordered(t') <==> SingleGuard(t, req)
    ensures var (id, row) := Placed(t, req, None); t'.rows == t.rows[id := row]
  {
    var q := ProcessAll(Progress(t, None, []), [req], 1).value;
    SingleProcess(t, req, q);
    RestoreLive(q.table.rows, q.parents);
    PlacedConsistent(t, req);
  }

  // ----- a reschedule: a cancel and its target in one call

  ghost predicate RescheduleGuard(t: Table, from: Override, to: Override) {
    && (from.eventId != to.eventId || from.rule != to.rule)
    && var target := FindKey(t.rows, to.eventId, to.rule);
       target.Some? && t.rows[target.value].cancelled ==> Unlinked(t.rows, target.value)
  }

  predicate IsReschedule(from: Override, to: Override) {
    Plain(from) && Plain(to) && from.cancelled && !to.cancelled
  }

  /** The table between the two requests: the cancel written, its old targets gone. */
  ghost function Cancelled(t: Table, from: Override): Rows {
    var (id, row) := Placed(t, from, None);
    var rows := t.rows[id := row];
    SoftDelete(rows, OldTargets(rows, id, 0))
  }

  lemma CancelledConsistent(t: Table, from: Override)
    requires Ordered(t) && Plain(from) && from.cancelled
    ensures Consistent(Cancelled(t, from))
    ensures var (id, row) := Placed(t, from, None);
            && Live(Cancelled(t, from), id) && Cancelled(t, from)[id] == row && row.cancelled
            && forall a | Links(Cancelled(t, from), a, id) :: Cancelled(t, from)[a].cancelled
  {
    var (id, row) := Placed(t, from, None);
    var rows := t.rows[id := row];
    PlacedConsistent(t, from);
    assert rows[id] == row;
    DeleteConsistent(rows, OldTargets(rows, id, 0));
    LinkIsNotSelf(rows, id);
  }

  /** Links into the row of another slot are the same before and after the cancel. */
  lemma CancelledLinks(t: Table, from: Override, f: nat)
    requires Ordered(t) && Plain(from) && from.cancelled
    requires Live(t.rows, f) && t.rows[f].cancelled && f != Placed(t, from, None).0
    ensures Unlinked(Cancelled(t, from), f) <==> Unlinked(t.rows, f)
    ensures Live(Cancelled(t, from), f) && Cancelled(t, from)[f] == t.rows[f]
  {
    var (id, row) := Placed(t, from, None);
    FreshIsUnlinked(t, t.nextId);
    forall a
      ensures Links(Cancelled(t, from), a, f) <==> Links(t.rows, a, f)
    {
    }
  }

  /** A reschedule writes the target into the table `mid` that the cancel leaves. */
  lemma RescheduleProcess(t: Table, from: Override, to: Override, q: Progress) returns (mid: Table)
    requires Ordered(t) && IsReschedule(from, to) && ProcessAll(Progress(t, None, []), [from, to], 2) == Ok(q)
    ensures mid.rows == Cancelled(t, from) && mid.nextId >= t.nextId && Ordered(mid)
    ensures var (f, row) := Placed(mid, to, Some(Placed(t, from, None).0)); q.table.rows == mid.rows[f := row]
    ensures WellFormed(q.table) && AllLive(q.table.rows, q.parents)
  {
    var (id, row) := Placed(t, from, None);
    var p := Progress(t, None, []);
    assert [from, to][..1] == [from] && [from][..0] == [];
    assert ProcessAll(p, [from], 2) == ProcessRequest(p, from, 2);
    var half := ProcessAll(p, [from], 2).value;
    ProcessPlain(p, from, 2, t, half);
    CancelledConsistent(t, from);
    mid := half.table.(rows := Cleaned(half, to));
    SoftDeleteKeys(half.table.rows, OldTargets(half.table.rows, id, 0));
    assert Ordered(mid);
    ParentsSurvive(t, from, half);
    ProcessPlain(half, to, 2, mid, q);
  }

  lemma RescheduleOutcome(t: Table, from: Override, to: Override, t': Table) returns (mid: Table)
    requires Ordered(t) && IsReschedule(from, to) && CreateOverrides(t, [from, to]) == Ok(t')
    ensures mid.rows == Cancelled(t, from) && mid.nextId >= t.nextId && Ordered(mid)
    ensures var (f, row) := Placed(mid, to, Some(Placed(t, from, None).0)); t'.rows == mid.rows[f := row]
    ensures WellFormed(t')
  {
    var q := ProcessAll(Progress(t, None, []), [from, to], 2).value;
    mid := RescheduleProcess(t, from, to, q);
    RestoreLive(q.table.rows, q.parents);
  }

  /** The closing "restore parents" update of a single override changes nothing ... */
  lemma SingleRestoreIsIdle(t: Table, req: Override, q: Progress)
    requires Ordered(t) && Plain(req) && ProcessAll(Progress(t, None, []), [req], 1) == Ok(q)
    ensures Restore(q.table.rows, q.parents) == q.table.rows
  {
    SingleProcess(t, req, q);
  }

  /** ... nor does that of a reschedule. */
  lemma RescheduleRestoreIsIdle(t: Table, from: Override, to: Override, q: Progress)
    requires Ordered(t) && IsReschedule(from, to) && ProcessAll(Progress(t, None, []), [from, to], 2) == Ok(q)
    ensures Restore(q.table.rows, q.parents) == q.table.rows
  {
    var mid := RescheduleProcess(t, from, to, q);
    RestoreLive(q.table.rows, q.parents);
  }

  lemma ParentsSurvive(t: Table, from: Override, q: Progress)
    requires Ordered(t) && Plain(from) && from.cancelled
    requires ProcessRequest(Progress(t, None, []), from, 2) == Ok(q)
    ensures AllLive(Cancelled(t, from), q.parents)
  {
    var p := Progress(t, None, []);
    ProcessPlain(p, from, 2, t, q);
    var existing := Existing(t.rows, from);
    if existing.Some? && t.rows[existing.value].link.Some? {
      assert Links(t.rows, existing.value, t.rows[existing.value].link.value);
    }
  }

  lemma RescheduleTheorem(t: Table, from: Override, to: Override, t': Table)
    requires Ordered(t) && IsReschedule(from, to) && CreateOverrides(t, [from, to]) == Ok(t')
    ensures Ordered(t') <==> RescheduleGuard(t, from, to)
  {
    var mid := RescheduleOutcome(t, from, to, t');
    CancelledConsistent(t, from);
    var (f, target) := Placed(mid, to, Some(Placed(t, from, None).0));
    forall a | HasKey(mid.rows, a, target.eventId, target.rule)
      ensures a == f
    {
      FindKeyUnique(mid.rows, a, to.eventId, to.rule);
    }
    PutConsistent(mid.rows, f, target);
    FreshIsUnlinked(mid, mid.nextId);
    TargetPlace(t, from, to, mid);
  }

  /** Whether the target row fits, in terms of the table before the call. */
  lemma TargetPlace(t: Table, from: Override, to: Override, mid: Table)
    requires Ordered(t) && Ordered(mid) && IsReschedule(from, to)
    requires mid.rows == Cancelled(t, from) && mid.nextId >= t.nextId
    ensures var (f, _) := Placed(mid, to, None);
            (f != Placed(t, from, None).0 && Unlinked(mid.rows, f)) <==> RescheduleGuard(t, from, to)
  {
    var (id, row) := Placed(t, from, None);
    var (f, _) := Placed(mid, to, None);
    CancelledConsistent(t, from);
    FreshIsUnlinked(mid, mid.nextId);
    var before := FindKey(t.rows, to.eventId, to.rule);
    if from.eventId == to.eventId && from.rule == to.rule {
      FindKeyUnique(mid.rows, id, to.eventId, to.rule);
    } else if before.Some? && t.rows[before.value].cancelled {
      CancelledLinks(t, from, before.value);
      FindKeyUnique(mid.rows, before.value, to.eventId, to.rule);
    } else if FindKey(mid.rows, to.eventId, to.rule).Some? {
      assert HasKey(t.rows, f, to.eventId, to.rule);
      FindKeyUnique(t.rows, f, to.eventId, to.rule);
      assert !mid.rows[f].cancelled;
    }
  }

  // ----- when a call succeeds

  lemma PlainSucceeds(p: Progress, req: Override, total: nat, t: Table)
    requires t == p.table.(rows := Cleaned(p, req)) && Ordered(t) && Plain(req)
    requires IsTarget(p, req) ==> p.linked.value in t.rows
    ensures ProcessRequest(p, req, total).Ok? <==> Describable(req, total, FindKey(t.rows, req.eventId, req.rule).Some?)
  {
    var existing := FindKey(t.rows, req.eventId, req.rule);
    forall other: nat | HasKey(t.rows, other, req.eventId, req.rule)
      ensures existing == Some(other)
    {
      FindKeyUnique(t.rows, other, req.eventId, req.rule);
    }
    if existing.Some? && t.rows[existing.value].link.Some? {
      assert Links(t.rows, existing.value, t.rows[existing.value].link.value);
    }
  }

  /** A single override is refused only for a date that does not parse and is needed: always for a
      cancel, or when the slot is held already, or when a room or an instructor is named. */
  lemma SingleSucceeds(t: Table, req: Override)
    requires Ordered(t) && Plain(req)
    ensures CreateOverrides(t, [req]).Ok? <==>
              FirstDay(req.rule).Some?
              || (!req.cancelled && FindKey(t.rows, req.eventId, req.rule).None? && req.room.None?
                  && req.instructor.None?)
  {
    var p := Progress(t, None, []);
    assert [req][..0] == [] && ProcessAll(p, [req], 1) == ProcessRequest(p, req, 1);
    PlainSucceeds(p, req, 1, t);
    if ProcessAll(p, [req], 1).Ok? {
      var q := ProcessAll(p, [req], 1).value;
      SingleProcess(t, req, q);
      RestoreLive(q.table.rows, q.parents);
    }
  }

  /** A reschedule is refused exactly when one of its dates or the new length does not parse. */
  lemma RescheduleSucceeds(t: Table, from: Override, to: Override)
    requires Ordered(t) && IsReschedule(from, to)
    ensures CreateOverrides(t, [from, to]).Ok? <==>
              FirstDay(from.rule).Some? && FirstDay(to.rule).Some? && to.duration.Some?
  {
    var p := Progress(t, None, []);
    assert [from, to][..1] == [from] && [from][..0] == [];
    assert ProcessAll(p, [from], 2) == ProcessRequest(p, from, 2);
    PlainSucceeds(p, from, 2, t);
    if ProcessAll(p, [from], 2).Ok? {
      var (id, row) := Placed(t, from, None);
      var half := ProcessAll(p, [from], 2).value;
      ProcessPlain(p, from, 2, t, half);
      CancelledConsistent(t, from);
      var mid := half.table.(rows := Cleaned(half, to));
      SoftDeleteKeys(half.table.rows, OldTargets(half.table.rows, id, 0));
      PlainSucceeds(half, to, 2, mid);
      if ProcessAll(p, [from, to], 2).Ok? {
        var q := ProcessAll(p, [from, to], 2).value;
        var mid' := RescheduleProcess(t, from, to, q);
        RestoreLive(q.table.rows, q.parents);
      }
    }
  }

  // ----- what a call leaves behind

  /** The row carries everything the request says about the session. */
  predicate Carries(row: Override, req: Override) {
    && row.eventId == req.eventId && row.rule == req.rule && row.cancelled == req.cancelled && !row.deleted
    && row.duration == req.duration && row.room == req.room && row.instructor == req.instructor
        && row.reason == req.reason
  }

  /** A single override reads back at its slot, keeps the id and the link of the row it overwrites, and
      leaves every other row alone. */
  lemma SingleReadsBack(t: Table, req: Override, t': Table)
    requires Ordered(t) && Plain(req) && CreateOverrides(t, [req]) == Ok(t') && SingleGuard(t, req)
    ensures var found := FindKey(t'.rows, req.eventId, req.rule);
            && found.Some? && Carries(t'.rows[found.value], req)
            && (found.value in t.rows ==> t'.rows[found.value].link == t.rows[found.value].link)
            && (found.value !in t.rows ==> t'.rows[found.value].link == None)
            && forall id | id != found.value ::
                (id in t'.rows <==> id in t.rows) && (id in t.rows ==> t'.rows[id] == t.rows[id])
  {
    SingleTheorem(t, req, t');
    var (id, row) := Placed(t, req, None);
    FindKeyUnique(t'.rows, id, req.eventId, req.rule);
  }

  /** A reschedule reads back as a cancel at the old slot and a counting override at the new one that
      is linked to it; of the other live rows only the cancel's earlier targets go. */
  lemma RescheduleReadsBack(t: Table, from: Override, to: Override, t': Table)
    requires Ordered(t) && IsReschedule(from, to) && CreateOverrides(t, [from, to]) == Ok(t')
        && RescheduleGuard(t, from, to)
    ensures var (cancel, target) := (FindKey(t'.rows, from.eventId, from.rule), FindKey(t'.rows, to.eventId, to.rule));
            && cancel.Some? && Carries(t'.rows[cancel.value], from)
            && target.Some? && Carries(t'.rows[target.value], to) && t'.rows[target.value].link == Some(cancel.value)
            && forall id | Live(t.rows, id) && id != cancel.value && id != target.value ::
                 id in t'.rows && t'.rows[id] == if t.rows[id].link == cancel && !t.rows[id].cancelled
                                                 then t.rows[id].(deleted := true) else t.rows[id]
  {
    RescheduleTheorem(t, from, to, t');
    var mid := RescheduleOutcome(t, from, to, t');
    TargetPlace(t, from, to, mid);
    CancelledConsistent(t, from);
    var (id, row) := Placed(t, from, None);
    var (f, target) := Placed(mid, to, Some(id));
    FindKeyUnique(t'.rows, id, from.eventId, from.rule);
    FindKeyUnique(t'.rows, f, to.eventId, to.rule);
  }

  // ----- the other steps

  lemma DeleteChainTheorem(t: Table, id: nat, t': Table)
    requires Ordered(t) && DeleteChain(t, id) == Ok(t')
    ensures Ordered(t')
  {
    SoftDeleteKeys(t.rows, Component(t.rows, id));
    forall a, b | Links(t.rows, a, b) && b in Component(t.rows, id)
      ensures a in Component(t.rows, id)
    {
      ComponentIsIsolated(t.rows, id, a, b);
    }
    DeleteConsistent(t.rows, Component(t.rows, id));
  }

  lemma LiftTheorem(t: Table, id: nat)
    requires Ordered(t)
    ensures Ordered(t.(rows := LiftCancel(t.rows, id))) <==> MayCountAgain(t.rows, id)
  {
    if Live(t.rows, id) {
      var row := t.rows[id].(cancelled := false, reason := "");
      forall a | HasKey(t.rows, a, row.eventId, row.rule)
        ensures a == id
      {
        assert SameKey(t.rows, id, a);
      }
      LinkIsNotSelf(t.rows, id);
      if row.link.Some? {
        assert Links(t.rows, id, row.link.value);
      }
      PutConsistent(t.rows, id, row);
    }
  }

  lemma {:induction false} BulkCancelTheorem(t: Table, instances: seq<Instance>, reason: string)
    requires Ordered(t)
    ensures Ordered(InsertAll(t, instances, reason))
  {
    if instances != [] {
      BulkCancelTheorem(t, instances[..|instances| - 1], reason);
      var before := InsertAll(t, instances[..|instances| - 1], reason);
      var row := CancelRow(instances[|instances| - 1], reason);
      InsertOrSkipWellFormed(before, row);
      FreshIsUnlinked(before, before.nextId);
      if InsertOrSkip(before, row) != before {
        PutConsistent(before.rows, before.nextId, row.(id := before.nextId));
      }
    }
  }

  // ----- runs

  datatype Step =
    | Single(req: Override)
    | Reschedule(from: Override, to: Override)
    | Undo(id: nat)
    | Lift(id: nat)
    | Bulk(instances: seq<Instance>, reason: string)

  predicate WellShaped(step: Step) {
    match step
    case Single(req) => Plain(req)
    case Reschedule(from, to) => IsReschedule(from, to)
    case _ => true
  }

  ghost function Outcome(t: Table, step: Step): Result<Table> {
    match step
    case Single(req) => CreateOverrides(t, [req])
    case Reschedule(from, to) => CreateOverrides(t, [from, to])
    case Undo(id) => DeleteChain(t, id)
    case Lift(id) => Ok(t.(rows := LiftCancel(t.rows, id)))
    case Bulk(instances, reason) => Ok(InsertAll(t, NewCancellations(t.rows, instances), reason))
  }

  /** What a caller can check before the step: single cancels, chain deletes and bulk cancels are
      always safe; anything that makes a slot count again needs its cancel to be unlinked. */
  ghost predicate Guard(t: Table, step: Step) {
    match step
    case Single(req) => SingleGuard(t, req)
    case Reschedule(from, to) => RescheduleGuard(t, from, to)
    case Undo(_) => true
    case Lift(id) => MayCountAgain(t.rows, id)
    case Bulk(_, _) => true
  }

  /** A step that succeeds keeps the table ordered exactly when its guard holds. */
  lemma StepTheorem(t: Table, step: Step, t': Table)
    requires Ordered(t) && WellShaped(step) && Outcome(t, step) == Ok(t')
    ensures Ordered(t') <==> Guard(t, step)
  {
    match step
    case Single(req) => SingleTheorem(t, req, t');
    case Reschedule(from, to) => RescheduleTheorem(t, from, to, t');
    case Undo(id) => DeleteChainTheorem(t, id, t');
    case Lift(id) => LiftTheorem(t, id);
    case Bulk(instances, reason) => BulkCancelTheorem(t, NewCancellations(t.rows, instances), reason);
  }

  /** A failed step rolls back. */
  ghost function After(t: Table, step: Step): Table {
    match Outcome(t, step)
    case Ok(t') => t'
    case Err => t
  }

  ghost function Run(t: Table, steps: seq<Step>): Table {
    if steps == [] then t else After(Run(t, steps[..|steps| - 1]), steps[|steps| - 1])
  }

  const EMPTY: Table := Table(map[], 1, {})

  /** Over every run of guarded steps from the empty table the live keys stay unique, every link
      lands on a live cancel, links are acyclic and a cancel has at most one counting target. */
  lemma {:induction false} EveryRunIsOrdered(steps: seq<Step>)
    requires forall i | 0 <= i < |steps| :: WellShaped(steps[i]) && Guard(Run(EMPTY, steps[..i]), steps[i])
    ensures Ordered(Run(EMPTY, steps))
  {
    if steps == [] {
      assert Consistent(map[]) by {
        assert forall p: seq<nat> | LinkPath(map[], p) && |p| > 1 :: Links(map[], p[0], p[1]);
      }
    } else {
      var n := |steps| - 1;
      forall i | 0 <= i < n
        ensures WellShaped(steps[..n][i]) && Guard(Run(EMPTY, steps[..n][..i]), steps[..n][i])
      {
        assert steps[..n][..i] == steps[..i];
      }
      EveryRunIsOrdered(steps[..n]);
      var t := Run(EMPTY, steps[..n]);
      if Outcome(t, steps[n]).Ok? {
        StepTheorem(t, steps[n], Outcome(t, steps[n]).value);
      }
    }
  }

  /** Links are not acyclic in general: from the empty table, rescheduling A to B and then B back to A
      succeeds, links the two overrides to each other, and the guard of the second step is what fails. */
  lemma BackAndForthMakesACycle(a: Override, b: Override) returns (t: Table, t': Table)
    requires Plain(a) && Plain(b) && a.cancelled && b.cancelled && (a.eventId != b.eventId || a.rule != b.rule)
    requires FirstDay(a.rule).Some? && FirstDay(b.rule).Some? && a.duration.Some? && b.duration.Some?
    ensures var (there, back) := (Reschedule(a, b.(cancelled := false)), Reschedule(b, a.(cancelled := false)));
            && Guard(EMPTY, there) && Outcome(EMPTY, there) == Ok(t)
            && !Guard(t, back) && Outcome(t, back) == Ok(t')
    ensures exists x, y :: x != y && Links(t'.rows, x, y) && Links(t'.rows, y, x)
  {
    var to, back := b.(cancelled := false), a.(cancelled := false);
    EveryRunIsOrdered([]);
    RescheduleSucceeds(EMPTY, a, to);
    t := CreateOverrides(EMPTY, [a, to]).value;
    RescheduleTheorem(EMPTY, a, to, t);
    RescheduleSucceeds(t, b, back);
    t' := CreateOverrides(t, [b, back]).value;
    BackAndForthLinks(EMPTY, a, b, t, t');
  }

  lemma BackAndForthLinks(t: Table, a: Override, b: Override, t': Table, t'': Table)
    requires Ordered(t) && IsReschedule(a, b.(cancelled := false)) && IsReschedule(b, a.(cancelled := false))
    requires CreateOverrides(t, [a, b.(cancelled := false)]) == Ok(t')
    requires RescheduleGuard(t, a, b.(cancelled := false))
    requires CreateOverrides(t', [b, a.(cancelled := false)]) == Ok(t'')
    ensures !RescheduleGuard(t', b, a.(cancelled := false))
    ensures exists x, y :: x != y && Links(t''.rows, x, y) && Links(t''.rows, y, x)
  {
    var to, back := b.(cancelled := false), a.(cancelled := false);
    var mid := RescheduleOutcome(t, a, to, t');
    RescheduleTheorem(t, a, to, t');
    TargetPlace(t, a, to, mid);
    CancelledConsistent(t, a);
    var (id, row) := Placed(t, a, None);
    var (f, target) := Placed(mid, to, Some(id));
    FindKeyUnique(t'.rows, id, a.eventId, a.rule);
    FindKeyUnique(t'.rows, f, b.eventId, b.rule);
    assert Links(t'.rows, f, id);
    var mid' := RescheduleOutcome(t', b, back, t'');
    CancelledConsistent(t', b);
    FindKeyUnique(mid'.rows, id, a.eventId, a.rule);
    assert Links(t''.rows, f, id) && Links(t''.rows, id, f);
  }
}
