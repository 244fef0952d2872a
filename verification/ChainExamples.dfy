// Runs from the empty table after which a session that was moved is not shown as moved.
module ChainExamples {
  import opened Prelude
  import opened Schedule
  import opened OverrideLinks
  import opened OverrideTable
  import opened BulkCancel
  import opened OverrideRuns
  import opened RescheduleChain
  import opened ChainListings
  import opened ChainMoves
  import opened ChainBranches

  function CancelAt(slot: OverrideRule): Override {
    Override(0, 1, slot, Some(60), true, None, None, RESCHEDULED, None, false)
  }

  function TargetAt(slot: OverrideRule): Override {
    Override(0, 1, slot, Some(60), false, None, None, "", None, false)
  }

  /** The step is guarded and succeeds. */
  ghost predicate Taken(t: Table, step: Step, t': Table) {
    WellShaped(step) && Guard(t, step) && Outcome(t, step) == Ok(t')
  }

  lemma ForwardIsGuarded(t: Table, from: Override, to: Override) returns (t': Table)
    requires Ordered(t) && IsReschedule(from, to) && from.rule != to.rule && Forward(t.rows, to.eventId, to.rule)
    requires FirstDay(from.rule).Some? && FirstDay(to.rule).Some? && to.duration.Some?
    ensures Taken(t, Reschedule(from, to), t')
  {
    RescheduleSucceeds(t, from, to);
    t' := CreateOverrides(t, [from, to]).value;
  }

  /** The first two steps leave two overrides: the cancel of A and, linked to it, the cancel of B. */
  lemma LeftoverArises(a: OverrideRule, b: OverrideRule) returns (t1: Table, t2: Table, id: nat)
    requires a != b && FirstDay(a).Some? && FirstDay(b).Some?
    ensures Taken(EMPTY, Reschedule(CancelAt(a), TargetAt(b)), t1) && Taken(t1, Single(CancelAt(b)), t2) && Ordered(t2)
    ensures IsLeftover(t2.rows, 1, a, id) && NobodyLinks(t2.rows, id)
    ensures forall o | Live(t2.rows, o) :: t2.rows[o].rule == a || t2.rows[o].rule == b
  {
    EveryRunIsOrdered([]);
    t1 := ForwardIsGuarded(EMPTY, CancelAt(a), TargetAt(b));
    var mid := MoveOutcome(EMPTY, CancelAt(a), TargetAt(b), t1);
    var (first, _) := Placed(EMPTY, CancelAt(a), None);
    id := Placed(mid, TargetAt(b), Some(first)).0;
    FindKeyUnique(t1.rows, id, 1, b);
    assert NobodyLinks(t1.rows, id);
    SingleSucceeds(t1, CancelAt(b));
    t2 := CreateOverrides(t1, [CancelAt(b)]).value;
    SingleTheorem(t1, CancelAt(b), t2);
    assert forall o | Links(t2.rows, o, id) :: o != id ==> Links(t1.rows, o, id);
    assert HasKey(t2.rows, first, 1, a);
  }

  /** The last two steps move past the branch. */
  lemma LeftoverIsPassed(t: Table, a: OverrideRule, c: OverrideRule, d: OverrideRule, occurrence: int, id: nat)
    returns (t': Table, t'': Table, overrides: seq<Override>)
    requires Ordered(t) && a != c && a != d && c != d && FirstDay(a).Some? && FirstDay(c).Some? && FirstDay(d).Some?
    requires FirstTime(a) == Some(occurrence)
    requires Forward(t.rows, 1, c) && Forward(t.rows, 1, d)
    requires IsLeftover(t.rows, 1, a, id) && NobodyLinks(t.rows, id)
    ensures Taken(t, Reschedule(CancelAt(a), TargetAt(c)), t') && Taken(t', Reschedule(CancelAt(c), TargetAt(d)), t'')
    ensures Lists(overrides, t''.rows, 1) && Reported(overrides, occurrence) == None
  {
    var slots, cancels, targets := [a, c, d], [CancelAt(a), CancelAt(c)], [TargetAt(c), TargetAt(d)];
    t' := ForwardIsGuarded(t, CancelAt(a), TargetAt(c));
    RescheduleTheorem(t, CancelAt(a), TargetAt(c), t');
    ForwardKept(t, CancelAt(a), TargetAt(c), t', d);
    t'' := ForwardIsGuarded(t', CancelAt(c), TargetAt(d));
    assert Moved(t, cancels, targets, 0) == Ok(t);
    assert Moved(t, cancels, targets, 1) == Ok(t');
    assert Moved(t, cancels, targets, 2) == Ok(t'');
    overrides := LeftoverHidesTheTarget(t, 1, slots, cancels, targets, t'', occurrence, id);
  }

  /** Moving A to B, cancelling B, and moving A to C and C to D, from the empty table: the four steps are
      guarded and succeed, and in some listing nothing is shown, as the follower takes the branch left at B. */
  lemma LeftoverBranchHidesTheTarget(a: OverrideRule, b: OverrideRule, c: OverrideRule, d: OverrideRule,
      occurrence: int)
    returns (t1: Table, t2: Table, t3: Table, t4: Table, overrides: seq<Override>)
    requires a != b && a != c && a != d && b != c && b != d && c != d
    requires FirstDay(a).Some? && FirstDay(b).Some? && FirstDay(c).Some? && FirstDay(d).Some?
    requires FirstTime(a) == Some(occurrence)
    ensures Taken(EMPTY, Reschedule(CancelAt(a), TargetAt(b)), t1) && Taken(t1, Single(CancelAt(b)), t2)
    ensures Taken(t2, Reschedule(CancelAt(a), TargetAt(c)), t3) && Taken(t3, Reschedule(CancelAt(c), TargetAt(d)), t4)
    ensures Lists(overrides, t4.rows, 1) && Reported(overrides, occurrence) == None
  {
    var id;
    t1, t2, id := LeftoverArises(a, b);
    assert Forward(t2.rows, 1, c) && Forward(t2.rows, 1, d);
    t3, t4, overrides := LeftoverIsPassed(t2, a, c, d, occurrence, id);
  }

  /** One session of event 1 is bulk-cancelled under the text `a'`: a cancel with that key and no link. */
  lemma BulkCancelled(event: Event, a': OverrideRule, reason: string) returns (t1: Table, p: nat)
    requires event.id == 1
    ensures Taken(EMPTY, Bulk([Instance(event, a')], reason), t1) && Ordered(t1)
    ensures HasKey(t1.rows, p, 1, a') && t1.rows[p].cancelled && NobodyLinks(t1.rows, p)
    ensures forall id | Live(t1.rows, id) :: id == p
  {
    EveryRunIsOrdered([]);
    var instances := [Instance(event, a')];
    assert NewCancellations(EMPTY.rows, instances) == instances by {
      FilterKeepsAll(instances, NotCancelledIn(EMPTY.rows));
    }
    assert instances[..0] == [] && InsertAll(EMPTY, [], reason) == EMPTY;
    t1 := InsertAll(EMPTY, instances, reason);
    BulkCancelTheorem(EMPTY, instances, reason);
    p := EMPTY.nextId;
  }

  /** Bulk-cancelling a session and then moving it from A to B, from the empty table, when the bulk
      cancellation writes the time of the session as another text than the move does: both steps are
      guarded and succeed, and in some listing nothing is shown, as the bulk cancellation decides. */
  lemma BulkCancelHidesTheMove(
    event: Event, a: OverrideRule, a': OverrideRule, b: OverrideRule, reason: string, occurrence: int)
    returns (t1: Table, t2: Table, overrides: seq<Override>)
    requires event.id == 1 && a != a' && a != b && a' != b
    requires FirstTime(a) == Some(occurrence) && FirstTime(a') == Some(occurrence) && FirstDay(b).Some?
    ensures Taken(EMPTY, Bulk([Instance(event, a')], reason), t1) && Taken(t1, Reschedule(CancelAt(a), TargetAt(b)), t2)
    ensures Lists(overrides, t2.rows, 1) && Reported(overrides, occurrence) == None
  {
    var p;
    t1, p := BulkCancelled(event, a', reason);
    t2 := ForwardIsGuarded(t1, CancelAt(a), TargetAt(b));
    var slots, cancels, targets := [a, b], [CancelAt(a)], [TargetAt(b)];
    assert Moved(t1, cancels, targets, 0) == Ok(t1);
    assert Moved(t1, cancels, targets, 1) == Ok(t2);
    overrides := OtherDeciderHidesTheTarget(t1, 1, slots, cancels, targets, t2, occurrence, p);
  }
}
