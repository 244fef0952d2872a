// Successive reschedules of one session: the chain of overrides they leave, and exactly when the session
// is then shown as moved to the last slot, in whatever order its overrides are listed.
module ChainMoves {
  import opened Prelude
  import opened Schedule
  import opened OverrideLinks
  import opened OverrideTable
  import opened OverrideRuns
  import opened RescheduleChain
  import opened ChainListings

  /** Row `ids[k]` holds slot `slots[k]` and is linked to `ids[k-1]`, the only live row to be so unless
      that is the first; all but the last are cancelled. */
  ghost predicate Chain(rows: Rows, eventId: nat, slots: seq<OverrideRule>, ids: seq<nat>) {
    && |ids| == |slots| > 0
    && (forall k | 0 <= k < |ids| ::
        HasKey(rows, ids[k], eventId, slots[k]) && (rows[ids[k]].cancelled <==> k < |ids| - 1))
    && (forall k | 0 <= k < |ids| - 1 :: rows[ids[k + 1]].link == Some(ids[k]))
    && (forall k, a | 0 < k < |ids| - 1 && Links(rows, a, ids[k]) :: a == ids[k + 1])
  }

  /** A request list that moves one session of `eventId` from slot to slot. */
  predicate MoveRequests(eventId: nat, slots: seq<OverrideRule>, cancels: seq<Override>, targets: seq<Override>) {
    && |cancels| == |targets| == |slots| - 1
    && forall k | 0 <= k < |cancels| ::
         && IsReschedule(cancels[k], targets[k])
         && cancels[k].eventId == targets[k].eventId == eventId
         && cancels[k].rule == slots[k] && targets[k].rule == slots[k + 1]
  }

  /** No live cancelled override holds the slot. */
  ghost predicate Forward(rows: Rows, eventId: nat, slot: OverrideRule) {
    forall id | HasKey(rows, id, eventId, slot) :: !rows[id].cancelled
  }

  /** The table after the first `n` of the moves, when they all succeed. */
  ghost function Moved(t: Table, cancels: seq<Override>, targets: seq<Override>, n: nat): Result<Table>
    requires n <= |cancels| == |targets|
  {
    if n == 0 then Ok(t)
    else
      match Moved(t, cancels, targets, n - 1)
      case Ok(before) => CreateOverrides(before, [cancels[n - 1], targets[n - 1]])
      case Err => Err
  }

  // ----- what moves leave alone

  ghost predicate NobodyLinks(rows: Rows, id: nat) {
    forall a :: !Links(rows, a, id)
  }

  /** A live row that holds one of the slots. */
  predicate HoldsOne(rows: Rows, id: nat, eventId: nat, slots: set<OverrideRule>) {
    Live(rows, id) && rows[id].eventId == eventId && rows[id].rule in slots
  }

  /** Of the rows that hold none of the slots, only counting ones linked to `start` are gone. */
  ghost predicate Frame(rows: Rows, rows': Rows, eventId: nat, slots: set<OverrideRule>, start: nat) {
    && (forall a | Live(rows', a) && !HoldsOne(rows', a, eventId, slots) ::
          Live(rows, a) && rows[a] == rows'[a] && (rows[a].link == Some(start) ==> rows[a].cancelled))
    && (forall a | Live(rows, a) && !HoldsOne(rows, a, eventId, slots)
        && (rows[a].cancelled || rows[a].link != Some(start)) ::
          Live(rows', a) && rows'[a] == rows[a])
  }

  lemma FrameCompose(rows: Rows, rows': Rows, rows'': Rows, eventId: nat, slots: set<OverrideRule>, start: nat,
      last: nat)
    requires Frame(rows, rows', eventId, slots, start) && Frame(rows', rows'', eventId, slots, last)
    requires NobodyLinks(rows', last)
    ensures Frame(rows, rows'', eventId, slots, start)
  {
    assert forall a | Live(rows', a) :: !Links(rows', a, last);
  }

  lemma MoveOutcome(t: Table, from: Override, to: Override, t': Table) returns (mid: Table)
    requires Ordered(t) && IsReschedule(from, to) && CreateOverrides(t, [from, to]) == Ok(t')
    requires from.eventId == to.eventId && from.rule != to.rule && Forward(t.rows, to.eventId, to.rule)
    ensures Ordered(t') && mid.rows == Cancelled(t, from) && Ordered(mid)
    ensures var (id, _) := Placed(t, from, None);
            var (f, row) := Placed(mid, to, Some(id));
            && f != id && t'.rows == mid.rows[f := row] && !row.cancelled && row.link == Some(id)
            && HasKey(t'.rows, f, to.eventId, to.rule) && HasKey(t'.rows, id, from.eventId, from.rule)
            && t'.rows[id] == mid.rows[id] && mid.rows[id].cancelled
            && (f in t.rows ==> HasKey(t.rows, f, to.eventId, to.rule))
  {
    RescheduleTheorem(t, from, to, t');
    mid := RescheduleOutcome(t, from, to, t');
    TargetPlace(t, from, to, mid);
    CancelledConsistent(t, from);
  }

  lemma MoveFrame(t: Table, from: Override, to: Override, t': Table, slots: set<OverrideRule>)
    requires Ordered(t) && IsReschedule(from, to) && CreateOverrides(t, [from, to]) == Ok(t')
    requires from.eventId == to.eventId && from.rule != to.rule && Forward(t.rows, to.eventId, to.rule)
    requires from.rule in slots && to.rule in slots
    ensures Frame(t.rows, t'.rows, to.eventId, slots, Placed(t, from, None).0)
  {
    var mid := MoveOutcome(t, from, to, t');
  }

  lemma ForwardKept(t: Table, from: Override, to: Override, t': Table, slot: OverrideRule)
    requires Ordered(t) && IsReschedule(from, to) && CreateOverrides(t, [from, to]) == Ok(t')
    requires from.eventId == to.eventId && from.rule != to.rule && Forward(t.rows, to.eventId, to.rule)
    requires slot != from.rule && slot != to.rule && Forward(t.rows, to.eventId, slot)
    ensures Forward(t'.rows, to.eventId, slot)
  {
    var mid := MoveOutcome(t, from, to, t');
    forall a | HasKey(t'.rows, a, to.eventId, slot)
      ensures !t'.rows[a].cancelled
    {
      assert HasKey(t.rows, a, to.eventId, slot);
    }
  }

  /** The first move starts a chain, whatever was linked to its cancel before. */
  lemma ChainStart(t: Table, from: Override, to: Override, t': Table) returns (ids: seq<nat>)
    requires Ordered(t) && IsReschedule(from, to) && CreateOverrides(t, [from, to]) == Ok(t')
    requires from.eventId == to.eventId && from.rule != to.rule && Forward(t.rows, to.eventId, to.rule)
    ensures Ordered(t') && Chain(t'.rows, to.eventId, [from.rule, to.rule], ids)
    ensures ids[0] == Placed(t, from, None).0 && t'.rows[ids[0]].reason == from.reason
    ensures FirstKept(t.rows, t'.rows, to.eventId, from.rule, ids[0])
    ensures forall id | HasKey(t.rows, id, to.eventId, from.rule) :: id == ids[0]
  {
    var mid := MoveOutcome(t, from, to, t');
    var (id, _) := Placed(t, from, None);
    var (f, _) := Placed(mid, to, Some(id));
    ids := [id, f];
    CancelledConsistent(t, from);
    forall a | HasKey(t.rows, a, to.eventId, from.rule)
      ensures a == id
    {
      FindKeyUnique(t.rows, a, from.eventId, from.rule);
    }
  }

  /** A chain grows by a row `f` that is linked to its last row, once that row is cancelled. */
  lemma ChainGrows(rows: Rows, rows': Rows, eventId: nat, slots: seq<OverrideRule>, ids: seq<nat>,
      slot: OverrideRule, f: nat)
    requires Chain(rows, eventId, slots, ids)
    requires var last := ids[|ids| - 1];
             && HasKey(rows', last, eventId, slots[|slots| - 1]) && rows'[last].cancelled
                 && rows'[last].link == rows[last].link
             && HasKey(rows', f, eventId, slot) && !rows'[f].cancelled && rows'[f].link == Some(last)
             && NobodyLinks(rows, last)
             && (forall k | 0 <= k < |ids| - 1 :: ids[k] != last && ids[k] in rows' && rows'[ids[k]] == rows[ids[k]])
    requires forall a, b | a != f && Links(rows', a, b) :: Links(rows, a, b)
    ensures Chain(rows', eventId, slots + [slot], ids + [f])
  {
    var n := |ids| - 1;
    var slots', ids' := slots + [slot], ids + [f];
    forall k | 0 <= k < |ids'|
      ensures HasKey(rows', ids'[k], eventId, slots'[k]) && (rows'[ids'[k]].cancelled <==> k < |ids'| - 1)
    {
      assert k < n ==> HasKey(rows, ids[k], eventId, slots[k]);
    }
    forall k, a | 0 < k < |ids'| - 1 && Links(rows', a, ids'[k])
      ensures a == ids'[k + 1]
    {
      assert a != f ==> Links(rows, a, ids[k]);
    }
  }

  /** Each further move lengthens the chain by one. */
  lemma ChainExtend(t: Table, slots: seq<OverrideRule>, ids: seq<nat>, from: Override, to: Override, t': Table)
    returns (f: nat)
    requires Ordered(t) && IsReschedule(from, to) && CreateOverrides(t, [from, to]) == Ok(t')
    requires from.eventId == to.eventId && Chain(t.rows, to.eventId, slots, ids) && Distinct(slots + [to.rule])
    requires from.rule == slots[|slots| - 1] && Forward(t.rows, to.eventId, to.rule)
    ensures Ordered(t') && Chain(t'.rows, to.eventId, slots + [to.rule], ids + [f])
    ensures Placed(t, from, None).0 == ids[|ids| - 1] && NobodyLinks(t.rows, ids[|ids| - 1])
    ensures ids[|ids| - 1] in t'.rows && t'.rows[ids[|ids| - 1]].reason == from.reason
    ensures forall k | 0 <= k < |ids| - 1 :: ids[k] in t'.rows && t'.rows[ids[k]] == t.rows[ids[k]]
  {
    var n := |ids| - 1;
    var last := ids[n];
    assert (slots + [to.rule])[n + 1] == to.rule && (slots + [to.rule])[n] == from.rule;
    FindKeyUnique(t.rows, last, from.eventId, from.rule);
    var mid := MoveOutcome(t, from, to, t');
    f := Placed(mid, to, Some(last)).0;
    assert NobodyLinks(t.rows, last);
    var cancelled := t.rows[last := Placed(t, from, None).1];
    assert forall a, b :: Links(cancelled, a, b) ==> Links(t.rows, a, b);
    assert OldTargets(cancelled, last, 0) == {};
    forall k | 0 <= k < n
      ensures ids[k] != last && ids[k] in t'.rows && t'.rows[ids[k]] == t.rows[ids[k]]
    {
      assert slots[k] == (slots + [to.rule])[k] != from.rule;
      assert HasKey(t.rows, ids[k], to.eventId, slots[k]);
    }
    ChainGrows(t.rows, t'.rows, to.eventId, slots, ids, to.rule, f);
  }

  function SlotSet(slots: seq<OverrideRule>): set<OverrideRule> {
    set slot | slot in slots
  }

  /** The first cancel is written over the live override of its slot, or anew, and keeps its link. */
  ghost predicate FirstKept(rows: Rows, rows': Rows, eventId: nat, slot: OverrideRule, first: nat) {
    && first in rows'
    && (if Live(rows, first) then HasKey(rows, first, eventId, slot) && rows'[first].link == rows[first].link
        else rows'[first].link == None)
  }

  /** What the moves leave behind: a chain through the slots with the reasons that were given, and
      everything else as it was but for the earlier targets of the first cancel. */
  ghost predicate MovedThrough(
    rows: Rows, rows': Rows, eventId: nat, slots: seq<OverrideRule>, n: nat, ids: seq<nat>, cancels: seq<Override>)
    requires 0 < n <= |slots|
  {
    && Chain(rows', eventId, slots[..n], ids) && n - 1 <= |cancels|
    && Frame(rows, rows', eventId, SlotSet(slots), ids[0])
    && (forall k | 0 <= k < n - 1 :: rows'[ids[k]].reason == cancels[k].reason)
    && FirstKept(rows, rows', eventId, slots[0], ids[0])
    && (forall id | HasKey(rows, id, eventId, slots[0]) :: id == ids[0])
  }

  lemma {:induction false} ChainAfterMoves(
    t: Table, eventId: nat, slots: seq<OverrideRule>, cancels: seq<Override>, targets: seq<Override>, n: nat)
    returns (t': Table, ids: seq<nat>)
    requires Ordered(t) && MoveRequests(eventId, slots, cancels, targets) && Distinct(slots)
    requires 0 < n <= |cancels| && Moved(t, cancels, targets, n).Ok?
    requires forall k | 0 < k < |slots| :: Forward(t.rows, eventId, slots[k])
    ensures Moved(t, cancels, targets, n) == Ok(t') && Ordered(t')
    ensures MovedThrough(t.rows, t'.rows, eventId, slots, n + 1, ids, cancels)
    ensures forall k | n < k < |slots| :: Forward(t'.rows, eventId, slots[k])
  {
    t' := Moved(t, cancels, targets, n).value;
    if n == 1 {
      assert Moved(t, cancels, targets, 0) == Ok(t) && slots[0] != slots[1];
      ids := ChainStart(t, cancels[0], targets[0], t');
      assert slots[..2] == [slots[0], slots[1]];
      MoveFrame(t, cancels[0], targets[0], t', SlotSet(slots));
      AheadKept(t, eventId, slots, cancels, targets, 1, t');
    } else {
      var before, ids0 := ChainAfterMoves(t, eventId, slots, cancels, targets, n - 1);
      ids := ChainOneFurther(t, before, ids0, eventId, slots, cancels, targets, n, t');
    }
  }

  lemma MovedFurther(
    rows: Rows, rows': Rows, rows'': Rows, eventId: nat, slots: seq<OverrideRule>, n: nat, ids: seq<nat>, f: nat,
    cancels: seq<Override>)
    requires 1 < n < |slots| && n <= |cancels| && MovedThrough(rows, rows', eventId, slots, n, ids, cancels)
    requires Chain(rows'', eventId, slots[..n + 1], ids + [f]) && Frame(rows, rows'', eventId, SlotSet(slots), ids[0])
    requires forall k | 0 <= k < n - 1 :: ids[k] in rows'' && ids[k] in rows' && rows''[ids[k]] == rows'[ids[k]]
    requires ids[n - 1] in rows'' && rows''[ids[n - 1]].reason == cancels[n - 1].reason
    ensures MovedThrough(rows, rows'', eventId, slots, n + 1, ids + [f], cancels)
  {
    forall k | 0 <= k < n
      ensures rows''[(ids + [f])[k]].reason == cancels[k].reason
    {
      assert (ids + [f])[k] == ids[k];
    }
    assert (ids + [f])[0] == ids[0];
  }

  lemma ChainOneFurther(
    t: Table, before: Table, ids0: seq<nat>, eventId: nat, slots: seq<OverrideRule>, cancels: seq<Override>,
    targets: seq<Override>,
    n: nat, t': Table)
    returns (ids: seq<nat>)
    requires Ordered(before) && MoveRequests(eventId, slots, cancels, targets) && Distinct(slots) && 1 < n <= |cancels|
    requires MovedThrough(t.rows, before.rows, eventId, slots, n, ids0, cancels)
    requires CreateOverrides(before, [cancels[n - 1], targets[n - 1]]) == Ok(t')
    requires forall k | n <= k < |slots| :: Forward(before.rows, eventId, slots[k])
    ensures Ordered(t') && MovedThrough(t.rows, t'.rows, eventId, slots, n + 1, ids, cancels)
    ensures forall k | n < k < |slots| :: Forward(t'.rows, eventId, slots[k])
  {
    assert slots[..n] + [slots[n]] == slots[..n + 1];
    assert slots[n - 1] != slots[n];
    var f := ChainExtend(before, slots[..n], ids0, cancels[n - 1], targets[n - 1], t');
    ids := ids0 + [f];
    MoveFrame(before, cancels[n - 1], targets[n - 1], t', SlotSet(slots));
    FrameCompose(t.rows, before.rows, t'.rows, eventId, SlotSet(slots), ids0[0], ids0[n - 1]);
    MovedFurther(t.rows, before.rows, t'.rows, eventId, slots, n, ids0, f, cancels);
    AheadKept(before, eventId, slots, cancels, targets, n, t');
  }

  /** A move leaves the slots further ahead as they were. */
  lemma AheadKept(
    before: Table, eventId: nat, slots: seq<OverrideRule>, cancels: seq<Override>, targets: seq<Override>, n: nat,
    t': Table)
    requires Ordered(before) && MoveRequests(eventId, slots, cancels, targets) && Distinct(slots) && 0 < n <= |cancels|
    requires CreateOverrides(before, [cancels[n - 1], targets[n - 1]]) == Ok(t')
    requires forall k | n <= k < |slots| :: Forward(before.rows, eventId, slots[k])
    ensures forall k | n < k < |slots| :: Forward(t'.rows, eventId, slots[k])
  {
    forall k | n < k < |slots|
      ensures Forward(t'.rows, eventId, slots[k])
    {
      assert slots[k] != slots[n] && slots[k] != slots[n - 1] && slots[n] != slots[n - 1];
      ForwardKept(before, cancels[n - 1], targets[n - 1], t', slots[k]);
    }
  }

  lemma {:induction false} FollowChain(
    overrides: seq<Override>, rows: Rows, eventId: nat, slots: seq<OverrideRule>, ids: seq<nat>, k: nat,
    visited: set<nat>)
    requires Keyed(rows) && Chain(rows, eventId, slots, ids) && Distinct(slots) && Lists(overrides, rows, eventId)
    requires 0 < k < |ids| - 1 && forall j | k < j < |ids| :: ids[j] !in visited
    ensures Follow(overrides, ids[k], visited) == FirstDay(slots[|slots| - 1])
    decreases |ids| - k
  {
    FirstTargetFound(overrides, ids[k]);
    var next := rows[ids[k + 1]];
    assert next in overrides;
    forall o | o in overrides && o.link == Some(ids[k])
      ensures o == next
    {
      assert Links(rows, o.id, ids[k]);
    }
    if k + 1 < |ids| - 1 {
      NextCancelExists(overrides, next, ids[k], visited);
      NextCancelFound(overrides, ids[k], visited);
      forall j | k + 1 < j < |ids|
        ensures ids[j] != ids[k + 1]
      {
        assert slots[j] != slots[k + 1];
      }
      FollowChain(overrides, rows, eventId, slots, ids, k + 1, visited + {ids[k + 1]});
    }
  }

}
