// What a session is shown as moved to after successive reschedules, when branches of earlier reschedules
// are left over on its cancel, or when other overrides are for the same time.
module ChainBranches {
  import opened Prelude
  import opened Schedule
  import opened OverrideLinks
  import opened OverrideTable
  import opened OverrideRuns
  import opened RescheduleChain
  import opened ChainListings
  import opened ChainMoves

  /** The override rows before and after moves through some slots, and the chain the moves left. */
  datatype History = History(
    before: Rows, after: Rows, eventId: nat, slots: seq<OverrideRule>, ids: seq<nat>, cancels: seq<Override>)

  ghost predicate AfterMoves(h: History) {
    && Keyed(h.before) && Keyed(h.after) && Consistent(h.before) && Consistent(h.after)
    && Distinct(h.slots) && |h.slots| > 1
    && MovedThrough(h.before, h.after, h.eventId, h.slots, |h.slots|, h.ids, h.cancels)
    && (forall k | 0 < k < |h.slots| :: Forward(h.before, h.eventId, h.slots[k]))
  }

  lemma HolderAfter(h: History, a: nat) returns (k: nat)
    requires AfterMoves(h) && HoldsOne(h.after, a, h.eventId, SlotSet(h.slots))
    ensures k < |h.ids| && a == h.ids[k] && (k > 0 ==> h.after[a].link == Some(h.ids[k - 1]))
    ensures h.after[a].rule == h.slots[k]
  {
    assert h.slots[..|h.slots|] == h.slots;
    k :| 0 <= k < |h.slots| && h.after[a].rule == h.slots[k];
    assert HasKey(h.after, h.ids[k], h.eventId, h.slots[k]) && SameKey(h.after, a, h.ids[k]);
  }

  lemma HolderBefore(h: History, a: nat)
    requires AfterMoves(h)
    requires HoldsOne(h.before, a, h.eventId, SlotSet(h.slots)) && h.before[a].cancelled
    ensures a == h.ids[0] && HasKey(h.before, a, h.eventId, h.slots[0])
  {
    var k :| 0 <= k < |h.slots| && h.before[a].rule == h.slots[k];
    assert HasKey(h.before, a, h.eventId, h.slots[k]);
  }

  lemma ChainRows(h: History)
    requires AfterMoves(h)
    ensures Chain(h.after, h.eventId, h.slots, h.ids) && Distinct(h.ids)
    ensures forall k | 0 <= k < |h.ids| :: HoldsOne(h.after, h.ids[k], h.eventId, SlotSet(h.slots))
    ensures forall k | 0 <= k < |h.ids| - 1 :: h.after[h.ids[k]].reason == h.cancels[k].reason
  {
    assert h.slots[..|h.slots|] == h.slots;
    forall i, j | 0 <= i < j < |h.ids|
      ensures h.ids[i] != h.ids[j]
    {
      assert HasKey(h.after, h.ids[i], h.eventId, h.slots[i]) && HasKey(h.after, h.ids[j], h.eventId, h.slots[j]);
    }
  }

  // ----- away from the slots

  /** A cancel that holds none of the slots; the moves leave it alone. */
  ghost predicate LeftAlone(h: History, c: nat) {
    && IsCancel(h.before, h.eventId, c) && Live(h.after, c) && h.after[c] == h.before[c]
    && h.before[c].rule !in h.slots
  }

  predicate IsCancel(rows: Rows, eventId: nat, c: nat) {
    Live(rows, c) && rows[c].cancelled && rows[c].eventId == eventId
  }

  /** What is linked to it afterwards was linked to it before. */
  lemma LinkedAfter(h: History, a: nat, c: nat)
    requires AfterMoves(h) && LeftAlone(h, c) && LinkedOf(h.after, h.eventId, a, c)
    ensures LinkedOf(h.before, h.eventId, a, c)
    ensures if a == h.ids[0] then h.before[a].rule == h.slots[0]
        else h.before[a] == h.after[a] && h.before[a].rule !in h.slots
  {
    ChainRows(h);
    forall k | 0 <= k < |h.ids|
      ensures h.ids[k] != c
    {
      assert HoldsOne(h.after, h.ids[k], h.eventId, SlotSet(h.slots));
    }
    if HoldsOne(h.after, a, h.eventId, SlotSet(h.slots)) {
      var k := HolderAfter(h, a);
    }
  }

  /** What was linked to it is so afterwards, but for overrides at a later slot. */
  lemma LinkedBefore(h: History, a: nat, c: nat)
    requires AfterMoves(h) && LeftAlone(h, c) && LinkedOf(h.before, h.eventId, a, c)
    requires h.before[a].rule !in h.slots[1..]
    ensures LinkedOf(h.after, h.eventId, a, c)
    ensures if a == h.ids[0] then h.before[a].rule == h.slots[0]
        else h.before[a] == h.after[a] && h.before[a].rule !in h.slots
  {
    ChainRows(h);
    assert h.slots == [h.slots[0]] + h.slots[1..];
    if h.before[a].rule == h.slots[0] {
      assert HasKey(h.before, a, h.eventId, h.slots[0]);
    } else {
      assert c != h.ids[0];
    }
  }

  /** Below it the branches are the same before and after, but for the first cancel, and so are the targets. */
  lemma SameBelow(h: History, c: nat)
    requires AfterMoves(h) && LeftAlone(h, c)
    ensures forall a ::
        IsBranch(h.before, h.eventId, h.slots, a, c) <==> IsBranch(h.after, h.eventId, [], a, c) && a != h.ids[0]
    ensures forall a | IsBranch(h.before, h.eventId, h.slots, a, c) :: LeftAlone(h, a)
    ensures forall a :: IsTargetIn(h.before, h.eventId, h.slots, a, c) <==> IsTargetIn(h.after, h.eventId, [], a, c)
    ensures forall a | IsTargetIn(h.after, h.eventId, [], a, c) :: a in h.before && h.before[a] == h.after[a]
  {
    ChainRows(h);
    forall a | LinkedOf(h.after, h.eventId, a, c)
      ensures LinkedOf(h.before, h.eventId, a, c)
      ensures a != h.ids[0] ==> h.before[a] == h.after[a] && h.before[a].rule !in h.slots
    {
      LinkedAfter(h, a, c);
    }
    forall a | LinkedOf(h.before, h.eventId, a, c) && h.before[a].rule !in h.slots
      ensures LinkedOf(h.after, h.eventId, a, c) && a != h.ids[0] && h.before[a] == h.after[a]
    {
      LinkedBefore(h, a, c);
    }
  }

  lemma SameEnd(h: History, path: seq<nat>)
    requires AfterMoves(h) && path != [] && LeftAlone(h, path[0]) && h.ids[0] !in path
    ensures DeadEnd(h.before, h.eventId, h.slots, path) <==> DeadEnd(h.after, h.eventId, [], path)
  {
    var c := path[0];
    assert h.slots[0] !in h.slots[1..];
    forall a | LinkedOf(h.after, h.eventId, a, c)
      ensures LinkedOf(h.before, h.eventId, a, c)
      ensures if a == h.ids[0] then h.before[a].rule == h.slots[0]
          else h.before[a] == h.after[a] && h.before[a].rule !in h.slots
    {
      LinkedAfter(h, a, c);
    }
    forall a | LinkedOf(h.before, h.eventId, a, c) && h.before[a].rule !in h.slots[1..]
      ensures LinkedOf(h.after, h.eventId, a, c)
      ensures a != h.ids[0] ==> h.before[a] == h.after[a]
    {
      LinkedBefore(h, a, c);
    }
    assert forall rule | rule in h.slots[1..] :: rule in h.slots;
  }

  lemma DescendsLonger(rows: Rows, eventId: nat, slots: seq<OverrideRule>, path: seq<nat>)
    requires |path| > 1
    ensures Descends(rows, eventId, slots, path) <==>
              && Descends(rows, eventId, slots, path[1..]) && path[0] !in path[1..]
              && IsBranch(rows, eventId, slots, path[0], path[1]) && NoTarget(rows, eventId, slots, path[1])
  {
    var tail := path[1..];
    assert forall i | 0 <= i < |tail| :: tail[i] == path[i + 1];
    if Descends(rows, eventId, slots, tail) && path[0] !in tail
       && IsBranch(rows, eventId, slots, path[0], path[1]) && NoTarget(rows, eventId, slots, path[1]) {
      forall i | 0 <= i < |path| - 1
        ensures IsBranch(rows, eventId, slots, path[i], path[i + 1])
      {
        assert i > 0 ==> IsBranch(rows, eventId, slots, tail[i - 1], tail[i]);
      }
      forall i | 0 < i < |path|
        ensures NoTarget(rows, eventId, slots, path[i])
      {
        assert i > 1 ==> NoTarget(rows, eventId, slots, tail[i - 1]);
      }
    }
    if Descends(rows, eventId, slots, path) {
      forall i | 0 <= i < |tail| - 1
        ensures IsBranch(rows, eventId, slots, tail[i], tail[i + 1])
      {
        assert IsBranch(rows, eventId, slots, path[i + 1], path[i + 2]);
      }
    }
  }

  /** From a cancel away from the slots the descents are the same before and after the moves, but for
      those that come to the first cancel. */
  lemma {:induction false} SameDescents(h: History, path: seq<nat>)
    requires AfterMoves(h) && path != [] && LeftAlone(h, path[|path| - 1])
    ensures Descends(h.before, h.eventId, h.slots, path)
        <==> Descends(h.after, h.eventId, [], path) && h.ids[0] !in path
    ensures Descends(h.before, h.eventId, h.slots, path) ==> LeftAlone(h, path[0])
    decreases |path|
  {
    ChainRows(h);
    if |path| > 1 {
      var tail := path[1..];
      assert path == [path[0]] + tail;
      SameDescents(h, tail);
      DescendsLonger(h.before, h.eventId, h.slots, path);
      DescendsLonger(h.after, h.eventId, [], path);
      if Descends(h.before, h.eventId, h.slots, tail) {
        SameBelow(h, tail[0]);
      }
    } else {
      assert h.ids[0] != path[0];
    }
  }

  lemma SameSettled(h: History, path: seq<nat>, day: Option<int>)
    requires AfterMoves(h) && path != [] && LeftAlone(h, path[|path| - 1])
    ensures Settles(h.before, h.eventId, h.slots, path, day)
        <==> Settles(h.after, h.eventId, [], path, day) && h.ids[0] !in path
  {
    SameDescents(h, path);
    if Descends(h.before, h.eventId, h.slots, path) {
      SameBelow(h, path[0]);
      SameEnd(h, path);
    }
  }

  // ----- parts of a descent

  lemma DescentIsLinkPath(rows: Rows, eventId: nat, path: seq<nat>)
    requires Descends(rows, eventId, [], path)
    ensures LinkPath(rows, path)
  {
    forall i | 0 <= i < |path| - 1
      ensures Links(rows, path[i], path[i + 1])
    {
      assert IsBranch(rows, eventId, [], path[i], path[i + 1]);
    }
  }

  /** A row that is linked to the first of a path is not on it. */
  lemma BranchIsNew(rows: Rows, path: seq<nat>, a: nat)
    requires Acyclic(rows) && LinkPath(rows, path) && Links(rows, a, path[0])
    ensures a !in path
  {
    forall i | 0 <= i < |path|
      ensures path[i] != a
    {
      var longer := [a] + path[..i + 1];
      forall k | 0 <= k < |longer| - 1
        ensures Links(rows, longer[k], longer[k + 1])
      {
        assert k > 0 ==> Links(rows, path[k - 1], path[k]);
      }
      assert LinkPath(rows, longer);
    }
  }

  /** Stopping the path of a descent earlier does not change where it ends. */
  lemma PrefixSettles(rows: Rows, eventId: nat, path: seq<nat>, day: Option<int>, n: nat)
    requires Acyclic(rows) && Settles(rows, eventId, [], path, day) && 0 < n <= |path|
    ensures Settles(rows, eventId, [], path[..n], day)
  {
    var part := path[..n];
    DescentIsLinkPath(rows, eventId, path);
    forall i | 0 <= i < |part| - 1
      ensures IsBranch(rows, eventId, [], part[i], part[i + 1])
    {
      assert IsBranch(rows, eventId, [], path[i], path[i + 1]);
    }
    forall a | LinkedOf(rows, eventId, a, path[0])
      ensures a !in path
    {
      BranchIsNew(rows, path, a);
    }
  }

  /** A descent from a branch of `start` is one from `start`. */
  lemma SettlesFrom(rows: Rows, eventId: nat, path: seq<nat>, start: nat, day: Option<int>)
    requires Settles(rows, eventId, [], path, day) && start !in path
    requires IsBranch(rows, eventId, [], path[|path| - 1], start) && NoTarget(rows, eventId, [], start)
    ensures Settles(rows, eventId, [], path + [start], day)
  {
    var longer := path + [start];
    forall i | 0 <= i < |longer| - 1
      ensures IsBranch(rows, eventId, [], longer[i], longer[i + 1])
    {
      assert i < |path| - 1 ==> IsBranch(rows, eventId, [], path[i], path[i + 1]);
    }
  }

  // ----- descents from the first cancel

  /** A cancel of the event linked to the one that holds the slot. */
  ghost predicate IsLeftover(rows: Rows, eventId: nat, slot: OverrideRule, b: nat) {
    IsCancel(rows, eventId, b) && rows[b].link.Some? && HasKey(rows, rows[b].link.value, eventId, slot)
  }

  /** The branches of the first cancel, other than the chain, are those that were left over on it. */
  lemma LeftoverBefore(h: History, b: nat)
    requires AfterMoves(h) && IsLeftover(h.before, h.eventId, h.slots[0], b)
    ensures LeftAlone(h, b) && IsBranch(h.after, h.eventId, [], b, h.ids[0])
  {
    assert h.before[b].link == Some(h.ids[0]);
    LinkIsNotSelf(h.before, h.ids[0]);
    if HoldsOne(h.before, b, h.eventId, SlotSet(h.slots)) {
      HolderBefore(h, b);
      assert false;
    }
  }

  lemma LeftoverAfter(h: History, b: nat)
    requires AfterMoves(h) && IsBranch(h.after, h.eventId, [], b, h.ids[0]) && b != h.ids[1]
    ensures LeftAlone(h, b) && IsLeftover(h.before, h.eventId, h.slots[0], b)
  {
    ChainRows(h);
    LinkIsNotSelf(h.after, h.ids[0]);
    if HoldsOne(h.after, b, h.eventId, SlotSet(h.slots)) {
      var k := HolderAfter(h, b);
      assert false;
    }
    assert Links(h.before, b, h.ids[0]);
  }

  lemma FirstHasNoTarget(h: History)
    requires AfterMoves(h) && |h.slots| > 2
    ensures NoTarget(h.after, h.eventId, [], h.ids[0])
    ensures LinkedOf(h.after, h.eventId, h.ids[1], h.ids[0]) && h.ids[1] != h.ids[0]
  {
    ChainRows(h);
    forall a
      ensures !IsTargetIn(h.after, h.eventId, [], a, h.ids[0])
    {
      if IsTargetIn(h.after, h.eventId, [], a, h.ids[0]) && HoldsOne(h.after, a, h.eventId, SlotSet(h.slots)) {
        var k := HolderAfter(h, a);
      }
    }
  }

  function LastDay(h: History): Option<int>
    requires h.slots != []
  {
    FirstDay(h.slots[|h.slots| - 1])
  }

  lemma ChainIsFollowed(h: History, k: nat, overrides: seq<Override>)
    requires AfterMoves(h) && 0 < k < |h.ids| - 1 && Lists(overrides, h.after, h.eventId)
    ensures Follow(overrides, h.ids[k], {h.ids[k]}) == LastDay(h)
  {
    ChainRows(h);
    DistinctChain(h.after, h.eventId, h.slots, h.ids, k, overrides);
  }

  lemma DistinctChain(rows: Rows, eventId: nat, slots: seq<OverrideRule>, ids: seq<nat>, k: nat,
      overrides: seq<Override>)
    requires Keyed(rows) && Chain(rows, eventId, slots, ids) && Distinct(slots) && Distinct(ids)
    requires 0 < k < |ids| - 1 && Lists(overrides, rows, eventId)
    ensures Follow(overrides, ids[k], {ids[k]}) == FirstDay(slots[|slots| - 1])
  {
    forall j | k < j < |ids|
      ensures ids[j] !in {ids[k]}
    {
    }
    FollowChain(overrides, rows, eventId, slots, ids, k, {ids[k]});
  }

  /** Going down the chain itself leads to the last slot. */
  lemma ChainLeadsToLast(h: History, k: nat)
    requires AfterMoves(h) && 0 < k < |h.ids| - 1
    ensures AllSettleAt(h.after, h.eventId, h.ids[k], LastDay(h))
  {
    forall overrides | Lists(overrides, h.after, h.eventId)
      ensures Follow(overrides, h.ids[k], {h.ids[k]}) == LastDay(h)
    {
      ChainIsFollowed(h, k, overrides);
    }
    FollowedEverywhere(h.after, h.eventId, h.ids[k], LastDay(h));
  }

  lemma OneMoveIsFollowed(h: History)
    requires AfterMoves(h) && |h.slots| == 2
    ensures AllSettleAt(h.after, h.eventId, h.ids[0], LastDay(h))
  {
    ChainRows(h);
    forall overrides | Lists(overrides, h.after, h.eventId)
      ensures Follow(overrides, h.ids[0], {h.ids[0]}) == LastDay(h)
    {
      FirstTargetFound(overrides, h.ids[0]);
      assert h.after[h.ids[1]] in overrides && IsTargetOf(h.after[h.ids[1]], h.ids[0]);
      var found := FirstTarget(overrides, h.ids[0]).value;
      assert Links(h.after, found.id, h.ids[0]) && Links(h.after, h.ids[1], h.ids[0]);
    }
    FollowedEverywhere(h.after, h.eventId, h.ids[0], LastDay(h));
  }

  /** Before the moves, every descent from `p` leads to the day, those apart that come to the first slot. */
  ghost predicate LeadsTo(rows: Rows, eventId: nat, slots: seq<OverrideRule>, p: nat, day: Option<int>) {
    forall path, end | Settles(rows, eventId, slots, path, end) && path[|path| - 1] == p :: end == day
  }

  lemma LeftoverLeads(h: History, b: nat)
    requires AfterMoves(h) && |h.slots| > 2 && IsLeftover(h.before, h.eventId, h.slots[0], b)
    requires AllSettleAt(h.after, h.eventId, h.ids[0], LastDay(h))
    ensures LeadsTo(h.before, h.eventId, h.slots, b, LastDay(h))
  {
    forall path, end | Settles(h.before, h.eventId, h.slots, path, end) && path[|path| - 1] == b
      ensures end == LastDay(h)
    {
      LeftoverBefore(h, b);
      SameSettled(h, path, end);
      FirstHasNoTarget(h);
      SettlesFrom(h.after, h.eventId, path, h.ids[0], end);
      assert (path + [h.ids[0]])[|path|] == h.ids[0];
    }
  }

  lemma FirstLeads(h: History)
    requires AfterMoves(h)
    requires |h.slots| > 2 ==>
               forall b | IsLeftover(h.before, h.eventId, h.slots[0], b) ::
                   LeadsTo(h.before, h.eventId, h.slots, b, LastDay(h))
    ensures AllSettleAt(h.after, h.eventId, h.ids[0], LastDay(h))
  {
    if |h.slots| == 2 {
      OneMoveIsFollowed(h);
    } else {
      forall path, end | Settles(h.after, h.eventId, [], path, end) && path[|path| - 1] == h.ids[0]
        ensures end == LastDay(h)
      {
        SettledFromFirst(h, path, end);
      }
    }
  }

  lemma SettledFromFirst(h: History, path: seq<nat>, end: Option<int>)
    requires AfterMoves(h) && |h.slots| > 2
    requires forall b | IsLeftover(h.before, h.eventId, h.slots[0], b) ::
        LeadsTo(h.before, h.eventId, h.slots, b, LastDay(h))
    requires Settles(h.after, h.eventId, [], path, end) && path[|path| - 1] == h.ids[0]
    ensures end == LastDay(h)
  {
    FirstHasNoTarget(h);
    if |path| == 1 {
      assert false;
    }
    var n := |path| - 1;
    var part, b := path[..n], path[n - 1];
    PrefixSettles(h.after, h.eventId, path, end, n);
    assert IsBranch(h.after, h.eventId, [], path[n - 1], path[n]);
    if b == h.ids[1] {
      ChainRows(h);
      ChainLeadsToLast(h, 1);
    } else {
      LeftoverAfter(h, b);
      SameSettled(h, part, end);
      assert LeadsTo(h.before, h.eventId, h.slots, b, LastDay(h));
    }
  }

  /** From another cancel: when the first cancel leads to the day, only descents that miss it matter. */
  lemma OtherLeads(h: History, p: nat)
    requires AfterMoves(h) && LeftAlone(h, p) && AllSettleAt(h.after, h.eventId, h.ids[0], LastDay(h))
    ensures AllSettleAt(h.after, h.eventId, p, LastDay(h)) <==> LeadsTo(h.before, h.eventId, h.slots, p, LastDay(h))
  {
    forall path, end | Settles(h.before, h.eventId, h.slots, path, end) && path[|path| - 1] == p
      ensures Settles(h.after, h.eventId, [], path, end)
    {
      SameSettled(h, path, end);
    }
    forall path, end | Settles(h.after, h.eventId, [], path, end) && path[|path| - 1] == p
      ensures Settles(h.before, h.eventId, h.slots, path, end) || end == LastDay(h)
    {
      SameSettled(h, path, end);
      if j :| 0 <= j < |path| && path[j] == h.ids[0] {
        PrefixSettles(h.after, h.eventId, path, end, j + 1);
        assert path[..j + 1][j] == h.ids[0];
      }
    }
  }

  // ----- which overrides decide

  /** An override away from the slots that decides how the session is shown. */
  predicate OtherDecider(rows: Rows, eventId: nat, slots: seq<OverrideRule>, occurrence: int, p: nat) {
    DecidesIn(rows, eventId, occurrence, p) && rows[p].rule !in slots
  }

  /** After the moves these decide, and the cancels of the chain whose slot is for the same time. */
  lemma DecidersAfter(h: History, occurrence: int, p: nat)
    requires AfterMoves(h)
    ensures OtherDecider(h.before, h.eventId, h.slots, occurrence, p) ==>
              DecidesIn(h.after, h.eventId, occurrence, p) && h.after[p] == h.before[p]
    ensures DecidesIn(h.after, h.eventId, occurrence, p) ==>
              OtherDecider(h.before, h.eventId, h.slots, occurrence, p)
              || exists k | 0 <= k < |h.ids| - 1 :: p == h.ids[k] && FirstTime(h.slots[k]) == Some(occurrence)
  {
    ChainRows(h);
    if DecidesIn(h.after, h.eventId, occurrence, p) && HoldsOne(h.after, p, h.eventId, SlotSet(h.slots)) {
      var k := HolderAfter(h, p);
    }
  }

  lemma ChainDecides(h: History, occurrence: int, k: nat)
    requires AfterMoves(h) && k < |h.ids| - 1 && FirstTime(h.slots[k]) == Some(occurrence)
    ensures DecidesIn(h.after, h.eventId, occurrence, h.ids[k])
    ensures IsFollowed(h.after, h.ids[k]) <==> h.cancels[k].reason == "rescheduled"
  {
    ChainRows(h);
    assert HasKey(h.after, h.ids[k], h.eventId, h.slots[k]);
  }

  // ----- what is shown

  /** What a caller can check before the moves: every cancel that it writes for the time of the session
      says "rescheduled"; so does every other override that decides the session; and the other branches,
      below those overrides and, with more than one move, below the session's own cancel, lead to the
      day of the last slot. */
  ghost predicate ShowsLast(rows: Rows, eventId: nat, slots: seq<OverrideRule>, cancels: seq<Override>, occurrence: int)
    requires |slots| == |cancels| + 1
  {
    var day := FirstDay(slots[|slots| - 1]);
    && (forall k | 0 <= k < |cancels| && FirstTime(slots[k]) == Some(occurrence) :: cancels[k].reason == "rescheduled")
    && (forall p | OtherDecider(rows, eventId, slots, occurrence, p) ::
          IsFollowed(rows, p) && LeadsTo(rows, eventId, slots, p, day))
    && (|slots| > 2 ==> forall b | IsLeftover(rows, eventId, slots[0], b) :: LeadsTo(rows, eventId, slots, b, day))
  }

  lemma MovesMakeHistory(
    t: Table, eventId: nat, slots: seq<OverrideRule>, cancels: seq<Override>, targets: seq<Override>, t': Table)
    returns (h: History)
    requires Ordered(t) && MoveRequests(eventId, slots, cancels, targets) && Distinct(slots) && |slots| > 1
    requires forall k | 0 < k < |slots| :: Forward(t.rows, eventId, slots[k])
    requires Moved(t, cancels, targets, |cancels|) == Ok(t')
    ensures h == History(t.rows, t'.rows, eventId, slots, h.ids, cancels)
    ensures AfterMoves(h) && FirstDay(slots[|slots| - 1]).Some?
  {
    var end, ids := ChainAfterMoves(t, eventId, slots, cancels, targets, |cancels|);
    h := History(t.rows, t'.rows, eventId, slots, ids, cancels);
    var n := |cancels|;
    var before := Moved(t, cancels, targets, n - 1).value;
    if n > 1 {
      var earlier, some := ChainAfterMoves(t, eventId, slots, cancels, targets, n - 1);
    }
    RescheduleSucceeds(before, cancels[n - 1], targets[n - 1]);
  }

  ghost predicate AllLead(h: History, occurrence: int)
    requires h.slots != []
  {
    forall p | DecidesIn(h.after, h.eventId, occurrence, p) ::
      IsFollowed(h.after, p) && AllSettleAt(h.after, h.eventId, p, LastDay(h))
  }

  lemma AllLeadShowsLast(h: History, occurrence: int)
    requires AfterMoves(h) && |h.slots| == |h.cancels| + 1 && FirstTime(h.slots[0]) == Some(occurrence)
        && AllLead(h, occurrence)
    ensures ShowsLast(h.before, h.eventId, h.slots, h.cancels, occurrence)
  {
    ChainRows(h);
    forall k | 0 <= k < |h.cancels| && FirstTime(h.slots[k]) == Some(occurrence)
      ensures h.cancels[k].reason == "rescheduled"
    {
      ChainDecides(h, occurrence, k);
    }
    ChainDecides(h, occurrence, 0);
    forall p | OtherDecider(h.before, h.eventId, h.slots, occurrence, p)
      ensures IsFollowed(h.before, p) && LeadsTo(h.before, h.eventId, h.slots, p, LastDay(h))
    {
      DecidersAfter(h, occurrence, p);
      OtherLeads(h, p);
    }
    if |h.slots| > 2 {
      forall b | IsLeftover(h.before, h.eventId, h.slots[0], b)
        ensures LeadsTo(h.before, h.eventId, h.slots, b, LastDay(h))
      {
        LeftoverLeads(h, b);
      }
    }
  }

  lemma ShowsLastAllLead(h: History, occurrence: int)
    requires AfterMoves(h) && |h.slots| == |h.cancels| + 1
    requires ShowsLast(h.before, h.eventId, h.slots, h.cancels, occurrence)
    ensures AllLead(h, occurrence)
  {
    ChainRows(h);
    FirstLeads(h);
    forall p | DecidesIn(h.after, h.eventId, occurrence, p)
      ensures IsFollowed(h.after, p) && AllSettleAt(h.after, h.eventId, p, LastDay(h))
    {
      DecidersAfter(h, occurrence, p);
      if OtherDecider(h.before, h.eventId, h.slots, occurrence, p) {
        OtherLeads(h, p);
      } else {
        var k :| 0 <= k < |h.ids| - 1 && p == h.ids[k] && FirstTime(h.slots[k]) == Some(occurrence);
        ChainDecides(h, occurrence, k);
        if k > 0 {
          ChainLeadsToLast(h, k);
        }
      }
    }
  }

  /** After any number of successive reschedules of a session to slots that hold no cancel, the session
      is shown as moved to the day of the last slot, whatever the order of the listing, if and only if
      the condition above holds before the moves. */
  lemma ReportedExactly(
    t: Table, eventId: nat, slots: seq<OverrideRule>, cancels: seq<Override>, targets: seq<Override>, t': Table,
    occurrence: int)
    requires Ordered(t) && MoveRequests(eventId, slots, cancels, targets) && Distinct(slots) && |slots| > 1
    requires forall k | 0 < k < |slots| :: Forward(t.rows, eventId, slots[k])
    requires Moved(t, cancels, targets, |cancels|) == Ok(t') && FirstTime(slots[0]) == Some(occurrence)
    ensures (forall overrides | Lists(overrides, t'.rows, eventId) ::
        Reported(overrides, occurrence) == FirstDay(slots[|slots| - 1]))
       <==> ShowsLast(t.rows, eventId, slots, cancels, occurrence)
  {
    var h := MovesMakeHistory(t, eventId, slots, cancels, targets, t');
    ChainRows(h);
    ShownEverywhere(t'.rows, eventId, occurrence, FirstDay(slots[|slots| - 1]));
    ChainDecides(h, occurrence, 0);
    if AllLead(h, occurrence) {
      AllLeadShowsLast(h, occurrence);
    }
    if ShowsLast(t.rows, eventId, slots, cancels, occurrence) {
      ShowsLastAllLead(h, occurrence);
    }
  }

  /** So a session is always shown where it was last moved to when no other override decides it, no other
      cancel is linked to its own, and the moves say "rescheduled". */
  lemma FollowsEveryMove(
    t: Table, eventId: nat, slots: seq<OverrideRule>, cancels: seq<Override>, targets: seq<Override>, t': Table,
    occurrence: int,
    overrides: seq<Override>)
    requires Ordered(t) && MoveRequests(eventId, slots, cancels, targets) && Distinct(slots) && |slots| > 1
    requires forall k | 0 < k < |slots| :: Forward(t.rows, eventId, slots[k])
    requires Moved(t, cancels, targets, |cancels|) == Ok(t') && FirstTime(slots[0]) == Some(occurrence)
    requires forall k | 0 <= k < |cancels| :: cancels[k].reason == "rescheduled"
    requires forall p :: !OtherDecider(t.rows, eventId, slots, occurrence, p)
    requires forall b :: !IsLeftover(t.rows, eventId, slots[0], b)
    requires Lists(overrides, t'.rows, eventId)
    ensures Reported(overrides, occurrence) == FirstDay(slots[|slots| - 1])
  {
    ReportedExactly(t, eventId, slots, cancels, targets, t', occurrence);
  }

  /** Nothing is shown, in some order of the listing, when a cancel to which nothing is linked is left over
      on the session and it is moved more than once. */
  lemma LeftoverHidesTheTarget(
    t: Table, eventId: nat, slots: seq<OverrideRule>, cancels: seq<Override>, targets: seq<Override>, t': Table,
    occurrence: int,
    b: nat)
    returns (overrides: seq<Override>)
    requires Ordered(t) && MoveRequests(eventId, slots, cancels, targets) && Distinct(slots) && |slots| > 2
    requires forall k | 0 < k < |slots| :: Forward(t.rows, eventId, slots[k])
    requires Moved(t, cancels, targets, |cancels|) == Ok(t') && FirstTime(slots[0]) == Some(occurrence)
    requires IsLeftover(t.rows, eventId, slots[0], b) && NobodyLinks(t.rows, b)
    ensures Lists(overrides, t'.rows, eventId) && Reported(overrides, occurrence) == None
  {
    var h := MovesMakeHistory(t, eventId, slots, cancels, targets, t');
    ChainRows(h);
    LeftoverBefore(h, b);
    UnlinkedEnds(h, b);
    FirstHasNoTarget(h);
    SettlesFrom(h.after, eventId, [b], h.ids[0], None);
    ChainDecides(h, occurrence, 0);
    overrides := HiddenSomewhere(h.after, eventId, occurrence, [b] + [h.ids[0]]);
  }

  lemma UnlinkedEnds(h: History, b: nat)
    requires AfterMoves(h) && LeftAlone(h, b) && NobodyLinks(h.before, b)
    ensures Settles(h.after, h.eventId, [], [b], None) && b != h.ids[0]
  {
    assert forall a :: !Links(h.before, a, b);
    assert forall a | LinkedOf(h.before, h.eventId, a, b) :: Links(h.before, a, b);
    assert Settles(h.before, h.eventId, h.slots, [b], None);
    SameSettled(h, [b], None);
  }

  /** Nor is anything shown, in some order, when another override for the time of the session is no cancel
      that says "rescheduled", or one to which nothing is linked: after one move already. */
  lemma OtherDeciderHidesTheTarget(
    t: Table, eventId: nat, slots: seq<OverrideRule>, cancels: seq<Override>, targets: seq<Override>, t': Table,
    occurrence: int,
    p: nat)
    returns (overrides: seq<Override>)
    requires Ordered(t) && MoveRequests(eventId, slots, cancels, targets) && Distinct(slots) && |slots| > 1
    requires forall k | 0 < k < |slots| :: Forward(t.rows, eventId, slots[k])
    requires Moved(t, cancels, targets, |cancels|) == Ok(t')
    requires OtherDecider(t.rows, eventId, slots, occurrence, p) && (!IsFollowed(t.rows, p) || NobodyLinks(t.rows, p))
    ensures Lists(overrides, t'.rows, eventId) && Reported(overrides, occurrence) == None
  {
    var h := MovesMakeHistory(t, eventId, slots, cancels, targets, t');
    DecidersAfter(h, occurrence, p);
    if IsFollowed(t.rows, p) {
      UnlinkedEnds(h, p);
    }
    overrides := HiddenSomewhere(h.after, eventId, occurrence, [p]);
  }
}
