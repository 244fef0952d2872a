// What is shown of a rescheduled session in every order in which its overrides may be listed.
module ChainListings {
  import opened Prelude
  import opened Schedule
  import opened OverrideLinks
  import opened RescheduleChain

  /** `overrides` lists the live overrides of one event, each once and in any order. */
  ghost predicate Lists(overrides: seq<Override>, rows: Rows, eventId: nat) {
    && Distinct(overrides)
    && (forall o | o in overrides :: Live(rows, o.id) && rows[o.id] == o && o.eventId == eventId)
    && (forall id | Live(rows, id) && rows[id].eventId == eventId :: rows[id] in overrides)
  }

  /** Every row carries its own id, and none the id 0. */
  ghost predicate Keyed(rows: Rows) {
    forall id | id in rows :: rows[id].id == id != 0
  }

  // ----- descents

  predicate LinkedOf(rows: Rows, eventId: nat, a: nat, c: nat) {
    Live(rows, a) && rows[a].eventId == eventId && rows[a].link == Some(c)
  }

  /** Cancel `a` of the event is linked to `c`. The slots are those that a session is about to be moved
      through: the overrides that hold them are left out. */
  predicate IsBranch(rows: Rows, eventId: nat, slots: seq<OverrideRule>, a: nat, c: nat) {
    LinkedOf(rows, eventId, a, c) && rows[a].cancelled && rows[a].rule !in slots
  }

  /** The counting override `a` of the event is linked to `c`. */
  predicate IsTargetIn(rows: Rows, eventId: nat, slots: seq<OverrideRule>, a: nat, c: nat) {
    LinkedOf(rows, eventId, a, c) && !rows[a].cancelled && rows[a].rule !in slots
  }

  ghost predicate NoTarget(rows: Rows, eventId: nat, slots: seq<OverrideRule>, c: nat) {
    forall a :: !IsTargetIn(rows, eventId, slots, a, c)
  }

  /** From the last id up to the first, each but the last a cancel linked to the one after it, and none
      but perhaps the first with a target. */
  ghost predicate Descends(rows: Rows, eventId: nat, slots: seq<OverrideRule>, path: seq<nat>) {
    && path != [] && Distinct(path)
    && (forall i | 0 <= i < |path| - 1 :: IsBranch(rows, eventId, slots, path[i], path[i + 1]))
    && (forall i | 0 < i < |path| :: NoTarget(rows, eventId, slots, path[i]))
  }

  /** Nothing is linked to the first but cancels already on the path; overrides that hold a slot after the
      first of `slots` do not matter, as they are about to be moved away. */
  ghost predicate DeadEnd(rows: Rows, eventId: nat, slots: seq<OverrideRule>, path: seq<nat>)
    requires path != []
  {
    forall a | LinkedOf(rows, eventId, a, path[0]) ::
      (slots != [] && rows[a].rule in slots[1..]) || (rows[a].cancelled && a in path)
  }

  /** A descent that cannot go on: it has come to a target on `day`, or to nothing. */
  ghost predicate Settles(rows: Rows, eventId: nat, slots: seq<OverrideRule>, path: seq<nat>, day: Option<int>) {
    && Descends(rows, eventId, slots, path)
    && (|| (exists a :: IsTargetIn(rows, eventId, slots, a, path[0]) && FirstDay(rows[a].rule) == day)
        || (day == None && DeadEnd(rows, eventId, slots, path)))
  }

  function Elements(path: seq<nat>): set<nat> {
    set id | id in path
  }

  /** The follower goes down a descent to its end. */
  lemma {:induction false} FollowSettles(overrides: seq<Override>, rows: Rows, eventId: nat, path: seq<nat>)
    returns (full: seq<nat>)
    requires Keyed(rows) && Lists(overrides, rows, eventId) && Descends(rows, eventId, [], path)
    ensures Settles(rows, eventId, [], full, Follow(overrides, path[0], Elements(path)))
    ensures full[|full| - 1] == path[|path| - 1]
    decreases Ids(overrides) - Elements(path)
  {
    var current, visited := path[0], Elements(path);
    FirstTargetFound(overrides, current);
    full := path;
    match FirstTarget(overrides, current)
    case Some(target) =>
      assert IsTargetIn(rows, eventId, [], target.id, current);
    case None =>
      forall a | LinkedOf(rows, eventId, a, current)
        ensures rows[a].cancelled && (NextCancel(overrides, current, visited) == 0 ==> a in path)
      {
        assert rows[a] in overrides && !IsTargetOf(rows[a], current);
        if a !in path {
          NextCancelExists(overrides, rows[a], current, visited);
        }
      }
      NextCancelFound(overrides, current, visited);
      var next := NextCancel(overrides, current, visited);
      if next != 0 {
        var longer := [next] + path;
        assert IsBranch(rows, eventId, [], next, current);
        assert Descends(rows, eventId, [], longer);
        assert Elements(longer) == visited + {next};
        assert next in Ids(overrides) - visited;
        full := FollowSettles(overrides, rows, eventId, longer);
      }
  }

  ghost predicate StartsWith(overrides: seq<Override>, rows: Rows, ids: seq<nat>) {
    |ids| <= |overrides| && forall i | 0 <= i < |ids| :: ids[i] in rows && overrides[i] == rows[ids[i]]
  }

  /** Some listing starts with the given rows. */
  lemma ListingFrom(rows: Rows, eventId: nat, front: seq<nat>) returns (overrides: seq<Override>)
    requires Keyed(rows) && Distinct(front)
    requires forall i | 0 <= i < |front| :: Live(rows, front[i]) && rows[front[i]].eventId == eventId
    ensures Lists(overrides, rows, eventId) && StartsWith(overrides, rows, front)
  {
    overrides := seq(|front|, i requires 0 <= i < |front| => rows[front[i]]);
    var rest := set id | id in rows && Live(rows, id) && rows[id].eventId == eventId && id !in front;
    while rest != {}
      invariant Distinct(overrides) && StartsWith(overrides, rows, front)
      invariant forall o | o in overrides ::
          Live(rows, o.id) && rows[o.id] == o && o.eventId == eventId && o.id !in rest
      invariant forall id | id in rest :: Live(rows, id) && rows[id].eventId == eventId
      invariant forall id | Live(rows, id) && rows[id].eventId == eventId :: id in rest || rows[id] in overrides
      decreases rest
    {
      var id :| id in rest;
      overrides, rest := overrides + [rows[id]], rest - {id};
    }
  }

  /** The listing starts with `lead`, in which no cancel but the last of the path occurs, and goes on with
      the branches of the path. */
  ghost predicate Fronts(overrides: seq<Override>, rows: Rows, lead: seq<nat>, path: seq<nat>)
    requires path != []
  {
    && StartsWith(overrides, rows, lead + path[..|path| - 1])
    && forall i | 0 <= i < |lead| :: lead[i] in rows && (rows[lead[i]].cancelled ==> lead[i] == path[|path| - 1])
  }

  /** Then the follower takes each of these branches ... */
  lemma TakesBranch(overrides: seq<Override>, rows: Rows, eventId: nat, lead: seq<nat>, path: seq<nat>, i: nat)
    requires Keyed(rows) && Lists(overrides, rows, eventId) && Descends(rows, eventId, [], path)
    requires 0 < i < |path| && Fronts(overrides, rows, lead, path)
    ensures FirstTarget(overrides, path[i]).None?
    ensures NextCancel(overrides, path[i], Elements(path[i..])) == path[i - 1]
    ensures Elements(path[i - 1..]) == Elements(path[i..]) + {path[i - 1]}
  {
    var current, visited, front := path[i], Elements(path[i..]), lead + path[..|path| - 1];
    FirstTargetFound(overrides, current);
    if FirstTarget(overrides, current).Some? {
      assert IsTargetIn(rows, eventId, [], FirstTarget(overrides, current).value.id, current);
    }
    assert path[i - 1..] == [path[i - 1]] + path[i..];
    assert path[|path| - 1] == path[i..][|path| - 1 - i];
    var j := |lead| + i - 1;
    assert front[j] == path[i - 1] && IsBranch(rows, eventId, [], path[i - 1], path[i]);
    forall k | 0 <= k < j
      ensures !IsNextCancel(overrides[k], current, visited)
    {
      if k < |lead| {
        assert front[k] == lead[k];
      } else {
        var m := k - |lead|;
        assert front[k] == path[m] && IsBranch(rows, eventId, [], path[m], path[m + 1]) && path[m + 1] != path[i];
      }
    }
    NextCancelIsFirst(overrides, j, current, visited);
  }

  /** ... and gets to its end. */
  lemma {:induction false} FollowTakes(
    overrides: seq<Override>, rows: Rows, eventId: nat, lead: seq<nat>, path: seq<nat>, day: Option<int>, i: nat)
    requires Keyed(rows) && Lists(overrides, rows, eventId) && Descends(rows, eventId, [], path)
    requires i < |path| && Fronts(overrides, rows, lead, path)
    requires Follow(overrides, path[0], Elements(path[0..])) == day
    ensures Follow(overrides, path[i], Elements(path[i..])) == day
  {
    if i > 0 {
      TakesBranch(overrides, rows, eventId, lead, path, i);
      assert IsBranch(rows, eventId, [], path[i - 1], path[i]);
      FollowTakes(overrides, rows, eventId, lead, path, day, i - 1);
    }
  }

  /** The target at the end of a path, listed before any other, is the one reported. */
  lemma TargetEnds(overrides: seq<Override>, rows: Rows, eventId: nat, lead: seq<nat>, path: seq<nat>, a: nat)
    requires Keyed(rows) && Lists(overrides, rows, eventId) && path != []
    requires IsTargetIn(rows, eventId, [], a, path[0])
    requires StartsWith(overrides, rows, lead + [a])
        && forall i | 0 <= i < |lead| :: lead[i] in rows && rows[lead[i]].cancelled
    ensures Follow(overrides, path[0], Elements(path[0..])) == FirstDay(rows[a].rule)
  {
    var front := lead + [a];
    assert front[|lead|] == a;
    forall i | 0 <= i < |lead|
      ensures !IsTargetOf(overrides[i], path[0])
    {
      assert front[i] == lead[i];
    }
    FirstTargetIsFirst(overrides, |lead|, path[0]);
  }

  lemma DeadEnds(overrides: seq<Override>, rows: Rows, eventId: nat, path: seq<nat>)
    requires Keyed(rows) && Lists(overrides, rows, eventId) && path != [] && DeadEnd(rows, eventId, [], path)
    ensures Follow(overrides, path[0], Elements(path[0..])) == None
  {
    var current, visited := path[0], Elements(path[0..]);
    FirstTargetFound(overrides, current);
    NextCancelFound(overrides, current, visited);
    assert forall o | o in overrides && o.link == Some(current) :: LinkedOf(rows, eventId, o.id, current);
  }

  /** A listing that starts with `lead` and the branches of a path. */
  lemma ListingThrough(rows: Rows, eventId: nat, lead: seq<nat>, path: seq<nat>) returns (overrides: seq<Override>)
    requires Keyed(rows) && Descends(rows, eventId, [], path) && Distinct(lead)
    requires forall i | 0 <= i < |lead| ::
               && Live(rows, lead[i]) && rows[lead[i]].eventId == eventId
               && (rows[lead[i]].cancelled ==> lead[i] == path[|path| - 1])
    ensures Lists(overrides, rows, eventId) && Fronts(overrides, rows, lead, path)
  {
    var front := lead + path[..|path| - 1];
    forall k | 0 <= k < |path| - 1
      ensures Live(rows, path[k]) && rows[path[k]].cancelled && rows[path[k]].eventId == eventId && path[k] !in lead
    {
      assert IsBranch(rows, eventId, [], path[k], path[k + 1]);
      assert path[k] != path[|path| - 1];
    }
    overrides := ListingFrom(rows, eventId, front);
  }

  lemma StartReported(overrides: seq<Override>, rows: Rows, eventId: nat, lead: seq<nat>, path: seq<nat>,
      day: Option<int>)
    requires Keyed(rows) && Lists(overrides, rows, eventId) && Descends(rows, eventId, [], path)
    requires Fronts(overrides, rows, lead, path) && Follow(overrides, path[0], Elements(path[0..])) == day
    ensures Follow(overrides, path[|path| - 1], {path[|path| - 1]}) == day
  {
    var n := |path| - 1;
    FollowTakes(overrides, rows, eventId, lead, path, day, n);
    assert path[n..] == [path[n]];
    assert Elements(path[n..]) == {path[n]};
  }

  /** Whatever a descent settles at is reported in some listing; when it starts from a cancel of the event,
      in some listing that has this first. */
  lemma SettledIsReported(rows: Rows, eventId: nat, path: seq<nat>, day: Option<int>, first: bool)
    returns (overrides: seq<Override>)
    requires Keyed(rows) && Settles(rows, eventId, [], path, day)
    requires var start := path[|path| - 1];
             first ==> Live(rows, start) && rows[start].cancelled && rows[start].eventId == eventId
    ensures var start := path[|path| - 1];
            && Lists(overrides, rows, eventId) && Follow(overrides, start, {start}) == day
            && (first ==> overrides != [] && start in rows && overrides[0] == rows[start])
  {
    var base := if first then [path[|path| - 1]] else [];
    if a :| IsTargetIn(rows, eventId, [], a, path[0]) && FirstDay(rows[a].rule) == day {
      var lead := base + [a];
      overrides := ListingThrough(rows, eventId, lead, path);
      LeadIsFirst(overrides, rows, lead, path);
      TargetEnds(overrides, rows, eventId, base, path, a);
      StartReported(overrides, rows, eventId, lead, path, day);
    } else {
      overrides := ListingThrough(rows, eventId, base, path);
      LeadIsFirst(overrides, rows, base, path);
      DeadEnds(overrides, rows, eventId, path);
      StartReported(overrides, rows, eventId, base, path, day);
    }
  }

  lemma LeadIsFirst(overrides: seq<Override>, rows: Rows, lead: seq<nat>, path: seq<nat>)
    requires path != [] && Fronts(overrides, rows, lead, path)
    ensures StartsWith(overrides, rows, lead)
  {
    var front := lead + path[..|path| - 1];
    assert forall i | 0 <= i < |lead| :: front[i] == lead[i];
  }

  /** The follower reports one and the same date in every listing of an event's overrides exactly when
      every descent from the cancel ends at that date, on any link graph, cycles included. */
  lemma FollowedEverywhere(rows: Rows, eventId: nat, start: nat, day: Option<int>)
    requires Keyed(rows)
    ensures (forall overrides | Lists(overrides, rows, eventId) :: Follow(overrides, start, {start}) == day)
       <==> AllSettleAt(rows, eventId, start, day)
  {
    if forall overrides | Lists(overrides, rows, eventId) :: Follow(overrides, start, {start}) == day {
      forall path, end | Settles(rows, eventId, [], path, end) && path[|path| - 1] == start
        ensures end == day
      {
        var overrides := SettledIsReported(rows, eventId, path, end, false);
      }
    }
    if AllSettleAt(rows, eventId, start, day) {
      forall overrides | Lists(overrides, rows, eventId)
        ensures Follow(overrides, start, {start}) == day
      {
        FollowReachesDay(overrides, rows, eventId, start, day);
      }
    }
  }

  ghost predicate AllSettleAt(rows: Rows, eventId: nat, start: nat, day: Option<int>) {
    forall path, end | Settles(rows, eventId, [], path, end) && path[|path| - 1] == start :: end == day
  }

  lemma FollowReachesDay(overrides: seq<Override>, rows: Rows, eventId: nat, start: nat, day: Option<int>)
    requires Keyed(rows) && Lists(overrides, rows, eventId) && AllSettleAt(rows, eventId, start, day)
    ensures Follow(overrides, start, {start}) == day
  {
    assert Elements([start]) == {start};
    var path := FollowSettles(overrides, rows, eventId, [start]);
  }

  // ----- what is shown

  predicate DecidesIn(rows: Rows, eventId: nat, occurrence: int, p: nat) {
    Live(rows, p) && rows[p].eventId == eventId && Decides(rows[p], occurrence)
  }

  predicate IsFollowed(rows: Rows, p: nat) {
    p in rows && rows[p].cancelled && rows[p].reason == "rescheduled"
  }

  /** An override that decides and that is listed first hides the session when it is not followed, or
      when it can be followed to nothing. */
  lemma HiddenSomewhere(rows: Rows, eventId: nat, occurrence: int, path: seq<nat>) returns (overrides: seq<Override>)
    requires Keyed(rows) && path != [] && DecidesIn(rows, eventId, occurrence, path[|path| - 1])
    requires !IsFollowed(rows, path[|path| - 1]) || Settles(rows, eventId, [], path, None)
    ensures Lists(overrides, rows, eventId) && Reported(overrides, occurrence) == None
  {
    var p := path[|path| - 1];
    if IsFollowed(rows, p) {
      overrides := SettledIsReported(rows, eventId, path, None, true);
    } else {
      overrides := ListingFrom(rows, eventId, [p]);
    }
    assert Deciding(overrides, occurrence) == Some(overrides[0]);
  }

  /** A session is shown as moved to one and the same day in every listing exactly when some override
      decides it, and each that does is a cancel that says "rescheduled" and from which every descent
      ends at that day. */
  lemma ShownEverywhere(rows: Rows, eventId: nat, occurrence: int, day: Option<int>)
    requires Keyed(rows) && day.Some?
    ensures (forall overrides | Lists(overrides, rows, eventId) :: Reported(overrides, occurrence) == day) <==>
              && (exists p :: DecidesIn(rows, eventId, occurrence, p))
              && forall p | DecidesIn(rows, eventId, occurrence, p) ::
                  IsFollowed(rows, p) && AllSettleAt(rows, eventId, p, day)
  {
    if forall overrides | Lists(overrides, rows, eventId) :: Reported(overrides, occurrence) == day {
      ShownNeedsAll(rows, eventId, occurrence, day);
    }
    if (exists p :: DecidesIn(rows, eventId, occurrence, p))
       && forall p | DecidesIn(rows, eventId, occurrence, p) ::
           IsFollowed(rows, p) && AllSettleAt(rows, eventId, p, day) {
      forall overrides | Lists(overrides, rows, eventId)
        ensures Reported(overrides, occurrence) == day
      {
        DecidingFound(overrides, occurrence);
        var p :| DecidesIn(rows, eventId, occurrence, p);
        assert rows[p] in overrides;
        var o := Deciding(overrides, occurrence).value;
        FollowReachesDay(overrides, rows, eventId, o.id, day);
      }
    }
  }

  lemma ShownNeedsAll(rows: Rows, eventId: nat, occurrence: int, day: Option<int>)
    requires Keyed(rows) && day.Some?
    requires forall overrides | Lists(overrides, rows, eventId) :: Reported(overrides, occurrence) == day
    ensures exists p :: DecidesIn(rows, eventId, occurrence, p)
    ensures forall p | DecidesIn(rows, eventId, occurrence, p) ::
        IsFollowed(rows, p) && AllSettleAt(rows, eventId, p, day)
  {
    var some := ListingFrom(rows, eventId, []);
    DecidingFound(some, occurrence);
    assert DecidesIn(rows, eventId, occurrence, Deciding(some, occurrence).value.id);
    forall p | DecidesIn(rows, eventId, occurrence, p)
      ensures IsFollowed(rows, p)
    {
      if !IsFollowed(rows, p) {
        var hidden := HiddenSomewhere(rows, eventId, occurrence, [p]);
      }
    }
    forall p, path, end | DecidesIn(rows, eventId, occurrence, p) && Settles(rows, eventId, [], path, end)
        && path[|path| - 1] == p
      ensures end == day
    {
      var overrides := SettledIsReported(rows, eventId, path, end, true);
      assert Deciding(overrides, occurrence) == Some(overrides[0]);
    }
  }
}
