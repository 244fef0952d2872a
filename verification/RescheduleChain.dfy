// Following a rescheduled session to the date it ended up on, through any number of reschedules.
module RescheduleChain {
  import opened Prelude
  import opened Schedule
  import opened OverrideLinks

  predicate IsTargetOf(o: Override, id: nat) {
    !o.cancelled && o.link == Some(id)
  }

  predicate IsNextCancel(o: Override, id: nat, visited: set<nat>) {
    o.cancelled && o.link == Some(id) && o.id !in visited
  }

  function FirstTarget(overrides: seq<Override>, id: nat): Option<Override> {
    if overrides == [] then None
    else if IsTargetOf(overrides[0], id) then Some(overrides[0])
    else FirstTarget(overrides[1..], id)
  }

  /** The id of the first cancelled override linked to `id` and not yet visited; 0 when there is none. */
  function NextCancel(overrides: seq<Override>, id: nat, visited: set<nat>): nat {
    if overrides == [] then 0
    else if IsNextCancel(overrides[0], id, visited) then overrides[0].id
    else NextCancel(overrides[1..], id, visited)
  }

  function Ids(overrides: seq<Override>): set<nat> {
    set o | o in overrides :: o.id
  }

  lemma NextCancelFound(overrides: seq<Override>, id: nat, visited: set<nat>)
    ensures var next := NextCancel(overrides, id, visited);
            next != 0 ==> exists o :: o in overrides && o.id == next && IsNextCancel(o, id, visited)
  {
  }

  lemma FirstTargetFound(overrides: seq<Override>, id: nat)
    ensures var o := FirstTarget(overrides, id);
            && (o.Some? ==> o.value in overrides && IsTargetOf(o.value, id))
            && (o.None? ==> forall t | t in overrides :: !IsTargetOf(t, id))
  {
  }

  /** Reported date of the session whose cancel is `current`: its target's, or the one its chain leads to. */
  function Follow(overrides: seq<Override>, current: nat, visited: set<nat>): Option<int>
    decreases Ids(overrides) - visited
  {
    match FirstTarget(overrides, current)
    case Some(target) => FirstDay(target.rule)
    case None =>
      var next := NextCancel(overrides, current, visited);
      if next == 0 then None
      else
        NextCancelFound(overrides, current, visited);
        assert next in Ids(overrides) - visited;
        Follow(overrides, next, visited + {next})
  }

  /** An override decides how a session is shown when it is for the time of the session, the targets
      of reschedules apart. */
  predicate Decides(o: Override, occurrence: int) {
    (o.cancelled || o.link.None?) && FirstTime(o.rule) == Some(occurrence)
  }

  function Deciding(overrides: seq<Override>, occurrence: int): Option<Override> {
    if overrides == [] then None
    else if Decides(overrides[0], occurrence) then Some(overrides[0])
    else Deciding(overrides[1..], occurrence)
  }

  /** The date a session is shown as moved to: only a cancel whose reason says so is followed. */
  function Reported(overrides: seq<Override>, occurrence: int): Option<int> {
    var o := Deciding(overrides, occurrence);
    if o.Some? && o.value.cancelled && o.value.reason == RESCHEDULED then Follow(overrides, o.value.id, {o.value.id})
        else None
  }

  const RESCHEDULED := "rescheduled"

  method CheckEventCancelledAndRescheduled(occurrence: int, overrides: seq<Override>)
    returns (isCancelled: bool, isRescheduled: bool, overrideId: nat)
    ensures match Deciding(overrides, occurrence)
            case None => !isCancelled && !isRescheduled
            case Some(o) =>
              isCancelled == o.cancelled && isRescheduled == (o.reason == RESCHEDULED) && overrideId == o.id
  {
    for i := 0 to |overrides|
      invariant Deciding(overrides, occurrence) == Deciding(overrides[i..], occurrence)
    {
      var override := overrides[i];
      if !override.cancelled && override.link.Some? {
        continue;
      }
      if Times(override.rule) != [] && Times(override.rule)[0] == occurrence {
        return override.cancelled, override.reason == RESCHEDULED, override.id;
      }
    }
    return false, false, 0;
  }

  method RescheduledToDate(overrides: seq<Override>, occurrence: int) returns (date: Option<int>)
    ensures date == Reported(overrides, occurrence)
  {
    var isCancelled, isRescheduled, overrideId := CheckEventCancelledAndRescheduled(occurrence, overrides);
    date := None;
    if isCancelled && isRescheduled {
      date := FollowLinks(overrides, overrideId);
    }
  }

  method FollowLinks(overrides: seq<Override>, overrideId: nat) returns (date: Option<int>)
    ensures date == Follow(overrides, overrideId, {overrideId})
  {
    var currentId, visited := overrideId, {overrideId};
    while true
      invariant Follow(overrides, overrideId, {overrideId}) == Follow(overrides, currentId, visited)
      decreases Ids(overrides) - visited
    {
      for i := 0 to |overrides|
        invariant FirstTarget(overrides, currentId) == FirstTarget(overrides[i..], currentId)
      {
        if IsTargetOf(overrides[i], currentId) {
          return FirstDay(overrides[i].rule);
        }
      }
      var nextId := 0;
      for i := 0 to |overrides|
        invariant nextId == 0
        invariant NextCancel(overrides, currentId, visited) == NextCancel(overrides[i..], currentId, visited)
      {
        if IsNextCancel(overrides[i], currentId, visited) {
          nextId := overrides[i].id;
          break;
        }
      }
      if nextId == 0 {
        return None;
      }
      NextCancelFound(overrides, currentId, visited);
      visited, currentId := visited + {nextId}, nextId;
    }
  }

  // ----- whatever is reported is reached

  /** Overrides from the cancel `start` through further cancels to one that counts. */
  ghost predicate Reaches(overrides: seq<Override>, start: nat, path: seq<Override>) {
    && path != []
    && (forall i | 0 <= i < |path| :: path[i] in overrides && (path[i].cancelled <==> i < |path| - 1))
    && path[0].link == Some(start)
    && (forall i | 0 <= i < |path| - 1 :: path[i + 1].link == Some(path[i].id))
  }

  lemma ReachesFurther(overrides: seq<Override>, start: nat, cancel: Override, path: seq<Override>)
    requires cancel in overrides && cancel.cancelled && cancel.link == Some(start)
    requires Reaches(overrides, cancel.id, path)
    ensures Reaches(overrides, start, [cancel] + path)
  {
  }

  lemma {:induction false} FollowIsSound(overrides: seq<Override>, current: nat, visited: set<nat>, day: int)
    requires Follow(overrides, current, visited) == Some(day)
    ensures exists path: seq<Override> ::
        Reaches(overrides, current, path) && FirstDay(path[|path| - 1].rule) == Some(day)
    decreases Ids(overrides) - visited
  {
    FirstTargetFound(overrides, current);
    match FirstTarget(overrides, current)
    case Some(target) =>
      assert Reaches(overrides, current, [target]);
    case None =>
      var next := NextCancel(overrides, current, visited);
      NextCancelFound(overrides, current, visited);
      var o :| o in overrides && o.id == next && IsNextCancel(o, current, visited);
      FollowIsSound(overrides, next, visited + {next}, day);
      var path: seq<Override> :| Reaches(overrides, next, path) && FirstDay(path[|path| - 1].rule) == Some(day);
      ReachesFurther(overrides, current, o, path);
  }

  // ----- where the loops stop

  lemma NextCancelExists(overrides: seq<Override>, o: Override, id: nat, visited: set<nat>)
    requires o in overrides && IsNextCancel(o, id, visited)
    requires forall p | p in overrides :: p.id != 0
    ensures NextCancel(overrides, id, visited) != 0
  {
  }

  lemma NextCancelIsFirst(overrides: seq<Override>, j: nat, id: nat, visited: set<nat>)
    requires j < |overrides| && IsNextCancel(overrides[j], id, visited) && overrides[j].id != 0
    requires forall i | 0 <= i < j :: !IsNextCancel(overrides[i], id, visited)
    ensures NextCancel(overrides, id, visited) == overrides[j].id
  {
    if j > 0 {
      NextCancelIsFirst(overrides[1..], j - 1, id, visited);
    }
  }

  lemma FirstTargetIsFirst(overrides: seq<Override>, j: nat, id: nat)
    requires j < |overrides| && IsTargetOf(overrides[j], id)
    requires forall i | 0 <= i < j :: !IsTargetOf(overrides[i], id)
    ensures FirstTarget(overrides, id) == Some(overrides[j])
  {
    if j > 0 {
      FirstTargetIsFirst(overrides[1..], j - 1, id);
    }
  }

  lemma DecidingFound(overrides: seq<Override>, occurrence: int)
    ensures var o := Deciding(overrides, occurrence);
            && (o.Some? ==> o.value in overrides && Decides(o.value, occurrence))
            && (o.None? ==> forall p | p in overrides :: !Decides(p, occurrence))
  {
  }
}
