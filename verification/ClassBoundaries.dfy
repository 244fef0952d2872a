// Re-deriving the start and end dates of a class from its recurrence rows and their overrides.
module ClassBoundaries {
  import opened Prelude
  import opened Schedule

  datatype Dates = Dates(start: int, end: Option<int>)

  /** The look-ahead of the search for occurrences: AddDate(0, 3, 0) and AddDate(5, 0, 0). */
  datatype Horizon = Horizon(threeMonthsOn: int -> int, fiveYearsOn: int -> int)

  predicate AllParse(events: seq<Event>) {
    forall e | e in events :: e.rule.Some?
  }

  predicate AllHaveUntil(events: seq<Event>) {
    AllParse(events) && forall e | e in events :: e.rule.value.until.Some?
  }

  /** Some row carries UNTIL. */
  ghost predicate HasUntil(events: seq<Event>)
    requires AllParse(events)
  {
    exists e :: e in events && e.rule.value.until.Some?
  }

  ghost predicate HasOverrides(events: seq<Event>) {
    exists e :: e in events && e.overrides != []
  }

  // ----- the quantities involved

  function Min(a: int, b: int): int {
    if b < a then b else a
  }

  function Max(a: int, b: int): int {
    if a < b then b else a
  }

  function MinOption(a: Option<int>, b: Option<int>): Option<int> {
    if a.None? then b else if b.None? then a else Some(Min(a.value, b.value))
  }

  function MaxOption(a: Option<int>, b: Option<int>): Option<int> {
    if a.None? then b else if b.None? then a else Some(Max(a.value, b.value))
  }

  /** The dates that overrides move sessions to. */
  function Moves(overrides: seq<Override>): seq<int> {
    if overrides == [] then []
    else
      var o := overrides[|overrides| - 1];
      Moves(overrides[..|overrides| - 1])
        + if !o.cancelled && FirstTime(o.rule).Some? then [FirstTime(o.rule).value] else []
  }

  function CancelledDays(overrides: seq<Override>): set<int> {
    if overrides == [] then {}
    else
      var o := overrides[|overrides| - 1];
      CancelledDays(overrides[..|overrides| - 1])
        + if o.cancelled && FirstTime(o.rule).Some? then {Day(FirstTime(o.rule).value)} else {}
  }

  function KeptBy(cancelled: set<int>): int -> bool {
    t => Day(t) !in cancelled
  }

  function KeptTimes(event: Event, first: int, last: int): seq<int>
    requires event.rule.Some?
  {
    Filter(Between(event.rule.value, first, last), KeptBy(CancelledDays(event.overrides)))
  }

  function UntilOf(event: Event): Option<int>
    requires event.rule.Some?
  {
    if event.rule.value.until.Some? then Some(EndOfDay(event.rule.value.until.value)) else None
  }

  /** Everything the scan of the rows gathers. */
  datatype Scan = Scan(
    baseStart: Option<int>, ruleUntil: Option<int>, earliestMove: Option<int>, dates: seq<int>, hasOverrides: bool)

  function Earliest(times: seq<int>): Option<int> {
    if times == [] then None else MinOption(Earliest(times[..|times| - 1]), Some(times[|times| - 1]))
  }

  function ScanRows(events: seq<Event>, first: int, last: int): Scan
    requires AllParse(events)
  {
    if events == [] then Scan(None, None, None, [], false)
    else
      var s := ScanRows(events[..|events| - 1], first, last);
      var e := events[|events| - 1];
      Scan(MinOption(s.baseStart, Some(e.rule.value.dtstart)),
           MaxOption(s.ruleUntil, UntilOf(e)),
           MinOption(s.earliestMove, Earliest(Moves(e.overrides))),
           s.dates + KeptTimes(e, first, last) + Moves(e.overrides),
           s.hasOverrides || e.overrides != [])
  }

  function Latest(times: seq<int>): int
    requires times != []
  {
    if |times| == 1 then times[0] else Max(times[0], Latest(times[1..]))
  }

  function LookAhead(dates: Dates, horizon: Horizon): int {
    if dates.end.Some? then horizon.threeMonthsOn(dates.end.value) else horizon.fiveYearsOn(dates.start)
  }

  function DecideEnd(end: Option<int>, computedEnd: int, ruleUntil: Option<int>, hasOverrides: bool): Option<int> {
    if end != Some(computedEnd) then
      if ruleUntil.Some? && (!hasOverrides || computedEnd < ruleUntil.value) then ruleUntil else Some(computedEnd)
    else if ruleUntil.Some? && ((!hasOverrides && ruleUntil != end) || computedEnd < ruleUntil.value) then ruleUntil
    else end
  }

  /** The branches of the update, in the order the code takes them. */
  function Decide(dates: Dates, s: Scan): Dates
    requires s.baseStart.Some? && s.dates != []
  {
    var computedEnd := Latest(s.dates);
    var start := if s.earliestMove.Some? && s.earliestMove.value < s.baseStart.value then s.earliestMove.value
        else s.baseStart.value;
    Dates(start, DecideEnd(dates.end, computedEnd, s.ruleUntil, s.hasOverrides))
  }

  function Synced(dates: Dates, events: seq<Event>, horizon: Horizon): Dates
    requires AllParse(events) && events != []
  {
    var s := ScanRows(events, dates.start, LookAhead(dates, horizon));
    ScanHasStart(events, dates.start, LookAhead(dates, horizon));
    if s.dates == [] then dates else Decide(dates, s)
  }

  lemma ScanHasStart(events: seq<Event>, first: int, last: int)
    requires AllParse(events) && events != []
    ensures ScanRows(events, first, last).baseStart.Some?
  {
  }

  class ClassRow {
    var startDt: int
    var endDt: Option<int>

    constructor (start: int, end: Option<int>)
      ensures startDt == start && endDt == end
    {
      startDt, endDt := start, end;
    }

    /** A class without rows, or with a row that does not parse, is an error and is left alone. */
    method SyncClassDateBoundaries(events: seq<Event>, horizon: Horizon) returns (ok: bool)
      modifies this
      ensures ok <==> events != [] && AllParse(events)
      ensures Dates(startDt, endDt)
          == if ok then Synced(old(Dates(startDt, endDt)), events, horizon) else old(Dates(startDt, endDt))
    {
      if events == [] {
        return false;
      }
      var startBoundary := startDt;
      var endBoundary := if endDt.Some? then horizon.threeMonthsOn(endDt.value) else horizon.fiveYearsOn(startDt);
      var scanned := ScanAll(events, startBoundary, endBoundary);
      if scanned.Err? {
        return false;
      }
      var scan := scanned.value;
      ok := true;
      if scan.dates == [] {
        return;
      }
      ScanHasStart(events, startBoundary, endBoundary);
      var sorted := SortBy(scan.dates, Itself());
      SortedLast(sorted, scan.dates);
      var computedEnd := sorted[|sorted| - 1];
      var targetStart := scan.baseStart.value;
      if scan.earliestMove.Some? && scan.earliestMove.value < targetStart {
        targetStart := scan.earliestMove.value;
      }
      endDt := SettleEnd(endDt, computedEnd, scan.ruleUntil, scan.hasOverrides);
      if targetStart != startDt {
        startDt := targetStart;
      }
    }
  }

  method ScanAll(events: seq<Event>, first: int, last: int) returns (scan: Result<Scan>)
    ensures scan.Ok? <==> AllParse(events)
    ensures scan.Ok? ==> scan.value == ScanRows(events, first, last)
  {
    var s := Scan(None, None, None, [], false);
    for i := 0 to |events|
      invariant AllParse(events[..i]) && s == ScanRows(events[..i], first, last)
    {
      if events[i].rule.None? {
        assert events[i] in events;
        return Err;
      }
      ScanNext(events, i, first, last);
      s := ScanRow(s, events[i], first, last);
    }
    assert events[..|events|] == events;
    scan := Ok(s);
  }

  lemma ScanNext(events: seq<Event>, i: nat, first: int, last: int)
    requires i < |events| && AllParse(events[..i]) && events[i].rule.Some?
    ensures AllParse(events[..i + 1])
    ensures var (s, e) := (ScanRows(events[..i], first, last), events[i]);
            var next := Scan(MinOption(s.baseStart, Some(e.rule.value.dtstart)),
                             MaxOption(s.ruleUntil, UntilOf(e)),
                             MinOption(s.earliestMove, Earliest(Moves(e.overrides))),
                             s.dates + KeptTimes(e, first, last) + Moves(e.overrides),
                             s.hasOverrides || e.overrides != []);
            ScanRows(events[..i + 1], first, last) == next
  {
    assert events[..i + 1] == events[..i] + [events[i]] && events[..i + 1][..i] == events[..i];
  }

  /** The branches that decide the end date. */
  method SettleEnd(endDt: Option<int>, computedEnd: int, ruleUntil: Option<int>, hasOverrides: bool)
      returns (end: Option<int>)
    ensures end == DecideEnd(endDt, computedEnd, ruleUntil, hasOverrides)
  {
    end := endDt;
    if endDt.None? || computedEnd != endDt.value {
      if (!hasOverrides && ruleUntil.Some?) || (ruleUntil.Some? && ruleUntil.value > computedEnd) {
        end := ruleUntil;
      } else {
        end := Some(computedEnd);
      }
    } else if (!hasOverrides && ruleUntil.Some? && ruleUntil.value != endDt.value)
              || (ruleUntil.Some? && ruleUntil.value > endDt.value) {
      end := ruleUntil;
    }
  }

  /** One row of the scan. */
  method ScanRow(s: Scan, event: Event, first: int, last: int) returns (s': Scan)
    requires event.rule.Some?
    ensures s' == Scan(MinOption(s.baseStart, Some(event.rule.value.dtstart)),
                       MaxOption(s.ruleUntil, UntilOf(event)),
                       MinOption(s.earliestMove, Earliest(Moves(event.overrides))),
                       s.dates + KeptTimes(event, first, last) + Moves(event.overrides),
                       s.hasOverrides || event.overrides != [])
  {
    var baseStart := event.rule.value.dtstart;
    var originalBaseStart := if s.baseStart.None? || baseStart < s.baseStart.value then Some(baseStart)
        else s.baseStart;
    var ruleUntil := s.ruleUntil;
    var u := UntilOf(event);
    if u.Some? && (ruleUntil.None? || u.value > ruleUntil.value) {
      ruleUntil := u;
    }
    var cancelledDates, rescheduledDates, earliest := ScanOverrides(event.overrides);
    var base := Between(event.rule.value, first, last);
    var allDates := s.dates;
    for i := 0 to |base|
      invariant allDates == s.dates + Filter(base[..i], KeptBy(cancelledDates))
    {
      FilterSnoc(base, i, KeptBy(cancelledDates));
      if Day(base[i]) !in cancelledDates {
        allDates := allDates + [base[i]];
      }
    }
    assert base[..|base|] == base;
    s' := Scan(originalBaseStart, ruleUntil, MinOption(s.earliestMove, earliest), allDates + rescheduledDates,
               s.hasOverrides || |event.overrides| > 0);
  }

  lemma EarliestNext(times: seq<int>, t: int)
    ensures Earliest(times + [t]) == MinOption(Earliest(times), Some(t))
  {
    assert (times + [t])[..|times|] == times;
  }

  lemma OverridesNext(overrides: seq<Override>, i: nat)
    requires i < |overrides|
    ensures var o := overrides[i];
            && CancelledDays(overrides[..i + 1])
               == CancelledDays(overrides[..i])
                 + (if o.cancelled && FirstTime(o.rule).Some? then {Day(FirstTime(o.rule).value)} else {})
            && Moves(overrides[..i + 1])
               == Moves(overrides[..i])
                 + (if !o.cancelled && FirstTime(o.rule).Some? then [FirstTime(o.rule).value] else [])
  {
    assert overrides[..i + 1][..i] == overrides[..i];
  }

  method ScanOverrides(overrides: seq<Override>)
      returns (cancelledDates: set<int>, rescheduledDates: seq<int>, earliest: Option<int>)
    ensures cancelledDates == CancelledDays(overrides)
    ensures rescheduledDates == Moves(overrides)
    ensures earliest == Earliest(Moves(overrides))
  {
    cancelledDates, rescheduledDates, earliest := {}, [], None;
    for i := 0 to |overrides|
      invariant cancelledDates == CancelledDays(overrides[..i])
      invariant rescheduledDates == Moves(overrides[..i])
      invariant earliest == Earliest(rescheduledDates)
    {
      OverridesNext(overrides, i);
      var first := FirstTime(overrides[i].rule);
      if first.Some? {
        if overrides[i].cancelled {
          cancelledDates := cancelledDates + {Day(first.value)};
        } else {
          EarliestNext(rescheduledDates, first.value);
          rescheduledDates := rescheduledDates + [first.value];
          earliest := if earliest.None? || first.value < earliest.value then first else earliest;
        }
      }
    }
    assert overrides[..|overrides|] == overrides;
  }

  function Itself(): int -> int {
    (t: int) => t
  }

  lemma LatestIsGreatest(times: seq<int>)
    requires times != []
    ensures Latest(times) in times && forall t | t in times :: t <= Latest(times)
  {
    if |times| > 1 {
      LatestIsGreatest(times[1..]);
      assert times == [times[0]] + times[1..];
    }
  }

  lemma SortedLast(sorted: seq<int>, times: seq<int>)
    requires times != [] && multiset(sorted) == multiset(times) && SortedBy(sorted, Itself())
    ensures sorted != [] && sorted[|sorted| - 1] == Latest(times)
  {
    LatestIsGreatest(times);
    assert times[0] in multiset(sorted);
    var key := Itself();
    var last := sorted[|sorted| - 1];
    assert last in multiset(sorted);
    assert last in multiset(times) && last in times;
    assert Latest(times) in multiset(sorted) && Latest(times) in sorted;
    var i :| 0 <= i < |sorted| && sorted[i] == Latest(times);
    assert key(sorted[i]) == sorted[i] && key(last) == last;
    assert i < |sorted| - 1 ==> key(sorted[i]) <= key(last);
  }

  // ----- with UNTIL on every row

  /** DTSTART of every row and the date of every override that counts. */
  ghost function Starts(events: seq<Event>): set<int>
    requires AllParse(events)
  {
    (set e | e in events :: e.rule.value.dtstart) + (set e, t | e in events && t in Moves(e.overrides) :: t)
  }

  /** The UNTIL of every row and the date of every override that counts. */
  ghost function Ends(events: seq<Event>): set<int>
    requires AllHaveUntil(events)
  {
    (set e | e in events :: EndOfDay(e.rule.value.until.value))
      + (set e, t | e in events && t in Moves(e.overrides) :: t)
  }

  ghost predicate IsLeast(x: int, s: set<int>) {
    x in s && forall y | y in s :: x <= y
  }

  ghost predicate IsGreatest(x: int, s: set<int>) {
    x in s && forall y | y in s :: y <= x
  }

  lemma {:induction false} EarliestIsLeast(times: seq<int>)
    ensures Earliest(times).None? <==> times == []
    ensures times != [] ==> Earliest(times).value in times && forall t | t in times :: Earliest(times).value <= t
  {
    if times != [] {
      EarliestIsLeast(times[..|times| - 1]);
      assert times == times[..|times| - 1] + [times[|times| - 1]];
    }
  }

  // What the scan gathers, quantity by quantity.

  lemma {:induction false} ScanBaseStart(events: seq<Event>, first: int, last: int)
    requires AllParse(events) && events != []
    ensures var start := ScanRows(events, first, last).baseStart;
            && start.Some?
            && (exists e :: e in events && e.rule.value.dtstart == start.value)
            && forall e | e in events :: start.value <= e.rule.value.dtstart
  {
    var init, e := events[..|events| - 1], events[|events| - 1];
    assert events == init + [e];
    if init != [] {
      ScanBaseStart(init, first, last);
    }
  }

  lemma {:induction false} ScanUntil(events: seq<Event>, first: int, last: int)
    requires AllParse(events)
    ensures var until := ScanRows(events, first, last).ruleUntil;
            && (until.Some? <==> HasUntil(events))
            && (until.Some? ==> exists e :: e in events && UntilOf(e) == until)
            && forall e | e in events && UntilOf(e).Some? :: UntilOf(e).value <= until.value
  {
    if events != [] {
      var init, e := events[..|events| - 1], events[|events| - 1];
      assert events == init + [e];
      ScanUntil(init, first, last);
    }
  }

  lemma {:induction false} ScanMoves(events: seq<Event>, first: int, last: int)
    requires AllParse(events)
    ensures var move := ScanRows(events, first, last).earliestMove;
            && (move.Some? ==> exists e :: e in events && move.value in Moves(e.overrides))
            && forall e, t | e in events && t in Moves(e.overrides) :: move.Some? && move.value <= t
  {
    if events != [] {
      var init, e := events[..|events| - 1], events[|events| - 1];
      assert events == init + [e];
      ScanMoves(init, first, last);
      EarliestIsLeast(Moves(e.overrides));
    }
  }

  lemma {:induction false} ScanDates(events: seq<Event>, first: int, last: int, t: int)
    requires AllParse(events)
    ensures t in ScanRows(events, first, last).dates
       <==> exists e :: e in events && (t in KeptTimes(e, first, last) || t in Moves(e.overrides))
  {
    if events != [] {
      var init, e := events[..|events| - 1], events[|events| - 1];
      assert events == init + [e];
      ScanDates(init, first, last, t);
    }
  }

  lemma {:induction false} ScanOverridden(events: seq<Event>, first: int, last: int)
    requires AllParse(events)
    ensures ScanRows(events, first, last).hasOverrides <==> HasOverrides(events)
  {
    if events != [] {
      var init, e := events[..|events| - 1], events[|events| - 1];
      assert events == init + [e];
      ScanOverridden(init, first, last);
    }
  }

  /** A kept date of a row never comes after the UNTIL of the row. */
  lemma KeptBeforeUntil(e: Event, first: int, last: int, t: int)
    requires e.rule.Some? && e.rule.value.until.Some? && t in KeptTimes(e, first, last)
    ensures t <= EndOfDay(e.rule.value.until.value)
  {
    assert t in Between(e.rule.value, first, last);
    assert t < (Day(t) + 1) * DAY_MINUTES;
  }

  /** The end is the later of the latest UNTIL and the last date, in every branch. */
  lemma DecidedEnd(dates: Dates, s: Scan)
    requires s.baseStart.Some? && s.dates != [] && s.ruleUntil.Some?
    requires !s.hasOverrides ==> Latest(s.dates) <= s.ruleUntil.value
    ensures Decide(dates, s).end == Some(Max(s.ruleUntil.value, Latest(s.dates)))
  {
  }

  /** Without overrides no date comes after the latest UNTIL. */
  lemma UntouchedEndsByUntil(events: seq<Event>, first: int, last: int)
    requires events != [] && AllHaveUntil(events)
    requires ScanRows(events, first, last).dates != [] && !ScanRows(events, first, last).hasOverrides
    ensures var s := ScanRows(events, first, last);
            s.ruleUntil.Some? && Latest(s.dates) <= s.ruleUntil.value
  {
    var s := ScanRows(events, first, last);
    ScanUntil(events, first, last);
    ScanOverridden(events, first, last);
    LatestIsGreatest(s.dates);
    ScanDates(events, first, last, Latest(s.dates));
    var e :| e in events && (Latest(s.dates) in KeptTimes(e, first, last) || Latest(s.dates) in Moves(e.overrides));
    assert Moves(e.overrides) == [];
    KeptBeforeUntil(e, first, last, Latest(s.dates));
    assert UntilOf(e).value <= s.ruleUntil.value;
  }

  lemma LatestDateIsAnEnd(events: seq<Event>, first: int, last: int)
    requires events != [] && AllHaveUntil(events)
    requires ScanRows(events, first, last).dates != []
    ensures var s := ScanRows(events, first, last);
            s.ruleUntil.Some? && (Latest(s.dates) <= s.ruleUntil.value || Latest(s.dates) in Ends(events))
  {
    var s := ScanRows(events, first, last);
    ScanUntil(events, first, last);
    LatestIsGreatest(s.dates);
    ScanDates(events, first, last, Latest(s.dates));
    var e :| e in events && (Latest(s.dates) in KeptTimes(e, first, last) || Latest(s.dates) in Moves(e.overrides));
    if Latest(s.dates) in KeptTimes(e, first, last) {
      KeptBeforeUntil(e, first, last, Latest(s.dates));
      assert UntilOf(e).value <= s.ruleUntil.value;
    }
  }

  lemma EndsAreBounded(events: seq<Event>, first: int, last: int, end: int)
    requires events != [] && AllHaveUntil(events) && end in Ends(events)
    ensures var s := ScanRows(events, first, last);
            && s.ruleUntil.Some? && s.ruleUntil.value in Ends(events)
            && (end <= s.ruleUntil.value || end in s.dates)
  {
    var s := ScanRows(events, first, last);
    ScanUntil(events, first, last);
    var top :| top in events && UntilOf(top) == s.ruleUntil;
    assert EndOfDay(top.rule.value.until.value) == s.ruleUntil.value;
    ScanDates(events, first, last, end);
    if e :| e in events && end == EndOfDay(e.rule.value.until.value) {
      assert UntilOf(e).value <= s.ruleUntil.value;
    }
  }

  lemma LatestEnd(events: seq<Event>, first: int, last: int)
    requires events != [] && AllHaveUntil(events)
    requires ScanRows(events, first, last).dates != []
    ensures var s := ScanRows(events, first, last);
            s.ruleUntil.Some? && IsGreatest(Max(s.ruleUntil.value, Latest(s.dates)), Ends(events))
  {
    var s := ScanRows(events, first, last);
    LatestDateIsAnEnd(events, first, last);
    LatestIsGreatest(s.dates);
    EndsAreBounded(events, first, last, EndOfDay(events[0].rule.value.until.value));
    forall end | end in Ends(events)
      ensures end <= Max(s.ruleUntil.value, Latest(s.dates))
    {
      EndsAreBounded(events, first, last, end);
    }
  }

  lemma EarliestStart(dates: Dates, events: seq<Event>, first: int, last: int)
    requires events != [] && AllParse(events) && ScanRows(events, first, last).dates != []
    ensures var s := ScanRows(events, first, last);
            s.baseStart.Some? && IsLeast(Decide(dates, s).start, Starts(events))
  {
    ScanBaseStart(events, first, last);
    ScanMoves(events, first, last);
  }

  /** When every row carries UNTIL and some date is found, every branch leaves the class running from
      the earliest start to the latest end, whatever window was searched. */
  lemma SyncedBounds(dates: Dates, events: seq<Event>, horizon: Horizon)
    requires events != [] && AllHaveUntil(events)
    requires ScanRows(events, dates.start, LookAhead(dates, horizon)).dates != []
    ensures var synced := Synced(dates, events, horizon);
            IsLeast(synced.start, Starts(events)) && synced.end.Some? && IsGreatest(synced.end.value, Ends(events))
  {
    var first, last := dates.start, LookAhead(dates, horizon);
    LatestEnd(events, first, last);
    EarliestStart(dates, events, first, last);
    var s := ScanRows(events, first, last);
    if !s.hasOverrides {
      UntouchedEndsByUntil(events, first, last);
    }
    DecidedEnd(dates, s);
  }

  // ----- when a second run changes nothing

  /** A time that an override moves a session to. */
  predicate IsMove(e: Event, t: int) {
    exists o | o in e.overrides :: !o.cancelled && Times(o.rule) != [] && Times(o.rule)[0] == t
  }

  /** A session of the row on a day that no override cancels. */
  predicate IsKept(e: Event, t: int)
    requires e.rule.Some?
  {
    && Occurs(e.rule.value, t)
    && forall o | o in e.overrides && o.cancelled && Times(o.rule) != [] :: Day(Times(o.rule)[0]) != Day(t)
  }

  lemma {:induction false} MovesExactly(overrides: seq<Override>, t: int)
    ensures t in Moves(overrides) <==>
              exists o | o in overrides :: !o.cancelled && Times(o.rule) != [] && Times(o.rule)[0] == t
  {
    if overrides != [] {
      var init, o := overrides[..|overrides| - 1], overrides[|overrides| - 1];
      assert overrides == init + [o];
      MovesExactly(init, t);
    }
  }

  lemma {:induction false} CancelledDaysExactly(overrides: seq<Override>, day: int)
    ensures day in CancelledDays(overrides) <==>
              exists o | o in overrides :: o.cancelled && Times(o.rule) != [] && Day(Times(o.rule)[0]) == day
  {
    if overrides != [] {
      var init, o := overrides[..|overrides| - 1], overrides[|overrides| - 1];
      assert overrides == init + [o];
      CancelledDaysExactly(init, day);
    }
  }

  /** A session that is not cancelled comes after `end`, by `last` at the latest. */
  ghost predicate SessionAfter(events: seq<Event>, end: int, last: int)
    requires AllParse(events)
  {
    exists e, t :: e in events && end < t <= last && IsKept(e, t)
  }

  /** The end is the latest UNTIL whatever is found. */
  ghost predicate EndIsUntil(events: seq<Event>)
    requires AllParse(events)
  {
    HasUntil(events) && !HasOverrides(events)
  }

  /** The later of the latest UNTIL, if there is one, and the last date. */
  function LaterEnd(s: Scan): int
    requires s.dates != []
  {
    if s.ruleUntil.Some? then Max(s.ruleUntil.value, Latest(s.dates)) else Latest(s.dates)
  }

  lemma DecidedExactly(dates: Dates, s: Scan)
    requires s.baseStart.Some? && s.dates != []
    ensures Decide(dates, s).end
         == if s.ruleUntil.Some? && !s.hasOverrides then s.ruleUntil else Some(LaterEnd(s))
  {
  }

  /** Only the dates found depend on the window. */
  lemma {:induction false} WindowOnlyMovesDates(events: seq<Event>, first: int, last: int, first': int, last': int)
    requires AllParse(events)
    ensures ScanRows(events, first, last).(dates := []) == ScanRows(events, first', last').(dates := [])
  {
    if events != [] {
      WindowOnlyMovesDates(events[..|events| - 1], first, last, first', last');
    }
  }

  lemma FoundExactly(events: seq<Event>, first: int, last: int, t: int)
    requires AllParse(events)
    ensures t in ScanRows(events, first, last).dates
       <==> IsFound(events, first, last, t)
  {
    ScanDates(events, first, last, t);
    forall e | e in events
      ensures t in KeptTimes(e, first, last) <==> IsKept(e, t) && first <= t <= last
      ensures t in Moves(e.overrides) <==> IsMove(e, t)
    {
      MovesExactly(e.overrides, t);
      CancelledDaysExactly(e.overrides, Day(t));
    }
  }

  /** A session that is not cancelled, between the bounds, or one that an override moves. */
  ghost predicate IsFound(events: seq<Event>, first: int, last: int, t: int)
    requires AllParse(events)
  {
    exists e :: e in events && ((IsKept(e, t) && first <= t <= last) || IsMove(e, t))
  }

  // ----- what one run derives

  ghost predicate IsStart(events: seq<Event>, t: int)
    requires AllParse(events)
  {
    exists e :: e in events && (e.rule.value.dtstart == t || IsMove(e, t))
  }

  ghost predicate IsUntil(events: seq<Event>, t: int)
    requires AllParse(events)
  {
    exists e :: e in events && e.rule.value.until.Some? && t == EndOfDay(e.rule.value.until.value)
  }

  ghost function StartsAt(events: seq<Event>): int -> bool
    requires AllParse(events)
  {
    t => IsStart(events, t)
  }

  ghost function UntilAt(events: seq<Event>): int -> bool
    requires AllParse(events)
  {
    t => IsUntil(events, t)
  }

  ghost function FoundAt(events: seq<Event>, first: int, last: int): int -> bool
    requires AllParse(events)
  {
    t => IsFound(events, first, last, t)
  }

  ghost predicate Least(x: int, p: int -> bool) {
    p(x) && forall y | p(y) :: x <= y
  }

  ghost predicate Greatest(x: int, p: int -> bool) {
    p(x) && forall y | p(y) :: y <= x
  }

  /** What a run leaves: the earliest start, and the latest UNTIL or date; the latest UNTIL alone when
      nothing is overridden; and the dates of before when no date is found. */
  ghost predicate Settled(
    before: Dates, after: Dates, starts: int -> bool, untils: int -> bool, found: int -> bool, overridden: bool)
  {
    if exists t :: found(t) then
      && Least(after.start, starts) && after.end.Some?
      && if (exists u :: untils(u)) && !overridden then Greatest(after.end.value, untils)
         else Greatest(after.end.value, t => untils(t) || found(t))
    else after == before
  }

  lemma LeastStart(dates: Dates, events: seq<Event>, first: int, last: int)
    requires events != [] && AllParse(events) && ScanRows(events, first, last).dates != []
    ensures var s := ScanRows(events, first, last);
            s.baseStart.Some? && Least(Decide(dates, s).start, StartsAt(events))
  {
    var s := ScanRows(events, first, last);
    ScanBaseStart(events, first, last);
    ScanMoves(events, first, last);
    forall e, t | e in events
      ensures t in Moves(e.overrides) <==> IsMove(e, t)
    {
      MovesExactly(e.overrides, t);
    }
    var starts, start := StartsAt(events), Decide(dates, s).start;
    assert starts(start);
    forall t | starts(t)
      ensures start <= t
    {
      assert IsStart(events, t);
    }
  }

  lemma GreatestUntil(events: seq<Event>, first: int, last: int)
    requires AllParse(events)
    ensures var until := ScanRows(events, first, last).ruleUntil;
            && (until.Some? <==> exists u :: UntilAt(events)(u))
            && (until.Some? ==> Greatest(until.value, UntilAt(events)))
  {
    ScanUntil(events, first, last);
    var until, untils := ScanRows(events, first, last).ruleUntil, UntilAt(events);
    forall u | untils(u)
      ensures until.Some? && u <= until.value
    {
      assert IsUntil(events, u);
      var e :| e in events && e.rule.value.until.Some? && u == EndOfDay(e.rule.value.until.value);
      assert UntilOf(e) == Some(u);
    }
    if until.Some? {
      var e :| e in events && UntilOf(e) == until;
      assert IsUntil(events, until.value) && untils(until.value);
    }
  }

  lemma GreatestEnd(events: seq<Event>, first: int, last: int)
    requires AllParse(events) && ScanRows(events, first, last).dates != []
    ensures var (untils, found) := (UntilAt(events), FoundAt(events, first, last));
            Greatest(LaterEnd(ScanRows(events, first, last)), t => untils(t) || found(t))
  {
    var s := ScanRows(events, first, last);
    var untils, found := UntilAt(events), FoundAt(events, first, last);
    var either := t => untils(t) || found(t);
    GreatestUntil(events, first, last);
    LatestIsGreatest(s.dates);
    FoundExactly(events, first, last, Latest(s.dates));
    assert found(Latest(s.dates));
    assert either(LaterEnd(s));
    forall t | either(t)
      ensures t <= LaterEnd(s)
    {
      FoundExactly(events, first, last, t);
    }
  }

  /** One run, in terms of the rows and their overrides alone: a class with an end is searched until three
      months past it, one without until five years past its start. */
  lemma RunExactly(dates: Dates, events: seq<Event>, horizon: Horizon)
    requires events != [] && AllParse(events)
    ensures var searchedTo := if dates.end.None? then horizon.fiveYearsOn(dates.start)
                              else horizon.threeMonthsOn(dates.end.value);
            Settled(dates, Synced(dates, events, horizon), StartsAt(events), UntilAt(events),
                    FoundAt(events, dates.start, searchedTo), HasOverrides(events))
  {
    var first, last := dates.start, LookAhead(dates, horizon);
    var s := ScanRows(events, first, last);
    var found := FoundAt(events, first, last);
    forall t
      ensures found(t) <==> t in s.dates
    {
      FoundExactly(events, first, last, t);
    }
    if s.dates != [] {
      assert found(s.dates[0]);
      ScanHasStart(events, first, last);
      DecidedExactly(dates, s);
      ScanOverridden(events, first, last);
      LeastStart(dates, events, first, last);
      GreatestUntil(events, first, last);
      GreatestEnd(events, first, last);
    }
  }

  lemma SameSettled(
    before: Dates, after: Dates, starts: int -> bool, untils: int -> bool, found: int -> bool,
    starts': int -> bool, untils': int -> bool, found': int -> bool, overridden: bool)
    requires Settled(before, after, starts, untils, found, overridden)
    requires forall t :: starts(t) == starts'(t) && untils(t) == untils'(t) && found(t) == found'(t)
    ensures Settled(before, after, starts', untils', found', overridden)
  {
    if exists t :: found'(t) {
      assert exists t :: found(t);
      assert (exists u :: untils(u)) <==> exists u :: untils'(u);
      var either, either' := t => untils(t) || found(t), t => untils'(t) || found'(t);
      assert forall t :: either(t) == either'(t);
    }
  }

  /** A derived class starts no later than any of its sessions. */
  lemma StartsFirst(dates: Dates, events: seq<Event>, first: int, last: int)
    requires events != [] && AllParse(events) && ScanRows(events, first, last).dates != []
    ensures var s := ScanRows(events, first, last);
            s.baseStart.Some? && forall e, t | e in events && IsKept(e, t) :: Decide(dates, s).start <= t
  {
    ScanBaseStart(events, first, last);
  }

  /** Searching from `start` to beyond `end` finds again everything up to `end`, and finds more exactly
      when there is a later session. */
  lemma LaterEndAgain(events: seq<Event>, first: int, last: int, start: int, last': int, end: int)
    requires events != [] && AllParse(events) && ScanRows(events, first, last).dates != []
    requires forall e, t | e in events && IsKept(e, t) :: start <= t
    requires end == LaterEnd(ScanRows(events, first, last)) && end <= last'
    ensures var s := ScanRows(events, start, last');
            && (s.dates != [] ==> end <= LaterEnd(s))
            && (SessionAfter(events, end, last') <==> s.dates != [] && end < LaterEnd(s))
  {
    var s, s' := ScanRows(events, first, last), ScanRows(events, start, last');
    WindowOnlyMovesDates(events, first, last, start, last');
    assert s.ruleUntil == s.(dates := []).ruleUntil == s'.ruleUntil;
    LatestIsGreatest(s.dates);
    FoundExactly(events, first, last, Latest(s.dates));
    FoundExactly(events, start, last', Latest(s.dates));
    if s'.dates != [] {
      LatestIsGreatest(s'.dates);
      FoundExactly(events, start, last', Latest(s'.dates));
      FoundExactly(events, first, last, Latest(s'.dates));
    }
    if SessionAfter(events, end, last') {
      var e, t :| e in events && end < t <= last' && IsKept(e, t);
      FoundExactly(events, start, last', t);
    }
  }

  /** A run that found something, and the run after it: the start is settled, the end never moves back,
      and it moves on exactly when the look-ahead from it reaches a further session. */
  lemma SecondEnd(dates: Dates, events: seq<Event>, horizon: Horizon)
    requires events != [] && AllParse(events) && forall t :: t <= horizon.threeMonthsOn(t)
    requires ScanRows(events, dates.start, LookAhead(dates, horizon)).dates != []
    ensures var once := Synced(dates, events, horizon);
            var twice := Synced(once, events, horizon);
            && once.end.Some? && twice.end.Some? && twice.start == once.start && once.end.value <= twice.end.value
            && (once.end.value < twice.end.value <==>
                  !EndIsUntil(events) && SessionAfter(events, once.end.value, horizon.threeMonthsOn(once.end.value)))
  {
    var first, last := dates.start, LookAhead(dates, horizon);
    var once := Synced(dates, events, horizon);
    var s := ScanRows(events, first, last);
    ScanHasStart(events, first, last);
    DecidedExactly(dates, s);
    StartsFirst(dates, events, first, last);
    ScanUntil(events, first, last);
    ScanOverridden(events, first, last);
    var last' := LookAhead(once, horizon);
    var s' := ScanRows(events, once.start, last');
    WindowOnlyMovesDates(events, first, last, once.start, last');
    assert s.(dates := []) == s'.(dates := []);
    assert s.baseStart == s'.baseStart && s.ruleUntil == s'.ruleUntil && s.earliestMove == s'.earliestMove
           && s.hasOverrides == s'.hasOverrides;
    if s'.dates != [] {
      DecidedExactly(once, s');
    }
    if !EndIsUntil(events) {
      LaterEndAgain(events, first, last, once.start, last', once.end.value);
    }
  }

  /** A second run changes nothing exactly when the first found no date at all, or the end is the UNTIL
      of rows that nothing overrides, or no session comes within the look-ahead after the end. */
  lemma SecondRunExactly(dates: Dates, events: seq<Event>, horizon: Horizon)
    requires events != [] && AllParse(events) && forall t :: t <= horizon.threeMonthsOn(t)
    ensures var once := Synced(dates, events, horizon);
            (Synced(once, events, horizon) == once <==>
               || (forall t :: !IsFound(events, dates.start, LookAhead(dates, horizon), t))
               || EndIsUntil(events)
               || (once.end.Some? && !SessionAfter(events, once.end.value, horizon.threeMonthsOn(once.end.value))))
  {
    var first, last := dates.start, LookAhead(dates, horizon);
    forall t
      ensures t in ScanRows(events, first, last).dates <==> IsFound(events, first, last, t)
    {
      FoundExactly(events, first, last, t);
    }
    if ScanRows(events, first, last).dates != [] {
      assert ScanRows(events, first, last).dates[0] in ScanRows(events, first, last).dates;
      SecondEnd(dates, events, horizon);
    }
  }

  /** With UNTIL on every row, or on some row when nothing is overridden, there is no such session. */
  lemma SyncIsIdempotent(dates: Dates, events: seq<Event>, horizon: Horizon)
    requires events != [] && AllParse(events) && forall t :: t <= horizon.threeMonthsOn(t)
    requires AllHaveUntil(events) || EndIsUntil(events)
    ensures Synced(Synced(dates, events, horizon), events, horizon) == Synced(dates, events, horizon)
  {
    SecondRunExactly(dates, events, horizon);
    var first, last := dates.start, LookAhead(dates, horizon);
    if AllHaveUntil(events) && ScanRows(events, first, last).dates != [] {
      SyncedBounds(dates, events, horizon);
      var end := Synced(dates, events, horizon).end.value;
      forall e, t | e in events && IsKept(e, t)
        ensures t <= end
      {
        assert t < (Day(t) + 1) * DAY_MINUTES;
        assert EndOfDay(e.rule.value.until.value) in Ends(events);
      }
    }
  }

  // ----- without UNTIL the end drifts

  lemma OccursSoon(rule: WeeklyRule, end: int, w: int) returns (t: int)
    requires rule.until.None? && rule.dtstart <= end && 0 <= w < 7 && w in rule.weekdays
    ensures end < t <= end + 8 * DAY_MINUTES && Occurs(rule, t) && Day(end) < Day(t)
  {
    var d := WeekdayWithinAWeek(Day(end) + 1, w);
    t := OnDay(rule, d);
    OnDayUnique(rule, d, t);
    assert end == Day(end) * DAY_MINUTES + end % DAY_MINUTES;
  }

  function SyncedBy(events: seq<Event>, horizon: Horizon): Dates -> Dates
    requires AllParse(events) && events != []
  {
    (dates: Dates) => Synced(dates, events, horizon)
  }

  function Repeat<T>(f: T -> T, x: T, n: nat): T {
    if n == 0 then x else f(Repeat(f, x, n - 1))
  }

  lemma {:induction false} RepeatKeeps<T(!new)>(f: T -> T, p: T -> bool, x: T, n: nat)
    requires p(x) && forall y | p(y) :: p(f(y))
    ensures p(Repeat(f, x, n))
  {
    if n > 0 {
      RepeatKeeps(f, p, x, n - 1);
    }
  }

  /** The dates after `n` runs, one after the other. */
  function AfterRuns(dates: Dates, events: seq<Event>, horizon: Horizon, n: nat): Dates
    requires AllParse(events) && events != []
  {
    Repeat(SyncedBy(events, horizon), dates, n)
  }

  /** A row without UNTIL that has begun by `end`, and on which no later day is cancelled. */
  predicate GoesOn(e: Event, w: int, end: int) {
    && e.rule.Some? && e.rule.value.until.None? && 0 <= w < 7 && w in e.rule.value.weekdays
    && e.rule.value.dtstart <= end
    && forall o | o in e.overrides && o.cancelled && Times(o.rule) != [] :: Day(Times(o.rule)[0]) <= Day(end)
  }

  /** One run that found something, and the run after it, which then finds something too. */
  lemma DriftsOnce(dates: Dates, events: seq<Event>, horizon: Horizon, e: Event, w: int)
    requires e in events && AllParse(events) && !EndIsUntil(events)
    requires forall t :: t + 8 * DAY_MINUTES <= horizon.threeMonthsOn(t)
    requires ScanRows(events, dates.start, LookAhead(dates, horizon)).dates != []
    ensures var once := Synced(dates, events, horizon);
            var twice := Synced(once, events, horizon);
            && once.end.Some? && twice.end.Some?
            && (GoesOn(e, w, once.end.value) ==>
                  && once.end.value < twice.end.value
                  && ScanRows(events, once.start, LookAhead(once, horizon)).dates != [])
  {
    SecondEnd(dates, events, horizon);
    var once := Synced(dates, events, horizon);
    if GoesOn(e, w, once.end.value) {
      var t := OccursSoon(e.rule.value, once.end.value, w);
      assert IsKept(e, t);
      StartsFirst(dates, events, dates.start, LookAhead(dates, horizon));
      FoundExactly(events, once.start, LookAhead(once, horizon), t);
    }
  }

  lemma GoesOnLater(e: Event, w: int, end: int, later: int)
    requires GoesOn(e, w, end) && end <= later
    ensures GoesOn(e, w, later)
  {
    DayMonotone(end, later);
  }

  /** A run finds something, and the row goes on after the end that it derives. */
  predicate Drifting(dates: Dates, events: seq<Event>, horizon: Horizon, e: Event, w: int)
    requires AllParse(events) && events != []
  {
    && ScanRows(events, dates.start, LookAhead(dates, horizon)).dates != []
    && var end := Synced(dates, events, horizon).end; end.Some? && GoesOn(e, w, end.value)
  }

  lemma DriftStep(dates: Dates, events: seq<Event>, horizon: Horizon, e: Event, w: int)
    requires e in events && AllParse(events) && !EndIsUntil(events) && Drifting(dates, events, horizon, e, w)
    requires forall t :: t + 8 * DAY_MINUTES <= horizon.threeMonthsOn(t)
    ensures Drifting(Synced(dates, events, horizon), events, horizon, e, w)
  {
    var once := Synced(dates, events, horizon);
    DriftsOnce(dates, events, horizon, e, w);
    GoesOnLater(e, w, once.end.value, Synced(once, events, horizon).end.value);
  }

  lemma DriftsOn(dates: Dates, events: seq<Event>, horizon: Horizon, e: Event, w: int, n: nat)
    requires e in events && AllParse(events) && !EndIsUntil(events) && Drifting(dates, events, horizon, e, w)
    requires forall t :: t + 8 * DAY_MINUTES <= horizon.threeMonthsOn(t)
    ensures Drifting(AfterRuns(dates, events, horizon, n), events, horizon, e, w)
  {
    var drifting := (d: Dates) => Drifting(d, events, horizon, e, w);
    var sync := SyncedBy(events, horizon);
    forall d | drifting(d)
      ensures drifting(sync(d))
    {
      DriftStep(d, events, horizon, e, w);
    }
    RepeatKeeps(sync, drifting, dates, n);
  }

  /** A row without UNTIL that has begun, and on which no day after the end is cancelled, moves the end
      again on every further run, as the look-ahead is more than eight days. */
  lemma WithoutUntilTheEndDrifts(dates: Dates, events: seq<Event>, horizon: Horizon, e: Event, w: int, n: nat)
    requires e in events && AllParse(events) && !EndIsUntil(events) && n > 0
    requires forall t :: t + 8 * DAY_MINUTES <= horizon.threeMonthsOn(t)
    requires Drifting(dates, events, horizon, e, w)
    ensures var (now, next) := (AfterRuns(dates, events, horizon, n), AfterRuns(dates, events, horizon, n + 1));
            now.end.Some? && next.end.Some? && now.end.value < next.end.value
  {
    DriftsOn(dates, events, horizon, e, w, n - 1);
    DriftsOnce(AfterRuns(dates, events, horizon, n - 1), events, horizon, e, w);
  }

  const EVERY_DAY: set<int> := {0, 1, 2, 3, 4, 5, 6}

  function DailyEvent(): Event {
    Event(1, 1, Some(WeeklyRule(0, EVERY_DAY, None)), Some(60), None, None, [])
  }

  /** A daily class is one. */
  lemma DailyClassDrifts(horizon: Horizon, n: nat)
    requires n > 0 && forall t :: t + 8 * DAY_MINUTES <= horizon.threeMonthsOn(t)
    ensures var (now, next) := (AfterRuns(Dates(0, Some(0)), [DailyEvent()], horizon, n),
                                AfterRuns(Dates(0, Some(0)), [DailyEvent()], horizon, n + 1));
            now.end.Some? && next.end.Some? && now.end.value < next.end.value
  {
    var dates, events := Dates(0, Some(0)), [DailyEvent()];
    assert !HasUntil(events);
    FoundExactly(events, 0, LookAhead(dates, horizon), 0);
    assert IsKept(DailyEvent(), 0) && DailyEvent() in events;
    EndsLast(dates, events, horizon, 0);
    assert Drifting(dates, events, horizon, DailyEvent(), 0);
    WithoutUntilTheEndDrifts(dates, events, horizon, DailyEvent(), 0, n);
  }

  /** The end derived is no earlier than any date found, unless it is an UNTIL that nothing overrides. */
  lemma EndsLast(dates: Dates, events: seq<Event>, horizon: Horizon, t: int)
    requires events != [] && AllParse(events) && !EndIsUntil(events)
    requires t in ScanRows(events, dates.start, LookAhead(dates, horizon)).dates
    ensures var end := Synced(dates, events, horizon).end; end.Some? && t <= end.value
  {
    var first, last := dates.start, LookAhead(dates, horizon);
    var s := ScanRows(events, first, last);
    ScanHasStart(events, first, last);
    DecidedExactly(dates, s);
    ScanUntil(events, first, last);
    ScanOverridden(events, first, last);
    LatestIsGreatest(s.dates);
  }
}
