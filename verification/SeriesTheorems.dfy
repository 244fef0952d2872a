// What cutting and restoring series mean for the days of a class.
module SeriesTheorems {
  import opened Prelude
  import opened Schedule
  import opened Text
  import opened CivilDates
  import opened RuleText
  import opened SeriesRules
  import opened ClassSeries

  /** An expansion of rules without UNTIL never goes before DTSTART. */
  ghost predicate FromStart(expand: (SeriesRule, int) -> bool) {
    forall r, day :: expand(r, day) ==> DayNumber(r.start) <= day
  }

  // ----- cutting

  function CutRule(r: SeriesRule, cut: Until): Option<SeriesRule> {
    if DayNumber(cut.date) < DayNumber(r.start) then None
    else if r.until.Some? && DayNumber(r.until.value.date) <= DayNumber(cut.date) then Some(r)
    else Some(WithUntil(r, cut))
  }

  predicate IsUntilDate(u: Until) {
    Valid(u.date) && Plain(u.clock)
  }

  lemma UntilTextDate(u: Until)
    requires Valid(u.date)
    ensures |UntilText(u)| >= 8 && UntilText(u)[..8] == Compact(u.date)
  {
  }

  /** The string comparisons of the row reconciliation decide as the days themselves would. */
  lemma CutPrinted(row: Row, r: SeriesRule, cut: Until)
    requires Printable(r) && row.rule == Print(r) && IsUntilDate(cut)
    ensures CutRule(r, cut).Some? ==> Printable(CutRule(r, cut).value)
    ensures |UntilText(cut)| >= 8
    ensures CutRow(row, UntilText(cut)) == match CutRule(r, cut)
                                           case None => row.(deleted := true)
                                           case Some(r') => row.(rule := Print(r'))
  {
    GetDtStartPrinted(r);
    GetUntilPrinted(r);
    UntilTextDate(cut);
    CompactOrder(cut.date, r.start);
    if r.until.Some? {
      UntilTextDate(r.until.value);
      CompactOrder(cut.date, r.until.value.date);
    }
    ReplaceUntilPrinted(r, cut);
  }

  lemma CutCovers(expand: (SeriesRule, int) -> bool, r: SeriesRule, cut: Until, day: int)
    requires Printable(r) && IsUntilDate(cut) && FromStart(expand)
    ensures (CutRule(r, cut).Some? && Covers(expand, CutRule(r, cut).value, day))
       <==> (Covers(expand, r, day) && day <= DayNumber(cut.date))
  {
    WithUntilPrintable(r, cut);
  }

  predicate IsText(text: string, r: SeriesRule) {
    Printable(r) && text == Print(r)
  }

  /** The rules of the live rows of a class. */
  ghost predicate Describes(rows: Rows, classId: nat, rules: map<nat, SeriesRule>) {
    AreOfClass(rows, classId, rules.Keys) && AreTexts(rows, rules)
  }

  ghost predicate AreOfClass(rows: Rows, classId: nat, ids: set<nat>) {
    forall id :: id in ids <==> OfClass(rows, id, classId)
  }

  ghost predicate AreTexts(rows: Rows, rules: map<nat, SeriesRule>) {
    forall id | id in rules :: id in rows && IsText(rows[id].rule, rules[id])
  }

  ghost predicate Scheduled(expand: (SeriesRule, int) -> bool, rules: map<nat, SeriesRule>, day: int) {
    exists id :: id in rules && Covers(expand, rules[id], day)
  }

  function CutRules(rules: map<nat, SeriesRule>, cut: Until): map<nat, SeriesRule> {
    map id | id in rules && CutRule(rules[id], cut).Some? :: CutRule(rules[id], cut).value
  }

  lemma CutDescribes(rows: Rows, classId: nat, rules: map<nat, SeriesRule>, cut: Until)
    requires Describes(rows, classId, rules) && IsUntilDate(cut) && |UntilText(cut)| >= 8
    ensures Describes(CutRows(rows, classId, UntilText(cut)), classId, CutRules(rules, cut))
  {
    var rows' := CutRows(rows, classId, UntilText(cut));
    forall id
      ensures id in CutRules(rules, cut) <==> OfClass(rows', id, classId)
      ensures id in CutRules(rules, cut) ==> IsText(rows'[id].rule, CutRules(rules, cut)[id])
    {
      if id in rules {
        CutPrinted(rows[id], rules[id], cut);
      }
    }
  }

  lemma CutSchedule(rules: map<nat, SeriesRule>, cut: Until, expand: (SeriesRule, int) -> bool, day: int)
    requires forall id | id in rules :: Printable(rules[id])
    requires IsUntilDate(cut) && FromStart(expand)
    ensures Scheduled(expand, CutRules(rules, cut), day)
        <==> Scheduled(expand, rules, day) && day <= DayNumber(cut.date)
  {
    forall id | id in rules
      ensures (id in CutRules(rules, cut) && Covers(expand, CutRules(rules, cut)[id], day))
         <==> (Covers(expand, rules[id], day) && day <= DayNumber(cut.date))
    {
      CutCovers(expand, rules[id], cut, day);
    }
  }

  /** Cutting leaves a class exactly its old days up to the cut, whatever the number of its rows. */
  lemma CutOnlyShortens(
    rows: Rows, classId: nat, rules: map<nat, SeriesRule>, cut: Until, expand: (SeriesRule, int) -> bool)
    requires Describes(rows, classId, rules) && IsUntilDate(cut) && FromStart(expand) && |UntilText(cut)| >= 8
    ensures Describes(CutRows(rows, classId, UntilText(cut)), classId, CutRules(rules, cut))
    ensures forall day :: Scheduled(expand, CutRules(rules, cut), day)
                     <==> Scheduled(expand, rules, day) && day <= DayNumber(cut.date)
    ensures forall id | id in rows && !OfClass(rows, id, classId) ::
              CutRows(rows, classId, UntilText(cut))[id] == rows[id]
  {
    CutDescribes(rows, classId, rules, cut);
    forall day
      ensures Scheduled(expand, CutRules(rules, cut), day)
          <==> Scheduled(expand, rules, day) && day <= DayNumber(cut.date)
    {
      CutSchedule(rules, cut, expand, day);
    }
  }

  lemma TextsInsert(rows: Rows, rules: map<nat, SeriesRule>, id: nat, row: Row, rule: SeriesRule)
    requires AreTexts(rows, rules) && IsText(row.rule, rule)
    ensures AreTexts(rows[id := row], rules[id := rule])
  {
  }

  lemma OfClassInsert(rows: Rows, classId: nat, ids: set<nat>, id: nat, row: Row)
    requires AreOfClass(rows, classId, ids) && row.classId == classId && !row.deleted
    ensures AreOfClass(rows[id := row], classId, ids + {id})
  {
  }

  lemma DescribesInsert(rows: Rows, classId: nat, rules: map<nat, SeriesRule>, id: nat, row: Row, rule: SeriesRule)
    requires Describes(rows, classId, rules) && id !in rows
    requires row.classId == classId && !row.deleted && IsText(row.rule, rule)
    ensures Describes(rows[id := row], classId, rules[id := rule])
  {
    TextsInsert(rows, rules, id, row, rule);
    OfClassInsert(rows, classId, rules.Keys, id, row);
    assert rules[id := rule].Keys == rules.Keys + {id};
  }

  lemma ScheduledInsert(expand: (SeriesRule, int) -> bool, rules: map<nat, SeriesRule>, id: nat, rule: SeriesRule,
      day: int)
    requires id !in rules
    ensures Scheduled(expand, rules[id := rule], day) <==> Scheduled(expand, rules, day) || Covers(expand, rule, day)
  {
    var rules' := rules[id := rule];
    assert rules'[id] == rule && forall k | k in rules :: k in rules' && rules'[k] == rules[k];
  }

  /** A rule that ends before it starts. */
  predicate Dead(r: SeriesRule) {
    r.until.Some? && DayNumber(r.until.value.date) < DayNumber(r.start)
  }

  /** The text is seen to be dead exactly when the rule is. */
  lemma DeadPrinted(r: SeriesRule)
    requires Printable(r)
    ensures StartsAfterUntil(Print(r)) <==> Dead(r)
  {
    GetDtStartPrinted(r);
    GetUntilPrinted(r);
    if r.until.Some? {
      UntilTextDate(r.until.value);
      CompactOrder(r.until.value.date, r.start);
    }
  }

  lemma PrintedCut(closed: SeriesRule)
    requires Printable(closed) && closed.until.Some?
    ensures GetUntil(Print(closed)) == UntilText(closed.until.value) && |UntilText(closed.until.value)| >= 8
  {
    GetUntilPrinted(closed);
    UntilTextDate(closed.until.value);
  }

  /** A reschedule is refused exactly when the closed series has no UNTIL, or the new series, unless it is
      dead, has no length or a rule that does not parse. */
  lemma RescheduleSeriesSucceeds(
    t: Table, classId: nat, newSeries: Row, newRule: SeriesRule, closed: SeriesRule, accepts: string -> bool)
    requires Printable(newRule) && newSeries.rule == Print(newRule) && Printable(closed)
    ensures RescheduleSeries(t, classId, newSeries, Print(closed), accepts).Ok? <==>
              && closed.until.Some?
              && (Dead(newRule)
                  || (newSeries.duration.Some? && newSeries.duration.value > 0 && accepts(newSeries.rule)))
  {
    DeadPrinted(newRule);
    GetUntilPrinted(closed);
    if closed.until.Some? {
      PrintedCut(closed);
    }
  }

  /** What a reschedule does to the rows: the old ones keep everything but their rule and may go, those of
      other classes are untouched, and a new series that is not dead is stored as it was given. */
  lemma RescheduleRows(
    t: Table, classId: nat, newSeries: Row, newRule: SeriesRule, closed: SeriesRule, accepts: string -> bool, t': Table)
    requires Numbered(t) && Printable(newRule) && newSeries.rule == Print(newRule)
    requires Printable(closed) && closed.until.Some?
    requires RescheduleSeries(t, classId, newSeries, Print(closed), accepts) == Ok(t')
    ensures forall id | id in t.rows ::
              && id in t'.rows
              && t'.rows[id] == t.rows[id].(rule := t'.rows[id].rule, deleted := t'.rows[id].deleted)
              && (!OfClass(t.rows, id, classId) ==> t'.rows[id] == t.rows[id])
    ensures if Dead(newRule) then t'.rows.Keys == t.rows.Keys && t'.nextId == t.nextId
            else t'.rows.Keys == t.rows.Keys + {t.nextId} && t'.nextId == t.nextId + 1
                 && t'.rows[t.nextId] == Row(t.nextId, classId, newSeries.rule, newSeries.duration, newSeries.room,
                                             newSeries.instructor, newSeries.cancelled, false)
  {
    PrintedCut(closed);
    DeadPrinted(newRule);
    CutKeepsFields(t.rows, classId, UntilText(closed.until.value));
    PrintIsSomething(newRule);
    RescheduledTable(t, classId, newSeries, Print(closed), UntilText(closed.until.value), accepts, t');
  }

  lemma PrintIsSomething(r: SeriesRule)
    requires Printable(r)
    ensures Print(r) != ""
  {
  }

  lemma CutKeepsFields(rows: Rows, classId: nat, untilDate: string)
    requires |untilDate| >= 8
    ensures CutRows(rows, classId, untilDate).Keys == rows.Keys
    ensures forall id | id in rows ::
              var (old_, cut) := (rows[id], CutRows(rows, classId, untilDate)[id]);
              && cut == old_.(rule := cut.rule, deleted := cut.deleted)
              && (!OfClass(rows, id, classId) ==> cut == old_)
  {
  }

  lemma RescheduledTable(
    t: Table, classId: nat, newSeries: Row, closedRule: string, untilDate: string, accepts: string -> bool, t': Table)
    requires Numbered(t) && GetUntil(closedRule) == untilDate && |untilDate| >= 8 && newSeries.rule != ""
    requires RescheduleSeries(t, classId, newSeries, closedRule, accepts) == Ok(t')
    ensures var cut := CutRows(t.rows, classId, untilDate);
            if StartsAfterUntil(newSeries.rule) then t' == t.(rows := cut)
            else t.nextId !in t.rows && t' == Table(
                     cut[t.nextId := Row(t.nextId, classId, newSeries.rule, newSeries.duration, newSeries.room,
                                         newSeries.instructor, newSeries.cancelled, false)], t.nextId + 1)
  {
  }

  /** Without a new series the rows are only cut; without UNTIL on the closed series nothing is done. */
  lemma WithoutNewSeries(
    t: Table, classId: nat, newSeries: Row, closed: SeriesRule, accepts: string -> bool)
    requires Printable(closed) && newSeries.rule == ""
    ensures closed.until.None? ==> RescheduleSeries(t, classId, newSeries, Print(closed), accepts) == Err
    ensures closed.until.Some? ==>
              && |UntilText(closed.until.value)| >= 8
              && RescheduleSeries(t, classId, newSeries, Print(closed), accepts)
                 == Ok(t.(rows := CutRows(t.rows, classId, UntilText(closed.until.value))))
  {
    GetUntilPrinted(closed);
    if closed.until.Some? {
      PrintedCut(closed);
    }
  }

  lemma DeadRuleCoversNothing(expand: (SeriesRule, int) -> bool, r: SeriesRule)
    requires FromStart(expand) && Dead(r)
    ensures forall day :: !Covers(expand, r, day)
  {
  }

  /** Days on which the class is held: those of its rows that are not cancelled. */
  ghost predicate Held(expand: (SeriesRule, int) -> bool, rows: Rows, rules: map<nat, SeriesRule>, day: int) {
    exists id :: id in rules && id in rows && !rows[id].cancelled && Covers(expand, rules[id], day)
  }

  lemma HeldCut(
    expand: (SeriesRule, int) -> bool, rows: Rows, rows': Rows, rules: map<nat, SeriesRule>, cut: Until, day: int)
    requires FromStart(expand) && IsUntilDate(cut)
    requires forall id | id in rules ::
               && Printable(rules[id]) && id in rows && id in rows' && rows'[id].cancelled == rows[id].cancelled
    ensures Held(expand, rows', CutRules(rules, cut), day)
        <==> Held(expand, rows, rules, day) && day <= DayNumber(cut.date)
  {
    forall id | id in rules
      ensures (id in CutRules(rules, cut) && Covers(expand, CutRules(rules, cut)[id], day))
         <==> (Covers(expand, rules[id], day) && day <= DayNumber(cut.date))
    {
      CutCovers(expand, rules[id], cut, day);
    }
  }

  lemma HeldInsert(
    expand: (SeriesRule, int) -> bool, rows: Rows, rules: map<nat, SeriesRule>, id: nat, rule: SeriesRule, day: int)
    requires id !in rules && id in rows
    ensures Held(expand, rows, rules[id := rule], day) <==>
              Held(expand, rows, rules, day) || (!rows[id].cancelled && Covers(expand, rule, day))
  {
    var rules' := rules[id := rule];
    assert rules'[id] == rule && forall k | k in rules :: k in rules' && rules'[k] == rules[k];
  }

  /** After the call the class is held on its old held days up to the cut, and on the days of the new series
      unless that is cancelled. */
  lemma RescheduleHeld(
    t: Table, classId: nat, rules: map<nat, SeriesRule>, newSeries: Row, newRule: SeriesRule, closed: SeriesRule,
    accepts: string -> bool, t': Table, expand: (SeriesRule, int) -> bool, day: int)
    requires Numbered(t) && Describes(t.rows, classId, rules) && FromStart(expand)
    requires Printable(newRule) && newSeries.rule == Print(newRule)
    requires Printable(closed) && closed.until.Some?
    requires RescheduleSeries(t, classId, newSeries, Print(closed), accepts) == Ok(t')
    ensures Held(expand, t'.rows, RescheduledRules(rules, closed.until.value, newRule, t.nextId), day) <==>
              || (Held(expand, t.rows, rules, day) && day <= DayNumber(closed.until.value.date))
              || (!newSeries.cancelled && Covers(expand, newRule, day))
  {
    var cut := closed.until.value;
    RescheduleRows(t, classId, newSeries, newRule, closed, accepts, t');
    forall id | id in rules
      ensures Printable(rules[id]) && id in t.rows && id in t'.rows && t'.rows[id].cancelled == t.rows[id].cancelled
      ensures id != t.nextId
    {
      assert OfClass(t.rows, id, classId);
    }
    HeldCut(expand, t.rows, t'.rows, rules, cut, day);
    if Dead(newRule) {
      DeadRuleCoversNothing(expand, newRule);
    } else {
      HeldInsert(expand, t'.rows, CutRules(rules, cut), t.nextId, newRule, day);
    }
  }

  function RescheduledRules(rules: map<nat, SeriesRule>, cut: Until, newRule: SeriesRule,
      newId: nat): map<nat, SeriesRule> {
    if Dead(newRule) then CutRules(rules, cut) else CutRules(rules, cut)[newId := newRule]
  }

  /** A whole series reschedule: the class keeps its old days up to the cut and gains those of the new
      series, and a new series that starts after the cut shares no day with what is kept. */
  lemma RescheduleHandsOver(
    t: Table, classId: nat, rules: map<nat, SeriesRule>, newSeries: Row, newRule: SeriesRule, closed: SeriesRule,
    accepts: string -> bool, t': Table, expand: (SeriesRule, int) -> bool)
    returns (rules': map<nat, SeriesRule>)
    requires Numbered(t) && Describes(t.rows, classId, rules) && FromStart(expand)
    requires Printable(newRule) && newSeries.rule == Print(newRule)
    requires Printable(closed) && closed.until.Some?
    requires RescheduleSeries(t, classId, newSeries, Print(closed), accepts) == Ok(t')
    ensures rules' == RescheduledRules(rules, closed.until.value, newRule, t.nextId)
    ensures Describes(t'.rows, classId, rules')
    ensures forall day :: Scheduled(expand, rules', day)
                     <==> (Scheduled(expand, rules, day) && day <= DayNumber(closed.until.value.date))
                          || Covers(expand, newRule, day)
    ensures DayNumber(closed.until.value.date) < DayNumber(newRule.start) ==>
              forall id, day | id in rules' && id != t.nextId && Covers(expand, newRule, day) ::
                !Covers(expand, rules'[id], day)
  {
    var until := closed.until.value;
    GetUntilPrinted(closed);
    UntilTextDate(until);
    CutOnlyShortens(t.rows, classId, rules, until, expand);
    var cut := t.(rows := CutRows(t.rows, classId, UntilText(until)));
    var kept := CutRules(rules, until);
    rules' := RescheduledRules(rules, until, newRule, t.nextId);
    DeadPrinted(newRule);
    if Dead(newRule) {
      DeadRuleCoversNothing(expand, newRule);
    } else {
      assert newSeries.rule != "" && t.nextId !in cut.rows;
      assert t' == Insert(cut, newSeries.(classId := classId));
      DescribesInsert(cut.rows, classId, kept, t.nextId, t'.rows[t.nextId], newRule);
      forall day
        ensures Scheduled(expand, rules', day) <==> Scheduled(expand, kept, day) || Covers(expand, newRule, day)
      {
        ScheduledInsert(expand, kept, t.nextId, newRule, day);
      }
    }
    forall id, day | id in kept && Covers(expand, kept[id], day)
      ensures day <= DayNumber(until.date)
    {
      assert Scheduled(expand, kept, day);
    }
    assert forall id | id in rules' && id != t.nextId :: id in kept && rules'[id] == kept[id];
    assert t.nextId !in kept;
  }

  // ----- restoring

  lemma TwoLines(startLine: string, ruleLine: string)
    requires Free(startLine, '\n') && Free(ruleLine, '\n')
    requires DTSTART <= startLine && RRULE <= ruleLine && !(RRULE <= startLine) && !(DTSTART <= ruleLine)
    ensures var lines := Split(startLine + "\n" + ruleLine, '\n');
            LastLine(lines, DTSTART) == startLine && LastLine(lines, RRULE) == ruleLine
  {
    SplitCons(startLine, ruleLine, '\n');
    SplitFreeOne(ruleLine, '\n');
    var lines := [startLine, ruleLine];
    assert [startLine] + [ruleLine] == lines;
    assert lines[..1] == [startLine] && [startLine][..0] == [];
  }

  lemma LinesAreWhole(r: SeriesRule)
    requires Printable(r)
    ensures Free(StartLine(r), '\n') && Free(RuleLine(r), '\n')
  {
    CompactFree(r.start, '\n');
    PartsFree(r);
    JoinFree(Parts(r), ';', '\n');
  }

  lemma LinePrefixes(r: SeriesRule)
    requires Printable(r)
    ensures DTSTART <= StartLine(r) && RRULE <= RuleLine(r) && !(RRULE <= StartLine(r)) && !(DTSTART <= RuleLine(r))
  {
    assert StartLine(r)[0] == 'D' && RuleLine(r)[0] == 'R';
    assert DTSTART[0] == 'D' && RRULE[0] == 'R';
  }

  lemma LinesOfPrinted(r: SeriesRule)
    requires Printable(r)
    ensures LastLine(Split(Print(r), '\n'), DTSTART) == StartLine(r)
    ensures LastLine(Split(Print(r), '\n'), RRULE) == RuleLine(r)
  {
    LinesAreWhole(r);
    LinePrefixes(r);
    TwoLines(StartLine(r), RuleLine(r));
  }

  lemma RestartPrinted(r: SeriesRule, restore: Date)
    requires Printable(r) && Valid(restore)
    ensures RestartLine(StartLine(r), restore) == StartLine(r.(start := restore))
  {
    var head := DTSTART + Parameters(r);
    var line := StartLine(r);
    CompactFree(r.start, ':');
    assert line == head + (":" + Compact(r.start) + r.clock);
    assert line[|head|] == ':';
    forall j | |head| < j < |line|
      ensures line[j] != ':'
    {
      var tail := Compact(r.start) + r.clock;
      assert line[j] == tail[j - |head| - 1];
    }
    assert LastColon(line) == |head|;
    assert line[..|head| + 1] == head + ":";
    assert line[|head| + 9..] == r.clock;
  }

  function Closed(r: SeriesRule, restore: Date): SeriesRule {
    WithUntil(r, Until(Previous(restore), END_OF_DAY))
  }

  lemma ClosedRulePrinted(r: SeriesRule, restore: Date)
    requires Printable(r) && Valid(restore) && restore != Date(0, 1, 1)
    ensures Printable(Closed(r, restore)) && ClosedRule(Print(r), restore) == Print(Closed(r, restore))
  {
    PreviousIsOneLess(restore);
    LinesOfPrinted(r);
    ReplaceUntilRuleLine(r, Until(Previous(restore), END_OF_DAY));
  }

  lemma RestoredRulePrinted(r: SeriesRule, restore: Date)
    requires Printable(r) && Valid(restore)
    ensures Printable(r.(start := restore)) && RestoredRule(Print(r), restore) == Print(r.(start := restore))
    ensures GetDtStart(RestoredRule(Print(r), restore)) == Compact(restore)
  {
    LinesOfPrinted(r);
    RestartPrinted(r, restore);
    assert Parts(r.(start := restore)) == Parts(r);
    GetDtStartPrinted(r.(start := restore));
  }

  /** The two rows that restoring leaves are the weekly rule cut before the restore date and the rule
      started at it, with its zone and time of day. */
  lemma UncancelRules(t: Table, id: nat, r: SeriesRule, restore: Date, accepts: string -> bool, t': Table)
    requires Numbered(t) && id in t.rows && IsText(t.rows[id].rule, r)
    requires Valid(restore) && restore != Date(0, 1, 1)
    requires UncancelSeries(t, id, restore, accepts) == Ok(t')
    ensures IsText(t'.rows[id].rule, Closed(r, restore)) && t'.rows[id] == t.rows[id].(rule := t'.rows[id].rule)
    ensures IsText(t'.rows[t.nextId].rule, r.(start := restore)) && !t'.rows[t.nextId].cancelled
    ensures GetDtStart(t'.rows[t.nextId].rule) == Compact(restore)
    ensures var (old_, added) := (t.rows[id], t'.rows[t.nextId]);
            added == Row(t.nextId, old_.classId, added.rule, old_.duration, old_.room, old_.instructor, false, false)
  {
    ClosedRulePrinted(r, restore);
    RestoredRulePrinted(r, restore);
  }

  /** A day is one of the rule's weekdays. */
  predicate MeetsOn(r: SeriesRule, day: int) {
    Named(r.before + r.after, Weekday(day))
  }

  /** The first day from `day` on that is one of the rule's weekdays, looking at `n` days and no further. */
  function NextMeeting(r: SeriesRule, day: int, n: nat): int
    decreases n
  {
    if n == 0 || MeetsOn(r, day) then day else NextMeeting(r, day + 1, n - 1)
  }

  lemma {:induction false} NextMeetingIsFirst(r: SeriesRule, day: int, n: nat)
    ensures day <= NextMeeting(r, day, n) <= day + n
    ensures forall d | day <= d < NextMeeting(r, day, n) :: !MeetsOn(r, d)
    ensures NextMeeting(r, day, n) < day + n ==> MeetsOn(r, NextMeeting(r, day, n))
    decreases n
  {
    if n > 0 && !MeetsOn(r, day) {
      NextMeetingIsFirst(r, day + 1, n - 1);
    }
  }

  /** Some weekday is named, so the next meeting is within a week. */
  lemma NextMeetingMeets(r: SeriesRule, day: int, w: int)
    requires 0 <= w < 7 && Named(r.before + r.after, w)
    ensures MeetsOn(r, NextMeeting(r, day, 6))
  {
    NextMeetingIsFirst(r, day, 6);
    var d := WeekdayWithinAWeek(day, w);
    assert MeetsOn(r, d);
  }

  /** What a caller can check before restoring: the series meets on no day between the restore date and a
      later DTSTART, and on none between its end and a later restore date. */
  predicate RestoreGuard(r: SeriesRule, restore: Date) {
    var (start, date) := (DayNumber(r.start), DayNumber(restore));
    match r.until
    case None => start <= NextMeeting(r, date, 6)
    case Some(u) =>
      var until := DayNumber(u.date);
      && (start <= NextMeeting(r, date, 6) || until < NextMeeting(r, date, 6))
      && date <= NextMeeting(r, if start <= until then until + 1 else start, 6)
  }

  lemma WeeklyCovers(r: SeriesRule, restore: Date, day: int)
    requires Printable(r) && Valid(restore) && restore != Date(0, 1, 1)
    ensures Covers(WeeklyDays, r, day)
        <==> DayNumber(r.start) <= day && MeetsOn(r, day) && (r.until.Some? ==> day <= DayNumber(r.until.value.date))
    ensures Covers(WeeklyDays, r.(start := restore), day)
       <==> DayNumber(restore) <= day && MeetsOn(r, day) && (r.until.Some? ==> day <= DayNumber(r.until.value.date))
    ensures Covers(WeeklyDays, Closed(r, restore), day)
        <==> DayNumber(r.start) <= day < DayNumber(restore) && MeetsOn(r, day)
  {
    PreviousIsOneLess(restore);
    assert Bare(Closed(r, restore)) == Bare(r) by {
      WithUntilPrintable(r, Until(Previous(restore), END_OF_DAY));
    }
    assert (r.before + r.after) + [] == r.before + r.after;
  }

  /** A day of the closed or of the restarted rule. */
  ghost predicate EitherCovers(r: SeriesRule, restore: Date, day: int)
    requires Valid(restore) && restore != Date(0, 1, 1)
  {
    Covers(WeeklyDays, Closed(r, restore), day) || Covers(WeeklyDays, r.(start := restore), day)
  }

  /** These are exactly the days of the rule. */
  ghost predicate Conserves(r: SeriesRule, restore: Date)
    requires Valid(restore) && restore != Date(0, 1, 1)
  {
    forall day :: EitherCovers(r, restore, day) <==> Covers(WeeklyDays, r, day)
  }

  lemma GuardedConserves(r: SeriesRule, restore: Date, day: int)
    requires Printable(r) && Valid(restore) && restore != Date(0, 1, 1) && RestoreGuard(r, restore)
    ensures EitherCovers(r, restore, day) <==> Covers(WeeklyDays, r, day)
  {
    WeeklyCovers(r, restore, day);
    var (start, date) := (DayNumber(r.start), DayNumber(restore));
    NextMeetingIsFirst(r, date, 6);
    if r.until.Some? {
      var until := DayNumber(r.until.value.date);
      var from := if start <= until then until + 1 else start;
      NextMeetingIsFirst(r, from, 6);
      assert start <= day < date && MeetsOn(r, day) ==> day < from;
    }
    assert date <= day < start && MeetsOn(r, day) ==> NextMeeting(r, date, 6) <= day;
  }

  /** Without the guard some day is added. */
  lemma UnguardedAdds(r: SeriesRule, restore: Date, w: int) returns (day: int)
    requires Printable(r) && Valid(restore) && restore != Date(0, 1, 1) && !RestoreGuard(r, restore)
    requires 0 <= w < 7 && Named(r.before + r.after, w)
    ensures EitherCovers(r, restore, day)
    ensures !Covers(WeeklyDays, r, day)
  {
    var (start, date) := (DayNumber(r.start), DayNumber(restore));
    day := NextMeeting(r, date, 6);
    NextMeetingMeets(r, date, w);
    NextMeetingIsFirst(r, date, 6);
    if start <= day || (r.until.Some? && DayNumber(r.until.value.date) < day) {
      var until := DayNumber(r.until.value.date);
      var from := if start <= until then until + 1 else start;
      NextMeetingMeets(r, from, w);
      NextMeetingIsFirst(r, from, 6);
      day := NextMeeting(r, from, 6);
    }
    WeeklyCovers(r, restore, day);
  }

  /** Restoring a weekly series never schedules a day twice and never loses one, and conserves its days
      exactly under the guard. */
  lemma UncancelConserves(r: SeriesRule, restore: Date, w: int)
    requires Printable(r) && Valid(restore) && restore != Date(0, 1, 1) && 0 <= w < 7 && Named(r.before + r.after, w)
    ensures forall day ::
        !(Covers(WeeklyDays, Closed(r, restore), day) && Covers(WeeklyDays, r.(start := restore), day))
    ensures forall day | Covers(WeeklyDays, r, day) :: EitherCovers(r, restore, day)
    ensures Conserves(r, restore) <==> RestoreGuard(r, restore)
  {
    forall day
      ensures Covers(WeeklyDays, r, day) ==> EitherCovers(r, restore, day)
      ensures !(Covers(WeeklyDays, Closed(r, restore), day) && Covers(WeeklyDays, r.(start := restore), day))
    {
      WeeklyCovers(r, restore, day);
    }
    if RestoreGuard(r, restore) {
      forall day
        ensures EitherCovers(r, restore, day) <==> Covers(WeeklyDays, r, day)
      {
        GuardedConserves(r, restore, day);
      }
    } else {
      var day := UnguardedAdds(r, restore, w);
    }
  }

  /** A restore date from DTSTART to the day after UNTIL is always good. */
  lemma RestoreInsideIsGuarded(r: SeriesRule, restore: Date)
    requires DayNumber(r.start) <= DayNumber(restore)
    requires r.until.Some? ==> DayNumber(restore) <= DayNumber(r.until.value.date) + 1
    ensures RestoreGuard(r, restore)
  {
    NextMeetingIsFirst(r, DayNumber(restore), 6);
    if r.until.Some? {
      var (start, until) := (DayNumber(r.start), DayNumber(r.until.value.date));
      NextMeetingIsFirst(r, if start <= until then until + 1 else start, 6);
    }
  }

  function UncancelledRules(rules: map<nat, SeriesRule>, id: nat, restore: Date, newId: nat): map<nat, SeriesRule>
    requires id in rules && Valid(restore) && restore != Date(0, 1, 1)
  {
    rules[id := Closed(rules[id], restore)][newId := rules[id].(start := restore)]
  }

  /** Restoring is refused exactly for a row that is not there, and for one without a length or whose
      restarted rule does not parse. */
  lemma UncancelSeriesSucceeds(t: Table, id: nat, r: SeriesRule, restore: Date, accepts: string -> bool)
    requires id in t.rows && IsText(t.rows[id].rule, r) && Valid(restore)
    ensures UncancelSeries(t, id, restore, accepts).Ok? <==>
              && !t.rows[id].deleted && t.rows[id].duration.Some? && t.rows[id].duration.value > 0
              && Printable(r.(start := restore)) && accepts(Print(r.(start := restore)))
  {
    RestoredRulePrinted(r, restore);
  }

  lemma UncancelShape(t: Table, id: nat, restore: Date, accepts: string -> bool, t': Table)
    requires Numbered(t) && Valid(restore) && UncancelSeries(t, id, restore, accepts) == Ok(t')
    ensures id in t.rows && id in t'.rows && t.nextId in t'.rows && t.nextId !in t.rows
    ensures t'.rows == t.rows[id := t'.rows[id]][t.nextId := t'.rows[t.nextId]]
    ensures var row, added := t'.rows[id], t'.rows[t.nextId];
            && row.classId == t.rows[id].classId && row.deleted == t.rows[id].deleted
                && row.cancelled == t.rows[id].cancelled
            && added.classId == t.rows[id].classId && !added.deleted && !added.cancelled
  {
  }

  lemma UncancelDescribes(
    t: Table, classId: nat, rules: map<nat, SeriesRule>, id: nat, restore: Date, rows: Rows)
    requires Describes(t.rows, classId, rules) && id in rules && t.nextId !in t.rows
    requires Valid(restore) && restore != Date(0, 1, 1)
    requires id in rows && t.nextId in rows && rows == t.rows[id := rows[id]][t.nextId := rows[t.nextId]]
    requires rows[id].classId == rows[t.nextId].classId == classId && !rows[id].deleted && !rows[t.nextId].deleted
    requires IsText(rows[id].rule, Closed(rules[id], restore))
    requires IsText(rows[t.nextId].rule, rules[id].(start := restore))
    ensures Describes(rows, classId, UncancelledRules(rules, id, restore, t.nextId))
  {
    var closed, capped := t.rows[id := rows[id]], rules[id := Closed(rules[id], restore)];
    TextsInsert(t.rows, rules, id, rows[id], Closed(rules[id], restore));
    OfClassInsert(t.rows, classId, rules.Keys, id, rows[id]);
    assert capped.Keys == rules.Keys + {id};
    DescribesInsert(closed, classId, capped, t.nextId, rows[t.nextId], rules[id].(start := restore));
  }

  /** A whole restoring of a weekly series: the rows of the class are described by the closed and the
      restarted rule beside the others, no day is lost, and under the guard none is added. The days
      held are then those held before and, if the row was cancelled, its days from the restore date on. */
  lemma UncancelHandsOver(
    t: Table, classId: nat, rules: map<nat, SeriesRule>, id: nat, restore: Date, accepts: string -> bool, t': Table)
    returns (rules': map<nat, SeriesRule>)
    requires Numbered(t) && Describes(t.rows, classId, rules) && id in rules && IsWeekly(rules[id])
    requires Valid(restore) && restore != Date(0, 1, 1) && UncancelSeries(t, id, restore, accepts) == Ok(t')
    ensures rules' == UncancelledRules(rules, id, restore, t.nextId) && Describes(t'.rows, classId, rules')
    ensures forall day :: !(Covers(WeeklyDays, rules'[id], day) && Covers(WeeklyDays, rules'[t.nextId], day))
    ensures forall day | Scheduled(WeeklyDays, rules, day) :: Scheduled(WeeklyDays, rules', day)
    ensures RestoreGuard(rules[id], restore) ==>
              forall day :: Scheduled(WeeklyDays, rules', day) <==> Scheduled(WeeklyDays, rules, day)
    ensures RestoreGuard(rules[id], restore) && t.rows[id].cancelled ==>
              forall day :: Held(WeeklyDays, t'.rows, rules', day) <==>
                              || Held(WeeklyDays, t.rows, rules, day)
                              || (Covers(WeeklyDays, rules[id], day) && DayNumber(restore) <= day)
  {
    rules' := UncancelledRules(rules, id, restore, t.nextId);
    UncancelShape(t, id, restore, accepts, t');
    UncancelRules(t, id, rules[id], restore, accepts, t');
    assert OfClass(t.rows, id, classId);
    UncancelDescribes(t, classId, rules, id, restore, t'.rows);
    assert t.nextId !in t.rows && t.nextId !in rules;
    forall day
      ensures !(Covers(WeeklyDays, rules'[id], day) && Covers(WeeklyDays, rules'[t.nextId], day))
      ensures Scheduled(WeeklyDays, rules, day) ==> Scheduled(WeeklyDays, rules', day)
      ensures RestoreGuard(rules[id], restore) ==>
          (Scheduled(WeeklyDays, rules', day) <==> Scheduled(WeeklyDays, rules, day))
      ensures RestoreGuard(rules[id], restore) && t.rows[id].cancelled ==>
                (Held(WeeklyDays, t'.rows, rules', day) <==>
                   Held(WeeklyDays, t.rows, rules, day)
                     || (Covers(WeeklyDays, rules[id], day) && DayNumber(restore) <= day))
    {
      RestoredDay(t, classId, rules, id, restore, t', day);
    }
  }

  /** Some row other than `id`, held or not as asked, covers the day. */
  ghost predicate OthersCover(rows: Rows, rules: map<nat, SeriesRule>, id: nat, held: bool, day: int) {
    exists k :: k in rules && k in rows && k != id && (held ==> !rows[k].cancelled) && Covers(WeeklyDays, rules[k], day)
  }

  lemma RestoredRows(t: Table, rules: map<nat, SeriesRule>, id: nat, restore: Date, rows: Rows, day: int)
    requires forall k | k in rules :: k in t.rows
    requires id in rules && t.nextId !in rules && t.nextId in rows && id in rows
    requires Valid(restore) && restore != Date(0, 1, 1)
    requires forall k | k in t.rows && k != id :: k in rows && rows[k] == t.rows[k]
    requires !rows[t.nextId].cancelled
    ensures var rules' := UncancelledRules(rules, id, restore, t.nextId);
            && (Scheduled(WeeklyDays, rules', day) <==>
                  OthersCover(t.rows, rules, id, false, day)
                  || Covers(WeeklyDays, Closed(rules[id], restore), day)
                      || Covers(WeeklyDays, rules[id].(start := restore), day))
            && (Held(WeeklyDays, rows, rules', day) <==>
                  OthersCover(t.rows, rules, id, true, day)
                  || (!rows[id].cancelled && Covers(WeeklyDays, Closed(rules[id], restore), day))
                  || Covers(WeeklyDays, rules[id].(start := restore), day))
  {
    var rules' := UncancelledRules(rules, id, restore, t.nextId);
    assert forall k | k in rules && k != id :: k in rules' && rules'[k] == rules[k];
    assert rules'[id] == Closed(rules[id], restore) && rules'[t.nextId] == rules[id].(start := restore);
    assert forall k | k in rules' :: k in rules || k == t.nextId;
  }

  lemma RowsBefore(rows: Rows, rules: map<nat, SeriesRule>, id: nat, day: int)
    requires id in rules && forall k | k in rules :: k in rows
    ensures Scheduled(WeeklyDays, rules, day)
        <==> OthersCover(rows, rules, id, false, day) || Covers(WeeklyDays, rules[id], day)
    ensures Held(WeeklyDays, rows, rules, day)
       <==> OthersCover(rows, rules, id, true, day) || (!rows[id].cancelled && Covers(WeeklyDays, rules[id], day))
  {
  }

  lemma RestoredDay(t: Table, classId: nat, rules: map<nat, SeriesRule>, id: nat, restore: Date, t': Table, day: int)
    requires Describes(t.rows, classId, rules) && id in rules && t.nextId !in rules && t.nextId in t'.rows
        && id in t'.rows
    requires Valid(restore) && restore != Date(0, 1, 1)
    requires forall k | k in t.rows && k != id :: k in t'.rows && t'.rows[k] == t.rows[k]
    requires t'.rows[id].cancelled == t.rows[id].cancelled && !t'.rows[t.nextId].cancelled
    ensures var rules' := UncancelledRules(rules, id, restore, t.nextId);
            && !(Covers(WeeklyDays, rules'[id], day) && Covers(WeeklyDays, rules'[t.nextId], day))
            && (Scheduled(WeeklyDays, rules, day) ==> Scheduled(WeeklyDays, rules', day))
            && (RestoreGuard(rules[id], restore) ==>
                (Scheduled(WeeklyDays, rules', day) <==> Scheduled(WeeklyDays, rules, day)))
            && (RestoreGuard(rules[id], restore) && t.rows[id].cancelled ==>
                  (Held(WeeklyDays, t'.rows, rules', day) <==>
                     Held(WeeklyDays, t.rows, rules, day)
                       || (Covers(WeeklyDays, rules[id], day) && DayNumber(restore) <= day)))
  {
    RestoredRows(t, rules, id, restore, t'.rows, day);
    RowsBefore(t.rows, rules, id, day);
    WeeklyCovers(rules[id], restore, day);
    if RestoreGuard(rules[id], restore) {
      GuardedConserves(rules[id], restore, day);
    }
  }

  /** The weekly rule, in times, that a weekly rule text stands for. */
  function ToWeekly(r: SeriesRule, minute: int): WeeklyRule {
    WeeklyRule(DayNumber(r.start) * DAY_MINUTES + minute, set w | 0 <= w < 7 && Named(r.before + r.after, w),
               if r.until.Some? then Some(DayNumber(r.until.value.date)) else None)
  }

  /** The days of the text are the days of its occurrences. */
  lemma WeeklyDaysAreOccurrences(r: SeriesRule, minute: int, day: int)
    requires Printable(r) && 0 <= minute < DAY_MINUTES
    ensures Covers(WeeklyDays, r, day) <==> Occurs(ToWeekly(r, minute), day * DAY_MINUTES + minute)
    ensures Day(day * DAY_MINUTES + minute) == day
  {
    assert (r.before + r.after) + [] == r.before + r.after;
    OnDayUnique(ToWeekly(r, minute), day, day * DAY_MINUTES + minute);
    OnDayUnique(ToWeekly(r, minute), DayNumber(r.start), DayNumber(r.start) * DAY_MINUTES + minute);
    assert DayNumber(r.start) <= day <==> DayNumber(r.start) * DAY_MINUTES + minute <= day * DAY_MINUTES + minute;
  }

  // ----- texts as they are stored

  const MONDAYS := SeriesRule(
    None, Date(2024, 1, 1), "T10", ["BYDAY=MO"], Some(Until(Date(2024, 1, 29), "Z")), [])

  lemma MondaysArePrintable()
    ensures Printable(MONDAYS)
  {
    var part := MONDAYS.before[0];
    assert MONDAYS.before + MONDAYS.after == [part];
    assert part == "BYDAY=MO" && part[0] == 'B' && UNTIL[0] == 'U';
    assert Free(part, ';') && Free(part, '\n');
    assert Plain("T10") && Plain("Z");
  }

  lemma MondaysParts()
    ensures Printable(MONDAYS) && Join(Parts(MONDAYS), ';') == "BYDAY=MO;UNTIL=20240129Z"
  {
    MondaysArePrintable();
    assert TwoDigits(20) == "20" && TwoDigits(24) == "24" && TwoDigits(1) == "01" && TwoDigits(29) == "29";
    assert UntilText(MONDAYS.until.value) == "20240129Z" && UNTIL + "20240129Z" == "UNTIL=20240129Z";
    assert Parts(MONDAYS) == ["BYDAY=MO"] + ["UNTIL=20240129Z"] + [];
    assert Parts(MONDAYS)[1..] == ["UNTIL=20240129Z"];
  }

  lemma MondaysStart()
    ensures StartLine(MONDAYS) == "DTSTART:20240101T10"
  {
    assert TwoDigits(20) == "20" && TwoDigits(24) == "24" && TwoDigits(1) == "01";
    assert Compact(MONDAYS.start) == "20240101";
  }

  /** A rule as the rows hold it, and where the days are counted from. */
  lemma StoredTexts()
    ensures Printable(MONDAYS)
        && Print(MONDAYS) == "DTSTART:20240101T10" + "\n" + ("RRULE:" + "BYDAY=MO;UNTIL=20240129Z")
    ensures DayNumber(Date(1970, 1, 1)) == 0 && Weekday(0) == 4
  {
    MondaysParts();
    MondaysStart();
  }
}
