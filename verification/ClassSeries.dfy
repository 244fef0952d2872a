// The recurrence rows of the classes: rescheduling or cancelling a series from a cut date on, and
// restoring a cancelled series from a date on.
module ClassSeries {
  import opened Prelude
  import opened Text
  import opened CivilDates
  import opened RuleText
  import opened SeriesRules

  datatype Row = Row(
    id: nat, classId: nat, rule: string, duration: Option<int>,
    room: Option<nat>, instructor: Option<nat>, cancelled: bool, deleted: bool)

  type Rows = map<nat, Row>

  datatype Table = Table(rows: Rows, nextId: nat)

  predicate Numbered(t: Table) {
    0 < t.nextId && forall id | id in t.rows :: t.rows[id].id == id && 0 < id < t.nextId
  }

  predicate LiveRow(rows: Rows, id: nat) {
    id in rows && !rows[id].deleted
  }

  predicate OfClass(rows: Rows, id: nat, classId: nat) {
    LiveRow(rows, id) && rows[id].classId == classId
  }

  /** What inserting a row checks; `accepts` says which rule texts the rule library parses. */
  predicate Creatable(row: Row, accepts: string -> bool) {
    row.duration.Some? && row.duration.value > 0 && accepts(row.rule)
  }

  function Insert(t: Table, row: Row): Table {
    Table(t.rows[t.nextId := row.(id := t.nextId, deleted := false)], t.nextId + 1)
  }

  // ----- cutting the rows of a class

  /** A row that starts after the cut goes; one that does not end by then is capped. */
  function CutRow(row: Row, untilDate: string): Row
    requires |untilDate| >= 8
  {
    var start, until := GetDtStart(row.rule), GetUntil(row.rule);
    if start != "" && Less(untilDate[..8], start) then row.(deleted := true)
    else if |until| >= 8 && !Less(untilDate[..8], until[..8]) then row
    else row.(rule := ReplaceUntil(row.rule, untilDate))
  }

  function CutRows(rows: Rows, classId: nat, untilDate: string): Rows
    requires |untilDate| >= 8
  {
    map id | id in rows :: if OfClass(rows, id, classId) then CutRow(rows[id], untilDate) else rows[id]
  }

  function RescheduleSeries(t: Table, classId: nat, newSeries: Row, closedRule: string,
      accepts: string -> bool): Result<Table> {
    var untilDate := GetUntil(closedRule);
    if |untilDate| < 8 then Err
    else
      var reconciled := t.(rows := CutRows(t.rows, classId, untilDate));
      if newSeries.rule == "" || StartsAfterUntil(newSeries.rule) then Ok(reconciled)
      else if !Creatable(newSeries, accepts) then Err
      else Ok(Insert(reconciled, newSeries.(classId := classId)))
  }

  // ----- restoring a cancelled series

  /** The last DTSTART line and the last RRULE line of a rule text. */
  function LastLine(lines: seq<string>, prefix: string): string {
    if lines == [] then ""
    else if prefix <= lines[|lines| - 1] then lines[|lines| - 1]
    else LastLine(lines[..|lines| - 1], prefix)
  }

  function LastColon(s: string): (i: int)
    ensures -1 <= i < |s|
    ensures 0 <= i ==> s[i] == ':'
    ensures forall j | i < j < |s| :: s[j] != ':'
  {
    if s == "" then -1
    else if s[|s| - 1] == ':' then |s| - 1
    else LastColon(s[..|s| - 1])
  }

  function RestartLine(startLine: string, date: Date): string
    requires Valid(date)
  {
    var colon := LastColon(startLine);
    if 0 <= colon && colon + 9 <= |startLine| then startLine[..colon + 1] + Compact(date) + startLine[colon + 9..]
    else startLine
  }

  function WithLine(startLine: string, ruleLine: string): string {
    if startLine != "" then startLine + "\n" + ruleLine else ruleLine
  }

  const END_OF_DAY := "T235959Z"

  /** FormatDateForUntil of the day before; before the year 0 a year prints with a sign. */
  function UntilDayBefore(date: Date): string
    requires Valid(date)
  {
    if date == Date(0, 1, 1) then "-00011231" + END_OF_DAY
    else
      PreviousIsOneLess(date);
      Compact(Previous(date)) + END_OF_DAY
  }

  function ClosedRule(rule: string, restore: Date): string
    requires Valid(restore)
  {
    var lines := Split(rule, '\n');
    WithLine(LastLine(lines, DTSTART), ReplaceUntil(LastLine(lines, RRULE), UntilDayBefore(restore)))
  }

  function RestoredRule(rule: string, restore: Date): string
    requires Valid(restore)
  {
    var lines := Split(rule, '\n');
    WithLine(RestartLine(LastLine(lines, DTSTART), restore), LastLine(lines, RRULE))
  }

  /** The new row keeps the class, the room, the instructor and the duration of the cancelled one. */
  function UncancelSeries(t: Table, id: nat, restore: Date, accepts: string -> bool): Result<Table>
    requires Valid(restore)
  {
    if !LiveRow(t.rows, id) then Err
    else
      var row := t.rows[id];
      var closed := t.(rows := t.rows[id := row.(rule := ClosedRule(row.rule, restore))]);
      var restored := row.(rule := RestoredRule(row.rule, restore), cancelled := false);
      if Creatable(restored, accepts) then Ok(Insert(closed, restored)) else Err
  }

  class Store {
    var rows: Rows
    var nextId: nat

    ghost function Snapshot(): Table
      reads this
    {
      Table(rows, nextId)
    }

    ghost predicate Valid()
      reads this
    {
      Numbered(Snapshot())
    }

    method Reconcile(row: Row, untilDate: string) returns (cut: Row)
      requires |untilDate| >= 8
      ensures cut == CutRow(row, untilDate)
    {
      var cutMinusOne := untilDate[..8];
      var dtStart := GetDtStart(row.rule);
      if dtStart != "" && Less(cutMinusOne, dtStart) {
        return row.(deleted := true);
      }
      var existingUntil := GetUntilDateFromRule(row.rule);
      if |existingUntil| >= 8 && !Less(cutMinusOne, existingUntil[..8]) {
        return row;
      }
      var cappedRule := ReplaceOrAddUntilDate(row.rule, untilDate);
      return row.(rule := cappedRule);
    }

    method CutExisting(classId: nat, untilDate: string)
      requires Valid() && |untilDate| >= 8
      modifies this`rows
      ensures Valid() && rows == CutRows(old(rows), classId, untilDate)
    {
      var saved := rows;
      var existing := set id | id in rows && OfClass(rows, id, classId);
      var rest := existing;
      while rest != {}
        invariant rest <= existing && rows.Keys == saved.Keys
        invariant forall id | id in rows ::
                    rows[id] == if id in existing && id !in rest then CutRow(saved[id], untilDate) else saved[id]
        decreases rest
      {
        var id :| id in rest;
        rest := rest - {id};
        var cut := Reconcile(rows[id], untilDate);
        rows := rows[id := cut];
      }
      assert rows == CutRows(saved, classId, untilDate);
      assert forall id | id in rows :: rows[id].id == saved[id].id;
    }

    method Add(row: Row)
      requires Valid()
      modifies this
      ensures Valid() && Snapshot() == Insert(old(Snapshot()), row)
    {
      rows := rows[nextId := row.(id := nextId, deleted := false)];
      nextId := nextId + 1;
    }

    /** Hands every session on or after the cut to the new series. */
    method CreateRescheduleEventSeries(classId: nat, newSeries: Row, closedSeries: Row, accepts: string -> bool)
        returns (ok: bool)
      requires Valid()
      modifies this
      ensures Valid()
      ensures RescheduleSeries(old(Snapshot()), classId, newSeries, closedSeries.rule, accepts)
           == if ok then Ok(Snapshot()) else Err
      ensures !ok ==> Snapshot() == old(Snapshot())
    {
      var untilDate := GetUntilDateFromRule(closedSeries.rule);
      if |untilDate| < 8 {
        return false;
      }
      var saved := rows;
      CutExisting(classId, untilDate);
      if newSeries.rule != "" && !StartsAfterUntil(newSeries.rule) {
        if !Creatable(newSeries, accepts) {
          rows := saved;
          return false;
        }
        Add(newSeries.(classId := classId));
      }
      ok := true;
    }

    /** The last DTSTART line and the last RRULE line. */
    method FindLines(lines: seq<string>) returns (dtStartLine: string, rruleLine: string)
      ensures dtStartLine == LastLine(lines, DTSTART) && rruleLine == LastLine(lines, RRULE)
    {
      dtStartLine, rruleLine := "", "";
      for i := 0 to |lines|
        invariant dtStartLine == LastLine(lines[..i], DTSTART) && rruleLine == LastLine(lines[..i], RRULE)
      {
        assert lines[..i + 1][..i] == lines[..i];
        assert DTSTART <= lines[i] ==> !(RRULE <= lines[i]) by {
          assert DTSTART[0] == 'D' && RRULE[0] == 'R';
        }
        if DTSTART <= lines[i] {
          dtStartLine := lines[i];
        } else if RRULE <= lines[i] {
          rruleLine := lines[i];
        }
      }
      assert lines[..|lines|] == lines;
    }

    /** The rule closed the day before, and the rule restarted. */
    method SplitRule(rule: string, restore: Date) returns (closedRule: string, newSeriesRule: string)
      requires CivilDates.Valid(restore)
      ensures closedRule == ClosedRule(rule, restore) && newSeriesRule == RestoredRule(rule, restore)
    {
      var untilStr := UntilDayBefore(restore);
      var dtStartLine, rruleLine := FindLines(Split(rule, '\n'));
      var closedRrule := ReplaceOrAddUntilDate(rruleLine, untilStr);
      closedRule := WithLine(dtStartLine, closedRrule);
      newSeriesRule := WithLine(RestartLine(dtStartLine, restore), rruleLine);
    }

    /** Restores a cancelled series from `restoreDate` on; a date that does not parse is an error. */
    method UncancelEventSeries(eventId: nat, restoreDate: string, accepts: string -> bool) returns (ok: bool)
      requires Valid()
      modifies this
      ensures Valid()
      ensures !ok ==> Snapshot() == old(Snapshot())
      ensures match ParseIso(restoreDate)
              case None => !ok
              case Some(restore) =>
                UncancelSeries(old(Snapshot()), eventId, restore, accepts) == if ok then Ok(Snapshot()) else Err
    {
      if !LiveRow(rows, eventId) {
        return false;
      }
      var parsed := ParseIso(restoreDate);
      if parsed.None? {
        return false;
      }
      var restore := parsed.value;
      var cancelledSeries := rows[eventId];
      var closedRule, newSeriesRule := SplitRule(cancelledSeries.rule, restore);
      var newSeries := cancelledSeries.(rule := newSeriesRule, cancelled := false);
      if !Creatable(newSeries, accepts) {
        return false;
      }
      rows := rows[eventId := cancelledSeries.(rule := closedRule)];
      Add(newSeries);
      ok := true;
    }
  }
}
