// Editing the UNTIL part of a stored recurrence rule, and reading dates out of it.
module RuleText {
  import opened Prelude
  import opened Text
  import opened CivilDates

  const UNTIL := "UNTIL="

  predicate IsUntil(part: string) {
    UNTIL <= part
  }

  /** Index of the first UNTIL part, or the number of parts when there is none. */
  function UntilIndex(parts: seq<string>): (i: nat)
    ensures i <= |parts|
    ensures i < |parts| ==> IsUntil(parts[i])
    ensures forall j | 0 <= j < i :: !IsUntil(parts[j])
  {
    if parts == [] then 0
    else if IsUntil(parts[0]) then 0
    else UntilIndex(parts[1..]) + 1
  }

  function GetUntil(rule: string): string {
    var parts := Split(rule, ';');
    var i := UntilIndex(parts);
    if i < |parts| then parts[i][|UNTIL|..] else ""
  }

  function SetUntil(parts: seq<string>, date: string): seq<string> {
    var i := UntilIndex(parts);
    if i < |parts| then parts[i := UNTIL + date] else parts + [UNTIL + date]
  }

  function ReplaceUntil(rule: string, date: string): string {
    Join(SetUntil(Split(rule, ';'), date), ';')
  }

  method GetUntilDateFromRule(rule: string) returns (until: string)
    ensures until == GetUntil(rule)
  {
    var parts := Split(rule, ';');
    for i := 0 to |parts|
      invariant forall j | 0 <= j < i :: !IsUntil(parts[j])
    {
      if IsUntil(parts[i]) {
        return parts[i][|UNTIL|..];
      }
    }
    return "";
  }

  method ReplaceOrAddUntilDate(rule: string, untilDate: string) returns (replaced: string)
    ensures replaced == ReplaceUntil(rule, untilDate)
  {
    var parts := Split(rule, ';');
    var before := parts;
    var untilExists := false;
    for i := 0 to |parts|
      invariant parts == before && !untilExists
      invariant forall j | 0 <= j < i :: !IsUntil(before[j])
    {
      if IsUntil(parts[i]) {
        parts := parts[i := UNTIL + untilDate];
        untilExists := true;
        break;
      }
    }
    if !untilExists {
      parts := parts + [UNTIL + untilDate];
    }
    replaced := Join(parts, ';');
  }

  // ----- round trips

  lemma SetUntilFree(parts: seq<string>, date: string)
    requires AllFree(parts, ';') && Free(date, ';')
    ensures AllFree(SetUntil(parts, date), ';')
  {
    assert Free(UNTIL + date, ';');
  }

  lemma SetUntilIndex(parts: seq<string>, date: string)
    ensures UntilIndex(SetUntil(parts, date)) == UntilIndex(parts)
  {
    var written := SetUntil(parts, date);
    var i := UntilIndex(parts);
    assert IsUntil(written[i]);
    assert forall j | 0 <= j < i :: written[j] == parts[j];
    assert forall j | 0 <= j < i :: !IsUntil(written[j]);
  }

  /** The text that was written is split into the old parts with the first UNTIL replaced or added. */
  lemma SplitReplaced(rule: string, date: string)
    requires Free(date, ';')
    ensures Split(ReplaceUntil(rule, date), ';') == SetUntil(Split(rule, ';'), date)
  {
    SplitFree(rule, ';');
    SetUntilFree(Split(rule, ';'), date);
    SplitJoin(SetUntil(Split(rule, ';'), date), ';');
  }

  /** Reading back gives the date that was written, exactly when the date has no ';'. */
  lemma UntilRoundTrip(rule: string, date: string)
    ensures GetUntil(ReplaceUntil(rule, date)) == date <==> Free(date, ';')
  {
    if Free(date, ';') {
      SplitReplaced(rule, date);
      SetUntilIndex(Split(rule, ';'), date);
    } else {
      GetUntilFree(ReplaceUntil(rule, date));
    }
  }

  lemma GetUntilFree(rule: string)
    ensures Free(GetUntil(rule), ';')
  {
    SplitFree(rule, ';');
  }

  lemma SecondReplacementWins(rule: string, first: string, second: string)
    requires Free(first, ';')
    ensures ReplaceUntil(ReplaceUntil(rule, first), second) == ReplaceUntil(rule, second)
  {
    SplitReplaced(rule, first);
    var parts := Split(rule, ';');
    SetUntilIndex(parts, first);
    assert SetUntil(SetUntil(parts, first), second) == SetUntil(parts, second);
  }

  function WithoutFirstUntil(parts: seq<string>): seq<string> {
    var i := UntilIndex(parts);
    if i < |parts| then parts[..i] + parts[i + 1..] else parts
  }

  /** Everything but the first UNTIL keeps its text and its order. */
  lemma OtherPartsUnchanged(rule: string, date: string)
    requires Free(date, ';')
    ensures WithoutFirstUntil(Split(ReplaceUntil(rule, date), ';')) == WithoutFirstUntil(Split(rule, ';'))
  {
    SplitReplaced(rule, date);
    SetUntilIndex(Split(rule, ';'), date);
  }

  // ----- DTSTART

  const DTSTART := "DTSTART"

  /** The first ':' or newline of `s`, or its end. */
  function HeaderEnd(s: string): (i: nat)
    ensures i <= |s|
    ensures i < |s| ==> s[i] == ':' || s[i] == '\n'
    ensures forall j | 0 <= j < i :: s[j] != ':' && s[j] != '\n'
  {
    if s == "" || s[0] == ':' || s[0] == '\n' then 0 else HeaderEnd(s[1..]) + 1
  }

  /** Matching the expression DTSTART[^\n:]*:(\d{8}) at the start of `s`. */
  function MatchDtStart(s: string): Option<string> {
    if !(DTSTART <= s) then None
    else
      var after := s[|DTSTART|..];
      var colon := HeaderEnd(after);
      if colon + 9 <= |after| && after[colon] == ':'
         && forall i | colon < i < colon + 9 :: IsDigit(after[i])
      then Some(after[colon + 1..colon + 9])
      else None
  }

  /** The date of the leftmost match, or "" when there is none. */
  function GetDtStart(rule: string): string {
    match MatchDtStart(rule)
    case Some(date) => date
    case None => if rule == "" then "" else GetDtStart(rule[1..])
  }

  /** DTSTART falls after UNTIL: a row without any occurrence. */
  predicate StartsAfterUntil(rule: string) {
    var start, until := GetDtStart(rule), GetUntil(rule);
    start != "" && |until| >= 8 && Less(until[..8], start)
  }

  lemma DtStartAtFront(parameters: string, date: Date, rest: string)
    requires Valid(date) && Free(parameters, ':') && Free(parameters, '\n')
    ensures GetDtStart(DTSTART + parameters + ":" + Compact(date) + rest) == Compact(date)
  {
    var s := DTSTART + parameters + ":" + Compact(date) + rest;
    var after := s[|DTSTART|..];
    assert after == parameters + ":" + Compact(date) + rest;
    assert after[|parameters|] == ':';
    assert HeaderEnd(after) == |parameters|;
    CompactIsDigits(date);
    assert after[|parameters| + 1..|parameters| + 9] == Compact(date);
    forall i | |parameters| < i < |parameters| + 9
      ensures IsDigit(after[i])
    {
      assert after[i] == Compact(date)[i - |parameters| - 1];
    }
    assert MatchDtStart(s) == Some(Compact(date));
  }
}
