// Recurrence rules as the class rows store them: a DTSTART line and an RRULE line, with the parts of
// the rule around an optional UNTIL. The text edits of RuleText are edits of these rules.
module SeriesRules {
  import opened Prelude
  import opened Text
  import opened CivilDates
  import opened RuleText
  import opened Schedule

  /** UNTIL=<date><clock>; only its date matters, which the rule reader extends to the end of the day. */
  datatype Until = Until(date: Date, clock: string)

  datatype SeriesRule = SeriesRule(
    zone: Option<string>, start: Date, clock: string,
    before: seq<string>, until: Option<Until>, after: seq<string>)

  const RRULE := "RRULE:"

  predicate Plain(s: string) {
    Free(s, ';') && Free(s, ':') && Free(s, '\n')
  }

  predicate Printable(r: SeriesRule) {
    && (r.zone.Some? ==> Plain(r.zone.value))
    && Valid(r.start) && Plain(r.clock)
    && r.before != []
    && AllFree(r.before + r.after, ';') && AllFree(r.before + r.after, '\n')
    && (forall p | p in r.before + r.after :: !IsUntil(p))
    && (r.until.Some? ==> Valid(r.until.value.date) && Plain(r.until.value.clock))
  }

  function UntilText(u: Until): string
    requires Valid(u.date)
  {
    Compact(u.date) + u.clock
  }

  function Parameters(r: SeriesRule): string {
    match r.zone
    case Some(zone) => ";TZID=" + zone
    case None => ""
  }

  function StartLine(r: SeriesRule): string
    requires Valid(r.start)
  {
    DTSTART + Parameters(r) + ":" + Compact(r.start) + r.clock
  }

  function Parts(r: SeriesRule): seq<string>
    requires Printable(r)
  {
    r.before + (if r.until.Some? then [UNTIL + UntilText(r.until.value)] else []) + r.after
  }

  function RuleLine(r: SeriesRule): string
    requires Printable(r)
  {
    RRULE + Join(Parts(r), ';')
  }

  function Print(r: SeriesRule): string
    requires Printable(r)
  {
    StartLine(r) + "\n" + RuleLine(r)
  }

  /** The rule with another UNTIL: in place of the old one, or at the end. */
  function WithUntil(r: SeriesRule, u: Until): SeriesRule {
    if r.until.Some? then r.(until := Some(u))
    else r.(before := r.before + r.after, until := Some(u), after := [])
  }

  /** The rule without its UNTIL. */
  function Bare(r: SeriesRule): SeriesRule {
    r.(before := r.before + r.after, until := None, after := [])
  }

  /** The days of a rule, given what its DTSTART and its parts other than UNTIL expand to. */
  ghost predicate Covers(expand: (SeriesRule, int) -> bool, r: SeriesRule, day: int) {
    expand(Bare(r), day) && (r.until.Some? ==> day <= DayNumber(r.until.value.date))
  }

  lemma CompactFree(date: Date, c: char)
    requires Valid(date) && !IsDigit(c)
    ensures Free(Compact(date), c)
  {
    CompactIsDigits(date);
  }

  lemma PartsFree(r: SeriesRule)
    requires Printable(r)
    ensures AllFree(Parts(r), ';') && AllFree(Parts(r), '\n')
  {
    if r.until.Some? {
      CompactFree(r.until.value.date, ';');
      CompactFree(r.until.value.date, '\n');
    }
    forall i | 0 <= i < |Parts(r)|
      ensures Free(Parts(r)[i], ';') && Free(Parts(r)[i], '\n')
    {
      var k := if i < |r.before| then i else i - |Parts(r)| + |r.before + r.after|;
      assert i < |r.before| || |r.before| <= k ==> Parts(r)[i] == (r.before + r.after)[k];
    }
  }

  // ----- the text split at ';'

  /** What comes before the parts of the rule proper, the first of which it swallows. */
  function Lead(r: SeriesRule): seq<string>
    requires Printable(r)
  {
    match r.zone
    case Some(zone) => [DTSTART, "TZID=" + zone + Middle(r) + r.before[0]]
    case None => [DTSTART + Middle(r) + r.before[0]]
  }

  lemma SplitParts(head: string, r: SeriesRule)
    requires Printable(r) && Free(head, ';')
    ensures Split(head + Join(Parts(r), ';'), ';') == [head + r.before[0]] + Parts(r)[1..]
  {
    PartsFree(r);
    SplitJoin(Parts(r), ';');
    SplitHead(head, Join(Parts(r), ';'), ';');
  }

  lemma NotUntil(s: string)
    requires s != "" && s[0] != 'U'
    ensures !IsUntil(s)
  {
    assert UNTIL[0] == 'U';
  }

  lemma LeadNotUntil(r: SeriesRule)
    requires Printable(r)
    ensures forall i | 0 <= i < |Lead(r)| :: !IsUntil(Lead(r)[i])
  {
    forall i | 0 <= i < |Lead(r)|
      ensures !IsUntil(Lead(r)[i])
    {
      NotUntil(Lead(r)[i]);
    }
  }

  function Middle(r: SeriesRule): string
    requires Valid(r.start)
  {
    ":" + Compact(r.start) + r.clock + "\n" + RRULE
  }

  lemma MiddleFree(r: SeriesRule)
    requires Printable(r)
    ensures Free(Middle(r), ';')
  {
    CompactFree(r.start, ';');
  }

  lemma RegroupRule(a: string, b: string, c: string, d: string, e: string, f: string, g: string, h: string)
    ensures a + b + c + d + e + f + (g + h) == a + (b + ((c + d + e + f + g) + h))
  {
  }

  lemma PrintShape(r: SeriesRule)
    requires Printable(r)
    ensures Print(r) == DTSTART + (Parameters(r) + (Middle(r) + Join(Parts(r), ';')))
  {
    RegroupRule(DTSTART, Parameters(r), ":", Compact(r.start), r.clock, "\n", RRULE, Join(Parts(r), ';'));
  }

  lemma SplitZoned(zone: string, middle: string, joined: string)
    requires Free(zone, ';')
    ensures DTSTART + ((";TZID=" + zone) + (middle + joined)) == DTSTART + ";" + ("TZID=" + zone + middle + joined)
  {
    assert ";TZID=" == ";" + "TZID=";
  }

  lemma SplitPrint(r: SeriesRule)
    requires Printable(r)
    ensures Split(Print(r), ';') == Lead(r) + Parts(r)[1..]
  {
    MiddleFree(r);
    PrintShape(r);
    var joined := Join(Parts(r), ';');
    match r.zone
    case Some(zone) =>
      var head := "TZID=" + zone + Middle(r);
      assert Free(head, ';');
      SplitParts(head, r);
      SplitZoned(zone, Middle(r), joined);
      SplitCons(DTSTART, head + joined, ';');
      assert Lead(r) == [DTSTART] + [head + r.before[0]];
    case None =>
      var head := DTSTART + Middle(r);
      assert Free(head, ';');
      SplitParts(head, r);
      assert Print(r) == DTSTART + ("" + (Middle(r) + joined)) == head + joined;
      assert Lead(r) == [head + r.before[0]];
  }

  /** The only UNTIL among the split parts is the rule's own. */
  lemma UntilPosition(lead: seq<string>, r: SeriesRule, j: nat)
    requires Printable(r) && forall i | 0 <= i < |lead| :: !IsUntil(lead[i])
    requires j < |lead + Parts(r)[1..]|
    ensures IsUntil((lead + Parts(r)[1..])[j]) <==> r.until.Some? && j == |lead| + |r.before| - 1
  {
    var parts := lead + Parts(r)[1..];
    if |lead| <= j {
      var k := j - |lead| + 1;
      assert parts[j] == Parts(r)[k];
      if !(r.until.Some? && k == |r.before|) {
        assert Parts(r)[k] in r.before || Parts(r)[k] in r.after;
        assert Parts(r)[k] in r.before + r.after;
      }
    }
  }

  lemma UntilIndexOfParts(lead: seq<string>, r: SeriesRule)
    requires Printable(r) && forall i | 0 <= i < |lead| :: !IsUntil(lead[i])
    ensures UntilIndex(lead + Parts(r)[1..])
         == if r.until.Some? then |lead| + |r.before| - 1 else |lead + Parts(r)[1..]|
  {
    var parts := lead + Parts(r)[1..];
    var i := UntilIndex(parts);
    if i < |parts| {
      UntilPosition(lead, r, i);
    }
    if r.until.Some? {
      UntilPosition(lead, r, |lead| + |r.before| - 1);
    }
  }

  lemma UpdateMiddle(x: seq<string>, u: string, y: seq<string>, v: string)
    ensures (x + [u] + y)[|x| := v] == x + [v] + y
  {
  }

  /** The parts after the first, around the UNTIL. */
  lemma PartsShape(r: SeriesRule)
    requires Printable(r)
    ensures Parts(r)[1..]
        == r.before[1..] + (if r.until.Some? then [UNTIL + UntilText(r.until.value)] else []) + r.after
  {
  }

  lemma SetUntilParts(lead: seq<string>, r: SeriesRule, u: Until)
    requires Printable(r) && Valid(u.date)
    requires forall i | 0 <= i < |lead| :: !IsUntil(lead[i])
    requires Printable(WithUntil(r, u))
    ensures SetUntil(lead + Parts(r)[1..], UntilText(u)) == lead + Parts(WithUntil(r, u))[1..]
  {
    UntilIndexOfParts(lead, r);
    PartsShape(r);
    PartsShape(WithUntil(r, u));
    var text := UNTIL + UntilText(u);
    var x, y := lead + r.before[1..], r.after;
    if r.until.Some? {
      var replaced := UNTIL + UntilText(r.until.value);
      assert lead + Parts(r)[1..] == x + [replaced] + y;
      UpdateMiddle(x, replaced, y, text);
      assert lead + Parts(WithUntil(r, u))[1..] == x + [text] + y;
    } else {
      assert lead + Parts(r)[1..] == x + y;
      assert (r.before + r.after)[1..] == r.before[1..] + r.after;
      assert lead + Parts(WithUntil(r, u))[1..] == x + y + [text];
    }
  }

  lemma WithUntilPrintable(r: SeriesRule, u: Until)
    requires Printable(r) && Valid(u.date) && Plain(u.clock)
    ensures Printable(WithUntil(r, u))
    ensures Bare(WithUntil(r, u)) == Bare(r)
  {
    assert (r.before + r.after) + [] == r.before + r.after;
  }

  /** Replacing the UNTIL of a printed rule prints the rule with that UNTIL ... */
  lemma ReplaceUntilPrinted(r: SeriesRule, u: Until)
    requires Printable(r) && Valid(u.date) && Plain(u.clock)
    ensures Printable(WithUntil(r, u))
    ensures ReplaceUntil(Print(r), UntilText(u)) == Print(WithUntil(r, u))
  {
    WithUntilPrintable(r, u);
    var r' := WithUntil(r, u);
    SplitPrint(r);
    SplitPrint(r');
    assert Lead(r') == Lead(r);
    LeadNotUntil(r);
    SetUntilParts(Lead(r), r, u);
    JoinSplit(Print(r'), ';');
  }

  /** ... and so it does on the RRULE line alone. */
  lemma ReplaceUntilRuleLine(r: SeriesRule, u: Until)
    requires Printable(r) && Valid(u.date) && Plain(u.clock)
    ensures Printable(WithUntil(r, u))
    ensures ReplaceUntil(RuleLine(r), UntilText(u)) == RuleLine(WithUntil(r, u))
  {
    WithUntilPrintable(r, u);
    var r' := WithUntil(r, u);
    SplitParts(RRULE, r);
    SplitParts(RRULE, r');
    NotUntil(RRULE + r.before[0]);
    SetUntilParts([RRULE + r.before[0]], r, u);
    JoinSplit(RuleLine(r'), ';');
  }

  lemma GetUntilPrinted(r: SeriesRule)
    requires Printable(r)
    ensures GetUntil(Print(r)) == if r.until.Some? then UntilText(r.until.value) else ""
  {
    SplitPrint(r);
    LeadNotUntil(r);
    UntilIndexOfParts(Lead(r), r);
    if r.until.Some? {
      assert (Lead(r) + Parts(r)[1..])[|Lead(r)| + |r.before| - 1] == UNTIL + UntilText(r.until.value);
    }
  }

  lemma GetDtStartPrinted(r: SeriesRule)
    requires Printable(r)
    ensures GetDtStart(Print(r)) == Compact(r.start)
  {
    var rest := r.clock + "\n" + RuleLine(r);
    assert Print(r) == DTSTART + Parameters(r) + ":" + Compact(r.start) + rest;
    DtStartAtFront(Parameters(r), r.start, rest);
  }

  // ----- weekly rules

  const DAY_CODES: seq<string> := ["SU", "MO", "TU", "WE", "TH", "FR", "SA"]

  /** The BYDAY part names the weekday. */
  predicate Named(parts: seq<string>, weekday: int)
    requires 0 <= weekday < 7
  {
    exists p | p in parts :: "BYDAY=" <= p && DAY_CODES[weekday] in Split(p[6..], ',')
  }

  /** FREQ=WEEKLY with BYDAY, INTERVAL 1 and no COUNT. */
  predicate IsWeekly(r: SeriesRule) {
    && (forall p | p in r.before + r.after ::
          p == "FREQ=WEEKLY" || p == "INTERVAL=1" || "BYDAY=" <= p || "WKST=" <= p)
    && "FREQ=WEEKLY" in r.before + r.after
    && exists p | p in r.before + r.after :: "BYDAY=" <= p
  }

  /** The days of a weekly rule without its UNTIL: its weekdays from DTSTART on. */
  predicate WeeklyDays(r: SeriesRule, day: int) {
    DayNumber(r.start) <= day && Named(r.before + r.after, Weekday(day))
  }
}
