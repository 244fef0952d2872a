// Attendance: streaks of absences, the minutes of a record, and the rate they add up to.
module Attendance {
  import opened Prelude
  import opened Text
  import opened ClockTimes

  datatype Status = Unset | Present | Partial | AbsentExcused | AbsentUnexcused | Other(name: string)

  predicate Attended(status: Status) {
    status == Present || status == Partial
  }

  predicate Absent(status: Status) {
    status == AbsentExcused || status == AbsentUnexcused
  }

  // ----- streaks

  datatype Row = Row(userId: nat, date: string, status: Status)

  /** As the query orders them: the rows of a user are next to each other. */
  ghost predicate Grouped(rows: seq<Row>) {
    forall i, j, k | 0 <= i < j < k < |rows| && rows[i].userId == rows[k].userId :: rows[j].userId == rows[i].userId
  }

  function OfUser(user: nat): Row -> bool {
    (r: Row) => r.userId == user
  }

  /** The absent rows before the first one attended. */
  function LeadingAbsences(rows: seq<Row>): nat {
    if rows == [] || Attended(rows[0].status) then 0
    else (if Absent(rows[0].status) then 1 else 0) + LeadingAbsences(rows[1..])
  }

  predicate IsAbsentRow(r: Row) {
    Absent(r.status)
  }

  /** The absent rows before position `k`, the first of an attended row or the end. */
  lemma {:induction false} LeadingAbsencesExactly(rows: seq<Row>, k: nat)
    requires k <= |rows| && (k < |rows| ==> Attended(rows[k].status))
    requires forall i | 0 <= i < k :: !Attended(rows[i].status)
    ensures LeadingAbsences(rows) == |Filter(rows[..k], IsAbsentRow)|
  {
    if k > 0 {
      LeadingAbsencesExactly(rows[1..], k - 1);
      assert rows[..k][1..] == rows[1..][..k - 1];
    }
  }

  predicate AnyAttended(rows: seq<Row>) {
    exists r | r in rows :: Attended(r.status)
  }

  lemma LeadingAbsencesNext(rows: seq<Row>, r: Row)
    ensures LeadingAbsences(rows + [r])
         == LeadingAbsences(rows) + if !AnyAttended(rows) && Absent(r.status) then 1 else 0
  {
    if rows == [] {
      assert [r][1..] == [];
    } else {
      assert (rows + [r])[1..] == rows[1..] + [r];
      assert rows == [rows[0]] + rows[1..];
      if !Attended(rows[0].status) {
        LeadingAbsencesNext(rows[1..], r);
      }
    }
  }

  lemma GroupedPrefix(rows: seq<Row>, i: nat)
    requires Grouped(rows) && i <= |rows|
    ensures Grouped(rows[..i])
  {
  }

  lemma NewUserHasNoRows(rows: seq<Row>, r: Row)
    requires Grouped(rows + [r]) && (rows == [] || r.userId != LastUser(rows))
    ensures Streak(rows, r.userId) == 0 && Open(rows, r.userId)
  {
    var all := rows + [r];
    forall j | 0 <= j < |rows|
      ensures rows[j].userId != r.userId
    {
      assert all[j] == rows[j] && all[|rows|] == r && all[|rows| - 1] == rows[|rows| - 1];
    }
    FilterNone(rows, OfUser(r.userId));
  }

  lemma NextRow(records: seq<Row>, i: nat)
    requires Grouped(records) && i < |records| && records[i].userId != 0
    ensures records[..i + 1] == records[..i] + [records[i]]
    ensures records[i].userId != LastUser(records[..i]) ==>
              Streak(records[..i], records[i].userId) == 0 && Open(records[..i], records[i].userId)
  {
    assert records[..i + 1] == records[..i] + [records[i]];
    GroupedPrefix(records, i + 1);
    if records[i].userId != LastUser(records[..i]) {
      NewUserHasNoRows(records[..i], records[i]);
    }
  }

  function Streak(rows: seq<Row>, user: nat): nat {
    LeadingAbsences(Filter(rows, OfUser(user)))
  }

  /** No row of the user was attended yet. */
  predicate Open(rows: seq<Row>, user: nat) {
    !AnyAttended(Filter(rows, OfUser(user)))
  }

  function Counted(byUser: map<nat, nat>, user: nat): nat {
    if user in byUser then byUser[user] else 0
  }

  ghost predicate AllCounted(rows: seq<Row>, byUser: map<nat, nat>) {
    forall u: nat :: Counted(byUser, u) == Streak(rows, u)
  }

  function LastUser(rows: seq<Row>): nat {
    if rows == [] then 0 else rows[|rows| - 1].userId
  }

  lemma {:induction false} StreakNext(rows: seq<Row>, r: Row, user: nat)
    ensures Streak(rows + [r], user)
         == Streak(rows, user) + if r.userId == user && Open(rows, user) && Absent(r.status) then 1 else 0
    ensures r.userId == user ==> (Open(rows + [r], user) <==> Open(rows, user) && !Attended(r.status))
  {
    var mine := Filter(rows, OfUser(user));
    FilterAdd(rows, r, OfUser(user));
    if r.userId == user {
      LeadingAbsencesNext(mine, r);
      AnyAttendedNext(mine, r);
    } else {
      assert mine + [] == mine;
    }
  }

  /** A row moves only its own user's count. */
  lemma {:induction false} CountMoves(rows: seq<Row>, r: Row, byUser: map<nat, nat>, count: nat)
    requires AllCounted(rows, byUser) && count == Streak(rows + [r], r.userId)
    ensures AllCounted(rows + [r], byUser[r.userId := count])
  {
    forall u: nat
      ensures Counted(byUser[r.userId := count], u) == Streak(rows + [r], u)
    {
      StreakNext(rows, r, u);
      assert Counted(byUser, u) == Streak(rows, u);
    }
  }

  method CountRow(ghost rows: seq<Row>, r: Row, byUser: map<nat, nat>, currentUser: nat, counting: bool)
    returns (byUser': map<nat, nat>, currentUser': nat, counting': bool)
    requires AllCounted(rows, byUser) && currentUser == LastUser(rows)
    requires rows != [] ==> currentUser in byUser && (counting <==> Open(rows, currentUser))
    requires r.userId != 0 && (r.userId != currentUser ==> Streak(rows, r.userId) == 0 && Open(rows, r.userId))
    ensures AllCounted(rows + [r], byUser') && currentUser' == LastUser(rows + [r])
    ensures currentUser' in byUser' && (counting' <==> Open(rows + [r], currentUser'))
  {
    StreakNext(rows, r, r.userId);
    byUser', currentUser', counting' := byUser, currentUser, counting;
    if r.userId != currentUser {
      currentUser', counting' := r.userId, true;
      byUser' := byUser[r.userId := 0];
    }
    assert Counted(byUser, r.userId) == Streak(rows, r.userId);
    assert byUser'[r.userId] == Streak(rows, r.userId) && (counting' <==> Open(rows, r.userId));
    if counting' {
      if Attended(r.status) {
        counting' := false;
      } else if Absent(r.status) {
        byUser' := byUser'[currentUser' := byUser'[currentUser'] + 1];
      }
    }
    CountMoves(rows, r, byUser, byUser'[r.userId]);
    assert byUser' == byUser[r.userId := byUser'[r.userId]];
  }

  lemma AnyAttendedNext(rows: seq<Row>, r: Row)
    ensures AnyAttended(rows + [r]) <==> AnyAttended(rows) || Attended(r.status)
  {
    assert r in rows + [r];
    assert forall q | q in rows :: q in rows + [r];
  }

  /** One pass over all rows counts every user's current streak; users without rows have none. */
  method ComputeConsecutiveAbsences(records: seq<Row>, flagged: seq<nat>) returns (streaks: seq<nat>)
    requires Grouped(records) && forall i | 0 <= i < |records| :: records[i].userId != 0
    ensures |streaks| == |flagged|
    ensures forall k | 0 <= k < |flagged| :: streaks[k] == LeadingAbsences(Filter(records, OfUser(flagged[k])))
  {
    var byUser := CountAll(records);
    streaks := [];
    for k := 0 to |flagged|
      invariant |streaks| == k
      invariant forall j | 0 <= j < k :: streaks[j] == Streak(records, flagged[j])
    {
      assert Counted(byUser, flagged[k]) == Streak(records, flagged[k]);
      streaks := streaks + [if flagged[k] in byUser then byUser[flagged[k]] else 0];
    }
    assert forall k | 0 <= k < |flagged| ::
        Streak(records, flagged[k]) == LeadingAbsences(Filter(records, OfUser(flagged[k])));
  }

  method CountAll(records: seq<Row>) returns (byUser: map<nat, nat>)
    requires Grouped(records) && forall i | 0 <= i < |records| :: records[i].userId != 0
    ensures AllCounted(records, byUser)
  {
    byUser := map[];
    var currentUser, counting := 0, false;
    ghost var done: seq<Row> := [];
    for i := 0 to |records|
      invariant done == records[..i]
      invariant AllCounted(done, byUser) && currentUser == LastUser(done)
      invariant done != [] ==> currentUser in byUser && (counting <==> Open(done, currentUser))
    {
      NextRow(records, i);
      byUser, currentUser, counting := CountRow(done, records[i], byUser, currentUser, counting);
      done := done + [records[i]];
    }
    assert records[..|records|] == records;
  }

  // ----- minutes

  function Normalize(val: Option<string>): string {
    if val.Some? then TrimSpace(val.value) else ""
  }

  /** The minutes of an accepted record never exceed its schedule; partial means some minutes, and
      present means all of them. */
  predicate Accepted(status: Status, minutes: Option<int>, scheduled: Option<int>) {
    && scheduled.Some?
    && (minutes.Some? ==> 0 <= minutes.value <= scheduled.value)
    && (status == Partial ==> minutes.Some? && 0 < minutes.value)
    && (status == Present && minutes.Some? ==> minutes.value == scheduled.value)
  }

  class Record {
    var status: Status
    var checkInAt: Option<string>
    var checkOutAt: Option<string>
    var minutesAttended: Option<int>
    var scheduledMinutes: Option<int>

    constructor (status: Status, checkInAt: Option<string>, checkOutAt: Option<string>)
      ensures this.status == status && this.checkInAt == checkInAt && this.checkOutAt == checkOutAt
    {
      this.status, this.checkInAt, this.checkOutAt := status, checkInAt, checkOutAt;
      minutesAttended, scheduledMinutes := None, None;
    }

    /** Fills in minutes and status from the clock times; a refused record is not stored. */
    method ApplyTimeTracking(scheduled: nat) returns (ok: bool)
      modifies this
      ensures ok ==> Accepted(status, minutesAttended, scheduledMinutes)
      ensures ok && old(status) == Unset ==>
                status == if minutesAttended.None?
                  then (if old(Normalize(checkInAt)) != "" then Present else AbsentUnexcused)
                          else if minutesAttended.value < scheduledMinutes.value then Partial else Present
      ensures ok && old(status) == Present ==>
                status == if minutesAttended.Some? && 0 < minutesAttended.value < scheduledMinutes.value then Partial
                          else Present
      ensures ok && old(status) != Unset && old(status) != Present ==> status == old(status)
      ensures var (checkIn, checkOut) := (old(Normalize(checkInAt)), old(Normalize(checkOutAt)));
              && (checkIn == "" && checkOut != "" ==> !ok)
              && (checkIn != "" && checkOut != "" ==>
                    (ok <==> ParseClock(checkIn).Some? && ParseClock(checkOut).Some?
                             && ParseClock(checkIn).value < ParseClock(checkOut).value)
                    && (ok ==> var worked := ParseClock(checkOut).value - ParseClock(checkIn).value;
                               && scheduledMinutes == Some(if scheduled == 0 then worked else scheduled)
                               && minutesAttended
                                   == Some(if scheduled != 0 && worked > scheduled then scheduled else worked)
                               && checkInAt == Some(checkIn) && checkOutAt == Some(checkOut)))
              && (checkIn != "" && checkOut == "" ==>
                    (ok <==> old(status) != Partial)
                      && (ok ==> minutesAttended == None && scheduledMinutes == Some(scheduled as int)))
              && (checkIn == "" && checkOut == "" ==>
                    (ok <==> old(status) != Partial || scheduled > 0)
                    && (ok ==> scheduledMinutes == Some(scheduled as int)
                               && minutesAttended == if Attended(old(status)) then Some(scheduled as int) else None))
    {
      var checkIn, checkOut := Normalize(checkInAt), Normalize(checkOutAt);
      var total: int := scheduled;
      var attended: Option<int> := None;
      if checkIn == "" && checkOut == "" {
        if Attended(status) {
          attended := Some(total);
        }
      } else if checkIn != "" && checkOut == "" {
        checkInAt := Some(checkIn);
      } else {
        if checkIn == "" || checkOut == "" {
          return false;
        }
        var parsedIn, parsedOut := ParseClock(checkIn), ParseClock(checkOut);
        if parsedIn.None? || parsedOut.None? {
          return false;
        }
        var diff := parsedOut.value - parsedIn.value;
        if diff <= 0 {
          return false;
        }
        attended := Some(diff);
        if total <= 0 {
          total := diff;
        }
        if diff > total {
          attended := Some(total);
        }
        checkInAt, checkOutAt := Some(checkIn), Some(checkOut);
      }
      minutesAttended, scheduledMinutes := attended, Some(total);
      if attended.None? {
        if status == Unset {
          status := if checkIn != "" then Present else AbsentUnexcused;
        }
        return status != Partial;
      }
      var minutes := attended.value;
      if status == Unset {
        // Without a status there are minutes only from two clock times, so never zero minutes.
        assert minutes > 0;
        status := if total > 0 && minutes < total then Partial else Present;
      }
      if status == Present && total > 0 && minutes > 0 && minutes < total {
        status := Partial;
      }
      ok := !(status == Partial && minutes == 0);
    }
  }

  // ----- the rate of a class

  datatype Stored = Stored(status: Status, minutes: Option<int>, scheduled: Option<int>)

  /** COALESCE(a, b, 0). */
  function Coalesce(a: Option<int>, b: Option<int>): int {
    OrElse(OrElse(a, b), Some(0)).value
  }

  /** COALESCE(minutes, scheduled, 0) / NULLIF(COALESCE(scheduled, minutes, 0), 0). */
  function Ratio(r: Stored): Option<real> {
    var whole := Coalesce(r.scheduled, r.minutes);
    if whole == 0 then None else Some(Coalesce(r.minutes, r.scheduled) as real / whole as real)
  }

  /** LEAST ignores a NULL. */
  function Least(ratio: Option<real>): real {
    if ratio.Some? && ratio.value < 1.0 then ratio.value else 1.0
  }

  function Credit(r: Stored): real {
    if r.status == Present then 1.0 else if r.status == Partial then Least(Ratio(r)) else 0.0
  }

  function Credits(records: seq<Stored>): real {
    if records == [] then 0.0 else Credit(records[0]) + Credits(records[1..])
  }

  function CumulativeRate(records: seq<Stored>): real {
    if records == [] then 0.0 else Credits(records) * 100.0 / |records| as real
  }

  predicate AllAccepted(records: seq<Stored>) {
    forall r | r in records :: Accepted(r.status, r.minutes, r.scheduled)
  }

  lemma RatioBound(m: int, s: int)
    requires 0 < m <= s
    ensures 0.0 < m as real / s as real <= 1.0
  {
    assert m as real <= s as real;
  }

  /** Over accepted partial records the clamp to 1 never acts. */
  lemma ClampIsIdle(r: Stored)
    requires Accepted(r.status, r.minutes, r.scheduled) && r.status == Partial
    ensures Ratio(r).Some? && 0.0 < Ratio(r).value <= 1.0 && Least(Ratio(r)) == Ratio(r).value
  {
    RatioBound(r.minutes.value, r.scheduled.value);
  }

  /** The share of a session that a record stands for: all, the minutes attended, or nothing. */
  ghost function Shares(records: seq<Stored>): real
    requires AllAccepted(records)
  {
    if records == [] then 0.0
    else
      Shares(records[..|records| - 1])
      + match records[|records| - 1].status
        case Present => 1.0
        case Partial => records[|records| - 1].minutes.value as real / records[|records| - 1].scheduled.value as real
        case _ => 0.0
  }

  lemma {:induction false} CreditsAppend(records: seq<Stored>, r: Stored)
    ensures Credits(records + [r]) == Credits(records) + Credit(r)
  {
    if records == [] {
      assert [r][1..] == [];
    } else {
      CreditsAppend(records[1..], r);
      assert (records + [r])[1..] == records[1..] + [r];
    }
  }

  lemma {:induction false} CreditsAreShares(records: seq<Stored>)
    requires AllAccepted(records)
    ensures Credits(records) == Shares(records)
  {
    if records != [] {
      var init, r := records[..|records| - 1], records[|records| - 1];
      assert records == init + [r];
      CreditsAreShares(init);
      CreditsAppend(init, r);
      if r.status == Partial {
        ClampIsIdle(r);
      }
    }
  }

  /** The rate of accepted records is a hundred times their mean share, and 0 when there are none. */
  lemma RateExactly(records: seq<Stored>)
    requires AllAccepted(records)
    ensures if records == [] then CumulativeRate(records) == 0.0
            else CumulativeRate(records) * |records| as real == 100.0 * Shares(records)
  {
    CreditsAreShares(records);
    if records != [] {
      var n := |records| as real;
      var c := Credits(records);
      assert c * 100.0 / n * n == c * 100.0;
    }
  }

  /** A partial record that lacks its minutes, or its schedule, counts in full. */
  lemma UnmeasuredPartial(r: Stored)
    requires r.status == Partial && (r.minutes.None? || r.scheduled.None?)
    ensures Credit(r) == 1.0
  {
    var x := Coalesce(r.minutes, r.scheduled);
    if x != 0 {
      assert x as real / x as real == 1.0;
    }
  }

  lemma {:induction false} CreditsBound(records: seq<Stored>)
    requires AllAccepted(records)
    ensures 0.0 <= Credits(records) <= |records| as real
  {
    if records != [] {
      CreditsBound(records[1..]);
      if records[0].status == Partial {
        ClampIsIdle(records[0]);
      }
    }
  }

  /** The rate of any class of accepted records is a percentage. */
  lemma RateIsPercentage(records: seq<Stored>)
    requires AllAccepted(records)
    ensures 0.0 <= CumulativeRate(records) <= 100.0
  {
    CreditsBound(records);
    if records != [] {
      var n := |records| as real;
      var c := Credits(records);
      assert c * 100.0 <= n * 100.0;
      assert c * 100.0 / n <= 100.0;
    }
  }
}
